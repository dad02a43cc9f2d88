/** overlay_images: place the mosaic, scaled to 400 rows, on a background
    buffer, horizontally centred with its top at row 50, and alpha-blend it
    in with a feathered alpha plane. The Gaussian blur of the overlay's
    alpha is a parameter: `feather(i, j)` is the blurred value at row i and
    column j of the resized overlay. */
module OverlayImages {
  import opened Images
  import opened Wrappers

  /** The colour of the plain background, B, G, R (white, though named yellow). */
  const YellowBgr: seq<byte> := [255, 255, 255]
  const BackgroundWidth: nat := 1024
  const BackgroundHeight: nat := 600
  /** The row the person's top is placed at. */
  const PersonTop: nat := 50
  /** The height the overlay is scaled to. */
  const PersonHeight: nat := 400

  /** create_yellow_background: a height x width x 3 buffer of YellowBgr. */
  function CreateYellowBackground(width: nat, height: nat): (r: Raster)
    ensures r.Valid() && r.height == height && r.width == width && r.depth == 3
    ensures forall y, x :: 0 <= y < height && 0 <= x < width ==> r.px[y][x] == YellowBgr
  {
    Raster(height, width, 3, seq(height, y => seq(width, x => YellowBgr)))
  }

  // ---------------------------------------------------------------------------
  // Placement

  datatype Error =
    | MissingAlphaChannel   // ValueError: the overlay does not have 4 channels
    | ZeroHeightOverlay     // ZeroDivisionError in 400 / height
    | EmptyResize           // cv2.error: the scaled width is 0
    | BackgroundChannels    // IndexError: the background has fewer than 3 channels
    | ShapeMismatch         // numpy cannot broadcast the overlay onto the region

  /** Where the overlay goes: its scaled width, the unclamped left column
      x_start, and the rows and columns the region slice selects. */
  datatype Placement = Placement(newWidth: nat, xStart: int, rowStart: nat, rowCount: nat, colStart: nat, colCount: nat)

  /** new_width = int(width * (400 / height)), for a positive height. */
  function ScaledWidth(height: nat, width: nat): nat
    requires height > 0
  {
    width * PersonHeight / height
  }

  /** The scaled width is the largest w with w * height <= width * 400; it
      is 0 exactly when width * 400 < height. */
  lemma ScaledWidthBounds(height: nat, width: nat)
    requires height > 0
    ensures var w := ScaledWidth(height, width);
      && w * height <= width * PersonHeight < (w + 1) * height
      && (w == 0 <==> width * PersonHeight < height)
  {
    DivisionBounds(width * PersonHeight, height);
    var w := ScaledWidth(height, width);
    if w > 0 {
      MultiplyMonotone(1, w, height);
    }
  }

  /** numpy's broadcast of the region's colour plane (rows x cols) against
      the overlay's planes (400 x newWidth), assigned back to the region:
      the rows must be 400, and the columns newWidth unless newWidth is 1. */
  predicate Broadcasts(p: Placement) {
    p.rowCount == PersonHeight && (p.colCount == p.newWidth || p.newWidth == 1)
  }

  /** The placement on a bgHeight x bgWidth x bgDepth background, or the
      first error the function raises, in the order the source raises them. */
  function Fit(bgHeight: nat, bgWidth: nat, bgDepth: nat, overlay: Raster): (r: Result<Placement, Error>)
    ensures r.Err? && r.error == MissingAlphaChannel <==> overlay.depth != 4
    ensures r.Err? && r.error == ZeroHeightOverlay <==> overlay.depth == 4 && overlay.height == 0
    ensures r.Err? && r.error == EmptyResize <==>
      overlay.depth == 4 && overlay.height > 0 && ScaledWidth(overlay.height, overlay.width) == 0
    ensures r.Ok? ==> var p := r.value;
      && overlay.depth == 4 && overlay.height > 0
      && p.newWidth == ScaledWidth(overlay.height, overlay.width) > 0
      && p.xStart == (bgWidth - p.newWidth) / 2
      && (bgWidth - (p.xStart + p.newWidth)) - p.xStart in {0, 1}
      && p.rowStart == PersonTop && p.rowCount == PersonHeight && p.rowStart + p.rowCount <= bgHeight
      && p.colStart + p.colCount <= bgWidth
      && (p.newWidth <= bgWidth ==> p.colStart == p.xStart && p.colCount == p.newWidth)
      && p.colCount <= p.newWidth
      && 3 <= bgDepth
  {
    if overlay.depth != 4 then Err(MissingAlphaChannel)
    else if overlay.height == 0 then Err(ZeroHeightOverlay)
    else
      var newWidth := ScaledWidth(overlay.height, overlay.width);
      if newWidth == 0 then Err(EmptyResize)
      else
        var xStart := (bgWidth - newWidth) / 2;
        var (rowStart, rowCount) := Slice(PersonTop, PersonTop + PersonHeight, bgHeight);
        var (colStart, colCount) := Slice(xStart, xStart + newWidth, bgWidth);
        var p := Placement(newWidth, xStart, rowStart, rowCount, colStart, colCount);
        // The loop's first pass indexes channel 0 before it broadcasts, and
        // its later passes index channels 1 and 2.
        if bgDepth == 0 then Err(BackgroundChannels)
        else if !Broadcasts(p) then Err(ShapeMismatch)
        else if bgDepth < 3 then Err(BackgroundChannels)
        else Ok(p)
  }

  /** The placement succeeds exactly when the overlay is RGBA, scales to at
      least one column, fits across the background (or is a single column,
      which broadcasts), the background reaches row 450 and has 3 channels. */
  lemma FitSucceeds(bgHeight: nat, bgWidth: nat, bgDepth: nat, overlay: Raster)
    ensures Fit(bgHeight, bgWidth, bgDepth, overlay).Ok? <==>
      && overlay.depth == 4 && overlay.height > 0 && overlay.height <= overlay.width * PersonHeight
      && 3 <= bgDepth && PersonTop + PersonHeight <= bgHeight
      && (ScaledWidth(overlay.height, overlay.width) <= bgWidth || ScaledWidth(overlay.height, overlay.width) == 1)
  {
    if overlay.depth == 4 && overlay.height > 0 {
      ScaledWidthBounds(overlay.height, overlay.width);
      var newWidth := ScaledWidth(overlay.height, overlay.width);
      if newWidth > bgWidth && newWidth > 1 {
        var xStart := (bgWidth - newWidth) / 2;
        WideOverlayIsCut(xStart, newWidth, bgWidth);
      }
    }
  }

  /** An overlay wider than the background is cut by the slice, so the
      region has fewer columns than the overlay. */
  lemma WideOverlayIsCut(xStart: int, newWidth: nat, bgWidth: nat)
    requires bgWidth < newWidth && xStart == (bgWidth - newWidth) / 2
    ensures Slice(xStart, xStart + newWidth, bgWidth).1 < newWidth
  {
  }

  /** On the default 600 x 1024 x 3 canvas an RGBA overlay of positive
      height is placed exactly when it scales to between 1 and 1024 columns. */
  lemma DefaultCanvasFits(overlay: Raster)
    requires overlay.depth == 4 && overlay.height > 0
    ensures Fit(BackgroundHeight, BackgroundWidth, 3, overlay).Ok? <==>
      0 < ScaledWidth(overlay.height, overlay.width) <= BackgroundWidth
  {
    FitSucceeds(BackgroundHeight, BackgroundWidth, 3, overlay);
  }

  // ---------------------------------------------------------------------------
  // Blending

  /** np.clip(v, 0, 1). */
  function Clip(v: real): (c: real)
    ensures 0.0 <= c <= 1.0
    ensures 0.0 <= v <= 1.0 ==> c == v
  {
    if v < 0.0 then 0.0 else if v > 1.0 then 1.0 else v
  }

  /** The blend of line 56, bg * (1 - a) + fg * a, on exact reals. */
  function Mix(bg: real, fg: real, a: real): real {
    bg * (1.0 - a) + fg * a
  }

  /** The blend of two samples lies between them. */
  function BlendReal(bg: byte, fg: byte, a: real): (v: real)
    requires 0.0 <= a <= 1.0
    ensures (if bg <= fg then bg else fg) as real <= v <= (if bg <= fg then fg else bg) as real
  {
    MixBetween(bg as real, fg as real, a);
    Mix(bg as real, fg as real, a)
  }

  lemma MixBetween(b: real, f: real, a: real)
    requires 0.0 <= a <= 1.0
    ensures b <= f ==> b <= Mix(b, f, a) <= f
    ensures f < b ==> f <= Mix(b, f, a) <= b
  {
    assert Mix(b, f, a) == b + (f - b) * a;
    if b <= f {
      MultiplyAtMostOne(f - b, a);
    } else {
      MultiplyAtMostOne(b - f, a);
      assert (f - b) * a == -((b - f) * a);
    }
  }

  lemma MultiplyAtMostOne(d: real, a: real)
    requires 0.0 <= d && 0.0 <= a <= 1.0
    ensures 0.0 <= d * a <= d
  {
    assert d - d * a == d * (1.0 - a);
  }

  /** One blended channel after astype(np.uint8): the blend truncated. It
      lies between the two inputs; alpha 0 keeps the background and alpha 1
      gives the overlay. */
  function BlendChannel(bg: byte, fg: byte, a: real): (c: byte)
    requires 0.0 <= a <= 1.0
    ensures (if bg <= fg then bg else fg) <= c <= (if bg <= fg then fg else bg)
    ensures c as int == Trunc(BlendReal(bg, fg, a))
    ensures a == 0.0 ==> c == bg
    ensures a == 1.0 ==> c == fg
  {
    var v := BlendReal(bg, fg, a);
    TruncBetween(v, if bg <= fg then bg else fg, if bg <= fg then fg else bg);
    Trunc(v) as byte
  }

  /** Truncating a real between two samples gives a sample between them. */
  lemma TruncBetween(v: real, lo: byte, hi: byte)
    requires lo as real <= v <= hi as real
    ensures lo as int <= Trunc(v) <= hi as int
  {
  }

  /** The overlay scaled to 400 rows by nearest-neighbour resizing. */
  function Resized(overlay: Raster, p: Placement): (r: Raster)
    requires overlay.Valid() && overlay.height > 0 && overlay.width > 0
    ensures r.Valid() && r.height == PersonHeight && r.width == p.newWidth && r.depth == overlay.depth
  {
    ResizeNearest(overlay, p.newWidth, PersonHeight)
  }

  /** The placement of a successful fit, with the facts the blend relies on. */
  function Placed(bg: Raster, overlay: Raster): (p: Placement)
    requires Fit(bg.height, bg.width, bg.depth, overlay).Ok?
    ensures p == Fit(bg.height, bg.width, bg.depth, overlay).value
    ensures overlay.height > 0 && overlay.width > 0
  {
    ScaledWidthBounds(overlay.height, overlay.width);
    Fit(bg.height, bg.width, bg.depth, overlay).value
  }

  /** Whether (y, x, k) is a sample of the raster. */
  predicate Sample(r: Raster, y: int, x: int, k: int) {
    0 <= y < r.height && 0 <= x < r.width && 0 <= k < r.depth
  }

  /** Whether background pixel (y, x) lies in the region the overlay covers. */
  predicate InRegion(p: Placement, y: int, x: int) {
    p.rowStart <= y < p.rowStart + p.rowCount && p.colStart <= x < p.colStart + p.colCount
  }

  /** The feathered alpha at background pixel (y, x) of the region. */
  function AlphaAt(p: Placement, feather: (nat, nat) -> real, y: nat, x: nat): (a: real)
    requires InRegion(p, y, x)
    ensures 0.0 <= a <= 1.0
  {
    Clip(feather(y - p.rowStart, x - p.colStart))
  }

  /** The region lies inside the background and inside the overlay. */
  predicate RegionFits(p: Placement, bgHeight: nat, bgWidth: nat) {
    && p.rowStart + p.rowCount <= bgHeight && p.colStart + p.colCount <= bgWidth
    && p.rowCount <= PersonHeight && p.colCount <= p.newWidth
  }

  /** The resized overlay has 400 rows, the placement's width and all four channels. */
  ghost predicate OverlayShape(fg: Raster, p: Placement) {
    fg.Valid() && fg.height == PersonHeight && fg.width == p.newWidth && fg.depth == 4
  }

  /** The background with the region's colour channels blended with fg. */
  function Blend(bg: Raster, p: Placement, fg: Raster, feather: (nat, nat) -> real): (r: Raster)
    requires bg.Valid() && OverlayShape(fg, p) && RegionFits(p, bg.height, bg.width)
    ensures r.Valid()
    ensures r.height == bg.height && r.width == bg.width && r.depth == bg.depth
  {
    Raster(bg.height, bg.width, bg.depth,
      seq(bg.height, y requires 0 <= y < bg.height =>
        seq(bg.width, x requires 0 <= x < bg.width =>
          seq(bg.depth, k requires 0 <= k < bg.depth =>
            if InRegion(p, y, x) && k < 3 then
              BlendChannel(bg.px[y][x][k], fg.px[y - p.rowStart][x - p.colStart][k], AlphaAt(p, feather, y, x))
            else bg.px[y][x][k]))))
  }

  /** The background after overlay_images_with_feathered_edges: inside the
      region the three colour channels are blended with the one feathered
      alpha of that pixel; everything else is as it was. */
  function Composite(bg: Raster, overlay: Raster, feather: (nat, nat) -> real): (r: Raster)
    requires bg.Valid() && overlay.Valid()
    requires Fit(bg.height, bg.width, bg.depth, overlay).Ok?
    ensures r.Valid()
    ensures r.height == bg.height && r.width == bg.width && r.depth == bg.depth
  {
    var p := Placed(bg, overlay);
    Blend(bg, p, Resized(overlay, p), feather)
  }

  /** What the composite promises: nothing outside the region changes, no
      channel past the colour channels changes, and each colour channel
      inside is a blend that lies between the background and the overlay
      sample, keeping the background at alpha 0 and taking the overlay at
      alpha 1. */
  lemma CompositePixel(bg: Raster, overlay: Raster, feather: (nat, nat) -> real, y: nat, x: nat, k: nat)
    requires bg.Valid() && overlay.Valid()
    requires Fit(bg.height, bg.width, bg.depth, overlay).Ok?
    requires y < bg.height && x < bg.width && k < bg.depth
    ensures var p, r := Placed(bg, overlay), Composite(bg, overlay, feather);
      && (!InRegion(p, y, x) || 3 <= k ==> r.px[y][x][k] == bg.px[y][x][k])
      && (InRegion(p, y, x) && k < 3 ==>
            var b, f, a := bg.px[y][x][k], Resized(overlay, p).px[y - PersonTop][x - p.colStart][k], AlphaAt(p, feather, y, x);
            && (if b <= f then b else f) <= r.px[y][x][k] <= (if b <= f then f else b)
            && (a == 0.0 ==> r.px[y][x][k] == b)
            && (a == 1.0 ==> r.px[y][x][k] == f))
  {
  }

  /** With no feathering (the alpha plane used as is), an opaque overlay
      pixel replaces the background's colour and a transparent one leaves it. */
  lemma HardEdges(bg: Raster, overlay: Raster, feather: (nat, nat) -> real, y: nat, x: nat, k: nat)
    requires bg.Valid() && overlay.Valid()
    requires Fit(bg.height, bg.width, bg.depth, overlay).Ok?
    requires forall i: nat, j: nat :: i < PersonHeight && j < Placed(bg, overlay).newWidth ==>
      feather(i, j) == Resized(overlay, Placed(bg, overlay)).px[i][j][3] as real / 255.0
    requires y < bg.height && x < bg.width && k < 3 && InRegion(Placed(bg, overlay), y, x)
    ensures var p := Placed(bg, overlay);
      var o := Resized(overlay, p).px[y - PersonTop][x - p.colStart];
      && (o[3] == 255 ==> Composite(bg, overlay, feather).px[y][x][k] == o[k])
      && (o[3] == 0 ==> Composite(bg, overlay, feather).px[y][x][k] == bg.px[y][x][k])
  {
    var p := Placed(bg, overlay);
    assert x - p.colStart < p.newWidth;
  }

  // ---------------------------------------------------------------------------
  // The in-place update

  /** The error the channel loop raises, if any: channel 0 is indexed before
      the first broadcast, channels 1 and 2 on the later passes. */
  function LoopError(bgDepth: nat, p: Placement): Option<Error> {
    if bgDepth == 0 then Some(BackgroundChannels)
    else if !Broadcasts(p) then Some(ShapeMismatch)
    else if bgDepth < 3 then Some(BackgroundChannels)
    else None
  }

  /** overlay_images_with_feathered_edges: check the overlay, size and place
      it, then blend it into the background in place; the background is
      also what is returned. On an error the background is left as it was. */
  method OverlayWithFeatheredEdges(background: array3<byte>, overlay: Raster, feather: (nat, nat) -> real)
    returns (r: Result<array3<byte>, Error>)
    requires overlay.Valid()
    modifies background
    ensures r.Err? <==> Fit(background.Length0, background.Length1, background.Length2, overlay).Err?
    ensures r.Err? ==> r.error == Fit(background.Length0, background.Length1, background.Length2, overlay).error
    ensures r.Err? ==> unchanged(background)
    ensures r.Ok? ==> r.value == background
    ensures r.Ok? ==> View(background) == Composite(old(View(background)), overlay, feather)
  {
    var bgHeight, bgWidth := background.Length0, background.Length1;
    if overlay.depth != 4 {
      return Err(MissingAlphaChannel);
    }
    if overlay.height == 0 {
      return Err(ZeroHeightOverlay);
    }
    var newWidth := ScaledWidth(overlay.height, overlay.width);
    if newWidth == 0 {
      return Err(EmptyResize);
    }
    var xStart := (bgWidth - newWidth) / 2;
    var (rowStart, rowCount) := Slice(PersonTop, PersonTop + PersonHeight, bgHeight);
    var (colStart, colCount) := Slice(xStart, xStart + newWidth, bgWidth);
    var p := Placement(newWidth, xStart, rowStart, rowCount, colStart, colCount);
    ScaledWidthBounds(overlay.height, overlay.width);
    var fg := Resized(overlay, p);
    var err := BlendRegion(background, p, fg, feather);
    if err.Some? {
      return Err(err.value);
    }
    r := Ok(background);
  }

  /** Lines 54-59: copy the region to a buffer of reals, blend its three
      colour channels one at a time, and write the truncated region back. */
  method BlendRegion(background: array3<byte>, p: Placement, fg: Raster, feather: (nat, nat) -> real)
    returns (err: Option<Error>)
    requires OverlayShape(fg, p) && RegionFits(p, background.Length0, background.Length1)
    modifies background
    ensures err == LoopError(background.Length2, p)
    ensures err.Some? ==> unchanged(background)
    ensures err.None? ==> View(background) == Blend(old(View(background)), p, fg, feather)
  {
    ghost var before := View(background);
    var roi := CopyRegion(background, p);
    assert forall i, j, k :: 0 <= i < p.rowCount && 0 <= j < p.colCount && 0 <= k < background.Length2 ==>
      roi[i, j, k] == RegionAfter(before, p, fg, feather, 0, i, j, k);
    err := BlendChannels(roi, before, p, fg, feather);
    if err.Some? {
      return;
    }
    RegionHoldsSamples(roi, before, p, fg, feather);
    WriteBack(background, roi, p);
    WrittenBackIsBlend(background, roi, before, p, fg, feather);
  }

  /** Line 54: the region of the background as a fresh buffer of reals. */
  method CopyRegion(background: array3<byte>, p: Placement) returns (roi: array3<real>)
    requires RegionFits(p, background.Length0, background.Length1)
    ensures fresh(roi)
    ensures roi.Length0 == p.rowCount && roi.Length1 == p.colCount && roi.Length2 == background.Length2
    ensures forall i, j, k :: 0 <= i < p.rowCount && 0 <= j < p.colCount && 0 <= k < background.Length2 ==>
      roi[i, j, k] == background[p.rowStart + i, p.colStart + j, k] as real
  {
    var rowStart, rowCount, colStart, colCount := p.rowStart, p.rowCount, p.colStart, p.colCount;
    roi := new real[rowCount, colCount, background.Length2];
    forall i, j, k | 0 <= i < rowCount && 0 <= j < colCount && 0 <= k < background.Length2 {
      roi[i, j, k] := background[rowStart + i, colStart + j, k] as real;
    }
  }

  /** Line 59: the region buffer, truncated to bytes, written back into
      the region of the background; no other sample changes (the forall
      rewrites them with their own value). */
  method WriteBack(background: array3<byte>, roi: array3<real>, p: Placement)
    requires RegionFits(p, background.Length0, background.Length1)
    requires roi.Length0 == p.rowCount && roi.Length1 == p.colCount && roi.Length2 == background.Length2
    requires forall i, j, k :: 0 <= i < roi.Length0 && 0 <= j < roi.Length1 && 0 <= k < roi.Length2 ==>
      0 <= Trunc(roi[i, j, k]) < 256
    modifies background
    ensures forall y, x, k :: InArray(background, y, x, k) && InRegion(p, y, x) ==>
      background[y, x, k] as int == Trunc(roi[y - p.rowStart, x - p.colStart, k])
    ensures forall y, x, k :: InArray(background, y, x, k) && !InRegion(p, y, x) ==>
      background[y, x, k] == old(background[y, x, k])
  {
    var rowStart, colStart := p.rowStart, p.colStart;
    forall y, x, k | 0 <= y < background.Length0 && 0 <= x < background.Length1 && 0 <= k < background.Length2 {
      background[y, x, k] := if InRegion(p, y, x) then Trunc(roi[y - rowStart, x - colStart, k]) as byte
        else background[y, x, k];
    }
  }

  /** Whether (y, x, k) indexes a sample of the buffer. */
  predicate InArray(a: array3<byte>, y: int, x: int, k: int) {
    0 <= y < a.Length0 && 0 <= x < a.Length1 && 0 <= k < a.Length2
  }

  /** The loop of lines 55-56 over the region buffer: blend channels 0, 1
      and 2 in turn, or stop with the error a pass raises. */
  method BlendChannels(roi: array3<real>, ghost before: Raster, p: Placement, fg: Raster, feather: (nat, nat) -> real)
    returns (err: Option<Error>)
    requires before.Valid() && OverlayShape(fg, p) && RegionFits(p, before.height, before.width)
    requires roi.Length0 == p.rowCount && roi.Length1 == p.colCount && roi.Length2 == before.depth
    requires forall i, j, k :: 0 <= i < p.rowCount && 0 <= j < p.colCount && 0 <= k < before.depth ==>
      roi[i, j, k] == RegionAfter(before, p, fg, feather, 0, i, j, k)
    modifies roi
    ensures err == LoopError(before.depth, p)
    ensures err.None? ==> forall i, j, k :: 0 <= i < p.rowCount && 0 <= j < p.colCount && 0 <= k < before.depth ==>
      roi[i, j, k] == RegionAfter(before, p, fg, feather, 3, i, j, k)
  {
    var rowCount, colCount, depth := roi.Length0, roi.Length1, roi.Length2;
    for c := 0 to 3
      invariant c > 0 ==> Broadcasts(p) && c <= depth
      invariant forall i, j, k :: 0 <= i < rowCount && 0 <= j < colCount && 0 <= k < depth ==>
        roi[i, j, k] == RegionAfter(before, p, fg, feather, c, i, j, k)
    {
      if c >= depth {
        return Some(BackgroundChannels);
      }
      if !Broadcasts(p) {
        return Some(ShapeMismatch);
      }
      label Blend:
      forall i, j | 0 <= i < rowCount && 0 <= j < colCount {
        roi[i, j, c] := Mix(roi[i, j, c], fg.px[i][j][c] as real, Clip(feather(i, j)));
      }
      forall i, j, k | 0 <= i < rowCount && 0 <= j < colCount && 0 <= k < depth
        ensures roi[i, j, k] == RegionAfter(before, p, fg, feather, c + 1, i, j, k)
      {
        assert old@Blend(roi[i, j, k]) == RegionAfter(before, p, fg, feather, c, i, j, k);
      }
    }
    err := None;
  }

  lemma RegionHoldsSamples(roi: array3<real>, before: Raster, p: Placement, fg: Raster, feather: (nat, nat) -> real)
    requires before.Valid() && OverlayShape(fg, p) && RegionFits(p, before.height, before.width)
    requires roi.Length0 == p.rowCount && roi.Length1 == p.colCount && roi.Length2 == before.depth
    requires forall i, j, k :: 0 <= i < p.rowCount && 0 <= j < p.colCount && 0 <= k < before.depth ==>
      roi[i, j, k] == RegionAfter(before, p, fg, feather, 3, i, j, k)
    ensures forall i, j, k :: 0 <= i < roi.Length0 && 0 <= j < roi.Length1 && 0 <= k < roi.Length2 ==>
      0 <= Trunc(roi[i, j, k]) < 256
  {
    forall i, j, k | 0 <= i < roi.Length0 && 0 <= j < roi.Length1 && 0 <= k < roi.Length2
      ensures 0 <= Trunc(roi[i, j, k]) < 256
    {
      RegionAfterIsSample(before, p, fg, feather, 3, i, j, k);
    }
  }

  /** Every sample of the region buffer truncates to a byte. */
  lemma RegionAfterIsSample(bg: Raster, p: Placement, fg: Raster, feather: (nat, nat) -> real,
                            c: nat, i: nat, j: nat, k: nat)
    requires bg.Valid() && OverlayShape(fg, p) && RegionFits(p, bg.height, bg.width)
    requires i < p.rowCount && j < p.colCount && k < bg.depth && c <= 3
    ensures 0 <= Trunc(RegionAfter(bg, p, fg, feather, c, i, j, k)) < 256
  {
    var b := bg.px[p.rowStart + i][p.colStart + j][k];
    if k < c {
      var f := fg.px[i][j][k];
      TruncBetween(BlendReal(b, f, Clip(feather(i, j))), if b <= f then b else f, if b <= f then f else b);
    }
  }

  /** The background after the write-back of line 59 holds the blend: the
      region holds the truncated region buffer and the rest is as before. */
  lemma WrittenBackIsBlend(background: array3<byte>, roi: array3<real>, before: Raster, p: Placement,
                           fg: Raster, feather: (nat, nat) -> real)
    requires before.Valid() && OverlayShape(fg, p) && RegionFits(p, before.height, before.width)
    requires background.Length0 == before.height && background.Length1 == before.width
    requires background.Length2 == before.depth
    requires roi.Length0 == p.rowCount && roi.Length1 == p.colCount && roi.Length2 == before.depth
    requires forall i, j, k :: 0 <= i < p.rowCount && 0 <= j < p.colCount && 0 <= k < before.depth ==>
      roi[i, j, k] == RegionAfter(before, p, fg, feather, 3, i, j, k)
    requires forall y, x, k :: Sample(before, y, x, k) && InRegion(p, y, x) ==>
      background[y, x, k] as int == Trunc(roi[y - p.rowStart, x - p.colStart, k])
    requires forall y, x, k :: Sample(before, y, x, k) && !InRegion(p, y, x) ==>
      background[y, x, k] == before.px[y][x][k]
    ensures View(background) == Blend(before, p, fg, feather)
  {
    ghost var after := Blend(before, p, fg, feather);
    forall y, x, k | 0 <= y < before.height && 0 <= x < before.width && 0 <= k < before.depth
      ensures background[y, x, k] == after.px[y][x][k]
    {
      if InRegion(p, y, x) {
        RegionSampleIsBlend(before, p, fg, feather, y, x, k);
      } else {
        BlendAt(before, p, fg, feather, y, x, k);
      }
    }
    ViewIs(background, after);
  }

  /** Inside the region, the truncated region buffer is the blend. */
  lemma RegionSampleIsBlend(bg: Raster, p: Placement, fg: Raster, feather: (nat, nat) -> real, y: nat, x: nat, k: nat)
    requires bg.Valid() && OverlayShape(fg, p) && RegionFits(p, bg.height, bg.width)
    requires y < bg.height && x < bg.width && k < bg.depth && InRegion(p, y, x)
    ensures Trunc(RegionAfter(bg, p, fg, feather, 3, y - p.rowStart, x - p.colStart, k)) ==
      Blend(bg, p, fg, feather).px[y][x][k] as int
  {
    BlendAt(bg, p, fg, feather, y, x, k);
    var i, j := y - p.rowStart, x - p.colStart;
    var b := bg.px[y][x][k];
    assert p.rowStart + i == y && p.colStart + j == x;
    if k < 3 {
      assert RegionAfter(bg, p, fg, feather, 3, i, j, k) == BlendReal(b, fg.px[i][j][k], AlphaAt(p, feather, y, x));
    } else {
      assert RegionAfter(bg, p, fg, feather, 3, i, j, k) == b as real;
    }
  }

  /** One sample of the blended background, by cases. */
  lemma BlendAt(bg: Raster, p: Placement, fg: Raster, feather: (nat, nat) -> real, y: nat, x: nat, k: nat)
    requires bg.Valid() && OverlayShape(fg, p) && RegionFits(p, bg.height, bg.width)
    requires y < bg.height && x < bg.width && k < bg.depth
    ensures Blend(bg, p, fg, feather).px[y][x][k] ==
      if InRegion(p, y, x) && k < 3 then
        BlendChannel(bg.px[y][x][k], fg.px[y - p.rowStart][x - p.colStart][k], AlphaAt(p, feather, y, x))
      else bg.px[y][x][k]
  {
  }

  /** Sample (i, j, k) of the region buffer once channels 0 to c - 1 are
      blended: a blend for those channels, the background's sample for the rest. */
  ghost function RegionAfter(bg: Raster, p: Placement, fg: Raster, feather: (nat, nat) -> real,
                             c: nat, i: nat, j: nat, k: nat): real
    requires bg.Valid() && OverlayShape(fg, p) && RegionFits(p, bg.height, bg.width)
    requires i < p.rowCount && j < p.colCount && k < bg.depth && c <= 3
  {
    var b := bg.px[p.rowStart + i][p.colStart + j][k];
    if k < c then BlendReal(b, fg.px[i][j][k], Clip(feather(i, j))) else b as real
  }
}
