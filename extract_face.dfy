/** extract_face: normalise the channel layout, matte the subject with the
    segmentation mask, and crop the band around the face. The segmenter's
    probabilities and the face mesh's landmarks are parameters. */
module ExtractFace {
  import opened Images
  import opened Wrappers

  /** What extract_face raises. */
  datatype Error =
    | UnsupportedChannelCount  // a 3-D input whose channel count is neither 3 nor 4
    | NoFaceDetected           // the face mesh found no face
    | NoLandmarks              // min() over an empty list of landmark columns
    | EmptyCrop                // cv2.imwrite refuses the crop: it has no rows or no columns

  /** The decoded input: a 2-D grey array, or an H x W x C array. */
  datatype Picture =
    | Plane(height: nat, width: nat, gray: seq<seq<byte>>)
    | Layered(raster: Raster)
  {
    ghost predicate Valid() {
      match this
      case Plane(h, w, g) => |g| == h && forall y :: 0 <= y < h ==> |g[y]| == w
      case Layered(r) => r.Valid()
    }

    function Height(): nat {
      if Plane? then height else raster.height
    }

    function Width(): nat {
      if Plane? then width else raster.width
    }
  }

  /** The one face the mesh reports: its landmark columns, already scaled to
      whole pixels (int(x * width)), and its chin row (the largest landmark y
      times the image height). */
  datatype Face = Face(xs: seq<int>, chinY: real)

  /** Foreground probability above which a pixel belongs to the subject.
      The mask is float32, so the comparison with 0.1 is made against the
      float32 nearest to 0.1, which is 13421773 / 2^27. */
  const MaskThreshold: real := 0.100000001490116119384765625
  /** Margin added on each side of the face band, as a fraction of its width. */
  const BandMargin: real := 0.2
  /** How far below the chin the crop reaches, as a fraction of the face height. */
  const NeckMargin: real := 0.2

  // ---------------------------------------------------------------------------
  // Channel dispatch and the matted buffer

  /** The RGB image extract_face works on: grey is replicated into three
      channels, BGR is reversed, BGRA is reversed with its alpha dropped; any
      other channel count on a 3-D input is refused. */
  function ToRgb(pic: Picture): (r: Result<Raster, Error>)
    requires pic.Valid()
    ensures r.Err? <==> pic.Layered? && pic.raster.depth != 3 && pic.raster.depth != 4
    ensures r.Err? ==> r.error == UnsupportedChannelCount
    ensures r.Ok? ==> r.value.Valid() && r.value.depth == 3
    ensures r.Ok? ==> r.value.height == pic.Height() && r.value.width == pic.Width()
  {
    match pic
    case Plane(h, w, g) =>
      Ok(Raster(h, w, 3,
        seq(h, y requires 0 <= y < h =>
          seq(w, x requires 0 <= x < w => [g[y][x], g[y][x], g[y][x]]))))
    case Layered(img) =>
      if img.depth == 3 || img.depth == 4 then
        Ok(Raster(img.height, img.width, 3,
          seq(img.height, y requires 0 <= y < img.height =>
            seq(img.width, x requires 0 <= x < img.width =>
              [img.px[y][x][2], img.px[y][x][1], img.px[y][x][0]]))))
      else
        Err(UnsupportedChannelCount)
  }

  /** The alpha a pixel gets from its foreground probability: the boolean
      mask times 255. */
  function MaskAlpha(p: real): byte {
    if p > MaskThreshold then 255 else 0
  }

  /** The matted buffer: the RGB image converted back to BGRA, with its
      alpha plane replaced by the mask. */
  function ComposeBgra(rgb: Raster, segmentation: (int, int) -> real): (c: Raster)
    requires rgb.Valid() && rgb.depth == 3
    ensures c.Valid() && c.height == rgb.height && c.width == rgb.width && c.depth == 4
  {
    Raster(rgb.height, rgb.width, 4,
      seq(rgb.height, y requires 0 <= y < rgb.height =>
        seq(rgb.width, x requires 0 <= x < rgb.width =>
          [rgb.px[y][x][2], rgb.px[y][x][1], rgb.px[y][x][0], MaskAlpha(segmentation(y, x))])))
  }

  /** The matted buffer keeps the input's colours (the two channel reversals
      cancel; grey is replicated) and is opaque exactly where the subject is. */
  lemma ComposedColourAndAlpha(pic: Picture, segmentation: (int, int) -> real, y: nat, x: nat)
    requires pic.Valid() && ToRgb(pic).Ok?
    requires y < pic.Height() && x < pic.Width()
    ensures var c := ComposeBgra(ToRgb(pic).value, segmentation).px[y][x];
      && (c[3] == 255 <==> segmentation(y, x) > MaskThreshold)
      && (c[3] == 0 <==> segmentation(y, x) <= MaskThreshold)
      && (pic.Plane? ==> c[..3] == [pic.gray[y][x], pic.gray[y][x], pic.gray[y][x]])
      && (pic.Layered? ==> c[..3] == pic.raster.px[y][x][..3])
  {
  }

  /** cv2.cvtColor(image_rgb, COLOR_RGB2BGRA): a fresh buffer with the
      channels reversed and alpha 255. */
  method RgbToBgra(rgb: Raster) returns (a: array3<byte>)
    requires rgb.Valid() && rgb.depth == 3
    ensures fresh(a)
    ensures a.Length0 == rgb.height && a.Length1 == rgb.width && a.Length2 == 4
    ensures forall y, x, k :: 0 <= y < a.Length0 && 0 <= x < a.Length1 && 0 <= k < 3 ==>
      a[y, x, k] == rgb.px[y][x][2 - k]
    ensures forall y, x :: 0 <= y < a.Length0 && 0 <= x < a.Length1 ==> a[y, x, 3] == 255
  {
    a := new byte[rgb.height, rgb.width, 4];
    forall y, x, k | 0 <= y < rgb.height && 0 <= x < rgb.width && 0 <= k < 4 {
      a[y, x, k] := if k < 3 then rgb.px[y][x][2 - k] else 255;
    }
  }

  /** image_bgra[:, :, 3] = mask * 255, in place: the alpha plane becomes the
      mask and the colour planes are left as they are. */
  method ApplyMask(a: array3<byte>, segmentation: (int, int) -> real)
    requires a.Length2 == 4
    modifies a
    ensures forall y, x, k :: 0 <= y < a.Length0 && 0 <= x < a.Length1 && 0 <= k < 3 ==>
      a[y, x, k] == old(a[y, x, k])
    ensures forall y, x :: 0 <= y < a.Length0 && 0 <= x < a.Length1 ==>
      a[y, x, 3] == MaskAlpha(segmentation(y, x))
  {
    forall y, x | 0 <= y < a.Length0 && 0 <= x < a.Length1 {
      a[y, x, 3] := MaskAlpha(segmentation(y, x));
    }
  }

  // ---------------------------------------------------------------------------
  // The face band

  function SeqMin(xs: seq<int>): (m: int)
    requires |xs| > 0
    ensures m in xs
    ensures forall i :: 0 <= i < |xs| ==> m <= xs[i]
  {
    if |xs| == 1 then xs[0]
    else var rest := SeqMin(xs[1..]); if xs[0] <= rest then xs[0] else rest
  }

  function SeqMax(xs: seq<int>): (m: int)
    requires |xs| > 0
    ensures m in xs
    ensures forall i :: 0 <= i < |xs| ==> xs[i] <= m
  {
    if |xs| == 1 then xs[0]
    else var rest := SeqMax(xs[1..]); if xs[0] >= rest then xs[0] else rest
  }

  function Max(a: int, b: int): int {
    if a >= b then a else b
  }

  function Min(a: int, b: int): int {
    if a <= b then a else b
  }

  /** The band the landmarks span, clamped to the image, before the margin. */
  function RawBand(xs: seq<int>, width: nat): (band: (int, int))
    requires |xs| > 0
  {
    (Max(0, SeqMin(xs)), Min(width, SeqMax(xs)))
  }

  /** int(spread * 0.2): Python truncates toward zero. */
  function Margin(spread: int): int {
    Trunc(spread as real * BandMargin)
  }

  /** The band [left_x, right_x) that is searched and cropped: the raw band
      widened on each side by the margin and clamped to the image again. */
  function FaceBand(xs: seq<int>, width: nat): (band: (int, int))
    requires |xs| > 0
    ensures 0 <= band.0 && band.1 <= width
  {
    var (left, right) := RawBand(xs, width);
    var margin := Margin(right - left);
    (Max(0, left - margin), Min(width, right + margin))
  }

  /** For a non-negative spread the margin is the spread divided by 5. */
  lemma MarginIsFifth(spread: int)
    requires spread >= 0
    ensures Margin(spread) == spread / 5
  {
    var t := Margin(spread);
    assert t as real <= spread as real * 0.2 < t as real + 1.0;
    assert 5 * t <= spread < 5 * t + 5;
  }

  /** When the raw band is not inverted, the margin only widens it, by a
      fifth of its width on each side before clamping. */
  lemma BandWidens(xs: seq<int>, width: nat)
    requires |xs| > 0
    requires RawBand(xs, width).0 <= RawBand(xs, width).1
    ensures var (left, right) := RawBand(xs, width);
      var d := right - left;
      && FaceBand(xs, width) == (Max(0, left - d / 5), Min(width, right + d / 5))
      && FaceBand(xs, width).0 <= left && right <= FaceBand(xs, width).1
  {
    var (left, right) := RawBand(xs, width);
    MarginIsFifth(right - left);
  }

  /** With every landmark column inside [0, width], the band lies inside the
      image, is not inverted and covers every landmark; it may be empty. */
  lemma BandInsideImage(xs: seq<int>, width: nat)
    requires |xs| > 0
    requires forall i :: 0 <= i < |xs| ==> 0 <= xs[i] <= width
    ensures var (left, right) := FaceBand(xs, width);
      && 0 <= left <= right <= width
      && forall i :: 0 <= i < |xs| ==> left <= xs[i] <= right
  {
    BandWidens(xs, width);
  }

  /** Landmarks that all share one column give an empty band. */
  lemma CoincidentLandmarksGiveEmptyBand(xs: seq<int>, width: nat, c: int)
    requires |xs| > 0 && 0 <= c <= width
    requires forall i :: 0 <= i < |xs| ==> xs[i] == c
    ensures FaceBand(xs, width) == (c, c)
  {
    BandWidens(xs, width);
  }

  // ---------------------------------------------------------------------------
  // The top of the subject inside the band

  /** Row y has a non-transparent pixel in columns [left, right). */
  ghost predicate RowVisible(img: Raster, y: int, left: int, right: int)
    requires img.Valid() && img.depth == 4
  {
    && 0 <= y < img.height
    && exists x :: left <= x < right && 0 <= x < img.width && img.px[y][x][3] != 0
  }

  ghost function FirstVisibleFrom(img: Raster, y: nat, left: int, right: int): nat
    requires img.Valid() && img.depth == 4
    decreases img.height - y
  {
    if y >= img.height then 0
    else if RowVisible(img, y, left, right) then y
    else FirstVisibleFrom(img, y + 1, left, right)
  }

  /** top_y: the first row with a non-transparent pixel in the band, or 0. */
  ghost function TopY(img: Raster, left: int, right: int): nat
    requires img.Valid() && img.depth == 4
  {
    FirstVisibleFrom(img, 0, left, right)
  }

  lemma {:induction false} FirstVisibleFromIsLeast(img: Raster, y: nat, left: int, right: int)
    requires img.Valid() && img.depth == 4 && y <= img.height
    ensures var t := FirstVisibleFrom(img, y, left, right);
      && ((exists v :: y <= v < img.height && RowVisible(img, v, left, right)) ==>
            y <= t < img.height && RowVisible(img, t, left, right) &&
            forall v :: y <= v < t ==> !RowVisible(img, v, left, right))
      && ((forall v :: y <= v < img.height ==> !RowVisible(img, v, left, right)) ==> t == 0)
    decreases img.height - y
  {
    if y < img.height && !RowVisible(img, y, left, right) {
      FirstVisibleFromIsLeast(img, y + 1, left, right);
    }
  }

  /** top_y is the least row with a non-transparent pixel in the band, every
      row above it is transparent there, and it is 0 when no row qualifies
      (in particular when the band is empty). */
  lemma TopYIsFirstVisibleRow(img: Raster, left: int, right: int)
    requires img.Valid() && img.depth == 4
    ensures var t := TopY(img, left, right);
      && ((exists v :: 0 <= v < img.height && RowVisible(img, v, left, right)) ==>
            t < img.height && RowVisible(img, t, left, right) &&
            forall v :: 0 <= v < t ==> !RowVisible(img, v, left, right))
      && ((forall v :: 0 <= v < img.height ==> !RowVisible(img, v, left, right)) ==> t == 0)
      && (right <= left ==> t == 0)
  {
    FirstVisibleFromIsLeast(img, 0, left, right);
  }

  /** The generator search of lines 67-69: scan rows from the top and stop at
      the first one whose band is not all transparent. */
  method FindTopY(a: array3<byte>, left: int, right: int) returns (top: nat)
    requires a.Length2 == 4 && 0 <= left && right <= a.Length1
    ensures top == TopY(View(a), left, right)
  {
    ghost var img := View(a);
    var y := 0;
    while y < a.Length0
      invariant 0 <= y <= a.Length0
      invariant TopY(img, left, right) == FirstVisibleFrom(img, y, left, right)
    {
      var x := left;
      var clear := true;
      while clear && x < right
        invariant left <= x
        invariant x <= right || x == left
        invariant clear ==> forall v :: left <= v < x ==> a[y, v, 3] == 0
        invariant !clear ==> RowVisible(img, y, left, right)
      {
        if a[y, x, 3] != 0 {
          clear := false;
        } else {
          x := x + 1;
        }
      }
      if !clear {
        return y;
      }
      y := y + 1;
    }
    top := 0;
  }

  // ---------------------------------------------------------------------------
  // The crop

  /** bottom_y: int(chin_y + 0.2 * (chin_y - top_y)), never clamped. */
  function BottomY(chinY: real, topY: int): int {
    Trunc(chinY + (chinY - topY as real) * NeckMargin)
  }

  /** Below a chin at or under top_y the crop reaches at least to top_y, and
      at most a fifth of the face height past the chin. */
  lemma BottomNotAboveTop(chinY: real, topY: int)
    requires 0 <= topY && topY as real <= chinY
    ensures topY <= BottomY(chinY, topY)
    ensures BottomY(chinY, topY) as real <= chinY + (chinY - topY as real) * NeckMargin
  {
  }

  /** Rows [top, bottom) and columns [left, right) of a numpy slice. */
  datatype Rect = Rect(top: int, bottom: int, left: int, right: int)

  /** image_bgra[top:bottom, left:right], with numpy's slicing rule. */
  function CropSpec(img: Raster, rect: Rect): (c: Raster)
    requires img.Valid()
    ensures c.Valid() && c.depth == img.depth
    ensures c.height == Slice(rect.top, rect.bottom, img.height).1
    ensures c.width == Slice(rect.left, rect.right, img.width).1
    ensures forall i, j :: 0 <= i < c.height && 0 <= j < c.width ==>
      c.px[i][j] == img.px[Slice(rect.top, rect.bottom, img.height).0 + i][Slice(rect.left, rect.right, img.width).0 + j]
  {
    var (r0, rows) := Slice(rect.top, rect.bottom, img.height);
    var (c0, cols) := Slice(rect.left, rect.right, img.width);
    Raster(rows, cols, img.depth,
      seq(rows, i requires 0 <= i < rows =>
        seq(cols, j requires 0 <= j < cols => img.px[r0 + i][c0 + j])))
  }

  /** For a crop that starts inside the image and a band inside it, the crop
      has max(0, min(bottom, height) - top) rows and right - left columns,
      and pixel (i, j) is pixel (top + i, left + j) of the buffer. */
  lemma CropShape(img: Raster, rect: Rect)
    requires img.Valid()
    requires 0 <= rect.top <= img.height && 0 <= rect.bottom
    requires 0 <= rect.left <= rect.right <= img.width
    ensures var c := CropSpec(img, rect);
      && c.height == Max(0, Min(rect.bottom, img.height) - rect.top)
      && c.width == rect.right - rect.left
      && forall i, j :: 0 <= i < c.height && 0 <= j < c.width ==>
           c.px[i][j] == img.px[rect.top + i][rect.left + j]
  {
  }

  /** Copies the slice into a fresh buffer (numpy returns a view of it). */
  method Crop(a: array3<byte>, rect: Rect) returns (c: array3<byte>)
    ensures fresh(c)
    ensures View(c) == CropSpec(View(a), rect)
  {
    ghost var spec := CropSpec(View(a), rect);
    var rs := Slice(rect.top, rect.bottom, a.Length0);
    var cs := Slice(rect.left, rect.right, a.Length1);
    c := new byte[rs.1, cs.1, a.Length2];
    forall i, j, k | 0 <= i < rs.1 && 0 <= j < cs.1 && 0 <= k < a.Length2 {
      c[i, j, k] := a[rs.0 + i, cs.0 + j, k];
    }
    CroppedIs(a, c, rect, spec);
  }

  lemma CroppedIs(a: array3<byte>, c: array3<byte>, rect: Rect, spec: Raster)
    requires spec == CropSpec(View(a), rect)
    requires c.Length0 == spec.height && c.Length1 == spec.width && c.Length2 == a.Length2
    requires forall i, j, k :: 0 <= i < c.Length0 && 0 <= j < c.Length1 && 0 <= k < c.Length2 ==>
      c[i, j, k] == a[Slice(rect.top, rect.bottom, a.Length0).0 + i, Slice(rect.left, rect.right, a.Length1).0 + j, k]
    ensures View(c) == spec
  {
    var r0, c0 := Slice(rect.top, rect.bottom, a.Length0).0, Slice(rect.left, rect.right, a.Length1).0;
    forall i, j, k | 0 <= i < c.Length0 && 0 <= j < c.Length1 && 0 <= k < c.Length2
      ensures c[i, j, k] == spec.px[i][j][k]
    {
      assert spec.px[i][j] == View(a).px[r0 + i][c0 + j];
    }
    ViewIs(c, spec);
  }

  /** What a successful extraction returns: the matted buffer cropped to the
      face band, from top_y down to bottom_y. */
  ghost function FaceCrop(composed: Raster, face: Face): Raster
    requires composed.Valid() && composed.depth == 4 && |face.xs| > 0
  {
    var (left, right) := FaceBand(face.xs, composed.width);
    var top := TopY(composed, left, right);
    CropSpec(composed, Rect(top, BottomY(face.chinY, top), left, right))
  }

  // ---------------------------------------------------------------------------
  // The whole extraction

  /** extract_face, with the segmenter's per-pixel foreground probability and
      the face mesh's result given: it fails on an unsupported channel
      count, then on a missing face, then on an empty landmark list, then
      on an empty crop (which the debug cv2.imwrite of line 78 refuses),
      and otherwise returns the crop. */
  method Extract(pic: Picture, segmentation: (int, int) -> real, face: Option<Face>)
    returns (r: Result<array3<byte>, Error>)
    requires pic.Valid()
    ensures ToRgb(pic).Err? ==> r == Err(UnsupportedChannelCount)
    ensures ToRgb(pic).Ok? && face.None? ==> r == Err(NoFaceDetected)
    ensures ToRgb(pic).Ok? && face.Some? && |face.value.xs| == 0 ==> r == Err(NoLandmarks)
    ensures ToRgb(pic).Ok? && face.Some? && |face.value.xs| > 0 ==>
      var c := FaceCrop(ComposeBgra(ToRgb(pic).value, segmentation), face.value);
      (r.Ok? <==> c.height > 0 && c.width > 0) && (r.Err? ==> r.error == EmptyCrop)
    ensures r.Ok? ==> ToRgb(pic).Ok? && face.Some? && |face.value.xs| > 0
    ensures r.Ok? ==> fresh(r.value)
    ensures r.Ok? ==> View(r.value) == FaceCrop(ComposeBgra(ToRgb(pic).value, segmentation), face.value)
  {
    var converted := ToRgb(pic);
    if converted.Err? {
      return Err(converted.error);
    }
    var rgb := converted.value;
    var bgra := RgbToBgra(rgb);
    ApplyMask(bgra, segmentation);
    ghost var composed := ComposeBgra(rgb, segmentation);
    ViewIs(bgra, composed);
    if face.None? {
      return Err(NoFaceDetected);
    }
    var f := face.value;
    if |f.xs| == 0 {
      return Err(NoLandmarks);
    }
    var (left, right) := FaceBand(f.xs, rgb.width);
    var top := FindTopY(bgra, left, right);
    var bottom := BottomY(f.chinY, top);
    var cropped := Crop(bgra, Rect(top, bottom, left, right));
    if cropped.Length0 == 0 || cropped.Length1 == 0 {
      return Err(EmptyCrop);
    }
    return Ok(cropped);
  }
}
