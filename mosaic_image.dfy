/** mosaic_image: scale the crop to a fixed height, make it blocky by
    nearest-neighbour down- and up-scaling, and paint every pixel red or
    skin-coloured by comparing its grey level with the mean grey level of
    the non-transparent pixels. The BGR-to-grey conversion is a parameter. */
module MosaicImage {
  import opened Images
  import opened Wrappers

  /** Height every mosaic is scaled to. */
  const Height: nat := 700
  /** Number of mosaic blocks down the height. */
  const HeightBlocks: nat := 120
  /** The skin colour, B, G, R. */
  const Skin: seq<byte> := [132, 227, 255]
  /** The red colour, B, G, R. */
  const Red: seq<byte> := [0, 0, 255]

  /** cv2.cvtColor(..., COLOR_BGR2GRAY) on one pixel, given its B, G and R. */
  type GrayFn = (byte, byte, byte) -> byte

  function Gray(p: seq<byte>, gray: GrayFn): byte
    requires |p| >= 3
  {
    gray(p[0], p[1], p[2])
  }

  // ---------------------------------------------------------------------------
  // The mean grey level over the non-transparent pixels

  /** All pixels of the rows, row after row. */
  function Pixels(rows: seq<seq<seq<byte>>>): seq<seq<byte>> {
    if rows == [] then [] else rows[0] + Pixels(rows[1..])
  }

  ghost predicate AllBgra(ps: seq<seq<byte>>) {
    forall i :: 0 <= i < |ps| ==> |ps[i]| == 4
  }

  lemma {:induction false} PixelsMembership(rows: seq<seq<seq<byte>>>, p: seq<byte>)
    ensures p in Pixels(rows) <==> exists y, x :: 0 <= y < |rows| && 0 <= x < |rows[y]| && rows[y][x] == p
  {
    if rows != [] {
      PixelsMembership(rows[1..], p);
      if p in Pixels(rows[1..]) {
        var y, x :| 0 <= y < |rows[1..]| && 0 <= x < |rows[1..][y]| && rows[1..][y][x] == p;
        assert rows[y + 1][x] == p;
      }
      if p in rows[0] {
        var x :| 0 <= x < |rows[0]| && rows[0][x] == p;
        assert rows[0][x] == p;
      }
      if exists y, x :: 0 <= y < |rows| && 0 <= x < |rows[y]| && rows[y][x] == p {
        var y, x :| 0 <= y < |rows| && 0 <= x < |rows[y]| && rows[y][x] == p;
        if y > 0 {
          assert rows[1..][y - 1][x] == p;
        }
      }
    }
  }

  lemma PixelsAreBgra(img: Raster)
    requires img.Valid() && img.depth == 4
    ensures AllBgra(Pixels(img.px))
  {
    var ps := Pixels(img.px);
    forall i | 0 <= i < |ps|
      ensures |ps[i]| == 4
    {
      PixelsMembership(img.px, ps[i]);
    }
  }

  /** How many pixels have alpha > 0. */
  function OpaqueCount(ps: seq<seq<byte>>): nat
    requires AllBgra(ps)
  {
    if ps == [] then 0
    else (if ps[0][3] > 0 then 1 else 0) + OpaqueCount(ps[1..])
  }

  /** The sum of the grey levels of the pixels with alpha > 0. */
  function OpaqueGraySum(ps: seq<seq<byte>>, gray: GrayFn): nat
    requires AllBgra(ps)
  {
    if ps == [] then 0
    else (if ps[0][3] > 0 then Gray(ps[0], gray) as nat else 0) + OpaqueGraySum(ps[1..], gray)
  }

  /** How many pixels have alpha > 0 and a grey level at most sum / count. */
  function RedCount(ps: seq<seq<byte>>, count: nat, sum: nat, gray: GrayFn): (n: nat)
    requires AllBgra(ps)
    ensures n <= OpaqueCount(ps)
  {
    if ps == [] then 0
    else
      var red := ps[0][3] > 0 && Gray(ps[0], gray) as int * count <= sum;
      (if red then 1 else 0) + RedCount(ps[1..], count, sum, gray)
  }

  /** An image's number of non-transparent pixels and the sum of their grey levels. */
  function Stats(img: Raster, gray: GrayFn): (nat, nat)
    requires img.Valid() && img.depth == 4
  {
    PixelsAreBgra(img);
    var ps := Pixels(img.px);
    (OpaqueCount(ps), OpaqueGraySum(ps, gray))
  }


  // ---------------------------------------------------------------------------
  // Classification

  /** The colour classify_red_and_skin gives one pixel, when the image has
      `count` non-transparent pixels whose grey levels add up to `sum`. With
      no such pixel the mean is NaN, neither comparison holds and the colour
      stays the zero that np.zeros_like put there. Alpha is kept. */
  function Recolor(p: seq<byte>, count: nat, sum: nat, gray: GrayFn): (q: seq<byte>)
    requires |p| == 4
    ensures |q| == 4 && q[3] == p[3]
    ensures count == 0 ==> q[..3] == [0, 0, 0]
  {
    if count == 0 then [0, 0, 0, p[3]]
    else if Gray(p, gray) as int * count <= sum then Red + [p[3]]
    else Skin + [p[3]]
  }

  function RecolorAll(ps: seq<seq<byte>>, count: nat, sum: nat, gray: GrayFn): (qs: seq<seq<byte>>)
    requires AllBgra(ps)
    ensures |qs| == |ps| && AllBgra(qs)
  {
    seq(|ps|, i requires 0 <= i < |ps| => Recolor(ps[i], count, sum, gray))
  }

  function RecolorRows(rows: seq<seq<seq<byte>>>, count: nat, sum: nat, gray: GrayFn): seq<seq<seq<byte>>>
    requires forall y, x :: 0 <= y < |rows| && 0 <= x < |rows[y]| ==> |rows[y][x]| == 4
  {
    seq(|rows|, y requires 0 <= y < |rows| =>
      seq(|rows[y]|, x requires 0 <= x < |rows[y]| => Recolor(rows[y][x], count, sum, gray)))
  }

  /** The buffer classify_red_and_skin returns: same shape, same alpha, every
      pixel recoloured by the one rule. */
  function Classify(img: Raster, gray: GrayFn): (r: Raster)
    requires img.Valid() && img.depth == 4
    ensures r.Valid()
    ensures r.height == img.height && r.width == img.width && r.depth == 4
    ensures forall y, x :: 0 <= y < img.height && 0 <= x < img.width ==> r.px[y][x][3] == img.px[y][x][3]
  {
    var (count, sum) := Stats(img, gray);
    Raster(img.height, img.width, 4, RecolorRows(img.px, count, sum, gray))
  }

  /** classify_red_and_skin: a zero buffer of the input's shape, its alpha
      plane copied from the input, then the colour planes of the pixels at
      or below the mean set to red and of those above it to skin. */
  method ClassifyRedAndSkin(img: Raster, gray: GrayFn) returns (result: array3<byte>)
    requires img.Valid() && img.depth == 4
    ensures fresh(result)
    ensures View(result) == Classify(img, gray)
  {
    var (count, sum) := Stats(img, gray);
    result := new byte[img.height, img.width, 4]((y, x, k) => 0);
    forall y, x | 0 <= y < img.height && 0 <= x < img.width {
      result[y, x, 3] := img.px[y][x][3];
    }
    if count > 0 {
      forall y, x, k | 0 <= y < img.height && 0 <= x < img.width && 0 <= k < 3 &&
        Gray(img.px[y][x], gray) as int * count <= sum
      {
        result[y, x, k] := Red[k];
      }
      forall y, x, k | 0 <= y < img.height && 0 <= x < img.width && 0 <= k < 3 &&
        Gray(img.px[y][x], gray) as int * count > sum
      {
        result[y, x, k] := Skin[k];
      }
    }
    ViewIs(result, Classify(img, gray));
  }

  // ---------------------------------------------------------------------------
  // What the classification guarantees

  /** Some pixel of the image is not transparent. */
  ghost predicate HasOpaquePixel(img: Raster)
    requires img.Valid() && img.depth == 4
  {
    exists y, x :: 0 <= y < img.height && 0 <= x < img.width && img.px[y][x][3] > 0
  }

  lemma {:induction false} OpaqueMemberCounts(ps: seq<seq<byte>>, p: seq<byte>)
    requires AllBgra(ps) && p in ps && |p| == 4 && p[3] > 0
    ensures OpaqueCount(ps) > 0
  {
    if ps[0] != p {
      OpaqueMemberCounts(ps[1..], p);
    }
  }

  lemma OpaqueImageCounts(img: Raster, gray: GrayFn)
    requires img.Valid() && img.depth == 4 && HasOpaquePixel(img)
    ensures Stats(img, gray).0 > 0
  {
    var y, x :| 0 <= y < img.height && 0 <= x < img.width && img.px[y][x][3] > 0;
    PixelsMembership(img.px, img.px[y][x]);
    PixelsAreBgra(img);
    OpaqueMemberCounts(Pixels(img.px), img.px[y][x]);
  }

  /** A list with a non-transparent pixel has one at some index. */
  lemma {:induction false} OpaqueWitness(ps: seq<seq<byte>>) returns (i: nat)
    requires AllBgra(ps) && OpaqueCount(ps) > 0
    ensures i < |ps| && ps[i][3] > 0
  {
    if ps[0][3] > 0 {
      i := 0;
    } else {
      var j := OpaqueWitness(ps[1..]);
      i := j + 1;
    }
  }

  /** With no non-transparent pixel the mean is NaN, both comparisons are
      false, and every pixel keeps the zero colour of np.zeros_like. */
  lemma AllTransparentStaysBlack(img: Raster, gray: GrayFn, y: nat, x: nat)
    requires img.Valid() && img.depth == 4 && !HasOpaquePixel(img)
    requires y < img.height && x < img.width
    ensures Classify(img, gray).px[y][x][..3] == [0, 0, 0]
  {
    PixelsAreBgra(img);
    var ps := Pixels(img.px);
    if OpaqueCount(ps) > 0 {
      var i := OpaqueWitness(ps);
      PixelsMembership(img.px, ps[i]);
      assert false;
    }
    assert Classify(img, gray).px[y][x] == Recolor(img.px[y][x], 0, Stats(img, gray).1, gray);
  }

  /** mean_value: np.mean(gray[alpha > 0]). */
  function MeanGray(img: Raster, gray: GrayFn): real
    requires img.Valid() && img.depth == 4 && HasOpaquePixel(img)
  {
    OpaqueImageCounts(img, gray);
    Stats(img, gray).1 as real / Stats(img, gray).0 as real
  }

  /** With at least one non-transparent pixel, every pixel's colour is
      exactly red or exactly skin. */
  lemma TwoColours(img: Raster, gray: GrayFn, y: nat, x: nat)
    requires img.Valid() && img.depth == 4 && HasOpaquePixel(img)
    requires y < img.height && x < img.width
    ensures Classify(img, gray).px[y][x][..3] in {Red, Skin}
  {
    OpaqueImageCounts(img, gray);
  }

  /** A pixel, transparent or not, is red exactly when its grey level is at
      most the mean grey level of the non-transparent pixels, and skin
      exactly when it is above it. */
  lemma RedIffAtMostMean(img: Raster, gray: GrayFn, y: nat, x: nat)
    requires img.Valid() && img.depth == 4 && HasOpaquePixel(img)
    requires y < img.height && x < img.width
    ensures var g := Gray(img.px[y][x], gray) as real;
      && (Classify(img, gray).px[y][x][..3] == Red <==> g <= MeanGray(img, gray))
      && (Classify(img, gray).px[y][x][..3] == Skin <==> g > MeanGray(img, gray))
  {
    OpaqueImageCounts(img, gray);
    var (count, sum) := Stats(img, gray);
    var g := Gray(img.px[y][x], gray) as int;
    var c := Classify(img, gray).px[y][x];
    assert c == Recolor(img.px[y][x], count, sum, gray);
    AtMostQuotient(g, count, sum);
    assert Red != Skin by { assert Red[0] != Skin[0]; }
  }

  /** g <= s / c exactly when g * c <= s, for a positive count c. */
  lemma AtMostQuotient(g: int, c: nat, s: nat)
    requires c > 0
    ensures (g as real <= s as real / c as real) <==> g * c <= s
  {
    var q := s as real / c as real;
    assert q * c as real == s as real;
    assert (g * c) as real == g as real * c as real;
    if g as real <= q {
      assert g as real * c as real <= q * c as real;
    }
    if g * c <= s {
      assert g as real * c as real <= q * c as real;
    }
  }

  /** The rule is monotone in the grey level: a pixel at most as bright as a
      red one is red. */
  lemma Monotone(img: Raster, gray: GrayFn, p: (nat, nat), q: (nat, nat))
    requires img.Valid() && img.depth == 4
    requires p.0 < img.height && p.1 < img.width && q.0 < img.height && q.1 < img.width
    requires Gray(img.px[p.0][p.1], gray) <= Gray(img.px[q.0][q.1], gray)
    requires Classify(img, gray).px[q.0][q.1][..3] == Red
    ensures Classify(img, gray).px[p.0][p.1][..3] == Red
  {
    var (count, sum) := Stats(img, gray);
    var gp, gq := Gray(img.px[p.0][p.1], gray) as int, Gray(img.px[q.0][q.1], gray) as int;
    assert Red != Skin by { assert Red[0] != Skin[0]; }
    assert Red != [0, 0, 0] by { assert Red[2] != 0; }
    assert count > 0 && gq * count <= sum;
    MultiplyMonotone(gp, gq, count);
  }

  /** If no non-transparent pixel is at or below sum / count, the pixels
      together are above it: count * (their grey sum) >= sum * (their
      number), strictly when there is one. */
  lemma {:induction false} NoRedExceedsMean(ps: seq<seq<byte>>, count: nat, sum: nat, gray: GrayFn)
    requires AllBgra(ps) && RedCount(ps, count, sum, gray) == 0
    ensures count * OpaqueGraySum(ps, gray) >= sum * OpaqueCount(ps)
    ensures OpaqueCount(ps) > 0 ==> count * OpaqueGraySum(ps, gray) > sum * OpaqueCount(ps)
  {
    if ps != [] {
      NoRedExceedsMean(ps[1..], count, sum, gray);
      var rest, restN := OpaqueGraySum(ps[1..], gray), OpaqueCount(ps[1..]);
      if ps[0][3] > 0 {
        var g := Gray(ps[0], gray) as int;
        assert g * count > sum;
        assert count * (g + rest) == g * count + count * rest;
        assert sum * (1 + restN) == sum + sum * restN;
      }
    }
  }

  /** Some non-transparent pixel is at or below the mean, so a buffer with a
      non-transparent pixel always comes out with a non-transparent red one. */
  lemma SomeOpaquePixelIsRed(img: Raster, gray: GrayFn)
    requires img.Valid() && img.depth == 4 && HasOpaquePixel(img)
    ensures exists y, x ::
      && 0 <= y < img.height && 0 <= x < img.width
      && img.px[y][x][3] > 0 && Classify(img, gray).px[y][x][..3] == Red
  {
    OpaqueImageCounts(img, gray);
    PixelsAreBgra(img);
    var ps := Pixels(img.px);
    var (count, sum) := Stats(img, gray);
    RedCountPositive(ps, gray);
    var i := RedWitness(ps, count, sum, gray);
    PixelsMembership(img.px, ps[i]);
    var y, x :| 0 <= y < img.height && 0 <= x < img.width && img.px[y][x] == ps[i];
    assert Classify(img, gray).px[y][x] == Recolor(ps[i], count, sum, gray);
  }

  lemma RedCountPositive(ps: seq<seq<byte>>, gray: GrayFn)
    requires AllBgra(ps) && OpaqueCount(ps) > 0
    ensures RedCount(ps, OpaqueCount(ps), OpaqueGraySum(ps, gray), gray) > 0
  {
    var count, sum := OpaqueCount(ps), OpaqueGraySum(ps, gray);
    if RedCount(ps, count, sum, gray) == 0 {
      NoRedExceedsMean(ps, count, sum, gray);
      assert false;
    }
  }

  lemma {:induction false} RedWitness(ps: seq<seq<byte>>, count: nat, sum: nat, gray: GrayFn) returns (i: nat)
    requires AllBgra(ps) && RedCount(ps, count, sum, gray) > 0
    ensures i < |ps| && ps[i][3] > 0 && Gray(ps[i], gray) as int * count <= sum
  {
    if ps[0][3] > 0 && Gray(ps[0], gray) as int * count <= sum {
      i := 0;
    } else {
      var j := RedWitness(ps[1..], count, sum, gray);
      i := j + 1;
    }
  }

  /** The darkest non-transparent pixel is always red. */
  lemma DarkestOpaqueIsRed(img: Raster, gray: GrayFn, y: nat, x: nat)
    requires img.Valid() && img.depth == 4
    requires y < img.height && x < img.width && img.px[y][x][3] > 0
    requires forall v, u :: 0 <= v < img.height && 0 <= u < img.width && img.px[v][u][3] > 0 ==>
      Gray(img.px[y][x], gray) <= Gray(img.px[v][u], gray)
    ensures Classify(img, gray).px[y][x][..3] == Red
  {
    SomeOpaquePixelIsRed(img, gray);
    var v, u :| 0 <= v < img.height && 0 <= u < img.width &&
      img.px[v][u][3] > 0 && Classify(img, gray).px[v][u][..3] == Red;
    Monotone(img, gray, (y, x), (v, u));
  }

  // ---------------------------------------------------------------------------
  // Classifying a classified buffer changes nothing

  /** The grey level of the red colour. */
  function GrayRed(gray: GrayFn): byte {
    gray(Red[0], Red[1], Red[2])
  }

  /** The grey level of the skin colour. */
  function GraySkin(gray: GrayFn): byte {
    gray(Skin[0], Skin[1], Skin[2])
  }

  lemma {:induction false} RowsAreBgra(rows: seq<seq<seq<byte>>>)
    requires forall y, x :: 0 <= y < |rows| && 0 <= x < |rows[y]| ==> |rows[y][x]| == 4
    ensures AllBgra(Pixels(rows))
  {
    var ps := Pixels(rows);
    forall i | 0 <= i < |ps|
      ensures |ps[i]| == 4
    {
      PixelsMembership(rows, ps[i]);
    }
  }

  lemma RecolorAllAppend(a: seq<seq<byte>>, b: seq<seq<byte>>, count: nat, sum: nat, gray: GrayFn)
    requires AllBgra(a) && AllBgra(b)
    ensures AllBgra(a + b)
    ensures RecolorAll(a + b, count, sum, gray) == RecolorAll(a, count, sum, gray) + RecolorAll(b, count, sum, gray)
  {
    assert AllBgra(a + b) by {
      forall i | 0 <= i < |a + b|
        ensures |(a + b)[i]| == 4
      {
        if i >= |a| {
          assert (a + b)[i] == b[i - |a|];
        }
      }
    }
  }

  /** Recolouring the rows and then listing the pixels is listing them and
      then recolouring the list. */
  lemma {:induction false} PixelsOfRecolorRows(rows: seq<seq<seq<byte>>>, count: nat, sum: nat, gray: GrayFn)
    requires forall y, x :: 0 <= y < |rows| && 0 <= x < |rows[y]| ==> |rows[y][x]| == 4
    ensures AllBgra(Pixels(rows))
    ensures Pixels(RecolorRows(rows, count, sum, gray)) == RecolorAll(Pixels(rows), count, sum, gray)
  {
    RowsAreBgra(rows);
    if rows != [] {
      var r := RecolorRows(rows, count, sum, gray);
      PixelsOfRecolorRows(rows[1..], count, sum, gray);
      assert r[1..] == RecolorRows(rows[1..], count, sum, gray);
      assert AllBgra(rows[0]);
      assert r[0] == RecolorAll(rows[0], count, sum, gray);
      RecolorAllAppend(rows[0], Pixels(rows[1..]), count, sum, gray);
    }
  }

  /** Recolouring keeps the set of non-transparent pixels; the red ones then
      have the red grey level and the others the skin grey level. */
  lemma {:induction false} RecoloredStats(ps: seq<seq<byte>>, count: nat, sum: nat, gray: GrayFn)
    requires AllBgra(ps)
    ensures OpaqueCount(RecolorAll(ps, count, sum, gray)) == OpaqueCount(ps)
    ensures count > 0 ==> (OpaqueGraySum(RecolorAll(ps, count, sum, gray), gray) ==
      GrayRed(gray) as int * RedCount(ps, count, sum, gray)
      + GraySkin(gray) as int * (OpaqueCount(ps) - RedCount(ps, count, sum, gray)))
  {
    if ps != [] {
      var qs := RecolorAll(ps, count, sum, gray);
      assert qs[1..] == RecolorAll(ps[1..], count, sum, gray);
      RecoloredStats(ps[1..], count, sum, gray);
      var nR, n := RedCount(ps[1..], count, sum, gray), OpaqueCount(ps[1..]);
      var gR, gS := GrayRed(gray) as int, GraySkin(gray) as int;
      if ps[0][3] > 0 && count > 0 {
        if Gray(ps[0], gray) as int * count <= sum {
          assert Gray(qs[0], gray) as int == gR;
          MultiplySucc(gR, nR);
        } else {
          assert Gray(qs[0], gray) as int == gS;
          MultiplySucc(gS, n - nR);
        }
      }
    }
  }

  lemma MultiplySucc(a: int, b: int)
    ensures a * (b + 1) == a * b + a
  {
  }

  /** Under the second pass's statistics a red pixel stays red and a skin
      pixel stays skin. */
  lemma RecolorStable(p: seq<byte>, count: nat, sum: nat, sum2: nat, red: nat, gray: GrayFn)
    requires |p| == 4 && 0 < red <= count
    requires GrayRed(gray) < GraySkin(gray)
    requires sum2 == GrayRed(gray) as int * red + GraySkin(gray) as int * (count - red)
    ensures Recolor(Recolor(p, count, sum, gray), count, sum2, gray) == Recolor(p, count, sum, gray)
  {
    var q := Recolor(p, count, sum, gray);
    var gR, gS := GrayRed(gray) as int, GraySkin(gray) as int;
    if Gray(p, gray) as int * count <= sum {
      assert Gray(q, gray) as int == gR;
      RedBelowSecondMean(gR, gS, red, count);
    } else {
      assert Gray(q, gray) as int == gS;
      SkinAboveSecondMean(gR, gS, red, count);
    }
  }

  lemma RedBelowSecondMean(gR: nat, gS: nat, red: nat, count: nat)
    requires gR <= gS && red <= count
    ensures gR * count <= gR * red + gS * (count - red)
  {
    var k := count - red;
    MultiplyMonotone(gR, gS, k);
    assert gR * count == gR * red + gR * k;
  }

  lemma SkinAboveSecondMean(gR: nat, gS: nat, red: nat, count: nat)
    requires gR < gS && 0 < red <= count
    ensures gS * count > gR * red + gS * (count - red)
  {
    var k := count - red;
    assert gS * count == gS * red + gS * k;
    assert gS * red == gR * red + (gS - gR) * red;
  }

  /** How many non-transparent pixels classify_red_and_skin paints red. */
  function RedPixels(img: Raster, gray: GrayFn): nat
    requires img.Valid() && img.depth == 4
  {
    PixelsAreBgra(img);
    var (count, sum) := Stats(img, gray);
    RedCount(Pixels(img.px), count, sum, gray)
  }

  /** The classified image has the same non-transparent pixels; their grey
      levels now add up to the red level per red pixel plus the skin level
      per skin pixel, and at least one of them is red. */
  lemma ClassifiedStats(img: Raster, gray: GrayFn)
    requires img.Valid() && img.depth == 4
    ensures var (count, sum) := Stats(img, gray);
      var red := RedPixels(img, gray);
      && Stats(Classify(img, gray), gray).0 == count
      && (count > 0 ==> 0 < red <= count)
      && (count > 0 ==> Stats(Classify(img, gray), gray).1 == GrayRed(gray) as int * red + GraySkin(gray) as int * (count - red))
  {
    PixelsAreBgra(img);
    var ps := Pixels(img.px);
    var (count, sum) := Stats(img, gray);
    var once := Classify(img, gray);
    PixelsAreBgra(once);
    PixelsOfRecolorRows(img.px, count, sum, gray);
    assert Pixels(once.px) == RecolorAll(ps, count, sum, gray);
    RecoloredStats(ps, count, sum, gray);
    if count > 0 {
      RedCountPositive(ps, gray);
    }
  }

  /** When red is darker than skin, classify_red_and_skin applied to its own
      output returns that output unchanged. */
  lemma ClassifyIdempotent(img: Raster, gray: GrayFn)
    requires img.Valid() && img.depth == 4
    requires GrayRed(gray) < GraySkin(gray)
    ensures Classify(Classify(img, gray), gray) == Classify(img, gray)
  {
    var once := Classify(img, gray);
    var twice := Classify(once, gray);
    var (count, sum) := Stats(img, gray);
    var red := RedPixels(img, gray);
    ClassifiedStats(img, gray);
    var (count2, sum2) := Stats(once, gray);
    assert count2 == count;
    forall y, x | 0 <= y < img.height && 0 <= x < img.width
      ensures twice.px[y][x] == once.px[y][x]
    {
      assert once.px[y][x] == Recolor(img.px[y][x], count, sum, gray);
      assert twice.px[y][x] == Recolor(once.px[y][x], count, sum2, gray);
      if count > 0 {
        RecolorStable(img.px[y][x], count, sum, sum2, red, gray);
      }
    }
    forall y | 0 <= y < img.height
      ensures twice.px[y] == once.px[y]
    {
    }
  }

  // ---------------------------------------------------------------------------
  // Sizing: scale to height 700, shrink to the block grid, scale back

  datatype Error =
    | ResizeFailed   // cv2.resize was asked for an empty source or an empty target

  /** The sizes mosaic_image computes. */
  datatype Geometry = Geometry(newWidth: nat, newHeight: nat, block: nat, mosaicWidth: nat, mosaicHeight: nat)

  /** new_w: the width that keeps the aspect ratio at height 700, with a
      zero original height falling back to the original width. */
  function NewWidth(origHeight: nat, origWidth: nat): nat {
    if origHeight != 0 then origWidth * Height / origHeight else origWidth
  }

  /** For a positive original height the scaled width is the floor of
      origWidth * 700 / origHeight. */
  lemma NewWidthBounds(origHeight: nat, origWidth: nat)
    requires origHeight > 0
    ensures NewWidth(origHeight, origWidth) * origHeight <= origWidth * Height < (NewWidth(origHeight, origWidth) + 1) * origHeight
  {
    DivisionBounds(origWidth * Height, origHeight);
  }

  /** The sizes of the three resizes, or the error one of them raises: a
      zero original height leaves an empty source, and a scaled width
      under one block leaves an empty target. */
  function MosaicGeometry(origHeight: nat, origWidth: nat): (r: Result<Geometry, Error>)
    ensures r.Ok? <==> origHeight > 0 && 5 * origHeight <= origWidth * Height
    ensures r.Err? ==> r.error == ResizeFailed
    ensures r.Ok? ==> var g := r.value;
      && g.newHeight == 700 && g.block == 5 && g.mosaicHeight == 140
      && g.newWidth * origHeight <= origWidth * Height < (g.newWidth + 1) * origHeight
      && 0 < g.mosaicWidth && 5 * g.mosaicWidth <= g.newWidth < 5 * g.mosaicWidth + 5
  {
    var newWidth := NewWidth(origHeight, origWidth);
    var block := Height / HeightBlocks;
    var mosaicHeight := Height / block;
    var mosaicWidth := newWidth / block;
    if origHeight > 0 then
      NewWidthBounds(origHeight, origWidth);
      WideEnough(origHeight, origWidth, newWidth);
      if mosaicWidth == 0 then Err(ResizeFailed)
      else Ok(Geometry(newWidth, Height, block, mosaicWidth, mosaicHeight))
    else Err(ResizeFailed)
  }

  /** The scaled width is at least one block exactly when the original is
      at least 5/700 as wide as it is high. */
  lemma WideEnough(origHeight: nat, origWidth: nat, newWidth: nat)
    requires origHeight > 0
    requires newWidth * origHeight <= origWidth * Height < (newWidth + 1) * origHeight
    ensures newWidth / 5 > 0 <==> 5 * origHeight <= origWidth * Height
  {
    if newWidth >= 5 {
      MultiplyMonotone(5, newWidth, origHeight);
    } else {
      MultiplyMonotone(newWidth + 1, 5, origHeight);
    }
  }

  /** The image after the three nearest-neighbour resizes: to 700 rows,
      down to the 140-row block grid, and back to 700 rows. */
  function Blocky(img: Raster): (r: Raster)
    requires img.Valid() && MosaicGeometry(img.height, img.width).Ok?
    ensures r.Valid() && r.depth == img.depth
    ensures r.height == 700 && r.width == MosaicGeometry(img.height, img.width).value.newWidth
  {
    var g := MosaicGeometry(img.height, img.width).value;
    var resized := ResizeNearest(img, g.newWidth, g.newHeight);
    var small := ResizeNearest(resized, g.mosaicWidth, g.mosaicHeight);
    ResizeNearest(small, g.newWidth, g.newHeight)
  }

  /** mosaic_image: the blocky image, classified; or the error a resize raises. */
  method Mosaic(img: Raster, gray: GrayFn) returns (r: Result<array3<byte>, Error>)
    requires img.Valid() && img.depth == 4
    ensures r.Err? <==> MosaicGeometry(img.height, img.width).Err?
    ensures r.Err? ==> r.error == ResizeFailed
    ensures r.Ok? ==> fresh(r.value)
    ensures r.Ok? ==> View(r.value) == Classify(Blocky(img), gray)
  {
    var geometry := MosaicGeometry(img.height, img.width);
    if geometry.Err? {
      return Err(geometry.error);
    }
    var result := ClassifyRedAndSkin(Blocky(img), gray);
    r := Ok(result);
  }

  /** Scaling n samples up to 5n by the floor rule repeats each one 5 times. */
  lemma NearestIndexByFive(i: nat, n: nat)
    requires i < 5 * n
    ensures NearestIndex(i, n, 5 * n) == i / 5
  {
    var s := NearestIndex(i, n, 5 * n);
    FifthFromBracket(s, i, n);
  }

  lemma FifthFromBracket(s: nat, i: nat, n: nat)
    requires s * (5 * n) <= i * n < (s + 1) * (5 * n)
    ensures s == i / 5
  {
    assert s * (5 * n) == (5 * s) * n;
    assert (s + 1) * (5 * n) == (5 * s + 5) * n;
    if 5 * s > i {
      MultiplyMonotone(i + 1, 5 * s, n);
    }
    if i >= 5 * s + 5 {
      MultiplyMonotone(5 * s + 5, i, n);
    }
  }

  /** Rows 5k to 5k+4 of the blocky image are one and the same row. */
  lemma BlockRowsRepeat(img: Raster, y: nat)
    requires img.Valid() && MosaicGeometry(img.height, img.width).Ok?
    requires y < 700
    ensures Blocky(img).px[y] == Blocky(img).px[5 * (y / 5)]
  {
    var b := Blocky(img);
    NearestIndexByFive(y, 140);
    NearestIndexByFive(5 * (y / 5), 140);
    forall x | 0 <= x < b.width
      ensures b.px[y][x] == b.px[5 * (y / 5)][x]
    {
    }
  }

  /** When the scaled width is a whole number of blocks, columns 5k to 5k+4
      of the blocky image agree as well. */
  lemma BlockColumnsRepeat(img: Raster, y: nat, x: nat)
    requires img.Valid() && MosaicGeometry(img.height, img.width).Ok?
    requires MosaicGeometry(img.height, img.width).value.newWidth % 5 == 0
    requires y < 700 && x < Blocky(img).width
    ensures Blocky(img).px[y][x] == Blocky(img).px[y][5 * (x / 5)]
  {
    var g := MosaicGeometry(img.height, img.width).value;
    assert g.newWidth == 5 * g.mosaicWidth;
    NearestIndexByFive(x, g.mosaicWidth);
    NearestIndexByFive(5 * (x / 5), g.mosaicWidth);
  }

  /** The mosaic's output keeps the 5-row blocks: classification recolours
      equal pixels equally. */
  lemma MosaicRowsRepeat(img: Raster, gray: GrayFn, y: nat)
    requires img.Valid() && img.depth == 4 && MosaicGeometry(img.height, img.width).Ok?
    requires y < 700
    ensures Classify(Blocky(img), gray).px[y] == Classify(Blocky(img), gray).px[5 * (y / 5)]
  {
    BlockRowsRepeat(img, y);
  }
}
