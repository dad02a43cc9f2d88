/** What the three pipeline stages share: 8-bit samples, the value of an
    H x W x C numpy array, Python's rules for slicing and for int() of a
    float, and the nearest-neighbour resizing rule. */
module Images {

  /** One uint8 sample. */
  newtype byte = x: int | 0 <= x < 256

  /** The value of an H x W x C array: px[y][x][k] is channel k of the
      pixel in row y and column x. */
  datatype Raster = Raster(height: nat, width: nat, depth: nat, px: seq<seq<seq<byte>>>)
  {
    /** The rows, columns and channels have the sizes the shape gives. */
    ghost predicate Valid() {
      && |px| == height
      && (forall y :: 0 <= y < height ==> |px[y]| == width)
      && (forall y, x :: 0 <= y < height && 0 <= x < width ==> |px[y][x]| == depth)
    }
  }

  /** The value an H x W x C buffer holds. */
  ghost function View(a: array3<byte>): (r: Raster)
    reads a
    ensures r.Valid()
    ensures r.height == a.Length0 && r.width == a.Length1 && r.depth == a.Length2
    ensures forall y, x, k :: 0 <= y < a.Length0 && 0 <= x < a.Length1 && 0 <= k < a.Length2 ==>
      r.px[y][x][k] == a[y, x, k]
  {
    Raster(a.Length0, a.Length1, a.Length2,
      seq(a.Length0, y requires 0 <= y < a.Length0 reads a =>
        seq(a.Length1, x requires 0 <= x < a.Length1 reads a =>
          seq(a.Length2, k requires 0 <= k < a.Length2 reads a => a[y, x, k]))))
  }

  /** A buffer holds a raster when the shapes agree and every sample does. */
  lemma ViewIs(a: array3<byte>, r: Raster)
    requires r.Valid()
    requires r.height == a.Length0 && r.width == a.Length1 && r.depth == a.Length2
    requires forall y, x, k :: 0 <= y < a.Length0 && 0 <= x < a.Length1 && 0 <= k < a.Length2 ==>
      r.px[y][x][k] == a[y, x, k]
    ensures View(a) == r
  {
    var v := View(a);
    forall y | 0 <= y < r.height
      ensures v.px[y] == r.px[y]
    {
      forall x | 0 <= x < r.width
        ensures v.px[y][x] == r.px[y][x]
      {
      }
    }
  }

  /** Where one bound i of a Python slice lands in a dimension of length n:
      a negative bound counts from the end, and the result is clamped to [0, n]. */
  function SliceBound(i: int, n: nat): (b: nat)
    ensures b <= n
    ensures 0 <= i ==> b == if i <= n then i else n
    ensures i < 0 ==> b == if i + n < 0 then 0 else i + n
  {
    if i < 0 then (if i + n < 0 then 0 else i + n)
    else if i > n then n
    else i
  }

  /** The first index and the number of indices that a[i:j] selects in a
      dimension of length n. */
  function Slice(i: int, j: int, n: nat): (s: (nat, nat))
    ensures s.0 + s.1 <= n
    ensures 0 <= i <= j <= n ==> s == (i, j - i)
    ensures 0 <= i && n <= j ==> s == (if i <= n then i else n, if i <= n then n - i else 0)
    ensures j <= i && (0 <= j || i < 0) ==> s.1 == 0
    ensures i <= j ==> s.1 <= j - i
  {
    var lo, hi := SliceBound(i, n), SliceBound(j, n);
    (lo, if lo < hi then hi - lo else 0)
  }

  /** Python's int() of a float: truncation toward zero. */
  function Trunc(v: real): (t: int)
    ensures 0.0 <= v ==> 0 <= t && t as real <= v < t as real + 1.0
    ensures v < 0.0 ==> t <= 0 && t as real - 1.0 < v <= t as real
  {
    if v >= 0.0 then v.Floor else -((-v).Floor)
  }

  /** The source index that nearest-neighbour resizing from n to m samples
      picks for target index i: floor(i * n / m). */
  function NearestIndex(i: nat, n: nat, m: nat): (s: nat)
    requires i < m
    ensures n > 0 ==> s < n
    ensures s * m <= i * n < (s + 1) * m
  {
    var p := i * n;
    DivisionBounds(p, m);
    if n > 0 then NearestIndexBelow(i, n, m); p / m else p / m
  }

  /** Euclidean division by a positive divisor brackets the dividend. */
  lemma DivisionBounds(p: nat, m: nat)
    requires m > 0
    ensures (p / m) * m <= p < (p / m + 1) * m
  {
    var q, r := p / m, p % m;
    assert p == q * m + r;
  }

  lemma NearestIndexBelow(i: nat, n: nat, m: nat)
    requires i < m && n > 0
    ensures i * n / m < n
  {
    var p, q := i * n, i * n / m;
    DivisionBounds(p, m);
    assert p < m * n by {
      assert (m - i) * n > 0;
    }
    assert q * m < n * m;
    if q >= n {
      MultiplyMonotone(n, q, m);
    }
  }

  lemma MultiplyMonotone(a: int, b: int, c: nat)
    requires a <= b
    ensures a * c <= b * c
  {
    assert b * c == a * c + (b - a) * c;
  }

  /** cv2.resize(img, (newWidth, newHeight), interpolation=INTER_NEAREST),
      under the assumption that OpenCV's nearest-neighbour rule takes target
      pixel (y, x) from source pixel (floor(y * height / newHeight),
      floor(x * width / newWidth)). */
  function ResizeNearest(img: Raster, newWidth: nat, newHeight: nat): (r: Raster)
    requires img.Valid() && img.height > 0 && img.width > 0
    ensures r.Valid()
    ensures r.height == newHeight && r.width == newWidth && r.depth == img.depth
    ensures forall y, x :: 0 <= y < newHeight && 0 <= x < newWidth ==>
      r.px[y][x] == img.px[NearestIndex(y, img.height, newHeight)][NearestIndex(x, img.width, newWidth)]
  {
    Raster(newHeight, newWidth, img.depth,
      seq(newHeight, y requires 0 <= y < newHeight =>
        seq(newWidth, x requires 0 <= x < newWidth =>
          img.px[NearestIndex(y, img.height, newHeight)][NearestIndex(x, img.width, newWidth)])))
  }
}
