// A model of the simple, non-AI background remover: the reference colour is
// the mean of the four corner pixels, and every pixel whose Manhattan
// distance to it is within a tolerance-derived threshold loses its alpha.

module App {

  /** An 8-bit channel value, as stored in an RGBA image. */
  newtype Byte = x: int | 0 <= x < 256

  /** One RGBA pixel. */
  datatype Pixel = Pixel(r: Byte, g: Byte, b: Byte, a: Byte)

  /**
   * A reference (background) colour. Its channels are means of four bytes,
   * so they are multiples of 1/4; `real` holds them exactly.
   */
  datatype Rgb = Rgb(r: real, g: real, b: real)

  datatype Channel = Red | Green | Blue

  function Value(p: Pixel, c: Channel): int {
    match c
    case Red => p.r as int
    case Green => p.g as int
    case Blue => p.b as int
  }

  function Component(bg: Rgb, c: Channel): real {
    match c
    case Red => bg.r
    case Green => bg.g
    case Blue => bg.b
  }

  /** Two pixels with the same colour, whatever their alpha. */
  predicate SameColour(p: Pixel, q: Pixel) {
    p.r == q.r && p.g == q.g && p.b == q.b
  }

  /** The pixel's colour is exactly the reference colour. */
  predicate Matches(p: Pixel, bg: Rgb) {
    p.r as real == bg.r && p.g as real == bg.g && p.b as real == bg.b
  }

  function Abs(x: real): real {
    if x < 0.0 then -x else x
  }

  // ---------------------------------------------------------------------
  // Reference colour: mean of the four corners
  // ---------------------------------------------------------------------

  /** The corners in the order the source lists them. */
  function Corners(img: array2<Pixel>): seq<Pixel>
    reads img
    requires img.Length0 >= 1 && img.Length1 >= 1
  {
    var w, h := img.Length0, img.Length1;
    [img[0, 0], img[w - 1, 0], img[0, h - 1], img[w - 1, h - 1]]
  }

  /** Sum of one channel over a list of pixels; alpha never takes part. */
  function ChannelSum(cs: seq<Pixel>, c: Channel): (s: int)
    ensures 0 <= s <= 255 * |cs|
  {
    if cs == [] then 0 else Value(cs[0], c) + ChannelSum(cs[1..], c)
  }

  /** The per-channel mean of the RGB values of the four corner pixels. */
  function AvgCornerBg(img: array2<Pixel>): (bg: Rgb)
    reads img
    requires img.Length0 >= 1 && img.Length1 >= 1
    ensures forall c :: 0.0 <= Component(bg, c) <= 255.0
  {
    var cs := Corners(img);
    Rgb(ChannelSum(cs, Red) as real / 4.0,
        ChannelSum(cs, Green) as real / 4.0,
        ChannelSum(cs, Blue) as real / 4.0)
  }

  lemma {:induction false} ChannelSumBounds(cs: seq<Pixel>, c: Channel, lo: int, hi: int)
    requires forall i :: 0 <= i < |cs| ==> lo <= Value(cs[i], c) <= hi
    ensures |cs| * lo <= ChannelSum(cs, c) <= |cs| * hi
  {
    if cs != [] {
      ChannelSumBounds(cs[1..], c, lo, hi);
      assert |cs| * lo == lo + (|cs| - 1) * lo;
      assert |cs| * hi == hi + (|cs| - 1) * hi;
    }
  }

  lemma {:induction false} ChannelSumAgrees(cs: seq<Pixel>, ds: seq<Pixel>, c: Channel)
    requires |cs| == |ds|
    requires forall i :: 0 <= i < |cs| ==> Value(cs[i], c) == Value(ds[i], c)
    ensures ChannelSum(cs, c) == ChannelSum(ds, c)
  {
    if cs != [] {
      ChannelSumAgrees(cs[1..], ds[1..], c);
    }
  }

  /** The mean lies between the smallest and the largest corner value. */
  lemma CornerMeanWithinRange(img: array2<Pixel>, c: Channel, lo: int, hi: int)
    requires img.Length0 >= 1 && img.Length1 >= 1
    requires forall i :: 0 <= i < 4 ==> lo <= Value(Corners(img)[i], c) <= hi
    ensures lo as real <= Component(AvgCornerBg(img), c) <= hi as real
  {
    var cs := Corners(img);
    ChannelSumBounds(cs, c, lo, hi);
  }

  /**
   * Only the colour of the four corners matters: alpha and every other
   * pixel have no influence, and the images need not be the same size.
   */
  lemma AvgCornerBgOnlyCorners(img1: array2<Pixel>, img2: array2<Pixel>)
    requires img1.Length0 >= 1 && img1.Length1 >= 1
    requires img2.Length0 >= 1 && img2.Length1 >= 1
    requires forall i :: 0 <= i < 4 ==> SameColour(Corners(img1)[i], Corners(img2)[i])
    ensures AvgCornerBg(img1) == AvgCornerBg(img2)
  {
    var cs, ds := Corners(img1), Corners(img2);
    ChannelSumAgrees(cs, ds, Red);
    ChannelSumAgrees(cs, ds, Green);
    ChannelSumAgrees(cs, ds, Blue);
  }

  // ---------------------------------------------------------------------
  // Tolerance, threshold and distance
  // ---------------------------------------------------------------------

  /** The user tolerance forced into [0, 100]. */
  function ClampTolerance(t: int): (tol: int)
    ensures 0 <= tol <= 100
    ensures 0 <= t <= 100 ==> tol == t
    ensures t < 0 ==> tol == 0
    ensures t > 100 ==> tol == 100
  {
    var upper := if 100 < t then 100 else t;
    if upper < 0 then 0 else upper
  }

  /** The truncated product 1.5 * tol: an integer threshold in [0, 150]. */
  function Threshold(tol: int): (thr: int)
    requires 0 <= tol <= 100
    ensures 0 <= thr <= 150
    ensures thr == (3 * tol) / 2
  {
    (1.5 * (tol as real)).Floor
  }

  /** Manhattan distance in RGB space; alpha is ignored. */
  function Distance(p: Pixel, bg: Rgb): (d: real)
    ensures d >= 0.0
    ensures d == 0.0 <==> Matches(p, bg)
  {
    Abs(p.r as real - bg.r) + Abs(p.g as real - bg.g) + Abs(p.b as real - bg.b)
  }

  predicate IsBackground(p: Pixel, bg: Rgb, thr: int) {
    Distance(p, bg) <= thr as real
  }

  /** The output pixel: same colour, alpha cleared when close to the background. */
  function RemovePixel(p: Pixel, bg: Rgb, thr: int): (q: Pixel)
    ensures SameColour(q, p)
    ensures q.a == 0 <==> IsBackground(p, bg, thr) || p.a == 0
    ensures !IsBackground(p, bg, thr) ==> q == p
  {
    if IsBackground(p, bg, thr) then Pixel(p.r, p.g, p.b, 0) else Pixel(p.r, p.g, p.b, p.a)
  }

  // ---------------------------------------------------------------------
  // The whole-image operation
  // ---------------------------------------------------------------------

  /**
   * `dst` is what removing the background of `src` with `tolerance` gives:
   * the same dimensions, and every pixel decided by itself against the
   * corner mean, whatever order the pixels are visited in.
   */
  ghost predicate IsRemoval(src: array2<Pixel>, tolerance: int, dst: array2<Pixel>)
    reads src, dst
  {
    src.Length0 >= 1 && src.Length1 >= 1 &&
    dst.Length0 == src.Length0 && dst.Length1 == src.Length1 &&
    var bg, thr := AvgCornerBg(src), Threshold(ClampTolerance(tolerance));
    forall x, y :: 0 <= x < src.Length0 && 0 <= y < src.Length1 ==>
      dst[x, y] == RemovePixel(src[x, y], bg, thr)
  }

  /** Fill a fresh image row by row, as the nested loops of the source do. */
  method RemoveBgSimple(img: array2<Pixel>, tolerance: int := 30) returns (out: array2<Pixel>)
    requires img.Length0 >= 1 && img.Length1 >= 1
    ensures fresh(out)
    ensures IsRemoval(img, tolerance, out)
  {
    var tol := ClampTolerance(tolerance);
    var thr := Threshold(tol);
    var bg := AvgCornerBg(img);
    var w, h := img.Length0, img.Length1;
    out := new Pixel[w, h];
    var y := 0;
    while y < h
      invariant 0 <= y <= h
      invariant forall i, j :: 0 <= i < w && 0 <= j < y ==>
        out[i, j] == RemovePixel(img[i, j], bg, thr)
    {
      var x := 0;
      while x < w
        invariant 0 <= x <= w
        invariant forall i, j :: 0 <= i < w && 0 <= j < y ==>
          out[i, j] == RemovePixel(img[i, j], bg, thr)
        invariant forall i :: 0 <= i < x ==> out[i, y] == RemovePixel(img[i, y], bg, thr)
      {
        var p := img[x, y];
        if Distance(p, bg) <= thr as real {
          out[x, y] := Pixel(p.r, p.g, p.b, 0);
        } else {
          out[x, y] := Pixel(p.r, p.g, p.b, p.a);
        }
        x := x + 1;
      }
      y := y + 1;
    }
  }

  // ---------------------------------------------------------------------
  // Properties
  // ---------------------------------------------------------------------

  /** A pixel cleared at one tolerance is cleared at every larger tolerance. */
  lemma BackgroundMonotone(p: Pixel, bg: Rgb, t1: int, t2: int)
    requires t1 <= t2
    requires IsBackground(p, bg, Threshold(ClampTolerance(t1)))
    ensures IsBackground(p, bg, Threshold(ClampTolerance(t2)))
  {
  }

  /** Raising the tolerance never makes a transparent pixel opaque again. */
  lemma MonotoneInTolerance(src: array2<Pixel>, t1: int, t2: int, d1: array2<Pixel>, d2: array2<Pixel>)
    requires t1 <= t2
    requires IsRemoval(src, t1, d1) && IsRemoval(src, t2, d2)
    ensures forall x, y :: 0 <= x < src.Length0 && 0 <= y < src.Length1 && d1[x, y].a == 0 ==>
      d2[x, y].a == 0
  {
  }

  /** Clearing a pixel a second time against the same colour changes nothing. */
  lemma RemovePixelTwice(p: Pixel, bg: Rgb, thr: int)
    ensures RemovePixel(RemovePixel(p, bg, thr), bg, thr) == RemovePixel(p, bg, thr)
  {
  }

  /** The result has the same corner colours, so the same reference colour. */
  lemma RemovalKeepsBackground(src: array2<Pixel>, tolerance: int, dst: array2<Pixel>)
    requires IsRemoval(src, tolerance, dst)
    ensures AvgCornerBg(dst) == AvgCornerBg(src)
  {
    var w, h := src.Length0, src.Length1;
    assert SameColour(dst[0, 0], src[0, 0]);
    assert SameColour(dst[w - 1, 0], src[w - 1, 0]);
    assert SameColour(dst[0, h - 1], src[0, h - 1]);
    assert SameColour(dst[w - 1, h - 1], src[w - 1, h - 1]);
    AvgCornerBgOnlyCorners(dst, src);
  }

  /** Removing the background of the result again changes nothing. */
  lemma Idempotent(src: array2<Pixel>, tolerance: int, d1: array2<Pixel>, d2: array2<Pixel>)
    requires IsRemoval(src, tolerance, d1) && IsRemoval(d1, tolerance, d2)
    ensures forall x, y :: 0 <= x < d1.Length0 && 0 <= y < d1.Length1 ==> d2[x, y] == d1[x, y]
  {
    RemovalKeepsBackground(src, tolerance, d1);
    var bg, thr := AvgCornerBg(src), Threshold(ClampTolerance(tolerance));
    forall x, y | 0 <= x < d1.Length0 && 0 <= y < d1.Length1
      ensures d2[x, y] == d1[x, y]
    {
      RemovePixelTwice(src[x, y], bg, thr);
    }
  }

  /** An image of one colour becomes fully transparent, at every tolerance. */
  lemma UniformImageCleared(src: array2<Pixel>, tolerance: int, dst: array2<Pixel>)
    requires IsRemoval(src, tolerance, dst)
    requires forall x, y :: 0 <= x < src.Length0 && 0 <= y < src.Length1 ==>
      SameColour(src[x, y], src[0, 0])
    ensures forall x, y :: 0 <= x < dst.Length0 && 0 <= y < dst.Length1 ==> dst[x, y].a == 0
  {
    var w, h := src.Length0, src.Length1;
    var p := src[0, 0];
    assert SameColour(src[w - 1, 0], p);
    assert SameColour(src[0, h - 1], p);
    assert SameColour(src[w - 1, h - 1], p);
    CornerMeanWithinRange(src, Red, p.r as int, p.r as int);
    CornerMeanWithinRange(src, Green, p.g as int, p.g as int);
    CornerMeanWithinRange(src, Blue, p.b as int, p.b as int);
    var bg := AvgCornerBg(src);
    forall x, y | 0 <= x < w && 0 <= y < h
      ensures Distance(src[x, y], bg) == 0.0
    {
      assert Matches(src[x, y], bg);
    }
  }

  /**
   * With a tolerance of 0 or less only pixels of exactly the reference
   * colour are cleared; every other pixel is copied unchanged.
   */
  lemma ZeroToleranceKeepsOthers(src: array2<Pixel>, tolerance: int, dst: array2<Pixel>)
    requires tolerance <= 0
    requires IsRemoval(src, tolerance, dst)
    ensures forall x, y :: 0 <= x < src.Length0 && 0 <= y < src.Length1 ==>
      if Matches(src[x, y], AvgCornerBg(src)) then dst[x, y].a == 0 else dst[x, y] == src[x, y]
  {
  }
}
