/**
 * The RGB to YUV conversion shared by HQ2x, xBR and the vectorizer, the
 * HQ2x "pixels differ" predicate (and its complement in the vectorizer) and
 * the xBR weighted distance.
 */
module Yuv {
  import opened Pixel
  import opened Arith

  /** Fixed luma/chroma thresholds of the difference predicate. */
  const YThreshold: int := 0x30
  const UThreshold: int := 0x07
  const VThreshold: int := 0x06

  /** Weights of the xBR distance; the same constants as the thresholds. */
  const YCoeff: int := 0x30
  const UCoeff: int := 0x07
  const VCoeff: int := 0x06

  datatype YuvColor = YuvColor(y: int, u: int, v: int)

  /** Integer division of `n` by a positive `d` rounding toward zero, as a
      float-to-integer conversion (C++ cast, Python `int()`) does. */
  function TruncDiv(n: int, d: int): (q: int)
    requires 0 < d
    ensures 0 <= n ==> q == n / d
    ensures n < 0 ==> q <= 0
  {
    if 0 <= n then n / d else -((-n) / d)
  }

  /**
   * `rgbToYuv` with the coefficients taken as exact thousandths
   * (0.299, 0.587, 0.114; -0.169, -0.331, 0.5; 0.5, -0.419, -0.081) and the
   * chroma offset 128; each component is truncated.
   */
  function RgbToYuv(p: Rgb): (q: YuvColor)
    ensures ValidRgb(p) ==> IsByte(q.y) && IsByte(q.u) && IsByte(q.v)
  {
    YuvColor(
      TruncDiv(299 * p.r + 587 * p.g + 114 * p.b, 1000),
      TruncDiv(-169 * p.r - 331 * p.g + 500 * p.b + 128000, 1000),
      TruncDiv(500 * p.r - 419 * p.g - 81 * p.b + 128000, 1000))
  }

  /** The three channels of a packed `0xRRGGBB` word (bits above 23 ignored). */
  function Unpack(val: nat): (p: Rgb)
    ensures ValidRgb(p)
  {
    Rgb((val / 0x10000) % 0x100, (val / 0x100) % 0x100, val % 0x100)
  }

  function Pack(y: nat, u: nat, v: nat): nat {
    y * 0x10000 + u * 0x100 + v
  }

  /** `rgbToYuv(uint32_t)`: unpack, convert, repack as `(y << 16) + (u << 8) + v`. */
  function RgbToYuvPacked(val: nat): (packed: nat)
    requires val < 0x1_0000_0000
    ensures packed < 0x100_0000
    ensures Unpack(packed) == (var q := RgbToYuv(Unpack(val)); Rgb(q.y, q.u, q.v))
  {
    var q := RgbToYuv(Unpack(val));
    PackRoundTrip(q.y, q.u, q.v);
    Pack(q.y, q.u, q.v)
  }

  /** Packing three bytes and unpacking them gives the bytes back. */
  lemma PackRoundTrip(y: nat, u: nat, v: nat)
    requires y < 0x100 && u < 0x100 && v < 0x100
    ensures Pack(y, u, v) < 0x100_0000
    ensures Unpack(Pack(y, u, v)) == Rgb(y, u, v)
  {
    var n := Pack(y, u, v);
    assert n / 0x10000 == y;
    assert (n / 0x100) == y * 0x100 + u;
  }

  /** The byte above the colour channels does not influence the packed conversion. */
  lemma PackedIgnoresTopByte(val: nat)
    requires val < 0x1_0000_0000
    ensures RgbToYuvPacked(val) == RgbToYuvPacked(val % 0x100_0000)
  {
    UnpackIgnoresTopByte(val);
  }

  lemma UnpackIgnoresTopByte(val: nat)
    ensures Unpack(val) == Unpack(val % 0x100_0000)
  {
    var low := val % 0x100_0000;
    var top := val / 0x100_0000;
    assert val == top * 0x100_0000 + low;
    assert val == top * 0x100 * 0x10000 + low;
    ShiftedByte(top, low, 0x10000);
    assert val == (top * 0x100) * 0x100 * 0x100 + low;
    ShiftedByte(top * 0x100, low, 0x100);
    assert val == (top * 0x10000) * 0x100 * 1 + low;
    ShiftedByte(top * 0x10000, low, 1);
  }

  /** Adding a multiple of `256 * k` does not change the byte selected by `/ k % 256`. */
  lemma ShiftedByte(t: nat, low: nat, k: nat)
    requires 0 < k
    ensures (t * 0x100 * k + low) / k % 0x100 == low / k % 0x100
  {
    DivAddMultiple(t * 0x100, low, k);
    var q := low / k;
    assert (t * 0x100 * k + low) / k == t * 0x100 + q;
    DivModUnique(0x100, t + q / 0x100, q % 0x100);
    assert q == q % 0x100 + (q / 0x100) * 0x100;
    assert t * 0x100 + q == q % 0x100 + (t + q / 0x100) * 0x100;
  }

  function Abs(n: int): nat {
    if n < 0 then -n else n
  }

  /** `yuvDifference`: some YUV component differs by more than its threshold. */
  predicate YuvDifference(p: Rgb, q: Rgb) {
    var a := RgbToYuv(p);
    var b := RgbToYuv(q);
    Abs(a.y - b.y) > YThreshold || Abs(a.u - b.u) > UThreshold || Abs(a.v - b.v) > VThreshold
  }

  /** `pixels_similar`: every YUV component within its threshold. */
  predicate PixelsSimilar(p: Rgb, q: Rgb) {
    var a := RgbToYuv(p);
    var b := RgbToYuv(q);
    Abs(a.y - b.y) <= YThreshold && Abs(a.u - b.u) <= UThreshold && Abs(a.v - b.v) <= VThreshold
  }

  lemma SimilarIsNoDifference(p: Rgb, q: Rgb)
    ensures PixelsSimilar(p, q) <==> !YuvDifference(p, q)
  {
  }

  lemma YuvDifferenceIrreflexiveSymmetric(p: Rgb, q: Rgb)
    ensures !YuvDifference(p, p)
    ensures YuvDifference(p, q) == YuvDifference(q, p)
  {
  }

  lemma PixelsSimilarReflexiveSymmetric(p: Rgb, q: Rgb)
    ensures PixelsSimilar(p, p)
    ensures PixelsSimilar(p, q) == PixelsSimilar(q, p)
  {
  }

  /** `dist` of xBR: the YUV component differences weighted 0x30, 0x07, 0x06. */
  function Dist(p: Rgb, q: Rgb): (d: nat)
    ensures d == 0 <==> RgbToYuv(p) == RgbToYuv(q)
  {
    var a := RgbToYuv(p);
    var b := RgbToYuv(q);
    Abs(a.y - b.y) * YCoeff + Abs(a.u - b.u) * UCoeff + Abs(a.v - b.v) * VCoeff
  }

  lemma DistSymmetric(p: Rgb, q: Rgb)
    ensures Dist(p, p) == 0
    ensures Dist(p, q) == Dist(q, p)
  {
  }

  /** Pixels within zero distance of each other are never "different". */
  lemma ZeroDistNoDifference(p: Rgb, q: Rgb)
    ensures Dist(p, q) == 0 ==> !YuvDifference(p, q)
  {
  }

  /** A grey pixel has luma equal to its level and neutral chroma 128. */
  lemma GreyYuv(k: int)
    requires IsByte(k)
    ensures RgbToYuv(Rgb(k, k, k)) == YuvColor(k, 128, 128)
  {
  }
}
