/**
 * Integer RGB pixels (the kernels' `glm::uvec3`) and the shared helpers of
 * common.hpp: the three-or-more-equal test and bilinear interpolation.
 */
module Pixel {

  datatype Rgb = Rgb(r: int, g: int, b: int)

  predicate IsByte(c: int) {
    0 <= c < 256
  }

  /** Channels as an 8-bit image decoder produces them. */
  predicate ValidRgb(p: Rgb) {
    IsByte(p.r) && IsByte(p.g) && IsByte(p.b)
  }

  /**
   * An interpolation weight in quarters: 1, 2 and 3 stand for the only
   * `glm::mix` factors the kernels pass, 0.25f, 0.5f and 0.75f.
   */
  type Quarter = k: int | 1 <= k <= 3 witness 2

  const Half: Quarter := 2

  predicate Between(v: int, a: int, b: int) {
    (a <= v <= b) || (b <= v <= a)
  }

  /**
   * One channel of `glm::mix(c, d, k/4)` on unsigned vectors: the float
   * `c*(1-t) + d*t` is exact for byte channels at quarter weights, and the
   * conversion back to an unsigned integer truncates.
   */
  function MixChannel(c: nat, d: nat, k: Quarter): (m: nat)
    ensures Between(m, c, d)
    ensures c == d ==> m == c
  {
    MixChannelBounds(c, d, k);
    (c * (4 - k) + d * k) / 4
  }

  lemma MixChannelBounds(c: nat, d: nat, k: Quarter)
    ensures Between((c * (4 - k) + d * k) / 4, c, d)
    ensures c == d ==> (c * (4 - k) + d * k) / 4 == c
  {
    var s := c * (4 - k) + d * k;
    if c <= d {
      assert 4 * c <= s <= 4 * d;
    } else {
      assert 4 * d <= s <= 4 * c;
    }
  }

  predicate NonNegative(p: Rgb) {
    0 <= p.r && 0 <= p.g && 0 <= p.b
  }

  /** Every channel of `m` lies between the matching channels of `p` and `q`. */
  predicate ChannelsBetween(m: Rgb, p: Rgb, q: Rgb) {
    Between(m.r, p.r, q.r) && Between(m.g, p.g, q.g) && Between(m.b, p.b, q.b)
  }

  /** `glm::mix(p, q, k/4)` on `glm::uvec3`. */
  function Mix(p: Rgb, q: Rgb, k: Quarter): (m: Rgb)
    requires NonNegative(p) && NonNegative(q)
    ensures NonNegative(m)
    ensures ChannelsBetween(m, p, q)
    ensures ValidRgb(p) && ValidRgb(q) ==> ValidRgb(m)
    ensures p == q ==> m == p
  {
    Rgb(MixChannel(p.r, q.r, k), MixChannel(p.g, q.g, k), MixChannel(p.b, q.b, k))
  }

  /** Every pixel of a decoded 8-bit image. */
  predicate ValidPixels(s: seq<Rgb>) {
    forall p :: p in s ==> ValidRgb(p)
  }

  /** Every channel of `m` lies within the range spanned by four pixels. */
  predicate InHull(m: Rgb, a: Rgb, b: Rgb, c: Rgb, d: Rgb) {
    && Min4(a.r, b.r, c.r, d.r) <= m.r <= Max4(a.r, b.r, c.r, d.r)
    && Min4(a.g, b.g, c.g, d.g) <= m.g <= Max4(a.g, b.g, c.g, d.g)
    && Min4(a.b, b.b, c.b, d.b) <= m.b <= Max4(a.b, b.b, c.b, d.b)
  }

  function Min4(a: int, b: int, c: int, d: int): int {
    var ab := if a <= b then a else b;
    var cd := if c <= d then c else d;
    if ab <= cd then ab else cd
  }

  function Max4(a: int, b: int, c: int, d: int): int {
    var ab := if a >= b then a else b;
    var cd := if c >= d then c else d;
    if ab >= cd then ab else cd
  }

  /**
   * `bilinearInterpolation`: mix along the top and bottom rows by the right
   * proportion, then between the two results by the bottom proportion.
   */
  function Bilinear(topLeft: Rgb, topRight: Rgb, bottomLeft: Rgb, bottomRight: Rgb,
                    right: Quarter, bottom: Quarter): (m: Rgb)
    requires NonNegative(topLeft) && NonNegative(topRight)
    requires NonNegative(bottomLeft) && NonNegative(bottomRight)
    ensures NonNegative(m)
    ensures InHull(m, topLeft, topRight, bottomLeft, bottomRight)
    ensures (ValidRgb(topLeft) && ValidRgb(topRight) && ValidRgb(bottomLeft) && ValidRgb(bottomRight))
              ==> ValidRgb(m)
    ensures topLeft == topRight == bottomLeft == bottomRight ==> m == topLeft
  {
    var top := Mix(topLeft, topRight, right);
    var bot := Mix(bottomLeft, bottomRight, right);
    Mix(top, bot, bottom)
  }

  /** Each of the four pixels lies in their own range. */
  lemma CornersInHull(a: Rgb, b: Rgb, c: Rgb, d: Rgb)
    ensures InHull(a, a, b, c, d) && InHull(b, a, b, c, d)
    ensures InHull(c, a, b, c, d) && InHull(d, a, b, c, d)
  {
  }

  /** The range is convex: a value between two values in it is in it. */
  lemma HullConvex(m: Rgb, p: Rgb, q: Rgb, a: Rgb, b: Rgb, c: Rgb, d: Rgb)
    requires InHull(p, a, b, c, d) && InHull(q, a, b, c, d) && ChannelsBetween(m, p, q)
    ensures InHull(m, a, b, c, d)
  {
  }

  /** `threeOrMoreIdentical`, written as the source's 24 disjuncts. */
  predicate ThreeOrMoreIdentical<T(==)>(a: T, b: T, c: T, d: T) {
    || (a == b && b == c)
    || (a == b && b == d)
    || (a == c && c == b)
    || (a == c && c == d)
    || (a == d && d == b)
    || (a == d && d == c)
    || (b == a && a == c)
    || (b == a && a == d)
    || (b == c && c == a)
    || (b == c && c == d)
    || (b == d && d == a)
    || (b == d && d == c)
    || (c == a && a == b)
    || (c == a && a == d)
    || (c == b && b == a)
    || (c == b && b == d)
    || (c == d && d == a)
    || (c == d && d == b)
    || (d == a && a == b)
    || (d == a && a == c)
    || (d == b && b == a)
    || (d == b && b == c)
    || (d == c && c == a)
    || (d == c && c == b)
  }

  /** Reference meaning: some value occurs at least three times among the four. */
  ghost predicate SomeValueThrice<T>(a: T, b: T, c: T, d: T) {
    exists v :: v in multiset{a, b, c, d} && multiset{a, b, c, d}[v] >= 3
  }

  lemma ThreeOrMoreIdenticalMeaning<T>(a: T, b: T, c: T, d: T)
    ensures ThreeOrMoreIdentical(a, b, c, d) <==> SomeValueThrice(a, b, c, d)
  {
    var m := multiset{a, b, c, d};
    if ThreeOrMoreIdentical(a, b, c, d) {
      if a == b && b == c { assert m[a] >= 3; }
      else if a == b && b == d { assert m[a] >= 3; }
      else if a == c && c == d { assert m[a] >= 3; }
      else { assert b == c && c == d; assert m[b] >= 3; }
    }
    if SomeValueThrice(a, b, c, d) {
      var v :| v in m && m[v] >= 3;
      assert m[v] == (if a == v then 1 else 0) + (if b == v then 1 else 0)
                   + (if c == v then 1 else 0) + (if d == v then 1 else 0);
    }
  }

  /** The test depends only on the multiset of its arguments. */
  lemma ThreeOrMoreIdenticalPermutation<T>(a: T, b: T, c: T, d: T, a': T, b': T, c': T, d': T)
    requires multiset{a, b, c, d} == multiset{a', b', c', d'}
    ensures ThreeOrMoreIdentical(a, b, c, d) == ThreeOrMoreIdentical(a', b', c', d')
  {
    ThreeOrMoreIdenticalMeaning(a, b, c, d);
    ThreeOrMoreIdenticalMeaning(a', b', c', d');
  }

  lemma ThreeOrMoreIdenticalNegative<T>(a: T, b: T, c: T, d: T)
    ensures (a != b && a != c && a != d && b != c && b != d && c != d)
              ==> !ThreeOrMoreIdentical(a, b, c, d)
    ensures a == b && c == d && a != c ==> !ThreeOrMoreIdentical(a, b, c, d)
    ensures a == c && b == d && a != b ==> !ThreeOrMoreIdentical(a, b, c, d)
    ensures a == d && b == c && a != b ==> !ThreeOrMoreIdentical(a, b, c, d)
  {
  }
}
