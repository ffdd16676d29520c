/**
 * 2xSaI: the top-left output keeps the source pixel A; the other three are
 * chosen from a 4x4 context by edge tests along the A-D and B-C diagonals,
 * falling back to blends, and in the both-diagonals case to a vote of the
 * surrounding pixels. Context names, row by row:
 *
 *     I E F J
 *     G A B K
 *     H C D L
 *     M N O P
 */
module Sai {
  import opened Raster
  import opened Scale
  import opened Pixel

  datatype Context = Context(
    i: Rgb, e: Rgb, f: Rgb, j: Rgb,
    g: Rgb, a: Rgb, b: Rgb, k: Rgb,
    h: Rgb, c: Rgb, d: Rgb, l: Rgb,
    m: Rgb, n: Rgb, o: Rgb, p: Rgb)

  /** The 4x4 context read at `(x, y)`: A is `(x, y)`, D is `(x + 1, y + 1)`. */
  function ContextAt(src: Image<Rgb>, x: int, y: int): Context
    requires Valid(src) && NonEmpty(src)
  {
    Context(Sample(src, x - 1, y - 1), Sample(src, x, y - 1), Sample(src, x + 1, y - 1), Sample(src, x + 2, y - 1),
            Sample(src, x - 1, y),     Sample(src, x, y),     Sample(src, x + 1, y),     Sample(src, x + 2, y),
            Sample(src, x - 1, y + 1), Sample(src, x, y + 1), Sample(src, x + 1, y + 1), Sample(src, x + 2, y + 1),
            Sample(src, x - 1, y + 2), Sample(src, x, y + 2), Sample(src, x + 1, y + 2), Sample(src, x + 2, y + 2))
  }

  /**
   * `majorityMatch(A, B, C, D)`: count how many of C and D equal A, and of
   * the rest how many equal B; +1 when both equal A, -1 when both equal B
   * (and not A), 0 otherwise.
   */
  function MajorityMatch<T(==)>(a: T, b: T, c: T, d: T): (r: int)
    ensures -1 <= r <= 1
    ensures r == 1 <==> c == a && d == a
    ensures r == -1 <==> c == b && d == b && c != a && d != a
  {
    var x1, y1 := if a == c then 1 else 0, if a != c && b == c then 1 else 0;
    var x2, y2 := x1 + (if a == d then 1 else 0), y1 + (if a != d && b == d then 1 else 0);
    (if x2 <= 1 then -1 else 0) + (if y2 <= 1 then 1 else 0)
  }

  /** The vote of the both-diagonals case: four matches of the outer pairs against B and A. */
  function Accumulator(n: Context): (acc: int)
    ensures -4 <= acc <= 4
  {
    MajorityMatch(n.b, n.a, n.g, n.e) + MajorityMatch(n.b, n.a, n.k, n.f)
    + MajorityMatch(n.b, n.a, n.h, n.n) + MajorityMatch(n.b, n.a, n.l, n.o)
  }

  /** The first filter layer: which of the two diagonals are edges of one colour. */
  datatype Diagonals = OnlyAD | OnlyBC | Both | Neither

  function Classify(n: Context): (dg: Diagonals)
    ensures dg == OnlyAD <==> n.a == n.d && n.b != n.c
    ensures dg == OnlyBC <==> n.a != n.d && n.b == n.c
    ensures dg == Both <==> n.a == n.d && n.b == n.c
    ensures dg == Neither <==> n.a != n.d && n.b != n.c
  {
    if n.a == n.d && n.b != n.c then OnlyAD
    else if n.a != n.d && n.b == n.c then OnlyBC
    else if n.a == n.d && n.b == n.c then Both
    else Neither
  }

  predicate ValidCore(n: Context) {
    ValidRgb(n.a) && ValidRgb(n.b) && ValidRgb(n.c) && ValidRgb(n.d)
  }

  /**
   * The second filter layer: the top-left output is always A, the other
   * three depend on which diagonals are edges.
   */
  function SaiRule(n: Context): (blk: Block<Rgb>)
    requires ValidCore(n)
    ensures blk.topLeft == n.a
    ensures ValidRgb(blk.topRight) && ValidRgb(blk.bottomLeft) && ValidRgb(blk.bottomRight)
  {
    match Classify(n)
    case OnlyAD => OnlyADRule(n)
    case OnlyBC => OnlyBCRule(n)
    case Both => BothRule(n)
    case Neither => NeitherRule(n)
  }

  /** A-D is an edge, B-C is not. Both arms of the bottom test yield A, as the kernel is written. */
  function OnlyADRule(n: Context): (blk: Block<Rgb>)
    requires ValidCore(n)
    ensures blk.topLeft == n.a && blk.bottomLeft == n.a && blk.bottomRight == n.a
    ensures blk.topRight in {n.a, Mix(n.a, n.b, Half)} && ValidRgb(blk.topRight)
  {
    var A, B, C := n.a, n.b, n.c;
    var right := if (A == n.e && B == n.l) || (A == C && A == n.f && B != n.e && B == n.j) then A
                 else Mix(A, B, Half);
    var bottom := if (A == n.g && C == n.o) || (A == B && A == n.h && n.g != C && C == n.m) then A
                  else A;
    Block(A, right, bottom, A)
  }

  /** B-C is an edge, A-D is not. */
  function OnlyBCRule(n: Context): (blk: Block<Rgb>)
    requires ValidCore(n)
    ensures blk.topLeft == n.a && blk.bottomRight == n.b
    ensures blk.topRight in {n.b, Mix(n.a, n.b, Half)} && ValidRgb(blk.topRight)
    ensures blk.bottomLeft in {n.c, Mix(n.a, n.c, Half)} && ValidRgb(blk.bottomLeft)
  {
    var A, B, C, D := n.a, n.b, n.c, n.d;
    var right := if (B == n.f && A == n.h) || (B == n.e && B == D && A != n.f && A == n.i) then B
                 else Mix(A, B, Half);
    var bottom := if (C == n.h && A == n.f) || (C == n.g && C == D && A != n.h && A == n.i) then C
                  else Mix(A, C, Half);
    Block(A, right, bottom, B)
  }

  /** Both diagonals are edges: one colour, or a vote between A and B. */
  function BothRule(n: Context): (blk: Block<Rgb>)
    requires ValidCore(n)
    ensures blk.topLeft == n.a
    ensures ValidRgb(blk.topRight) && ValidRgb(blk.bottomLeft) && ValidRgb(blk.bottomRight)
  {
    var A, B, C, D := n.a, n.b, n.c, n.d;
    if A == B then Block(A, A, A, A)
    else
      var acc := Accumulator(n);
      var bottomRight := if acc > 0 then A else if acc < 0 then B else Bilinear(A, B, C, D, Half, Half);
      Block(A, Mix(A, B, Half), Mix(A, C, Half), bottomRight)
  }

  /** Neither diagonal is an edge. */
  function NeitherRule(n: Context): (blk: Block<Rgb>)
    requires ValidCore(n)
    ensures blk.topLeft == n.a && blk.bottomRight == Bilinear(n.a, n.b, n.c, n.d, Half, Half)
    ensures blk.topRight in {n.a, n.b, Mix(n.a, n.b, Half)} && ValidRgb(blk.topRight)
    ensures blk.bottomLeft in {n.a, n.c, Mix(n.a, n.c, Half)} && ValidRgb(blk.bottomLeft)
  {
    var A, B, C, D := n.a, n.b, n.c, n.d;
    var right := if A == C && A == n.f && B != n.e && B == n.j then A
                 else if B == n.e && B == D && A != n.f && A == n.i then B
                 else Mix(A, B, Half);
    var bottom := if A == B && A == n.h && n.g != C && C == n.m then A
                  else if C == n.g && C == D && A != n.h && A == n.i then C
                  else Mix(A, C, Half);
    Block(A, right, bottom, Bilinear(A, B, C, D, Half, Half))
  }

  /** What each case fixes, whatever the outer pixels are. */
  lemma SaiCases(n: Context)
    requires ValidCore(n)
    ensures n.a == n.d && n.b != n.c ==> SaiRule(n).bottomLeft == n.a && SaiRule(n).bottomRight == n.a
    ensures n.a != n.d && n.b == n.c ==> SaiRule(n).bottomRight == n.b
    ensures n.a == n.d && n.b == n.c && n.a == n.b ==> SaiRule(n) == Block(n.a, n.a, n.a, n.a)
  {
  }

  /** In the both-diagonals case the vote decides the bottom-right pixel. */
  lemma SaiVote(n: Context)
    requires ValidCore(n) && n.a == n.d && n.b == n.c && n.a != n.b
    ensures Accumulator(n) > 0 ==> SaiRule(n).bottomRight == n.a
    ensures Accumulator(n) < 0 ==> SaiRule(n).bottomRight == n.b
    ensures Accumulator(n) == 0 ==> SaiRule(n).bottomRight == Bilinear(n.a, n.b, n.c, n.d, Half, Half)
    ensures SaiRule(n).topRight == Mix(n.a, n.b, Half) && SaiRule(n).bottomLeft == Mix(n.a, n.c, Half)
  {
  }

  /** Every cell of `blk` lies in the colour range of the context's A, B, C and D. */
  predicate BlockInHull(blk: Block<Rgb>, n: Context) {
    && InHull(blk.topLeft, n.a, n.b, n.c, n.d) && InHull(blk.topRight, n.a, n.b, n.c, n.d)
    && InHull(blk.bottomLeft, n.a, n.b, n.c, n.d) && InHull(blk.bottomRight, n.a, n.b, n.c, n.d)
  }

  /** The two blends the rule can produce stay within the range. */
  lemma BlendsInHull(n: Context)
    requires ValidCore(n)
    ensures InHull(n.a, n.a, n.b, n.c, n.d) && InHull(n.b, n.a, n.b, n.c, n.d)
    ensures InHull(n.c, n.a, n.b, n.c, n.d) && InHull(n.d, n.a, n.b, n.c, n.d)
    ensures InHull(Mix(n.a, n.b, Half), n.a, n.b, n.c, n.d)
    ensures InHull(Mix(n.a, n.c, Half), n.a, n.b, n.c, n.d)
  {
    CornersInHull(n.a, n.b, n.c, n.d);
    HullConvex(Mix(n.a, n.b, Half), n.a, n.b, n.a, n.b, n.c, n.d);
    HullConvex(Mix(n.a, n.c, Half), n.a, n.c, n.a, n.b, n.c, n.d);
  }

  lemma OnlyADInHull(n: Context)
    requires ValidCore(n)
    ensures BlockInHull(OnlyADRule(n), n)
  {
    BlendsInHull(n);
  }

  lemma OnlyBCInHull(n: Context)
    requires ValidCore(n)
    ensures BlockInHull(OnlyBCRule(n), n)
  {
    BlendsInHull(n);
  }

  lemma BothInHull(n: Context)
    requires ValidCore(n)
    ensures BlockInHull(BothRule(n), n)
  {
    BlendsInHull(n);
  }

  lemma NeitherInHull(n: Context)
    requires ValidCore(n)
    ensures BlockInHull(NeitherRule(n), n)
  {
    BlendsInHull(n);
  }

  /** Every output lies in the colour range of A, B, C and D: the kernel never overshoots. */
  lemma SaiRuleInHull(n: Context)
    requires ValidCore(n)
    ensures BlockInHull(SaiRule(n), n)
  {
    match Classify(n)
    case OnlyAD => OnlyADInHull(n);
    case OnlyBC => OnlyBCInHull(n);
    case Both => BothInHull(n);
    case Neither => NeitherInHull(n);
  }

  /** A context of one colour yields four copies of it. */
  lemma SaiRuleUniform(n: Context, c: Rgb)
    requires ValidRgb(c)
    requires n == Context(c, c, c, c, c, c, c, c, c, c, c, c, c, c, c, c)
    ensures SaiRule(n) == Block(c, c, c, c)
  {
  }

  /** The block `scale2xSaI` writes for source pixel `(x, y)`. */
  function SaiBlock(src: Image<Rgb>, x: int, y: int): Block<Rgb>
    requires Valid(src) && ValidPixels(src.data) && InBounds(src, x, y)
  {
    SaiRule(ContextAt(src, x, y))
  }

  /** The 2xSaI rule as the per-pixel rule of the shared scaling. */
  function SaiAt(src: Image<Rgb>): (int, int) --> Block<Rgb> {
    (x, y) requires Valid(src) && ValidPixels(src.data) && InBounds(src, x, y) => SaiBlock(src, x, y)
  }

  /** The top-left output cell of each pixel is that pixel. */
  lemma SaiBlockTopLeft(src: Image<Rgb>, x: int, y: int)
    requires Valid(src) && ValidPixels(src.data) && InBounds(src, x, y)
    ensures SaiBlock(src, x, y).topLeft == src.data[Offset(src, x, y)]
  {
  }

  lemma SaiBlockValid(src: Image<Rgb>, x: int, y: int)
    requires Valid(src) && ValidPixels(src.data) && InBounds(src, x, y)
    ensures var blk := SaiBlock(src, x, y);
            ValidRgb(blk.topLeft) && ValidRgb(blk.topRight) && ValidRgb(blk.bottomLeft) && ValidRgb(blk.bottomRight)
  {
  }

  lemma SaiBlockUniform(src: Image<Rgb>, c: Rgb, x: int, y: int)
    requires Valid(src) && ValidPixels(src.data) && Uniform(src, c) && InBounds(src, x, y)
    ensures SaiBlock(src, x, y) == Block(c, c, c, c)
  {
    assert src.data[0] == c;
    ContextUniform(src, c, x, y);
    SaiRuleUniform(ContextAt(src, x, y), c);
  }

  lemma ContextUniform(src: Image<Rgb>, c: Rgb, x: int, y: int)
    requires Valid(src) && NonEmpty(src) && Uniform(src, c)
    ensures ContextAt(src, x, y) == Context(c, c, c, c, c, c, c, c, c, c, c, c, c, c, c, c)
  {
  }

  lemma SaiAtAll(src: Image<Rgb>)
    requires Valid(src) && ValidPixels(src.data)
    ensures RuleDefinedOn(src, SaiAt(src))
    ensures forall x, y :: InBounds(src, x, y) ==> SaiAt(src)(x, y) == SaiBlock(src, x, y)
  {
  }

  lemma SaiAtValidAll(src: Image<Rgb>)
    requires Valid(src) && ValidPixels(src.data)
    ensures RuleDefinedOn(src, SaiAt(src))
    ensures forall x, y :: InBounds(src, x, y) ==>
              && ValidRgb(SaiAt(src)(x, y).topLeft) && ValidRgb(SaiAt(src)(x, y).topRight)
              && ValidRgb(SaiAt(src)(x, y).bottomLeft) && ValidRgb(SaiAt(src)(x, y).bottomRight)
  {
    forall x, y | InBounds(src, x, y)
      ensures && ValidRgb(SaiAt(src)(x, y).topLeft) && ValidRgb(SaiAt(src)(x, y).topRight)
              && ValidRgb(SaiAt(src)(x, y).bottomLeft) && ValidRgb(SaiAt(src)(x, y).bottomRight)
    {
      SaiBlockValid(src, x, y);
    }
  }

  lemma SaiAtUniformAll(src: Image<Rgb>, c: Rgb)
    requires Valid(src) && ValidPixels(src.data) && Uniform(src, c)
    ensures RuleDefinedOn(src, SaiAt(src))
    ensures ConstantRule(src, SaiAt(src), c)
  {
    forall x, y | InBounds(src, x, y)
      ensures SaiAt(src)(x, y) == Block(c, c, c, c)
    {
      SaiBlockUniform(src, c, x, y);
    }
  }
}
