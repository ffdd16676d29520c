/**
 * EPX and AdvMAME2x: each source pixel P becomes a 2x2 block decided by its
 * four edge neighbours, A above, B to the right, C to the left and D below,
 * all read with the NEAREST policy.
 */
module Epx {
  import opened Raster
  import opened Scale
  import opened Pixel

  /** A pixel and its four edge neighbours. */
  datatype Cross<T> = Cross(p: T, a: T, b: T, c: T, d: T)

  /** The neighbourhood both kernels read at `(x, y)`. */
  function CrossAt<T>(src: Image<T>, x: int, y: int): (n: Cross<T>)
    requires Valid(src) && NonEmpty(src)
  {
    Cross(Sample(src, x, y), Sample(src, x, y - 1), Sample(src, x + 1, y),
          Sample(src, x - 1, y), Sample(src, x, y + 1))
  }

  /** The cross is the centre column and centre row of the 3x3 window. */
  lemma CrossInWindow<T>(src: Image<T>, x: int, y: int)
    requires Valid(src) && NonEmpty(src)
    ensures var n, w := CrossAt(src, x, y), Window3(src, x, y);
            n == Cross(w[4], w[1], w[5], w[3], w[7])
  {
  }

  /**
   * The EPX rule: a corner takes the neighbour its two adjacent edge
   * neighbours agree on, unless three or more of A, B, C, D coincide.
   */
  function EpxRule<T(==)>(n: Cross<T>): (blk: Block<T>)
    ensures blk.topLeft in {n.p, n.a} && blk.topRight in {n.p, n.b}
    ensures blk.bottomLeft in {n.p, n.c} && blk.bottomRight in {n.p, n.d}
    ensures ThreeOrMoreIdentical(n.a, n.b, n.c, n.d) ==> blk == Block(n.p, n.p, n.p, n.p)
  {
    var one := if n.c == n.a then n.a else n.p;
    var two := if n.a == n.b then n.b else n.p;
    var three := if n.d == n.c then n.c else n.p;
    var four := if n.b == n.d then n.d else n.p;
    if ThreeOrMoreIdentical(n.a, n.b, n.c, n.d) then Block(n.p, n.p, n.p, n.p)
    else Block(one, two, three, four)
  }

  /** Away from the override each EPX corner is decided by one pair. */
  lemma EpxCorners<T>(n: Cross<T>)
    requires !ThreeOrMoreIdentical(n.a, n.b, n.c, n.d)
    ensures EpxRule(n).topLeft == (if n.c == n.a then n.a else n.p)
    ensures EpxRule(n).topRight == (if n.a == n.b then n.b else n.p)
    ensures EpxRule(n).bottomLeft == (if n.d == n.c then n.c else n.p)
    ensures EpxRule(n).bottomRight == (if n.b == n.d then n.d else n.p)
  {
  }

  /**
   * The AdvMAME2x rule: a corner takes the neighbour its two adjacent edge
   * neighbours agree on, provided neither of them agrees with the opposite one.
   */
  function AdvMameRule<T(==)>(n: Cross<T>): (blk: Block<T>)
    ensures blk.topLeft in {n.p, n.a} && blk.topRight in {n.p, n.b}
    ensures blk.bottomLeft in {n.p, n.c} && blk.bottomRight in {n.p, n.d}
  {
    Block(if n.c == n.a && n.c != n.d && n.a != n.b then n.a else n.p,
          if n.a == n.b && n.a != n.c && n.b != n.d then n.b else n.p,
          if n.d == n.c && n.d != n.b && n.c != n.a then n.c else n.p,
          if n.b == n.d && n.b != n.a && n.d != n.c then n.d else n.p)
  }

  /** With all four neighbours equal no AdvMAME rule fires. */
  lemma AdvMameAllEqual<T>(n: Cross<T>)
    requires n.a == n.b == n.c == n.d
    ensures AdvMameRule(n) == Block(n.p, n.p, n.p, n.p)
  {
  }

  /**
   * The two rule sets are one function: when C == A, "three or more of A, B,
   * C, D are equal" is exactly "B == A or D == C", the cases AdvMAME excludes.
   */
  lemma EpxIsAdvMame<T>(n: Cross<T>)
    ensures EpxRule(n) == AdvMameRule(n)
  {
    if ThreeOrMoreIdentical(n.a, n.b, n.c, n.d) {
      ThreeOrMoreIdenticalMeaning(n.a, n.b, n.c, n.d);
    }
  }

  /** The block `scaleEpx` writes for source pixel `(x, y)`. */
  function EpxBlock<T(==)>(src: Image<T>, x: int, y: int): Block<T>
    requires Valid(src) && InBounds(src, x, y)
  {
    EpxRule(CrossAt(src, x, y))
  }

  /** The block `scaleAdvMame` writes for source pixel `(x, y)`. */
  function AdvMameBlock<T(==)>(src: Image<T>, x: int, y: int): Block<T>
    requires Valid(src) && InBounds(src, x, y)
  {
    AdvMameRule(CrossAt(src, x, y))
  }

  /** The EPX rule as the per-pixel rule of the shared scaling. */
  function EpxAt<T(==)>(src: Image<T>): (int, int) --> Block<T> {
    (x, y) requires Valid(src) && InBounds(src, x, y) => EpxBlock(src, x, y)
  }

  /** The AdvMAME2x rule as the per-pixel rule of the shared scaling. */
  function AdvMameAt<T(==)>(src: Image<T>): (int, int) --> Block<T> {
    (x, y) requires Valid(src) && InBounds(src, x, y) => AdvMameBlock(src, x, y)
  }

  lemma EpxAtIsAdvMameAt<T>(src: Image<T>, x: int, y: int)
    requires Valid(src) && InBounds(src, x, y)
    ensures EpxBlock(src, x, y) == AdvMameBlock(src, x, y)
  {
    EpxIsAdvMame(CrossAt(src, x, y));
  }

  /** A cross of one colour yields a block of that colour under either rule. */
  lemma RulesUniform<T>(n: Cross<T>, c: T)
    requires n == Cross(c, c, c, c, c)
    ensures EpxRule(n) == Block(c, c, c, c) && AdvMameRule(n) == Block(c, c, c, c)
  {
  }

  lemma CrossUniform<T>(src: Image<T>, c: T, x: int, y: int)
    requires Valid(src) && NonEmpty(src) && Uniform(src, c)
    ensures CrossAt(src, x, y) == Cross(c, c, c, c, c)
  {
  }

  lemma EpxAtUniform<T>(src: Image<T>, c: T, x: int, y: int)
    requires Valid(src) && Uniform(src, c) && InBounds(src, x, y)
    ensures EpxBlock(src, x, y) == Block(c, c, c, c)
  {
    CrossUniform(src, c, x, y);
    RulesUniform(CrossAt(src, x, y), c);
  }

  lemma EpxAtIsAdvMameAtAll<T>(src: Image<T>)
    requires Valid(src)
    ensures RuleDefinedOn(src, EpxAt(src)) && RuleDefinedOn(src, AdvMameAt(src))
    ensures forall x, y :: InBounds(src, x, y) ==> EpxAt(src)(x, y) == AdvMameAt(src)(x, y)
  {
    forall x, y | InBounds(src, x, y)
      ensures EpxAt(src)(x, y) == AdvMameAt(src)(x, y)
    {
      EpxAtIsAdvMameAt(src, x, y);
    }
  }

  lemma EpxAtUniformAll<T>(src: Image<T>, c: T)
    requires Valid(src) && Uniform(src, c)
    ensures RuleDefinedOn(src, EpxAt(src))
    ensures ConstantRule(src, EpxAt(src), c)
  {
    forall x, y | InBounds(src, x, y)
      ensures EpxAt(src)(x, y) == Block(c, c, c, c)
    {
      EpxAtUniform(src, c, x, y);
    }
  }
}
