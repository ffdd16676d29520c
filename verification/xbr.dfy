/**
 * xBR, in the repository's simplified form: four edge-detection rules, one
 * per output corner direction, compare weighted YUV distances across and
 * along a diagonal of the 5x5 neighbourhood; each rule that fires blends a
 * chosen neighbour into the corner it points at and, when the edge
 * continues, into one or two adjacent corners. Context names, row by row:
 *
 *          A1  B1  C1
 *     A0   A   B   C   C4
 *     D0   D   E   F   F4
 *     G0   G   H   I   I4
 *          G5  H5  I5
 *
 * The output cells `zero`, `one`, `two`, `three` are the block's top-left,
 * top-right, bottom-left and bottom-right.
 */
module Xbr {
  import opened Raster
  import opened Scale
  import opened Pixel
  import opened Yuv

  datatype Context = Context(
    a1: Rgb, b1: Rgb, c1: Rgb,
    a0: Rgb, a: Rgb, b: Rgb, c: Rgb, c4: Rgb,
    d0: Rgb, d: Rgb, e: Rgb, f: Rgb, f4: Rgb,
    g0: Rgb, g: Rgb, h: Rgb, i: Rgb, i4: Rgb,
    g5: Rgb, h5: Rgb, i5: Rgb)

  /** The 5x5 neighbourhood (without its corners) read at `(x, y)`: E is `(x, y)`. */
  function ContextAt(src: Image<Rgb>, x: int, y: int): Context
    requires Valid(src) && NonEmpty(src)
  {
    Context(
      Sample(src, x - 1, y - 2), Sample(src, x, y - 2), Sample(src, x + 1, y - 2),
      Sample(src, x - 2, y - 1), Sample(src, x - 1, y - 1), Sample(src, x, y - 1), Sample(src, x + 1, y - 1), Sample(src, x + 2, y - 1),
      Sample(src, x - 2, y), Sample(src, x - 1, y), Sample(src, x, y), Sample(src, x + 1, y), Sample(src, x + 2, y),
      Sample(src, x - 2, y + 1), Sample(src, x - 1, y + 1), Sample(src, x, y + 1), Sample(src, x + 1, y + 1), Sample(src, x + 2, y + 1),
      Sample(src, x - 1, y + 2), Sample(src, x, y + 2), Sample(src, x + 1, y + 2))
  }

  /** The four diagonal directions, in the order the kernel applies them. */
  datatype Direction = BotRight | BotLeft | TopLeft | TopRight

  /**
   * A colour distance. The kernel uses the weighted YUV distance `Dist`;
   * the rules are stated over any distance so that their structure can be
   * reasoned about apart from the arithmetic of the colour conversion.
   */
  type Metric = (Rgb, Rgb) -> nat

  /** The weighted distance across the diagonal of `dir` (the edge's own direction). */
  function Perpendicular(n: Context, dir: Direction, dist: Metric): nat {
    match dir
    case BotRight => dist(n.e, n.c) + dist(n.e, n.g) + dist(n.i, n.f4) + dist(n.i, n.h5) + 4 * dist(n.h, n.f)
    case BotLeft => dist(n.a, n.e) + dist(n.e, n.i) + dist(n.d0, n.g) + dist(n.g, n.h5) + 4 * dist(n.d, n.h)
    case TopLeft => dist(n.g, n.e) + dist(n.e, n.c) + dist(n.d0, n.a) + dist(n.a, n.b1) + 4 * dist(n.d, n.b)
    case TopRight => dist(n.a, n.e) + dist(n.e, n.i) + dist(n.b1, n.c) + dist(n.c, n.f4) + 4 * dist(n.b, n.f)
  }

  /** The weighted distance along the diagonal of `dir`. */
  function Parallel(n: Context, dir: Direction, dist: Metric): nat {
    match dir
    case BotRight => dist(n.h, n.d) + dist(n.h, n.i5) + dist(n.f, n.i4) + dist(n.f, n.b) + 4 * dist(n.e, n.i)
    case BotLeft => dist(n.b, n.d) + dist(n.f, n.h) + dist(n.d, n.g0) + dist(n.h, n.g5) + 4 * dist(n.e, n.g)
    case TopLeft => dist(n.h, n.d) + dist(n.d, n.a0) + dist(n.f, n.b) + dist(n.b, n.a1) + 4 * dist(n.e, n.a)
    case TopRight => dist(n.d, n.b) + dist(n.b, n.c1) + dist(n.h, n.f) + dist(n.f, n.c4) + 4 * dist(n.e, n.c)
  }

  /** `edr_*`: an edge is detected when the pixels are strictly closer across than along. */
  predicate Edge(n: Context, dir: Direction, dist: Metric) {
    Perpendicular(n, dir, dist) < Parallel(n, dir, dist)
  }

  /** The two neighbours a firing rule may blend in; ties in distance go to the first. */
  function Candidates(n: Context, dir: Direction): (Rgb, Rgb) {
    match dir
    case BotRight => (n.f, n.h)
    case BotLeft => (n.h, n.d)
    case TopLeft => (n.d, n.b)
    case TopRight => (n.b, n.f)
  }

  /** `new_color`: the candidate nearer to E, the first one on a tie. */
  function NewColor(n: Context, dir: Direction, dist: Metric): (nc: Rgb)
    ensures nc == Candidates(n, dir).0 || nc == Candidates(n, dir).1
  {
    var (first, second) := Candidates(n, dir);
    if dist(n.e, first) <= dist(n.e, second) then first else second
  }

  /** The new colour is a candidate nearest to E, and the second is chosen only when strictly nearer. */
  lemma NewColorNearest(n: Context, dir: Direction, dist: Metric)
    ensures var (first, second) := Candidates(n, dir);
            && dist(n.e, NewColor(n, dir, dist)) <= dist(n.e, first)
            && dist(n.e, NewColor(n, dir, dist)) <= dist(n.e, second)
            && (NewColor(n, dir, dist) != first ==> dist(n.e, second) < dist(n.e, first))
  {
  }

  /** The four output cells. */
  datatype Corner = ZeroCell | OneCell | TwoCell | ThreeCell

  function Get(blk: Block<Rgb>, k: Corner): Rgb {
    match k
    case ZeroCell => blk.topLeft
    case OneCell => blk.topRight
    case TwoCell => blk.bottomLeft
    case ThreeCell => blk.bottomRight
  }

  function Set(blk: Block<Rgb>, k: Corner, v: Rgb): (r: Block<Rgb>)
    ensures Get(r, k) == v
    ensures forall k' :: k' != k ==> Get(r, k') == Get(blk, k')
  {
    match k
    case ZeroCell => blk.(topLeft := v)
    case OneCell => blk.(topRight := v)
    case TwoCell => blk.(bottomLeft := v)
    case ThreeCell => blk.(bottomRight := v)
  }

  /** The corner a direction points at. */
  function Main(dir: Direction): Corner {
    match dir
    case BotRight => ThreeCell
    case BotLeft => TwoCell
    case TopLeft => ZeroCell
    case TopRight => OneCell
  }

  /** The adjacent corners reached when the edge continues, and the equalities that say it does. */
  function FirstSide(dir: Direction): Corner {
    match dir
    case BotRight => TwoCell
    case BotLeft => ZeroCell
    case TopLeft => OneCell
    case TopRight => ThreeCell
  }

  function SecondSide(dir: Direction): Corner {
    match dir
    case BotRight => OneCell
    case BotLeft => ThreeCell
    case TopLeft => TwoCell
    case TopRight => ZeroCell
  }

  predicate FirstSideCond(n: Context, dir: Direction) {
    match dir
    case BotRight => n.f == n.g
    case BotLeft => n.a == n.h
    case TopLeft => n.d == n.c
    case TopRight => n.b == n.i
  }

  predicate SecondSideCond(n: Context, dir: Direction) {
    match dir
    case BotRight => n.h == n.c
    case BotLeft => n.d == n.i
    case TopLeft => n.b == n.g
    case TopRight => n.f == n.a
  }

  /** The corner opposite to the one a direction points at. */
  function Opposite(dir: Direction): Corner {
    match dir
    case BotRight => ZeroCell
    case BotLeft => OneCell
    case TopLeft => ThreeCell
    case TopRight => TwoCell
  }

  /** Every cell has non-negative channels, as the unsigned `glm::uvec3` cells do. */
  predicate NonNegativeBlock(blk: Block<Rgb>) {
    NonNegative(blk.topLeft) && NonNegative(blk.topRight) && NonNegative(blk.bottomLeft) && NonNegative(blk.bottomRight)
  }

  /** The pixels a rule reads colours from have non-negative channels. */
  predicate NonNegativeNeighbours(n: Context) {
    NonNegative(n.e) && NonNegative(n.b) && NonNegative(n.d) && NonNegative(n.f) && NonNegative(n.h)
  }

  /**
   * One firing rule, with its continuation tests `cont1`, `cont2` and its
   * new colour `nc`: both, one or neither test holds; the main corner takes
   * 3/4 of the new colour when any holds and 1/2 otherwise, each continuing
   * side takes 1/4.
   */
  function Blend(blk: Block<Rgb>, dir: Direction, cont1: bool, cont2: bool, nc: Rgb): (r: Block<Rgb>)
    requires NonNegativeBlock(blk) && NonNegative(nc)
    ensures NonNegativeBlock(r)
  {
    var main, s1, s2 := Main(dir), FirstSide(dir), SecondSide(dir);
    if cont1 && cont2 then
      var b1 := Set(blk, main, Mix(Get(blk, main), nc, 3));
      var b2 := Set(b1, s1, Mix(Get(b1, s1), nc, 1));
      Set(b2, s2, Mix(Get(b2, s2), nc, 1))
    else if cont1 then
      var b1 := Set(blk, main, Mix(Get(blk, main), nc, 3));
      Set(b1, s1, Mix(Get(b1, s1), nc, 1))
    else if cont2 then
      var b1 := Set(blk, main, Mix(Get(blk, main), nc, 3));
      Set(b1, s2, Mix(Get(b1, s2), nc, 1))
    else
      Set(blk, main, Mix(Get(blk, main), nc, Half))
  }

  /** The main, side and opposite corners of a direction are four different cells. */
  lemma CornersDistinct(dir: Direction)
    ensures Main(dir) != FirstSide(dir) && Main(dir) != SecondSide(dir) && FirstSide(dir) != SecondSide(dir)
    ensures Opposite(dir) != Main(dir) && Opposite(dir) != FirstSide(dir) && Opposite(dir) != SecondSide(dir)
  {
  }

  /**
   * The update structure of a firing rule: the main corner always changes,
   * each side only when its continuation test holds, the opposite corner never.
   */
  lemma BlendFrame(blk: Block<Rgb>, dir: Direction, cont1: bool, cont2: bool, nc: Rgb)
    requires NonNegativeBlock(blk) && NonNegative(nc)
    ensures var r := Blend(blk, dir, cont1, cont2, nc);
            && Get(r, Main(dir)) == Mix(Get(blk, Main(dir)), nc, if cont1 || cont2 then 3 else Half)
            && Get(r, FirstSide(dir)) == (if cont1 then Mix(Get(blk, FirstSide(dir)), nc, 1) else Get(blk, FirstSide(dir)))
            && Get(r, SecondSide(dir)) == (if cont2 then Mix(Get(blk, SecondSide(dir)), nc, 1) else Get(blk, SecondSide(dir)))
            && Get(r, Opposite(dir)) == Get(blk, Opposite(dir))
  {
    CornersDistinct(dir);
  }

  /** What the kernel decides for one direction before touching the block. */
  datatype Decision = Decision(dir: Direction, fires: bool, cont1: bool, cont2: bool, nc: Rgb)

  function Decide(n: Context, dir: Direction, dist: Metric): (dc: Decision)
    ensures dc.dir == dir && (dc.nc == Candidates(n, dir).0 || dc.nc == Candidates(n, dir).1)
  {
    Decision(dir, Edge(n, dir, dist), FirstSideCond(n, dir), SecondSideCond(n, dir), NewColor(n, dir, dist))
  }

  /** The four decisions, in the order the kernel applies them: bottom-right, bottom-left, top-left, top-right. */
  function Decisions(n: Context, dist: Metric): (dcs: seq<Decision>)
    ensures |dcs| == 4
  {
    [Decide(n, BotRight, dist), Decide(n, BotLeft, dist), Decide(n, TopLeft, dist), Decide(n, TopRight, dist)]
  }

  /** The rule when it fires, and the block unchanged when it does not. */
  function Step(blk: Block<Rgb>, dc: Decision): (r: Block<Rgb>)
    requires NonNegativeBlock(blk) && NonNegative(dc.nc)
    ensures NonNegativeBlock(r)
  {
    if dc.fires then Blend(blk, dc.dir, dc.cont1, dc.cont2, dc.nc) else blk
  }

  predicate NonNegativeColours(dcs: seq<Decision>) {
    forall k :: 0 <= k < |dcs| ==> NonNegative(dcs[k].nc)
  }

  /** The decisions applied one after the other. */
  function Steps(blk: Block<Rgb>, dcs: seq<Decision>): (r: Block<Rgb>)
    requires NonNegativeBlock(blk) && NonNegativeColours(dcs)
    ensures NonNegativeBlock(r)
    decreases |dcs|
  {
    if |dcs| == 0 then blk
    else
      assert NonNegativeColours(dcs[1..]) by {
        forall k | 0 <= k < |dcs[1..]|
          ensures NonNegative(dcs[1..][k].nc)
        {
          assert dcs[1..][k] == dcs[k + 1];
        }
      }
      Steps(Step(blk, dcs[0]), dcs[1..])
  }

  lemma DecisionsNonNegative(n: Context, dist: Metric)
    requires NonNegativeNeighbours(n)
    ensures NonNegativeColours(Decisions(n, dist))
  {
    var dcs := Decisions(n, dist);
    forall k | 0 <= k < 4
      ensures NonNegative(dcs[k].nc)
    {
    }
  }

  /** The block `scaleXbr` computes: all four cells start as E, then the four rules in order. */
  function XbrRule(n: Context, dist: Metric): Block<Rgb>
    requires NonNegativeNeighbours(n)
  {
    DecisionsNonNegative(n, dist);
    Steps(Block(n.e, n.e, n.e, n.e), Decisions(n, dist))
  }

  /**
   * The update structure of each kernel rule when it fires. For
   * bottom-right: `three` always changes, `two` only when F == G, `one`
   * only when H == C, and `zero` never.
   */
  lemma StepFrame(blk: Block<Rgb>, n: Context, dir: Direction, dist: Metric)
    requires NonNegativeBlock(blk) && NonNegativeNeighbours(n) && Edge(n, dir, dist)
    ensures var r, nc := Step(blk, Decide(n, dir, dist)), NewColor(n, dir, dist);
            && Get(r, Main(dir)) == Mix(Get(blk, Main(dir)), nc,
                                        if FirstSideCond(n, dir) || SecondSideCond(n, dir) then 3 else Half)
            && Get(r, FirstSide(dir)) == (if FirstSideCond(n, dir) then Mix(Get(blk, FirstSide(dir)), nc, 1)
                                          else Get(blk, FirstSide(dir)))
            && Get(r, SecondSide(dir)) == (if SecondSideCond(n, dir) then Mix(Get(blk, SecondSide(dir)), nc, 1)
                                           else Get(blk, SecondSide(dir)))
            && Get(r, Opposite(dir)) == Get(blk, Opposite(dir))
  {
    BlendFrame(blk, dir, FirstSideCond(n, dir), SecondSideCond(n, dir), NewColor(n, dir, dist));
  }

  /** Decisions that do not fire leave the block as it is. */
  lemma {:induction false} StepsNoFire(blk: Block<Rgb>, dcs: seq<Decision>)
    requires NonNegativeBlock(blk) && NonNegativeColours(dcs)
    requires forall k :: 0 <= k < |dcs| ==> !dcs[k].fires
    ensures Steps(blk, dcs) == blk
    decreases |dcs|
  {
    if |dcs| > 0 {
      assert dcs[1..] == dcs[1..];
      forall k | 0 <= k < |dcs[1..]|
        ensures !dcs[1..][k].fires && NonNegative(dcs[1..][k].nc)
      {
        assert dcs[1..][k] == dcs[k + 1];
      }
      StepsNoFire(blk, dcs[1..]);
    }
  }

  /** When no rule fires, all four cells are the source pixel. */
  lemma XbrNoEdge(n: Context, dist: Metric)
    requires NonNegativeNeighbours(n)
    requires !Edge(n, BotRight, dist) && !Edge(n, BotLeft, dist) && !Edge(n, TopLeft, dist) && !Edge(n, TopRight, dist)
    ensures XbrRule(n, dist) == Block(n.e, n.e, n.e, n.e)
  {
    DecisionsNonNegative(n, dist);
    var dcs := Decisions(n, dist);
    assert forall k :: 0 <= k < |dcs| ==> !dcs[k].fires;
    StepsNoFire(Block(n.e, n.e, n.e, n.e), dcs);
  }

  /** Equal distances across and along never detect an edge. */
  lemma EdgeStrict(n: Context, dir: Direction, dist: Metric)
    requires Perpendicular(n, dir, dist) >= Parallel(n, dir, dist)
    ensures !Edge(n, dir, dist)
  {
  }

  predicate UniformContext(n: Context, c: Rgb) {
    n == Context(c, c, c, c, c, c, c, c, c, c, c, c, c, c, c, c, c, c, c, c, c)
  }

  /** A distance that puts every colour at distance 0 from itself, as `Dist` does. */
  ghost predicate ZeroOnEqual(dist: Metric) {
    forall p :: dist(p, p) == 0
  }

  lemma DistZeroOnEqual()
    ensures ZeroOnEqual(Dist)
  {
    forall p
      ensures Dist(p, p) == 0
    {
      DistSymmetric(p, p);
    }
  }

  /** A one-colour context has every distance 0, so no rule fires. */
  lemma UniformNoEdge(n: Context, c: Rgb, dir: Direction, dist: Metric)
    requires UniformContext(n, c) && ZeroOnEqual(dist)
    ensures Perpendicular(n, dir, dist) == 0 && Parallel(n, dir, dist) == 0
    ensures !Edge(n, dir, dist)
  {
    assert dist(c, c) == 0;
  }

  lemma XbrRuleUniform(n: Context, c: Rgb, dist: Metric)
    requires UniformContext(n, c) && NonNegative(c) && ZeroOnEqual(dist)
    ensures XbrRule(n, dist) == Block(c, c, c, c)
  {
    UniformNoEdge(n, c, BotRight, dist);
    UniformNoEdge(n, c, BotLeft, dist);
    UniformNoEdge(n, c, TopLeft, dist);
    UniformNoEdge(n, c, TopRight, dist);
    XbrNoEdge(n, dist);
  }

  predicate BlockValid(blk: Block<Rgb>) {
    ValidRgb(blk.topLeft) && ValidRgb(blk.topRight) && ValidRgb(blk.bottomLeft) && ValidRgb(blk.bottomRight)
  }

  /** The pixels a rule may blend in are byte colours. */
  predicate ValidNeighbours(n: Context) {
    ValidRgb(n.e) && ValidRgb(n.b) && ValidRgb(n.d) && ValidRgb(n.f) && ValidRgb(n.h)
  }

  /** Every cell is the main, a side or the opposite corner of any direction. */
  lemma CornerCases(dir: Direction, k: Corner)
    ensures k == Main(dir) || k == FirstSide(dir) || k == SecondSide(dir) || k == Opposite(dir)
  {
  }

  lemma BlendValid(blk: Block<Rgb>, dir: Direction, cont1: bool, cont2: bool, nc: Rgb)
    requires BlockValid(blk) && ValidRgb(nc)
    ensures BlockValid(Blend(blk, dir, cont1, cont2, nc))
  {
    var r := Blend(blk, dir, cont1, cont2, nc);
    BlendFrame(blk, dir, cont1, cont2, nc);
    forall k: Corner
      ensures ValidRgb(Get(r, k))
    {
      assert ValidRgb(Get(blk, k)) by {
        match k
        case ZeroCell =>
        case OneCell =>
        case TwoCell =>
        case ThreeCell =>
      }
      CornerCases(dir, k);
    }
    assert ValidRgb(Get(r, ZeroCell)) && ValidRgb(Get(r, OneCell)) && ValidRgb(Get(r, TwoCell)) && ValidRgb(Get(r, ThreeCell));
  }

  predicate ValidColours(dcs: seq<Decision>) {
    forall k :: 0 <= k < |dcs| ==> ValidRgb(dcs[k].nc)
  }

  /** Blending byte colours keeps every cell a byte colour. */
  lemma {:induction false} StepsValid(blk: Block<Rgb>, dcs: seq<Decision>)
    requires BlockValid(blk) && ValidColours(dcs)
    ensures BlockValid(Steps(blk, dcs))
    decreases |dcs|
  {
    if |dcs| > 0 {
      if dcs[0].fires {
        BlendValid(blk, dcs[0].dir, dcs[0].cont1, dcs[0].cont2, dcs[0].nc);
      }
      forall k | 0 <= k < |dcs[1..]|
        ensures ValidRgb(dcs[1..][k].nc)
      {
        assert dcs[1..][k] == dcs[k + 1];
      }
      StepsValid(Step(blk, dcs[0]), dcs[1..]);
    }
  }

  lemma XbrRuleValid(n: Context, dist: Metric)
    requires ValidNeighbours(n)
    ensures BlockValid(XbrRule(n, dist))
  {
    var dcs := Decisions(n, dist);
    forall k | 0 <= k < 4
      ensures ValidRgb(dcs[k].nc)
    {
    }
    StepsValid(Block(n.e, n.e, n.e, n.e), dcs);
  }

  /** Whether a decision writes corner `k`: its main corner, or a side whose continuation test holds. */
  predicate Touches(dc: Decision, k: Corner) {
    dc.fires && (k == Main(dc.dir) || (dc.cont1 && k == FirstSide(dc.dir)) || (dc.cont2 && k == SecondSide(dc.dir)))
  }

  /** A corner no decision touches keeps its value through all of them. */
  lemma {:induction false} StepsUntouched(blk: Block<Rgb>, dcs: seq<Decision>, k: Corner)
    requires NonNegativeBlock(blk) && NonNegativeColours(dcs)
    requires forall j :: 0 <= j < |dcs| ==> !Touches(dcs[j], k)
    ensures Get(Steps(blk, dcs), k) == Get(blk, k)
    decreases |dcs|
  {
    if |dcs| > 0 {
      var dc := dcs[0];
      if dc.fires {
        BlendFrame(blk, dc.dir, dc.cont1, dc.cont2, dc.nc);
        CornerCases(dc.dir, k);
        CornersDistinct(dc.dir);
      }
      forall j | 0 <= j < |dcs[1..]|
        ensures !Touches(dcs[1..][j], k) && NonNegative(dcs[1..][j].nc)
      {
        assert dcs[1..][j] == dcs[j + 1];
      }
      StepsUntouched(Step(blk, dc), dcs[1..], k);
    }
  }

  /** A corner that no firing rule writes stays the source pixel E. */
  lemma XbrUntouched(n: Context, dist: Metric, k: Corner)
    requires NonNegativeNeighbours(n)
    requires forall j :: 0 <= j < 4 ==> !Touches(Decisions(n, dist)[j], k)
    ensures Get(XbrRule(n, dist), k) == n.e
  {
    DecisionsNonNegative(n, dist);
    StepsUntouched(Block(n.e, n.e, n.e, n.e), Decisions(n, dist), k);
  }

  /** The block `scaleXbr` writes for source pixel `(x, y)`, with the kernel's YUV distance. */
  function XbrBlock(src: Image<Rgb>, x: int, y: int): Block<Rgb>
    requires Valid(src) && ValidPixels(src.data) && InBounds(src, x, y)
  {
    XbrRule(ContextAt(src, x, y), Dist)
  }

  /** The xBR rule as the per-pixel rule of the shared scaling. */
  function XbrAt(src: Image<Rgb>): (int, int) --> Block<Rgb> {
    (x, y) requires Valid(src) && ValidPixels(src.data) && InBounds(src, x, y) => XbrBlock(src, x, y)
  }

  lemma ContextUniform(src: Image<Rgb>, c: Rgb, x: int, y: int)
    requires Valid(src) && NonEmpty(src) && Uniform(src, c)
    ensures UniformContext(ContextAt(src, x, y), c)
  {
  }

  lemma XbrBlockValid(src: Image<Rgb>, x: int, y: int)
    requires Valid(src) && ValidPixels(src.data) && InBounds(src, x, y)
    ensures BlockValid(XbrBlock(src, x, y))
  {
    XbrRuleValid(ContextAt(src, x, y), Dist);
  }

  lemma XbrBlockUniform(src: Image<Rgb>, c: Rgb, x: int, y: int)
    requires Valid(src) && ValidPixels(src.data) && Uniform(src, c) && InBounds(src, x, y)
    ensures XbrBlock(src, x, y) == Block(c, c, c, c)
  {
    assert src.data[0] == c;
    ContextUniform(src, c, x, y);
    DistZeroOnEqual();
    XbrRuleUniform(ContextAt(src, x, y), c, Dist);
  }

  lemma XbrAtValidAll(src: Image<Rgb>)
    requires Valid(src) && ValidPixels(src.data)
    ensures RuleDefinedOn(src, XbrAt(src))
    ensures forall x, y :: InBounds(src, x, y) ==> BlockValid(XbrAt(src)(x, y))
  {
    forall x, y | InBounds(src, x, y)
      ensures BlockValid(XbrAt(src)(x, y))
    {
      assert XbrAt(src)(x, y) == XbrBlock(src, x, y);
      XbrBlockValid(src, x, y);
    }
  }

  lemma XbrAtUniformAll(src: Image<Rgb>, c: Rgb)
    requires Valid(src) && ValidPixels(src.data) && Uniform(src, c)
    ensures RuleDefinedOn(src, XbrAt(src))
    ensures ConstantRule(src, XbrAt(src), c)
  {
    forall x, y | InBounds(src, x, y)
      ensures XbrAt(src)(x, y) == Block(c, c, c, c)
    {
      assert XbrAt(src)(x, y) == XbrBlock(src, x, y);
      XbrBlockUniform(src, c, x, y);
    }
  }
}
