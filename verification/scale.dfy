/**
 * The structure shared by every 2x kernel: a fresh raster of twice the
 * width and height in which source pixel `(x, y)` owns exactly the four
 * cells `(2x, 2y)`, `(2x+1, 2y)`, `(2x, 2y+1)` and `(2x+1, 2y+1)`, filled
 * from a per-pixel rule.
 */
module Scale {
  import opened Raster
  import opened Arith

  /** The four destination pixels of one source pixel. */
  datatype Block<T> = Block(topLeft: T, topRight: T, bottomLeft: T, bottomRight: T)

  /** The cell of a block at horizontal offset `qx` and vertical offset `qy`. */
  function Quadrant<T>(b: Block<T>, qx: int, qy: int): T {
    if qy == 0 then (if qx == 0 then b.topLeft else b.topRight)
    else (if qx == 0 then b.bottomLeft else b.bottomRight)
  }

  /** The rule can be evaluated at every pixel of `src`. */
  ghost predicate RuleDefinedOn<T>(src: Image<T>, rule: (int, int) --> Block<T>) {
    forall x, y :: InBounds(src, x, y) ==> rule.requires(x, y)
  }

  /** Column of destination cell `i` in a raster of width `w2`. */
  function CellX(w2: int, i: int): int
    requires 0 < w2
  {
    i % w2
  }

  /** Row of destination cell `i` in a raster of width `w2`. */
  function CellY(w2: int, i: int): int
    requires 0 < w2
  {
    i / w2
  }

  /** The value the kernel writes into destination cell `i`. */
  function Cell<T>(src: Image<T>, rule: (int, int) --> Block<T>, i: int): T
    requires Valid(src) && RuleDefinedOn(src, rule)
    requires 0 <= i < 4 * src.width * src.height
  {
    var w2 := 2 * src.width;
    assert 0 < w2;
    CellInRange(w2, 2 * src.height, i);
    Quadrant(rule(CellX(w2, i) / 2, CellY(w2, i) / 2), CellX(w2, i) % 2, CellY(w2, i) % 2)
  }

  lemma CellInRange(w2: int, h2: int, i: int)
    requires 0 < w2 && 0 <= h2 && 0 <= i < w2 * h2
    ensures 0 <= CellX(w2, i) < w2 && 0 <= CellY(w2, i) < h2
  {
    if CellY(w2, i) >= h2 {
      MulMonotone(h2, i / w2, w2);
      assert false;
    }
  }

  /** The cell at destination coordinate `(dx, dy)` is cell number `dx + dy * w2`. */
  lemma CellOfOffset(w2: int, dx: int, dy: int)
    requires 0 <= dx < w2 && 0 <= dy
    ensures CellX(w2, dx + dy * w2) == dx && CellY(w2, dx + dy * w2) == dy
  {
    DivModUnique(w2, dy, dx);
  }

  /** Block `blk` sits at the four cells source pixel `(x, y)` owns in `dst`. */
  ghost predicate Placed<T>(dst: Image<T>, x: int, y: int, blk: Block<T>) {
    && 0 <= 2 * x && 2 * x + 1 < dst.width && 0 <= 2 * y && 2 * y + 1 < dst.height
    && |dst.data| == dst.width * dst.height
    && dst.data[Offset(dst, 2 * x, 2 * y)] == blk.topLeft
    && dst.data[Offset(dst, 2 * x + 1, 2 * y)] == blk.topRight
    && dst.data[Offset(dst, 2 * x, 2 * y + 1)] == blk.bottomLeft
    && dst.data[Offset(dst, 2 * x + 1, 2 * y + 1)] == blk.bottomRight
  }

  /**
   * The kernel's output: twice the size, with every source pixel's block
   * placed at its four cells.
   */
  function Scale2x<T>(src: Image<T>, rule: (int, int) --> Block<T>): (dst: Image<T>)
    requires Valid(src) && RuleDefinedOn(src, rule)
    ensures Valid(dst) && dst.width == 2 * src.width && dst.height == 2 * src.height
    ensures forall x, y {:trigger Placed(dst, x, y, rule(x, y))} :: InBounds(src, x, y) ==>
              Placed(dst, x, y, rule(x, y))
  {
    var n := 4 * src.width * src.height;
    assert n == (2 * src.width) * (2 * src.height);
    var dst := Image(2 * src.width, 2 * src.height,
                     seq(n, i requires 0 <= i < n => Cell(src, rule, i)));
    Placement(src, rule, dst);
    dst
  }

  lemma Placement<T>(src: Image<T>, rule: (int, int) --> Block<T>, dst: Image<T>)
    requires Valid(src) && RuleDefinedOn(src, rule)
    requires dst.width == 2 * src.width && dst.height == 2 * src.height
    requires |dst.data| == dst.width * dst.height == 4 * src.width * src.height
    requires forall i :: 0 <= i < |dst.data| ==> dst.data[i] == Cell(src, rule, i)
    ensures forall x, y {:trigger Placed(dst, x, y, rule(x, y))} :: InBounds(src, x, y) ==>
              Placed(dst, x, y, rule(x, y))
  {
    forall x, y | InBounds(src, x, y)
      ensures Placed(dst, x, y, rule(x, y))
    {
      PlacementCell(src, rule, dst, x, y, 0, 0);
      PlacementCell(src, rule, dst, x, y, 1, 0);
      PlacementCell(src, rule, dst, x, y, 0, 1);
      PlacementCell(src, rule, dst, x, y, 1, 1);
    }
  }

  /** Cell `(2x + qx, 2y + qy)` of the destination holds quadrant `(qx, qy)` of pixel `(x, y)`'s block. */
  lemma PlacementCell<T>(src: Image<T>, rule: (int, int) --> Block<T>, dst: Image<T>,
                         x: int, y: int, qx: int, qy: int)
    requires Valid(src) && RuleDefinedOn(src, rule) && InBounds(src, x, y)
    requires dst.width == 2 * src.width && dst.height == 2 * src.height
    requires |dst.data| == dst.width * dst.height == 4 * src.width * src.height
    requires forall i :: 0 <= i < |dst.data| ==> dst.data[i] == Cell(src, rule, i)
    requires 0 <= qx <= 1 && 0 <= qy <= 1
    ensures 0 <= Offset(dst, 2 * x + qx, 2 * y + qy) < |dst.data|
    ensures dst.data[Offset(dst, 2 * x + qx, 2 * y + qy)] == Quadrant(rule(x, y), qx, qy)
  {
    var w2 := 2 * src.width;
    var i := Offset(dst, 2 * x + qx, 2 * y + qy);
    assert i == (2 * x + qx) + (2 * y + qy) * w2;
    DstBound(src.width, src.height, 2 * x + qx, 2 * y + qy);
    CellOfOffset(w2, 2 * x + qx, 2 * y + qy);
    assert dst.data[i] == Cell(src, rule, i);
  }

  lemma DstBound(w: int, h: int, dx: int, dy: int)
    requires 0 <= dx < 2 * w && 0 <= dy < 2 * h
    ensures 0 <= dx + dy * (2 * w) < 4 * w * h
  {
    MulMonotone(dy, 2 * h - 1, 2 * w);
    assert (2 * h - 1) * (2 * w) + 2 * w == 4 * w * h;
  }

  /** Every destination cell belongs to the source pixel at half its coordinates. */
  lemma Ownership<T>(src: Image<T>, rule: (int, int) --> Block<T>, dx: int, dy: int)
    requires Valid(src) && RuleDefinedOn(src, rule)
    requires InBounds(Scale2x(src, rule), dx, dy)
    ensures InBounds(src, dx / 2, dy / 2)
    ensures Scale2x(src, rule).data[Offset(Scale2x(src, rule), dx, dy)]
              == Quadrant(rule(dx / 2, dy / 2), dx % 2, dy % 2)
  {
    var dst := Scale2x(src, rule);
    CellOfOffset(dst.width, dx, dy);
  }

  /** The rule is the same constant block everywhere. */
  ghost predicate ConstantRule<T>(src: Image<T>, rule: (int, int) --> Block<T>, c: T)
    requires RuleDefinedOn(src, rule)
  {
    forall x, y :: InBounds(src, x, y) ==> rule(x, y) == Block(c, c, c, c)
  }

  /** A rule that yields `c` everywhere yields a uniform output. */
  lemma Scale2xUniform<T>(src: Image<T>, rule: (int, int) --> Block<T>, c: T)
    requires Valid(src) && RuleDefinedOn(src, rule) && ConstantRule(src, rule, c)
    ensures Uniform(Scale2x(src, rule), c)
  {
    var dst := Scale2x(src, rule);
    forall i | 0 <= i < |dst.data|
      ensures dst.data[i] == c
    {
      CellInRange(dst.width, dst.height, i);
      var dx, dy := CellX(dst.width, i), CellY(dst.width, i);
      assert i == dx + dy * dst.width;
      Ownership(src, rule, dx, dy);
    }
  }

  /** Pixel `(x, y)`'s block in the output, one source pixel at a time. */
  lemma Scale2xAt<T>(src: Image<T>, rule: (int, int) --> Block<T>, x: int, y: int)
    requires Valid(src) && RuleDefinedOn(src, rule) && InBounds(src, x, y)
    ensures var dst := Scale2x(src, rule);
            && dst.data[Offset(dst, 2 * x, 2 * y)] == rule(x, y).topLeft
            && dst.data[Offset(dst, 2 * x + 1, 2 * y)] == rule(x, y).topRight
            && dst.data[Offset(dst, 2 * x, 2 * y + 1)] == rule(x, y).bottomLeft
            && dst.data[Offset(dst, 2 * x + 1, 2 * y + 1)] == rule(x, y).bottomRight
  {
    assert Placed(Scale2x(src, rule), x, y, rule(x, y));
  }

  /** The output depends only on the blocks the rule yields inside the source. */
  lemma Scale2xExt<T>(src: Image<T>, rule: (int, int) --> Block<T>, rule': (int, int) --> Block<T>)
    requires Valid(src) && RuleDefinedOn(src, rule) && RuleDefinedOn(src, rule')
    requires forall x, y :: InBounds(src, x, y) ==> rule(x, y) == rule'(x, y)
    ensures Scale2x(src, rule) == Scale2x(src, rule')
  {
    var d, d' := Scale2x(src, rule), Scale2x(src, rule');
    forall i | 0 <= i < |d.data|
      ensures d.data[i] == d'.data[i]
    {
      CellInRange(d.width, d.height, i);
    }
  }

  /** A rule that only ever yields pixels of the source introduces no new colour. */
  lemma Scale2xPalette<T>(src: Image<T>, rule: (int, int) --> Block<T>)
    requires Valid(src) && RuleDefinedOn(src, rule)
    requires forall x, y :: InBounds(src, x, y) ==>
               && rule(x, y).topLeft in src.data && rule(x, y).topRight in src.data
               && rule(x, y).bottomLeft in src.data && rule(x, y).bottomRight in src.data
    ensures forall i :: 0 <= i < |Scale2x(src, rule).data| ==> Scale2x(src, rule).data[i] in src.data
  {
    var dst := Scale2x(src, rule);
    forall i | 0 <= i < |dst.data|
      ensures dst.data[i] in src.data
    {
      CellInRange(dst.width, dst.height, i);
    }
  }

  /** A property every rule output has is a property of every output cell. */
  lemma Scale2xPreserves<T>(src: Image<T>, rule: (int, int) --> Block<T>, P: T -> bool)
    requires Valid(src) && RuleDefinedOn(src, rule)
    requires forall x, y :: InBounds(src, x, y) ==>
               && P(rule(x, y).topLeft) && P(rule(x, y).topRight)
               && P(rule(x, y).bottomLeft) && P(rule(x, y).bottomRight)
    ensures forall i :: 0 <= i < |Scale2x(src, rule).data| ==> P(Scale2x(src, rule).data[i])
  {
    var dst := Scale2x(src, rule);
    forall i | 0 <= i < |dst.data|
      ensures P(dst.data[i])
    {
      CellInRange(dst.width, dst.height, i);
    }
  }

  /**
   * The nested loops of every kernel: allocate the destination, then for
   * each source pixel in row-major order write its four cells.
   */
  method Scale2xLoop<T>(src: Image<T>, rule: (int, int) --> Block<T>, zero: T) returns (dst: Image<T>)
    requires Valid(src) && RuleDefinedOn(src, rule)
    ensures dst == Scale2x(src, rule)
  {
    var w2, h2 := 2 * src.width, 2 * src.height;
    var n := 4 * src.width * src.height;
    assert w2 * h2 == n;
    var data := seq(n, _ => zero);
    NoneDone(src, rule, data, zero);
    var y := 0;
    while y < src.height
      invariant 0 <= y <= src.height && |data| == n
      invariant forall i :: 0 <= i < n ==>
                  data[i] == (if Done(w2, i, 0, y) then Cell(src, rule, i) else zero)
    {
      var x := 0;
      while x < src.width
        invariant 0 <= x <= src.width && |data| == n
        invariant forall i :: 0 <= i < n ==>
                    data[i] == (if Done(w2, i, x, y) then Cell(src, rule, i) else zero)
      {
        var block := rule(x, y);
        var o0 := 2 * x + (2 * y) * w2;
        DstBound(src.width, src.height, 2 * x + 1, 2 * y + 1);
        assert (2 * y + 1) * w2 == (2 * y) * w2 + w2;
        ghost var before := data;
        data := data[o0 := block.topLeft][o0 + 1 := block.topRight]
                    [o0 + w2 := block.bottomLeft][o0 + w2 + 1 := block.bottomRight];
        WritesBlock(src, rule, before, data, x, y, o0, zero);
        x := x + 1;
      }
      RowDone(src, rule, data, y, zero);
      y := y + 1;
    }
    dst := Image(w2, h2, data);
    AllDone(src, rule, dst, zero);
  }

  /** Before the first row nothing is written. */
  lemma NoneDone<T>(src: Image<T>, rule: (int, int) --> Block<T>, data: seq<T>, zero: T)
    requires Valid(src) && RuleDefinedOn(src, rule)
    requires |data| == 4 * src.width * src.height
    requires forall i :: 0 <= i < |data| ==> data[i] == zero
    ensures forall i :: 0 <= i < |data| ==>
              data[i] == (if Done(2 * src.width, i, 0, 0) then Cell(src, rule, i) else zero)
  {
    forall i | 0 <= i < |data|
      ensures !Done(2 * src.width, i, 0, 0)
    {
      if src.width == 0 {
        assert false;
      }
      CellInRange(2 * src.width, 2 * src.height, i);
    }
  }

  /** Having written the whole of row `y` is having written every row before `y + 1`. */
  lemma RowDone<T>(src: Image<T>, rule: (int, int) --> Block<T>, data: seq<T>, y: int, zero: T)
    requires Valid(src) && RuleDefinedOn(src, rule) && 0 <= y < src.height
    requires |data| == 4 * src.width * src.height
    requires forall i :: 0 <= i < |data| ==>
               data[i] == (if Done(2 * src.width, i, src.width, y) then Cell(src, rule, i) else zero)
    ensures forall i :: 0 <= i < |data| ==>
              data[i] == (if Done(2 * src.width, i, 0, y + 1) then Cell(src, rule, i) else zero)
  {
    var w2 := 2 * src.width;
    forall i | 0 <= i < |data|
      ensures Done(w2, i, src.width, y) == Done(w2, i, 0, y + 1)
    {
      CellInRange(w2, 2 * src.height, i);
    }
  }

  /** Once every row is written, the buffer is the kernel's output. */
  lemma AllDone<T>(src: Image<T>, rule: (int, int) --> Block<T>, dst: Image<T>, zero: T)
    requires Valid(src) && RuleDefinedOn(src, rule)
    requires dst.width == 2 * src.width && dst.height == 2 * src.height
    requires |dst.data| == 4 * src.width * src.height
    requires forall i :: 0 <= i < |dst.data| ==>
               dst.data[i] == (if Done(2 * src.width, i, 0, src.height) then Cell(src, rule, i) else zero)
    ensures dst == Scale2x(src, rule)
  {
    var w2 := 2 * src.width;
    var expected := Scale2x(src, rule);
    assert |expected.data| == |dst.data|;
    forall i | 0 <= i < |dst.data|
      ensures dst.data[i] == expected.data[i]
    {
      CellInRange(w2, 2 * src.height, i);
    }
  }

  /** Destination cell `i` belongs to a pixel before `(x, y)` in row-major order. */
  predicate Done(w2: int, i: int, x: int, y: int) {
    && 0 < w2
    && var oy := CellY(w2, i) / 2;
       oy < y || (oy == y && CellX(w2, i) / 2 < x)
  }

  /** Writing pixel `(x, y)`'s four cells extends the written prefix by that pixel. */
  lemma WritesBlock<T>(src: Image<T>, rule: (int, int) --> Block<T>,
                       before: seq<T>, after: seq<T>, x: int, y: int, o0: int, zero: T)
    requires Valid(src) && RuleDefinedOn(src, rule) && InBounds(src, x, y)
    requires |before| == |after| == 4 * src.width * src.height
    requires o0 == 2 * x + (2 * y) * (2 * src.width)
    requires 0 <= o0 && o0 + 2 * src.width + 1 < |before|
    requires forall i :: 0 <= i < |before| ==>
               before[i] == (if Done(2 * src.width, i, x, y) then Cell(src, rule, i) else zero)
    requires forall i :: 0 <= i < |after| ==>
               after[i] == (if i == o0 then rule(x, y).topLeft
                            else if i == o0 + 1 then rule(x, y).topRight
                            else if i == o0 + 2 * src.width then rule(x, y).bottomLeft
                            else if i == o0 + 2 * src.width + 1 then rule(x, y).bottomRight
                            else before[i])
    ensures forall i :: 0 <= i < |after| ==>
              after[i] == (if Done(2 * src.width, i, x + 1, y) then Cell(src, rule, i) else zero)
  {
    var w2 := 2 * src.width;
    assert (2 * y + 1) * w2 == (2 * y) * w2 + w2;
    CellOfOffset(w2, 2 * x, 2 * y);
    CellOfOffset(w2, 2 * x + 1, 2 * y);
    CellOfOffset(w2, 2 * x, 2 * y + 1);
    CellOfOffset(w2, 2 * x + 1, 2 * y + 1);
    forall i | 0 <= i < |after|
      ensures after[i] == (if Done(w2, i, x + 1, y) then Cell(src, rule, i) else zero)
    {
      NewlyDone(w2, i, x, y, o0);
    }
  }

  /** Moving past pixel `(x, y)` marks exactly its four cells as written. */
  lemma NewlyDone(w2: int, i: int, x: int, y: int, o0: int)
    requires 0 <= 2 * x + 1 < w2 && 0 <= y && 0 <= i
    requires o0 == 2 * x + (2 * y) * w2
    ensures Done(w2, i, x + 1, y) && !Done(w2, i, x, y) <==>
              i == o0 || i == o0 + 1 || i == o0 + w2 || i == o0 + w2 + 1
    ensures Done(w2, i, x, y) ==> Done(w2, i, x + 1, y)
  {
    var cx, cy := CellX(w2, i), CellY(w2, i);
    assert i == cx + cy * w2;
    assert (2 * y + 1) * w2 == (2 * y) * w2 + w2;
    CellOfOffset(w2, 2 * x, 2 * y);
    CellOfOffset(w2, 2 * x + 1, 2 * y);
    CellOfOffset(w2, 2 * x, 2 * y + 1);
    CellOfOffset(w2, 2 * x + 1, 2 * y + 1);
    if cy / 2 == y && cx / 2 == x {
      assert cy == 2 * y || cy == 2 * y + 1;
    }
  }

  /** The row-major 3x3 neighbourhood of `(x, y)`, read with NEAREST. */
  function Window3<T>(src: Image<T>, x: int, y: int): (w: seq<T>)
    requires Valid(src) && NonEmpty(src)
    ensures |w| == 9
  {
    [Sample(src, x - 1, y - 1), Sample(src, x, y - 1), Sample(src, x + 1, y - 1),
     Sample(src, x - 1, y),     Sample(src, x, y),     Sample(src, x + 1, y),
     Sample(src, x - 1, y + 1), Sample(src, x, y + 1), Sample(src, x + 1, y + 1)]
  }

  /** Entry `k` of the window is the neighbour at column offset `k % 3 - 1` and row offset `k / 3 - 1`. */
  lemma Window3Layout<T>(src: Image<T>, x: int, y: int)
    requires Valid(src) && NonEmpty(src)
    ensures forall k :: 0 <= k < 9 ==> Window3(src, x, y)[k] == Sample(src, x + k % 3 - 1, y + k / 3 - 1)
  {
  }

  /** Every window entry is a pixel of the source. */
  lemma Window3Palette<T>(src: Image<T>, x: int, y: int)
    requires Valid(src) && NonEmpty(src)
    ensures forall k :: 0 <= k < 9 ==> Window3(src, x, y)[k] in src.data
  {
  }

  lemma Window3Uniform<T>(src: Image<T>, c: T, x: int, y: int)
    requires Valid(src) && NonEmpty(src) && Uniform(src, c)
    ensures forall k :: 0 <= k < 9 ==> Window3(src, x, y)[k] == c
  {
  }
}
