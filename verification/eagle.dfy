/**
 * Eagle: each output corner copies the source pixel's diagonal neighbour on
 * that side when three neighbours agree, and keeps the pixel otherwise. The
 * neighbourhood is the row-major 3x3 window `w` read with NEAREST:
 *
 *     w[0] w[1] w[2]      top-left  top     top-right
 *     w[3] w[4] w[5]      left      P       right
 *     w[6] w[7] w[8]      bot-left  bottom  bot-right
 */
module Eagle {
  import opened Raster
  import opened Scale

  predicate IsWindow<T>(w: seq<T>) {
    |w| == 9
  }

  /**
   * The Eagle rule. The top-left corner tests the whole top row (top-left,
   * top and top-right), which is what the kernel does; the textbook rule
   * tests top-left, top and left instead.
   */
  function EagleRule<T(==)>(w: seq<T>): (blk: Block<T>)
    requires IsWindow(w)
    ensures blk.topLeft in {w[4], w[0]} && blk.topRight in {w[4], w[2]}
    ensures blk.bottomLeft in {w[4], w[6]} && blk.bottomRight in {w[4], w[8]}
  {
    Block(if w[0] == w[1] && w[1] == w[2] then w[0] else w[4],
          if w[1] == w[2] && w[2] == w[5] then w[2] else w[4],
          if w[3] == w[6] && w[6] == w[7] then w[6] else w[4],
          if w[5] == w[8] && w[8] == w[7] then w[8] else w[4])
  }

  /**
   * Each corner copies its diagonal neighbour exactly when its three
   * neighbours agree (or the diagonal neighbour already equals P).
   */
  lemma EagleCornerConditions<T>(w: seq<T>)
    requires IsWindow(w)
    ensures (EagleRule(w).topLeft == w[0]) <==> (w[0] == w[1] == w[2] || w[0] == w[4])
    ensures (EagleRule(w).topRight == w[2]) <==> (w[1] == w[2] == w[5] || w[2] == w[4])
    ensures (EagleRule(w).bottomLeft == w[6]) <==> (w[3] == w[6] == w[7] || w[6] == w[4])
    ensures (EagleRule(w).bottomRight == w[8]) <==> (w[5] == w[8] == w[7] || w[8] == w[4])
  {
  }

  /** Each corner reads only its own three neighbours and P, so corners are decided independently. */
  lemma EagleCornersIndependent<T>(w: seq<T>, w': seq<T>)
    requires IsWindow(w) && IsWindow(w') && w[4] == w'[4]
    ensures w[0] == w'[0] && w[1] == w'[1] && w[2] == w'[2] ==> EagleRule(w).topLeft == EagleRule(w').topLeft
    ensures w[1] == w'[1] && w[2] == w'[2] && w[5] == w'[5] ==> EagleRule(w).topRight == EagleRule(w').topRight
    ensures w[3] == w'[3] && w[6] == w'[6] && w[7] == w'[7] ==> EagleRule(w).bottomLeft == EagleRule(w').bottomLeft
    ensures w[5] == w'[5] && w[7] == w'[7] && w[8] == w'[8] ==> EagleRule(w).bottomRight == EagleRule(w').bottomRight
  {
  }

  /** The block `scaleEagle` writes for source pixel `(x, y)`. */
  function EagleBlock<T(==)>(src: Image<T>, x: int, y: int): Block<T>
    requires Valid(src) && InBounds(src, x, y)
  {
    EagleRule(Window3(src, x, y))
  }

  /** The Eagle rule as the per-pixel rule of the shared scaling. */
  function EagleAt<T(==)>(src: Image<T>): (int, int) --> Block<T> {
    (x, y) requires Valid(src) && InBounds(src, x, y) => EagleBlock(src, x, y)
  }

  /** Every corner of the block is an entry of the window. */
  lemma EagleRulePalette<T>(w: seq<T>, palette: seq<T>)
    requires IsWindow(w) && forall k :: 0 <= k < 9 ==> w[k] in palette
    ensures var blk := EagleRule(w);
            && blk.topLeft in palette && blk.topRight in palette
            && blk.bottomLeft in palette && blk.bottomRight in palette
  {
  }

  /** A window of one colour yields a block of that colour. */
  lemma EagleRuleUniform<T>(w: seq<T>, c: T)
    requires IsWindow(w) && forall k :: 0 <= k < 9 ==> w[k] == c
    ensures EagleRule(w) == Block(c, c, c, c)
  {
  }

  lemma EagleAtPalette<T>(src: Image<T>, x: int, y: int)
    requires Valid(src) && InBounds(src, x, y)
    ensures var blk := EagleBlock(src, x, y);
            && blk.topLeft in src.data && blk.topRight in src.data
            && blk.bottomLeft in src.data && blk.bottomRight in src.data
  {
    Window3Palette(src, x, y);
    EagleRulePalette(Window3(src, x, y), src.data);
  }

  lemma EagleAtUniform<T>(src: Image<T>, c: T, x: int, y: int)
    requires Valid(src) && Uniform(src, c) && InBounds(src, x, y)
    ensures EagleBlock(src, x, y) == Block(c, c, c, c)
  {
    Window3Uniform(src, c, x, y);
    EagleRuleUniform(Window3(src, x, y), c);
  }

  lemma EagleAtPaletteAll<T>(src: Image<T>)
    requires Valid(src)
    ensures RuleDefinedOn(src, EagleAt(src))
    ensures forall x, y :: InBounds(src, x, y) ==>
              && EagleAt(src)(x, y).topLeft in src.data && EagleAt(src)(x, y).topRight in src.data
              && EagleAt(src)(x, y).bottomLeft in src.data && EagleAt(src)(x, y).bottomRight in src.data
  {
    forall x, y | InBounds(src, x, y)
      ensures && EagleAt(src)(x, y).topLeft in src.data && EagleAt(src)(x, y).topRight in src.data
              && EagleAt(src)(x, y).bottomLeft in src.data && EagleAt(src)(x, y).bottomRight in src.data
    {
      EagleAtPalette(src, x, y);
    }
  }

  lemma EagleAtUniformAll<T>(src: Image<T>, c: T)
    requires Valid(src) && Uniform(src, c)
    ensures RuleDefinedOn(src, EagleAt(src))
    ensures ConstantRule(src, EagleAt(src), c)
  {
    forall x, y | InBounds(src, x, y)
      ensures EagleAt(src)(x, y) == Block(c, c, c, c)
    {
      EagleAtUniform(src, c, x, y);
    }
  }
}
