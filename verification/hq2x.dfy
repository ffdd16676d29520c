/**
 * HQ2x, in its reduced form: the eight neighbours of the 3x3 window are
 * compared with the centre in YUV, giving an 8-bit difference mask; each of
 * the four output cells is then chosen by a chain of clauses, the first
 * whose mask patterns (and, for some, an extra YUV test) hold deciding how
 * the cell blends window entries with integer weights and a right shift.
 *
 * The chains are data: a clause is a guard and a blend, and one evaluator
 * picks the first clause whose guard holds.
 */
module Hq2x {
  import opened Raster
  import opened Scale
  import opened Pixel
  import opened Yuv
  import opened Arith
  import opened Results

  /** An index into the row-major 3x3 window; 4 is the centre. */
  type Slot = i: nat | i < 9

  /** The window position that bit `k` of the difference mask describes. */
  function Neighbour(k: nat): (i: Slot)
    requires k < 8
    ensures i != 4
  {
    if k < 4 then k else k + 1
  }

  /** The HQ2x difference test of window entry `i` against the centre. */
  predicate Differs(w: seq<Rgb>, i: Slot)
    requires |w| == 9
  {
    YuvDifference(w[4], w[i])
  }

  /** The mask with only bit `k` set. */
  function Bit(k: nat): bv8
    requires k < 8
  {
    if k == 0 then 0x01 else if k == 1 then 0x02 else if k == 2 then 0x04 else if k == 3 then 0x08
    else if k == 4 then 0x10 else if k == 5 then 0x20 else if k == 6 then 0x40 else 0x80
  }

  predicate BitSet(b: bv8, k: nat)
    requires k < 8
  {
    b & Bit(k) != 0
  }

  /** Two masks with the same eight bits are the same mask. */
  lemma BitsDetermine(a: bv8, b: bv8)
    requires forall k :: 0 <= k < 8 ==> BitSet(a, k) == BitSet(b, k)
    ensures a == b
  {
    assert BitSet(a, 0) == BitSet(b, 0) && BitSet(a, 1) == BitSet(b, 1);
    assert BitSet(a, 2) == BitSet(b, 2) && BitSet(a, 3) == BitSet(b, 3);
    assert BitSet(a, 4) == BitSet(b, 4) && BitSet(a, 5) == BitSet(b, 5);
    assert BitSet(a, 6) == BitSet(b, 6) && BitSet(a, 7) == BitSet(b, 7);
  }

  /** `(pixel_diff << k)`: the mask with only bit `k`, or nothing. */
  function Flag(d: bool, k: nat): (b: bv8)
    requires k < 8
    ensures forall j :: 0 <= j < 8 ==> (BitSet(b, j) <==> d && j == k)
  {
    if d then Bit(k) else 0
  }

  /**
   * `compute_differences`: the loop over the window, skipping the centre,
   * or-ing the test of entry `offset` into bit `offset` below the centre and
   * bit `offset - 1` above it.
   */
  method ComputeDifferences(w: seq<Rgb>) returns (diffs: bv8)
    requires |w| == 9
    ensures forall k :: 0 <= k < 8 ==> (BitSet(diffs, k) <==> Differs(w, Neighbour(k)))
    ensures diffs == Differences(w)
  {
    diffs := 0;
    var offset := 0;
    while offset < 9
      invariant 0 <= offset <= 9
      invariant forall k :: 0 <= k < 8 ==> (BitSet(diffs, k) <==> Neighbour(k) < offset && Differs(w, Neighbour(k)))
    {
      if offset != 4 {
        var pixelDiff := YuvDifference(w[4], w[offset]);
        var k := if offset < 4 then offset else offset - 1;
        assert Neighbour(k) == offset;
        var flag := Flag(pixelDiff, k);
        forall j | 0 <= j < 8
          ensures BitSet(diffs | flag, j) <==> BitSet(diffs, j) || BitSet(flag, j)
        {
          OrBit(diffs, flag, j);
        }
        diffs := diffs | flag;
      }
      offset := offset + 1;
    }
    DifferencesBits(w);
    BitsDetermine(diffs, Differences(w));
  }

  lemma OrBit(a: bv8, b: bv8, j: nat)
    requires j < 8
    ensures BitSet(a | b, j) <==> BitSet(a, j) || BitSet(b, j)
  {
  }

  /** The mask whose bit `k` is the `k`-th flag. */
  function Mask(b0: bool, b1: bool, b2: bool, b3: bool, b4: bool, b5: bool, b6: bool, b7: bool): bv8 {
    Flag(b0, 0) | Flag(b1, 1) | Flag(b2, 2) | Flag(b3, 3) | Flag(b4, 4) | Flag(b5, 5) | Flag(b6, 6) | Flag(b7, 7)
  }

  lemma MaskBits(b0: bool, b1: bool, b2: bool, b3: bool, b4: bool, b5: bool, b6: bool, b7: bool)
    ensures var m := Mask(b0, b1, b2, b3, b4, b5, b6, b7);
            && BitSet(m, 0) == b0 && BitSet(m, 1) == b1 && BitSet(m, 2) == b2 && BitSet(m, 3) == b3
            && BitSet(m, 4) == b4 && BitSet(m, 5) == b5 && BitSet(m, 6) == b6 && BitSet(m, 7) == b7
  {
  }

  /** The difference mask as one expression: bit `k` tests `Neighbour(k)`. */
  function Differences(w: seq<Rgb>): bv8
    requires |w| == 9
  {
    Mask(Differs(w, 0), Differs(w, 1), Differs(w, 2), Differs(w, 3),
         Differs(w, 5), Differs(w, 6), Differs(w, 7), Differs(w, 8))
  }

  lemma DifferencesBits(w: seq<Rgb>)
    requires |w| == 9
    ensures forall k :: 0 <= k < 8 ==> (BitSet(Differences(w), k) <==> Differs(w, Neighbour(k)))
  {
    MaskBits(Differs(w, 0), Differs(w, 1), Differs(w, 2), Differs(w, 3),
             Differs(w, 5), Differs(w, 6), Differs(w, 7), Differs(w, 8));
  }

  /** A window whose entries are all equal differs nowhere. */
  lemma DifferencesUniform(w: seq<Rgb>, c: Rgb)
    requires |w| == 9 && forall i :: 0 <= i < 9 ==> w[i] == c
    ensures Differences(w) == 0
  {
    forall i: Slot
      ensures !Differs(w, i)
    {
      YuvDifferenceIrreflexiveSymmetric(c, c);
    }
    DifferencesBits(w);
    BitsDetermine(Differences(w), 0);
  }

  /** `P(mask, des_res)`: the masked bits of the difference mask are exactly `des`. */
  datatype Pattern = Pattern(mask: bv8, des: bv8)

  predicate Matches(p: Pattern, diffs: bv8) {
    diffs & p.mask == p.des
  }

  /** Some pattern of the disjunction matches. */
  predicate AnyMatches(ps: seq<Pattern>, diffs: bv8) {
    exists k :: 0 <= k < |ps| && Matches(ps[k], diffs)
  }

  /** A disjunction of patterns, possibly conjoined with `WDIFF(w[i], w[j])`. */
  datatype Guard = Guard(patterns: seq<Pattern>, wdiff: Option<(Slot, Slot)>)

  predicate Holds(g: Guard, diffs: bv8, w: seq<Rgb>)
    requires |w| == 9
  {
    && AnyMatches(g.patterns, diffs)
    && match g.wdiff
       case None => true
       case Some(pair) => YuvDifference(w[pair.0], w[pair.1])
  }

  /**
   * What a clause assigns: the centre itself, or `interpolate2Pixels` /
   * `interpolate3Pixels` of window entries with integer weights and a shift.
   */
  datatype Blend =
    | Centre
    | Two(i1: Slot, w1: nat, i2: Slot, w2: nat, s: nat)
    | Three(j1: Slot, v1: nat, j2: Slot, v2: nat, j3: Slot, v3: nat, t: nat)

  datatype Clause = Clause(guard: Guard, blend: Blend)

  function Pow2(s: nat): (p: nat)
    ensures 0 < p
  {
    if s == 0 then 1 else 2 * Pow2(s - 1)
  }

  /**
   * `interpolate2Pixels`: equal inputs are returned as they are; otherwise
   * each channel is `(c1 * w1 + c2 * w2) >> s`.
   */
  function Interpolate2(c1: Rgb, w1: nat, c2: Rgb, w2: nat, s: nat): Rgb {
    if c1 == c2 then c1
    else
      var d := Pow2(s);
      Rgb((c1.r * w1 + c2.r * w2) / d, (c1.g * w1 + c2.g * w2) / d, (c1.b * w1 + c2.b * w2) / d)
  }

  /** `interpolate3Pixels`: each channel is `(c1 * w1 + c2 * w2 + c3 * w3) >> s`, with no shortcut. */
  function Interpolate3(c1: Rgb, w1: nat, c2: Rgb, w2: nat, c3: Rgb, w3: nat, s: nat): Rgb {
    var d := Pow2(s);
    Rgb((c1.r * w1 + c2.r * w2 + c3.r * w3) / d,
        (c1.g * w1 + c2.g * w2 + c3.g * w3) / d,
        (c1.b * w1 + c2.b * w2 + c3.b * w3) / d)
  }

  /** Weights summing to the shifted-out power of two keep byte colours bytes. */
  lemma Interpolate2Valid(c1: Rgb, w1: nat, c2: Rgb, w2: nat, s: nat)
    requires ValidRgb(c1) && ValidRgb(c2) && w1 + w2 == Pow2(s)
    ensures ValidRgb(Interpolate2(c1, w1, c2, w2, s))
  {
    var d := Pow2(s);
    WeightedBounds(c1.r, w1, c2.r, w2, 0, 0, d);
    WeightedBounds(c1.g, w1, c2.g, w2, 0, 0, d);
    WeightedBounds(c1.b, w1, c2.b, w2, 0, 0, d);
  }

  lemma Interpolate3Valid(c1: Rgb, w1: nat, c2: Rgb, w2: nat, c3: Rgb, w3: nat, s: nat)
    requires ValidRgb(c1) && ValidRgb(c2) && ValidRgb(c3) && w1 + w2 + w3 == Pow2(s)
    ensures ValidRgb(Interpolate3(c1, w1, c2, w2, c3, w3, s))
  {
    var d := Pow2(s);
    WeightedBounds(c1.r, w1, c2.r, w2, c3.r, w3, d);
    WeightedBounds(c1.g, w1, c2.g, w2, c3.g, w3, d);
    WeightedBounds(c1.b, w1, c2.b, w2, c3.b, w3, d);
  }

  /** A weighted sum of bytes whose weights add up to the divisor is a byte. */
  lemma WeightedBounds(a: int, wa: nat, b: int, wb: nat, c: int, wc: nat, d: nat)
    requires IsByte(a) && IsByte(b) && IsByte(c) && 0 < d && wa + wb + wc == d
    ensures IsByte((a * wa + b * wb + c * wc) / d)
  {
    MulMonotone(0, a, wa); MulMonotone(0, b, wb); MulMonotone(0, c, wc);
    MulMonotone(a, 255, wa); MulMonotone(b, 255, wb); MulMonotone(c, 255, wc);
    var n := a * wa + b * wb + c * wc;
    assert 255 * wa + 255 * wb + 255 * wc == 255 * d;
    DivAtMost(n, d, 255);
  }

  lemma DivAtMost(n: int, d: int, m: int)
    requires 0 < d && 0 <= n <= m * d
    ensures 0 <= n / d <= m
  {
    var q := n / d;
    assert n == q * d + n % d;
    if q > m {
      MulMonotone(m + 1, q, d);
      assert false;
    }
  }

  /** Equal weights summing to the divisor blend one colour to itself. */
  lemma WeightedSame(c: int, wa: nat, wb: nat, wc: nat, d: nat)
    requires 0 < d && wa + wb + wc == d
    ensures (c * wa + c * wb + c * wc) / d == c
  {
    assert c * wa + c * wb + c * wc == 0 + c * d;
    DivModUnique(d, c, 0);
  }

  function Eval(b: Blend, w: seq<Rgb>): Rgb
    requires |w| == 9
  {
    match b
    case Centre => w[4]
    case Two(i1, w1, i2, w2, s) => Interpolate2(w[i1], w1, w[i2], w2, s)
    case Three(j1, v1, j2, v2, j3, v3, t) => Interpolate3(w[j1], v1, w[j2], v2, w[j3], v3, t)
  }

  /** The weights of a blend add up to the power of two it shifts by. */
  predicate Normalised(b: Blend) {
    match b
    case Centre => true
    case Two(_, w1, _, w2, s) => w1 + w2 == Pow2(s)
    case Three(_, v1, _, v2, _, v3, t) => v1 + v2 + v3 == Pow2(t)
  }

  /** A normalised blend of byte colours is a byte colour. */
  lemma EvalValid(b: Blend, w: seq<Rgb>)
    requires |w| == 9 && Normalised(b) && forall i :: 0 <= i < 9 ==> ValidRgb(w[i])
    ensures ValidRgb(Eval(b, w))
  {
    match b
    case Centre =>
    case Two(i1, w1, i2, w2, s) => Interpolate2Valid(w[i1], w1, w[i2], w2, s);
    case Three(j1, v1, j2, v2, j3, v3, t) => Interpolate3Valid(w[j1], v1, w[j2], v2, w[j3], v3, t);
  }

  /** A normalised blend of one colour is that colour. */
  lemma EvalUniform(b: Blend, w: seq<Rgb>, c: Rgb)
    requires |w| == 9 && Normalised(b) && forall i :: 0 <= i < 9 ==> w[i] == c
    ensures Eval(b, w) == c
  {
    match b
    case Centre =>
    case Two(i1, w1, i2, w2, s) =>
    case Three(j1, v1, j2, v2, j3, v3, t) =>
      var d := Pow2(t);
      WeightedSame(c.r, v1, v2, v3, d);
      WeightedSame(c.g, v1, v2, v3, d);
      WeightedSame(c.b, v1, v2, v3, d);
  }

  /** The blend of the first clause whose guard holds, or the final `else`. */
  function FirstMatch(chain: seq<Clause>, otherwise: Blend, diffs: bv8, w: seq<Rgb>): (b: Blend)
    requires |w| == 9
    ensures b == otherwise || exists i :: 0 <= i < |chain| && b == chain[i].blend
  {
    if |chain| == 0 then otherwise
    else if Holds(chain[0].guard, diffs, w) then chain[0].blend
    else
      var b := FirstMatch(chain[1..], otherwise, diffs, w);
      assert b != otherwise ==> exists i :: 1 <= i < |chain| && b == chain[i].blend by {
        if b != otherwise {
          var i :| 0 <= i < |chain[1..]| && b == chain[1..][i].blend;
          assert b == chain[i + 1].blend;
        }
      }
      b
  }

  /** No clause before position `n` holds. */
  predicate NoneBefore(chain: seq<Clause>, n: int, diffs: bv8, w: seq<Rgb>)
    requires |w| == 9 && n <= |chain|
  {
    forall j :: 0 <= j < n ==> !Holds(chain[j].guard, diffs, w)
  }

  /**
   * An if/else-if chain assigns exactly once: the result is the blend of
   * clause `i` exactly when clause `i` holds and none before it does, and
   * the final `else` exactly when no clause holds.
   */
  lemma {:induction false} FirstMatchIsFirst(chain: seq<Clause>, otherwise: Blend, diffs: bv8, w: seq<Rgb>, i: nat)
    requires |w| == 9 && i <= |chain|
    requires NoneBefore(chain, i, diffs, w)
    ensures i < |chain| && Holds(chain[i].guard, diffs, w) ==> FirstMatch(chain, otherwise, diffs, w) == chain[i].blend
    ensures i == |chain| ==> FirstMatch(chain, otherwise, diffs, w) == otherwise
    decreases i
  {
    if 0 < i {
      assert !Holds(chain[0].guard, diffs, w);
      assert NoneBefore(chain[1..], i - 1, diffs, w) by {
        forall j | 0 <= j < i - 1
          ensures !Holds(chain[1..][j].guard, diffs, w)
        {
          assert chain[1..][j] == chain[j + 1];
        }
      }
      FirstMatchIsFirst(chain[1..], otherwise, diffs, w, i - 1);
    }
  }

  /** Every blend of the chain and its `else` is normalised. */
  predicate ChainNormalised(chain: seq<Clause>, otherwise: Blend) {
    Normalised(otherwise) && forall i :: 0 <= i < |chain| ==> Normalised(chain[i].blend)
  }

  /** Whatever clause fires, a normalised chain yields a byte colour from byte colours. */
  lemma FirstMatchValid(chain: seq<Clause>, otherwise: Blend, diffs: bv8, w: seq<Rgb>)
    requires |w| == 9 && ChainNormalised(chain, otherwise) && forall i :: 0 <= i < 9 ==> ValidRgb(w[i])
    ensures ValidRgb(Eval(FirstMatch(chain, otherwise, diffs, w), w))
  {
    EvalValid(FirstMatch(chain, otherwise, diffs, w), w);
  }

  /** Whatever clause fires, a normalised chain maps a one-colour window to that colour. */
  lemma FirstMatchUniform(chain: seq<Clause>, otherwise: Blend, diffs: bv8, w: seq<Rgb>, c: Rgb)
    requires |w| == 9 && ChainNormalised(chain, otherwise) && forall i :: 0 <= i < 9 ==> w[i] == c
    ensures Eval(FirstMatch(chain, otherwise, diffs, w), w) == c
  {
    EvalUniform(FirstMatch(chain, otherwise, diffs, w), w, c);
  }

  // The named conditions `cond00` .. `cond15` of the kernel.

  const Cond00 := Guard([Pattern(0xbf, 0x37), Pattern(0xdb, 0x13)], Some((1, 5)))
  const Cond01 := Guard([Pattern(0xdb, 0x49), Pattern(0xef, 0x6d)], Some((7, 3)))
  const Cond02 := Guard([Pattern(0x6f, 0x2a), Pattern(0x5b, 0x0a), Pattern(0xbf, 0x3a),
                         Pattern(0xdf, 0x5a), Pattern(0x9f, 0x8a), Pattern(0xcf, 0x8a),
                         Pattern(0xef, 0x4e), Pattern(0x3f, 0x0e), Pattern(0xfb, 0x5a),
                         Pattern(0xbb, 0x8a), Pattern(0x7f, 0x5a), Pattern(0xaf, 0x8a),
                         Pattern(0xeb, 0x8a)], Some((3, 1)))
  const Cond03 := Guard([Pattern(0xdb, 0x49), Pattern(0xef, 0x6d)], None)
  const Cond04 := Guard([Pattern(0xbf, 0x37), Pattern(0xdb, 0x13)], None)
  const Cond05 := Guard([Pattern(0x1b, 0x03), Pattern(0x4f, 0x43), Pattern(0x8b, 0x83),
                         Pattern(0x6b, 0x43)], None)
  const Cond06 := Guard([Pattern(0x4b, 0x09), Pattern(0x8b, 0x89), Pattern(0x1f, 0x19),
                         Pattern(0x3b, 0x19)], None)
  const Cond07 := Guard([Pattern(0x0b, 0x08), Pattern(0xf9, 0x68), Pattern(0xf3, 0x62),
                         Pattern(0x6d, 0x6c), Pattern(0x67, 0x66), Pattern(0x3d, 0x3c),
                         Pattern(0x37, 0x36), Pattern(0xf9, 0xf8), Pattern(0xdd, 0xdc),
                         Pattern(0xf3, 0xf2), Pattern(0xd7, 0xd6), Pattern(0xdd, 0x1c),
                         Pattern(0xd7, 0x16), Pattern(0x0b, 0x02)], None)
  const Cond08 := Guard([Pattern(0x0f, 0x0b), Pattern(0x2b, 0x0b), Pattern(0xfe, 0x4a),
                         Pattern(0xfe, 0x1a)], Some((3, 1)))
  const Cond09 := Guard([Pattern(0x2f, 0x2f)], None)
  const Cond10 := Guard([Pattern(0x0a, 0x00)], None)
  const Cond11 := Guard([Pattern(0x0b, 0x09)], None)
  const Cond12 := Guard([Pattern(0x7e, 0x2a), Pattern(0xef, 0xab)], None)
  const Cond13 := Guard([Pattern(0xbf, 0x8f), Pattern(0x7e, 0x0e)], None)
  const Cond14 := Guard([Pattern(0x4f, 0x4b), Pattern(0x9f, 0x1b), Pattern(0x2f, 0x0b),
                         Pattern(0xbe, 0x0a), Pattern(0xee, 0x0a), Pattern(0x7e, 0x0a),
                         Pattern(0xeb, 0x4b), Pattern(0x3b, 0x1b)], None)
  const Cond15 := Guard([Pattern(0x0b, 0x03)], None)

  /** The chain of `dst00`, the top-left cell. */
  const Chain00: seq<Clause> := [
    Clause(Cond00, Two(4, 5, 3, 3, 3)),
    Clause(Cond01, Two(4, 5, 1, 3, 3)),
    Clause(Guard([Pattern(0x0b, 0x0b), Pattern(0xfe, 0x4a), Pattern(0xfe, 0x1a)], Some((3, 1))), Centre),
    Clause(Cond02, Two(4, 5, 0, 3, 3)),
    Clause(Cond03, Two(4, 3, 3, 1, 2)),
    Clause(Cond04, Two(4, 3, 1, 1, 2)),
    Clause(Cond05, Two(4, 5, 3, 3, 3)),
    Clause(Cond06, Two(4, 5, 1, 3, 3)),
    Clause(Guard([Pattern(0x0f, 0x0b), Pattern(0x5e, 0x0a), Pattern(0x2b, 0x0b), Pattern(0xbe, 0x0a),
                  Pattern(0x7a, 0x0a), Pattern(0xee, 0x0a)], None), Two(1, 1, 3, 1, 1)),
    Clause(Cond07, Two(4, 5, 0, 3, 3))]
  const Else00 := Three(4, 2, 1, 1, 3, 1, 2)

  /** The chain of `dst01`, the top-right cell. */
  const Chain01: seq<Clause> := [
    Clause(Cond00, Two(4, 7, 3, 1, 3)),
    Clause(Cond08, Centre),
    Clause(Cond02, Two(4, 3, 0, 1, 2)),
    Clause(Cond09, Centre),
    Clause(Cond10, Three(4, 5, 1, 2, 3, 1, 3)),
    Clause(Guard([Pattern(0x0b, 0x08)], None), Three(4, 5, 1, 2, 0, 1, 3)),
    Clause(Cond11, Two(4, 5, 1, 3, 3)),
    Clause(Cond04, Two(1, 3, 4, 1, 2)),
    Clause(Cond12, Three(1, 2, 4, 1, 3, 1, 2)),
    Clause(Cond13, Two(1, 5, 3, 3, 3)),
    Clause(Cond05, Two(4, 7, 3, 1, 3)),
    Clause(Guard([Pattern(0xf3, 0x62), Pattern(0x67, 0x66), Pattern(0x37, 0x36), Pattern(0xf3, 0xf2),
                  Pattern(0xd7, 0xd6), Pattern(0xd7, 0x16), Pattern(0x0b, 0x02)], None), Two(4, 3, 0, 1, 2)),
    Clause(Cond14, Two(1, 1, 4, 1, 1))]
  const Else01 := Two(4, 3, 1, 1, 2)

  /** The chain of `dst10`, the bottom-left cell. */
  const Chain10: seq<Clause> := [
    Clause(Cond01, Two(4, 7, 1, 1, 3)),
    Clause(Cond08, Centre),
    Clause(Cond02, Two(4, 3, 0, 1, 2)),
    Clause(Cond09, Centre),
    Clause(Cond10, Three(4, 5, 3, 2, 1, 1, 3)),
    Clause(Guard([Pattern(0x0b, 0x02)], None), Three(4, 5, 3, 2, 0, 1, 3)),
    Clause(Cond15, Two(4, 5, 3, 3, 3)),
    Clause(Cond03, Two(3, 3, 4, 1, 2)),
    Clause(Cond13, Three(3, 2, 4, 1, 1, 1, 2)),
    Clause(Cond12, Two(3, 5, 1, 3, 3)),
    Clause(Cond06, Two(4, 7, 1, 1, 3)),
    Clause(Guard([Pattern(0x0b, 0x08), Pattern(0xf9, 0x68), Pattern(0x6d, 0x6c), Pattern(0x3d, 0x3c),
                  Pattern(0xf9, 0xf8), Pattern(0xdd, 0xdc), Pattern(0xdd, 0x1c)], None), Two(4, 3, 0, 1, 2)),
    Clause(Cond14, Two(3, 1, 4, 1, 1))]
  const Else10 := Two(4, 3, 3, 1, 2)

  /** The chain of `dst11`, the bottom-right cell. */
  const Chain11: seq<Clause> := [
    Clause(Guard([Pattern(0x7f, 0x2b), Pattern(0xef, 0xab), Pattern(0xbf, 0x8f), Pattern(0x7f, 0x0f)],
                 Some((3, 1))), Centre),
    Clause(Cond02, Two(4, 7, 0, 1, 3)),
    Clause(Cond15, Two(4, 7, 3, 1, 3)),
    Clause(Cond11, Two(4, 7, 1, 1, 3)),
    Clause(Guard([Pattern(0x0a, 0x00), Pattern(0x7e, 0x2a), Pattern(0xef, 0xab), Pattern(0xbf, 0x8f),
                  Pattern(0x7e, 0x0e)], None), Three(4, 6, 3, 1, 1, 1, 3)),
    Clause(Cond07, Two(4, 7, 0, 1, 3))]
  const Else11 := Centre

  /** Every weight/shift tuple of the four chains sums to its power of two. */
  lemma ChainsNormalised()
    ensures ChainNormalised(Chain00, Else00) && ChainNormalised(Chain01, Else01)
    ensures ChainNormalised(Chain10, Else10) && ChainNormalised(Chain11, Else11)
  {
  }

  /** The block `scaleHq2x` computes from a window. */
  function Hq2xRule(w: seq<Rgb>): Block<Rgb>
    requires |w| == 9
  {
    var diffs := Differences(w);
    Block(Eval(FirstMatch(Chain00, Else00, diffs, w), w),
          Eval(FirstMatch(Chain01, Else01, diffs, w), w),
          Eval(FirstMatch(Chain10, Else10, diffs, w), w),
          Eval(FirstMatch(Chain11, Else11, diffs, w), w))
  }

  /** A one-colour window yields four copies of its colour. */
  lemma Hq2xRuleUniform(w: seq<Rgb>, c: Rgb)
    requires |w| == 9 && forall i :: 0 <= i < 9 ==> w[i] == c
    ensures Differences(w) == 0
    ensures Hq2xRule(w) == Block(c, c, c, c)
  {
    DifferencesUniform(w, c);
    ChainsNormalised();
    var diffs := Differences(w);
    FirstMatchUniform(Chain00, Else00, diffs, w, c);
    FirstMatchUniform(Chain01, Else01, diffs, w, c);
    FirstMatchUniform(Chain10, Else10, diffs, w, c);
    FirstMatchUniform(Chain11, Else11, diffs, w, c);
  }

  /** Every output cell of a window of byte colours is a byte colour. */
  lemma Hq2xRuleValid(w: seq<Rgb>)
    requires |w| == 9 && forall i :: 0 <= i < 9 ==> ValidRgb(w[i])
    ensures var blk := Hq2xRule(w);
            ValidRgb(blk.topLeft) && ValidRgb(blk.topRight) && ValidRgb(blk.bottomLeft) && ValidRgb(blk.bottomRight)
  {
    ChainsNormalised();
    var diffs := Differences(w);
    FirstMatchValid(Chain00, Else00, diffs, w);
    FirstMatchValid(Chain01, Else01, diffs, w);
    FirstMatchValid(Chain10, Else10, diffs, w);
    FirstMatchValid(Chain11, Else11, diffs, w);
  }

  /** Every pattern of the first `n` clauses asks for at least one difference, so an empty mask matches none. */
  predicate AllAskDifference(chain: seq<Clause>, n: nat)
    requires n <= |chain|
  {
    forall i, k :: 0 <= i < n && 0 <= k < |chain[i].guard.patterns| ==> chain[i].guard.patterns[k].des != 0
  }

  lemma EmptyMaskNoneHold(chain: seq<Clause>, n: nat, w: seq<Rgb>)
    requires |w| == 9 && n <= |chain| && AllAskDifference(chain, n)
    ensures NoneBefore(chain, n, 0, w)
  {
    forall j, k | 0 <= j < n && 0 <= k < |chain[j].guard.patterns|
      ensures !Matches(chain[j].guard.patterns[k], 0)
    {
      MatchesEmpty(chain[j].guard.patterns[k]);
    }
  }

  /** An empty mask matches a pattern exactly when the pattern asks for no differences. */
  lemma MatchesEmpty(p: Pattern)
    ensures Matches(p, 0) <==> p.des == 0
  {
  }

  /** Which clauses an empty mask reaches: none in the top-left chain, the fifth in the others. */
  lemma EmptyMaskClauses00()
    ensures AllAskDifference(Chain00, |Chain00|)
  {
  }

  lemma EmptyMaskClauses01()
    ensures |Chain01| > 4 && AllAskDifference(Chain01, 4)
    ensures Chain01[4].guard.patterns[0].des == 0 && Chain01[4].guard.wdiff == None
  {
  }

  lemma EmptyMaskClauses10()
    ensures |Chain10| > 4 && AllAskDifference(Chain10, 4)
    ensures Chain10[4].guard.patterns[0].des == 0 && Chain10[4].guard.wdiff == None
  {
  }

  lemma EmptyMaskClauses11()
    ensures |Chain11| > 4 && AllAskDifference(Chain11, 4)
    ensures Chain11[4].guard.patterns[0].des == 0 && Chain11[4].guard.wdiff == None
  {
  }

  /** The `else` of the top-left chain is reached under an empty mask. */
  lemma EmptyMask00(w: seq<Rgb>)
    requires |w| == 9
    ensures FirstMatch(Chain00, Else00, 0, w) == Else00
  {
    EmptyMaskClauses00();
    EmptyMaskNoneHold(Chain00, |Chain00|, w);
    FirstMatchIsFirst(Chain00, Else00, 0, w, |Chain00|);
  }

  /** Clause 4 (`cond10`) is reached under an empty mask, for every chain but the top-left one. */
  lemma EmptyMaskFifth(chain: seq<Clause>, otherwise: Blend, w: seq<Rgb>)
    requires |w| == 9 && |chain| > 4 && AllAskDifference(chain, 4)
    requires |chain[4].guard.patterns| > 0 && chain[4].guard.patterns[0].des == 0 && chain[4].guard.wdiff == None
    ensures FirstMatch(chain, otherwise, 0, w) == chain[4].blend
  {
    EmptyMaskNoneHold(chain, 4, w);
    MatchesEmpty(chain[4].guard.patterns[0]);
    FirstMatchIsFirst(chain, otherwise, 0, w, 4);
  }

  lemma EmptyMask01(w: seq<Rgb>)
    requires |w| == 9
    ensures FirstMatch(Chain01, Else01, 0, w) == Three(4, 5, 1, 2, 3, 1, 3)
  {
    EmptyMaskClauses01();
    EmptyMaskFifth(Chain01, Else01, w);
  }

  lemma EmptyMask10(w: seq<Rgb>)
    requires |w| == 9
    ensures FirstMatch(Chain10, Else10, 0, w) == Three(4, 5, 3, 2, 1, 1, 3)
  {
    EmptyMaskClauses10();
    EmptyMaskFifth(Chain10, Else10, w);
  }

  lemma EmptyMask11(w: seq<Rgb>)
    requires |w| == 9
    ensures FirstMatch(Chain11, Else11, 0, w) == Three(4, 6, 3, 1, 1, 1, 3)
  {
    EmptyMaskClauses11();
    EmptyMaskFifth(Chain11, Else11, w);
  }

  /**
   * Where all eight neighbours are similar to the centre (an empty mask),
   * HQ2x smooths: top-left 2:1:1 of centre, top and left; top-right and
   * bottom-left 5:2:1 towards their own edge; bottom-right 6:1:1.
   */
  lemma Hq2xSmooth(w: seq<Rgb>)
    requires |w| == 9 && Differences(w) == 0
    ensures Hq2xRule(w) == Block(Interpolate3(w[4], 2, w[1], 1, w[3], 1, 2),
                                 Interpolate3(w[4], 5, w[1], 2, w[3], 1, 3),
                                 Interpolate3(w[4], 5, w[3], 2, w[1], 1, 3),
                                 Interpolate3(w[4], 6, w[3], 1, w[1], 1, 3))
  {
    EmptyMask00(w);
    EmptyMask01(w);
    EmptyMask10(w);
    EmptyMask11(w);
  }

  /** The block `scaleHq2x` writes for source pixel `(x, y)`. */
  function Hq2xBlock(src: Image<Rgb>, x: int, y: int): Block<Rgb>
    requires Valid(src) && InBounds(src, x, y)
  {
    Hq2xRule(Window3(src, x, y))
  }

  /** The HQ2x rule as the per-pixel rule of the shared scaling. */
  function Hq2xAt(src: Image<Rgb>): (int, int) --> Block<Rgb> {
    (x, y) requires Valid(src) && InBounds(src, x, y) => Hq2xBlock(src, x, y)
  }

  lemma Hq2xBlockUniform(src: Image<Rgb>, c: Rgb, x: int, y: int)
    requires Valid(src) && Uniform(src, c) && InBounds(src, x, y)
    ensures Hq2xBlock(src, x, y) == Block(c, c, c, c)
  {
    Window3Uniform(src, c, x, y);
    Hq2xRuleUniform(Window3(src, x, y), c);
  }

  lemma Hq2xBlockValid(src: Image<Rgb>, x: int, y: int)
    requires Valid(src) && ValidPixels(src.data) && InBounds(src, x, y)
    ensures var blk := Hq2xBlock(src, x, y);
            ValidRgb(blk.topLeft) && ValidRgb(blk.topRight) && ValidRgb(blk.bottomLeft) && ValidRgb(blk.bottomRight)
  {
    Window3Palette(src, x, y);
    Hq2xRuleValid(Window3(src, x, y));
  }

  lemma Hq2xAtUniformAll(src: Image<Rgb>, c: Rgb)
    requires Valid(src) && Uniform(src, c)
    ensures RuleDefinedOn(src, Hq2xAt(src))
    ensures ConstantRule(src, Hq2xAt(src), c)
  {
    forall x, y | InBounds(src, x, y)
      ensures Hq2xAt(src)(x, y) == Block(c, c, c, c)
    {
      Hq2xBlockUniform(src, c, x, y);
      assert Hq2xAt(src)(x, y) == Hq2xBlock(src, x, y);
    }
  }

  lemma Hq2xAtValidAll(src: Image<Rgb>)
    requires Valid(src) && ValidPixels(src.data)
    ensures RuleDefinedOn(src, Hq2xAt(src))
    ensures forall x, y :: InBounds(src, x, y) ==>
              && ValidRgb(Hq2xAt(src)(x, y).topLeft) && ValidRgb(Hq2xAt(src)(x, y).topRight)
              && ValidRgb(Hq2xAt(src)(x, y).bottomLeft) && ValidRgb(Hq2xAt(src)(x, y).bottomRight)
  {
    forall x, y | InBounds(src, x, y)
      ensures && ValidRgb(Hq2xAt(src)(x, y).topLeft) && ValidRgb(Hq2xAt(src)(x, y).topRight)
              && ValidRgb(Hq2xAt(src)(x, y).bottomLeft) && ValidRgb(Hq2xAt(src)(x, y).bottomRight)
    {
      Hq2xBlockValid(src, x, y);
    }
  }
}
