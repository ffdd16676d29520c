/** Small facts of integer arithmetic that the solver does not find alone. */
module Arith {

  lemma MulMonotone(a: int, b: int, c: int)
    requires a <= b && 0 <= c
    ensures a * c <= b * c
  {
    assert b * c - a * c == (b - a) * c;
  }

  /** Division by `k` recovers the quotient of `q * k + r` when `0 <= r < k`. */
  lemma {:induction false} DivModUnique(k: int, q: int, r: int)
    requires 0 <= r < k
    ensures (r + q * k) % k == r
    ensures (r + q * k) / k == q
  {
    var o := r + q * k;
    var q', r' := o / k, o % k;
    assert o == q' * k + r' && 0 <= r' < k;
    assert (q - q') * k == r' - r;
    if q - q' >= 1 {
      MulMonotone(1, q - q', k);
      assert false;
    } else if q - q' <= -1 {
      MulMonotone(q - q', -1, k);
      assert false;
    }
  }

  lemma DivAddMultiple(a: int, b: int, k: int)
    requires 0 < k
    ensures (a * k + b) / k == a + b / k
  {
    var q, r := b / k, b % k;
    assert b == q * k + r;
    assert a * k + b == r + (a + q) * k by {
      assert (a + q) * k == a * k + q * k;
    }
    DivModUnique(k, a + q, r);
  }
}
