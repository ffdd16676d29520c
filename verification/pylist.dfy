/**
 * The parts of Python's sequence semantics the vectorizer relies on:
 * indexing that counts from the end for negative positions and raises
 * `IndexError` out of range, slices that clamp their bounds, and the
 * floored `%` that takes the sign of its divisor.
 */
module PyList {
  import opened Results

  /** Whether `s[i]` names an element: `-len(s) <= i < len(s)`. */
  predicate IndexOk<T>(s: seq<T>, i: int) {
    -|s| <= i < |s|
  }

  /** The position `s[i]` refers to, for an index that names an element. */
  function Position<T>(s: seq<T>, i: int): (k: nat)
    requires IndexOk(s, i)
    ensures k < |s|
    ensures 0 <= i ==> k == i
    ensures i < 0 ==> k == |s| + i
  {
    if i < 0 then |s| + i else i
  }

  /** `s[i]`. */
  function Index<T>(s: seq<T>, i: int): (r: Result<T>)
    ensures r.Ok? <==> IndexOk(s, i)
    ensures 0 <= i < |s| ==> r == Ok(s[i])
    ensures -|s| <= i < 0 ==> r == Ok(s[|s| + i])
  {
    if IndexOk(s, i) then Ok(s[Position(s, i)]) else Err(IndexError)
  }

  /** `s[i] = v`. */
  function Update<T>(s: seq<T>, i: int, v: T): (r: Result<seq<T>>)
    ensures r.Ok? <==> IndexOk(s, i)
    ensures r.Ok? ==> |r.value| == |s|
    ensures r.Ok? ==> forall k :: 0 <= k < |s| ==> r.value[k] == if k == Position(s, i) then v else s[k]
  {
    if IndexOk(s, i) then Ok(s[Position(s, i) := v]) else Err(IndexError)
  }

  /** A slice bound as Python normalises it against a length `n`. */
  function SliceBound(i: int, n: nat): (b: nat)
    ensures b <= n
    ensures 0 <= i <= n ==> b == i
    ensures i < 0 && 0 <= n + i ==> b == n + i
  {
    if i < 0 then (if n + i < 0 then 0 else n + i) else if i > n then n else i
  }

  /** `s[:k]`. */
  function Take<T>(s: seq<T>, k: int): (r: seq<T>)
    ensures |r| == SliceBound(k, |s|)
    ensures r <= s
  {
    s[..SliceBound(k, |s|)]
  }

  /** `s[k:]`. */
  function Drop<T>(s: seq<T>, k: int): (r: seq<T>)
    ensures |r| == |s| - SliceBound(k, |s|)
    ensures forall j :: 0 <= j < |r| ==> r[j] == s[SliceBound(k, |s|) + j]
  {
    s[SliceBound(k, |s|)..]
  }

  /** A slice up to a bound and the slice from the same bound split the sequence. */
  lemma TakeDrop<T>(s: seq<T>, k: int)
    ensures Take(s, k) + Drop(s, k) == s
  {
  }

  /** `s[:-0]` is `s[:0]`, the empty slice, and `s[-0:]` is all of `s`. */
  lemma ZeroFromEnd<T>(s: seq<T>)
    ensures Take(s, -0) == [] && Drop(s, -0) == s
  {
  }

  /** `s[:-k]` drops the last `k` elements and `s[-k:]` keeps them, for `0 < k <= len(s)`. */
  lemma FromEnd<T>(s: seq<T>, k: int)
    requires 0 < k <= |s|
    ensures Take(s, -k) == s[..|s| - k] && Drop(s, -k) == s[|s| - k..]
  {
  }

  /** `a % b` on Python integers: floored, with the sign of `b`; `b == 0` raises. */
  function Mod(a: int, b: int): (r: Result<int>)
    ensures r.Ok? <==> b != 0
    ensures 0 < b ==> r.Ok? && 0 <= r.value < b
    ensures b < 0 ==> r.Ok? && b < r.value <= 0
  {
    if b == 0 then Err(ZeroDivisionError)
    else if b > 0 || a % b == 0 then Ok(a % b)
    else Ok(a % b + b)
  }

  /** On a non-negative left operand below the divisor, `%` leaves it unchanged. */
  lemma ModSmall(a: int, b: int)
    requires 0 <= a < b
    ensures Mod(a, b) == Ok(a)
  {
  }
}
