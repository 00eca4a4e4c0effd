/** Facts about numbers and sequences that several modules use. */
module Basics {

  function Max(a: int, b: int): int {
    if a < b then b else a
  }

  /** One more than the largest uint64_t. */
  const UINT64_LIMIT: nat := 0x1_0000_0000_0000_0000

  /** Addition of two uint64_t, which wraps around. */
  function Add64(a: nat, b: nat): (r: nat)
    ensures a + b < UINT64_LIMIT ==> r == a + b
  {
    (a + b) % UINT64_LIMIT
  }

  lemma Associative<T>(a: seq<T>, b: seq<T>, c: seq<T>)
    ensures a + b + c == a + (b + c)
  {
  }

  lemma Regroup<T>(a: seq<T>, p: seq<T>, x: seq<T>, q: seq<T>, b: seq<T>)
    ensures a + p + (x + q + b) == a + (p + x + q) + b
    ensures (a + p + x) + q + b == a + (p + x + q) + b
    ensures (a + p) + x + (q + b) == a + (p + x + q) + b
  {
  }

  /** A slice of a prefix. */
  lemma SliceOf<T>(s: seq<T>, n: nat, a: nat, b: nat)
    requires a <= b <= n <= |s|
    ensures s[..n][a..b] == s[a..b]
  {
  }

  /** A slice of a slice. */
  lemma SubSlice<T>(s: seq<T>, at: nat, n: nat, a: nat, b: nat)
    requires a <= b <= n && at + n <= |s|
    ensures s[at..at + n][a..b] == s[at + a..at + b]
  {
    var x, y := s[at..at + n][a..b], s[at + a..at + b];
    assert |x| == |y| && forall k :: 0 <= k < |x| ==> x[k] == y[k];
  }
}
