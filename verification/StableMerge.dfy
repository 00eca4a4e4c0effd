/** Bottom-up mergesort on sequences: the passes of STAILQ_SORT (_elftc.h, lines 215-271) as functions, and what makes
    their result the stable sort of the input. */
module StableMerge {
  import opened Basics

  /** le is the comparison cmp(x, y) <= 0 of a total preorder. */
  ghost predicate TotalPreorder<T(!new)>(le: (T, T) -> bool) {
    && (forall x, y :: le(x, y) || le(y, x))
    && (forall x, y, z :: le(x, y) && le(y, z) ==> le(x, z))
  }

  predicate Sorted<E, T>(le: (T, T) -> bool, key: E -> T, s: seq<E>) {
    forall i, j :: 0 <= i < j < |s| ==> le(key(s[i]), key(s[j]))
  }

  /** The elements of s whose keys compare equal to x, in their order in s. */
  function Equals<E, T>(le: (T, T) -> bool, key: E -> T, x: T, s: seq<E>): seq<E> {
    if |s| == 0 then [] else (if le(x, key(s[0])) && le(key(s[0]), x) then [s[0]] else []) + Equals(le, key, x, s[1..])
  }

  /** t is s with only elements of different weight moved past each other. */
  ghost predicate Stable<E, T(!new)>(le: (T, T) -> bool, key: E -> T, s: seq<E>, t: seq<E>) {
    multiset(s) == multiset(t) && forall x :: Equals(le, key, x, s) == Equals(le, key, x, t)
  }

  function Merge<E, T>(le: (T, T) -> bool, key: E -> T, p: seq<E>, q: seq<E>): seq<E> {
    if |p| == 0 then q
    else if |q| == 0 then p
    else if le(key(p[0]), key(q[0])) then [p[0]] + Merge(le, key, p[1..], q)
    else [q[0]] + Merge(le, key, p, q[1..])
  }

  function Min(a: nat, b: nat): nat {
    if a < b then a else b
  }

  /** One pass with runs of length sz. */
  function Pass<E, T>(le: (T, T) -> bool, key: E -> T, sz: nat, s: seq<E>): seq<E>
    requires sz > 0
    decreases |s|
  {
    if |s| == 0 then []
    else
      var i := Min(sz, |s|);
      var j := Min(2 * sz, |s|);
      Merge(le, key, s[..i], s[i..j]) + Pass(le, key, sz, s[j..])
  }

  /** The number of merges of one pass. */
  function Merges(sz: nat, n: nat): nat
    requires sz > 0
  {
    if n == 0 then 0 else 1 + Merges(sz, n - Min(2 * sz, n))
  }

  /** All passes from run length sz on. */
  function Passes<E, T>(le: (T, T) -> bool, key: E -> T, sz: nat, s: seq<E>): seq<E>
    requires sz > 0
    decreases Max(0, |s| - sz)
  {
    var t := Pass(le, key, sz, s);
    PassLength(le, key, sz, s);
    MergesMeaning(sz, |s|);
    if Merges(sz, |s|) > 1 then Passes(le, key, 2 * sz, t) else t
  }

  // ---------- Lengths ----------

  lemma MergesMeaning(sz: nat, n: nat)
    requires sz > 0
    ensures Merges(sz, n) > 1 <==> n > 2 * sz
  {
  }

  lemma MergeElements<E, T>(le: (T, T) -> bool, key: E -> T, p: seq<E>, q: seq<E>)
    ensures multiset(Merge(le, key, p, q)) == multiset(p) + multiset(q)
    ensures |Merge(le, key, p, q)| == |p| + |q|
  {
    if |p| != 0 && |q| != 0 {
      if le(key(p[0]), key(q[0])) {
        MergeElements(le, key, p[1..], q);
        FrontElement(p);
        assert multiset(Merge(le, key, p, q)) == multiset{p[0]} + multiset(Merge(le, key, p[1..], q));
      } else {
        MergeElements(le, key, p, q[1..]);
        FrontElement(q);
        assert multiset(Merge(le, key, p, q)) == multiset{q[0]} + multiset(Merge(le, key, p, q[1..]));
      }
    }
  }

  lemma FrontElement<E>(s: seq<E>)
    requires |s| != 0
    ensures multiset(s) == multiset{s[0]} + multiset(s[1..])
  {
    assert s == [s[0]] + s[1..];
  }

  lemma Blocks<E>(s: seq<E>, i: nat, j: nat)
    requires i <= j <= |s|
    ensures s[..j] == s[..i] + s[i..j] && s == s[..j] + s[j..]
  {
  }

  lemma Slices<E>(s: seq<E>, i: nat, j: nat)
    requires i <= j <= |s|
    ensures s[i..][..j - i] == s[i..j] && s[i..][j - i..] == s[j..]
  {
  }

  lemma BlockElements<E>(s: seq<E>, i: nat, j: nat)
    requires i <= j <= |s|
    ensures multiset(s) == multiset(s[..i]) + multiset(s[i..j]) + multiset(s[j..])
  {
    Blocks(s, i, j);
  }

  lemma PassLength<E, T>(le: (T, T) -> bool, key: E -> T, sz: nat, s: seq<E>)
    requires sz > 0
    ensures |Pass(le, key, sz, s)| == |s| && multiset(Pass(le, key, sz, s)) == multiset(s)
    decreases |s|
  {
    if |s| != 0 {
      var i, j := Min(sz, |s|), Min(2 * sz, |s|);
      MergeElements(le, key, s[..i], s[i..j]);
      PassLength(le, key, sz, s[j..]);
      BlockElements(s, i, j);
    }
  }

  // ---------- Order ----------

  lemma {:induction false} MergeSorted<E, T(!new)>(le: (T, T) -> bool, key: E -> T, p: seq<E>, q: seq<E>)
    requires TotalPreorder(le) && Sorted(le, key, p) && Sorted(le, key, q)
    ensures Sorted(le, key, Merge(le, key, p, q))
  {
    if |p| != 0 && |q| != 0 {
      if le(key(p[0]), key(q[0])) {
        MergeSorted(le, key, p[1..], q);
        LeastOfMerge(le, key, p[0], p[1..], q);
      } else {
        MergeSorted(le, key, p, q[1..]);
        LeastOfMerge(le, key, q[0], p, q[1..]);
      }
    }
  }

  /** An element below the first elements of two sorted sequences extends their merge. */
  lemma LeastOfMerge<E, T(!new)>(le: (T, T) -> bool, key: E -> T, x: E, p: seq<E>, q: seq<E>)
    requires TotalPreorder(le) && Sorted(le, key, Merge(le, key, p, q))
    requires |p| != 0 ==> le(key(x), key(p[0]))
    requires |q| != 0 ==> le(key(x), key(q[0]))
    ensures Sorted(le, key, [x] + Merge(le, key, p, q))
  {
    var t := Merge(le, key, p, q);
    assert |t| != 0 ==> le(key(x), key(t[0]));
  }

  lemma LeastOf<E, T(!new)>(le: (T, T) -> bool, key: E -> T, s: seq<E>, y: E)
    requires TotalPreorder(le) && Sorted(le, key, s)
    ensures y in s ==> le(key(s[0]), key(y))
  {
    if y in s {
      var i :| 0 <= i < |s| && s[i] == y;
      assert le(key(s[0]), key(s[0]));
    }
  }

  /** Every block of sz elements, counted from the front, is sorted. */
  predicate SortedRuns<E, T>(le: (T, T) -> bool, key: E -> T, sz: nat, s: seq<E>)
    requires sz > 0
    decreases |s|
  {
    |s| == 0 || (Sorted(le, key, s[..Min(sz, |s|)]) && SortedRuns(le, key, sz, s[Min(sz, |s|)..]))
  }

  lemma FirstRun<E, T>(le: (T, T) -> bool, key: E -> T, sz: nat, s: seq<E>, k: nat)
    requires sz > 0 && SortedRuns(le, key, sz, s) && k == Min(sz, |s|)
    ensures Sorted(le, key, s[..k]) && SortedRuns(le, key, sz, s[k..])
  {
    if |s| == 0 {
      assert s[..k] == [] && s[k..] == [];
    }
  }

  lemma FirstRuns<E, T>(le: (T, T) -> bool, key: E -> T, sz: nat, s: seq<E>)
    requires sz > 0 && SortedRuns(le, key, sz, s)
    ensures var i, j := Min(sz, |s|), Min(2 * sz, |s|);
            Sorted(le, key, s[..i]) && Sorted(le, key, s[i..j]) && SortedRuns(le, key, sz, s[j..])
  {
    hide Sorted, SortedRuns;
    var i, j := Min(sz, |s|), Min(2 * sz, |s|);
    FirstRun(le, key, sz, s, i);
    var r, k := s[i..], j - i;
    assert k == Min(sz, |r|);
    FirstRun(le, key, sz, r, k);
    Slices(s, i, j);
  }

  /** A pass turns sorted runs of length sz into sorted runs of twice the length. */
  lemma {:induction false} PassSorted<E, T(!new)>(le: (T, T) -> bool, key: E -> T, sz: nat, s: seq<E>)
    requires sz > 0 && TotalPreorder(le) && SortedRuns(le, key, sz, s)
    ensures SortedRuns(le, key, 2 * sz, Pass(le, key, sz, s))
    decreases |s|
  {
    if |s| != 0 {
      var i, j := Min(sz, |s|), Min(2 * sz, |s|);
      FirstRuns(le, key, sz, s);
      PassSorted(le, key, sz, s[j..]);
      MergeSorted(le, key, s[..i], s[i..j]);
      MergeElements(le, key, s[..i], s[i..j]);
      PassLength(le, key, sz, s[j..]);
      var m, t := Merge(le, key, s[..i], s[i..j]), Pass(le, key, sz, s[j..]);
      assert (m + t)[..j] == m && (m + t)[j..] == t;
      assert j == Min(2 * sz, |m + t|);
    }
  }

  lemma SingleRuns<E, T>(le: (T, T) -> bool, key: E -> T, s: seq<E>)
    ensures SortedRuns(le, key, 1, s)
  {
  }

  // ---------- Stability ----------

  lemma EqualsConcat<E, T>(le: (T, T) -> bool, key: E -> T, x: T, s: seq<E>, t: seq<E>)
    ensures Equals(le, key, x, s + t) == Equals(le, key, x, s) + Equals(le, key, x, t)
  {
    if |s| == 0 {
      assert s + t == t;
    } else {
      assert (s + t)[1..] == s[1..] + t;
      EqualsConcat(le, key, x, s[1..], t);
    }
  }

  /** Nothing in a sorted sequence equals x when its first element is greater. */
  lemma NoEquals<E, T(!new)>(le: (T, T) -> bool, key: E -> T, x: T, s: seq<E>, y: E)
    requires TotalPreorder(le) && le(x, key(y)) && le(key(y), x) && forall z <- s :: !le(key(z), key(y))
    ensures Equals(le, key, x, s) == []
  {
    if |s| != 0 {
      NoEquals(le, key, x, s[1..], y);
      assert !le(key(s[0]), key(y));
    }
  }

  lemma {:induction false} MergeStable<E, T(!new)>(le: (T, T) -> bool, key: E -> T, x: T, p: seq<E>, q: seq<E>)
    requires TotalPreorder(le) && Sorted(le, key, p) && Sorted(le, key, q)
    ensures Equals(le, key, x, Merge(le, key, p, q)) == Equals(le, key, x, p) + Equals(le, key, x, q)
  {
    if |p| != 0 && |q| != 0 {
      if le(key(p[0]), key(q[0])) {
        MergeStable(le, key, x, p[1..], q);
      } else {
        MergeStable(le, key, x, p, q[1..]);
        if le(x, key(q[0])) && le(key(q[0]), x) {
          forall z <- p ensures !le(key(z), key(q[0])) { LeastOf(le, key, p, z); }
          NoEquals(le, key, x, p, q[0]);
        }
      }
    }
  }

  lemma FrontStable<E, T(!new)>(le: (T, T) -> bool, key: E -> T, x: T, s: seq<E>, i: nat, j: nat)
    requires i <= j <= |s| && TotalPreorder(le) && Sorted(le, key, s[..i]) && Sorted(le, key, s[i..j])
    ensures Equals(le, key, x, Merge(le, key, s[..i], s[i..j])) == Equals(le, key, x, s[..j])
  {
    MergeStable(le, key, x, s[..i], s[i..j]);
    EqualsConcat(le, key, x, s[..i], s[i..j]);
    Blocks(s, i, j);
  }

  lemma {:induction false} PassStable<E, T(!new)>(le: (T, T) -> bool, key: E -> T, x: T, sz: nat, s: seq<E>)
    requires sz > 0 && TotalPreorder(le) && SortedRuns(le, key, sz, s)
    ensures Equals(le, key, x, Pass(le, key, sz, s)) == Equals(le, key, x, s)
    decreases |s|
  {
    if |s| != 0 {
      var i, j := Min(sz, |s|), Min(2 * sz, |s|);
      FirstRuns(le, key, sz, s);
      PassStable(le, key, x, sz, s[j..]);
      FrontStable(le, key, x, s, i, j);
      EqualsConcat(le, key, x, Merge(le, key, s[..i], s[i..j]), Pass(le, key, sz, s[j..]));
      EqualsConcat(le, key, x, s[..j], s[j..]);
      Blocks(s, i, j);
    }
  }

  // ---------- The whole sort ----------

  lemma {:induction false} PassesCorrect<E, T(!new)>(le: (T, T) -> bool, key: E -> T, sz: nat, s: seq<E>)
    requires sz > 0 && TotalPreorder(le) && SortedRuns(le, key, sz, s)
    ensures Sorted(le, key, Passes(le, key, sz, s)) && Stable(le, key, s, Passes(le, key, sz, s))
    decreases Max(0, |s| - sz)
  {
    var t := Pass(le, key, sz, s);
    PassLength(le, key, sz, s);
    MergesMeaning(sz, |s|);
    PassSorted(le, key, sz, s);
    forall x ensures Equals(le, key, x, t) == Equals(le, key, x, s) { PassStable(le, key, x, sz, s); }
    if Merges(sz, |s|) > 1 {
      PassesCorrect(le, key, 2 * sz, t);
    } else if |t| != 0 {
      assert t[..Min(2 * sz, |t|)] == t;
    }
  }

  /** The result of STAILQ_SORT is sorted and stable, for every total preorder. */
  lemma SortCorrect<E, T(!new)>(le: (T, T) -> bool, key: E -> T, s: seq<E>)
    requires TotalPreorder(le)
    ensures Sorted(le, key, Passes(le, key, 1, s)) && Stable(le, key, s, Passes(le, key, 1, s))
  {
    SingleRuns(le, key, s);
    PassesCorrect(le, key, 1, s);
  }

  lemma SameFirst<E, T(!new)>(le: (T, T) -> bool, key: E -> T, s: seq<E>, t: seq<E>)
    requires TotalPreorder(le) && Sorted(le, key, s) && Sorted(le, key, t) && Stable(le, key, s, t) && |s| != 0
    ensures |t| != 0 && s[0] == t[0]
  {
    var x := s[0];
    assert x in multiset(s) && x in multiset(t);
    var y := t[0];
    assert y in multiset(t) && y in multiset(s);
    LeastOf(le, key, s, y);
    LeastOf(le, key, t, x);
    assert le(key(x), key(x));
    assert Equals(le, key, key(x), s)[0] == x && Equals(le, key, key(x), t)[0] == y;
  }

  lemma SameRest<E, T(!new)>(le: (T, T) -> bool, key: E -> T, s: seq<E>, t: seq<E>)
    requires Stable(le, key, s, t) && |s| != 0 && |t| != 0 && s[0] == t[0]
    ensures Stable(le, key, s[1..], t[1..])
  {
    FrontElement(s);
    FrontElement(t);
    assert multiset(s[1..]) == multiset(s) - multiset{s[0]};
    assert multiset(t[1..]) == multiset(t) - multiset{s[0]};
    forall z ensures Equals(le, key, z, s[1..]) == Equals(le, key, z, t[1..]) {
      assert Equals(le, key, z, s) == Equals(le, key, z, t);
      var k := if le(z, key(s[0])) && le(key(s[0]), z) then 1 else 0;
      assert Equals(le, key, z, s)[k..] == Equals(le, key, z, s[1..]);
      assert Equals(le, key, z, t)[k..] == Equals(le, key, z, t[1..]);
    }
  }

  /** There is only one sorted stable rearrangement, so the two properties determine the result. */
  lemma {:induction false} StableUnique<E, T(!new)>(le: (T, T) -> bool, key: E -> T, s: seq<E>, t: seq<E>)
    requires TotalPreorder(le) && Sorted(le, key, s) && Sorted(le, key, t) && Stable(le, key, s, t)
    ensures s == t
    decreases |s|
  {
    if |s| == 0 {
      assert |multiset(t)| == 0;
    } else {
      SameFirst(le, key, s, t);
      SameRest(le, key, s, t);
      StableUnique(le, key, s[1..], t[1..]);
      assert s == [s[0]] + s[1..] && t == [t[0]] + t[1..];
    }
  }
}
