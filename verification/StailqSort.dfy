/** STAILQ tail queues (sys/queue.h) and their in-place mergesort STAILQ_SORT (_elftc.h). */
module StailqSort {
  import opened Basics
  import opened StableMerge

  /** An element with its STAILQ_ENTRY. */
  class Elem<T> {
    const val: T
    var next: Elem?<T>

    constructor (val: T)
      ensures this.val == val && next == null
    {
      this.val := val;
      next := null;
    }
  }

  /** What stqh_last points to: the first link of a head, or the next link of an element. */
  datatype Slot<T> = OfHead(h: Head<T>) | OfElem(e: Elem<T>)

  ghost predicate Distinct<T>(q: seq<Elem<T>>) {
    forall i, j :: 0 <= i < j < |q| ==> q[i] != q[j]
  }

  class Head<T> {
    var first: Elem?<T>
    var last: Slot<T>

    /** The queue holds the elements of q in this order. */
    ghost predicate Lists(q: seq<Elem<T>>)
      reads this, q
    {
      && Distinct(q)
      && (forall i :: 0 <= i < |q| - 1 ==> q[i].next == q[i + 1])
      && if |q| == 0 then first == null && last == OfHead(this)
         else first == q[0] && last == OfElem(q[|q| - 1]) && q[|q| - 1].next == null
    }

    /** STAILQ_INIT. */
    constructor ()
      ensures Lists([])
    {
      first := null;
      last := OfHead(this);
    }

    method Init()
      modifies this
      ensures Lists([])
    {
      first := null;
      last := OfHead(this);
    }

    method RemoveHead(ghost q: seq<Elem<T>>)
      requires Lists(q) && |q| != 0
      modifies this
      ensures Lists(q[1..])
    {
      assert |q| > 1 ==> q[0].next == q[1];
      first := first.next;
      if first == null {
        last := OfHead(this);
      }
    }

    method InsertTail(e: Elem<T>, ghost q: seq<Elem<T>>)
      requires Lists(q) && e !in q
      modifies this, e`next, (if |q| == 0 then {} else {q[|q| - 1]})`next
      ensures Lists(q + [e])
    {
      e.next := null;
      match last {
        case OfHead(h) => h.first := e;
        case OfElem(l) => l.next := e;
      }
      last := OfElem(e);
    }
  }

  ghost function Le<T>(cmp: (T, T) -> int): (T, T) -> bool {
    (x, y) => cmp(x, y) <= 0
  }

  ghost function Key<T>(): Elem<T> -> T {
    (e: Elem<T>) => e.val
  }

  /** Two queues that share no element. */
  ghost predicate Apart<T>(a: seq<Elem<T>>, b: seq<Elem<T>>) {
    forall x <- a :: x !in b
  }

  /** STAILQ_REMOVE_HEAD of from followed by STAILQ_INSERT_TAIL of the removed element at to. */
  method MoveFirst<T>(from: Head<T>, to: Head<T>, ghost a: seq<Elem<T>>, ghost b: seq<Elem<T>>)
    requires from != to && from.Lists(a) && to.Lists(b) && |a| != 0 && Apart(a, b)
    modifies from, to, {a[0]}`next, (if |b| == 0 then {} else {b[|b| - 1]})`next
    ensures from.Lists(a[1..]) && to.Lists(b + [a[0]])
    ensures Apart(a[1..], b + [a[0]])
  {
    var e := from.first;
    assert |a| > 1 ==> a[1..][|a| - 2] == a[|a| - 1] && a[|a| - 1] != a[0];
    assert |a| > 1 ==> a[|a| - 1] !in b;
    from.RemoveHead(a);
    to.InsertTail(e, b);
  }

  /** The first loop of a round: up to sz elements move from head to la. */
  method TakeRun<T>(head: Head<T>, la: Head<T>, sz: nat, ghost h: seq<Elem<T>>) returns (psz: nat)
    requires head != la && head.Lists(h) && la.Lists([]) && sz > 0
    modifies head, la, (set x | x in h)`next
    ensures psz == Min(sz, |h|) && la.Lists(h[..psz]) && head.Lists(h[psz..])
  {
    psz := 0;
    var i := 0;
    ghost var a, b := h, [];
    while i < sz && head.first != null
      invariant i == psz <= Min(sz, |h|) && a == h[psz..] && b == h[..psz]
      invariant head.Lists(a) && la.Lists(b) && Apart(a, b)
      decreases sz - i
    {
      psz := psz + 1;
      MoveFirst(head, la, a, b);
      a, b := a[1..], b + [a[0]];
      i := i + 1;
    }
  }

  /** What is left to merge after one element went to the end of b. */
  lemma MergeStep<E, T>(le: (T, T) -> bool, key: E -> T, b: seq<E>, a: seq<E>, h: seq<E>)
    ensures |a| != 0 && (|h| == 0 || le(key(a[0]), key(h[0]))) ==>
      b + Merge(le, key, a, h) == b + [a[0]] + Merge(le, key, a[1..], h)
    ensures |h| != 0 && (|a| == 0 || !le(key(a[0]), key(h[0]))) ==>
      b + Merge(le, key, a, h) == b + [h[0]] + Merge(le, key, a, h[1..])
  {
    if |a| != 0 && (|h| == 0 || le(key(a[0]), key(h[0]))) {
      var t := Merge(le, key, a[1..], h);
      assert Merge(le, key, a, h) == [a[0]] + t;
      Associative(b, [a[0]], t);
    } else if |h| != 0 {
      var t := Merge(le, key, a, h[1..]);
      assert Merge(le, key, a, h) == [h[0]] + t;
      Associative(b, [h[0]], t);
    }
  }

  /** The state of the merge loop: h is still in head, of which k elements belong to the run, a is still in la, and b is
      in lb already. */
  ghost predicate Merging<T>(xs: set<Elem<T>>, head: Head<T>, la: Head<T>, lb: Head<T>,
                             h: seq<Elem<T>>, a: seq<Elem<T>>, b: seq<Elem<T>>)
    reads head, la, lb, h, a, b
  {
    && head != la && head != lb && la != lb
    && head.Lists(h) && la.Lists(a) && lb.Lists(b)
    && Apart(h, a) && Apart(h, b) && Apart(a, b)
    && (forall x <- h :: x in xs) && (forall x <- a :: x in xs) && (forall x <- b :: x in xs)
  }

  /** One element of la goes to lb; p and p' are the elements at the front of la. */
  method TakeLeft<T>(p: Elem<T>, head: Head<T>, la: Head<T>, lb: Head<T>, ghost xs: set<Elem<T>>,
                     ghost h: seq<Elem<T>>, ghost a: seq<Elem<T>>, ghost b: seq<Elem<T>>)
    returns (p': Elem?<T>, ghost a': seq<Elem<T>>, ghost b': seq<Elem<T>>)
    requires Merging(xs, head, la, lb, h, a, b) && p == la.first
    modifies la, lb, xs`next
    ensures |a| != 0 && a[0] == p && a' == a[1..] && b' == b + [a[0]]
    ensures Merging(xs, head, la, lb, h, a', b') && p' == la.first
  {
    StaysApart(h, a, b);
    p' := p.next;
    MoveFirst(la, lb, a, b);
    a', b' := a[1..], b + [a[0]];
  }

  /** One element of the run at the front of head goes to lb. */
  method TakeRight<T>(q: Elem<T>, head: Head<T>, la: Head<T>, lb: Head<T>, ghost xs: set<Elem<T>>,
                      ghost run: seq<Elem<T>>, ghost rest: seq<Elem<T>>, ghost a: seq<Elem<T>>, ghost b: seq<Elem<T>>)
    returns (q': Elem?<T>, ghost run': seq<Elem<T>>, ghost b': seq<Elem<T>>)
    requires Merging(xs, head, la, lb, run + rest, a, b) && |run| != 0 && q == head.first
    modifies head, lb, xs`next
    ensures run[0] == q && run' == run[1..] && b' == b + [run[0]]
    ensures Merging(xs, head, la, lb, run' + rest, a, b') && q' == head.first
  {
    run', b' := run[1..], b + [run[0]];
    DropFront(run, rest);
    q' := TakeFirst(q, head, la, lb, xs, run + rest, a, b);
  }

  method TakeFirst<T>(q: Elem<T>, head: Head<T>, la: Head<T>, lb: Head<T>, ghost xs: set<Elem<T>>,
                      ghost h: seq<Elem<T>>, ghost a: seq<Elem<T>>, ghost b: seq<Elem<T>>)
    returns (q': Elem?<T>)
    requires Merging(xs, head, la, lb, h, a, b) && |h| != 0 && q == head.first
    modifies head, lb, xs`next
    ensures Merging(xs, head, la, lb, h[1..], a, b + [h[0]]) && q' == head.first
  {
    ApartBack(h, a);
    StaysApart(a, h, b);
    q' := q.next;
    MoveFirst(head, lb, h, b);
    ApartBack(a, h[1..]);
  }

  lemma DropFront<E>(run: seq<E>, rest: seq<E>)
    requires |run| != 0
    ensures (run + rest)[1..] == run[1..] + rest && (run + rest)[0] == run[0]
  {
  }

  /** A queue that shares no element with a and b stays apart from both, and is not touched, when the first element of a
      goes to the end of b. */
  lemma StaysApart<T>(h: seq<Elem<T>>, a: seq<Elem<T>>, b: seq<Elem<T>>)
    requires Apart(h, a) && Apart(h, b) && |a| != 0
    ensures a[0] !in h && (|b| != 0 ==> b[|b| - 1] !in h)
    ensures Apart(h, a[1..]) && Apart(h, b + [a[0]])
  {
    forall x <- h ensures x !in a[1..] && x !in b + [a[0]] && x != a[0] {
    }
  }

  lemma ApartBack<T>(h: seq<Elem<T>>, a: seq<Elem<T>>)
    requires Apart(h, a)
    ensures Apart(a, h)
  {
  }

  /** The local variables of the merge loop: run is what is still to merge of the elements at the front of head. */
  ghost predicate Counters<T>(head: Head<T>, la: Head<T>, a: seq<Elem<T>>, run: seq<Elem<T>>, rest: seq<Elem<T>>,
                              psz: nat, qsz: nat, p: Elem?<T>, q: Elem?<T>)
    reads head, la
  {
    && p == la.first && q == head.first && psz == |a|
    && |run| <= qsz && (|rest| != 0 ==> |run| == qsz) && (|run| == 0 <==> qsz == 0 || q == null)
  }

  /** One turn of the merge loop. */
  method MergeNext<T>(head: Head<T>, la: Head<T>, lb: Head<T>, psz: nat, qsz: nat, p: Elem?<T>, q: Elem?<T>,
                      cmp: (T, T) -> int, ghost xs: set<Elem<T>>,
                      ghost run: seq<Elem<T>>, ghost rest: seq<Elem<T>>, ghost a: seq<Elem<T>>, ghost b: seq<Elem<T>>)
    returns (psz': nat, qsz': nat, p': Elem?<T>, q': Elem?<T>,
             ghost run': seq<Elem<T>>, ghost a': seq<Elem<T>>, ghost b': seq<Elem<T>>)
    requires psz > 0 || (qsz > 0 && q != null)
    requires Merging(xs, head, la, lb, run + rest, a, b) && Counters(head, la, a, run, rest, psz, qsz, p, q)
    modifies head, la, lb, xs`next
    ensures Merging(xs, head, la, lb, run' + rest, a', b') && Counters(head, la, a', run', rest, psz', qsz', p', q')
    ensures b' + Merge(Le(cmp), Key(), a', run') == b + Merge(Le(cmp), Key(), a, run)
    ensures psz' + qsz' == psz + qsz - 1
  {
    MergeStep(Le(cmp), Key(), b, a, run);
    psz', qsz', p', q', run', a' := psz, qsz, p, q, run, a;
    if psz == 0 {
      q', run', b' := TakeRight(q, head, la, lb, xs, run, rest, a, b);
      qsz' := qsz - 1;
    } else if qsz == 0 || q == null {
      p', a', b' := TakeLeft(p, head, la, lb, xs, run + rest, a, b);
      psz' := psz - 1;
    } else if cmp(p.val, q.val) <= 0 {
      p', a', b' := TakeLeft(p, head, la, lb, xs, run + rest, a, b);
      psz' := psz - 1;
    } else {
      q', run', b' := TakeRight(q, head, la, lb, xs, run, rest, a, b);
      qsz' := qsz - 1;
    }
  }

  /** The merge loop of a round: la, of length psz0, and run, of length at most sz at the front of head, are merged to
      the end of lb. */
  method MergeRun<T>(head: Head<T>, la: Head<T>, lb: Head<T>, psz0: nat, sz: nat, cmp: (T, T) -> int,
      ghost xs: set<Elem<T>>, ghost run0: seq<Elem<T>>, ghost rest: seq<Elem<T>>,
      ghost a0: seq<Elem<T>>, ghost b0: seq<Elem<T>>)
    requires Merging(xs, head, la, lb, run0 + rest, a0, b0) && |a0| == psz0 && sz > 0
    requires |run0| <= sz && (|rest| != 0 ==> |run0| == sz)
    modifies head, la, lb, xs`next
    ensures Merging(xs, head, la, lb, rest, [], b0 + Merge(Le(cmp), Key(), a0, run0))
  {
    var psz, qsz, p, q := psz0, sz, la.first, head.first;
    ghost var run, a, b := run0, a0, b0;
    ghost var goal := b0 + Merge(Le(cmp), Key(), a0, run0);
    while psz > 0 || (qsz > 0 && q != null)
      invariant Merging(xs, head, la, lb, run + rest, a, b) && Counters(head, la, a, run, rest, psz, qsz, p, q)
      invariant goal == b + Merge(Le(cmp), Key(), a, run)
      decreases psz + qsz
    {
      psz, qsz, p, q, run, a, b := MergeNext(head, la, lb, psz, qsz, p, q, cmp, xs, run, rest, a, b);
    }
    assert a == [] && run == [];
    assert goal == b && run + rest == rest;
  }

  /** What is left of a pass after one round, whose result went to the end of b. */
  lemma PassStep<E, T>(le: (T, T) -> bool, key: E -> T, sz: nat, h: seq<E>, b: seq<E>)
    requires sz > 0 && |h| != 0
    ensures var i, j := Min(sz, |h|), Min(2 * sz, |h|);
            && b + Pass(le, key, sz, h) == b + Merge(le, key, h[..i], h[i..j]) + Pass(le, key, sz, h[j..])
            && Merges(sz, |h|) == 1 + Merges(sz, |h[j..]|)
  {
    var i, j := Min(sz, |h|), Min(2 * sz, |h|);
    var m, t := Merge(le, key, h[..i], h[i..j]), Pass(le, key, sz, h[j..]);
    assert Pass(le, key, sz, h) == m + t;
    Associative(b, m, t);
  }

  /** One pass of the outer loop: all of head is merged, run by run, into lb. */
  method OnePass<T>(head: Head<T>, la: Head<T>, lb: Head<T>, sz: nat, cmp: (T, T) -> int, ghost xs: set<Elem<T>>,
                    ghost q: seq<Elem<T>>)
    returns (nmerges: nat)
    requires Merging(xs, head, la, lb, q, [], []) && sz > 0
    modifies head, la, lb, xs`next
    ensures Merging(xs, head, la, lb, [], [], Pass(Le(cmp), Key(), sz, q)) && nmerges == Merges(sz, |q|)
  {
    nmerges := 0;
    ghost var h: seq<Elem<T>>, b: seq<Elem<T>> := q, [];
    ghost var goal := Pass(Le(cmp), Key(), sz, q);
    while head.first != null
      invariant Merging(xs, head, la, lb, h, [], b)
      invariant goal == b + Pass(Le(cmp), Key(), sz, h)
      invariant Merges(sz, |q|) == nmerges + Merges(sz, |h|)
      decreases |h|
    {
      nmerges := nmerges + 1;
      la.Init();
      PassStep(Le(cmp), Key(), sz, h, b);
      h, b := OneRound(head, la, lb, sz, cmp, xs, h, b);
    }
    assert goal == b;
  }

  /** The first part of a round: a run of up to sz elements moves to la; lb is not touched. */
  method StartRound<T>(head: Head<T>, la: Head<T>, lb: Head<T>, sz: nat, ghost xs: set<Elem<T>>,
                       ghost h: seq<Elem<T>>, ghost b: seq<Elem<T>>)
    returns (psz: nat)
    requires Merging(xs, head, la, lb, h, [], b) && sz > 0
    modifies head, la, xs`next
    ensures psz == Min(sz, |h|)
    ensures Merging(xs, head, la, lb, h[psz..], h[..psz], b)
  {
    ApartBack(h, b);
    psz := TakeRun(head, la, sz, h);
    SplitApart(xs, h, b, psz);
  }

  lemma SplitApart<T>(xs: set<Elem<T>>, h: seq<Elem<T>>, b: seq<Elem<T>>, k: nat)
    requires k <= |h| && Distinct(h) && Apart(h, b) && forall x <- h :: x in xs
    ensures Apart(h[k..], h[..k]) && Apart(h[k..], b) && Apart(h[..k], b)
    ensures (forall x <- h[k..] :: x in xs) && (forall x <- h[..k] :: x in xs)
  {
  }

  lemma SplitRound<E>(h: seq<E>, sz: nat)
    ensures var k, j := Min(sz, |h|), Min(2 * sz, |h|);
            h[k..] == h[k..j] + h[j..]
  {
  }

  method OneRound<T>(head: Head<T>, la: Head<T>, lb: Head<T>, sz: nat, cmp: (T, T) -> int, ghost xs: set<Elem<T>>,
                     ghost h: seq<Elem<T>>, ghost b: seq<Elem<T>>)
    returns (ghost h': seq<Elem<T>>, ghost b': seq<Elem<T>>)
    requires Merging(xs, head, la, lb, h, [], b) && sz > 0
    modifies head, la, lb, xs`next
    ensures h' == h[Min(2 * sz, |h|)..]
    ensures b' == b + Merge(Le(cmp), Key(), h[..Min(sz, |h|)], h[Min(sz, |h|)..Min(2 * sz, |h|)])
    ensures Merging(xs, head, la, lb, h', [], b')
  {
    var psz := StartRound(head, la, lb, sz, xs, h, b);
    SplitRound(h, sz);
    ghost var j := Min(2 * sz, |h|);
    MergeRun(head, la, lb, psz, sz, cmp, xs, h[psz..j], h[j..], h[..psz], b);
    h', b' := h[j..], b + Merge(Le(cmp), Key(), h[..psz], h[psz..j]);
  }

  /** The state before a pass: head holds q. */
  ghost predicate Ready<T>(xs: set<Elem<T>>, head: Head<T>, la: Head<T>, lb: Head<T>, q: seq<Elem<T>>)
    reads head, la, q
  {
    head != la && head != lb && la != lb && head.Lists(q) && la.Lists([]) && forall x <- q :: x in xs
  }

  /** STAILQ_SORT. A nonempty queue ends as the stable sort of its elements, with the tail slot at the last of them. The
      queue of no elements keeps no elements, but its tail slot is left at the local head lb. */
  method Sort<T(!new)>(head: Head<T>, cmp: (T, T) -> int, ghost q: seq<Elem<T>>) returns (ghost t: seq<Elem<T>>)
    requires head.Lists(q) && TotalPreorder(Le(cmp))
    modifies head, (set x | x in q)`next
    ensures Sorted(Le(cmp), Key(), t) && Stable(Le(cmp), Key(), q, t)
    ensures |q| != 0 ==> head.Lists(t)
    ensures |q| == 0 ==> head.first == null && head.last.OfHead? && fresh(head.last.h)
  {
    SortCorrect(Le(cmp), Key(), q);
    t := AllPasses(head, cmp, q);
  }

  method AllPasses<T>(head: Head<T>, cmp: (T, T) -> int, ghost q: seq<Elem<T>>) returns (ghost t: seq<Elem<T>>)
    requires head.Lists(q)
    modifies head, (set x | x in q)`next
    ensures t == Passes(Le(cmp), Key(), 1, q)
    ensures |q| != 0 ==> head.Lists(t)
    ensures |q| == 0 ==> head.first == null && head.last.OfHead? && fresh(head.last.h)
  {
    ghost var xs := set x | x in q;
    var la := new Head();
    var lb := new Head();
    var sz, more := 1, true;
    ghost var goal := Passes(Le(cmp), Key(), 1, q);
    t := q;
    while more
      invariant more ==> Ready(xs, head, la, lb, t)
      invariant !more ==> Emptied(head, lb, t)
      invariant |t| == |q| && sz > 0
      invariant goal == if more then Passes(Le(cmp), Key(), sz, t) else t
      decreases if more then 1 + Max(0, |q| - sz) else 0
    {
      PassesStep(Le(cmp), Key(), sz, t);
      t, more := SortPass(head, la, lb, sz, cmp, xs, t);
      sz := sz * 2;
    }
  }

  lemma PassesStep<E, T>(le: (T, T) -> bool, key: E -> T, sz: nat, s: seq<E>)
    requires sz > 0
    ensures |Pass(le, key, sz, s)| == |s| && (Merges(sz, |s|) > 1 ==> |s| > 2 * sz)
    ensures Passes(le, key, sz, s) ==
            if Merges(sz, |s|) > 1 then Passes(le, key, 2 * sz, Pass(le, key, sz, s)) else Pass(le, key, sz, s)
  {
    PassLength(le, key, sz, s);
    MergesMeaning(sz, |s|);
  }

  /** The head after both of its fields were copied from lb, which holds t. */
  ghost predicate Emptied<T>(head: Head<T>, lb: Head<T>, t: seq<Elem<T>>)
    reads head, t
  {
    && (|t| != 0 ==> head.Lists(t))
    && (|t| == 0 ==> head.first == null && head.last == OfHead(lb))
  }

  /** The body of the do loop. */
  method SortPass<T>(head: Head<T>, la: Head<T>, lb: Head<T>, sz: nat, cmp: (T, T) -> int, ghost xs: set<Elem<T>>,
                     ghost q: seq<Elem<T>>)
    returns (ghost t: seq<Elem<T>>, more: bool)
    requires Ready(xs, head, la, lb, q) && sz > 0
    modifies head, la, lb, xs`next
    ensures t == Pass(Le(cmp), Key(), sz, q) && more == (Merges(sz, |q|) > 1)
    ensures Emptied(head, lb, t)
    ensures more ==> Ready(xs, head, la, lb, t)
  {
    lb.Init();
    var nmerges := OnePass(head, la, lb, sz, cmp, xs, q);
    t := Pass(Le(cmp), Key(), sz, q);
    head.first := lb.first;
    head.last := lb.last;
    more := nmerges > 1;
    PassLength(Le(cmp), Key(), sz, q);
  }
}
