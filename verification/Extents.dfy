/** The list of file extents that elf_update.c lays an object out in: an SLIST of extent descriptors in ascending
    order. */
module Extents {
  import opened Basics
  import opened Section

  datatype Kind = EhdrExtent | PhdrExtent | SectionExtent | ShdrExtent

  /** A struct _Elf_Extent; scn is ex_desc for the extent of a section. */
  class Extent {
    const start: nat
    const size: nat
    const kind: Kind
    const scn: Scn?
    var next: Extent?

    constructor (start: nat, size: nat, kind: Kind, scn: Scn?)
      ensures this.start == start && this.size == size && this.kind == kind && this.scn == scn
    {
      this.start, this.size, this.kind, this.scn := start, size, kind, scn;
      next := null;
    }
  }

  /** Every extent ends at or before the start of those after it, so the list is sorted and no two extents overlap, and
      none ends past the largest uint64_t. */
  ghost predicate Ordered(q: seq<Extent>) {
    && (forall i, j :: 0 <= i < j < |q| ==> q[i].start + q[i].size <= q[j].start)
    && forall i :: 0 <= i < |q| ==> q[i].start + q[i].size < UINT64_LIMIT
  }

  /** The region of size bytes at start shares a byte with x, or lies strictly inside it. */
  ghost predicate Overlaps(x: Extent, start: nat, size: nat) {
    x.start < start + size && start < x.start + x.size
  }

  // ---------- Ends that do not fit into 64 bits ----------

  /** By 64-bit arithmetic, extent k is the first one that ends after start. */
  ghost predicate FirstPast(q: seq<Extent>, k: nat, start: nat)
    requires k < |q|
  {
    start < Add64(q[k].start, q[k].size) && forall i :: 0 <= i < k ==> Add64(q[i].start, q[i].size) <= start
  }

  /** The decision of _libelf_extent_is_unused. */
  ghost predicate Accepts(q: seq<Extent>, start: nat, size: nat) {
    forall k :: 0 <= k < |q| && FirstPast(q, k, start) ==> Add64(start, size) <= q[k].start
  }

  /** The end of the region wraps around to at or before the start of the first extent past its start. */
  ghost predicate Slips(q: seq<Extent>, start: nat, size: nat) {
    && start + size >= UINT64_LIMIT
    && exists k :: 0 <= k < |q| && FirstPast(q, k, start) && start + size - UINT64_LIMIT <= q[k].start
  }

  lemma {:induction false} SomeFirstPast(q: seq<Extent>, start: nat, n: nat) returns (k: nat)
    requires n < |q| && start < Add64(q[n].start, q[n].size)
    ensures k <= n && FirstPast(q, k, start)
  {
    if i :| 0 <= i < n && start < Add64(q[i].start, q[i].size) {
      k := SomeFirstPast(q, start, i);
    } else {
      k := n;
    }
  }

  lemma OnlyFirstPast(q: seq<Extent>, k: nat, start: nat)
    requires k < |q| && FirstPast(q, k, start)
    ensures forall j :: 0 <= j < |q| && FirstPast(q, j, start) ==> j == k
  {
  }

  /** When every extent before the k-th ends by start, only the k-th and those after it can overlap. */
  lemma OverlapsPast(q: seq<Extent>, k: nat, start: nat, size: nat)
    requires Ordered(q) && k < |q| && FirstPast(q, k, start)
    ensures (forall x <- q :: !Overlaps(x, start, size)) <==> start + size <= q[k].start
  {
    if start + size > q[k].start {
      assert Overlaps(q[k], start, size);
    } else {
      forall x <- q ensures !Overlaps(x, start, size) {
        var j :| 0 <= j < |q| && q[j] == x;
        assert j < k ==> Add64(q[j].start, q[j].size) <= start;
      }
    }
  }

  lemma NonePast(q: seq<Extent>, start: nat, size: nat)
    requires Ordered(q) && forall i :: 0 <= i < |q| ==> Add64(q[i].start, q[i].size) <= start
    ensures (forall x <- q :: !Overlaps(x, start, size)) && Accepts(q, start, size) && !Slips(q, start, size)
  {
    forall x <- q ensures !Overlaps(x, start, size) {
      var j :| 0 <= j < |q| && q[j] == x;
      assert Add64(q[j].start, q[j].size) <= start;
    }
  }

  /** The decision is the right one exactly when the end of the region does not slip. */
  lemma AcceptsExactly(q: seq<Extent>, start: nat, size: nat)
    requires Ordered(q) && start < UINT64_LIMIT && size < UINT64_LIMIT
    ensures (Accepts(q, start, size) <==> forall x <- q :: !Overlaps(x, start, size)) <==> !Slips(q, start, size)
  {
    hide Ordered, Overlaps;
    if n :| 0 <= n < |q| && start < Add64(q[n].start, q[n].size) {
      var k := SomeFirstPast(q, start, n);
      hide FirstPast;
      OnlyFirstPast(q, k, start);
      OverlapsPast(q, k, start, size);
      InsideOrdered(q, k);
    } else {
      NonePast(q, start, size);
    }
  }

  lemma InsideOrdered(q: seq<Extent>, k: nat)
    requires Ordered(q) && k < |q|
    ensures q[k].start + q[k].size < UINT64_LIMIT
  {
  }

  /** The size of the file after a region was added, as the callers compute it. */
  function Grown(rc: nat, start: nat, size: nat): nat {
    if rc < Add64(start, size) then Add64(start, size) else rc
  }

  /** The computed size covers the region exactly when the region's end fits into 64 bits. */
  lemma GrownExactly(rc: nat, start: nat, size: nat)
    requires rc < UINT64_LIMIT
    ensures Grown(rc, start, size) == Max(rc, start + size) <==> start + size < UINT64_LIMIT
  {
  }

  /** A section whose header gives offset 2^64 - 8 and size 16 is accepted after the executable header, and the size of
      the file leaves it out. */
  lemma WrappedRegion(ehdr: Extent)
    requires ehdr.start == 0 && ehdr.size == 64
    ensures Accepts([ehdr], UINT64_LIMIT - 8, 16) && Grown(64, UINT64_LIMIT - 8, 16) == 64
  {
  }

  /** A region from 100 to 2^64 + 50 is accepted before the extent from 200 to 250 that it overlaps, and the size of the
      file does not show it. */
  lemma SlippedRegion(ehdr: Extent, x: Extent)
    requires ehdr.start == 0 && ehdr.size == 64 && x.start == 200 && x.size == 50
    ensures Accepts([ehdr, x], 100, UINT64_LIMIT - 50) && Overlaps(x, 100, UINT64_LIMIT - 50)
    ensures Grown(250, 100, UINT64_LIMIT - 50) == 250
  {
    assert !FirstPast([ehdr, x], 0, 100);
  }

  /** The end of the last byte that any extent covers. */
  function End(q: seq<Extent>): nat {
    if |q| == 0 then 0
    else var r := End(q[..|q| - 1]);
         var x := q[|q| - 1];
         if r < x.start + x.size then x.start + x.size else r
  }

  /** It is the least number that no extent ends behind. */
  lemma {:induction false} EndMeaning(q: seq<Extent>)
    ensures forall x <- q :: x.start + x.size <= End(q)
    ensures End(q) == 0 || exists x <- q :: x.start + x.size == End(q)
  {
    if q != [] {
      var n := |q| - 1;
      EndMeaning(q[..n]);
      assert q[n] in q && forall x <- q :: x in q[..n] || x == q[n];
      assert forall x <- q[..n] :: x in q;
    }
  }

  lemma OrderedInserted(q: seq<Extent>, k: nat, x: Extent)
    requires Ordered(q) && k <= |q| && x.start + x.size < UINT64_LIMIT
    requires forall i :: 0 <= i < k ==> Add64(q[i].start, q[i].size) <= x.start
    requires k < |q| ==> x.start + x.size <= q[k].start
    ensures Ordered(q[..k] + [x] + q[k..])
  {
  }

  class ExtentList {
    var first: Extent?

    ghost predicate Lists(q: seq<Extent>)
      reads this, q
    {
      && (forall i, j :: 0 <= i < j < |q| ==> q[i] != q[j])
      && (forall i :: 0 <= i < |q| - 1 ==> q[i].next == q[i + 1])
      && first == (if |q| == 0 then null else q[0])
      && (|q| != 0 ==> q[|q| - 1].next == null)
    }

    /** SLIST_INIT. */
    constructor ()
      ensures Lists([])
    {
      first := null;
    }

    /** _libelf_extent_is_unused: k is the number of extents before the region. */
    method IsUnused(start: nat, size: nat, ghost q: seq<Extent>) returns (unused: bool, prevt: Extent?, ghost k: nat)
      requires Lists(q)
      ensures Lists(q)
      ensures unused <==> Accepts(q, start, size)
      ensures unused ==> k <= |q| && prevt == (if k == 0 then null else q[k - 1])
      ensures unused ==> forall i :: 0 <= i < k ==> Add64(q[i].start, q[i].size) <= start
      ensures unused && k < |q| ==> FirstPast(q, k, start) && Add64(start, size) <= q[k].start
    {
      var t, pt: Extent? := first, null;
      var smax := Add64(start, size);
      k := 0;
      while t != null
        invariant k <= |q| && Lists(q)
        invariant t == (if k < |q| then q[k] else null) && pt == (if k == 0 then null else q[k - 1])
        invariant forall i :: 0 <= i < k ==> Add64(q[i].start, q[i].size) <= start
        decreases |q| - k
      {
        var tmin := t.start;
        var tmax := Add64(tmin, t.size);
        if tmax <= start {
          pt, t, k := t, t.next, k + 1;
        } else if smax <= tmin {
          assert pt == null || Add64(pt.start, pt.size) <= start;
          assert forall j :: 0 <= j < |q| && j != k ==> !FirstPast(q, j, start);
          break;
        } else {
          assert FirstPast(q, k, start);
          return false, null, 0;
        }
      }
      unused, prevt := true, pt;
    }

    /** _libelf_insert_extent. A region whose end fits into 64 bits is refused exactly when it overlaps an extent that
        is there. */
    method Insert(kind: Kind, start: nat, size: nat, scn: Scn?, ghost q: seq<Extent>)
      returns (ok: bool, ghost k: nat, ghost x: Extent?)
      requires Lists(q)
      modifies this, (set e | e in q)`next
      ensures ok <==> Accepts(q, start, size)
      ensures ok ==> fresh(x) && x.start == start && x.size == size && x.kind == kind && x.scn == scn
      ensures ok ==> k <= |q| && Lists(q[..k] + [x] + q[k..])
      ensures Ordered(q) && start + size < UINT64_LIMIT ==>
        (ok <==> forall e <- q :: !Overlaps(e, start, size)) && (ok ==> Ordered(q[..k] + [x] + q[k..]))
      ensures !ok ==> Lists(q)
    {
      hide Ordered, Accepts, Overlaps;
      var unused, prevt;
      unused, prevt, k := IsUnused(start, size, q);
      x := null;
      if Ordered(q) && start + size < UINT64_LIMIT {
        AcceptsExactly(q, start, size);
      }
      if !unused {
        return false, 0, null;
      }
      var ex := new Extent(start, size, kind, scn);
      x := ex;
      Link(ex, prevt, q, k);
      if Ordered(q) && start + size < UINT64_LIMIT {
        OrderedInserted(q, k, ex);
      }
      ok := true;
    }

    /** SLIST_INSERT_AFTER or SLIST_INSERT_HEAD. */
    method Link(ex: Extent, prevt: Extent?, ghost q: seq<Extent>, ghost k: nat)
      requires Lists(q) && k <= |q| && prevt == (if k == 0 then null else q[k - 1]) && ex !in q
      modifies this, ex`next, (set e | e in q)`next
      ensures Lists(q[..k] + [ex] + q[k..])
    {
      if prevt != null {
        ex.next := prevt.next;
        prevt.next := ex;
      } else {
        ex.next := first;
        first := ex;
      }
    }
  }

  lemma DropLast(a: seq<Extent>, x: Extent, b: seq<Extent>)
    requires |b| != 0
    ensures (a + [x] + b)[..|a| + |b|] == a + [x] + b[..|b| - 1] && (a + [x] + b)[|a| + |b|] == b[|b| - 1]
    ensures (a + b)[..|a| + |b| - 1] == a + b[..|b| - 1] && (a + b)[|a| + |b| - 1] == b[|b| - 1]
  {
  }

  lemma NothingAfter(a: seq<Extent>, x: Extent)
    ensures (a + [x] + [])[..|a|] == a && (a + [x] + [])[|a|] == x && a + [] == a
  {
  }

  /** The new end is that of the extents so far or that of the new extent, wherever it went in the list. */
  lemma {:induction false} EndInserted(a: seq<Extent>, x: Extent, b: seq<Extent>)
    ensures End(a + [x] + b) == if End(a + b) < x.start + x.size then x.start + x.size else End(a + b)
    decreases |b|
  {
    if |b| == 0 {
      NothingAfter(a, x);
      assert b == [];
    } else {
      DropLast(a, x, b);
      EndInserted(a, x, b[..|b| - 1]);
    }
  }

  /** In a list in ascending order the last extent has the greatest end. */
  lemma EndOfOrdered(q: seq<Extent>)
    requires Ordered(q)
    ensures End(q) == if |q| == 0 then 0 else q[|q| - 1].start + q[|q| - 1].size
  {
    if |q| > 1 {
      EndOfOrdered(q[..|q| - 1]);
    }
  }
}
