/** The life of ELF descriptors: activation counts, archive members and the deferred release of archives (elf_begin.c,
    elf_end.c, the end of _libelf_ar_open_member in libelf_ar.c). */
module Lifetime {
  import opened Section

  datatype Kind = Archive | Object | Plain

  datatype Cmd = Null | Read | Write | ReadWrite | Unknown

  /** The fields of a struct _Elf that decide when it is released. */
  class Handle {
    const kind: Kind
    const cmd: Cmd
    const fd: int
    const parent: Handle?
    ghost const depth: nat
    var activations: nat
    var nchildren: nat

    /** A new descriptor has one activation. */
    constructor (kind: Kind, cmd: Cmd, fd: int, parent: Handle?)
      ensures this.kind == kind && this.cmd == cmd && this.fd == fd && this.parent == parent
      ensures activations == 1 && nchildren == 0
      ensures depth == if parent == null then 0 else parent.depth + 1
    {
      this.kind, this.cmd, this.fd, this.parent := kind, cmd, fd, parent;
      activations, nchildren := 1, 0;
      depth := if parent == null then 0 else parent.depth + 1;
    }
  }

  ghost function Children(live: set<Handle>, h: Handle): set<Handle> {
    set c | c in live && c.parent == h
  }

  /** The activations that have not been returned. */
  ghost function Total(s: set<Handle>): nat
    reads s`activations
  {
    if s == {} then 0 else var h :| h in s; h.activations + Total(s - {h})
  }

  lemma {:induction false} TotalSplit(s: set<Handle>, h: Handle)
    requires h in s
    ensures Total(s) == h.activations + Total(s - {h})
    decreases |s|
  {
    var g :| g in s && Total(s) == g.activations + Total(s - {g});
    if g != h {
      TotalSplit(s - {g}, h);
      TotalSplit(s - {h}, g);
      assert s - {g} - {h} == s - {h} - {g};
    }
  }

  lemma Deepest(s: set<Handle>) returns (h: Handle)
    requires s != {}
    ensures h in s && forall x <- s :: x.depth <= h.depth
    decreases |s|
  {
    var g :| g in s;
    if s == {g} {
      h := g;
    } else {
      assert s - {g} != {};
      var d := Deepest(s - {g});
      h := if g.depth > d.depth then g else d;
    }
  }

  /** The descriptors of a process: those that were not released yet, and those that were. */
  class Descriptors {
    ghost var live: set<Handle>
    ghost var freed: set<Handle>

    constructor ()
      ensures Valid() && live == {} && freed == {}
    {
      live, freed := {}, {};
    }

    /** A live member's archive is live, and an archive counts its live members. */
    ghost predicate Linked(h: Handle)
      reads this, h
    {
      && (h.parent != null ==> h.parent in live && h.parent.kind == Archive && h.parent.depth < h.depth)
      && h.nchildren == |Children(live, h)|
    }

    /** A descriptor that was activated as often as it was returned stays only while it is an archive with members. */
    ghost predicate Needed(h: Handle)
      reads h
    {
      h.activations > 0 || (h.kind == Archive && h.nchildren > 0)
    }

    ghost predicate Valid()
      reads this, live
    {
      live !! freed && (forall h <- live :: Linked(h)) && forall h <- live :: Needed(h)
    }

    /** An archive that is kept without an activation has a live member below it. */
    lemma HasMember(h: Handle)
      requires Valid() && h in live && h.activations == 0
      ensures exists c <- live :: h.depth < c.depth
    {
      assert Linked(h) && Needed(h);
      assert Children(live, h) != {};
      var c :| c in Children(live, h);
      assert c in live && Linked(c);
    }

    /** When all activations have been returned, all descriptors have been released. */
    lemma AllReleased()
      requires Valid() && Total(live) == 0
      ensures live == {}
    {
      if live != {} {
        var h := Deepest(live);
        TotalSplit(live, h);
        HasMember(h);
        assert false;
      }
    }

    /** What a new member adds to the counts. */
    lemma Joined(before: set<Handle>, e: Handle, h: Handle)
      requires e !in before
      ensures |Children(before + {e}, h)| == |Children(before, h)| + if e.parent == h then 1 else 0
    {
      if e.parent == h {
        assert Children(before + {e}, h) == Children(before, h) + {e};
      } else {
        assert Children(before + {e}, h) == Children(before, h);
      }
    }

    lemma Left(before: set<Handle>, e: Handle, h: Handle)
      requires e in before
      ensures |Children(before - {e}, h)| == |Children(before, h)| - if e.parent == h then 1 else 0
    {
      if e.parent == h {
        assert e in Children(before, h);
        assert Children(before - {e}, h) == Children(before, h) - {e};
      } else {
        assert Children(before - {e}, h) == Children(before, h);
      }
    }

    /** elf_begin. outcome is what opening the file or the member comes to: nothing, or a descriptor of some kind. */
    method Begin(fd: int, c: Cmd, a0: Handle?, outcome: Option<Kind>) returns (e: Handle?)
      requires Valid() && (a0 != null ==> a0 in live)
      modifies this`live, live
      ensures Valid() && freed == old(freed) && (forall h <- live :: h in old(live) || fresh(h))
      ensures e != null ==> live == old(live) + {e} && e.activations > 0 && Total(live) == old(Total(live)) + 1
      ensures e == null ==> live == old(live) && Total(live) == old(Total(live))
      ensures e != null && e !in old(live) ==> e.activations == 1 && e.cmd == c
      ensures e != null && e in old(live) ==> e == a0 && e.kind != Archive && e.activations == old(e.activations) + 1
      ensures c == Null || c == Unknown ==> e == null
      ensures e != null && c != Write && a0 != null ==> a0.cmd == c && (a0.fd == -1 || a0.fd == fd) && c == Read
      ensures e != null <==>
        && c in {Read, Write, ReadWrite} && (c == ReadWrite ==> a0 == null)
        && (c == Read && a0 != null ==> a0.cmd == Read && (a0.fd == -1 || a0.fd == fd))
        && (c != Read || a0 == null || a0.kind == Archive ==> outcome != None)
      ensures e != null ==> (e in old(live) <==> c == Read && a0 != null && a0.kind != Archive)
      ensures e != null && e !in old(live) ==>
        && fresh(e) && e.parent == (if c == Write then null else a0) && outcome == Some(e.kind) && e.nchildren == 0
        && (if e.parent == null then e.fd == fd
            else a0.kind == Archive && e.fd == a0.fd && a0.nchildren == old(a0.nchildren) + 1)
      ensures forall h <- old(live) ::
        && (h != e ==> h.activations == old(h.activations))
        && (e == null || e in old(live) || e.parent != h ==> h.nchildren == old(h.nchildren))
    {
      hide Linked, Needed, Children, Total;
      var a := a0;
      match c {
        case Null => return null;
        case Write => a := null;
        case ReadWrite =>
          if a != null {
            return null;
          }
        case Read =>
          if a != null && ((a.fd != -1 && a.fd != fd) || c != a.cmd) {
            return null;
          }
        case Unknown => return null;
      }
      if a == null {
        if outcome == None {
          return null;
        }
        e := Create(outcome.value, c, fd, null);
      } else if a.kind == Archive {
        if outcome == None {
          return null;
        }
        e := Create(outcome.value, c, a.fd, a);
      } else {
        e := a;
        Activate(a);
      }
    }

    method Activate(e: Handle)
      requires Valid() && e in live
      modifies e`activations
      ensures Valid() && e.activations == old(e.activations) + 1 && Total(live) == old(Total(live)) + 1
    {
      TotalSplit(live, e);
      e.activations := e.activations + 1;
      TotalSplit(live, e);
      assert forall h <- live :: old(Linked(h)) && old(Needed(h));
    }

    /** A new descriptor, which its archive counts as a member. */
    method Create(kind: Kind, c: Cmd, fd: int, a: Handle?) returns (e: Handle)
      requires Valid() && (a != null ==> a in live && a.kind == Archive)
      modifies this`live, live
      ensures Valid() && fresh(e) && live == old(live) + {e} && e.activations == 1 && e.cmd == c && e.parent == a
      ensures e.kind == kind && e.fd == fd && e.nchildren == 0
      ensures forall h <- old(live) :: h.activations == old(h.activations)
      ensures forall h <- old(live) :: h.nchildren == old(h.nchildren) + if h == a then 1 else 0
      ensures Total(live) == old(Total(live)) + 1
    {
      hide Children, Total;
      ghost var was := live;
      e := new Handle(kind, c, fd, a);
      if a != null {
        a.nchildren := a.nchildren + 1;
      }
      live := live + {e};
      forall h | h in live ensures Linked(h) && Needed(h) {
        Joined(was, e, h);
        NoChildrenYet(was, e);
        assert h != e ==> old(Linked(h)) && old(Needed(h));
      }
      assert live - {e} == was;
      TotalSplit(live, e);
    }

    lemma NoChildrenYet(was: set<Handle>, e: Handle)
      requires e !in was && forall h <- was :: h.parent != e
      ensures Children(was, e) == {}
    {
    }

    // ---------- elf_end ----------

    /** Everything is in order, except that e may have become unneeded. */
    ghost predicate ValidBut(e: Handle?)
      reads this, live
    {
      && live !! freed && (forall h <- live :: Linked(h)) && (forall h <- live :: h == e || Needed(h))
      && (e != null ==> e in live)
    }

    /** _libelf_release_elf: only a descriptor that is still there, not activated and without members is released. */
    method Release(sv: Handle) returns (e: Handle?)
      requires ValidBut(sv) && sv.activations == 0 && Children(live, sv) == {}
      modifies this`live, this`freed, (if sv.parent == null then {} else {sv.parent})`nchildren
      ensures ValidBut(e) && e == sv.parent
      ensures live == old(live) - {sv} && freed == old(freed) + {sv} && Total(live) == old(Total(live))
    {
      hide Children, Total;
      ghost var was := live;
      TotalSplit(was, sv);
      assert Linked(sv);
      e := sv.parent;
      if e != null {
        Left(was, sv, e);
        e.nchildren := e.nchildren - 1;
      }
      live, freed := live - {sv}, freed + {sv};
      forall h | h in live ensures Linked(h) && (h == e || Needed(h)) {
        Left(was, sv, h);
        assert old(Linked(h)) && (h == sv || old(Needed(h)));
        NotAbove(was, sv, h);
      }
    }

    lemma NotAbove(was: set<Handle>, sv: Handle, h: Handle)
      requires Children(was, sv) == {} && h in was
      ensures h.parent != sv
    {
      assert h.parent == sv ==> h in Children(was, sv);
    }

    /** elf_end returns one activation. A descriptor whose activations are all returned is released, except that an
        archive waits for its members; so with the last member its archive may go, and the archive that this one is a
        member of, and so on. Nothing is released twice, and the number of outstanding activations falls by exactly
        one. */
    method End(e0: Handle?) returns (left: nat)
      requires Valid() && (e0 != null ==> e0 in live)
      modifies this`live, this`freed, live`activations, live`nchildren
      ensures Valid() && live <= old(live) && freed == old(freed) + (old(live) - live)
      ensures e0 != null && old(e0.activations) > 0 ==>
        left == old(e0.activations) - 1 && Total(live) == old(Total(live)) - 1
      ensures e0 == null || old(e0.activations) == 0 ==>
        left == 0 && live == old(live) && Total(live) == old(Total(live))
      ensures left > 0 ==> live == old(live)
      ensures forall h <- old(live) - live :: h.activations == 0 && (h == e0 || h.kind == Archive)
      ensures forall h <- live :: h != e0 ==> h.activations == old(h.activations)
    {
      hide Children, Linked, Needed;
      if e0 == null || e0.activations == 0 {
        return 0;
      }
      Deactivate(e0);
      left := e0.activations;
      if e0.activations > 0 {
        StillValid(e0);
        return;
      }
      ghost var gone := ReleaseUp(e0);
      assert old(live) - live == gone;
    }

    method Deactivate(e: Handle)
      requires Valid() && e in live && e.activations > 0
      modifies e`activations
      ensures ValidBut(e) && e.activations == old(e.activations) - 1 && Total(live) == old(Total(live)) - 1
    {
      TotalSplit(live, e);
      e.activations := e.activations - 1;
      TotalSplit(live, e);
      assert forall h <- live :: old(Linked(h)) && old(Needed(h));
    }

    lemma StillValid(e: Handle)
      requires ValidBut(e) && e.activations > 0
      ensures Valid()
    {
    }

    lemma StillNeeded(e: Handle?)
      requires ValidBut(e) && (e == null || e.activations > 0 || (e.kind == Archive && e.nchildren > 0))
      ensures Valid()
    {
    }

    /** all and freed0 were live and freed before the descriptors gone were released. */
    ghost predicate Moved(all: set<Handle>, freed0: set<Handle>, gone: set<Handle>, live': set<Handle>,
        freed': set<Handle>) {
      live' == all - gone && gone <= all && freed' == freed0 + gone
    }

    lemma MovedOne(all: set<Handle>, freed0: set<Handle>, gone: set<Handle>, live': set<Handle>, freed': set<Handle>,
        sv: Handle)
      requires Moved(all, freed0, gone, live', freed') && sv in live'
      ensures Moved(all, freed0, gone + {sv}, live' - {sv}, freed' + {sv}) && live' <= all
    {
    }

    /** The loop up the parent chain; gone is what it releases. */
    method ReleaseUp(e0: Handle) returns (ghost gone: set<Handle>)
      requires ValidBut(e0) && e0.activations == 0
      modifies this`live, this`freed, live`nchildren
      ensures Valid() && Moved(old(live), old(freed), gone, live, freed)
      ensures Total(live) == old(Total(live)) && Idle(gone, e0)
    {
      hide Children, Linked, Needed, Total, ValidBut, Idle, Moved, Valid;
      var e: Handle? := e0;
      gone := {};
      NothingMoved();
      NothingIdle(e0);
      while e != null && e.activations == 0
        invariant ValidBut(e) && Moved(old(live), old(freed), gone, live, freed)
        invariant Total(live) == old(Total(live)) && Idle(gone, e0)
        invariant e == e0 || (e != null ==> e.kind == Archive)
        decreases |live|
      {
        var sv: Handle := e;
        Present(sv);
        if sv.kind == Archive && sv.nchildren > 0 {
          break;
        }
        Childless(sv);
        OneMoreIdle(gone, e0, sv);
        MovedOne(old(live), old(freed), gone, live, freed, sv);
        gone := gone + {sv};
        e := Release(sv);
      }
      StillNeeded(e);
    }

    lemma NothingMoved()
      ensures Moved(live, freed, {}, live, freed)
    {
    }

    lemma NothingIdle(e0: Handle)
      ensures Idle({}, e0)
    {
    }

    lemma OneMoreIdle(gone: set<Handle>, e0: Handle, sv: Handle)
      requires Idle(gone, e0) && sv.activations == 0 && (sv == e0 || sv.kind == Archive)
      ensures Idle(gone + {sv}, e0)
    {
    }

    ghost predicate Idle(s: set<Handle>, e: Handle)
      reads s`activations
    {
      forall h <- s :: h.activations == 0 && (h == e || h.kind == Archive)
    }

    lemma Present(e: Handle)
      requires ValidBut(e)
      ensures e in live && (e.parent != null ==> e.parent in live && e.parent.kind == Archive)
    {
      assert Linked(e);
    }

    lemma OnlyArchives(e: Handle)
      requires ValidBut(e)
      ensures Children(live, e) != {} ==> e.kind == Archive
    {
      if Children(live, e) != {} {
        var c :| c in Children(live, e);
        assert Linked(c);
      }
    }

    /** Only archives have members, so a descriptor that does not wait for any has none. */
    lemma Childless(e: Handle)
      requires ValidBut(e) && !(e.kind == Archive && e.nchildren > 0)
      ensures Children(live, e) == {}
    {
      OnlyArchives(e);
      assert Linked(e);
      assert |Children(live, e)| == 0 ==> Children(live, e) == {};
    }
  }
}
