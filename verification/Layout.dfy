/** Laying out the sections of an ELF object: _libelf_compute_section_extents and _libelf_resync_sections of
    elf_update.c. */
module Layout {
  import opened Basics
  import opened Codec
  import opened Section
  import opened RbShape
  import opened RbTree
  import opened Extended
  import opened ElfObject
  import opened Placement
  import opened Extents

  // ---------- One section ----------

  function Descs(data: seq<Data>): seq<Desc> {
    seq(|data|, i requires 0 <= i < |data| => data[i].d)
  }

  ghost function Offs(data: seq<Data>): (r: seq<nat>)
    reads data
    ensures |r| == |data| && forall i :: 0 <= i < |data| ==> r[i] == data[i].off
  {
    if |data| == 0 then [] else Offs(data[..|data| - 1]) + [data[|data| - 1].off]
  }

  /** The data descriptors of s are its own, and each is in the list once. */
  ghost predicate Linked(s: Scn)
    reads s`data
  {
    (forall i, j :: 0 <= i < j < |s.data| ==> s.data[i] != s.data[j]) && forall d <- s.data :: d.scn == s
  }

  ghost function PlanNow(v: Config, s: Scn): Option<Plan>
    reads s`shdr, s`dirty, s`data, s.data
  {
    PlanOf(v, s.shdr, s.dirty, Descs(s.data), Offs(s.data))
  }

  /** The offsets of the descriptors are those the library computes for them. */
  ghost predicate Spread(v: Config, ds: seq<Desc>, data: seq<Data>, n: nat)
    requires n <= |data| == |ds| && AllOk(v, ds, n)
    reads data
  {
    forall k :: 0 <= k < n ==> data[k].off == Off(v, ds, k)
  }

  /** Section s, whose header was h, was laid out at start as p says. */
  ghost predicate Placed(v: Config, s: Scn, h: Shdr, p: Plan, start: nat)
    reads s`shdr, s`size, s`offset, s`data, s.data
  {
    && s.shdr == NewShdr(v, h, p, start) && s.size == p.size && s.offset == start
    && Descs(s.data) == p.ds
    && (!v.layout ==> AllOk(v, p.ds, |p.ds|) && Spread(v, p.ds, s.data, |s.data|))
  }

  /** elf_getdata, for a section whose list of descriptors is empty. */
  method GetData(v: Config, s: Scn) returns (ok: bool)
    requires s.data == [] && !v.m.write
    modifies s`data
    ensures ok <==> FileData(v, s.shdr) != None
    ensures if ok then |s.data| == 1 && fresh(s.data[0]) && s.data[0].scn == s && s.data[0].off == 0 &&
                       s.data[0].d == FileData(v, s.shdr).value
            else s.data == []
  {
    var h := s.shdr;
    var c := v.m.c;
    if h.typ == SHT_NULL {
      return false;
    }
    var elftype := ShType(h.typ);
    if elftype == None || (h.typ != SHT_NOBITS && (h.offset > |v.raw| || h.size > |v.raw| - h.offset)) {
      return false;
    }
    var fsz := Fsize(v.fmt, c, elftype.value);
    if fsz == 0 || h.size % fsz != 0 {
      return false;
    }
    var count := h.size / fsz;
    var msz := Msize(v.fmt, c, elftype.value);
    if msz == 0 || msz * count >= UINT64_LIMIT {
      return false;
    }
    var buf: Option<seq<byte>> := None;
    if h.typ != SHT_NOBITS && h.size != 0 {
      buf := ToMemory(v.fmt, c, OrderOf(v.byteorder, v.m.native), elftype.value, v.raw[h.offset..h.offset + h.size]);
      if buf == None {
        return false;
      }
    }
    var d := new Data(s, Desc(elftype.value, msz * count, h.addralign, EV_CURRENT, buf), 0);
    s.data := [d];
    ok := true;
  }

  /** The checks that one descriptor must pass. */
  method CheckData(v: Config, d: Data) returns (ok: bool)
    ensures ok <==> DescOk(v, d.d) && (v.layout ==> d.off % d.d.align == 0)
  {
    if d.d.typ >= ELF_T_NUM || d.d.version != EV_CURRENT || !IsPow2(d.d.align) {
      return false;
    }
    var msz := Msize(v.fmt, v.m.c, d.d.typ);
    if msz == 0 || d.d.size % msz != 0 {
      return false;
    }
    ok := !v.layout || d.off % d.d.align == 0;
  }

  /** One descriptor: the section's size grows by its contents, and in library layout it is given its offset. */
  method ScanOne(v: Config, s: Scn, i: nat, was: nat, ghost ds: seq<Desc>) returns (size: nat)
    requires Linked(s) && ds == Descs(s.data) && i < |ds| && AllOk(v, ds, i + 1)
    requires !v.layout ==> was == Size(v, ds, i) && Spread(v, ds, s.data, i)
    modifies (if v.layout then {} else {s.data[i]})`off
    ensures v.layout ==> size == Max(was, Add64(s.data[i].off, ds[i].size))
    ensures !v.layout ==> size == Size(v, ds, i + 1) && Spread(v, ds, s.data, i + 1)
  {
    var d := s.data[i];
    assert d.d == ds[i];
    if v.layout {
      size := Max(was, Add64(d.off, d.d.size));
    } else {
      size := RoundUp(was, d.d.align);
      d.off := size;
      size := size + FileSize(v, d.d);
    }
  }

  lemma FirstScan(v: Config, ds: seq<Desc>, offs: seq<nat>)
    requires |ds| == |offs|
    ensures Size(v, ds, 0) == 0 && ChosenSize(ds, offs, 0) == 0 && MaxAlign(ds, 0) == 0
  {
  }

  lemma NextScan(v: Config, ds: seq<Desc>, offs: seq<nat>, i: nat)
    requires i < |ds| == |offs|
    ensures MaxAlign(ds, i + 1) == Max(MaxAlign(ds, i), ds[i].align)
    ensures ChosenSize(ds, offs, i + 1) == Max(ChosenSize(ds, offs, i), Add64(offs[i], ds[i].size))
  {
  }

  /** The loop over the descriptors. */
  method ScanData(v: Config, s: Scn) returns (ok: bool, size: nat, alignment: nat)
    requires Linked(s)
    modifies (set d | d in s.data)`off
    ensures ok <==> AllOk(v, Descs(s.data), |s.data|) && OffsOk(v, Descs(s.data), old(Offs(s.data)), |s.data|)
    ensures ok ==> alignment == MaxAlign(Descs(s.data), |s.data|)
    ensures ok && !v.layout ==> size == Size(v, Descs(s.data), |s.data|) && Spread(v, Descs(s.data), s.data, |s.data|)
    ensures ok && v.layout ==> size == ChosenSize(Descs(s.data), old(Offs(s.data)), |s.data|)
    ensures v.layout ==> forall d <- s.data :: d.off == old(d.off)
  {
    hide DescOk, RoundUp, FileSize, Off, IsPow2, Size, ChosenSize, MaxAlign;
    FirstScan(v, Descs(s.data), Offs(s.data));
    ghost var ds, offs := Descs(s.data), Offs(s.data);
    size, alignment := 0, 0;
    var i := 0;
    while i < |s.data|
      invariant i <= |s.data| && AllOk(v, ds, i) && OffsOk(v, ds, offs, i)
      invariant alignment == MaxAlign(ds, i)
      invariant forall j :: (if v.layout then 0 else i) <= j < |s.data| ==> s.data[j].off == offs[j]
      invariant v.layout ==> size == ChosenSize(ds, offs, i)
      invariant !v.layout ==> size == Size(v, ds, i) && Spread(v, ds, s.data, i)
    {
      ok := CheckData(v, s.data[i]);
      assert s.data[i].d == ds[i] && s.data[i].off == offs[i];
      if !ok {
        return false, 0, 0;
      }
      assert AllOk(v, ds, i + 1) && OffsOk(v, ds, offs, i + 1);
      NextScan(v, ds, offs, i);
      size := ScanOne(v, s, i, size, ds);
      alignment := Max(alignment, s.data[i].d.align);
      i := i + 1;
    }
    ok := true;
  }

  /** The part of _libelf_compute_section_extents that looks at the descriptors. */
  method ComputeFromData(v: Config, s: Scn, elftype: nat, align: nat, rc: nat) returns (ok: bool)
    requires Linked(s) && align == OwnAlign(v, s.shdr, elftype)
    modifies s`shdr, s`size, s`offset, (set d | d in s.data)`off
    ensures ok <==> PlanWith(v, old(s.shdr), elftype, Descs(s.data), old(Offs(s.data))) != None
    ensures ok ==> var p := PlanWith(v, old(s.shdr), elftype, Descs(s.data), old(Offs(s.data))).value;
                   Placed(v, s, old(s.shdr), p, Start(v, old(s.shdr), p, rc))
    ensures !ok ==> s.shdr == old(s.shdr)
  {
    var h := s.shdr;
    var scanned, size, alignment := ScanData(v, s);
    if !scanned {
      return false;
    }
    if v.layout {
      if alignment > align || h.offset % align != 0 || h.size < size || h.offset % Falign(elftype, v.m.c) != 0 {
        return false;
      }
      UpdateSection(v, s, Plan(Descs(s.data), h.size, align, h.entsize), rc);
    } else {
      var entsize := if h.entsize != 0 then h.entsize else Fsize(v.fmt, v.m.c, elftype);
      if h.entsize == 0 && entsize == 1 {
        entsize := 0;
      }
      UpdateSection(v, s, Plan(Descs(s.data), size, if alignment > align then alignment else align, entsize), rc);
    }
    ok := true;
  }

  /** A section that was laid out as planned keeps its other header fields; in library layout it goes to the first
      offset from rc on that fits its alignment. */
  lemma PlacedMeaning(v: Config, s: Scn, h: Shdr, p: Plan, rc: nat)
    requires !v.layout ==> p.align > 0
    requires Placed(v, s, h, p, Start(v, h, p, rc))
    ensures OthersKept(h, s.shdr) && s.size == p.size
    ensures v.layout ==> s.shdr == h && s.offset == h.offset
    ensures !v.layout ==> rc <= s.offset < rc + p.align && s.offset % p.align == 0
  {
    NewShdrMeaning(v, h, p, Start(v, h, p, rc));
    if !v.layout {
      RoundUpFacts(rc, p.align);
    }
  }

  /** _libelf_compute_section_extents: it succeeds exactly when the section has a plan, and then carries it out. */
  method ComputeSectionExtents(v: Config, s: Scn, rc: nat) returns (ok: bool)
    requires Linked(s)
    modifies s`shdr, s`size, s`offset, s`data, (set d | d in s.data)`off
    ensures ok <==> old(PlanNow(v, s)) != None
    ensures ok ==> var p := old(PlanNow(v, s)).value; Placed(v, s, old(s.shdr), p, Start(v, old(s.shdr), p, rc))
    ensures Linked(s) && forall d <- s.data :: d in old(s.data) || fresh(d)
    ensures OthersKept(old(s.shdr), s.shdr) && (!ok || v.layout ==> s.shdr == old(s.shdr))
    ensures ok && v.layout ==> s.offset == s.shdr.offset
    ensures ok && !v.layout ==>
      var a := old(PlanNow(v, s)).value.align; rc <= s.offset < rc + a && s.offset % a == 0
  {
    hide NewShdr, Start, RoundUp, PlanWith, FileData, OthersKept;
    ghost var before := PlanNow(v, s);
    ok := FollowPlan(v, s, rc);
    if ok {
      PlacedMeaning(v, s, old(s.shdr), before.value, rc);
    } else {
      NothingChanged(s.shdr);
    }
  }

  lemma NothingChanged(h: Shdr)
    ensures OthersKept(h, h)
  {
  }

  /** The branches of _libelf_compute_section_extents. */
  method FollowPlan(v: Config, s: Scn, rc: nat) returns (ok: bool)
    requires Linked(s)
    modifies s`shdr, s`size, s`offset, s`data, (set d | d in s.data)`off
    ensures ok <==> old(PlanNow(v, s)) != None
    ensures ok ==> var p := old(PlanNow(v, s)).value; Placed(v, s, old(s.shdr), p, Start(v, old(s.shdr), p, rc))
    ensures Linked(s) && forall d <- s.data :: d in old(s.data) || fresh(d)
    ensures !ok ==> s.shdr == old(s.shdr)
  {
    var h := s.shdr;
    var elftype := ShType(h.typ);
    if elftype == None {
      return false;
    }
    var align := if h.addralign == 0 then Falign(elftype.value, v.m.c) else h.addralign;
    if |s.data| == 0 {
      if !s.dirty {
        UpdateSection(v, s, Plan([], h.size, align, h.entsize), rc);
        return true;
      }
      if !v.m.write {
        var loaded := GetData(v, s);
        if !loaded {
          return false;
        }
        assert Descs(s.data) == [FileData(v, h).value] && Offs(s.data) == [0];
      }
    }
    ok := ComputeFromData(v, s, elftype.value, align, rc);
  }

  /** The header fields, which only the library's own layout changes, and the offset and size of the section. */
  method UpdateSection(v: Config, s: Scn, p: Plan, rc: nat)
    requires !v.layout ==> p.align > 0
    requires v.layout ==> p.size == s.shdr.size
    modifies s`shdr, s`size, s`offset
    ensures s.shdr == NewShdr(v, old(s.shdr), p, Start(v, old(s.shdr), p, rc))
    ensures s.size == p.size && s.offset == Start(v, old(s.shdr), p, rc)
  {
    var offset := s.shdr.offset;
    if !v.layout {
      offset := RoundUp(rc, p.align);
      s.shdr := s.shdr.(addralign := p.align % Limit(v.m.c), entsize := p.entsize % Limit(v.m.c),
                        offset := offset % Limit(v.m.c), size := p.size % Limit(v.m.c));
    }
    s.size, s.offset := p.size, offset;
  }

  // ---------- All sections ----------

  /** What happens to a section with header h: it has no file contents, it cannot be laid out, or it is laid out as
      planned. Where the section was in the old file is rawoff. */
  datatype Item = Skip(h: Shdr) | Bad | Put(h: Shdr, p: Plan, rawoff: nat)

  ghost function ItemNow(v: Config, s: Scn): (r: Item)
    reads s`shdr, s`dirty, s`data, s`rawoff, s.data
    ensures Sound(v, r)
  {
    ItemOf(s.shdr, PlanNow(v, s), s.rawoff)
  }

  predicate NoContents(h: Shdr) {
    h.typ == SHT_NOBITS || h.typ == SHT_NULL
  }

  function ItemOf(h: Shdr, po: Option<Plan>, rawoff: nat): Item {
    if NoContents(h) then Skip(h) else match po case None => Bad case Some(p) => Put(h, p, rawoff)
  }

  /** A section that is laid out has a type with file contents and a plan that makes sense. */
  ghost predicate Sound(v: Config, it: Item) {
    && (it.Put? ==>
          !NoContents(it.h) && ShType(it.h.typ) != None && PlanSound(v, it.p) && AlignedFor(v, it.h, it.p))
    && (it.Skip? ==> NoContents(it.h))
  }

  /** A part of the file and what it is for. */
  datatype Region = Region(start: nat, size: nat, kind: Kind, scn: Scn?)

  ghost function RegionOf(x: Extent): Region {
    Region(x.start, x.size, x.kind, x.scn)
  }

  ghost function RegionsOf(q: seq<Extent>): seq<Region> {
    seq(|q|, i requires 0 <= i < |q| => RegionOf(q[i]))
  }

  /** The region of a section that is laid out after rc; a section of no size has none. */
  ghost function ItemRegion(v: Config, s: Scn?, it: Item, rc: nat): seq<Region>
    requires Sound(v, it)
  {
    if it.Put? && it.p.size != 0 then [Region(Start(v, it.h, it.p, rc), it.p.size, SectionExtent, s)] else []
  }

  /** The end of the file after that. */
  ghost function ItemEnd(v: Config, it: Item, rc: nat): nat
    requires Sound(v, it)
  {
    if it.Put? && it.p.size != 0 then Max(rc, Start(v, it.h, it.p, rc) + it.p.size) else rc
  }

  ghost predicate Clash(a: Region, b: Region) {
    a.start < b.start + b.size && b.start < a.start + a.size
  }

  ghost predicate Disjoint(r: seq<Region>) {
    forall i, j :: 0 <= i < j < |r| ==> !Clash(r[i], r[j])
  }

  ghost predicate NoneClash(r: seq<Region>, x: Region) {
    forall i :: 0 <= i < |r| ==> !Clash(r[i], x)
  }

  lemma RegionsClash(q: seq<Extent>, r: Region)
    ensures NoneClash(RegionsOf(q), r) <==> forall x <- q :: !Overlaps(x, r.start, r.size)
  {
    forall i | 0 <= i < |q| ensures Clash(RegionsOf(q)[i], r) <==> Overlaps(q[i], r.start, r.size) {
    }
    assert forall x <- q :: exists i :: 0 <= i < |q| && q[i] == x;
  }

  lemma RegionsInserted(q: seq<Extent>, x: Extent, k: nat)
    requires k <= |q|
    ensures RegionsOf(q[..k] + [x] + q[k..]) == RegionsOf(q)[..k] + [RegionOf(x)] + RegionsOf(q)[k..]
  {
  }

  /** _libelf_insert_extent, in terms of regions: the new one goes after the first k. */
  method InsertRegion(extents: ExtentList, kind: Kind, start: nat, size: nat, scn: Scn?, ghost q: seq<Extent>)
    returns (ok: bool, ghost q': seq<Extent>, ghost k: nat)
    requires extents.Lists(q) && Ordered(q) && start + size < UINT64_LIMIT
    modifies extents, (set x | x in q)`next
    ensures ok <==> NoneClash(RegionsOf(q), Region(start, size, kind, scn))
    ensures ok ==> extents.Lists(q') && Ordered(q') && (forall x <- q' :: x in q || fresh(x))
    ensures ok ==> k <= |q| && RegionsOf(q') == RegionsOf(q)[..k] + [Region(start, size, kind, scn)] + RegionsOf(q)[k..]
    ensures ok ==> End(q') == Max(End(q), start + size)
  {
    hide Ordered, Clash, End;
    ghost var x;
    ok, k, x := extents.Insert(kind, start, size, scn, q);
    ghost var r := Region(start, size, kind, scn);
    RegionsClash(q, r);
    q' := q;
    if ok {
      RegionsInserted(q, x, k);
      EndInserted(q[..k], x, q[k..]);
      assert q[..k] + q[k..] == q;
      q' := q[..k] + [x] + q[k..];
    }
  }

  lemma InsertedNothing(r: seq<Region>)
    ensures r[..0] + [] + r[0..] == r
  {
  }

  /** A section with file contents. */
  method ResyncContents(v: Config, s: Scn, rc: nat, extents: ExtentList, ghost q: seq<Extent>, ghost it: Item)
    returns (ok: bool, rc': nat, ghost q': seq<Extent>, ghost k: nat)
    requires Linked(s) && extents.Lists(q) && Ordered(q) && !NoContents(s.shdr) && it == ItemNow(v, s)
    requires Sound(v, it) && ItemEnd(v, it, rc) < UINT64_LIMIT
    modifies s`shdr, s`size, s`offset, s`data, (set d | d in s.data)`off, extents, (set x | x in q)`next
    ensures Linked(s) && forall d <- s.data :: d in old(s.data) || fresh(d)
    ensures ok <==> it.Put? && forall x <- ItemRegion(v, s, it, rc) :: NoneClash(RegionsOf(q), x)
    ensures ok ==> extents.Lists(q') && Ordered(q') && (forall x <- q' :: x in q || fresh(x))
    ensures ok ==> k <= |q| && RegionsOf(q') == RegionsOf(q)[..k] + ItemRegion(v, s, it, rc) + RegionsOf(q)[k..]
    ensures ok && rc == End(q) ==> rc' == End(q')
    ensures ok ==> rc' == ItemEnd(v, it, rc) && Placed(v, s, it.h, it.p, Start(v, it.h, it.p, rc))
  {
    hide PlanOf, Linked, Ordered, End, NewShdr, Spread, AllOk, Size, RegionsOf, NoneClash, PlanSound, ShType;
    rc', q', k := rc, q, 0;
    ok := ComputeSectionExtents(v, s, rc);
    if !ok {
      return;
    }
    if s.size == 0 {
      InsertedNothing(RegionsOf(q));
      return;
    }
    ok, q', k := InsertRegion(extents, SectionExtent, s.offset, s.size, s, q);
    rc' := Grown(rc, s.offset, s.size);
  }

  /** The body of the loop over the sections. */
  method ResyncSection(v: Config, s: Scn, rc: nat, extents: ExtentList, ghost q: seq<Extent>, ghost it: Item)
    returns (ok: bool, rc': nat, ghost q': seq<Extent>, ghost k: nat)
    requires Linked(s) && extents.Lists(q) && Ordered(q) && it == ItemNow(v, s)
    requires Sound(v, it) && ItemEnd(v, it, rc) < UINT64_LIMIT
    modifies s`shdr, s`size, s`offset, s`data, (set d | d in s.data)`off, extents, (set x | x in q)`next
    ensures Linked(s) && forall d <- s.data :: d in old(s.data) || fresh(d)
    ensures ok <==> !it.Bad? && forall x <- ItemRegion(v, s, it, rc) :: NoneClash(RegionsOf(q), x)
    ensures ok ==> extents.Lists(q') && Ordered(q') && (forall x <- q' :: x in q || fresh(x))
    ensures ok ==> k <= |q| && RegionsOf(q') == RegionsOf(q)[..k] + ItemRegion(v, s, it, rc) + RegionsOf(q)[k..]
    ensures ok ==> rc' == ItemEnd(v, it, rc) && (rc == End(q) ==> rc' == End(q'))
    ensures ok ==> Dealt(v, s, it, rc)
  {
    if NoContents(s.shdr) {
      ok, rc', q', k := true, rc, q, 0;
      InsertedNothing(RegionsOf(q));
    } else {
      ok, rc', q', k := ResyncContents(v, s, rc, extents, q, it);
    }
  }

  ghost predicate AllSound(v: Config, items: seq<Item>) {
    forall i :: 0 <= i < |items| ==> Sound(v, items[i])
  }

  /** The end of the file after the first n sections. */
  ghost function EndAfter(v: Config, items: seq<Item>, rc: nat, n: nat): nat
    requires n <= |items| && AllSound(v, items)
  {
    if n == 0 then rc else ItemEnd(v, items[n - 1], EndAfter(v, items, rc, n - 1))
  }

  lemma {:induction false} EndGrows(v: Config, items: seq<Item>, rc: nat, n: nat, m: nat)
    requires n <= m <= |items| && AllSound(v, items)
    ensures EndAfter(v, items, rc, n) <= EndAfter(v, items, rc, m)
    decreases m
  {
    if n < m {
      EndGrows(v, items, rc, n, m - 1);
    }
  }

  /** The regions of the first n sections. */
  ghost function Regions(v: Config, secs: seq<Scn?>, items: seq<Item>, rc: nat, n: nat): seq<Region>
    requires n <= |items| == |secs| && AllSound(v, items)
  {
    if n == 0 then []
    else Regions(v, secs, items, rc, n - 1) + ItemRegion(v, secs[n - 1], items[n - 1], EndAfter(v, items, rc, n - 1))
  }

  /** The first n sections can be laid out, in a file that has the regions r already. */
  ghost predicate Good(v: Config, r: seq<Region>, secs: seq<Scn?>, items: seq<Item>, rc: nat, n: nat)
    requires n <= |items| == |secs| && AllSound(v, items)
  {
    (forall i :: 0 <= i < n ==> !items[i].Bad?) && Disjoint(r + Regions(v, secs, items, rc, n))
  }

  lemma DisjointSnoc(r: seq<Region>, x: Region)
    ensures Disjoint(r + [x]) <==> Disjoint(r) && NoneClash(r, x)
  {
    var q := r + [x];
    if Disjoint(q) {
      assert forall i :: 0 <= i < |r| ==> q[i] == r[i];
      assert forall i :: 0 <= i < |r| ==> !Clash(q[i], q[|r|]);
    }
  }

  lemma GoodStep(v: Config, r: seq<Region>, secs: seq<Scn>, items: seq<Item>, rc: nat, n: nat)
    requires n < |items| == |secs| && AllSound(v, items)
    ensures Good(v, r, secs, items, rc, n + 1) <==>
            && Good(v, r, secs, items, rc, n) && !items[n].Bad?
            && forall x <- ItemRegion(v, secs[n], items[n], EndAfter(v, items, rc, n)) ::
                 NoneClash(r + Regions(v, secs, items, rc, n), x)
  {
    var a, b := r + Regions(v, secs, items, rc, n), ItemRegion(v, secs[n], items[n], EndAfter(v, items, rc, n));
    assert r + Regions(v, secs, items, rc, n + 1) == a + b;
    DisjointMore(a, b);
    assert (forall i :: 0 <= i < n + 1 ==> !items[i].Bad?) <==>
           (forall i :: 0 <= i < n ==> !items[i].Bad?) && !items[n].Bad?;
  }

  lemma DisjointMore(a: seq<Region>, b: seq<Region>)
    requires |b| <= 1
    ensures Disjoint(a + b) <==> Disjoint(a) && forall x <- b :: NoneClash(a, x)
  {
    if b == [] {
      assert a + b == a;
    } else {
      assert b == [b[0]] && b[0] in b;
      DisjointSnoc(a, b[0]);
    }
  }

  lemma {:induction false} GoodPrefix(v: Config, r: seq<Region>, secs: seq<Scn>, items: seq<Item>, rc: nat, n: nat,
      m: nat)
    requires n <= m <= |items| == |secs| && AllSound(v, items)
    ensures Good(v, r, secs, items, rc, m) ==> Good(v, r, secs, items, rc, n)
    decreases m
  {
    if n < m {
      GoodStep(v, r, secs, items, rc, m - 1);
      GoodPrefix(v, r, secs, items, rc, n, m - 1);
    }
  }

  lemma SameClashes(a: seq<Region>, b: seq<Region>, x: Region)
    requires multiset(a) == multiset(b)
    ensures NoneClash(a, x) <==> NoneClash(b, x)
  {
    forall i | 0 <= i < |a| ensures exists j :: 0 <= j < |b| && b[j] == a[i] {
      assert a[i] in multiset(b);
    }
    forall i | 0 <= i < |b| ensures exists j :: 0 <= j < |a| && a[j] == b[i] {
      assert b[i] in multiset(a);
    }
  }

  /** Section i still is as it was when the items were determined. */
  ghost predicate Pending(v: Config, s: Scn, it: Item)
    reads s`shdr, s`dirty, s`data, s`rawoff, s.data
  {
    Linked(s) && ItemNow(v, s) == it
  }

  /** Section s was dealt with when the file ended at rc. */
  ghost predicate Dealt(v: Config, s: Scn, it: Item, rc: nat)
    requires Sound(v, it)
    reads s`shdr, s`size, s`offset, s`rawoff, s`data, s.data
  {
    && Linked(s) && !it.Bad?
    && (it.Put? ==> Placed(v, s, it.h, it.p, Start(v, it.h, it.p, rc)) && s.rawoff == it.rawoff)
    && (it.Skip? ==> s.shdr == it.h)
  }

  lemma Separate(x: Scn, s: Scn)
    requires Linked(x) && Linked(s) && x != s
    ensures forall d <- x.data :: d !in s.data
  {
  }

  lemma Consecutive(tree: ScnTree, n: nat)
    requires tree.Valid() && n < |InOrder(tree.shape)|
    ensures InOrder(tree.shape)[n] in Nodes(tree.shape)
    ensures Follower(InOrder(tree.shape), InOrder(tree.shape)[n]) ==
            if n + 1 < |InOrder(tree.shape)| then InOrder(tree.shape)[n + 1] else null
    ensures Others(InOrder(tree.shape), n)
  {
    var q := InOrder(tree.shape);
    BstIffAscending(tree.shape);
    InOrderNodes(tree.shape);
    AscendingDistinct(q, n);
    SplitAt(q, n);
    FollowerAt(q[..n], q[n], q[n + 1..]);
  }

  /** Section n is in the sequence once. */
  ghost predicate Others(q: seq<Scn>, n: nat)
    requires n < |q|
  {
    forall i :: 0 <= i < |q| && i != n ==> q[i] != q[n]
  }

  lemma AscendingDistinct(q: seq<Scn>, n: nat)
    requires Ascending(q) && n < |q|
    ensures Others(q, n) && q[n] !in q[..n]
  {
    forall i | 0 <= i < |q| && i != n ensures q[i] != q[n] {
      assert if i < n then q[i].ndx < q[n].ndx else q[n].ndx < q[i].ndx;
    }
  }

  lemma SplitAt(q: seq<Scn>, n: nat)
    requires n < |q|
    ensures q == q[..n] + [q[n]] + q[n + 1..]
  {
  }

  /** The sections from n on are as they were, those before it are laid out. */
  ghost predicate Progress(v: Config, secs: seq<Scn>, items: seq<Item>, rc0: nat, n: nat)
    requires n <= |secs| == |items| && AllSound(v, items)
    reads secs, Datas(secs)
  {
    && (forall i :: n <= i < |secs| ==> assert DatasOf(secs, i); Pending(v, secs[i], items[i]))
    && (forall i :: 0 <= i < n ==> assert DatasOf(secs, i); Dealt(v, secs[i], items[i], EndAfter(v, items, rc0, i)))
  }

  ghost function Datas(secs: seq<Scn>): set<Data>
    reads secs
  {
    set i: int, d: Data | 0 <= i < |secs| && d in secs[i].data :: d
  }

  ghost predicate DatasOf(secs: seq<Scn>, i: nat)
    requires i < |secs|
    reads secs
  {
    forall d <- secs[i].data :: d in Datas(secs)
  }

  /** Section s can be laid out after rc, in a file that has the extents q already. */
  ghost predicate Possible(v: Config, s: Scn, it: Item, rc: nat, q: seq<Extent>)
    requires Sound(v, it)
  {
    !it.Bad? && forall x <- ItemRegion(v, s, it, rc) :: NoneClash(RegionsOf(q), x)
  }

  /** All sections but one are left alone when that one is laid out. */
  method ResyncAt(v: Config, s: Scn, rc: nat, extents: ExtentList, ghost n: nat,
                  ghost secs: seq<Scn>, ghost items: seq<Item>, ghost rc0: nat, ghost q: seq<Extent>)
    returns (ok: bool, rc': nat, ghost q': seq<Extent>, ghost k: nat)
    requires n < |secs| == |items| && s == secs[n] && AllSound(v, items) && Others(secs, n)
    requires Progress(v, secs, items, rc0, n) && rc == EndAfter(v, items, rc0, n)
    requires extents.Lists(q) && Ordered(q) && EndAfter(v, items, rc0, n + 1) < UINT64_LIMIT
    modifies s`shdr, s`size, s`offset, s`data, (set d | d in s.data)`off, extents, (set x | x in q)`next
    ensures ok <==> Possible(v, s, items[n], rc, q)
    ensures ok ==> extents.Lists(q') && Ordered(q') && (forall x <- q' :: x in q || fresh(x))
    ensures ok ==> k <= |q| && RegionsOf(q') == RegionsOf(q)[..k] + ItemRegion(v, s, items[n], rc) + RegionsOf(q)[k..]
    ensures ok ==> rc' == EndAfter(v, items, rc0, n + 1) && (rc == End(q) ==> rc' == End(q'))
    ensures ok ==> Progress(v, secs, items, rc0, n + 1)
  {
    hide Placed, PlanNow, Ordered, End, RegionsOf, NoneClash, ItemRegion;
    forall i | 0 <= i < |secs| && i != n ensures forall d <- secs[i].data :: d !in s.data {
      Separate(secs[i], s);
    }
    ok, rc', q', k := ResyncSection(v, s, rc, extents, q, items[n]);
  }

  lemma Spliced(r: seq<Region>, k: nat, b: seq<Region>, a: seq<Region>)
    requires k <= |r| && multiset(r) == multiset(a)
    ensures multiset(r[..k] + b + r[k..]) == multiset(a + b)
  {
    assert r == r[..k] + r[k..];
  }

  /** One more section can be laid out when it does not clash with any region there is. */
  lemma GoodNext(v: Config, r0: seq<Region>, secs: seq<Scn>, items: seq<Item>, rc: nat, n: nat, r: seq<Region>)
    requires n < |items| == |secs| && AllSound(v, items) && Good(v, r0, secs, items, rc, n)
    requires multiset(r) == multiset(r0 + Regions(v, secs, items, rc, n))
    ensures Good(v, r0, secs, items, rc, n + 1) <==>
            !items[n].Bad? && forall x <- ItemRegion(v, secs[n], items[n], EndAfter(v, items, rc, n)) :: NoneClash(r, x)
  {
    GoodStep(v, r0, secs, items, rc, n);
    forall x <- ItemRegion(v, secs[n], items[n], EndAfter(v, items, rc, n))
      ensures NoneClash(r, x) <==> NoneClash(r0 + Regions(v, secs, items, rc, n), x)
    {
      SameClashes(r, r0 + Regions(v, secs, items, rc, n), x);
    }
  }

  lemma RegionsNext(v: Config, r0: seq<Region>, secs: seq<Scn>, items: seq<Item>, rc: nat, n: nat, r: seq<Region>,
      k: nat)
    requires n < |items| == |secs| && AllSound(v, items) && k <= |r|
    requires multiset(r) == multiset(r0 + Regions(v, secs, items, rc, n))
    ensures multiset(r[..k] + ItemRegion(v, secs[n], items[n], EndAfter(v, items, rc, n)) + r[k..]) ==
            multiset(r0 + Regions(v, secs, items, rc, n + 1))
  {
    var a, b := Regions(v, secs, items, rc, n), ItemRegion(v, secs[n], items[n], EndAfter(v, items, rc, n));
    Spliced(r, k, b, r0 + a);
    assert r0 + a + b == r0 + (a + b);
  }

  /** The regions of the list are those of r0 and of the first n sections. */
  ghost predicate Collected(v: Config, secs: seq<Scn>, items: seq<Item>, rc0: nat, n: nat, r0: seq<Region>,
      q: seq<Extent>)
    requires n <= |secs| == |items| && AllSound(v, items)
  {
    && Ordered(q) && Good(v, r0, secs, items, rc0, n)
    && multiset(RegionsOf(q)) == multiset(r0 + Regions(v, secs, items, rc0, n))
  }

  lemma CollectedCheck(v: Config, secs: seq<Scn>, items: seq<Item>, rc0: nat, n: nat, r0: seq<Region>, q: seq<Extent>)
    requires n < |secs| == |items| && AllSound(v, items) && Collected(v, secs, items, rc0, n, r0, q)
    ensures Possible(v, secs[n], items[n], EndAfter(v, items, rc0, n), q) <==> Good(v, r0, secs, items, rc0, n + 1)
    ensures Ordered(q)
  {
    GoodNext(v, r0, secs, items, rc0, n, RegionsOf(q));
  }

  lemma CollectedNext(v: Config, secs: seq<Scn>, items: seq<Item>, rc0: nat, n: nat, r0: seq<Region>,
                      q: seq<Extent>, k: nat, q': seq<Extent>)
    requires n < |secs| == |items| && AllSound(v, items) && Collected(v, secs, items, rc0, n, r0, q)
    requires Good(v, r0, secs, items, rc0, n + 1) && k <= |q| && Ordered(q')
    requires RegionsOf(q') ==
             RegionsOf(q)[..k] + ItemRegion(v, secs[n], items[n], EndAfter(v, items, rc0, n)) + RegionsOf(q)[k..]
    ensures Collected(v, secs, items, rc0, n + 1, r0, q')
  {
    RegionsNext(v, r0, secs, items, rc0, n, RegionsOf(q), k);
  }

  /** One turn of the loop over the sections. */
  method ResyncNext(v: Config, tree: ScnTree, s: Scn, rc: nat, extents: ExtentList, ghost n: nat, ghost secs: seq<Scn>,
                    ghost items: seq<Item>, ghost rc0: nat, ghost r0: seq<Region>, ghost q: seq<Extent>)
    returns (ok: bool, next: Scn?, rc': nat, ghost q': seq<Extent>)
    requires tree.Valid() && secs == InOrder(tree.shape) && |items| == |secs| && AllSound(v, items)
    requires n < |secs| && s == secs[n] && rc == EndAfter(v, items, rc0, n)
    requires EndAfter(v, items, rc0, n + 1) < UINT64_LIMIT
    requires Progress(v, secs, items, rc0, n) && Collected(v, secs, items, rc0, n, r0, q) && extents.Lists(q)
    modifies s`shdr, s`size, s`offset, s`data, (set d | d in s.data)`off, extents, (set x | x in q)`next
    ensures tree.Valid()
    ensures ok <==> Good(v, r0, secs, items, rc0, n + 1)
    ensures ok ==> Progress(v, secs, items, rc0, n + 1) && extents.Lists(q')
    ensures ok ==> Collected(v, secs, items, rc0, n + 1, r0, q')
    ensures ok ==> rc' == EndAfter(v, items, rc0, n + 1) && (rc == End(q) ==> rc' == End(q'))
    ensures ok ==> (forall x <- q' :: x in q || fresh(x))
    ensures ok ==> next == if n + 1 < |secs| then secs[n + 1] else null
  {
    hide PlanOf, PlanNow, ItemNow, Sound, Placed, Linked, Dealt, Pending, Progress, Collected, Good, Disjoint,
      NoneClash, Regions, EndAfter, Possible, ItemRegion, ItemEnd, ScnTree.Valid, Rep, Bst, Datas, Ordered, End,
      RegionsOf, InOrder;
    NodesIn(tree, secs);
    Consecutive(tree, n);
    CollectedCheck(v, secs, items, rc0, n, r0, q);
    ghost var k;
    ok, rc', q', k := ResyncAt(v, s, rc, extents, n, secs, items, rc0, q);
    if !ok {
      return false, null, rc, q;
    }
    CollectedNext(v, secs, items, rc0, n, r0, q, k, q');
    DatasExist(secs);
    next := tree.Next(s);
  }

  /** _libelf_resync_sections: it succeeds exactly when every section with file contents can be laid out and the regions
      of the sections and of what is in the file already are disjoint. */
  method ResyncSections(v: Config, tree: ScnTree, rc0: nat, extents: ExtentList,
                        ghost secs: seq<Scn>, ghost items: seq<Item>, ghost q0: seq<Extent>)
    returns (ok: bool, rc: nat, ghost q: seq<Extent>)
    requires tree.Valid() && secs == InOrder(tree.shape) && |items| == |secs| && AllSound(v, items)
    requires Progress(v, secs, items, rc0, 0) && extents.Lists(q0) && Ordered(q0)
    requires EndAfter(v, items, rc0, |secs|) < UINT64_LIMIT
    modifies (set s | s in secs)`shdr, (set s | s in secs)`size, (set s | s in secs)`offset, (set s | s in secs)`data
    modifies Datas(secs)`off, extents, (set x | x in q0)`next
    ensures tree.Valid()
    ensures ok <==> Good(v, RegionsOf(q0), secs, items, rc0, |secs|)
    ensures ok ==> Progress(v, secs, items, rc0, |secs|) && rc == EndAfter(v, items, rc0, |secs|)
    ensures ok ==> Collected(v, secs, items, rc0, |secs|, RegionsOf(q0), q) && extents.Lists(q)
    ensures ok ==> forall x <- q :: x in q0 || fresh(x)
    ensures ok && rc0 == End(q0) ==> rc == End(q)
  {
    hide PlanOf, PlanNow, ItemNow, Placed, Linked, Dealt, Pending, Progress, Collected, Good, Disjoint, NoneClash,
      Regions, EndAfter, ScnTree.Valid, Rep, Bst, Ordered, End, RegionsOf, InOrder, AllSound, Sound, Nodes;
    ghost var n, r0 := 0, RegionsOf(q0);
    NodesIn(tree, secs);
    DatasExist(secs);
    CollectedFirst(v, secs, items, rc0, q0);
    ok, rc, q := true, rc0, q0;
    var s := tree.MinMax(-1);
    FirstOf(secs);
    while s != null
      invariant tree.Valid() && unchanged(tree) && n <= |secs| && s == (if n < |secs| then secs[n] else null)
      invariant Progress(v, secs, items, rc0, n) && Collected(v, secs, items, rc0, n, r0, q) && extents.Lists(q)
      invariant forall i :: n <= i < |secs| ==> secs[i].data == old(secs[i].data)
      invariant ok && rc == EndAfter(v, items, rc0, n) && (rc0 == End(q0) ==> rc == End(q))
      invariant forall x <- q :: x in q0 || fresh(x)
      decreases |secs| - n
    {
      assert forall d <- secs[n].data :: d in old(Datas(secs)) by {
        assert old(DatasOf(secs, n));
      }
      Once(tree, n);
      EndGrows(v, items, rc0, n + 1, |secs|);
      ok, s, rc, q := ResyncNext(v, tree, s, rc, extents, n, secs, items, rc0, r0, q);
      if !ok {
        GoodPrefix(v, r0, secs, items, rc0, n + 1, |secs|);
        return;
      }
      n := n + 1;
    }
    CollectedGood(v, secs, items, rc0, n, r0, q);
  }

  lemma CollectedGood(v: Config, secs: seq<Scn>, items: seq<Item>, rc0: nat, n: nat, r0: seq<Region>, q: seq<Extent>)
    requires n <= |secs| == |items| && AllSound(v, items) && Collected(v, secs, items, rc0, n, r0, q)
    ensures Good(v, r0, secs, items, rc0, n)
  {
  }

  lemma CollectedFirst(v: Config, secs: seq<Scn>, items: seq<Item>, rc0: nat, q0: seq<Extent>)
    requires |secs| == |items| && AllSound(v, items) && Ordered(q0)
    ensures Collected(v, secs, items, rc0, 0, RegionsOf(q0), q0) && EndAfter(v, items, rc0, 0) == rc0
  {
    forall i, j | 0 <= i < j < |q0| ensures !Clash(RegionsOf(q0)[i], RegionsOf(q0)[j]) {
    }
    assert RegionsOf(q0) + [] == RegionsOf(q0);
  }

  lemma FirstOf(q: seq<Scn>)
    ensures First(q) == if 0 < |q| then q[0] else null
  {
  }

  lemma Once(tree: ScnTree, n: nat)
    requires tree.Valid() && n < |InOrder(tree.shape)|
    ensures forall i :: 0 <= i < |InOrder(tree.shape)| && i != n ==> InOrder(tree.shape)[i] != InOrder(tree.shape)[n]
  {
    Consecutive(tree, n);
  }

  lemma DatasExist(secs: seq<Scn>)
    ensures forall d <- Datas(secs) :: allocated(d)
  {
  }

  lemma NodesIn(tree: ScnTree, secs: seq<Scn>)
    requires secs == InOrder(tree.shape)
    ensures (forall x <- Nodes(tree.shape) :: x in secs) && forall x <- secs :: x in Nodes(tree.shape)
  {
    InOrderNodes(tree.shape);
  }

  // ---------- What library layout guarantees ----------

  ghost predicate Below(r: seq<Region>, rc: nat) {
    forall i :: 0 <= i < |r| ==> r[i].start + r[i].size <= rc
  }

  /** The regions follow one another in the file. */
  ghost predicate Chained(r: seq<Region>) {
    forall i, j :: 0 <= i < j < |r| ==> r[i].start + r[i].size <= r[j].start
  }

  ghost predicate NonEmpty(r: seq<Region>) {
    forall i :: 0 <= i < |r| ==> r[i].size > 0
  }

  lemma ChainedSnoc(r: seq<Region>, x: Region, rc: nat)
    requires Chained(r) && Below(r, rc) && rc <= x.start
    ensures Chained(r + [x]) && Below(r + [x], x.start + x.size)
  {
  }

  /** One more section. */
  lemma LibraryNext(v: Config, r: seq<Region>, s: Scn?, it: Item, rc: nat)
    requires !v.layout && Sound(v, it) && Chained(r) && Below(r, rc) && NonEmpty(r)
    ensures Chained(r + ItemRegion(v, s, it, rc)) && NonEmpty(r + ItemRegion(v, s, it, rc))
    ensures Below(r + ItemRegion(v, s, it, rc), ItemEnd(v, it, rc)) && rc <= ItemEnd(v, it, rc)
  {
    hide Chained, Below, RoundUp;
    var b := ItemRegion(v, s, it, rc);
    if b == [] {
      assert r + b == r;
    } else {
      RoundUpFacts(rc, it.p.align);
      ChainedSnoc(r, b[0], rc);
      assert b == [b[0]];
    }
  }

  /** When the library lays out the sections after everything else, they come in index order, one after the other. */
  lemma {:induction false} LibraryChained(v: Config, r0: seq<Region>, secs: seq<Scn?>, items: seq<Item>, rc: nat,
      n: nat)
    requires !v.layout && n <= |secs| == |items| && AllSound(v, items)
    requires Chained(r0) && Below(r0, rc) && NonEmpty(r0)
    ensures Chained(r0 + Regions(v, secs, items, rc, n)) && NonEmpty(r0 + Regions(v, secs, items, rc, n))
    ensures Below(r0 + Regions(v, secs, items, rc, n), EndAfter(v, items, rc, n)) && rc <= EndAfter(v, items, rc, n)
  {
    hide Chained, Below, NonEmpty, Sound, ItemRegion, ItemEnd;
    if n == 0 {
      assert r0 + [] == r0;
    } else {
      LibraryChained(v, r0, secs, items, rc, n - 1);
      var a, e := Regions(v, secs, items, rc, n - 1), EndAfter(v, items, rc, n - 1);
      LibraryNext(v, r0 + a, secs[n - 1], items[n - 1], e);
      Associative(r0, a, ItemRegion(v, secs[n - 1], items[n - 1], e));
    }
  }

  /** In library layout the sections never overlap anything: only a section that has no plan makes the layout fail. */
  lemma LibraryNeverOverlaps(v: Config, r0: seq<Region>, secs: seq<Scn?>, items: seq<Item>, rc: nat)
    requires !v.layout && |secs| == |items| && AllSound(v, items)
    requires Chained(r0) && Below(r0, rc) && NonEmpty(r0)
    ensures Good(v, r0, secs, items, rc, |secs|) <==> forall i :: 0 <= i < |secs| ==> !items[i].Bad?
  {
    LibraryChained(v, r0, secs, items, rc, |secs|);
    ChainedDisjoint(r0 + Regions(v, secs, items, rc, |secs|));
  }

  lemma ChainedDisjoint(r: seq<Region>)
    requires Chained(r)
    ensures Disjoint(r)
  {
  }

  lemma SameHead(a: seq<Region>, b: seq<Region>, i: nat, j: nat)
    requires Chained(a) && Chained(b) && NonEmpty(a) && NonEmpty(b)
    requires i < |a| && j < |b| && b[j] == a[0] && a[i] == b[0]
    ensures a[0] == b[0]
  {
  }

  lemma SameTail(a: seq<Region>, b: seq<Region>)
    requires a != [] && b != [] && a[0] == b[0] && multiset(a) == multiset(b)
    ensures multiset(a[1..]) == multiset(b[1..])
  {
    assert a == [a[0]] + a[1..] && b == [b[0]] + b[1..];
    assert multiset(a[1..]) == multiset(a) - multiset{a[0]};
    assert multiset(b[1..]) == multiset(b) - multiset{b[0]};
  }

  lemma IndexIn(a: seq<Region>, x: Region) returns (i: nat)
    requires x in multiset(a)
    ensures i < |a| && a[i] == x
  {
    i :| 0 <= i < |a| && a[i] == x;
  }

  /** There is only one way to chain given nonempty regions. */
  lemma {:induction false} ChainUnique(a: seq<Region>, b: seq<Region>)
    requires Chained(a) && Chained(b) && NonEmpty(a) && NonEmpty(b) && multiset(a) == multiset(b)
    ensures a == b
    decreases |a|
  {
    assert |a| == |multiset(a)| && |b| == |multiset(b)|;
    if a != [] {
      var i := IndexIn(a, b[0]);
      var j := IndexIn(b, a[0]);
      SameHead(a, b, i, j);
      SameTail(a, b);
      ChainUnique(a[1..], b[1..]);
      assert a == [a[0]] + a[1..] && b == [b[0]] + b[1..];
    }
  }
}
