/** Laying out a whole ELF object: _libelf_resync_elf of elf_update.c. */
module Resync {
  import opened Basics
  import opened Codec
  import opened Section
  import opened RbShape
  import opened RbTree
  import opened Extended
  import opened ElfObject
  import opened Placement
  import opened Extents
  import opened Layout

  // ---------- The executable header ----------

  const OFF_T_LIMIT: nat := 0x8000_0000_0000_0000

  /** The checks on the executable header. */
  predicate HeaderOk(m: Mode, byteorder: nat, h: Ehdr) {
    && |h.ident| == EI_NIDENT && h.phoff < OFF_T_LIMIT && h.shoff < OFF_T_LIMIT
    && (h.version == 0 || h.version == EV_CURRENT)
    && h.ident[EI_CLASS] == ClassCode(m.c)
    && (m.write || h.ident[EI_DATA] as nat == byteorder)
  }

  /** INITIALIZE_EHDR. */
  function Initialized(c: Class, fmt: Format, h: Ehdr, phnum: nat): Ehdr
    requires |h.ident| == EI_NIDENT
  {
    h.(ident := [0x7f, 0x45, 0x4c, 0x46, ClassCode(c), h.ident[5], 1] + h.ident[7..], ehsize := EhdrSize(c),
       phentsize := if phnum == 0 then 0 else Fsize(fmt, c, ELF_T_PHDR) % 0x1_0000, shentsize := ShdrSize(c))
  }

  /** The alignment of the program header table and of the section header table. */
  function TableAlign(c: Class): nat {
    Falign(ELF_T_PHDR, c)
  }

  function PhdrSize(v: Config, phnum: nat): nat {
    Fsize(v.fmt, v.m.c, ELF_T_PHDR) * phnum
  }

  /** _libelf_getphdr: the program header table that is at hand or, if there is none, the one in the file where the
      executable header h says it is. */
  function PhdrTable(v: Config, h: Ehdr, phnum: nat, phdr: Option<seq<byte>>): Option<seq<byte>> {
    var o := OrderOf(v.byteorder, v.m.native);
    if phdr != None then phdr
    else if v.m.write || h.phoff + PhdrSize(v, phnum) > |v.raw| || Msize(v.fmt, v.m.c, ELF_T_PHDR) == 0 then None
    else ToMemory(v.fmt, v.m.c, o, ELF_T_PHDR, v.raw[h.phoff..h.phoff + PhdrSize(v, phnum)])
  }

  function EhdrRegion(c: Class): Region {
    Region(0, EhdrSize(c), EhdrExtent, null)
  }

  /** Where the program header table goes. */
  function PhdrStart(v: Config, h: Ehdr): nat {
    if v.layout then h.phoff else RoundUp(EhdrSize(v.m.c), TableAlign(v.m.c))
  }

  /** In application layout, the place that the application chose for the program header table is possible. */
  predicate PhdrOk(v: Config, h: Ehdr, phnum: nat) {
    v.layout && phnum != 0 ==> EhdrSize(v.m.c) <= h.phoff && h.phoff % TableAlign(v.m.c) == 0
  }

  /** The regions before the sections, and where they end. */
  function Leading(v: Config, h: Ehdr, phnum: nat): seq<Region> {
    [EhdrRegion(v.m.c)] + (if phnum == 0 then [] else [Region(PhdrStart(v, h), PhdrSize(v, phnum), PhdrExtent, null)])
  }

  function LeadingEnd(v: Config, h: Ehdr, phnum: nat): nat {
    if phnum == 0 then EhdrSize(v.m.c) else PhdrStart(v, h) + PhdrSize(v, phnum)
  }

  lemma ChainedRegions(q: seq<Extent>)
    requires Ordered(q)
    ensures Chained(RegionsOf(q))
  {
    forall i, j | 0 <= i < j < |q| ensures RegionsOf(q)[i].start + RegionsOf(q)[i].size <= RegionsOf(q)[j].start {
    }
  }

  lemma AfterX(a: seq<Region>, x: Region, b: seq<Region>)
    requires Chained(a + [x] + b)
    ensures b == [] || x.start + x.size <= b[0].start
  {
    var p := a + [x] + b;
    if b != [] {
      assert p[|a|] == x && p[|a| + 1] == b[0];
    }
  }

  lemma TailBelow(r: seq<Region>, k: nat, n: nat)
    requires Below(r, n) && NonEmpty(r) && k <= |r|
    ensures r[k..] == [] || (r[k..][0].start + r[k..][0].size <= n && r[k..][0].size > 0)
  {
  }

  /** An extent that starts where all others have ended goes last. */
  lemma GoesLast(q: seq<Extent>, r: seq<Region>, x: Region, k: nat)
    requires Ordered(q) && k <= |r| && RegionsOf(q) == r[..k] + [x] + r[k..]
    requires Below(r, x.start) && NonEmpty(r) && x.size > 0
    ensures RegionsOf(q) == r + [x]
  {
    ChainedRegions(q);
    AfterX(r[..k], x, r[k..]);
    TailBelow(r, k, x.start);
    assert r[k..] == [];
    assert r[..k] == r;
  }

  /** Insertion at the end always succeeds. */
  method AppendRegion(extents: ExtentList, kind: Kind, start: nat, size: nat, ghost q: seq<Extent>)
    returns (ok: bool, ghost q': seq<Extent>)
    requires extents.Lists(q) && Ordered(q) && Below(RegionsOf(q), start) && NonEmpty(RegionsOf(q)) && size > 0
    requires start + size < UINT64_LIMIT
    modifies extents, (set x | x in q)`next
    ensures ok && extents.Lists(q') && Ordered(q') && (forall x <- q' :: x in q || fresh(x))
    ensures RegionsOf(q') == RegionsOf(q) + [Region(start, size, kind, null)] && End(q') == Max(End(q), start + size)
  {
    ghost var k;
    ok, q', k := InsertRegion(extents, kind, start, size, null, q);
    GoesLast(q', RegionsOf(q), Region(start, size, kind, null), k);
  }

  ghost predicate Configured(v: Config, e: Elf)
    reads e`byteorder
  {
    v.m == e.mode && v.raw == e.raw && v.byteorder == e.byteorder && Fsize(v.fmt, v.m.c, ELF_T_PHDR) > 0
  }

  /** _libelf_getphdr, on a descriptor whose executable header was read. */
  method GetPhdr(e: Elf, v: Config)
    requires e.ehdr != None && Configured(v, e)
    modifies e`phdr
    ensures e.phdr == PhdrTable(v, e.ehdr.value, e.nphdr, old(e.phdr))
  {
    if e.phdr != None || v.m.write {
      return;
    }
    var phoff, fsz := e.ehdr.value.phoff, PhdrSize(v, e.nphdr);
    if |v.raw| < phoff + fsz || Msize(v.fmt, v.m.c, ELF_T_PHDR) == 0 {
      return;
    }
    e.phdr := ToMemory(v.fmt, v.m.c, OrderOf(v.byteorder, v.m.native), ELF_T_PHDR, v.raw[phoff..phoff + fsz]);
  }

  /** The extents of the executable header and of the program header table. The table itself is brought in while the
      header still says where it is. */
  method ResyncHeaders(e: Elf, v: Config, extents: ExtentList)
    returns (ok: bool, rc: nat, phoff: nat, ghost q: seq<Extent>)
    requires e.ehdr != None && extents.Lists([]) && Configured(v, e)
    requires LeadingEnd(v, e.ehdr.value, e.nphdr) < OFF_T_LIMIT
    modifies extents, e`phdr
    ensures ok <==> PhdrOk(v, e.ehdr.value, e.nphdr)
    ensures ok ==> extents.Lists(q) && Ordered(q) && (forall x <- q :: fresh(x))
    ensures ok ==> RegionsOf(q) == Leading(v, e.ehdr.value, e.nphdr)
    ensures ok ==> rc == LeadingEnd(v, e.ehdr.value, e.nphdr) == End(q)
    ensures ok ==> phoff == PhdrOffset(v, e.ehdr.value, e.nphdr)
    ensures ok ==> e.phdr == if e.nphdr == 0 then old(e.phdr) else PhdrTable(v, e.ehdr.value, e.nphdr, old(e.phdr))
  {
    rc, q := EhdrSize(v.m.c), [];
    ok, q := AppendRegion(extents, EhdrExtent, 0, rc, q);
    assert RegionsOf([]) + [EhdrRegion(v.m.c)] == [EhdrRegion(v.m.c)];
    phoff := 0;
    if e.nphdr != 0 {
      var fsz := PhdrSize(v, e.nphdr);
      var align := TableAlign(v.m.c);
      phoff := e.ehdr.value.phoff;
      if v.layout {
        if rc > phoff || phoff % align != 0 {
          ok := false;
          return;
        }
      } else {
        phoff := RoundUp(rc, align);
      }
      rc := phoff + fsz;
      GetPhdr(e, v);
      RoundUpFacts(EhdrSize(v.m.c), align);
      ok, q := AppendRegion(extents, PhdrExtent, phoff, fsz, q);
    }
  }

  function PhdrOffset(v: Config, h: Ehdr, phnum: nat): nat {
    if phnum == 0 then 0 else PhdrStart(v, h)
  }

  // ---------- The section header table ----------

  /** The region of the section header table after everything that ends at rc. */
  function ShdrStart(v: Config, h: Ehdr, rc: nat): nat {
    if v.layout then h.shoff else RoundUp(rc, TableAlign(v.m.c))
  }

  function Trailing(v: Config, h: Ehdr, shnum: nat, rc: nat): seq<Region> {
    if shnum == 0 then [] else [Region(ShdrStart(v, h, rc), ShdrSize(v.m.c) * shnum, ShdrExtent, null)]
  }

  function TrailingEnd(v: Config, h: Ehdr, shnum: nat, rc: nat): nat {
    if shnum == 0 then rc else Max(rc, ShdrStart(v, h, rc) + ShdrSize(v.m.c) * shnum)
  }

  predicate ShdrOk(v: Config, h: Ehdr, shnum: nat) {
    v.layout && shnum != 0 ==> h.shoff % TableAlign(v.m.c) == 0
  }

  /** The section header table can be put after rc, in a file that has the regions r already. */
  ghost predicate ShdrPossible(v: Config, h: Ehdr, shnum: nat, rc: nat, r: seq<Region>) {
    ShdrOk(v, h, shnum) && forall x <- Trailing(v, h, shnum, rc) :: NoneClash(r, x)
  }

  /** The extent of the section header table. */
  method ResyncShdr(v: Config, h: Ehdr, shnum: nat, rc: nat, extents: ExtentList, ghost q: seq<Extent>)
    returns (ok: bool, rc': nat, shoff: nat, ghost q': seq<Extent>, ghost k: nat)
    requires extents.Lists(q) && Ordered(q) && rc == End(q) && TrailingEnd(v, h, shnum, rc) < OFF_T_LIMIT
    modifies extents, (set x | x in q)`next
    ensures ok <==> ShdrPossible(v, h, shnum, rc, RegionsOf(q))
    ensures ok ==> extents.Lists(q') && Ordered(q') && (forall x <- q' :: x in q || fresh(x))
    ensures ok ==> rc' == End(q') == TrailingEnd(v, h, shnum, rc)
    ensures ok ==> k <= |q| && RegionsOf(q') == RegionsOf(q)[..k] + Trailing(v, h, shnum, rc) + RegionsOf(q)[k..]
    ensures ok ==> shoff == if shnum == 0 then 0 else ShdrStart(v, h, rc)
  {
    hide RoundUp, Ordered, ShdrSize, NoneClash, End, RegionsOf;
    ok, rc', shoff, q', k := true, rc, 0, q, 0;
    if shnum == 0 {
      assert RegionsOf(q)[..0] + [] + RegionsOf(q)[0..] == RegionsOf(q);
      return;
    }
    var fsz := ShdrSize(v.m.c) * shnum;
    var align := TableAlign(v.m.c);
    shoff := h.shoff;
    if v.layout {
      if shoff % align != 0 {
        ok := false;
        return;
      }
    } else {
      shoff := RoundUp(rc, align);
    }
    if shoff + fsz > rc {
      rc' := shoff + fsz;
    }
    ok, q', k := InsertRegion(extents, ShdrExtent, shoff, fsz, null, q);
  }

  // ---------- The whole layout, as functions of what it starts from ----------

  function Nobody(n: nat): seq<Scn?> {
    seq(n, i => null)
  }

  /** The end of the sections. */
  ghost function BodyEnd(v: Config, h: Ehdr, phnum: nat, items: seq<Item>): nat
    requires AllSound(v, items)
  {
    EndAfter(v, items, LeadingEnd(v, h, phnum), |items|)
  }

  /** The end of everything: the size of the new file. */
  ghost function TotalEnd(v: Config, h: Ehdr, phnum: nat, shnum: nat, items: seq<Item>): nat
    requires AllSound(v, items)
  {
    TrailingEnd(v, h, shnum, BodyEnd(v, h, phnum, items))
  }

  /** Where the section header table goes. */
  ghost function ShdrOffset(v: Config, h: Ehdr, phnum: nat, shnum: nat, items: seq<Item>): nat
    requires AllSound(v, items)
  {
    if shnum == 0 then 0 else ShdrStart(v, h, BodyEnd(v, h, phnum, items))
  }

  /** All sums stay within their C types: uint64_t for a section, off_t for the tables. */
  ghost predicate InRange(v: Config, h: Ehdr, phnum: nat, shnum: nat, items: seq<Item>)
    requires AllSound(v, items)
  {
    && LeadingEnd(v, h, phnum) < OFF_T_LIMIT && BodyEnd(v, h, phnum, items) < UINT64_LIMIT
    && (BodyEnd(v, h, phnum, items) < OFF_T_LIMIT ==> TotalEnd(v, h, phnum, shnum, items) < OFF_T_LIMIT)
  }

  /** Everything that decides whether the object, with executable header h, can be laid out. Sections that end past the
      largest off_t make the computed size negative. */
  ghost predicate LayoutPossible(v: Config, h: Ehdr, phnum: nat, shnum: nat, items: seq<Item>)
    requires AllSound(v, items)
  {
    var lead, rc, secs := Leading(v, h, phnum), LeadingEnd(v, h, phnum), Nobody(|items|);
    && PhdrOk(v, h, phnum) && Good(v, lead, secs, items, rc, |items|) && BodyEnd(v, h, phnum, items) < OFF_T_LIMIT
    && ShdrPossible(v, h, shnum, BodyEnd(v, h, phnum, items), lead + Regions(v, secs, items, rc, |items|))
  }

  /** All regions of the object, in library layout in the order in which they lie in the file. */
  ghost function AllRegions(v: Config, h: Ehdr, phnum: nat, shnum: nat, secs: seq<Scn?>, items: seq<Item>): seq<Region>
    requires |secs| == |items| && AllSound(v, items)
  {
    var rc := LeadingEnd(v, h, phnum);
    Leading(v, h, phnum) + Regions(v, secs, items, rc, |secs|) + Trailing(v, h, shnum, EndAfter(v, items, rc, |secs|))
  }

  ghost predicate SamePlaces(a: seq<Region>, b: seq<Region>) {
    |a| == |b| && forall i :: 0 <= i < |a| ==> a[i].start == b[i].start && a[i].size == b[i].size
  }

  /** Where the regions are does not depend on the section descriptors. */
  lemma {:induction false} RegionsAnonymous(v: Config, secs: seq<Scn?>, us: seq<Scn?>, items: seq<Item>, rc: nat,
      n: nat)
    requires n <= |items| == |secs| == |us| && AllSound(v, items)
    ensures SamePlaces(Regions(v, secs, items, rc, n), Regions(v, us, items, rc, n))
  {
    if n != 0 {
      RegionsAnonymous(v, secs, us, items, rc, n - 1);
    }
  }

  lemma GoodAnonymous(v: Config, r: seq<Region>, secs: seq<Scn?>, us: seq<Scn?>, items: seq<Item>, rc: nat, x: Region)
    requires |items| == |secs| == |us| && AllSound(v, items)
    ensures Good(v, r, secs, items, rc, |items|) <==> Good(v, r, us, items, rc, |items|)
    ensures NoneClash(r + Regions(v, secs, items, rc, |items|), x) <==>
            NoneClash(r + Regions(v, us, items, rc, |items|), x)
  {
    RegionsAnonymous(v, secs, us, items, rc, |items|);
    var a, b := r + Regions(v, secs, items, rc, |items|), r + Regions(v, us, items, rc, |items|);
    assert SamePlaces(a, b);
    SameDisjoint(a, b, x);
  }

  lemma SameDisjoint(a: seq<Region>, b: seq<Region>, x: Region)
    requires SamePlaces(a, b)
    ensures (Disjoint(a) <==> Disjoint(b)) && (NoneClash(a, x) <==> NoneClash(b, x))
  {
    assert forall i, j :: 0 <= i < j < |a| ==> (Clash(a[i], a[j]) <==> Clash(b[i], b[j]));
    assert forall i :: 0 <= i < |a| ==> (Clash(a[i], x) <==> Clash(b[i], x));
  }

  lemma LeadingChained(v: Config, h: Ehdr, phnum: nat)
    requires Fsize(v.fmt, v.m.c, ELF_T_PHDR) > 0 && PhdrOk(v, h, phnum)
    ensures Chained(Leading(v, h, phnum)) && NonEmpty(Leading(v, h, phnum))
    ensures Below(Leading(v, h, phnum), LeadingEnd(v, h, phnum))
  {
    RoundUpFacts(EhdrSize(v.m.c), TableAlign(v.m.c));
    if phnum != 0 {
      assert PhdrSize(v, phnum) > 0;
    }
  }

  /** The section header table joins the other extents. */
  lemma TablesDone(v: Config, h: Ehdr, phnum: nat, shnum: nat, secs: seq<Scn>, items: seq<Item>,
                   q: seq<Extent>, k: nat, q': seq<Extent>)
    requires |secs| == |items| && AllSound(v, items) && k <= |q|
    requires Collected(v, secs, items, LeadingEnd(v, h, phnum), |secs|, Leading(v, h, phnum), q)
    requires RegionsOf(q') ==
             RegionsOf(q)[..k] + Trailing(v, h, shnum, BodyEnd(v, h, phnum, items)) + RegionsOf(q)[k..]
    ensures multiset(RegionsOf(q')) == multiset(AllRegions(v, h, phnum, shnum, secs, items))
  {
    var rc := LeadingEnd(v, h, phnum);
    Spliced(RegionsOf(q), k, Trailing(v, h, shnum, EndAfter(v, items, rc, |secs|)),
            Leading(v, h, phnum) + Regions(v, secs, items, rc, |secs|));
  }

  lemma TablesCheck(v: Config, h: Ehdr, phnum: nat, shnum: nat, secs: seq<Scn>, items: seq<Item>, q: seq<Extent>)
    requires |secs| == |items| && AllSound(v, items) && PhdrOk(v, h, phnum)
    requires Collected(v, secs, items, LeadingEnd(v, h, phnum), |secs|, Leading(v, h, phnum), q)
    ensures LayoutPossible(v, h, phnum, shnum, items) <==>
            BodyEnd(v, h, phnum, items) < OFF_T_LIMIT &&
            ShdrPossible(v, h, shnum, BodyEnd(v, h, phnum, items), RegionsOf(q))
    ensures Ordered(q)
  {
    var rc, r := LeadingEnd(v, h, phnum), Leading(v, h, phnum);
    GoodAnonymous(v, r, secs, Nobody(|items|), items, rc, EhdrRegion(v.m.c));
    forall x <- Trailing(v, h, shnum, BodyEnd(v, h, phnum, items))
      ensures NoneClash(RegionsOf(q), x) <==> NoneClash(r + Regions(v, Nobody(|items|), items, rc, |secs|), x)
    {
      SameClashes(RegionsOf(q), r + Regions(v, secs, items, rc, |secs|), x);
      GoodAnonymous(v, r, secs, Nobody(|items|), items, rc, x);
    }
  }

  lemma NotPossible(v: Config, h: Ehdr, phnum: nat, shnum: nat, secs: seq<Scn>, items: seq<Item>)
    requires |secs| == |items| && AllSound(v, items) && LayoutPossible(v, h, phnum, shnum, items)
    ensures PhdrOk(v, h, phnum) && Good(v, Leading(v, h, phnum), secs, items, LeadingEnd(v, h, phnum), |secs|)
  {
    GoodAnonymous(v, Leading(v, h, phnum), secs, Nobody(|items|), items, LeadingEnd(v, h, phnum), EhdrRegion(v.m.c));
  }

  lemma HeadersFirst(v: Config, h: Ehdr, phnum: nat, shnum: nat, items: seq<Item>)
    requires AllSound(v, items)
    ensures LayoutPossible(v, h, phnum, shnum, items) ==> PhdrOk(v, h, phnum)
  {
  }

  lemma LeadingInRange(v: Config, h: Ehdr, phnum: nat, shnum: nat, items: seq<Item>)
    requires AllSound(v, items) && InRange(v, h, phnum, shnum, items)
    ensures LeadingEnd(v, h, phnum) < OFF_T_LIMIT
  {
  }

  // ---------- What the layout starts from ----------

  ghost function ItemsNow(v: Config, secs: seq<Scn>): (r: seq<Item>)
    reads secs, Datas(secs)
    ensures |r| == |secs| && AllSound(v, r)
    ensures forall i :: 0 <= i < |secs| ==> DatasOf(secs, i) && r[i] == ItemNow(v, secs[i])
  {
    seq(|secs|, i requires 0 <= i < |secs| reads secs, Datas(secs) => assert DatasOf(secs, i); ItemNow(v, secs[i]))
  }

  ghost predicate AllLinked(xs: set<Scn>)
    reads xs`data
  {
    forall s <- xs :: Linked(s)
  }

  lemma ProgressStart(v: Config, secs: seq<Scn>, rc0: nat)
    requires forall s <- secs :: Linked(s)
    ensures Progress(v, secs, ItemsNow(v, secs), rc0, 0)
  {
  }

  /** What _libelf_ehdr gives: the executable header, the counts, and section header 0 if it was read for them. */
  datatype Head = Head(h: Ehdr, nscn: nat, nphdr: nat, first: Option<Shdr>)

  /** _libelf_ehdr on an object that has no header yet. */
  function NewHead(m: Mode, byteorder: nat, raw: seq<byte>): (r: Option<Head>)
    ensures r != None ==> |r.value.h.ident| == EI_NIDENT
    ensures r != None && r.value.first != None ==> r.value.first.value.typ == SHT_NULL
  {
    if m.write then Some(Head(InitialEhdr(m.c), 0, 0, None))
    else if |raw| < EhdrSize(m.c) then None
    else
      var h, o := FileEhdr(m, byteorder, raw), OrderOf(byteorder, m.native);
      match ReadCounts(m.c, o, raw, h)
      case None => None
      case Some(n) =>
        Some(Head(h, n.shnum, n.phnum, if IsExtended(h) then Some(ShdrAt(m.c, o, raw, h.shoff, 0)) else None))
  }

  ghost function HeadOf(e: Elf): Option<Head>
    reads e
  {
    if e.ehdr == None then NewHead(e.mode, e.byteorder, e.raw) else Some(Head(e.ehdr.value, e.nscn, e.nphdr, None))
  }

  /** A section as the file has it. */
  function FileItem(v: Config, h: Shdr): (r: Item)
    ensures Sound(v, r)
  {
    ItemOf(h, PlanOf(v, h, false, [], []), h.offset)
  }

  function FileEntry(v: Config, h: Ehdr, i: nat): (r: Item)
    ensures Sound(v, r)
  {
    FileItem(v, TableEntry(v.m, v.byteorder, v.raw, h, i))
  }

  /** The sections from on, as the section header table in the file has them. */
  function FileItems(v: Config, h: Ehdr, from: nat, n: nat): (r: seq<Item>)
    ensures AllSound(v, r)
  {
    var r := seq(if from < n then n - from else 0, i requires 0 <= i => FileEntry(v, h, from + i));
    assert forall i :: 0 <= i < |r| ==> r[i] == FileEntry(v, h, from + i);
    r
  }

  /** The sections that the object has after _libelf_ehdr. */
  ghost function KnownItems(v: Config, e: Elf): (r: seq<Item>)
    reads e, e.tree, e.Order(), Datas(e.Order())
    ensures AllSound(v, r)
  {
    if e.ehdr != None then ItemsNow(v, e.Order())
    else match HeadOf(e)
         case None => []
         case Some(hd) => if hd.first == None then [] else [Skip(hd.first.value)]
  }

  /** The section header table has been read, or can be. */
  ghost predicate TableThere(e: Elf, h: Ehdr, nscn: nat)
    reads e`loaded
  {
    e.mode.write || e.loaded || TableFits(e.mode, e.raw, h, nscn)
  }

  /** All sections: those the object has, and those that are in the file only. */
  ghost function AllItems(v: Config, e: Elf, h: Ehdr, nscn: nat): (r: seq<Item>)
    reads e, e.tree, e.Order(), Datas(e.Order())
    ensures AllSound(v, r)
  {
    var known := KnownItems(v, e);
    if e.mode.write || e.loaded then known else known + FileItems(v, h, |known|, nscn)
  }

  /** All that the layout of an object depends on: how it is done, the initialised header, the counts, the program
      header table that is at hand, the sections, and whether their table has been read or can be. */
  datatype Outlook = Outlook(v: Config, h: Ehdr, nscn: nat, nphdr: nat, phdr: Option<seq<byte>>, items: seq<Item>,
                             there: bool)

  function ConfigOf(e: Elf, layout: bool, fmt: Format, h: Ehdr): Config
    requires |h.ident| == EI_NIDENT
  {
    Config(e.mode, layout, h.ident[EI_DATA] as nat, fmt, e.raw)
  }

  /** What the layout of the object starts from, if its header is acceptable. */
  ghost function OutlookOf(e: Elf, layout: bool, fmt: Format): (r: Option<Outlook>)
    reads e, e.tree, e.Order(), Datas(e.Order())
    ensures r != None ==> AllSound(r.value.v, r.value.items)
  {
    match HeadOf(e)
    case None => None
    case Some(hd) =>
      if !HeaderOk(e.mode, e.byteorder, hd.h) then None
      else
        var v, h := ConfigOf(e, layout, fmt, hd.h), Initialized(e.mode.c, fmt, hd.h, hd.nphdr);
        Some(Outlook(v, h, hd.nscn, hd.nphdr, e.phdr, AllItems(v, e, h, hd.nscn), TableThere(e, h, hd.nscn)))
  }

  /** The layout starts exactly when there is an executable header, of this class and version, for the byte order of
      the file if there is one, with table offsets within off_t. */
  lemma OutlookExactly(e: Elf, layout: bool, fmt: Format)
    ensures OutlookOf(e, layout, fmt) != None <==>
            && HeadOf(e) != None
            && var h := HeadOf(e).value.h;
               && |h.ident| == 16 && h.ident[4] == (if e.mode.c.Class32? then 1 else 2) && h.version in {0, 1}
               && (!e.mode.write ==> h.ident[5] as nat == e.byteorder)
               && h.phoff < 0x8000_0000_0000_0000 && h.shoff < 0x8000_0000_0000_0000
  {
    hide AllItems, TableThere, NewHead;
  }

  /** Without a header at hand, a file must be long enough for one and announce its counts properly; an object that is
      being created gets a new one. */
  lemma HeadExactly(e: Elf)
    requires e.ehdr == None
    ensures e.mode.write ==> HeadOf(e) == Some(Head(InitialEhdr(e.mode.c), 0, 0, None))
    ensures !e.mode.write ==>
      var n, o := if e.mode.c.Class32? then 52 else 64, OrderOf(e.byteorder, e.mode.native);
      && (|e.raw| < n ==> HeadOf(e) == None)
      && (|e.raw| >= n ==>
            var h := FileEhdr(e.mode, e.byteorder, e.raw);
            && EhdrLaidOut(e.mode.c, o, e.raw[..n], h)
            && (HeadOf(e) != None <==> ReadCounts(e.mode.c, o, e.raw, h) != None)
            && (HeadOf(e) != None ==>
                  && HeadOf(e).value.h == h
                  && HeadOf(e).value.nscn == ReadCounts(e.mode.c, o, e.raw, h).value.shnum
                  && HeadOf(e).value.nphdr == ReadCounts(e.mode.c, o, e.raw, h).value.phnum))
  {
    hide FileEhdr, EhdrLaidOut, ReadCounts, ShdrAt;
    if !e.mode.write && |e.raw| >= EhdrSize(e.mode.c) {
      HeaderStored(e.mode, e.byteorder, e.raw);
    }
  }

  /** The program header table is the one at hand or else, for an object with a file, the entries behind e_phoff, if
      they lie in the file and are supported. */
  lemma PhdrTableExactly(v: Config, h: Ehdr, phnum: nat)
    ensures forall t: seq<byte> :: PhdrTable(v, h, phnum, Some(t)) == Some(t)
    ensures var n := phnum * Fsize(v.fmt, v.m.c, ELF_T_PHDR);
            PhdrTable(v, h, phnum, None) ==
            if !v.m.write && h.phoff + n <= |v.raw| && Msize(v.fmt, v.m.c, ELF_T_PHDR) > 0
            then ToMemory(v.fmt, v.m.c, OrderOf(v.byteorder, v.m.native), ELF_T_PHDR, v.raw[h.phoff..h.phoff + n])
            else None
  {
    assert phnum * Fsize(v.fmt, v.m.c, ELF_T_PHDR) == Fsize(v.fmt, v.m.c, ELF_T_PHDR) * phnum;
  }

  lemma BlankDatas(e: Elf)
    requires e.Blanks(e.Scns())
    ensures AllLinked(e.Scns()) && Datas(e.Order()) == {}
  {
    InOrderNodes(e.tree.shape);
    forall i | 0 <= i < |e.Order()| ensures e.Order()[i].data == [] {
      assert e.Order()[i] in e.Scns();
    }
  }

  /** _libelf_ehdr. Only section 0 can come with the header. */
  method BringHead(e: Elf, ghost v: Config) returns (ok: bool)
    requires e.Valid() && e.Numbered() && AllLinked(e.Scns())
    modifies e`ehdr, e`nscn, e`nphdr, e`strndx, e.tree
    ensures e.Valid() && e.Numbered() && AllLinked(e.Scns()) && (forall x <- e.Scns() :: x in old(e.Scns()) || fresh(x))
    ensures forall d <- Datas(e.Order()) :: d in old(Datas(e.Order()))
    ensures ok <==> old(HeadOf(e)) != None
    ensures ok ==> e.ehdr == Some(old(HeadOf(e)).value.h)
    ensures ok ==> e.nscn == old(HeadOf(e)).value.nscn && e.nphdr == old(HeadOf(e)).value.nphdr
    ensures old(e.ehdr) != None ==> unchanged(e) && unchanged(e.tree)
    ensures ok ==> ItemsNow(v, e.Order()) == old(KnownItems(v, e))
  {
    hide Linked, Rep, Bst, ScnTree.Valid, Datas, ReadCounts, FileEhdr, Nodes, InOrder, ItemsNow, EhdrLaidOut;
    ghost var xs: set<Scn> := e.Members();
    ghost var was := e.Order();
    NodesIn(e.tree, was);
    DatasExist(was);
    ok := e.LoadEhdr();
    if old(e.ehdr) == None {
      BlankDatas(e);
      NodesIn(e.tree, e.Order());
      if ok {
        FirstItem(v, e.Order(), old(HeadOf(e)).value.first);
      }
    } else {
      assert Datas(was) == old(Datas(was)) && AllLinked(xs);
    }
  }

  /** Section 0, with its header s0, is all there is, or nothing is. */
  ghost predicate FirstKnown(q: seq<Scn>, s0: Option<Shdr>)
    reads q
  {
    if s0 == None then q == []
    else |q| == 1 && q[0].data == [] && !q[0].dirty && q[0].shdr == s0.value
  }

  lemma FirstItem(v: Config, q: seq<Scn>, s0: Option<Shdr>)
    requires FirstKnown(q, s0) && (s0 != None ==> NoContents(s0.value))
    ensures ItemsNow(v, q) == if s0 == None then [] else [Skip(s0.value)]
  {
  }

  lemma IdentLength(m: Mode, byteorder: nat, h: Ehdr)
    requires HeaderOk(m, byteorder, h)
    ensures |h.ident| == EI_NIDENT
  {
  }

  /** The executable header is brought in, checked and initialised. */
  method StartResync(e: Elf, layout: bool, fmt: Format) returns (ok: bool)
    requires e.Valid() && e.Numbered() && AllLinked(e.Scns())
    modifies e`ehdr, e`nscn, e`nphdr, e`strndx, e`byteorder, e.tree
    ensures e.Valid() && e.Numbered() && AllLinked(e.Scns()) && (forall x <- e.Scns() :: x in old(e.Scns()) || fresh(x))
    ensures forall d <- Datas(e.Order()) :: d in old(Datas(e.Order()))
    ensures ok <==> old(HeadOf(e)) != None && HeaderOk(e.mode, old(e.byteorder), old(HeadOf(e)).value.h)
    ensures ok ==>
      var hd := old(HeadOf(e)).value;
      && e.ehdr == Some(Initialized(e.mode.c, fmt, hd.h, hd.nphdr)) && e.nscn == hd.nscn && e.nphdr == hd.nphdr
      && e.byteorder == hd.h.ident[EI_DATA] as nat
    ensures ok ==>
      var v := ConfigOf(e, layout, fmt, old(HeadOf(e)).value.h); ItemsNow(v, e.Order()) == old(KnownItems(v, e))
  {
    hide Linked, Rep, Bst, ScnTree.Valid, Datas, NewHead, Nodes, InOrder, ItemsNow, HeaderOk, Initialized, AllLinked,
      KnownItems, HeadOf, ScnTree.Holds;
    ghost var hd := HeadOf(e);
    ghost var fine := hd != None && HeaderOk(e.mode, e.byteorder, hd.value.h);
    if fine {
      IdentLength(e.mode, e.byteorder, hd.value.h);
    }
    ghost var v := if fine then ConfigOf(e, layout, fmt, hd.value.h) else Config(e.mode, layout, 0, fmt, e.raw);
    ok := BringHead(e, v);
    if !ok {
      return;
    }
    var h := e.ehdr.value;
    if !HeaderOk(e.mode, e.byteorder, h) {
      return false;
    }
    IdentLength(e.mode, e.byteorder, h);
    e.byteorder := h.ident[EI_DATA] as nat;
    e.ehdr := Some(Initialized(e.mode.c, fmt, h, e.nphdr));
  }

  lemma FileEntryNow(v: Config, e: Elf, h: Ehdr, s: Scn, i: nat)
    requires v.m == e.mode && v.raw == e.raw && v.byteorder == e.byteorder && e.AsInFile(h, s, i)
    ensures ItemNow(v, s) == FileEntry(v, h, i)
  {
    assert Descs(s.data) == [] && Offs(s.data) == [];
  }

  /** The section table, when the object has a file and it was not read yet. */
  method LoadTable(e: Elf, ghost v: Config) returns (ok: bool)
    requires e.Valid() && e.Numbered() && e.ehdr != None && AllLinked(e.Scns()) && Configured(v, e)
    modifies e`loaded, e.tree, e.Scns()`left, e.Scns()`right, e.Scns()`parent, e.Scns()`red
    ensures e.Valid() && e.Numbered() && (ok ==> e.Ready() && AllLinked(e.Scns()))
    ensures forall x <- e.Scns() :: x in old(e.Scns()) || fresh(x)
    ensures forall d <- Datas(e.Order()) :: d in old(Datas(e.Order()))
    ensures ok <==> old(TableThere(e, e.ehdr.value, e.nscn))
    ensures ok ==> ItemsNow(v, e.Order()) == old(AllItems(v, e, e.ehdr.value, e.nscn))
  {
    hide Linked, Rep, Bst, ScnTree.Valid, PlanOf, PlanNow, FileEntry, FileItem, ItemNow, TableEntry, TableFits, Nodes,
      InOrder, FileItems, HeadOf, ScnTree.Holds, Stored;
    ok := true;
    ghost var before, items := e.Order(), ItemsNow(v, e.Order());
    ghost var datas := Datas(before);
    ghost var xs := e.Members();
    NodesIn(e.tree, before);
    DatasExist(before);
    if !e.mode.write && !e.loaded {
      ghost var h := e.ehdr.value;
      var aborted;
      ok, aborted := e.LoadSectionHeaders();
      assert forall s <- before :: Linked(s) && s.data == old(s.data);
      assert forall i :: 0 <= i < |before| ==> ItemNow(v, before[i]) == items[i];
      assert ItemsNow(v, before) == items && Datas(before) == datas;
      if ok {
        NodesIn(e.tree, e.Order());
        TableLoaded(v, e, before, h);
        BlankLinked(e.Order(), before);
      }
    }
  }

  lemma BlankLinked(q: seq<Scn>, before: seq<Scn>)
    requires (forall s <- q :: s in before || s.data == []) && forall s <- before :: Linked(s)
    ensures forall s <- q :: Linked(s)
  {
  }

  /** Behind the sections before come those of the file. */
  lemma TableLoaded(v: Config, e: Elf, before: seq<Scn>, h: Ehdr)
    requires v.m == e.mode && v.raw == e.raw && v.byteorder == e.byteorder && before <= e.Order()
    requires |e.Order()| == if |before| < e.nscn then e.nscn else |before|
    requires forall i :: |before| <= i < e.nscn ==> e.AsInFile(h, e.Order()[i], i)
    ensures ItemsNow(v, e.Order()) == ItemsNow(v, before) + FileItems(v, h, |before|, e.nscn)
    ensures Datas(e.Order()) == Datas(before) && forall s <- e.Order() :: s in before || s.data == []
  {
    hide PlanOf, PlanNow, FileEntry, FileItem, ItemNow, TableEntry;
    var q := e.Order();
    forall i | |before| <= i < |q| ensures q[i].data == [] && ItemNow(v, q[i]) == FileEntry(v, h, i) {
      FileEntryNow(v, e, h, q[i], i);
    }
  }

  /** The sections are laid out, and the extents are those of the header, the tables and the sections. */
  ghost predicate Resynced(e: Elf, v: Config, h: Ehdr, secs: seq<Scn>, items: seq<Item>, q: seq<Extent>, rc: nat)
    reads e, e.tree, secs, Datas(secs)
  {
    && e.Ready() && e.Numbered() && secs == e.Order() && |items| == |secs| && AllSound(v, items)
    && Progress(v, secs, items, LeadingEnd(v, h, e.nphdr), |secs|)
    && Ordered(q) && rc == End(q) == TotalEnd(v, h, e.nphdr, e.nscn, items)
    && multiset(RegionsOf(q)) == multiset(AllRegions(v, h, e.nphdr, e.nscn, secs, items))
  }

  lemma ResyncedNow(e: Elf, v: Config, h: Ehdr, secs: seq<Scn>, items: seq<Item>, q: seq<Extent>, rc: nat)
    requires e.Ready() && e.Numbered() && secs == e.Order() && |items| == |secs| && AllSound(v, items)
    requires Progress(v, secs, items, LeadingEnd(v, h, e.nphdr), |secs|) && Ordered(q)
    requires rc == End(q) == TrailingEnd(v, h, e.nscn, BodyEnd(v, h, e.nphdr, items))
    requires multiset(RegionsOf(q)) == multiset(AllRegions(v, h, e.nphdr, e.nscn, secs, items))
    ensures Resynced(e, v, h, secs, items, q, rc)
  {
  }

  /** What the end of the sections must not exceed. */
  lemma BodyInRange(v: Config, h: Ehdr, phnum: nat, shnum: nat, items: seq<Item>)
    requires AllSound(v, items) && InRange(v, h, phnum, shnum, items)
    ensures EndAfter(v, items, LeadingEnd(v, h, phnum), |items|) == BodyEnd(v, h, phnum, items) < UINT64_LIMIT
    ensures BodyEnd(v, h, phnum, items) < OFF_T_LIMIT ==>
            TrailingEnd(v, h, shnum, BodyEnd(v, h, phnum, items)) < OFF_T_LIMIT
    ensures ShdrOffset(v, h, phnum, shnum, items) ==
            if shnum == 0 then 0 else ShdrStart(v, h, BodyEnd(v, h, phnum, items))
    ensures LayoutPossible(v, h, phnum, shnum, items) ==> BodyEnd(v, h, phnum, items) < OFF_T_LIMIT
  {
  }

  /** The extents of the sections and of their header table. */
  method ResyncRest(e: Elf, v: Config, h: Ehdr, rc0: nat, extents: ExtentList, ghost q0: seq<Extent>,
                    ghost secs: seq<Scn>, ghost items: seq<Item>)
    returns (ok: bool, rc: nat, shoff: nat, ghost q: seq<Extent>)
    requires e.Valid() && e.Ready() && e.Numbered() && secs == e.Order() && AllLinked(e.Scns())
    requires items == ItemsNow(v, secs) && InRange(v, h, e.nphdr, e.nscn, items)
    requires extents.Lists(q0) && Ordered(q0) && RegionsOf(q0) == Leading(v, h, e.nphdr)
    requires rc0 == LeadingEnd(v, h, e.nphdr) == End(q0) && PhdrOk(v, h, e.nphdr)
    modifies (set s | s in secs)`shdr, (set s | s in secs)`size, (set s | s in secs)`offset, (set s | s in secs)`data
    modifies Datas(secs)`off, extents, (set x | x in q0)`next
    ensures e.Valid()
    ensures ok <==> LayoutPossible(v, h, e.nphdr, e.nscn, items)
    ensures ok ==> Resynced(e, v, h, secs, items, q, rc) && extents.Lists(q) && (forall x <- q :: x in q0 || fresh(x))
    ensures ok ==> shoff == ShdrOffset(v, h, e.nphdr, e.nscn, items)
  {
    hide PlanOf, PlanNow, ItemNow, Placed, Linked, Dealt, Pending, Progress, Collected, Good, Disjoint, NoneClash,
      Regions, EndAfter, LayoutPossible, ScnTree.Valid, Rep, Bst, AllRegions, ItemsNow, Datas, Ordered, End, InOrder,
      Leading, Trailing, TrailingEnd, ShdrStart, Resynced, BodyEnd, InRange, ShdrOffset, ShdrPossible, RegionsOf,
      LeadingEnd, Elf.Numbered, AllSound, ScnTree.Holds, PhdrOk, NonEmpty;
    BodyInRange(v, h, e.nphdr, e.nscn, items);
    NodesIn(e.tree, secs);
    ProgressStart(v, secs, rc0);
    hide AllLinked;
    if LayoutPossible(v, h, e.nphdr, e.nscn, items) {
      NotPossible(v, h, e.nphdr, e.nscn, secs, items);
    }
    shoff := 0;
    ok, rc, q := ResyncSections(v, e.tree, rc0, extents, secs, items, q0);
    if !ok {
      return;
    }
    TablesCheck(v, h, e.nphdr, e.nscn, secs, items, q);
    if rc >= OFF_T_LIMIT {
      ok := false;
      return;
    }
    DatasExist(secs);
    ghost var k, was := 0, q;
    ok, rc, shoff, q, k := ResyncShdr(v, h, e.nscn, rc, extents, q);
    if ok {
      TablesDone(v, h, e.nphdr, e.nscn, secs, items, was, k, q);
      ResyncedNow(e, v, h, secs, items, q, rc);
    }
  }

  /** Laying out the headers does not touch the sections. */
  method ResyncFront(e: Elf, v: Config, extents: ExtentList)
    returns (ok: bool, rc: nat, phoff: nat, ghost q: seq<Extent>)
    requires e.Valid() && e.ehdr != None && extents.Lists([]) && Configured(v, e)
    requires LeadingEnd(v, e.ehdr.value, e.nphdr) < OFF_T_LIMIT
    modifies extents, e`phdr
    ensures e.Valid() && AllLinked(e.Scns()) == old(AllLinked(e.Scns())) && Datas(e.Order()) == old(Datas(e.Order()))
    ensures AllItems(v, e, e.ehdr.value, e.nscn) == old(AllItems(v, e, e.ehdr.value, e.nscn))
    ensures ok <==> PhdrOk(v, e.ehdr.value, e.nphdr)
    ensures ok ==> extents.Lists(q) && Ordered(q) && (forall x <- q :: fresh(x))
    ensures ok ==> RegionsOf(q) == Leading(v, e.ehdr.value, e.nphdr)
    ensures ok ==> rc == LeadingEnd(v, e.ehdr.value, e.nphdr) == End(q)
    ensures ok ==> phoff == PhdrOffset(v, e.ehdr.value, e.nphdr)
    ensures ok ==> e.phdr == if e.nphdr == 0 then old(e.phdr) else PhdrTable(v, e.ehdr.value, e.nphdr, old(e.phdr))
  {
    hide ItemNow, Linked, ScnTree.Valid, Rep, Bst, ItemsNow, Datas, Ordered, End, InOrder, Leading, PhdrStart,
      LeadingEnd, TableFits, PhdrOffset, PhdrTable, FileItems, RegionsOf, AllLinked, PhdrOk;
    ghost var secs := e.Order();
    NodesIn(e.tree, secs);
    DatasExist(secs);
    ghost var xs: set<Scn> := e.Members();
    ok, rc, phoff, q := ResyncHeaders(e, v, extents);
    assert forall x <- secs :: x in xs;
    assert Datas(secs) == old(Datas(e.Order()));
    assert ItemsNow(v, secs) == old(ItemsNow(v, e.Order()));
  }

  /** The headers are laid out and the section table is brought in. */
  method ResyncStart(e: Elf, v: Config, extents: ExtentList)
    returns (ok: bool, rc: nat, phoff: nat, ghost q: seq<Extent>)
    requires e.Valid() && e.Numbered() && AllLinked(e.Scns()) && e.ehdr != None && extents.Lists([]) && Configured(v, e)
    requires LeadingEnd(v, e.ehdr.value, e.nphdr) < OFF_T_LIMIT
    modifies extents, e`phdr, e`loaded, e.tree, e.Scns()`left, e.Scns()`right, e.Scns()`parent, e.Scns()`red
    ensures e.Valid() && e.Numbered() && (forall x <- e.Scns() :: x in old(e.Scns()) || fresh(x))
    ensures forall d <- Datas(e.Order()) :: d in old(Datas(e.Order()))
    ensures ok <==> old(TableThere(e, e.ehdr.value, e.nscn)) && PhdrOk(v, e.ehdr.value, e.nphdr)
    ensures ok ==> e.Ready() && AllLinked(e.Scns())
    ensures ok ==> ItemsNow(v, e.Order()) == old(AllItems(v, e, e.ehdr.value, e.nscn))
    ensures ok ==> extents.Lists(q) && Ordered(q) && (forall x <- q :: fresh(x))
    ensures ok ==> RegionsOf(q) == Leading(v, e.ehdr.value, e.nphdr)
    ensures ok ==> rc == LeadingEnd(v, e.ehdr.value, e.nphdr) == End(q)
    ensures ok ==> phoff == PhdrOffset(v, e.ehdr.value, e.nphdr)
    ensures ok ==> e.phdr == if e.nphdr == 0 then old(e.phdr) else PhdrTable(v, e.ehdr.value, e.nphdr, old(e.phdr))
  {
    hide ItemNow, Linked, ScnTree.Valid, Rep, Bst, ItemsNow, Datas, Ordered, End, InOrder, Leading, PhdrStart,
      LeadingEnd, TableFits, PhdrOffset, PhdrTable, FileItems, RegionsOf, AllLinked, AllItems, PhdrOk;
    DatasExist(e.Order());
    NodesIn(e.tree, e.Order());
    ok, rc, phoff, q := ResyncFront(e, v, extents);
    if ok {
      ok := LoadTable(e, v);
    }
  }

  /** The middle of _libelf_resync_elf: all extents, with the sections laid out. */
  method ResyncTables(e: Elf, v: Config, extents: ExtentList)
    returns (ok: bool, rc: nat, phoff: nat, shoff: nat, ghost secs: seq<Scn>, ghost q: seq<Extent>)
    requires e.Valid() && e.Numbered() && AllLinked(e.Scns()) && e.ehdr != None && extents.Lists([]) && Configured(v, e)
    requires InRange(v, e.ehdr.value, e.nphdr, e.nscn, AllItems(v, e, e.ehdr.value, e.nscn))
    modifies extents, e`phdr, e`loaded, e.tree, e.Scns()`left, e.Scns()`right, e.Scns()`parent, e.Scns()`red
    modifies e.Scns()`shdr, e.Scns()`size, e.Scns()`offset, e.Scns()`data, Datas(e.Order())`off
    ensures e.Valid() && e.Numbered() && (forall x <- e.Scns() :: x in old(e.Scns()) || fresh(x))
    ensures ok <==> old(TableThere(e, e.ehdr.value, e.nscn)) &&
                    LayoutPossible(v, e.ehdr.value, e.nphdr, e.nscn, old(AllItems(v, e, e.ehdr.value, e.nscn)))
    ensures ok ==> Resynced(e, v, e.ehdr.value, secs, old(AllItems(v, e, e.ehdr.value, e.nscn)), q, rc)
    ensures ok ==> extents.Lists(q) && (forall x <- q :: fresh(x))
    ensures ok ==> phoff == PhdrOffset(v, e.ehdr.value, e.nphdr)
    ensures ok ==> shoff == ShdrOffset(v, e.ehdr.value, e.nphdr, e.nscn, old(AllItems(v, e, e.ehdr.value, e.nscn)))
    ensures ok ==> e.phdr == if e.nphdr == 0 then old(e.phdr) else PhdrTable(v, e.ehdr.value, e.nphdr, old(e.phdr))
  {
    hide PlanOf, PlanNow, ItemNow, Placed, Linked, Dealt, Pending, Progress, Collected, Good, Disjoint, NoneClash,
      Regions, EndAfter, LayoutPossible, ScnTree.Valid, Rep, Bst, AllRegions, ItemsNow, Datas, Ordered, End, InOrder,
      Leading, Trailing, Resynced, ShdrStart, PhdrStart, LeadingEnd, TableFits, ShdrOffset, PhdrOffset, InRange,
      PhdrTable, FileItems, RegionsOf, AllLinked, AllItems, TableThere, PhdrOk;
    var h := e.ehdr.value;
    shoff, secs := 0, e.Order();
    ghost var items := AllItems(v, e, h, e.nscn);
    HeadersFirst(v, h, e.nphdr, e.nscn, items);
    LeadingInRange(v, h, e.nphdr, e.nscn, items);
    DatasExist(secs);
    ok, rc, phoff, q := ResyncStart(e, v, extents);
    if !ok {
      return;
    }
    secs := e.Order();
    NodesIn(e.tree, secs);
    ok, rc, shoff, q := ResyncRest(e, v, h, rc, extents, q, secs, items);
  }

  // ---------- The counts ----------

  /** Setting the counts does not touch a section with file contents: either no count is extended, or section 0 has no
      contents. */
  ghost predicate CountsSafe(phnum: nat, shnum: nat, items: seq<Item>) {
    (phnum < PN_XNUM && shnum < SHN_LORESERVE) || (items != [] && items[0].Skip?)
  }

  /** Section header 0 after the counts were stored. */
  function CountedShdr(c: Class, s0: Shdr, phnum: nat, shnum: nat): (r: Shdr)
    ensures r.typ == s0.typ
  {
    SetShnum(c, SetPhnum(Pair(InitialEhdr(c), s0), phnum), shnum).s0
  }

  /** The sections after the counts were stored. */
  function Recounted(c: Class, items: seq<Item>, phnum: nat, shnum: nat): (r: seq<Item>)
    ensures |r| == |items|
  {
    if items != [] && items[0].Skip? then items[0 := Skip(CountedShdr(c, items[0].h, phnum, shnum))] else items
  }

  lemma {:induction false} RecountedPlaces(v: Config, items: seq<Item>, phnum: nat, shnum: nat, rc: nat,
                                           secs: seq<Scn>, n: nat)
    requires AllSound(v, items) && n <= |items| == |secs|
    ensures AllSound(v, Recounted(v.m.c, items, phnum, shnum))
    ensures EndAfter(v, Recounted(v.m.c, items, phnum, shnum), rc, n) == EndAfter(v, items, rc, n)
    ensures Regions(v, secs, Recounted(v.m.c, items, phnum, shnum), rc, n) == Regions(v, secs, items, rc, n)
    decreases n
  {
    if n != 0 {
      RecountedPlaces(v, items, phnum, shnum, rc, secs, n - 1);
    }
  }

  /** Storing the counts leaves the layout as it is. */
  lemma RecountedLayout(v: Config, h: Ehdr, phnum: nat, shnum: nat, secs: seq<Scn>, items: seq<Item>)
    requires AllSound(v, items) && |secs| == |items|
    ensures AllSound(v, Recounted(v.m.c, items, phnum, shnum))
    ensures var r := Recounted(v.m.c, items, phnum, shnum);
            && TotalEnd(v, h, phnum, shnum, r) == TotalEnd(v, h, phnum, shnum, items)
            && ShdrOffset(v, h, phnum, shnum, r) == ShdrOffset(v, h, phnum, shnum, items)
            && AllRegions(v, h, phnum, shnum, secs, r) == AllRegions(v, h, phnum, shnum, secs, items)
  {
    RecountedPlaces(v, items, phnum, shnum, LeadingEnd(v, h, phnum), secs, |secs|);
  }

  /** _libelf_setphnum and _libelf_setshnum. */
  method SetBoth(e: Elf)
    requires e.Valid() && e.Numbered() && e.ehdr != None
    modifies e`ehdr, e.tree, Written(e)`shdr, Written(e)`dirty
    ensures e.Valid() && e.ehdr != None
    ensures e.ehdr.value == SetShnum(e.mode.c, SetPhnum(Pair(old(e.ehdr).value, EMPTY_SHDR), e.nphdr), e.nscn).h
    ensures old(e.Order()) != [] || (e.nphdr < PN_XNUM && e.nscn < SHN_LORESERVE) ==> unchanged(e.tree)
    ensures e.Numbered() && (old(e.Order()) == [] ==> |e.Order()| <= 1 && fresh(e.Scns()))
    ensures old(e.Order()) != [] ==>
      e.Order()[0].shdr == CountedShdr(e.mode.c, old(e.Counted()).s0, e.nphdr, e.nscn)
  {
    hide ScnTree.Valid, Rep, Bst, Nodes, InOrder, Limit;
    if e.Order() != [] {
      Consecutive(e.tree, 0);
    }
    e.StorePhnum(e.nphdr);
    e.StoreShnum(e.nscn);
  }

  /** Section 0, when its header is needed for an extended count. */
  ghost function Written(e: Elf): set<Scn>
    reads e, e.tree`shape
  {
    if e.nphdr < PN_XNUM && e.nscn < SHN_LORESERVE then {} else e.Zero()
  }

  /** The counts go into the executable header and, when they are extended, into section header 0, which leaves the
      layout as it is. */
  method StoreCounts(e: Elf, v: Config, ghost secs: seq<Scn>, ghost items: seq<Item>, ghost rc0: nat)
    requires e.Valid() && e.Numbered() && e.ehdr != None && v.m == e.mode && secs == e.Order()
    requires |secs| == |items| && AllSound(v, items) && Progress(v, secs, items, rc0, |secs|)
    modifies e`ehdr, e.tree, e.Zero()`shdr, e.Zero()`dirty
    ensures e.Valid() && e.ehdr != None
    ensures e.ehdr.value == SetShnum(v.m.c, SetPhnum(Pair(old(e.ehdr).value, EMPTY_SHDR), e.nphdr), e.nscn).h
    ensures e.Numbered() && (secs != [] || CountsSafe(e.nphdr, e.nscn, items) ==> unchanged(e.tree))
    ensures secs == [] ==> |e.Order()| <= 1 && fresh(e.Scns())
    ensures CountsSafe(e.nphdr, e.nscn, items) && AllSound(v, Recounted(v.m.c, items, e.nphdr, e.nscn)) ==>
      Progress(v, secs, Recounted(v.m.c, items, e.nphdr, e.nscn), rc0, |secs|)
  {
    hide Linked, ScnTree.Valid, Rep, Bst, EndAfter, Sound, Dealt, Pending, Nodes, InOrder, Recounted, CountedShdr,
      SetShnum, SetPhnum;
    ghost var safe, r := CountsSafe(e.nphdr, e.nscn, items), Recounted(v.m.c, items, e.nphdr, e.nscn);
    if secs != [] {
      Consecutive(e.tree, 0);
    }
    DatasExist(secs);
    assert forall i :: 0 <= i < |secs| ==> DatasOf(secs, i);
    SkipsKept(v, secs, items, rc0);
    SetBoth(e);
    if safe && AllSound(v, r) {
      RecountedItems(v.m.c, items, e.nphdr, e.nscn);
      forall i | 0 <= i < |secs| ensures DatasOf(secs, i) && Dealt(v, secs[i], r[i], EndAfter(v, r, rc0, i)) {
        RecountedPlaces(v, items, e.nphdr, e.nscn, rc0, secs, i);
        if i == 0 && items[0].Skip? {
          SkipDealt(v, secs[0], r[0], EndAfter(v, r, rc0, 0));
        }
      }
    }
  }

  /** Sections without contents have kept their headers. */
  lemma SkipsKept(v: Config, secs: seq<Scn>, items: seq<Item>, rc0: nat)
    requires |secs| == |items| && AllSound(v, items) && Progress(v, secs, items, rc0, |secs|)
    ensures forall i :: 0 <= i < |secs| && items[i].Skip? ==> Linked(secs[i]) && secs[i].shdr == items[i].h
  {
  }

  lemma RecountedItems(c: Class, items: seq<Item>, phnum: nat, shnum: nat)
    ensures forall i :: 0 < i < |items| ==> Recounted(c, items, phnum, shnum)[i] == items[i]
    ensures items != [] && items[0].Skip? ==>
            Recounted(c, items, phnum, shnum)[0] == Skip(CountedShdr(c, items[0].h, phnum, shnum))
    ensures items != [] && !items[0].Skip? ==> Recounted(c, items, phnum, shnum)[0] == items[0]
    ensures phnum < PN_XNUM && shnum < SHN_LORESERVE ==> Recounted(c, items, phnum, shnum) == items
  {
  }

  lemma SkipDealt(v: Config, s: Scn, it: Item, rc: nat)
    requires Sound(v, it) && Linked(s) && it == Skip(s.shdr)
    ensures Dealt(v, s, it, rc)
  {
  }

  /** The executable header at the end of the layout. */
  function FinalEhdr(v: Config, h: Ehdr, phnum: nat, shnum: nat, phoff: nat, shoff: nat): Ehdr {
    var h' := SetShnum(v.m.c, SetPhnum(Pair(h, EMPTY_SHDR), phnum), shnum).h;
    if v.layout then h' else h'.(phoff := phoff % Limit(v.m.c), shoff := shoff % Limit(v.m.c))
  }

  /** The end of _libelf_resync_elf: the counts and the table offsets in the executable header. */
  method FinishResync(e: Elf, v: Config, phoff: nat, shoff: nat, ghost h: Ehdr, ghost secs: seq<Scn>,
                      ghost items: seq<Item>, ghost q: seq<Extent>, ghost rc: nat)
    requires e.Valid() && e.ehdr == Some(h) && v.m == e.mode && Resynced(e, v, h, secs, items, q, rc)
    modifies e`ehdr, e.tree, e.Zero()`shdr, e.Zero()`dirty
    ensures e.Valid() && e.ehdr == Some(FinalEhdr(v, h, e.nphdr, e.nscn, phoff, shoff))
    ensures e.Ready() && e.Numbered() && (if secs == [] then |e.Order()| <= 1 else e.Order() == secs)
    ensures forall x <- e.Scns() :: x in old(e.Scns()) || fresh(x)
    ensures CountsSafe(e.nphdr, e.nscn, items) ==>
      Resynced(e, v, h, secs, Recounted(v.m.c, items, e.nphdr, e.nscn), q, rc)
  {
    hide Progress, Collected, Dealt, AllRegions, ScnTree.Valid, Rep, Bst, TotalEnd, Recounted, CountsSafe, Sound;
    RecountedLayout(v, h, e.nphdr, e.nscn, secs, items);
    DatasExist(secs);
    StoreCounts(e, v, secs, items, LeadingEnd(v, h, e.nphdr));
    DatasExist(secs);
    ghost var xs: set<Scn> := e.Members();
    SetOffsets(e, v, phoff, shoff);
  }

  /** The library's own layout tells the header where the tables are. */
  method SetOffsets(e: Elf, v: Config, phoff: nat, shoff: nat)
    requires e.ehdr != None
    modifies e`ehdr
    ensures e.ehdr == if v.layout then old(e.ehdr)
                      else Some(old(e.ehdr).value.(phoff := phoff % Limit(v.m.c), shoff := shoff % Limit(v.m.c)))
  {
    if !v.layout {
      e.ehdr := Some(e.ehdr.value.(phoff := phoff % Limit(v.m.c), shoff := shoff % Limit(v.m.c)));
    }
  }

  /** The executable header that the layout leaves. */
  ghost function NewEhdr(v: Config, h: Ehdr, phnum: nat, shnum: nat, items: seq<Item>): Ehdr
    requires AllSound(v, items)
  {
    FinalEhdr(v, h, phnum, shnum, PhdrOffset(v, h, phnum), ShdrOffset(v, h, phnum, shnum, items))
  }

  /** Whether the object can be laid out. */
  ghost predicate LaidOut(o: Outlook)
    requires AllSound(o.v, o.items)
  {
    o.there && LayoutPossible(o.v, o.h, o.nphdr, o.nscn, o.items)
  }

  /** The object is as its outlook says, after the executable header was brought in and initialised. */
  ghost predicate Begun(e: Elf, o: Outlook)
    reads e, e.tree, e.Order(), Datas(e.Order())
  {
    && e.ehdr == Some(o.h) && e.nscn == o.nscn && e.nphdr == o.nphdr && e.phdr == o.phdr
    && o.v == Config(e.mode, o.v.layout, e.byteorder, o.v.fmt, e.raw)
    && AllItems(o.v, e, o.h, o.nscn) == o.items && TableThere(e, o.h, o.nscn) == o.there
  }

  method BeginResync(e: Elf, layout: bool, fmt: Format) returns (ok: bool)
    requires e.Valid() && e.Numbered() && AllLinked(e.Scns())
    modifies e`ehdr, e`nscn, e`nphdr, e`strndx, e`byteorder, e.tree
    ensures e.Valid() && e.Numbered() && AllLinked(e.Scns()) && (forall x <- e.Scns() :: x in old(e.Scns()) || fresh(x))
    ensures forall d <- Datas(e.Order()) :: d in old(Datas(e.Order()))
    ensures ok <==> old(OutlookOf(e, layout, fmt)) != None
    ensures ok ==>
      var o := old(OutlookOf(e, layout, fmt)).value; Begun(e, o) && o.v.layout == layout && o.v.fmt == fmt
  {
    hide ScnTree.Valid, Rep, Bst, ItemsNow, Datas, Initialized, HeaderOk, Nodes, InOrder, TableFits, NewHead, FileItems,
      AllLinked;
    ok := StartResync(e, layout, fmt);
  }

  /** All that follows the initialisation of the executable header. */
  method ResyncAll(e: Elf, v: Config, extents: ExtentList, ghost h: Ehdr, ghost items: seq<Item>)
    returns (ok: bool, rc: nat, ghost secs: seq<Scn>, ghost q: seq<Extent>)
    requires e.Valid() && e.Numbered() && AllLinked(e.Scns()) && e.ehdr == Some(h) && extents.Lists([])
    requires Configured(v, e) && AllSound(v, items) && items == AllItems(v, e, h, e.nscn)
    requires InRange(v, h, e.nphdr, e.nscn, items)
    modifies extents, e`phdr, e`loaded, e`ehdr, e.tree
    modifies e.Scns()`left, e.Scns()`right, e.Scns()`parent, e.Scns()`red
    modifies e.Scns()`shdr, e.Scns()`dirty, e.Scns()`size, e.Scns()`offset, e.Scns()`data, Datas(e.Order())`off
    ensures e.Valid()
    ensures ok <==> old(TableThere(e, h, e.nscn)) && LayoutPossible(v, h, e.nphdr, e.nscn, items)
    ensures ok ==> e.ehdr == Some(NewEhdr(v, h, e.nphdr, e.nscn, items))
    ensures ok ==> e.Ready() && e.Numbered() && (if secs == [] then |e.Order()| <= 1 else e.Order() == secs)
    ensures forall x <- e.Scns() :: x in old(e.Scns()) || fresh(x)
    ensures ok ==> e.phdr == if e.nphdr == 0 then old(e.phdr) else PhdrTable(v, h, e.nphdr, old(e.phdr))
    ensures ok ==> extents.Lists(q) && Ordered(q) && rc == End(q) == TotalEnd(v, h, e.nphdr, e.nscn, items)
    ensures ok ==>
      |secs| == |items| && multiset(RegionsOf(q)) == multiset(AllRegions(v, h, e.nphdr, e.nscn, secs, items))
    ensures ok && CountsSafe(e.nphdr, e.nscn, items) ==>
      Resynced(e, v, h, secs, Recounted(v.m.c, items, e.nphdr, e.nscn), q, rc)
  {
    hide Progress, AllRegions, ScnTree.Valid, Rep, Bst, LayoutPossible, ItemsNow, Datas, FinalEhdr, CountsSafe, Nodes,
      InOrder, End, Ordered, RegionsOf, InRange, TotalEnd, ShdrOffset, PhdrOffset, PhdrTable, AllItems, TableThere,
      Recounted, AllLinked, AllSound, Elf.Valid, Elf.Numbered;
    DatasExist(e.Order());
    NodesIn(e.tree, e.Order());
    var ph, sh;
    ok, rc, ph, sh, secs, q := ResyncTables(e, v, extents);
    if !ok {
      return;
    }
    NodesIn(e.tree, e.Order());
    FinishResync(e, v, ph, sh, h, secs, items, q, rc);
  }

  // ---------- What the layout makes of the executable header ----------

  /** The header n is h with what INITIALIZE_EHDR and the layout of an object with these counts assign, and nothing
      else. */
  predicate HeaderUpdated(c: Class, fmt: Format, layout: bool, h: Ehdr, n: Ehdr, nphdr: nat, nscn: nat) {
    && |h.ident| == |n.ident| == 16 && n.ident[0..4] == [0x7f, 0x45, 0x4c, 0x46]
    && n.ident[4] == (if c.Class32? then 1 else 2) && n.ident[6] == 1
    && n.ident[5] == h.ident[5] && n.ident[7..] == h.ident[7..]
    && n.typ == h.typ && n.machine == h.machine && n.version == h.version && n.entry == h.entry && n.flags == h.flags
    && n.shstrndx == h.shstrndx && (layout ==> n.phoff == h.phoff && n.shoff == h.shoff)
    && n.ehsize == (if c.Class32? then 52 else 64) && n.shentsize == (if c.Class32? then 40 else 64)
    && n.phentsize == (if nphdr == 0 then 0 else Fsize(fmt, c, ELF_T_PHDR) % 0x1_0000)
    && n.phnum == (if nphdr >= 0xffff then 0xffff else nphdr) && n.shnum == (if nscn >= 0xff00 then 0 else nscn)
  }

  /** The header describes the regions of itself and of the tables: their places and the sizes of their entries. */
  ghost predicate Described(c: Class, layout: bool, n: Ehdr, nphdr: nat, nscn: nat, rs: seq<Region>) {
    var limit := if c.Class32? then 0x1_0000_0000 else 0x1_0000_0000_0000_0000;
    && (forall x <- rs | x.kind.EhdrExtent? :: x.start == 0 && x.size == n.ehsize)
    && (forall x <- rs | x.kind.PhdrExtent? ::
          nphdr > 0 && n.phoff == (if layout then x.start else x.start % limit) &&
          (x.size < 0x1_0000 * nphdr ==> x.size == n.phentsize * nphdr))
    && (forall x <- rs | x.kind.ShdrExtent? ::
          nscn > 0 && n.shoff == (if layout then x.start else x.start % limit) && x.size == n.shentsize * nscn)
    && (exists x <- rs :: x.kind.EhdrExtent?)
    && (nphdr > 0 ==> exists x <- rs :: x.kind.PhdrExtent?) && (nscn > 0 ==> exists x <- rs :: x.kind.ShdrExtent?)
    && (!layout ==> (nphdr == 0 ==> n.phoff == 0) && (nscn == 0 ==> n.shoff == 0))
  }

  lemma {:induction false} SectionRegions(v: Config, secs: seq<Scn?>, items: seq<Item>, rc: nat, n: nat)
    requires n <= |items| == |secs| && AllSound(v, items)
    ensures forall x <- Regions(v, secs, items, rc, n) :: x.kind.SectionExtent?
  {
    if n != 0 {
      SectionRegions(v, secs, items, rc, n - 1);
    }
  }

  lemma HeaderMeaning(e: Elf, layout: bool, fmt: Format)
    requires OutlookOf(e, layout, fmt) != None
    ensures HeadOf(e) != None
    ensures var o, hd := OutlookOf(e, layout, fmt).value, HeadOf(e).value;
            && o.nphdr == hd.nphdr && o.nscn == hd.nscn
            && HeaderUpdated(e.mode.c, fmt, layout, hd.h, NewEhdr(o.v, o.h, o.nphdr, o.nscn, o.items), o.nphdr, o.nscn)
            && o.v.m == e.mode && o.v.fmt == fmt && o.v.layout == layout
            && o.h.ehsize == EhdrSize(o.v.m.c) && o.h.shentsize == ShdrSize(o.v.m.c)
            && o.h.phentsize == if o.nphdr == 0 then 0 else Fsize(o.v.fmt, o.v.m.c, ELF_T_PHDR) % 0x1_0000
  {
    hide PhdrOffset, ShdrOffset, AllItems, TableThere, NewHead;
  }

  lemma SameMembers<T>(rs: seq<T>, a: seq<T>, b: seq<T>, c: seq<T>)
    requires multiset(rs) == multiset(a + b + c)
    ensures forall x :: x in rs <==> x in a || x in b || x in c
  {
    forall x ensures x in rs <==> x in a || x in b || x in c {
      assert x in rs <==> x in multiset(rs);
      assert x in a + b + c <==> x in multiset(a + b + c);
    }
  }

  lemma EntrySize(f: nat, n: nat)
    requires n > 0 && f * n < 0x1_0000 * n
    ensures f % 0x1_0000 == f
  {
    assert (f - 0x1_0000) * n == f * n - 0x1_0000 * n < 0;
  }

  lemma TablesMeaning(v: Config, h: Ehdr, phnum: nat, shnum: nat, secs: seq<Scn>, items: seq<Item>, rs: seq<Region>)
    requires AllSound(v, items) && |secs| == |items| && h.ehsize == EhdrSize(v.m.c) && h.shentsize == ShdrSize(v.m.c)
    requires h.phentsize == if phnum == 0 then 0 else Fsize(v.fmt, v.m.c, ELF_T_PHDR) % 0x1_0000
    requires multiset(rs) == multiset(AllRegions(v, h, phnum, shnum, secs, items))
    ensures Described(v.m.c, v.layout, NewEhdr(v, h, phnum, shnum, items), phnum, shnum, rs)
  {
    hide Regions, RoundUp, TableAlign, Fsize;
    var lead, rc := Leading(v, h, phnum), LeadingEnd(v, h, phnum);
    var mid, tail := Regions(v, secs, items, rc, |secs|), Trailing(v, h, shnum, EndAfter(v, items, rc, |secs|));
    SectionRegions(v, secs, items, rc, |secs|);
    SameMembers(rs, lead, mid, tail);
    hide EndAfter, AllSound;
    TablesPlaces(v, h, phnum, shnum, items);
    var n := NewEhdr(v, h, phnum, shnum, items);
    hide NewEhdr;
    forall x <- rs | x.kind.PhdrExtent? ensures x.size < 0x1_0000 * phnum ==> x.size == n.phentsize * phnum {
      if x.size < 0x1_0000 * phnum {
        EntrySize(Fsize(v.fmt, v.m.c, ELF_T_PHDR), phnum);
      }
    }
    assert lead[0] in rs;
    assert phnum > 0 ==> lead[1] in rs;
    assert shnum > 0 ==> tail[0] in rs;
  }

  lemma TablesPlaces(v: Config, h: Ehdr, phnum: nat, shnum: nat, items: seq<Item>)
    requires AllSound(v, items)
    ensures var n := NewEhdr(v, h, phnum, shnum, items);
            var limit := if v.m.c.Class32? then 0x1_0000_0000 else 0x1_0000_0000_0000_0000;
            var sh := ShdrStart(v, h, EndAfter(v, items, LeadingEnd(v, h, phnum), |items|));
            && n.ehsize == h.ehsize && n.phentsize == h.phentsize && n.shentsize == h.shentsize
            && (phnum > 0 ==> n.phoff == if v.layout then PhdrStart(v, h) else PhdrStart(v, h) % limit)
            && (shnum > 0 ==> n.shoff == if v.layout then sh else sh % limit)
            && (!v.layout ==> (phnum == 0 ==> n.phoff == 0) && (shnum == 0 ==> n.shoff == 0))
  {
    hide EndAfter, AllSound, LeadingEnd, RoundUp, TableAlign;
  }

  /** _libelf_resync_elf. In both layout modes it succeeds exactly when the header is acceptable, the section table
      can be read and the layout is possible. The size it returns is then the end of the last extent, the list of
      extents is in ascending order, and its regions are those of the header, the tables and the sections with file
      contents. */
  method ResyncElf(e: Elf, layout: bool, fmt: Format, extents: ExtentList)
    returns (ok: bool, rc: nat, ghost secs: seq<Scn>, ghost q: seq<Extent>)
    requires e.Valid() && e.Numbered() && AllLinked(e.Scns())
    requires extents.Lists([]) && Fsize(fmt, e.mode.c, ELF_T_PHDR) > 0
    requires OutlookOf(e, layout, fmt) != None ==>
      var o := OutlookOf(e, layout, fmt).value; InRange(o.v, o.h, o.nphdr, o.nscn, o.items)
    modifies extents, e, e.tree, e.Scns()`left, e.Scns()`right, e.Scns()`parent, e.Scns()`red
    modifies e.Scns()`shdr, e.Scns()`dirty, e.Scns()`size, e.Scns()`offset, e.Scns()`data, Datas(e.Order())`off
    ensures e.Valid() && forall x <- e.Scns() :: x in old(e.Scns()) || fresh(x)
    ensures ok <==> old(OutlookOf(e, layout, fmt)) != None && LaidOut(old(OutlookOf(e, layout, fmt)).value)
    ensures ok ==>
      && old(HeadOf(e)) != None && e.ehdr != None
      && e.nphdr == old(HeadOf(e)).value.nphdr && e.nscn == old(HeadOf(e)).value.nscn
      && HeaderUpdated(e.mode.c, fmt, layout, old(HeadOf(e)).value.h, e.ehdr.value, e.nphdr, e.nscn)
      && Described(e.mode.c, layout, e.ehdr.value, e.nphdr, e.nscn, RegionsOf(q))
    ensures ok ==>
      var o := old(OutlookOf(e, layout, fmt)).value;
      && e.ehdr == Some(NewEhdr(o.v, o.h, o.nphdr, o.nscn, o.items))
      && e.nscn == o.nscn && e.nphdr == o.nphdr && e.byteorder == o.v.byteorder
      && e.phdr == (if o.nphdr == 0 then o.phdr else PhdrTable(o.v, o.h, o.nphdr, o.phdr))
    ensures ok ==>
      var o := old(OutlookOf(e, layout, fmt)).value;
      && extents.Lists(q) && Ordered(q) && rc == End(q) == TotalEnd(o.v, o.h, o.nphdr, o.nscn, o.items)
      && |secs| == |o.items| && e.Ready() && e.Numbered()
      && (if secs == [] then |e.Order()| <= 1 else e.Order() == secs)
      && multiset(RegionsOf(q)) == multiset(AllRegions(o.v, o.h, o.nphdr, o.nscn, secs, o.items))
      && (CountsSafe(o.nphdr, o.nscn, o.items) ==>
            Resynced(e, o.v, o.h, secs, Recounted(o.v.m.c, o.items, o.nphdr, o.nscn), q, rc))
  {
    hide Progress, AllRegions, ScnTree.Valid, Rep, Bst, LayoutPossible, ItemsNow, Datas, FinalEhdr, CountsSafe, Nodes,
      InOrder, End, Ordered, RegionsOf, InRange, TotalEnd, ShdrOffset, PhdrOffset, PhdrTable, AllItems, TableThere,
      Recounted, AllLinked, AllSound, OutlookOf, Resynced, Elf.Valid, Elf.Numbered;
    rc, secs, q := 0, [], [];
    DatasExist(e.Order());
    NodesIn(e.tree, e.Order());
    ghost var o, hd := OutlookOf(e, layout, fmt), HeadOf(e);
    if o != None {
      HeaderMeaning(e, layout, fmt);
    }
    hide HeaderUpdated, Described, HeadOf, NewEhdr;
    ok := BeginResync(e, layout, fmt);
    if !ok {
      return;
    }
    NodesIn(e.tree, e.Order());
    ok, rc, secs, q := ResyncAll(e, Config(e.mode, layout, e.byteorder, fmt, e.raw), extents, e.ehdr.value,
        o.value.items);
    if ok {
      TablesMeaning(o.value.v, o.value.h, o.value.nphdr, o.value.nscn, secs, o.value.items, RegionsOf(q));
    }
  }

  // ---------- elf_update with ELF_C_NULL ----------

  lemma ChosenTableFits(e: Elf, fmt: Format)
    requires !e.mode.write && !e.loaded && OutlookOf(e, true, fmt) != None && LaidOut(OutlookOf(e, true, fmt).value)
    ensures var o := OutlookOf(e, true, fmt).value;
            TableFits(e.mode, e.raw, NewEhdr(o.v, o.h, o.nphdr, o.nscn, o.items), o.nscn)
  {
    hide PhdrOffset, ShdrOffset, LayoutPossible, ItemsNow, FileItems;
  }

  /** elf_update with ELF_C_NULL, and then the first call that needs the sections, for example elf_getscn. elf_update
      clears LIBELF_F_SHDRS_LOADED but keeps the sections, so that they are loaded again: the assertion that at most
      section 0 is there fails exactly when there are more sections and the section table that the new header
      describes would lie within the old file. In application layout it does, if it was read from there. */
  method UpdateNullAndLoad(e: Elf, layout: bool, fmt: Format, extents: ExtentList) returns (ok: bool, aborted: bool)
    requires e.Valid() && e.Numbered() && AllLinked(e.Scns()) && !e.mode.write
    requires extents.Lists([]) && Fsize(fmt, e.mode.c, ELF_T_PHDR) > 0
    requires OutlookOf(e, layout, fmt) != None ==>
      var o := OutlookOf(e, layout, fmt).value; InRange(o.v, o.h, o.nphdr, o.nscn, o.items)
    modifies extents, e, e.tree, e.Scns()`left, e.Scns()`right, e.Scns()`parent, e.Scns()`red
    modifies e.Scns()`shdr, e.Scns()`dirty, e.Scns()`size, e.Scns()`offset, e.Scns()`data, Datas(e.Order())`off
    ensures ok <==> old(OutlookOf(e, layout, fmt)) != None && LaidOut(old(OutlookOf(e, layout, fmt)).value)
    ensures ok ==>
      var o := old(OutlookOf(e, layout, fmt)).value;
      && (aborted <==> |o.items| > 1 && TableFits(e.mode, e.raw, NewEhdr(o.v, o.h, o.nphdr, o.nscn, o.items), o.nscn))
      && (layout && !old(e.loaded) ==> (aborted <==> |o.items| > 1))
  {
    hide Progress, AllRegions, ScnTree.Valid, Rep, Bst, LayoutPossible, ItemsNow, Datas, FinalEhdr, CountsSafe, Nodes,
      InOrder, End, Ordered, RegionsOf, InRange, TotalEnd, ShdrOffset, PhdrOffset, PhdrTable, AllItems, TableThere,
      Recounted, AllLinked, AllSound, OutlookOf, Resynced, TableFits, LaidOut;
    aborted := false;
    if layout && !e.loaded && OutlookOf(e, true, fmt) != None && LaidOut(OutlookOf(e, true, fmt).value) {
      ChosenTableFits(e, fmt);
    }
    ghost var secs, q;
    var rc;
    ok, rc, secs, q := ResyncElf(e, layout, fmt, extents);
    ghost var xs := e.Members();
    e.loaded := false;
    if ok {
      var _, again := e.LoadSectionHeaders();
      aborted := again;
    }
  }

  // ---------- Library layout as a whole ----------

  /** In library layout the executable header, the program header table, the sections by index and the section header
      table follow one another. */
  lemma LibraryChain(v: Config, h: Ehdr, phnum: nat, shnum: nat, secs: seq<Scn>, items: seq<Item>)
    requires !v.layout && |secs| == |items| && AllSound(v, items) && Fsize(v.fmt, v.m.c, ELF_T_PHDR) > 0
    ensures Chained(AllRegions(v, h, phnum, shnum, secs, items)) &&
        NonEmpty(AllRegions(v, h, phnum, shnum, secs, items))
    ensures Below(AllRegions(v, h, phnum, shnum, secs, items), TotalEnd(v, h, phnum, shnum, items))
  {
    hide Leading, LeadingEnd, Regions, EndAfter, ItemRegion, AllSound, Chained, Below, RoundUp;
    var lead, rc := Leading(v, h, phnum), LeadingEnd(v, h, phnum);
    var end := EndAfter(v, items, rc, |secs|);
    var all, t := lead + Regions(v, secs, items, rc, |secs|), Trailing(v, h, shnum, end);
    LeadingChained(v, h, phnum);
    LibraryChained(v, lead, secs, items, rc, |secs|);
    if shnum == 0 {
      assert all + t == all;
    } else {
      RoundUpFacts(end, TableAlign(v.m.c));
      ChainedSnoc(all, t[0], end);
      assert t == [t[0]];
      TableSize(v.m.c, shnum);
    }
  }

  lemma TableSize(c: Class, n: nat)
    requires n > 0
    ensures ShdrSize(c) * n > 0
  {
  }

  /** In library layout nothing but a section without a plan, or an end past the largest off_t, can make the layout
      fail. */
  lemma LibraryLayout(v: Config, h: Ehdr, phnum: nat, shnum: nat, items: seq<Item>)
    requires !v.layout && AllSound(v, items) && Fsize(v.fmt, v.m.c, ELF_T_PHDR) > 0
    ensures LayoutPossible(v, h, phnum, shnum, items) <==>
            BodyEnd(v, h, phnum, items) < OFF_T_LIMIT && forall i :: 0 <= i < |items| ==> !items[i].Bad?
  {
    hide Leading, LeadingEnd, Regions, EndAfter, ItemRegion, AllSound, Chained, RoundUp, Good;
    var lead, rc, secs := Leading(v, h, phnum), LeadingEnd(v, h, phnum), Nobody(|items|);
    LeadingChained(v, h, phnum);
    LibraryNeverOverlaps(v, lead, secs, items, rc);
    LibraryChained(v, lead, secs, items, rc, |items|);
    RoundUpFacts(BodyEnd(v, h, phnum, items), TableAlign(v.m.c));
  }

  /** In application layout an object can be laid out exactly when every section with contents has a plan, no two of the
      regions of the headers, the tables and the sections overlap, the tables are where their entries can be, and the
      sections end within off_t. */
  lemma ChosenLayout(v: Config, h: Ehdr, phnum: nat, shnum: nat, items: seq<Item>)
    requires v.layout && AllSound(v, items)
    ensures LayoutPossible(v, h, phnum, shnum, items) <==>
            && (phnum > 0 ==>
                  && h.phoff >= (if v.m.c.Class32? then 52 else 64)
                  && h.phoff % (if v.m.c.Class32? then 4 else 8) == 0)
            && (shnum > 0 ==> h.shoff % (if v.m.c.Class32? then 4 else 8) == 0)
            && (forall i :: 0 <= i < |items| ==> !items[i].Bad?)
            && Disjoint(AllRegions(v, h, phnum, shnum, Nobody(|items|), items))
            && BodyEnd(v, h, phnum, items) < 0x8000_0000_0000_0000
  {
    hide Regions, EndAfter, ItemRegion, AllSound, Disjoint, Leading, LeadingEnd, NoneClash;
    var lead, rc, secs := Leading(v, h, phnum), LeadingEnd(v, h, phnum), Nobody(|items|);
    var all, tail := lead + Regions(v, secs, items, rc, |items|), Trailing(v, h, shnum, BodyEnd(v, h, phnum, items));
    DisjointMore(all, tail);
    assert AllRegions(v, h, phnum, shnum, secs, items) == all + tail;
  }

  /** After a library layout the list of extents is that chain. */
  lemma LibraryExtents(v: Config, h: Ehdr, phnum: nat, shnum: nat, secs: seq<Scn>, items: seq<Item>, q: seq<Extent>)
    requires !v.layout && |secs| == |items| && AllSound(v, items) && Fsize(v.fmt, v.m.c, ELF_T_PHDR) > 0
    requires Ordered(q) && multiset(RegionsOf(q)) == multiset(AllRegions(v, h, phnum, shnum, secs, items))
    ensures RegionsOf(q) == AllRegions(v, h, phnum, shnum, secs, items)
  {
    var r := AllRegions(v, h, phnum, shnum, secs, items);
    LibraryChain(v, h, phnum, shnum, secs, items);
    ChainedRegions(q);
    forall i | 0 <= i < |q| ensures RegionsOf(q)[i].size > 0 {
      assert RegionsOf(q)[i] in multiset(r);
    }
    ChainUnique(RegionsOf(q), r);
  }

  /** A section that the library laid out starts at a multiple of the alignment its header then has, as long as that
      alignment fits into the field. */
  lemma SectionAligned(v: Config, s: Scn, it: Item, rc: nat)
    requires !v.layout && it.Put? && Sound(v, it) && Dealt(v, s, it, rc) && it.p.align < Limit(v.m.c)
    ensures s.shdr.addralign > 0 && s.offset % s.shdr.addralign == 0 && rc <= s.offset
  {
    hide Limit, Linked, RoundUp, ShType, Spread, AllOk;
    RoundUpFacts(rc, it.p.align);
    ModUnique(it.p.align, Limit(v.m.c), 0, it.p.align);
  }
}
