/** An ELF descriptor and its section index: the header and section table loading of libelf_ehdr.c and elf_scn.c,
    section creation, lookup and traversal, and the count setters of libelf_extended.c. */
module ElfObject {
  import opened Codec
  import opened Section
  import opened RbShape
  import opened RbTree
  import opened Extended

  /** What an ELF descriptor is opened with: its class, whether e_cmd is ELF_C_WRITE, and the native byte order. */
  datatype Mode = Mode(c: Class, write: bool, native: Order)

  function OrderCode(o: Order): nat {
    match o case Lsb => 1 case Msb => 2
  }

  /** The byte order a translator called with the swap flag of b != native works in. */
  function OrderOf(b: nat, native: Order): Order {
    if b == OrderCode(native) then native else if native == Lsb then Msb else Lsb
  }

  /** The section indices of q are 0, 1, ..., n - 1. */
  ghost predicate Indexed(q: seq<Scn>, n: nat) {
    |q| == n && forall i :: 0 <= i < n ==> q[i].ndx == i
  }

  function ClassCode(c: Class): byte {
    match c case Class32 => 1 case Class64 => 2
  }

  /** EHDR_INIT. */
  function InitialEhdr(c: Class): Ehdr {
    Ehdr([0x7f, 0x45, 0x4c, 0x46, ClassCode(c), 0, 1, 0, 0, 0, 0, 0, 0, 0, 0, 0],
         0, 0, EV_CURRENT, 0, 0, 0, 0, 0, 0, 0, 0, 0, 0)
  }

  /** A new executable header names the class and the current version, and has no byte order, no type, no tables and no
      counts. */
  lemma InitialEhdrMeaning(c: Class)
    ensures var h := InitialEhdr(c);
            && |h.ident| == 16 && h.ident[0..4] == [0x7f, 0x45, 0x4c, 0x46]
            && h.ident[4] == (if c.Class32? then 1 else 2) && h.ident[6] == 1 && h.version == 1
            && (forall i :: i in {5, 7, 8, 9, 10, 11, 12, 13, 14, 15} ==> h.ident[i] == 0)
            && h.typ == h.machine == h.entry == h.flags == 0 && h.phoff == h.shoff == 0
            && h.ehsize == h.phentsize == h.shentsize == 0 && h.phnum == h.shnum == h.shstrndx == 0
    ensures forall i :: 0 <= i < 10 ==> ShdrValues(EMPTY_SHDR)[i] == 0
  {
  }

  /** The header of the file raw. */
  function FileEhdr(m: Mode, byteorder: nat, raw: seq<byte>): Ehdr
    requires EhdrSize(m.c) <= |raw|
  {
    GetEhdr(m.c, OrderOf(byteorder, m.native), raw[..EhdrSize(m.c)])
  }

  /** The section table of n entries at h.shoff lies within raw, and its entries have the size the library knows. */
  predicate TableFits(m: Mode, raw: seq<byte>, h: Ehdr, n: nat) {
    h.shoff <= |raw| && ShdrSize(m.c) == h.shentsize && ShdrSize(m.c) * n <= |raw| - h.shoff
  }

  lemma IndexedBelow(s: Shape, n: nat)
    requires Indexed(InOrder(s), n)
    ensures forall x <- Nodes(s) :: x.ndx < n
  {
    InOrderNodes(s);
  }

  /** Entry i of the section table of the file raw. */
  function TableEntry(m: Mode, byteorder: nat, raw: seq<byte>, h: Ehdr, i: nat): Shdr {
    if TableFits(m, raw, h, i + 1) then ShdrAt(m.c, OrderOf(byteorder, m.native), raw, h.shoff, i) else EMPTY_SHDR
  }

  lemma TablePrefix(m: Mode, raw: seq<byte>, h: Ehdr, i: nat, n: nat)
    requires TableFits(m, raw, h, n) && i < n
    ensures TableFits(m, raw, h, i + 1)
  {
    assert ShdrSize(m.c) * (i + 1) <= ShdrSize(m.c) * n;
  }

  /** ELFDATA2LSB is 1 and ELFDATA2MSB is 2, on every machine. */
  lemma OrderMeaning(b: nat, native: Order)
    ensures b == 1 ==> OrderOf(b, native) == Lsb
    ensures b == 2 ==> OrderOf(b, native) == Msb
  {
  }

  /** The section header h is stored at position i of the table that starts at shoff in the file raw. */
  predicate Stored(c: Class, o: Order, raw: seq<byte>, shoff: nat, i: nat, h: Shdr) {
    match c
    case Class32 => shoff + 40 * i + 40 <= |raw| && ShdrLaidOut(c, o, raw[shoff + 40 * i..shoff + 40 * i + 40], h)
    case Class64 => shoff + 64 * i + 64 <= |raw| && ShdrLaidOut(c, o, raw[shoff + 64 * i..shoff + 64 * i + 64], h)
  }

  lemma EntryStored(m: Mode, byteorder: nat, raw: seq<byte>, h: Ehdr, i: nat)
    requires TableFits(m, raw, h, i + 1)
    ensures Stored(m.c, OrderOf(byteorder, m.native), raw, h.shoff, i, TableEntry(m, byteorder, raw, h, i))
  {
    hide GetShdr, ShdrLaidOut;
    var at := h.shoff + i * ShdrSize(m.c);
    assert at + ShdrSize(m.c) <= |raw|;
    ShdrFields(m.c, OrderOf(byteorder, m.native), raw[at..at + ShdrSize(m.c)]);
  }

  /** The executable header is that at the start of the file. */
  lemma HeaderStored(m: Mode, byteorder: nat, raw: seq<byte>)
    requires EhdrSize(m.c) <= |raw|
    ensures var n := if m.c.Class32? then 52 else 64;
            && n <= |raw|
            && EhdrLaidOut(m.c, OrderOf(byteorder, m.native), raw[..n], FileEhdr(m, byteorder, raw))
  {
    EhdrFields(m.c, OrderOf(byteorder, m.native), raw[..EhdrSize(m.c)]);
  }

  /** Reading the counts brings section 0 in, whether or not it then turns out to be what it should. */
  predicate BringsFirst(c: Class, raw: seq<byte>, h: Ehdr) {
    !BadCounts(h) && IsExtended(h) && h.shoff + ShdrSize(c) <= |raw|
  }

  /** A file whose section 0 holds the counts and announces no sections. */
  predicate OrphanFile(m: Mode, byteorder: nat, raw: seq<byte>) {
    && EhdrSize(m.c) <= |raw|
    && var h := FileEhdr(m, byteorder, raw);
       var n := ReadCounts(m.c, OrderOf(byteorder, m.native), raw, h);
       n != None && n.value.shnum == 0 && IsExtended(h) && TableFits(m, raw, h, 0)
  }

  /** A file whose section 0 should hold the counts, but is not of type SHT_NULL. */
  predicate LateOrphanFile(m: Mode, byteorder: nat, raw: seq<byte>) {
    && EhdrSize(m.c) <= |raw|
    && var h := FileEhdr(m, byteorder, raw);
       && ReadCounts(m.c, OrderOf(byteorder, m.native), raw, h) == None
       && BringsFirst(m.c, raw, h) && TableFits(m, raw, h, 0)
  }

  /** Both kinds of files exist, in either byte order: a header and a section header 0 right behind it will do. */
  lemma OrphanFiles(m: Mode, o: Order, typ: nat)
    requires typ < Pow256(4)
    ensures var raw := OrphanImage(m.c, o, typ);
            if typ == SHT_NULL then OrphanFile(m, OrderCode(o), raw) else LateOrphanFile(m, OrderCode(o), raw)
  {
    hide FileEhdr, ShdrAt, OrphanImage, Pow256, PutShdr, ShdrFits, EhdrFits;
    OrphanFits(m.c, typ);
    OrphanHeaders(m, o, typ);
    FirstStored(m.c, o, EMPTY_SHDR.(typ := typ), OrphanImage(m.c, o, typ), EhdrSize(m.c));
  }

  lemma OrphanHeaders(m: Mode, o: Order, typ: nat)
    requires EhdrFits(m.c, OrphanEhdr(m.c))
    ensures FileEhdr(m, OrderCode(o), OrphanImage(m.c, o, typ)) == OrphanEhdr(m.c)
    ensures OrphanImage(m.c, o, typ)[EhdrSize(m.c)..EhdrSize(m.c) + ShdrSize(m.c)] ==
            PutShdr(m.c, o, EMPTY_SHDR.(typ := typ))
  {
    hide GetEhdr, PutEhdr, PutShdr, EhdrFits, OrphanEhdr;
    GetPutEhdr(m.c, o, OrphanEhdr(m.c));
    Halves(PutEhdr(m.c, o, OrphanEhdr(m.c)), PutShdr(m.c, o, EMPTY_SHDR.(typ := typ)));
  }

  lemma Halves(a: seq<byte>, b: seq<byte>)
    ensures (a + b)[..|a|] == a && (a + b)[|a|..|a| + |b|] == b
  {
  }

  function OrphanEhdr(c: Class): Ehdr {
    InitialEhdr(c).(shoff := EhdrSize(c), shentsize := ShdrSize(c))
  }

  function OrphanImage(c: Class, o: Order, typ: nat): (r: seq<byte>)
    ensures |r| == EhdrSize(c) + ShdrSize(c)
  {
    PutEhdr(c, o, OrphanEhdr(c)) + PutShdr(c, o, EMPTY_SHDR.(typ := typ))
  }

  lemma OrphanFits(c: Class, typ: nat)
    requires typ < Pow256(4)
    ensures EhdrFits(c, OrphanEhdr(c)) && ShdrFits(c, EMPTY_SHDR.(typ := typ)) && |OrphanEhdr(c).ident| == EI_NIDENT
  {
    hide Pow256;
    SmallFits();
  }

  lemma SmallFits()
    ensures Pow256(2) > 255 && Pow256(4) > 255 && Pow256(8) > 255
  {
    assert Pow256(2) == 256 * Pow256(1) && Pow256(4) == 256 * Pow256(3) && Pow256(3) == 256 * Pow256(2);
    assert Pow256(8) == 256 * Pow256(7) && Pow256(1) == 256;
  }

  /** The first and the last section of the index are the same exactly when there is one at most. */
  lemma OnlyOne(t: ScnTree)
    requires t.Valid()
    ensures First(InOrder(t.shape)) == Last(InOrder(t.shape)) <==> |InOrder(t.shape)| <= 1
  {
    BstIffAscending(t.shape);
  }

  class Elf {
    const mode: Mode
    const raw: seq<byte>
    const tree: ScnTree
    var byteorder: nat
    var ehdr: Option<Ehdr>
    var phdr: Option<seq<byte>>
    var nscn: nat
    var nphdr: nat
    var strndx: nat
    var loaded: bool

    constructor (mode: Mode, raw: seq<byte>, byteorder: nat)
      ensures this.mode == mode && this.raw == raw && this.byteorder == byteorder && ehdr == None && phdr == None
      ensures Valid() && Numbered() && fresh(tree) && tree.shape == Nil
    {
      this.mode, this.raw, this.byteorder := mode, raw, byteorder;
      ehdr, phdr, nscn, nphdr, strndx, loaded := None, None, 0, 0, 0, false;
      tree := new ScnTree();
    }

    ghost function Order(): seq<Scn>
      reads tree`shape
    {
      InOrder(tree.shape)
    }

    ghost function Scns(): set<Scn>
      reads tree`shape
    {
      Nodes(tree.shape)
    }

    ghost predicate Valid()
      reads this, tree, Scns()`left, Scns()`right, Scns()`parent, Scns()`red
    {
      tree.Valid() && (ehdr == None ==> tree.shape == Nil && nscn == nphdr == 0 && !loaded)
    }

    /** Section 0 alone is there, but not counted: it was read for its extended counts and they announce no sections, or
        it was made to take an extended count before there were sections. */
    ghost predicate Orphaned()
      reads this, tree
    {
      nscn == 0 && Indexed(Order(), 1)
    }

    /** The section indices are exactly 0, 1, ..., nscn - 1 as soon as the table is loaded, unless section 0 is
        orphaned; before that only section 0 may be there. */
    ghost predicate Numbered()
      reads this, tree
    {
      if mode.write || loaded then Indexed(Order(), nscn) || Orphaned()
      else Order() == [] || Indexed(Order(), 1)
    }

    /** Sections without data descriptors that nobody has changed. */
    ghost predicate Blanks(xs: set<Scn>)
      reads xs`data, xs`dirty
    {
      forall x <- xs :: x.data == [] && !x.dirty
    }

    /** The sections of the tree, as objects that exist already. */
    ghost method Members() returns (xs: set<Scn>)
      ensures xs == Scns()
    {
      xs := Scns();
    }

    /** _libelf_allocate_scn, with ELF_F_DIRTY set for a section that the application asked for. */
    method AllocateScn(ndx: nat, flag: bool) returns (s: Scn)
      requires Valid() && ehdr != None && forall x <- Scns() :: x.ndx < ndx
      modifies tree, Scns()`left, Scns()`right, Scns()`parent, Scns()`red
      ensures Valid() && fresh(s) && s.ndx == ndx && s.shdr == EMPTY_SHDR && s.data == [] && s.dirty == flag &&
          s.size == 0
      ensures Order() == old(Order()) + [s] && Scns() == old(Scns()) + {s}
    {
      ghost var q := Order();
      ghost var xs := Members();
      s := new Scn(ndx);
      s.dirty := flag;
      InOrderNodes(tree.shape);
      InsertedAt(q, s, []);
      assert q + [] == q && q + [s] + [] == q + [s];
      var r := tree.Insert(s);
    }

    // ---------- _libelf_ehdr, _libelf_load_extended ----------

    /** _libelf_load_extended: section 0 is brought in for the counts that its header holds. */
    method LoadExtended(h: Ehdr) returns (ok: bool)
      requires Valid() && ehdr != None && tree.shape == Nil
      modifies this`nscn, this`nphdr, this`strndx, tree
      ensures Valid()
      ensures ok <==> h.shoff + ShdrSize(mode.c) <= |raw| && ExtendedCounts(h, FirstShdr(h)) != None
      ensures ok ==> ExtendedCounts(h, FirstShdr(h)) == Some(Counts(nscn, nphdr, strndx))
      ensures Order() != [] <==> h.shoff + ShdrSize(mode.c) <= |raw|
      ensures Order() == [] || (Indexed(Order(), 1) && fresh(Scns()) && Order()[0].shdr == FirstShdr(h))
      ensures Blanks(Scns())
      ensures !ok ==> nscn == old(nscn) && nphdr == old(nphdr) && strndx == old(strndx)
    {
      hide Rep, Bst, ScnTree.Valid, ShdrAt;
      if |raw| < h.shoff + ShdrSize(mode.c) {
        return false;
      }
      var scn := AllocateScn(0, false);
      scn.shdr := ShdrAt(mode.c, OrderOf(byteorder, mode.native), raw, h.shoff, 0);
      if scn.shdr.typ != SHT_NULL {
        return false;
      }
      nscn := scn.shdr.size;
      nphdr := if h.phnum != PN_XNUM then h.phnum else scn.shdr.info;
      strndx := if h.shstrndx != SHN_XINDEX then h.shstrndx else scn.shdr.link;
      ok := true;
    }

    ghost function FirstShdr(h: Ehdr): Shdr
      reads this
    {
      if h.shoff + ShdrSize(mode.c) <= |raw| then ShdrAt(mode.c, OrderOf(byteorder, mode.native), raw, h.shoff, 0)
      else EMPTY_SHDR
    }

    /** _libelf_ehdr, not allocating. A header that was read once is returned again, even when reading the counts
        after it had failed. */
    method LoadEhdr() returns (ok: bool)
      requires Valid() && Numbered()
      modifies this`ehdr, this`nscn, this`nphdr, this`strndx, tree
      ensures Valid() && Numbered() && (ok ==> ehdr != None)
      ensures old(ehdr) != None ==> ok && unchanged(this) && unchanged(tree)
      ensures old(ehdr) == None && mode.write ==>
        ok && ehdr == Some(InitialEhdr(mode.c)) && Order() == [] && nscn == nphdr == 0
      ensures old(ehdr) == None && !mode.write ==>
        (ok <==> EhdrSize(mode.c) <= |raw| &&
                 ReadCounts(mode.c, OrderOf(byteorder, mode.native), raw, FileEhdr(mode, byteorder, raw)) != None)
      ensures old(ehdr) == None && !mode.write && ok ==>
        && ehdr == Some(FileEhdr(mode, byteorder, raw))
        && ReadCounts(mode.c, OrderOf(byteorder, mode.native), raw, ehdr.value) == Some(Counts(nscn, nphdr, strndx))
        && (Order() == [] || Order()[0].shdr == FirstShdr(ehdr.value))
        && (Order() != [] <==> IsExtended(ehdr.value))
      ensures old(ehdr) == None && !mode.write ==>
        if EhdrSize(mode.c) <= |raw| then
          && ehdr == Some(FileEhdr(mode, byteorder, raw)) && (!ok ==> nscn == 0)
          && (Order() != [] <==> BringsFirst(mode.c, raw, ehdr.value))
        else ehdr == None
      ensures old(ehdr) == None && !mode.write && ehdr != None ==>
        var n := if mode.c.Class32? then 52 else 64;
        n <= |raw| && EhdrLaidOut(mode.c, OrderOf(byteorder, mode.native), raw[..n], ehdr.value)
      ensures (forall x <- Scns() :: x in old(Scns()) || fresh(x)) && (old(ehdr) == None ==> Blanks(Scns()))
    {
      hide EhdrLaidOut;
      if ehdr != None {
        return true;
      }
      if !mode.write && |raw| < EhdrSize(mode.c) {
        return false;
      }
      ehdr := Some(InitialEhdr(mode.c));
      if mode.write {
        return true;
      }
      var h := FileEhdr(mode, byteorder, raw);
      HeaderStored(mode, byteorder, raw);
      ehdr := Some(h);
      ok := LoadCounts(h);
    }

    /** The part of _libelf_ehdr that checks the counts of a header read from a file. */
    method LoadCounts(h: Ehdr) returns (ok: bool)
      requires Valid() && ehdr == Some(h) && tree.shape == Nil && nscn == 0 && !loaded && !mode.write
      modifies this`nscn, this`nphdr, this`strndx, tree
      ensures Valid() && Numbered() && (forall x <- Scns() :: fresh(x)) && Blanks(Scns())
      ensures ok <==> ReadCounts(mode.c, OrderOf(byteorder, mode.native), raw, h) != None
      ensures ok ==> ReadCounts(mode.c, OrderOf(byteorder, mode.native), raw, h) == Some(Counts(nscn, nphdr, strndx))
      ensures (Order() == [] || Order()[0].shdr == FirstShdr(h)) && (Order() != [] <==> BringsFirst(mode.c, raw, h))
      ensures !ok ==> nscn == 0
    {
      if BadCounts(h) {
        return false;
      }
      if (h.shnum == 0 && h.shoff != 0) || h.phnum == PN_XNUM || h.shstrndx == SHN_XINDEX {
        ok := LoadExtended(h);
      } else {
        nphdr, nscn, strndx := h.phnum, h.shnum, h.shstrndx;
        ok := true;
      }
    }

    // ---------- _libelf_load_section_headers ----------

    /** Section x is as entry i of the table in the file describes it, and nobody has changed it. */
    ghost predicate AsInFile(h: Ehdr, x: Scn, i: nat)
      reads this`byteorder, x`shdr, x`rawoff, x`offset, x`size, x`data, x`dirty
    {
      && x.shdr == TableEntry(mode, byteorder, raw, h, i) && x.data == [] && !x.dirty
      && x.rawoff == x.offset == x.shdr.offset && x.size == x.shdr.size
    }

    /** _libelf_load_section_headers. The section indices are 0 to nscn - 1 afterwards, except when section 0 was
        already read in for its extended counts and announces no sections at all. The assertion that there is no other
        section fails when sections were loaded before. */
    method LoadSectionHeaders() returns (ok: bool, aborted: bool)
      requires Valid() && (Numbered() || |Order()| > 1) && ehdr != None && !mode.write && !loaded
      modifies this`loaded, tree, Scns()`left, Scns()`right, Scns()`parent, Scns()`red
      ensures Valid() && (old(Numbered()) ==> Numbered())
      ensures ok || aborted <==> TableFits(mode, raw, ehdr.value, nscn)
      ensures if aborted then !ok && old(|Order()|) > 1 else ok ==> old(|Order()|) <= 1
      ensures !ok ==> unchanged(this) && unchanged(tree)
      ensures ok ==> loaded && old(Order()) <= Order() && (Indexed(Order(), nscn) <==> nscn != 0 || old(Order()) == [])
      ensures ok ==> forall i :: |old(Order())| <= i < nscn ==>
        i < |Order()| && AsInFile(ehdr.value, Order()[i], i)
      ensures ok ==> forall i :: |old(Order())| <= i < nscn ==>
        var x := Order()[i];
        && Stored(mode.c, OrderOf(byteorder, mode.native), raw, ehdr.value.shoff, i, x.shdr)
        && x.offset == x.rawoff == x.shdr.offset && x.size == x.shdr.size
      ensures ok || aborted <==>
        var sz := if mode.c.Class32? then 40 else 64;
        ehdr.value.shentsize == sz && ehdr.value.shoff + sz * nscn <= |raw|
      ensures (forall x <- Scns() :: x in old(Scns()) || fresh(x))
    {
      hide Rep, Bst, TableEntry, Stored;
      var h := ehdr.value;
      aborted := false;
      if h.shoff > |raw| || ShdrSize(mode.c) != h.shentsize || ShdrSize(mode.c) * nscn > |raw| - h.shoff {
        return false, false;
      }
      var i := 0;
      if tree.root != null {
        var min := tree.MinMax(-1);
        var max := tree.MinMax(1);
        OnlyOne(tree);
        if min != max {
          return false, true;
        }
        i := 1;
      }
      LoadEntries(h, i);
      forall j | i <= j < nscn ensures j < |Order()| &&
        Stored(mode.c, OrderOf(byteorder, mode.native), raw, h.shoff, j, Order()[j].shdr)
      {
        TablePrefix(mode, raw, h, j, nscn);
        EntryStored(mode, byteorder, raw, h, j);
        assert AsInFile(h, Order()[j], j);
      }
      loaded := true;
      ok := true;
    }

    /** The loop over the table. */
    method LoadEntries(h: Ehdr, first: nat)
      requires Valid() && ehdr != None && TableFits(mode, raw, h, nscn) && Indexed(Order(), first)
      modifies tree, Scns()`left, Scns()`right, Scns()`parent, Scns()`red
      ensures Valid() && old(Order()) <= Order() && (forall x <- Scns() :: x in old(Scns()) || fresh(x))
      ensures Indexed(Order(), if nscn <= first then first else nscn)
      ensures forall i :: first <= i < nscn ==> AsInFile(h, Order()[i], i)
    {
      hide Rep, Bst, TableEntry, TableFits, ScnTree.Valid;
      var i := first;
      ghost var q := Order();
      while i < nscn
        invariant Valid() && (forall x <- Scns() :: x in old(Scns()) || fresh(x))
        invariant q == Order() && i <= (if nscn <= first then first else nscn) && Indexed(q, i) && old(Order()) <= q
        invariant forall j :: first <= j < i ==> AsInFile(h, q[j], j)
      {
        TablePrefix(mode, raw, h, i, nscn);
        var s := LoadEntry(h, i, q);
        assert forall j :: first <= j < i ==> AsInFile(h, q[j], j);
        q := q + [s];
        i := i + 1;
      }
    }

    method LoadEntry(h: Ehdr, i: nat, ghost q: seq<Scn>) returns (s: Scn)
      requires Valid() && ehdr != None && TableFits(mode, raw, h, i + 1) && Order() == q && Indexed(q, i)
      modifies tree, Scns()`left, Scns()`right, Scns()`parent, Scns()`red
      ensures Valid() && fresh(s) && s.ndx == i && AsInFile(h, s, i)
      ensures Order() == q + [s] && Scns() == old(Scns()) + {s}
    {
      hide Rep, Bst, ScnTree.Valid, TableEntry;
      IndexedBelow(tree.shape, i);
      s := AllocateScn(i, false);
      ghost var xs := Members();
      FillIn(s, TableEntry(mode, byteorder, raw, h, i));
    }

    static method FillIn(scn: Scn, h: Shdr)
      modifies scn`shdr, scn`offset, scn`rawoff, scn`size
      ensures scn.shdr == h && scn.rawoff == scn.offset == h.offset && scn.size == h.size
    {
      scn.shdr := h;
      scn.offset, scn.rawoff, scn.size := h.offset, h.offset, h.size;
    }

    // ---------- elf_getscn, elf_newscn, elf_nextscn ----------

    /** The header is there and, when the object has a file, so is the section table. */
    ghost predicate Ready()
      reads this
    {
      ehdr != None && (mode.write || loaded)
    }

    /** What elf_getscn and elf_newscn do first. */
    method Prepare() returns (ok: bool)
      requires Valid() && Numbered()
      modifies this`ehdr, this`nscn, this`nphdr, this`strndx, this`loaded
      modifies tree, Scns()`left, Scns()`right, Scns()`parent, Scns()`red
      ensures Valid() && Numbered() && (ok ==> Ready()) && (forall x <- Scns() :: x in old(Scns()) || fresh(x))
      ensures old(Ready()) ==> ok && unchanged(this) && unchanged(tree)
      ensures old(ehdr) == None && !mode.write ==>
        (ok && Orphaned() <==> OrphanFile(mode, byteorder, raw)) &&
        (!ok && ehdr != None && nscn == 0 && Order() != [] && TableFits(mode, raw, ehdr.value, 0) <==>
         LateOrphanFile(mode, byteorder, raw))
      ensures old(ehdr) != None && !mode.write && !old(loaded) ==>
        (ok && Orphaned() <==> old(nscn) == 0 && old(Order()) != [] && TableFits(mode, raw, old(ehdr).value, 0))
      ensures !ok ==> !mode.write && !loaded
      ensures byteorder == old(byteorder)
    {
      hide EhdrLaidOut, Stored, Rep, Bst, TableEntry, FileEhdr, ReadCounts;
      ok := LoadEhdr();
      ghost var xs := Members();
      if ok && !mode.write && !loaded {
        var aborted;
        ok, aborted := LoadSectionHeaders();
      }
    }

    method GetScn(index: nat) returns (s: Scn?, ghost ok: bool)
      requires Valid() && Numbered()
      modifies this`ehdr, this`nscn, this`nphdr, this`strndx, this`loaded
      modifies tree, Scns()`left, Scns()`right, Scns()`parent, Scns()`red
      ensures Valid() && Numbered() && (ok ==> Ready()) && (forall x <- Scns() :: x in old(Scns()) || fresh(x))
      ensures old(Ready()) ==> ok && unchanged(this) && unchanged(tree)
      ensures s != null ==> ok && s in Scns() && s.ndx == index
      ensures ok ==> (s != null <==> index < if Orphaned() then 1 else nscn)
    {
      var prepared := Prepare();
      ok := prepared;
      if !prepared {
        return null, false;
      }
      ghost var steps;
      s, steps := tree.Search(index);
      InOrderNodes(tree.shape);
      assert index < |Order()| ==> Order()[index] in Elems(Order());
    }

    /** elf_newscn: the new section gets the next free index, and the first one ever made comes after section 0. When
        section 0 is orphaned, the assertion that the section count is positive fails. */
    method NewScn() returns (r: Outcome)
      requires Valid() && Numbered()
      modifies this`ehdr, this`nscn, this`nphdr, this`strndx, this`loaded
      modifies tree, Scns()`left, Scns()`right, Scns()`parent, Scns()`red
      ensures Valid() && Numbered() && (forall x <- Scns() :: x in old(Scns()) || fresh(x))
      ensures old(Ready()) ==> (r.Aborted? <==> old(Orphaned())) && !r.Failed?
      ensures r.Aborted? ==> Orphaned()
      ensures old(ehdr) == None && !mode.write ==> (r.Aborted? <==> OrphanFile(mode, byteorder, raw))
      ensures old(ehdr) == None && !mode.write && r.Failed? ==>
        !loaded && (ehdr != None && nscn == 0 && Order() != [] && TableFits(mode, raw, ehdr.value, 0) <==>
                    LateOrphanFile(mode, byteorder, raw))
      ensures old(ehdr) != None && !mode.write && !old(loaded) ==>
        (r.Aborted? <==> old(nscn) == 0 && old(Order()) != [] && TableFits(mode, raw, old(ehdr).value, 0))
      ensures byteorder == old(byteorder)
      ensures r.Made? ==> Ready() && Indexed(Order(), nscn) && nscn >= 2 && r.s == Order()[nscn - 1]
      ensures r.Made? ==> fresh(r.s) && r.s.dirty && r.s.shdr == EMPTY_SHDR && r.s.data == []
      ensures old(Ready()) && r.Made? ==>
        old(Order()) <= Order() && nscn == (if old(nscn) == 0 then 2 else old(nscn) + 1)
    {
      var ok := Prepare();
      if !ok {
        return Failed;
      }
      r := AppendScn();
    }

    method AppendScn() returns (r: Outcome)
      requires Valid() && Numbered() && Ready()
      modifies this`nscn, tree, Scns()`left, Scns()`right, Scns()`parent, Scns()`red
      ensures Valid() && Numbered() && (forall x <- Scns() :: x in old(Scns()) || fresh(x))
      ensures !r.Failed? && (r.Aborted? <==> old(Orphaned())) && (r.Aborted? ==> Orphaned())
      ensures r.Made? ==> old(Order()) <= Order() && nscn == (if old(nscn) == 0 then 2 else old(nscn) + 1)
      ensures r.Made? ==> Indexed(Order(), nscn) && nscn >= 2 && r.s == Order()[nscn - 1]
      ensures r.Made? ==> fresh(r.s) && r.s.dirty && r.s.shdr == EMPTY_SHDR && r.s.data == []
    {
      FirstScn();
      if nscn == 0 {
        return Aborted;
      }
      ghost var xs := Members();
      var scn := AddScn(true);
      r := Made(scn);
    }

    /** Section 0, when there are no sections yet. */
    method FirstScn()
      requires Valid() && Numbered() && Ready()
      modifies this`nscn, tree, Scns()`left, Scns()`right, Scns()`parent, Scns()`red
      ensures Valid() && Numbered() && (forall x <- Scns() :: x in old(Scns()) || fresh(x))
      ensures (nscn == 0 <==> old(Orphaned())) && (nscn == 0 ==> Orphaned())
      ensures nscn != 0 ==> Indexed(Order(), nscn) && old(Order()) <= Order()
      ensures nscn == if old(Order()) == [] then 1 else old(nscn)
    {
      if tree.root == null {
        var scn0 := AddScn(false);
      }
    }

    /** A section with the next free index, flagged ELF_F_DIRTY or not. */
    method AddScn(flag: bool) returns (scn: Scn)
      requires Valid() && ehdr != None && Indexed(Order(), nscn)
      modifies this`nscn, tree, Scns()`left, Scns()`right, Scns()`parent, Scns()`red
      ensures Valid() && Order() == old(Order()) + [scn] && Scns() == old(Scns()) + {scn}
      ensures nscn == old(nscn) + 1 && Indexed(Order(), nscn)
      ensures fresh(scn) && scn.shdr == EMPTY_SHDR && scn.data == [] && scn.dirty == flag
    {
      IndexedBelow(tree.shape, nscn);
      scn := AllocateScn(nscn, flag);
      nscn := nscn + 1;
    }

    /** The first calls of elf_newscn on an object opened from a file: the assertion that there are sections fails at
        once for a file whose section 0 announces none, and the second time for a file whose section 0 has another
        type. */
    method FirstNewScns() returns (r1: Outcome, r2: Outcome)
      requires Valid() && Numbered() && ehdr == None && !mode.write
      modifies this`ehdr, this`nscn, this`nphdr, this`strndx, this`loaded
      modifies tree, Scns()`left, Scns()`right, Scns()`parent, Scns()`red
      ensures r1.Aborted? <==> OrphanFile(mode, byteorder, raw)
      ensures r1.Failed? ==> (r2.Aborted? <==> LateOrphanFile(mode, byteorder, raw))
    {
      r1 := NewScn();
      r2 := r1;
      if r1.Failed? {
        ghost var xs := Members();
        r2 := NewScn();
      }
    }

    method NextScn(s: Scn?) returns (r: Scn?)
      requires Valid() && Numbered() && (s != null ==> s in Scns())
      modifies this`ehdr, this`nscn, this`nphdr, this`strndx, this`loaded
      modifies tree, Scns()`left, Scns()`right, Scns()`parent, Scns()`red
      ensures Valid() && Numbered() && (forall x <- Scns() :: x in old(Scns()) || fresh(x))
      ensures old(Ready()) ==> unchanged(this) && unchanged(tree)
      ensures old(Ready()) && Indexed(Order(), nscn) ==>
        var i := if s == null then 1 else s.ndx + 1; r == if i < nscn then Order()[i] else null
    {
      if s == null {
        ghost var ok;
        r, ok := GetScn(1);
        if r != null && Indexed(Order(), nscn) {
          IndexedAt(tree.shape, nscn, r);
        }
      } else {
        r := tree.Next(s);
        if Indexed(Order(), nscn) {
          IndexedNext(tree.shape, nscn, s);
        }
      }
    }

    /** The documented use of elf_nextscn enumerates the sections 1 to nscn - 1. */
    method Sections() returns (visited: seq<Scn>)
      requires Valid() && Ready() && Indexed(Order(), nscn)
      modifies this`ehdr, this`nscn, this`nphdr, this`strndx, this`loaded
      modifies tree, Scns()`left, Scns()`right, Scns()`parent, Scns()`red
      ensures visited == Tail(Order())
      ensures unchanged(this) && unchanged(tree)
    {
      hide Rep, Bst;
      ghost var t := Tail(Order());
      visited := [];
      var s := NextScn(null);
      while s != null
        invariant Valid() && unchanged(this) && unchanged(tree)
        invariant |visited| <= |t| && visited == t[..|visited|]
        invariant s == if |visited| < |t| then t[|visited|] else null
        decreases |t| - |visited|
      {
        TailAt(tree.shape, nscn, s, |visited|);
        visited := visited + [s];
        s := NextScn(s);
      }
    }

    // ---------- _libelf_setshnum, _libelf_setphnum, _libelf_setshstrndx ----------

    /** Section 0, where it is needed already to exist with index SHN_UNDEF. */
    ghost predicate HasFirst()
      reads tree
    {
      Order() == [] || Order()[0].ndx == 0
    }

    /** The objects of section 0. */
    ghost function Zero(): set<Scn>
      reads tree`shape
    {
      if Order() == [] then {} else {Order()[0]}
    }

    ghost function Counted(): Pair
      requires ehdr != None
      reads this`ehdr, tree`shape, Zero()`shdr
    {
      Pair(ehdr.value, if Order() == [] then EMPTY_SHDR else Order()[0].shdr)
    }

    /** _libelf_getscn0. */
    method GetScn0() returns (s: Scn)
      requires Valid() && ehdr != None && HasFirst()
      modifies tree
      ensures Valid() && HasFirst() && Zero() == {s} && Order()[0] == s && Counted() == old(Counted())
      ensures if old(Order()) == [] then fresh(s) && s.shdr == EMPTY_SHDR && Order() == [s] && Scns() == {s}
              else unchanged(tree)
    {
      ghost var xs := Members();
      InOrderNodes(tree.shape);
      assert Order() != [] ==> Order()[0] in xs;
      var min := tree.MinMax(-1);
      if min != null {
        return min;
      }
      assert tree.shape == Nil;
      s := AllocateScn(0, false);
    }

    method StoreShnum(shnum: nat)
      requires Valid() && ehdr != None && HasFirst()
      modifies this`ehdr, tree, (if shnum < SHN_LORESERVE then {} else Zero())`shdr,
          (if shnum < SHN_LORESERVE then {} else Zero())`dirty
      ensures Valid() && ehdr != None && HasFirst() && Counted() == SetShnum(mode.c, old(Counted()), shnum)
      ensures shnum < SHN_LORESERVE || old(Order()) != [] ==> unchanged(tree)
      ensures Zero() == old(Zero()) || fresh(Zero())
      ensures old(Numbered()) ==> Numbered()
      ensures old(Order()) == [] ==> |Order()| == (if shnum < SHN_LORESERVE then 0 else 1) && fresh(Scns())
    {
      hide Rep, Bst, ScnTree.Valid;
      var n := shnum;
      if shnum >= SHN_LORESERVE {
        var scn := GetScn0();
        scn.shdr := scn.shdr.(size := shnum % Limit(mode.c));
        scn.dirty := true;
        n := 0;
      }
      ehdr := Some(ehdr.value.(shnum := n % 0x1_0000));
    }

    method StorePhnum(phnum: nat)
      requires Valid() && ehdr != None && HasFirst()
      modifies this`ehdr, tree, (if phnum < PN_XNUM then {} else Zero())`shdr,
          (if phnum < PN_XNUM then {} else Zero())`dirty
      ensures Valid() && ehdr != None && HasFirst() && Counted() == SetPhnum(old(Counted()), phnum)
      ensures phnum < PN_XNUM || old(Order()) != [] ==> unchanged(tree)
      ensures Zero() == old(Zero()) || fresh(Zero())
      ensures old(Numbered()) ==> Numbered()
      ensures old(Order()) == [] ==> |Order()| == (if phnum < PN_XNUM then 0 else 1) && fresh(Scns())
    {
      hide Rep, Bst, ScnTree.Valid;
      var n := phnum;
      if phnum >= PN_XNUM {
        var scn := GetScn0();
        scn.shdr := scn.shdr.(info := phnum % 0x1_0000_0000);
        scn.dirty := true;
        n := PN_XNUM;
      }
      ehdr := Some(ehdr.value.(phnum := n % 0x1_0000));
    }

    method StoreShstrndx(shstrndx: nat)
      requires Valid() && ehdr != None && HasFirst()
      modifies this`ehdr, tree, (if shstrndx < SHN_LORESERVE then {} else Zero())`shdr,
          (if shstrndx < SHN_LORESERVE then {} else Zero())`dirty
      ensures Valid() && ehdr != None && HasFirst() && Counted() == SetShstrndx(old(Counted()), shstrndx)
      ensures shstrndx < SHN_LORESERVE || old(Order()) != [] ==> unchanged(tree)
      ensures Zero() == old(Zero()) || fresh(Zero())
      ensures old(Numbered()) ==> Numbered()
      ensures old(Order()) == [] ==> |Order()| == (if shstrndx < SHN_LORESERVE then 0 else 1) && fresh(Scns())
    {
      hide Rep, Bst, ScnTree.Valid;
      var n := shstrndx;
      if shstrndx >= SHN_LORESERVE {
        var scn := GetScn0();
        scn.shdr := scn.shdr.(link := shstrndx % 0x1_0000_0000);
        scn.dirty := true;
        n := SHN_XINDEX;
      }
      ehdr := Some(ehdr.value.(shstrndx := n % 0x1_0000));
    }

    /** A string table index for an object that is being created, and then its first section: the assertion in
        elf_newscn fails exactly when section 0 was made to take the index. */
    method IndexThenScn(shstrndx: nat) returns (r: Outcome)
      requires Valid() && Numbered() && ehdr != None && mode.write && Order() == []
      modifies this`ehdr, this`nscn, this`nphdr, this`strndx, this`loaded, tree
      ensures r.Aborted? <==> shstrndx >= SHN_LORESERVE
      ensures !r.Failed?
    {
      StoreShstrndx(shstrndx);
      ghost var xs := Members();
      r := NewScn();
    }
  }

  function Tail(q: seq<Scn>): seq<Scn> {
    if q == [] then [] else q[1..]
  }

  lemma TailAt(s: Shape, n: nat, x: Scn, k: nat)
    requires Indexed(InOrder(s), n) && k < |Tail(InOrder(s))| && x == Tail(InOrder(s))[k]
    ensures x in Nodes(s) && x.ndx == k + 1
    ensures k + 1 < |Tail(InOrder(s))| ==> Tail(InOrder(s))[k + 1] == InOrder(s)[k + 2]
  {
    InOrderNodes(s);
    assert x == InOrder(s)[k + 1];
  }

  datatype Outcome = Failed | Aborted | Made(s: Scn)

  lemma IndexedAt(s: Shape, n: nat, x: Scn)
    requires Indexed(InOrder(s), n) && x in Nodes(s)
    ensures x.ndx < n && InOrder(s)[x.ndx] == x
  {
    InOrderNodes(s);
    var i :| 0 <= i < n && InOrder(s)[i] == x;
  }

  lemma IndexedNext(s: Shape, n: nat, x: Scn)
    requires Indexed(InOrder(s), n) && x in Nodes(s)
    ensures x.ndx < n
    ensures Follower(InOrder(s), x) == if x.ndx + 1 < n then InOrder(s)[x.ndx + 1] else null
  {
    IndexedAt(s, n, x);
    var q := InOrder(s);
    var a, b := q[..x.ndx], q[x.ndx + 1..];
    assert q == a + [x] + b;
    FollowerAt(a, x, b);
  }
}
