/** Reading back the image that elf_update writes: the header, the counts, the section headers and the contents of the
    sections come back as they were. */
module RoundTrip {
  import opened Basics
  import opened Codec
  import opened Section
  import opened RbShape
  import opened RbTree
  import opened Extended
  import opened ElfObject
  import opened Placement
  import opened Extents
  import opened Layout
  import opened Resync
  import opened Writer
  import opened Update
  import Ar = Archive

  // ---------- What is in the headers ----------

  /** The header is initialised, and its byte order is the one in which the image is written. */
  predicate Stamped(o: Outlook) {
    && |o.h.ident| == EI_NIDENT && o.h.ident[..EI_CLASS] == [0x7f, 0x45, 0x4c, 0x46]
    && o.h.ident[EI_CLASS] == ClassCode(o.v.m.c) && o.h.ident[EI_DATA] as nat == o.v.byteorder
    && o.h.ident[EI_VERSION] == 1 && o.h.shentsize == ShdrSize(o.v.m.c)
  }

  /** Every object's outlook is. */
  lemma OutlookStamped(e: Elf, layout: bool, fmt: Format)
    ensures var o := OutlookOf(e, layout, fmt); o != None ==> Stamped(o.value)
  {
  }

  /** The application has set EI_DATA, and all header fields hold values of their C types. */
  predicate Fitting(o: Outlook) {
    && o.v.byteorder in {1, 2} && EhdrFits(o.v.m.c, o.h)
    && forall i :: 0 <= i < |o.items| ==> !o.items[i].Bad? && ShdrFits(o.v.m.c, o.items[i].h)
  }

  lemma Widths()
    ensures Pow256(2) == 0x1_0000 && Pow256(4) == 0x1_0000_0000 && Pow256(8) == 0x1_0000_0000_0000_0000
  {
    assert Pow256(1) == 256 && Pow256(2) == 256 * Pow256(1) && Pow256(3) == 256 * Pow256(2);
    assert Pow256(4) == 256 * Pow256(3) && Pow256(5) == 256 * Pow256(4) && Pow256(6) == 256 * Pow256(5);
    assert Pow256(7) == 256 * Pow256(6) && Pow256(8) == 256 * Pow256(7);
  }

  lemma HeaderFits(o: Outlook)
    requires AllSound(o.v, o.items) && Fitting(o)
    ensures EhdrFits(o.v.m.c, Header(o))
  {
    hide PhdrOffset, ShdrOffset, Pow256;
    Widths();
    var h := Header(o);
    assert forall i :: 0 <= i < 13 ==> EhdrValues(h)[i] < Pow256(EhdrWidths(o.v.m.c)[i]) by {
      assert forall i :: 0 <= i < 13 ==> EhdrValues(o.h)[i] < Pow256(EhdrWidths(o.v.m.c)[i]);
    }
  }

  lemma HeadersFit(o: Outlook, i: nat)
    requires AllSound(o.v, o.items) && Fitting(o) && i < |o.items|
    ensures ShdrFits(o.v.m.c, NewHeader(o, i))
  {
    hide Offset, Pow256;
    Widths();
    var h := o.items[i].h;
    assert forall j :: 0 <= j < 10 ==> ShdrValues(h)[j] < Pow256(ShdrWidths(o.v.m.c)[j]);
    assert forall j :: 0 <= j < 10 ==> ShdrValues(NewHeader(o, i))[j] < Pow256(ShdrWidths(o.v.m.c)[j]);
  }

  // ---------- Opening the image ----------

  /** What elf_memory returns: NULL, or a descriptor of kind ELF_K_NONE, ELF_K_AR or ELF_K_ELF, the latter with its
      e_version. */
  datatype Handle = Refused | Unrecognised | ArHandle(a: Ar.Archive) | ElfHandle(e: Elf, version: nat)

  /** Longer than e_ident, and with the signature of ELF. */
  predicate IsElf(img: seq<byte>) {
    |img| > EI_NIDENT && Ar.ELFMAG <= img
  }

  /** elf_memory. The class, the byte order and the version of an ELF descriptor come from the image; an archive is
      opened up to its first ordinary member. */
  method OpenMemory(img: seq<byte>, native: Order) returns (r: Handle)
    ensures r.Refused? <==> !Ar.Openable(img)
    ensures r.ElfHandle? <==> IsElf(img) && Ar.Openable(img)
    ensures r.ArHandle? <==> Ar.Openable(img) && !IsElf(img) && Ar.ARMAG <= img
    ensures r.ElfHandle? ==> fresh(r.e) && fresh(r.e.tree) && r.e.Valid() && r.e.Numbered()
    ensures r.ElfHandle? ==> r.e.ehdr == None && r.e.phdr == None && r.e.Order() == [] && r.e.raw == img
    ensures r.ElfHandle? ==> r.e.mode == Mode(if img[EI_CLASS] == 1 then Class32 else Class64, false, native)
    ensures r.ElfHandle? ==> r.e.byteorder == img[EI_DATA] as nat && r.version == img[EI_VERSION] as nat
    ensures r.ArHandle? ==> fresh(r.a) && r.a.raw == img && Some(r.a.next) == Ar.FirstMember(img)
    ensures r.ArHandle? ==> r.a.symtab == Ar.SymbolTable(img) && r.a.strtab == Ar.StringTable(img)
  {
    if |img| == 0 {
      return Refused;
    }
    if |img| > EI_NIDENT && Ar.ELFMAG <= img {
      if img[EI_VERSION] > 1 || img[EI_DATA] !in {1, 2} || img[EI_CLASS] !in {1, 2} {
        return Refused;
      }
      var m := Mode(if img[EI_CLASS] == 1 then Class32 else Class64, false, native);
      var e := new Elf(m, img, img[EI_DATA] as nat);
      return ElfHandle(e, img[EI_VERSION] as nat);
    }
    if |img| >= Ar.SARMAG && Ar.ARMAG <= img {
      var a := new Ar.Archive(img);
      var ok := a.Open();
      return if ok then ArHandle(a) else Refused;
    }
    r := Unrecognised;
  }

  /** The mode in which the image is opened. */
  function Reading(o: Outlook, native: Order): Mode {
    Mode(o.v.m.c, false, native)
  }

  lemma SameOrder(v: Config, native: Order)
    requires v.byteorder in {1, 2}
    ensures Encoding(v) == Some(OrderOf(v.byteorder, native))
  {
  }

  /** The image is recognised, as what it is. */
  lemma ImageRecognised(o: Outlook, img: seq<byte>, c: byte)
    requires Prepared(o) && Holds(o, img, c) && Stamped(o) && Fitting(o)
    ensures IsElf(img) && Ar.Openable(img) && img[EI_DATA] as nat == o.v.byteorder && img[EI_VERSION] == 1
    ensures (if img[EI_CLASS] == 1 then Class32 else Class64) == o.v.m.c
  {
    hide Prepared, Holds, Fitting, PutAll, PhdrOffset, ShdrOffset;
    HeaderHeld(o, img, c);
    EncodedIn(o);
    var b := img[..EhdrSize(o.v.m.c)];
    assert b[..EI_NIDENT] == o.h.ident;
    assert img[..EI_NIDENT] == b[..EI_NIDENT];
    assert img[..EI_CLASS] == img[..EI_NIDENT][..EI_CLASS];
    assert forall i :: 0 <= i < EI_NIDENT ==> img[i] == o.h.ident[i];
  }

  lemma HeaderHeld(o: Outlook, img: seq<byte>, c: byte)
    requires Prepared(o) && Holds(o, img, c) && Fitting(o)
    ensures EhdrSize(o.v.m.c) <= |img| < Limit(o.v.m.c) && Encoding(o.v) != None && |Header(o).ident| == EI_NIDENT
    ensures img[..EhdrSize(o.v.m.c)] == PutEhdr(o.v.m.c, Encoding(o.v).value, Header(o))
    ensures Header(o).ident == o.h.ident
  {
  }

  /** The executable header is read back. */
  lemma HeaderBack(o: Outlook, img: seq<byte>, c: byte, native: Order)
    requires Prepared(o) && Holds(o, img, c) && Fitting(o)
    ensures EhdrSize(o.v.m.c) <= |img| && FileEhdr(Reading(o, native), o.v.byteorder, img) == Header(o)
  {
    hide Holds, PutEhdr, GetEhdr, Header, InRange;
    HeaderHeld(o, img, c);
    HeaderFits(o);
    SameOrder(o.v, native);
    GetPutEhdr(o.v.m.c, OrderOf(o.v.byteorder, native), Header(o));
  }

  // ---------- The section header table ----------

  /** The section header table lies where the executable header says. */
  lemma TablePlace(o: Outlook, img: seq<byte>, c: byte)
    requires Prepared(o) && Holds(o, img, c)
    ensures Header(o).shoff == ShdrOffset(o.v, o.h, o.nphdr, o.nscn, o.items) && (Header(o).shoff == 0 <==> o.nscn == 0)
    ensures Header(o).shoff + ShdrSize(o.v.m.c) * o.nscn <= |img|
    ensures o.nscn > 0 ==>
      && |o.items| == o.nscn && ShdrSize(o.v.m.c) <= ShdrSize(o.v.m.c) * o.nscn
      && TableBytes(o.v, NewHeaders(o)) == Some(img[Header(o).shoff..Header(o).shoff + ShdrSize(o.v.m.c) * o.nscn])
  {
    hide TableBytes, EhdrBytes, SectionHeld, Uncovered, Places, NewHeader, TrailingEnd, EndAfter, LeadingEnd, PhdrImage,
      ValidFormat, AllPrintable;
    var end := BodyEnd(o.v, o.h, o.nphdr, o.items);
    if o.nscn > 0 {
      EndPositive(o);
      RoundUpFacts(end, TableAlign(o.v.m.c));
      ModUnique(ShdrOffset(o.v, o.h, o.nphdr, o.nscn, o.items), Limit(o.v.m.c), 0,
                ShdrOffset(o.v, o.h, o.nphdr, o.nscn, o.items));
      SlotBounds(ShdrSize(o.v.m.c), 0, o.nscn);
    }
  }

  lemma EndPositive(o: Outlook)
    requires Prepared(o)
    ensures BodyEnd(o.v, o.h, o.nphdr, o.items) > 0
  {
    EndGrows(o.v, o.items, LeadingEnd(o.v, o.h, o.nphdr), 0, |o.items|);
    RoundUpFacts(EhdrSize(o.v.m.c), TableAlign(o.v.m.c));
  }

  lemma SlotBounds(sz: nat, i: nat, n: nat)
    requires i < n
    ensures sz * i + sz <= sz * n && (i + 1) * sz == sz * i + sz
  {
  }

  lemma {:induction false} TableSlot(c: Class, o: Order, hs: seq<Shdr>, n: nat, i: nat)
    requires i < n <= |hs|
    ensures ShdrSize(c) * i + ShdrSize(c) <= ShdrSize(c) * n
    ensures Table(c, o, hs, n)[ShdrSize(c) * i..ShdrSize(c) * i + ShdrSize(c)] == PutShdr(c, o, hs[i])
    decreases n
  {
    hide PutShdr;
    var t, b, sz := Table(c, o, hs, n), Table(c, o, hs, n - 1), ShdrSize(c);
    assert t == b + PutShdr(c, o, hs[n - 1]) && |b| == sz * (n - 1);
    hide Table, ShdrSize;
    SlotBounds(sz, i, n);
    if i < n - 1 {
      TableSlot(c, o, hs, n - 1, i);
      assert t[..|b|] == b;
      SliceOf(t, |b|, sz * i, sz * i + sz);
    }
  }

  /** An entry of the table at position at of img is decoded to the header that was put there. */
  lemma EntryAt(c: Class, o: Order, img: seq<byte>, at: nat, hs: seq<Shdr>, i: nat)
    requires i < |hs| && at + ShdrSize(c) * |hs| <= |img| && ShdrFits(c, hs[i])
    requires img[at..at + ShdrSize(c) * |hs|] == Table(c, o, hs, |hs|)
    ensures at + (i + 1) * ShdrSize(c) <= |img| && ShdrAt(c, o, img, at, i) == hs[i]
  {
    hide PutShdr, GetShdr, Table, ShdrFits;
    var sz := ShdrSize(c);
    SlotBounds(sz, i, |hs|);
    TableSlot(c, o, hs, |hs|, i);
    SubSlice(img, at, sz * |hs|, sz * i, sz * i + sz);
    GetPutShdr(c, o, hs[i]);
  }

  /** Every section header is read back. */
  lemma EntryBack(o: Outlook, img: seq<byte>, c: byte, native: Order, i: nat)
    requires Prepared(o) && Holds(o, img, c) && Fitting(o) && i < o.nscn
    ensures |o.items| == o.nscn && Header(o).shoff + (i + 1) * ShdrSize(o.v.m.c) <= |img|
    ensures ShdrAt(o.v.m.c, OrderOf(o.v.byteorder, native), img, Header(o).shoff, i) == NewHeader(o, i)
  {
    hide Prepared, Holds, Fitting, Header, NewHeader, ShdrAt, Table, ShdrFits;
    TablePlace(o, img, c);
    EncodedIn(o);
    SameOrder(o.v, native);
    HeadersFit(o, i);
    EntryAt(o.v.m.c, OrderOf(o.v.byteorder, native), img, Header(o).shoff, NewHeaders(o), i);
  }

  lemma EncodedIn(o: Outlook)
    requires Prepared(o) && Fitting(o)
    ensures o.v.byteorder in {1, 2} && AllSound(o.v, o.items)
    ensures ValidFormat(o.v.fmt) && !o.v.layout && AllPrintable(o)
  {
  }

  // ---------- The counts ----------

  /** The string table index that the application has set. */
  function Strndx(o: Outlook): nat {
    if o.h.shstrndx == SHN_XINDEX && o.items != [] && o.items[0].Skip? then o.items[0].h.link else o.h.shstrndx
  }

  /** The reader needs section 0 for a count. */
  predicate NeedsFirst(o: Outlook) {
    o.nscn >= SHN_LORESERVE || o.nphdr >= PN_XNUM || o.h.shstrndx == SHN_XINDEX
  }

  /** The counts survive: the reader does not need section 0, or section 0 is an unused section that holds all counts.
      That includes the number of sections, which the library only stores there when it is extended itself. */
  predicate CountsKept(o: Outlook) {
    NeedsFirst(o) ==>
      && o.nscn > 0 && o.items != [] && o.items[0].Skip? && o.items[0].h.typ == SHT_NULL
      && (o.nscn < SHN_LORESERVE ==> o.items[0].h.size == o.nscn)
      && (o.nphdr >= PN_XNUM ==> o.nphdr < 0x1_0000_0000)
  }

  /** What the reader makes of a header with n sections and p segments, and of section header 0 where it needs it. */
  lemma CountsRead(c: Class, ord: Order, img: seq<byte>, h: Ehdr, n: nat, p: nat)
    requires h.shnum == (if n >= SHN_LORESERVE then 0 else n) && h.phnum == (if p >= PN_XNUM then PN_XNUM else p)
    requires (h.shoff == 0 <==> n == 0) && (n > 0 ==> h.shoff + ShdrSize(c) <= |img|)
    ensures var first := n >= SHN_LORESERVE || p >= PN_XNUM || h.shstrndx == SHN_XINDEX;
            && (!first ==> ReadCounts(c, ord, img, h) == Some(Counts(n, p, h.shstrndx)))
            && (first && n == 0 ==> ReadCounts(c, ord, img, h) == None)
            && (first && n > 0 ==> ReadCounts(c, ord, img, h) == ExtendedCounts(h, ShdrAt(c, ord, img, h.shoff, 0)))
  {
    hide ShdrAt, ExtendedCounts;
  }

  /** The counts are read back exactly when they survive. */
  lemma CountsBack(o: Outlook, img: seq<byte>, c: byte, native: Order)
    requires Prepared(o) && Holds(o, img, c) && Fitting(o)
    ensures var n := Counts(o.nscn, o.nphdr, Strndx(o));
            ReadCounts(o.v.m.c, OrderOf(o.v.byteorder, native), img, Header(o)) == Some(n) <==> CountsKept(o)
  {
    hide Prepared, Holds, Fitting, Header, NewHeader, ReadCounts, ShdrAt, Limit;
    EncodedIn(o);
    TablePlace(o, img, c);
    CountFields(o);
    CountsRead(o.v.m.c, OrderOf(o.v.byteorder, native), img, Header(o), o.nscn, o.nphdr);
    if o.nscn > 0 {
      EntryBack(o, img, c, native, 0);
      FirstHeader(o, img, c);
    }
  }

  lemma CountFields(o: Outlook)
    requires AllSound(o.v, o.items) && Fitting(o)
    ensures Header(o).shnum == (if o.nscn >= SHN_LORESERVE then 0 else o.nscn) && Header(o).shstrndx == o.h.shstrndx
    ensures Header(o).phnum == (if o.nphdr >= PN_XNUM then PN_XNUM else o.nphdr) && o.h.shstrndx < 0x1_0000
  {
    hide PhdrOffset, ShdrOffset, Pow256;
    Widths();
    assert EhdrValues(o.h)[12] < Pow256(EhdrWidths(o.v.m.c)[12]);
  }

  /** Section header 0 in the image. */
  lemma FirstHeader(o: Outlook, img: seq<byte>, c: byte)
    requires Prepared(o) && Holds(o, img, c) && Fitting(o) && o.nscn > 0
    ensures o.items != [] && o.nscn < Limit(o.v.m.c)
    ensures o.items[0].Skip? ==>
      var h := NewHeader(o, 0);
      && h.typ == o.items[0].h.typ && h.link == o.items[0].h.link
      && h.size == (if o.nscn >= SHN_LORESERVE then o.nscn else o.items[0].h.size)
      && (o.nphdr >= PN_XNUM ==> h.info == o.nphdr % 0x1_0000_0000)
    ensures o.items[0].Put? ==> NewHeader(o, 0).typ != SHT_NULL
    ensures !o.items[0].Bad?
  {
    hide EhdrBytes, TableBytes, PhdrImage, SectionHeld, Uncovered, Places, ValidFormat, AllPrintable, PhdrOffset,
      ShdrOffset, InRange, EhdrFits, ShdrFits;
    assert o.nscn <= ShdrSize(o.v.m.c) * o.nscn <= SizeOf(o);
    ModUnique(o.nscn, Limit(o.v.m.c), 0, o.nscn);
  }

  // ---------- The program header table ----------

  /** The object that a reader of the image has. */
  function Reopened(o: Outlook, native: Order, img: seq<byte>): Config {
    Config(Reading(o, native), false, o.v.byteorder, o.v.fmt, img)
  }

  /** The program header table that is written: the one that the layout found. When there was none, another look at the
      old file, where the new header says, may still have found one. */
  ghost function PhdrWritten(o: Outlook): (r: Option<seq<byte>>)
    requires AllSound(o.v, o.items)
    ensures PhdrFound(o) != None ==> r == PhdrFound(o)
  {
    PhdrTable(o.v, Header(o), o.nphdr, PhdrFound(o))
  }

  /** It lies where the executable header says. */
  lemma PhdrPlace(o: Outlook, img: seq<byte>, c: byte)
    requires Prepared(o) && Holds(o, img, c) && o.nphdr > 0
    ensures Header(o).phoff == PhdrOffset(o.v, o.h, o.nphdr)
    ensures Header(o).phoff + PhdrSize(o.v, o.nphdr) <= |img|
    ensures PhdrImage(o) == Some(img[Header(o).phoff..Header(o).phoff + PhdrSize(o.v, o.nphdr)])
  {
    hide TableBytes, EhdrBytes, SectionHeld, Uncovered, Places, NewHeader, TrailingEnd, EndAfter, LeadingEnd, PhdrImage,
      ValidFormat, AllPrintable, PhdrOffset, ShdrOffset, InRange, PhdrSize;
    ModUnique(PhdrOffset(o.v, o.h, o.nphdr), Limit(o.v.m.c), 0, PhdrOffset(o.v, o.h, o.nphdr));
  }

  /** A table that was encoded for v is decoded from the file of w. */
  lemma PhdrDecoded(v: Config, w: Config, h: Ehdr, n: nat, t: Option<seq<byte>>)
    requires ValidFormat(v.fmt) && n > 0 && w.fmt == v.fmt && w.m.c == v.m.c && !w.m.write
    requires Encoding(v) == Some(OrderOf(w.byteorder, w.m.native)) && Msize(v.fmt, v.m.c, ELF_T_PHDR) > 0
    requires PhdrSized(v, n, t) && h.phoff + PhdrSize(v, n) <= |w.raw|
    requires Xlate(v, ELF_T_PHDR, t) == Some(w.raw[h.phoff..h.phoff + PhdrSize(v, n)])
    ensures t != None && PhdrTable(w, h, n, None) == t
  {
    var m := Msize(v.fmt, v.m.c, ELF_T_PHDR);
    MultipleMod(n, m);
    assert n * m > 0 by { assert n * m == (n - 1) * m + m; Product(n - 1, m); }
    assert TranslatesBack(v.fmt, v.m.c, Encoding(v).value, ELF_T_PHDR, t.value);
  }

  lemma Product(a: nat, n: nat)
    ensures a * n >= 0
  {
  }

  lemma FoundSized(o: Outlook)
    requires Prepared(o)
    ensures PhdrSized(o.v, o.nphdr, PhdrFound(o))
  {
    hide ValidFormat, AllPrintable, InRange, SizeOf, PhdrTable;
    PhdrTableSize(o.v, o.h, o.nphdr, o.phdr);
  }

  /** The program header table is read back. */
  lemma PhdrBack(o: Outlook, img: seq<byte>, c: byte, native: Order)
    requires Prepared(o) && Holds(o, img, c) && Fitting(o) && o.nphdr > 0
    ensures PhdrWritten(o) != None
    ensures PhdrTable(Reopened(o, native, img), Header(o), o.nphdr, None) == PhdrWritten(o)
  {
    hide Holds, Fitting, Header, PhdrFound, PhdrTable;
    EncodedIn(o);
    SameOrder(o.v, native);
    PhdrPlace(o, img, c);
    FoundSized(o);
    PhdrTableSize(o.v, Header(o), o.nphdr, PhdrFound(o));
    PhdrDecoded(o.v, Reopened(o, native, img), Header(o), o.nphdr, PhdrWritten(o));
  }

  // ---------- Opening and loading ----------

  /** The descriptor r is what was written: the header, the counts, the program header table and, in index order, every
      section header. */
  ghost predicate Restored(r: Elf, o: Outlook)
    requires AllSound(o.v, o.items)
    reads r, r.tree, r.Order()
  {
    Loaded(r, o) && r.phdr == if o.nphdr == 0 then None else PhdrWritten(o)
  }

  ghost predicate Loaded(r: Elf, o: Outlook)
    requires AllSound(o.v, o.items)
    reads r, r.tree, r.Order()
  {
    && r.Ready() && r.mode.c == o.v.m.c && r.byteorder == o.v.byteorder
    && r.ehdr == Some(Header(o)) && r.nscn == o.nscn && r.nphdr == o.nphdr && r.strndx == Strndx(o)
    && Indexed(r.Order(), o.nscn) && (o.nscn > 0 ==> o.nscn == |o.items|)
    && forall i :: 0 <= i < o.nscn ==> r.Order()[i].shdr == NewHeader(o, i)
  }

  lemma TableFitsBack(o: Outlook, img: seq<byte>, c: byte, native: Order)
    requires Prepared(o) && Holds(o, img, c) && Fitting(o) && Stamped(o)
    ensures TableFits(Reading(o, native), img, Header(o), o.nscn)
  {
    hide Holds, Fitting, SizeOf, PhdrOffset, ShdrOffset, InRange;
    TablePlace(o, img, c);
  }

  lemma TableEntryBack(o: Outlook, img: seq<byte>, c: byte, native: Order, i: nat)
    requires Prepared(o) && Holds(o, img, c) && Fitting(o) && Stamped(o) && i < o.nscn
    ensures |o.items| == o.nscn
    ensures TableEntry(Reading(o, native), o.v.byteorder, img, Header(o), i) == NewHeader(o, i)
  {
    hide Prepared, Holds, Fitting, Stamped, Header, NewHeader, ShdrAt, TableFits;
    EncodedIn(o);
    TableFitsBack(o, img, c, native);
    TablePrefix(Reading(o, native), img, Header(o), i, o.nscn);
    EntryBack(o, img, c, native, i);
  }

  /** Without sections the reader does not look for section 0. */
  lemma FirstNotNeeded(o: Outlook, img: seq<byte>, c: byte)
    requires Prepared(o) && Holds(o, img, c) && Fitting(o) && CountsKept(o) && o.nscn == 0
    ensures !IsExtended(Header(o))
  {
    hide Prepared, Holds, Fitting, Header;
    EncodedIn(o);
    TablePlace(o, img, c);
    CountFields(o);
  }

  /** With sections it finds the header of section 0. */
  lemma FirstBack(o: Outlook, img: seq<byte>, c: byte, native: Order)
    requires Prepared(o) && Holds(o, img, c) && Fitting(o) && o.nscn > 0
    ensures |o.items| == o.nscn && Header(o).shoff + ShdrSize(o.v.m.c) <= |img|
    ensures ShdrAt(o.v.m.c, OrderOf(o.v.byteorder, native), img, Header(o).shoff, 0) == NewHeader(o, 0)
  {
    hide Prepared, Holds, Fitting, Header, ShdrAt, NewHeader;
    EncodedIn(o);
    EntryBack(o, img, c, native, 0);
  }

  /** Opening the image gives an ELF descriptor that has not read anything yet. */
  method OpenImage(img: seq<byte>, native: Order, ghost o: Outlook, ghost c: byte) returns (r: Elf)
    requires Prepared(o) && Holds(o, img, c) && Stamped(o) && Fitting(o)
    ensures fresh(r) && fresh(r.tree) && r.Valid() && r.Numbered() && r.Order() == []
    ensures r.ehdr == None && r.phdr == None && r.raw == img
    ensures r.mode == Reading(o, native) && r.byteorder == o.v.byteorder
  {
    hide Prepared, Holds, Stamped, Fitting, ScnTree.Valid, Rep, Bst, IsElf, Ar.Openable, Ar.FirstMember;
    ImageRecognised(o, img, c);
    var handle := OpenMemory(img, native);
    r := handle.e;
  }

  /** Opening the image for reading, and loading its executable header and its section headers. */
  method LoadImage(img: seq<byte>, native: Order, ghost o: Outlook, ghost c: byte) returns (r: Elf)
    requires Prepared(o) && Holds(o, img, c) && Stamped(o) && Fitting(o) && CountsKept(o)
    ensures fresh(r) && r.Valid() && Loaded(r, o) && r.raw == img && r.phdr == None && r.mode == Reading(o, native)
    ensures fresh(r.tree) && fresh(r.Scns())
  {
    hide Prepared, Holds, Stamped, Fitting, Header, NewHeader, TableFits, TableEntry, ReadCounts, FileEhdr,
      ScnTree.Valid, Rep, Bst, IsExtended, ShdrAt, IsElf, CountsKept, BadCounts, Stored, EhdrLaidOut;
    EncodedIn(o);
    HeaderBack(o, img, c, native);
    CountsBack(o, img, c, native);
    TableFitsBack(o, img, c, native);
    if o.nscn == 0 {
      FirstNotNeeded(o, img, c);
    } else {
      FirstBack(o, img, c, native);
    }
    r := OpenImage(img, native, o, c);
    var loaded := r.LoadEhdr();
    ghost var first := r.Order();
    assert first != [] && o.nscn > 0 ==> first[0].shdr == NewHeader(o, 0);
    var ok, aborted := r.LoadSectionHeaders();
    forall i | 0 <= i < o.nscn ensures i < |o.items| && r.Order()[i].shdr == NewHeader(o, i) {
      TableEntryBack(o, img, c, native, i);
      assert i >= |first| ==> r.AsInFile(Header(o), r.Order()[i], i);
    }
  }

  /** Opening the image for reading and loading what it has before and behind the sections brings everything back. */
  method ReadBack(img: seq<byte>, fmt: Format, native: Order, ghost o: Outlook, ghost c: byte) returns (r: Elf)
    requires Prepared(o) && Holds(o, img, c) && Stamped(o) && Fitting(o) && CountsKept(o) && fmt == o.v.fmt
    ensures fresh(r) && r.Valid() && Restored(r, o) && r.raw == img
  {
    hide Prepared, Holds, Stamped, Fitting, Header, NewHeader, ScnTree.Valid, Rep, Bst, CountsKept, PhdrTable,
      PhdrFound, AllSound;
    EncodedIn(o);
    r := LoadImage(img, native, o, c);
    if r.nphdr != 0 {
      InOrderNodes(r.tree.shape);
      ghost var xs := r.Members();
      ghost var q := r.Order();
      assert forall i :: 0 <= i < |q| ==> q[i] in xs;
      GetPhdr(r, Config(r.mode, false, r.byteorder, fmt, r.raw));
      assert forall i :: 0 <= i < |q| ==> q[i] in xs && q[i].shdr == NewHeader(o, i);
      PhdrBack(o, img, c, native);
    }
  }

  /** elf_update, and opening what it wrote: the new descriptor has the header, the counts, the program header table and
      the section headers that the object had promised before the call, and its file holds the contents. */
  method UpdateAndReopen(e: Elf, fmt: Format, c: byte, extents: ExtentList, native: Order) returns (ok: bool, r: Elf?)
    requires e.Valid() && e.Numbered() && AllLinked(e.Scns()) && ValidFormat(fmt) && extents.Lists([])
    requires OutlookOf(e, false, fmt) != None ==>
      var o := OutlookOf(e, false, fmt).value; Prepared(o) && Fitting(o) && CountsKept(o)
    modifies extents, e, e.tree, e.Scns()`left, e.Scns()`right, e.Scns()`parent, e.Scns()`red
    modifies e.Scns()`shdr, e.Scns()`dirty, e.Scns()`size, e.Scns()`offset, e.Scns()`data, Datas(e.Order())`off
    ensures ok <==> old(OutlookOf(e, false, fmt)) != None &&
                    var o := old(OutlookOf(e, false, fmt)).value;
                    LaidOut(o) && TablesWritten(o) && SectionsWritten(o, |o.items|, c)
    ensures ok ==> r != null && fresh(r) && r.Valid() && Restored(r, old(OutlookOf(e, false, fmt)).value)
    ensures ok ==> Holds(old(OutlookOf(e, false, fmt)).value, r.raw, c)
    ensures ok ==>
      && old(HeadOf(e)) != None && r.ehdr != None
      && r.nphdr == old(HeadOf(e)).value.nphdr && r.nscn == old(HeadOf(e)).value.nscn
      && HeaderUpdated(e.mode.c, fmt, false, old(HeadOf(e)).value.h, r.ehdr.value, r.nphdr, r.nscn)
    ensures ok ==> AllKept(old(HeadersBefore(e, |OutlookOf(e, false, fmt).value.items|)), r)
  {
    hide HeadOf, HeaderUpdated, HeadersBefore, AllKept, ItemsHave, NewEhdr, EhdrBytes, OutlookOf, Prepared, Holds,
      Stamped, Fitting, CountsKept, Restored, ScnTree.Valid, Rep, Bst, AllLinked, Datas, LaidOut, TablesWritten,
      SectionsWritten;
    ghost var oo := OutlookOf(e, false, fmt);
    OutlookStamped(e, false, fmt);
    OutlookConfig(e, fmt);
    ghost var hs: seq<Shdr> := [];
    if oo != None {
      HeaderMeaning(e, false, fmt);
      ItemsBefore(e, fmt);
      hs := HeadersBefore(e, |oo.value.items|);
    }
    var img, wild;
    ok, wild, img := ElfUpdate(e, fmt, c, extents);
    r := null;
    if ok {
      r := ReadBack(img, fmt, native, oo.value, c);
      HeadersKept(r, oo.value, hs);
      HeaderAgain(r, oo.value);
    }
  }

  /** The section headers of the outlook are those from before the call. */
  lemma ItemsBefore(e: Elf, fmt: Format)
    requires e.Valid() && OutlookOf(e, false, fmt) != None
    ensures var o := OutlookOf(e, false, fmt).value;
            ItemsHave(o, HeadersBefore(e, |o.items|))
  {
    hide OutlookOf, HeaderBefore, ScnTree.Valid;
    var o := OutlookOf(e, false, fmt).value;
    forall i | 0 <= i < |o.items| ensures o.items[i].Bad? || o.items[i].h == HeaderBefore(e, i) {
      ItemBefore(e, false, fmt, i);
    }
  }

  ghost predicate ItemsHave(o: Outlook, hs: seq<Shdr>) {
    |hs| == |o.items| && forall i :: 0 <= i < |hs| ==> o.items[i].Bad? || o.items[i].h == hs[i]
  }

  /** All sections of r have the headers hs, but for what elf_update changes. */
  ghost predicate AllKept(hs: seq<Shdr>, r: Elf)
    reads r, r.tree, r.Order()
  {
    && r.nscn == |r.Order()| <= |hs|
    && forall i :: 0 <= i < r.nscn ==> ShdrKept(i, hs[i], r.Order()[i].shdr, r.nphdr)
  }

  lemma HeaderAgain(r: Elf, o: Outlook)
    requires Prepared(o) && Restored(r, o)
    ensures r.ehdr == Some(NewEhdr(o.v, o.h, o.nphdr, o.nscn, o.items)) && r.nphdr == o.nphdr && r.nscn == o.nscn
  {
    hide NewEhdr;
  }

  lemma HeadersKept(r: Elf, o: Outlook, hs: seq<Shdr>)
    requires Prepared(o) && Fitting(o) && Restored(r, o) && ItemsHave(o, hs)
    ensures AllKept(hs, r)
  {
    hide Prepared, Header, NewHeader, ShdrKept, PhdrWritten, EhdrFits, ShdrFits;
    EncodedIn(o);
    forall i | 0 <= i < r.nscn ensures i < |hs| && ShdrKept(i, hs[i], r.Order()[i].shdr, r.nphdr) {
      NewHeaderMeaning(o, i);
    }
  }

  // ---------- The contents of a section ----------

  /** A section with file contents lies in the image where its header says. */
  lemma SectionThere(o: Outlook, img: seq<byte>, c: byte, i: nat)
    requires Prepared(o) && Holds(o, img, c) && i < |o.items| && HasBytes(o, i)
    ensures NewHeader(o, i).offset == Offset(o, i) && NewHeader(o, i).size == o.items[i].p.size
    ensures NewHeader(o, i).offset + NewHeader(o, i).size <= |img|
    ensures Bytes(o, i, c) == Some(img[NewHeader(o, i).offset..NewHeader(o, i).offset + NewHeader(o, i).size])
  {
    hide Bytes, EhdrBytes, TableBytes, PhdrImage, Uncovered, Places, ValidFormat, AllPrintable, PhdrOffset, ShdrOffset,
      InRange, Limit, Start, SizeOf;
    assert SectionHeld(o, img, c, i);
    ModUnique(Offset(o, i), Limit(o.v.m.c), 0, Offset(o, i));
    ModUnique(o.items[i].p.size, Limit(o.v.m.c), 0, o.items[i].p.size);
  }

  /** A section that nobody has read or changed has the bytes that it had in the old file. */
  lemma UnchangedCopied(o: Outlook, img: seq<byte>, c: byte, i: nat)
    requires Prepared(o) && Holds(o, img, c) && i < |o.items| && HasBytes(o, i) && o.items[i].p.ds == []
    ensures var h, at, raw := NewHeader(o, i), o.items[i].rawoff, o.v.raw;
            && h.offset + h.size <= |img| && at + h.size <= |raw|
            && img[h.offset..h.offset + h.size] == raw[at..at + h.size]
  {
    hide Prepared, Holds, NewHeader;
    SectionThere(o, img, c, i);
  }

  /** Within the body of a section, descriptor k starts at its offset, and the hole before it is filled. */
  lemma {:induction false} BodyHolds(v: Config, ds: seq<Desc>, n: nat, k: nat, c: byte)
    requires ValidFormat(v.fmt) && k < n <= |ds| && AllOk(v, ds, |ds|) && AllBacked(ds) && Body(v, ds, n, c) != None
    ensures Size(v, ds, k) <= Off(v, ds, k) && Off(v, ds, k) + FileSize(v, ds[k]) <= Size(v, ds, n)
    ensures Some(Body(v, ds, n, c).value[Off(v, ds, k)..Off(v, ds, k) + FileSize(v, ds[k])]) ==
        Xlate(v, ds[k].typ, ds[k].buf)
    ensures Body(v, ds, n, c).value[Size(v, ds, k)..Off(v, ds, k)] == Fill(Off(v, ds, k) - Size(v, ds, k), c)
    decreases n
  {
    hide DescOk, Xlate, RoundUp, FileSize, ValidFormat, Backed, Off;
    DescriptorFits(v, ds, k);
    DescriptorFits(v, ds, n - 1);
    var b, f, t := LastOfBody(v, ds, n, c);
    var body := Body(v, ds, n, c).value;
    if k < n - 1 {
      BodyHolds(v, ds, n - 1, k, c);
      SliceOf(body, |b|, Off(v, ds, k), Off(v, ds, k) + FileSize(v, ds[k]));
      SliceOf(body, |b|, Size(v, ds, k), Off(v, ds, k));
    }
  }

  lemma LastOfBody(v: Config, ds: seq<Desc>, n: nat, c: byte) returns (b: seq<byte>, f: seq<byte>, t: seq<byte>)
    requires ValidFormat(v.fmt) && 0 < n <= |ds| && AllOk(v, ds, |ds|) && AllBacked(ds) && Body(v, ds, n, c) != None
    ensures Body(v, ds, n - 1, c) == Some(b) && Body(v, ds, n, c).value[..|b|] == b && |b| == Size(v, ds, n - 1)
    ensures Xlate(v, ds[n - 1].typ, ds[n - 1].buf) == Some(t) && |t| == FileSize(v, ds[n - 1])
    ensures |b| <= Off(v, ds, n - 1) && |Body(v, ds, n, c).value| == Off(v, ds, n - 1) + |t|
    ensures Body(v, ds, n, c).value[Off(v, ds, n - 1)..Off(v, ds, n - 1) + |t|] == t
    ensures Body(v, ds, n, c).value[|b|..Off(v, ds, n - 1)] == Fill(Off(v, ds, n - 1) - |b|, c)
  {
    b, t := Body(v, ds, n - 1, c).value, Xlate(v, ds[n - 1].typ, ds[n - 1].buf).value;
    RoundUpFacts(Size(v, ds, n - 1), ds[n - 1].align);
    f := Fill(Off(v, ds, n - 1) - |b|, c);
    XlateSize(v, ds[n - 1]);
    assert Body(v, ds, n, c).value == b + f + t;
  }

  /** Every descriptor of a section is read back from the image: at the section's offset plus its own lies its file
      representation, which translates back to what the application had put into it, and the hole before it holds the
      fill character. */
  lemma DescriptorBack(o: Outlook, img: seq<byte>, c: byte, i: nat, k: nat)
    requires Prepared(o) && Holds(o, img, c) && i < |o.items| && HasBytes(o, i) && k < |o.items[i].p.ds|
    ensures var ds, at := o.items[i].p.ds, NewHeader(o, i).offset;
            && AllOk(o.v, ds, |ds|) && at + Off(o.v, ds, k) + FileSize(o.v, ds[k]) <= |img| && Encoding(o.v) != None
            && Some(img[at + Off(o.v, ds, k)..at + Off(o.v, ds, k) + FileSize(o.v, ds[k])]) ==
               Xlate(o.v, ds[k].typ, ds[k].buf)
            && Size(o.v, ds, k) <= Off(o.v, ds, k)
            && img[at + Size(o.v, ds, k)..at + Off(o.v, ds, k)] == Fill(Off(o.v, ds, k) - Size(o.v, ds, k), c)
    ensures var d := o.items[i].p.ds[k];
            d.size > 0 ==>
              ToMemory(o.v.fmt, o.v.m.c, Encoding(o.v).value, d.typ, Xlate(o.v, d.typ, d.buf).value) == d.buf
  {
    hide Prepared, Holds, NewHeader, Xlate, FileSize, ValidFormat, Size, Off, Body, DescOk;
    PlanFacts(o, i);
    var p, h := o.items[i].p, NewHeader(o, i);
    var ds, at := p.ds, h.offset;
    SectionThere(o, img, c, i);
    BodyHolds(o.v, ds, |ds|, k, c);
    SubSlice(img, at, p.size, Off(o.v, ds, k), Off(o.v, ds, k) + FileSize(o.v, ds[k]));
    SubSlice(img, at, p.size, Size(o.v, ds, k), Off(o.v, ds, k));
    XlateEncoded(o.v, ds[k]);
    if ds[k].size > 0 {
      TranslatedBack(o.v, ds[k]);
    }
  }

  lemma PlanFacts(o: Outlook, i: nat)
    requires Prepared(o) && i < |o.items| && HasBytes(o, i)
    ensures ValidFormat(o.v.fmt) && !o.v.layout && AllSound(o.v, o.items) && AllPrintable(o)
    ensures var p := o.items[i].p;
            AllOk(o.v, p.ds, |p.ds|) && AllBacked(p.ds) && (p.ds != [] ==> p.size == Size(o.v, p.ds, |p.ds|))
  {
    hide ValidFormat, InRange, SizeOf, DescOk, Size;
    assert Sound(o.v, o.items[i]) && Printable(o.v, o.items[i]);
  }

  lemma XlateEncoded(v: Config, d: Desc)
    ensures Xlate(v, d.typ, d.buf) != None ==> Encoding(v) != None
  {
  }

  lemma TranslatedBack(v: Config, d: Desc)
    requires ValidFormat(v.fmt) && DescOk(v, d) && Backed(d) && Xlate(v, d.typ, d.buf) != None && d.size > 0
    ensures Encoding(v) != None
    ensures ToMemory(v.fmt, v.m.c, Encoding(v).value, d.typ, Xlate(v, d.typ, d.buf).value) == d.buf
  {
    assert TranslatesBack(v.fmt, v.m.c, Encoding(v).value, d.typ, d.buf.value);
  }

  /** A section whose contents are in one descriptor of the section's own type: elf_getdata on the new image returns the
      contents that the application had put into it. */
  lemma DataBack(o: Outlook, img: seq<byte>, c: byte, i: nat, native: Order)
    requires Prepared(o) && Holds(o, img, c) && Fitting(o) && i < |o.items| && HasBytes(o, i)
    requires |o.items[i].p.ds| == 1 && Some(o.items[i].p.ds[0].typ) == ShType(o.items[i].h.typ)
    requires o.items[i].p.ds[0].size < UINT64_LIMIT
    ensures var d, h := o.items[i].p.ds[0], NewHeader(o, i);
            FileData(Reopened(o, native, img), h) ==
            Some(Desc(d.typ, d.size, h.addralign, EV_CURRENT, d.buf))
  {
    hide Prepared, Holds, Fitting, Xlate, ValidFormat, ShType, Offset;
    EncodedIn(o);
    var p, h := o.items[i].p, NewHeader(o, i);
    var d := p.ds[0];
    PlanFacts(o, i);
    SectionThere(o, img, c, i);
    SameOrder(o.v, native);
    DescriptorBack(o, img, c, i, 0);
    OneDescriptor(o.v, p.ds);
    ContentsType(o, i);
    WholeNumber(o.v, d);
  }

  /** A section of bytes, read before or not, with any number of descriptors of any types: elf_getdata on the new image
      returns exactly the bytes that were written. */
  lemma BytesBack(o: Outlook, img: seq<byte>, c: byte, i: nat, native: Order)
    requires Prepared(o) && Holds(o, img, c) && i < |o.items| && HasBytes(o, i)
    requires ShType(o.items[i].h.typ) == Some(ELF_T_BYTE)
    ensures ValidFormat(o.v.fmt) && AllSound(o.v, o.items) && AllPrintable(o)
    ensures FileData(Reopened(o, native, img), NewHeader(o, i)) ==
            Some(Desc(ELF_T_BYTE, o.items[i].p.size, NewHeader(o, i).addralign, EV_CURRENT, Bytes(o, i, c)))
  {
    hide Holds, ShType, Offset, InRange, SizeOf, Bytes;
    var h := NewHeader(o, i);
    SectionThere(o, img, c, i);
    ContentsType(o, i);
    BytesToMemory(Reopened(o, native, img), img[h.offset..h.offset + h.size]);
  }

  lemma BytesToMemory(v: Config, m: seq<byte>)
    requires ValidFormat(v.fmt)
    ensures Fsize(v.fmt, v.m.c, ELF_T_BYTE) == 1 == Msize(v.fmt, v.m.c, ELF_T_BYTE)
    ensures ToMemory(v.fmt, v.m.c, OrderOf(v.byteorder, v.m.native), ELF_T_BYTE, m) == Some(m)
  {
    var o := OrderOf(v.byteorder, v.m.native);
    assert TranslatesBack(v.fmt, v.m.c, o, ELF_T_BYTE, m);
    assert ToFile(v.fmt, v.m.c, o, ELF_T_BYTE, m) == Some(m);
  }

  /** In it, every descriptor of bytes is where the layout put it. */
  lemma ContentsBack(o: Outlook, img: seq<byte>, c: byte, i: nat, k: nat, native: Order)
    requires Prepared(o) && Holds(o, img, c) && i < |o.items| && HasBytes(o, i) && k < |o.items[i].p.ds|
    requires ShType(o.items[i].h.typ) == Some(ELF_T_BYTE) && o.items[i].p.ds[k].typ == ELF_T_BYTE
    ensures var d, ds := FileData(Reopened(o, native, img), NewHeader(o, i)), o.items[i].p.ds;
            && AllOk(o.v, ds, |ds|) && d != None && d.value.buf != None
            && Off(o.v, ds, k) + ds[k].size <= |d.value.buf.value|
            && Some(d.value.buf.value[Off(o.v, ds, k)..Off(o.v, ds, k) + ds[k].size]) == ds[k].buf
  {
    hide Prepared, Holds, NewHeader, ShType, Bytes, Body, Size, Off, FileData, ValidFormat;
    BytesBack(o, img, c, i, native);
    PlanFacts(o, i);
    SectionThere(o, img, c, i);
    var p, h := o.items[i].p, NewHeader(o, i);
    DescriptorBack(o, img, c, i, k);
    BytesCopied(o.v, p.ds[k]);
    DescriptorFits(o.v, p.ds, k);
    SubSlice(img, h.offset, p.size, Off(o.v, p.ds, k), Off(o.v, p.ds, k) + p.ds[k].size);
  }

  lemma BytesCopied(v: Config, d: Desc)
    requires ValidFormat(v.fmt) && DescOk(v, d) && d.typ == ELF_T_BYTE && Backed(d) && Xlate(v, d.typ, d.buf) != None
    ensures Xlate(v, d.typ, d.buf) == d.buf && FileSize(v, d) == d.size
  {
  }

  lemma ContentsType(o: Outlook, i: nat)
    requires Prepared(o) && i < |o.items| && HasBytes(o, i)
    ensures NewHeader(o, i).typ == o.items[i].h.typ && !NoContents(o.items[i].h)
  {
    hide ValidFormat, InRange, SizeOf, AllPrintable;
    assert Sound(o.v, o.items[i]);
  }

  lemma OneDescriptor(v: Config, ds: seq<Desc>)
    requires |ds| == 1 && AllOk(v, ds, 1)
    ensures Off(v, ds, 0) == 0 && Size(v, ds, 1) == FileSize(v, ds[0])
  {
    assert Size(v, ds, 0) == 0;
    MultipleMod(0, ds[0].align);
  }

  /** The file holds as many objects of the descriptor as memory does. */
  lemma WholeNumber(v: Config, d: Desc)
    requires ValidFormat(v.fmt) && DescOk(v, d)
    ensures var f, m := Fsize(v.fmt, v.m.c, d.typ), Msize(v.fmt, v.m.c, d.typ);
            && f > 0 && m > 0 && FileSize(v, d) % f == 0 && m * (FileSize(v, d) / f) == d.size
            && (FileSize(v, d) > 0 <==> d.size > 0)
  {
    var f, m := Fsize(v.fmt, v.m.c, d.typ), Msize(v.fmt, v.m.c, d.typ);
    var n := d.size / m;
    MultipleMod(n, f);
    DivUnique(f * n, f, n, 0);
    assert d.size == m * n;
  }
}
