/** Section and segment counts of an ELF header with extended numbering: libelf_extended.c writes them, libelf_ehdr.c
    reads them back (System V gABI, chapter 4, "ELF Header" and "Sections"). */
module Extended {
  import opened Codec
  import opened Section

  const SHN_LORESERVE: nat := 0xff00
  const SHN_XINDEX: nat := 0xffff
  const PN_XNUM: nat := 0xffff

  datatype Counts = Counts(shnum: nat, phnum: nat, shstrndx: nat)

  // ---------- Reading: the tail of _libelf_ehdr and _libelf_load_extended ----------

  predicate BadCounts(h: Ehdr) {
    h.shnum >= SHN_LORESERVE || (h.shoff == 0 && (h.shnum != 0 || h.phnum == PN_XNUM || h.shstrndx == SHN_XINDEX))
  }

  predicate IsExtended(h: Ehdr) {
    (h.shnum == 0 && h.shoff != 0) || h.phnum == PN_XNUM || h.shstrndx == SHN_XINDEX
  }

  /** The header table entry of index i. */
  function ShdrAt(c: Class, o: Order, raw: seq<byte>, shoff: nat, i: nat): Shdr
    requires shoff + (i + 1) * ShdrSize(c) <= |raw|
  {
    var at := shoff + i * ShdrSize(c);
    assert (i + 1) * ShdrSize(c) == i * ShdrSize(c) + ShdrSize(c);
    GetShdr(c, o, raw[at..at + ShdrSize(c)])
  }

  /** The counts that the header h and section header 0 of the file raw announce. */
  function ReadCounts(c: Class, o: Order, raw: seq<byte>, h: Ehdr): Option<Counts> {
    if BadCounts(h) then None
    else if !IsExtended(h) then Some(Counts(h.shnum, h.phnum, h.shstrndx))
    else if |raw| < h.shoff + ShdrSize(c) then None
    else ExtendedCounts(h, ShdrAt(c, o, raw, h.shoff, 0))
  }

  function ExtendedCounts(h: Ehdr, s0: Shdr): Option<Counts> {
    if s0.typ != SHT_NULL then None
    else Some(Counts(s0.size, if h.phnum != PN_XNUM then h.phnum else s0.info,
                     if h.shstrndx != SHN_XINDEX then h.shstrndx else s0.link))
  }

  /** Two section headers at the same place are the same. */
  lemma OneHeader(c: Class, o: Order, b: seq<byte>, h: Shdr, h': Shdr)
    requires ShdrLaidOut(c, o, b, h) && ShdrLaidOut(c, o, b, h')
    ensures h == h'
  {
    hide Get;
  }

  /** What the counts of a file are, where s0 is its section header 0 if there is room for one. A count that says so is
      taken from section header 0, and with any of them the number of sections, too. Files with contradictory counts
      are refused, and files whose section header 0 is needed but is not there or has another type than SHT_NULL. */
  lemma CountsExactly(c: Class, o: Order, raw: seq<byte>, h: Ehdr, s0: Shdr)
    requires var sz := if c.Class32? then 40 else 64;
             h.shoff + sz <= |raw| ==> ShdrLaidOut(c, o, raw[h.shoff..h.shoff + sz], s0)
    ensures var needed := (h.shnum == 0 && h.shoff != 0) || h.phnum == 0xffff || h.shstrndx == 0xffff;
            var refused :=
              || h.shnum >= 0xff00
              || (h.shoff == 0 && (h.shnum != 0 || h.phnum == 0xffff || h.shstrndx == 0xffff))
              || (needed && (h.shoff + (if c.Class32? then 40 else 64) > |raw| || s0.typ != 0));
            ReadCounts(c, o, raw, h) ==
            if refused then None
            else Some(Counts(if needed then s0.size else h.shnum, if h.phnum == 0xffff then s0.info else h.phnum,
                             if h.shstrndx == 0xffff then s0.link else h.shstrndx))
  {
    hide GetShdr, ShdrLaidOut;
    var sz := ShdrSize(c);
    if h.shoff + sz <= |raw| {
      ShdrFields(c, o, raw[h.shoff..h.shoff + sz]);
      OneHeader(c, o, raw[h.shoff..h.shoff + sz], ShdrAt(c, o, raw, h.shoff, 0), s0);
    }
  }

  // ---------- Writing: _libelf_setshnum, _libelf_setphnum, _libelf_setshstrndx ----------

  /** The part of section header 0 and of the executable header that the setters assign. */
  datatype Pair = Pair(h: Ehdr, s0: Shdr)

  function SetShnum(c: Class, p: Pair, shnum: nat): Pair {
    if shnum >= SHN_LORESERVE then Pair(p.h.(shnum := 0), p.s0.(size := shnum % Limit(c)))
    else Pair(p.h.(shnum := shnum), p.s0)
  }

  function SetPhnum(p: Pair, phnum: nat): Pair {
    if phnum >= PN_XNUM then Pair(p.h.(phnum := PN_XNUM), p.s0.(info := phnum % 0x1_0000_0000))
    else Pair(p.h.(phnum := phnum), p.s0)
  }

  function SetShstrndx(p: Pair, shstrndx: nat): Pair {
    if shstrndx >= SHN_LORESERVE then Pair(p.h.(shstrndx := SHN_XINDEX), p.s0.(link := shstrndx % 0x1_0000_0000))
    else Pair(p.h.(shstrndx := shstrndx), p.s0)
  }

  /** One more than the largest offset, size or alignment of a section header. */
  function Limit(c: Class): (r: nat)
    ensures r > 0
  {
    match c case Class32 => 0x1_0000_0000 case Class64 => 0x1_0000_0000_0000_0000
  }

  /** All three counts, in the order in which the library sets them: the string table index by the application, then the
      other two when the object is laid out. */
  function SetCounts(c: Class, p: Pair, n: Counts): Pair {
    SetShnum(c, SetPhnum(SetShstrndx(p, n.shstrndx), n.phnum), n.shnum)
  }

  /** The fields of the executable header are of 16 bits. A count that is too great for its field is stored in section
      header 0: the number of sections as its size, the number of segments as its info, and the string table index as
      its link. Nothing else is assigned. */
  lemma SettersExactly(c: Class, p: Pair, n: Counts)
    ensures var q := SetCounts(c, p, n);
            && q.h == p.h.(shnum := if n.shnum >= 0xff00 then 0 else n.shnum,
                           phnum := if n.phnum >= 0xffff then 0xffff else n.phnum,
                           shstrndx := if n.shstrndx >= 0xff00 then 0xffff else n.shstrndx)
            && q.s0 == p.s0.(size := q.s0.size, info := q.s0.info, link := q.s0.link)
            && (n.shnum < 0xff00 ==> q.s0.size == p.s0.size) && (n.phnum < 0xffff ==> q.s0.info == p.s0.info)
            && (n.shstrndx < 0xff00 ==> q.s0.link == p.s0.link)
            && (0xff00 <= n.shnum < 0x1_0000_0000 ==> q.s0.size == n.shnum)
            && (0xffff <= n.phnum < 0x1_0000_0000 ==> q.s0.info == n.phnum)
            && (0xff00 <= n.shstrndx < 0x1_0000_0000 ==> q.s0.link == n.shstrndx)
  {
    if n.shnum < 0x1_0000_0000 {
      ModUnique(n.shnum, Limit(c), 0, n.shnum);
    }
  }

  /** The values that the fields of section header 0 can hold. */
  predicate Representable(n: Counts) {
    n.shnum < 0x1_0000_0000 && n.phnum < 0x1_0000_0000 && n.shstrndx < 0x1_0000_0000
  }

  predicate OthersExtended(n: Counts) {
    n.phnum >= PN_XNUM || n.shstrndx >= SHN_LORESERVE
  }

  /** Stored counts are read back unchanged, unless one of the other two counts is extended while the section count is
      not: then the reader takes the section count from the size field of section header 0, which nobody has set, and
      refuses a file without section headers. */
  lemma CountsRoundTrip(c: Class, o: Order, p: Pair, n: Counts, raw: seq<byte>)
    requires Representable(n) && (p.h.shoff != 0 <==> n.shnum != 0)
    requires p.s0.typ == SHT_NULL && ShdrFits(c, SetCounts(c, p, n).s0)
    requires n.shnum != 0 ==> p.h.shoff + ShdrSize(c) <= |raw|
    requires n.shnum != 0 ==> raw[p.h.shoff..p.h.shoff + ShdrSize(c)] == PutShdr(c, o, SetCounts(c, p, n).s0)
    ensures ReadCounts(c, o, raw, SetCounts(c, p, n).h) == Some(n) <==>
            n.shnum >= SHN_LORESERVE || !OthersExtended(n) || (n.shnum != 0 && p.s0.size == n.shnum)
  {
    hide ShdrAt, PutShdr, ShdrFits;
    if n.shnum != 0 {
      FirstStored(c, o, SetCounts(c, p, n).s0, raw, p.h.shoff);
    }
  }

  lemma FirstStored(c: Class, o: Order, s0: Shdr, raw: seq<byte>, shoff: nat)
    requires shoff + ShdrSize(c) <= |raw| && ShdrFits(c, s0)
    requires raw[shoff..shoff + ShdrSize(c)] == PutShdr(c, o, s0)
    ensures ShdrAt(c, o, raw, shoff, 0) == s0
  {
    hide PutShdr, GetShdr;
    GetPutShdr(c, o, s0);
  }

  /** A file with fewer than SHN_LORESERVE sections and an extended segment count is misread unless its first section
      header happens to carry the section count. */
  lemma CountsLost(c: Class, h: Ehdr)
    requires h.shoff != 0
    ensures var q := SetCounts(c, Pair(h, EMPTY_SHDR), Counts(3, PN_XNUM, 2));
            ExtendedCounts(q.h, q.s0) == Some(Counts(0, PN_XNUM, 2))
  {
  }
}
