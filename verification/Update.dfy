/** elf_update when the library does the layout: the new image as a function of the object before the call. */
module Update {
  import opened Basics
  import opened Codec
  import opened Section
  import opened RbShape
  import opened RbTree
  import opened Extended
  import opened ElfObject
  import opened Placement
  import opened Extents
  import opened Layout
  import opened Resync
  import opened Writer

  // ---------- The new image ----------

  /** The executable header of the new image. */
  ghost function Header(o: Outlook): Ehdr
    requires AllSound(o.v, o.items)
  {
    NewEhdr(o.v, o.h, o.nphdr, o.nscn, o.items)
  }

  /** The end of what lies before section i. */
  ghost function EndBefore(o: Outlook, i: nat): nat
    requires AllSound(o.v, o.items) && i <= |o.items|
  {
    EndAfter(o.v, o.items, LeadingEnd(o.v, o.h, o.nphdr), i)
  }

  /** Section i has bytes in the new image. */
  predicate HasBytes(o: Outlook, i: nat)
    requires i < |o.items|
  {
    o.items[i].Put? && o.items[i].p.size > 0
  }

  /** Where section i starts in the new image. */
  ghost function Offset(o: Outlook, i: nat): nat
    requires AllSound(o.v, o.items) && i < |o.items| && o.items[i].Put?
  {
    Start(o.v, o.items[i].h, o.items[i].p, EndBefore(o, i))
  }

  /** The header that section i gets. */
  ghost function NewHeader(o: Outlook, i: nat): Shdr
    requires AllSound(o.v, o.items) && i < |o.items|
  {
    match o.items[i]
    case Skip(h) => if i == 0 then CountedShdr(o.v.m.c, h, o.nphdr, o.nscn) else h
    case Bad => EMPTY_SHDR
    case Put(h, p, _) => NewShdr(o.v, h, p, Offset(o, i))
  }

  ghost function NewHeaders(o: Outlook): (r: seq<Shdr>)
    requires AllSound(o.v, o.items)
    ensures |r| == |o.items| && forall i :: 0 <= i < |r| ==> r[i] == NewHeader(o, i)
  {
    seq(|o.items|, i requires 0 <= i < |o.items| => NewHeader(o, i))
  }

  ghost predicate AllPrintable(o: Outlook) {
    forall i :: 0 <= i < |o.items| ==> Printable(o.v, o.items[i])
  }

  /** The bytes of section i in the new image. */
  ghost function Bytes(o: Outlook, i: nat, c: byte): Option<seq<byte>>
    requires ValidFormat(o.v.fmt) && !o.v.layout && AllSound(o.v, o.items) && AllPrintable(o)
    requires i < |o.items| && HasBytes(o, i)
  {
    var p := o.items[i].p;
    if p.ds == [] then RawBytes(o.v, NewHeader(o, i), o.items[i].rawoff) else Body(o.v, p.ds, |p.ds|, c)
  }

  /** The section was not read or changed, and its bytes would be copied from outside of the old file. */
  ghost predicate WildItem(o: Outlook, i: nat)
    requires AllSound(o.v, o.items) && i < |o.items| && HasBytes(o, i)
  {
    && o.items[i].p.ds == [] && RawChecked(o.v, NewHeader(o, i))
    && !RawInside(o.v, NewHeader(o, i), o.items[i].rawoff)
  }

  /** The program header table in memory after the layout. */
  function PhdrFound(o: Outlook): Option<seq<byte>> {
    if o.nphdr == 0 then o.phdr else PhdrTable(o.v, o.h, o.nphdr, o.phdr)
  }

  /** The program header table of the new image. */
  ghost function PhdrImage(o: Outlook): Option<seq<byte>>
    requires AllSound(o.v, o.items)
  {
    PhdrBytes(o.v, Header(o), o.nphdr, PhdrFound(o))
  }

  ghost function SizeOf(o: Outlook): nat
    requires AllSound(o.v, o.items)
  {
    TotalEnd(o.v, o.h, o.nphdr, o.nscn, o.items)
  }

  ghost function Places(o: Outlook): seq<Region>
    requires AllSound(o.v, o.items)
  {
    AllRegions(o.v, o.h, o.nphdr, o.nscn, Nobody(|o.items|), o.items)
  }

  /** What elf_update asks of the object and does not check: sizes and offsets that their C types can hold, in a file
      that is small enough for its class; buffers for the data; a program header table of the size that its count
      says. When a count is extended, section 0 is there to take it. */
  ghost predicate Prepared(o: Outlook) {
    && ValidFormat(o.v.fmt) && !o.v.layout && AllSound(o.v, o.items) && AllPrintable(o) && |o.h.ident| == EI_NIDENT
    && InRange(o.v, o.h, o.nphdr, o.nscn, o.items) && SizeOf(o) < Limit(o.v.m.c)
    && CountsSafe(o.nphdr, o.nscn, o.items)
    && PhdrSized(o.v, o.nphdr, o.phdr)
  }

  /** The headers and their tables can be written. */
  ghost predicate TablesWritten(o: Outlook)
    requires AllSound(o.v, o.items)
  {
    Encoding(o.v) != None && (o.nphdr > 0 ==> PhdrImage(o) != None)
  }

  /** The first n sections can be written. */
  ghost predicate SectionsWritten(o: Outlook, n: nat, c: byte)
    requires Prepared(o) && n <= |o.items|
  {
    forall i :: 0 <= i < n && HasBytes(o, i) ==> Bytes(o, i, c) != None
  }

  /** The image holds the header at its start, every table and every section where the new headers say, and the fill
      character everywhere else. */
  ghost predicate Holds(o: Outlook, img: seq<byte>, c: byte)
    requires Prepared(o)
  {
    var phoff, shoff := PhdrOffset(o.v, o.h, o.nphdr), ShdrOffset(o.v, o.h, o.nphdr, o.nscn, o.items);
    && |img| == SizeOf(o) && EhdrSize(o.v.m.c) <= |img| && EhdrBytes(o.v, Header(o)) == Some(img[..EhdrSize(o.v.m.c)])
    && (o.nphdr > 0 ==>
          && phoff + PhdrSize(o.v, o.nphdr) <= |img|
          && PhdrImage(o) == Some(img[phoff..phoff + PhdrSize(o.v, o.nphdr)]))
    && (o.nscn > 0 ==>
          && |o.items| == o.nscn && shoff + ShdrSize(o.v.m.c) * o.nscn <= |img|
          && TableBytes(o.v, NewHeaders(o)) == Some(img[shoff..shoff + ShdrSize(o.v.m.c) * o.nscn]))
    && (forall i :: 0 <= i < |o.items| && HasBytes(o, i) ==> SectionHeld(o, img, c, i))
    && (forall x :: 0 <= x < |img| && Uncovered(Places(o), x) ==> img[x] == c)
  }

  ghost predicate SectionHeld(o: Outlook, img: seq<byte>, c: byte, i: nat)
    requires Prepared(o) && i < |o.items| && HasBytes(o, i)
  {
    && Offset(o, i) + o.items[i].p.size <= |img|
    && Bytes(o, i, c) == Some(img[Offset(o, i)..Offset(o, i) + o.items[i].p.size])
  }

  // ---------- From the regions to the sections ----------

  /** Section i, if it has bytes, has the region after those of the sections before it. */
  lemma {:induction false} RankRegion(v: Config, secs: seq<Scn?>, items: seq<Item>, rc: nat, n: nat, i: nat)
    requires i < n <= |secs| == |items| && AllSound(v, items) && items[i].Put? && items[i].p.size > 0
    ensures |Regions(v, secs, items, rc, i)| < |Regions(v, secs, items, rc, n)|
    ensures Regions(v, secs, items, rc, n)[|Regions(v, secs, items, rc, i)|] ==
            Region(Start(v, items[i].h, items[i].p, EndAfter(v, items, rc, i)), items[i].p.size, SectionExtent, secs[i])
    decreases n
  {
    hide EndAfter, Start, Sound;
    assert Regions(v, secs, items, rc, n) ==
           Regions(v, secs, items, rc, n - 1) +
           ItemRegion(v, secs[n - 1], items[n - 1], EndAfter(v, items, rc, n - 1));
    hide Regions;
    if i < n - 1 {
      RankRegion(v, secs, items, rc, n - 1, i);
    }
  }

  /** Every region is that of a section that has bytes. */
  lemma {:induction false} RankFound(v: Config, secs: seq<Scn?>, items: seq<Item>, rc: nat, n: nat, k: nat)
      returns (i: nat)
    requires n <= |secs| == |items| && AllSound(v, items) && k < |Regions(v, secs, items, rc, n)|
    ensures i < n && items[i].Put? && items[i].p.size > 0 && k == |Regions(v, secs, items, rc, i)|
    decreases n
  {
    hide EndAfter, Start, Sound;
    if k < |Regions(v, secs, items, rc, n - 1)| {
      i := RankFound(v, secs, items, rc, n - 1, k);
    } else {
      i := n - 1;
    }
  }

  lemma {:induction false} RanksGrow(v: Config, secs: seq<Scn?>, items: seq<Item>, rc: nat, i: nat, n: nat)
    requires i <= n <= |secs| == |items| && AllSound(v, items)
    ensures |Regions(v, secs, items, rc, i)| <= |Regions(v, secs, items, rc, n)|
    decreases n
  {
    hide EndAfter, Start, Sound;
    if i < n {
      RanksGrow(v, secs, items, rc, i, n - 1);
    }
  }

  /** The object after the layout, for the sections secs and the extents q. */
  ghost predicate Settled(o: Outlook, e: Elf, secs: seq<Scn>, q: seq<Extent>)
    reads e, e.tree, secs, Datas(secs)
  {
    && Prepared(o) && e.nscn == o.nscn && e.nphdr == o.nphdr && e.phdr == PhdrFound(o) && |secs| == |o.items|
    && Finished(o.v, e, o.h, secs, Recounted(o.v.m.c, o.items, o.nphdr, o.nscn), q, SizeOf(o))
    && e.ehdr == Some(Header(o)) && RegionsOf(q) == AllRegions(o.v, o.h, o.nphdr, o.nscn, secs, o.items)
    && (o.nscn > 0 ==> |secs| == o.nscn)
  }

  /** Where section i lies, among the regions of the object. */
  ghost function Rank(o: Outlook, secs: seq<Scn>, i: nat): nat
    requires Prepared(o) && |secs| == |o.items| && i <= |o.items|
  {
    |Leading(o.v, o.h, o.nphdr)| + |Regions(o.v, secs, o.items, LeadingEnd(o.v, o.h, o.nphdr), i)|
  }

  ghost function SectionRegion(o: Outlook, secs: seq<Scn>, i: nat): Region
    requires Prepared(o) && i < |secs| == |o.items| && HasBytes(o, i)
  {
    Region(Offset(o, i), o.items[i].p.size, SectionExtent, secs[i])
  }

  lemma RankIs(o: Outlook, e: Elf, secs: seq<Scn>, q: seq<Extent>, i: nat)
    requires Settled(o, e, secs, q) && i < |secs| && HasBytes(o, i)
    ensures Rank(o, secs, i) < |q| && RegionsOf(q)[Rank(o, secs, i)] == SectionRegion(o, secs, i)
  {
    RankRegion(o.v, secs, o.items, LeadingEnd(o.v, o.h, o.nphdr), |secs|, i);
  }

  /** After the layout, section i has its new header and its descriptors are those of its plan. */
  lemma SectionNow(o: Outlook, e: Elf, secs: seq<Scn>, q: seq<Extent>, i: nat)
    requires Settled(o, e, secs, q) && i < |secs|
    ensures secs[i].shdr == NewHeader(o, i)
    ensures o.items[i].Put? ==> secs[i].rawoff == o.items[i].rawoff && Descs(secs[i].data) == o.items[i].p.ds
  {
    var r, rc := Recounted(o.v.m.c, o.items, o.nphdr, o.nscn), LeadingEnd(o.v, o.h, o.nphdr);
    RecountedItems(o.v.m.c, o.items, o.nphdr, o.nscn);
    RecountedPlaces(o.v, o.items, o.nphdr, o.nscn, rc, secs, i);
    assert DatasOf(secs, i) && Dealt(o.v, secs[i], r[i], EndAfter(o.v, r, rc, i));
  }

  lemma BytesNow(o: Outlook, e: Elf, secs: seq<Scn>, q: seq<Extent>, i: nat, c: byte)
    requires Settled(o, e, secs, q) && i < |secs| && HasBytes(o, i)
    requires RegionReady(o.v, e, secs, SectionRegion(o, secs, i))
    ensures PartOf(o.v, e, secs, SectionRegion(o, secs, i), c) == Bytes(o, i, c)
    ensures WildRegion(o.v, secs, SectionRegion(o, secs, i)) <==> WildItem(o, i)
  {
    hide Settled, Dealt, NewHeader, RawChecked, RawInside;
    SectionNow(o, e, secs, q, i);
    assert |Descs(secs[i].data)| == |secs[i].data|;
  }

  lemma SettledNow(o: Outlook, e: Elf, secs: seq<Scn>, q: seq<Extent>)
    requires Prepared(o) && e.nscn == o.nscn && e.nphdr == o.nphdr && e.phdr == PhdrFound(o)
    requires e.ehdr == Some(Header(o))
    requires Resynced(e, o.v, o.h, secs, Recounted(o.v.m.c, o.items, o.nphdr, o.nscn), q, SizeOf(o))
    ensures Settled(o, e, secs, q)
  {
    hide Progress, LeadingEnd, PhdrTable, AllRegions, TotalEnd, InRange, End, Ordered, Printable, PhdrOffset,
      ShdrOffset;
    var r := Recounted(o.v.m.c, o.items, o.nphdr, o.nscn);
    RecountedItems(o.v.m.c, o.items, o.nphdr, o.nscn);
    RecountedLayout(o.v, o.h, o.nphdr, o.nscn, secs, o.items);
    PhdrTableSize(o.v, o.h, o.nphdr, o.phdr);
    LibraryExtents(o.v, o.h, o.nphdr, o.nscn, secs, r, q);
    forall i | 0 <= i < |r| ensures Printable(o.v, r[i]) {
      assert Printable(o.v, o.items[i]);
      SkipPrintable(o.v, r[i]);
    }
  }

  lemma SkipPrintable(v: Config, it: Item)
    ensures it.Skip? ==> Printable(v, it)
  {
  }

  // ---------- The parts of the image ----------

  /** The parts are what the writer has for the regions. */
  ghost predicate PartsFor(o: Outlook, e: Elf, secs: seq<Scn>, q: seq<Extent>, parts: seq<Option<seq<byte>>>, c: byte)
    reads e, e.tree, secs, Datas(secs)
  {
    Settled(o, e, secs, q) && Parts(o.v, e, secs, RegionsOf(q), parts, c) && |parts| == |q|
  }

  /** The parts before the sections. */
  lemma LeadingParts(o: Outlook, e: Elf, secs: seq<Scn>, q: seq<Extent>, parts: seq<Option<seq<byte>>>, c: byte)
    requires PartsFor(o, e, secs, q, parts, c)
    ensures |q| > 0 && parts[0] == EhdrBytes(o.v, Header(o)) && RegionsOf(q)[0] == EhdrRegion(o.v.m.c)
    ensures o.nphdr > 0 ==>
            && |q| > 1 && parts[1] == PhdrImage(o)
            && RegionsOf(q)[1] == Region(PhdrOffset(o.v, o.h, o.nphdr), PhdrSize(o.v, o.nphdr), PhdrExtent, null)
    ensures |Leading(o.v, o.h, o.nphdr)| == if o.nphdr > 0 then 2 else 1
  {
    hide Finished, Resynced, Complete, Regions, Trailing, LeadingEnd, PhdrTable, EhdrBytes, PhdrBytes, PhdrStart,
      InRange, PhdrSize, ValidFormat, AllPrintable, InRange, Header;
    PartAt(o.v, e, secs, RegionsOf(q), parts, c, 0);
    if o.nphdr > 0 {
      PartAt(o.v, e, secs, RegionsOf(q), parts, c, 1);
    }
  }

  lemma SectionPart(o: Outlook, e: Elf, secs: seq<Scn>, q: seq<Extent>, parts: seq<Option<seq<byte>>>, c: byte, i: nat)
    requires PartsFor(o, e, secs, q, parts, c) && i < |secs| && HasBytes(o, i)
    ensures Rank(o, secs, i) < |q| && parts[Rank(o, secs, i)] == Bytes(o, i, c)
    ensures RegionsOf(q)[Rank(o, secs, i)] == SectionRegion(o, secs, i)
    ensures WildRegion(o.v, secs, RegionsOf(q)[Rank(o, secs, i)]) <==> WildItem(o, i)
  {
    hide Finished, RegionReady, PartOf, Rank, Bytes, WildRegion, WildItem, SectionRegion;
    RankIs(o, e, secs, q, i);
    PartAt(o.v, e, secs, RegionsOf(q), parts, c, Rank(o, secs, i));
    BytesNow(o, e, secs, q, i, c);
  }

  /** The part behind the sections. */
  lemma TrailingPart(o: Outlook, e: Elf, secs: seq<Scn>, q: seq<Extent>, parts: seq<Option<seq<byte>>>, c: byte)
    requires PartsFor(o, e, secs, q, parts, c) && o.nscn > 0
    ensures |q| > 1 && parts[|q| - 1] == TableBytes(o.v, NewHeaders(o)) && |secs| == o.nscn
    ensures RegionsOf(q)[|q| - 1] ==
            Region(ShdrOffset(o.v, o.h, o.nphdr, o.nscn, o.items), ShdrSize(o.v.m.c) * o.nscn, ShdrExtent, null)
  {
    hide Finished, Resynced, Complete, Regions, LeadingEnd, TableBytes, ValidFormat, AllPrintable, InRange, Header,
      ShdrStart, NewHeader, RegionReady, EndAfter;
    forall i | 0 <= i < |secs| ensures secs[i].shdr == NewHeader(o, i) {
      SectionNow(o, e, secs, q, i);
    }
    assert HeadersOf(secs) == NewHeaders(o);
    var r, t := AllRegions(o.v, o.h, o.nphdr, o.nscn, secs, o.items), RegionsOf(q)[|q| - 1];
    assert t == r[|r| - 1] && t.kind == ShdrExtent;
    PartAt(o.v, e, secs, RegionsOf(q), parts, c, |q| - 1);
    assert PartOf(o.v, e, secs, t, c) == TableBytes(o.v, HeadersOf(secs));
  }

  /** Every part belongs to the headers, to a section or to the section header table. */
  lemma PartKind(o: Outlook, e: Elf, secs: seq<Scn>, q: seq<Extent>, k: nat) returns (i: nat)
    requires Settled(o, e, secs, q) && k < |q|
    ensures k < |Leading(o.v, o.h, o.nphdr)| || (o.nscn > 0 && k == |q| - 1) ||
            (i < |secs| && HasBytes(o, i) && k == Rank(o, secs, i))
  {
    hide Finished, Resynced, Complete, Regions, LeadingEnd, ValidFormat, AllPrintable, InRange, Header, EndAfter;
    var n, rc := |Leading(o.v, o.h, o.nphdr)|, LeadingEnd(o.v, o.h, o.nphdr);
    i := 0;
    if n <= k < n + |Regions(o.v, secs, o.items, rc, |secs|)| {
      i := RankFound(o.v, secs, o.items, rc, |secs|, k - n);
    }
  }

  lemma HeadersEncoded(o: Outlook)
    requires Prepared(o)
    ensures EhdrBytes(o.v, Header(o)) != None <==> Encoding(o.v) != None
    ensures TableBytes(o.v, NewHeaders(o)) != None <==> Encoding(o.v) != None
  {
  }

  /** All parts can be written exactly when the headers and all sections can. */
  lemma PartsWritten(o: Outlook, e: Elf, secs: seq<Scn>, q: seq<Extent>, parts: seq<Option<seq<byte>>>, c: byte)
    requires PartsFor(o, e, secs, q, parts, c)
    ensures (forall k :: 0 <= k < |q| ==> parts[k] != None) <==> TablesWritten(o) && SectionsWritten(o, |o.items|, c)
  {
    hide Finished, Resynced, Complete, Regions, Leading, ValidFormat, AllPrintable, InRange, Header, Bytes, EhdrBytes,
      TableBytes, PhdrImage, Encoding, Rank, Parts, SectionRegion, WildRegion, WildItem, AllRegions;
    LeadingParts(o, e, secs, q, parts, c);
    HeadersEncoded(o);
    if forall k :: 0 <= k < |q| ==> parts[k] != None {
      forall i | 0 <= i < |o.items| && HasBytes(o, i) ensures Bytes(o, i, c) != None {
        SectionPart(o, e, secs, q, parts, c, i);
      }
    }
    if TablesWritten(o) && SectionsWritten(o, |o.items|, c) {
      forall k | 0 <= k < |q| ensures parts[k] != None {
        PartFine(o, e, secs, q, parts, c, |o.items|, k);
      }
    }
  }

  /** A part before that of section n can be written if the headers and the sections before n can. */
  lemma PartFine(o: Outlook, e: Elf, secs: seq<Scn>, q: seq<Extent>, parts: seq<Option<seq<byte>>>, c: byte, n: nat,
      k: nat)
    requires PartsFor(o, e, secs, q, parts, c) && n <= |o.items| && k < |q|
    requires TablesWritten(o) && SectionsWritten(o, n, c) && (n < |o.items| ==> k < Rank(o, secs, n))
    ensures parts[k] != None
  {
    hide Finished, Resynced, Complete, Regions, Leading, ValidFormat, AllPrintable, InRange, Header, Bytes, EhdrBytes,
      TableBytes, PhdrImage, Encoding, Parts, SectionRegion, WildRegion, WildItem, AllRegions;
    LeadingParts(o, e, secs, q, parts, c);
    HeadersEncoded(o);
    var i := PartKind(o, e, secs, q, k);
    if k >= |Leading(o.v, o.h, o.nphdr)| {
      if i < |secs| && HasBytes(o, i) && k == Rank(o, secs, i) {
        SectionPart(o, e, secs, q, parts, c, i);
        if n <= i {
          RanksGrow(o.v, secs, o.items, LeadingEnd(o.v, o.h, o.nphdr), n, i);
        }
      } else {
        TrailingPart(o, e, secs, q, parts, c);
      }
    }
  }

  /** The writer meets a section whose bytes lie outside of the old file, before anything else that stops it. */
  ghost predicate MeetsWild(o: Outlook, c: byte)
    requires Prepared(o)
  {
    TablesWritten(o) && exists i :: 0 <= i < |o.items| && HasBytes(o, i) && WildItem(o, i) && SectionsWritten(o, i, c)
  }

  lemma PartsWild(o: Outlook, e: Elf, secs: seq<Scn>, q: seq<Extent>, parts: seq<Option<seq<byte>>>, c: byte)
    requires PartsFor(o, e, secs, q, parts, c)
    ensures (exists k :: WildAt(o.v, secs, RegionsOf(q), parts, k)) <==> MeetsWild(o, c)
  {
    hide Finished, TablesWritten, SectionsWritten, WildItem, WildAt, ValidFormat, AllPrintable, InRange;
    if k :| WildAt(o.v, secs, RegionsOf(q), parts, k) {
      WildFrom(o, e, secs, q, parts, c, k);
    }
    if MeetsWild(o, c) {
      var i :| 0 <= i < |o.items| && HasBytes(o, i) && WildItem(o, i) && SectionsWritten(o, i, c);
      WildTo(o, e, secs, q, parts, c, i);
    }
  }

  lemma WildFrom(o: Outlook, e: Elf, secs: seq<Scn>, q: seq<Extent>, parts: seq<Option<seq<byte>>>, c: byte, k: nat)
    requires PartsFor(o, e, secs, q, parts, c) && WildAt(o.v, secs, RegionsOf(q), parts, k)
    ensures MeetsWild(o, c)
  {
    hide Finished, Resynced, Complete, Regions, Leading, ValidFormat, AllPrintable, InRange, Header, Bytes, EhdrBytes,
      TableBytes, PhdrImage, Encoding, Parts, SectionRegion, WildItem, AllRegions, Wild;
    LeadingParts(o, e, secs, q, parts, c);
    HeadersEncoded(o);
    if o.nscn > 0 {
      TrailingPart(o, e, secs, q, parts, c);
    }
    var i := PartKind(o, e, secs, q, k);
    SectionPart(o, e, secs, q, parts, c, i);
    forall j | 0 <= j < i && HasBytes(o, j) ensures Bytes(o, j, c) != None {
      SectionPart(o, e, secs, q, parts, c, j);
      RankBelow(o, secs, j, i);
    }
  }

  lemma RankBelow(o: Outlook, secs: seq<Scn>, j: nat, i: nat)
    requires Prepared(o) && |secs| == |o.items| && j < i <= |o.items| && HasBytes(o, j)
    ensures Rank(o, secs, j) < Rank(o, secs, i)
  {
    RankRegion(o.v, secs, o.items, LeadingEnd(o.v, o.h, o.nphdr), i, j);
  }

  lemma WildTo(o: Outlook, e: Elf, secs: seq<Scn>, q: seq<Extent>, parts: seq<Option<seq<byte>>>, c: byte, i: nat)
    requires PartsFor(o, e, secs, q, parts, c) && TablesWritten(o)
    requires i < |o.items| && HasBytes(o, i) && WildItem(o, i) && SectionsWritten(o, i, c)
    ensures WildAt(o.v, secs, RegionsOf(q), parts, Rank(o, secs, i))
  {
    hide Finished, Resynced, Complete, Regions, Leading, ValidFormat, AllPrintable, InRange, Header, Bytes,
      TablesWritten, SectionsWritten, Rank, Parts, SectionRegion, WildItem, AllRegions, WildRegion;
    SectionPart(o, e, secs, q, parts, c, i);
    forall k | 0 <= k < Rank(o, secs, i) ensures parts[k] != None {
      PartFine(o, e, secs, q, parts, c, i, k);
    }
  }

  /** A section whose header asks for no alignment or for a power of two has every descriptor aligned in the new
      file. */
  lemma DescriptorsAligned(o: Outlook, i: nat, k: nat)
    requires Prepared(o) && i < |o.items| && HasBytes(o, i) && k < |o.items[i].p.ds|
    requires o.items[i].h.addralign == 0 || IsPow2(o.items[i].h.addralign)
    ensures var ds := o.items[i].p.ds;
            AllOk(o.v, ds, |ds|) && (Offset(o, i) + Off(o.v, ds, k)) % ds[k].align == 0
  {
    hide ValidFormat, InRange, SizeOf, AllPrintable, DescOk, Off, RoundUp, MaxAlign, OwnAlign;
    var it := o.items[i];
    assert Sound(o.v, it);
    PowerOfTwoAligned(o.v, it.p.ds, it.h, ShType(it.h.typ).value, EndBefore(o, i), k);
  }

  // ---------- Section headers before and after ----------

  /** The header of section i before the call: that of the section the object has, or the one that is in the file. */
  ghost function HeaderBefore(e: Elf, i: nat): Shdr
    reads e, e.tree, e.Order()
  {
    if e.ehdr != None && i < |e.Order()| then e.Order()[i].shdr
    else match HeadOf(e)
         case None => EMPTY_SHDR
         case Some(hd) => FileShdr(e, hd.h.shoff, i)
  }

  ghost function HeadersBefore(e: Elf, n: nat): (hs: seq<Shdr>)
    reads e, e.tree, e.Order()
    ensures |hs| == n && forall i :: 0 <= i < n ==> hs[i] == HeaderBefore(e, i)
  {
    seq(n, i requires 0 <= i < n reads e, e.tree, e.Order() => HeaderBefore(e, i))
  }

  ghost function FileShdr(e: Elf, shoff: nat, i: nat): Shdr
    reads e`byteorder
  {
    if shoff + (i + 1) * ShdrSize(e.mode.c) <= |e.raw|
    then ShdrAt(e.mode.c, OrderOf(e.byteorder, e.mode.native), e.raw, shoff, i) else EMPTY_SHDR
  }

  /** In the file it is at the position that the gABI gives it. */
  lemma FileShdrStored(e: Elf, shoff: nat, i: nat)
    requires shoff + (i + 1) * (if e.mode.c.Class32? then 40 else 64) <= |e.raw|
    ensures Stored(e.mode.c, OrderOf(e.byteorder, e.mode.native), e.raw, shoff, i, FileShdr(e, shoff, i))
  {
    hide GetShdr, ShdrLaidOut;
    var at, sz := shoff + i * ShdrSize(e.mode.c), ShdrSize(e.mode.c);
    ShdrFields(e.mode.c, OrderOf(e.byteorder, e.mode.native), e.raw[at..at + sz]);
  }

  lemma EntryBefore(e: Elf, v: Config, h: Ehdr, i: nat)
    requires v.m == e.mode && v.raw == e.raw && v.byteorder == e.byteorder && h.shentsize == ShdrSize(e.mode.c)
    ensures var it, h0 := FileEntry(v, h, i), FileShdr(e, h.shoff, i);
            it.Bad? || (it.h == h0 && (it.Skip? <==> h0.typ in {0, 8}))
  {
    hide PlanOf, ShdrAt;
    assert ShdrSize(e.mode.c) * (i + 1) == (i + 1) * ShdrSize(e.mode.c);
  }

  /** The outlook has those headers. */
  lemma ItemBefore(e: Elf, layout: bool, fmt: Format, i: nat)
    requires e.Valid() && OutlookOf(e, layout, fmt) != None && i < |OutlookOf(e, layout, fmt).value.items|
    ensures var it, h := OutlookOf(e, layout, fmt).value.items[i], HeaderBefore(e, i);
            it.Bad? || (it.h == h && (it.Skip? <==> h.typ in {0, 8}))
  {
    hide PlanOf, PlanNow, FileEntry, FileShdr, ScnTree.Valid, TableThere, Datas, ReadCounts;
    var o, hd := OutlookOf(e, layout, fmt).value, HeadOf(e).value;
    var known := KnownItems(o.v, e);
    if e.ehdr != None && i < |e.Order()| {
      assert o.items[i] == known[i];
    } else if i < |known| {
      FirstBefore(e, hd);
    } else {
      assert o.items[i] == FileEntry(o.v, o.h, i);
      EntryBefore(e, o.v, o.h, i);
    }
  }

  /** Section header 0, when it was read for the counts. */
  lemma FirstBefore(e: Elf, hd: Head)
    requires e.ehdr == None && NewHead(e.mode, e.byteorder, e.raw) == Some(hd) && hd.first != None
    ensures hd.first == Some(FileShdr(e, hd.h.shoff, 0))
  {
    hide ShdrAt, FileEhdr;
  }

  /** Of a section header, elf_update changes sh_addralign, sh_entsize, sh_offset and sh_size only. In section header 0
      it also stores an extended segment count. */
  predicate ShdrKept(i: nat, h: Shdr, h': Shdr, nphdr: nat) {
    && h'.name == h.name && h'.typ == h.typ && h'.flags == h.flags && h'.addr == h.addr && h'.link == h.link
    && h'.info == if i == 0 && nphdr >= 0xffff then nphdr % 0x1_0000_0000 else h.info
  }

  /** A section without contents keeps all of its header, except that section header 0 takes extended counts. */
  lemma NewHeaderMeaning(o: Outlook, i: nat)
    requires Prepared(o) && i < |o.items| && !o.items[i].Bad?
    ensures ShdrKept(i, o.items[i].h, NewHeader(o, i), o.nphdr)
    ensures o.items[i].Skip? ==>
      var h, h' := o.items[i].h, NewHeader(o, i);
      && h'.offset == h.offset && h'.addralign == h.addralign && h'.entsize == h.entsize
      && h'.size == if i == 0 && o.nscn >= 0xff00 then o.nscn % Limit(o.v.m.c) else h.size
  {
    hide ValidFormat, InRange, SizeOf, AllPrintable, Offset;
    if o.items[i].Put? {
      NewShdrMeaning(o.v, o.items[i].h, o.items[i].p, Offset(o, i));
    }
  }

  /** The bytes of a section can be written exactly when every descriptor can be translated, or, for a section that
      nobody has read or changed, when it lies in the old file both where it was and where it goes. */
  lemma BytesExactly(o: Outlook, i: nat, c: byte)
    requires Prepared(o) && i < |o.items| && HasBytes(o, i)
    ensures var p := o.items[i].p;
            Bytes(o, i, c) != None <==>
            if p.ds == [] then
              !o.v.m.write && Offset(o, i) + p.size <= |o.v.raw| && o.items[i].rawoff + p.size <= |o.v.raw|
            else forall k :: 0 <= k < |p.ds| ==> Xlate(o.v, p.ds[k].typ, p.ds[k].buf) != None
  {
    hide Xlate, Start, EndBefore, AllRegions, DescOk, Off;
    assert Sound(o.v, o.items[i]) && Printable(o.v, o.items[i]);
    BodyExactly(o.v, o.items[i].p.ds, |o.items[i].p.ds|, c);
    PlaceFits(o, i);
  }

  lemma PlaceFits(o: Outlook, i: nat)
    requires Prepared(o) && i < |o.items| && HasBytes(o, i)
    ensures NewHeader(o, i).offset == Offset(o, i) && NewHeader(o, i).size == o.items[i].p.size
  {
    hide ValidFormat, AllPrintable, Start, Limit;
    EndGrows(o.v, o.items, LeadingEnd(o.v, o.h, o.nphdr), i + 1, |o.items|);
    assert Offset(o, i) + o.items[i].p.size <= SizeOf(o);
    ModUnique(Offset(o, i), Limit(o.v.m.c), 0, Offset(o, i));
    ModUnique(o.items[i].p.size, Limit(o.v.m.c), 0, o.items[i].p.size);
  }

  // ---------- elf_update ----------

  /** The tiles, read as the image of the object. */
  lemma HoldsNow(o: Outlook, e: Elf, secs: seq<Scn>, q: seq<Extent>, parts: seq<Option<seq<byte>>>, img: seq<byte>,
      c: byte)
    requires PartsFor(o, e, secs, q, parts, c) && |img| == SizeOf(o) && Tiled(o.v, e, secs, RegionsOf(q), img, c)
    ensures Holds(o, img, c)
  {
    hide Finished, RegionReady, PartOf, Bytes, WildItem, WildRegion, PhdrImage, TableBytes, EhdrBytes, NewHeader,
      Header, Uncovered, AllRegions, ValidFormat, AllPrintable, InRange, Leading, SizeOf, ShdrOffset, PhdrOffset;
    LeadingParts(o, e, secs, q, parts, c);
    PartHeld(o, e, secs, q, parts, img, c, 0);
    if o.nphdr > 0 {
      PartHeld(o, e, secs, q, parts, img, c, 1);
    }
    if o.nscn > 0 {
      TrailingPart(o, e, secs, q, parts, c);
      PartHeld(o, e, secs, q, parts, img, c, |q| - 1);
    }
    forall i | 0 <= i < |o.items| && HasBytes(o, i) ensures SectionHeld(o, img, c, i) {
      SectionPart(o, e, secs, q, parts, c, i);
      PartHeld(o, e, secs, q, parts, img, c, Rank(o, secs, i));
    }
    forall x | 0 <= x < |img| && Uncovered(Places(o), x) ensures img[x] == c {
      PlacesSame(o, secs);
      UncoveredSame(Places(o), RegionsOf(q), x);
    }
  }

  lemma PartHeld(o: Outlook, e: Elf, secs: seq<Scn>, q: seq<Extent>, parts: seq<Option<seq<byte>>>, img: seq<byte>,
                 c: byte, k: nat)
    requires PartsFor(o, e, secs, q, parts, c) && Tiled(o.v, e, secs, RegionsOf(q), img, c) && k < |q|
    ensures var r := RegionsOf(q)[k]; r.start + r.size <= |img| && parts[k] == Some(img[r.start..r.start + r.size])
  {
    hide Finished, RegionReady, PartOf, Uncovered, AllRegions;
    PartAt(o.v, e, secs, RegionsOf(q), parts, c, k);
  }

  lemma PlacesSame(o: Outlook, secs: seq<Scn>)
    requires AllSound(o.v, o.items) && |secs| == |o.items|
    ensures SamePlaces(Places(o), AllRegions(o.v, o.h, o.nphdr, o.nscn, secs, o.items))
  {
    RegionsAnonymous(o.v, Nobody(|o.items|), secs, o.items, LeadingEnd(o.v, o.h, o.nphdr), |o.items|);
  }

  lemma UncoveredSame(a: seq<Region>, b: seq<Region>, x: nat)
    requires SamePlaces(a, b) && Uncovered(a, x)
    ensures Uncovered(b, x)
  {
    forall k | 0 <= k < |b| ensures !(b[k].start <= x < b[k].start + b[k].size) {
      assert !(a[k].start <= x < a[k].start + a[k].size);
    }
  }

  /** In library layout, an object can be laid out when its section table can be read, every section has a plan, and the
      sections end within the range of off_t. */
  lemma LaidOutExactly(o: Outlook)
    requires Prepared(o)
    ensures LaidOut(o) <==>
            && o.there && BodyEnd(o.v, o.h, o.nphdr, o.items) < OFF_T_LIMIT
            && forall i :: 0 <= i < |o.items| ==> !o.items[i].Bad?
  {
    LibraryLayout(o.v, o.h, o.nphdr, o.nscn, o.items);
  }

  /** elf_update with ELF_C_WRITE, when the library does the layout, from an empty list of extents on. It succeeds
      exactly when the object can be laid out and all its parts can be written, and the new file then is the image
      that the object had promised before the call. */
  method ElfUpdate(e: Elf, fmt: Format, c: byte, extents: ExtentList) returns (ok: bool, wild: bool, img: seq<byte>)
    requires e.Valid() && e.Numbered() && AllLinked(e.Scns()) && ValidFormat(fmt) && extents.Lists([])
    requires OutlookOf(e, false, fmt) != None ==> Prepared(OutlookOf(e, false, fmt).value)
    modifies extents, e, e.tree, e.Scns()`left, e.Scns()`right, e.Scns()`parent, e.Scns()`red
    modifies e.Scns()`shdr, e.Scns()`dirty, e.Scns()`size, e.Scns()`offset, e.Scns()`data, Datas(e.Order())`off
    ensures e.Valid()
    ensures ok <==> old(OutlookOf(e, false, fmt)) != None &&
                    var o := old(OutlookOf(e, false, fmt)).value;
                    LaidOut(o) && TablesWritten(o) && SectionsWritten(o, |o.items|, c)
    ensures wild <==> old(OutlookOf(e, false, fmt)) != None &&
                      var o := old(OutlookOf(e, false, fmt)).value; LaidOut(o) && MeetsWild(o, c)
    ensures ok ==> Holds(old(OutlookOf(e, false, fmt)).value, img, c)
    ensures ok ==>
      && old(HeadOf(e)) != None && e.ehdr != None
      && e.nphdr == old(HeadOf(e)).value.nphdr && e.nscn == old(HeadOf(e)).value.nscn
      && HeaderUpdated(e.mode.c, fmt, false, old(HeadOf(e)).value.h, e.ehdr.value, e.nphdr, e.nscn)
      && Some(img[..EhdrSize(e.mode.c)]) == EhdrBytes(old(OutlookOf(e, false, fmt)).value.v, e.ehdr.value)
  {
    hide HeaderUpdated, Described, EhdrBytes, OutlookOf, ScnTree.Valid, Rep, Bst, AllLinked, LaidOut, InRange,
      TablesWritten, SectionsWritten, MeetsWild, Holds, AllPrintable, ValidFormat, Resynced, Finished, Datas, Nodes,
      InOrder, End, Ordered, AllRegions, Recounted, NewEhdr;
    ghost var oo := OutlookOf(e, false, fmt);
    FormatSizes(fmt, e.mode.c);
    OutlookConfig(e, fmt);
    ghost var secs, q;
    var newsize;
    ok, newsize, secs, q := ResyncElf(e, false, fmt, extents);
    wild, img := false, [];
    if !ok {
      return;
    }
    ghost var o := oo.value;
    SettledNow(o, e, secs, q);
    ghost var parts;
    var newfile;
    ok, wild, newfile, parts := WriteImage(Config(e.mode, false, e.byteorder, fmt, e.raw), e, newsize, extents, c,
        o.h, secs,
                                           Recounted(o.v.m.c, o.items, o.nphdr, o.nscn), q);
    PartsWritten(o, e, secs, q, parts, c);
    PartsWild(o, e, secs, q, parts, c);
    if ok {
      HoldsNow(o, e, secs, q, parts, newfile[..], c);
      img := newfile[..];
      HeaderPart(o, img, c);
    }
  }

  lemma HeaderPart(o: Outlook, img: seq<byte>, c: byte)
    requires Prepared(o) && Holds(o, img, c)
    ensures EhdrSize(o.v.m.c) <= |img| && |Header(o).ident| == EI_NIDENT
    ensures EhdrBytes(o.v, Header(o)) == Some(img[..EhdrSize(o.v.m.c)])
  {
  }

  lemma OutlookConfig(e: Elf, fmt: Format)
    ensures var o := OutlookOf(e, false, fmt);
            o != None ==> o.value.v == Config(e.mode, false, o.value.v.byteorder, fmt, e.raw)
  {
  }

  lemma FormatSizes(f: Format, c: Class)
    requires ValidFormat(f)
    ensures Fsize(f, c, ELF_T_PHDR) > 0
  {
  }
}
