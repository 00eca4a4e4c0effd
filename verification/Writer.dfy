/** Writing the image of an ELF object: _libelf_write_scn, _libelf_write_ehdr, _libelf_write_phdr, _libelf_write_shdr
    and the filling loop of _libelf_write_elf in elf_update.c. */
module Writer {
  import opened Basics
  import opened Codec
  import opened Section
  import opened RbShape
  import opened RbTree
  import opened Extended
  import opened ElfObject
  import opened Placement
  import opened Extents
  import opened Layout
  import opened Resync

  // ---------- Buffers ----------

  function Fill(n: nat, c: byte): (r: seq<byte>)
    ensures |r| == n && forall i :: 0 <= i < n ==> r[i] == c
  {
    seq(n, i => c)
  }

  /** The buffer a with the bytes b put at position k. */
  function Splice(a: seq<byte>, k: nat, b: seq<byte>): (r: seq<byte>)
    requires k + |b| <= |a|
    ensures |r| == |a|
  {
    a[..k] + b + a[k + |b|..]
  }

  /** Two adjacent writes are one write. */
  lemma SpliceTwice(a: seq<byte>, k: nat, b: seq<byte>, c: seq<byte>)
    requires k + |b| + |c| <= |a|
    ensures Splice(Splice(a, k, b), k + |b|, c) == Splice(a, k, b + c)
  {
    var s := Splice(a, k, b);
    assert s[..k + |b|] == a[..k] + b;
    assert s[k + |b| + |c|..] == a[k + |b| + |c|..];
  }

  lemma SpliceNothing(a: seq<byte>, k: nat)
    requires k <= |a|
    ensures Splice(a, k, []) == a
  {
  }

  lemma SplicePrefix(a: seq<byte>, k: nat, b: seq<byte>)
    requires k + |b| <= |a|
    ensures Splice(a, k, b)[..k + |b|] == a[..k] + b
  {
  }

  method Memset(nf: array<byte>, k: nat, n: nat, c: byte)
    requires k + n <= nf.Length
    modifies nf
    ensures nf[..] == Splice(old(nf[..]), k, Fill(n, c))
  {
    forall i | k <= i < k + n {
      nf[i] := c;
    }
    assert nf[..] == Splice(old(nf[..]), k, Fill(n, c));
  }

  method Memcpy(nf: array<byte>, k: nat, b: seq<byte>)
    requires k + |b| <= nf.Length
    modifies nf
    ensures nf[..] == Splice(old(nf[..]), k, b)
  {
    forall i | k <= i < k + |b| {
      nf[i] := b[i - k];
    }
    assert nf[..] == Splice(old(nf[..]), k, b);
  }

  // ---------- Translation ----------

  /** The byte order that _libelf_xlate works in. */
  function Encoding(v: Config): Option<Order> {
    if v.byteorder == 0 then Some(v.m.native)
    else if v.byteorder == 1 then Some(Lsb)
    else if v.byteorder == 2 then Some(Msb)
    else None
  }

  /** _libelf_xlate to the file representation, for a type and a size that the layout has checked. */
  function Xlate(v: Config, t: nat, buf: Option<seq<byte>>): Option<seq<byte>> {
    if Encoding(v) == None || buf == None then None
    else if buf.value == [] then Some([])
    else ToFile(v.fmt, v.m.c, Encoding(v).value, t, buf.value)
  }

  /** The application has filled in the contents of the descriptor. */
  predicate Backed(d: Desc) {
    d.buf != None && |d.buf.value| == d.size
  }

  lemma XlateSize(v: Config, d: Desc)
    requires ValidFormat(v.fmt) && DescOk(v, d) && Backed(d) && Xlate(v, d.typ, d.buf) != None
    ensures |Xlate(v, d.typ, d.buf).value| == FileSize(v, d)
  {
    if d.size != 0 {
      assert TranslatesBack(v.fmt, v.m.c, Encoding(v).value, d.typ, d.buf.value);
    }
  }

  // ---------- _libelf_write_scn ----------

  predicate AllBacked(ds: seq<Desc>) {
    forall i :: 0 <= i < |ds| ==> Backed(ds[i])
  }

  /** The bytes of the first n descriptors, with the alignment holes between them filled. */
  function Body(v: Config, ds: seq<Desc>, n: nat, c: byte): (r: Option<seq<byte>>)
    requires ValidFormat(v.fmt) && n <= |ds| && AllOk(v, ds, n) && AllBacked(ds)
    ensures r != None ==> |r.value| == Size(v, ds, n)
  {
    if n == 0 then Some([])
    else
      var b, t := Body(v, ds, n - 1, c), Xlate(v, ds[n - 1].typ, ds[n - 1].buf);
      RoundUpFacts(Size(v, ds, n - 1), ds[n - 1].align);
      if b == None || t == None then None
      else
        XlateSize(v, ds[n - 1]);
        Some(b.value + Fill(Off(v, ds, n - 1) - |b.value|, c) + t.value)
  }

  /** A descriptor can be translated when it is empty or its type's translator accepts the contents, in a byte order
      that is none, for that of this machine, or one of the two. */
  lemma XlateExactly(v: Config, d: Desc)
    requires Backed(d)
    ensures Xlate(v, d.typ, d.buf) != None <==>
            v.byteorder in {0, 1, 2} && (d.size > 0 ==>
              var o := if v.byteorder == 0 then v.m.native else if v.byteorder == 1 then Lsb else Msb;
              ToFile(v.fmt, v.m.c, o, d.typ, d.buf.value) != None)
  {
  }

  /** A section can be written when all its descriptors can be translated. */
  lemma {:induction false} BodyExactly(v: Config, ds: seq<Desc>, n: nat, c: byte)
    requires ValidFormat(v.fmt) && n <= |ds| && AllOk(v, ds, n) && AllBacked(ds)
    ensures Body(v, ds, n, c) != None <==> forall i :: 0 <= i < n ==> Xlate(v, ds[i].typ, ds[i].buf) != None
  {
    hide Xlate, ValidFormat, DescOk, Off, FileSize;
    if n != 0 {
      BodyExactly(v, ds, n - 1, c);
    }
  }

  /** The check of elf_rawdata on a section nobody has read. It is made with the offset that the section has now. */
  predicate RawChecked(v: Config, h: Shdr) {
    !v.m.write && h.offset <= |v.raw| && h.size <= |v.raw| - h.offset
  }

  /** The bytes of a section nobody has changed lie within the old file, where it was. */
  predicate RawInside(v: Config, h: Shdr, rawoff: nat) {
    rawoff + h.size <= |v.raw|
  }

  /** The bytes of such a section, which come from where it was in the old file. */
  function RawBytes(v: Config, h: Shdr, rawoff: nat): Option<seq<byte>> {
    if !RawChecked(v, h) || !RawInside(v, h, rawoff) then None else Some(v.raw[rawoff..rawoff + h.size])
  }

  /** The check is made on the wrong offset: a section that has moved towards the start of the file passes it while
      its bytes would come from behind the end of the old file. Here a section header of a file of 100 bytes gives
      offset 120 and size 16, and the section has moved to offset 64. */
  lemma CopiedFromOutside(v: Config, h: Shdr)
    requires !v.m.write && |v.raw| == 100 && h.offset == 64 && h.size == 16
    ensures RawChecked(v, h) && !RawInside(v, h, 120)
  {
  }

  /** The check is right for old files of every length exactly when the section has not moved towards the start. */
  lemma CheckExactly(v: Config, h: Shdr, rawoff: nat)
    requires !v.m.write
    ensures (forall raw: seq<byte> :: RawChecked(v.(raw := raw), h) ==> RawInside(v.(raw := raw), h, rawoff)) <==>
            rawoff <= h.offset
  {
    if rawoff > h.offset {
      var raw: seq<byte> := Fill(h.offset + h.size, 0);
      assert RawChecked(v.(raw := raw), h) && !RawInside(v.(raw := raw), h, rawoff);
    }
  }

  /** A section that was laid out by the library, with contents that can be written. */
  ghost predicate Contents(v: Config, s: Scn)
    reads s`shdr, s`size, s`data, s.data
  {
    var ds := Descs(s.data);
    && !NoContents(s.shdr) && s.shdr.size == s.size > 0
    && AllOk(v, ds, |ds|) && AllBacked(ds) && Spread(v, ds, s.data, |ds|)
    && (ds != [] ==> Size(v, ds, |ds|) == s.size)
  }

  /** The bytes of the section in the new file. */
  ghost function SectionBytes(v: Config, s: Scn, c: byte): (r: Option<seq<byte>>)
    requires ValidFormat(v.fmt) && Contents(v, s)
    reads s`shdr, s`size, s`rawoff, s`data, s.data
    ensures r != None ==> |r.value| == s.size
  {
    if s.data == [] then RawBytes(v, s.shdr, s.rawoff) else Body(v, Descs(s.data), |s.data|, c)
  }

  /** Writing the section would read past the end of the old file. */
  ghost predicate Wild(v: Config, s: Scn)
    reads s`shdr, s`rawoff, s`data
  {
    s.data == [] && RawChecked(v, s.shdr) && !RawInside(v, s.shdr, s.rawoff)
  }

  /** The contents of one descriptor, after the hole before it. */
  method WriteData(v: Config, d: Data, nf: array<byte>, shOff: nat, rc: nat, c: byte) returns (ok: bool, rc': nat)
    requires DescOk(v, d.d) && Backed(d.d) && ValidFormat(v.fmt)
    requires rc <= shOff + d.off && shOff + d.off + FileSize(v, d.d) <= nf.Length
    modifies nf
    ensures ok <==> Xlate(v, d.d.typ, d.d.buf) != None
    ensures ok ==> rc' == shOff + d.off + FileSize(v, d.d)
    ensures ok ==> rc + |Fill(shOff + d.off - rc, c) + Xlate(v, d.d.typ, d.d.buf).value| == rc' <= nf.Length
    ensures ok ==> nf[..] == Splice(old(nf[..]), rc, Fill(shOff + d.off - rc, c) + Xlate(v, d.d.typ, d.d.buf).value)
  {
    hide DescOk, FileSize, Xlate, TranslatesBack, ValidFormat, Splice;
    ghost var was := nf[..];
    if rc < shOff + d.off {
      Memset(nf, rc, shOff + d.off - rc, c);
    } else {
      SpliceNothing(was, rc);
      assert Fill(0, c) == [];
    }
    rc' := shOff + d.off;
    var dst := Xlate(v, d.d.typ, d.d.buf);
    if dst == None {
      return false, rc';
    }
    XlateSize(v, d.d);
    Memcpy(nf, rc', dst.value);
    SpliceTwice(was, rc, Fill(rc' - rc, c), dst.value);
    rc' := rc' + |dst.value|;
    ok := true;
  }

  /** _libelf_write_scn. When it would copy from outside of the old file, it does nothing and says so. */
  method WriteScn(v: Config, s: Scn, nf: array<byte>, c: byte) returns (ok: bool, wild: bool, rc: nat)
    requires ValidFormat(v.fmt) && Contents(v, s) && s.offset + s.size <= nf.Length
    requires ShType(s.shdr.typ) != None && s.offset % Falign(ShType(s.shdr.typ).value, v.m.c) == 0
    modifies nf
    ensures ok <==> SectionBytes(v, s, c) != None
    ensures wild <==> Wild(v, s)
    ensures ok ==> rc == s.offset + s.size
    ensures ok ==> nf[..] == Splice(old(nf[..]), s.offset, SectionBytes(v, s, c).value)
  {
    rc, wild := s.offset, false;
    var shOff := s.offset;
    assert shOff % Falign(ShType(s.shdr.typ).value, v.m.c) == 0;
    if |s.data| == 0 {
      if v.m.write || s.shdr.offset > |v.raw| || s.shdr.size > |v.raw| - s.shdr.offset {
        return false, false, rc;
      }
      if s.rawoff + s.shdr.size > |v.raw| {
        return false, true, rc;
      }
      Memcpy(nf, rc, v.raw[s.rawoff..s.rawoff + s.shdr.size]);
      return true, false, rc + s.shdr.size;
    }
    ok, rc := WriteBody(v, s, nf, c);
  }

  /** The loop over the descriptors. */
  method WriteBody(v: Config, s: Scn, nf: array<byte>, c: byte) returns (ok: bool, rc: nat)
    requires ValidFormat(v.fmt) && Contents(v, s) && s.offset + s.size <= nf.Length && s.data != []
    modifies nf
    ensures ok <==> Body(v, Descs(s.data), |s.data|, c) != None
    ensures ok ==> rc == s.offset + s.size
    ensures ok ==> nf[..] == Splice(old(nf[..]), s.offset, Body(v, Descs(s.data), |s.data|, c).value)
  {
    hide DescOk, RoundUp, FileSize, Off, Xlate, TranslatesBack, ValidFormat, Splice, Body, Backed;
    rc := s.offset;
    ghost var was, ds, n := nf[..], Descs(s.data), |s.data|;
    ghost var b: seq<byte> := [];
    SpliceNothing(was, rc);
    BodyFirst(v, ds, c);
    var i := 0;
    while i < |s.data|
      invariant i <= n && Body(v, ds, i, c) == Some(b) && rc == s.offset + |b| && |b| == Size(v, ds, i)
      invariant rc <= nf.Length && nf[..] == Splice(was, s.offset, b)
    {
      DescriptorFits(v, ds, i);
      assert s.data[i].d == ds[i];
      ok, rc := WriteData(v, s.data[i], nf, s.offset, rc, c);
      if !ok {
        NoBody(v, ds, i, n, c);
        return;
      }
      SpliceTwice(was, s.offset, b, Fill(Off(v, ds, i) - |b|, c) + Xlate(v, ds[i].typ, ds[i].buf).value);
      b := BodyNext(v, ds, i, c, b);
      i := i + 1;
    }
    ok := true;
  }

  lemma BodyFirst(v: Config, ds: seq<Desc>, c: byte)
    requires ValidFormat(v.fmt) && AllOk(v, ds, |ds|) && AllBacked(ds)
    ensures Body(v, ds, 0, c) == Some([]) && Size(v, ds, 0) == 0
  {
  }

  lemma BodyNext(v: Config, ds: seq<Desc>, i: nat, c: byte, b: seq<byte>) returns (b': seq<byte>)
    requires ValidFormat(v.fmt) && i < |ds| && AllOk(v, ds, |ds|) && AllBacked(ds)
    requires Body(v, ds, i, c) == Some(b) && Xlate(v, ds[i].typ, ds[i].buf) != None && |b| <= Off(v, ds, i)
    ensures Body(v, ds, i + 1, c) == Some(b') && |b'| == Size(v, ds, i + 1)
    ensures b' == b + (Fill(Off(v, ds, i) - |b|, c) + Xlate(v, ds[i].typ, ds[i].buf).value)
  {
    b' := Body(v, ds, i + 1, c).value;
    var f, t := Fill(Off(v, ds, i) - |b|, c), Xlate(v, ds[i].typ, ds[i].buf).value;
    assert b + f + t == b + (f + t);
  }

  lemma DescriptorFits(v: Config, ds: seq<Desc>, i: nat)
    requires i < |ds| && AllOk(v, ds, |ds|)
    ensures Size(v, ds, i) <= Off(v, ds, i) && Off(v, ds, i) + FileSize(v, ds[i]) ==
        Size(v, ds, i + 1) <= Size(v, ds, |ds|)
  {
    RoundUpFacts(Size(v, ds, i), ds[i].align);
    SizeGrows(v, ds, i + 1, |ds|);
  }

  /** One descriptor that cannot be translated spoils the section. */
  lemma {:induction false} NoBody(v: Config, ds: seq<Desc>, i: nat, n: nat, c: byte)
    requires ValidFormat(v.fmt) && i < n <= |ds| && AllOk(v, ds, |ds|) && AllBacked(ds) &&
        Xlate(v, ds[i].typ, ds[i].buf) == None
    ensures Body(v, ds, n, c) == None
    decreases n
  {
    if i < n - 1 {
      NoBody(v, ds, i, n - 1, c);
    }
  }

  // ---------- _libelf_write_ehdr, _libelf_write_phdr, _libelf_write_shdr ----------

  function EhdrBytes(v: Config, h: Ehdr): (r: Option<seq<byte>>)
    requires |h.ident| == EI_NIDENT
    ensures r != None ==> |r.value| == EhdrSize(v.m.c)
  {
    if Encoding(v) == None then None else Some(PutEhdr(v.m.c, Encoding(v).value, h))
  }

  method WriteEhdr(v: Config, e: Elf, nf: array<byte>) returns (ok: bool, rc: nat)
    requires e.ehdr != None && |e.ehdr.value.ident| == EI_NIDENT && EhdrSize(v.m.c) <= nf.Length
    modifies nf
    ensures ok <==> EhdrBytes(v, e.ehdr.value) != None
    ensures ok ==> rc == EhdrSize(v.m.c) && nf[..] == Splice(old(nf[..]), 0, EhdrBytes(v, e.ehdr.value).value)
  {
    var dst := EhdrBytes(v, e.ehdr.value);
    if dst == None {
      return false, 0;
    }
    Memcpy(nf, 0, dst.value);
    return true, EhdrSize(v.m.c);
  }

  /** The program header table that the descriptor holds in memory, as one descriptor would describe it. */
  function PhdrDesc(phdr: seq<byte>): Desc {
    Desc(ELF_T_PHDR, |phdr|, 1, EV_CURRENT, Some(phdr))
  }

  /** A program header table that is at hand has the number of entries that the descriptor counts. */
  predicate PhdrSized(v: Config, phnum: nat, phdr: Option<seq<byte>>) {
    phdr != None ==> |phdr.value| == phnum * Msize(v.fmt, v.m.c, ELF_T_PHDR)
  }

  /** The bytes of the program header table. A table that could not be read is looked for once more, where the
      executable header h now says it is. */
  function PhdrBytes(v: Config, h: Ehdr, phnum: nat, phdr: Option<seq<byte>>): Option<seq<byte>> {
    if Msize(v.fmt, v.m.c, ELF_T_PHDR) == 0 then None else Xlate(v, ELF_T_PHDR, PhdrTable(v, h, phnum, phdr))
  }

  lemma PhdrTableSize(v: Config, h: Ehdr, phnum: nat, phdr: Option<seq<byte>>)
    requires ValidFormat(v.fmt) && PhdrSized(v, phnum, phdr)
    ensures PhdrSized(v, phnum, PhdrTable(v, h, phnum, phdr))
  {
    if phdr == None && PhdrTable(v, h, phnum, phdr) != None {
      var f, b := Fsize(v.fmt, v.m.c, ELF_T_PHDR), v.raw[h.phoff..h.phoff + PhdrSize(v, phnum)];
      MultipleMod(phnum, f);
      DivUnique(f * phnum, f, phnum, 0);
      assert PhdrsTranslate(v.fmt, v.m.c, OrderOf(v.byteorder, v.m.native), b);
    }
  }

  lemma PhdrBytesSize(v: Config, h: Ehdr, phnum: nat, phdr: Option<seq<byte>>)
    requires ValidFormat(v.fmt) && PhdrSized(v, phnum, phdr) && PhdrBytes(v, h, phnum, phdr) != None
    ensures |PhdrBytes(v, h, phnum, phdr).value| == PhdrSize(v, phnum)
  {
    var m := Msize(v.fmt, v.m.c, ELF_T_PHDR);
    PhdrTableSize(v, h, phnum, phdr);
    MultipleMod(phnum, m);
    DivUnique(phnum * m, m, phnum, 0);
    XlateSize(v, PhdrDesc(PhdrTable(v, h, phnum, phdr).value));
  }

  method WritePhdr(v: Config, e: Elf, nf: array<byte>, start: nat) returns (ok: bool, rc: nat)
    requires ValidFormat(v.fmt) && PhdrSized(v, e.nphdr, e.phdr) && e.ehdr != None
    requires start == e.ehdr.value.phoff > 0 && start % TableAlign(v.m.c) == 0 &&
        start + PhdrSize(v, e.nphdr) <= nf.Length
    modifies nf
    ensures ok <==> PhdrBytes(v, e.ehdr.value, e.nphdr, e.phdr) != None
    ensures ok ==> rc == start + PhdrSize(v, e.nphdr)
    ensures ok ==> start + |PhdrBytes(v, e.ehdr.value, e.nphdr, e.phdr).value| == rc
    ensures ok ==> nf[..] == Splice(old(nf[..]), start, PhdrBytes(v, e.ehdr.value, e.nphdr, e.phdr).value)
  {
    var phoff := e.ehdr.value.phoff;
    assert phoff > 0 && start == phoff && phoff % TableAlign(v.m.c) == 0;
    if Msize(v.fmt, v.m.c, ELF_T_PHDR) == 0 {
      return false, 0;
    }
    var dst := Xlate(v, ELF_T_PHDR, PhdrTable(v, e.ehdr.value, e.nphdr, e.phdr));
    if dst == None {
      return false, 0;
    }
    PhdrBytesSize(v, e.ehdr.value, e.nphdr, e.phdr);
    Memcpy(nf, start, dst.value);
    return true, phoff + PhdrSize(v, e.nphdr);
  }

  ghost function HeadersOf(secs: seq<Scn>): (r: seq<Shdr>)
    reads secs
    ensures |r| == |secs| && forall i :: 0 <= i < |secs| ==> r[i] == secs[i].shdr
  {
    seq(|secs|, i requires 0 <= i < |secs| reads secs => secs[i].shdr)
  }

  /** The first n entries of the section header table. */
  function Table(c: Class, o: Order, hs: seq<Shdr>, n: nat): (r: seq<byte>)
    requires n <= |hs|
    ensures |r| == ShdrSize(c) * n
  {
    if n == 0 then [] else Table(c, o, hs, n - 1) + PutShdr(c, o, hs[n - 1])
  }

  function TableBytes(v: Config, hs: seq<Shdr>): (r: Option<seq<byte>>)
    ensures r != None ==> |r.value| == ShdrSize(v.m.c) * |hs|
  {
    if Encoding(v) == None then None else Some(Table(v.m.c, Encoding(v).value, hs, |hs|))
  }

  /** Every section writes its header into the slot of its index, which fills the table from end to end. */
  method WriteShdr(v: Config, e: Elf, nf: array<byte>, start: nat, ghost secs: seq<Scn>) returns (ok: bool, rc: nat)
    requires e.Valid() && secs == e.Order() && Indexed(secs, e.nscn) && e.nscn > 0 && e.ehdr != None
    requires start == e.ehdr.value.shoff && start % TableAlign(v.m.c) == 0
    requires start + ShdrSize(v.m.c) * e.nscn <= nf.Length
    modifies nf
    ensures e.Valid()
    ensures ok <==> TableBytes(v, HeadersOf(secs)) != None
    ensures ok ==> rc == start + ShdrSize(v.m.c) * e.nscn
    ensures ok ==> nf[..] == Splice(old(nf[..]), start, TableBytes(v, HeadersOf(secs)).value)
  {
    hide ScnTree.Valid, Rep, Bst, Splice, PutShdr, Indexed, InOrder, Nodes, Follower, Others, ScnTree.Holds, Falign;
    var fsz := ShdrSize(v.m.c);
    var shoff := e.ehdr.value.shoff;
    assert start == shoff && shoff % TableAlign(v.m.c) == 0;
    ghost var hs, was, n := HeadersOf(secs), nf[..], 0;
    NodesIn(e.tree, secs);
    FirstOf(secs);
    SpliceNothing(was, start);
    IndexedLength(secs, e.nscn);
    var scn := e.tree.MinMax(-1);
    while scn != null
      invariant e.Valid() && n <= |secs| && scn == (if n < |secs| then secs[n] else null) && HeadersOf(secs) == hs
      invariant (n != 0 ==> Encoding(v) != None) && start + fsz * n <= |was|
      invariant Encoding(v) != None ==> nf[..] == Splice(was, start, Table(v.m.c, Encoding(v).value, hs, n))
      invariant Encoding(v) == None ==> nf[..] == was
      decreases |secs| - n
    {
      if Encoding(v) == None {
        return false, 0;
      }
      SlotAt(secs, e.nscn, n);
      SlotInside(fsz, n, e.nscn);
      Consecutive(e.tree, n);
      var o := Encoding(v).value;
      Memcpy(nf, start + scn.ndx * fsz, PutShdr(v.m.c, o, scn.shdr));
      SpliceTwice(was, start, Table(v.m.c, o, hs, n), PutShdr(v.m.c, o, hs[n]));
      scn := e.tree.Next(scn);
      n := n + 1;
    }
    return true, start + e.nscn * fsz;
  }

  lemma IndexedLength(secs: seq<Scn>, nscn: nat)
    requires Indexed(secs, nscn)
    ensures |secs| == nscn
  {
  }

  lemma SlotInside(fsz: nat, n: nat, nscn: nat)
    requires n < nscn
    ensures fsz * n + fsz == fsz * (n + 1) <= fsz * nscn
  {
  }

  lemma SlotAt(secs: seq<Scn>, nscn: nat, n: nat)
    requires Indexed(secs, nscn) && n < |secs|
    ensures secs[n].ndx == n && |secs| == nscn
  {
  }

  // ---------- _libelf_write_elf ----------

  /** The region r is that of the header, a table or a section of e, and what goes there can be written. The
      conditions on offsets and alignments are what the writers assert. */
  ghost predicate RegionReady(v: Config, e: Elf, secs: seq<Scn>, r: Region)
    reads e, e.tree, secs, Datas(secs)
  {
    && e.ehdr != None
    && match r.kind
       case EhdrExtent => r.start == 0 && r.size == EhdrSize(v.m.c) && |e.ehdr.value.ident| == EI_NIDENT
       case PhdrExtent =>
         && e.nphdr > 0 && PhdrSized(v, e.nphdr, e.phdr) && r.start == e.ehdr.value.phoff > 0
         && r.start % TableAlign(v.m.c) == 0 && r.size == PhdrSize(v, e.nphdr)
       case ShdrExtent =>
         && e.nscn > 0 && r.start == e.ehdr.value.shoff && r.start % TableAlign(v.m.c) == 0
         && r.size == ShdrSize(v.m.c) * e.nscn && secs == e.Order() && Indexed(secs, e.nscn)
       case SectionExtent =>
         && r.scn != null && r.scn in secs && (forall d <- r.scn.data :: d in Datas(secs))
         && Contents(v, r.scn) && r.scn.offset == r.start && r.scn.size == r.size
         && ShType(r.scn.shdr.typ) != None && r.start % Falign(ShType(r.scn.shdr.typ).value, v.m.c) == 0
  }

  /** What goes into the region. */
  ghost function PartOf(v: Config, e: Elf, secs: seq<Scn>, r: Region, c: byte): Option<seq<byte>>
    requires ValidFormat(v.fmt) && RegionReady(v, e, secs, r)
    reads e, e.tree, secs, Datas(secs)
  {
    match r.kind
    case EhdrExtent => EhdrBytes(v, e.ehdr.value)
    case PhdrExtent => PhdrBytes(v, e.ehdr.value, e.nphdr, e.phdr)
    case ShdrExtent => TableBytes(v, HeadersOf(secs))
    case SectionExtent => SectionBytes(v, r.scn, c)
  }

  lemma PartSize(v: Config, e: Elf, secs: seq<Scn>, r: Region, c: byte)
    requires ValidFormat(v.fmt) && RegionReady(v, e, secs, r) && PartOf(v, e, secs, r, c) != None
    ensures |PartOf(v, e, secs, r, c).value| == r.size
  {
    if r.kind == PhdrExtent {
      PhdrBytesSize(v, e.ehdr.value, e.nphdr, e.phdr);
    }
  }

  /** Writing the region would read past the end of the old file. */
  ghost predicate WildRegion(v: Config, secs: seq<Scn>, r: Region)
    reads secs
  {
    r.kind == SectionExtent && r.scn != null && r.scn in secs && Wild(v, r.scn)
  }

  /** Region k is the first one that cannot be written, because that would read past the end of the old file. */
  ghost predicate WildAt(v: Config, secs: seq<Scn>, r: seq<Region>, parts: seq<Option<seq<byte>>>, k: nat)
    reads secs
  {
    k < |r| == |parts| && WildRegion(v, secs, r[k]) && forall j :: 0 <= j < k ==> parts[j] != None
  }

  /** One turn of the loop: what is written ends where the extent ends. */
  method WriteExtent(v: Config, e: Elf, ex: Extent, nf: array<byte>, c: byte, ghost secs: seq<Scn>)
    returns (ok: bool, wild: bool, nrc: nat)
    requires ValidFormat(v.fmt) && e.Valid() && RegionReady(v, e, secs, RegionOf(ex)) && ex.start + ex.size <= nf.Length
    modifies nf
    ensures e.Valid()
    ensures ok <==> PartOf(v, e, secs, RegionOf(ex), c) != None
    ensures wild <==> WildRegion(v, secs, RegionOf(ex))
    ensures ok ==> nrc == ex.start + ex.size && ex.start + |PartOf(v, e, secs, RegionOf(ex), c).value| == nrc
    ensures ok ==> nf[..] == Splice(old(nf[..]), ex.start, PartOf(v, e, secs, RegionOf(ex), c).value)
  {
    hide ScnTree.Valid, Rep, Bst, Contents, SectionBytes, Xlate, Splice, TableBytes, EhdrBytes, PhdrBytes,
      ValidFormat, Indexed, Wild;
    if PartOf(v, e, secs, RegionOf(ex), c) != None {
      PartSize(v, e, secs, RegionOf(ex), c);
    }
    ghost var xs: set<Scn> := e.Members();
    wild := false;
    match ex.kind
    case EhdrExtent =>
      ok, nrc := WriteEhdr(v, e, nf);
    case PhdrExtent =>
      ok, nrc := WritePhdr(v, e, nf, ex.start);
    case SectionExtent =>
      ok, wild, nrc := WriteScn(v, ex.scn, nf, c);
    case ShdrExtent =>
      ok, nrc := WriteShdr(v, e, nf, ex.start, secs);
  }

  /** The parts, one per region. */
  ghost predicate Parts(v: Config, e: Elf, secs: seq<Scn>, r: seq<Region>, parts: seq<Option<seq<byte>>>, c: byte)
    requires ValidFormat(v.fmt)
    reads e, e.tree, secs, Datas(secs)
  {
    && |parts| == |r|
    && forall i :: 0 <= i < |r| ==> RegionReady(v, e, secs, r[i]) && PartOf(v, e, secs, r[i], c) == parts[i]
  }

  ghost predicate AllThere(r: seq<Region>, parts: seq<Option<seq<byte>>>, n: nat) {
    n <= |r| == |parts| && forall i :: 0 <= i < n ==> parts[i] != None && |parts[i].value| == r[i].size
  }

  /** The image that the first n parts make up: each at the start of its region, with the fill character before it. */
  ghost function Tile(r: seq<Region>, parts: seq<Option<seq<byte>>>, n: nat, c: byte): seq<byte>
    requires AllThere(r, parts, n)
  {
    if n == 0 then []
    else
      var t := Tile(r, parts, n - 1, c);
      (if |t| < r[n - 1].start then t + Fill(r[n - 1].start - |t|, c) else t) + parts[n - 1].value
  }

  /** The image ends where the last region ends. */
  lemma {:induction false} TileEnd(r: seq<Region>, parts: seq<Option<seq<byte>>>, n: nat, c: byte)
    requires AllThere(r, parts, n) && Chained(r)
    ensures |Tile(r, parts, n, c)| == if n == 0 then 0 else r[n - 1].start + r[n - 1].size
  {
    if n != 0 {
      TileEnd(r, parts, n - 1, c);
    }
  }

  lemma TilePrefix(r: seq<Region>, parts: seq<Option<seq<byte>>>, n: nat, c: byte)
    requires 0 < n && AllThere(r, parts, n) && Chained(r)
    ensures |Tile(r, parts, n - 1, c)| <= r[n - 1].start
    ensures Tile(r, parts, n, c)[..|Tile(r, parts, n - 1, c)|] == Tile(r, parts, n - 1, c)
    ensures Tile(r, parts, n, c)[r[n - 1].start..] == parts[n - 1].value
    ensures |Tile(r, parts, n, c)| == r[n - 1].start + |parts[n - 1].value|
  {
    TileEnd(r, parts, n - 1, c);
  }

  lemma TileGap(r: seq<Region>, parts: seq<Option<seq<byte>>>, n: nat, c: byte, x: nat)
    requires 0 < n && AllThere(r, parts, n) && Chained(r) && |Tile(r, parts, n - 1, c)| <= x < r[n - 1].start
    ensures x < |Tile(r, parts, n, c)| && Tile(r, parts, n, c)[x] == c
  {
  }

  /** Every region holds its part. */
  lemma {:induction false} TileHoldsPart(r: seq<Region>, parts: seq<Option<seq<byte>>>, n: nat, j: nat, c: byte)
    requires j < n && AllThere(r, parts, n) && Chained(r)
    ensures r[j].start + r[j].size <= |Tile(r, parts, n, c)|
    ensures Tile(r, parts, n, c)[r[j].start..r[j].start + r[j].size] == parts[j].value
    decreases n
  {
    hide Tile, Chained;
    var t, t' := Tile(r, parts, n, c), Tile(r, parts, n - 1, c);
    TilePrefix(r, parts, n, c);
    if j < n - 1 {
      TileHoldsPart(r, parts, n - 1, j, c);
      SliceOf(t, |t'|, r[j].start, r[j].start + r[j].size);
    } else {
      assert t[r[j].start..|t|] == t[r[j].start..];
    }
  }

  /** Every byte outside all regions is the fill character. */
  lemma {:induction false} TileFills(r: seq<Region>, parts: seq<Option<seq<byte>>>, n: nat, x: nat, c: byte)
    requires AllThere(r, parts, n) && Chained(r) && x < |Tile(r, parts, n, c)|
    requires forall j :: 0 <= j < n ==> !(r[j].start <= x < r[j].start + r[j].size)
    ensures Tile(r, parts, n, c)[x] == c
    decreases n
  {
    if n != 0 {
      hide Tile, Chained;
      TilePrefix(r, parts, n, c);
      if x < |Tile(r, parts, n - 1, c)| {
        TileFills(r, parts, n - 1, x, c);
        assert Tile(r, parts, n, c)[..|Tile(r, parts, n - 1, c)|][x] == Tile(r, parts, n, c)[x];
      } else {
        TileGap(r, parts, n, c, x);
      }
    }
  }

  /** The filling loop of _libelf_write_elf. The assertions that every extent is written to its end, that every extent
      advances the file position and that the last one ends at the size of the file all hold. */
  method WriteElf(v: Config, e: Elf, newsize: nat, extents: ExtentList, c: byte,
                  ghost secs: seq<Scn>, ghost q: seq<Extent>, ghost parts: seq<Option<seq<byte>>>)
    returns (ok: bool, wild: bool, newfile: array<byte>)
    requires ValidFormat(v.fmt) && e.Valid() && extents.Lists(q) && Ordered(q) && newsize == End(q)
    requires Parts(v, e, secs, RegionsOf(q), parts, c) && NonEmpty(RegionsOf(q))
    ensures e.Valid()
    ensures ok <==> forall i :: 0 <= i < |parts| ==> parts[i] != None
    ensures wild <==> exists k :: WildAt(v, secs, RegionsOf(q), parts, k)
    ensures ok ==> AllThere(RegionsOf(q), parts, |q|) && newfile[..] == Tile(RegionsOf(q), parts, |q|, c)
    ensures ok ==> newfile.Length == newsize && fresh(newfile)
  {
    hide RegionReady, PartOf, Contents, SectionBytes, ScnTree.Valid, Rep, Bst, Datas, Xlate, ValidFormat, Chained,
      NonEmpty, Ordered, End, EhdrBytes, TableBytes, InOrder, Nodes, Parts, WildRegion, WildAt;
    ghost var r, k := RegionsOf(q), 0;
    DatasExist(secs);
    PartsLength(v, e, secs, r, parts, c);
    ghost var xs: set<Scn> := e.Members();
    ChainedRegions(q);
    EndOfOrdered(q);
    newfile := new byte[newsize];
    wild := false;
    var rc := 0;
    var ex := extents.first;
    while ex != null
      invariant e.Valid() && extents.Lists(q) && k <= |q| && ex == (if k < |q| then q[k] else null)
      invariant Parts(v, e, secs, r, parts, c) && AllThere(r, parts, k)
      invariant rc == |Tile(r, parts, k, c)| <= newsize && newfile[..rc] == Tile(r, parts, k, c)
      decreases |q| - k
    {
      var nrc;
      ok, wild, nrc := WriteNext(v, e, ex, newfile, rc, c, k, secs, q, parts);
      if !ok {
        FirstFailure(v, e, secs, r, parts, c, k);
        return;
      }
      assert rc < nrc && ex.start + ex.size == nrc;
      rc := nrc;
      ex := ex.next;
      k := k + 1;
    }
    TileEnd(r, parts, k, c);
    assert rc == newsize;
    assert newfile[..rc] == newfile[..];
    NoFailure(v, e, secs, r, parts, c);
    ok, wild := true, false;
  }

  /** A region that would be read from outside of the old file has no part. */
  lemma WildPart(v: Config, e: Elf, secs: seq<Scn>, r: seq<Region>, parts: seq<Option<seq<byte>>>, c: byte, k: nat)
    requires ValidFormat(v.fmt) && Parts(v, e, secs, r, parts, c) && WildAt(v, secs, r, parts, k)
    ensures parts[k] == None
  {
    assert RegionReady(v, e, secs, r[k]) && PartOf(v, e, secs, r[k], c) == parts[k];
  }

  lemma FirstFailure(v: Config, e: Elf, secs: seq<Scn>, r: seq<Region>, parts: seq<Option<seq<byte>>>, c: byte, k: nat)
    requires ValidFormat(v.fmt) && Parts(v, e, secs, r, parts, c) && AllThere(r, parts, k)
    requires k < |r| && parts[k] == None
    ensures (exists j :: WildAt(v, secs, r, parts, j)) <==> WildRegion(v, secs, r[k])
  {
    hide Parts, WildRegion;
    if j :| WildAt(v, secs, r, parts, j) {
      WildPart(v, e, secs, r, parts, c, j);
    }
    if WildRegion(v, secs, r[k]) {
      assert WildAt(v, secs, r, parts, k);
    }
  }

  lemma NoFailure(v: Config, e: Elf, secs: seq<Scn>, r: seq<Region>, parts: seq<Option<seq<byte>>>, c: byte)
    requires ValidFormat(v.fmt) && Parts(v, e, secs, r, parts, c) && AllThere(r, parts, |r|)
    ensures forall j :: !WildAt(v, secs, r, parts, j)
  {
    hide Parts, WildRegion;
    forall j ensures !WildAt(v, secs, r, parts, j) {
      if WildAt(v, secs, r, parts, j) {
        WildPart(v, e, secs, r, parts, c, j);
      }
    }
  }

  /** The gap before an extent and the extent itself. */
  method WriteNext(v: Config, e: Elf, ex: Extent, nf: array<byte>, rc: nat, c: byte, ghost k: nat,
                   ghost secs: seq<Scn>, ghost q: seq<Extent>, ghost parts: seq<Option<seq<byte>>>)
    returns (ok: bool, wild: bool, nrc: nat)
    requires ValidFormat(v.fmt) && e.Valid() && Ordered(q) && nf.Length == End(q) && k < |q| && ex == q[k]
    requires Parts(v, e, secs, RegionsOf(q), parts, c) && AllThere(RegionsOf(q), parts, k) && NonEmpty(RegionsOf(q))
    requires rc == |Tile(RegionsOf(q), parts, k, c)| <= nf.Length && nf[..rc] == Tile(RegionsOf(q), parts, k, c)
    modifies nf
    ensures e.Valid() && Parts(v, e, secs, RegionsOf(q), parts, c)
    ensures ok <==> parts[k] != None
    ensures wild <==> WildRegion(v, secs, RegionsOf(q)[k])
    ensures ok ==> AllThere(RegionsOf(q), parts, k + 1) && nrc == |Tile(RegionsOf(q), parts, k + 1, c)| <= nf.Length
    ensures ok ==> nrc == ex.start + ex.size && rc < nrc && nf[..nrc] == Tile(RegionsOf(q), parts, k + 1, c)
  {
    hide RegionReady, PartOf, Contents, SectionBytes, ScnTree.Valid, Rep, Bst, Datas, Xlate, ValidFormat, Chained,
      NonEmpty, Ordered, End, EhdrBytes, TableBytes, InOrder, Nodes, Parts, Splice, WildRegion;
    DatasExist(secs);
    ghost var xs: set<Scn> := e.Members();
    ExtentInside(q, parts, k, c);
    FillGap(nf, rc, ex.start, c);
    ghost var mid := nf[..];
    PartAt(v, e, secs, RegionsOf(q), parts, c, k);
    ok, wild, nrc := WriteExtent(v, e, ex, nf, c, secs);
    if ok {
      SplicePrefix(mid, ex.start, parts[k].value);
    }
  }

  /** Fill inter-extent gaps. */
  method FillGap(nf: array<byte>, rc: nat, start: nat, c: byte)
    requires rc <= start <= nf.Length
    modifies nf
    ensures nf[..start] == if rc < start then old(nf[..rc]) + Fill(start - rc, c) else old(nf[..rc])
  {
    ghost var was := nf[..];
    assert was[..rc] == nf[..rc];
    if start > rc {
      Memset(nf, rc, start - rc, c);
      SplicePrefix(was, rc, Fill(start - rc, c));
      assert nf[..][..start] == nf[..start];
    }
  }

  lemma PartAt(v: Config, e: Elf, secs: seq<Scn>, r: seq<Region>, parts: seq<Option<seq<byte>>>, c: byte, k: nat)
    requires ValidFormat(v.fmt) && Parts(v, e, secs, r, parts, c) && k < |r|
    ensures |parts| == |r| && RegionReady(v, e, secs, r[k]) && PartOf(v, e, secs, r[k], c) == parts[k]
    ensures parts[k] != None ==> |parts[k].value| == r[k].size
  {
    if parts[k] != None {
      PartSize(v, e, secs, r[k], c);
    }
  }

  lemma PartsLength(v: Config, e: Elf, secs: seq<Scn>, r: seq<Region>, parts: seq<Option<seq<byte>>>, c: byte)
    requires ValidFormat(v.fmt) && Parts(v, e, secs, r, parts, c)
    ensures |parts| == |r|
  {
  }

  lemma ExtentInside(q: seq<Extent>, parts: seq<Option<seq<byte>>>, k: nat, c: byte)
    requires Ordered(q) && k < |q| && AllThere(RegionsOf(q), parts, k) && NonEmpty(RegionsOf(q))
    ensures |Tile(RegionsOf(q), parts, k, c)| <= q[k].start && q[k].start + q[k].size <= End(q) && q[k].size > 0
  {
    ChainedRegions(q);
    TileEnd(RegionsOf(q), parts, k, c);
    EndOfOrdered(q);
    assert RegionsOf(q)[k].size > 0;
  }

  // ---------- From the layout to the image ----------

  /** What the writer asserts about a section that is laid out: its descriptors are filled in, and its alignment suits
      its type. */
  ghost predicate Printable(v: Config, it: Item) {
    it.Put? && it.p.size > 0 ==>
      && AllBacked(it.p.ds) && ShType(it.h.typ) != None && it.p.align % Falign(ShType(it.h.typ).value, v.m.c) == 0
  }

  /** The region of a section is that of one of the first n. */
  lemma {:induction false} RegionOfSection(v: Config, secs: seq<Scn>, items: seq<Item>, rc: nat, n: nat, x: Region)
    returns (i: nat)
    requires n <= |secs| == |items| && AllSound(v, items) && x in Regions(v, secs, items, rc, n)
    ensures i < n && items[i].Put? && items[i].p.size > 0
    ensures x == Region(Start(v, items[i].h, items[i].p, EndAfter(v, items, rc, i)), items[i].p.size, SectionExtent,
        secs[i])
    decreases n
  {
    if x in Regions(v, secs, items, rc, n - 1) {
      i := RegionOfSection(v, secs, items, rc, n - 1, x);
    } else {
      i := n - 1;
    }
  }

  /** A section that was laid out can be written. */
  lemma SectionReady(v: Config, e: Elf, secs: seq<Scn>, items: seq<Item>, rc: nat, i: nat)
    requires !v.layout && i < |secs| == |items| && AllSound(v, items) && items[i].Put? && items[i].p.size > 0
    requires Dealt(v, secs[i], items[i], EndAfter(v, items, rc, i)) && Printable(v, items[i])
    requires items[i].p.size < Limit(v.m.c) && e.ehdr != None
    ensures var start := Start(v, items[i].h, items[i].p, EndAfter(v, items, rc, i));
            RegionReady(v, e, secs, Region(start, items[i].p.size, SectionExtent, secs[i]))
  {
    var s, it := secs[i], items[i];
    assert DatasOf(secs, i);
    ModUnique(it.p.size, Limit(v.m.c), 0, it.p.size);
    assert Contents(v, s);
    RoundUpFacts(EndAfter(v, items, rc, i), it.p.align);
    Transitive(Start(v, it.h, it.p, EndAfter(v, items, rc, i)), it.p.align, Falign(ShType(it.h.typ).value, v.m.c));
  }

  /** What the writer needs besides a finished library layout. */
  ghost predicate Complete(v: Config, e: Elf, items: seq<Item>, newsize: nat)
    reads e
  {
    && ValidFormat(v.fmt) && newsize < Limit(v.m.c) && PhdrSized(v, e.nphdr, e.phdr)
    && e.ehdr != None && |e.ehdr.value.ident| == EI_NIDENT
    && forall i :: 0 <= i < |items| ==> Printable(v, items[i])
  }

  /** The object was laid out by the library, and can be written. */
  ghost predicate Finished(v: Config, e: Elf, h: Ehdr, secs: seq<Scn>, items: seq<Item>, q: seq<Extent>, newsize: nat)
    reads e, e.tree, secs, Datas(secs)
  {
    && !v.layout && Fsize(v.fmt, v.m.c, ELF_T_PHDR) > 0
    && Resynced(e, v, h, secs, items, q, newsize) && Complete(v, e, items, newsize)
    && e.ehdr == Some(NewEhdr(v, h, e.nphdr, e.nscn, items))
  }

  lemma {:induction false} EndBounds(q: seq<Extent>, i: nat)
    requires i < |q|
    ensures q[i].start + q[i].size <= End(q)
    decreases |q|
  {
    if i < |q| - 1 {
      EndBounds(q[..|q| - 1], i);
    }
  }

  /** After a library layout everything is ready for the writer: all that it asserts will hold. */
  lemma ReadyAfterLayout(v: Config, e: Elf, h: Ehdr, secs: seq<Scn>, items: seq<Item>, q: seq<Extent>, newsize: nat,
      k: nat)
    requires Finished(v, e, h, secs, items, q, newsize) && k < |q|
    ensures RegionReady(v, e, secs, RegionsOf(q)[k]) && RegionsOf(q)[k].size > 0
  {
    var x, rc := RegionsOf(q)[k], LeadingEnd(v, h, e.nphdr);
    LibraryExtents(v, h, e.nphdr, e.nscn, secs, items, q);
    LibraryChain(v, h, e.nphdr, e.nscn, secs, items);
    EndBounds(q, k);
    assert x in AllRegions(v, h, e.nphdr, e.nscn, secs, items);
    if x in Regions(v, secs, items, rc, |secs|) {
      var i := RegionOfSection(v, secs, items, rc, |secs|, x);
      assert Dealt(v, secs[i], items[i], EndAfter(v, items, rc, i));
      SectionReady(v, e, secs, items, rc, i);
    } else if x in Leading(v, h, e.nphdr) {
      HeadersReady(v, e, h, secs, items, x);
    } else {
      RoundUpFacts(EndAfter(v, items, rc, |secs|), TableAlign(v.m.c));
      ModUnique(x.start, Limit(v.m.c), 0, x.start);
    }
  }

  lemma HeadersReady(v: Config, e: Elf, h: Ehdr, secs: seq<Scn>, items: seq<Item>, x: Region)
    requires !v.layout && AllSound(v, items) && e.ehdr == Some(NewEhdr(v, h, e.nphdr, e.nscn, items))
    requires |e.ehdr.value.ident| == EI_NIDENT && PhdrSized(v, e.nphdr, e.phdr)
    requires x in Leading(v, h, e.nphdr) && x.start + x.size < Limit(v.m.c)
    ensures RegionReady(v, e, secs, x)
  {
    RoundUpFacts(EhdrSize(v.m.c), TableAlign(v.m.c));
    if x != EhdrRegion(v.m.c) {
      ModUnique(x.start, Limit(v.m.c), 0, x.start);
    }
  }

  ghost function PartsOf(v: Config, e: Elf, secs: seq<Scn>, r: seq<Region>, c: byte): (parts: seq<Option<seq<byte>>>)
    requires ValidFormat(v.fmt) && forall k :: 0 <= k < |r| ==> RegionReady(v, e, secs, r[k])
    reads e, e.tree, secs, Datas(secs)
    ensures Parts(v, e, secs, r, parts, c)
  {
    seq(|r|, k requires 0 <= k < |r| && RegionReady(v, e, secs, r[k]) reads e, e.tree, secs, Datas(secs) =>
      PartOf(v, e, secs, r[k], c))
  }

  /** img is exactly tiled by the regions: each region holds what belongs there, all other bytes are the fill
      character. */
  ghost predicate Tiled(v: Config, e: Elf, secs: seq<Scn>, r: seq<Region>, img: seq<byte>, c: byte)
    requires ValidFormat(v.fmt)
    reads e, e.tree, secs, Datas(secs)
  {
    && (forall k :: 0 <= k < |r| ==>
          && r[k].start + r[k].size <= |img| && RegionReady(v, e, secs, r[k])
          && PartOf(v, e, secs, r[k], c) == Some(img[r[k].start..r[k].start + r[k].size]))
    && (forall x :: 0 <= x < |img| && Uncovered(r, x) ==> img[x] == c)
  }

  ghost predicate Uncovered(r: seq<Region>, x: nat) {
    forall k :: 0 <= k < |r| ==> !(r[k].start <= x < r[k].start + r[k].size)
  }

  /** The second half of elf_update, after a successful library layout: the image is exactly tiled, or something could
      not be translated or is not in the old file. */
  method WriteImage(v: Config, e: Elf, newsize: nat, extents: ExtentList, c: byte, ghost h: Ehdr,
                    ghost secs: seq<Scn>, ghost items: seq<Item>, ghost q: seq<Extent>)
    returns (ok: bool, wild: bool, newfile: array<byte>, ghost parts: seq<Option<seq<byte>>>)
    requires e.Valid() && extents.Lists(q) && Finished(v, e, h, secs, items, q, newsize)
    ensures e.Valid() && Finished(v, e, h, secs, items, q, newsize)
    ensures ValidFormat(v.fmt) && Parts(v, e, secs, RegionsOf(q), parts, c) && |parts| == |q|
    ensures ok <==> forall k :: 0 <= k < |q| ==> parts[k] != None
    ensures wild <==> exists k :: WildAt(v, secs, RegionsOf(q), parts, k)
    ensures ok ==> newfile.Length == newsize && Tiled(v, e, secs, RegionsOf(q), newfile[..], c)
  {
    hide Finished, RegionReady, PartOf, ScnTree.Valid, Rep, Bst, Datas, Tiled, Ordered, End, InOrder, Nodes, Parts,
      WildAt, PartsOf, ValidFormat;
    ghost var r := RegionsOf(q);
    forall k | 0 <= k < |q| ensures RegionReady(v, e, secs, r[k]) && r[k].size > 0 {
      ReadyAfterLayout(v, e, h, secs, items, q, newsize, k);
    }
    FinishedFacts(v, e, h, secs, items, q, newsize);
    parts := PartsOf(v, e, secs, r, c);
    DatasExist(secs);
    assert NonEmpty(r);
    ok, wild, newfile := WriteElf(v, e, newsize, extents, c, secs, q, parts);
    PartsLength(v, e, secs, r, parts, c);
    if ok {
      TiledByParts(v, e, secs, q, parts, c);
    }
  }

  lemma FinishedFacts(v: Config, e: Elf, h: Ehdr, secs: seq<Scn>, items: seq<Item>, q: seq<Extent>, newsize: nat)
    requires Finished(v, e, h, secs, items, q, newsize)
    ensures ValidFormat(v.fmt) && Ordered(q) && newsize == End(q)
  {
  }

  lemma TiledByParts(v: Config, e: Elf, secs: seq<Scn>, q: seq<Extent>, parts: seq<Option<seq<byte>>>, c: byte)
    requires ValidFormat(v.fmt) && Parts(v, e, secs, RegionsOf(q), parts, c) && Ordered(q)
    requires AllThere(RegionsOf(q), parts, |q|)
    ensures Tiled(v, e, secs, RegionsOf(q), Tile(RegionsOf(q), parts, |q|, c), c)
  {
    hide RegionReady, PartOf, Datas, Ordered;
    var r, img := RegionsOf(q), Tile(RegionsOf(q), parts, |q|, c);
    ChainedRegions(q);
    forall k | 0 <= k < |r|
      ensures r[k].start + r[k].size <= |img| && RegionReady(v, e, secs, r[k])
      ensures PartOf(v, e, secs, r[k], c) == Some(img[r[k].start..r[k].start + r[k].size])
    {
      TileHoldsPart(r, parts, |q|, k, c);
    }
    forall x | 0 <= x < |img| && Uncovered(r, x) ensures img[x] == c {
      TileFills(r, parts, |q|, x, c);
    }
  }
}
