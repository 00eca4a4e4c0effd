/** How elf_update.c lays out the data of one section and the sections of one object: sizes, alignments and offsets as
    functions of the headers and the data descriptors. */
module Placement {
  import opened Basics
  import opened Codec
  import opened Section
  import opened Extended
  import opened ElfObject

  // ---------- ELF types ----------

  /** An entry of the tables of file and memory sizes. */
  datatype Sizes = Sizes(sz32: nat, sz64: nat)

  /** The tables of file and memory sizes, indexed by ELF type, and the translators. A translator may refuse its
      input. */
  datatype Format = Format(
    fsizes: seq<Sizes>,
    msizes: seq<Sizes>,
    tofile: (Class, Order, nat, seq<byte>) -> Option<seq<byte>>,
    tomemory: (Class, Order, nat, seq<byte>) -> Option<seq<byte>>)

  function SizeIn(table: seq<Sizes>, c: Class, t: nat): nat {
    if t >= |table| then 0 else match c case Class32 => table[t].sz32 case Class64 => table[t].sz64
  }

  /** _libelf_fsize of one object: 0 for a type that is not supported. */
  function Fsize(f: Format, c: Class, t: nat): nat {
    SizeIn(f.fsizes, c, t)
  }

  /** _libelf_msize. */
  function Msize(f: Format, c: Class, t: nat): nat {
    SizeIn(f.msizes, c, t)
  }

  function ToFile(f: Format, c: Class, o: Order, t: nat, m: seq<byte>): Option<seq<byte>> {
    f.tofile(c, o, t, m)
  }

  function ToMemory(f: Format, c: Class, o: Order, t: nat, b: seq<byte>): Option<seq<byte>> {
    f.tomemory(c, o, t, b)
  }

  /** Translation keeps the number of objects, and translating back gives the original. ELF_T_BYTE is plain bytes, and
      program headers can always be translated to memory. */
  ghost predicate ValidFormat(f: Format) {
    && (forall c, t :: Msize(f, c, t) > 0 ==> Fsize(f, c, t) > 0) && (forall c :: Fsize(f, c, ELF_T_PHDR) > 0)
    && (forall c :: Fsize(f, c, ELF_T_BYTE) == 1 && Msize(f, c, ELF_T_BYTE) == 1)
    && (forall c, o, m :: ToFile(f, c, o, ELF_T_BYTE, m) == Some(m))
    && (forall c, o, t, m :: TranslatesBack(f, c, o, t, m))
    && (forall c, o, b :: PhdrsTranslate(f, c, o, b))
  }

  ghost predicate TranslatesBack(f: Format, c: Class, o: Order, t: nat, m: seq<byte>) {
    Msize(f, c, t) > 0 && |m| % Msize(f, c, t) == 0 && ToFile(f, c, o, t, m) != None ==>
      && |ToFile(f, c, o, t, m).value| == Fsize(f, c, t) * (|m| / Msize(f, c, t))
      && ToMemory(f, c, o, t, ToFile(f, c, o, t, m).value) == Some(m)
  }

  ghost predicate PhdrsTranslate(f: Format, c: Class, o: Order, b: seq<byte>) {
    Msize(f, c, ELF_T_PHDR) > 0 && Fsize(f, c, ELF_T_PHDR) > 0 && |b| % Fsize(f, c, ELF_T_PHDR) == 0 ==>
      && ToMemory(f, c, o, ELF_T_PHDR, b) != None
      && |ToMemory(f, c, o, ELF_T_PHDR, b).value| == Msize(f, c, ELF_T_PHDR) * (|b| / Fsize(f, c, ELF_T_PHDR))
  }

  /** _libelf_xlate_shtype, over the section types of elf_common.h. */
  function ShType(sht: nat): Option<nat> {
    match sht
    case 1 => Some(ELF_T_BYTE)
    case 2 => Some(ELF_T_SYM)
    case 3 => Some(ELF_T_BYTE)
    case 4 => Some(ELF_T_RELA)
    case 5 => Some(ELF_T_WORD)
    case 6 => Some(ELF_T_DYN)
    case 7 => Some(ELF_T_NOTE)
    case 8 => Some(ELF_T_BYTE)
    case 9 => Some(ELF_T_REL)
    case 11 => Some(ELF_T_SYM)
    case 14 => Some(ELF_T_ADDR)
    case 15 => Some(ELF_T_ADDR)
    case 16 => Some(ELF_T_ADDR)
    case 17 => Some(ELF_T_WORD)
    case 18 => Some(ELF_T_WORD)
    case 0x6fff_fff4 => Some(ELF_T_BYTE)
    case 0x6fff_fff6 => Some(ELF_T_GNUHASH)
    case 0x6fff_fff7 => Some(ELF_T_WORD)
    case 0x6fff_fffa => Some(ELF_T_MOVE)
    case 0x6fff_fffc => Some(ELF_T_SYMINFO)
    case 0x6fff_fffd => Some(ELF_T_VDEF)
    case 0x6fff_fffe => Some(ELF_T_VNEED)
    case 0x6fff_ffff => Some(ELF_T_HALF)
    case _ => if sht >= SHT_LOOS then Some(ELF_T_BYTE) else None
  }

  /** _libelf_falign, for the types that sections and header tables can have. */
  function Falign(t: nat, c: Class): (r: nat)
    ensures r in {1, 2, 4, 8}
  {
    if t in {ELF_T_BYTE, ELF_T_NOTE} then 1
    else if t in {ELF_T_HALF, ELF_T_SYMINFO} then 2
    else if t in {ELF_T_VDEF, ELF_T_VNEED, ELF_T_WORD} then 4
    else if t == ELF_T_MOVE then 8
    else match c case Class32 => 4 case Class64 => 8
  }

  // ---------- Alignment ----------

  /** roundup: the least multiple of a that is not below x. */
  function RoundUp(x: nat, a: nat): nat
    requires a > 0
  {
    if x % a == 0 then x else x + (a - x % a)
  }

  lemma RoundUpFacts(x: nat, a: nat)
    requires a > 0
    ensures RoundUp(x, a) % a == 0 && x <= RoundUp(x, a) < x + a
    ensures RoundUp(x, a) == (x + (a - 1)) / a * a
  {
    var k, r := x / a, x % a;
    assert x == a * k + r;
    if r != 0 {
      assert RoundUp(x, a) == (k + 1) * a;
      MultipleMod(k + 1, a);
    }
    var j := if r == 0 then k else k + 1;
    DivUnique(x + (a - 1), a, j, x + (a - 1) - j * a);
  }

  lemma DivUnique(v: nat, a: nat, k: nat, r: int)
    requires a > 0 && v == k * a + r && 0 <= r < a
    ensures v / a == k
  {
    ModUnique(v, a, k, r);
    assert v == a * (v / a) + r;
    assert a * (v / a - k) == 0;
  }

  lemma MultipleMod(k: nat, a: nat)
    requires a > 0
    ensures k * a % a == 0
  {
    ModUnique(k * a, a, k, 0);
  }

  /** Powers of two, which is what x & (x - 1) == 0 means for x > 0. */
  predicate IsPow2(x: nat) {
    x == 1 || (x > 1 && x % 2 == 0 && IsPow2(x / 2))
  }

  // ---------- The data of one section ----------

  datatype Config = Config(m: Mode, layout: bool, byteorder: nat, fmt: Format, raw: seq<byte>)

  /** The checks on a descriptor that do not depend on who does the layout. */
  predicate DescOk(v: Config, d: Desc) {
    && d.typ < ELF_T_NUM && d.version == EV_CURRENT && IsPow2(d.align)
    && Msize(v.fmt, v.m.c, d.typ) > 0 && d.size % Msize(v.fmt, v.m.c, d.typ) == 0
  }

  /** The size of a descriptor's contents in the file. */
  function FileSize(v: Config, d: Desc): nat
    requires DescOk(v, d)
  {
    Fsize(v.fmt, v.m.c, d.typ) * (d.size / Msize(v.fmt, v.m.c, d.typ))
  }

  /** The first n descriptors pass the checks. */
  predicate AllOk(v: Config, ds: seq<Desc>, n: nat)
    requires n <= |ds|
  {
    forall i :: 0 <= i < n ==> DescOk(v, ds[i])
  }

  /** The size of the first n descriptors, each at the first offset after the last that its alignment allows. */
  function Size(v: Config, ds: seq<Desc>, n: nat): nat
    requires n <= |ds| && AllOk(v, ds, n)
    decreases n, 0
  {
    if n == 0 then 0 else Off(v, ds, n - 1) + FileSize(v, ds[n - 1])
  }

  /** The offset of descriptor k within its section. */
  function Off(v: Config, ds: seq<Desc>, k: nat): nat
    requires k < |ds| && AllOk(v, ds, k + 1)
    decreases k, 1
  {
    RoundUp(Size(v, ds, k), ds[k].align)
  }

  function MaxAlign(ds: seq<Desc>, n: nat): nat
    requires n <= |ds|
  {
    if n == 0 then 0 else Max(MaxAlign(ds, n - 1), ds[n - 1].align)
  }

  lemma {:induction false} SizeGrows(v: Config, ds: seq<Desc>, k: nat, n: nat)
    requires k <= n <= |ds| && AllOk(v, ds, n)
    ensures Size(v, ds, k) <= Size(v, ds, n)
    decreases n
  {
    if k < n {
      SizeGrows(v, ds, k, n - 1);
      RoundUpFacts(Size(v, ds, n - 1), ds[n - 1].align);
    }
  }

  lemma OffsetStart(v: Config, ds: seq<Desc>)
    requires |ds| > 0 && AllOk(v, ds, |ds|)
    ensures Off(v, ds, 0) == 0
  {
    assert Size(v, ds, 0) == 0;
    MultipleMod(0, ds[0].align);
  }

  /** In library layout the descriptors of a section lie one after the other, each at the first offset that its
      alignment allows, none past the section's end. */
  lemma DescriptorsApart(v: Config, ds: seq<Desc>, j: nat, k: nat)
    requires j < k < |ds| && AllOk(v, ds, |ds|)
    ensures Off(v, ds, j) + FileSize(v, ds[j]) <= Off(v, ds, k)
    ensures Off(v, ds, k) + FileSize(v, ds[k]) <= Size(v, ds, |ds|)
    ensures Off(v, ds, j) % ds[j].align == 0 && Off(v, ds, k) % ds[k].align == 0
    ensures k == j + 1 ==> Off(v, ds, k) < Off(v, ds, j) + FileSize(v, ds[j]) + ds[k].align
    ensures Off(v, ds, 0) == 0
  {
    OffsetStart(v, ds);
    SizeGrows(v, ds, j + 1, k);
    SizeGrows(v, ds, k + 1, |ds|);
    RoundUpFacts(Size(v, ds, j), ds[j].align);
    RoundUpFacts(Size(v, ds, k), ds[k].align);
  }

  // ---------- Absolute alignment ----------

  lemma {:induction false} Pow2Divides(x: nat, y: nat)
    requires IsPow2(x) && IsPow2(y) && x <= y
    ensures y % x == 0
    decreases y
  {
    if x > 1 {
      Pow2Divides(x / 2, y / 2);
      var k := y / 2 / (x / 2);
      assert y / 2 == k * (x / 2);
      assert k * x == k * (x / 2) + k * (x / 2) by { assert x == x / 2 + x / 2; }
      MultipleMod(k, x);
    }
  }

  lemma SumMod(x: nat, y: nat, a: nat)
    requires a > 0 && x % a == 0
    ensures (x + y) % a == y % a
  {
    var k, j := x / a, y / a;
    assert x == a * k && y == a * j + y % a;
    assert x + y == a * (k + j) + y % a;
    ModUnique(x + y, a, k + j, y % a);
  }

  lemma Transitive(x: nat, b: nat, a: nat)
    requires a > 0 && b > 0 && x % b == 0 && b % a == 0
    ensures x % a == 0
  {
    var k, j := x / b, b / a;
    assert x == b * k && b == a * j;
    assert x == (j * k) * a;
    MultipleMod(j * k, a);
  }

  lemma {:induction false} MaxAlignIs(v: Config, ds: seq<Desc>, n: nat)
    requires 0 < n <= |ds| && AllOk(v, ds, n)
    ensures IsPow2(MaxAlign(ds, n)) && exists k :: 0 <= k < n && ds[k].align == MaxAlign(ds, n)
    ensures forall k :: 0 <= k < n ==> ds[k].align <= MaxAlign(ds, n)
  {
    if n == 1 {
      assert MaxAlign(ds, 0) == 0;
      assert ds[0].align == MaxAlign(ds, 1);
    } else {
      MaxAlignIs(v, ds, n - 1);
      var k :| 0 <= k < n - 1 && ds[k].align == MaxAlign(ds, n - 1);
      assert ds[if MaxAlign(ds, n - 1) < ds[n - 1].align then n - 1 else k].align == MaxAlign(ds, n);
    }
  }

  /** Descriptor k is aligned in the file when the section, of alignment a, is put after offset rc. */
  predicate Aligned(v: Config, ds: seq<Desc>, a: nat, rc: nat, k: nat)
    requires AllOk(v, ds, |ds|) && a > 0 && k < |ds|
  {
    (RoundUp(rc, a) + Off(v, ds, k)) % ds[k].align == 0
  }

  /** A section whose header asks for alignment a gets the greater of a and its descriptors' alignments. That aligns
      all its descriptors in the file, wherever the section goes behind the first lo bytes, exactly when a is no greater
      than the greatest alignment of a descriptor or is a multiple of it. */
  lemma AbsoluteAlignment(v: Config, ds: seq<Desc>, a: nat, lo: nat)
    requires AllOk(v, ds, |ds|) && |ds| != 0 && a > 0
    ensures (forall rc: nat, k: nat :: lo <= rc && k < |ds| ==> Aligned(v, ds, Max(a, MaxAlign(ds, |ds|)), rc, k)) <==>
            a <= MaxAlign(ds, |ds|) || (MaxAlign(ds, |ds|) > 0 && a % MaxAlign(ds, |ds|) == 0)
  {
    var d, b := MaxAlign(ds, |ds|), Max(a, MaxAlign(ds, |ds|));
    MaxAlignIs(v, ds, |ds|);
    if a <= d || a % d == 0 {
      assert b % d == 0 by {
        if a <= d { MultipleMod(1, d); }
      }
      forall rc: nat, k: nat | k < |ds| ensures Aligned(v, ds, b, rc, k) {
        DescriptorAligned(v, ds, b, rc, k);
      }
    } else {
      var k :| 0 <= k < |ds| && ds[k].align == d;
      var rc := FarMultiple(a, d, lo);
      Misaligned(v, ds, a, rc, k);
    }
  }

  lemma Misaligned(v: Config, ds: seq<Desc>, a: nat, rc: nat, k: nat)
    requires AllOk(v, ds, |ds|) && k < |ds| && a > 0 && RoundUp(rc, a) % ds[k].align != 0
    ensures !Aligned(v, ds, a, rc, k)
  {
    RoundUpFacts(Size(v, ds, k), ds[k].align);
    SumMod(Off(v, ds, k), RoundUp(rc, a), ds[k].align);
  }

  /** A multiple of a that lies behind lo, and is no multiple of d unless a is one. */
  lemma FarMultiple(a: nat, d: nat, lo: nat) returns (rc: nat)
    requires a > 0 && d > 0
    ensures lo <= rc && RoundUp(rc, a) == rc && rc % d == a % d
  {
    rc := (1 + d * lo) * a;
    MultipleMod(1 + d * lo, a);
    assert rc == (lo * a) * d + a;
    MultipleMod(lo * a, d);
    SumMod((lo * a) * d, a, d);
    assert lo <= lo * a * d by { AtLeast(lo, a); AtLeast(lo * a, d); }
  }

  lemma AtLeast(x: nat, a: nat)
    requires a > 0
    ensures x <= x * a
  {
    assert x * a == x + x * (a - 1);
  }

  lemma DescriptorAligned(v: Config, ds: seq<Desc>, b: nat, rc: nat, k: nat)
    requires AllOk(v, ds, |ds|) && k < |ds| && b > 0 && b % MaxAlign(ds, |ds|) == 0
    ensures (RoundUp(rc, b) + Off(v, ds, k)) % ds[k].align == 0
  {
    MaxAlignIs(v, ds, |ds|);
    var al := ds[k].align;
    Pow2Divides(al, MaxAlign(ds, |ds|));
    Transitive(b, MaxAlign(ds, |ds|), al);
    RoundUpFacts(rc, b);
    RoundUpFacts(Size(v, ds, k), al);
    Transitive(RoundUp(rc, b), b, al);
    SumMod(RoundUp(rc, b), Off(v, ds, k), al);
  }

  /** A section aligned to a starts at a multiple of f, wherever it goes behind the first lo bytes, exactly when a is
      one. */
  lemma FileAlignment(a: nat, f: nat, lo: nat)
    requires a > 0 && f > 0
    ensures (forall rc: nat :: lo <= rc ==> RoundUp(rc, a) % f == 0) <==> a % f == 0
  {
    if a % f == 0 {
      forall rc: nat ensures RoundUp(rc, a) % f == 0 {
        RoundUpFacts(rc, a);
        Transitive(RoundUp(rc, a), a, f);
      }
    } else {
      var rc := FarMultiple(a, f, lo);
    }
  }

  // ---------- What is computed for a section ----------

  /** elf_getdata on a section whose data is still in the file only. */
  function FileData(v: Config, h: Shdr): Option<Desc> {
    var t := ShType(h.typ);
    var c, o := v.m.c, OrderOf(v.byteorder, v.m.native);
    if h.typ == SHT_NULL || t == None then None
    else if h.typ != SHT_NOBITS && (h.offset > |v.raw| || h.size > |v.raw| - h.offset) then None
    else if Fsize(v.fmt, c, t.value) == 0 || h.size % Fsize(v.fmt, c, t.value) != 0 then None
    else if Msize(v.fmt, c, t.value) == 0 then None
    else
      var size := Msize(v.fmt, c, t.value) * (h.size / Fsize(v.fmt, c, t.value));
      if size >= UINT64_LIMIT then None
      else if h.typ == SHT_NOBITS || h.size == 0 then Some(Desc(t.value, size, h.addralign, EV_CURRENT, None))
      else
        var m := ToMemory(v.fmt, c, o, t.value, v.raw[h.offset..h.offset + h.size]);
        if m == None then None else Some(Desc(t.value, size, h.addralign, EV_CURRENT, m))
  }

  /** What _libelf_compute_section_extents finds out about a section: the descriptors it has afterwards, and the size,
      the alignment and the entry size that its header is given when the library does the layout. */
  datatype Plan = Plan(ds: seq<Desc>, size: nat, align: nat, entsize: nat)

  /** The end of the last byte of any descriptor, at the offsets the application chose, by 64-bit arithmetic. */
  function ChosenSize(ds: seq<Desc>, offs: seq<nat>, n: nat): nat
    requires n <= |ds| == |offs|
  {
    if n == 0 then 0 else Max(ChosenSize(ds, offs, n - 1), Add64(offs[n - 1], ds[n - 1].size))
  }

  /** The check of that end against the size of the section lets descriptors through that lie outside of the section
      exactly when the end of one of them wraps around. */
  lemma {:induction false} ChosenInside(ds: seq<Desc>, offs: seq<nat>, n: nat, size: nat)
    requires n <= |ds| == |offs| && size < UINT64_LIMIT
    ensures (forall i :: 0 <= i < n ==> offs[i] + ds[i].size <= size) <==>
            ChosenSize(ds, offs, n) <= size && forall i :: 0 <= i < n ==> offs[i] + ds[i].size < UINT64_LIMIT
  {
    if n != 0 {
      ChosenInside(ds, offs, n - 1, size);
    }
  }

  /** A descriptor that keeps the offset elf_newdata gave it is such a descriptor. */
  lemma UnsetOffset(d: Desc, size: nat)
    requires 0 < d.size <= size < UINT64_LIMIT
    ensures ChosenSize([d], [UINT64_LIMIT - 1], 1) <= size < UINT64_LIMIT - 1 + d.size
  {
    assert ChosenSize([d], [UINT64_LIMIT - 1], 0) == 0;
  }

  /** In application layout, also every descriptor's offset fits its alignment. */
  predicate OffsOk(v: Config, ds: seq<Desc>, offs: seq<nat>, n: nat)
    requires n <= |ds| == |offs| && AllOk(v, ds, n)
  {
    v.layout ==> forall i :: 0 <= i < n ==> offs[i] % ds[i].align == 0
  }

  function OwnAlign(v: Config, h: Shdr, t: nat): (r: nat)
    ensures r > 0
  {
    if h.addralign == 0 then Falign(t, v.m.c) else h.addralign
  }

  function EntSize(v: Config, h: Shdr, t: nat): nat {
    if h.entsize != 0 then h.entsize else if Fsize(v.fmt, v.m.c, t) == 1 then 0 else Fsize(v.fmt, v.m.c, t)
  }

  /** In library layout a plan has an alignment, and its size is what its descriptors need. */
  predicate PlanSound(v: Config, p: Plan) {
    !v.layout ==> p.align > 0 && AllOk(v, p.ds, |p.ds|) && (p.ds != [] ==> p.size == Size(v, p.ds, |p.ds|))
  }

  /** The plan for a section whose descriptors es are at hand. */
  function PlanWith(v: Config, h: Shdr, t: nat, es: seq<Desc>, os: seq<nat>): (r: Option<Plan>)
    requires |es| == |os|
    ensures r != None ==> PlanSound(v, r.value)
  {
    var a := OwnAlign(v, h, t);
    if !AllOk(v, es, |es|) || !OffsOk(v, es, os, |es|) then None
    else if !v.layout then Some(Plan(es, Size(v, es, |es|), Max(a, MaxAlign(es, |es|)), EntSize(v, h, t)))
    else if MaxAlign(es, |es|) > a || h.offset % a != 0 || h.size < ChosenSize(es, os, |es|) then None
    else if h.offset % Falign(t, v.m.c) != 0 then None
    else Some(Plan(es, h.size, a, h.entsize))
  }

  /** A section with data descriptors gets the greater of its own alignment and theirs. */
  predicate AlignedFor(v: Config, h: Shdr, p: Plan) {
    !v.layout && p.ds != [] && ShType(h.typ) != None ==>
      p.align == Max(OwnAlign(v, h, ShType(h.typ).value), MaxAlign(p.ds, |p.ds|))
  }

  function PlanOf(v: Config, h: Shdr, dirty: bool, ds: seq<Desc>, offs: seq<nat>): (r: Option<Plan>)
    requires |ds| == |offs|
    ensures r != None ==> PlanSound(v, r.value) && AlignedFor(v, h, r.value)
  {
    if ShType(h.typ) == None then None
    else
      var t := ShType(h.typ).value;
      if |ds| == 0 && !dirty then Some(Plan(ds, h.size, OwnAlign(v, h, t), h.entsize))
      else if |ds| != 0 || v.m.write then PlanWith(v, h, t, ds, offs)
      else if FileData(v, h) == None then None
      else PlanWith(v, h, t, [FileData(v, h).value], [0])
  }

  // ---------- What the plans mean ----------

  /** The section types of each ELF type (elf_common.h); types of the operating system, the processor and the user that
      are not among them have sections of bytes. */
  lemma SectionTypes(sht: nat, t: nat)
    ensures ShType(sht) == Some(t) <==>
            || (t == ELF_T_RELA && sht == 4) || (t == ELF_T_DYN && sht == 6) || (t == ELF_T_NOTE && sht == 7)
            || (t == ELF_T_REL && sht == 9) || (t == ELF_T_SYM && sht in {2, 11})
            || (t == ELF_T_ADDR && sht in {14, 15, 16})
            || (t == ELF_T_WORD && sht in {5, 17, 18, 0x6fff_fff7}) || (t == ELF_T_GNUHASH && sht == 0x6fff_fff6)
            || (t == ELF_T_MOVE && sht == 0x6fff_fffa) || (t == ELF_T_SYMINFO && sht == 0x6fff_fffc)
            || (t == ELF_T_VDEF && sht == 0x6fff_fffd) || (t == ELF_T_VNEED && sht == 0x6fff_fffe)
            || (t == ELF_T_HALF && sht == 0x6fff_ffff)
            || (t == ELF_T_BYTE &&
                (sht in {1, 3, 8, 0x6fff_fff8, 0x6fff_fff9, 0x6fff_fffb} || 0x6000_0000 <= sht < 0x6fff_fff6 ||
                 sht >= 0x7000_0000))
  {
  }

  /** The alignments in the file of the types that sections and header tables have. */
  lemma FileAligns(t: nat, c: Class)
    ensures Falign(t, c) == 1 <==> t in {ELF_T_BYTE, ELF_T_NOTE}
    ensures Falign(t, c) == 2 <==> t in {ELF_T_HALF, ELF_T_SYMINFO}
    ensures t in {ELF_T_WORD, ELF_T_VDEF, ELF_T_VNEED} ==> Falign(t, c) == 4
    ensures t == ELF_T_MOVE ==> Falign(t, c) == 8
    ensures t in {ELF_T_ADDR, ELF_T_DYN, ELF_T_PHDR, ELF_T_REL, ELF_T_RELA, ELF_T_SYM, ELF_T_GNUHASH} ==>
              Falign(t, c) == if c.Class32? then 4 else 8
  {
  }

  /** elf_getdata succeeds on a section that is still in the file exactly when its type is known, it lies in the file
      if it has contents there, and it holds a whole number of objects that can be translated. */
  lemma FileDataExactly(v: Config, h: Shdr)
    requires ValidFormat(v.fmt) && h.size < UINT64_LIMIT
    ensures FileData(v, h) != None <==>
            && h.typ != 0 && ShType(h.typ) != None && (h.typ == 8 || h.offset + h.size <= |v.raw|)
            && var t := ShType(h.typ).value;
               var f, m := Fsize(v.fmt, v.m.c, t), Msize(v.fmt, v.m.c, t);
               && m > 0 && h.size % f == 0 && m * (h.size / f) < 0x1_0000_0000_0000_0000
               && (h.typ != 8 && h.size > 0 ==>
                     ToMemory(v.fmt, v.m.c, OrderOf(v.byteorder, v.m.native), t, v.raw[h.offset..h.offset + h.size]) !=
                     None)
    ensures FileData(v, h) != None ==>
      var d := FileData(v, h).value;
      && ShType(h.typ) == Some(d.typ) && d.align == h.addralign && d.version == 1
      && d.size * Fsize(v.fmt, v.m.c, d.typ) == h.size * Msize(v.fmt, v.m.c, d.typ)
      && (d.buf == None <==> h.typ == 8 || h.size == 0)
      && (d.buf != None ==>
            d.buf ==
            ToMemory(v.fmt, v.m.c, OrderOf(v.byteorder, v.m.native), d.typ, v.raw[h.offset..h.offset + h.size]))
  {
    hide ShType;
    if ShType(h.typ) != None {
      var t := ShType(h.typ).value;
      var f, m := Fsize(v.fmt, v.m.c, t), Msize(v.fmt, v.m.c, t);
      if m > 0 {
        assert f > 0;
        var n := h.size / f;
        if h.size % f == 0 {
          assert h.size == f * n;
          assert m * n * f == f * n * m;
        }
      }
    }
  }

  /** A descriptor passes the checks of the layout, at offset off if the application chose it. */
  predicate Acceptable(v: Config, h: Shdr, t: nat, d: Desc, off: nat) {
    && d.typ < 24 && d.version == 1 && IsPow2(d.align)
    && Msize(v.fmt, v.m.c, d.typ) > 0 && d.size % Msize(v.fmt, v.m.c, d.typ) == 0
    && (v.layout ==>
          && off % d.align == 0 && Add64(off, d.size) <= h.size
          && d.align <= if h.addralign == 0 then Falign(t, v.m.c) else h.addralign)
  }

  lemma {:induction false} ChosenBound(ds: seq<Desc>, offs: seq<nat>, n: nat, size: nat)
    requires n <= |ds| == |offs|
    ensures ChosenSize(ds, offs, n) <= size <==> forall i :: 0 <= i < n ==> Add64(offs[i], ds[i].size) <= size
  {
    hide Add64;
    if n != 0 {
      ChosenBound(ds, offs, n - 1, size);
    }
  }

  lemma {:induction false} AlignBound(ds: seq<Desc>, n: nat, a: nat)
    requires n <= |ds|
    ensures MaxAlign(ds, n) <= a <==> forall i :: 0 <= i < n ==> ds[i].align <= a
  {
    if n != 0 {
      AlignBound(ds, n - 1, a);
    }
  }

  lemma PlanWithExactly(v: Config, h: Shdr, t: nat, es: seq<Desc>, os: seq<nat>)
    requires |es| == |os|
    ensures PlanWith(v, h, t, es, os) != None <==>
            && (forall i :: 0 <= i < |es| ==> Acceptable(v, h, t, es[i], os[i]))
            && (v.layout ==>
                  && h.offset % Falign(t, v.m.c) == 0 && (h.addralign != 0 ==> h.offset % h.addralign == 0))
  {
    hide IsPow2, Add64, MaxAlign, ChosenSize, Size, Falign;
    ChosenBound(es, os, |es|, h.size);
    AlignBound(es, |es|, OwnAlign(v, h, t));
    assert AllOk(v, es, |es|) <==> forall i :: 0 <= i < |es| ==> DescOk(v, es[i]);
  }

  /** A section with contents can be laid out exactly when its type is known and all its descriptors are acceptable, or
      that one which elf_getdata makes for a changed section that has none; and in application layout, when its offset
      fits its alignment and that of its type. */
  lemma PlanExactly(v: Config, h: Shdr, dirty: bool, ds: seq<Desc>, offs: seq<nat>)
    requires |ds| == |offs|
    ensures PlanOf(v, h, dirty, ds, offs) != None <==>
            && ShType(h.typ) != None
            && (ds != [] || dirty ==>
                  var t := ShType(h.typ).value;
                  && (ds == [] && !v.m.write ==>
                        FileData(v, h) != None && Acceptable(v, h, t, FileData(v, h).value, 0))
                  && (forall i :: 0 <= i < |ds| ==> Acceptable(v, h, t, ds[i], offs[i]))
                  && (v.layout ==>
                        h.offset % Falign(t, v.m.c) == 0 && (h.addralign != 0 ==> h.offset % h.addralign == 0)))
  {
    hide Acceptable, PlanWith, FileData, Falign;
    if ShType(h.typ) != None {
      var t := ShType(h.typ).value;
      PlanWithExactly(v, h, t, ds, offs);
      if ds == [] && !v.m.write && FileData(v, h) != None {
        PlanWithExactly(v, h, t, [FileData(v, h).value], [0]);
        assert [FileData(v, h).value][0] == FileData(v, h).value;
      }
    }
  }

  /** What a section is given when the library does the layout. Its alignment is the one that its header asks for, or
      that of its type, or the greatest of its descriptors, whichever is the greatest. A section without descriptors
      keeps its size and its entry size; otherwise the size is what the descriptors need, and an entry size that is
      not set becomes the size of one object, unless the objects are bytes. */
  lemma PlanValues(v: Config, h: Shdr, dirty: bool, ds: seq<Desc>, offs: seq<nat>)
    requires |ds| == |offs| && !v.layout && PlanOf(v, h, dirty, ds, offs) != None
    ensures ShType(h.typ) != None
    ensures var p, t := PlanOf(v, h, dirty, ds, offs).value, ShType(h.typ).value;
            var own := if h.addralign == 0 then Falign(t, v.m.c) else h.addralign;
            && p.ds == (if ds == [] && dirty && !v.m.write && FileData(v, h) != None then [FileData(v, h).value]
                        else ds)
            && own <= p.align && (forall d <- p.ds :: d.align <= p.align)
            && (p.align == own || exists d <- p.ds :: p.align == d.align)
            && (ds == [] && !dirty ==> p.size == h.size && p.entsize == h.entsize)
            && (ds != [] || dirty ==>
                  && AllOk(v, p.ds, |p.ds|) && p.size == Size(v, p.ds, |p.ds|)
                  && (h.entsize != 0 ==> p.entsize == h.entsize)
                  && (h.entsize == 0 ==>
                        p.entsize == if Fsize(v.fmt, v.m.c, t) == 1 then 0 else Fsize(v.fmt, v.m.c, t)))
  {
    hide ShType, Falign, FileData, Size, DescOk;
    var p := PlanOf(v, h, dirty, ds, offs).value;
    AlignBound(p.ds, |p.ds|, p.align);
    if p.ds != [] {
      MaxAlignIs(v, p.ds, |p.ds|);
      var k :| 0 <= k < |p.ds| && p.ds[k].align == MaxAlign(p.ds, |p.ds|);
      assert p.ds[k] in p.ds;
    }
  }

  /** Where the section goes. */
  function Start(v: Config, h: Shdr, p: Plan, rc: nat): nat
    requires !v.layout ==> p.align > 0
  {
    if v.layout then h.offset else RoundUp(rc, p.align)
  }

  /** The header that the section gets. A field keeps what fits into it. */
  function NewShdr(v: Config, h: Shdr, p: Plan, start: nat): Shdr {
    if v.layout then h
    else h.(addralign := p.align % Limit(v.m.c), entsize := p.entsize % Limit(v.m.c),
            offset := start % Limit(v.m.c), size := p.size % Limit(v.m.c))
  }

  /** Two headers differ in sh_addralign, sh_entsize, sh_offset and sh_size only. */
  predicate OthersKept(h: Shdr, h': Shdr) {
    && h'.name == h.name && h'.typ == h.typ && h'.flags == h.flags && h'.addr == h.addr && h'.link == h.link
    && h'.info == h.info
  }

  /** The layout changes those four fields, and none in application layout. Values that fit are kept. */
  lemma NewShdrMeaning(v: Config, h: Shdr, p: Plan, start: nat)
    ensures var h' := NewShdr(v, h, p, start);
            && OthersKept(h, h') && (v.layout ==> h' == h)
            && (!v.layout ==>
                  var limit := if v.m.c.Class32? then 0x1_0000_0000 else 0x1_0000_0000_0000_0000;
                  && (p.align < limit ==> h'.addralign == p.align) && (p.entsize < limit ==> h'.entsize == p.entsize)
                  && (start < limit ==> h'.offset == start) && (p.size < limit ==> h'.size == p.size))
  {
    var limit := Limit(v.m.c);
    if p.align < limit { ModUnique(p.align, limit, 0, p.align); }
    if p.entsize < limit { ModUnique(p.entsize, limit, 0, p.entsize); }
    if start < limit { ModUnique(start, limit, 0, start); }
    if p.size < limit { ModUnique(p.size, limit, 0, p.size); }
  }

  /** In application layout a section is where its header says, and as long. */
  lemma ChosenValues(v: Config, h: Shdr, dirty: bool, ds: seq<Desc>, offs: seq<nat>, rc: nat)
    requires |ds| == |offs| && v.layout && PlanOf(v, h, dirty, ds, offs) != None
    ensures var p := PlanOf(v, h, dirty, ds, offs).value; p.size == h.size && Start(v, h, p, rc) == h.offset
  {
  }

  /** A section whose header asks for no alignment or for a power of two keeps all its descriptors aligned in the file,
      wherever the library puts it. */
  lemma PowerOfTwoAligned(v: Config, ds: seq<Desc>, h: Shdr, t: nat, rc: nat, k: nat)
    requires AllOk(v, ds, |ds|) && k < |ds| && (h.addralign == 0 || IsPow2(h.addralign))
    ensures Aligned(v, ds, Max(OwnAlign(v, h, t), MaxAlign(ds, |ds|)), rc, k)
  {
    var a, d := OwnAlign(v, h, t), MaxAlign(ds, |ds|);
    assert IsPow2(8) && IsPow2(4) && IsPow2(2) && IsPow2(1);
    MaxAlignIs(v, ds, |ds|);
    if a > d {
      Pow2Divides(d, a);
    }
    AbsoluteAlignment(v, ds, a, 0);
  }

  /** A first section behind a 64-bit executable header whose header asks for alignment 6 goes to offset 66, and a
      descriptor of alignment 4 at its start with it. */
  lemma MisalignedSection(v: Config, h: Shdr, dirty: bool, d: Desc)
    requires !v.layout && DescOk(v, d) && d.align == 4 && ShType(h.typ) != None && h.addralign == 6
    ensures var p := PlanOf(v, h, dirty, [d], [0]);
            && p != None && Start(v, h, p.value, EhdrSize(Class64)) == 66
            && (Start(v, h, p.value, EhdrSize(Class64)) + Off(v, [d], 0)) % d.align == 2
  {
    assert MaxAlign([d], 0) == 0;
    assert MaxAlign([d], 1) == 4;
  }

  /** A section of words whose header asks for alignment 3 goes to offset 66 there, which is no multiple of 4: the
      writer's assertion on the section's offset fails. */
  lemma MisplacedSection(v: Config, h: Shdr, dirty: bool, d: Desc)
    requires !v.layout && DescOk(v, d) && d.align <= 2 && ShType(h.typ) == Some(ELF_T_WORD) && h.addralign == 3
    ensures var p := PlanOf(v, h, dirty, [d], [0]);
            && p != None && Start(v, h, p.value, EhdrSize(Class64)) == 66
            && Start(v, h, p.value, EhdrSize(Class64)) % Falign(ELF_T_WORD, v.m.c) == 2
  {
    assert MaxAlign([d], 0) == 0;
    assert MaxAlign([d], 1) == d.align;
  }
}
