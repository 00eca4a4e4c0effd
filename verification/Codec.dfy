/** File representation of ELF headers: fields of fixed width in either byte order, laid out as in elf_types.m4. */
module Codec {

  newtype byte = x: int | 0 <= x < 256

  /** ELFDATA2LSB and ELFDATA2MSB. */
  datatype Order = Lsb | Msb

  /** ELFCLASS32 and ELFCLASS64. */
  datatype Class = Class32 | Class64

  /** One more than the largest value of a field of w bytes. */
  function Pow256(w: nat): (r: nat)
    ensures r > 0
  {
    if w == 0 then 1 else 256 * Pow256(w - 1)
  }

  // ---------- One field ----------

  function Put(o: Order, w: nat, v: nat): (r: seq<byte>)
    ensures |r| == w
  {
    if w == 0 then []
    else match o
         case Lsb => [(v % 256) as byte] + Put(o, w - 1, v / 256)
         case Msb => Put(o, w - 1, v / 256) + [(v % 256) as byte]
  }

  function Get(o: Order, b: seq<byte>): nat {
    if |b| == 0 then 0
    else match o
         case Lsb => b[0] as nat + 256 * Get(o, b[1..])
         case Msb => b[|b| - 1] as nat + 256 * Get(o, b[..|b| - 1])
  }

  lemma ModUnique(v: nat, m: nat, k: nat, r: nat)
    requires m > 0 && v == m * k + r && r < m
    ensures v % m == r
  {
    var d := v / m - k;
    assert v == m * (v / m) + v % m;
    assert m * d == r - v % m by { assert m * d == m * (v / m) - m * k; }
    SmallMultiple(m, d);
  }

  lemma SmallMultiple(m: int, d: int)
    requires -m < m * d < m
    ensures d == 0
  {
    assert d >= 1 ==> m * d >= m;
    assert d <= -1 ==> m * d <= -m;
  }

  lemma ModStep(v: nat, p: nat)
    requires p > 0
    ensures v % 256 + 256 * (v / 256 % p) == v % (256 * p)
  {
    var q := v / 256;
    var k := q / p;
    assert q == p * k + q % p;
    assert v == (256 * p) * k + (v % 256 + 256 * (q % p)) by {
      assert 256 * (p * k) == (256 * p) * k;
    }
    ModUnique(v, 256 * p, k, v % 256 + 256 * (q % p));
  }

  /** A field keeps the value modulo its width, so a value that fits is read back unchanged. */
  lemma {:induction false} GetPut(o: Order, w: nat, v: nat)
    ensures Get(o, Put(o, w, v)) == v % Pow256(w)
  {
    if w != 0 {
      GetPut(o, w - 1, v / 256);
      ModStep(v, Pow256(w - 1));
      var r := Put(o, w, v);
      if o.Lsb? {
        assert r[1..] == Put(o, w - 1, v / 256);
      } else {
        assert r[..w - 1] == Put(o, w - 1, v / 256);
      }
    }
  }

  // ---------- What a field stands for ----------

  /** The first n bytes as a number whose digits, to base 256, are the bytes from the least significant one on. */
  function ByteSum(b: seq<byte>, n: nat): nat
    requires n <= |b|
  {
    if n == 0 then 0 else ByteSum(b, n - 1) + b[n - 1] as nat * Pow256(n - 1)
  }

  function Reversed(b: seq<byte>): (r: seq<byte>)
    ensures |r| == |b| && forall i :: 0 <= i < |b| ==> r[i] == b[|b| - 1 - i]
  {
    seq(|b|, i requires 0 <= i < |b| => b[|b| - 1 - i])
  }

  lemma {:induction false} ByteSumShift(b: seq<byte>, n: nat)
    requires 0 < n <= |b|
    ensures ByteSum(b, n) == b[0] as nat + 256 * ByteSum(b[1..], n - 1)
    decreases n
  {
    if n == 1 {
      assert ByteSum(b, 0) == 0 == ByteSum(b[1..], 0) && Pow256(0) == 1;
    } else {
      ByteSumShift(b, n - 1);
      var x, p := b[n - 1] as nat, Pow256(n - 2);
      assert Pow256(n - 1) == 256 * p && b[1..][n - 2] == b[n - 1];
      assert x * (256 * p) == 256 * (x * p);
    }
  }

  /** In the order of ELFDATA2LSB the first byte of a field is the least significant one, in that of ELFDATA2MSB the
      last. */
  lemma {:induction false} FieldMeaning(o: Order, b: seq<byte>)
    ensures Get(o, b) == match o case Lsb => ByteSum(b, |b|) case Msb => ByteSum(Reversed(b), |b|)
    decreases |b|
  {
    if |b| != 0 {
      match o {
        case Lsb =>
          FieldMeaning(o, b[1..]);
          ByteSumShift(b, |b|);
        case Msb =>
          var c := b[..|b| - 1];
          FieldMeaning(o, c);
          ByteSumShift(Reversed(b), |b|);
          assert Reversed(b)[1..] == Reversed(c);
      }
    }
  }

  // ---------- A record of fields ----------

  function Sum(ws: seq<nat>): nat {
    if |ws| == 0 then 0 else ws[0] + Sum(ws[1..])
  }

  lemma SumHalves(a: seq<nat>, b: seq<nat>)
    ensures Sum(a + b) == Sum(a) + Sum(b)
  {
    if |a| == 0 {
      assert a + b == b;
    } else {
      assert (a + b)[1..] == a[1..] + b;
      SumHalves(a[1..], b);
    }
  }

  function PutAll(o: Order, ws: seq<nat>, vs: seq<nat>): (r: seq<byte>)
    requires |ws| == |vs|
    ensures |r| == Sum(ws)
  {
    if |ws| == 0 then [] else Put(o, ws[0], vs[0]) + PutAll(o, ws[1..], vs[1..])
  }

  function GetAll(o: Order, ws: seq<nat>, b: seq<byte>): (vs: seq<nat>)
    requires |b| == Sum(ws)
    ensures |vs| == |ws|
  {
    if |ws| == 0 then [] else [Get(o, b[..ws[0]])] + GetAll(o, ws[1..], b[ws[0]..])
  }

  predicate Fits(ws: seq<nat>, vs: seq<nat>) {
    |ws| == |vs| && forall i :: 0 <= i < |ws| ==> vs[i] < Pow256(ws[i])
  }

  lemma {:induction false} GetPutAll(o: Order, ws: seq<nat>, vs: seq<nat>)
    requires Fits(ws, vs)
    ensures GetAll(o, ws, PutAll(o, ws, vs)) == vs
  {
    if |ws| != 0 {
      var b := PutAll(o, ws, vs);
      assert b[..ws[0]] == Put(o, ws[0], vs[0]) && b[ws[0]..] == PutAll(o, ws[1..], vs[1..]);
      GetPut(o, ws[0], vs[0]);
      ModUnique(vs[0], Pow256(ws[0]), 0, vs[0]);
      GetPutAll(o, ws[1..], vs[1..]);
      assert vs == [vs[0]] + vs[1..];
    }
  }

  /** ks are the positions of the fields from at on, one behind the other. */
  predicate Positions(ws: seq<nat>, ks: seq<nat>, at: nat) {
    && |ks| == |ws| && (ks != [] ==> ks[0] == at)
    && forall i :: 0 <= i < |ks| - 1 ==> ks[i + 1] == ks[i] + ws[i]
  }

  lemma {:induction false} FieldsAt(o: Order, ws: seq<nat>, b: seq<byte>, ks: seq<nat>, at: nat)
    requires Positions(ws, ks, at) && at + Sum(ws) == |b|
    ensures forall i :: 0 <= i < |ws| ==> FieldIs(o, ws, b, ks, at, i)
    decreases |ws|
  {
    hide FieldIs, Get;
    if |ws| != 0 {
      RestPositions(ws, ks, at);
      FieldsAt(o, ws[1..], b, ks[1..], at + ws[0]);
      forall i | 0 <= i < |ws| ensures FieldIs(o, ws, b, ks, at, i) {
        OneField(o, ws, b, ks, at, i);
      }
    }
  }

  /** Field i of the record that starts at at is at position ks[i]. */
  predicate FieldIs(o: Order, ws: seq<nat>, b: seq<byte>, ks: seq<nat>, at: nat, i: nat)
    requires at + Sum(ws) == |b| && |ks| == |ws| && i < |ws|
  {
    ks[i] + ws[i] <= |b| && GetAll(o, ws, b[at..])[i] == Get(o, b[ks[i]..ks[i] + ws[i]])
  }

  lemma RestPositions(ws: seq<nat>, ks: seq<nat>, at: nat)
    requires Positions(ws, ks, at) && |ws| != 0
    ensures Positions(ws[1..], ks[1..], at + ws[0]) && ks[0] == at
  {
    if |ks| > 1 {
      assert ks[0 + 1] == ks[0] + ws[0];
    }
    forall i | 0 <= i < |ks| - 2 ensures ks[1..][i + 1] == ks[1..][i] + ws[1..][i] {
      assert ks[(i + 1) + 1] == ks[i + 1] + ws[i + 1];
    }
  }

  lemma OneField(o: Order, ws: seq<nat>, b: seq<byte>, ks: seq<nat>, at: nat, i: nat)
    requires at + Sum(ws) == |b| && |ks| == |ws| && i < |ws| && ks[0] == at
    requires i > 0 ==> FieldIs(o, ws[1..], b, ks[1..], at + ws[0], i - 1)
    ensures FieldIs(o, ws, b, ks, at, i)
  {
    hide Get;
    var x := b[at..];
    assert GetAll(o, ws, x) == [Get(o, x[..ws[0]])] + GetAll(o, ws[1..], x[ws[0]..]);
    hide GetAll;
    if i == 0 {
      assert x[..ws[0]] == b[at..at + ws[0]];
    } else {
      assert x[ws[0]..] == b[at + ws[0]..];
      assert ks[1..][i - 1] == ks[i] && ws[1..][i - 1] == ws[i];
    }
  }

  /** Every field of a record is at its position. */
  lemma Fields(o: Order, ws: seq<nat>, b: seq<byte>, ks: seq<nat>, at: nat)
    requires Positions(ws, ks, at) && at + Sum(ws) == |b|
    ensures forall i :: 0 <= i < |ws| ==>
      ks[i] + ws[i] <= |b| && GetAll(o, ws, b[at..])[i] == Get(o, b[ks[i]..ks[i] + ws[i]])
  {
    hide GetAll, Get, Sum;
    FieldsAt(o, ws, b, ks, at);
    forall i | 0 <= i < |ws|
      ensures ks[i] + ws[i] <= |b| && GetAll(o, ws, b[at..])[i] == Get(o, b[ks[i]..ks[i] + ws[i]])
    {
      assert FieldIs(o, ws, b, ks, at, i);
    }
  }

  // ---------- Section headers ----------

  datatype Shdr = Shdr(name: nat, typ: nat, flags: nat, addr: nat, offset: nat, size: nat, link: nat, info: nat,
                       addralign: nat, entsize: nat)

  function ShdrWidths(c: Class): seq<nat> {
    match c
    case Class32 => [4, 4, 4, 4, 4, 4, 4, 4, 4, 4]
    case Class64 => [4, 4, 8, 8, 8, 8, 4, 4, 8, 8]
  }

  /** _libelf_fsize of ELF_T_SHDR. */
  function ShdrSize(c: Class): nat {
    match c case Class32 => 40 case Class64 => 64
  }

  function ShdrValues(h: Shdr): seq<nat> {
    [h.name, h.typ, h.flags, h.addr, h.offset, h.size, h.link, h.info, h.addralign, h.entsize]
  }

  function ShdrOf(vs: seq<nat>): Shdr
    requires |vs| == 10
  {
    Shdr(vs[0], vs[1], vs[2], vs[3], vs[4], vs[5], vs[6], vs[7], vs[8], vs[9])
  }

  /** Every field holds a value of its C type. */
  predicate ShdrFits(c: Class, h: Shdr) {
    Fits(ShdrWidths(c), ShdrValues(h))
  }

  lemma ShdrWidth(c: Class)
    ensures Sum(ShdrWidths(c)) == ShdrSize(c)
  {
    match c
    case Class32 =>
      SumHalves([4, 4, 4, 4, 4], [4, 4, 4, 4, 4]);
      assert Sum([4, 4, 4, 4, 4]) == 20 && Sum([4, 4, 4, 4, 4]) == 20;
      assert [4, 4, 4, 4, 4] + [4, 4, 4, 4, 4] == ShdrWidths(c);
    case Class64 =>
      SumHalves([4, 4, 8, 8, 8], [8, 4, 4, 8, 8]);
      assert Sum([4, 4, 8, 8, 8]) == 32 && Sum([8, 4, 4, 8, 8]) == 32;
      assert [4, 4, 8, 8, 8] + [8, 4, 4, 8, 8] == ShdrWidths(c);
  }

  function PutShdr(c: Class, o: Order, h: Shdr): (r: seq<byte>)
    ensures |r| == ShdrSize(c)
  {
    ShdrWidth(c);
    PutAll(o, ShdrWidths(c), ShdrValues(h))
  }

  function GetShdr(c: Class, o: Order, b: seq<byte>): Shdr
    requires |b| == ShdrSize(c)
  {
    ShdrWidth(c);
    ShdrOf(GetAll(o, ShdrWidths(c), b))
  }

  lemma GetPutShdr(c: Class, o: Order, h: Shdr)
    requires ShdrFits(c, h)
    ensures GetShdr(c, o, PutShdr(c, o, h)) == h
  {
    ShdrWidth(c);
    GetPutAll(o, ShdrWidths(c), ShdrValues(h));
  }

  /** The fields of a section header at their positions, as chapter 4 of the System V gABI gives them. */
  predicate ShdrLaidOut(c: Class, o: Order, b: seq<byte>, h: Shdr) {
    match c
    case Class32 =>
      && |b| == 40
      && h.name == Get(o, b[0..4]) && h.typ == Get(o, b[4..8]) && h.flags == Get(o, b[8..12])
      && h.addr == Get(o, b[12..16]) && h.offset == Get(o, b[16..20]) && h.size == Get(o, b[20..24])
      && h.link == Get(o, b[24..28]) && h.info == Get(o, b[28..32]) && h.addralign == Get(o, b[32..36])
      && h.entsize == Get(o, b[36..40])
    case Class64 =>
      && |b| == 64
      && h.name == Get(o, b[0..4]) && h.typ == Get(o, b[4..8]) && h.flags == Get(o, b[8..16])
      && h.addr == Get(o, b[16..24]) && h.offset == Get(o, b[24..32]) && h.size == Get(o, b[32..40])
      && h.link == Get(o, b[40..44]) && h.info == Get(o, b[44..48]) && h.addralign == Get(o, b[48..56])
      && h.entsize == Get(o, b[56..64])
  }

  /** A section header is decoded from its fields at those positions. */
  lemma ShdrFields(c: Class, o: Order, b: seq<byte>)
    requires |b| == ShdrSize(c)
    ensures ShdrLaidOut(c, o, b, GetShdr(c, o, b))
  {
    hide Get, Sum, GetAll;
    ShdrWidth(c);
    assert b[0..] == b;
    match c
    case Class32 => Fields(o, ShdrWidths(c), b, [0, 4, 8, 12, 16, 20, 24, 28, 32, 36], 0);
    case Class64 => Fields(o, ShdrWidths(c), b, [0, 4, 8, 16, 24, 32, 40, 44, 48, 56], 0);
  }

  // ---------- The executable header ----------

  datatype Ehdr = Ehdr(ident: seq<byte>, typ: nat, machine: nat, version: nat, entry: nat, phoff: nat, shoff: nat,
                       flags: nat, ehsize: nat, phentsize: nat, phnum: nat, shentsize: nat, shnum: nat, shstrndx: nat)

  const EI_NIDENT := 16
  const EI_CLASS := 4
  const EI_DATA := 5
  const EI_VERSION := 6

  function EhdrWidths(c: Class): seq<nat> {
    match c
    case Class32 => [2, 2, 4, 4, 4, 4, 4, 2, 2, 2, 2, 2, 2]
    case Class64 => [2, 2, 4, 8, 8, 8, 4, 2, 2, 2, 2, 2, 2]
  }

  /** _libelf_fsize of ELF_T_EHDR. */
  function EhdrSize(c: Class): nat {
    match c case Class32 => 52 case Class64 => 64
  }

  function EhdrValues(h: Ehdr): seq<nat> {
    [h.typ, h.machine, h.version, h.entry, h.phoff, h.shoff, h.flags, h.ehsize, h.phentsize, h.phnum, h.shentsize,
     h.shnum, h.shstrndx]
  }

  function EhdrOf(ident: seq<byte>, vs: seq<nat>): Ehdr
    requires |vs| == 13
  {
    Ehdr(ident, vs[0], vs[1], vs[2], vs[3], vs[4], vs[5], vs[6], vs[7], vs[8], vs[9], vs[10], vs[11], vs[12])
  }

  predicate EhdrFits(c: Class, h: Ehdr) {
    |h.ident| == EI_NIDENT && Fits(EhdrWidths(c), EhdrValues(h))
  }

  lemma EhdrWidth(c: Class)
    ensures EI_NIDENT + Sum(EhdrWidths(c)) == EhdrSize(c)
  {
    match c
    case Class32 =>
      SumHalves([2, 2, 4, 4, 4, 4], [4, 2, 2, 2, 2, 2, 2]);
      assert Sum([2, 2, 4, 4, 4, 4]) == 20 && Sum([4, 2, 2, 2, 2, 2, 2]) == 16;
      assert [2, 2, 4, 4, 4, 4] + [4, 2, 2, 2, 2, 2, 2] == EhdrWidths(c);
    case Class64 =>
      SumHalves([2, 2, 4, 8, 8, 8], [4, 2, 2, 2, 2, 2, 2]);
      assert Sum([2, 2, 4, 8, 8, 8]) == 32 && Sum([4, 2, 2, 2, 2, 2, 2]) == 16;
      assert [2, 2, 4, 8, 8, 8] + [4, 2, 2, 2, 2, 2, 2] == EhdrWidths(c);
  }

  function PutEhdr(c: Class, o: Order, h: Ehdr): (r: seq<byte>)
    requires |h.ident| == EI_NIDENT
    ensures |r| == EhdrSize(c)
  {
    EhdrWidth(c);
    h.ident + PutAll(o, EhdrWidths(c), EhdrValues(h))
  }

  function GetEhdr(c: Class, o: Order, b: seq<byte>): (h: Ehdr)
    requires |b| == EhdrSize(c)
    ensures |h.ident| == EI_NIDENT
  {
    EhdrWidth(c);
    EhdrOf(b[..EI_NIDENT], GetAll(o, EhdrWidths(c), b[EI_NIDENT..]))
  }

  lemma GetPutEhdr(c: Class, o: Order, h: Ehdr)
    requires EhdrFits(c, h)
    ensures GetEhdr(c, o, PutEhdr(c, o, h)) == h
  {
    EhdrWidth(c);
    GetPutAll(o, EhdrWidths(c), EhdrValues(h));
    var b := PutEhdr(c, o, h);
    assert b[..EI_NIDENT] == h.ident && b[EI_NIDENT..] == PutAll(o, EhdrWidths(c), EhdrValues(h));
  }

  /** The fields of the executable header at their positions. */
  predicate EhdrLaidOut(c: Class, o: Order, b: seq<byte>, h: Ehdr) {
    match c
    case Class32 =>
      && |b| == 52 && h.ident == b[0..16]
      && h.typ == Get(o, b[16..18]) && h.machine == Get(o, b[18..20]) && h.version == Get(o, b[20..24])
      && h.entry == Get(o, b[24..28]) && h.phoff == Get(o, b[28..32]) && h.shoff == Get(o, b[32..36])
      && h.flags == Get(o, b[36..40]) && h.ehsize == Get(o, b[40..42]) && h.phentsize == Get(o, b[42..44])
      && h.phnum == Get(o, b[44..46]) && h.shentsize == Get(o, b[46..48]) && h.shnum == Get(o, b[48..50])
      && h.shstrndx == Get(o, b[50..52])
    case Class64 =>
      && |b| == 64 && h.ident == b[0..16]
      && h.typ == Get(o, b[16..18]) && h.machine == Get(o, b[18..20]) && h.version == Get(o, b[20..24])
      && h.entry == Get(o, b[24..32]) && h.phoff == Get(o, b[32..40]) && h.shoff == Get(o, b[40..48])
      && h.flags == Get(o, b[48..52]) && h.ehsize == Get(o, b[52..54]) && h.phentsize == Get(o, b[54..56])
      && h.phnum == Get(o, b[56..58]) && h.shentsize == Get(o, b[58..60]) && h.shnum == Get(o, b[60..62])
      && h.shstrndx == Get(o, b[62..64])
  }

  /** The executable header is decoded from its fields at those positions. */
  lemma EhdrFields(c: Class, o: Order, b: seq<byte>)
    requires |b| == EhdrSize(c)
    ensures EhdrLaidOut(c, o, b, GetEhdr(c, o, b))
  {
    hide Get, Sum, GetAll;
    EhdrWidth(c);
    assert b[..16] == b[0..16];
    match c
    case Class32 => Fields(o, EhdrWidths(c), b, [16, 18, 20, 24, 28, 32, 36, 40, 42, 44, 46, 48, 50], 16);
    case Class64 => Fields(o, EhdrWidths(c), b, [16, 18, 20, 24, 32, 40, 48, 52, 54, 56, 58, 60, 62], 16);
  }
}
