/** SVR4 archive symbol tables: _libelf_ar_process_svr4_symtab (libelf_ar.c) inverts their encoding. */
module Symtab {
  import opened Codec
  import opened Section

  /** An Elf_Arsym: the offset of a member, a symbol name and its hash value; the sentinel has no name. A hash of None
      depends on what lies behind the table, as the name does not end in it. */
  datatype Sym = Sym(off: nat, name: Option<seq<byte>>, hash: Option<bv64>)

  const SENTINEL := Sym(0, None, Some(0xffff_ffff_ffff_ffff))
  const INTSZ: nat := 4

  // ---------- elf_hash ----------

  /** Folds the bits 28 to 31 into the bits 4 to 7. */
  function Fold(g: bv64): bv64 {
    var t := g & 0xf000_0000;
    (if t != 0 then g ^ (t >> 24) else g) & !t
  }

  /** What elf_hash does with one character, in an unsigned long of 64 bits. */
  function HashStep(h: bv64, b: byte): bv64 {
    Fold((h << 4) + b as bv64)
  }

  /** The bits 28 to 31 are cleared. */
  lemma FoldClears(g: bv64)
    ensures Fold(g) & 0xf000_0000 == 0
  {
  }

  /** The bits 4 to 7 are combined with them. */
  lemma FoldCombines(g: bv64)
    ensures Fold(g) & 0xf0 == (g & 0xf0) ^ ((g & 0xf000_0000) >> 24)
  {
  }

  /** All others are kept, also those from 32 on. */
  lemma FoldKeeps(g: bv64)
    ensures Fold(g) & 0xf == g & 0xf && Fold(g) >> 32 == g >> 32
    ensures Fold(g) & 0xff00 == g & 0xff00
    ensures Fold(g) & 0xff_0000 == g & 0xff_0000
    ensures Fold(g) & 0xf00_0000 == g & 0xf00_0000
  {
    hide Fold;
    KeepsLow(g);
    KeepsHigh(g);
    KeepsSecond(g);
    KeepsThird(g);
    KeepsFourth(g);
  }

  lemma KeepsLow(g: bv64)
    ensures Fold(g) & 0xf == g & 0xf
  {
  }

  lemma KeepsSecond(g: bv64)
    ensures Fold(g) & 0xff00 == g & 0xff00
  {
  }

  lemma KeepsThird(g: bv64)
    ensures Fold(g) & 0xff_0000 == g & 0xff_0000
  {
  }

  lemma KeepsFourth(g: bv64)
    ensures Fold(g) & 0xf00_0000 == g & 0xf00_0000
  {
  }

  lemma KeepsHigh(g: bv64)
    ensures Fold(g) >> 32 == g >> 32
  {
  }

  /** Before that the value is multiplied by 16 and the character is added. */
  lemma StepMeaning(h: bv64, b: byte)
    ensures HashStep(h, b) == Fold(16 * h + b as bv64)
  {
    hide Fold;
    Shifted(h);
  }

  lemma Shifted(h: bv64)
    ensures h << 4 == 16 * h
  {
  }

  /** The hash value of a name. */
  function Hash(name: seq<byte>): bv64 {
    if |name| == 0 then 0 else HashStep(Hash(name[..|name| - 1]), name[|name| - 1])
  }

  /** A longer name's hash value comes from that of the name without its last character. */
  lemma HashMeaning(name: seq<byte>, b: byte)
    ensures Hash([]) == 0 && Hash(name + [b]) == HashStep(Hash(name), b)
  {
    hide HashStep;
    assert (name + [b])[..|name|] == name;
  }

  /** The hash value of the string at s. */
  function HashAt(tab: seq<byte>, s: nat): Option<bv64>
    requires s <= |tab|
  {
    if StringEnd(tab, s) < |tab| then Some(Hash(tab[s..StringEnd(tab, s)])) else None
  }

  /** elf_hash on the string at start. */
  method ElfHash(tab: seq<byte>, start: nat) returns (r: Option<bv64>)
    requires start <= |tab|
    ensures r == HashAt(tab, start)
  {
    hide HashStep;
    var h: bv64 := 0;
    var s := start;
    while s < |tab| && tab[s] != 0
      invariant start <= s <= |tab| && StringEnd(tab, start) == StringEnd(tab, s) && h == Hash(tab[start..s])
    {
      assert tab[start..s + 1][..s - start] == tab[start..s];
      h := HashStep(h, tab[s]);
      s := s + 1;
    }
    r := if s < |tab| then Some(h) else None;
  }

  // ---------- _libelf_ar_process_svr4_symtab ----------

  /** The end of the string at s: the position of its NUL, or the end of the table. */
  function StringEnd(tab: seq<byte>, s: nat): (r: nat)
    requires s <= |tab|
    ensures s <= r <= |tab|
    decreases |tab| - s
  {
    if s == |tab| || tab[s] == 0 then s else StringEnd(tab, s + 1)
  }

  /** The start of the string after the one at s. */
  function NextString(tab: seq<byte>, s: nat): (r: nat)
    requires s <= |tab|
    ensures s <= r <= |tab|
  {
    if StringEnd(tab, s) < |tab| then StringEnd(tab, s) + 1 else |tab|
  }

  function WordAt(tab: seq<byte>, p: nat): nat
    requires p + INTSZ <= |tab|
  {
    Get(Msb, tab[p..p + INTSZ])
  }

  /** Symbol number i, with its name at s. */
  function SymAt(tab: seq<byte>, i: nat, s: nat): Sym
    requires INTSZ + i * INTSZ + INTSZ <= |tab| && s <= |tab|
  {
    Sym(WordAt(tab, INTSZ + i * INTSZ), Some(tab[s..StringEnd(tab, s)]), HashAt(tab, s))
  }

  /** The symbols from number i of n on, the first of which has its name at s. */
  function SymsFrom(tab: seq<byte>, limit: nat, n: nat, i: nat, s: nat): Option<seq<Sym>>
    requires i <= n && INTSZ + n * INTSZ <= |tab| && s <= |tab|
    decreases n - i
  {
    if i == n then Some([SENTINEL])
    else
      EntryInside(n, i);
      if s >= |tab| || WordAt(tab, INTSZ + i * INTSZ) >= limit then None
      else
        var rest := SymsFrom(tab, limit, n, i + 1, NextString(tab, s));
        if rest == None then None
        else Some([SymAt(tab, i, s)] + rest.value)
  }

  lemma EntryInside(n: nat, i: nat)
    requires i < n
    ensures i * INTSZ + INTSZ <= n * INTSZ
  {
  }

  function Decode(tab: seq<byte>, limit: nat): Option<seq<Sym>> {
    if |tab| < INTSZ then None
    else
      var n := WordAt(tab, 0);
      if n == 0 || INTSZ + n * INTSZ >= |tab| then None
      else SymsFrom(tab, limit, n, 0, INTSZ + n * INTSZ)
  }

  /** GET_WORD. */
  method GetWord(tab: seq<byte>, p: nat) returns (v: nat)
    requires p + INTSZ <= |tab|
    ensures v == WordAt(tab, p)
  {
    v := tab[p] as nat;
    v := v * 256 + tab[p + 1] as nat;
    v := v * 256 + tab[p + 2] as nat;
    v := v * 256 + tab[p + 3] as nat;
    FourBytes(tab[p..p + INTSZ]);
  }

  lemma FourBytes(b: seq<byte>)
    requires |b| == 4
    ensures Get(Msb, b) == ((b[0] as int * 256 + b[1] as int) * 256 + b[2] as int) * 256 + b[3] as int
  {
    var c := b[..3];
    var d := c[..2];
    var e := d[..1];
    assert Get(Msb, e) == e[0] as int + 256 * Get(Msb, e[..0]) && e[..0] == [];
    assert Get(Msb, d) == d[1] as int + 256 * Get(Msb, e);
    assert Get(Msb, c) == c[2] as int + 256 * Get(Msb, d);
    assert Get(Msb, b) == b[3] as int + 256 * Get(Msb, c);
  }

  /** Skips to the next string. */
  method SkipString(tab: seq<byte>, start: nat) returns (s: nat)
    requires start <= |tab|
    ensures s == NextString(tab, start)
  {
    s := start;
    while s < |tab|
      invariant start <= s <= |tab| && StringEnd(tab, start) == StringEnd(tab, s)
    {
      s := s + 1;
      if tab[s - 1] == 0 {
        return;
      }
    }
  }

  function Prepend(a: seq<Sym>, r: Option<seq<Sym>>): Option<seq<Sym>> {
    if r == None then None else Some(a + r.value)
  }

  lemma PrependMore(a: seq<Sym>, x: Sym, r: Option<seq<Sym>>)
    ensures Prepend(a + [x], r) == if r == None then None else Prepend(a, Some([x] + r.value))
  {
    if r != None {
      assert a + [x] + r.value == a + ([x] + r.value);
    }
  }

  lemma PrependNothing(r: Option<seq<Sym>>)
    ensures Prepend([], r) == r
  {
    if r != None {
      assert [] + r.value == r.value;
    }
  }

  /** _libelf_ar_process_svr4_symtab on the table tab of an archive of limit bytes. */
  method Process(tab: seq<byte>, limit: nat) returns (symtab: Option<seq<Sym>>)
    ensures symtab == Decode(tab, limit)
  {
    hide WordAt, StringEnd, NextString, HashAt;
    if |tab| < INTSZ {
      return None;
    }
    var nentries := GetWord(tab, 0);
    var p: nat := INTSZ;
    if nentries == 0 || p + nentries * INTSZ >= |tab| {
      return None;
    }
    var s: nat := p + nentries * INTSZ;
    var syms: seq<Sym> := [];
    PrependNothing(SymsFrom(tab, limit, nentries, 0, s));
    var n: nat := nentries;
    while n > 0
      invariant n <= nentries && s <= |tab| && p == INTSZ + (nentries - n) * INTSZ
      invariant Decode(tab, limit) == Prepend(syms, SymsFrom(tab, limit, nentries, nentries - n, s))
    {
      var i: nat := nentries - n;
      if s >= |tab| {
        return None;
      }
      EntryInside(nentries, i);
      var off := GetWord(tab, p);
      if off >= limit {
        return None;
      }
      var hash := ElfHash(tab, s);
      PrependMore(syms, SymAt(tab, i, s), SymsFrom(tab, limit, nentries, i + 1, NextString(tab, s)));
      syms := syms + [Sym(off, Some(tab[s..StringEnd(tab, s)]), hash)];
      p := p + INTSZ;
      s := SkipString(tab, s);
      n := n - 1;
    }
    symtab := Some(syms + [SENTINEL]);
  }

  // ---------- Names that do not end ----------

  /** How many zero bytes there are from s on. */
  function Zeros(tab: seq<byte>, s: nat): nat
    requires s <= |tab|
    decreases |tab| - s
  {
    if s == |tab| then 0 else (if tab[s] == 0 then 1 else 0) + Zeros(tab, s + 1)
  }

  lemma {:induction false} ZerosNext(tab: seq<byte>, s: nat)
    requires s <= |tab|
    ensures Zeros(tab, s) == if StringEnd(tab, s) < |tab| then 1 + Zeros(tab, NextString(tab, s)) else 0
    decreases |tab| - s
  {
    if s < |tab| && tab[s] != 0 {
      ZerosNext(tab, s + 1);
    }
  }

  lemma {:induction false} NamesEndFrom(tab: seq<byte>, limit: nat, n: nat, i: nat, s: nat)
    requires i <= n && INTSZ + n * INTSZ <= |tab| && s <= |tab| && SymsFrom(tab, limit, n, i, s) != None
    ensures (forall x <- SymsFrom(tab, limit, n, i, s).value :: x.hash != None) <==> Zeros(tab, s) >= n - i
    ensures Zeros(tab, s) >= n - i - 1
    decreases n - i
  {
    hide WordAt, StringEnd, Zeros, Hash;
    if i < n {
      EntryInside(n, i);
      ZerosNext(tab, s);
      var t := NextString(tab, s);
      NamesEndFrom(tab, limit, n, i + 1, t);
      FirstHash(SymAt(tab, i, s), SymsFrom(tab, limit, n, i + 1, t).value);
    }
  }

  lemma FirstHash(x: Sym, rest: seq<Sym>)
    ensures (forall y <- [x] + rest :: y.hash != None) <==> x.hash != None && forall y <- rest :: y.hash != None
  {
    assert ([x] + rest)[0] == x && forall k :: 0 <= k < |rest| ==> ([x] + rest)[k + 1] == rest[k];
  }

  // ---------- Which tables are accepted ----------

  /** What follows the string at s, in terms of the zero bytes before the last byte of the table. */
  lemma {:induction false} InnerZeros(tab: seq<byte>, s: nat)
    requires s < |tab|
    ensures var inner, t := tab[..|tab| - 1], NextString(tab, s);
            if t < |tab| then Zeros(inner, s) == 1 + Zeros(inner, t) else Zeros(inner, s) == 0
    decreases |tab| - s
  {
    var inner := tab[..|tab| - 1];
    if s < |inner| {
      assert inner[s] == tab[s];
      if tab[s] != 0 {
        InnerZeros(tab, s + 1);
      }
    }
  }

  lemma {:induction false} SymsExactly(tab: seq<byte>, limit: nat, n: nat, i: nat, s: nat)
    requires i <= n && INTSZ + n * INTSZ <= |tab| && s <= |tab| && |tab| > 0
    ensures SymsFrom(tab, limit, n, i, s) != None <==>
            && (forall j :: i <= j < n ==> OffsetAt(tab, j) < limit)
            && (i < n ==> s < |tab| && Zeros(tab[..|tab| - 1], s) >= n - i - 1)
    decreases n - i
  {
    hide StringEnd, NextString, Zeros, Hash, Get;
    if i < n {
      EntryInside(n, i);
      assert WordAt(tab, INTSZ + i * INTSZ) == OffsetAt(tab, i);
      if s < |tab| {
        InnerZeros(tab, s);
        SymsExactly(tab, limit, n, i + 1, NextString(tab, s));
      }
    }
  }

  lemma {:induction false} SymsAre(tab: seq<byte>, limit: nat, n: nat, i: nat, s: nat)
    requires i <= n && INTSZ + n * INTSZ <= |tab| && s <= |tab| && SymsFrom(tab, limit, n, i, s) != None
    ensures var syms := SymsFrom(tab, limit, n, i, s).value;
            && |syms| == n - i + 1 && syms[n - i] == SENTINEL
            && forall k :: 0 <= k < n - i ==> syms[k].name != None && syms[k].off == OffsetAt(tab, i + k)
    decreases n - i
  {
    hide StringEnd, NextString, Hash, Get;
    if i < n {
      EntryInside(n, i);
      assert WordAt(tab, INTSZ + i * INTSZ) == OffsetAt(tab, i);
      SymsAre(tab, limit, n, i + 1, NextString(tab, s));
      var rest, syms := SymsFrom(tab, limit, n, i + 1, NextString(tab, s)).value, SymsFrom(tab, limit, n, i, s).value;
      assert syms == [SymAt(tab, i, s)] + rest;
      forall k | 0 <= k < n - i ensures syms[k].name != None && syms[k].off == OffsetAt(tab, i + k) {
        assert k > 0 ==> syms[k] == rest[k - 1] && rest[k - 1].off == OffsetAt(tab, i + 1 + (k - 1));
      }
    }
  }

  /** The big-endian word of entry j. */
  function OffsetAt(tab: seq<byte>, j: nat): nat {
    if 4 * j + 8 <= |tab| then Get(Msb, tab[4 * j + 4..4 * j + 8]) else 0
  }

  /** A table is accepted exactly when it has its count, which is not 0, the words and at least one byte behind them,
      when all offsets lie within the archive, and when there is a name for every word: a zero byte between any two
      names, and something behind the last of these. */
  lemma DecodeExactly(tab: seq<byte>, limit: nat)
    ensures Decode(tab, limit) != None <==>
            && |tab| >= 4
            && var n := Get(Msb, tab[0..4]);
               && 0 < n && 4 + 4 * n < |tab| && (forall j :: 0 <= j < n ==> OffsetAt(tab, j) < limit)
               && Zeros(tab[..|tab| - 1], 4 + 4 * n) >= n - 1
    ensures Decode(tab, limit) != None ==>
      var n, syms := Get(Msb, tab[0..4]), Decode(tab, limit).value;
      && |syms| == n + 1 && syms[n].name == None && syms[n].off == 0 && syms[n].hash == Some(0xffff_ffff_ffff_ffff)
      && forall j :: 0 <= j < n ==> syms[j].name != None && syms[j].off == OffsetAt(tab, j)
  {
    hide SymsFrom, Zeros, Get;
    if |tab| >= 4 && 4 + 4 * Get(Msb, tab[0..4]) < |tab| {
      var n := Get(Msb, tab[0..4]);
      SymsExactly(tab, limit, n, 0, 4 + 4 * n);
      if n > 0 && SymsFrom(tab, limit, n, 0, 4 + 4 * n) != None {
        SymsAre(tab, limit, n, 0, 4 + 4 * n);
      }
    }
  }

  // ---------- The encoding ----------

  datatype Entry = Entry(off: nat, name: seq<byte>)

  function Offsets(es: seq<Entry>): (r: seq<byte>)
    ensures |r| == |es| * INTSZ
  {
    if |es| == 0 then [] else Put(Msb, INTSZ, es[0].off) + Offsets(es[1..])
  }

  function Names(es: seq<Entry>): seq<byte> {
    if |es| == 0 then [] else es[0].name + [0] + Names(es[1..])
  }

  /** The count, the offsets and the names, in this order. */
  function Encode(es: seq<Entry>): seq<byte> {
    Put(Msb, INTSZ, |es|) + Offsets(es) + Names(es)
  }

  function Symbols(es: seq<Entry>): seq<Sym> {
    if |es| == 0 then [SENTINEL] else [Sym(es[0].off, Some(es[0].name), Some(Hash(es[0].name)))] + Symbols(es[1..])
  }

  /** The offsets lie within the archive and fit into their fields, and names contain no NUL. */
  ghost predicate Encodable(es: seq<Entry>, limit: nat) {
    && |es| < Pow256(INTSZ)
    && forall i :: 0 <= i < |es| ==> es[i].off < limit && es[i].off < Pow256(INTSZ) && 0 !in es[i].name
  }

  lemma {:induction false} StringEndAt(tab: seq<byte>, s: nat, e: nat)
    requires s <= e < |tab| && tab[e] == 0 && forall k :: s <= k < e ==> tab[k] != 0
    ensures StringEnd(tab, s) == e
    decreases e - s
  {
    if s < e {
      StringEndAt(tab, s + 1, e);
    }
  }

  /** The name at s, when it is followed by its NUL. */
  lemma NameBack(tab: seq<byte>, s: nat, name: seq<byte>, rest: seq<byte>)
    requires s <= |tab| && tab[s..] == name + [0] + rest && 0 !in name
    ensures s < |tab| && StringEnd(tab, s) == s + |name| && tab[s..StringEnd(tab, s)] == name
    ensures NextString(tab, s) == s + |name| + 1 && tab[NextString(tab, s)..] == rest
  {
    var t := tab[s..];
    assert t[|name|] == 0 && tab[s + |name|] == t[|name|];
    forall k | s <= k < s + |name| ensures tab[k] != 0 {
      assert tab[k] == t[k - s] && t[k - s] == name[k - s];
    }
    StringEndAt(tab, s, s + |name|);
    assert t[..|name|] == name && tab[s..s + |name|] == t[..|name|];
    assert t[|name| + 1..] == rest && tab[s + |name| + 1..] == t[|name| + 1..];
  }

  /** The offset field of an entry. */
  lemma OffsetBack(tab: seq<byte>, p: nat, off: nat, rest: seq<byte>)
    requires p + INTSZ <= |tab| && tab[p..] == Put(Msb, INTSZ, off) + rest && off < Pow256(INTSZ)
    ensures WordAt(tab, p) == off && tab[p + INTSZ..] == rest
  {
    var t := tab[p..];
    assert t[..INTSZ] == Put(Msb, INTSZ, off) && tab[p..p + INTSZ] == t[..INTSZ];
    assert t[INTSZ..] == rest && tab[p + INTSZ..] == t[INTSZ..];
    GetPut(Msb, INTSZ, off);
    ModUnique(off, Pow256(INTSZ), 0, off);
  }

  /** The offset of the first of the entries es, whose offsets are at p. */
  lemma FirstOffset(tab: seq<byte>, p: nat, es: seq<Entry>, limit: nat)
    requires p <= |tab| && Encodable(es, limit) && es != [] && Offsets(es) <= tab[p..]
    ensures p + INTSZ <= |tab| && WordAt(tab, p) == es[0].off && Offsets(es[1..]) <= tab[p + INTSZ..]
  {
    var t, o := tab[p..], Offsets(es);
    assert o[..INTSZ] == Put(Msb, INTSZ, es[0].off) && o[INTSZ..] == Offsets(es[1..]);
    assert t[..INTSZ] == o[..INTSZ];
    assert t == Put(Msb, INTSZ, es[0].off) + t[INTSZ..];
    OffsetBack(tab, p, es[0].off, t[INTSZ..]);
    assert t[INTSZ..][..|o| - INTSZ] == t[..|o|][INTSZ..];
  }

  lemma RestEncodable(es: seq<Entry>, limit: nat)
    requires Encodable(es, limit) && es != []
    ensures Encodable(es[1..], limit) && es[0].off < limit && 0 !in es[0].name
  {
  }

  /** From entry i on, the decoder reads what was encoded. */
  lemma {:induction false} SymsBack(tab: seq<byte>, limit: nat, es: seq<Entry>, n: nat, i: nat, s: nat)
    requires i + |es| == n && INTSZ + n * INTSZ <= |tab| && s <= |tab| && Encodable(es, limit)
    requires tab[s..] == Names(es) && Offsets(es) <= tab[INTSZ + i * INTSZ..]
    ensures SymsFrom(tab, limit, n, i, s) == Some(Symbols(es))
    decreases |es|
  {
    hide Encodable, WordAt, Offsets, StringEnd, NextString, Hash;
    if |es| != 0 {
      EntryInside(n, i);
      RestEncodable(es, limit);
      NameBack(tab, s, es[0].name, Names(es[1..]));
      FirstOffset(tab, INTSZ + i * INTSZ, es, limit);
      SymsBack(tab, limit, es[1..], n, i + 1, NextString(tab, s));
    }
  }

  /** For every table of at least one symbol, decoding inverts the encoding: the symbols come back in order, followed
      by one sentinel. */
  lemma DecodeEncode(es: seq<Entry>, limit: nat)
    requires |es| > 0 && Encodable(es, limit)
    ensures Decode(Encode(es), limit) == Some(Symbols(es)) && |Symbols(es)| == |es| + 1
  {
    hide SymsFrom, Symbols, Get, Put;
    var tab := Encode(es);
    var rest := Offsets(es) + Names(es);
    assert tab == Put(Msb, INTSZ, |es|) + rest;
    assert tab[0..] == tab;
    OffsetBack(tab, 0, |es|, rest);
    assert |Names(es)| > 0;
    var s := INTSZ + |es| * INTSZ;
    assert tab[s..] == Names(es);
    assert tab[INTSZ..] == rest && Offsets(es) <= rest;
    SymsBack(tab, limit, es, |es|, 0, s);
    SymbolCount(es);
  }

  lemma SymbolCount(es: seq<Entry>)
    ensures |Symbols(es)| == |es| + 1
  {
  }

  /** The encoder's table of no symbols is refused. */
  lemma EmptyRefused(limit: nat)
    ensures Decode(Encode([]), limit) == None
  {
    assert Encode([]) == Put(Msb, INTSZ, 0);
  }

  /** elf_hash, and every reader of the names, stays within a table that was accepted exactly when there is a zero byte
      for every name. Of the last name none is required. */
  lemma NamesEnd(tab: seq<byte>, limit: nat)
    requires Decode(tab, limit) != None
    ensures |tab| > INTSZ && INTSZ + WordAt(tab, 0) * INTSZ <= |tab|
    ensures var n := WordAt(tab, 0);
            var zeros := Zeros(tab, INTSZ + n * INTSZ);
            && ((forall x <- Decode(tab, limit).value :: x.hash != None) <==> zeros >= n)
            && zeros >= n - 1
  {
    hide SymsFrom, Zeros, WordAt, Hash;
    NamesEndFrom(tab, limit, WordAt(tab, 0), 0, INTSZ + WordAt(tab, 0) * INTSZ);
  }

  /** A table of one symbol without the zero byte is accepted. */
  lemma OpenName(off: nat, a: byte, limit: nat)
    requires off < limit && off < Pow256(INTSZ) && a != 0
    ensures Decode(Put(Msb, INTSZ, 1) + Put(Msb, INTSZ, off) + [a], limit) ==
            Some([Sym(off, Some([a]), None), SENTINEL])
  {
    var tab, rest := Put(Msb, INTSZ, 1) + Put(Msb, INTSZ, off) + [a], Put(Msb, INTSZ, off) + [a];
    assert tab == Put(Msb, INTSZ, 1) + rest && tab[0..] == tab;
    assert Pow256(1) == 256 && Pow256(INTSZ) > 1;
    OffsetBack(tab, 0, 1, rest);
    OffsetBack(tab, INTSZ, off, [a]);
    var s := 2 * INTSZ;
    assert tab[s] == a && tab[s..s + 1] == [a];
    assert StringEnd(tab, s + 1) == s + 1 && StringEnd(tab, s) == s + 1;
    assert SymsFrom(tab, limit, 1, 1, s + 1) == Some([SENTINEL]);
    assert SymAt(tab, 0, s) == Sym(off, Some([a]), None);
    assert [SymAt(tab, 0, s)] + [SENTINEL] == [SymAt(tab, 0, s), SENTINEL];
  }
}
