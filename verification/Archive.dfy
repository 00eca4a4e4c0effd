/** ar(1) archives: number fields, special members, opening members and stepping through them (libelf_ar.c,
    libelf_ar_util.c, elf_next.c). */
module Archive {
  import opened Basics
  import opened Codec
  import opened Section

  // ---------- _libelf_ar_get_number ----------

  const BLANK: byte := 0x20
  const DIGIT0: byte := 0x30
  const SLASH: byte := 0x2f
  const NEWLINE: byte := 0x0a
  const BACKQUOTE: byte := 0x60

  function DigitsOf(f: seq<byte>, base: nat, r: nat): Option<nat> {
    if |f| == 0 || f[0] == BLANK then Some(r)
    else if f[0] < DIGIT0 || f[0] > DIGIT0 + 9 then None
    else if (f[0] - DIGIT0) as nat >= base then Some(r)
    else DigitsOf(f[1..], base, r * base + (f[0] - DIGIT0) as nat)
  }

  /** The number in a field of blanks, digits and blanks. */
  function Number(f: seq<byte>, base: nat): Option<nat> {
    if |f| != 0 && f[0] == BLANK then Number(f[1..], base) else DigitsOf(f, base, 0)
  }

  method GetNumber(src: seq<byte>, base: nat) returns (ret: Option<nat>)
    requires base <= 10
    ensures ret == Number(src, base)
  {
    var s := 0;
    while s < |src| && src[s] == BLANK
      invariant s <= |src| && Number(src, base) == Number(src[s..], base)
    {
      assert src[s..][1..] == src[s + 1..];
      s := s + 1;
    }
    var r: nat := 0;
    while s < |src|
      invariant s <= |src| && Number(src, base) == DigitsOf(src[s..], base, r)
    {
      var c := src[s];
      assert src[s..][1..] == src[s + 1..];
      if c == BLANK {
        break;
      }
      if c < DIGIT0 || c > DIGIT0 + 9 {
        return None;
      }
      var v := (c - DIGIT0) as nat;
      if v >= base {
        break;
      }
      r := r * base;
      r := r + v;
      s := s + 1;
    }
    ret := Some(r);
  }

  /** n in decimal digits. */
  function Decimal(n: nat): (r: seq<byte>)
    ensures |r| > 0
  {
    if n < 10 then [DIGIT0 + n as byte] else Decimal(n / 10) + [DIGIT0 + (n % 10) as byte]
  }

  lemma {:induction false} DigitsOfDecimal(n: nat, t: seq<byte>)
    requires t == [] || t[0] == BLANK || DIGIT0 <= t[0] <= DIGIT0 + 9
    ensures DigitsOf(Decimal(n) + t, 10, 0) == DigitsOf(t, 10, n)
    ensures DIGIT0 <= Decimal(n)[0] <= DIGIT0 + 9
    decreases n
  {
    if n < 10 {
      assert (Decimal(n) + t)[1..] == t;
    } else {
      var d := DIGIT0 + (n % 10) as byte;
      DigitsOfDecimal(n / 10, [d] + t);
      assert Decimal(n) + t == Decimal(n / 10) + ([d] + t);
      assert ([d] + t)[1..] == t;
    }
  }

  predicate AllBlank(t: seq<byte>) {
    forall i :: 0 <= i < |t| ==> t[i] == BLANK
  }

  /** A field that holds a number in decimal, padded with blanks on either side, is read as that number. */
  lemma NumberOfDecimal(n: nat, before: seq<byte>, after: seq<byte>)
    requires AllBlank(before) && AllBlank(after)
    ensures Number(before + Decimal(n) + after, 10) == Some(n)
    decreases |before|
  {
    if before == [] {
      DigitsOfDecimal(n, after);
      assert before + Decimal(n) + after == Decimal(n) + after;
    } else {
      NumberOfDecimal(n, before[1..], after);
      assert (before + Decimal(n) + after)[1..] == before[1..] + Decimal(n) + after;
    }
  }

  /** The digits ds as characters. */
  function Digits(ds: seq<nat>): (f: seq<byte>)
    requires forall d <- ds :: d < 10
    ensures |f| == |ds|
  {
    seq(|ds|, i requires 0 <= i < |ds| => assert ds[i] in ds; DIGIT0 + ds[i] as byte)
  }

  /** The number that has the digits ds to the given base. */
  function ValueOf(ds: seq<nat>, base: nat): nat {
    if |ds| == 0 then 0 else base * ValueOf(ds[..|ds| - 1], base) + ds[|ds| - 1]
  }

  /** A character that ends a number: a blank, or a digit that the base does not have. */
  predicate Ends(c: byte, base: nat) {
    c == 0x20 || (0x30 <= c <= 0x39 && (c - 0x30) as nat >= base)
  }

  lemma {:induction false} DigitsMeaning(done: seq<nat>, ds: seq<nat>, rest: seq<byte>, base: nat)
    requires base <= 10 && (forall d <- ds :: d < base)
    requires rest == [] || rest[0] < 0x30 || rest[0] > 0x39 || Ends(rest[0], base)
    ensures forall d <- ds :: d < 10
    ensures DigitsOf(Digits(ds) + rest, base, ValueOf(done, base)) ==
            if rest == [] || Ends(rest[0], base) then Some(ValueOf(done + ds, base)) else None
    decreases |ds|
  {
    if ds == [] {
      assert Digits(ds) + rest == rest && done + ds == done;
    } else {
      var f, d := Digits(ds) + rest, ds[0];
      assert d in ds && (forall x <- ds[1..] :: x in ds);
      DigitsMeaning(done + [d], ds[1..], rest, base);
      assert (done + [d])[..|done|] == done && done + [d] + ds[1..] == done + ds;
      assert f[0] == DIGIT0 + d as byte && f[1..] == Digits(ds[1..]) + rest;
    }
  }

  /** A field is read as the number that its digits stand for: blanks before it are skipped, a blank or a digit that the
      base does not have ends it, and any other character makes the reading fail. No digits are 0. */
  lemma {:induction false} NumberMeaning(before: seq<byte>, ds: seq<nat>, rest: seq<byte>, base: nat)
    requires base <= 10 && AllBlank(before) && (forall d <- ds :: d < base)
    requires rest == [] || rest[0] < 0x30 || rest[0] > 0x39 || Ends(rest[0], base)
    requires ds == [] && rest != [] ==> rest[0] != 0x20
    ensures forall d <- ds :: d < 10
    ensures Number(before + Digits(ds) + rest, base) ==
            if rest == [] || Ends(rest[0], base) then Some(ValueOf(ds, base)) else None
    decreases |before|
  {
    if before == [] {
      DigitsMeaning([], ds, rest, base);
      FirstDigit(ds, rest, base);
      assert [] + ds == ds && before + Digits(ds) + rest == Digits(ds) + rest;
    } else {
      NumberMeaning(before[1..], ds, rest, base);
      assert (before + Digits(ds) + rest)[1..] == before[1..] + Digits(ds) + rest;
    }
  }

  lemma FirstDigit(ds: seq<nat>, rest: seq<byte>, base: nat)
    requires base <= 10 && (forall d <- ds :: d < base) && (ds == [] && rest != [] ==> rest[0] != 0x20)
    ensures forall d <- ds :: d < 10
    ensures Number(Digits(ds) + rest, base) == DigitsOf(Digits(ds) + rest, base, 0)
  {
    hide DigitsOf;
    if ds == [] {
      assert Digits(ds) + rest == rest;
    } else {
      assert ds[0] in ds && (Digits(ds) + rest)[0] == DIGIT0 + ds[0] as byte;
    }
  }

  // ---------- Member headers ----------

  const ARMAG: seq<byte> := [0x21, 0x3c, 0x61, 0x72, 0x63, 0x68, 0x3e, 0x0a]
  const SARMAG: nat := 8
  const AR_HDR: nat := 60
  const BSD_SYMTAB_NAME: seq<byte> := [0x5f, 0x5f, 0x2e, 0x53, 0x59, 0x4d, 0x44, 0x45, 0x46]
  const BSD_NAME_PREFIX: seq<byte> := [0x23, 0x31, 0x2f]

  function Text(b: seq<byte>): string {
    seq(|b|, i requires 0 <= i < |b| => b[i] as char)
  }

  /** The signature of archives and the special names, as text. */
  lemma Signatures()
    ensures Text(ARMAG) == "!<arch>\n" && |ARMAG| == SARMAG
    ensures Text(BSD_SYMTAB_NAME) == "__.SYMDEF" && Text(BSD_NAME_PREFIX) == "#1/"
    ensures Text([SLASH, BLANK, BACKQUOTE, NEWLINE]) == "/ `\n" && DIGIT0 as char == '0'
  {
  }

  /** LIBELF_ADJUST_AR_SIZE. */
  function Even(n: nat): (r: nat)
    ensures r % 2 == 0 && n <= r <= n + 1
  {
    n + n % 2
  }

  /** READ_AR_HEADER: there is room for a header at s, with the format magic and a size. */
  predicate HeaderAt(raw: seq<byte>, s: nat) {
    s + AR_HDR <= |raw| && raw[s + 58] == BACKQUOTE && raw[s + 59] == NEWLINE && Number(raw[s + 48..s + 58], 10) != None
  }

  function SizeAt(raw: seq<byte>, s: nat): nat
    requires HeaderAt(raw, s)
  {
    Number(raw[s + 48..s + 58], 10).value
  }

  /** The position after the member at s. */
  function After(raw: seq<byte>, s: nat): nat
    requires HeaderAt(raw, s)
  {
    s + AR_HDR + Even(SizeAt(raw, s))
  }

  predicate StringTableAt(raw: seq<byte>, s: nat)
    requires HeaderAt(raw, s)
  {
    raw[s] == SLASH && raw[s + 1] == SLASH && raw[s + 2] == BLANK
  }

  /** _libelf_ar_open: the position of the first ordinary member, when the special members are in order. */
  function FirstMember(raw: seq<byte>): Option<nat> {
    var s := SARMAG;
    if !HeaderAt(raw, s) then None
    else if raw[s] == SLASH then
      if SizeAt(raw, s) == 0 then None
      else if raw[s + 1] == BLANK then
        var t := After(raw, s);
        if !HeaderAt(raw, t) then None else if StringTableAt(raw, t) then Some(After(raw, t)) else Some(t)
      else if StringTableAt(raw, s) then Some(After(raw, s))
      else Some(s)
    else if raw[s..s + 9] == BSD_SYMTAB_NAME then Some(After(raw, s))
    else Some(s)
  }

  /** A part of the archive. */
  datatype Span = Span(at: nat, size: nat)

  function SymbolTable(raw: seq<byte>): Option<Span> {
    var s := SARMAG;
    if HeaderAt(raw, s) && ((raw[s] == SLASH && raw[s + 1] == BLANK) || (raw[s] != SLASH &&
        raw[s..s + 9] == BSD_SYMTAB_NAME))
    then Some(Span(s + AR_HDR, SizeAt(raw, s)))
    else None
  }

  function StringTable(raw: seq<byte>): Option<Span> {
    var s := SARMAG;
    if !HeaderAt(raw, s) || raw[s] != SLASH then None
    else if raw[s + 1] == BLANK then
      var t := After(raw, s);
      if HeaderAt(raw, t) && StringTableAt(raw, t) then Some(Span(t + AR_HDR, SizeAt(raw, t))) else None
    else if StringTableAt(raw, s) then Some(Span(s + AR_HDR, SizeAt(raw, s)))
    else None
  }

  predicate InArchive(raw: seq<byte>, part: Option<Span>) {
    part == None || part.value.at + part.value.size <= |raw|
  }

  /** The tables that _libelf_ar_open records lie in the archive exactly when the last of them does. A symbol table in
      the SVR4 format always does, as a header is read behind it; nothing checks the size of the others. */
  lemma TablesInside(raw: seq<byte>)
    requires FirstMember(raw) != None
    ensures (InArchive(raw, SymbolTable(raw)) && InArchive(raw, StringTable(raw))) <==>
            InArchive(raw, if StringTable(raw) != None then StringTable(raw) else SymbolTable(raw))
    ensures raw[SARMAG] == SLASH ==> InArchive(raw, SymbolTable(raw))
    ensures FirstMember(raw).value <= |raw| ==> InArchive(raw, SymbolTable(raw)) && InArchive(raw, StringTable(raw))
  {
    hide Number;
  }

  /** An opened member: the position of its bytes in the archive, and e_rawsize. */
  datatype Member = Member(at: nat, size: int)

  /** What opening a member comes to: an error, an opened member, or a failed assertion or a read outside of the
      archive. */
  datatype Opening = Refused | Stuck | Opened(m: Member)

  predicate IsExtendedBsdName(raw: seq<byte>, s: nat)
    requires s + AR_HDR <= |raw|
  {
    raw[s..s + 3] == BSD_NAME_PREFIX
  }

  const ELFMAG: seq<byte> := [0x7f, 0x45, 0x4c, 0x46]

  /** The checks on the identification of an ELF object. */
  predicate IdentOk(img: seq<byte>)
    requires |img| > EI_VERSION
  {
    img[EI_VERSION] <= 1 && img[EI_DATA] in {1, 2} && img[EI_CLASS] in {1, 2}
  }

  /** elf_memory on the bytes of a member. */
  predicate Openable(img: seq<byte>) {
    && |img| > 0
    && if |img| > EI_NIDENT && ELFMAG <= img then IdentOk(img)
       else |img| >= SARMAG && ARMAG <= img ==> FirstMember(img) != None
  }

  /** elf_memory on a member whose size has wrapped around to a huge number. seen is what the archive holds from the
      member's address on; comparing it with a signature stops at the first difference, and an archive of negative
      size is refused by an assertion. */
  function OpenHuge(seen: seq<byte>, m: Member): Opening {
    if seen < ELFMAG then Stuck
    else if ELFMAG <= seen then
      if |seen| <= EI_VERSION then Stuck else if IdentOk(seen) then Opened(m) else Refused
    else if seen <= ARMAG || ARMAG <= seen then Stuck
    else Opened(m)
  }

  function OpenBytes(raw: seq<byte>, m: Member): Opening
    requires m.size > 0 ==> m.at + m.size <= |raw|
  {
    if m.size == 0 then Refused
    else if m.size > 0 then (if Openable(raw[m.at..m.at + m.size]) then Opened(m) else Refused)
    else OpenHuge(if m.at <= |raw| then raw[m.at..] else [], m)
  }

  /** The size of the name that follows the header at s. */
  function NameSize(raw: seq<byte>, s: nat): Option<nat>
    requires s + AR_HDR <= |raw|
  {
    if IsExtendedBsdName(raw, s) then Number(raw[s + 3..s + 16], 10) else Some(0)
  }

  /** The header at s has a size, and the archive is long enough for a member of that size. */
  predicate MemberFits(raw: seq<byte>, s: nat) {
    && s != 0 && s + AR_HDR <= |raw| && Number(raw[s + 48..s + 58], 10) != None
    && s + AR_HDR + Number(raw[s + 48..s + 58], 10).value <= |raw|
  }

  /** _libelf_ar_open_member on the header at s. */
  function MemberAt(raw: seq<byte>, s: nat): Opening {
    if !MemberFits(raw, s) || NameSize(raw, s) == None then Refused
    else
      var sz, nsz := Number(raw[s + 48..s + 58], 10).value, NameSize(raw, s).value;
      OpenBytes(raw, Member(s + AR_HDR + nsz, sz - nsz))
  }

  /** A member is opened at the place and with the size that its header gives, without the name that may follow the
      header, exactly when the header is there and has a size, the member ends within the archive, a name of the BSD
      format has a length, and elf_memory accepts the bytes. */
  lemma MemberExactly(raw: seq<byte>, s: nat)
    ensures s == 0 || s + 60 > |raw| ==> MemberAt(raw, s) == Refused
    ensures s != 0 && s + 60 <= |raw| ==>
      var size, bsd := Number(raw[s + 48..s + 58], 10), Text(raw[s..s + 3]) == "#1/";
      var nsz := if bsd then Number(raw[s + 3..s + 16], 10) else Some(0);
      if size == None || s + 60 + size.value > |raw| || nsz == None then MemberAt(raw, s) == Refused
      else if nsz.value <= size.value then
        var at, n := s + 60 + nsz.value, size.value - nsz.value;
        MemberAt(raw, s) == if n > 0 && Openable(raw[at..at + n]) then Opened(Member(at, n)) else Refused
      else
        MemberAt(raw, s).Opened? ==> MemberAt(raw, s).m == Member(s + 60 + nsz.value, size.value - nsz.value)
  {
    hide Number, Openable;
    if s + 60 <= |raw| {
      TextPrefix(raw[s..s + 3]);
    }
  }

  lemma TextPrefix(b: seq<byte>)
    requires |b| == 3
    ensures Text(b) == "#1/" <==> b == BSD_NAME_PREFIX
  {
    if Text(b) == "#1/" {
      assert Text(b)[0] == '#' && Text(b)[1] == '1' && Text(b)[2] == '/';
    }
  }

  /** elf_memory accepts the bytes exactly when there are some and they are no broken ELF identification and no broken
      archive. */
  lemma OpenableExactly(img: seq<byte>)
    ensures Openable(img) <==>
            && |img| > 0
            && (if |img| > 16 && img[0] == 0x7f && Text(img[1..4]) == "ELF"
                then img[6] in {0, 1} && img[5] in {1, 2} && img[4] in {1, 2}
                else |img| >= 8 && Text(img[..8]) == "!<arch>\n" ==> FirstMember(img) != None)
  {
    hide FirstMember;
    if |img| >= 8 {
      TextSignature(img[..8]);
      TextElf(img);
    }
  }

  lemma TextSignature(b: seq<byte>)
    requires |b| == 8
    ensures Text(b) == "!<arch>\n" <==> b == ARMAG
  {
    Signatures();
    if Text(b) == Text(ARMAG) {
      forall i | 0 <= i < 8 ensures b[i] == ARMAG[i] {
        assert Text(b)[i] == Text(ARMAG)[i];
      }
    }
  }

  lemma TextElf(img: seq<byte>)
    requires |img| >= 4
    ensures img[0] == 0x7f && Text(img[1..4]) == "ELF" <==> ELFMAG <= img
  {
    var t := Text(img[1..4]);
    if t == "ELF" {
      assert t[0] == 'E' && t[1] == 'L' && t[2] == 'F';
    }
    if ELFMAG <= img {
      assert img[0] == ELFMAG[0] && img[1] == ELFMAG[1] && img[2] == ELFMAG[2] && img[3] == ELFMAG[3];
      assert t == "ELF";
    }
  }

  /** There is room for a header at s, with the format magic and a size. */
  predicate HeaderThere(raw: seq<byte>, s: nat) {
    s + 60 <= |raw| && Text(raw[s + 58..s + 60]) == "`\n" && Number(raw[s + 48..s + 58], 10) != None
  }

  lemma HeaderMeaning(raw: seq<byte>, s: nat)
    ensures HeaderAt(raw, s) <==> HeaderThere(raw, s)
  {
    hide Number;
    if s + 60 <= |raw| {
      var t := Text(raw[s + 58..s + 60]);
      assert |t| == 2 && t[0] == raw[s + 58] as char && t[1] == raw[s + 59] as char;
    }
  }

  /** Opening an archive succeeds exactly when the first header is in order, and, if that is one of the SVR4 format,
      its member is not empty and, behind a symbol table, there is another header in order. */
  lemma OpenExactly(raw: seq<byte>)
    ensures FirstMember(raw) != None <==>
            && HeaderThere(raw, 8)
            && (raw[8] == 0x2f ==> Number(raw[56..66], 10) != Some(0))
            && (raw[8] == 0x2f && raw[9] == 0x20 ==>
                  var n := Number(raw[56..66], 10).value; HeaderThere(raw, 68 + n + n % 2))
  {
    hide Number, HeaderAt, HeaderThere;
    HeaderMeaning(raw, 8);
    if HeaderThere(raw, 8) {
      HeaderSize(raw);
      HeaderMeaning(raw, After(raw, 8));
    }
  }

  lemma HeaderSize(raw: seq<byte>)
    requires HeaderThere(raw, 8)
    ensures HeaderAt(raw, 8) && |raw| >= 68 && Number(raw[56..66], 10) == Some(SizeAt(raw, 8))
  {
    hide Number;
    HeaderMeaning(raw, 8);
  }

  /** The bytes of an opened member lie in the archive exactly when the name before them is not longer than the whole
      member. */
  lemma MemberInside(raw: seq<byte>, s: nat)
    requires MemberAt(raw, s).Opened?
    ensures MemberFits(raw, s) && NameSize(raw, s) != None
    ensures var m := MemberAt(raw, s).m;
            0 <= m.size && m.at + m.size <= |raw| <==> NameSize(raw, s).value <= Number(raw[s + 48..s + 58], 10).value
  {
  }

  /** Opening reads outside of the archive or fails an assertion exactly when the name is longer than the member that
      holds it, and what the archive has behind the name ends inside of a signature or is the signature of an archive.
      Nothing is there when the name goes past the end of the archive. Otherwise the member is opened, unless there is a
      broken ELF identification. */
  lemma StuckMember(raw: seq<byte>, s: nat)
    requires MemberFits(raw, s) && NameSize(raw, s) != None
    ensures var sz, nsz := Number(raw[s + 48..s + 58], 10).value, NameSize(raw, s).value;
            var seen := if s + AR_HDR + nsz <= |raw| then raw[s + AR_HDR + nsz..] else [];
            && (MemberAt(raw, s).Stuck? <==>
                && nsz > sz
                && (seen < ELFMAG || (ELFMAG <= seen && |seen| <= EI_VERSION) || seen <= ARMAG || ARMAG <= seen))
            && (nsz > sz && s + AR_HDR + nsz >= |raw| ==> MemberAt(raw, s).Stuck?)
            && (nsz > sz && !MemberAt(raw, s).Stuck? ==>
                  (MemberAt(raw, s).Refused? <==>
                   ELFMAG <= seen && !(seen[6] in {0, 1} && seen[5] in {1, 2} && seen[4] in {1, 2})))
  {
    assert [] < ELFMAG;
    assert ELFMAG[0] != ARMAG[0];
  }

  class Archive {
    const raw: seq<byte>
    var next: nat
    var symtab: Option<Span>
    var strtab: Option<Span>

    constructor (raw: seq<byte>)
      ensures this.raw == raw
    {
      this.raw, next, symtab, strtab := raw, 0, None, None;
    }

    method ReadHeader(s: nat) returns (sz: Option<nat>)
      ensures sz == if HeaderAt(raw, s) then Some(SizeAt(raw, s)) else None
    {
      if s + AR_HDR > |raw| || raw[s + 58] != BACKQUOTE || raw[s + 59] != NEWLINE {
        return None;
      }
      sz := GetNumber(raw[s + 48..s + 58], 10);
    }

    /** _libelf_ar_open. */
    method Open() returns (ok: bool)
      modifies this
      ensures ok <==> FirstMember(raw) != None
      ensures ok ==> next == FirstMember(raw).value && symtab == SymbolTable(raw) && strtab == StringTable(raw)
      ensures ok ==> next % 2 == 0 && next >= SARMAG
    {
      symtab, strtab := None, None;
      var s := SARMAG;
      var sz := ReadHeader(s);
      if sz == None {
        return false;
      }
      if raw[s] == SLASH {
        if sz.value == 0 {
          return false;
        }
        var scanahead := false;
        if raw[s + 1] == BLANK {
          scanahead := true;
          symtab := Some(Span(s + AR_HDR, sz.value));
          s := s + AR_HDR + Even(sz.value);
        } else if raw[s + 1] == SLASH && raw[s + 2] == BLANK {
          strtab := Some(Span(s + AR_HDR, sz.value));
          s := s + AR_HDR + Even(sz.value);
        }
        if scanahead {
          sz := ReadHeader(s);
          if sz == None {
            return false;
          }
          if raw[s] == SLASH && raw[s + 1] == SLASH && raw[s + 2] == BLANK {
            strtab := Some(Span(s + AR_HDR, sz.value));
            s := s + AR_HDR + Even(sz.value);
          }
        }
      } else if raw[s..s + 9] == BSD_SYMTAB_NAME {
        symtab := Some(Span(s + AR_HDR, sz.value));
        s := s + AR_HDR + Even(sz.value);
      }
      next := s;
      ok := true;
    }

    /** _libelf_ar_open_member. */
    method OpenMember() returns (r: Opening)
      ensures r == MemberAt(raw, next)
    {
      if next == 0 {
        return Refused;
      }
      var end := next + AR_HDR;
      if end > |raw| {
        return Refused;
      }
      var size := GetNumber(raw[next + 48..next + 58], 10);
      if size == None {
        return Refused;
      }
      var sz: int := size.value;
      end := end + sz;
      if end > |raw| {
        return Refused;
      }
      var member := next + AR_HDR;
      if IsExtendedBsdName(raw, next) {
        var nsz := GetNumber(raw[next + 3..next + 16], 10);
        if nsz == None {
          return Refused;
        }
        member := next + AR_HDR + nsz.value;
        sz := sz - nsz.value;
      }
      r := OpenBytes(raw, Member(member, sz));
    }

    /** elf_next on a member of this archive. */
    method Next(m: Member) returns (more: bool)
      requires m.at + m.size >= 0
      modifies this`next
      ensures next == if Even(m.at + m.size) >= |raw| then 0 else Even(m.at + m.size)
      ensures more <==> Even(m.at + m.size) <= |raw|
    {
      var n := Even(m.at + m.size);
      next := if n >= |raw| then 0 else n;
      more := n <= |raw|;
    }

    /** In every archive, opening the next member and stepping past it moves the cursor forward to another even position
        inside the archive, or to 0. */
    method Step() returns (r: Opening)
      requires next == 0 || (next % 2 == 0 && next >= SARMAG)
      modifies this`next
      ensures r == MemberAt(raw, old(next))
      ensures !r.Opened? ==> next == old(next)
      ensures r.Opened? ==>
        r.m.at + r.m.size >= 0 && next == if Even(r.m.at + r.m.size) >= |raw| then 0 else Even(r.m.at + r.m.size)
      ensures r.Opened? ==> next == 0 || (next % 2 == 0 && next >= old(next) + AR_HDR && next < |raw|)
    {
      r := OpenMember();
      if r.Opened? {
        var _ := Next(r.m);
      }
    }
  }

  // ---------- Well-formed archives ----------

  /** A member as it is put into an archive: its name field, the fields between name and size, a long name that
      follows the header (BSD), and its contents. */
  datatype Item = Item(name: seq<byte>, fields: seq<byte>, longname: seq<byte>, body: seq<byte>)

  function Blanks(n: nat): (r: seq<byte>)
    ensures |r| == n && AllBlank(r)
  {
    seq(n, i => BLANK)
  }

  /** n in decimal in a field of w bytes. */
  function Field(n: nat, w: nat): seq<byte> {
    if |Decimal(n)| <= w then Decimal(n) + Blanks(w - |Decimal(n)|) else Decimal(n)[..w]
  }

  /** The sizes fit into their fields, and only a member with a long name has a name field that announces one. */
  predicate ItemOk(x: Item) {
    && |x.name| == 16 && |x.fields| == 32
    && |Decimal(|x.longname| + |x.body|)| <= 10
    && (if x.name[..3] == BSD_NAME_PREFIX then Number(x.name[3..], 10) == Some(|x.longname|) else x.longname == [])
  }

  function Padding(n: nat): seq<byte> {
    if n % 2 == 0 then [] else [NEWLINE]
  }

  function Encode(x: Item): (r: seq<byte>)
    requires ItemOk(x)
    ensures |r| == AR_HDR + Even(|x.longname| + |x.body|)
  {
    x.name + x.fields + Field(|x.longname| + |x.body|, 10) + [BACKQUOTE, NEWLINE] + x.longname + x.body +
    Padding(|x.longname| + |x.body|)
  }

  function EncodeAll(xs: seq<Item>): seq<byte>
    requires forall i :: 0 <= i < |xs| ==> ItemOk(xs[i])
  {
    if |xs| == 0 then [] else Encode(xs[0]) + EncodeAll(xs[1..])
  }

  /** What the parts of an encoded member are. */
  lemma EncodedParts(x: Item)
    requires ItemOk(x)
    ensures var e, n := Encode(x), |x.longname| + |x.body|;
            && e[..16] == x.name && e[48..58] == Field(n, 10) && e[58] == BACKQUOTE && e[59] == NEWLINE
            && e[AR_HDR + |x.longname|..AR_HDR + n] == x.body && e[3..16] == x.name[3..] && e[..3] == x.name[..3]
  {
  }

  /** An encoded member somewhere in an archive is opened, and its contents are those that were put in. */
  lemma MemberBack(raw: seq<byte>, s: nat, x: Item)
    requires ItemOk(x) && s > 0 && s + |Encode(x)| <= |raw| && raw[s..s + |Encode(x)|] == Encode(x)
    ensures HeaderAt(raw, s) && SizeAt(raw, s) == |x.longname| + |x.body|
    ensures After(raw, s) == s + |Encode(x)|
    ensures raw[s..s + 16] == x.name
    ensures Openable(x.body) ==> MemberAt(raw, s) == Opened(Member(s + AR_HDR + |x.longname|, |x.body|))
    ensures raw[s + AR_HDR + |x.longname|..s + AR_HDR + |x.longname| + |x.body|] == x.body
  {
    hide IdentOk, FirstMember, Encode, Decimal, DigitsOf, Number;
    var e, n := Encode(x), |x.longname| + |x.body|;
    EncodedParts(x);
    NumberOfDecimal(n, [], Blanks(10 - |Decimal(n)|));
    assert [] + Decimal(n) == Decimal(n);
    SubSlice(raw, s, |e|, 48, 58);
    SubSlice(raw, s, |e|, 0, 16);
    SubSlice(raw, s, |e|, 0, 3);
    SubSlice(raw, s, |e|, 3, 16);
    SubSlice(raw, s, |e|, AR_HDR + |x.longname|, AR_HDR + n);
    assert raw[s + 58] == e[58] && raw[s + 59] == e[59];
  }

  ghost predicate AllItemsOk(xs: seq<Item>) {
    forall i :: 0 <= i < |xs| ==> ItemOk(xs[i])
  }

  /** The rest of the archive, from s on, is made up of these members. */
  ghost predicate RestIs(raw: seq<byte>, s: nat, xs: seq<Item>) {
    AllItemsOk(xs) && s <= |raw| && raw[s..] == EncodeAll(xs)
  }

  lemma RestStep(raw: seq<byte>, s: nat, xs: seq<Item>)
    requires RestIs(raw, s, xs) && xs != []
    ensures s + |Encode(xs[0])| <= |raw| && raw[s..s + |Encode(xs[0])|] == Encode(xs[0])
    ensures RestIs(raw, s + |Encode(xs[0])|, xs[1..])
    ensures xs[1..] == [] <==> s + |Encode(xs[0])| == |raw|
  {
    var e, t := Encode(xs[0]), EncodeAll(xs[1..]);
    assert raw[s..] == e + t;
    assert raw[s..][..|e|] == e && raw[s..][|e|..] == t;
    assert raw[s..][..|e|] == raw[s..s + |e|] && raw[s..][|e|..] == raw[s + |e|..];
  }

  function Bodies(xs: seq<Item>): seq<seq<byte>> {
    if |xs| == 0 then [] else [xs[0].body] + Bodies(xs[1..])
  }

  ghost predicate AllOpenable(xs: seq<Item>) {
    forall i :: 0 <= i < |xs| ==> Openable(xs[i].body)
  }

  /** The cursor is at the first of these members, or at 0 when there are none. */
  ghost predicate Later(raw: seq<byte>, next: nat, xs: seq<Item>) {
    if xs == [] then next == 0 else next >= SARMAG && next % 2 == 0 && RestIs(raw, next, xs)
  }

  lemma EncodedSize(x: Item)
    requires ItemOk(x)
    ensures |Encode(x)| == AR_HDR + Even(|x.longname| + |x.body|)
  {
  }

  /** One turn of the traversal: the first of the members ahead is opened, and the cursor moves to the second. */
  method TraverseNext(a: Archive, ghost xs: seq<Item>) returns (r: Opening)
    requires Later(a.raw, a.next, xs) && AllOpenable(xs)
    modifies a`next
    ensures if xs == [] then r == Refused && a.next == 0 else r.Opened? && Later(a.raw, a.next, xs[1..])
    ensures r.Opened? ==> 0 <= r.m.size && r.m.at + r.m.size <= |a.raw|
    ensures r.Opened? ==> a.raw[r.m.at..r.m.at + r.m.size] == xs[0].body
  {
    hide Openable, HeaderAt, SizeAt, Encode, EncodeAll, Number, ItemOk, OpenBytes;
    if xs != [] {
      RestStep(a.raw, a.next, xs);
      MemberBack(a.raw, a.next, xs[0]);
      EncodedSize(xs[0]);
    }
    r := a.Step();
  }

  /** The documented loop over an archive, elf_begin, elf_next and elf_end until there is no more, yields the contents
      of all ordinary members in order, without padding and long names, and leaves the cursor at 0. */
  method Traverse(a: Archive, ghost xs: seq<Item>) returns (contents: seq<seq<byte>>)
    requires Later(a.raw, a.next, xs) && AllOpenable(xs)
    modifies a`next
    ensures contents == Bodies(xs) && a.next == 0
  {
    hide Openable, HeaderAt, SizeAt, Encode, EncodeAll, Number, ItemOk, MemberAt, RestIs;
    ghost var rest := xs;
    contents := [];
    var r := TraverseNext(a, rest);
    while r.Opened?
      invariant r.Opened? <==> rest != []
      invariant !r.Opened? ==> a.next == 0
      invariant r.Opened? ==> 0 <= r.m.size && r.m.at + r.m.size <= |a.raw| && Later(a.raw, a.next, rest[1..])
      invariant r.Opened? ==> a.raw[r.m.at..r.m.at + r.m.size] == rest[0].body
      invariant contents + Bodies(rest) == Bodies(xs) && AllOpenable(rest)
      decreases |rest|
    {
      contents := contents + [a.raw[r.m.at..r.m.at + r.m.size]];
      rest := rest[1..];
      r := TraverseNext(a, rest);
    }
  }

  // ---------- Whole archives ----------

  predicate SymbolTableName(name: seq<byte>)
    requires |name| == 16
  {
    name[0] == SLASH && name[1] == BLANK
  }

  predicate StringTableName(name: seq<byte>)
    requires |name| == 16
  {
    name[0] == SLASH && name[1] == SLASH && name[2] == BLANK
  }

  /** The special members that an archive may begin with: none, an SVR4 symbol table, an SVR4 string table, both in this
      order, or a BSD symbol table. What follows must not be taken for one of them. */
  ghost predicate Specials(sp: seq<Item>, xs: seq<Item>)
    requires AllItemsOk(sp) && AllItemsOk(xs)
  {
    && xs != []
    && match |sp|
       case 0 => xs[0].name[0] != SLASH && xs[0].name[..9] != BSD_SYMTAB_NAME
       case 1 =>
         || (SymbolTableName(sp[0].name) && !StringTableName(xs[0].name) && |sp[0].body| > 0)
         || (StringTableName(sp[0].name) && |sp[0].body| > 0)
         || (sp[0].name[..9] == BSD_SYMTAB_NAME)
       case 2 => SymbolTableName(sp[0].name) && StringTableName(sp[1].name) && |sp[0].body| > 0
       case _ => false
  }

  /** The image of an archive with these special members and these ordinary ones. */
  function Image(sp: seq<Item>, xs: seq<Item>): seq<byte>
    requires forall i :: 0 <= i < |sp| ==> ItemOk(sp[i])
    requires forall i :: 0 <= i < |xs| ==> ItemOk(xs[i])
  {
    ARMAG + EncodeAll(sp) + EncodeAll(xs)
  }

  lemma {:induction false} EncodeConcat(a: seq<Item>, b: seq<Item>)
    requires AllItemsOk(a) && AllItemsOk(b)
    ensures AllItemsOk(a + b) && EncodeAll(a + b) == EncodeAll(a) + EncodeAll(b)
  {
    hide Encode, ItemOk;
    if a == [] {
      assert a + b == b;
    } else {
      assert (a + b)[1..] == a[1..] + b && (a + b)[0] == a[0];
      EncodeConcat(a[1..], b);
      Associative(Encode(a[0]), EncodeAll(a[1..]), EncodeAll(b));
    }
  }

  /** What _libelf_ar_open sees of the member x at s. */
  lemma Seen(raw: seq<byte>, s: nat, xs: seq<Item>)
    requires s > 0 && xs != [] && RestIs(raw, s, xs)
    ensures ItemOk(xs[0]) && HeaderAt(raw, s) && SizeAt(raw, s) == |xs[0].longname| + |xs[0].body|
    ensures s + |Encode(xs[0])| <= |raw| && After(raw, s) == s + |Encode(xs[0])| && RestIs(raw, After(raw, s), xs[1..])
    ensures raw[s] == xs[0].name[0] && raw[s + 1] == xs[0].name[1] && raw[s + 2] == xs[0].name[2]
    ensures raw[s..s + 9] == xs[0].name[..9]
  {
    hide Encode, Openable, Number, MemberAt;
    RestStep(raw, s, xs);
    MemberBack(raw, s, xs[0]);
    var n := raw[s..s + 16];
    assert n[0] == raw[s] && n[1] == raw[s + 1] && n[2] == raw[s + 2];
    SubSlice(raw, s, 16, 0, 9);
  }

  /** _libelf_ar_open passes over the special members, so that the first ordinary one is next. */
  lemma FirstOrdinary(raw: seq<byte>, sp: seq<Item>, xs: seq<Item>)
    requires AllItemsOk(sp) && AllItemsOk(xs) && Specials(sp, xs) && RestIs(raw, SARMAG, sp + xs)
    ensures FirstMember(raw) != None && RestIs(raw, FirstMember(raw).value, xs)
  {
    hide Encode, Number, SizeAt, HeaderAt, RestIs, ItemOk, After;
    var all := sp + xs;
    Seen(raw, SARMAG, all);
    var t := After(raw, SARMAG);
    if |sp| == 0 {
      assert all == xs;
    } else if |sp| == 1 {
      assert all[0] == sp[0] && all[1..] == xs;
      Seen(raw, t, xs);
    } else {
      assert all[0] == sp[0] && all[1..][0] == sp[1] && all[1..][1..] == xs;
      Seen(raw, t, all[1..]);
    }
  }

  lemma ImageRest(sp: seq<Item>, xs: seq<Item>)
    requires AllItemsOk(sp) && AllItemsOk(xs)
    ensures RestIs(Image(sp, xs), SARMAG, sp + xs)
  {
    hide Encode, ItemOk;
    EncodeConcat(sp, xs);
    assert Image(sp, xs)[SARMAG..] == EncodeAll(sp + xs);
  }

  /** For every well-formed archive, opening it leads to its first ordinary member. */
  lemma SpecialsSkipped(sp: seq<Item>, xs: seq<Item>)
    requires AllItemsOk(sp) && AllItemsOk(xs) && Specials(sp, xs)
    ensures FirstMember(Image(sp, xs)) != None && RestIs(Image(sp, xs), FirstMember(Image(sp, xs)).value, xs)
  {
    hide Encode, FirstMember, ItemOk, Specials, RestIs;
    ImageRest(sp, xs);
    FirstOrdinary(Image(sp, xs), sp, xs);
  }

  /** The member that is the symbol table, by its name "/ " or "__.SYMDEF". */
  function SymbolItem(sp: seq<Item>): Option<Item>
    requires forall i :: 0 <= i < |sp| ==> ItemOk(sp[i])
  {
    assert sp != [] ==> ItemOk(sp[0]);
    if sp != [] && (sp[0].name[..2] == [0x2f, 0x20] || Text(sp[0].name[..9]) == "__.SYMDEF") then Some(sp[0]) else None
  }

  /** The member that is the string table, by its name "// ". */
  function StringItem(sp: seq<Item>): Option<Item>
    requires forall i :: 0 <= i < |sp| ==> ItemOk(sp[i])
  {
    assert |sp| > 0 ==> ItemOk(sp[|sp| - 1]);
    if |sp| > 0 && sp[|sp| - 1].name[..3] == [0x2f, 0x2f, 0x20] then Some(sp[|sp| - 1]) else None
  }

  /** The part of the archive is what the member holds, or there is neither. */
  ghost predicate Records(raw: seq<byte>, part: Option<Span>, x: Option<Item>) {
    if x == None then part == None
    else
      && part != None && part.value.at + part.value.size <= |raw|
      && raw[part.value.at..part.value.at + part.value.size] == x.value.longname + x.value.body
  }

  /** All that follows the header of a member. */
  lemma ContentsBack(raw: seq<byte>, s: nat, x: Item)
    requires ItemOk(x) && s > 0 && s + |Encode(x)| <= |raw| && raw[s..s + |Encode(x)|] == Encode(x)
    ensures HeaderAt(raw, s)
    ensures Records(raw, Some(Span(s + AR_HDR, SizeAt(raw, s))), Some(x))
  {
    hide Encode, Number, HeaderAt, SizeAt, Openable, MemberAt;
    MemberBack(raw, s, x);
    var n := |x.longname| + |x.body|;
    EncodedContents(x);
    SubSlice(raw, s, |Encode(x)|, AR_HDR, AR_HDR + n);
  }

  lemma EncodedContents(x: Item)
    requires ItemOk(x)
    ensures Encode(x)[AR_HDR..AR_HDR + |x.longname| + |x.body|] == x.longname + x.body
  {
    hide Decimal;
    var h := x.name + x.fields + Field(|x.longname| + |x.body|, 10) + [BACKQUOTE, NEWLINE];
    assert |h| == AR_HDR;
    assert Encode(x) == h + (x.longname + x.body) + Padding(|x.longname| + |x.body|);
  }

  lemma TablesRecorded(raw: seq<byte>, sp: seq<Item>, xs: seq<Item>)
    requires AllItemsOk(sp) && AllItemsOk(xs) && Specials(sp, xs) && RestIs(raw, SARMAG, sp + xs)
    ensures Records(raw, SymbolTable(raw), SymbolItem(sp)) && Records(raw, StringTable(raw), StringItem(sp))
  {
    hide Encode, Number, SizeAt, HeaderAt, RestIs, ItemOk, After, Records, SymbolItem, StringItem, SymbolTable,
      StringTable;
    var all := sp + xs;
    Seen(raw, SARMAG, all);
    RestStep(raw, SARMAG, all);
    ContentsBack(raw, SARMAG, all[0]);
    var t := After(raw, SARMAG);
    if |sp| == 1 {
      assert all[0] == sp[0] && all[1..] == xs;
      Seen(raw, t, xs);
    } else if |sp| == 2 {
      assert all[0] == sp[0] && all[1..][0] == sp[1] && all[1..][1..] == xs;
      Seen(raw, t, all[1..]);
      RestStep(raw, t, all[1..]);
      ContentsBack(raw, t, sp[1]);
    }
    TablesAre(raw, sp, xs);
    NothingRecorded(raw);
  }

  /** Which members the tables are, by their names. */
  lemma TablesAre(raw: seq<byte>, sp: seq<Item>, xs: seq<Item>)
    requires AllItemsOk(sp) && AllItemsOk(xs) && Specials(sp, xs) && HeaderAt(raw, SARMAG)
    requires raw[SARMAG..SARMAG + 9] == (if sp == [] then xs[0] else sp[0]).name[..9]
    requires raw[SARMAG] == (if sp == [] then xs[0] else sp[0]).name[0]
    requires raw[SARMAG + 1] == (if sp == [] then xs[0] else sp[0]).name[1]
    requires raw[SARMAG + 2] == (if sp == [] then xs[0] else sp[0]).name[2]
    requires sp != [] && (|sp| == 2 || SymbolTableName(sp[0].name)) ==>
      var t, y := After(raw, SARMAG), if |sp| == 2 then sp[1] else xs[0];
      HeaderAt(raw, t) && raw[t] == y.name[0] && raw[t + 1] == y.name[1] && raw[t + 2] == y.name[2]
    ensures SymbolTable(raw) ==
            if SymbolItem(sp) == None then None else Some(Span(SARMAG + AR_HDR, SizeAt(raw, SARMAG)))
    ensures SymbolItem(sp) == None || (sp != [] && SymbolItem(sp) == Some(sp[0]))
    ensures StringTable(raw) ==
            if StringItem(sp) == None then None
            else if |sp| == 1 then Some(Span(SARMAG + AR_HDR, SizeAt(raw, SARMAG)))
            else Some(Span(After(raw, SARMAG) + AR_HDR, SizeAt(raw, After(raw, SARMAG))))
    ensures StringItem(sp) == None || (sp != [] && StringItem(sp) == Some(sp[|sp| - 1]))
    ensures |sp| <= 2
  {
    hide Number, HeaderAt, SizeAt, After, Encode;
    if sp != [] {
      NameText(sp[0]);
      NameText(sp[|sp| - 1]);
    }
  }

  lemma NothingRecorded(raw: seq<byte>)
    ensures Records(raw, None, None)
  {
  }

  lemma NameText(x: Item)
    requires ItemOk(x)
    ensures Text(x.name[..9]) == "__.SYMDEF" <==> x.name[..9] == BSD_SYMTAB_NAME
    ensures x.name[..2] == [0x2f, 0x20] <==> x.name[0] == SLASH && x.name[1] == BLANK
    ensures x.name[..3] == [0x2f, 0x2f, 0x20] <==> x.name[0] == SLASH && x.name[1] == SLASH && x.name[2] == BLANK
  {
    Signatures();
    var n := x.name[..9];
    if Text(n) == Text(BSD_SYMTAB_NAME) {
      forall i | 0 <= i < 9 ensures n[i] == BSD_SYMTAB_NAME[i] {
        assert Text(n)[i] == Text(BSD_SYMTAB_NAME)[i];
      }
    }
  }

  /** Opening a well-formed archive records the contents of its symbol table and of its string table, where it has
      them, and leads to its first ordinary member. */
  method OpenImage(raw: seq<byte>, ghost sp: seq<Item>, ghost xs: seq<Item>) returns (a: Archive)
    requires AllItemsOk(sp) && AllItemsOk(xs) && Specials(sp, xs) && raw == Image(sp, xs)
    ensures fresh(a) && a.raw == raw && RestIs(raw, a.next, xs) && a.next % 2 == 0 && a.next >= SARMAG
    ensures Records(raw, a.symtab, SymbolItem(sp)) && Records(raw, a.strtab, StringItem(sp))
  {
    hide FirstMember, SymbolTable, StringTable, EncodeAll, Encode, ItemOk, RestIs, Records, Specials, SymbolItem,
      StringItem;
    SpecialsSkipped(sp, xs);
    ImageRest(sp, xs);
    TablesRecorded(raw, sp, xs);
    a := new Archive(raw);
    var ok := a.Open();
  }

  /** Opening a well-formed archive and stepping through it yields exactly the contents of its ordinary members. */
  method ReadArchive(raw: seq<byte>, ghost sp: seq<Item>, ghost xs: seq<Item>) returns (contents: seq<seq<byte>>)
    requires AllItemsOk(sp) && AllItemsOk(xs) && Specials(sp, xs) && AllOpenable(xs) && raw == Image(sp, xs)
    ensures contents == Bodies(xs)
  {
    hide Image, EncodeAll, Encode, ItemOk, RestIs, Openable, Records;
    var a := OpenImage(raw, sp, xs);
    contents := Traverse(a, xs);
  }

  // ---------- A name that is too long ----------

  /** A header whose name field announces a name of five bytes, for a member of three. */
  function LongNameHeader(fields: seq<byte>): (h: seq<byte>)
    requires |fields| == 32
    ensures |h| == AR_HDR
  {
    BSD_NAME_PREFIX + [DIGIT0 + 5] + Blanks(12) + fields + [DIGIT0 + 3] + Blanks(9) + [BACKQUOTE, NEWLINE]
  }

  /** With nothing behind its three bytes, such a member is looked for past the end of the archive; with other bytes
      behind them it is opened with a negative size. The cursor moves on all the same. */
  lemma LongNameMember(before: seq<byte>, fields: seq<byte>, three: seq<byte>, rest: seq<byte>)
    requires |before| >= SARMAG && |fields| == 32 && |three| == 3
    ensures var raw := before + LongNameHeader(fields) + three + rest;
            MemberAt(raw, |before|) ==
              OpenHuge(rest[if |rest| < 2 then |rest| else 2..], Member(|before| + AR_HDR + 5, -2))
    ensures MemberAt(before + LongNameHeader(fields) + three, |before|) == Stuck
  {
    hide LongNameHeader, MemberFits, NameSize, Number;
    LongNameParts(before, fields, three, rest);
    LongNameParts(before, fields, three, []);
    assert before + LongNameHeader(fields) + three + [] == before + LongNameHeader(fields) + three;
    assert [] < ELFMAG;
  }

  lemma LongNameParts(before: seq<byte>, fields: seq<byte>, three: seq<byte>, rest: seq<byte>)
    requires |before| >= SARMAG && |fields| == 32 && |three| == 3
    ensures var raw, s := before + LongNameHeader(fields) + three + rest, |before|;
            && MemberFits(raw, s) && Number(raw[s + 48..s + 58], 10) == Some(3) && NameSize(raw, s) == Some(5)
            && (if s + AR_HDR + 5 <= |raw| then raw[s + AR_HDR + 5..] else []) ==
               rest[if |rest| < 2 then |rest| else 2..]
  {
    hide OpenHuge, Number, DigitsOf;
    var h, raw, s := LongNameHeader(fields), before + LongNameHeader(fields) + three + rest, |before|;
    assert raw[s..s + AR_HDR] == h;
    assert h[..3] == BSD_NAME_PREFIX && h[3..16] == [] + Decimal(5) + Blanks(12) &&
        h[48..58] == [] + Decimal(3) + Blanks(9);
    SubSlice(raw, s, AR_HDR, 0, 3);
    SubSlice(raw, s, AR_HDR, 3, 16);
    SubSlice(raw, s, AR_HDR, 48, 58);
    NumberOfDecimal(5, [], Blanks(12));
    NumberOfDecimal(3, [], Blanks(9));
    assert |raw| == s + AR_HDR + 3 + |rest|;
  }

  // ---------- A table that is cut off ----------

  function TableHeader(name: seq<byte>, fields: seq<byte>): (h: seq<byte>)
    requires |name| == 16 && |fields| == 32
    ensures |h| == AR_HDR
  {
    name + fields + [DIGIT0 + 3] + Blanks(9) + [BACKQUOTE, NEWLINE]
  }

  /** A string table, or a symbol table in the BSD format, of three bytes is recorded whether or not the archive has
      them. */
  lemma TruncatedTable(name: seq<byte>, fields: seq<byte>, rest: seq<byte>)
    requires |name| == 16 && |fields| == 32 && (name[..3] == [SLASH, SLASH, BLANK] || name[..9] == BSD_SYMTAB_NAME)
    ensures var raw := ARMAG + TableHeader(name, fields) + rest;
            && FirstMember(raw) != None
            && (if name[0] == SLASH then StringTable(raw) else SymbolTable(raw)) == Some(Span(SARMAG + AR_HDR, 3))
            && (InArchive(raw, StringTable(raw)) && InArchive(raw, SymbolTable(raw)) <==> |rest| >= 3)
  {
    hide Number, DigitsOf;
    var h, raw := TableHeader(name, fields), ARMAG + TableHeader(name, fields) + rest;
    assert raw[SARMAG..SARMAG + AR_HDR] == h;
    assert h[48..58] == [] + Decimal(3) + Blanks(9) by { assert Decimal(3) == [DIGIT0 + 3]; }
    SubSlice(raw, SARMAG, AR_HDR, 48, 58);
    SubSlice(raw, SARMAG, AR_HDR, 0, 9);
    NumberOfDecimal(3, [], Blanks(9));
    assert h[..9] == name[..9] && h[58] == BACKQUOTE && h[59] == NEWLINE;
    assert raw[SARMAG] == name[0] && raw[SARMAG + 1] == name[1] && raw[SARMAG + 2] == name[2];
    assert name[..3][0] == name[0] && name[..3][1] == name[1] && name[..3][2] == name[2];
    assert name[..9][0] == name[0];
  }
}
