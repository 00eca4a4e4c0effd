/** elf_strptr (elf_strptr.c) and its agreement with the layout of string tables by elf_update.c. */
module Strptr {
  import opened Basics
  import opened Codec
  import opened Section
  import opened Extended
  import opened ElfObject
  import opened Placement
  import opened Extents
  import opened Layout
  import opened Resync
  import opened Writer
  import opened Update
  import opened RoundTrip

  /** A pointer into the buffer of descriptor k. */
  datatype Place = Place(k: nat, i: nat)

  /** The search that elf_strptr makes when the library does the layout: from descriptor k on, count bytes into the
      section. */
  function Find(ds: seq<Desc>, k: nat, count: nat, offset: nat): Option<Place>
    requires k <= |ds|
    decreases |ds| - k
  {
    if k == |ds| || count > offset then None
    else if ds[k].buf == None || ds[k].size == 0 then Find(ds, k + 1, count, offset)
    else if ds[k].typ != ELF_T_BYTE || (ds[k].align > 1 && !IsPow2(ds[k].align)) then None
    else
      var at := if ds[k].align > 1 then RoundUp(count, ds[k].align) else count;
      if offset < at then None
      else if offset < at + ds[k].size then Some(Place(k, offset - at))
      else Find(ds, k + 1, at + ds[k].size, offset)
  }

  /** The search when the application does the layout. */
  function FindChosen(ds: seq<Desc>, offs: seq<nat>, k: nat, offset: nat): Option<Place>
    requires k <= |ds| == |offs|
    decreases |ds| - k
  {
    if k == |ds| then None
    else if ds[k].buf == None || ds[k].size == 0 then FindChosen(ds, offs, k + 1, offset)
    else if ds[k].typ != ELF_T_BYTE then None
    else if offs[k] <= offset < Add64(offs[k], ds[k].size) then Some(Place(k, offset - offs[k]))
    else FindChosen(ds, offs, k + 1, offset)
  }

  /** elf_strptr on a section that was found; a section whose data is still in the file is read in. */
  method StrPtr(v: Config, s: Scn, offset: nat) returns (r: Option<Place>)
    modifies s`data
    ensures s.shdr.typ != SHT_STRTAB || offset >= s.shdr.size ==> r == None && s.data == old(s.data)
    ensures old(s.data) != [] ==> s.data == old(s.data)
    ensures old(s.data) == [] && s.shdr.typ == SHT_STRTAB && offset < s.shdr.size ==>
      if v.m.write || FileData(v, s.shdr) == None then s.data == []
      else Descs(s.data) == [FileData(v, s.shdr).value] && Offs(s.data) == [0] && fresh(s.data[0])
    ensures s.shdr.typ == SHT_STRTAB && offset < s.shdr.size ==>
      r == if v.layout then FindChosen(Descs(s.data), Offs(s.data), 0, offset) else Find(Descs(s.data), 0, 0, offset)
  {
    if s.shdr.typ != SHT_STRTAB || offset >= s.shdr.size {
      return None;
    }
    if |s.data| == 0 && !v.m.write {
      var _ := GetData(v, s);
    }
    if v.layout {
      r := SearchChosen(s.data, offset);
    } else {
      r := SearchHoles(s.data, offset);
    }
  }

  method SearchChosen(data: seq<Data>, offset: nat) returns (r: Option<Place>)
    ensures r == FindChosen(Descs(data), Offs(data), 0, offset)
  {
    var k := 0;
    while k < |data|
      invariant k <= |data| && FindChosen(Descs(data), Offs(data), 0, offset) ==
          FindChosen(Descs(data), Offs(data), k, offset)
    {
      var d := data[k];
      if d.d.buf != None && d.d.size != 0 {
        if d.d.typ != ELF_T_BYTE {
          return None;
        }
        if offset >= d.off && offset < Add64(d.off, d.d.size) {
          return Some(Place(k, offset - d.off));
        }
      }
      k := k + 1;
    }
    r := None;
  }

  method SearchHoles(data: seq<Data>, offset: nat) returns (r: Option<Place>)
    ensures r == Find(Descs(data), 0, 0, offset)
  {
    var k: nat, count: nat := 0, 0;
    while k < |data| && count <= offset
      invariant k <= |data| && Find(Descs(data), 0, 0, offset) == Find(Descs(data), k, count, offset)
    {
      var d := data[k].d;
      if d.buf != None && d.size != 0 {
        if d.typ != ELF_T_BYTE {
          return None;
        }
        if d.align > 1 {
          if !IsPow2(d.align) {
            return None;
          }
          count := RoundUp(count, d.align);
        }
        if offset < count {
          return None;
        }
        if offset < count + d.size {
          return Some(Place(k, offset - count));
        }
        count := count + d.size;
      }
      k := k + 1;
    }
    r := None;
  }

  /** Descriptor k has a buffer and is not empty. */
  predicate Filled(ds: seq<Desc>, k: nat)
    requires k < |ds|
  {
    ds[k].buf != None && ds[k].size != 0
  }

  /** A string table: descriptors of bytes, of any sizes, also empty ones and ones that have no buffer. */
  ghost predicate Strings(v: Config, ds: seq<Desc>) {
    && ValidFormat(v.fmt) && AllOk(v, ds, |ds|)
    && forall i :: 0 <= i < |ds| ==> ds[i].typ == ELF_T_BYTE
  }

  lemma StringFacts(v: Config, ds: seq<Desc>, k: nat)
    requires Strings(v, ds) && k < |ds|
    ensures AllOk(v, ds, |ds|) && ds[k].typ == ELF_T_BYTE && IsPow2(ds[k].align)
    ensures FileSize(v, ds[k]) == ds[k].size
    ensures Off(v, ds, k) == RoundUp(Size(v, ds, k), ds[k].align) && Size(v, ds, k + 1) == Off(v, ds, k) + ds[k].size
    ensures Size(v, ds, k) <= Off(v, ds, k)
  {
    RoundUpFacts(Size(v, ds, k), ds[k].align);
  }

  /** The bytes that elf_strptr has counted before descriptor k: descriptors that are empty or have no buffer are not
      looked at. */
  function Seen(ds: seq<Desc>, k: nat): nat
    requires k <= |ds|
    decreases k, 0
  {
    if k == 0 then 0 else if !Filled(ds, k - 1) then Seen(ds, k - 1) else SeenAt(ds, k - 1) + ds[k - 1].size
  }

  /** Where elf_strptr takes descriptor k to be. */
  function SeenAt(ds: seq<Desc>, k: nat): nat
    requires k < |ds|
    decreases k, 1
  {
    if ds[k].align > 1 then RoundUp(Seen(ds, k), ds[k].align) else Seen(ds, k)
  }

  lemma SeenForward(ds: seq<Desc>, k: nat)
    requires k < |ds|
    ensures Seen(ds, k) <= SeenAt(ds, k)
    ensures Seen(ds, k + 1) == if !Filled(ds, k) then Seen(ds, k) else SeenAt(ds, k) + ds[k].size
  {
    if ds[k].align > 1 {
      RoundUpFacts(Seen(ds, k), ds[k].align);
    }
  }

  lemma {:induction false} SeenGrows(ds: seq<Desc>, j: nat, k: nat)
    requires j <= k <= |ds|
    ensures Seen(ds, j) <= Seen(ds, k)
    decreases k
  {
    if j < k {
      SeenGrows(ds, j, k - 1);
      SeenForward(ds, k - 1);
    }
  }

  /** elf_strptr goes on over descriptor k: it holds bytes, and its alignment is a power of two if it has one. */
  predicate Passable(ds: seq<Desc>, k: nat)
    requires k < |ds|
  {
    ds[k].typ == ELF_T_BYTE && (ds[k].align <= 1 || IsPow2(ds[k].align))
  }

  /** For all descriptors, the search finds exactly those that have a buffer and are not empty, each where elf_strptr
      takes it to be, up to the first of them that holds no bytes or has an alignment that is no power of two. */
  lemma {:induction false} FindMeaning(ds: seq<Desc>, k: nat, offset: nat, p: Place)
    requires k <= |ds|
    ensures Find(ds, k, Seen(ds, k), offset) == Some(p) <==>
            && k <= p.k < |ds| && Filled(ds, p.k) && SeenAt(ds, p.k) + p.i == offset && p.i < ds[p.k].size
            && forall j :: k <= j <= p.k && Filled(ds, j) ==> Passable(ds, j)
    decreases |ds| - k
  {
    hide RoundUp, Seen, SeenAt, IsPow2, Passable, Filled;
    if k <= p.k < |ds| {
      SeenForward(ds, p.k);
      SeenGrows(ds, k, p.k);
    }
    if k < |ds| {
      FindStep(ds, k, offset);
      SeenForward(ds, k);
      FindMeaning(ds, k + 1, offset, p);
      if k < p.k < |ds| {
        SeenGrows(ds, k + 1, p.k);
      }
    }
  }

  /** One step of the search, in terms of what it has counted. */
  lemma FindStep(ds: seq<Desc>, k: nat, offset: nat)
    requires k < |ds|
    ensures Find(ds, k, Seen(ds, k), offset) ==
            if Seen(ds, k) > offset then None
            else if !Filled(ds, k) then Find(ds, k + 1, Seen(ds, k + 1), offset)
            else if !Passable(ds, k) || offset < SeenAt(ds, k) then None
            else if offset < SeenAt(ds, k) + ds[k].size then Some(Place(k, offset - SeenAt(ds, k)))
            else Find(ds, k + 1, Seen(ds, k + 1), offset)
  {
    SeenForward(ds, k);
  }

  /** The layout puts the byte at offset of the section into descriptor p.k at position p.i. */
  ghost predicate LaidAt(v: Config, ds: seq<Desc>, offset: nat, p: Place)
    requires AllOk(v, ds, |ds|)
  {
    p.k < |ds| && Filled(ds, p.k) && Off(v, ds, p.k) + p.i == offset && p.i < ds[p.k].size
  }

  /** elf_strptr finds every byte where the layout puts it, and nothing in the holes. */
  ghost predicate Agrees(v: Config, ds: seq<Desc>)
    requires AllOk(v, ds, |ds|)
  {
    forall offset: nat, p: Place :: Find(ds, 0, 0, offset) == Some(p) <==> LaidAt(v, ds, offset, p)
  }

  /** The descriptors that have a buffer and are not empty, in order. */
  function Nonempty(ds: seq<Desc>): (r: seq<Desc>)
    ensures forall x <- r :: x in ds
  {
    if ds == [] then [] else Nonempty(ds[..|ds| - 1]) + if !Filled(ds, |ds| - 1) then [] else [ds[|ds| - 1]]
  }

  /** How many of the first k descriptors those are. */
  function Before(ds: seq<Desc>, k: nat): nat
    requires k <= |ds|
  {
    |Nonempty(ds[..k])|
  }

  lemma BeforeNext(ds: seq<Desc>, k: nat)
    requires k < |ds|
    ensures Nonempty(ds[..k + 1]) == Nonempty(ds[..k]) + if !Filled(ds, k) then [] else [ds[k]]
  {
    assert ds[..k + 1][..k] == ds[..k];
  }

  lemma {:induction false} NonemptyPrefix(ds: seq<Desc>, k: nat)
    requires k <= |ds|
    ensures Nonempty(ds[..k]) <= Nonempty(ds)
    decreases |ds| - k
  {
    hide Nonempty;
    if k == |ds| {
      assert ds[..k] == ds;
    } else {
      BeforeNext(ds, k);
      NonemptyPrefix(ds, k + 1);
    }
  }

  /** Descriptor k among those. */
  lemma NonemptyAt(ds: seq<Desc>, k: nat)
    requires k < |ds| && Filled(ds, k)
    ensures Before(ds, k) < |Nonempty(ds)| && Nonempty(ds)[Before(ds, k)] == ds[k]
    ensures Before(ds, k + 1) == Before(ds, k) + 1
  {
    hide Nonempty;
    BeforeNext(ds, k);
    NonemptyPrefix(ds, k + 1);
    assert Nonempty(ds[..k + 1])[Before(ds, k)] == ds[k];
  }

  lemma NonemptyOk(v: Config, ds: seq<Desc>)
    requires Strings(v, ds)
    ensures Strings(v, Nonempty(ds))
  {
    hide Nonempty, ValidFormat, DescOk, Backed;
    forall i | 0 <= i < |Nonempty(ds)| ensures Nonempty(ds)[i] in ds {
    }
  }

  /** elf_strptr lays those descriptors out as the layout would without the others. */
  lemma {:induction false} SeenIsSize(v: Config, ds: seq<Desc>, k: nat)
    requires Strings(v, ds) && k <= |ds|
    ensures Strings(v, Nonempty(ds)) && Before(ds, k) <= |Nonempty(ds)|
    ensures Size(v, Nonempty(ds), Before(ds, k)) == Seen(ds, k)
    decreases k, 0
  {
    hide Nonempty, Strings, IsPow2, Size, Off, Seen, SeenAt, RoundUp;
    NonemptyOk(v, ds);
    NonemptyPrefix(ds, k);
    if k == 0 {
      SeenNone(v, ds);
    } else {
      SeenForward(ds, k - 1);
      if !Filled(ds, k - 1) {
        SeenIsSize(v, ds, k - 1);
        BeforeNext(ds, k - 1);
      } else {
        SeenIsOff(v, ds, k - 1);
        StringFacts(v, Nonempty(ds), Before(ds, k - 1));
      }
    }
  }

  lemma SeenNone(v: Config, ds: seq<Desc>)
    ensures Before(ds, 0) == 0 == Seen(ds, 0) && Size(v, Nonempty(ds), 0) == 0
  {
  }

  lemma {:induction false} SeenIsOff(v: Config, ds: seq<Desc>, k: nat)
    requires Strings(v, ds) && k < |ds| && Filled(ds, k)
    ensures Strings(v, Nonempty(ds)) && Before(ds, k) < |Nonempty(ds)|
    ensures Off(v, Nonempty(ds), Before(ds, k)) == SeenAt(ds, k)
    ensures Nonempty(ds)[Before(ds, k)] == ds[k] && Before(ds, k + 1) == Before(ds, k) + 1
    decreases k, 1
  {
    hide Nonempty, Before, Strings, IsPow2, Size, Seen, RoundUp;
    NonemptyAt(ds, k);
    SeenIsSize(v, ds, k);
    StringFacts(v, Nonempty(ds), Before(ds, k));
    SeenUnaligned(v, ds, k);
    AtLeastOne(ds[k].align);
  }

  lemma AtLeastOne(a: nat)
    requires IsPow2(a)
    ensures a >= 1
  {
  }

  /** Descriptor k is where it would be if those that are empty or have no buffer were left out. */
  ghost predicate Unmoved(v: Config, ds: seq<Desc>, k: nat)
    requires Strings(v, ds) && k < |ds| && Filled(ds, k)
  {
    NonemptyAt(ds, k);
    NonemptyOk(v, ds);
    Off(v, Nonempty(ds), Before(ds, k)) == Off(v, ds, k)
  }

  /** elf_strptr computes the layout of a string table again. The two agree at every offset exactly when leaving out the
      descriptors that are empty or have no buffer does not move any of the others. */
  lemma StrptrAgrees(v: Config, ds: seq<Desc>)
    requires Strings(v, ds)
    ensures AllOk(v, ds, |ds|)
    ensures Agrees(v, ds) <==> forall k :: 0 <= k < |ds| && Filled(ds, k) ==> Unmoved(v, ds, k)
  {
    assert AllOk(v, ds, |ds|);
    hide Strings, Seen, SeenAt, Off, Find, Nonempty, Before;
    forall k | 0 <= k < |ds| && Filled(ds, k) ensures Unmoved(v, ds, k) <==> SeenAt(ds, k) == Off(v, ds, k) {
      SeenIsOff(v, ds, k);
    }
    SeenAgrees(v, ds);
  }

  /** The same, in terms of what elf_strptr counts. */
  lemma SeenAgrees(v: Config, ds: seq<Desc>)
    requires Strings(v, ds)
    ensures AllOk(v, ds, |ds|)
    ensures Agrees(v, ds) <==> forall k :: 0 <= k < |ds| && Filled(ds, k) ==> SeenAt(ds, k) == Off(v, ds, k)
  {
    assert AllOk(v, ds, |ds|);
    hide Strings, SeenAt, Off, Find;
    assert Seen(ds, 0) == 0;
    forall k | 0 <= k < |ds| ensures Passable(ds, k) {
      StringFacts(v, ds, k);
    }
    forall offset: nat, p: Place
      ensures Find(ds, 0, 0, offset) == Some(p) <==>
              p.k < |ds| && Filled(ds, p.k) && SeenAt(ds, p.k) + p.i == offset && p.i < ds[p.k].size
    {
      FindMeaning(ds, 0, offset, p);
    }
    if Agrees(v, ds) {
      forall k | 0 <= k < |ds| && Filled(ds, k) ensures SeenAt(ds, k) == Off(v, ds, k) {
        assert LaidAt(v, ds, Off(v, ds, k), Place(k, 0));
        assert Find(ds, 0, 0, Off(v, ds, k)) == Some(Place(k, 0));
      }
    }
  }

  lemma RoundUpTwice(x: nat, a: nat, b: nat)
    requires IsPow2(a) && IsPow2(b) && a <= b
    ensures RoundUp(RoundUp(x, a), b) == RoundUp(x, b)
  {
    Pow2Divides(a, b);
    RoundUpFacts(x, a);
    RoundUpFacts(x, b);
    RoundUpFacts(RoundUp(x, a), b);
    var r, t := RoundUp(x, b), RoundUp(x, a);
    Transitive(r, b, a);
    LeastMultiple(x, a, r);
    LeastMultiple(t, b, r);
    LeastMultiple(x, b, RoundUp(t, b));
  }

  /** RoundUp is the least multiple that is not smaller. */
  lemma LeastMultiple(x: nat, a: nat, m: nat)
    requires a > 0 && x <= m && m % a == 0
    ensures RoundUp(x, a) <= m
  {
    var k, r := x / a, x % a;
    assert x == a * k + r;
    if r != 0 {
      var j := m / a;
      assert m == a * j;
      NextMultiple(a, k, j);
    }
  }

  lemma NextMultiple(a: nat, k: int, j: int)
    requires a * k < a * j
    ensures a * k + a <= a * j
  {
    if j <= k {
      Product(a, k - j);
    } else {
      Product(a, j - k - 1);
    }
    assert a * (k - j) == a * k - a * j && a * (j - k - 1) == a * j - a * k - a;
  }

  lemma Product(a: nat, n: nat)
    ensures a * n >= 0
  {
  }

  /** A descriptor that elf_strptr does not look at is the last, or is empty and asks for no more alignment than the
      descriptor after it. */
  ghost predicate Harmless(ds: seq<Desc>) {
    forall k :: 0 <= k < |ds| - 1 && !Filled(ds, k) ==> ds[k].size == 0 && ds[k].align <= ds[k + 1].align
  }

  /** Then the two agree. In particular they do for tables in which every descriptor has a buffer that is not empty. */
  lemma HarmlessAgrees(v: Config, ds: seq<Desc>)
    requires Strings(v, ds) && Harmless(ds)
    ensures AllOk(v, ds, |ds|) && Agrees(v, ds)
  {
    SeenAgrees(v, ds);
    forall k | 0 <= k < |ds| && Filled(ds, k) ensures SeenAt(ds, k) == Off(v, ds, k) {
      HarmlessAt(v, ds, k);
    }
  }

  lemma {:induction false} HarmlessAt(v: Config, ds: seq<Desc>, k: nat)
    requires Strings(v, ds) && Harmless(ds) && k < |ds|
    ensures AllOk(v, ds, |ds|) && RoundUp(Seen(ds, k), ds[k].align) == Off(v, ds, k)
    ensures SeenAt(ds, k) == Off(v, ds, k)
    decreases k
  {
    hide Strings, IsPow2, FileSize, Size, Off, Seen, RoundUp;
    StringFacts(v, ds, k);
    SeenUnaligned(v, ds, k);
    if k > 0 {
      StringFacts(v, ds, k - 1);
      HarmlessAt(v, ds, k - 1);
      SeenForward(ds, k - 1);
      if !Filled(ds, k - 1) {
        RoundUpTwice(Seen(ds, k - 1), ds[k - 1].align, ds[k].align);
      }
    }
  }

  lemma SeenUnaligned(v: Config, ds: seq<Desc>, k: nat)
    requires k < |ds|
    ensures ds[k].align == 1 ==> RoundUp(Seen(ds, k), 1) == Seen(ds, k)
    ensures Seen(ds, 0) == 0 == Size(v, ds, 0)
  {
    ModUnique(Seen(ds, k), 1, Seen(ds, k), 0);
  }

  /** The byte that elf_strptr points to is the byte that the writer emits at that offset of the section. */
  lemma StrptrNamesWritten(o: Outlook, img: seq<byte>, c: byte, n: nat, offset: nat, p: Place)
    requires Prepared(o) && Holds(o, img, c) && n < |o.items| && HasBytes(o, n)
    requires Strings(o.v, o.items[n].p.ds) && Agrees(o.v, o.items[n].p.ds)
    requires Find(o.items[n].p.ds, 0, 0, offset) == Some(p)
    ensures p.k < |o.items[n].p.ds| && o.items[n].p.ds[p.k].buf != None
    ensures p.i < |o.items[n].p.ds[p.k].buf.value| && NewHeader(o, n).offset + offset < |img|
    ensures img[NewHeader(o, n).offset + offset] == o.items[n].p.ds[p.k].buf.value[p.i]
  {
    hide Prepared, Holds, ValidFormat, NewHeader;
    var ds := o.items[n].p.ds;
    assert LaidAt(o.v, ds, offset, p);
    PlanFacts(o, n);
    DescriptorBack(o, img, c, n, p.k);
    StringFacts(o.v, ds, p.k);
    BytesCopied(o.v, ds[p.k]);
    var at := NewHeader(o, n).offset + Off(o.v, ds, p.k);
    assert img[at..at + ds[p.k].size][p.i] == img[at + p.i];
  }

  /** The agreement fails for an empty descriptor that asks for more alignment than the next one: the layout applies it,
      elf_strptr does not, so a byte is looked for in the wrong place. */
  lemma EmptyDescriptorDisagrees(v: Config, a: byte)
    requires ValidFormat(v.fmt)
    ensures var ds := [Desc(ELF_T_BYTE, 1, 1, EV_CURRENT, Some([a])), Desc(ELF_T_BYTE, 0, 4, EV_CURRENT, Some([])),
                       Desc(ELF_T_BYTE, 1, 1, EV_CURRENT, Some([a]))];
            && Strings(v, ds) && AllOk(v, ds, |ds|) && !Agrees(v, ds)
            && Off(v, ds, 2) == 4 && Find(ds, 0, 0, 4) == None && Find(ds, 0, 0, 1) == Some(Place(2, 0))
  {
    var ds := [Desc(ELF_T_BYTE, 1, 1, EV_CURRENT, Some([a])), Desc(ELF_T_BYTE, 0, 4, EV_CURRENT, Some([])),
               Desc(ELF_T_BYTE, 1, 1, EV_CURRENT, Some([a]))];
    assert IsPow2(4) && IsPow2(2) && IsPow2(1);
    assert AllOk(v, ds, 3);
    assert FileSize(v, ds[0]) == 1 && FileSize(v, ds[1]) == 0;
    assert RoundUp(0, 1) == 0 && RoundUp(1, 4) == 4 && RoundUp(4, 1) == 4;
    hide DescOk, FileSize, RoundUp, IsPow2;
    assert Size(v, ds, 0) == 0 && Off(v, ds, 0) == 0;
    assert Size(v, ds, 1) == 1 && Off(v, ds, 1) == 4;
    assert Size(v, ds, 2) == 4;
    assert Find(ds, 2, 1, 4) == Find(ds, 3, 2, 4);
    assert Find(ds, 1, 1, 4) == Find(ds, 2, 1, 4);
    assert Find(ds, 1, 1, 1) == Find(ds, 2, 1, 1);
    SeenAgrees(v, ds);
    assert ds[2].size > 0 && Seen(ds, 1) == 1 && SeenAt(ds, 2) == 1;
  }

  /** It also fails without any empty descriptor, when one has no buffer: the layout leaves room for it, elf_strptr does
      not. */
  lemma NullBufferDisagrees(v: Config, a: byte)
    requires ValidFormat(v.fmt)
    ensures var ds := [Desc(ELF_T_BYTE, 1, 1, EV_CURRENT, None), Desc(ELF_T_BYTE, 1, 1, EV_CURRENT, Some([a]))];
            && Strings(v, ds) && AllOk(v, ds, |ds|) && !Agrees(v, ds)
            && Off(v, ds, 1) == 1 && Find(ds, 0, 0, 1) == None && Find(ds, 0, 0, 0) == Some(Place(1, 0))
  {
    var ds := [Desc(ELF_T_BYTE, 1, 1, EV_CURRENT, None), Desc(ELF_T_BYTE, 1, 1, EV_CURRENT, Some([a]))];
    assert IsPow2(1) && AllOk(v, ds, 2);
    assert FileSize(v, ds[0]) == 1 && Size(v, ds, 1) == 1;
    assert Find(ds, 1, 0, 1) == Find(ds, 2, 1, 1) == None;
    assert Find(ds, 0, 0, 1) == Find(ds, 1, 0, 1) && Find(ds, 0, 0, 0) == Find(ds, 1, 0, 0);
    SeenAgrees(v, ds);
    assert Filled(ds, 1) && Seen(ds, 1) == 0 && SeenAt(ds, 1) == 0;
  }

  // ---------- A string table of a file ----------

  /** A string table that is still in the file has its bytes pointed to as the file has them, exactly when it lies in
      the file and, unless the application does the layout, has an alignment that is a power of two. */
  lemma StrptrInFile(v: Config, h: Shdr, offset: nat)
    requires ValidFormat(v.fmt) && h.typ == SHT_STRTAB && offset < h.size < UINT64_LIMIT
    ensures FileData(v, h) != None <==> h.offset + h.size <= |v.raw|
    ensures FileData(v, h) != None ==>
      var d := FileData(v, h).value;
      && d.buf != None && offset < |d.buf.value| && d.buf.value[offset] == v.raw[h.offset + offset]
      && Find([d], 0, 0, offset) == (if h.addralign <= 1 || IsPow2(h.addralign) then Some(Place(0, offset)) else None)
      && FindChosen([d], [0], 0, offset) == Some(Place(0, offset))
  {
    if h.offset + h.size <= |v.raw| {
      BytesToMemory(v, v.raw[h.offset..h.offset + h.size]);
    }
  }

  // ---------- Application layout ----------

  /** By 64-bit arithmetic, descriptor k covers the offset. */
  predicate Covers(ds: seq<Desc>, offs: seq<nat>, k: nat, offset: nat)
    requires k < |ds| == |offs|
  {
    Filled(ds, k) && offs[k] <= offset < Add64(offs[k], ds[k].size)
  }

  /** When the application does the layout, elf_strptr finds the first descriptor that covers the offset, unless one
      that holds no bytes comes before it or is it. */
  lemma {:induction false} FindChosenMeaning(ds: seq<Desc>, offs: seq<nat>, k: nat, offset: nat, p: Place)
    requires k <= |ds| == |offs|
    ensures FindChosen(ds, offs, k, offset) == Some(p) <==>
            && k <= p.k < |ds| && Covers(ds, offs, p.k, offset) && p.i == offset - offs[p.k]
            && (forall j :: k <= j < p.k ==> !Covers(ds, offs, j, offset))
            && (forall j :: k <= j <= p.k && Filled(ds, j) ==> ds[j].typ == ELF_T_BYTE)
    decreases |ds| - k
  {
    if k < |ds| {
      FindChosenMeaning(ds, offs, k + 1, offset, p);
      if !Filled(ds, k) || (ds[k].typ == ELF_T_BYTE && !Covers(ds, offs, k, offset)) {
        assert FindChosen(ds, offs, k, offset) == FindChosen(ds, offs, k + 1, offset);
        assert p.k == k ==> !Covers(ds, offs, p.k, offset) || p.k >= |ds|;
      } else if ds[k].typ == ELF_T_BYTE {
        assert FindChosen(ds, offs, k, offset) == Some(Place(k, offset - offs[k]));
        assert p == Place(k, offset - offs[k]) <==> p.k == k && p.i == offset - offs[k];
      }
    }
  }
}
