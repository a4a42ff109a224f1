// What can be read through the pointers of a loaded collection.
module Readback {
  import opened Wrappers
  import opened Bytes
  import opened Bits
  import opened ByteReader
  import opened DatamapOrder
  import opened ReceiverSpec
  import opened Image
  import opened LoaderSpec

  datatype FlatField = FlatField(
    name: Name,
    ftype: nat,
    flags: nat,
    nElems: nat,
    external: Option<Name>,
    gameOffset: nat,
    chOffset: nat,
    totalSize: nat,
    ops: nat,
    embedded: Option<Name>)

  datatype FlatMap = FlatMap(name: Name, mod: Name, base: Option<Name>, fields: seq<FlatField>, chSize: nat)

  // Every datamap with the names of those it points to, and every linked name with that of
  // its datamap.
  datatype Loaded = Loaded(maps: seq<FlatMap>, links: seq<Link>)

  // ---------- following pointers ----------

  function WordAt(c: seq<Cell>, at: int): nat {
    if 0 <= at < |c| && c[at].Word? then c[at].x else 0
  }

  function SmallAt(c: seq<Cell>, at: int): (nat, nat, nat) {
    if 0 <= at < |c| && c[at].Small? then (c[at].ftype, c[at].flags, c[at].nElems) else (0, 0, 0)
  }

  // A C string.
  function CStr(c: seq<Cell>, at: int): Name
    decreases |c| - at
  {
    if 0 <= at < |c| && c[at].Char? && c[at].b != 0 then [c[at].b] + CStr(c, at + 1) else []
  }

  // The image is in memory at base.
  function NameBehind(c: seq<Cell>, base: nat, p: nat): Option<Name> {
    if p == 0 then None else Some(CStr(c, p - base))
  }

  function MapBehind(c: seq<Cell>, base: nat, p: nat): Option<Name> {
    if p == 0 then None else Some(CStr(c, WordAt(c, p - base) - base))
  }

  function ReadField(c: seq<Cell>, base: nat, at: int): FlatField {
    var small := SmallAt(c, at);
    FlatField(
      CStr(c, WordAt(c, at + 8) - base), small.0, small.1, small.2, NameBehind(c, base, WordAt(c, at + 8 + PTR)),
      WordAt(c, at + 8 + 2 * PTR), WordAt(c, at + 8 + 3 * PTR), WordAt(c, at + 8 + 4 * PTR),
      WordAt(c, at + 8 + 5 * PTR), MapBehind(c, base, WordAt(c, at + 8 + 6 * PTR)))
  }

  function ReadFields(c: seq<Cell>, base: nat, fields: nat, n: nat): (out: seq<FlatField>)
    ensures |out| == n && forall k :: 0 <= k < n ==> out[k] == ReadField(c, base, fields - base + TD_SIZE * k)
  {
    seq(n, k requires 0 <= k < n => ReadField(c, base, fields - base + TD_SIZE * k))
  }

  function ReadMap(c: seq<Cell>, base: nat, at: int): FlatMap {
    FlatMap(
      CStr(c, WordAt(c, at) - base), CStr(c, WordAt(c, at + 4 * PTR) - base), MapBehind(c, base, WordAt(c, at + PTR)),
      ReadFields(c, base, WordAt(c, at + 2 * PTR), WordAt(c, at + 3 * PTR)), WordAt(c, at + 5 * PTR))
  }

  function ReadLink(c: seq<Cell>, base: nat, at: int): Link {
    Link(CStr(c, WordAt(c, at) - base), CStr(c, WordAt(c, WordAt(c, at + PTR) - base) - base))
  }

  // What the header says: how many entries there are, and where.
  function ReadAll(c: seq<Cell>, base: nat): (l: Loaded)
    ensures var nDms, nLnks := WordAt(c, 8 + PTR), WordAt(c, 8 + 2 * PTR);
      |l.maps| == nDms && |l.links| == nLnks
    ensures var dms := WordAt(c, 8 + 3 * PTR) - base;
      forall i :: 0 <= i < |l.maps| ==> l.maps[i] == ReadMap(c, base, dms + DM_SIZE * i)
    ensures var lnks := WordAt(c, 8 + 6 * PTR) - base;
      forall k :: 0 <= k < |l.links| ==> l.links[k] == ReadLink(c, base, lnks + LNK_SIZE * k)
  {
    var nDms, nLnks := WordAt(c, 8 + PTR), WordAt(c, 8 + 2 * PTR);
    var dms, lnks := WordAt(c, 8 + 3 * PTR) - base, WordAt(c, 8 + 6 * PTR) - base;
    Loaded(seq(nDms, i requires 0 <= i < nDms => ReadMap(c, base, dms + DM_SIZE * i)),
           seq(nLnks, k requires 0 <= k < nLnks => ReadLink(c, base, lnks + LNK_SIZE * k)))
  }

  // ---------- the same in terms of the tables ----------

  // All references are to what is there.
  ghost predicate Exact(t: Tables) {
    && Sound(t)
    && (forall i :: 0 <= i < |t.dms| ==> ExactDm(t, i))
    && (forall k :: 0 <= k < |t.tds| ==> ExactTd(t, t.tds[k]))
    && (forall k :: 0 <= k < |t.lnks| ==> ExactLnk(t, t.lnks[k]))
  }

  ghost predicate ExactDm(t: Tables, i: nat)
    requires i < |t.dms|
  {
    var d := t.dms[i];
    && IsString(t, d.className) && IsString(t, d.moduleName) && (d.baseMap == NULL || d.baseMap < |t.dms|)
    && d.fields == (if d.nFields == 0 then NULL else FieldsBefore(t.dms, i))
  }

  ghost predicate ExactTd(t: Tables, d: Td) {
    IsString(t, d.name) && (d.external == NULL || IsString(t, d.external))
    && (d.embedded == NULL || d.embedded < |t.dms|)
  }

  ghost predicate ExactLnk(t: Tables, l: Lnk) {
    IsString(t, l.name) && l.dm < |t.dms|
  }

  // A string that ends starts there.
  ghost predicate IsString(t: Tables, x: nat) {
    x < |t.strs| && ZeroAt(t.strs[x..]) < |t.strs[x..]|
  }

  function StrOf(t: Tables, x: nat): Name {
    if x < |t.strs| then Cut(t.strs[x..]) else []
  }

  function OptOf(t: Tables, x: nat): Option<Name> {
    if x == NULL then None else Some(StrOf(t, x))
  }

  function MapNameOf(t: Tables, x: nat): Option<Name> {
    if x == NULL then None else if x < |t.dms| then Some(StrOf(t, t.dms[x].className)) else Some([])
  }

  function FieldOf(t: Tables, d: Td): FlatField {
    FlatField(StrOf(t, d.name), d.ftype, d.flags, d.nElems, OptOf(t, d.external), d.gameOffset, d.chOffset,
              d.totalSize, d.ops,
              MapNameOf(t, d.embedded))
  }

  function FieldsOf(t: Tables, first: nat, n: nat): (fields: seq<FlatField>)
    requires first + n <= |t.tds|
    ensures |fields| == n && forall k :: 0 <= k < n ==> fields[k] == FieldOf(t, t.tds[first + k])
  {
    seq(n, k requires 0 <= k < n => FieldOf(t, t.tds[first + k]))
  }

  function MapOf(t: Tables, i: nat): (m: FlatMap)
    requires i < |t.dms| && FieldsBefore(t.dms, |t.dms|) == |t.tds|
    ensures FieldsBefore(t.dms, i) + t.dms[i].nFields <= |t.tds| && |m.fields| == t.dms[i].nFields
    ensures forall k :: 0 <= k < |m.fields| ==> m.fields[k] == FieldOf(t, t.tds[FieldsBefore(t.dms, i) + k])
  {
    FieldsFit(t.dms, i);
    var d := t.dms[i];
    FlatMap(StrOf(t, d.className), StrOf(t, d.moduleName), MapNameOf(t, d.baseMap),
      FieldsOf(t, FieldsBefore(t.dms, i), d.nFields), d.chSize)
  }

  function LinkOf(t: Tables, l: Lnk): Link {
    Link(StrOf(t, l.name), if l.dm < |t.dms| then StrOf(t, t.dms[l.dm].className) else [])
  }

  function ContentsOf(t: Tables): (l: Loaded)
    requires FieldsBefore(t.dms, |t.dms|) == |t.tds|
    ensures |l.maps| == |t.dms| && forall i :: 0 <= i < |t.dms| ==> l.maps[i] == MapOf(t, i)
    ensures |l.links| == |t.lnks| && forall k :: 0 <= k < |t.lnks| ==> l.links[k] == LinkOf(t, t.lnks[k])
  {
    Loaded(seq(|t.dms|, i requires 0 <= i < |t.dms| => MapOf(t, i)),
           seq(|t.lnks|, k requires 0 <= k < |t.lnks| => LinkOf(t, t.lnks[k])))
  }

  // ---------- pointers lead where offsets did ----------

  lemma {:induction false} CStrIs(c: seq<Cell>, at: nat, s: seq<Byte>)
    requires at + |s| <= |c| && c[at..at + |s|] == Chars(s) && ZeroAt(s) < |s|
    ensures CStr(c, at) == Cut(s)
    decreases |s|
  {
    assert c[at] == Chars(s)[0];
    if s[0] != 0 {
      assert c[at + 1..at + 1 + |s[1..]|] == Chars(s[1..]) by {
        assert c[at..at + |s|][1..] == Chars(s)[1..];
        assert Chars(s)[1..] == Chars(s[1..]);
      }
      CStrIs(c, at + 1, s[1..]);
      assert Cut(s) == [s[0]] + Cut(s[1..]);
    }
  }

  lemma {:induction false} StringCells(t: Tables, x: nat)
    requires |t.magic| == 8 && x < |t.strs|
    ensures StrsOff(t) <= LnksOff(t) <= |Encode(t)| && Encode(t)[StrsOff(t) + x..LnksOff(t)] == Chars(t.strs[x..])
  {
    hide Encode, Chars;
    Sections(t);
    SliceOf(Encode(t), StrsOff(t), LnksOff(t), Chars(t.strs), x, |t.strs|);
    assert Chars(t.strs)[x..|t.strs|] == Chars(t.strs[x..]);
  }

  lemma {:induction false} StringBehind(t: Tables, base: nat, x: nat)
    requires |t.magic| == 8 && IsString(t, x) && x != NULL
    ensures CStr(Encode(Fixed(t, base)), Pointer(base, StrsOff(t), 1, x) - base) == StrOf(t, x)
  {
    hide Encode, Chars, CStr, Cut, ZeroAt;
    var f := Fixed(t, base);
    StringCells(f, x);
    CStrIs(Encode(f), StrsOff(t) + x, t.strs[x..]);
  }

  lemma {:induction false} NameIs(t: Tables, base: nat, x: nat)
    requires |t.magic| == 8 && (x == NULL || IsString(t, x)) && base > 0
    ensures NameBehind(Encode(Fixed(t, base)), base, Pointer(base, StrsOff(t), 1, x)) == OptOf(t, x)
  {
    hide Encode, CStr, Fixed, StrOf, IsString;
    if x != NULL {
      StringBehind(t, base, x);
    }
  }

  lemma {:induction false} MapIs(t: Tables, base: nat, x: nat)
    requires |t.magic| == 8 && Length(t) < NULL && base > 0
    requires x == NULL || (x < |t.dms| && IsString(t, t.dms[x].className))
    ensures MapBehind(Encode(Fixed(t, base)), base, Pointer(base, DMS, DM_SIZE, x)) == MapNameOf(t, x)
  {
    hide Encode, CStr, StrOf;
    if x != NULL {
      DmWord(Fixed(t, base), x, 0);
      StringBehind(t, base, t.dms[x].className);
    }
  }

  lemma {:induction false} FieldIs(t: Tables, base: nat, k: nat)
    requires Exact(t) && base > 0 && k < |t.tds|
    ensures ReadField(Encode(Fixed(t, base)), base, TdAddr(t, k)) == FieldOf(t, t.tds[k])
  {
    hide Encode, CStr, StrOf, OptOf, MapNameOf, NameBehind, MapBehind, Pointer, IsString;
    ExactParts(t);
    var d := t.tds[k];
    TdWordsAre(t, base, k);
    StringBehind(t, base, d.name);
    NameIs(t, base, d.external);
    MapIs(t, base, d.embedded);
  }

  // What is in a type description of a loaded image.
  lemma {:induction false} TdWordsAre(t: Tables, base: nat, k: nat)
    requires |t.magic| == 8 && k < |t.tds|
    ensures var c, at, d := Encode(Fixed(t, base)), TdAddr(t, k), t.tds[k];
      && SmallAt(c, at) == (d.ftype, d.flags, d.nElems) && WordAt(c, at + 8) == Pointer(base, StrsOff(t), 1, d.name)
      && WordAt(c, at + 8 + PTR) == Pointer(base, StrsOff(t), 1, d.external)
      && WordAt(c, at + 8 + 2 * PTR) == d.gameOffset && WordAt(c, at + 8 + 3 * PTR) == d.chOffset
      && WordAt(c, at + 8 + 4 * PTR) == d.totalSize && WordAt(c, at + 8 + 5 * PTR) == d.ops
      && WordAt(c, at + 8 + 6 * PTR) == Pointer(base, DMS, DM_SIZE, d.embedded)
  {
    hide Encode, Pointer;
    var f := Fixed(t, base);
    TdWord(f, k, 0);
    TdWord(f, k, 1);
    TdWord(f, k, 2);
    TdWord(f, k, 3);
    TdWord(f, k, 4);
    TdWord(f, k, 5);
    TdWord(f, k, 6);
  }

  lemma {:induction false} DmWordsAre(t: Tables, base: nat, i: nat)
    requires |t.magic| == 8 && i < |t.dms|
    ensures var c, at, d := Encode(Fixed(t, base)), DmAddr(i), t.dms[i];
      && WordAt(c, at) == Pointer(base, StrsOff(t), 1, d.className)
      && WordAt(c, at + PTR) == Pointer(base, DMS, DM_SIZE, d.baseMap)
      && WordAt(c, at + 2 * PTR) == Pointer(base, TdsOff(t), TD_SIZE, d.fields) && WordAt(c, at + 3 * PTR) == d.nFields
      && WordAt(c, at + 4 * PTR) == Pointer(base, StrsOff(t), 1, d.moduleName) && WordAt(c, at + 5 * PTR) == d.chSize
  {
    hide Encode, Pointer;
    var f := Fixed(t, base);
    DmWord(f, i, 0);
    DmWord(f, i, 1);
    DmWord(f, i, 2);
    DmWord(f, i, 3);
    DmWord(f, i, 4);
    DmWord(f, i, 5);
  }

  // What Exact says of the parts.
  lemma {:induction false} ExactParts(t: Tables)
    requires Exact(t)
    ensures |t.magic| == 8 && Length(t) < NULL && FieldsBefore(t.dms, |t.dms|) == |t.tds|
    ensures t.head == Head(t.head.version, |t.dms|, |t.lnks|, DMS, TdsOff(t), StrsOff(t), LnksOff(t))
    ensures forall i :: 0 <= i < |t.dms| ==> IsString(t, t.dms[i].className) && IsString(t, t.dms[i].moduleName)
    ensures forall i :: 0 <= i < |t.dms| ==> t.dms[i].className < NULL && t.dms[i].moduleName < NULL
    ensures forall k :: 0 <= k < |t.tds| ==> ExactTd(t, t.tds[k]) && t.tds[k].name < NULL
    ensures forall k :: 0 <= k < |t.lnks| ==> ExactLnk(t, t.lnks[k]) && t.lnks[k].name < NULL && t.lnks[k].dm < NULL
  {
    hide ZeroAt, Length, TdsOff, StrsOff, LnksOff, DMS;
    EntriesFit(t);
    forall i | 0 <= i < |t.dms|
      ensures IsString(t, t.dms[i].className) && IsString(t, t.dms[i].moduleName)
      ensures t.dms[i].className < NULL && t.dms[i].moduleName < NULL
    {
      assert ExactDm(t, i);
    }
  }

  lemma {:induction false} MapReads(t: Tables, base: nat, i: nat)
    requires Exact(t) && base > 0 && i < |t.dms|
    ensures ReadMap(Encode(Fixed(t, base)), base, DmAddr(i)) == MapOf(t, i)
  {
    hide Encode, CStr, StrOf, MapNameOf, MapBehind, IsString, ReadField, FieldOf, Exact, Fixed;
    ExactParts(t);
    ExactRefs(t, i);
    var c, d := Encode(Fixed(t, base)), t.dms[i];
    DmWordsAre(t, base, i);
    StringBehind(t, base, d.className);
    StringBehind(t, base, d.moduleName);
    MapIs(t, base, d.baseMap);
    FieldsBeforeGrows(t.dms, i + 1, |t.dms|);
    var fields := Pointer(base, TdsOff(t), TD_SIZE, d.fields);
    forall k | 0 <= k < d.nFields
      ensures ReadField(c, base, fields - base + TD_SIZE * k) == MapOf(t, i).fields[k]
    {
      MapField(t, base, i, k);
    }
    assert ReadFields(c, base, fields, d.nFields) == MapOf(t, i).fields;
  }

  lemma {:induction false} MapField(t: Tables, base: nat, i: nat, k: nat)
    requires Exact(t) && base > 0 && i < |t.dms| && k < t.dms[i].nFields && FieldsBefore(t.dms, |t.dms|) == |t.tds|
    ensures var fields := Pointer(base, TdsOff(t), TD_SIZE, t.dms[i].fields);
      ReadField(Encode(Fixed(t, base)), base, fields - base + TD_SIZE * k) == MapOf(t, i).fields[k]
  {
    hide Encode, StrOf, MapNameOf, ReadField, FieldOf, Exact, Fixed, TdsOff, TD_SIZE, TdAddr;
    ExactRefs(t, i);
    FieldsBeforeGrows(t.dms, i + 1, |t.dms|);
    var first := FieldsBefore(t.dms, i);
    TdAddrs(t, first, k);
    FieldIs(t, base, first + k);
  }

  lemma {:induction false} ExactRefs(t: Tables, i: nat)
    requires Exact(t) && i < |t.dms|
    ensures var d := t.dms[i];
      (d.baseMap == NULL || d.baseMap < |t.dms|) && (d.nFields > 0 ==> d.fields == FieldsBefore(t.dms, i))
    ensures FieldsBefore(t.dms, i) <= |t.tds| < NULL
  {
    hide Length, IsString, ExactTd, ExactLnk, DMS, TdsOff, StrsOff, LnksOff, NULL;
    assert ExactDm(t, i);
    EntriesFit(t);
    FieldsBeforeGrows(t.dms, i, |t.dms|);
  }

  lemma {:induction false} FixedLnkIs(t: Tables, base: nat, k: nat)
    requires k < |t.lnks|
    ensures var f := Fixed(t, base); k < |f.lnks| && f.lnks[k] == FixedLnk(t, base, t.lnks[k]) && f.magic == t.magic
    ensures LnkAddr(Fixed(t, base), k) == LnkAddr(t, k)
  {
  }

  lemma {:induction false} LinkReads(t: Tables, base: nat, k: nat)
    requires Exact(t) && base > 0 && k < |t.lnks|
    ensures ReadLink(Encode(Fixed(t, base)), base, LnkAddr(t, k)) == LinkOf(t, t.lnks[k])
  {
    hide Encode, CStr, StrOf, IsString, Exact, Fixed;
    ExactParts(t);
    FixedLnkIs(t, base, k);
    var l := t.lnks[k];
    LnkWord(Fixed(t, base), k, 0);
    LnkWord(Fixed(t, base), k, 1);
    StringBehind(t, base, l.name);
    DmWordsAre(t, base, l.dm);
    StringBehind(t, base, t.dms[l.dm].className);
  }

  lemma {:induction false} FixedHeadIs(t: Tables, base: nat)
    requires Exact(t)
    ensures var f := Fixed(t, base); |f.magic| == 8 && f.head == FixedHead(t, base) && Length(f) >= DMS
  {
    hide DMS, DM_SIZE, TD_SIZE, LNK_SIZE, NULL, Length, FixedDm, FixedTd, FixedLnk, ExactDm, ExactTd, ExactLnk;
    InOrderOf(Fixed(t, base));
  }

  lemma {:induction false} HeadWordsAre(h: Head)
    ensures |HeadWords(h)| == 7
    ensures HeadWords(h)[1] == h.nDms && HeadWords(h)[2] == h.nLnks && HeadWords(h)[3] == h.dms
    ensures HeadWords(h)[6] == h.lnks
  {
  }

  lemma {:induction false} HeadWordRead(t: Tables, f: nat)
    requires |t.magic| == 8 && f < 7
    ensures WordAt(Encode(t), 8 + PTR * f) == HeadWords(t.head)[f]
  {
    hide Encode, HeadWords, Length;
    HeadWord(t, f);
  }

  lemma {:induction false} HeadReads(t: Tables, base: nat)
    requires Exact(t)
    ensures var c := Encode(Fixed(t, base));
      && WordAt(c, 8 + PTR) == |t.dms| && WordAt(c, 8 + 2 * PTR) == |t.lnks| && WordAt(c, 8 + 3 * PTR) == base + DMS
      && WordAt(c, 8 + 6 * PTR) == base + LnksOff(t)
  {
    hide Encode, Exact, Fixed, Length, LnksOff, TdsOff, StrsOff, HeadWords, DMS, WordAt;
    ExactParts(t);
    FixedHeadIs(t, base);
    var f := Fixed(t, base);
    HeadWordRead(f, 1);
    HeadWordRead(f, 2);
    HeadWordRead(f, 3);
    HeadWordRead(f, 6);
    HeadWordsAre(f.head);
  }

  // Pointers of a loaded image lead to what the offsets of the file meant.
  lemma {:induction false} AllReads(t: Tables, base: nat)
    requires Exact(t) && base > 0
    ensures FieldsBefore(t.dms, |t.dms|) == |t.tds| && ReadAll(Encode(Fixed(t, base)), base) == ContentsOf(t)
  {
    hide Encode, ReadMap, ReadLink, MapOf, LinkOf, Exact, Fixed, WordAt, DM_SIZE, LNK_SIZE, Length, NULL, IsString,
      ExactTd, ExactLnk;
    ExactParts(t);
    HeadReads(t, base);
    var r := ReadAll(Encode(Fixed(t, base)), base);
    forall i | 0 <= i < |t.dms|
      ensures r.maps[i] == MapOf(t, i)
    {
      MapReads(t, base, i);
    }
    forall k | 0 <= k < |t.lnks|
      ensures r.links[k] == LinkOf(t, t.lnks[k])
    {
      LinkReads(t, base, k);
    }
    assert r.maps == ContentsOf(t).maps && r.links == ContentsOf(t).links;
  }
}
