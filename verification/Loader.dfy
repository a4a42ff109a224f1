// ch_verify_and_fixup_collection_pointers of chicago_compress_lib/src/ch_archive.c: checking an
// image in memory and turning its offsets into pointers, in place.
module LoaderSpec {
  import opened Bytes
  import opened Bits
  import opened Image
  import opened Packing

  datatype Result = OK | INVALID_COLLECTION | INVALID_COLLECTION_VERSION

  // ---------- images that the writer makes ----------

  // The type descriptions of the datamaps before the n-th.
  function FieldsBefore(dms: seq<Dm>, n: nat): nat
    requires n <= |dms|
    decreases n
  {
    if n == 0 then 0 else FieldsBefore(dms, n - 1) + dms[n - 1].nFields
  }

  lemma {:induction false} NoFieldsBefore(dms: seq<Dm>)
    ensures FieldsBefore(dms, 0) == 0
  {
  }

  // The sections are where the header says, and the type descriptions of a datamap follow
  // those of the datamaps before it. Nothing is asked of magic, version or references.
  ghost predicate Sound(t: Tables) {
    && |t.magic| == 8 && Length(t) < NULL
    && t.head == Head(t.head.version, |t.dms|, |t.lnks|, DMS, TdsOff(t), StrsOff(t), LnksOff(t))
    && FieldsBefore(t.dms, |t.dms|) == |t.tds|
    && (forall i :: 0 <= i < |t.dms| ==> t.dms[i].fields == NULL || t.dms[i].fields == FieldsBefore(t.dms, i))
  }

  lemma {:induction false} FieldsBeforeGrows(dms: seq<Dm>, n: nat, m: nat)
    requires n <= m <= |dms|
    ensures FieldsBefore(dms, n) <= FieldsBefore(dms, m)
    decreases m
  {
    if n < m {
      FieldsBeforeGrows(dms, n, m - 1);
    }
  }

  lemma {:induction false} FieldsFit(dms: seq<Dm>, i: nat)
    requires i < |dms|
    ensures FieldsBefore(dms, i) + dms[i].nFields == FieldsBefore(dms, i + 1) <= FieldsBefore(dms, |dms|)
  {
    FieldsBeforeGrows(dms, i + 1, |dms|);
  }

  // ---------- what becomes of an image ----------

  // A pointer to entry x, size bytes each, of the section at a place of the image.
  function Pointer(base: nat, at: nat, size: nat, x: nat): nat {
    if x == NULL then 0 else base + at + size * x
  }

  function FixedDm(t: Tables, base: nat, d: Dm): Dm {
    Dm(Pointer(base, StrsOff(t), 1, d.className), Pointer(base, DMS, DM_SIZE, d.baseMap),
       Pointer(base, TdsOff(t), TD_SIZE, d.fields),
       d.nFields, Pointer(base, StrsOff(t), 1, d.moduleName), d.chSize)
  }

  function FixedTd(t: Tables, base: nat, d: Td): Td {
    d.(name := Pointer(base, StrsOff(t), 1, d.name), external := Pointer(base, StrsOff(t), 1, d.external),
       embedded := Pointer(base, DMS, DM_SIZE, d.embedded))
  }

  function FixedLnk(t: Tables, base: nat, l: Lnk): Lnk {
    Lnk(Pointer(base, StrsOff(t), 1, l.name), Pointer(base, DMS, DM_SIZE, l.dm))
  }

  function FixedHead(t: Tables, base: nat): Head {
    t.head.(dms := base + DMS, tds := base + TdsOff(t), strs := base + StrsOff(t), lnks := base + LnksOff(t))
  }

  // The tables when the first n datamaps, k type descriptions and l linked names are fixed.
  function Partly(t: Tables, base: nat, n: nat, k: nat, l: nat): (t': Tables)
    requires n <= |t.dms| && k <= |t.tds| && l <= |t.lnks|
    ensures |t'.dms| == |t.dms| && |t'.tds| == |t.tds| && |t'.lnks| == |t.lnks| && |t'.strs| == |t.strs|
    ensures t'.magic == t.magic
    ensures forall i :: 0 <= i < |t.dms| ==> t'.dms[i] == if i < n then FixedDm(t, base, t.dms[i]) else t.dms[i]
    ensures forall i :: 0 <= i < |t.tds| ==> t'.tds[i] == if i < k then FixedTd(t, base, t.tds[i]) else t.tds[i]
    ensures forall i :: 0 <= i < |t.lnks| ==> t'.lnks[i] == if i < l then FixedLnk(t, base, t.lnks[i]) else t.lnks[i]
  {
    t.(
      head := FixedHead(t, base),
      dms := seq(|t.dms|, i requires 0 <= i < |t.dms| => if i < n then FixedDm(t, base, t.dms[i]) else t.dms[i]),
      tds := seq(|t.tds|, i requires 0 <= i < |t.tds| => if i < k then FixedTd(t, base, t.tds[i]) else t.tds[i]),
      lnks := seq(|t.lnks|, i requires 0 <= i < |t.lnks| => if i < l then FixedLnk(t, base, t.lnks[i]) else t.lnks[i]))
  }

  function Fixed(t: Tables, base: nat): Tables {
    Partly(t, base, |t.dms|, |t.tds|, |t.lnks|)
  }

  // ---------- what is checked ----------

  // CH_CHECK_PTR of the pointer to entry x
  predicate InRange(t: Tables, at: nat, size: nat, x: nat) {
    x == NULL || 0 < at + size * x < Length(t)
  }

  predicate RangesDm(t: Tables, d: Dm) {
    && InRange(t, DMS, DM_SIZE, d.baseMap) && InRange(t, StrsOff(t), 1, d.className)
    && InRange(t, StrsOff(t), 1, d.moduleName)
    && InRange(t, TdsOff(t), TD_SIZE, d.fields)
  }

  predicate GoodDm(t: Tables, d: Dm) {
    RangesDm(t, d) && (d.fields == NULL <==> d.nFields == 0)
  }

  predicate RangesTd(t: Tables, d: Td) {
    InRange(t, StrsOff(t), 1, d.name) && InRange(t, StrsOff(t), 1, d.external) && InRange(t, DMS, DM_SIZE, d.embedded)
  }

  // A type description of a class of the given size.
  predicate GoodTd(t: Tables, d: Td, chSize: nat) {
    RangesTd(t, d) && d.chOffset < chSize
  }

  predicate GoodLnk(t: Tables, l: Lnk) {
    InRange(t, StrsOff(t), 1, l.name) && InRange(t, DMS, DM_SIZE, l.dm)
  }

  ghost predicate GoodFields(t: Tables, i: nat)
    requires i < |t.dms| && FieldsBefore(t.dms, |t.dms|) == |t.tds|
  {
    FieldsBeforeGrows(t.dms, i + 1, |t.dms|);
    var k := FieldsBefore(t.dms, i);
    forall j :: k <= j < k + t.dms[i].nFields ==> GoodTd(t, t.tds[j], t.dms[i].chSize)
  }

  ghost predicate Good(t: Tables)
    requires FieldsBefore(t.dms, |t.dms|) == |t.tds|
  {
    && t.lnks != []
    && (forall i :: 0 <= i < |t.dms| ==> GoodDm(t, t.dms[i]) && GoodFields(t, i))
    && (forall k :: 0 <= k < |t.lnks| ==> GoodLnk(t, t.lnks[k]))
  }

  // What the loader answers to the image of the tables.
  ghost function Verdict(t: Tables): Result
    requires FieldsBefore(t.dms, |t.dms|) == |t.tds|
  {
    if t.magic != MAGIC then INVALID_COLLECTION
    else if t.head.version != VERSION || t.dms == [] then INVALID_COLLECTION_VERSION
    else if Good(t) then OK
    else INVALID_COLLECTION
  }

  // ---------- what an accepted image is ----------

  // A pointer that is null or into the image.
  predicate IntoImage(p: nat, base: nat, length: nat) {
    p == 0 || base < p < base + length
  }

  predicate SafeDm(d: Dm, base: nat, length: nat) {
    && IntoImage(d.className, base, length) && IntoImage(d.baseMap, base, length) && IntoImage(d.fields, base, length)
    && IntoImage(d.moduleName, base, length) && (d.fields == 0 <==> d.nFields == 0)
  }

  predicate SafeTd(d: Td, base: nat, length: nat) {
    IntoImage(d.name, base, length) && IntoImage(d.external, base, length) && IntoImage(d.embedded, base, length)
  }

  predicate SafeLnk(l: Lnk, base: nat, length: nat) {
    IntoImage(l.name, base, length) && IntoImage(l.dm, base, length)
  }

  // Every field of a datamap leads into the image and starts inside of its class.
  ghost predicate SafeFields(t: Tables, f: Tables, base: nat, i: nat)
    requires i < |t.dms| && FieldsBefore(t.dms, |t.dms|) == |t.tds| == |f.tds|
  {
    FieldsBeforeGrows(t.dms, i + 1, |t.dms|);
    var k := FieldsBefore(t.dms, i);
    forall j :: k <= j < k + t.dms[i].nFields ==>
      SafeTd(f.tds[j], base, Length(t)) && t.tds[j].chOffset < t.dms[i].chSize
  }

  lemma {:induction false} PointerSafe(t: Tables, base: nat, at: nat, size: nat, x: nat)
    requires base > 0
    ensures InRange(t, at, size, x) <==> IntoImage(Pointer(base, at, size, x), base, Length(t))
    ensures Pointer(base, at, size, x) == 0 <==> x == NULL
  {
  }

  // An image is accepted, wherever it is in memory, exactly if it says what it is, has datamaps
  // and linked names, and all its pointers are null or into the image when they are fixed.
  lemma {:induction false} AcceptedIfSafe(t: Tables, base: nat)
    requires FieldsBefore(t.dms, |t.dms|) == |t.tds| && base > 0
    ensures Verdict(t).OK? <==>
      var f := Fixed(t, base);
      && t.magic == [99, 104, 105, 99, 97, 103, 111, 0] && t.head.version == 5 && t.dms != [] && t.lnks != []
      && (forall i :: 0 <= i < |t.dms| ==> SafeDm(f.dms[i], base, Length(t)))
      && (forall i :: 0 <= i < |t.dms| ==> SafeFields(t, f, base, i))
      && (forall k :: 0 <= k < |t.lnks| ==> SafeLnk(f.lnks[k], base, Length(t)))
  {
    hide Length, TdsOff, StrsOff, LnksOff, DMS, DM_SIZE, TD_SIZE, GoodFields, SafeFields, GoodDm, GoodLnk;
    var f := Fixed(t, base);
    forall i | 0 <= i < |t.dms|
      ensures GoodDm(t, t.dms[i]) <==> SafeDm(f.dms[i], base, Length(t))
      ensures GoodFields(t, i) <==> SafeFields(t, f, base, i)
    {
      DmSafe(t, base, t.dms[i]);
      FieldsSafe(t, base, i);
    }
    forall k | 0 <= k < |t.lnks|
      ensures GoodLnk(t, t.lnks[k]) <==> SafeLnk(f.lnks[k], base, Length(t))
    {
      LnkSafe(t, base, t.lnks[k]);
    }
  }

  lemma {:induction false} DmSafe(t: Tables, base: nat, d: Dm)
    requires base > 0
    ensures GoodDm(t, d) <==> SafeDm(FixedDm(t, base, d), base, Length(t))
  {
    hide Length, TdsOff, StrsOff, DMS, DM_SIZE, TD_SIZE, InRange, Pointer, IntoImage, NULL;
    PointerSafe(t, base, StrsOff(t), 1, d.className);
    PointerSafe(t, base, DMS, DM_SIZE, d.baseMap);
    PointerSafe(t, base, StrsOff(t), 1, d.moduleName);
    PointerSafe(t, base, TdsOff(t), TD_SIZE, d.fields);
  }

  lemma {:induction false} TdSafe(t: Tables, base: nat, d: Td)
    requires base > 0
    ensures RangesTd(t, d) <==> SafeTd(FixedTd(t, base, d), base, Length(t))
  {
    hide Length, TdsOff, StrsOff, DMS, DM_SIZE, TD_SIZE, InRange, Pointer, IntoImage, NULL;
    PointerSafe(t, base, StrsOff(t), 1, d.name);
    PointerSafe(t, base, StrsOff(t), 1, d.external);
    PointerSafe(t, base, DMS, DM_SIZE, d.embedded);
  }

  lemma {:induction false} LnkSafe(t: Tables, base: nat, l: Lnk)
    requires base > 0
    ensures GoodLnk(t, l) <==> SafeLnk(FixedLnk(t, base, l), base, Length(t))
  {
    hide Length, TdsOff, StrsOff, DMS, DM_SIZE, TD_SIZE, InRange, Pointer, IntoImage, NULL;
    PointerSafe(t, base, StrsOff(t), 1, l.name);
    PointerSafe(t, base, DMS, DM_SIZE, l.dm);
  }

  lemma {:induction false} FieldsSafe(t: Tables, base: nat, i: nat)
    requires i < |t.dms| && FieldsBefore(t.dms, |t.dms|) == |t.tds| && base > 0
    ensures GoodFields(t, i) <==> SafeFields(t, Fixed(t, base), base, i)
  {
    hide Length, RangesTd, SafeTd, FixedTd;
    FieldsBeforeGrows(t.dms, i + 1, |t.dms|);
    var k := FieldsBefore(t.dms, i);
    forall j | k <= j < k + t.dms[i].nFields
      ensures RangesTd(t, t.tds[j]) <==> SafeTd(Fixed(t, base).tds[j], base, Length(t))
    {
      TdSafe(t, base, t.tds[j]);
    }
  }
}

module Loader {
  import opened Bytes
  import opened Bits
  import opened Image
  import opened Packing
  import opened LoaderSpec

  method ReadWord(bytes: array<Cell>, at: nat) returns (x: nat)
    requires at < bytes.Length && bytes[at].Word?
    ensures bytes[at] == Word(x)
  {
    x := bytes[at].x;
  }

  // CH_CHECK_PTR
  predicate CheckPtr(p: nat, base: nat, length: nat) {
    base < p < base + length
  }

  // CH_FIXUP_TYPED: the word is relative to a pointer to things of a size.
  method FixUp(bytes: array<Cell>, base: nat, at: nat, relTo: nat, size: nat) returns (ok: bool)
    requires at < bytes.Length && bytes[at].Word?
    modifies bytes
    ensures var x := old(bytes[at]).x; var p := if x == NULL then 0 else relTo + size * x;
      bytes[..] == old(bytes[..])[at := Word(p)] && (ok <==> x == NULL || CheckPtr(p, base, bytes.Length))
  {
    var x := bytes[at].x;
    if x == NULL {
      bytes[at] := Word(0);
      return true;
    }
    var p := relTo + size * x;
    bytes[at] := Word(p);
    ok := CheckPtr(p, base, bytes.Length);
  }

  // ---------- one word of a struct ----------

  function DmSet(d: Dm, f: nat, x: nat): (d': Dm)
    requires f < 6
    ensures DmWords(d') == DmWords(d)[f := x]
  {
    if f == 0 then d.(className := x) else if f == 1 then d.(baseMap := x) else if f == 2 then d.(fields := x)
    else if f == 3 then d.(nFields := x) else if f == 4 then d.(moduleName := x) else d.(chSize := x)
  }

  function TdSet(d: Td, f: nat, x: nat): (d': Td)
    requires f < 7
    ensures TdWords(d') == TdWords(d)[f := x] && d'.ftype == d.ftype && d'.flags == d.flags && d'.nElems == d.nElems
  {
    if f == 0 then d.(name := x) else if f == 1 then d.(external := x) else if f == 2 then d.(gameOffset := x)
    else if f == 3 then d.(chOffset := x) else if f == 4 then d.(totalSize := x)
    else if f == 5 then d.(ops := x) else d.(embedded := x)
  }

  function LnkSet(l: Lnk, f: nat, x: nat): (l': Lnk)
    requires f < 2
    ensures LnkWords(l') == LnkWords(l)[f := x]
  {
    if f == 0 then l.(name := x) else l.(dm := x)
  }

  function HeadSet(h: Head, f: nat, x: nat): (h': Head)
    requires f < 7
    ensures HeadWords(h') == HeadWords(h)[f := x]
  {
    if f == 0 then h.(version := x) else if f == 1 then h.(nDms := x) else if f == 2 then h.(nLnks := x)
    else if f == 3 then h.(dms := x) else if f == 4 then h.(tds := x)
    else if f == 5 then h.(strs := x) else h.(lnks := x)
  }

  // Tables with one row replaced.
  ghost function WithDm(p: Tables, i: nat, d: Dm): Tables
    requires i < |p.dms|
  {
    p.(dms := p.dms[i := d])
  }

  ghost function WithTd(p: Tables, k: nat, d: Td): Tables
    requires k < |p.tds|
  {
    p.(tds := p.tds[k := d])
  }

  ghost function WithLnk(p: Tables, k: nat, l: Lnk): Tables
    requires k < |p.lnks|
  {
    p.(lnks := p.lnks[k := l])
  }

  function Resolved(relTo: nat, size: nat, x: nat): nat {
    if x == NULL then 0 else relTo + size * x
  }

  method FixDmWord(bytes: array<Cell>, base: nat, at: nat, f: nat, relTo: nat, size: nat, ghost p: Tables, ghost i: nat,
        ghost d: Dm)
      returns (ok: bool)
    requires |p.magic| == 8 && i < |p.dms| && f < 6 && at == DmAddr(i) && bytes[..] == Encode(WithDm(p, i, d))
    modifies bytes
    ensures var x := DmWords(d)[f];
      bytes[..] == Encode(WithDm(p, i, DmSet(d, f, Resolved(relTo, size, x))))
    ensures var x := DmWords(d)[f];
      ok <==> x == NULL || CheckPtr(relTo + size * x, base, Length(p))
  {
    hide Encode, DmWords, DmSet;
    ghost var q := WithDm(p, i, d);
    ghost var d' := DmSet(d, f, Resolved(relTo, size, DmWords(d)[f]));
    DmWord(q, i, f);
    SetDm(q, i, d', f);
    assert q.dms[i := d'] == p.dms[i := d'];
    assert bytes[at + PTR * f] == bytes[..][at + PTR * f];
    ok := FixUp(bytes, base, at + PTR * f, relTo, size);
  }

  method FixTdWord(bytes: array<Cell>, base: nat, at: nat, f: nat, relTo: nat, size: nat, ghost p: Tables, ghost k: nat,
        ghost d: Td)
      returns (ok: bool)
    requires |p.magic| == 8 && k < |p.tds| && f < 7 && at == TdAddr(p, k) && bytes[..] == Encode(WithTd(p, k, d))
    modifies bytes
    ensures var x := TdWords(d)[f];
      bytes[..] == Encode(WithTd(p, k, TdSet(d, f, Resolved(relTo, size, x))))
    ensures var x := TdWords(d)[f];
      ok <==> x == NULL || CheckPtr(relTo + size * x, base, Length(p))
  {
    hide Encode, TdWords, TdSet;
    ghost var q := WithTd(p, k, d);
    ghost var d' := TdSet(d, f, Resolved(relTo, size, TdWords(d)[f]));
    TdWord(q, k, f);
    SetTd(q, k, d', f);
    assert q.tds[k := d'] == p.tds[k := d'];
    assert bytes[at + 8 + PTR * f] == bytes[..][at + 8 + PTR * f];
    ok := FixUp(bytes, base, at + 8 + PTR * f, relTo, size);
  }

  method FixLnkWord(bytes: array<Cell>, base: nat, at: nat, f: nat, relTo: nat, size: nat, ghost p: Tables,
        ghost k: nat, ghost l: Lnk)
      returns (ok: bool)
    requires |p.magic| == 8 && k < |p.lnks| && f < 2 && at == LnkAddr(p, k) && bytes[..] == Encode(WithLnk(p, k, l))
    modifies bytes
    ensures var x := LnkWords(l)[f];
      bytes[..] == Encode(WithLnk(p, k, LnkSet(l, f, Resolved(relTo, size, x))))
    ensures var x := LnkWords(l)[f];
      ok <==> x == NULL || CheckPtr(relTo + size * x, base, Length(p))
  {
    hide Encode, LnkWords, LnkSet;
    ghost var q := WithLnk(p, k, l);
    ghost var l' := LnkSet(l, f, Resolved(relTo, size, LnkWords(l)[f]));
    LnkWord(q, k, f);
    SetLnk(q, k, l', f);
    assert q.lnks[k := l'] == p.lnks[k := l'];
    assert bytes[at + PTR * f] == bytes[..][at + PTR * f];
    ok := FixUp(bytes, base, at + PTR * f, relTo, size);
  }

  method FixHeadWord(bytes: array<Cell>, base: nat, f: nat, ghost p: Tables)
    returns (ok: bool)
    requires |p.magic| == 8 && f < 7 && bytes[..] == Encode(p)
    modifies bytes
    ensures var x := HeadWords(p.head)[f];
      bytes[..] == Encode(p.(head := HeadSet(p.head, f, Resolved(base, 1, x))))
    ensures var x := HeadWords(p.head)[f];
      ok <==> x == NULL || CheckPtr(base + x, base, Length(p))
  {
    hide Encode, HeadWords, HeadSet;
    ghost var h := HeadSet(p.head, f, Resolved(base, 1, HeadWords(p.head)[f]));
    HeadWord(p, f);
    SetHead(p, h, f);
    assert bytes[8 + PTR * f] == bytes[..][8 + PTR * f];
    ok := FixUp(bytes, base, 8 + PTR * f, base, 1);
  }

  // ---------- structs ----------

  lemma {:induction false} NextDm(t: Tables, base: nat, i: nat, k: nat)
    requires i < |t.dms| && k <= |t.tds|
    ensures var p := Partly(t, base, i, k, 0);
      && WithDm(p, i, t.dms[i]) == p && WithDm(p, i, FixedDm(t, base, t.dms[i])) == Partly(t, base, i + 1, k, 0)
      && Length(p) == Length(t) && TdsOff(p) == TdsOff(t)
  {
    hide FixedDm, FixedTd, FixedHead;
  }

  lemma {:induction false} NextTd(t: Tables, base: nat, i: nat, k: nat)
    requires i <= |t.dms| && k < |t.tds|
    ensures var p := Partly(t, base, i, k, 0);
      && WithTd(p, k, t.tds[k]) == p && WithTd(p, k, FixedTd(t, base, t.tds[k])) == Partly(t, base, i, k + 1, 0)
      && Length(p) == Length(t) && TdsOff(p) == TdsOff(t)
  {
    hide FixedDm, FixedTd, FixedHead;
  }

  lemma {:induction false} NextLnk(t: Tables, base: nat, k: nat)
    requires k < |t.lnks|
    ensures var n, m := |t.dms|, |t.tds|; var p := Partly(t, base, n, m, k);
      && WithLnk(p, k, t.lnks[k]) == p && WithLnk(p, k, FixedLnk(t, base, t.lnks[k])) == Partly(t, base, n, m, k + 1)
      && Length(p) == Length(t) && LnksOff(p) == LnksOff(t)
  {
    hide FixedDm, FixedTd, FixedLnk, FixedHead;
  }

  // The pointers of one datamap, in the order of the source.
  method FixDm(bytes: array<Cell>, base: nat, i: nat, dms: nat, tds: nat, strs: nat, ghost t: Tables, ghost k: nat)
      returns (ok: bool)
    requires |t.magic| == 8 && i < |t.dms| && k <= |t.tds| && bytes[..] == Encode(Partly(t, base, i, k, 0))
    requires dms == base + DMS && tds == base + TdsOff(t) && strs == base + StrsOff(t)
    modifies bytes
    ensures ok <==> RangesDm(t, t.dms[i])
    ensures ok ==> bytes[..] == Encode(Partly(t, base, i + 1, k, 0))
  {
    hide Encode, WithDm, Partly, Length, StrsOff, TdsOff;
    ghost var p, d := Partly(t, base, i, k, 0), t.dms[i];
    NextDm(t, base, i, k);
    ok := FixDmWord(bytes, base, DmAddr(i), 1, dms, DM_SIZE, p, i, d);
    if ok {
      d := DmSet(d, 1, Resolved(dms, DM_SIZE, d.baseMap));
      ok := FixDmWord(bytes, base, DmAddr(i), 0, strs, 1, p, i, d);
    }
    if ok {
      d := DmSet(d, 0, Resolved(strs, 1, d.className));
      ok := FixDmWord(bytes, base, DmAddr(i), 4, strs, 1, p, i, d);
    }
    if ok {
      d := DmSet(d, 4, Resolved(strs, 1, d.moduleName));
      ok := FixDmWord(bytes, base, DmAddr(i), 2, tds, TD_SIZE, p, i, d);
    }
    assert ok ==> DmSet(d, 2, Resolved(tds, TD_SIZE, d.fields)) == FixedDm(t, base, t.dms[i]);
  }

  // The pointers of one type description.
  method FixTd(bytes: array<Cell>, base: nat, at: nat, dms: nat, strs: nat, ghost t: Tables, ghost i: nat,
        ghost k: nat)
      returns (ok: bool)
    requires |t.magic| == 8 && i <= |t.dms| && k < |t.tds| && at == TdAddr(t, k)
    requires bytes[..] == Encode(Partly(t, base, i, k, 0))
    requires dms == base + DMS && strs == base + StrsOff(t)
    modifies bytes
    ensures ok <==> RangesTd(t, t.tds[k])
    ensures ok ==> bytes[..] == Encode(Partly(t, base, i, k + 1, 0))
  {
    hide Encode, WithTd, Partly, Length, StrsOff, TdsOff;
    ghost var p, d := Partly(t, base, i, k, 0), t.tds[k];
    NextTd(t, base, i, k);
    ok := FixTdWord(bytes, base, at, 0, strs, 1, p, k, d);
    if ok {
      d := TdSet(d, 0, Resolved(strs, 1, d.name));
      ok := FixTdWord(bytes, base, at, 1, strs, 1, p, k, d);
    }
    if ok {
      d := TdSet(d, 1, Resolved(strs, 1, d.external));
      ok := FixTdWord(bytes, base, at, 6, dms, DM_SIZE, p, k, d);
    }
    assert ok ==> TdSet(d, 6, Resolved(dms, DM_SIZE, d.embedded)) == FixedTd(t, base, t.tds[k]);
  }

  method FixLnk(bytes: array<Cell>, base: nat, at: nat, dms: nat, strs: nat, ghost t: Tables, ghost k: nat)
      returns (ok: bool)
    requires |t.magic| == 8 && k < |t.lnks| && at == LnkAddr(t, k)
    requires bytes[..] == Encode(Partly(t, base, |t.dms|, |t.tds|, k))
    requires dms == base + DMS && strs == base + StrsOff(t)
    modifies bytes
    ensures ok <==> GoodLnk(t, t.lnks[k])
    ensures ok ==> bytes[..] == Encode(Partly(t, base, |t.dms|, |t.tds|, k + 1))
  {
    hide Encode, WithLnk, Partly, Length, StrsOff, LnksOff;
    ghost var p, l := Partly(t, base, |t.dms|, |t.tds|, k), t.lnks[k];
    NextLnk(t, base, k);
    ok := FixLnkWord(bytes, base, at, 0, strs, 1, p, k, l);
    if ok {
      l := LnkSet(l, 0, Resolved(strs, 1, l.name));
      ok := FixLnkWord(bytes, base, at, 1, dms, DM_SIZE, p, k, l);
    }
    assert ok ==> LnkSet(l, 1, Resolved(dms, DM_SIZE, l.dm)) == FixedLnk(t, base, t.lnks[k]);
  }

  // ---------- the sections ----------

  lemma {:induction false} HeadFixed(t: Tables, base: nat)
    requires Sound(t)
    ensures var h := HeadSet(t.head, 3, Resolved(base, 1, DMS));
      var h1 := HeadSet(h, 4, Resolved(base, 1, TdsOff(t)));
      var h2 := HeadSet(h1, 6, Resolved(base, 1, LnksOff(t)));
      HeadSet(h2, 5, Resolved(base, 1, StrsOff(t))) == FixedHead(t, base)
    ensures Partly(t, base, 0, 0, 0) == t.(head := FixedHead(t, base))
    ensures HeadWords(t.head)[3] == DMS && HeadWords(t.head)[4] == TdsOff(t) && HeadWords(t.head)[5] == StrsOff(t)
    ensures HeadWords(t.head)[6] == LnksOff(t)
    ensures HeadWords(t.head)[0] == t.head.version && HeadWords(t.head)[1] == |t.dms|
    ensures HeadWords(t.head)[2] == |t.lnks|
    ensures DMS <= TdsOff(t) <= StrsOff(t) <= LnksOff(t) <= Length(t) < NULL
  {
  }

  // The four pointers of the header, and the checks that both tables end inside.
  method FixHead(bytes: array<Cell>, base: nat, ghost t: Tables) returns (ok: bool)
    requires Sound(t) && t.dms != [] && bytes[..] == Encode(t)
    modifies bytes
    ensures ok <==> t.lnks != []
    ensures ok ==> bytes[..] == Encode(Partly(t, base, 0, 0, 0))
  {
    hide Encode, Sound, HeadWords, TdsOff, StrsOff, LnksOff, Length, FixedHead, Partly;
    HeadFixed(t, base);
    LengthOf(t);
    SoundMagic(t);
    LengthIs(t);
    ghost var p := t;
    ok := FixHeadWord(bytes, base, 3, p);
    p := p.(head := HeadSet(p.head, 3, Resolved(base, 1, DMS)));
    SameLength(t, p);
    if ok {
      ok := FixHeadWord(bytes, base, 4, p);
      p := p.(head := HeadSet(p.head, 4, Resolved(base, 1, TdsOff(t))));
      SameLength(t, p);
    }
    if ok {
      ok := FixHeadWord(bytes, base, 6, p);
      p := p.(head := HeadSet(p.head, 6, Resolved(base, 1, LnksOff(t))));
      SameLength(t, p);
    }
    if ok {
      ok := FixHeadWord(bytes, base, 5, p);
    }
    if ok {
      ok := CheckEnds(bytes, base, t);
    }
  }

  // CH_CHECK_PTR of the last byte of the datamaps and of the linked names. Where the sections
  // are those of the header, both are inside.
  method CheckEnds(bytes: array<Cell>, base: nat, ghost t: Tables) returns (ok: bool)
    requires |t.magic| == 8 && t.head.nDms == |t.dms| && t.head.nLnks == |t.lnks|
    requires bytes[..] == Encode(Partly(t, base, 0, 0, 0))
    ensures ok
  {
    hide Encode, Partly, HeadWords, StrsOff, LnksOff, Length;
    HeadCounts(t, base);
    EndsInImage(t);
    assert bytes[8 + PTR] == bytes[..][8 + PTR] && bytes[8 + 2 * PTR] == bytes[..][8 + 2 * PTR];
    assert bytes[8 + 3 * PTR] == bytes[..][8 + 3 * PTR];
    assert bytes[8 + 6 * PTR] == bytes[..][8 + 6 * PTR];
    var nDms := ReadWord(bytes, 8 + PTR);
    var nLnks := ReadWord(bytes, 8 + 2 * PTR);
    var dms := ReadWord(bytes, 8 + 3 * PTR);
    var lnks := ReadWord(bytes, 8 + 6 * PTR);
    ok := CheckPtr(dms + DM_SIZE * nDms - 1, base, bytes.Length)
      && CheckPtr(lnks + LNK_SIZE * nLnks - 1, base, bytes.Length);
  }

  lemma {:induction false} HeadCounts(t: Tables, base: nat)
    requires |t.magic| == 8 && t.head.nDms == |t.dms| && t.head.nLnks == |t.lnks|
    ensures var c := Encode(Partly(t, base, 0, 0, 0));
      && |c| == Length(t) && |c| > 8 + 6 * PTR
      && c[8 + PTR] == Word(|t.dms|) && c[8 + 2 * PTR] == Word(|t.lnks|) && c[8 + 3 * PTR] == Word(base + DMS)
      && c[8 + 6 * PTR] == Word(base + LnksOff(t))
  {
    hide Encode;
    var p := Partly(t, base, 0, 0, 0);
    HeadWord(p, 1);
    HeadWord(p, 2);
    HeadWord(p, 3);
    HeadWord(p, 6);
  }

  lemma {:induction false} EndsInImage(t: Tables)
    ensures 0 < DMS + DM_SIZE * |t.dms| - 1 < Length(t) && 0 < LnksOff(t) + LNK_SIZE * |t.lnks| - 1 < Length(t)
  {
  }

  lemma {:induction false} SameLength(t: Tables, p: Tables)
    requires p == t.(head := p.head)
    ensures Length(p) == Length(t)
  {
  }

  lemma {:induction false} LengthOf(t: Tables)
    ensures Length(t) == LnksOff(t) + LNK_SIZE * |t.lnks| && LnksOff(t) == StrsOff(t) + |t.strs|
    ensures StrsOff(t) == TdsOff(t) + TD_SIZE * |t.tds| && TdsOff(t) == DMS + DM_SIZE * |t.dms|
  {
  }

  lemma {:induction false} LengthIs(t: Tables)
    requires |t.magic| == 8
    ensures |Encode(t)| == Length(t)
  {
    Sections(t);
  }

  // The type descriptions of one datamap.
  method FixFields(bytes: array<Cell>, base: nat, fields: nat, nFields: nat, chSize: nat, dms: nat, strs: nat,
        ghost t: Tables, ghost i: nat)
      returns (ok: bool)
    requires |t.magic| == 8 && i < |t.dms| && FieldsBefore(t.dms, |t.dms|) == |t.tds|
    requires nFields == t.dms[i].nFields && chSize == t.dms[i].chSize
    requires nFields > 0 ==> fields == base + TdsOff(t) + TD_SIZE * FieldsBefore(t.dms, i)
    requires FieldsBefore(t.dms, i) <= |t.tds| && bytes[..] == Encode(Partly(t, base, i + 1, FieldsBefore(t.dms, i), 0))
    requires dms == base + DMS && strs == base + StrsOff(t)
    modifies bytes
    ensures ok <==> GoodFields(t, i)
    ensures ok ==> FieldsBefore(t.dms, i + 1) <= |t.tds|
    ensures ok ==> bytes[..] == Encode(Partly(t, base, i + 1, FieldsBefore(t.dms, i + 1), 0))
  {
    hide Encode, Partly, RangesTd, Length, StrsOff, TdsOff, TdAddr, TD_SIZE;
    FieldsBeforeGrows(t.dms, i + 1, |t.dms|);
    ghost var first := FieldsBefore(t.dms, i);
    for j := 0 to nFields
      invariant first + nFields <= |t.tds| && bytes[..] == Encode(Partly(t, base, i + 1, first + j, 0))
      invariant forall k :: first <= k < first + j ==> GoodTd(t, t.tds[k], chSize)
    {
      TdAddrs(t, first, j);
      var at := fields - base + TD_SIZE * j;
      ghost var k := first + j;
      ok := FixTd(bytes, base, at, dms, strs, t, i + 1, k);
      if !ok {
        return;
      }
      var chOffset := ReadOffset(bytes, at, base, t, i, k);
      if chOffset >= chSize {
        return false;
      }
    }
    ok := true;
  }

  method ReadOffset(bytes: array<Cell>, at: nat, ghost base: nat, ghost t: Tables, ghost i: nat, ghost k: nat)
      returns (x: nat)
    requires |t.magic| == 8 && i < |t.dms| && k < |t.tds| && at == TdAddr(t, k)
    requires bytes[..] == Encode(Partly(t, base, i + 1, k + 1, 0))
    ensures x == t.tds[k].chOffset
  {
    hide Encode, Partly;
    OffsetAt(t, base, i, k);
    assert bytes[at + 8 + 3 * PTR] == bytes[..][at + 8 + 3 * PTR];
    x := ReadWord(bytes, at + 8 + 3 * PTR);
  }

  lemma {:induction false} OffsetAt(t: Tables, base: nat, i: nat, k: nat)
    requires |t.magic| == 8 && i < |t.dms| && k < |t.tds|
    ensures var c := Encode(Partly(t, base, i + 1, k + 1, 0));
      TdAddr(t, k) + 8 + 3 * PTR < |c| && c[TdAddr(t, k) + 8 + 3 * PTR] == Word(t.tds[k].chOffset)
  {
    hide Encode;
    TdWord(Partly(t, base, i + 1, k + 1, 0), k, 3);
  }

  lemma {:induction false} DmWordsAt(t: Tables, base: nat, i: nat, k: nat)
    requires |t.magic| == 8 && i < |t.dms| && k <= |t.tds|
    ensures var c := Encode(Partly(t, base, i + 1, k, 0)); var at := DmAddr(i);
      at + 5 * PTR < |c| && c[at + 2 * PTR] == Word(Pointer(base, TdsOff(t), TD_SIZE, t.dms[i].fields))
      && c[at + 3 * PTR] == Word(t.dms[i].nFields) && c[at + 5 * PTR] == Word(t.dms[i].chSize)
  {
    hide Encode;
    var p := Partly(t, base, i + 1, k, 0);
    DmWord(p, i, 2);
    DmWord(p, i, 3);
    DmWord(p, i, 5);
  }

  lemma {:induction false} FieldsPointer(t: Tables, i: nat)
    requires Sound(t) && i < |t.dms|
    ensures t.dms[i].fields == NULL || t.dms[i].fields == FieldsBefore(t.dms, i)
    ensures FieldsBefore(t.dms, i) <= |t.tds| == FieldsBefore(t.dms, |t.dms|)
  {
    FieldsBeforeGrows(t.dms, i, |t.dms|);
  }

  // The members of a datamap that its fields depend on.
  method ReadDm(bytes: array<Cell>, ghost base: nat, i: nat, ghost t: Tables, ghost k: nat)
      returns (fields: nat, nFields: nat, chSize: nat)
    requires |t.magic| == 8 && i < |t.dms| && k <= |t.tds| && bytes[..] == Encode(Partly(t, base, i + 1, k, 0))
    ensures fields == Pointer(base, TdsOff(t), TD_SIZE, t.dms[i].fields)
    ensures nFields == t.dms[i].nFields && chSize == t.dms[i].chSize
  {
    hide Encode, Partly, DmAddr, TdsOff, Pointer;
    DmWordsAt(t, base, i, k);
    var at := DmAddr(i);
    assert bytes[at + 2 * PTR] == bytes[..][at + 2 * PTR] && bytes[at + 3 * PTR] == bytes[..][at + 3 * PTR];
    assert bytes[at + 5 * PTR] == bytes[..][at + 5 * PTR];
    fields := ReadWord(bytes, at + 2 * PTR);
    nFields := ReadWord(bytes, at + 3 * PTR);
    chSize := ReadWord(bytes, at + 5 * PTR);
  }

  method FixMaps(bytes: array<Cell>, base: nat, nDms: nat, dms: nat, tds: nat, strs: nat, ghost t: Tables)
      returns (ok: bool)
    requires Sound(t) && nDms == |t.dms| && bytes[..] == Encode(Partly(t, base, 0, 0, 0))
    requires dms == base + DMS && tds == base + TdsOff(t) && strs == base + StrsOff(t)
    modifies bytes
    ensures ok <==> forall i :: 0 <= i < |t.dms| ==> GoodDm(t, t.dms[i]) && GoodFields(t, i)
    ensures ok ==> bytes[..] == Encode(Partly(t, base, |t.dms|, |t.tds|, 0))
  {
    hide Encode, Partly, Sound, GoodDm, GoodFields, StrsOff, TdsOff, Length, FieldsBefore;
    SoundMagic(t);
    NoFieldsBefore(t.dms);
    for i := 0 to nDms
      invariant FieldsBefore(t.dms, i) <= |t.tds| && bytes[..] == Encode(Partly(t, base, i, FieldsBefore(t.dms, i), 0))
      invariant forall j :: 0 <= j < i ==> GoodDm(t, t.dms[j]) && GoodFields(t, j)
    {
      ok := FixMap(bytes, base, i, dms, tds, strs, t);
      if !ok {
        return;
      }
    }
    ok := true;
  }

  // One datamap with its type descriptions.
  method FixMap(bytes: array<Cell>, base: nat, i: nat, dms: nat, tds: nat, strs: nat, ghost t: Tables)
      returns (ok: bool)
    requires Sound(t) && i < |t.dms| && FieldsBefore(t.dms, i) <= |t.tds| == FieldsBefore(t.dms, |t.dms|)
    requires bytes[..] == Encode(Partly(t, base, i, FieldsBefore(t.dms, i), 0))
    requires dms == base + DMS && tds == base + TdsOff(t) && strs == base + StrsOff(t)
    modifies bytes
    ensures ok <==> GoodDm(t, t.dms[i]) && GoodFields(t, i)
    ensures ok ==> FieldsBefore(t.dms, i + 1) <= |t.tds|
    ensures ok ==> bytes[..] == Encode(Partly(t, base, i + 1, FieldsBefore(t.dms, i + 1), 0))
  {
    hide Encode, Partly, Sound, RangesDm, GoodFields, StrsOff, TdsOff, Length, DmAddr, FieldsBefore;
    SoundMagic(t);
    FieldsPointer(t, i);
    ghost var k := FieldsBefore(t.dms, i);
    ok := FixDm(bytes, base, i, dms, tds, strs, t, k);
    if !ok {
      return;
    }
    var fields, nFields, chSize := ReadDm(bytes, base, i, t, k);
    TdsOffPositive(t);
    if (fields != 0) != (nFields != 0) {
      return false;
    }
    ok := FixFields(bytes, base, fields, nFields, chSize, dms, strs, t, i);
  }

  lemma {:induction false} SoundMagic(t: Tables)
    requires Sound(t)
    ensures |t.magic| == 8 && FieldsBefore(t.dms, |t.dms|) == |t.tds|
    ensures t.head.nDms == |t.dms| && t.head.nLnks == |t.lnks|
  {
  }

  lemma {:induction false} TdsOffPositive(t: Tables)
    ensures TdsOff(t) > 0
  {
  }

  method FixLinks(bytes: array<Cell>, base: nat, nLnks: nat, lnks: nat, dms: nat, strs: nat, ghost t: Tables)
      returns (ok: bool)
    requires |t.magic| == 8 && nLnks == |t.lnks| && bytes[..] == Encode(Partly(t, base, |t.dms|, |t.tds|, 0))
    requires dms == base + DMS && strs == base + StrsOff(t) && lnks == base + LnksOff(t)
    modifies bytes
    ensures ok <==> forall k :: 0 <= k < |t.lnks| ==> GoodLnk(t, t.lnks[k])
    ensures ok ==> bytes[..] == Encode(Fixed(t, base))
  {
    hide Encode, Partly, GoodLnk, StrsOff, LnksOff;
    for k := 0 to nLnks
      invariant bytes[..] == Encode(Partly(t, base, |t.dms|, |t.tds|, k))
      invariant forall j :: 0 <= j < k ==> GoodLnk(t, t.lnks[j])
    {
      ok := FixLnk(bytes, base, lnks - base + LNK_SIZE * k, dms, strs, t, k);
      if !ok {
        return;
      }
    }
    ok := true;
  }

  // ---------- the loader ----------

  method CheckMagic(bytes: array<Cell>, ghost t: Tables) returns (ok: bool)
    requires |t.magic| == 8 && bytes[..] == Encode(t)
    ensures ok <==> t.magic == MAGIC
  {
    hide Encode;
    MagicCells(t);
    for k := 0 to 8
      invariant forall j :: 0 <= j < k ==> t.magic[j] == MAGIC[j]
    {
      assert bytes[k] == bytes[..][k];
      if bytes[k] != Char(MAGIC[k]) {
        return false;
      }
    }
    assert t.magic == MAGIC;
    ok := true;
  }

  lemma {:induction false} MagicCells(t: Tables)
    requires |t.magic| == 8
    ensures |Encode(t)| >= 8 && forall k :: 0 <= k < 8 ==> Encode(t)[k] == Char(t.magic[k])
  {
    hide Encode;
    HeadWord(t, 0);
    forall k | 0 <= k < 8
      ensures Encode(t)[k] == Char(t.magic[k])
    {
      assert Encode(t)[..8][k] == Chars(t.magic)[k];
    }
  }

  method VerifyAndFixup(bytes: array<Cell>, base: nat, ghost t: Tables) returns (r: Result)
    requires Sound(t) && bytes[..] == Encode(t)
    modifies bytes
    ensures r == Verdict(t)
    ensures r.OK? ==> bytes[..] == Encode(Fixed(t, base))
  {
    hide Encode, Partly, Sound, GoodDm, GoodFields, GoodLnk, HeadWords, Length;
    SoundMagic(t);
    var magic := CheckMagic(bytes, t);
    if !magic {
      return INVALID_COLLECTION;
    }
    HeadFixed(t, base);
    HeadWord(t, 0);
    HeadWord(t, 1);
    HeadWord(t, 2);
    assert bytes[8] == bytes[..][8] && bytes[8 + PTR] == bytes[..][8 + PTR];
    assert bytes[8 + 2 * PTR] == bytes[..][8 + 2 * PTR];
    var version := ReadWord(bytes, 8);
    var nDms := ReadWord(bytes, 8 + PTR);
    var nLnks := ReadWord(bytes, 8 + 2 * PTR);
    if version != VERSION || nDms == 0 {
      return INVALID_COLLECTION_VERSION;
    }
    var ok := FixHead(bytes, base, t);
    if !ok {
      return INVALID_COLLECTION;
    }
    var dms, tds, strs, lnks := HeadPointers(bytes, base, t);
    ok := FixMaps(bytes, base, nDms, dms, tds, strs, t);
    if !ok {
      return INVALID_COLLECTION;
    }
    ok := FixLinks(bytes, base, nLnks, lnks, dms, strs, t);
    r := if ok then OK else INVALID_COLLECTION;
  }

  method HeadPointers(bytes: array<Cell>, base: nat, ghost t: Tables) returns (dms: nat, tds: nat, strs: nat, lnks: nat)
    requires |t.magic| == 8 && bytes[..] == Encode(Partly(t, base, 0, 0, 0))
    ensures dms == base + DMS && tds == base + TdsOff(t) && strs == base + StrsOff(t) && lnks == base + LnksOff(t)
  {
    hide Encode;
    ghost var p := Partly(t, base, 0, 0, 0);
    HeadWord(p, 3);
    HeadWord(p, 4);
    HeadWord(p, 5);
    HeadWord(p, 6);
    assert bytes[8 + 3 * PTR] == bytes[..][8 + 3 * PTR] && bytes[8 + 4 * PTR] == bytes[..][8 + 4 * PTR];
    assert bytes[8 + 5 * PTR] == bytes[..][8 + 5 * PTR];
    assert bytes[8 + 6 * PTR] == bytes[..][8 + 6 * PTR];
    dms := ReadWord(bytes, 8 + 3 * PTR);
    tds := ReadWord(bytes, 8 + 4 * PTR);
    strs := ReadWord(bytes, 8 + 5 * PTR);
    lnks := ReadWord(bytes, 8 + 6 * PTR);
  }
}
