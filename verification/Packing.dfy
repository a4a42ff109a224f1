// What ch_create_naked_packed_collection of chicago_parser_exe/src/ch_recv.c writes for
// datamaps that are in order.
module Packing {
  import opened Wrappers
  import opened Bytes
  import opened Bits
  import opened Datamaps
  import opened ReceiverSpec
  import opened Layout
  import opened Strings
  import opened Image
  import FieldReader

  // "chicago"
  const MAGIC: seq<Byte> := [99, 104, 105, 99, 97, 103, 111, 0]
  const VERSION: nat := 5

  // ---------- what is saved ----------

  // FTYPEDESC_SAVE
  predicate IsSaved(d: Desc) {
    d.flags / 2 % 2 == 1
  }

  function Saved(fields: seq<Desc>): (saved: seq<Desc>)
    ensures |saved| <= |fields|
    decreases |fields|
  {
    if fields == [] then []
    else
      var last := fields[|fields| - 1];
      Saved(fields[..|fields| - 1]) + if IsSaved(last) then [last] else []
  }

  lemma {:induction false} SavedSnoc(fields: seq<Desc>, k: nat)
    requires k < |fields|
    ensures Saved(fields[..k + 1])
      == if IsSaved(fields[k]) then Saved(fields[..k]) + [fields[k]] else Saved(fields[..k])
  {
    assert fields[..k + 1][..k] == fields[..k];
  }

  // A field is saved exactly if it has the flag, whatever other flags it has.
  lemma {:induction false} SavedBit(d: Desc)
    ensures IsSaved(d) <==> And(d.flags, 2) == 2
  {
    assert And(d.flags, 2) == 2 * And(d.flags / 2, 1);
    assert And(d.flags / 2, 1) == if d.flags / 2 % 2 == 1 then 1 else 0;
  }

  // The places of the fields that have the flag, in order.
  ghost predicate SavedAt(fields: seq<Desc>, places: seq<nat>) {
    && (forall j, k :: 0 <= j < k < |places| ==> places[j] < places[k])
    && (forall i: nat :: i in places <==> i < |fields| && And(fields[i].flags, 2) == 2)
  }

  lemma {:induction false} SavedAtNext(fields: seq<Desc>, front: seq<nat>)
    requires fields != [] && SavedAt(fields[..|fields| - 1], front)
    ensures var n := |fields| - 1;
      SavedAt(fields, if And(fields[n].flags, 2) == 2 then front + [n] else front)
  {
    hide And;
    var n := |fields| - 1;
    assert forall i: nat :: i < n ==> fields[..n][i] == fields[i];
    assert forall k :: 0 <= k < |front| ==> front[k] in front;
    forall i: nat
      ensures i in front + [n] <==> i in front || i == n
    {
      assert (front + [n])[|front|] == n;
    }
  }

  // What is saved are the fields with the flag: all of them, no other, and in order.
  lemma {:induction false} SavedExactly(fields: seq<Desc>) returns (places: seq<nat>)
    ensures SavedAt(fields, places) && |places| == |Saved(fields)|
    ensures forall k :: 0 <= k < |places| ==> places[k] < |fields| && Saved(fields)[k] == fields[places[k]]
    decreases |fields|
  {
    hide IsSaved, And, SavedAt;
    if fields == [] {
      places := [];
      NothingSaved();
    } else {
      var n := |fields| - 1;
      places := SavedExactly(fields[..n]);
      SavedBit(fields[n]);
      SavedAtNext(fields, places);
      if IsSaved(fields[n]) {
        places := places + [n];
      }
    }
  }

  lemma {:induction false} NothingSaved()
    ensures SavedAt([], [])
  {
  }

  // ---------- strings ----------

  function FieldStrings(saved: seq<Desc>): seq<Name>
    decreases |saved|
  {
    if saved == [] then []
    else
      var last := saved[|saved| - 1];
      FieldStrings(saved[..|saved| - 1]) + [last.name] + if last.external.Some? then [last.external.value] else []
  }

  function MapStrings(m: Map): seq<Name> {
    [m.name, m.mod] + FieldStrings(Saved(m.fields))
  }

  function StringsOf(ms: seq<Map>): seq<Name>
    decreases |ms|
  {
    if ms == [] then [] else StringsOf(ms[..|ms| - 1]) + MapStrings(ms[|ms| - 1])
  }

  function Keys(links: seq<Link>): (keys: seq<Name>)
    ensures |keys| == |links| && forall i :: 0 <= i < |links| ==> keys[i] == links[i].key
  {
    seq(|links|, i requires 0 <= i < |links| => links[i].key)
  }

  function Interned(ms: seq<Map>, links: seq<Link>): seq<Name> {
    Unique(StringsOf(ms) + Keys(links))
  }

  // ---------- references ----------

  function Names(ms: seq<Map>): (names: seq<Name>)
    ensures |names| == |ms| && forall i :: 0 <= i < |ms| ==> names[i] == ms[i].name
  {
    seq(|ms|, i requires 0 <= i < |ms| => ms[i].name)
  }

  predicate Refers(ms: seq<Map>, r: Option<Map>) {
    r.Some? ==> r.value.name in Names(ms)
  }

  // All that is referred to is written; the writer asserts it of each reference.
  ghost predicate Complete(ms: seq<Map>, links: seq<Link>) {
    && (forall i, j :: 0 <= i < j < |ms| ==> ms[i].name != ms[j].name)
    && (forall i :: 0 <= i < |ms| ==> Refers(ms, ms[i].base) && SavedRefers(ms, ms[i]))
    && (forall k :: 0 <= k < |links| ==> links[k].target in Names(ms))
  }

  ghost predicate SavedRefers(ms: seq<Map>, m: Map) {
    forall k :: 0 <= k < |Saved(m.fields)| ==> Refers(ms, Saved(m.fields)[k].embedded)
  }

  // ch_get_entry_offset
  function RefMap(ms: seq<Map>, r: Option<Map>): (x: nat)
    requires Refers(ms, r)
    ensures x == NULL || x < |ms|
  {
    if r.None? then NULL else IndexOf(Names(ms), r.value.name)
  }

  function RefStr(u: seq<Name>, s: Name): nat
    requires s in u
  {
    Start(u, IndexOf(u, s))
  }

  function RefOpt(u: seq<Name>, s: Option<Name>): nat
    requires s.Some? ==> s.value in u
  {
    if s.None? then NULL else RefStr(u, s.value)
  }

  // ---------- layout ----------

  // The type is written as a 32-bit number.
  function TypeOf(d: Desc): nat {
    d.ftype % 0x1_0000_0000
  }

  function NeedOf(d: Desc): Need {
    Need(TypeOf(d) == FieldReader.FIELD_CUSTOM, SizeT(d.totalSize))
  }

  function Needs(saved: seq<Desc>): (needs: seq<Need>)
    ensures |needs| == |saved|
    ensures forall k :: 0 <= k < |saved| ==> needs[k] == NeedOf(saved[k])
  {
    seq(|saved|, k requires 0 <= k < |saved| => NeedOf(saved[k]))
  }

  // Where the own fields of a class start: behind its base class. A base class that was not
  // written yet still has size zero in the buffer.
  function From(ms: seq<Map>, base: Option<Map>, sizes: seq<nat>): nat
    requires Refers(ms, base)
  {
    if base.None? then 0
    else
      var k := RefMap(ms, base);
      if k < |sizes| then sizes[k] else 0
  }

  // The sizes of the first n classes.
  function Sizes(ms: seq<Map>, n: nat): (sizes: seq<nat>)
    requires n <= |ms| && forall i :: 0 <= i < |ms| ==> Refers(ms, ms[i].base)
    ensures |sizes| == n
    decreases n
  {
    if n == 0 then []
    else
      var sizes := Sizes(ms, n - 1);
      sizes + [ClassSize(Needs(Saved(ms[n - 1].fields)), From(ms, ms[n - 1].base, sizes))]
  }

  // ---------- rows ----------

  function SavedBefore(ms: seq<Map>, n: nat): nat
    requires n <= |ms|
    decreases n
  {
    if n == 0 then 0 else SavedBefore(ms, n - 1) + |Saved(ms[n - 1].fields)|
  }

  function TdOf(ms: seq<Map>, u: seq<Name>, d: Desc, chOffset: nat): Td
    requires Refers(ms, d.embedded) && d.name in u && (d.external.Some? ==> d.external.value in u)
  {
    Td(TypeOf(d), d.flags % 0x1_0000, d.nElems % 0x1_0000, RefStr(u, d.name), RefOpt(u, d.external),
       SizeT(d.gameOffset), chOffset, SizeT(d.totalSize), if d.ops.None? then NULL else SizeT(d.ops.value),
       RefMap(ms, d.embedded))
  }

  function DmOf(ms: seq<Map>, u: seq<Name>, i: nat): Dm
    requires i < |ms| && ms[i].name in u && ms[i].mod in u
    requires forall j :: 0 <= j < |ms| ==> Refers(ms, ms[j].base)
  {
    var n := |Saved(ms[i].fields)|;
    Dm(RefStr(u, ms[i].name), RefMap(ms, ms[i].base), if n == 0 then NULL else SavedBefore(ms, i), n,
       RefStr(u, ms[i].mod), Sizes(ms, i + 1)[i])
  }

  // The strings of a map are among those that are written.
  ghost predicate Has(u: seq<Name>, m: Map) {
    && m.name in u && m.mod in u
    && forall k :: 0 <= k < |Saved(m.fields)| ==> HasField(u, Saved(m.fields)[k])
  }

  ghost predicate HasField(u: seq<Name>, d: Desc) {
    d.name in u && (d.external.Some? ==> d.external.value in u)
  }

  ghost predicate Ready(ms: seq<Map>, u: seq<Name>) {
    forall i :: 0 <= i < |ms| ==> Has(u, ms[i]) && Refers(ms, ms[i].base) && SavedRefers(ms, ms[i])
  }

  function MapTds(ms: seq<Map>, u: seq<Name>, i: nat): (tds: seq<Td>)
    requires i < |ms| && Ready(ms, u)
    ensures |tds| == |Saved(ms[i].fields)|
    ensures forall k :: 0 <= k < |tds| ==> tds[k] == TdOf(ms, u, Saved(ms[i].fields)[k], OffsetsOf(ms, i)[k])
  {
    var saved := Saved(ms[i].fields);
    seq(|saved|, k requires 0 <= k < |saved| => TdOf(ms, u, saved[k], OffsetsOf(ms, i)[k]))
  }

  // The offsets of the saved fields of a class.
  function OffsetsOf(ms: seq<Map>, i: nat): (offs: seq<nat>)
    requires i < |ms| && forall j :: 0 <= j < |ms| ==> Refers(ms, ms[j].base)
    ensures |offs| == |Saved(ms[i].fields)|
  {
    Offsets(Needs(Saved(ms[i].fields)), From(ms, ms[i].base, Sizes(ms, i)))
  }

  function TdsOf(ms: seq<Map>, u: seq<Name>, n: nat): (tds: seq<Td>)
    requires n <= |ms| && Ready(ms, u)
    ensures |tds| == SavedBefore(ms, n)
    decreases n
  {
    if n == 0 then [] else TdsOf(ms, u, n - 1) + MapTds(ms, u, n - 1)
  }

  function DmsOf(ms: seq<Map>, u: seq<Name>): (dms: seq<Dm>)
    requires Ready(ms, u)
    ensures |dms| == |ms| && forall i :: 0 <= i < |ms| ==> dms[i] == DmOf(ms, u, i)
  {
    seq(|ms|, i requires 0 <= i < |ms| => DmOf(ms, u, i))
  }

  function LnksOf(ms: seq<Map>, u: seq<Name>, links: seq<Link>): (lnks: seq<Lnk>)
    requires forall k :: 0 <= k < |links| ==> links[k].key in u && links[k].target in Names(ms)
    ensures |lnks| == |links|
    ensures forall k :: 0 <= k < |links| ==>
      lnks[k] == Lnk(RefStr(u, links[k].key), IndexOf(Names(ms), links[k].target))
  {
    seq(|links|, k requires 0 <= k < |links| => Lnk(RefStr(u, links[k].key), IndexOf(Names(ms), links[k].target)))
  }

  // The header of an image with so many datamaps, type descriptions, characters and links.
  function HeadOf(nDms: nat, nTds: nat, nStrs: nat, nLnks: nat): Head {
    var tdsOff := DMS + DM_SIZE * nDms;
    var strsOff := tdsOff + TD_SIZE * nTds;
    Head(VERSION, nDms, nLnks, DMS, tdsOff, strsOff, strsOff + nStrs)
  }

  function TablesOf(ms: seq<Map>, links: seq<Link>): Tables
    requires Complete(ms, links)
  {
    InternedReady(ms, links);
    var u := Interned(ms, links);
    var dms, tds, strs := DmsOf(ms, u), TdsOf(ms, u, |ms|), Section(u);
    Tables(MAGIC, HeadOf(|ms|, |tds|, |strs|, |links|), 0, dms, tds, strs, LnksOf(ms, u, links))
  }

  // ---------- all strings are interned ----------

  lemma {:induction false} InternedReady(ms: seq<Map>, links: seq<Link>)
    requires Complete(ms, links)
    ensures Ready(ms, Interned(ms, links))
    ensures forall k :: 0 <= k < |links| ==> links[k].key in Interned(ms, links)
  {
    hide StringsOf, Refers, SavedRefers, Unique, Has;
    var u := Interned(ms, links);
    var strs := StringsOf(ms);
    forall i | 0 <= i < |ms|
      ensures Has(u, ms[i])
    {
      StringsIn(ms, i);
      HasStrings(ms[i], strs + Keys(links));
      HasUnique(u, strs + Keys(links), ms[i]);
    }
    forall k | 0 <= k < |links|
      ensures links[k].key in u
    {
      assert Keys(links)[k] in strs + Keys(links);
    }
  }

  lemma {:induction false} StringsIn(ms: seq<Map>, i: nat)
    requires i < |ms|
    ensures forall s :: s in MapStrings(ms[i]) ==> s in StringsOf(ms)
    decreases |ms|
  {
    hide MapStrings;
    var n := |ms| - 1;
    if i < n {
      StringsIn(ms[..n], i);
      assert ms[..n][i] == ms[i];
    }
  }

  lemma {:induction false} HasStrings(m: Map, strs: seq<Name>)
    requires forall s :: s in MapStrings(m) ==> s in strs
    ensures Has(strs, m)
  {
    hide FieldStrings, Saved;
    assert MapStrings(m)[0] == m.name && MapStrings(m)[1] == m.mod;
    assert m.name in MapStrings(m) && m.mod in MapStrings(m);
    var saved := Saved(m.fields);
    forall k | 0 <= k < |saved|
      ensures HasField(strs, saved[k])
    {
      FieldStringsIn(saved, k);
    }
  }

  lemma {:induction false} FieldStringsIn(saved: seq<Desc>, k: nat)
    requires k < |saved|
    ensures HasField(FieldStrings(saved), saved[k])
    decreases |saved|
  {
    var n := |saved| - 1;
    if k < n {
      FieldStringsIn(saved[..n], k);
    } else {
      assert FieldStrings(saved)[|FieldStrings(saved[..n])|] == saved[n].name;
    }
  }

  lemma {:induction false} HasUnique(u: seq<Name>, strs: seq<Name>, m: Map)
    requires Has(strs, m) && forall s :: s in strs ==> s in u
    ensures Has(u, m)
  {
  }
}
