// What chicago_parser_exe/src/ch_recv.c writes, chicago_compress_lib/src/ch_archive.c loads.
module RoundTrip {
  import opened Wrappers
  import opened Bytes
  import opened Bits
  import opened ByteReader
  import opened Datamaps
  import opened DatamapOrder
  import opened ReceiverSpec
  import opened Layout
  import opened Strings
  import opened Image
  import opened Packing
  import opened LoaderSpec
  import opened Readback
  import Packer
  import Loader

  // ---------- what was sent ----------

  function CutOpt(s: Option<Name>): Option<Name> {
    if s.None? then None else Some(Cut(s.value))
  }

  function NameOf(m: Option<Map>): Option<Name> {
    if m.None? then None else Some(Cut(m.value.name))
  }

  // A saved field, at its offset.
  function SentField(d: Desc, chOffset: nat): FlatField {
    FlatField(Cut(d.name), TypeOf(d), d.flags % 0x1_0000, d.nElems % 0x1_0000, CutOpt(d.external),
              SizeT(d.gameOffset), chOffset, SizeT(d.totalSize),
              if d.ops.None? then NULL else SizeT(d.ops.value), NameOf(d.embedded))
  }

  function SentMap(ms: seq<Map>, i: nat): (m: FlatMap)
    requires i < |ms| && forall j :: 0 <= j < |ms| ==> Refers(ms, ms[j].base)
    ensures |m.fields| == |Saved(ms[i].fields)|
    ensures forall k :: 0 <= k < |m.fields| ==> m.fields[k] == SentField(Saved(ms[i].fields)[k], OffsetsOf(ms, i)[k])
  {
    var saved := Saved(ms[i].fields);
    FlatMap(Cut(ms[i].name), Cut(ms[i].mod), NameOf(ms[i].base),
      seq(|saved|, k requires 0 <= k < |saved| => SentField(saved[k], OffsetsOf(ms, i)[k])), Sizes(ms, i + 1)[i])
  }

  function Sent(ms: seq<Map>, links: seq<Link>): (l: Loaded)
    requires forall j :: 0 <= j < |ms| ==> Refers(ms, ms[j].base)
    ensures |l.maps| == |ms| && forall i :: 0 <= i < |ms| ==> l.maps[i] == SentMap(ms, i)
    ensures |l.links| == |links|
    ensures forall k :: 0 <= k < |links| ==> l.links[k] == Link(Cut(links[k].key), Cut(links[k].target))
  {
    Loaded(seq(|ms|, i requires 0 <= i < |ms| => SentMap(ms, i)),
      seq(|links|, k requires 0 <= k < |links| => Link(Cut(links[k].key), Cut(links[k].target))))
  }

  // ---------- the tables of the writer ----------

  lemma {:induction false} FieldsNext(dms: seq<Dm>, n: nat)
    requires n <= |dms|
    ensures FieldsBefore(dms, n) == if n == 0 then 0 else FieldsBefore(dms, n - 1) + dms[n - 1].nFields
  {
  }

  lemma {:induction false} WriterFields(ms: seq<Map>, u: seq<Name>, n: nat)
    requires n <= |ms| && Ready(ms, u)
    ensures FieldsBefore(DmsOf(ms, u), n) == SavedBefore(ms, n)
    decreases n
  {
    hide Ready, Saved, DmsOf, SavedBefore, FieldsBefore;
    BeforeNext(ms, n);
    FieldsNext(DmsOf(ms, u), n);
    if n > 0 {
      WriterFields(ms, u, n - 1);
      CountOf(ms, u, n - 1);
    }
  }

  lemma {:induction false} BeforeNext(ms: seq<Map>, n: nat)
    requires n <= |ms|
    ensures SavedBefore(ms, n) == if n == 0 then 0 else SavedBefore(ms, n - 1) + |Saved(ms[n - 1].fields)|
  {
  }

  lemma {:induction false} CountOf(ms: seq<Map>, u: seq<Name>, i: nat)
    requires Ready(ms, u) && i < |ms|
    ensures DmsOf(ms, u)[i].nFields == |Saved(ms[i].fields)|
  {
    hide Saved, Sizes, RefStr, RefMap, Has, Refers, SavedRefers, SavedBefore;
  }

  lemma {:induction false} TdOfField(ms: seq<Map>, u: seq<Name>, n: nat, i: nat, k: nat)
    requires i < n <= |ms| && Ready(ms, u) && k < |Saved(ms[i].fields)|
    ensures SavedBefore(ms, i) + k < SavedBefore(ms, n)
    ensures TdsOf(ms, u, n)[SavedBefore(ms, i) + k] == MapTds(ms, u, i)[k]
    decreases n
  {
    hide Ready, Saved, MapTds, TdsOf, SavedBefore;
    if i < n - 1 {
      TdOfField(ms, u, n - 1, i, k);
      TdInFront(ms, u, n - 1, SavedBefore(ms, i) + k);
    } else {
      TdBehind(ms, u, n - 1, k);
    }
  }

  lemma {:induction false} TdInFront(ms: seq<Map>, u: seq<Name>, n: nat, x: nat)
    requires n < |ms| && Ready(ms, u) && x < SavedBefore(ms, n)
    ensures SavedBefore(ms, n) <= SavedBefore(ms, n + 1) && TdsOf(ms, u, n + 1)[x] == TdsOf(ms, u, n)[x]
  {
    hide Ready, Saved, MapTds, TdsOf, SavedBefore;
    TdsNext(ms, u, n);
    ConcatFront(TdsOf(ms, u, n), MapTds(ms, u, n), x);
  }

  lemma {:induction false} TdBehind(ms: seq<Map>, u: seq<Name>, n: nat, k: nat)
    requires n < |ms| && Ready(ms, u) && k < |Saved(ms[n].fields)|
    ensures SavedBefore(ms, n) + k < SavedBefore(ms, n + 1)
    ensures TdsOf(ms, u, n + 1)[SavedBefore(ms, n) + k] == MapTds(ms, u, n)[k]
  {
    hide Ready, Saved, MapTds, TdsOf, SavedBefore;
    TdsNext(ms, u, n);
    ConcatBack(TdsOf(ms, u, n), MapTds(ms, u, n), k);
  }

  lemma {:induction false} ConcatFront(a: seq<Td>, b: seq<Td>, k: nat)
    requires k < |a|
    ensures (a + b)[k] == a[k]
  {
  }

  lemma {:induction false} ConcatBack(a: seq<Td>, b: seq<Td>, k: nat)
    requires k < |b|
    ensures (a + b)[|a| + k] == b[k]
  {
  }

  lemma {:induction false} TdsNext(ms: seq<Map>, u: seq<Name>, n: nat)
    requires n < |ms| && Ready(ms, u)
    ensures TdsOf(ms, u, n + 1) == TdsOf(ms, u, n) + MapTds(ms, u, n)
    ensures SavedBefore(ms, n + 1) == SavedBefore(ms, n) + |Saved(ms[n].fields)|
  {
    hide Ready, Saved, MapTds;
  }

  // Every type description is that of a saved field.
  lemma {:induction false} FieldOfTd(ms: seq<Map>, u: seq<Name>, n: nat, at: nat) returns (i: nat, k: nat)
    requires n <= |ms| && Ready(ms, u) && at < SavedBefore(ms, n)
    ensures i < n && k < |Saved(ms[i].fields)| && at == SavedBefore(ms, i) + k
    ensures TdsOf(ms, u, n)[at] == MapTds(ms, u, i)[k]
    decreases n
  {
    hide Ready, Saved, MapTds;
    if at < SavedBefore(ms, n - 1) {
      i, k := FieldOfTd(ms, u, n - 1, at);
    } else {
      i, k := n - 1, at - SavedBefore(ms, n - 1);
    }
  }

  // An interned string can be read back.
  lemma {:induction false} RefRead(t: Tables, u: seq<Name>, s: Name)
    requires t.strs == Section(u) && s in u
    ensures IsString(t, RefStr(u, s)) && StrOf(t, RefStr(u, s)) == Cut(s)
  {
    hide Section;
    SectionCString(u, IndexOf(u, s));
  }

  lemma {:induction false} OptRead(t: Tables, u: seq<Name>, s: Option<Name>)
    requires t.strs == Section(u) && (s.Some? ==> s.value in u) && Length(t) < NULL
    ensures RefOpt(u, s) == NULL || IsString(t, RefOpt(u, s))
    ensures OptOf(t, RefOpt(u, s)) == CutOpt(s)
  {
    hide RefStr, IsString, StrOf, Section;
    if s.Some? {
      RefRead(t, u, s.value);
      StringsShort(t, RefStr(u, s.value));
    }
  }

  lemma {:induction false} StringsShort(t: Tables, x: nat)
    requires IsString(t, x) && Length(t) < NULL
    ensures x < NULL
  {
  }

  // The tables are the writer's.
  ghost predicate Wrote(t: Tables, ms: seq<Map>, links: seq<Link>, u: seq<Name>) {
    && Ready(ms, u) && (forall k :: 0 <= k < |links| ==> links[k].key in u && links[k].target in Names(ms))
    && Packer.Describes(t, ms, links, u) && Length(t) < NULL
    && t.head == Head(VERSION, |ms|, |links|, DMS, TdsOff(t), StrsOff(t), LnksOff(t)) && t.magic == MAGIC
  }

  lemma {:induction false} WriterWrote(ms: seq<Map>, links: seq<Link>)
    requires Complete(ms, links) && Length(TablesOf(ms, links)) < NULL
    ensures Wrote(TablesOf(ms, links), ms, links, Interned(ms, links))
  {
    hide Ready, Packer.Describes, Complete, Interned, TablesOf;
    Packer.TablesDescribe(ms, links);
  }

  // ---------- references that the writer makes ----------

  lemma {:induction false} MapRef(t: Tables, ms: seq<Map>, links: seq<Link>, u: seq<Name>, r: Option<Map>)
    requires Wrote(t, ms, links, u) && Refers(ms, r)
    ensures RefMap(ms, r) == NULL || (RefMap(ms, r) < |t.dms| && IsString(t, t.dms[RefMap(ms, r)].className))
    ensures MapNameOf(t, RefMap(ms, r)) == NameOf(r)
  {
    hide RefStr, IsString, StrOf, Cut, Section, SavedBefore, Length, NULL, DMS, TdsOf, LnksOf;
    if r.Some? {
      var k := RefMap(ms, r);
      EntriesFit(t);
      assert k < |ms| < NULL;
      assert Has(u, ms[k]);
      RefRead(t, u, ms[k].name);
      assert t.dms[k].className == RefStr(u, ms[k].name);
    }
  }

  lemma {:induction false} TdRead(t: Tables, ms: seq<Map>, links: seq<Link>, u: seq<Name>, d: Desc, chOffset: nat)
    requires Wrote(t, ms, links, u) && HasField(u, d) && Refers(ms, d.embedded)
    ensures ExactTd(t, TdOf(ms, u, d, chOffset))
    ensures Readback.FieldOf(t, TdOf(ms, u, d, chOffset)) == SentField(d, chOffset)
  {
    hide RefStr, IsString, StrOf, Cut, Section, Ready, MapNameOf, OptOf, NameOf, RefMap, RefOpt, CutOpt, TypeOf, Refers;
    RefRead(t, u, d.name);
    OptRead(t, u, d.external);
    MapRef(t, ms, links, u, d.embedded);
  }

  lemma {:induction false} DmRead(t: Tables, ms: seq<Map>, links: seq<Link>, u: seq<Name>, i: nat)
    requires Wrote(t, ms, links, u) && i < |ms|
    ensures ExactDm(t, i) && StrOf(t, t.dms[i].className) == Cut(ms[i].name)
    ensures StrOf(t, t.dms[i].moduleName) == Cut(ms[i].mod)
    ensures MapNameOf(t, t.dms[i].baseMap) == NameOf(ms[i].base)
  {
    hide RefStr, IsString, StrOf, Cut, Section, MapNameOf, NameOf, RefMap, Sizes, Saved, Refers, SavedRefers,
      SavedBefore;
    assert Has(u, ms[i]);
    RefRead(t, u, ms[i].name);
    RefRead(t, u, ms[i].mod);
    MapRef(t, ms, links, u, ms[i].base);
    WriterFields(ms, u, i);
    assert t.dms[i] == DmOf(ms, u, i);
  }

  lemma {:induction false} LnkRead(t: Tables, ms: seq<Map>, links: seq<Link>, u: seq<Name>, k: nat)
    requires Wrote(t, ms, links, u) && k < |links|
    ensures ExactLnk(t, t.lnks[k]) && LinkOf(t, t.lnks[k]) == Link(Cut(links[k].key), Cut(links[k].target))
  {
    hide RefStr, IsString, StrOf, Cut, Section, ExactDm;
    RefRead(t, u, links[k].key);
    DmRead(t, ms, links, u, t.lnks[k].dm);
  }

  // The saved fields of a map, as they are in the tables.
  lemma {:induction false} FieldRead(t: Tables, ms: seq<Map>, links: seq<Link>, u: seq<Name>, i: nat, k: nat)
    requires Wrote(t, ms, links, u) && i < |ms| && k < |Saved(ms[i].fields)|
    ensures SavedBefore(ms, i) + k < |t.tds|
    ensures var d := t.tds[SavedBefore(ms, i) + k];
      && ExactTd(t, d) && d.chOffset == OffsetsOf(ms, i)[k]
      && Readback.FieldOf(t, d) == SentField(Saved(ms[i].fields)[k], OffsetsOf(ms, i)[k])
  {
    hide ExactTd, Readback.FieldOf, SentField, Section, OffsetsOf, Saved, DmOf, RefStr, RefMap;
    TdOfField(ms, u, |ms|, i, k);
    assert Has(u, ms[i]) && SavedRefers(ms, ms[i]);
    assert HasField(u, Saved(ms[i].fields)[k]) && Refers(ms, Saved(ms[i].fields)[k].embedded);
    TdRead(t, ms, links, u, Saved(ms[i].fields)[k], OffsetsOf(ms, i)[k]);
  }

  lemma {:induction false} WriterExact(t: Tables, ms: seq<Map>, links: seq<Link>, u: seq<Name>)
    requires Wrote(t, ms, links, u)
    ensures Exact(t)
  {
    hide ExactDm, ExactTd, ExactLnk, Wrote, Sound;
    WriterSound(t, ms, links, u);
    forall i | 0 <= i < |t.dms|
      ensures ExactDm(t, i)
    {
      WroteCounts(t, ms, links, u);
      DmRead(t, ms, links, u, i);
    }
    forall at | 0 <= at < |t.tds|
      ensures ExactTd(t, t.tds[at])
    {
      WroteCounts(t, ms, links, u);
      var i, k := FieldOfTd(ms, u, |ms|, at);
      FieldRead(t, ms, links, u, i, k);
    }
    forall k | 0 <= k < |t.lnks|
      ensures ExactLnk(t, t.lnks[k])
    {
      WroteCounts(t, ms, links, u);
      LnkRead(t, ms, links, u, k);
    }
  }

  lemma {:induction false} WroteCounts(t: Tables, ms: seq<Map>, links: seq<Link>, u: seq<Name>)
    requires Wrote(t, ms, links, u)
    ensures Ready(ms, u) && |t.dms| == |ms| && t.tds == TdsOf(ms, u, |ms|) && |t.lnks| == |links|
  {
    hide Ready, Length, NULL, DMS, TdsOff, StrsOff, LnksOff, Section;
  }

  lemma {:induction false} WriterSound(t: Tables, ms: seq<Map>, links: seq<Link>, u: seq<Name>)
    requires Wrote(t, ms, links, u)
    ensures Sound(t)
  {
    hide ExactDm, Ready, DMS, NULL, Length, TdsOff, StrsOff, LnksOff, Section, DmsOf, TdsOf, LnksOf;
    WriterFields(ms, u, |ms|);
    forall i | 0 <= i < |t.dms|
      ensures t.dms[i].fields == NULL || t.dms[i].fields == FieldsBefore(t.dms, i)
    {
      DmRead(t, ms, links, u, i);
      ExactFields(t, i);
    }
  }

  lemma {:induction false} ExactFields(t: Tables, i: nat)
    requires i < |t.dms| && ExactDm(t, i)
    ensures t.dms[i].fields == NULL || t.dms[i].fields == FieldsBefore(t.dms, i)
  {
  }

  lemma {:induction false} WriterContents(t: Tables, ms: seq<Map>, links: seq<Link>, u: seq<Name>)
    requires Wrote(t, ms, links, u)
    ensures FieldsBefore(t.dms, |t.dms|) == |t.tds| && (forall j :: 0 <= j < |ms| ==> Refers(ms, ms[j].base))
    ensures ContentsOf(t) == Sent(ms, links)
  {
    hide ExactDm, ExactTd, ExactLnk, Section, Readback.FieldOf, SentField, LinkOf, Saved, OffsetsOf, StrOf,
      MapNameOf, Cut, NameOf,
      Refers, SavedRefers;
    WriterFields(ms, u, |ms|);
    forall i | 0 <= i < |ms|
      ensures MapOf(t, i) == SentMap(ms, i)
    {
      MapContents(t, ms, links, u, i);
    }
    forall k | 0 <= k < |links|
      ensures LinkOf(t, t.lnks[k]) == Link(Cut(links[k].key), Cut(links[k].target))
    {
      LnkRead(t, ms, links, u, k);
    }
    assert ContentsOf(t).maps == Sent(ms, links).maps && ContentsOf(t).links == Sent(ms, links).links;
  }

  // What the row of a datamap says of its fields and size.
  lemma {:induction false} DmFacts(t: Tables, ms: seq<Map>, links: seq<Link>, u: seq<Name>, i: nat)
    requires Wrote(t, ms, links, u) && i < |ms|
    ensures forall j :: 0 <= j < |ms| ==> Refers(ms, ms[j].base)
    ensures |t.dms| == |ms| && t.dms[i].nFields == |Saved(ms[i].fields)| && t.dms[i].chSize == Sizes(ms, i + 1)[i]
    ensures FieldsBefore(t.dms, i) == SavedBefore(ms, i)
  {
    hide Saved, Sizes, RefStr, RefMap, Has, Refers, SavedRefers, SavedBefore, Section;
    WriterFields(ms, u, i);
  }

  lemma {:induction false} MapContents(t: Tables, ms: seq<Map>, links: seq<Link>, u: seq<Name>, i: nat)
    requires Wrote(t, ms, links, u) && i < |ms| && FieldsBefore(t.dms, |t.dms|) == |t.tds| && |t.dms| == |ms|
    requires forall j :: 0 <= j < |ms| ==> Refers(ms, ms[j].base)
    ensures MapOf(t, i) == SentMap(ms, i)
  {
    hide Wrote, ExactDm, ExactTd, Readback.FieldOf, SentField, Saved, OffsetsOf, StrOf, MapNameOf, Cut, NameOf,
      Refers, SavedBefore, Sizes;
    DmRead(t, ms, links, u, i);
    DmFacts(t, ms, links, u, i);
    forall k | 0 <= k < |Saved(ms[i].fields)|
      ensures MapOf(t, i).fields[k] == SentMap(ms, i).fields[k]
    {
      FieldRead(t, ms, links, u, i, k);
    }
    assert MapOf(t, i).fields == SentMap(ms, i).fields;
  }

  // ---------- what the loader accepts ----------

  // The last saved field does not stand, empty, at the very end of its class.
  ghost predicate EndsInside(ms: seq<Map>, i: nat)
    requires i < |ms| && forall j :: 0 <= j < |ms| ==> Refers(ms, ms[j].base)
  {
    var saved := Saved(ms[i].fields);
    saved != [] ==> SlotSize(Needs(saved)[|saved| - 1]) > 0 || OffsetsOf(ms, i)[|saved| - 1] % PTR != 0
  }

  lemma {:induction false} WriterRanges(t: Tables, ms: seq<Map>, links: seq<Link>, u: seq<Name>)
    requires Exact(t)
    ensures forall i :: 0 <= i < |t.dms| ==> GoodDm(t, t.dms[i])
    ensures forall k :: 0 <= k < |t.tds| ==> RangesTd(t, t.tds[k])
    ensures forall k :: 0 <= k < |t.lnks| ==> GoodLnk(t, t.lnks[k])
  {
    hide ExactDm, ExactTd, ExactLnk, GoodDm, RangesTd, GoodLnk, Sound;
    SoundLength(t);
    forall i | 0 <= i < |t.dms|
      ensures GoodDm(t, t.dms[i])
    {
      DmInRange(t, i);
    }
    forall k | 0 <= k < |t.tds|
      ensures RangesTd(t, t.tds[k])
    {
      TdInRange(t, t.tds[k]);
    }
    forall k | 0 <= k < |t.lnks|
      ensures GoodLnk(t, t.lnks[k])
    {
      LnkInRange(t, t.lnks[k]);
    }
  }

  lemma {:induction false} SoundLength(t: Tables)
    requires Sound(t)
    ensures Length(t) < NULL && FieldsBefore(t.dms, |t.dms|) == |t.tds|
  {
  }

  lemma {:induction false} DmInRange(t: Tables, i: nat)
    requires i < |t.dms| && ExactDm(t, i) && Length(t) < NULL && FieldsBefore(t.dms, |t.dms|) == |t.tds|
    ensures GoodDm(t, t.dms[i])
  {
    hide ZeroAt, DMS, DM_SIZE, TD_SIZE, LNK_SIZE, Length, TdsOff, StrsOff;
    var d := t.dms[i];
    EntryInside(t, d.baseMap);
    EntryInside(t, d.className);
    EntryInside(t, d.moduleName);
    EntryInside(t, d.fields);
    EntriesFit(t);
    FieldsBeforeGrows(t.dms, i + 1, |t.dms|);
    assert FieldsBefore(t.dms, i + 1) == FieldsBefore(t.dms, i) + t.dms[i].nFields;
  }

  lemma {:induction false} TdInRange(t: Tables, d: Td)
    requires ExactTd(t, d) && Length(t) < NULL
    ensures RangesTd(t, d)
  {
    hide ZeroAt, DMS, DM_SIZE, TD_SIZE, LNK_SIZE, Length, TdsOff, StrsOff;
    EntryInside(t, d.name);
    EntryInside(t, d.external);
    EntryInside(t, d.embedded);
  }

  lemma {:induction false} LnkInRange(t: Tables, l: Lnk)
    requires ExactLnk(t, l) && Length(t) < NULL
    ensures GoodLnk(t, l)
  {
    hide ZeroAt, DMS, DM_SIZE, TD_SIZE, LNK_SIZE, Length, TdsOff, StrsOff;
    EntryInside(t, l.name);
    EntryInside(t, l.dm);
  }

  ghost predicate OffsetsBelow(offs: seq<nat>, size: nat) {
    forall k :: 0 <= k < |offs| ==> offs[k] < size
  }

  // The fields of a class are accepted exactly if the last one starts inside.
  lemma {:induction false} FieldsAccepted(t: Tables, ms: seq<Map>, links: seq<Link>, u: seq<Name>, i: nat)
    requires Wrote(t, ms, links, u) && i < |ms| && FieldsBefore(t.dms, |t.dms|) == |t.tds| && |t.dms| == |ms|
    requires (forall j :: 0 <= j < |ms| ==> Refers(ms, ms[j].base))
    requires forall k :: 0 <= k < |t.tds| ==> RangesTd(t, t.tds[k])
    ensures GoodFields(t, i) <==> EndsInside(ms, i)
  {
    hide Wrote, ExactTd, Readback.FieldOf, SentField, Saved, RangesTd, Refers, SavedBefore, OffsetsOf, Sizes,
      SlotSize, EndsInside;
    DmFacts(t, ms, links, u, i);
    FieldsBeforeGrows(t.dms, i + 1, |t.dms|);
    LastInside(ms, i);
    var offs, first, size := OffsetsOf(ms, i), SavedBefore(ms, i), t.dms[i].chSize;
    forall j | first <= j < first + |offs|
      ensures j < |t.tds| && t.tds[j].chOffset == offs[j - first]
    {
      FieldRead(t, ms, links, u, i, j - first);
    }
    if !OffsetsBelow(offs, size) {
      var k :| 0 <= k < |offs| && offs[k] >= size;
      assert t.tds[first + k].chOffset == offs[first + k - first];
      assert !GoodTd(t, t.tds[first + k], size);
    }
  }

  lemma {:induction false} LastInside(ms: seq<Map>, i: nat)
    requires i < |ms| && forall j :: 0 <= j < |ms| ==> Refers(ms, ms[j].base)
    ensures OffsetsBelow(OffsetsOf(ms, i), Sizes(ms, i + 1)[i]) <==> EndsInside(ms, i)
  {
    hide Saved, Refers, ClassSize, SlotSize, From, Sizes, Offsets;
    SizeIs(ms, i);
    var saved := Saved(ms[i].fields);
    var needs, from := Needs(saved), From(ms, ms[i].base, Sizes(ms, i));
    assert OffsetsOf(ms, i) == Offsets(needs, from) && Sizes(ms, i + 1)[i] == ClassSize(needs, from);
    if saved != [] {
      BelowIfLastIs(needs, from);
    }
  }

  lemma {:induction false} BelowIfLastIs(needs: seq<Need>, from: nat)
    requires |needs| > 0
    ensures OffsetsBelow(Offsets(needs, from), ClassSize(needs, from)) <==>
      SlotSize(needs[|needs| - 1]) > 0 || Offsets(needs, from)[|needs| - 1] % PTR != 0
  {
    hide ClassSize, SlotSize, Offsets;
    FieldsStartInside(needs, from);
  }

  lemma {:induction false} SizeIs(ms: seq<Map>, i: nat)
    requires i < |ms| && forall j :: 0 <= j < |ms| ==> Refers(ms, ms[j].base)
    ensures Sizes(ms, i + 1)[i] == ClassSize(Needs(Saved(ms[i].fields)), From(ms, ms[i].base, Sizes(ms, i)))
  {
    hide ClassSize, From, Refers, Saved;
  }

  // ---------- the round trip ----------

  // The loader accepts what the writer made exactly if there are datamaps and linked names
  // and every class ends behind the start of its last field.
  ghost predicate Loadable(ms: seq<Map>, links: seq<Link>)
    requires forall j :: 0 <= j < |ms| ==> Refers(ms, ms[j].base)
  {
    ms != [] && links != [] && forall i :: 0 <= i < |ms| ==> EndsInside(ms, i)
  }

  lemma {:induction false} WriterVerdict(t: Tables, ms: seq<Map>, links: seq<Link>, u: seq<Name>)
    requires Wrote(t, ms, links, u)
    ensures FieldsBefore(t.dms, |t.dms|) == |t.tds| && forall j :: 0 <= j < |ms| ==> Refers(ms, ms[j].base)
    ensures Verdict(t).OK? <==> Loadable(ms, links)
  {
    hide Exact, GoodDm, GoodFields, GoodLnk, EndsInside, Section, RangesTd, DmOf, TdOf, SavedRefers, Refers;
    WriterExact(t, ms, links, u);
    WriterFields(ms, u, |ms|);
    WriterRanges(t, ms, links, u);
    forall i | 0 <= i < |ms|
      ensures GoodFields(t, i) <==> EndsInside(ms, i)
    {
      FieldsAccepted(t, ms, links, u, i);
    }
  }

  // What comes back, said of what was sent and of nothing that was computed on the way.

  // A name up to its first NUL.
  ghost predicate NameCame(s: Name, r: Name) {
    |r| <= |s| && r == s[..|r|] && 0 !in r && (|r| < |s| ==> s[|r|] == 0)
  }

  ghost predicate OptCame(s: Option<Name>, r: Option<Name>) {
    s.Some? == r.Some? && (s.Some? ==> NameCame(s.value, r.value))
  }

  ghost predicate RefCame(m: Option<Map>, r: Option<Name>) {
    m.Some? == r.Some? && (m.Some? ==> NameCame(m.value.name, r.value))
  }

  // Each number modulo the width that it has in the file.
  ghost predicate FieldCame(d: Desc, f: FlatField) {
    && NameCame(d.name, f.name) && OptCame(d.external, f.external) && RefCame(d.embedded, f.embedded)
    && f.ftype == d.ftype % 0x1_0000_0000 && f.flags == d.flags % 0x1_0000 && f.nElems == d.nElems % 0x1_0000
    && f.gameOffset == d.gameOffset % SIZE_RANGE && f.totalSize == d.totalSize % SIZE_RANGE
    && f.ops == if d.ops.Some? then d.ops.value % SIZE_RANGE else NULL
  }

  // A field takes so much room: a pointer if it is custom, else whole pointers, else by the table.
  ghost predicate Takes(f: FlatField, n: nat) {
    if f.ftype == 11 then n == PTR
    else if f.totalSize < PTR then n == SMALL[f.totalSize]
    else n % PTR == 0 && f.totalSize <= n < f.totalSize + PTR
  }

  // The fields fill the class from a place on, one behind the other, to whole pointers.
  ghost predicate Filled(m: FlatMap, from: nat) {
    && (m.fields == [] ==> m.chSize % PTR == 0 && from <= m.chSize < from + PTR)
    && forall k :: 0 <= k < |m.fields| ==> FieldFills(m, from, k)
  }

  ghost predicate FieldFills(m: FlatMap, from: nat, k: nat)
    requires k < |m.fields|
  {
    && (k == 0 ==> m.fields[k].chOffset == from)
    && exists n :: Takes(m.fields[k], n) && EndsAt(m, k, m.fields[k].chOffset + n)
  }

  ghost predicate EndsAt(m: FlatMap, k: nat, end: nat)
    requires k < |m.fields|
  {
    if k + 1 < |m.fields| then m.fields[k + 1].chOffset == end
    else m.chSize % PTR == 0 && end <= m.chSize < end + PTR
  }

  // Where the own fields of a map start: behind its base if that is written before it.
  ghost predicate StartsAt(ms: seq<Map>, l: Loaded, i: nat, from: nat)
    requires i < |ms| && |l.maps| == |ms|
  {
    if ms[i].base.None? then from == 0
    else
      exists k :: 0 <= k < |ms| && ms[k].name == ms[i].base.value.name && from == if k < i then l.maps[k].chSize else 0
  }

  ghost predicate MapCame(ms: seq<Map>, l: Loaded, i: nat)
    requires i < |ms| && |l.maps| == |ms|
  {
    var m, r := ms[i], l.maps[i];
    && NameCame(m.name, r.name) && NameCame(m.mod, r.mod) && RefCame(m.base, r.base)
    && (exists places :: FieldsCame(m.fields, places, r.fields))
    && exists from: nat :: StartsAt(ms, l, i, from) && Filled(r, from)
  }

  // The fields with the flag came, and no other, in order.
  ghost predicate FieldsCame(sent: seq<Desc>, places: seq<nat>, came: seq<FlatField>) {
    && SavedAt(sent, places) && |came| == |places|
    && forall k :: 0 <= k < |came| ==> places[k] < |sent| && FieldCame(sent[places[k]], came[k])
  }

  ghost predicate AllCame(ms: seq<Map>, links: seq<Link>, l: Loaded) {
    && |l.maps| == |ms| && (forall i :: 0 <= i < |ms| ==> MapCame(ms, l, i))
    && |l.links| == |links|
    && forall k :: 0 <= k < |links| ==> LinkCame(links[k], l.links[k])
  }

  ghost predicate LinkCame(s: Link, r: Link) {
    NameCame(s.key, r.key) && NameCame(s.target, r.target)
  }

  lemma {:induction false} CutCame(s: Name)
    ensures NameCame(s, Cut(s))
  {
  }

  lemma {:induction false} OptsCame(s: Option<Name>, m: Option<Map>)
    ensures OptCame(s, CutOpt(s)) && RefCame(m, NameOf(m))
  {
    hide Cut, NameCame;
    if s.Some? {
      CutCame(s.value);
    }
    if m.Some? {
      CutCame(m.value.name);
    }
  }

  lemma {:induction false} SentFieldCame(d: Desc, chOffset: nat)
    ensures FieldCame(d, SentField(d, chOffset)) && SentField(d, chOffset).chOffset == chOffset
    ensures Takes(SentField(d, chOffset), SlotSize(NeedOf(d)))
  {
    hide Cut, NameCame, SlotSize, OptCame, RefCame, CutOpt, NameOf, NULL;
    CutCame(d.name);
    OptsCame(d.external, d.embedded);
    SlotSizes(NeedOf(d));
  }

  lemma {:induction false} SentFieldsCame(ms: seq<Map>, i: nat) returns (places: seq<nat>)
    requires i < |ms| && forall j :: 0 <= j < |ms| ==> Refers(ms, ms[j].base)
    ensures FieldsCame(ms[i].fields, places, SentMap(ms, i).fields)
  {
    hide SentField, FieldCame, SavedAt, Saved, Refers, OffsetsOf;
    places := SavedExactly(ms[i].fields);
    forall k | 0 <= k < |places|
      ensures FieldCame(ms[i].fields[places[k]], SentMap(ms, i).fields[k])
    {
      SentFieldCame(Saved(ms[i].fields)[k], OffsetsOf(ms, i)[k]);
    }
  }

  lemma {:induction false} SentFilled(ms: seq<Map>, i: nat)
    requires i < |ms| && forall j :: 0 <= j < |ms| ==> Refers(ms, ms[j].base)
    ensures Filled(SentMap(ms, i), From(ms, ms[i].base, Sizes(ms, i)))
  {
    hide SentField, Takes, Saved, Refers, Offsets, SlotSize, ClassSize, Sizes, From, NeedOf;
    var m, from := SentMap(ms, i), From(ms, ms[i].base, Sizes(ms, i));
    var needs := Needs(Saved(ms[i].fields));
    SizeIs(ms, i);
    ClassSizeIsLeast(needs, from);
    forall k | 0 <= k < |m.fields|
      ensures FieldFills(m, from, k)
    {
      SentFieldFills(ms, i, k);
    }
  }

  lemma {:induction false} SentFieldFills(ms: seq<Map>, i: nat, k: nat)
    requires i < |ms| && (forall j :: 0 <= j < |ms| ==> Refers(ms, ms[j].base)) && k < |Saved(ms[i].fields)|
    ensures FieldFills(SentMap(ms, i), From(ms, ms[i].base, Sizes(ms, i)), k)
  {
    hide SentField, Takes, Saved, Refers, Offsets, SlotSize, ClassSize, Sizes, From, NeedOf;
    var saved, from := Saved(ms[i].fields), From(ms, ms[i].base, Sizes(ms, i));
    var needs := Needs(saved);
    SizeIs(ms, i);
    OffsetsRun(needs, from, k);
    ClassSizeIsLeast(needs, from);
    SentFieldCame(saved[k], OffsetsOf(ms, i)[k]);
    if k + 1 < |saved| {
      SentFieldCame(saved[k + 1], OffsetsOf(ms, i)[k + 1]);
    }
    assert EndsAt(SentMap(ms, i), k, SentMap(ms, i).fields[k].chOffset + SlotSize(needs[k]));
  }

  lemma {:induction false} SentStarts(ms: seq<Map>, links: seq<Link>, i: nat)
    requires i < |ms| && forall j :: 0 <= j < |ms| ==> Refers(ms, ms[j].base)
    ensures StartsAt(ms, Sent(ms, links), i, From(ms, ms[i].base, Sizes(ms, i)))
  {
    hide Refers, Sizes, SentField, Saved, OffsetsOf;
    if ms[i].base.Some? {
      var k := RefMap(ms, ms[i].base);
      RefersIn(ms, ms[i].base);
      if k < i {
        Packer.SizesPrefix(ms, i, k);
      }
    }
  }

  lemma {:induction false} RefersIn(ms: seq<Map>, r: Option<Map>)
    requires Refers(ms, r) && r.Some?
    ensures RefMap(ms, r) < |ms| && ms[RefMap(ms, r)].name == r.value.name
  {
  }

  lemma {:induction false} SentCame(ms: seq<Map>, links: seq<Link>)
    requires forall j :: 0 <= j < |ms| ==> Refers(ms, ms[j].base)
    ensures AllCame(ms, links, Sent(ms, links))
  {
    hide Refers, Sizes, SentField, Saved, OffsetsOf, NameCame, RefCame, Cut, NameOf, FieldsCame, Filled, StartsAt, From;
    var l := Sent(ms, links);
    forall i | 0 <= i < |ms|
      ensures MapCame(ms, l, i)
    {
      CutCame(ms[i].name);
      CutCame(ms[i].mod);
      OptsCame(None, ms[i].base);
      var places := SentFieldsCame(ms, i);
      SentFilled(ms, i);
      SentStarts(ms, links, i);
    }
    forall k | 0 <= k < |links|
      ensures LinkCame(links[k], l.links[k])
    {
      CutCame(links[k].key);
      CutCame(links[k].target);
    }
  }

  // Writing datamaps and linked names, and loading what was written at any address.
  method SaveAndLoad(ms: seq<Map>, links: seq<Link>, base: nat) returns (r: LoaderSpec.Result, bytes: array<Cell>)
    requires Complete(ms, links) && Length(TablesOf(ms, links)) < NULL && base > 0
    ensures r.OK? <==> Loadable(ms, links)
    ensures r.OK? ==> ReadAll(bytes[..], base) == Sent(ms, links)
    ensures r.OK? ==> AllCame(ms, links, ReadAll(bytes[..], base))
  {
    hide AllCame, Encode, TablesOf, Complete, Wrote, Verdict, Exact, ReadAll, ContentsOf, Sent, Loadable, Fixed, Length,
      Interned, Refers;
    WriterWrote(ms, links);
    ghost var t, u := TablesOf(ms, links), Interned(ms, links);
    WriterVerdict(t, ms, links, u);
    WriterExact(t, ms, links, u);
    WriterContents(t, ms, links, u);
    AllReads(t, base);
    ExactSound(t);
    SentCame(ms, links);
    bytes := Packer.Pack(ms, links);
    r := Loader.VerifyAndFixup(bytes, base, t);
  }

  // A linked class whose only saved field, a float of size zero, is written and refused.
  lemma {:induction false} EmptyFieldRefused()
    ensures var d := Desc([102], 1, 2, None, 0, 1, 0, None, None);
      var ms, links := [Map([99], [115], 0, None, [d])], [Link([108], [99])];
      Complete(ms, links) && !Loadable(ms, links)
  {
    hide Saved, SlotSize, Offsets, Sizes, Needs;
    var d := Desc([102], 1, 2, None, 0, 1, 0, None, None);
    var ms, links := [Map([99], [115], 0, None, [d])], [Link([108], [99])];
    assert Saved([d]) == [d] && Needs([d]) == [Need(false, 0)] by { OneSaved(d); }
    EmptyAtStart();
    assert Names(ms)[0] == links[0].target;
    assert OffsetsOf(ms, 0) == Offsets(Needs([d]), 0);
    assert !EndsInside(ms, 0);
  }

  // Whether a class can be loaded depends on the width of pointers: a float and an empty float
  // behind it are accepted if pointers have eight bytes, and refused if they have four.
  lemma {:induction false} WidthDecides()
    ensures var a := Desc([97], 1, 2, None, 0, 1, 4, None, None);
      var b := Desc([98], 1, 2, None, 0, 1, 0, None, None);
      var ms, links := [Map([99], [115], 0, None, [a, b])], [Link([108], [99])];
      Complete(ms, links) && (Loadable(ms, links) <==> PTR == 8)
  {
    hide Saved, SlotSize, Offsets, Sizes, Needs;
    var a, b := Desc([97], 1, 2, None, 0, 1, 4, None, None), Desc([98], 1, 2, None, 0, 1, 0, None, None);
    var ms, links := [Map([99], [115], 0, None, [a, b])], [Link([108], [99])];
    TwoSaved(a, b);
    EmptyBehindFour();
    assert Names(ms)[0] == links[0].target;
    assert OffsetsOf(ms, 0) == Offsets(Needs([a, b]), 0);
    assert EndsInside(ms, 0) <==> PTR == 8;
  }

  lemma {:induction false} TwoSaved(a: Desc, b: Desc)
    requires IsSaved(a) && IsSaved(b)
    ensures Saved([a, b]) == [a, b] && Needs([a, b]) == [NeedOf(a), NeedOf(b)]
  {
    assert [a, b][..1] == [a] && [a][..0] == [];
    assert Saved([a]) == [a];
  }

  lemma {:induction false} EmptyBehindFour()
    ensures SlotSize(Need(false, 4)) == 4 && SlotSize(Need(false, 0)) == 0
    ensures Offsets([Need(false, 4), Need(false, 0)], 0) == [0, 4]
  {
    assert AndNot(7, 3) == 4 by {
      assert AndNot(7, 3) == 2 * AndNot(3, 1) && AndNot(3, 1) == 2 * AndNot(1, 0);
      assert AndNot(1, 0) == 2 * AndNot(0, 0) + 1;
    }
    var needs := [Need(false, 4), Need(false, 0)];
    assert needs[1..] == [Need(false, 0)] && needs[1..][1..] == [];
    assert Offsets([Need(false, 0)], 4) == [4] + Offsets([], 4);
  }

  lemma {:induction false} OneSaved(d: Desc)
    requires IsSaved(d) && TypeOf(d) != FieldReader.FIELD_CUSTOM
    ensures Saved([d]) == [d] && Needs([d]) == [Need(false, SizeT(d.totalSize))]
  {
    assert [d][..0] == [];
  }

  lemma {:induction false} EmptyAtStart()
    ensures SlotSize(Need(false, 0)) == 0 && Offsets([Need(false, 0)], 0) == [0]
  {
    assert [Need(false, 0)][1..] == [];
  }

  lemma {:induction false} ExactSound(t: Tables)
    requires Exact(t)
    ensures Sound(t)
  {
  }
}
