// From the messages that were received to the collection that is loaded.
module Collection {
  import opened Wrappers
  import opened Bytes
  import opened Bits
  import opened ByteReader
  import opened Datamaps
  import opened DatamapOrder
  import opened ReceiverSpec
  import opened Layout
  import opened Strings
  import opened Packing
  import opened Readback
  import opened RoundTrip
  import Packer
  import FieldReader

  // ---------- what is received can be written ----------

  lemma {:induction false} SavedAmong(fields: seq<Desc>, k: nat) returns (j: nat)
    requires k < |Saved(fields)|
    ensures j < |fields| && fields[j] == Saved(fields)[k]
    decreases |fields|
  {
    hide IsSaved;
    var n := |fields| - 1;
    if k < |Saved(fields[..n])| {
      j := SavedAmong(fields[..n], k);
    } else {
      j := n;
    }
  }

  // In every state that still accepts messages, each reference that the writer looks up is
  // to a datamap that is written.
  lemma {:induction false} ReceivedComplete(s: State, ms: seq<Map>)
    requires Safe(s) && InOrder(ms, s.store)
    ensures Complete(ms, s.linked)
  {
    hide Visit, Ordered, Saved;
    ListedOnce(ms, s.store);
    forall i, c | 0 <= i < |ms| && Child(c, ms[i])
      ensures c.name in Names(ms)
    {
      ChildCount(c, ms[i]);
      VisitsItself(c);
      assert c in Visit(s.store[ms[i].name]);
      assert Known(s.store, c);
      NameListed(ms, s.store, c.name);
    }
    forall i | 0 <= i < |ms|
      ensures Refers(ms, ms[i].base) && SavedRefers(ms, ms[i])
    {
      SavedChildren(ms, ms[i]);
    }
    forall k | 0 <= k < |s.linked|
      ensures s.linked[k].target in Names(ms)
    {
      NameListed(ms, s.store, s.linked[k].target);
    }
  }

  lemma {:induction false} VisitsItself(c: Map)
    ensures c in Visit(c)
  {
    assert Visit(c)[0] == c;
  }

  lemma {:induction false} NameListed(ms: seq<Map>, store: Store, n: Name)
    requires n in store && store[n] in ms && store[n].name == n
    ensures n in Names(ms)
  {
    var i :| 0 <= i < |ms| && ms[i] == store[n];
    assert Names(ms)[i] == n;
  }

  lemma {:induction false} SavedChildren(ms: seq<Map>, m: Map)
    requires forall c :: Child(c, m) ==> c.name in Names(ms)
    ensures Refers(ms, m.base) && SavedRefers(ms, m)
  {
    hide Saved;
    if m.base.Some? {
      assert Child(m.base.value, m);
    }
    forall k | 0 <= k < |Saved(m.fields)|
      ensures Refers(ms, Saved(m.fields)[k].embedded)
    {
      var j := SavedAmong(m.fields, k);
      if m.fields[j].embedded.Some? {
        assert Child(m.fields[j].embedded.value, m);
      }
    }
  }

  // When equal names came with equal trees, the order of the file is one of dependencies
  // exactly if no map refers to one of a module that sorts later.
  lemma {:induction false} ReceivedInOrder(s: State, ms: seq<Map>)
    requires Safe(s) && InOrder(ms, s.store) && SameTrees(s.store)
    ensures Closed(ms) && (DependenciesFirst(ms) <==> ModulesInOrder(ms)) && (OneModule(ms) ==> DependenciesFirst(ms))
  {
    hide Ordered, Closed, DependenciesFirst, ModulesInOrder, OneModule, Stored, Listing, SameTrees;
    ListingClosed(ms, s.store);
    SortedByDependency(ms);
    if OneModule(ms) {
      OneModuleSuffices(ms);
    }
  }

  // Saved fields that take room are enough for the loader to accept every class.
  lemma {:induction false} PositiveSizesLoad(ms: seq<Map>, i: nat)
    requires i < |ms| && forall j :: 0 <= j < |ms| ==> Refers(ms, ms[j].base)
    requires forall k :: 0 <= k < |Saved(ms[i].fields)| ==>
      var d := Saved(ms[i].fields)[k]; TypeOf(d) != FieldReader.FIELD_CUSTOM ==> SizeT(d.totalSize) > 0
    ensures EndsInside(ms, i)
  {
    hide SlotSize, OffsetsOf, Refers;
    var saved := Saved(ms[i].fields);
    if saved != [] {
      SlotHoldsField(Needs(saved)[|saved| - 1]);
    }
  }

  // ---------- the layout that is written ----------

  // The needs of a class and its bases, outermost base first.
  function Chain(m: Map): (chain: seq<seq<Need>>)
    ensures |chain| >= 1 && chain[|chain| - 1] == Needs(Saved(m.fields))
    decreases m
  {
    (if m.base.Some? then Chain(m.base.value) else []) + [Needs(Saved(m.fields))]
  }

  lemma {:induction false} ChainStep(m: Map)
    ensures ChainSize(Chain(m))
      == ClassSize(Needs(Saved(m.fields)), if m.base.Some? then ChainSize(Chain(m.base.value)) else 0)
    ensures ChainSize(Chain(m)[..|Chain(m)| - 1]) == if m.base.Some? then ChainSize(Chain(m.base.value)) else 0
  {
    hide ClassSize, Needs, Saved;
    var before := if m.base.Some? then Chain(m.base.value) else [];
    assert Chain(m)[..|Chain(m)| - 1] == before;
  }

  // The base of each class is written before it, or is empty.
  ghost predicate BasesReady(ms: seq<Map>)
    requires forall j :: 0 <= j < |ms| ==> Refers(ms, ms[j].base)
  {
    forall i :: 0 <= i < |ms| && ms[i].base.Some? ==>
      RefMap(ms, ms[i].base) < i || ChainSize(Chain(ms[i].base.value)) == 0
  }

  // Then the fields of each class are laid out behind its base classes, wherever these are in
  // the file: the offsets are those of the chain of bases.
  lemma {:induction false} LaidOutAsChain(ms: seq<Map>, i: nat)
    requires (forall j :: 0 <= j < |ms| ==> Refers(ms, ms[j].base)) && i < |ms| && Closed(ms) && BasesReady(ms)
    ensures Sizes(ms, i + 1)[i] == ChainSize(Chain(ms[i]))
    ensures forall k :: 0 <= k < |Saved(ms[i].fields)| ==>
      OffsetsOf(ms, i)[k] == ChainOffset(Chain(ms[i]), |Chain(ms[i])| - 1, k)
    decreases i
  {
    hide ClassSize, Needs, Saved, Closed, Refers, Sizes, Chain, RefMap;
    ChainStep(ms[i]);
    SizeIs(ms, i);
    if ms[i].base.Some? {
      var k := BaseIs(ms, i);
      if k < i {
        LaidOutAsChain(ms, k);
        Packer.SizesPrefix(ms, i, k);
      }
    }
    LastOfChain(ms[i]);
  }

  lemma {:induction false} LastOfChain(m: Map)
    ensures |Chain(m)| >= 1 && Chain(m)[|Chain(m)| - 1] == Needs(Saved(m.fields))
  {
  }

  // A base is the map in the list that the reference to it leads to.
  lemma {:induction false} BaseIs(ms: seq<Map>, i: nat) returns (k: nat)
    requires i < |ms| && Closed(ms) && ms[i].base.Some? && Refers(ms, ms[i].base)
    ensures k < |ms| && ms[k] == ms[i].base.value && RefMap(ms, ms[i].base) == k
  {
    hide Child, IndexOf, Refers;
    var c := ms[i].base.value;
    BaseIsChild(ms[i], c);
    assert c in ms;
    k :| 0 <= k < |ms| && ms[k] == c;
    IndexIs(Names(ms), k);
  }

  // All classes have the sizes of their chains exactly if every base is written before the
  // classes that have it, or is empty.
  lemma {:induction false} LaidOutExactly(ms: seq<Map>)
    requires Closed(ms) && forall j :: 0 <= j < |ms| ==> Refers(ms, ms[j].base)
    ensures BasesReady(ms) <==> forall i :: 0 <= i < |ms| ==> Sizes(ms, i + 1)[i] == ChainSize(Chain(ms[i]))
  {
    hide Closed, Refers, Sizes, Chain, RefMap, ChainSize;
    if BasesReady(ms) {
      forall i | 0 <= i < |ms|
        ensures Sizes(ms, i + 1)[i] == ChainSize(Chain(ms[i]))
      {
        LaidOutAsChain(ms, i);
      }
    } else {
      var i :| 0 <= i < |ms| && ms[i].base.Some?
        && RefMap(ms, ms[i].base) >= i && ChainSize(Chain(ms[i].base.value)) != 0;
      TooSmall(ms, i);
    }
  }

  // A class whose base is written later starts where it has no base, and so ends too early.
  lemma {:induction false} TooSmall(ms: seq<Map>, i: nat)
    requires Closed(ms) && (forall j :: 0 <= j < |ms| ==> Refers(ms, ms[j].base)) && i < |ms|
    requires ms[i].base.Some? && RefMap(ms, ms[i].base) >= i && ChainSize(Chain(ms[i].base.value)) != 0
    ensures Sizes(ms, i + 1)[i] < ChainSize(Chain(ms[i]))
  {
    hide ClassSize, Needs, Saved, Closed, Refers, Sizes, Chain, RefMap, ChainSize;
    var c := ms[i].base.value;
    SizeIs(ms, i);
    ChainStep(ms[i]);
    ChainStep(c);
    ClassSizeGrows(Needs(Saved(c.fields)), if c.base.Some? then ChainSize(Chain(c.base.value)) else 0);
    WholePointer(ChainSize(Chain(c)));
    ClassSizeGrows(Needs(Saved(ms[i].fields)), ChainSize(Chain(c)));
  }

  lemma {:induction false} WholePointer(x: nat)
    requires x % PTR == 0 && x != 0
    ensures x >= PTR
  {
  }

  lemma {:induction false} DependenciesReady(ms: seq<Map>)
    requires Closed(ms) && DependenciesFirst(ms) && forall j :: 0 <= j < |ms| ==> Refers(ms, ms[j].base)
    ensures BasesReady(ms)
  {
    hide Closed, DependenciesFirst, Refers, Chain, RefMap, ChainSize;
    forall i | 0 <= i < |ms| && ms[i].base.Some?
      ensures RefMap(ms, ms[i].base) < i
    {
      var k := BaseBefore(ms, i);
    }
  }

  lemma {:induction false} BaseBefore(ms: seq<Map>, i: nat) returns (k: nat)
    requires i < |ms| && Closed(ms) && DependenciesFirst(ms) && ms[i].base.Some? && Refers(ms, ms[i].base)
    ensures k < i && ms[k] == ms[i].base.value && RefMap(ms, ms[i].base) == k
  {
    hide Child, IndexOf, Refers;
    var c := ms[i].base.value;
    BaseIsChild(ms[i], c);
    assert c in ms;
    k :| 0 <= k < |ms| && ms[k] == c;
    var j :| 0 <= j < i && ms[j].name == c.name;
    assert j == k;
    IndexIs(Names(ms), k);
  }

  lemma {:induction false} BaseIsChild(m: Map, c: Map)
    requires m.base == Some(c)
    ensures Child(c, m)
  {
  }

  // No two saved fields of a written class and its bases overlap.
  lemma {:induction false} WrittenSlotsApart(ms: seq<Map>, i: nat, k: nat, l: nat)
    requires (forall j :: 0 <= j < |ms| ==> Refers(ms, ms[j].base)) && i < |ms| && Closed(ms) && BasesReady(ms)
    requires k < l < |Saved(ms[i].fields)|
    ensures var needs := Needs(Saved(ms[i].fields)); var offs := OffsetsOf(ms, i);
      && ChainSize(Chain(ms[i])[..|Chain(ms[i])| - 1]) <= offs[k] && offs[k] + SlotSize(needs[k]) <= offs[l]
      && offs[l] + SlotSize(needs[l]) <= Sizes(ms, i + 1)[i]
  {
    hide ClassSize, Needs, Saved, Closed, DependenciesFirst, Refers, Sizes, SlotSize;
    LaidOutAsChain(ms, i);
    var chain := Chain(ms[i]);
    ChainSlotsApart(chain, |chain| - 1, k, |chain| - 1, l);
    ChainSlotInside(chain, |chain| - 1, k);
    ChainSlotInside(chain, |chain| - 1, l);
    assert chain[..|chain|] == chain;
  }

  // ---------- names come back whole ----------

  lemma {:induction false} CutWhole(s: Name)
    ensures Cut(s) == s <==> 0 !in s
  {
    if Cut(s) == s {
      assert ZeroAt(s) == |s|;
    } else {
      assert ZeroAt(s) < |s|;
      assert s[ZeroAt(s)] == 0;
    }
  }

  // ---------- the lookup table ----------

  // Every name that is looked up: of datamaps, then linked names.
  function LookupNames(l: Loaded): (names: seq<Name>)
    ensures |names| == |l.maps| + |l.links|
    ensures forall i :: 0 <= i < |l.maps| ==> names[i] == l.maps[i].name
    ensures forall k :: |l.maps| <= k < |names| ==> names[k] == l.links[k - |l.maps|].key
  {
    seq(|l.maps|, i requires 0 <= i < |l.maps| => l.maps[i].name)
    + seq(|l.links|, k requires 0 <= k < |l.links| => l.links[k].key)
  }

  ghost predicate NoTwins(names: seq<Name>) {
    forall i, j :: 0 <= i < j < |names| ==> names[i] != names[j]
  }

  ghost predicate Leads(lookup: map<Name, Name>, name: Name, class_: Name) {
    name in lookup && lookup[name] == class_
  }

  // The names that were entered so far, and whether none was entered twice.
  ghost predicate Entered(lookup: map<Name, Name>, clean: bool, names: seq<Name>) {
    (forall n :: n in lookup <==> n in names) && (clean <==> NoTwins(names))
  }

  ghost predicate MapsLead(lookup: map<Name, Name>, maps: seq<FlatMap>) {
    forall j :: 0 <= j < |maps| ==> Leads(lookup, maps[j].name, maps[j].name)
  }

  ghost predicate LinksLead(lookup: map<Name, Name>, links: seq<Link>) {
    forall j :: 0 <= j < |links| ==> Leads(lookup, links[j].key, links[j].target)
  }

  // ch_create_collection_lookup: the class that each name stands for, and whether no entry
  // replaced another, which is asserted of each. The last entry of a name is the one kept.
  method CreateLookup(l: Loaded) returns (lookup: map<Name, Name>, clean: bool)
    ensures Entered(lookup, clean, LookupNames(l))
    ensures clean ==> MapsLead(lookup, l.maps) && LinksLead(lookup, l.links)
    ensures l.links != [] ==> Leads(lookup, l.links[|l.links| - 1].key, l.links[|l.links| - 1].target)
  {
    hide NoTwins, Entered, Leads;
    ghost var names := LookupNames(l);
    lookup, clean := map[], true;
    NoneYet(names);
    for i := 0 to |l.maps|
      invariant Entered(lookup, clean, names[..i]) && MapsLead(lookup, l.maps[..i])
    {
      OneMore(lookup, clean, names, i, l.maps[i].name);
      OneLead(lookup, l.maps[..i], l.maps[i]);
      clean := clean && l.maps[i].name !in lookup;
      lookup := lookup[l.maps[i].name := l.maps[i].name];
      assert l.maps[..i] + [l.maps[i]] == l.maps[..i + 1];
    }
    assert l.maps[..|l.maps|] == l.maps;
    ghost var n := |l.maps|;
    for k := 0 to |l.links|
      invariant Entered(lookup, clean, names[..n + k])
      invariant clean ==> MapsLead(lookup, l.maps) && LinksLead(lookup, l.links[..k])
      invariant k > 0 ==> Leads(lookup, l.links[k - 1].key, l.links[k - 1].target)
    {
      var link := l.links[k];
      OneMore(lookup, clean, names, n + k, link.target);
      OthersLead(lookup, link, l.maps, l.links[..k]);
      clean := clean && link.key !in lookup;
      lookup := lookup[link.key := link.target];
      assert l.links[..k] + [link] == l.links[..k + 1];
    }
    assert names[..|names|] == names && l.links[..|l.links|] == l.links;
  }

  lemma {:induction false} OneLead(lookup: map<Name, Name>, maps: seq<FlatMap>, m: FlatMap)
    requires MapsLead(lookup, maps)
    ensures MapsLead(lookup[m.name := m.name], maps + [m])
  {
  }

  lemma {:induction false} OthersLead(lookup: map<Name, Name>, link: Link, maps: seq<FlatMap>, links: seq<Link>)
    ensures Leads(lookup[link.key := link.target], link.key, link.target)
    ensures link.key !in lookup && MapsLead(lookup, maps) ==> MapsLead(lookup[link.key := link.target], maps)
    ensures link.key !in lookup && LinksLead(lookup, links) ==>
      LinksLead(lookup[link.key := link.target], links + [link])
  {
  }

  lemma {:induction false} NoneYet(names: seq<Name>)
    ensures Entered(map[], true, names[..0])
  {
  }

  lemma {:induction false} OneMore(lookup: map<Name, Name>, clean: bool, names: seq<Name>, i: nat, class_: Name)
    requires i < |names| && Entered(lookup, clean, names[..i])
    ensures Entered(lookup[names[i] := class_], clean && names[i] !in lookup, names[..i + 1])
  {
    assert names[..i + 1] == names[..i] + [names[i]];
    if NoTwins(names[..i + 1]) {
      forall j, k | 0 <= j < k < i
        ensures names[..i][j] != names[..i][k]
      {
        assert names[..i + 1][j] != names[..i + 1][k];
      }
      forall j | 0 <= j < i
        ensures names[..i][j] != names[i]
      {
        assert names[..i + 1][j] != names[..i + 1][i];
      }
    }
  }

  // Of what was received, no entry replaces another exactly if linked names are apart from
  // datamaps and from each other; names are free of NULs here.
  lemma {:induction false} ReceivedLookup(s: State, ms: seq<Map>)
    requires Safe(s) && InOrder(ms, s.store) && forall j :: 0 <= j < |ms| ==> Refers(ms, ms[j].base)
    requires (forall i :: 0 <= i < |ms| ==> 0 !in ms[i].name)
    requires forall k :: 0 <= k < |s.linked| ==> 0 !in s.linked[k].key
    ensures NoTwins(LookupNames(Sent(ms, s.linked))) <==> LinkedApart(s) && KeysDiffer(s.linked)
  {
    hide Cut, Refers, Ordered, Visit, NoTwins, LinkedApart, KeysDiffer, Listing, OffsetsOf, Sizes, Saved, SentField;
    ListedOnce(ms, s.store);
    LookedUp(ms, s.linked);
    AllListed(ms, s.store);
    KeysApart(s, ms, LookupNames(Sent(ms, s.linked)));
  }

  ghost predicate KeysDiffer(links: seq<Link>) {
    forall k, l :: 0 <= k < l < |links| ==> links[k].key != links[l].key
  }

  lemma {:induction false} AllListed(ms: seq<Map>, store: Store)
    requires forall n :: n in store ==> store[n] in ms && store[n].name == n
    ensures forall n :: n in store ==> exists i :: 0 <= i < |ms| && ms[i].name == n
  {
    forall n | n in store
      ensures exists i :: 0 <= i < |ms| && ms[i].name == n
    {
      var i :| 0 <= i < |ms| && ms[i] == store[n];
      assert ms[i].name == n;
    }
  }

  lemma {:induction false} LookedUp(ms: seq<Map>, links: seq<Link>)
    requires forall j :: 0 <= j < |ms| ==> Refers(ms, ms[j].base)
    requires (forall i :: 0 <= i < |ms| ==> 0 !in ms[i].name) && forall k :: 0 <= k < |links| ==> 0 !in links[k].key
    ensures var names := LookupNames(Sent(ms, links));
      && |names| == |ms| + |links| && (forall i :: 0 <= i < |ms| ==> names[i] == ms[i].name)
      && forall k :: |ms| <= k < |names| ==> names[k] == links[k - |ms|].key
  {
    hide Cut, Refers, SentField, OffsetsOf, Sizes, Saved;
    var l := Sent(ms, links);
    var names, n := LookupNames(l), |ms|;
    forall i | 0 <= i < n
      ensures names[i] == ms[i].name
    {
      CutWhole(ms[i].name);
      assert l.maps[i] == SentMap(ms, i);
    }
    forall k | n <= k < |names|
      ensures names[k] == links[k - n].key
    {
      CutWhole(links[k - n].key);
    }
  }

  lemma {:induction false} KeysApart(s: State, ms: seq<Map>, names: seq<Name>)
    requires |names| == |ms| + |s.linked| && forall i :: 0 <= i < |ms| ==> names[i] == ms[i].name
    requires forall k :: |ms| <= k < |names| ==> names[k] == s.linked[k - |ms|].key
    requires forall i, j :: 0 <= i < j < |ms| ==> ms[i].name != ms[j].name
    requires (forall i :: 0 <= i < |ms| ==> ms[i].name in s.store)
    requires forall n :: n in s.store ==> exists i :: 0 <= i < |ms| && ms[i].name == n
    ensures NoTwins(names) <==> LinkedApart(s) && KeysDiffer(s.linked)
  {
    var n := |ms|;
    if NoTwins(names) {
      forall k, i | 0 <= k < |s.linked| && 0 <= i < n
        ensures ms[i].name != s.linked[k].key
      {
        assert names[i] != names[n + k];
      }
      forall k, l | 0 <= k < l < |s.linked|
        ensures s.linked[k].key != s.linked[l].key
      {
        assert names[n + k] != names[n + l];
      }
    }
  }
}
