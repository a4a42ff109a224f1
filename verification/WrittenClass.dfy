// The classes of a loaded collection, as the restore engine uses them.
module WrittenClass {
  import opened Wrappers
  import opened Bytes
  import opened ByteReader
  import opened Datamaps
  import opened DatamapOrder
  import opened ReceiverSpec
  import opened Layout
  import opened Packing
  import opened Image
  import opened Readback
  import opened RoundTrip
  import FieldReader
  import FieldSearch
  import FieldOrder
  import ObjectSlots
  import ObjectOrder
  import Packer
  import Strings

  // All that a datamap refers to is in the list before it.
  ghost predicate RefsBefore(ms: seq<Map>) {
    forall j :: 0 <= j < |ms| ==> MapRefsBefore(ms, j)
  }

  ghost predicate MapRefsBefore(ms: seq<Map>, j: nat)
    requires j < |ms|
  {
    && Before(ms, ms[j].base, j)
    && forall k :: 0 <= k < |Saved(ms[j].fields)| ==> Before(ms, Saved(ms[j].fields)[k].embedded, j)
  }

  ghost predicate Before(ms: seq<Map>, r: Option<Map>, j: nat) {
    Refers(ms, r) && (r.Some? ==> RefMap(ms, r) < j)
  }

  lemma {:induction false} AllRefer(ms: seq<Map>)
    requires RefsBefore(ms)
    ensures forall j :: 0 <= j < |ms| ==> Refers(ms, ms[j].base)
  {
    hide Refers, Saved;
    forall j | 0 <= j < |ms|
      ensures Refers(ms, ms[j].base)
    {
      assert MapRefsBefore(ms, j);
    }
  }

  // In the order of dependencies, that is so.
  lemma {:induction false} DependenciesBefore(ms: seq<Map>, links: seq<Link>)
    requires Complete(ms, links) && DependenciesFirst(ms)
    ensures RefsBefore(ms)
  {
    hide Saved, Child, Refers;
    forall j | 0 <= j < |ms|
      ensures MapRefsBefore(ms, j)
    {
      assert Refers(ms, ms[j].base) && SavedRefers(ms, ms[j]);
      if ms[j].base.Some? {
        assert Child(ms[j].base.value, ms[j]) by { BaseChild(ms[j]); }
        ChildBefore(ms, ms[j].base.value, j);
      }
      forall k | 0 <= k < |Saved(ms[j].fields)|
        ensures Before(ms, Saved(ms[j].fields)[k].embedded, j)
      {
        var d := Saved(ms[j].fields)[k];
        if d.embedded.Some? {
          SavedChild(ms[j], k);
          ChildBefore(ms, d.embedded.value, j);
        }
      }
    }
  }

  lemma {:induction false} BaseChild(m: Map)
    requires m.base.Some?
    ensures Child(m.base.value, m)
  {
  }

  lemma {:induction false} SavedChild(m: Map, k: nat)
    requires k < |Saved(m.fields)| && Saved(m.fields)[k].embedded.Some?
    ensures Child(Saved(m.fields)[k].embedded.value, m)
  {
    hide Saved;
    var places := SavedExactly(m.fields);
    assert m.fields[places[k]].embedded == Some(Saved(m.fields)[k].embedded.value);
  }

  lemma {:induction false} ChildBefore(ms: seq<Map>, c: Map, j: nat)
    requires DependenciesFirst(ms) && j < |ms| && Child(c, ms[j]) && Refers(ms, Some(c))
    requires forall i, k :: 0 <= i < k < |ms| ==> ms[i].name != ms[k].name
    ensures Before(ms, Some(c), j)
  {
    hide Child;
    var i :| 0 <= i < j && ms[i].name == c.name;
    Strings.IndexIs(Names(ms), i);
  }

  // A loaded class with its bases and with what is embedded in it. Handlers are registered for
  // the operations that the game used.
  ghost function ClassOf(ms: seq<Map>, i: nat, handlers: nat -> Option<nat>): (dm: FieldReader.Datamap)
    requires i < |ms| && RefsBefore(ms)
    decreases i, 1
  {
    AllRefer(ms);
    assert MapRefsBefore(ms, i);
    var base := if ms[i].base.Some? then Some(ClassOf(ms, RefMap(ms, ms[i].base), handlers)) else None;
    FieldReader.Datamap(SentMap(ms, i).name, base, OwnFields(ms, i, handlers))
  }

  ghost function OwnFields(ms: seq<Map>, i: nat, handlers: nat -> Option<nat>): (fields: seq<FieldReader.Field>)
    requires i < |ms| && RefsBefore(ms)
    ensures |fields| == |Saved(ms[i].fields)|
    ensures forall k :: 0 <= k < |fields| ==> fields[k] == FieldAt(ms, i, k, handlers)
    decreases i, 0, 1
  {
    seq(|Saved(ms[i].fields)|, k requires 0 <= k < |Saved(ms[i].fields)| => FieldAt(ms, i, k, handlers))
  }

  ghost function FieldAt(ms: seq<Map>, i: nat, k: nat, handlers: nat -> Option<nat>): (field: FieldReader.Field)
    requires i < |ms| && RefsBefore(ms) && k < |Saved(ms[i].fields)|
    ensures forall j :: 0 <= j < |ms| ==> Refers(ms, ms[j].base)
    ensures var f := SentMap(ms, i).fields[k];
      && field.name == f.name && field.nElems == f.nElems && field.totalSize == f.totalSize
      && field.chOffset == f.chOffset && (field.kind.Custom? <==> f.ftype == FieldReader.FIELD_CUSTOM)
    decreases i, 0, 0
  {
    AllRefer(ms);
    assert MapRefsBefore(ms, i);
    var f, r := SentMap(ms, i).fields[k], Saved(ms[i].fields)[k].embedded;
    var kind :=
      if f.ftype == FieldReader.FIELD_CUSTOM then
        FieldReader.Custom(if f.ops == NULL then None else handlers(f.ops))
      else if f.ftype == FieldReader.FIELD_EMBEDDED && r.Some? then
        FieldReader.Embedded(ClassOf(ms, RefMap(ms, r), handlers))
      else FieldReader.Simple(f.ftype);
    FieldReader.Field(f.name, kind, f.nElems, f.totalSize, f.chOffset)
  }

  // The fields of a loaded class are where the writer put them.
  lemma {:induction false} WrittenClassIsLaidOut(ms: seq<Map>, i: nat, handlers: nat -> Option<nat>)
    requires i < |ms| && RefsBefore(ms)
    ensures forall j :: 0 <= j < |ms| ==> Refers(ms, ms[j].base)
    ensures var dm := ClassOf(ms, i, handlers);
      && FieldOrder.LaidOut(dm, From(ms, ms[i].base, Sizes(ms, i)))
      && FieldOrder.Needs(dm) == Packing.Needs(Saved(ms[i].fields))
  {
    hide Refers, Sizes, From, Saved, Offsets, SlotSize, FieldAt;
    AllRefer(ms);
    var dm, saved := ClassOf(ms, i, handlers), Saved(ms[i].fields);
    var from := From(ms, ms[i].base, Sizes(ms, i));
    forall k | 0 <= k < |saved|
      ensures FieldOrder.Needs(dm)[k] == Packing.Needs(saved)[k]
    {
      assert dm.fields[k] == FieldAt(ms, i, k, handlers);
    }
    assert FieldOrder.Needs(dm) == Packing.Needs(saved);
    assert OffsetsOf(ms, i) == Offsets(Packing.Needs(saved), from);
  }

  // ---------- what is restored ----------

  // A class whose fields have names that differ even without case, and room for what they bring:
  // a pointer for each string, and for an embedded field the class that it embeds, once.
  ghost predicate Fitting(dm: FieldReader.Datamap)
    decreases dm, 1
  {
    && FieldSearch.UniqueNames(dm.fields) && (forall k :: 0 <= k < |dm.fields| ==> FittingField(dm.fields[k]))
    && (dm.base.Some? ==> Fitting(dm.base.value))
  }

  ghost predicate FittingField(field: FieldReader.Field)
    decreases field, 0
  {
    match field.kind
    case Simple(ftype) =>
      FieldOrder.Restorable(field) && (FieldReader.StringLike(ftype) ==> FieldOrder.HasRoom(field))
    case Embedded(inner) =>
      Fitting(inner) && ObjectSlots.ChainEnd(inner) <= field.totalSize && (field.nElems <= 1 || field.totalSize == 0)
    case Custom(_) => true
  }

  // A written class stands behind its bases, ends at its ch_size, and has room in its slots for
  // all of its fields.
  lemma {:induction false} WrittenClassIsWhole(ms: seq<Map>, i: nat, handlers: nat -> Option<nat>)
    requires i < |ms| && RefsBefore(ms) && Fitting(ClassOf(ms, i, handlers))
    ensures forall j :: 0 <= j < |ms| ==> Refers(ms, ms[j].base)
    ensures var dm := ClassOf(ms, i, handlers);
      ObjectSlots.Whole(dm) && ObjectSlots.ChainEnd(dm) == Sizes(ms, i + 1)[i]
    decreases i
  {
    hide Refers, Sizes, From, FieldSearch.UniqueNames, FieldOrder.LaidOut, RefMap, ClassSize, Saved, FieldAt,
      ObjectSlots.WholeField, FittingField, OwnFields;
    AllRefer(ms);
    var dm := ClassOf(ms, i, handlers);
    SizeIs(ms, i);
    StartOfClass(ms, i);
    ObjectSlots.StartIsEnd(dm);
    if ms[i].base.Some? {
      var k := RefMap(ms, ms[i].base);
      WrittenClassIsWhole(ms, k, handlers);
      Packer.SizesPrefix(ms, i, k);
    }
    WrittenClassIsLaidOut(ms, i, handlers);
    forall k | 0 <= k < |dm.fields|
      ensures ObjectSlots.WholeField(dm.fields[k])
    {
      assert dm.fields == OwnFields(ms, i, handlers) && dm.fields[k] == FieldAt(ms, i, k, handlers);
      WrittenFieldIsWhole(ms, i, k, handlers);
    }
  }

  lemma {:induction false} WrittenFieldIsWhole(ms: seq<Map>, i: nat, k: nat, handlers: nat -> Option<nat>)
    requires i < |ms| && RefsBefore(ms) && k < |Saved(ms[i].fields)| && FittingField(FieldAt(ms, i, k, handlers))
    ensures ObjectSlots.WholeField(FieldAt(ms, i, k, handlers))
    decreases i, 0
  {
    hide Refers, Saved, RefMap, ClassOf, ObjectSlots.Slot, FieldOrder.Restorable, FieldOrder.HasRoom;
    var field := FieldAt(ms, i, k, handlers);
    if field.kind.Embedded? {
      assert MapRefsBefore(ms, i);
      WrittenClassIsWhole(ms, RefMap(ms, Saved(ms[i].fields)[k].embedded), handlers);
      ObjectSlots.ElementsFitSlot(field);
    }
  }

  lemma {:induction false} StartOfClass(ms: seq<Map>, i: nat)
    requires i < |ms| && RefsBefore(ms)
    ensures forall j :: 0 <= j < |ms| ==> Refers(ms, ms[j].base)
    ensures ms[i].base.Some? ==> RefMap(ms, ms[i].base) < i
    ensures ms[i].base.Some? ==> From(ms, ms[i].base, Sizes(ms, i)) == Sizes(ms, i)[RefMap(ms, ms[i].base)]
    ensures ms[i].base.None? ==> From(ms, ms[i].base, Sizes(ms, i)) == 0
  {
    hide Refers, Sizes;
    AllRefer(ms);
    assert MapRefsBefore(ms, i);
  }

  // An object of a written class is restored completely: each record of the class, of its bases
  // and of what is embedded in them is in its place in the end, and nothing else has changed.
  lemma {:induction false} WrittenObjectRestored(ms: seq<Map>, i: nat, handlers: nat -> Option<nat>,
        env: FieldReader.Env, parts: seq<ObjectSlots.Part>, w: Window, mem: FieldReader.Memory, at: nat)
    requires i < |ms| && RefsBefore(ms) && Fitting(ClassOf(ms, i, handlers))
    requires ObjectSlots.ValidParts(env, ClassOf(ms, i, handlers), parts)
    requires FieldOrder.Begins(env.data, w, ObjectSlots.PartsBytes(parts))
    ensures FieldReader.Inside(env.data, w) && forall j :: 0 <= j < |ms| ==> Refers(ms, ms[j].base)
    ensures var dm := ClassOf(ms, i, handlers); var o := FieldReader.RestoreRecursive(env, dm, w, mem, at);
      && o.err.NONE? && ObjectSlots.PartsKept(env, dm, parts, o.mem, at)
      && ObjectSlots.SameOutside(mem, o.mem, at, at + Sizes(ms, i + 1)[i])
  {
    hide ClassOf, Fitting, FieldReader.RestoreRecursive, ObjectSlots.Whole, ObjectSlots.ChainEnd,
      ObjectSlots.PartsKept, ObjectSlots.SameOutside, ObjectSlots.ValidParts, ObjectSlots.PartsBytes, FieldOrder.Begins;
    WrittenClassIsWhole(ms, i, handlers);
    ObjectSlots.PartsRestored(env, ClassOf(ms, i, handlers), parts, w, mem, at);
  }

  // Two save files that hold the same of an object of a written class, with the records of each
  // class in any order at any depth, are both restored, and to the same object.
  lemma {:induction false} WrittenOrderDoesNotMatter(ms: seq<Map>, i: nat, handlers: nat -> Option<nat>,
        env: FieldReader.Env, env': FieldReader.Env, parts: seq<ObjectSlots.Part>, parts': seq<ObjectSlots.Part>,
        w: Window, w': Window, mem: FieldReader.Memory, at: nat)
    requires i < |ms| && RefsBefore(ms) && Fitting(ClassOf(ms, i, handlers)) && ObjectOrder.SameTables(env, env')
    requires ObjectOrder.SameParts(env.symbols, ClassOf(ms, i, handlers), parts, parts')
    requires ObjectSlots.ValidParts(env, ClassOf(ms, i, handlers), parts)
    requires ObjectSlots.ValidParts(env', ClassOf(ms, i, handlers), parts')
    requires FieldOrder.Begins(env.data, w, ObjectSlots.PartsBytes(parts))
    requires FieldOrder.Begins(env'.data, w', ObjectSlots.PartsBytes(parts'))
    ensures FieldReader.Inside(env.data, w) && FieldReader.Inside(env'.data, w')
    ensures var dm := ClassOf(ms, i, handlers);
      var o := FieldReader.RestoreRecursive(env, dm, w, mem, at);
      var o' := FieldReader.RestoreRecursive(env', dm, w', mem, at);
      o.err.NONE? && o'.err.NONE? && o.mem == o'.mem
  {
    hide ClassOf, Fitting, FieldReader.RestoreRecursive, ObjectSlots.Whole, ObjectSlots.ValidParts,
      ObjectSlots.PartsBytes, ObjectOrder.SameParts, FieldOrder.Begins;
    WrittenClassIsWhole(ms, i, handlers);
    ObjectOrder.ObjectOrderDoesNotMatter(env, env', ClassOf(ms, i, handlers), parts, parts', w, w', mem, at);
  }
}
