// Restoring an object does not depend on the order of the records, whatever the kinds of its
// fields and at any depth of base classes and embedded classes.
module ObjectOrder {
  import opened Wrappers
  import opened Bits
  import opened Bytes
  import opened ByteReader
  import opened FieldReader
  import opened FieldSearch
  import opened FieldOrder
  import opened ClassOrder
  import opened ObjectSlots

  // ---------- the bytes that are written ----------

  // A byte that is written when a body is restored.
  ghost predicate BodyWrites(env: Env, field: Field, b: Body, at: nat, x: nat)
    requires ValidBody(env, field, b)
    decreases b
  {
    var to := at + field.chOffset;
    match field.kind
    case Simple(_) => to <= x < to + |FieldCells(field, b.bytes)|
    case Embedded(inner) => ElementsWrite(env, inner, b.els, to, field.totalSize, x)
    case Custom(None) => false
    case Custom(Some(ops)) => to <= x < to + PTR
  }

  ghost predicate ElementsWrite(env: Env, inner: Datamap, els: seq<Element>, at: nat, total: nat, x: nat)
    requires ValidElements(env, inner, els)
    decreases els
  {
    exists j :: 0 <= j < |els| && PartsWrite(env, inner, els[j].parts, at + total * j, x)
  }

  ghost predicate PartsWrite(env: Env, dm: Datamap, parts: seq<Part>, at: nat, x: nat)
    requires ValidParts(env, dm, parts)
    decreases parts
  {
    || PartWrites(env, dm, parts[|parts| - 1], at, x)
    || (dm.base.Some? && PartsWrite(env, dm.base.value, parts[..|parts| - 1], at, x))
  }

  ghost predicate PartWrites(env: Env, dm: Datamap, p: Part, at: nat, x: nat)
    requires ValidPart(env, dm, p)
    decreases p
  {
    ItemsWrite(env, dm, p.items, at, x)
  }

  ghost predicate ItemsWrite(env: Env, dm: Datamap, items: seq<Item>, at: nat, x: nat)
    requires ValidItems(env, dm, items)
    decreases items
  {
    exists i :: 0 <= i < |items| && ItemWrites(env, dm, items[i], at, x)
  }

  ghost predicate ItemWrites(env: Env, dm: Datamap, i: Item, at: nat, x: nat)
    requires ValidItem(env, dm, i)
    decreases i
  {
    BodyWrites(env, FieldAt(env.symbols, dm, i), i.body, at, x)
  }

  // ---------- nothing else is written ----------

  lemma {:induction false} SameTwice(m0: Memory, m1: Memory, m: Memory, x: nat)
    requires Same1(m0, m1, x) && Same1(m1, m, x)
    ensures Same1(m0, m, x)
  {
  }

  lemma {:induction false} WriteOnly(mem: Memory, at: nat, cells: seq<Cell>, x: nat)
    requires x < at || x >= at + |cells|
    ensures Same1(mem, Write(mem, at, cells), x)
  {
  }

  lemma {:induction false} BodyOnly(env: Env, field: Field, b: Body, w: Window, mem: Memory, at: nat, x: nat)
    requires WholeField(field) && ValidBody(env, field, b) && !BodyWrites(env, field, b, at, x)
    requires Inside(env.data, w) && !Overflowed(w) && env.data[w.cur..w.end] == BodyBytes(b)
    ensures Same1(mem, RestoreField(env, field, w, mem, at).mem, x)
    decreases b
  {
    hide Same1, FieldCells, ObjectPointer, Enough, RestoreElements, Write, Restorable, Begins, Rest, ElementsBytes,
      ElementsWrite, HasRoom, RestoreSimple;
    match field.kind {
      case Simple(_) =>
        WindowBegins(env.data, w, b.bytes, []);
        SimpleOnly(env, field, b.bytes, w, mem, at, x);
      case Embedded(inner) =>
        WindowBegins(env.data, w, ElementsBytes(b.els), b.more);
        ElementsOnly(env, inner, b.els, field.totalSize, w, mem, at + field.chOffset, x);
      case Custom(_) =>
        CustomOnly(env, field, b, w, mem, at, x);
    }
  }

  lemma {:induction false} SimpleOnly(env: Env, field: Field, payload: seq<Byte>, w: Window, mem: Memory, at: nat,
        x: nat)
    requires field.kind.Simple? && WholeField(field) && Enough(field, payload)
    requires Inside(env.data, w) && !Overflowed(w) && Rest(env.data, w) == payload + []
    requires var to := at + field.chOffset; !(to <= x < to + |FieldCells(field, payload)|)
    ensures Same1(mem, RestoreField(env, field, w, mem, at).mem, x)
  {
    hide Same1, FieldCells, Write, RestoreField, Enough, Rest, HasRoom;
    assert payload + [] == payload;
    FieldWritten(env, field, w, mem, at, payload);
    WriteOnly(mem, at + field.chOffset, FieldCells(field, payload), x);
  }

  lemma {:induction false} CustomOnly(env: Env, field: Field, b: Body, w: Window, mem: Memory, at: nat, x: nat)
    requires field.kind.Custom? && ValidBody(env, field, b) && !BodyWrites(env, field, b, at, x)
    requires Inside(env.data, w) && !Overflowed(w) && env.data[w.cur..w.end] == BodyBytes(b)
    ensures Same1(mem, RestoreField(env, field, w, mem, at).mem, x)
  {
    hide Lies, ObjectPointer, RestoreField, Begins, Rest;
    WindowBegins(env.data, w, b.bytes, []);
    assert b.bytes + [] == b.bytes;
    HandlerAnswered(env, field, field.kind.ops, w, mem, at);
  }

  lemma {:induction false} ElementsOnly(env: Env, inner: Datamap, els: seq<Element>, total: nat, w: Window,
        mem: Memory, at: nat, x: nat)
    requires Whole(inner) && ChainEnd(inner) <= total && ValidElements(env, inner, els)
    requires Begins(env.data, w, ElementsBytes(els)) && !ElementsWrite(env, inner, els, at, total, x)
    ensures Inside(env.data, w)
    ensures Same1(mem, RestoreElements(env, inner, |els|, total, w, mem, at).mem, x)
    decreases els
  {
    hide Whole, ValidParts, PartsKept, Begins, SameOutside, Same1, PartsBytes, ChainEnd, RestoreRecursive, PartsWrite;
    BeginsInside(env.data, w, ElementsBytes(els));
    if els == [] {
      NoChange(mem, x);
    } else {
      BeginsSplit(env.data, w, PartsBytes(els[0].parts), ElementsBytes(els[1..]));
      assert !PartsWrite(env, inner, els[0].parts, at + total * 0, x);
      PartsRestored(env, inner, els[0].parts, w, mem, at);
      PartsOnly(env, inner, els[0].parts, w, mem, at, x);
      var o1 := RestoreRecursive(env, inner, w, mem, at);
      LaterElements(env, inner, els, at, total, x);
      ElementsOnly(env, inner, els[1..], total, o1.w, o1.mem, at + total, x);
      var o := RestoreElements(env, inner, |els|, total, w, mem, at);
      assert o == RestoreElements(env, inner, |els| - 1, total, o1.w, o1.mem, at + total);
      SameTwice(mem, o1.mem, o.mem, x);
    }
  }

  lemma {:induction false} NoChange(m: Memory, x: nat)
    ensures Same1(m, m, x)
  {
  }

  lemma {:induction false} LaterElements(env: Env, inner: Datamap, els: seq<Element>, at: nat, total: nat, x: nat)
    requires els != [] && ValidElements(env, inner, els) && !ElementsWrite(env, inner, els, at, total, x)
    ensures ValidElements(env, inner, els[1..]) && !ElementsWrite(env, inner, els[1..], at + total, total, x)
  {
    hide ValidParts, PartsWrite;
    forall j | 0 <= j < |els[1..]|
      ensures !PartsWrite(env, inner, els[1..][j].parts, at + total + total * j, x)
    {
      assert els[1..][j] == els[j + 1];
      NextElement(at, total, j + 1);
    }
  }

  lemma {:induction false} PartsOnly(env: Env, dm: Datamap, parts: seq<Part>, w: Window, mem: Memory, at: nat, x: nat)
    requires Whole(dm) && ValidParts(env, dm, parts) && Begins(env.data, w, PartsBytes(parts))
    requires !PartsWrite(env, dm, parts, at, x)
    ensures Inside(env.data, w) && Same1(mem, RestoreRecursive(env, dm, w, mem, at).mem, x)
    decreases parts
  {
    hide ValidPart, PartKept, PartsKept, PartWrites, Begins, SameOutside, Same1, PartBytes, ChainEnd, OwnStart,
      RestoreFields, LaidOut, WholeField, UniqueNames, RestoreRecursive;
    var n := |parts| - 1;
    BeginsSplit(env.data, w, PartsBytes(parts[..n]), PartBytes(parts[n]));
    BeginsInside(env.data, w, PartsBytes(parts[..n]));
    NoChange(mem, x);
    var o := Outcome(NONE, w, mem);
    if dm.base.Some? {
      PartsRestored(env, dm.base.value, parts[..n], w, mem, at);
      PartsOnly(env, dm.base.value, parts[..n], w, mem, at, x);
      o := RestoreRecursive(env, dm.base.value, w, mem, at);
    } else {
      assert parts[..n] == [];
    }
    PartOnly(env, dm, parts[n], o.w, o.mem, at, x);
    OwnFields(env, dm, w, mem, at);
    SameTwice(mem, o.mem, RestoreFields(env, dm.name, dm, o.w, o.mem, at).mem, x);
  }

  lemma {:induction false} PartOnly(env: Env, dm: Datamap, p: Part, w: Window, mem: Memory, at: nat, x: nat)
    requires Whole(dm) && ValidPart(env, dm, p) && Begins(env.data, w, PartBytes(p)) && !PartWrites(env, dm, p, at, x)
    ensures Inside(env.data, w) && Same1(mem, RestoreFields(env, dm.name, dm, w, mem, at).mem, x)
    decreases p
  {
    hide Whole, ValidItems, ItemsWrite, Begins, Same1, ItemsBytes, RestoreRecords, Same, RestoreFields, Le16, Le32;
    HeaderRead(env, dm.name, dm, p.symbol, |p.items|, ItemsBytes(p.items), w, mem, at);
    ItemsOnly(env, dm, p.items, -1, w.(cur := w.cur + 8), mem, at, x);
  }

  lemma {:induction false} ItemsOnly(env: Env, dm: Datamap, items: seq<Item>, cookie: int, w: Window, mem: Memory,
        at: nat, x: nat)
    requires Whole(dm) && ValidItems(env, dm, items) && Begins(env.data, w, ItemsBytes(items))
    requires -1 <= cookie < |dm.fields| && !ItemsWrite(env, dm, items, at, x)
    ensures Inside(env.data, w) && Same1(mem, RestoreRecords(env, dm, |items|, cookie, w, mem, at).mem, x)
    decreases items
  {
    hide Whole, ValidItem, ItemWrites, ItemKept, Begins, ItemBytes, StartRecord, FindField, RestoreField, SameOutside,
      Same1;
    BeginsInside(env.data, w, ItemsBytes(items));
    if items == [] {
      NoChange(mem, x);
    } else {
      var it, rest := items[0], items[1..];
      BeginsSplit(env.data, w, ItemBytes(it), ItemsBytes(rest));
      var k := ItemStarts(env, dm, it, cookie, w);
      var rec := StartRecord(env, w);
      ItemRestored(env, dm, it, rec.w, mem, at);
      ItemOnly(env, dm, it, rec.w, mem, at, x);
      var o1 := RestoreField(env, dm.fields[k], rec.w, mem, at);
      ObjectSlots.RestValid(env, dm, items);
      LaterItems(env, dm, items, at, x);
      ItemsOnly(env, dm, rest, k, rec.rest, o1.mem, at, x);
      SameTwice(mem, o1.mem, RestoreRecords(env, dm, |rest|, k, rec.rest, o1.mem, at).mem, x);
    }
  }

  lemma {:induction false} LaterItems(env: Env, dm: Datamap, items: seq<Item>, at: nat, x: nat)
    requires items != [] && ValidItems(env, dm, items) && ValidItems(env, dm, items[1..])
    requires !ItemsWrite(env, dm, items, at, x)
    ensures !ItemsWrite(env, dm, items[1..], at, x)
  {
    hide ValidItem, ItemWrites;
    forall i | 0 <= i < |items[1..]|
      ensures !ItemWrites(env, dm, items[1..][i], at, x)
    {
      assert items[1..][i] == items[i + 1];
    }
  }

  lemma {:induction false} ItemOnly(env: Env, dm: Datamap, it: Item, w: Window, mem: Memory, at: nat, x: nat)
    requires Whole(dm) && ValidItem(env, dm, it) && !ItemWrites(env, dm, it, at, x)
    requires Inside(env.data, w) && !Overflowed(w) && env.data[w.cur..w.end] == BodyBytes(it.body)
    ensures Same1(mem, RestoreField(env, FieldAt(env.symbols, dm, it), w, mem, at).mem, x)
    decreases it
  {
    hide RestoreField, BodyWrites, Same1, BodyBytes, ValidBody, WholeField;
    BodyOnly(env, FieldAt(env.symbols, dm, it), it.body, w, mem, at, x);
  }

  // ---------- alike objects ----------

  // The same contents, but for the order of records at any depth, and for what follows the
  // elements of an embedded field.
  ghost predicate SameBody(symbols: seq<Name>, field: Field, b: Body, b': Body)
    decreases b
  {
    match field.kind
    case Embedded(inner) => b.Elements? && b'.Elements? && SameElements(symbols, inner, b.els, b'.els)
    case _ => b.Payload? && b' == b
  }

  ghost predicate SameElements(symbols: seq<Name>, inner: Datamap, els: seq<Element>, els': seq<Element>)
    decreases els
  {
    && |els| == |els'|
    && forall j :: 0 <= j < |els| ==> SameParts(symbols, inner, els[j].parts, els'[j].parts)
  }

  ghost predicate SameParts(symbols: seq<Name>, dm: Datamap, parts: seq<Part>, parts': seq<Part>)
    decreases parts
  {
    && parts != [] && |parts| == |parts'|
    && SamePart(symbols, dm, parts[|parts| - 1], parts'[|parts| - 1])
    && (dm.base.Some? ==>
        SameParts(symbols, dm.base.value, parts[..|parts| - 1], parts'[..|parts| - 1]))
  }

  // Each record has its like among the others.
  ghost predicate SamePart(symbols: seq<Name>, dm: Datamap, p: Part, p': Part)
    decreases p
  {
    && (forall i :: 0 <= i < |p.items| ==> HasLike(symbols, dm, p.items[i], p'.items))
    && (forall j :: 0 <= j < |p'.items| ==>
        exists i :: 0 <= i < |p.items| && SameItem(symbols, dm, p.items[i], p'.items[j]))
  }

  ghost predicate HasLike(symbols: seq<Name>, dm: Datamap, it: Item, items': seq<Item>)
    decreases it, 1
  {
    exists j :: 0 <= j < |items'| && SameItem(symbols, dm, it, items'[j])
  }

  ghost predicate SameItem(symbols: seq<Name>, dm: Datamap, it: Item, it': Item)
    decreases it, 0
  {
    && FieldFor(symbols, dm, it).Some? && FieldFor(symbols, dm, it') == FieldFor(symbols, dm, it)
    && SameBody(symbols, FieldAt(symbols, dm, it), it.body, it'.body)
  }

  // Two save files with the same symbols and handlers.
  ghost predicate SameTables(env: Env, env': Env) {
    env'.symbols == env.symbols && env'.handler == env.handler
  }

  // Where contents are the same, and kept in both memories, the memories agree.
  lemma {:induction false} BodyAgrees(env: Env, env': Env, field: Field, b: Body, b': Body, m: Memory, m': Memory,
        at: nat, x: nat)
    requires SameTables(env, env') && ValidBody(env, field, b) && ValidBody(env', field, b')
    requires SameBody(env.symbols, field, b, b') && BodyWrites(env, field, b, at, x)
    requires BodyKept(env, field, b, m, at) && BodyKept(env', field, b', m', at)
    ensures Same1(m, m', x)
    decreases b
  {
    hide Same1, Lies, FieldCells, ObjectPointer, Enough, ElementsWrite, ElementsKept, SameElements;
    var to := at + field.chOffset;
    match field.kind {
      case Simple(_) => LieAlike(m, m', to, FieldCells(field, b.bytes), x);
      case Embedded(inner) =>
        ElementsAgree(env, env', inner, b.els, b'.els, m, m', to, field.totalSize, x);
      case Custom(None) =>
      case Custom(Some(ops)) => LieAlike(m, m', to, ObjectPointer(env.handler(ops, b.bytes).object_), x);
    }
  }

  lemma {:induction false} LieAlike(m: Memory, m': Memory, at: nat, cells: seq<Cell>, x: nat)
    requires Lies(m, at, cells) && Lies(m', at, cells) && at <= x < at + |cells|
    ensures Same1(m, m', x)
  {
    assert LiesAt(m, at, cells, x - at) && LiesAt(m', at, cells, x - at);
  }

  lemma {:induction false} ElementsAgree(env: Env, env': Env, inner: Datamap, els: seq<Element>, els': seq<Element>,
        m: Memory, m': Memory, at: nat, total: nat, x: nat)
    requires SameTables(env, env') && ValidElements(env, inner, els) && ValidElements(env', inner, els')
    requires SameElements(env.symbols, inner, els, els') && ElementsWrite(env, inner, els, at, total, x)
    requires ElementsKept(env, inner, els, m, at, total) && ElementsKept(env', inner, els', m', at, total)
    ensures Same1(m, m', x)
    decreases els
  {
    hide Same1, ValidParts, PartsKept, PartsWrite, SameParts;
    var j :| 0 <= j < |els| && PartsWrite(env, inner, els[j].parts, at + total * j, x);
    assert PartsKept(env', inner, els'[j].parts, m', at + total * j);
    PartsAgree(env, env', inner, els[j].parts, els'[j].parts, m, m', at + total * j, x);
  }

  lemma {:induction false} PartsAgree(env: Env, env': Env, dm: Datamap, parts: seq<Part>, parts': seq<Part>,
        m: Memory, m': Memory, at: nat, x: nat)
    requires SameTables(env, env') && ValidParts(env, dm, parts) && ValidParts(env', dm, parts')
    requires SameParts(env.symbols, dm, parts, parts') && PartsWrite(env, dm, parts, at, x)
    requires PartsKept(env, dm, parts, m, at) && PartsKept(env', dm, parts', m', at)
    ensures Same1(m, m', x)
    decreases parts
  {
    hide Same1, ValidPart, PartKept, PartWrites, SamePart;
    var n := |parts| - 1;
    if PartWrites(env, dm, parts[n], at, x) {
      PartAgrees(env, env', dm, parts[n], parts'[n], m, m', at, x);
    } else {
      PartsAgree(env, env', dm.base.value, parts[..n], parts'[..n], m, m', at, x);
    }
  }

  lemma {:induction false} PartAgrees(env: Env, env': Env, dm: Datamap, p: Part, p': Part, m: Memory, m': Memory,
        at: nat, x: nat)
    requires SameTables(env, env') && ValidPart(env, dm, p) && ValidPart(env', dm, p')
    requires SamePart(env.symbols, dm, p, p') && PartWrites(env, dm, p, at, x)
    requires PartKept(env, dm, p, m, at) && PartKept(env', dm, p', m', at)
    ensures Same1(m, m', x)
    decreases p
  {
    hide Same1, ValidItem, ItemKept, ItemWrites, SameItem, Same, FieldFor;
    var i :| 0 <= i < |p.items| && ItemWrites(env, dm, p.items[i], at, x);
    assert HasLike(env.symbols, dm, p.items[i], p'.items);
    var j :| 0 <= j < |p'.items| && SameItem(env.symbols, dm, p.items[i], p'.items[j]);
    assert ValidItem(env, dm, p.items[i]) && ValidItem(env', dm, p'.items[j]);
    assert ItemKept(env, dm, p.items[i], m, at) && ItemKept(env', dm, p'.items[j], m', at);
    ItemAgrees(env, env', dm, p.items[i], p'.items[j], m, m', at, x);
  }

  lemma {:induction false} ItemAgrees(env: Env, env': Env, dm: Datamap, it: Item, it': Item, m: Memory, m': Memory,
        at: nat, x: nat)
    requires SameTables(env, env') && ValidItem(env, dm, it) && ValidItem(env', dm, it')
    requires SameItem(env.symbols, dm, it, it') && ItemWrites(env, dm, it, at, x)
    requires ItemKept(env, dm, it, m, at) && ItemKept(env', dm, it', m', at)
    ensures Same1(m, m', x)
    decreases it
  {
    hide Same1, ValidBody, BodyKept, BodyWrites, SameBody, FieldFor;
    BodyAgrees(env, env', FieldAt(env.symbols, dm, it), it.body, it'.body, m, m', at, x);
  }

  // And they write the same bytes.
  lemma {:induction false} BodyWritten(env: Env, env': Env, field: Field, b: Body, b': Body, at: nat, x: nat)
    requires SameTables(env, env') && ValidBody(env, field, b) && ValidBody(env', field, b')
    requires SameBody(env.symbols, field, b, b') && BodyWrites(env', field, b', at, x)
    ensures BodyWrites(env, field, b, at, x)
    decreases b
  {
    hide FieldCells, Enough, ElementsWrite, SameElements;
    if field.kind.Embedded? {
      ElementsWritten(env, env', field.kind.inner, b.els, b'.els, at + field.chOffset, field.totalSize, x);
    }
  }

  lemma {:induction false} ElementsWritten(env: Env, env': Env, inner: Datamap, els: seq<Element>, els': seq<Element>,
        at: nat, total: nat, x: nat)
    requires SameTables(env, env') && ValidElements(env, inner, els) && ValidElements(env', inner, els')
    requires SameElements(env.symbols, inner, els, els') && ElementsWrite(env', inner, els', at, total, x)
    ensures ElementsWrite(env, inner, els, at, total, x)
    decreases els
  {
    hide ValidParts, PartsWrite, SameParts;
    var j :| 0 <= j < |els'| && PartsWrite(env', inner, els'[j].parts, at + total * j, x);
    PartsWritten(env, env', inner, els[j].parts, els'[j].parts, at + total * j, x);
  }

  lemma {:induction false} PartsWritten(env: Env, env': Env, dm: Datamap, parts: seq<Part>, parts': seq<Part>,
        at: nat, x: nat)
    requires SameTables(env, env') && ValidParts(env, dm, parts) && ValidParts(env', dm, parts')
    requires SameParts(env.symbols, dm, parts, parts') && PartsWrite(env', dm, parts', at, x)
    ensures PartsWrite(env, dm, parts, at, x)
    decreases parts
  {
    hide ValidPart, PartWrites, SamePart;
    var n := |parts| - 1;
    if PartWrites(env', dm, parts'[n], at, x) {
      PartWritten(env, env', dm, parts[n], parts'[n], at, x);
    } else {
      PartsWritten(env, env', dm.base.value, parts[..n], parts'[..n], at, x);
    }
  }

  lemma {:induction false} PartWritten(env: Env, env': Env, dm: Datamap, p: Part, p': Part, at: nat, x: nat)
    requires SameTables(env, env') && ValidPart(env, dm, p) && ValidPart(env', dm, p')
    requires SamePart(env.symbols, dm, p, p') && PartWrites(env', dm, p', at, x)
    ensures PartWrites(env, dm, p, at, x)
    decreases p
  {
    hide ValidItem, ItemWrites, SameItem, Same, FieldFor, HasLike;
    var j :| 0 <= j < |p'.items| && ItemWrites(env', dm, p'.items[j], at, x);
    var i :| 0 <= i < |p.items| && SameItem(env.symbols, dm, p.items[i], p'.items[j]);
    assert ValidItem(env, dm, p.items[i]) && ValidItem(env', dm, p'.items[j]);
    ItemWritten(env, env', dm, p.items[i], p'.items[j], at, x);
  }

  lemma {:induction false} ItemWritten(env: Env, env': Env, dm: Datamap, it: Item, it': Item, at: nat, x: nat)
    requires SameTables(env, env') && ValidItem(env, dm, it) && ValidItem(env', dm, it')
    requires SameItem(env.symbols, dm, it, it') && ItemWrites(env', dm, it', at, x)
    ensures ItemWrites(env, dm, it, at, x)
    decreases it
  {
    hide ValidBody, BodyWrites, SameBody, FieldFor;
    BodyWritten(env, env', FieldAt(env.symbols, dm, it), it.body, it'.body, at, x);
  }

  // Two save files that hold the same of an object, in any orders at any depth, are both restored,
  // and to the same object.
  lemma {:induction false} ObjectOrderDoesNotMatter(env: Env, env': Env, dm: Datamap, parts: seq<Part>,
        parts': seq<Part>, w: Window, w': Window, mem: Memory, at: nat)
    requires Whole(dm) && SameTables(env, env') && SameParts(env.symbols, dm, parts, parts')
    requires ValidParts(env, dm, parts) && Begins(env.data, w, PartsBytes(parts))
    requires ValidParts(env', dm, parts') && Begins(env'.data, w', PartsBytes(parts'))
    ensures Inside(env.data, w) && Inside(env'.data, w')
    ensures var o, o' := RestoreRecursive(env, dm, w, mem, at), RestoreRecursive(env', dm, w', mem, at);
      o.err.NONE? && o'.err.NONE? && o.mem == o'.mem
  {
    hide Whole, SameParts, ValidParts, PartsBytes, Begins, PartsKept, SameOutside, PartsWrite, RestoreRecursive, Same1;
    PartsRestored(env, dm, parts, w, mem, at);
    PartsRestored(env', dm, parts', w', mem, at);
    var m, m' := RestoreRecursive(env, dm, w, mem, at).mem, RestoreRecursive(env', dm, w', mem, at).mem;
    forall x: nat
      ensures Same1(m, m', x)
    {
      if PartsWrite(env, dm, parts, at, x) {
        PartsAgree(env, env', dm, parts, parts', m, m', at, x);
      } else {
        if PartsWrite(env', dm, parts', at, x) {
          PartsWritten(env, env', dm, parts, parts', at, x);
        }
        PartsOnly(env, dm, parts, w, mem, at, x);
        PartsOnly(env', dm, parts', w', mem, at, x);
        SameTwo(mem, m, m', x);
      }
    }
    SameMemory(m, m');
  }

  lemma {:induction false} SameTwo(m0: Memory, m: Memory, m': Memory, x: nat)
    requires Same1(m0, m, x) && Same1(m0, m', x)
    ensures Same1(m, m', x)
  {
  }

  lemma {:induction false} SameMemory(m: Memory, m': Memory)
    requires forall x: nat :: Same1(m, m', x)
    ensures m == m'
  {
    forall x: nat
      ensures x in m <==> x in m'
      ensures x in m ==> m[x] == m'[x]
    {
      assert Same1(m, m', x);
    }
  }
}
