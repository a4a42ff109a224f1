// What restoring an object leaves in memory: the contents of every record, each in the slot of
// its field, at any depth of base classes and embedded classes, and nothing outside of the object.
module ObjectSlots {
  import opened Wrappers
  import opened Bits
  import opened Bytes
  import opened ByteReader
  import opened Layout
  import opened FieldReader
  import opened FieldSearch
  import opened FieldOrder
  import opened ClassOrder

  // ---------- what a save file holds of an object ----------

  // The contents of a record: bytes, or for an embedded field its elements, behind which more
  // bytes may follow. An element has a part for every class of a chain, outermost base first.
  datatype Body = Payload(bytes: seq<Byte>) | Elements(els: seq<Element>, more: seq<Byte>)

  datatype Item = Item(symbol: nat, body: Body)

  datatype Element = Element(parts: seq<Part>)

  datatype Part = Part(symbol: nat, items: seq<Item>)

  function BodyBytes(b: Body): seq<Byte>
    decreases b
  {
    match b
    case Payload(bytes) => bytes
    case Elements(els, more) => ElementsBytes(els) + more
  }

  function ElementsBytes(els: seq<Element>): seq<Byte>
    decreases els
  {
    if els == [] then [] else PartsBytes(els[0].parts) + ElementsBytes(els[1..])
  }

  function PartsBytes(parts: seq<Part>): seq<Byte>
    decreases parts
  {
    if parts == [] then [] else PartsBytes(parts[..|parts| - 1]) + PartBytes(parts[|parts| - 1])
  }

  function PartBytes(p: Part): seq<Byte>
    decreases p
  {
    Le16(4) + (Le16(p.symbol) + (Le32(|p.items|) + ItemsBytes(p.items)))
  }

  function ItemsBytes(items: seq<Item>): seq<Byte>
    decreases items
  {
    if items == [] then [] else ItemBytes(items[0]) + ItemsBytes(items[1..])
  }

  function ItemBytes(i: Item): seq<Byte>
    decreases i
  {
    Le16(|BodyBytes(i.body)|) + Le16(i.symbol) + BodyBytes(i.body)
  }

  // ---------- what is valid ----------

  // The field that a record is for.
  function FieldFor(symbols: seq<Name>, dm: Datamap, i: Item): (k: Option<nat>)
    ensures k.Some? ==> k.value < |dm.fields| && i.symbol < |symbols| && Matches(dm.fields, k.value, symbols[i.symbol])
  {
    FieldOf(symbols, dm, Rec(i.symbol, []))
  }

  function FieldAt(symbols: seq<Name>, dm: Datamap, i: Item): Field
    requires FieldFor(symbols, dm, i).Some?
  {
    dm.fields[FieldFor(symbols, dm, i).value]
  }

  // Enough bytes for a simple field, as many elements as an embedded field has, and bytes that a
  // custom handler accepts.
  ghost predicate ValidBody(env: Env, field: Field, b: Body)
    decreases b
  {
    && |BodyBytes(b)| <= INT16_MAX
    && match field.kind
       case Simple(_) => b.Payload? && Enough(field, b.bytes)
       case Embedded(inner) => b.Elements? && |b.els| == field.nElems && ValidElements(env, inner, b.els)
       case Custom(None) => b.Payload?
       case Custom(Some(ops)) => b.Payload? && env.handler(ops, b.bytes).Made?
  }

  ghost predicate ValidElements(env: Env, inner: Datamap, els: seq<Element>)
    decreases els
  {
    forall j :: 0 <= j < |els| ==> ValidParts(env, inner, els[j].parts)
  }

  // One part for each class of the chain.
  ghost predicate ValidParts(env: Env, dm: Datamap, parts: seq<Part>)
    decreases parts
  {
    && parts != [] && ValidPart(env, dm, parts[|parts| - 1])
    && if dm.base.Some? then ValidParts(env, dm.base.value, parts[..|parts| - 1]) else |parts| == 1
  }

  ghost predicate ValidPart(env: Env, dm: Datamap, p: Part)
    decreases p
  {
    && p.symbol <= INT16_MAX && p.symbol < |env.symbols| && Same(env.symbols[p.symbol], dm.name)
    && |p.items| <= INT32_MAX && ValidItems(env, dm, p.items)
  }

  // Valid records for different fields.
  ghost predicate ValidItems(env: Env, dm: Datamap, items: seq<Item>)
    decreases items
  {
    && (forall i :: 0 <= i < |items| ==> ValidItem(env, dm, items[i]))
    && (forall i, j :: 0 <= i < j < |items| ==>
        FieldFor(env.symbols, dm, items[i]) != FieldFor(env.symbols, dm, items[j]))
  }

  ghost predicate ValidItem(env: Env, dm: Datamap, i: Item)
    decreases i
  {
    && i.symbol <= INT16_MAX && FieldFor(env.symbols, dm, i).Some?
    && ValidBody(env, FieldAt(env.symbols, dm, i), i.body)
  }

  // ---------- where things are ----------

  // Where a class ends, and where its own fields start.
  function ChainEnd(dm: Datamap): nat
    decreases dm, 1
  {
    ClassSize(Needs(dm), OwnStart(dm))
  }

  function OwnStart(dm: Datamap): nat
    decreases dm, 0
  {
    if dm.base.Some? then ChainEnd(dm.base.value) else 0
  }

  function Slot(field: Field): nat {
    SlotSize(Need(field.kind.Custom?, field.totalSize))
  }

  // A class and its bases as they are written, each behind its base, with names that differ even
  // without case, and with room for what the fields bring.
  ghost predicate Whole(dm: Datamap)
    decreases dm, 1
  {
    && UniqueNames(dm.fields) && LaidOut(dm, OwnStart(dm))
    && (forall k :: 0 <= k < |dm.fields| ==> WholeField(dm.fields[k]))
    && (dm.base.Some? ==> Whole(dm.base.value))
  }

  // Strings fit if there is room for their pointers. Elements fit if their class is not larger
  // than the game says, and the slot takes all of them.
  ghost predicate WholeField(field: Field)
    decreases field, 0
  {
    match field.kind
    case Simple(ftype) => Restorable(field) && (StringLike(ftype) ==> HasRoom(field))
    case Embedded(inner) => Whole(inner) && ChainEnd(inner) <= field.totalSize
      && field.totalSize * field.nElems <= Slot(field)
    case Custom(_) => true
  }

  // Elements are as far apart as the field is large, but its slot has room for one of them: all
  // fit exactly if there is at most one, or they are empty.
  lemma {:induction false} ElementsFitSlot(field: Field)
    requires field.kind.Embedded?
    ensures field.totalSize * field.nElems <= Slot(field) <==> field.nElems <= 1 || field.totalSize == 0
  {
    hide SlotSize;
    OneElement(field.totalSize);
    Multiples(field.totalSize, field.nElems);
  }

  lemma {:induction false} OneElement(size: nat)
    ensures size <= SlotSize(Need(false, size)) && (size > 0 ==> SlotSize(Need(false, size)) < 2 * size)
  {
    SlotHoldsField(Need(false, size));
    if size > 0 {
      AlignNeverShrinks(size, Min(PTR, size));
    }
  }

  lemma {:induction false} Multiples(size: nat, n: nat)
    ensures size == 0 || n == 0 ==> size * n == 0
    ensures n == 1 ==> size * n == size
    ensures n >= 2 ==> 2 * size <= size * n
  {
    if n >= 2 {
      MulMono(2, n, size);
    }
  }

  // Memory differs between lo and hi only.
  ghost predicate SameOutside(m: Memory, m': Memory, lo: nat, hi: nat) {
    forall x: nat :: x < lo || x >= hi ==> Same1(m, m', x)
  }

  ghost predicate SameInside(m: Memory, m': Memory, lo: nat, hi: nat) {
    forall x: nat :: lo <= x < hi ==> Same1(m, m', x)
  }

  ghost predicate Same1(m: Memory, m': Memory, x: nat) {
    (x in m <==> x in m') && (x in m ==> m[x] == m'[x])
  }

  // The cells are in memory.
  ghost predicate Lies(m: Memory, at: nat, cells: seq<Cell>) {
    forall j: nat :: j < |cells| ==> LiesAt(m, at, cells, j)
  }

  ghost predicate LiesAt(m: Memory, at: nat, cells: seq<Cell>, j: nat)
    requires j < |cells|
  {
    at + j in m && m[at + j] == cells[j]
  }

  // ---------- what is kept ----------

  // What a record brings is at the offset of its field: the bytes or the pointers to strings of a
  // simple field, the elements of an embedded one, totalSize apart, or the handler's object.
  ghost predicate BodyKept(env: Env, field: Field, b: Body, m: Memory, at: nat)
    requires ValidBody(env, field, b)
    decreases b
  {
    match field.kind
    case Simple(_) => Lies(m, at + field.chOffset, FieldCells(field, b.bytes))
    case Embedded(inner) => ElementsKept(env, inner, b.els, m, at + field.chOffset, field.totalSize)
    case Custom(None) => true
    case Custom(Some(ops)) => Lies(m, at + field.chOffset, ObjectPointer(env.handler(ops, b.bytes).object_))
  }

  ghost predicate ElementsKept(env: Env, inner: Datamap, els: seq<Element>, m: Memory, at: nat, total: nat)
    requires ValidElements(env, inner, els)
    decreases els
  {
    forall j :: 0 <= j < |els| ==> PartsKept(env, inner, els[j].parts, m, at + total * j)
  }

  ghost predicate PartsKept(env: Env, dm: Datamap, parts: seq<Part>, m: Memory, at: nat)
    requires ValidParts(env, dm, parts)
    decreases parts
  {
    && PartKept(env, dm, parts[|parts| - 1], m, at)
    && (dm.base.Some? ==> PartsKept(env, dm.base.value, parts[..|parts| - 1], m, at))
  }

  ghost predicate PartKept(env: Env, dm: Datamap, p: Part, m: Memory, at: nat)
    requires ValidPart(env, dm, p)
    decreases p
  {
    ItemsKept(env, dm, p.items, m, at)
  }

  ghost predicate ItemsKept(env: Env, dm: Datamap, items: seq<Item>, m: Memory, at: nat)
    requires ValidItems(env, dm, items)
    decreases items
  {
    forall i :: 0 <= i < |items| ==> ItemKept(env, dm, items[i], m, at)
  }

  ghost predicate ItemKept(env: Env, dm: Datamap, i: Item, m: Memory, at: nat)
    requires ValidItem(env, dm, i)
    decreases i
  {
    BodyKept(env, FieldAt(env.symbols, dm, i), i.body, m, at)
  }

  // ---------- slots ----------

  lemma {:induction false} StartIsEnd(dm: Datamap)
    ensures OwnStart(dm) == (if dm.base.Some? then ChainEnd(dm.base.value) else 0) <= ChainEnd(dm)
  {
  }

  // A slot lies between the bases of a class and its end.
  lemma {:induction false} SlotInside(dm: Datamap, k: nat)
    requires LaidOut(dm, OwnStart(dm)) && k < |dm.fields|
    ensures OwnStart(dm) <= dm.fields[k].chOffset
    ensures dm.fields[k].chOffset + Slot(dm.fields[k]) <= ChainEnd(dm)
  {
    hide Offsets, ClassSize, SlotSize, OwnStart;
    OffsetsInside(Needs(dm), OwnStart(dm), k);
  }

  // The slots of two fields are apart.
  lemma {:induction false} SlotsApart(dm: Datamap, k: nat, l: nat)
    requires LaidOut(dm, OwnStart(dm)) && k < |dm.fields| && l < |dm.fields| && k != l
    ensures var a, b := dm.fields[k], dm.fields[l];
      a.chOffset + Slot(a) <= b.chOffset || b.chOffset + Slot(b) <= a.chOffset
  {
    hide Offsets, ClassSize, SlotSize, OwnStart;
    if k < l {
      OffsetsOrdered(Needs(dm), OwnStart(dm), k, l);
    } else {
      OffsetsOrdered(Needs(dm), OwnStart(dm), l, k);
    }
  }

  lemma {:induction false} ElementInside(total: nat, j: nat, n: nat, size: nat)
    requires j < n && size <= total
    ensures total * j + size <= total * n
  {
    MulMono(j + 1, n, total);
    assert (j + 1) * total == total * j + total;
  }

  // ---------- what is kept depends on the slots only ----------

  lemma {:induction false} LiesFrame(m: Memory, m': Memory, at: nat, cells: seq<Cell>, hi: nat)
    requires Lies(m, at, cells) && SameInside(m, m', at, hi) && at + |cells| <= hi
    ensures Lies(m', at, cells)
  {
    forall j: nat | j < |cells|
      ensures LiesAt(m', at, cells, j)
    {
      assert LiesAt(m, at, cells, j) && Same1(m, m', at + j);
    }
  }

  lemma {:induction false} CellsInSlot(field: Field, payload: seq<Byte>)
    requires field.kind.Simple? && WholeField(field) && Enough(field, payload) && |payload| <= INT16_MAX
    ensures |FieldCells(field, payload)| <= Slot(field)
  {
    hide FieldCells, SlotSize, Reach, HasRoom;
    CellsReach(field, payload);
    CellsFitSlot(field);
  }

  lemma {:induction false} HandlerSlot(field: Field)
    requires field.kind.Custom?
    ensures Slot(field) == PTR
  {
  }

  lemma {:induction false} BodyFrame(env: Env, field: Field, b: Body, m: Memory, m': Memory, at: nat)
    requires WholeField(field) && ValidBody(env, field, b) && BodyKept(env, field, b, m, at)
    requires SameInside(m, m', at + field.chOffset, at + field.chOffset + Slot(field))
    ensures BodyKept(env, field, b, m', at)
    decreases b
  {
    hide SameInside, Lies, Slot, FieldCells, ObjectPointer, Enough, ElementsKept;
    var to := at + field.chOffset;
    match field.kind {
      case Simple(_) =>
        CellsInSlot(field, b.bytes);
        LiesFrame(m, m', to, FieldCells(field, b.bytes), to + Slot(field));
      case Embedded(inner) =>
        SameLess(m, m', to, to + Slot(field), to, to + field.totalSize * field.nElems);
        ElementsFrame(env, inner, b.els, m, m', to, field.totalSize);
      case Custom(None) =>
      case Custom(Some(ops)) =>
        HandlerSlot(field);
        LiesFrame(m, m', to, ObjectPointer(env.handler(ops, b.bytes).object_), to + Slot(field));
    }
  }

  lemma {:induction false} SameLess(m: Memory, m': Memory, lo: nat, hi: nat, lo': nat, hi': nat)
    requires SameInside(m, m', lo, hi) && lo <= lo' && hi' <= hi
    ensures SameInside(m, m', lo', hi')
  {
  }

  lemma {:induction false} ElementsFrame(env: Env, inner: Datamap, els: seq<Element>, m: Memory, m': Memory,
        at: nat, total: nat)
    requires Whole(inner) && ChainEnd(inner) <= total && ValidElements(env, inner, els)
    requires ElementsKept(env, inner, els, m, at, total) && SameInside(m, m', at, at + total * |els|)
    ensures ElementsKept(env, inner, els, m', at, total)
    decreases els
  {
    hide SameInside, PartsKept, ValidParts, ChainEnd, Whole;
    forall j | 0 <= j < |els|
      ensures PartsKept(env, inner, els[j].parts, m', at + total * j)
    {
      ElementInside(total, j, |els|, ChainEnd(inner));
      SameLess(m, m', at, at + total * |els|, at + total * j, at + total * j + ChainEnd(inner));
      PartsFrame(env, inner, els[j].parts, m, m', at + total * j);
    }
  }

  lemma {:induction false} PartsFrame(env: Env, dm: Datamap, parts: seq<Part>, m: Memory, m': Memory, at: nat)
    requires Whole(dm) && ValidParts(env, dm, parts) && PartsKept(env, dm, parts, m, at)
    requires SameInside(m, m', at, at + ChainEnd(dm))
    ensures PartsKept(env, dm, parts, m', at)
    decreases parts
  {
    hide SameInside, PartKept, ValidPart, ChainEnd, OwnStart, WholeField, LaidOut, UniqueNames;
    var n := |parts| - 1;
    PartFrame(env, dm, parts[n], m, m', at);
    if dm.base.Some? {
      StartIsEnd(dm);
      SameLess(m, m', at, at + ChainEnd(dm), at, at + ChainEnd(dm.base.value));
      PartsFrame(env, dm.base.value, parts[..n], m, m', at);
    }
  }

  lemma {:induction false} PartFrame(env: Env, dm: Datamap, p: Part, m: Memory, m': Memory, at: nat)
    requires Whole(dm) && ValidPart(env, dm, p) && PartKept(env, dm, p, m, at)
    requires SameInside(m, m', at, at + ChainEnd(dm))
    ensures PartKept(env, dm, p, m', at)
    decreases p
  {
    hide SameInside, ChainEnd, OwnStart, WholeField, LaidOut, UniqueNames, BodyKept, ValidBody, Slot;
    forall i | 0 <= i < |p.items|
      ensures ItemKept(env, dm, p.items[i], m', at)
    {
      var item := p.items[i];
      assert ValidItem(env, dm, item) && ItemKept(env, dm, item, m, at);
      var k := FieldFor(env.symbols, dm, item).value;
      SlotInside(dm, k);
      var f := dm.fields[k];
      SameLess(m, m', at, at + ChainEnd(dm), at + f.chOffset, at + f.chOffset + Slot(f));
      BodyFrame(env, f, item.body, m, m', at);
    }
  }

  // ---------- restoring ----------

  ghost predicate InSlot(field: Field, at: nat, x: nat) {
    at + field.chOffset <= x < at + field.chOffset + Slot(field)
  }

  // A byte in none of the slots that the records are for.
  ghost predicate Free(symbols: seq<Name>, dm: Datamap, items: seq<Item>, at: nat, x: nat) {
    forall i :: 0 <= i < |items| && FieldFor(symbols, dm, items[i]).Some? ==>
      !InSlot(FieldAt(symbols, dm, items[i]), at, x)
  }

  ghost predicate Untouched(symbols: seq<Name>, dm: Datamap, items: seq<Item>, m: Memory, m': Memory, at: nat) {
    forall x: nat :: Free(symbols, dm, items, at, x) ==> Same1(m, m', x)
  }

  // A restored body is kept, and nothing outside of the slot has changed.
  ghost predicate BodyDone(env: Env, field: Field, b: Body, o: Outcome, mem: Memory, at: nat)
    requires ValidBody(env, field, b)
  {
    && o.err.NONE? && BodyKept(env, field, b, o.mem, at)
    && SameOutside(mem, o.mem, at + field.chOffset, at + field.chOffset + Slot(field))
  }

  lemma {:induction false} WriteKept(mem: Memory, at: nat, cells: seq<Cell>, hi: nat)
    requires at + |cells| <= hi
    ensures Lies(Write(mem, at, cells), at, cells) && SameOutside(mem, Write(mem, at, cells), at, hi)
  {
  }

  lemma {:induction false} Unchanged(m: Memory, lo: nat, hi: nat)
    ensures SameOutside(m, m, lo, hi)
  {
  }

  lemma {:induction false} OutsideMore(m: Memory, m': Memory, lo: nat, hi: nat, hi': nat)
    requires SameOutside(m, m', lo, hi) && hi <= hi'
    ensures SameOutside(m, m', lo, hi')
  {
  }

  lemma {:induction false} WindowBegins(data: seq<Byte>, w: Window, s: seq<Byte>, more: seq<Byte>)
    requires Inside(data, w) && !Overflowed(w) && data[w.cur..w.end] == s + more
    ensures Begins(data, w, s) && Rest(data, w) == s + more
  {
    assert data[w.cur..w.cur + |s|] == data[w.cur..w.end][..|s|];
  }

  // What is done with the bytes of a record, once its field is known.
  lemma {:induction false} BodyRestored(env: Env, field: Field, b: Body, w: Window, mem: Memory, at: nat)
    requires WholeField(field) && ValidBody(env, field, b)
    requires Inside(env.data, w) && !Overflowed(w) && env.data[w.cur..w.end] == BodyBytes(b)
    ensures BodyDone(env, field, b, RestoreField(env, field, w, mem, at), mem, at)
    decreases b, 1
  {
    hide Lies, SameOutside, Slot, FieldCells, ObjectPointer, Enough, ElementsKept, RestoreField, Restorable, Begins,
      Rest, Whole, ChainEnd, ValidElements, HasRoom, ElementsBytes;
    var to := at + field.chOffset;
    match field.kind {
      case Simple(_) =>
        WindowBegins(env.data, w, b.bytes, []);
        SimpleRestored(env, field, b.bytes, w, mem, at);
      case Embedded(inner) =>
        EmbeddedRestored(env, field, b, w, mem, at);
        OutsideMore(mem, RestoreField(env, field, w, mem, at).mem, to, to + field.totalSize * field.nElems,
          to + Slot(field));
      case Custom(_) =>
        CustomRestored(env, field, b, w, mem, at);
    }
  }

  lemma {:induction false} CustomRestored(env: Env, field: Field, b: Body, w: Window, mem: Memory, at: nat)
    requires field.kind.Custom? && ValidBody(env, field, b)
    requires Inside(env.data, w) && !Overflowed(w) && env.data[w.cur..w.end] == BodyBytes(b)
    ensures BodyDone(env, field, b, RestoreField(env, field, w, mem, at), mem, at)
    decreases b, 0
  {
    hide Lies, SameOutside, Slot, ObjectPointer, RestoreField, Begins, Rest;
    WindowBegins(env.data, w, b.bytes, []);
    assert b.bytes + [] == b.bytes;
    HandlerSlot(field);
    HandlerAnswered(env, field, field.kind.ops, w, mem, at);
  }

  // Element j of an embedded field is restored at chOffset + totalSize * j, and nothing outside
  // of the elements changes, whether or not the slot has room for them.
  lemma {:induction false} EmbeddedRestored(env: Env, field: Field, b: Body, w: Window, mem: Memory, at: nat)
    requires field.kind.Embedded? && Whole(field.kind.inner) && ChainEnd(field.kind.inner) <= field.totalSize
    requires ValidBody(env, field, b)
    requires Inside(env.data, w) && !Overflowed(w) && env.data[w.cur..w.end] == BodyBytes(b)
    ensures var o := RestoreField(env, field, w, mem, at); var to := at + field.chOffset;
      && o.err.NONE? && ElementsKept(env, field.kind.inner, b.els, o.mem, to, field.totalSize)
      && SameOutside(mem, o.mem, to, to + field.totalSize * field.nElems)
    decreases b, 0
  {
    hide SameOutside, ElementsKept, RestoreElements, Begins, Rest, ElementsBytes, Whole, ChainEnd;
    WindowBegins(env.data, w, ElementsBytes(b.els), b.more);
    ElementsRestored(env, field.kind.inner, b.els, field.totalSize, w, mem, at + field.chOffset);
  }

  // A custom handler that makes an object leaves a pointer to it at the offset of the field. One
  // that fails leaves nothing. Without a handler the record is skipped.
  lemma {:induction false} HandlerAnswered(env: Env, field: Field, ops: Option<nat>, w: Window, mem: Memory, at: nat)
    requires field.kind == Custom(ops) && Inside(env.data, w) && !Overflowed(w)
    ensures var o := RestoreField(env, field, w, mem, at); var to := at + field.chOffset;
      if ops.None? then o == Outcome(NONE, w.(cur := w.end), mem)
      else
        match env.handler(ops.value, Rest(env.data, w))
        case Failed(used) => o == Outcome(CUSTOM_FAILED, Skip(w, used), mem)
        case Made(used, made) => o.err.NONE? && o.w == Skip(w, used) && Lies(o.mem, to, ObjectPointer(made))
    ensures var o := RestoreField(env, field, w, mem, at); var to := at + field.chOffset;
      SameOutside(mem, o.mem, to, to + PTR)
  {
    hide Write, ObjectPointer, Lies, SameOutside, Rest, Skip;
    var to := at + field.chOffset;
    Unchanged(mem, to, to + PTR);
    if ops.Some? {
      match env.handler(ops.value, Rest(env.data, w)) {
        case Failed(_) =>
        case Made(_, made) => WriteKept(mem, to, ObjectPointer(made), to + PTR);
      }
    }
  }

  lemma {:induction false} SimpleRestored(env: Env, field: Field, payload: seq<Byte>, w: Window, mem: Memory, at: nat)
    requires field.kind.Simple? && WholeField(field) && Enough(field, payload) && |payload| <= INT16_MAX
    requires Inside(env.data, w) && !Overflowed(w) && Rest(env.data, w) == payload + []
    ensures var o := RestoreField(env, field, w, mem, at); var to := at + field.chOffset;
      o.err.NONE? && Lies(o.mem, to, FieldCells(field, payload)) && SameOutside(mem, o.mem, to, to + Slot(field))
  {
    hide Lies, SameOutside, Slot, FieldCells, Write, RestoreField, Enough, Rest, HasRoom;
    assert payload + [] == payload;
    FieldWritten(env, field, w, mem, at, payload);
    CellsInSlot(field, payload);
    WriteKept(mem, at + field.chOffset, FieldCells(field, payload), at + field.chOffset + Slot(field));
  }

  ghost predicate ElementsDone(env: Env, inner: Datamap, els: seq<Element>, total: nat, o: Outcome, w: Window,
      mem: Memory, at: nat)
    requires ValidElements(env, inner, els)
  {
    && o.err.NONE? && o.w == w.(cur := w.cur + |ElementsBytes(els)|)
    && ElementsKept(env, inner, els, o.mem, at, total) && SameOutside(mem, o.mem, at, at + total * |els|)
  }

  // The elements of an embedded field, total bytes apart.
  lemma {:induction false} ElementsRestored(env: Env, inner: Datamap, els: seq<Element>, total: nat, w: Window,
        mem: Memory, at: nat)
    requires Whole(inner) && ChainEnd(inner) <= total && ValidElements(env, inner, els)
    requires Begins(env.data, w, ElementsBytes(els))
    ensures Inside(env.data, w)
    ensures ElementsDone(env, inner, els, total, RestoreElements(env, inner, |els|, total, w, mem, at), w, mem, at)
    decreases els
  {
    hide Whole, ValidParts, PartsKept, Begins, SameOutside, SameInside, PartsBytes, ChainEnd, RestoreRecursive;
    BeginsInside(env.data, w, ElementsBytes(els));
    if els == [] {
      Unchanged(mem, at, at);
    } else {
      var first, rest := PartsBytes(els[0].parts), ElementsBytes(els[1..]);
      BeginsSplit(env.data, w, first, rest);
      PartsRestored(env, inner, els[0].parts, w, mem, at);
      var o1 := RestoreRecursive(env, inner, w, mem, at);
      ElementsRestored(env, inner, els[1..], total, o1.w, o1.mem, at + total);
      var o := RestoreElements(env, inner, |els|, total, w, mem, at);
      assert o == RestoreElements(env, inner, |els| - 1, total, o1.w, o1.mem, at + total);
      FirstElement(env, inner, els, total, mem, o1.mem, o.mem, at);
    }
  }

  lemma {:induction false} FirstElement(env: Env, inner: Datamap, els: seq<Element>, total: nat, m0: Memory,
        m1: Memory, m: Memory, at: nat)
    requires Whole(inner) && ChainEnd(inner) <= total && els != []
    requires ValidElements(env, inner, els) && ValidParts(env, inner, els[0].parts)
    requires ValidElements(env, inner, els[1..])
    requires PartsKept(env, inner, els[0].parts, m1, at) && SameOutside(m0, m1, at, at + ChainEnd(inner))
    requires ElementsKept(env, inner, els[1..], m, at + total, total)
    requires SameOutside(m1, m, at + total, at + total + total * |els[1..]|)
    ensures ElementsKept(env, inner, els, m, at, total) && SameOutside(m0, m, at, at + total * |els|)
  {
    hide Whole, ValidParts, PartsKept, ChainEnd, Same1;
    NextElement(at, total, |els|);
    PartsFrame(env, inner, els[0].parts, m1, m, at);
    forall j | 0 <= j < |els|
      ensures PartsKept(env, inner, els[j].parts, m, at + total * j)
    {
      if j > 0 {
        assert els[1..][j - 1] == els[j];
        NextElement(at, total, j);
      }
    }
    OutsideBoth(m0, m1, m, at, at + ChainEnd(inner), at + total, at + total * |els|);
  }

  lemma {:induction false} NextElement(at: nat, total: nat, j: nat)
    ensures j > 0 ==> at + total + total * (j - 1) == at + total * j
  {
  }

  lemma {:induction false} OutsideBoth(m: Memory, m': Memory, m'': Memory, lo: nat, mid: nat, mid': nat, hi: nat)
    requires SameOutside(m, m', lo, mid) && SameOutside(m', m'', mid', hi) && lo <= mid' && mid <= hi && lo <= mid
    ensures SameOutside(m, m'', lo, hi)
  {
    forall x: nat | x < lo || x >= hi
      ensures Same1(m, m'', x)
    {
      assert Same1(m, m', x) && Same1(m', m'', x);
    }
  }

  ghost predicate PartsDone(env: Env, dm: Datamap, parts: seq<Part>, o: Outcome, w: Window, mem: Memory, at: nat)
    requires ValidParts(env, dm, parts)
  {
    && o.err.NONE? && o.w == w.(cur := w.cur + |PartsBytes(parts)|)
    && PartsKept(env, dm, parts, o.mem, at) && SameOutside(mem, o.mem, at, at + ChainEnd(dm))
  }

  // An object is restored completely: every record of every class of the chain, and of whatever
  // is embedded in it, is in its place in the end, and nothing outside of the object has changed.
  lemma {:induction false} PartsRestored(env: Env, dm: Datamap, parts: seq<Part>, w: Window, mem: Memory, at: nat)
    requires Whole(dm) && ValidParts(env, dm, parts) && Begins(env.data, w, PartsBytes(parts))
    ensures Inside(env.data, w)
    ensures PartsDone(env, dm, parts, RestoreRecursive(env, dm, w, mem, at), w, mem, at)
    decreases parts
  {
    hide ValidPart, PartKept, Begins, SameOutside, PartBytes, ChainEnd, OwnStart, RestoreFields, LaidOut, WholeField,
      UniqueNames, RestoreRecursive;
    var n := |parts| - 1;
    var bases, own := PartsBytes(parts[..n]), PartBytes(parts[n]);
    BeginsSplit(env.data, w, bases, own);
    BeginsInside(env.data, w, bases);
    StartIsEnd(dm);
    var o := Outcome(NONE, w, mem);
    if dm.base.Some? {
      PartsRestored(env, dm.base.value, parts[..n], w, mem, at);
      o := RestoreRecursive(env, dm.base.value, w, mem, at);
    } else {
      assert parts[..n] == [];
      Unchanged(mem, at, at + OwnStart(dm));
    }
    PartRestored(env, dm, parts[n], o.w, o.mem, at);
    OwnFields(env, dm, w, mem, at);
    var end := RestoreFields(env, dm.name, dm, o.w, o.mem, at).mem;
    OutsideBoth(mem, o.mem, end, at, at + OwnStart(dm), at + OwnStart(dm), at + ChainEnd(dm));
    if dm.base.Some? {
      BelowKept(o.mem, end, at, at + OwnStart(dm), at + ChainEnd(dm));
      PartsFrame(env, dm.base.value, parts[..n], o.mem, end, at);
    }
  }

  lemma {:induction false} BelowKept(m: Memory, m': Memory, lo: nat, mid: nat, hi: nat)
    requires SameOutside(m, m', mid, hi)
    ensures SameInside(m, m', lo, mid)
  {
  }

  // One class of the chain.
  lemma {:induction false} PartRestored(env: Env, dm: Datamap, p: Part, w: Window, mem: Memory, at: nat)
    requires Whole(dm) && ValidPart(env, dm, p) && Begins(env.data, w, PartBytes(p))
    ensures Inside(env.data, w)
    ensures var o := RestoreFields(env, dm.name, dm, w, mem, at);
      && o.err.NONE? && o.w == w.(cur := w.cur + |PartBytes(p)|) && PartKept(env, dm, p, o.mem, at)
      && SameOutside(mem, o.mem, at + OwnStart(dm), at + ChainEnd(dm))
    decreases p
  {
    hide Whole, ValidItems, ItemsKept, Begins, SameOutside, ItemsBytes, ChainEnd, OwnStart, RestoreRecords, Same,
      RestoreFields, Le16, Le32, Untouched;
    HeaderRead(env, dm.name, dm, p.symbol, |p.items|, ItemsBytes(p.items), w, mem, at);
    var w' := w.(cur := w.cur + 8);
    ItemsRestored(env, dm, p.items, -1, w', mem, at);
    OwnPart(env.symbols, dm, p.items, mem, RestoreRecords(env, dm, |p.items|, -1, w', mem, at).mem, at);
  }

  // All slots of a class are between its bases and its end.
  lemma {:induction false} OwnPart(symbols: seq<Name>, dm: Datamap, items: seq<Item>, m: Memory, m': Memory, at: nat)
    requires Whole(dm) && Untouched(symbols, dm, items, m, m', at)
    ensures SameOutside(m, m', at + OwnStart(dm), at + ChainEnd(dm))
  {
    hide ChainEnd, OwnStart, WholeField, LaidOut, UniqueNames, Same1, Slot;
    forall x: nat | x < at + OwnStart(dm) || x >= at + ChainEnd(dm)
      ensures Same1(m, m', x)
    {
      forall i | 0 <= i < |items| && FieldFor(symbols, dm, items[i]).Some?
        ensures !InSlot(FieldAt(symbols, dm, items[i]), at, x)
      {
        SlotInside(dm, FieldFor(symbols, dm, items[i]).value);
      }
      assert Free(symbols, dm, items, at, x);
    }
  }

  ghost predicate ItemsDone(env: Env, dm: Datamap, items: seq<Item>, o: Outcome, w: Window, mem: Memory, at: nat)
    requires ValidItems(env, dm, items)
  {
    && o.err.NONE? && o.w == w.(cur := w.cur + |ItemsBytes(items)|)
    && ItemsKept(env, dm, items, o.mem, at) && Untouched(env.symbols, dm, items, mem, o.mem, at)
  }

  // The records of a class, in whatever order they are.
  lemma {:induction false} ItemsRestored(env: Env, dm: Datamap, items: seq<Item>, cookie: int, w: Window,
        mem: Memory, at: nat)
    requires Whole(dm) && ValidItems(env, dm, items) && Begins(env.data, w, ItemsBytes(items))
    requires -1 <= cookie < |dm.fields|
    ensures Inside(env.data, w)
    ensures ItemsDone(env, dm, items, RestoreRecords(env, dm, |items|, cookie, w, mem, at), w, mem, at)
    decreases items
  {
    hide Whole, ValidItem, ItemKept, Begins, ItemBytes, StartRecord, FindField, RestoreField, Untouched, SameOutside;
    BeginsInside(env.data, w, ItemsBytes(items));
    if items == [] {
      NothingTouched(env.symbols, dm, mem, at);
    } else {
      var it, rest := items[0], items[1..];
      BeginsSplit(env.data, w, ItemBytes(it), ItemsBytes(rest));
      var k := ItemStarts(env, dm, it, cookie, w);
      var rec := StartRecord(env, w);
      assert ValidItem(env, dm, it);
      ItemRestored(env, dm, it, rec.w, mem, at);
      var o1 := RestoreField(env, dm.fields[k], rec.w, mem, at);
      RestValid(env, dm, items);
      ItemsRestored(env, dm, rest, k, rec.rest, o1.mem, at);
      var o := RestoreRecords(env, dm, |rest|, k, rec.rest, o1.mem, at);
      FirstItem(env, dm, items, mem, o1.mem, o.mem, at);
    }
  }

  lemma {:induction false} NothingTouched(symbols: seq<Name>, dm: Datamap, m: Memory, at: nat)
    ensures Untouched(symbols, dm, [], m, m, at)
  {
  }

  lemma {:induction false} RestValid(env: Env, dm: Datamap, items: seq<Item>)
    requires items != [] && ValidItems(env, dm, items)
    ensures ValidItems(env, dm, items[1..])
  {
    hide ValidItem, FieldFor;
  }

  // A record is started, and its field is found.
  lemma {:induction false} ItemStarts(env: Env, dm: Datamap, it: Item, cookie: int, w: Window) returns (k: nat)
    requires Whole(dm) && ValidItem(env, dm, it) && Begins(env.data, w, ItemBytes(it)) && -1 <= cookie < |dm.fields|
    ensures Inside(env.data, w) && k < |dm.fields| && FieldFor(env.symbols, dm, it) == Some(k)
    ensures var rec := StartRecord(env, w); var f := FindField(dm.fields, cookie, rec.symbol, 0);
      && rec.err.NONE? && rec.rest == w.(cur := w.cur + |ItemBytes(it)|) && f.ok && f.cookie == k
      && env.data[rec.w.cur..rec.w.end] == BodyBytes(it.body)
  {
    hide FindField, StartRecord, Begins, Enough, LaidOut, WholeField, Le16;
    var r := Rec(it.symbol, BodyBytes(it.body));
    assert Encodable(r);
    assert EncodeRec(r) == ItemBytes(it);
    BeginsInside(env.data, w, ItemBytes(it));
    StartEncoded(env, w, r);
    k := FieldFor(env.symbols, dm, it).value;
    SearchOfUnique(dm.fields, cookie, env.symbols[it.symbol], k);
  }

  lemma {:induction false} ItemRestored(env: Env, dm: Datamap, it: Item, w: Window, mem: Memory, at: nat)
    requires Whole(dm) && ValidItem(env, dm, it)
    requires Inside(env.data, w) && !Overflowed(w) && env.data[w.cur..w.end] == BodyBytes(it.body)
    ensures var field := FieldAt(env.symbols, dm, it); var o := RestoreField(env, field, w, mem, at);
      && o.err.NONE? && ItemKept(env, dm, it, o.mem, at)
      && SameOutside(mem, o.mem, at + field.chOffset, at + field.chOffset + Slot(field))
    decreases it
  {
    hide RestoreField, BodyKept, SameOutside, Slot, BodyBytes, ValidBody, WholeField;
    BodyRestored(env, FieldAt(env.symbols, dm, it), it.body, w, mem, at);
  }

  lemma {:induction false} FirstItem(env: Env, dm: Datamap, items: seq<Item>, m0: Memory, m1: Memory, m: Memory,
        at: nat)
    requires Whole(dm) && ValidItems(env, dm, items) && items != [] && ValidItems(env, dm, items[1..])
    requires ValidItem(env, dm, items[0]) && ItemKept(env, dm, items[0], m1, at)
    requires var f := FieldAt(env.symbols, dm, items[0]);
      SameOutside(m0, m1, at + f.chOffset, at + f.chOffset + Slot(f))
    requires ItemsKept(env, dm, items[1..], m, at) && Untouched(env.symbols, dm, items[1..], m1, m, at)
    ensures ItemsKept(env, dm, items, m, at) && Untouched(env.symbols, dm, items, m0, m, at)
  {
    hide ValidBody, BodyKept, Same1, Slot, ChainEnd, OwnStart, LaidOut, UniqueNames, WholeField, FieldFor;
    var f, rest := FieldAt(env.symbols, dm, items[0]), items[1..];
    forall x: nat | at + f.chOffset <= x < at + f.chOffset + Slot(f)
      ensures Same1(m1, m, x)
    {
      OtherSlots(env, dm, items, at, x);
    }
    BodyFrame(env, f, items[0].body, m1, m, at);
    forall i | 0 <= i < |items|
      ensures ItemKept(env, dm, items[i], m, at)
    {
      if i > 0 {
        assert rest[i - 1] == items[i];
      }
    }
    forall x: nat | Free(env.symbols, dm, items, at, x)
      ensures Same1(m0, m, x)
    {
      FreeOfRest(env.symbols, dm, items, at, x);
      SameBoth(m0, m1, m, x);
    }
  }

  lemma {:induction false} SameBoth(m0: Memory, m1: Memory, m: Memory, x: nat)
    requires Same1(m0, m1, x) && Same1(m1, m, x)
    ensures Same1(m0, m, x)
  {
  }

  lemma {:induction false} FreeOfRest(symbols: seq<Name>, dm: Datamap, items: seq<Item>, at: nat, x: nat)
    requires items != [] && Free(symbols, dm, items, at, x) && FieldFor(symbols, dm, items[0]).Some?
    ensures Free(symbols, dm, items[1..], at, x) && !InSlot(FieldAt(symbols, dm, items[0]), at, x)
  {
    hide FieldFor, InSlot;
  }

  // A byte in the slot of the first record is in that of no other one.
  lemma {:induction false} OtherSlots(env: Env, dm: Datamap, items: seq<Item>, at: nat, x: nat)
    requires Whole(dm) && ValidItems(env, dm, items) && items != [] && FieldFor(env.symbols, dm, items[0]).Some?
    requires InSlot(FieldAt(env.symbols, dm, items[0]), at, x)
    ensures Free(env.symbols, dm, items[1..], at, x)
  {
    hide ValidItem, FieldFor, Slot, ChainEnd, OwnStart, LaidOut, UniqueNames, WholeField;
    var k := FieldFor(env.symbols, dm, items[0]).value;
    forall i | 0 <= i < |items[1..]| && FieldFor(env.symbols, dm, items[1..][i]).Some?
      ensures !InSlot(FieldAt(env.symbols, dm, items[1..][i]), at, x)
    {
      assert items[1..][i] == items[i + 1];
      SlotsApart(dm, k, FieldFor(env.symbols, dm, items[i + 1]).value);
    }
  }
}
