// chicago_parse_lib/src/ch_field_reader.c and .h: restoring the fields of an object from
// size-prefixed records. What the functions do is stated here as values.
module FieldReader {
  import opened Wrappers
  import opened Bytes
  import opened ByteReader
  import opened Bits

  const FIELD_VOID: int := 0
  const FIELD_EMBEDDED: int := 10
  const FIELD_CUSTOM: int := 11
  const FIELD_INPUT: int := 20
  const FIELD_TYPECOUNT: int := 29

  // STRING, MODELNAME, SOUNDNAME, FUNCTION, MODELINDEX and MATERIALINDEX are read as strings
  predicate StringLike(ftype: int) {
    ftype in {2, 18, 19, 21, 26, 27}
  }

  // all other types up to VECTOR2D, but not EMBEDDED, CUSTOM or INPUT, as raw bytes
  predicate Plain(ftype: int) {
    FIELD_VOID < ftype < FIELD_TYPECOUNT && !StringLike(ftype) && ftype !in {FIELD_EMBEDDED, FIELD_CUSTOM, FIELD_INPUT}
  }

  datatype Kind = Simple(ftype: int) | Embedded(inner: Datamap) | Custom(ops: Option<nat>)

  datatype Field = Field(name: Name, kind: Kind, nElems: nat, totalSize: nat, chOffset: nat)

  datatype Datamap = Datamap(name: Name, base: Option<Datamap>, fields: seq<Field>)

  datatype Err =
    | NONE
    | BAD_FIELDS_MARKER
    | READER_OVERFLOWED
    | BAD_SYMBOL
    | BAD_BLOCK_START
    | FIELD_NOT_FOUND
    | BAD_FIELD_TYPE
    | BAD_FIELD_READ
    | CUSTOM_FAILED

  // A byte of a restored object: raw data, or part k of a pointer to a string that was read
  // or to whatever a custom handler made.
  datatype Cell = Raw(byte: Byte) | StringPart(text: seq<Byte>, k: nat) | ObjectPart(object_: nat, k: nat)

  type Memory = map<nat, Cell>

  // What a custom handler does with the bytes of its record: it skips some, perhaps more than
  // there are, and fails or makes an object.
  datatype Handled = Failed(used: nat) | Made(used: nat, object_: nat)

  datatype Env = Env(data: seq<Byte>, symbols: seq<Name>, handler: (nat, seq<Byte>) -> Handled)

  datatype Outcome = Outcome(err: Err, w: Window, mem: Memory)

  ghost predicate Inside(data: seq<Byte>, w: Window) {
    w.cur <= |data| && -1 <= w.end <= |data|
  }

  // A reader in the part of a window that was not read yet, or overflowed.
  ghost predicate Within(w': Window, w: Window) {
    Overflowed(w') || (!Overflowed(w) && w.cur <= w'.cur && w'.end <= w.end)
  }

  function CellAt(cells: seq<Cell>, at: nat, k: nat): Cell
    requires at <= k < at + |cells|
  {
    cells[k - at]
  }

  function Write(mem: Memory, at: nat, cells: seq<Cell>): Memory {
    mem + (map k: nat | at <= k < at + |cells| :: CellAt(cells, at, k))
  }

  function StringPointer(text: seq<Byte>): (cells: seq<Cell>)
    ensures |cells| == PTR
  {
    seq(PTR, k requires 0 <= k < PTR => StringPart(text, k))
  }

  function ObjectPointer(object_: nat): (cells: seq<Cell>)
    ensures |cells| == PTR
  {
    seq(PTR, k requires 0 <= k < PTR => ObjectPart(object_, k))
  }

  function RawBytes(bytes: seq<Byte>): (cells: seq<Cell>)
    ensures |cells| == |bytes|
  {
    seq(|bytes|, k requires 0 <= k < |bytes| => Raw(bytes[k]))
  }

  // ---------- symbols and records ----------

  datatype SymbolRead = SymbolRead(err: Err, w: Window, symbol: Name)

  // ch_br_read_symbol
  function ReadSymbol(env: Env, w: Window): (r: SymbolRead)
    requires Inside(env.data, w)
    ensures Inside(env.data, r.w) && Within(r.w, w) && (r.err.NONE? ==> !Overflowed(r.w))
  {
    var idx := Peek16(env.data, w);
    var w' := Skip(w, 2);
    if Overflowed(w') then SymbolRead(READER_OVERFLOWED, w', [])
    else if idx < 0 || idx >= |env.symbols| then SymbolRead(BAD_SYMBOL, w', [])
    else SymbolRead(NONE, w', env.symbols[idx])
  }

  datatype Record = Record(err: Err, w: Window, rest: Window, symbol: Name)

  // ch_br_start_record: the reader gets the record's bytes, rest is where it goes on.
  function StartRecord(env: Env, w: Window): (r: Record)
    requires Inside(env.data, w)
    ensures Inside(env.data, r.w) && Inside(env.data, r.rest) && Within(r.w, w) && Within(r.rest, w)
    ensures r.err.NONE? ==> !Overflowed(r.w)
  {
    var size := Peek16(env.data, w);
    var w1 := Skip(w, 2);
    if Overflowed(w1) then Record(READER_OVERFLOWED, w1, w1, [])
    else if size < 0 then Record(BAD_BLOCK_START, w1, w1, [])
    else
      var sym := ReadSymbol(env, w1);
      if !sym.err.NONE? then Record(sym.err, sym.w, sym.w, [])
      else
        var chunk := SplitChunk(sym.w, size);
        Record(if Overflowed(chunk) then BAD_BLOCK_START else NONE, chunk, SplitRest(sym.w, size), sym.symbol)
  }

  // ---------- finding the field of a record ----------

  datatype Found = Found(ok: bool, cookie: int, tests: nat)

  // CRestore::FindField: a circular search that starts behind the field found last.
  function FindField(fields: seq<Field>, cookie: int, symbol: Name, tests: nat): (f: Found)
    requires -1 <= cookie < |fields| && tests <= |fields|
    ensures -1 <= f.cookie < |fields|
    ensures f.ok ==> 0 <= f.cookie && Same(fields[f.cookie].name, symbol)
    ensures tests <= f.tests <= |fields| && (f.ok <==> f.tests < |fields|)
    decreases |fields| - tests
  {
    if tests == |fields| then Found(false, cookie, tests)
    else
      var next := (cookie + 1) % |fields|;
      if Same(fields[next].name, symbol) then Found(true, next, tests)
      else FindField(fields, next, symbol, tests + 1)
  }

  // ---------- restoring fields ----------

  // The strings that fill up to n pointers, and where they end.
  function ReadStrings(data: seq<Byte>, w: Window, mem: Memory, at: nat, n: nat): (o: Outcome)
    requires Inside(data, w)
    ensures Inside(data, o.w) && Within(o.w, w) && o.err.NONE? && (!Overflowed(w) ==> !Overflowed(o.w))
    decreases n
  {
    if n == 0 || Remaining(w) == 0 then Outcome(NONE, w, mem)
    else
      var want := ZeroAt(Rest(data, w)) + 1;
      var take := if want <= Remaining(w) then want else Remaining(w);
      var mem' := Write(mem, at, StringPointer(data[w.cur..w.cur + take]));
      ReadStrings(data, Skip(w, take), mem', at + PTR, n - 1)
  }

  lemma {:induction false} StringsEnd(data: seq<Byte>, w: Window, mem: Memory, at: nat, n: nat)
    requires Inside(data, w) && (n == 0 || Remaining(w) == 0)
    ensures ReadStrings(data, w, mem, at, n) == Outcome(NONE, w, mem)
  {
  }

  lemma {:induction false} StringsStep(data: seq<Byte>, w: Window, mem: Memory, at: nat, n: nat)
    requires Inside(data, w) && Remaining(w) > 0 && n > 0
    ensures var want := ZeroAt(Rest(data, w)) + 1;
      var take := if want <= Remaining(w) then want else Remaining(w);
      && CouldSkip(w, take) && Inside(data, Skip(w, take)) && Within(Skip(w, take), w)
      && ReadStrings(data, w, mem, at, n)
        == ReadStrings(data, Skip(w, take), Write(mem, at, StringPointer(data[w.cur..w.cur + take])), at + PTR, n - 1)
  {
    hide Write, StringPointer, ZeroAt;
  }

  // ch_br_restore_simple_field
  function RestoreSimple(data: seq<Byte>, w: Window, mem: Memory, at: nat, ftype: int, n: nat, total: nat): (o: Outcome)
    requires Inside(data, w)
    ensures Inside(data, o.w) && Within(o.w, w)
  {
    if StringLike(ftype) then
      var o := ReadStrings(data, w, mem, at, n);
      if Overflowed(o.w) then o.(err := READER_OVERFLOWED) else o
    else if Plain(ftype) then
      if total == 0 || Remaining(w) < total then Outcome(BAD_FIELD_READ, w, mem)
      else Outcome(NONE, Skip(w, total), Write(mem, at, RawBytes(data[w.cur..w.cur + total])))
    else Outcome(BAD_FIELD_TYPE, w, mem)
  }

  // What is done with the window of one record, once its field is known.
  function RestoreField(env: Env, field: Field, w: Window, mem: Memory, at: nat): (o: Outcome)
    requires Inside(env.data, w) && !Overflowed(w)
    ensures Inside(env.data, o.w) && Within(o.w, w)
    decreases field, 5
  {
    match field.kind
    case Simple(ftype) =>
      if ftype <= FIELD_VOID || ftype >= FIELD_TYPECOUNT then Outcome(BAD_FIELD_TYPE, w, mem)
      else RestoreSimple(env.data, w, mem, at + field.chOffset, ftype, field.nElems, field.totalSize)
    case Embedded(inner) =>
      RestoreElements(env, inner, field.nElems, field.totalSize, w, mem, at + field.chOffset)
    case Custom(None) => Outcome(NONE, w.(cur := w.end), mem)
    case Custom(Some(ops)) =>
      match env.handler(ops, Rest(env.data, w))
      case Failed(used) => Outcome(CUSTOM_FAILED, Skip(w, used), mem)
      case Made(used, made) => Outcome(NONE, Skip(w, used), Write(mem, at + field.chOffset, ObjectPointer(made)))
  }

  // The elements of an embedded field, total bytes apart.
  function RestoreElements(env: Env, inner: Datamap, n: nat, total: nat, w: Window, mem: Memory, at: nat): (o: Outcome)
    requires Inside(env.data, w)
    ensures Inside(env.data, o.w) && Within(o.w, w)
    decreases inner, 4, n
  {
    if n == 0 then Outcome(NONE, w, mem)
    else
      var o := RestoreRecursive(env, inner, w, mem, at);
      if !o.err.NONE? then o
      else RestoreElements(env, inner, n - 1, total, o.w, o.mem, at + total)
  }

  // ch_br_restore_recursive: the base class comes first.
  function RestoreRecursive(env: Env, dm: Datamap, w: Window, mem: Memory, at: nat): (o: Outcome)
    requires Inside(env.data, w)
    ensures Inside(env.data, o.w) && Within(o.w, w)
    decreases dm, 3
  {
    var o := if dm.base.Some? then RestoreRecursive(env, dm.base.value, w, mem, at) else Outcome(NONE, w, mem);
    if !o.err.NONE? then o
    else RestoreFields(env, dm.name, dm, o.w, o.mem, at)
  }

  // ch_br_restore_fields
  function RestoreFields(env: Env, expected: Name, dm: Datamap, w: Window, mem: Memory, at: nat): (o: Outcome)
    requires Inside(env.data, w)
    ensures Inside(env.data, o.w) && Within(o.w, w)
    decreases dm, 2
  {
    var w1 := Skip(w, 2);
    if Peek16(env.data, w) != 4 then Outcome(BAD_FIELDS_MARKER, w1, mem)
    else
      var sym := ReadSymbol(env, w1);
      if !sym.err.NONE? then Outcome(sym.err, sym.w, mem)
      else if !Same(sym.symbol, expected) then Outcome(BAD_SYMBOL, sym.w, mem)
      else
        var n := Peek32(env.data, sym.w);
        RestoreRecords(env, dm, if n < 0 then 0 else n, -1, Skip(sym.w, 4), mem, at)
  }

  // n records, the search for whose fields goes on from cookie.
  function RestoreRecords(env: Env, dm: Datamap, n: nat, cookie: int, w: Window, mem: Memory, at: nat): (o: Outcome)
    requires Inside(env.data, w) && -1 <= cookie < |dm.fields|
    ensures Inside(env.data, o.w) && Within(o.w, w)
    decreases dm, 1, n
  {
    if n == 0 then Outcome(NONE, w, mem)
    else
      var rec := StartRecord(env, w);
      if !rec.err.NONE? then Outcome(rec.err, rec.w, mem)
      else
        var f := FindField(dm.fields, cookie, rec.symbol, 0);
        if !f.ok then Outcome(FIELD_NOT_FOUND, rec.w, mem)
        else
          var o := RestoreField(env, dm.fields[f.cookie], rec.w, mem, at);
          if !o.err.NONE? then o
          else RestoreRecords(env, dm, n - 1, f.cookie, rec.rest, o.mem, at)
  }
}
