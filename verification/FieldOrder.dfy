// Restoring does not depend on the order of the records: each one writes into the slot of
// its own field.
module FieldOrder {
  import opened Wrappers
  import opened Bits
  import opened Bytes
  import opened ByteReader
  import opened Layout
  import opened FieldReader
  import opened FieldSearch

  // ---------- writes to memory ----------

  lemma {:induction false} WriteConcat(mem: Memory, at: nat, a: seq<Cell>, b: seq<Cell>)
    ensures Write(Write(mem, at, a), at + |a|, b) == Write(mem, at, a + b)
  {
    var x, y := Write(Write(mem, at, a), at + |a|, b), Write(mem, at, a + b);
    assert x.Keys == y.Keys;
  }

  lemma {:induction false} WriteNothing(mem: Memory, at: nat)
    ensures Write(mem, at, []) == mem
  {
  }

  // Writes to places that do not overlap can change places.
  lemma {:induction false} WritesCommute(mem: Memory, at: nat, a: seq<Cell>, at': nat, b: seq<Cell>)
    requires at + |a| <= at' || at' + |b| <= at
    ensures Write(Write(mem, at, a), at', b) == Write(Write(mem, at', b), at, a)
  {
    var x, y := Write(Write(mem, at, a), at', b), Write(Write(mem, at', b), at, a);
    assert x.Keys == y.Keys;
  }

  // ---------- one record ----------

  // A record of a save file: the index of its symbol and its bytes.
  datatype Rec = Rec(symbol: nat, payload: seq<Byte>)

  const INT16_MAX: nat := 0x7FFF

  function Le16(x: nat): (s: seq<Byte>)
    ensures |s| == 2
  {
    [x % 0x100, x / 0x100 % 0x100]
  }

  predicate Encodable(r: Rec) {
    r.symbol <= INT16_MAX && |r.payload| <= INT16_MAX
  }

  function EncodeRec(r: Rec): (s: seq<Byte>)
    requires Encodable(r)
    ensures |s| == 4 + |r.payload|
  {
    Le16(|r.payload|) + Le16(r.symbol) + r.payload
  }

  // The bytes s are what the window begins with.
  ghost predicate Begins(data: seq<Byte>, w: Window, s: seq<Byte>) {
    Inside(data, w) && w.cur + |s| <= w.end && data[w.cur..w.cur + |s|] == s
  }

  lemma {:induction false} BeginsSplit(data: seq<Byte>, w: Window, s: seq<Byte>, t: seq<Byte>)
    requires Begins(data, w, s + t)
    ensures Begins(data, w, s) && Begins(data, w.(cur := w.cur + |s|), t)
  {
    assert data[w.cur..w.cur + |s|] == (s + t)[..|s|];
    assert data[w.cur + |s|..w.cur + |s| + |t|] == (s + t)[|s|..];
  }

  lemma {:induction false} PeekLe16(data: seq<Byte>, w: Window, x: nat)
    requires x <= INT16_MAX && Begins(data, w, Le16(x))
    ensures CouldSkip(w, 2) && Peek16(data, w) == x
  {
    assert data[w.cur] == data[w.cur..w.cur + 2][0];
    assert data[w.cur + 1] == data[w.cur..w.cur + 2][1];
  }

  // Reading what was encoded gives back the record.
  lemma {:induction false} StartEncoded(env: Env, w: Window, r: Rec)
    requires Encodable(r) && r.symbol < |env.symbols| && Begins(env.data, w, EncodeRec(r))
    ensures var body := w.cur + 4;
      && StartRecord(env, w)
        == Record(NONE, Window(body, body + |r.payload|), Window(body + |r.payload|, w.end), env.symbols[r.symbol])
      && env.data[body..body + |r.payload|] == r.payload
  {
    BeginsSplit(env.data, w, Le16(|r.payload|) + Le16(r.symbol), r.payload);
    BeginsSplit(env.data, w, Le16(|r.payload|), Le16(r.symbol));
    PeekLe16(env.data, w, |r.payload|);
    PeekLe16(env.data, w.(cur := w.cur + 2), r.symbol);
  }

  // ---------- what a record writes ----------

  // Up to n pointers to the strings that the bytes begin with.
  function StringCells(s: seq<Byte>, n: nat): (cells: seq<Cell>)
    decreases n
  {
    if n == 0 || s == [] then []
    else
      var want := ZeroAt(s) + 1;
      var take := if want <= |s| then want else |s|;
      StringPointer(s[..take]) + StringCells(s[take..], n - 1)
  }

  function FieldCells(field: Field, payload: seq<Byte>): seq<Cell> {
    if !field.kind.Simple? then []
    else if StringLike(field.kind.ftype) then StringCells(payload, field.nElems)
    else if field.totalSize <= |payload| then RawBytes(payload[..field.totalSize])
    else []
  }

  lemma {:induction false} StringCellsIs(s: seq<Byte>, n: nat)
    ensures n == 0 || s == [] ==> StringCells(s, n) == []
    ensures n > 0 && s != [] ==>
      var take := if ZeroAt(s) + 1 <= |s| then ZeroAt(s) + 1 else |s|;
      StringCells(s, n) == StringPointer(s[..take]) + StringCells(s[take..], n - 1)
  {
    hide ZeroAt, StringPointer;
  }

  // Texts one behind the other.
  function Flat(texts: seq<seq<Byte>>): seq<Byte>
    decreases |texts|
  {
    if texts == [] then [] else texts[0] + Flat(texts[1..])
  }

  // The pointer with this number is to the text.
  ghost predicate PointsTo(cells: seq<Cell>, m: nat, text: seq<Byte>) {
    PTR * m + PTR <= |cells| && cells[PTR * m..PTR * m + PTR] == StringPointer(text)
  }

  // Each text ends with its only NUL, but the last may end with the bytes.
  ghost predicate EndsAtZero(texts: seq<seq<Byte>>, m: nat, s: seq<Byte>)
    requires m < |texts|
  {
    var text := texts[m];
    && text != [] && 0 !in text[..|text| - 1]
    && (text[|text| - 1] != 0 ==> m == |texts| - 1 && Flat(texts) == s)
  }

  // The pointers are to the strings that the bytes begin with, in order, up to n of them.
  lemma {:induction false} StringTexts(s: seq<Byte>, n: nat) returns (texts: seq<seq<Byte>>)
    ensures |texts| <= n && |StringCells(s, n)| == PTR * |texts|
    ensures forall m: nat :: m < |texts| ==> PointsTo(StringCells(s, n), m, texts[m]) && EndsAtZero(texts, m, s)
    ensures Flat(texts) <= s && (|texts| < n ==> Flat(texts) == s)
    decreases n
  {
    hide ZeroAt, StringPointer, StringCells;
    StringCellsIs(s, n);
    if n == 0 || s == [] {
      return [];
    }
    var take := if ZeroAt(s) + 1 <= |s| then ZeroAt(s) + 1 else |s|;
    var rest := StringTexts(s[take..], n - 1);
    texts := [s[..take]] + rest;
    assert texts[1..] == rest && s == s[..take] + s[take..];
    assert Flat(texts) == s[..take] + Flat(rest);
    NextPointer(|rest|);
    forall m: nat | m < |texts|
      ensures PointsTo(StringCells(s, n), m, texts[m]) && EndsAtZero(texts, m, s)
    {
      if m > 0 {
        assert EndsAtZero(rest, m - 1, s[take..]);
        assert PointsTo(StringCells(s[take..], n - 1), m - 1, rest[m - 1]);
        LaterPointer(StringPointer(s[..take]), StringCells(s[take..], n - 1), m, rest[m - 1]);
      } else {
        FirstText(s, take);
        assert StringCells(s, n)[..PTR] == StringPointer(s[..take]);
      }
    }
  }

  lemma {:induction false} NextPointer(m: nat)
    ensures PTR * (m + 1) == PTR + PTR * m
  {
  }

  lemma {:induction false} LaterPointer(first: seq<Cell>, cells: seq<Cell>, m: nat, text: seq<Byte>)
    requires |first| == PTR && m > 0 && PointsTo(cells, m - 1, text)
    ensures PointsTo(first + cells, m, text)
  {
    NextPointer(m - 1);
    var from := PTR * (m - 1);
    assert (first + cells)[PTR + from..PTR + from + PTR] == cells[from..from + PTR];
  }

  lemma {:induction false} FirstText(s: seq<Byte>, take: nat)
    requires s != [] && take == if ZeroAt(s) + 1 <= |s| then ZeroAt(s) + 1 else |s|
    ensures 0 < take <= |s| && 0 !in s[..take][..take - 1] && (s[take - 1] != 0 ==> take == |s|)
  {
  }

  // Other fields take so many bytes as they are large.
  lemma {:induction false} PlainCells(field: Field, payload: seq<Byte>)
    requires field.kind.Simple? && !StringLike(field.kind.ftype) && field.totalSize <= |payload|
    ensures |FieldCells(field, payload)| == field.totalSize
    ensures forall k :: 0 <= k < field.totalSize ==> FieldCells(field, payload)[k] == Raw(payload[k])
  {
  }

  lemma {:induction false} StringsWritten(data: seq<Byte>, w: Window, mem: Memory, at: nat, n: nat)
    requires Inside(data, w) && !Overflowed(w)
    ensures ReadStrings(data, w, mem, at, n).mem == Write(mem, at, StringCells(Rest(data, w), n))
    decreases n
  {
    hide Write, StringPointer, ZeroAt, Skip, ReadStrings, StringCells;
    var s := Rest(data, w);
    StringCellsIs(s, n);
    if n == 0 || Remaining(w) == 0 {
      StringsEnd(data, w, mem, at, n);
      WriteNothing(mem, at);
    } else {
      StringsStep(data, w, mem, at, n);
      var want := ZeroAt(s) + 1;
      var take := if want <= |s| then want else |s|;
      RestSkip(data, w, take);
      StringsWritten(data, Skip(w, take), Write(mem, at, StringPointer(s[..take])), at + PTR, n - 1);
      WriteConcat(mem, at, StringPointer(s[..take]), StringCells(s[take..], n - 1));
    }
  }

  lemma {:induction false} RestSkip(data: seq<Byte>, w: Window, n: nat)
    requires Inside(data, w) && !Overflowed(w) && n <= Remaining(w)
    ensures !Overflowed(Skip(w, n)) && Inside(data, Skip(w, n))
    ensures Rest(data, w)[..n] == data[w.cur..w.cur + n] && Rest(data, w)[n..] == Rest(data, Skip(w, n))
  {
  }

  // A field that is simple and of a type that can be read.
  predicate Restorable(field: Field) {
    && field.kind.Simple?
    && var ftype := field.kind.ftype;
      && FIELD_VOID < ftype < FIELD_TYPECOUNT
      && (StringLike(ftype) || (Plain(ftype) && field.totalSize > 0))
  }

  predicate Enough(field: Field, payload: seq<Byte>) {
    field.kind.Simple? && (StringLike(field.kind.ftype) || field.totalSize <= |payload|)
  }

  lemma {:induction false} FieldWritten(env: Env, field: Field, w: Window, mem: Memory, at: nat, payload: seq<Byte>)
    requires Inside(env.data, w) && !Overflowed(w) && Rest(env.data, w) == payload
    requires Restorable(field) && Enough(field, payload)
    ensures var o := RestoreField(env, field, w, mem, at);
      o.err.NONE? && o.mem == Write(mem, at + field.chOffset, FieldCells(field, payload))
  {
    hide Write, StringCells, ReadStrings, StringLike, Plain, Rest, RawBytes;
    var ftype, slot := field.kind.ftype, at + field.chOffset;
    if StringLike(ftype) {
      StringsWritten(env.data, w, mem, slot, field.nElems);
    } else {
      RestBytes(env.data, w, field.totalSize);
    }
  }

  lemma {:induction false} RestBytes(data: seq<Byte>, w: Window, n: nat)
    requires Inside(data, w) && !Overflowed(w)
    ensures |Rest(data, w)| == Remaining(w)
    ensures n <= Remaining(w) ==> w.cur + n <= |data| && Rest(data, w)[..n] == data[w.cur..w.cur + n]
  {
  }

  // How far the records of a field can reach. A record has a 16-bit size, and each string that
  // it brings takes a byte at least.
  function Reach(field: Field): nat {
    if !field.kind.Simple? then 0
    else if StringLike(field.kind.ftype) then (if field.nElems < INT16_MAX then field.nElems else INT16_MAX) * PTR
    else if field.totalSize <= INT16_MAX then field.totalSize
    else 0
  }

  lemma {:induction false} CellsReach(field: Field, payload: seq<Byte>)
    requires Enough(field, payload) && |payload| <= INT16_MAX
    ensures |FieldCells(field, payload)| <= Reach(field)
  {
    if StringLike(field.kind.ftype) {
      StringsReach(payload, field.nElems);
    }
  }

  lemma {:induction false} StringsReach(s: seq<Byte>, n: nat)
    ensures |StringCells(s, n)| <= n * PTR && |StringCells(s, n)| <= |s| * PTR
    decreases n
  {
    hide ZeroAt, StringPointer, StringCells;
    StringCellsIs(s, n);
    if n > 0 && s != [] {
      var want := ZeroAt(s) + 1;
      var take := if want <= |s| then want else |s|;
      StringsReach(s[take..], n - 1);
      OneMoreCell(|s| - take, |s|, n);
    } else {
      MulMono(0, n, PTR);
      MulMono(0, |s|, PTR);
    }
  }

  lemma {:induction false} OneMoreCell(a: nat, b: nat, n: nat)
    requires a < b && n > 0
    ensures PTR + a * PTR <= b * PTR && PTR + (n - 1) * PTR == n * PTR
  {
    MulMono(a + 1, b, PTR);
    OneMore(a);
    OneMore(n - 1);
  }

  lemma {:induction false} OneMore(a: nat)
    ensures (a + 1) * PTR == a * PTR + PTR
  {
  }

  // A pointer for each element fits the slot that the writer gives the field.
  predicate HasRoom(field: Field) {
    field.nElems * PTR <= SlotSize(Need(false, field.totalSize))
  }

  ghost predicate Roomy(dm: Datamap) {
    forall k :: 0 <= k < |dm.fields| ==>
      dm.fields[k].kind.Simple? && (StringLike(dm.fields[k].kind.ftype) ==> HasRoom(dm.fields[k]))
  }

  // A field that the writer gave room for all it can hold stays in its slot.
  lemma {:induction false} CellsFitSlot(field: Field)
    requires Restorable(field) && (StringLike(field.kind.ftype) ==> HasRoom(field))
    ensures Reach(field) <= SlotSize(Need(false, field.totalSize))
  {
    SlotHoldsField(Need(false, field.totalSize));
    if StringLike(field.kind.ftype) && field.nElems >= INT16_MAX {
      MulMono(INT16_MAX, field.nElems, PTR);
    }
  }

  // Both fields can reach some byte.
  predicate Overlap(a: Field, b: Field) {
    && Reach(a) > 0 && Reach(b) > 0
    && a.chOffset < b.chOffset + Reach(b) && b.chOffset < a.chOffset + Reach(a)
  }

  // ---------- a run of records ----------

  // A class with uniquely named, simple fields.
  ghost predicate Uniform(dm: Datamap) {
    UniqueNames(dm.fields) && forall k :: 0 <= k < |dm.fields| ==> Restorable(dm.fields[k])
  }

  ghost predicate NoOverlap(dm: Datamap) {
    forall k, l :: 0 <= k < l < |dm.fields| ==> !Overlap(dm.fields[k], dm.fields[l])
  }

  // The fields are where the writer puts them.
  ghost predicate LaidOut(dm: Datamap, from: nat) {
    forall k :: 0 <= k < |dm.fields| ==> dm.fields[k].chOffset == Offsets(Needs(dm), from)[k]
  }

  // In a class that was laid out, a field overlaps one behind it exactly if it is string-like,
  // reaches to where that one starts, and that one can be written at all.
  lemma {:induction false} OverlapOfLaidOut(dm: Datamap, from: nat, k: nat, l: nat)
    requires Uniform(dm) && LaidOut(dm, from) && k < l < |dm.fields|
    ensures var a, b := dm.fields[k], dm.fields[l];
      Overlap(a, b) <==> StringLike(a.kind.ftype) && b.chOffset < a.chOffset + Reach(a) && Reach(b) > 0
  {
    hide Offsets, SlotSize, Reach;
    var a := dm.fields[k];
    OffsetsOrdered(Needs(dm), from, k, l);
    if !StringLike(a.kind.ftype) {
      CellsFitSlot(a);
    }
  }

  // With room for all strings nothing overlaps.
  lemma {:induction false} RoomSuffices(dm: Datamap, from: nat)
    requires Uniform(dm) && LaidOut(dm, from)
    requires Roomy(dm)
    ensures NoOverlap(dm)
  {
    hide Offsets, SlotSize, Reach, HasRoom;
    forall k, l | 0 <= k < l < |dm.fields|
      ensures !Overlap(dm.fields[k], dm.fields[l])
    {
      OffsetsOrdered(Needs(dm), from, k, l);
      assert Restorable(dm.fields[k]);
      CellsFitSlot(dm.fields[k]);
    }
  }

  function Needs(dm: Datamap): (needs: seq<Need>)
    ensures |needs| == |dm.fields|
    ensures forall k :: 0 <= k < |needs| ==> needs[k] == Need(dm.fields[k].kind.Custom?, dm.fields[k].totalSize)
  {
    seq(|dm.fields|, k requires 0 <= k < |dm.fields| => Need(dm.fields[k].kind.Custom?, dm.fields[k].totalSize))
  }

  // The field that a record is for.
  function FieldOf(symbols: seq<Name>, dm: Datamap, r: Rec): (k: Option<nat>)
    ensures k.Some? ==> k.value < |dm.fields| && r.symbol < |symbols| && Matches(dm.fields, k.value, symbols[r.symbol])
  {
    if r.symbol < |symbols| then Scan(dm.fields, symbols[r.symbol], 0) else None
  }

  predicate ValidRec(symbols: seq<Name>, dm: Datamap, r: Rec) {
    Encodable(r) && FieldOf(symbols, dm, r).Some? && Enough(dm.fields[FieldOf(symbols, dm, r).value], r.payload)
  }

  // Valid records for different fields.
  ghost predicate ValidRecs(symbols: seq<Name>, dm: Datamap, recs: seq<Rec>) {
    && (forall i :: 0 <= i < |recs| ==> ValidRec(symbols, dm, recs[i]))
    && (forall i, j :: 0 <= i < j < |recs| ==> FieldOf(symbols, dm, recs[i]) != FieldOf(symbols, dm, recs[j]))
  }

  function EncodeRecs(recs: seq<Rec>): seq<Byte>
    requires forall i :: 0 <= i < |recs| ==> Encodable(recs[i])
    decreases |recs|
  {
    if recs == [] then [] else EncodeRec(recs[0]) + EncodeRecs(recs[1..])
  }

  // The memory after one valid record.
  function Applied(symbols: seq<Name>, dm: Datamap, mem: Memory, at: nat, r: Rec): Memory
    requires ValidRec(symbols, dm, r)
  {
    var field := dm.fields[FieldOf(symbols, dm, r).value];
    Write(mem, at + field.chOffset, FieldCells(field, r.payload))
  }

  function AppliedAll(symbols: seq<Name>, dm: Datamap, mem: Memory, at: nat, recs: seq<Rec>): Memory
    requires forall i :: 0 <= i < |recs| ==> ValidRec(symbols, dm, recs[i])
    decreases |recs|
  {
    if recs == [] then mem else AppliedAll(symbols, dm, Applied(symbols, dm, mem, at, recs[0]), at, recs[1..])
  }

  // Restoring encoded records succeeds, and applies them one after the other.
  lemma {:induction false} RecordsApplied(env: Env, dm: Datamap, recs: seq<Rec>, cookie: int, w: Window,
        mem: Memory, at: nat)
    requires Uniform(dm) && -1 <= cookie < |dm.fields|
    requires forall i :: 0 <= i < |recs| ==> Encodable(recs[i]) && ValidRec(env.symbols, dm, recs[i])
    requires Begins(env.data, w, EncodeRecs(recs))
    ensures RestoreRecords(env, dm, |recs|, cookie, w, mem, at)
      == Outcome(NONE, w.(cur := w.cur + |EncodeRecs(recs)|), AppliedAll(env.symbols, dm, mem, at, recs))
    decreases |recs|
  {
    hide FindField, StartRecord, RestoreField, Applied, EncodeRec, ValidRec, FieldOf, Uniform, Begins;
    if recs == [] {
      assert Begins(env.data, w, []);
      BeginsInside(env.data, w, []);
    } else {
      var r := recs[0];
      BeginsSplit(env.data, w, EncodeRec(r), EncodeRecs(recs[1..]));
      var w' := w.(cur := w.cur + |EncodeRec(r)|);
      var k := RecordApplied(env, dm, r, cookie, w, mem, at);
      BeginsInside(env.data, w', EncodeRecs(recs[1..]));
      RecordsApplied(env, dm, recs[1..], k, w', Applied(env.symbols, dm, mem, at, r), at);
    }
  }

  // One record restores its own field.
  lemma {:induction false} RecordApplied(env: Env, dm: Datamap, r: Rec, cookie: int, w: Window, mem: Memory,
        at: nat)
      returns (k: nat)
    requires Uniform(dm) && -1 <= cookie < |dm.fields|
    requires ValidRec(env.symbols, dm, r) && Begins(env.data, w, EncodeRec(r))
    ensures Inside(env.data, w) && k < |dm.fields|
    ensures var rec := StartRecord(env, w); var f := FindField(dm.fields, cookie, rec.symbol, 0);
      && rec.err.NONE? && rec.rest == w.(cur := w.cur + |EncodeRec(r)|) && f.ok && f.cookie == k
      && var o := RestoreField(env, dm.fields[k], rec.w, mem, at);
        o.err.NONE? && o.mem == Applied(env.symbols, dm, mem, at, r)
  {
    hide FindField, StartRecord, RestoreField, Applied, EncodeRec, Enough;
    k := FieldOf(env.symbols, dm, r).value;
    StartEncoded(env, w, r);
    SearchOfUnique(dm.fields, cookie, env.symbols[r.symbol], k);
    FieldApplied(env, dm, r, StartRecord(env, w).w, mem, at);
  }

  lemma {:induction false} BeginsInside(data: seq<Byte>, w: Window, s: seq<Byte>)
    requires Begins(data, w, s)
    ensures Inside(data, w) && !Overflowed(w)
  {
  }

  lemma {:induction false} FieldApplied(env: Env, dm: Datamap, r: Rec, w: Window, mem: Memory, at: nat)
    requires Uniform(dm) && ValidRec(env.symbols, dm, r)
    requires Inside(env.data, w) && !Overflowed(w) && env.data[w.cur..w.end] == r.payload
    ensures var o := RestoreField(env, dm.fields[FieldOf(env.symbols, dm, r).value], w, mem, at);
      o.err.NONE? && o.mem == Applied(env.symbols, dm, mem, at, r)
  {
    hide RestoreField, Write, FieldCells;
    FieldWritten(env, dm.fields[FieldOf(env.symbols, dm, r).value], w, mem, at, r.payload);
  }

  // ---------- any order ----------

  // Records for different fields write to different places.
  lemma {:induction false} RecordsCommute(symbols: seq<Name>, dm: Datamap, mem: Memory, at: nat, q: Rec, r: Rec)
    requires NoOverlap(dm) && ValidRec(symbols, dm, q) && ValidRec(symbols, dm, r)
    requires FieldOf(symbols, dm, q) != FieldOf(symbols, dm, r)
    ensures Applied(symbols, dm, Applied(symbols, dm, mem, at, q), at, r)
      == Applied(symbols, dm, Applied(symbols, dm, mem, at, r), at, q)
  {
    hide Write, FieldCells, Reach, Enough;
    var k, l := FieldOf(symbols, dm, q).value, FieldOf(symbols, dm, r).value;
    var a, b := dm.fields[k], dm.fields[l];
    CellsReach(a, q.payload);
    CellsReach(b, r.payload);
    assert !Overlap(a, b);
    ApartCommute(mem, at, a, FieldCells(a, q.payload), b, FieldCells(b, r.payload));
  }

  lemma {:induction false} ApartCommute(mem: Memory, at: nat, a: Field, p: seq<Cell>, b: Field, q: seq<Cell>)
    requires |p| <= Reach(a) && |q| <= Reach(b) && !Overlap(a, b)
    ensures Write(Write(mem, at + a.chOffset, p), at + b.chOffset, q)
      == Write(Write(mem, at + b.chOffset, q), at + a.chOffset, p)
  {
    hide Write, Reach;
    if p == [] {
      WriteNothing(mem, at + a.chOffset);
      WriteNothing(Write(mem, at + b.chOffset, q), at + a.chOffset);
    } else if q == [] {
      WriteNothing(mem, at + b.chOffset);
      WriteNothing(Write(mem, at + a.chOffset, p), at + b.chOffset);
    } else {
      WritesCommute(mem, at + a.chOffset, p, at + b.chOffset, q);
    }
  }

  // A record can be moved to the front.
  lemma {:induction false} MoveToFront(symbols: seq<Name>, dm: Datamap, mem: Memory, at: nat, a: seq<Rec>,
        r: Rec, b: seq<Rec>)
    requires NoOverlap(dm) && ValidRec(symbols, dm, r)
    requires forall i :: 0 <= i < |a| ==>
      ValidRec(symbols, dm, a[i]) && FieldOf(symbols, dm, a[i]) != FieldOf(symbols, dm, r)
    requires forall i :: 0 <= i < |b| ==> ValidRec(symbols, dm, b[i])
    ensures AppliedAll(symbols, dm, mem, at, a + [r] + b)
      == AppliedAll(symbols, dm, Applied(symbols, dm, mem, at, r), at, a + b)
    decreases |a|
  {
    hide Applied, FieldOf, ValidRec;
    if a == [] {
      assert [] + [r] + b == [r] + b && ([r] + b)[1..] == b && [] + b == b;
    } else {
      var q := a[0];
      assert (a + [r] + b)[1..] == a[1..] + [r] + b && (a + b)[1..] == a[1..] + b;
      MoveToFront(symbols, dm, Applied(symbols, dm, mem, at, q), at, a[1..], r, b);
      RecordsCommute(symbols, dm, mem, at, q, r);
    }
  }

  lemma {:induction false} ValidPermuted(symbols: seq<Name>, dm: Datamap, s: seq<Rec>, t: seq<Rec>)
    requires ValidRecs(symbols, dm, s) && multiset(s) == multiset(t)
    ensures forall i :: 0 <= i < |t| ==> ValidRec(symbols, dm, t[i])
  {
    forall i | 0 <= i < |t|
      ensures ValidRec(symbols, dm, t[i])
    {
      assert t[i] in multiset(t);
      assert t[i] in s;
    }
  }

  lemma {:induction false} FirstAt(t: seq<Rec>, r: Rec) returns (j: nat)
    requires r in t
    ensures j < |t| && t[j] == r && forall i :: 0 <= i < j ==> t[i] != r
  {
    if t[0] == r {
      j := 0;
    } else {
      assert r in t[1..];
      j := FirstAt(t[1..], r);
      j := j + 1;
    }
  }

  lemma {:induction false} PermutedApplied(symbols: seq<Name>, dm: Datamap, mem: Memory, at: nat,
        s: seq<Rec>, t: seq<Rec>)
    requires NoOverlap(dm) && multiset(s) == multiset(t)
    requires forall i :: 0 <= i < |s| ==> ValidRec(symbols, dm, s[i])
    requires forall i :: 0 <= i < |t| ==> ValidRec(symbols, dm, t[i])
    requires ValidRecs(symbols, dm, s)
    ensures AppliedAll(symbols, dm, mem, at, s) == AppliedAll(symbols, dm, mem, at, t)
    decreases |s|
  {
    hide Applied, FieldOf, ValidRec, NoOverlap, ValidRecs;
    if s == [] {
      assert |multiset(t)| == 0;
      assert t == [];
    } else {
      var r := s[0];
      assert r in multiset(t);
      var j := FirstAt(t, r);
      var a, b := t[..j], t[j + 1..];
      assert t == a + [r] + b;
      OtherFields(symbols, dm, s, t, j);
      MoveToFront(symbols, dm, mem, at, a, r, b);
      assert s == [r] + s[1..];
      RemovedFirst(s[1..], a, b, r);
      RestValid(symbols, dm, s);
      PermutedApplied(symbols, dm, Applied(symbols, dm, mem, at, r), at, s[1..], a + b);
    }
  }

  lemma {:induction false} RestValid(symbols: seq<Name>, dm: Datamap, s: seq<Rec>)
    requires s != [] && ValidRecs(symbols, dm, s)
    ensures ValidRecs(symbols, dm, s[1..])
  {
    hide FieldOf, ValidRec;
  }

  // The records that are not the first one are for other fields.
  lemma {:induction false} OtherFields(symbols: seq<Name>, dm: Datamap, s: seq<Rec>, t: seq<Rec>, n: nat)
    requires ValidRecs(symbols, dm, s) && multiset(s) == multiset(t) && s != [] && n <= |t|
    requires forall i :: 0 <= i < n ==> t[i] != s[0]
    ensures forall i :: 0 <= i < n ==> FieldOf(symbols, dm, t[i]) != FieldOf(symbols, dm, s[0])
  {
    hide FieldOf, ValidRec;
    forall i | 0 <= i < n
      ensures FieldOf(symbols, dm, t[i]) != FieldOf(symbols, dm, s[0])
    {
      assert t[i] in multiset(t);
      var k :| 0 <= k < |s| && s[k] == t[i];
    }
  }

  lemma {:induction false} RemovedFirst(s: seq<Rec>, a: seq<Rec>, b: seq<Rec>, r: Rec)
    requires multiset([r] + s) == multiset(a + [r] + b)
    ensures multiset(s) == multiset(a + b)
  {
    assert multiset([r] + s) == multiset{r} + multiset(s);
    assert multiset(a + [r] + b) == multiset(a) + multiset{r} + multiset(b);
    assert multiset(s) == multiset{r} + multiset(s) - multiset{r};
    assert multiset(a + b) == multiset(a) + multiset{r} + multiset(b) - multiset{r};
  }

  // Two save files begin with the same valid records, in two orders.
  ghost predicate SameRecords(env: Env, env': Env, dm: Datamap, s: seq<Rec>, t: seq<Rec>, w: Window, w': Window) {
    && env'.symbols == env.symbols && ValidRecs(env.symbols, dm, s) && multiset(s) == multiset(t)
    && (forall i :: 0 <= i < |t| ==> Encodable(t[i]))
    && Begins(env.data, w, EncodeRecs(s)) && Begins(env'.data, w', EncodeRecs(t))
  }

  // Both are restored, to the same object.
  ghost predicate SameObject(env: Env, env': Env, dm: Datamap, s: seq<Rec>, t: seq<Rec>, w: Window, w': Window,
        mem: Memory, at: nat)
    requires Inside(env.data, w) && Inside(env'.data, w')
  {
    var o, o' := RestoreRecords(env, dm, |s|, -1, w, mem, at), RestoreRecords(env', dm, |t|, -1, w', mem, at);
    o.err.NONE? && o'.err.NONE? && o.mem == o'.mem
  }

  // Whatever the records, their order does not matter.
  ghost predicate OrderFree(dm: Datamap) {
    forall env, env', s, t, w, w', mem, at: nat ::
      SameRecords(env, env', dm, s, t, w, w') ==> SameObject(env, env', dm, s, t, w, w', mem, at)
  }

  lemma {:induction false} OrderDoesNotMatter(env: Env, env': Env, dm: Datamap, s: seq<Rec>, t: seq<Rec>, w: Window,
        w': Window, mem: Memory, at: nat)
    requires Uniform(dm) && NoOverlap(dm) && SameRecords(env, env', dm, s, t, w, w')
    ensures SameObject(env, env', dm, s, t, w, w', mem, at)
  {
    ValidPermuted(env.symbols, dm, s, t);
    RecordsApplied(env, dm, s, -1, w, mem, at);
    RecordsApplied(env', dm, t, -1, w', mem, at);
    PermutedApplied(env.symbols, dm, mem, at, s, t);
  }
}
