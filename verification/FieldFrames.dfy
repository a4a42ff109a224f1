// Where restoring leaves the reader, and what it depends on.
module FieldFrames {
  import opened Wrappers
  import opened Bytes
  import opened ByteReader
  import opened Bits
  import opened FieldReader

  // ---------- where a record ends ----------

  // The size that the record at cur claims, and whether it lies within the window.
  ghost function SizeAt(data: seq<Byte>, w: Window): int
    requires Inside(data, w)
  {
    Peek16(data, w)
  }

  ghost predicate RecordFits(data: seq<Byte>, w: Window)
    requires Inside(data, w)
  {
    CouldSkip(w, 4) && SizeAt(data, w) >= 0 && w.cur + 4 + SizeAt(data, w) <= w.end
  }

  // A record that was started leaves the reader behind it, in the enclosing window, exactly
  // if it fits; otherwise the reader is overflowed when the record has ended.
  lemma {:induction false} RecordRest(env: Env, w: Window)
    requires Inside(env.data, w) && StartRecord(env, w).err.NONE?
    ensures RecordFits(env.data, w) <==> !Overflowed(StartRecord(env, w).rest)
    ensures RecordFits(env.data, w) ==> StartRecord(env, w).rest == Window(w.cur + 4 + SizeAt(env.data, w), w.end)
  {
  }

  // A record of four bytes in a window that has one left is started all the same.
  lemma {:induction false} OversizedRecord()
    ensures var env := Env([4, 0, 0, 0, 7], [[97]], (n: nat, s: seq<Byte>) => Failed(0)); var w := Window(0, 5);
      var rec := StartRecord(env, w);
      !RecordFits(env.data, w) && rec.err.NONE? && Rest(env.data, rec.w) == [7] && Overflowed(rec.rest)
  {
    var env := Env([4, 0, 0, 0, 7], [[97]], (n: nat, s: seq<Byte>) => Failed(0));
    var w := Window(0, 5);
    assert Peek16(env.data, w) == 4 && Peek16(env.data, Skip(w, 2)) == 0;
    assert Rest(env.data, Window(4, 5)) == [7];
  }

  // n records that fit one behind the other, and where they end.
  ghost predicate RecordsFit(data: seq<Byte>, w: Window, n: nat)
    requires Inside(data, w)
    decreases n
  {
    n == 0 || (RecordFits(data, w) && RecordsFit(data, w.(cur := w.cur + 4 + SizeAt(data, w)), n - 1))
  }

  ghost function RecordsEnd(data: seq<Byte>, w: Window, n: nat): nat
    requires Inside(data, w) && RecordsFit(data, w, n)
    decreases n
  {
    if n == 0 then w.cur else RecordsEnd(data, w.(cur := w.cur + 4 + SizeAt(data, w)), n - 1)
  }

  // However little the handlers read, n records are consumed as their sizes say. All but
  // the last are known to fit; the last one fits exactly if the reader is not overflowed.
  lemma {:induction false} RecordsFramed(env: Env, dm: Datamap, n: nat, cookie: int, w: Window, mem: Memory, at: nat)
    requires Inside(env.data, w) && !Overflowed(w) && -1 <= cookie < |dm.fields|
    requires RestoreRecords(env, dm, n, cookie, w, mem, at).err.NONE?
    ensures RecordsFit(env.data, w, n) <==> !Overflowed(RestoreRecords(env, dm, n, cookie, w, mem, at).w)
    ensures RecordsFit(env.data, w, n) ==>
      RestoreRecords(env, dm, n, cookie, w, mem, at).w == Window(RecordsEnd(env.data, w, n), w.end)
    decreases n
  {
    hide StartRecord, FindField, RestoreField, SizeAt, Skip, SplitRest, Peek16, RecordFits;
    if n > 0 {
      var rec := StartRecord(env, w);
      var f := FindField(dm.fields, cookie, rec.symbol, 0);
      var o := RestoreField(env, dm.fields[f.cookie], rec.w, mem, at);
      RecordRest(env, w);
      if !RecordFits(env.data, w) {
        NoRecordAfterOverflow(env, rec.rest);
      } else {
        RecordsFramed(env, dm, n - 1, f.cookie, rec.rest, o.mem, at);
      }
    }
  }

  lemma {:induction false} NoRecordAfterOverflow(env: Env, w: Window)
    requires Inside(env.data, w) && Overflowed(w)
    ensures StartRecord(env, w).err == READER_OVERFLOWED
  {
  }

  // The marker, the symbol and the number of fields take eight bytes.
  ghost predicate FieldsFit(data: seq<Byte>, w: Window)
    requires Inside(data, w)
  {
    CouldSkip(w, 8) && RecordsFit(data, w.(cur := w.cur + 8), FieldCount(data, w))
  }

  ghost function FieldCount(data: seq<Byte>, w: Window): nat
    requires Inside(data, w) && CouldSkip(w, 8)
  {
    var n := Peek32(data, w.(cur := w.cur + 4));
    if n < 0 then 0 else n
  }

  ghost function FieldsEnd(data: seq<Byte>, w: Window): nat
    requires Inside(data, w) && FieldsFit(data, w)
  {
    RecordsEnd(data, w.(cur := w.cur + 8), FieldCount(data, w))
  }

  lemma {:induction false} FieldsFramed(env: Env, expected: Name, dm: Datamap, w: Window, mem: Memory, at: nat)
    requires Inside(env.data, w)
    requires RestoreFields(env, expected, dm, w, mem, at).err.NONE?
    ensures FieldsFit(env.data, w) <==> !Overflowed(RestoreFields(env, expected, dm, w, mem, at).w)
    ensures FieldsFit(env.data, w) ==>
      RestoreFields(env, expected, dm, w, mem, at).w == Window(FieldsEnd(env.data, w), w.end)
  {
    hide RestoreFields, RestoreRecords, RecordsFit, RecordsEnd, Skip;
    HeaderRead(env, expected, dm, w, mem, at);
    var w3 := Skip(Skip(Skip(w, 2), 2), 4);
    HeaderFits(w);
    var n := Peek32(env.data, Skip(Skip(w, 2), 2));
    if !Overflowed(w3) {
      RecordsFramed(env, dm, if n < 0 then 0 else n, -1, w3, mem, at);
    } else {
      NothingAfterOverflow(env, dm, w, mem, at);
    }
  }

  lemma {:induction false} HeaderFits(w: Window)
    ensures CouldSkip(w, 8) <==> !Overflowed(Skip(Skip(Skip(w, 2), 2), 4))
    ensures CouldSkip(w, 8) ==> Skip(Skip(w, 2), 2) == w.(cur := w.cur + 4)
    ensures CouldSkip(w, 8) ==> Skip(Skip(Skip(w, 2), 2), 4) == w.(cur := w.cur + 8)
  {
  }

  lemma {:induction false} HeaderRead(env: Env, expected: Name, dm: Datamap, w: Window, mem: Memory, at: nat)
    requires Inside(env.data, w) && RestoreFields(env, expected, dm, w, mem, at).err.NONE?
    ensures var w2 := Skip(Skip(w, 2), 2); var n := Peek32(env.data, w2);
      && Inside(env.data, w2) && Inside(env.data, Skip(w2, 4))
      && RestoreFields(env, expected, dm, w, mem, at)
        == RestoreRecords(env, dm, if n < 0 then 0 else n, -1, Skip(w2, 4), mem, at)
  {
    hide RestoreRecords, Peek16, Peek32, Same;
  }

  // Without room for the number of fields there are no records.
  lemma {:induction false} NothingAfterOverflow(env: Env, dm: Datamap, w: Window, mem: Memory, at: nat)
    requires Inside(env.data, w) && Overflowed(Skip(Skip(Skip(w, 2), 2), 4))
    ensures var w2 := Skip(Skip(w, 2), 2);
      && Inside(env.data, w2) && Inside(env.data, Skip(w2, 4)) && Peek32(env.data, w2) == 0
      && RestoreRecords(env, dm, 0, -1, Skip(w2, 4), mem, at).w == Skip(w2, 4)
  {
  }

  // A class and its bases, one behind the other.
  ghost predicate ClassFits(data: seq<Byte>, dm: Datamap, w: Window)
    requires Inside(data, w)
    decreases dm, 0
  {
    if dm.base.Some? then
      ClassFits(data, dm.base.value, w) && FieldsFit(data, w.(cur := ClassEnd(data, dm.base.value, w)))
    else FieldsFit(data, w)
  }

  ghost function ClassEnd(data: seq<Byte>, dm: Datamap, w: Window): (end: nat)
    requires Inside(data, w) && ClassFits(data, dm, w)
    ensures Inside(data, w.(cur := end))
    decreases dm, 1
  {
    if dm.base.Some? then
      var end := ClassEnd(data, dm.base.value, w);
      FieldsEndInside(data, w.(cur := end));
      FieldsEnd(data, w.(cur := end))
    else
      FieldsEndInside(data, w);
      FieldsEnd(data, w)
  }

  lemma {:induction false} RecordsEndInside(data: seq<Byte>, w: Window, n: nat)
    requires Inside(data, w) && RecordsFit(data, w, n)
    ensures w.cur <= RecordsEnd(data, w, n) && (w.cur <= w.end ==> RecordsEnd(data, w, n) <= w.end)
    decreases n
  {
    if n > 0 {
      RecordsEndInside(data, w.(cur := w.cur + 4 + SizeAt(data, w)), n - 1);
    }
  }

  lemma {:induction false} FieldsEndInside(data: seq<Byte>, w: Window)
    requires Inside(data, w) && FieldsFit(data, w)
    ensures FieldsEnd(data, w) <= w.end
  {
    RecordsEndInside(data, w.(cur := w.cur + 8), FieldCount(data, w));
  }

  // At any depth of base classes, a class that fits is consumed exactly, and one that is
  // restored without overflow fits.
  lemma {:induction false} ClassFramed(env: Env, dm: Datamap, w: Window, mem: Memory, at: nat)
    requires Inside(env.data, w) && RestoreRecursive(env, dm, w, mem, at).err.NONE?
    ensures ClassFits(env.data, dm, w) <==> !Overflowed(RestoreRecursive(env, dm, w, mem, at).w)
    ensures ClassFits(env.data, dm, w) ==>
      RestoreRecursive(env, dm, w, mem, at).w == Window(ClassEnd(env.data, dm, w), w.end)
    decreases dm
  {
    if dm.base.Some? {
      var o := RestoreRecursive(env, dm.base.value, w, mem, at);
      ClassFramed(env, dm.base.value, w, mem, at);
      FieldsFramed(env, dm.name, dm, o.w, o.mem, at);
    } else {
      FieldsFramed(env, dm.name, dm, w, mem, at);
    }
  }

  // ---------- no read leaves the window ----------

  // Two save files that differ only outside a window, with the same symbols and handlers.
  ghost predicate Agree(a: Env, b: Env, w: Window) {
    && a.symbols == b.symbols && a.handler == b.handler && |a.data| == |b.data|
    && Inside(a.data, w)
    && (!Overflowed(w) ==> a.data[w.cur..w.end] == b.data[w.cur..w.end])
  }

  lemma {:induction false} AgreeWithin(a: Env, b: Env, w: Window, w': Window)
    requires Agree(a, b, w) && Inside(a.data, w') && Within(w', w)
    ensures Agree(a, b, w')
  {
    if !Overflowed(w') {
      var k, l := w'.cur - w.cur, w'.end - w.cur;
      assert a.data[w'.cur..w'.end] == a.data[w.cur..w.end][k..l];
      assert b.data[w'.cur..w'.end] == b.data[w.cur..w.end][k..l];
    }
  }

  lemma {:induction false} AgreeInside(a: Env, b: Env, w: Window)
    requires Agree(a, b, w)
    ensures Inside(a.data, w) && Inside(b.data, w)
  {
  }

  lemma {:induction false} AgreePeek(a: Env, b: Env, w: Window)
    requires Agree(a, b, w)
    ensures Peek16(a.data, w) == Peek16(b.data, w) && Peek32(a.data, w) == Peek32(b.data, w)
    ensures Rest(a.data, w) == Rest(b.data, w)
  {
    if !Overflowed(w) {
      forall i | w.cur <= i < w.end
        ensures a.data[i] == b.data[i]
      {
        assert a.data[w.cur..w.end][i - w.cur] == b.data[w.cur..w.end][i - w.cur];
      }
    }
  }

  lemma {:induction false} AgreeSlice(a: Env, b: Env, w: Window, n: nat)
    requires Agree(a, b, w) && CouldSkip(w, n)
    ensures a.data[w.cur..w.cur + n] == b.data[w.cur..w.cur + n]
  {
    SliceStart(a.data, w.cur, w.end, n);
    SliceStart(b.data, w.cur, w.end, n);
  }

  lemma {:induction false} SliceStart(s: seq<Byte>, i: nat, j: nat, n: nat)
    requires i + n <= j <= |s|
    ensures s[i..i + n] == s[i..j][..n]
  {
    forall k | 0 <= k < n
      ensures s[i..i + n][k] == s[i..j][..n][k]
    {
    }
  }

  lemma {:induction false} AgreeSymbol(a: Env, b: Env, w: Window)
    requires Agree(a, b, w)
    ensures ReadSymbol(a, w) == ReadSymbol(b, w)
  {
    AgreePeek(a, b, w);
  }

  lemma {:induction false} AgreeStart(a: Env, b: Env, w: Window)
    requires Agree(a, b, w)
    ensures StartRecord(a, w) == StartRecord(b, w)
  {
    AgreePeek(a, b, w);
    AgreeWithin(a, b, w, Skip(w, 2));
    AgreeSymbol(a, b, Skip(w, 2));
  }

  lemma {:induction false} AgreeStrings(a: Env, b: Env, w: Window, mem: Memory, at: nat, n: nat)
    requires Agree(a, b, w)
    ensures ReadStrings(a.data, w, mem, at, n) == ReadStrings(b.data, w, mem, at, n)
    decreases n
  {
    hide Write, StringPointer, ZeroAt, Rest, Skip, ReadStrings, Agree, Within;
    AgreeInside(a, b, w);
    if n == 0 || Remaining(w) == 0 {
      StringsEnd(a.data, w, mem, at, n);
      StringsEnd(b.data, w, mem, at, n);
    } else {
      AgreePeek(a, b, w);
      StringsStep(a.data, w, mem, at, n);
      StringsStep(b.data, w, mem, at, n);
      var want := ZeroAt(Rest(a.data, w)) + 1;
      var take := if want <= Remaining(w) then want else Remaining(w);
      AgreeSlice(a, b, w, take);
      AgreeWithin(a, b, w, Skip(w, take));
      AgreeStrings(a, b, Skip(w, take), Write(mem, at, StringPointer(a.data[w.cur..w.cur + take])), at + PTR, n - 1);
    }
  }

  lemma {:induction false} AgreeSimple(a: Env, b: Env, w: Window, mem: Memory, at: nat, ftype: int, n: nat, total: nat)
    requires Agree(a, b, w)
    ensures RestoreSimple(a.data, w, mem, at, ftype, n, total) == RestoreSimple(b.data, w, mem, at, ftype, n, total)
  {
    hide Write, RawBytes, StringPointer, ReadStrings, Plain, StringLike;
    AgreeStrings(a, b, w, mem, at, n);
    if CouldSkip(w, total) {
      AgreeSlice(a, b, w, total);
    }
  }

  lemma {:induction false} AgreeField(a: Env, b: Env, field: Field, w: Window, mem: Memory, at: nat)
    requires Agree(a, b, w) && !Overflowed(w)
    ensures RestoreField(a, field, w, mem, at) == RestoreField(b, field, w, mem, at)
    decreases field, 5
  {
    hide RestoreSimple, RestoreElements, Write, Rest;
    AgreePeek(a, b, w);
    match field.kind {
      case Simple(ftype) => AgreeSimple(a, b, w, mem, at + field.chOffset, ftype, field.nElems, field.totalSize);
      case Embedded(inner) => AgreeElements(a, b, inner, field.nElems, field.totalSize, w, mem, at + field.chOffset);
      case Custom(ops) =>
    }
  }

  lemma {:induction false} AgreeElements(a: Env, b: Env, inner: Datamap, n: nat, total: nat, w: Window, mem: Memory,
        at: nat)
    requires Agree(a, b, w)
    ensures RestoreElements(a, inner, n, total, w, mem, at) == RestoreElements(b, inner, n, total, w, mem, at)
    decreases inner, 4, n
  {
    if n > 0 {
      AgreeClass(a, b, inner, w, mem, at);
      var o := RestoreRecursive(a, inner, w, mem, at);
      AgreeWithin(a, b, w, o.w);
      AgreeElements(a, b, inner, n - 1, total, o.w, o.mem, at + total);
    }
  }

  lemma {:induction false} AgreeClass(a: Env, b: Env, dm: Datamap, w: Window, mem: Memory, at: nat)
    requires Agree(a, b, w)
    ensures RestoreRecursive(a, dm, w, mem, at) == RestoreRecursive(b, dm, w, mem, at)
    decreases dm, 3
  {
    if dm.base.Some? {
      AgreeClass(a, b, dm.base.value, w, mem, at);
      var o := RestoreRecursive(a, dm.base.value, w, mem, at);
      AgreeWithin(a, b, w, o.w);
      AgreeFields(a, b, dm.name, dm, o.w, o.mem, at);
    } else {
      AgreeFields(a, b, dm.name, dm, w, mem, at);
    }
  }

  // What ch_br_restore_fields does depends on nothing but the bytes of its window, at any
  // depth of embedding.
  lemma {:induction false} AgreeFields(a: Env, b: Env, expected: Name, dm: Datamap, w: Window, mem: Memory, at: nat)
    requires Agree(a, b, w)
    ensures RestoreFields(a, expected, dm, w, mem, at) == RestoreFields(b, expected, dm, w, mem, at)
    decreases dm, 2
  {
    AgreePeek(a, b, w);
    AgreeWithin(a, b, w, Skip(w, 2));
    AgreeSymbol(a, b, Skip(w, 2));
    var sym := ReadSymbol(a, Skip(w, 2));
    AgreeWithin(a, b, w, sym.w);
    AgreePeek(a, b, sym.w);
    AgreeWithin(a, b, w, Skip(sym.w, 4));
    var n := Peek32(a.data, sym.w);
    AgreeRecords(a, b, dm, if n < 0 then 0 else n, -1, Skip(sym.w, 4), mem, at);
  }

  lemma {:induction false} AgreeRecords(a: Env, b: Env, dm: Datamap, n: nat, cookie: int, w: Window, mem: Memory,
        at: nat)
    requires Agree(a, b, w) && -1 <= cookie < |dm.fields|
    ensures RestoreRecords(a, dm, n, cookie, w, mem, at) == RestoreRecords(b, dm, n, cookie, w, mem, at)
    decreases dm, 1, n
  {
    hide StartRecord, FindField, RestoreField;
    if n > 0 {
      AgreeStart(a, b, w);
      var rec := StartRecord(a, w);
      AgreeWithin(a, b, w, rec.w);
      AgreeWithin(a, b, w, rec.rest);
      var f := FindField(dm.fields, cookie, rec.symbol, 0);
      if rec.err.NONE? && f.ok {
        AgreeField(a, b, dm.fields[f.cookie], rec.w, mem, at);
        var o := RestoreField(a, dm.fields[f.cookie], rec.w, mem, at);
        AgreeRecords(a, b, dm, n - 1, f.cookie, rec.rest, o.mem, at);
      }
    }
  }
}
