// What restoring answers to any bytes at all, said of the bytes: which records, headers and fields
// are accepted, and what the others are refused with.
module FieldAnswers {
  import opened Wrappers
  import opened Bytes
  import opened ByteReader
  import opened FieldReader
  import opened FieldSearch

  // Two and four bytes as an unsigned number, the lowest first.
  function U16(data: seq<Byte>, k: nat): nat
    requires k + 2 <= |data|
  {
    (data[k] as nat) + 256 * (data[k + 1] as nat)
  }

  function U32(data: seq<Byte>, k: nat): nat
    requires k + 4 <= |data|
  {
    U16(data, k) + 65536 * U16(data, k + 2)
  }

  // There are n bytes at the cursor.
  ghost predicate Has(data: seq<Byte>, w: Window, n: nat) {
    w.cur + n <= w.end && w.end <= |data|
  }

  // Numbers are read in two's complement.
  lemma {:induction false} NumbersRead(data: seq<Byte>, w: Window)
    requires Inside(data, w)
    ensures Has(data, w, 2) ==> var x := U16(data, w.cur); Peek16(data, w) == if x < 32768 then x else x - 65536
    ensures Has(data, w, 4) ==>
      var x := U32(data, w.cur); Peek32(data, w) == if x < 0x8000_0000 then x else x - 0x1_0000_0000
    ensures !Has(data, w, 2) ==> Peek16(data, w) == 0
    ensures !Has(data, w, 4) ==> Peek32(data, w) == 0
  {
  }

  // The name with the index that the bytes give; an index from 32768 on is negative.
  ghost predicate Names(env: Env, k: nat, symbol: Name)
    requires k + 2 <= |env.data|
  {
    U16(env.data, k) < 32768 && U16(env.data, k) < |env.symbols| && env.symbols[U16(env.data, k)] == symbol
  }

  ghost predicate NamesNone(env: Env, k: nat)
    requires k + 2 <= |env.data|
  {
    U16(env.data, k) >= 32768 || U16(env.data, k) >= |env.symbols|
  }

  lemma {:induction false} SymbolAnswered(env: Env, w: Window)
    requires Inside(env.data, w)
    ensures var r := ReadSymbol(env, w);
      && (!Has(env.data, w, 2) ==> r.err.READER_OVERFLOWED? && Overflowed(r.w))
      && (Has(env.data, w, 2) ==> r.w == w.(cur := w.cur + 2))
      && (Has(env.data, w, 2) && NamesNone(env, w.cur) ==> r.err.BAD_SYMBOL?)
      && (Has(env.data, w, 2) && !NamesNone(env, w.cur) ==> r.err.NONE? && Names(env, w.cur, r.symbol))
  {
    NumbersRead(env.data, w);
  }

  // A record is started exactly if its header is there, with a size that is not negative and the
  // index of a symbol. One that is larger than what is left gets what is left.
  lemma {:induction false} StartAnswered(env: Env, w: Window)
    requires Inside(env.data, w)
    ensures var r, k := StartRecord(env, w), w.cur;
      && (r.err.NONE? <==> Has(env.data, w, 4) && U16(env.data, k) < 32768 && !NamesNone(env, k + 2))
      && (!Has(env.data, w, 2) ==> r.err.READER_OVERFLOWED?)
      && (Has(env.data, w, 2) && U16(env.data, k) >= 32768 ==> r.err.BAD_BLOCK_START?)
      && (Has(env.data, w, 2) && U16(env.data, k) < 32768 && !Has(env.data, w, 4) ==> r.err.READER_OVERFLOWED?)
      && (Has(env.data, w, 4) && U16(env.data, k) < 32768 && NamesNone(env, k + 2) ==> r.err.BAD_SYMBOL?)
      && (r.err.NONE? ==> Names(env, k + 2, r.symbol) && StartedAt(env, w, r.w, r.rest))
  {
    NumbersRead(env.data, w);
    if Has(env.data, w, 2) {
      SymbolAnswered(env, w.(cur := w.cur + 2));
    }
  }

  ghost predicate StartedAt(env: Env, w: Window, chunk: Window, rest: Window)
    requires Inside(env.data, w) && Has(env.data, w, 4)
  {
    var body := w.cur + 4;
    var end := body + U16(env.data, w.cur);
    if end <= w.end then chunk == Window(body, end) && rest == Window(end, w.end)
    else chunk == Window(body, w.end) && Overflowed(rest)
  }

  // Types that are read as strings, and those that are read as bytes.
  ghost predicate IsString(ftype: int) {
    ftype == 2 || ftype == 18 || ftype == 19 || ftype == 21 || ftype == 26 || ftype == 27
  }

  ghost predicate IsPlain(ftype: int) {
    0 < ftype < 29 && !IsString(ftype) && ftype != 10 && ftype != 11 && ftype != 20
  }

  // A simple field takes any strings, and bytes if there are enough of them and it is not empty.
  // A record that is refused changes nothing.
  lemma {:induction false} SimpleAnswered(env: Env, field: Field, w: Window, mem: Memory, at: nat)
    requires field.kind.Simple? && Inside(env.data, w) && !Overflowed(w)
    ensures var o := RestoreField(env, field, w, mem, at); var ftype := field.kind.ftype;
      && (IsString(ftype) ==> o.err.NONE?)
      && (IsPlain(ftype) ==> if 0 < field.totalSize <= w.end - w.cur then o.err.NONE? else o.err.BAD_FIELD_READ?)
      && (!IsString(ftype) && !IsPlain(ftype) ==> o.err.BAD_FIELD_TYPE?)
      && (!o.err.NONE? ==> o.mem == mem)
  {
    hide ReadStrings, Write, RawBytes;
  }

  // The records of a class stop at the first that cannot be started, that is for no field of the
  // class, or that its field refuses, and the answer is that of this record.
  lemma {:induction false} RecordAnswered(env: Env, dm: Datamap, n: nat, cookie: int, w: Window, mem: Memory, at: nat)
    requires Inside(env.data, w) && -1 <= cookie < |dm.fields|
    ensures var o, rec := RestoreRecords(env, dm, n, cookie, w, mem, at), StartRecord(env, w);
      && (n == 0 ==> o == Outcome(NONE, w, mem))
      && (n > 0 && !rec.err.NONE? ==> o == Outcome(rec.err, rec.w, mem))
      && (n > 0 && rec.err.NONE? && (forall k :: 0 <= k < |dm.fields| ==> !Same(dm.fields[k].name, rec.symbol)) ==>
          o == Outcome(FIELD_NOT_FOUND, rec.w, mem))
      && (n > 0 && rec.err.NONE? && (exists k :: 0 <= k < |dm.fields| && Same(dm.fields[k].name, rec.symbol)) ==>
          exists k :: 0 <= k < |dm.fields| && Same(dm.fields[k].name, rec.symbol)
            && GoesOn(env, dm, n, k, rec, o, mem, at))
  {
    hide FindField, StartRecord, RestoreField, RestoreRecords, Same;
    RecordStep(env, dm, n, cookie, w, mem, at);
    var rec := StartRecord(env, w);
    if n > 0 && rec.err.NONE? {
      SearchAgainstScan(dm.fields, cookie, rec.symbol);
      var f := FindField(dm.fields, cookie, rec.symbol, 0);
      if f.ok {
        assert GoesOn(env, dm, n, f.cookie, rec, RestoreRecords(env, dm, n, cookie, w, mem, at), mem, at);
      } else {
        forall k: nat | k < |dm.fields|
          ensures !Same(dm.fields[k].name, rec.symbol)
        {
          assert !Matches(dm.fields, k, rec.symbol);
        }
      }
    }
  }

  // The record is for field k: what comes of it, or of the records behind it.
  ghost predicate GoesOn(env: Env, dm: Datamap, n: nat, k: int, rec: Record, o: Outcome, mem: Memory, at: nat)
    requires n > 0 && 0 <= k < |dm.fields|
    requires Inside(env.data, rec.w) && !Overflowed(rec.w) && Inside(env.data, rec.rest)
  {
    var o1 := RestoreField(env, dm.fields[k], rec.w, mem, at);
    o == if o1.err.NONE? then RestoreRecords(env, dm, n - 1, k, rec.rest, o1.mem, at) else o1
  }

  lemma {:induction false} RecordStep(env: Env, dm: Datamap, n: nat, cookie: int, w: Window, mem: Memory, at: nat)
    requires Inside(env.data, w) && -1 <= cookie < |dm.fields|
    ensures var o, rec := RestoreRecords(env, dm, n, cookie, w, mem, at), StartRecord(env, w);
      var f := FindField(dm.fields, cookie, rec.symbol, 0);
      && (n == 0 ==> o == Outcome(NONE, w, mem))
      && (n > 0 && !rec.err.NONE? ==> o == Outcome(rec.err, rec.w, mem))
      && (n > 0 && rec.err.NONE? && !f.ok ==> o == Outcome(FIELD_NOT_FOUND, rec.w, mem))
      && (n > 0 && rec.err.NONE? && f.ok ==> GoesOn(env, dm, n, f.cookie, rec, o, mem, at))
  {
    hide FindField, StartRecord, RestoreField;
  }

  // A class is refused before its records if the marker or the name is not what is expected. A
  // number of records that is negative, or is not there, is none.
  lemma {:induction false} HeaderAnswered(env: Env, expected: Name, dm: Datamap, w: Window, mem: Memory, at: nat)
    requires Inside(env.data, w)
    ensures var o, k := RestoreFields(env, expected, dm, w, mem, at), w.cur;
      && (!Has(env.data, w, 2) || U16(env.data, k) != 4 ==> o.err.BAD_FIELDS_MARKER? && o.mem == mem)
      && (Has(env.data, w, 2) && U16(env.data, k) == 4 && !Has(env.data, w, 4) ==>
          o.err.READER_OVERFLOWED? && o.mem == mem)
      && (Has(env.data, w, 4) && U16(env.data, k) == 4 && !Expected(env, k + 2, expected) ==>
          o.err.BAD_SYMBOL? && o.mem == mem)
      && (Has(env.data, w, 4) && U16(env.data, k) == 4 && Expected(env, k + 2, expected) ==>
          o == RestoreRecords(env, dm, if Has(env.data, w, 8) && U32(env.data, k + 4) < 0x8000_0000
                                       then U32(env.data, k + 4) else 0,
                              -1, Skip(w.(cur := k + 4), 4), mem, at))
  {
    hide RestoreRecords, Same;
    NumbersRead(env.data, w);
    if Has(env.data, w, 2) {
      SymbolAnswered(env, w.(cur := w.cur + 2));
    }
    if Has(env.data, w, 4) {
      NumbersRead(env.data, w.(cur := w.cur + 4));
    }
  }

  ghost predicate Expected(env: Env, k: nat, expected: Name)
    requires k + 2 <= |env.data|
  {
    !NamesNone(env, k) && Same(env.symbols[U16(env.data, k)], expected)
  }
}
