// The functions of chicago_parse_lib/src/ch_field_reader.c and .h as they run: a reader that
// moves through the save file, and the memory of the object that is filled in.
module Restorer {
  import opened Wrappers
  import opened Bytes
  import opened ByteReader
  import opened Bits
  import opened FieldReader
  import F = FieldReader

  class Restorer {
    const env: Env
    const br: ByteReader
    var mem: Memory

    ghost predicate Valid()
      reads this, br
    {
      br.Valid() && br.data == env.data
    }

    constructor (env: Env)
      ensures Valid() && fresh(br) && br.View() == Window(0, |env.data|) && this.env == env && mem == map[]
    {
      this.env := env;
      br := new ByteReader(env.data);
      mem := map[];
    }

    method ReadSymbol() returns (err: Err, symbol: Name)
      requires Valid()
      modifies br
      ensures Valid()
      ensures F.ReadSymbol(env, old(br.View())) == SymbolRead(err, br.View(), symbol)
    {
      var idx := br.Read16();
      symbol := [];
      if Overflowed(br.View()) {
        err := READER_OVERFLOWED;
      } else if idx < 0 || idx >= |env.symbols| {
        err := BAD_SYMBOL;
      } else {
        err, symbol := NONE, env.symbols[idx];
      }
    }

    method StartRecord() returns (err: Err, symbol: Name, rest: Window)
      requires Valid()
      modifies br
      ensures Valid() && Inside(env.data, rest)
      ensures var r := F.StartRecord(env, old(br.View()));
        r.err == err && r.w == br.View() && (err.NONE? ==> r == Record(NONE, br.View(), rest, symbol))
    {
      symbol, rest := [], Window(0, 0);
      var size := br.Read16();
      if Overflowed(br.View()) {
        return READER_OVERFLOWED, [], rest;
      }
      if size < 0 {
        return BAD_BLOCK_START, [], rest;
      }
      err, symbol := ReadSymbol();
      if !err.NONE? {
        return;
      }
      rest := br.SplitSkipSwap(size);
      if Overflowed(br.View()) {
        err := BAD_BLOCK_START;
      }
    }

    method FindField(fields: seq<Field>, cookie: int, symbol: Name) returns (f: Found)
      requires -1 <= cookie < |fields|
      ensures f == F.FindField(fields, cookie, symbol, 0)
    {
      var c, tests := cookie, 0;
      while tests < |fields|
        invariant 0 <= tests <= |fields| && -1 <= c < |fields|
        invariant F.FindField(fields, c, symbol, tests) == F.FindField(fields, cookie, symbol, 0)
      {
        c := (c + 1) % |fields|;
        if Same(fields[c].name, symbol) {
          return Found(true, c, tests);
        }
        tests := tests + 1;
      }
      f := Found(false, c, tests);
    }

    method ReadStrings(at0: nat, n: nat)
      requires Valid()
      modifies this`mem, br
      ensures Valid()
      ensures F.ReadStrings(env.data, old(br.View()), old(mem), at0, n) == Outcome(NONE, br.View(), mem)
    {
      hide Write, StringPointer, ZeroAt, Rest, Skip;
      var i := 0;
      while Remaining(br.View()) > 0 && i < n
        invariant Valid() && 0 <= i <= n
        invariant F.ReadStrings(env.data, br.View(), mem, at0 + PTR * i, n - i)
          == F.ReadStrings(env.data, old(br.View()), old(mem), at0, n)
        decreases n - i
      {
        NextElement(at0, PTR, i);
        ghost var before := F.ReadStrings(env.data, br.View(), mem, at0 + PTR * i, n - i);
        ReadString(at0 + PTR * i, n - i);
        assert before == F.ReadStrings(env.data, br.View(), mem, at0 + PTR * (i + 1), n - i - 1);
        i := i + 1;
      }
    }

    // ch_br_read_str into the pointer at some address
    method ReadString(at: nat, ghost n: nat)
      requires Valid() && Remaining(br.View()) > 0 && n > 0
      modifies this`mem, br
      ensures Valid()
      ensures F.ReadStrings(env.data, old(br.View()), old(mem), at, n)
        == F.ReadStrings(env.data, br.View(), mem, at + PTR, n - 1)
    {
      hide Write, StringPointer, ZeroAt, F.ReadStrings, Skip, Rest;
      StringsStep(env.data, br.View(), mem, at, n);
      var want := br.StrLen();
      want := want + 1;
      var text := br.Read(if want <= Remaining(br.View()) then want else Remaining(br.View()));
      mem := Write(mem, at, StringPointer(text.value));
    }

    method RestoreSimple(at: nat, ftype: int, n: nat, total: nat) returns (err: Err)
      requires Valid()
      modifies this`mem, br
      ensures Valid()
      ensures F.RestoreSimple(env.data, old(br.View()), old(mem), at, ftype, n, total) == Outcome(err, br.View(), mem)
    {
      hide StringLike, Plain, Write, RawBytes, F.ReadStrings;
      if StringLike(ftype) {
        ReadStrings(at, n);
      } else if Plain(ftype) {
        var avail := Remaining(br.View());
        if total == 0 || avail < total {
          return BAD_FIELD_READ;
        }
        var bytes := br.Read(total);
        mem := Write(mem, at, RawBytes(bytes.value));
      } else {
        return BAD_FIELD_TYPE;
      }
      err := if Overflowed(br.View()) then READER_OVERFLOWED else NONE;
    }

    method RestoreField(field: Field, at: nat) returns (err: Err)
      requires Valid() && !Overflowed(br.View())
      modifies this`mem, br
      ensures Valid()
      ensures F.RestoreField(env, field, old(br.View()), old(mem), at) == Outcome(err, br.View(), mem)
      decreases field, 5
    {
      hide Write, ObjectPointer, F.RestoreSimple, F.RestoreElements;
      match field.kind {
        case Simple(ftype) =>
          if ftype <= FIELD_VOID || ftype >= FIELD_TYPECOUNT {
            return BAD_FIELD_TYPE;
          }
          err := RestoreSimple(at + field.chOffset, ftype, field.nElems, field.totalSize);
        case Embedded(inner) =>
          err := RestoreElements(inner, field.nElems, field.totalSize, at + field.chOffset);
        case Custom(None) =>
          br.Assign(Window(br.end, br.end));
          err := NONE;
        case Custom(Some(ops)) =>
          match env.handler(ops, Rest(env.data, br.View())) {
            case Failed(used) =>
              var _ := br.TrySkip(used);
              err := CUSTOM_FAILED;
            case Made(used, made) =>
              var _ := br.TrySkip(used);
              mem := Write(mem, at + field.chOffset, ObjectPointer(made));
              err := NONE;
          }
      }
    }

    method RestoreElements(inner: Datamap, n: nat, total: nat, at: nat) returns (err: Err)
      requires Valid()
      modifies this`mem, br
      ensures Valid()
      ensures F.RestoreElements(env, inner, n, total, old(br.View()), old(mem), at) == Outcome(err, br.View(), mem)
      decreases inner, 4
    {
      var j := 0;
      while j < n
        invariant Valid() && 0 <= j <= n
        invariant F.RestoreElements(env, inner, n - j, total, br.View(), mem, at + total * j)
          == F.RestoreElements(env, inner, n, total, old(br.View()), old(mem), at)
      {
        err := RestoreRecursive(inner, at + total * j);
        if !err.NONE? {
          return;
        }
        NextElement(at, total, j);
        j := j + 1;
      }
      err := NONE;
    }

    method RestoreRecursive(dm: Datamap, at: nat) returns (err: Err)
      requires Valid()
      modifies this`mem, br
      ensures Valid()
      ensures F.RestoreRecursive(env, dm, old(br.View()), old(mem), at) == Outcome(err, br.View(), mem)
      decreases dm, 3
    {
      if dm.base.Some? {
        err := RestoreRecursive(dm.base.value, at);
        if !err.NONE? {
          return;
        }
      }
      err := RestoreFields(dm.name, dm, at);
    }

    method RestoreFields(expected: Name, dm: Datamap, at: nat) returns (err: Err)
      requires Valid()
      modifies this`mem, br
      ensures Valid()
      ensures F.RestoreFields(env, expected, dm, old(br.View()), old(mem), at) == Outcome(err, br.View(), mem)
      decreases dm, 2
    {
      var marker := br.Read16();
      if marker != 4 {
        return BAD_FIELDS_MARKER;
      }
      var symbol;
      err, symbol := ReadSymbol();
      if !err.NONE? {
        return;
      }
      if !Same(symbol, expected) {
        return BAD_SYMBOL;
      }
      var nFields := br.Read32();
      err := RestoreRecords(dm, nFields, at);
    }

    // The loop over the records.
    method RestoreRecords(dm: Datamap, nFields: int, at: nat) returns (err: Err)
      requires Valid()
      modifies this`mem, br
      ensures Valid()
      ensures F.RestoreRecords(env, dm, if nFields < 0 then 0 else nFields, -1, old(br.View()), old(mem), at)
        == Outcome(err, br.View(), mem)
      decreases dm, 1
    {
      hide F.StartRecord, F.FindField, F.RestoreField, Same;
      var cookie := -1;
      var i := 0;
      err := NONE;
      while i < nFields
        invariant Valid() && 0 <= i && (i <= nFields || nFields < 0) && -1 <= cookie < |dm.fields|
        invariant F.RestoreRecords(env, dm, if nFields < 0 then 0 else nFields - i, cookie, br.View(), mem, at)
          == F.RestoreRecords(env, dm, if nFields < 0 then 0 else nFields, -1, old(br.View()), old(mem), at)
        invariant err == NONE
      {
        var symbol, rest;
        err, symbol, rest := StartRecord();
        if !err.NONE? {
          return;
        }
        var f := FindField(dm.fields, cookie, symbol);
        if !f.ok {
          return FIELD_NOT_FOUND;
        }
        cookie := f.cookie;
        err := RestoreField(dm.fields[cookie], at);
        if !err.NONE? {
          return;
        }
        br.Assign(rest);
        i := i + 1;
      }
    }
  }

  lemma {:induction false} NextElement(at: nat, total: nat, j: nat)
    ensures at + total * j + total == at + total * (j + 1)
  {
  }
}
