// When the order of records does matter: exactly when two fields reach the same byte.
module OrderMatters {
  import opened Wrappers
  import opened Bits
  import opened Bytes
  import opened ByteReader
  import opened Layout
  import opened FieldReader
  import opened FieldSearch
  import opened FieldOrder

  // ---------- records that reach a given byte ----------

  function Zeros(n: nat): (s: seq<Byte>)
    ensures |s| == n && forall k :: 0 <= k < n ==> s[k] == 0
  {
    seq(n, k requires 0 <= k < n => 0)
  }

  // Bytes for a field so that what is written i bytes behind its start tells x.
  function Filler(field: Field, x: Byte, i: nat): (s: seq<Byte>)
    requires field.kind.Simple?
  {
    if StringLike(field.kind.ftype) then Zeros(i / PTR) + [x]
    else seq(field.totalSize, k requires 0 <= k < field.totalSize => x)
  }

  function Mark(field: Field, x: Byte, i: nat): Cell
    requires field.kind.Simple?
  {
    if StringLike(field.kind.ftype) then StringPart([x], i % PTR) else Raw(x)
  }

  // Empty strings, and then one that is x.
  lemma {:induction false} LastString(m: nat, x: Byte, n: nat, j: nat)
    requires x <= 1 && m < n && j < PTR
    ensures m * PTR + j < |StringCells(Zeros(m) + [x], n)|
    ensures StringCells(Zeros(m) + [x], n)[m * PTR + j] == StringPart([x], j)
    decreases m
  {
    hide StringCells;
    var s := Zeros(m) + [x];
    if m == 0 {
      OneString(x, n);
    } else {
      assert s[0] == 0 && s[1..] == Zeros(m - 1) + [x];
      EmptyString(s, n);
      LastString(m - 1, x, n - 1, j);
      Behind(StringPointer([0]), StringCells(s[1..], n - 1), (m - 1) * PTR + j);
      Times(m);
    }
  }

  lemma {:induction false} Times(m: nat)
    requires m > 0
    ensures m * PTR == PTR + (m - 1) * PTR
  {
  }

  lemma {:induction false} Behind(a: seq<Cell>, b: seq<Cell>, i: nat)
    requires i < |b|
    ensures |a| + i < |a + b| && (a + b)[|a| + i] == b[i]
  {
  }

  lemma {:induction false} OneString(x: Byte, n: nat)
    requires x <= 1 && n > 0
    ensures StringCells(Zeros(0) + [x], n) == StringPointer([x])
  {
    hide ZeroAt;
    assert Zeros(0) + [x] == [x] && [x][..1] == [x] && [x][1..] == [];
    OneByte(x);
    assert StringCells([], n - 1) == [];
  }

  lemma {:induction false} EmptyString(s: seq<Byte>, n: nat)
    requires s != [] && s[0] == 0 && n > 0
    ensures StringCells(s, n) == StringPointer([0]) + StringCells(s[1..], n - 1)
  {
    hide ZeroAt;
    ZeroFirst(s);
    assert s[..1] == [0];
  }

  lemma {:induction false} OneByte(x: Byte)
    requires x <= 1
    ensures ZeroAt([x]) == x
  {
    assert [x][1..] == [];
  }

  lemma {:induction false} ZeroFirst(s: seq<Byte>)
    requires s != [] && s[0] == 0
    ensures ZeroAt(s) == 0
  {
  }

  lemma {:induction false} FillerMarks(field: Field, x: Byte, i: nat)
    requires Restorable(field) && i < Reach(field) && x <= 1
    ensures |Filler(field, x, i)| <= INT16_MAX && Enough(field, Filler(field, x, i))
    ensures i < |FieldCells(field, Filler(field, x, i))|
    ensures FieldCells(field, Filler(field, x, i))[i] == Mark(field, x, i)
  {
    hide StringCells;
    if StringLike(field.kind.ftype) {
      var m := i / PTR;
      assert i == PTR * m + i % PTR;
      var n := if field.nElems < INT16_MAX then field.nElems else INT16_MAX;
      if n <= m {
        MulMono(n, m, PTR);
        assert false;
      }
      LastString(m, x, field.nElems, i % PTR);
    } else {
      var s := Filler(field, x, i);
      assert s[..field.totalSize] == s;
    }
  }

  // ---------- two orders ----------

  lemma {:induction false} OwnField(symbols: seq<Name>, dm: Datamap, k: nat, r: Rec)
    requires Uniform(dm) && k < |dm.fields| && r.symbol < |symbols| && symbols[r.symbol] == dm.fields[k].name
    ensures FieldOf(symbols, dm, r) == Some(k)
  {
    SearchOfUnique(dm.fields, -1, symbols[r.symbol], k);
  }

  // What two writes leave where both reach.
  lemma {:induction false} Later(a: nat, p: seq<Cell>, b: nat, q: seq<Cell>, x: nat)
    requires a <= x < a + |p| && b <= x < b + |q|
    ensures var m := Write(Write(map[], a, p), b, q); x in m && m[x] == q[x - b]
  {
  }

  lemma {:induction false} BeginsAll(s: seq<Byte>)
    ensures Begins(s, Window(0, |s|), s)
  {
    assert s[0..0 + |s|] == s;
  }

  lemma {:induction false} TwoApplied(symbols: seq<Name>, dm: Datamap, mem: Memory, at: nat, q: Rec, r: Rec)
    requires ValidRec(symbols, dm, q) && ValidRec(symbols, dm, r)
    ensures AppliedAll(symbols, dm, mem, at, [q, r]) == Applied(symbols, dm, Applied(symbols, dm, mem, at, q), at, r)
  {
    hide Applied, ValidRec, FieldOf;
    var m := Applied(symbols, dm, mem, at, q);
    assert [q, r][1..] == [r] && [r][1..] == [];
    assert AppliedAll(symbols, dm, m, at, [r]) == Applied(symbols, dm, m, at, r);
  }

  // Two records that write different cells to the same byte.
  ghost predicate Differ(symbols: seq<Name>, dm: Datamap, q: Rec, r: Rec, x: nat) {
    && ValidRec(symbols, dm, q) && ValidRec(symbols, dm, r)
    && FieldOf(symbols, dm, q) != FieldOf(symbols, dm, r)
    && var a, b := dm.fields[FieldOf(symbols, dm, q).value], dm.fields[FieldOf(symbols, dm, r).value];
      && a.chOffset <= x < a.chOffset + |FieldCells(a, q.payload)|
      && b.chOffset <= x < b.chOffset + |FieldCells(b, r.payload)|
      && FieldCells(a, q.payload)[x - a.chOffset] != FieldCells(b, r.payload)[x - b.chOffset]
  }

  // Of two such records the later one wins.
  lemma {:induction false} TwoOrders(symbols: seq<Name>, dm: Datamap, q: Rec, r: Rec, x: nat)
    requires Uniform(dm) && Differ(symbols, dm, q, r, x)
    ensures !OrderFree(dm)
  {
    hide EncodeRecs, Begins, FieldCells, FieldOf, Enough, ValidRec, RestoreRecords, Applied, AppliedAll, Uniform;
    var u, v := [q, r], [r, q];
    assert multiset(u) == multiset(v);
    BothValid(symbols, dm, q, r);
    var env := Env(EncodeRecs(u), symbols, (n: nat, bytes: seq<Byte>) => Failed(0));
    var env' := env.(data := EncodeRecs(v));
    var w, w' := Window(0, |env.data|), Window(0, |env'.data|);
    BeginsAll(env.data);
    BeginsAll(env'.data);
    assert SameRecords(env, env', dm, u, v, w, w');
    BeginsInside(env.data, w, env.data);
    BeginsInside(env'.data, w', env'.data);
    RecordsApplied(env, dm, u, -1, w, map[], 0);
    RecordsApplied(env', dm, v, -1, w', map[], 0);
    TwoApplied(symbols, dm, map[], 0, q, r);
    TwoApplied(symbols, dm, map[], 0, r, q);
    AppliedAt(symbols, dm, q, r, x);
    AppliedAt(symbols, dm, r, q, x);
    assert !SameObject(env, env', dm, u, v, w, w', map[], 0);
  }

  lemma {:induction false} BothValid(symbols: seq<Name>, dm: Datamap, q: Rec, r: Rec)
    requires ValidRec(symbols, dm, q) && ValidRec(symbols, dm, r)
    ensures Encodable(q) && Encodable(r)
    ensures FieldOf(symbols, dm, q) != FieldOf(symbols, dm, r) ==>
      ValidRecs(symbols, dm, [q, r]) && ValidRecs(symbols, dm, [r, q])
  {
    hide FieldOf, Enough;
  }

  // Where two fields overlap, there are such records.
  lemma {:induction false} OverlapMatters(dm: Datamap, k: nat, l: nat)
    requires Uniform(dm) && k < l < |dm.fields| && Overlap(dm.fields[k], dm.fields[l])
    ensures !OrderFree(dm)
  {
    hide OrderFree, Reach, Filler, FieldCells, FieldOf, Enough, Uniform;
    var a, b := dm.fields[k], dm.fields[l];
    assert Restorable(a) && Restorable(b) by { AllRestorable(dm); }
    var x := if a.chOffset < b.chOffset then b.chOffset else a.chOffset;
    var p, q := Filler(a, 0, x - a.chOffset), Filler(b, 1, x - b.chOffset);
    var symbols, r, s := [a.name, b.name], Rec(0, p), Rec(1, q);
    FillerMarks(a, 0, x - a.chOffset);
    FillerMarks(b, 1, x - b.chOffset);
    OwnField(symbols, dm, k, r);
    OwnField(symbols, dm, l, s);
    assert Differ(symbols, dm, r, s, x);
    TwoOrders(symbols, dm, r, s, x);
  }

  lemma {:induction false} AllRestorable(dm: Datamap)
    requires Uniform(dm)
    ensures forall k :: 0 <= k < |dm.fields| ==> Restorable(dm.fields[k])
  {
  }

  // What the second of two records leaves at a byte that both reach.
  lemma {:induction false} AppliedAt(symbols: seq<Name>, dm: Datamap, q: Rec, r: Rec, x: nat)
    requires ValidRec(symbols, dm, q) && ValidRec(symbols, dm, r)
    requires var a := dm.fields[FieldOf(symbols, dm, q).value];
      a.chOffset <= x < a.chOffset + |FieldCells(a, q.payload)|
    requires var b := dm.fields[FieldOf(symbols, dm, r).value];
      b.chOffset <= x < b.chOffset + |FieldCells(b, r.payload)|
    ensures var b := dm.fields[FieldOf(symbols, dm, r).value];
      var m := Applied(symbols, dm, Applied(symbols, dm, map[], 0, q), 0, r);
      x in m && m[x] == FieldCells(b, r.payload)[x - b.chOffset]
  {
    hide FieldCells, FieldOf, Write, Enough;
    var a, b := dm.fields[FieldOf(symbols, dm, q).value], dm.fields[FieldOf(symbols, dm, r).value];
    Later(0 + a.chOffset, FieldCells(a, q.payload), 0 + b.chOffset, FieldCells(b, r.payload), x);
  }

  // For uniquely named, simple fields, wherever they are: the order of records never matters
  // exactly if no two fields reach the same byte.
  lemma {:induction false} OrderMattersExactly(dm: Datamap)
    requires Uniform(dm)
    ensures OrderFree(dm) <==> NoOverlap(dm)
  {
    hide Uniform, SameRecords, SameObject, Overlap;
    if NoOverlap(dm) {
      forall env, env', s, t, w, w', mem, at: nat | SameRecords(env, env', dm, s, t, w, w')
        ensures Inside(env.data, w) && Inside(env'.data, w') && SameObject(env, env', dm, s, t, w, w', mem, at)
      {
        RecordsInside(env, env', dm, s, t, w, w');
        OrderDoesNotMatter(env, env', dm, s, t, w, w', mem, at);
      }
    } else {
      var k, l :| 0 <= k < l < |dm.fields| && Overlap(dm.fields[k], dm.fields[l]);
      OverlapMatters(dm, k, l);
    }
  }

  lemma {:induction false} RecordsInside(env: Env, env': Env, dm: Datamap, s: seq<Rec>, t: seq<Rec>, w: Window,
        w': Window)
    requires SameRecords(env, env', dm, s, t, w, w')
    ensures Inside(env.data, w) && Inside(env'.data, w')
  {
  }

  // A class as the writer lays it out: an array of two strings, for which the game has room for
  // one pointer, and a float behind it. The second string and the float reach the same bytes.
  lemma {:induction false} StringsWithoutRoom()
    ensures var dm := Datamap([99], None,
        [Field([97], Simple(2), 2, PTR, 0), Field([98], Simple(1), 1, 4, PTR)]);
      Uniform(dm) && LaidOut(dm, 0) && !OrderFree(dm)
  {
    hide OrderFree, Same;
    var dm := Datamap([99], None, [Field([97], Simple(2), 2, PTR, 0), Field([98], Simple(1), 1, 4, PTR)]);
    assert StringLike(2) && Plain(1);
    assert !Same([97], [98]) by { OtherName(); }
    RoomForOne(dm);
    assert Overlap(dm.fields[0], dm.fields[1]);
    OverlapMatters(dm, 0, 1);
  }

  lemma {:induction false} OtherName()
    ensures !Same([97], [98])
  {
    assert LowerName([97])[0] != LowerName([98])[0];
  }

  lemma {:induction false} RoomForOne(dm: Datamap)
    requires |dm.fields| == 2 && dm.fields[0].kind == Simple(2) && dm.fields[0].totalSize == PTR
    requires dm.fields[0].chOffset == 0 && dm.fields[1].chOffset == PTR
    ensures LaidOut(dm, 0)
  {
    hide SlotSize;
    var needs := Needs(dm);
    assert needs[1..] == [needs[1]] && needs[1..][1..] == [];
    WholeSlot();
    assert Offsets(needs, 0) == [0] + Offsets(needs[1..], PTR);
    assert [needs[1]][1..] == [];
    assert Offsets([needs[1]], PTR) == [PTR] + Offsets([], PTR + SlotSize(needs[1]));
  }

  lemma {:induction false} WholeSlot()
    ensures SlotSize(Need(false, PTR)) == PTR
  {
    var k := PtrBits();
    AlignIsLeastMultiple(PTR, k);
    assert PTR % PTR == 0;
  }
}
