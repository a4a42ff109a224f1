// ch_create_naked_packed_collection of chicago_parser_exe/src/ch_recv.c, filling its buffer.
module Packer {
  import opened Wrappers
  import opened Bytes
  import opened Bits
  import opened Datamaps
  import opened ReceiverSpec
  import opened Layout
  import opened Strings
  import opened Image
  import opened Packing
  import FieldReader

  // ---------- the table of strings ----------

  // The strings that are there.
  function Present(strs: seq<Option<Name>>): seq<Name>
    decreases |strs|
  {
    if strs == [] then []
    else
      var last := strs[|strs| - 1];
      Present(strs[..|strs| - 1]) + if last.Some? then [last.value] else []
  }

  ghost predicate Placed(offsets: map<Name, nat>, size: nat, u: seq<Name>) {
    && (forall s :: s in offsets <==> s in u)
    && (forall k :: 0 <= k < |u| ==> offsets[u[k]] == Start(u, k))
    && size == |Section(u)|
  }

  lemma {:induction false} PlacedSnoc(offsets: map<Name, nat>, size: nat, u: seq<Name>, s: Name)
    requires Placed(offsets, size, u) && s !in u
    ensures Placed(offsets[s := size], size + |s| + 1, u + [s])
  {
    hide Section;
    SectionSnoc(u, s);
    assert forall k :: 0 <= k <= |u| ==> (u + [s])[..k] == u[..k];
    assert u[..|u|] == u;
  }

  class Interner {
    var offsets: map<Name, nat>
    var size: nat
    ghost var seen: seq<Name>

    ghost predicate Valid()
      reads this
    {
      Placed(offsets, size, Unique(seen))
    }

    constructor ()
      ensures Valid() && seen == []
    {
      offsets, size, seen := map[], 0, [];
    }

    // ch_add_strings_to_map
    method AddStrings(strs: seq<Option<Name>>)
      requires Valid()
      modifies this
      ensures Valid() && seen == old(seen) + Present(strs)
    {
      hide Placed, Unique;
      assert old(seen) + [] == old(seen);
      for i := 0 to |strs|
        invariant Valid() && seen == old(seen) + Present(strs[..i])
      {
        assert strs[..i + 1][..i] == strs[..i];
        if strs[i].Some? {
          var s := strs[i].value;
          UniqueSnoc(seen, s);
          KnownStrings(offsets, size, Unique(seen));
          ghost var before := seen;
          if s !in offsets {
            PlacedSnoc(offsets, size, Unique(seen), s);
            offsets := offsets[s := size];
            size := size + |s| + 1;
          }
          seen := seen + [s];
          assert before + [s] == old(seen) + Present(strs[..i + 1]);
        }
      }
      assert strs[..|strs|] == strs;
    }

    static lemma {:induction false} KnownStrings(offsets: map<Name, nat>, size: nat, u: seq<Name>)
      requires Placed(offsets, size, u)
      ensures forall s :: s in offsets <==> s in u
    {
    }
  }

  // ---------- the buffer ----------

  // Cells written over others.
  function Put(c: seq<Cell>, at: nat, cells: seq<Cell>): (c': seq<Cell>)
    requires at + |cells| <= |c|
    ensures |c'| == |c|
    ensures forall k :: 0 <= k < |c| ==> c'[k] == if at <= k < at + |cells| then cells[k - at] else c[k]
  {
    c[..at] + cells + c[at + |cells|..]
  }

  method PutCells(bytes: array<Cell>, at: nat, cells: seq<Cell>)
    requires at + |cells| <= bytes.Length
    modifies bytes
    ensures bytes[..] == Put(old(bytes[..]), at, cells)
  {
    for i := 0 to |cells|
      invariant forall k :: 0 <= k < bytes.Length ==>
        bytes[k] == if at <= k < at + i then cells[k - at] else old(bytes[k])
    {
      bytes[at + i] := cells[i];
    }
  }

  // From lo to hi the buffer holds the cells.
  ghost predicate Holds(c: seq<Cell>, lo: nat, hi: nat, cells: seq<Cell>) {
    lo <= hi <= |c| && c[lo..hi] == cells
  }

  ghost predicate Zeros(c: seq<Cell>, lo: nat, hi: nat) {
    lo <= hi <= |c| && forall k :: lo <= k < hi ==> c[k] == Char(0)
  }

  // Outside of lo to hi nothing changed.
  ghost predicate SameOutside(c: seq<Cell>, c': seq<Cell>, lo: nat, hi: nat) {
    |c| == |c'| && forall k :: 0 <= k < |c| && !(lo <= k < hi) ==> c'[k] == c[k]
  }

  lemma {:induction false} PutAppends(c: seq<Cell>, lo: nat, at: nat, before: seq<Cell>, cells: seq<Cell>)
    requires Holds(c, lo, at, before) && at + |cells| <= |c|
    ensures Holds(Put(c, at, cells), lo, at + |cells|, before + cells)
  {
    var c' := Put(c, at, cells);
    forall k | 0 <= k < at + |cells| - lo
      ensures c'[lo..at + |cells|][k] == (before + cells)[k]
    {
      if k < at - lo {
        assert c[lo..at][k] == c[lo + k];
      }
    }
  }

  lemma {:induction false} HoldsFrame(c: seq<Cell>, c': seq<Cell>, lo: nat, hi: nat, cells: seq<Cell>, from: nat,
        to: nat)
    requires Holds(c, lo, hi, cells) && SameOutside(c, c', from, to) && (hi <= from || to <= lo)
    ensures Holds(c', lo, hi, cells)
  {
    assert c'[lo..hi] == c[lo..hi];
  }

  lemma {:induction false} RowsSnoc(rows: seq<seq<Cell>>, row: seq<Cell>)
    ensures Rows(rows + [row]) == Rows(rows) + row
  {
    if rows == [] {
      assert Rows([row]) == row + Rows([]) by {
        assert [row][1..] == [];
      }
      assert [] + [row] == [row];
    } else {
      RowsSnoc(rows[1..], row);
      assert (rows + [row])[1..] == rows[1..] + [row];
    }
  }

  // ---------- strings ----------

  lemma {:induction false} StartsApart(u: seq<Name>, j: nat, k: nat)
    requires j < k < |u|
    ensures Start(u, j) + |u[j]| + 1 <= Start(u, k)
  {
    hide Section;
    Starts(u, j);
    var v := u[..k];
    assert v[..j + 1] == u[..j + 1];
    SectionPrefix(v, j + 1);
  }

  // Strings copied to their places, with NULs between them, make up the section.
  lemma {:induction false} StringsFill(c: seq<Cell>, at: nat, u: seq<Name>, n: nat)
    requires n <= |u| && at + |Section(u)| <= |c|
    requires forall k :: 0 <= k < n ==> StringThere(c, at, u, k)
    ensures at + Start(u, n) <= |c| && c[at..at + Start(u, n)] == Chars(Section(u[..n]))
    decreases n
  {
    hide Section, Chars;
    if n == 0 {
      assert Section(u[..0]) == [] by { SectionEmpty(u); }
    } else {
      StringsFill(c, at, u, n - 1);
      Starts(u, n - 1);
      SectionSnoc(u[..n - 1], u[n - 1]);
      assert u[..n - 1] + [u[n - 1]] == u[..n];
      assert StringThere(c, at, u, n - 1);
      var i, j := at + Start(u, n - 1), at + Start(u, n);
      ThreePieces(Section(u[..n - 1]), u[n - 1]);
      assert c[at..j] == c[at..i] + c[i..j - 1] + [c[j - 1]];
    }
  }

  lemma {:induction false} SectionEmpty(u: seq<Name>)
    ensures Section(u[..0]) == []
  {
  }

  lemma {:induction false} ThreePieces(a: seq<Byte>, s: seq<Byte>)
    ensures Chars(a + s + [0]) == Chars(a) + Chars(s) + [Char(0)]
  {
  }

  ghost predicate StringThere(c: seq<Cell>, at: nat, u: seq<Name>, k: nat)
    requires k < |u|
  {
    var i := at + Start(u, k);
    i + |u[k]| < |c| && c[i..i + |u[k]|] == Chars(u[k]) && c[i + |u[k]|] == Char(0)
  }

  // Strings that were copied stay, and the NULs behind all of them are zero from the start.
  ghost predicate Copied(c: seq<Cell>, at: nat, u: seq<Name>, todo: set<Name>) {
    && at + |Section(u)| <= |c|
    && (forall k :: 0 <= k < |u| && u[k] !in todo ==> StringThere(c, at, u, k))
    && (forall k :: 0 <= k < |u| ==> NulThere(c, at, u, k))
  }

  ghost predicate NulThere(c: seq<Cell>, at: nat, u: seq<Name>, k: nat)
    requires k < |u|
  {
    var i := at + Start(u, k) + |u[k]|;
    i < |c| && c[i] == Char(0)
  }

  lemma {:induction false} NoneCopied(c: seq<Cell>, at: nat, u: seq<Name>, todo: set<Name>)
    requires Zeros(c, at, at + |Section(u)|) && forall s :: s in u ==> s in todo
    ensures Copied(c, at, u, todo)
  {
    hide Section, Start;
    forall k | 0 <= k < |u|
      ensures NulThere(c, at, u, k)
    {
      Starts(u, k);
    }
  }

  // Copying one string disturbs no other.
  lemma {:induction false} OthersKept(c: seq<Cell>, at: nat, u: seq<Name>, k: nat, j: nat)
    requires k < |u| && j < |u| && j != k && at + |Section(u)| <= |c|
    ensures at + Start(u, k) + |u[k]| <= |c|
    ensures var c' := Put(c, at + Start(u, k), Chars(u[k]));
      (StringThere(c, at, u, j) ==> StringThere(c', at, u, j)) && (NulThere(c, at, u, j) ==> NulThere(c', at, u, j))
  {
    hide Section, Start, Put;
    Starts(u, k);
    Starts(u, j);
    StartsApart(u, if j < k then j else k, if j < k then k else j);
    var c' := Put(c, at + Start(u, k), Chars(u[k]));
    var i := at + Start(u, j);
    assert c'[i..i + |u[j]|] == c[i..i + |u[j]|];
  }

  lemma {:induction false} OneThere(c: seq<Cell>, at: nat, u: seq<Name>, k: nat)
    requires k < |u| && NulThere(c, at, u, k) && at + |Section(u)| <= |c|
    ensures at + Start(u, k) + |u[k]| <= at + |Section(u)|
    ensures var c' := Put(c, at + Start(u, k), Chars(u[k]));
      StringThere(c', at, u, k) && NulThere(c', at, u, k) && SameOutside(c, c', at, at + |Section(u)|)
  {
    hide Section, Start, Put;
    Starts(u, k);
  }

  lemma {:induction false} CopiedOne(c: seq<Cell>, at: nat, u: seq<Name>, todo: set<Name>, k: nat)
    requires Copied(c, at, u, todo) && k < |u| && forall i, j :: 0 <= i < j < |u| ==> u[i] != u[j]
    ensures at + Start(u, k) + |u[k]| <= at + |Section(u)| <= |c|
    ensures var c' := Put(c, at + Start(u, k), Chars(u[k]));
      Copied(c', at, u, todo - {u[k]}) && SameOutside(c, c', at, at + |Section(u)|)
  {
    hide Section, Start, StringThere, NulThere, Put, Chars, SameOutside;
    assert NulThere(c, at, u, k);
    OneThere(c, at, u, k);
    var c' := Put(c, at + Start(u, k), Chars(u[k]));
    forall j | 0 <= j < |u|
      ensures (u[j] !in todo - {u[k]} ==> StringThere(c', at, u, j)) && NulThere(c', at, u, j)
    {
      if j != k {
        OthersKept(c, at, u, k, j);
        assert NulThere(c, at, u, j);
        assert u[j] != u[k];
      }
    }
  }

  // hashmap_iter over the strings, in an order that is not known
  method FillStrings(bytes: array<Cell>, at: nat, offsets: map<Name, nat>, ghost size: nat, ghost u: seq<Name>)
    requires Placed(offsets, size, u) && forall i, j :: 0 <= i < j < |u| ==> u[i] != u[j]
    requires Zeros(bytes[..], at, at + |Section(u)|)
    modifies bytes
    ensures Holds(bytes[..], at, at + |Section(u)|, Chars(Section(u)))
    ensures SameOutside(old(bytes[..]), bytes[..], at, at + |Section(u)|)
  {
    hide Section, Start, Copied, Chars, SameOutside;
    var todo := offsets.Keys;
    NoneCopied(bytes[..], at, u, todo);
    SameAsItself(bytes[..], at, at + |Section(u)|);
    while todo != {}
      invariant todo <= offsets.Keys && Copied(bytes[..], at, u, todo)
      invariant SameOutside(old(bytes[..]), bytes[..], at, at + |Section(u)|)
    {
      var s :| s in todo;
      ghost var k := IndexOf(u, s);
      ghost var c := bytes[..];
      CopiedOne(c, at, u, todo, k);
      PutCells(bytes, at + offsets[s], Chars(s));
      SameTwice(old(bytes[..]), c, bytes[..], at, at + |Section(u)|);
      todo := todo - {s};
    }
    AllCopied(bytes[..], at, u);
  }

  lemma {:induction false} SameAsItself(c: seq<Cell>, lo: nat, hi: nat)
    ensures SameOutside(c, c, lo, hi)
  {
  }

  lemma {:induction false} SameTwice(c: seq<Cell>, c1: seq<Cell>, c2: seq<Cell>, lo: nat, hi: nat)
    requires SameOutside(c, c1, lo, hi) && SameOutside(c1, c2, lo, hi)
    ensures SameOutside(c, c2, lo, hi)
  {
  }

  lemma {:induction false} AllCopied(c: seq<Cell>, at: nat, u: seq<Name>)
    requires Copied(c, at, u, {})
    ensures Holds(c, at, at + |Section(u)|, Chars(Section(u)))
  {
    hide Section, Chars, StringThere, NulThere;
    StringsFill(c, at, u, |u|);
    assert u[..|u|] == u;
  }

  // ---------- datamaps and type descriptions ----------

  // Each offset is where the fields before it end.
  lemma {:induction false} OffsetIsEnd(needs: seq<Need>, from: nat, n: nat)
    requires n < |needs|
    ensures Offsets(needs, from)[n] == End(needs[..n], from)
    decreases |needs|
  {
    if n > 0 {
      OffsetIsEnd(needs[1..], from + SlotSize(needs[0]), n - 1);
      assert needs[..n][1..] == needs[1..][..n - 1];
    }
  }

  lemma {:induction false} SizesPrefix(ms: seq<Map>, n: nat, k: nat)
    requires k < n <= |ms| && forall i :: 0 <= i < |ms| ==> Refers(ms, ms[i].base)
    ensures Sizes(ms, n)[k] == Sizes(ms, k + 1)[k]
    decreases n
  {
    hide ClassSize, From, Refers;
    if k < n - 1 {
      SizesPrefix(ms, n - 1, k);
    }
  }

  lemma {:induction false} SavedPrefix(fields: seq<Desc>, n: nat)
    requires n <= |fields|
    ensures |Saved(fields[..n])| <= |Saved(fields)| && Saved(fields[..n]) == Saved(fields)[..|Saved(fields[..n])|]
    decreases |fields| - n
  {
    hide IsSaved, Saved;
    if n == |fields| {
      assert fields[..n] == fields;
    } else {
      SavedSnoc(fields, n);
      SavedPrefix(fields, n + 1);
    }
  }

  ghost predicate HoldsDms(c: seq<Cell>, dms: seq<Dm>) {
    Holds(c, DMS, DmAddr(|dms|), Rows(DmRows(dms)))
  }

  ghost predicate HoldsTds(c: seq<Cell>, off: nat, tds: seq<Td>) {
    Holds(c, off, off + TD_SIZE * |tds|, Rows(TdRows(tds)))
  }

  // Where the k-th type description is.
  function TdPlace(ms: seq<Map>, k: nat): nat {
    DmAddr(|ms|) + TD_SIZE * k
  }

  lemma {:induction false} TdPlaces(ms: seq<Map>, k: nat, l: nat)
    requires k < l
    ensures TdPlace(ms, k) + TD_SIZE == TdPlace(ms, k + 1) <= TdPlace(ms, l)
    ensures DmAddr(|ms|) <= TdPlace(ms, k) == DmAddr(|ms|) + TD_SIZE * k
  {
    hide TD_SIZE, DmAddr;
    Times(TD_SIZE, k + 1);
    MulMono(0, k, TD_SIZE);
    MulMono(k + 1, l, TD_SIZE);
  }

  // The type descriptions of n maps, and the first k of the next.
  function TdsUpTo(ms: seq<Map>, u: seq<Name>, n: nat, k: nat): (tds: seq<Td>)
    requires Ready(ms, u) && n <= |ms| && k <= (if n < |ms| then |Saved(ms[n].fields)| else 0)
    ensures |tds| == SavedBefore(ms, n) + k
  {
    TdsOf(ms, u, n) + if n < |ms| then MapTds(ms, u, n)[..k] else []
  }

  // What the buffer holds when n maps, and k fields of the next, were written.
  ghost predicate Written(c: seq<Cell>, ms: seq<Map>, u: seq<Name>, n: nat, k: nat)
    requires Ready(ms, u) && n <= |ms| && k <= (if n < |ms| then |Saved(ms[n].fields)| else 0)
  {
    && HoldsDms(c, DmsOf(ms, u)[..n])
    && Zeros(c, DmAddr(n), DmAddr(|ms|))
    && HoldsTds(c, DmAddr(|ms|), TdsUpTo(ms, u, n, k))
  }

  lemma {:induction false} MoreSaved(ms: seq<Map>, n: nat)
    requires n < |ms|
    ensures SavedBefore(ms, n) + |Saved(ms[n].fields)| <= SavedBefore(ms, |ms|)
    decreases |ms| - n
  {
    hide Saved;
    BeforeGrows(ms, n + 1, |ms|);
  }

  lemma {:induction false} BeforeGrows(ms: seq<Map>, n: nat, m: nat)
    requires n <= m <= |ms|
    ensures SavedBefore(ms, n) <= SavedBefore(ms, m)
    decreases m
  {
    if n < m {
      BeforeGrows(ms, n, m - 1);
    }
  }

  lemma {:induction false} NothingWritten(c: seq<Cell>, ms: seq<Map>, u: seq<Name>)
    requires Ready(ms, u) && Zeros(c, DMS, DmAddr(|ms|))
    ensures Written(c, ms, u, 0, 0)
  {
    hide Ready, DmsOf, MapTds, Saved;
    assert TdsUpTo(ms, u, 0, 0) == [] && DmsOf(ms, u)[..0] == [];
  }

  lemma {:induction false} TdsSnoc(tds: seq<Td>, td: Td)
    ensures Rows(TdRows(tds + [td])) == Rows(TdRows(tds)) + TdCells(td)
  {
    hide TdCells;
    RowsSnoc(TdRows(tds), TdCells(td));
    assert TdRows(tds + [td]) == TdRows(tds) + [TdCells(td)];
  }

  lemma {:induction false} DmsSnoc(dms: seq<Dm>, dm: Dm)
    ensures Rows(DmRows(dms + [dm])) == Rows(DmRows(dms)) + DmCells(dm)
  {
    hide DmCells;
    RowsSnoc(DmRows(dms), DmCells(dm));
    assert DmRows(dms + [dm]) == DmRows(dms) + [DmCells(dm)];
  }

  lemma {:induction false} TdAppended(c: seq<Cell>, off: nat, tds: seq<Td>, td: Td)
    requires HoldsTds(c, off, tds) && off + TD_SIZE * |tds| + TD_SIZE <= |c|
    ensures HoldsTds(Put(c, off + TD_SIZE * |tds|, TdCells(td)), off, tds + [td])
  {
    hide Rows, TdRows, TdCells, Put;
    TdsSnoc(tds, td);
    PutAppends(c, off, off + TD_SIZE * |tds|, Rows(TdRows(tds)), TdCells(td));
  }

  lemma {:induction false} DmAppended(c: seq<Cell>, dms: seq<Dm>, dm: Dm)
    requires HoldsDms(c, dms) && DmAddr(|dms|) + DM_SIZE <= |c|
    ensures HoldsDms(Put(c, DmAddr(|dms|), DmCells(dm)), dms + [dm])
  {
    hide Rows, DmRows, DmCells, Put;
    DmsSnoc(dms, dm);
    PutAppends(c, DMS, DmAddr(|dms|), Rows(DmRows(dms)), DmCells(dm));
  }

  // Another type description is written.
  lemma {:induction false} TdWritten(c: seq<Cell>, ms: seq<Map>, u: seq<Name>, n: nat, k: nat)
    requires Ready(ms, u) && n < |ms| && k < |Saved(ms[n].fields)| && Written(c, ms, u, n, k)
    requires TdPlace(ms, SavedBefore(ms, |ms|)) <= |c|
    ensures var at := TdPlace(ms, SavedBefore(ms, n) + k);
      && at + TD_SIZE <= TdPlace(ms, SavedBefore(ms, |ms|))
      && Written(Put(c, at, TdCells(MapTds(ms, u, n)[k])), ms, u, n, k + 1)
  {
    hide TdCells, Put, DmsOf, TdsUpTo, MapTds, Saved, Ready, HoldsTds, HoldsDms, Zeros, SavedBefore, TD_SIZE, DmAddr,
      TdPlace;
    MoreSaved(ms, n);
    TdPlaces(ms, SavedBefore(ms, n) + k, SavedBefore(ms, |ms|));
    NextTd(ms, u, n, k);
    var td := MapTds(ms, u, n)[k];
    TdAppended(c, DmAddr(|ms|), TdsUpTo(ms, u, n, k), td);
    RestKept(c, DmsOf(ms, u)[..n], |ms|, TdPlace(ms, SavedBefore(ms, n) + k), TdCells(td));
  }

  lemma {:induction false} NextTd(ms: seq<Map>, u: seq<Name>, n: nat, k: nat)
    requires Ready(ms, u) && n < |ms| && k < |Saved(ms[n].fields)|
    ensures TdsUpTo(ms, u, n, k) + [MapTds(ms, u, n)[k]] == TdsUpTo(ms, u, n, k + 1)
  {
    hide MapTds, Saved, Ready, TdsOf, SavedBefore;
    var tds := MapTds(ms, u, n);
    assert tds[..k] + [tds[k]] == tds[..k + 1];
  }

  // What is written behind the datamaps does not disturb them.
  lemma {:induction false} RestKept(c: seq<Cell>, dms: seq<Dm>, n: nat, at: nat, cells: seq<Cell>)
    requires HoldsDms(c, dms) && Zeros(c, DmAddr(|dms|), DmAddr(n)) && DmAddr(n) <= at && at + |cells| <= |c|
    ensures HoldsDms(Put(c, at, cells), dms) && Zeros(Put(c, at, cells), DmAddr(|dms|), DmAddr(n))
  {
    hide Rows, DmRows;
    PutWithin(c, at, cells, at, at + |cells|);
    HoldsFrame(c, Put(c, at, cells), DMS, DmAddr(|dms|), Rows(DmRows(dms)), at, at + |cells|);
  }

  // When all its fields are, the datamap is.
  lemma {:induction false} DmWritten(c: seq<Cell>, ms: seq<Map>, u: seq<Name>, n: nat)
    requires Ready(ms, u) && n < |ms| && Written(c, ms, u, n, |Saved(ms[n].fields)|)
    ensures DmAddr(n) + DM_SIZE <= DmAddr(|ms|) <= |c|
    ensures Written(Put(c, DmAddr(n), DmCells(DmsOf(ms, u)[n])), ms, u, n + 1, 0)
  {
    hide Rows, TdRows, DmCells, Put, DmsOf, TdsUpTo, MapTds, Saved, Ready, HoldsDms, SavedBefore, TD_SIZE, DM_SIZE, DMS,
      DmAddr;
    DmAddrs(n, |ms|);
    var dms := DmsOf(ms, u);
    var c' := Put(c, DmAddr(n), DmCells(dms[n]));
    DmAppended(c, dms[..n], dms[n]);
    assert dms[..n] + [dms[n]] == dms[..n + 1];
    var tds := TdsUpTo(ms, u, n, |Saved(ms[n].fields)|);
    AllFields(ms, u, n);
    PutWithin(c, DmAddr(n), DmCells(dms[n]), DmAddr(n), DmAddr(n + 1));
    HoldsFrame(c, c', DmAddr(|ms|), DmAddr(|ms|) + TD_SIZE * |tds|, Rows(TdRows(tds)), DmAddr(n), DmAddr(n + 1));
  }

  lemma {:induction false} AllFields(ms: seq<Map>, u: seq<Name>, n: nat)
    requires Ready(ms, u) && n < |ms|
    ensures TdsUpTo(ms, u, n, |Saved(ms[n].fields)|) == TdsUpTo(ms, u, n + 1, 0)
  {
    hide MapTds, Saved, Ready;
    var tds := MapTds(ms, u, n);
    assert tds[..|tds|] == tds;
    if n + 1 < |ms| {
      assert MapTds(ms, u, n + 1)[..0] == [];
    }
  }

  // ch_dms[k].ch_size
  function SizeAt(c: seq<Cell>, k: nat): nat
    requires DmAddr(k) + DM_SIZE <= |c|
  {
    match c[DmAddr(k) + 5 * PTR]
    case Word(x) => x
    case _ => 0
  }

  // The size read from the buffer is that of a class that was written, or zero.
  lemma {:induction false} SizeRead(c: seq<Cell>, ms: seq<Map>, u: seq<Name>, n: nat, k: nat, b: nat)
    requires Ready(ms, u) && n < |ms| && k <= |Saved(ms[n].fields)| && Written(c, ms, u, n, k) && b < |ms|
    ensures DmAddr(b) + DM_SIZE <= |c|
    ensures SizeAt(c, b) == if b < n then Sizes(ms, n)[b] else 0
  {
    hide Rows, TdRows, DmRows, DmCells, MapTds, TdsOf, Saved, Sizes, TD_SIZE, DM_SIZE, DMS, DmOf, HoldsTds;
    DmAddrs(b, |ms|);
    StructSizes();
    if b < n {
      DmAddrs(b, n);
      var rows := DmRows(DmsOf(ms, u)[..n]);
      RowIn(rows, DM_SIZE, b);
      SliceOf(c, DMS, DmAddr(n), Rows(rows), DM_SIZE * b, DM_SIZE * b + DM_SIZE);
      SliceAt(c, DmAddr(b), DmAddr(b) + DM_SIZE, DmCells(DmOf(ms, u, b)), 5 * PTR);
      SizeCell(ms, u, n, b);
    }
  }

  lemma {:induction false} SizeCell(ms: seq<Map>, u: seq<Name>, n: nat, b: nat)
    requires Ready(ms, u) && b < n <= |ms|
    ensures 5 * PTR < DM_SIZE && DmCells(DmOf(ms, u, b))[5 * PTR] == Word(Sizes(ms, n)[b])
  {
    hide Words, Sizes, Saved;
    WordIn(DmWords(DmOf(ms, u, b)), 5);
    SizesPrefix(ms, n, b);
  }

  // ---------- looking up references ----------

  // sorted_maps[i]->offset = i
  ghost predicate Numbered(place: map<Name, nat>, ms: seq<Map>) {
    && (forall i :: 0 <= i < |ms| ==> ms[i].name in place && place[ms[i].name] == i)
    && (forall i, j :: 0 <= i < j < |ms| ==> ms[i].name != ms[j].name)
  }

  lemma {:induction false} NumberIs(place: map<Name, nat>, ms: seq<Map>, name: Name)
    requires Numbered(place, ms) && name in Names(ms)
    ensures name in place && place[name] == IndexOf(Names(ms), name)
  {
    var k := IndexOf(Names(ms), name);
    assert ms[k].name == name;
  }

  lemma {:induction false} OffsetIs(offsets: map<Name, nat>, size: nat, u: seq<Name>, s: Name)
    requires Placed(offsets, size, u) && s in u
    ensures s in offsets && offsets[s] == RefStr(u, s)
  {
    assert u[IndexOf(u, s)] == s;
  }

  // The type description of a field, put together from the tables.
  method TypeDescription(d: Desc, chOffset: nat, offsets: map<Name, nat>, place: map<Name, nat>, ghost size: nat,
        ghost ms: seq<Map>, ghost u: seq<Name>)
      returns (td: Td)
    requires Placed(offsets, size, u) && Numbered(place, ms) && Refers(ms, d.embedded) && HasField(u, d)
    ensures td == TdOf(ms, u, d, chOffset)
  {
    hide Placed, Numbered, RefStr;
    OffsetIs(offsets, size, u, d.name);
    var external := NULL;
    if d.external.Some? {
      OffsetIs(offsets, size, u, d.external.value);
      external := offsets[d.external.value];
    }
    var embedded := NULL;
    if d.embedded.Some? {
      NumberIs(place, ms, d.embedded.value.name);
      embedded := place[d.embedded.value.name];
    }
    td := Td(TypeOf(d), d.flags % 0x1_0000, d.nElems % 0x1_0000, offsets[d.name], external,
             SizeT(d.gameOffset), chOffset, SizeT(d.totalSize),
             if d.ops.None? then NULL else SizeT(d.ops.value), embedded);
  }

  lemma {:induction false} NextField(ms: seq<Map>, u: seq<Name>, n: nat, j: nat, from: nat)
    requires Ready(ms, u) && n < |ms| && j < |ms[n].fields| && IsSaved(ms[n].fields[j])
    requires from == From(ms, ms[n].base, Sizes(ms, n))
    ensures var fields := ms[n].fields; var k := |Saved(fields[..j])|; var off := End(Needs(Saved(fields[..j])), from);
      && k < |Saved(fields)| && Saved(fields)[k] == fields[j] && |Saved(fields[..j + 1])| == k + 1
      && Refers(ms, fields[j].embedded) && HasField(u, fields[j])
      && MapTds(ms, u, n)[k] == TdOf(ms, u, fields[j], off)
      && End(Needs(Saved(fields[..j + 1])), from) == off + SlotSize(Needs([fields[j]])[0])
  {
    hide Saved, IsSaved, From, Sizes, TdOf, Offsets, End, Refers, HasField, SlotSize;
    var fields := ms[n].fields;
    var before, saved := Saved(fields[..j]), Saved(fields);
    var k := |before|;
    SavedSnoc(fields, j);
    SavedPrefix(fields, j + 1);
    SavedPrefix(fields, j);
    assert saved[k] == saved[..k + 1][k];
    OffsetIsEnd(Needs(saved), from, k);
    assert Needs(saved)[..k] == Needs(before);
    assert Needs(before + [fields[j]]) == Needs(before) + Needs([fields[j]]);
    OffsetsSnoc(Needs(before), Needs([fields[j]])[0], from);
    assert Needs(before) + [Needs([fields[j]])[0]] == Needs(before) + Needs([fields[j]]);
    assert HasField(u, saved[k]) && Refers(ms, saved[k].embedded);
  }

  // The type descriptions of one map.
  method FillFields(bytes: array<Cell>, ms: seq<Map>, n: nat, first: nat, from: nat, offsets: map<Name, nat>,
        place: map<Name, nat>, ghost size: nat, ghost u: seq<Name>)
      returns (count: nat, end: nat)
    requires Ready(ms, u) && n < |ms| && Written(bytes[..], ms, u, n, 0) && first == SavedBefore(ms, n)
    requires Placed(offsets, size, u) && Numbered(place, ms) && from == From(ms, ms[n].base, Sizes(ms, n))
    requires TdPlace(ms, SavedBefore(ms, |ms|)) <= bytes.Length
    modifies bytes
    ensures count == |Saved(ms[n].fields)| && end == End(Needs(Saved(ms[n].fields)), from)
    ensures Written(bytes[..], ms, u, n, count)
    ensures SameOutside(old(bytes[..]), bytes[..], DMS, TdPlace(ms, SavedBefore(ms, |ms|)))
  {
    hide Written, Placed, Numbered, Ready, Saved, From, Sizes, End, TdOf, MapTds, TdCells, Put, SavedBefore,
      SlotSize, IsSaved, SameOutside, TypeOf;
    var fields := ms[n].fields;
    ghost var hi := TdPlace(ms, SavedBefore(ms, |ms|));
    count, end := 0, from;
    assert Saved([]) == [] by { NoneSaved(); }
    assert fields[..0] == [];
    EndOfNone(from);
    SameAsItself(bytes[..], DMS, hi);
    for j := 0 to |fields|
      invariant count == |Saved(fields[..j])| <= |Saved(fields)| && end == End(Needs(Saved(fields[..j])), from)
      invariant Written(bytes[..], ms, u, n, count)
      invariant SameOutside(old(bytes[..]), bytes[..], DMS, hi)
    {
      var d := fields[j];
      if IsSaved(d) {
        NextField(ms, u, n, j, from);
        var td := TypeDescription(d, end, offsets, place, size, ms, u);
        ghost var c := bytes[..];
        TdWritten(c, ms, u, n, count);
        var at := TdPlace(ms, first + count);
        PutCells(bytes, at, TdCells(td));
        PutWithin(c, at, TdCells(td), DMS, hi);
        SameTwice(old(bytes[..]), c, bytes[..], DMS, hi);
        SlotOf(d);
        end := end + if TypeOf(d) == FieldReader.FIELD_CUSTOM then PTR
                     else AlignTo(SizeT(d.totalSize), Min(PTR, SizeT(d.totalSize)));
        count := count + 1;
      } else {
        SavedSnoc(fields, j);
      }
      SavedPrefix(fields, j + 1);
    }
    assert fields[..|fields|] == fields;
  }

  lemma {:induction false} NoneSaved()
    ensures Saved([]) == []
  {
  }

  lemma {:induction false} EndOfNone(from: nat)
    ensures End(Needs([]), from) == from
  {
  }

  lemma {:induction false} SlotOf(d: Desc)
    ensures SlotSize(Needs([d])[0])
      == if TypeOf(d) == FieldReader.FIELD_CUSTOM then PTR
         else AlignTo(SizeT(d.totalSize), Min(PTR, SizeT(d.totalSize)))
  {
  }

  lemma {:induction false} PutWithin(c: seq<Cell>, at: nat, cells: seq<Cell>, lo: nat, hi: nat)
    requires at + |cells| <= |c| && lo <= at && at + |cells| <= hi
    ensures SameOutside(c, Put(c, at, cells), lo, hi)
  {
  }

  lemma {:induction false} SizeOf(ms: seq<Map>, n: nat)
    requires n < |ms| && forall i :: 0 <= i < |ms| ==> Refers(ms, ms[i].base)
    ensures Sizes(ms, n + 1)[n] == AlignTo(End(Needs(Saved(ms[n].fields)), From(ms, ms[n].base, Sizes(ms, n))), PTR)
  {
    hide AlignTo, End, Needs, Saved, From, Refers;
  }

  lemma {:induction false} ReadyFor(ms: seq<Map>, u: seq<Name>, n: nat)
    requires Ready(ms, u) && n < |ms|
    ensures ms[n].name in u && ms[n].mod in u && Refers(ms, ms[n].base)
    ensures forall i :: 0 <= i < |ms| ==> Refers(ms, ms[i].base)
  {
    assert Has(u, ms[n]);
  }

  // Where the own fields of a map start, as read from the buffer.
  method OwnStart(bytes: array<Cell>, ms: seq<Map>, n: nat, place: map<Name, nat>, ghost u: seq<Name>)
      returns (base: nat, from: nat)
    requires Ready(ms, u) && n < |ms| && Written(bytes[..], ms, u, n, 0) && Numbered(place, ms)
    ensures base == RefMap(ms, ms[n].base) && from == From(ms, ms[n].base, Sizes(ms, n))
  {
    hide Written, Numbered, Ready, Saved, Sizes, SizeAt;
    ReadyFor(ms, u, n);
    base, from := NULL, 0;
    if ms[n].base.Some? {
      NumberIs(place, ms, ms[n].base.value.name);
      base := place[ms[n].base.value.name];
      SizeRead(bytes[..], ms, u, n, 0, base);
      from := SizeAt(bytes[..], base);
    }
  }

  // All maps with their type descriptions.
  method FillMaps(bytes: array<Cell>, ms: seq<Map>, offsets: map<Name, nat>, place: map<Name, nat>, ghost size: nat,
        ghost u: seq<Name>)
    requires Ready(ms, u) && Placed(offsets, size, u) && Numbered(place, ms)
    requires TdPlace(ms, SavedBefore(ms, |ms|)) <= bytes.Length
    requires Zeros(bytes[..], DMS, DmAddr(|ms|))
    modifies bytes
    ensures HoldsDms(bytes[..], DmsOf(ms, u)) && HoldsTds(bytes[..], DmAddr(|ms|), TdsOf(ms, u, |ms|))
    ensures SameOutside(old(bytes[..]), bytes[..], DMS, TdPlace(ms, SavedBefore(ms, |ms|)))
  {
    hide Written, Placed, Numbered, Ready, Saved, From, Sizes, RefMap, RefStr, DmCells, Put, SameOutside, Zeros,
      Needs, End, AlignTo, DmsOf, HoldsDms, HoldsTds;
    ghost var hi := TdPlace(ms, SavedBefore(ms, |ms|));
    var first := 0;
    NothingWritten(bytes[..], ms, u);
    SameAsItself(bytes[..], DMS, hi);
    for n := 0 to |ms|
      invariant first == SavedBefore(ms, n) && Written(bytes[..], ms, u, n, 0)
      invariant SameOutside(old(bytes[..]), bytes[..], DMS, hi)
    {
      ghost var c0 := bytes[..];
      var base, from := OwnStart(bytes, ms, n, place, u);
      var count, end := FillFields(bytes, ms, n, first, from, offsets, place, size, u);
      ghost var c := bytes[..];
      SameTwice(old(bytes[..]), c0, c, DMS, hi);
      ReadyFor(ms, u, n);
      OffsetIs(offsets, size, u, ms[n].name);
      OffsetIs(offsets, size, u, ms[n].mod);
      SizeOf(ms, n);
      var fields := if count == 0 then NULL else first;
      var d := Dm(offsets[ms[n].name], base, fields, count, offsets[ms[n].mod], AlignTo(end, PTR));
      assert d == DmOf(ms, u, n);
      DmWritten(c, ms, u, n);
      PutCells(bytes, DmAddr(n), DmCells(d));
      PutWithin(c, DmAddr(n), DmCells(d), DMS, hi);
      SameTwice(old(bytes[..]), c, bytes[..], DMS, hi);
      first := first + count;
    }
    AllWritten(bytes[..], ms, u);
  }

  lemma {:induction false} AllWritten(c: seq<Cell>, ms: seq<Map>, u: seq<Name>)
    requires Ready(ms, u) && Written(c, ms, u, |ms|, 0)
    ensures HoldsDms(c, DmsOf(ms, u)) && HoldsTds(c, DmAddr(|ms|), TdsOf(ms, u, |ms|))
  {
    hide Ready, HoldsDms, HoldsTds, Zeros, TdsOf, DmsOf;
    assert DmsOf(ms, u)[..|ms|] == DmsOf(ms, u);
    assert TdsOf(ms, u, |ms|) + [] == TdsOf(ms, u, |ms|);
  }

  // ---------- linked names ----------

  ghost predicate HoldsLnks(c: seq<Cell>, off: nat, lnks: seq<Lnk>) {
    Holds(c, off, off + LNK_SIZE * |lnks|, Rows(LnkRows(lnks)))
  }

  lemma {:induction false} LnkAppended(c: seq<Cell>, off: nat, lnks: seq<Lnk>, l: Lnk)
    requires HoldsLnks(c, off, lnks) && off + LNK_SIZE * |lnks| + LNK_SIZE <= |c|
    ensures HoldsLnks(Put(c, off + LNK_SIZE * |lnks|, LnkCells(l)), off, lnks + [l])
  {
    hide Rows, LnkCells, Put;
    RowsSnoc(LnkRows(lnks), LnkCells(l));
    assert LnkRows(lnks + [l]) == LnkRows(lnks) + [LnkCells(l)];
    PutAppends(c, off, off + LNK_SIZE * |lnks|, Rows(LnkRows(lnks)), LnkCells(l));
  }

  method FillLinks(bytes: array<Cell>, off: nat, ms: seq<Map>, links: seq<Link>, offsets: map<Name, nat>,
        place: map<Name, nat>, ghost size: nat, ghost u: seq<Name>)
    requires Placed(offsets, size, u) && Numbered(place, ms)
    requires forall k :: 0 <= k < |links| ==> links[k].key in u && links[k].target in Names(ms)
    requires off + LNK_SIZE * |links| <= bytes.Length
    modifies bytes
    ensures HoldsLnks(bytes[..], off, LnksOf(ms, u, links))
    ensures SameOutside(old(bytes[..]), bytes[..], off, off + LNK_SIZE * |links|)
  {
    hide Placed, Numbered, RefStr, LnkCells, Put, SameOutside, HoldsLnks;
    ghost var hi := off + LNK_SIZE * |links|;
    ghost var lnks := LnksOf(ms, u, links);
    SameAsItself(bytes[..], off, hi);
    NoLinks(bytes[..], off);
    assert lnks[..0] == [];
    for k := 0 to |links|
      invariant HoldsLnks(bytes[..], off, lnks[..k])
      invariant SameOutside(old(bytes[..]), bytes[..], off, hi)
    {
      OffsetIs(offsets, size, u, links[k].key);
      NumberIs(place, ms, links[k].target);
      var l := Lnk(offsets[links[k].key], place[links[k].target]);
      ghost var c := bytes[..];
      LnkAppended(c, off, lnks[..k], l);
      assert lnks[..k] + [l] == lnks[..k + 1];
      PutCells(bytes, off + LNK_SIZE * k, LnkCells(l));
      PutWithin(c, off + LNK_SIZE * k, LnkCells(l), off, hi);
      SameTwice(old(bytes[..]), c, bytes[..], off, hi);
    }
    assert lnks[..|lnks|] == lnks;
  }

  lemma {:induction false} NoLinks(c: seq<Cell>, off: nat)
    requires off <= |c|
    ensures HoldsLnks(c, off, [])
  {
    assert c[off..off + 0] == [];
  }

  // ---------- collecting the strings ----------

  lemma {:induction false} PresentOne(s: Name)
    ensures Present([Some(s)]) == [s]
  {
    assert Present([Some(s)][..0]) == [];
  }

  lemma {:induction false} PresentTwo(a: Name, b: Option<Name>)
    ensures Present([Some(a), b]) == [a] + if b.Some? then [b.value] else []
  {
    PresentOne(a);
    assert [Some(a), b][..1] == [Some(a)];
  }

  lemma {:induction false} FieldStringsSnoc(fields: seq<Desc>, j: nat)
    requires j < |fields|
    ensures FieldStrings(Saved(fields[..j + 1])) == FieldStrings(Saved(fields[..j])) +
      (if IsSaved(fields[j]) then Present([Some(fields[j].name), fields[j].external]) else [])
  {
    hide IsSaved, Saved;
    SavedSnoc(fields, j);
    PresentTwo(fields[j].name, fields[j].external);
    var before := Saved(fields[..j]);
    assert (before + [fields[j]])[..|before|] == before;
    assert FieldStrings(before) + [] == FieldStrings(before);
  }

  method CollectStrings(ms: seq<Map>, links: seq<Link>) returns (strs: Interner, total: nat, place: map<Name, nat>)
    requires forall i, j :: 0 <= i < j < |ms| ==> ms[i].name != ms[j].name
    ensures fresh(strs) && strs.Valid() && strs.seen == StringsOf(ms) + Keys(links)
    ensures total == SavedBefore(ms, |ms|) && Numbered(place, ms)
  {
    hide Placed, Unique, Saved, IsSaved, Present, FieldStrings;
    strs := new Interner();
    total, place := 0, map[];
    assert ms[..0] == [];
    for n := 0 to |ms|
      invariant fresh(strs) && strs.Valid() && strs.seen == StringsOf(ms[..n])
      invariant total == SavedBefore(ms, n)
      invariant forall i :: 0 <= i < n ==> ms[i].name in place && place[ms[i].name] == i
    {
      var count := CollectMap(strs, ms[n]);
      total := total + count;
      place := place[ms[n].name := n];
      assert ms[..n + 1][..n] == ms[..n];
    }
    assert ms[..|ms|] == ms;
    assert StringsOf(ms) + Keys(links[..0]) == StringsOf(ms);
    for k := 0 to |links|
      invariant fresh(strs) && strs.Valid() && strs.seen == StringsOf(ms) + Keys(links[..k])
    {
      PresentOne(links[k].key);
      strs.AddStrings([Some(links[k].key)]);
      assert Keys(links[..k + 1]) == Keys(links[..k]) + [links[k].key];
    }
    assert links[..|links|] == links;
  }

  method CollectMap(strs: Interner, m: Map) returns (count: nat)
    requires strs.Valid()
    modifies strs
    ensures strs.Valid() && strs.seen == old(strs.seen) + MapStrings(m) && count == |Saved(m.fields)|
  {
    hide Placed, Unique, Saved, IsSaved, Present, FieldStrings;
    PresentTwo(m.name, Some(m.mod));
    strs.AddStrings([Some(m.name), Some(m.mod)]);
    ghost var own := old(strs.seen) + [m.name, m.mod];
    count := 0;
    NoFieldStrings();
    assert m.fields[..0] == [];
    assert own + [] == own;
    for j := 0 to |m.fields|
      invariant strs.Valid() && strs.seen == own + FieldStrings(Saved(m.fields[..j])) && count == |Saved(m.fields[..j])|
    {
      SavedSnoc(m.fields, j);
      FieldStringsSnoc(m.fields, j);
      if IsSaved(m.fields[j]) {
        count := count + 1;
        strs.AddStrings([Some(m.fields[j].name), m.fields[j].external]);
      }
    }
    assert m.fields[..|m.fields|] == m.fields;
  }

  lemma {:induction false} NoFieldStrings()
    ensures Saved([]) == [] && FieldStrings([]) == []
  {
  }

  // ---------- the whole ----------

  // A buffer that holds every section is the image.
  lemma {:induction false} Assembled(c: seq<Cell>, t: Tables)
    requires |t.magic| == 8 && |c| == Length(t) && Holds(c, 0, DMS, Front(t))
    requires HoldsDms(c, t.dms) && HoldsTds(c, TdsOff(t), t.tds)
    requires Holds(c, StrsOff(t), LnksOff(t), Chars(t.strs)) && HoldsLnks(c, LnksOff(t), t.lnks)
    ensures c == Encode(t)
  {
    hide Rows, Front, Chars, DmRows, TdRows, LnkRows;
    var i, j, k, l := DMS, TdsOff(t), StrsOff(t), LnksOff(t);
    assert c[0..l] == c[0..k] + c[k..l];
    assert c[0..k] == c[0..j] + c[j..k];
    assert c[0..j] == c[0..i] + c[i..j];
    assert c == c[0..l] + c[l..|c|];
  }

  lemma {:induction false} CompleteNames(ms: seq<Map>, links: seq<Link>)
    requires Complete(ms, links)
    ensures forall i, j :: 0 <= i < j < |ms| ==> ms[i].name != ms[j].name
    ensures forall k :: 0 <= k < |links| ==> links[k].target in Names(ms)
  {
  }

  lemma {:induction false} UniqueStrings(strs: seq<Name>)
    ensures var u := Unique(strs); forall i, j :: 0 <= i < j < |u| ==> u[i] != u[j]
  {
  }

  // The tables that the buffer is to hold.
  ghost predicate Describes(t: Tables, ms: seq<Map>, links: seq<Link>, u: seq<Name>)
    requires Ready(ms, u) && forall k :: 0 <= k < |links| ==> links[k].key in u && links[k].target in Names(ms)
  {
    && t.dms == DmsOf(ms, u) && t.tds == TdsOf(ms, u, |ms|) && t.strs == Section(u) && t.lnks == LnksOf(ms, u, links)
    && |t.magic| == 8
  }

  // All but the header.
  method FillSections(bytes: array<Cell>, ms: seq<Map>, links: seq<Link>, strsOff: nat, lnksOff: nat,
        offsets: map<Name, nat>, place: map<Name, nat>, ghost size: nat, ghost u: seq<Name>, ghost t: Tables)
    requires Ready(ms, u) && Placed(offsets, size, u) && Numbered(place, ms)
    requires forall i, j :: 0 <= i < j < |u| ==> u[i] != u[j]
    requires forall k :: 0 <= k < |links| ==> links[k].key in u && links[k].target in Names(ms)
    requires Describes(t, ms, links, u) && strsOff == StrsOff(t) && lnksOff == LnksOff(t)
    requires Zeros(bytes[..], 0, Length(t)) && bytes.Length == Length(t)
    modifies bytes
    ensures HoldsDms(bytes[..], t.dms) && HoldsTds(bytes[..], TdsOff(t), t.tds)
    ensures Holds(bytes[..], StrsOff(t), LnksOff(t), Chars(t.strs)) && HoldsLnks(bytes[..], LnksOff(t), t.lnks)
  {
    hide Placed, Numbered, Ready, Section, Chars, HoldsDms, HoldsTds, HoldsLnks, SameOutside, Holds, SavedBefore;
    ghost var c0 := bytes[..];
    FillStrings(bytes, strsOff, offsets, size, u);
    ghost var c1 := bytes[..];
    ZerosFrame(c0, c1, DMS, TdsOff(t), strsOff, lnksOff);
    FillMaps(bytes, ms, offsets, place, size, u);
    ghost var c2 := bytes[..];
    HoldsFrame(c1, c2, strsOff, lnksOff, Chars(t.strs), DMS, strsOff);
    FillLinks(bytes, lnksOff, ms, links, offsets, place, size, u);
    HoldsFrame(c2, bytes[..], strsOff, lnksOff, Chars(t.strs), lnksOff, Length(t));
    MapsFrame(c2, bytes[..], t, lnksOff, Length(t));
  }

  lemma {:induction false} TablesDescribe(ms: seq<Map>, links: seq<Link>)
    requires Complete(ms, links)
    ensures var u, t := Interned(ms, links), TablesOf(ms, links);
      && Ready(ms, u) && (forall k :: 0 <= k < |links| ==> links[k].key in u && links[k].target in Names(ms))
      && Describes(t, ms, links, u)
      && t.head == Head(VERSION, |ms|, |links|, DMS, TdsOff(t), StrsOff(t), LnksOff(t))
      && t.magic == MAGIC && t.lookup == 0
  {
    hide Ready, Section, Interned, LnksOf, DmsOf, TdsOf;
    InternedReady(ms, links);
  }

  method Pack(ms: seq<Map>, links: seq<Link>) returns (bytes: array<Cell>)
    requires Complete(ms, links)
    ensures fresh(bytes) && bytes[..] == Encode(TablesOf(ms, links))
  {
    hide Complete, StringsOf, Unique, Placed, Numbered, Ready, Section, Front, Chars, Put, SavedBefore, Holds,
      HoldsDms, HoldsTds, HoldsLnks, Encode, TablesOf, DMS, DM_SIZE, TD_SIZE, LNK_SIZE, HeadWords;
    CompleteNames(ms, links);
    var strs, total, place := CollectStrings(ms, links);
    ghost var u := Interned(ms, links);
    UniqueStrings(StringsOf(ms) + Keys(links));
    SizeIs(strs.offsets, strs.size, u);
    ghost var t := TablesOf(ms, links);
    TablesDescribe(ms, links);

    var tdsOff := DMS + DM_SIZE * |ms|;
    var strsOff := tdsOff + TD_SIZE * total;
    var lnksOff := strsOff + strs.size;
    bytes := new Cell[lnksOff + LNK_SIZE * |links|](_ => Char(0));
    FillSections(bytes, ms, links, strsOff, lnksOff, strs.offsets, place, strs.size, u, t);
    HeadPut(bytes[..], t);
    FrontIs(t);
    var head := Head(VERSION, |ms|, |links|, DMS, tdsOff, strsOff, lnksOff);
    PutCells(bytes, 0, Chars(MAGIC) + Words(HeadWords(head)) + Words([0]));
    Assembled(bytes[..], t);
  }

  lemma {:induction false} SizeIs(offsets: map<Name, nat>, size: nat, u: seq<Name>)
    requires Placed(offsets, size, u)
    ensures size == |Section(u)|
  {
  }

  lemma {:induction false} FrontIs(t: Tables)
    requires |t.magic| == 8
    ensures Front(t) == Chars(t.magic) + Words(HeadWords(t.head)) + Words([t.lookup]) && |Front(t)| <= Length(t)
  {
    hide Chars, Words, HeadWords, Length, TdsOff, StrsOff, LnksOff;
    FrontWord(t, 0);
    InOrderOf(t);
  }

  lemma {:induction false} ZerosFrame(c: seq<Cell>, c': seq<Cell>, lo: nat, hi: nat, from: nat, to: nat)
    requires Zeros(c, lo, hi) && SameOutside(c, c', from, to) && (hi <= from || to <= lo)
    ensures Zeros(c', lo, hi)
  {
  }

  lemma {:induction false} MapsFrame(c: seq<Cell>, c': seq<Cell>, t: Tables, from: nat, to: nat)
    requires HoldsDms(c, t.dms) && HoldsTds(c, TdsOff(t), t.tds) && SameOutside(c, c', from, to)
    requires StrsOff(t) <= from || to <= DMS
    ensures HoldsDms(c', t.dms) && HoldsTds(c', TdsOff(t), t.tds)
  {
    hide Rows, DmRows, TdRows;
    HoldsFrame(c, c', DMS, TdsOff(t), Rows(DmRows(t.dms)), from, to);
    HoldsFrame(c, c', TdsOff(t), StrsOff(t), Rows(TdRows(t.tds)), from, to);
  }

  // The header is written last, in front of all else.
  lemma {:induction false} HeadPut(c: seq<Cell>, t: Tables)
    requires |t.magic| == 8 && |c| == Length(t) && HoldsDms(c, t.dms) && HoldsTds(c, TdsOff(t), t.tds)
    requires Holds(c, StrsOff(t), LnksOff(t), Chars(t.strs)) && HoldsLnks(c, LnksOff(t), t.lnks)
    ensures var c' := Put(c, 0, Front(t));
      && |c'| == Length(t) && Holds(c', 0, DMS, Front(t)) && HoldsDms(c', t.dms) && HoldsTds(c', TdsOff(t), t.tds)
      && Holds(c', StrsOff(t), LnksOff(t), Chars(t.strs)) && HoldsLnks(c', LnksOff(t), t.lnks)
  {
    hide Rows, LnkRows, Front, Chars, HoldsDms, HoldsTds, Put;
    var c' := Put(c, 0, Front(t));
    PutWithin(c, 0, Front(t), 0, DMS);
    MapsFrame(c, c', t, 0, DMS);
    HoldsFrame(c, c', StrsOff(t), LnksOff(t), Chars(t.strs), 0, DMS);
    HoldsFrame(c, c', LnksOff(t), Length(t), Rows(LnkRows(t.lnks)), 0, DMS);
    assert c'[0..DMS] == Front(t);
  }
}
