// ch_br_read_symbol_table of chicago_parse_lib/src/ch_field_reader.c: where the symbols of a
// save file start.
module SymbolTable {
  import opened Wrappers
  import opened Bytes
  import opened ByteReader
  import opened Strings

  // How many strings end in the bytes.
  function Ends(s: seq<Byte>): nat {
    if ZeroAt(s) == |s| then 0 else 1 + Ends(s[ZeroAt(s) + 1..])
  }

  // Where the i-th string of the bytes starts.
  function NthStart(s: seq<Byte>, i: nat): (at: nat)
    requires i <= Ends(s)
    ensures at <= |s|
    decreases i
  {
    if i == 0 then 0 else ZeroAt(s) + 1 + NthStart(s[ZeroAt(s) + 1..], i - 1)
  }

  lemma {:induction false} DropTwice(s: seq<Byte>, a: nat, b: nat)
    requires a + b <= |s|
    ensures s[a..][b..] == s[a + b..]
  {
  }

  lemma {:induction false} FirstString(s: seq<Byte>, i: nat)
    requires 0 < i <= Ends(s)
    ensures ZeroAt(s) < |s| && i - 1 <= Ends(s[ZeroAt(s) + 1..]) && Ends(s) == Ends(s[ZeroAt(s) + 1..]) + 1
    ensures NthStart(s, i) == ZeroAt(s) + 1 + NthStart(s[ZeroAt(s) + 1..], i - 1)
  {
    hide ZeroAt;
  }

  // The next string starts behind the NUL of this one.
  lemma {:induction false} NthNext(s: seq<Byte>, i: nat)
    requires i < Ends(s)
    ensures var rest := s[NthStart(s, i)..];
      ZeroAt(rest) < |rest| && NthStart(s, i + 1) == NthStart(s, i) + ZeroAt(rest) + 1 && Ends(rest) == Ends(s) - i
    decreases i
  {
    hide ZeroAt, Ends, NthStart;
    if i == 0 {
      NextAtStart(s);
    } else {
      FirstString(s, i);
      FirstString(s, i + 1);
      var t := s[ZeroAt(s) + 1..];
      NthNext(t, i - 1);
      DropTwice(s, ZeroAt(s) + 1, NthStart(t, i - 1));
    }
  }

  lemma {:induction false} NextAtStart(s: seq<Byte>)
    requires 0 < Ends(s)
    ensures NthStart(s, 0) == 0 && s[0..] == s && NthStart(s, 1) == ZeroAt(s) + 1 && ZeroAt(s) < |s|
  {
    FirstString(s, 1);
    NthFirst(s[ZeroAt(s) + 1..]);
  }

  lemma {:induction false} NthLast(s: seq<Byte>)
    ensures var rest := s[NthStart(s, Ends(s))..]; ZeroAt(rest) == |rest|
    decreases |s|
  {
    hide ZeroAt;
    if ZeroAt(s) == |s| {
      assert s[0..] == s;
    } else {
      var t := s[ZeroAt(s) + 1..];
      NthLast(t);
      DropTwice(s, ZeroAt(s) + 1, NthStart(t, Ends(t)));
    }
  }

  // The entry of an empty string is not set; whatever was in memory stays there.
  function Entry(s: seq<Byte>, i: nat): Option<nat>
    requires i < Ends(s)
  {
    var at := NthStart(s, i);
    if at < |s| && s[at] != 0 then Some(at) else None
  }

  // The first n strings of the bytes. Reading a symbol by its number gives one of them.
  function Symbols(s: seq<Byte>, n: nat): (symbols: seq<Name>)
    requires n <= Ends(s)
    ensures |symbols| == n && forall i :: 0 <= i < n ==> symbols[i] == Cut(s[NthStart(s, i)..])
  {
    seq(n, i requires 0 <= i < n => Cut(s[NthStart(s, i)..]))
  }

  // The offsets lead to the symbols, except that there is none for an empty symbol.
  ghost predicate LeadsTo(s: seq<Byte>, offs: seq<Option<nat>>, symbols: seq<Name>) {
    && |offs| == |symbols|
    && forall i :: 0 <= i < |offs| ==>
      if symbols[i] == [] then offs[i] == None
      else offs[i].Some? && offs[i].value < |s| && Cut(s[offs[i].value..]) == symbols[i]
  }

  lemma {:induction false} TableLeadsToSymbols(s: seq<Byte>, n: nat, offs: seq<Option<nat>>)
    requires n <= Ends(s) && |offs| == n && forall i :: 0 <= i < n ==> offs[i] == Entry(s, i)
    ensures LeadsTo(s, offs, Symbols(s, n))
  {
    hide Ends, NthStart;
    forall i | 0 <= i < n
      ensures Symbols(s, n)[i] == [] <==> offs[i] == None
    {
      EmptyOrNot(s, i);
    }
  }

  lemma {:induction false} EmptyOrNot(s: seq<Byte>, i: nat)
    requires i < Ends(s)
    ensures Cut(s[NthStart(s, i)..]) == [] <==> Entry(s, i) == None
  {
    hide Ends, NthStart;
    var rest := s[NthStart(s, i)..];
    NthNext(s, i);
    assert rest[0] == s[NthStart(s, i)];
  }

  // The reader is at the i-th string of the bytes of a window.
  ghost predicate AtString(v: Window, w: Window, s: seq<Byte>, i: nat) {
    i <= Ends(s) && v == Window(w.cur + NthStart(s, i), w.end)
  }

  // One turn of the loop: the reader overflows if the string does not end.
  method ReadEntry(br: ByteReader, start: nat, ghost w: Window, ghost s: seq<Byte>, ghost i: nat)
      returns (entry: Option<nat>)
    requires br.Valid() && AtString(br.View(), w, s, i) && start == w.cur
    requires !Overflowed(w) && w.end <= |br.data| && s == Rest(br.data, w)
    modifies br
    ensures br.Valid() && (if i < Ends(s) then AtString(br.View(), w, s, i + 1) else Overflowed(br.View()))
    ensures i < Ends(s) ==> entry == Entry(s, i) && !Overflowed(br.View())
  {
    hide ZeroAt, Ends, NthStart, Entry, Rest;
    StringHere(br.data, w, s, i);
    entry := None;
    if br.cur < |br.data| && br.data[br.cur] != 0 {
      entry := Some(br.cur - start);
    }
    var length := br.StrLen();
    var _ := br.TrySkip(length + 1);
  }

  // The table is read exactly if all of its strings end within the window.
  method ReadSymbolTable(br: ByteReader, n: int) returns (ok: bool, offs: seq<Option<nat>>)
    requires br.Valid()
    modifies br
    ensures br.Valid()
    ensures ok <==> 0 <= n <= Ends(Rest(br.data, old(br.View()))) && !Overflowed(old(br.View()))
    ensures ok ==> |offs| == n && AtString(br.View(), old(br.View()), Rest(br.data, old(br.View())), n)
    ensures ok ==> forall i :: 0 <= i < n ==> offs[i] == Entry(Rest(br.data, old(br.View())), i)
    ensures ok ==> LeadsTo(Rest(br.data, old(br.View())), offs, Symbols(Rest(br.data, old(br.View())), n))
  {
    hide ZeroAt, Ends, NthStart, Entry, AtString, Rest, LeadsTo;
    offs := [];
    if n < 0 {
      return false, offs;
    }
    ghost var w, s := br.View(), Rest(br.data, br.View());
    var start := br.cur;
    var i := 0;
    AtFirst(w, s);
    while i < n && !Overflowed(br.View())
      invariant br.Valid() && 0 <= i <= n && |offs| == i
      invariant Overflowed(w) ==> i == 0 && br.View() == w
      invariant !Overflowed(w) && !Overflowed(br.View()) ==> AtString(br.View(), w, s, i)
      invariant !Overflowed(w) && !Overflowed(br.View()) ==> i <= Ends(s)
      invariant !Overflowed(w) && !Overflowed(br.View()) ==> forall j :: 0 <= j < i ==> offs[j] == Entry(s, j)
      invariant !Overflowed(w) && Overflowed(br.View()) ==> n > Ends(s)
      decreases n - i
    {
      var entry := ReadEntry(br, start, w, s, i);
      offs := offs + [entry];
      i := i + 1;
    }
    ok := !Overflowed(br.View());
    if ok {
      TableLeadsToSymbols(s, n, offs);
    }
  }

  lemma {:induction false} AtFirst(w: Window, s: seq<Byte>)
    ensures AtString(w, w, s, 0)
  {
  }

  lemma {:induction false} NthFirst(s: seq<Byte>)
    ensures NthStart(s, 0) == 0
  {
  }

  // What the reader sees at the start of the i-th string.
  lemma {:induction false} StringHere(data: seq<Byte>, w: Window, s: seq<Byte>, i: nat)
    requires !Overflowed(w) && w.end <= |data| && s == Rest(data, w) && i <= Ends(s)
    ensures var v := Window(w.cur + NthStart(s, i), w.end);
      && !Overflowed(v) && Rest(data, v) == s[NthStart(s, i)..]
      && (CouldSkip(v, ZeroAt(Rest(data, v)) + 1) <==> i < Ends(s))
    ensures i < Ends(s) ==> var v := Window(w.cur + NthStart(s, i), w.end);
      Skip(v, ZeroAt(Rest(data, v)) + 1) == Window(w.cur + NthStart(s, i + 1), w.end)
    ensures i < Ends(s) ==> var at := w.cur + NthStart(s, i);
      at < |data| && Entry(s, i) == if data[at] != 0 then Some(at - w.cur) else None
  {
    hide ZeroAt, Ends, NthStart, Rest;
    RestFrom(data, w, NthStart(s, i));
    if i < Ends(s) {
      NthNext(s, i);
    } else {
      NthLast(s);
    }
  }

  lemma {:induction false} RestFrom(data: seq<Byte>, w: Window, n: nat)
    requires !Overflowed(w) && w.end <= |data| && n <= |Rest(data, w)|
    ensures |Rest(data, w)| == w.end - w.cur && Rest(data, Window(w.cur + n, w.end)) == Rest(data, w)[n..]
    ensures n < |Rest(data, w)| ==> Rest(data, w)[n] == data[w.cur + n]
  {
  }

  // A file that begins with the symbols, one behind the other, gives each one's place.
  lemma {:induction false} TableOfSymbols(names: seq<Name>, rest: seq<Byte>, i: nat)
    requires i <= |names| && forall k :: 0 <= k < |names| ==> 0 !in names[k]
    ensures i <= Ends(Section(names) + rest) && NthStart(Section(names) + rest, i) == Start(names, i)
    ensures i < |names| ==> i < Ends(Section(names) + rest)
    ensures i < |names| ==> Entry(Section(names) + rest, i) == if names[i] == [] then None else Some(Start(names, i))
    decreases i
  {
    hide Section, ZeroAt, Ends, NthStart;
    var s := Section(names) + rest;
    if i == 0 {
      NthFirst(s);
      assert names[..0] == [];
      SectionNone();
    } else {
      TableOfSymbols(names, rest, i - 1);
      SymbolEnds(names, rest, i - 1);
      NthNext(s, i - 1);
    }
    if i < |names| {
      SymbolEnds(names, rest, i);
      EndsBeyond(s, i);
    }
  }

  lemma {:induction false} SectionNone()
    ensures Section([]) == []
  {
  }

  // The string at the place of a symbol is the symbol.
  lemma {:induction false} SymbolEnds(names: seq<Name>, rest: seq<Byte>, i: nat)
    requires i < |names| && 0 !in names[i]
    ensures Start(names, i) + |names[i]| < |Section(names)| && Start(names, i + 1) == Start(names, i) + |names[i]| + 1
    ensures ZeroAt((Section(names) + rest)[Start(names, i)..]) == |names[i]|
    ensures (Section(names) + rest)[Start(names, i)] == if names[i] == [] then 0 else names[i][0]
  {
    hide Section, ZeroAt;
    Starts(names, i);
    var s, at := Section(names) + rest, Start(names, i);
    assert s[at..][..|names[i]|] == names[i];
    assert s[at..][|names[i]|] == 0;
    ZeroAtPrefix(s[at..], names[i]);
  }

  lemma {:induction false} EndsBeyond(s: seq<Byte>, i: nat)
    requires i <= Ends(s) && var t := s[NthStart(s, i)..]; ZeroAt(t) < |t|
    ensures i < Ends(s)
  {
    NthLast(s);
  }

  // What is read from a file that begins with the symbols are the symbols.
  lemma {:induction false} SymbolsOfTable(names: seq<Name>, rest: seq<Byte>)
    requires forall k :: 0 <= k < |names| ==> 0 !in names[k]
    ensures |names| <= Ends(Section(names) + rest) && Symbols(Section(names) + rest, |names|) == names
  {
    hide Section, Ends, NthStart;
    var s := Section(names) + rest;
    TableOfSymbols(names, rest, |names|);
    forall i | 0 <= i < |names|
      ensures Symbols(s, |names|)[i] == names[i]
    {
      TableOfSymbols(names, rest, i);
      SymbolWhole(names, rest, i);
    }
  }

  lemma {:induction false} SymbolWhole(names: seq<Name>, rest: seq<Byte>, i: nat)
    requires i < |names| && 0 !in names[i]
    ensures Start(names, i) <= |Section(names) + rest| && Cut((Section(names) + rest)[Start(names, i)..]) == names[i]
  {
    hide Section, ZeroAt;
    Starts(names, i);
    SymbolEnds(names, rest, i);
    var s, at := Section(names) + rest, Start(names, i);
    assert s[at..][..|names[i]|] == Section(names)[at..at + |names[i]|];
  }
}
