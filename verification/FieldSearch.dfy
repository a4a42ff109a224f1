// The circular field search of chicago_parse_lib/src/ch_field_reader.c against a plain scan.
module FieldSearch {
  import opened Wrappers
  import opened Bytes
  import opened FieldReader

  predicate Matches(fields: seq<Field>, k: nat, symbol: Name)
    requires k < |fields|
  {
    Same(fields[k].name, symbol)
  }

  // The first field with the name.
  function Scan(fields: seq<Field>, symbol: Name, from: nat): (k: Option<nat>)
    requires from <= |fields|
    ensures k.Some? ==> from <= k.value < |fields| && Matches(fields, k.value, symbol)
    ensures forall i :: from <= i < (if k.Some? then k.value else |fields|) ==> !Matches(fields, i, symbol)
    decreases |fields| - from
  {
    if from == |fields| then None
    else if Matches(fields, from, symbol) then Some(from)
    else Scan(fields, symbol, from + 1)
  }

  // The field that the search looks at after t others.
  function Visit(cookie: int, t: nat, n: nat): (k: nat)
    requires -1 <= cookie < n && t < n
    ensures k < n
  {
    if cookie + 1 + t < n then cookie + 1 + t else cookie + 1 + t - n
  }

  // The search passes fields that do not match, and stops at one that does or after all.
  lemma {:induction false} SearchPath(fields: seq<Field>, start: int, cookie: int, symbol: Name, tests: nat)
    requires -1 <= start < |fields| && -1 <= cookie < |fields| && tests <= |fields|
    requires tests < |fields| ==> (cookie + 1) % |fields| == Visit(start, tests, |fields|)
    requires forall t: nat :: t < tests ==> !Matches(fields, Visit(start, t, |fields|), symbol)
    ensures var f := FindField(fields, cookie, symbol, tests);
      && (f.ok ==> f.cookie == Visit(start, f.tests, |fields|))
      && forall t: nat :: t < f.tests ==> !Matches(fields, Visit(start, t, |fields|), symbol)
    decreases |fields| - tests
  {
    if tests < |fields| {
      var next := (cookie + 1) % |fields|;
      if !Matches(fields, next, symbol) {
        if tests + 1 < |fields| {
          NextVisit(start, tests, |fields|);
        }
        SearchPath(fields, start, next, symbol, tests + 1);
      }
    }
  }

  lemma {:induction false} NextVisit(start: int, t: nat, n: nat)
    requires -1 <= start < n && t + 1 < n
    ensures (Visit(start, t, n) + 1) % n == Visit(start, t + 1, n)
  {
    var k := Visit(start, t, n);
    if k + 1 < n {
      SmallMod(k + 1, n);
    } else {
      ModSelf(n);
    }
  }

  lemma {:induction false} SmallMod(k: nat, n: nat)
    requires k < n
    ensures k % n == k
  {
  }

  lemma {:induction false} ModSelf(n: nat)
    requires n >= 1
    ensures n % n == 0
  {
  }

  lemma {:induction false} FirstVisit(cookie: int, n: nat)
    requires -1 <= cookie < n && n > 0
    ensures (cookie + 1) % n == Visit(cookie, 0, n)
  {
    if cookie + 1 < n {
      SmallMod(cookie + 1, n);
    }
  }

  // The search fails exactly if a scan does, after testing every field once. It finds the
  // field that the scan finds exactly if matches are not on both sides of the cookie.
  lemma {:induction false} SearchAgainstScan(fields: seq<Field>, cookie: int, symbol: Name)
    requires -1 <= cookie < |fields|
    ensures var f := FindField(fields, cookie, symbol, 0); var k := Scan(fields, symbol, 0);
      && (f.ok <==> k.Some?)
      && (!f.ok ==> f.tests == |fields|)
      && (f.ok ==> (k == Some(f.cookie as nat) <==>
          !((exists i :: 0 <= i <= cookie && Matches(fields, i, symbol)) &&
            (exists j :: cookie < j < |fields| && Matches(fields, j, symbol)))))
  {
    hide FindField;
    if |fields| > 0 {
      FirstVisit(cookie, |fields|);
      SearchPath(fields, cookie, cookie, symbol, 0);
    }
    var f := FindField(fields, cookie, symbol, 0);
    var k := Scan(fields, symbol, 0);
    if !f.ok {
      forall i: nat | i < |fields|
        ensures !Matches(fields, i, symbol)
      {
        VisitAll(cookie, i, |fields|);
      }
    } else {
      assert Matches(fields, f.cookie, symbol);
      forall i: nat | i < |fields| && Steps(cookie, i, |fields|) < f.tests
        ensures !Matches(fields, i, symbol)
      {
        VisitAll(cookie, i, |fields|);
      }
      assert Steps(cookie, f.cookie, |fields|) == f.tests;
    }
  }

  function Steps(cookie: int, i: nat, n: nat): (t: nat)
    requires -1 <= cookie < n && i < n
    ensures t < n
  {
    if i > cookie then i - cookie - 1 else i + n - cookie - 1
  }

  lemma {:induction false} VisitAll(cookie: int, i: nat, n: nat)
    requires -1 <= cookie < n && i < n
    ensures Visit(cookie, Steps(cookie, i, n), n) == i
  {
  }

  ghost predicate UniqueNames(fields: seq<Field>) {
    forall i, j :: 0 <= i < j < |fields| ==> !Same(fields[i].name, fields[j].name)
  }

  // With unique names the search is a scan, and its cost is how far it has to go.
  lemma {:induction false} SearchOfUnique(fields: seq<Field>, cookie: int, symbol: Name, k: nat)
    requires -1 <= cookie < |fields| && UniqueNames(fields) && k < |fields| && Matches(fields, k, symbol)
    ensures FindField(fields, cookie, symbol, 0) == Found(true, k, Steps(cookie, k, |fields|))
    ensures Scan(fields, symbol, 0) == Some(k)
  {
    hide FindField;
    FirstVisit(cookie, |fields|);
    SearchPath(fields, cookie, cookie, symbol, 0);
    VisitAll(cookie, k, |fields|);
    var f := FindField(fields, cookie, symbol, 0);
    assert f.ok;
    assert Matches(fields, f.cookie, symbol);
    var s := Scan(fields, symbol, 0).value;
    assert Matches(fields, s, symbol);
  }

  // The comparisons that looking up symbols one after the other takes.
  ghost function Comparisons(fields: seq<Field>, cookie: int, symbols: seq<Name>): nat
    requires -1 <= cookie < |fields|
    decreases |symbols|
  {
    if symbols == [] then 0
    else
      var f := FindField(fields, cookie, symbols[0], 0);
      (if f.ok then f.tests + 1 else f.tests) + Comparisons(fields, f.cookie, symbols[1..])
  }

  // Records in datamap order cost one comparison a field, however many fields are left out.
  lemma {:induction false} InOrderCost(fields: seq<Field>, cookie: int, symbols: seq<Name>, at: seq<nat>)
    requires -1 <= cookie < |fields| && UniqueNames(fields) && |at| == |symbols|
    requires forall i :: 0 <= i < |at| ==> cookie < at[i] < |fields| && Matches(fields, at[i], symbols[i])
    requires forall i, j :: 0 <= i < j < |at| ==> at[i] < at[j]
    ensures Comparisons(fields, cookie, symbols) == (if at == [] then 0 else at[|at| - 1] - cookie) <= |fields|
    decreases |symbols|
  {
    if symbols != [] {
      SearchOfUnique(fields, cookie, symbols[0], at[0]);
      InOrderCost(fields, at[0], symbols[1..], at[1..]);
    }
  }
}
