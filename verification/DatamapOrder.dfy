// The order in which chicago_parser_exe/src/ch_recv.c writes datamaps.
module DatamapOrder {
  import opened Wrappers
  import opened Bytes
  import opened ByteReader
  import opened Datamaps

  // ---------- comparing names ----------

  // strncmp of two strings that are both at least n long
  function StrNCmp(a: Name, b: Name, n: nat): int
    requires n <= |a| && n <= |b|
    decreases n
  {
    if n == 0 then 0
    else if a[0] != b[0] then a[0] - b[0]
    else if a[0] == 0 then 0
    else StrNCmp(a[1..], b[1..], n - 1)
  }

  // ch_cmp_mp_str
  function CmpStr(a: Name, b: Name): int {
    var n := if |a| < |b| then |a| else |b|;
    var res := StrNCmp(a, b, n);
    if res != 0 then res
    else if |a| < |b| then -1
    else if |a| > |b| then 1
    else 0
  }

  // Names are the same for ch_cmp_mp_str if they are equally long and the same up to a NUL.
  lemma {:induction false} CmpZero(a: Name, b: Name)
    ensures CmpStr(a, b) == 0 <==> |a| == |b| && Cut(a) == Cut(b)
    decreases |a|
  {
    hide Cut;
    CutStep(a);
    CutStep(b);
    if a != [] && b != [] && a[0] == b[0] != 0 {
      CmpZero(a[1..], b[1..]);
      assert CmpStr(a, b) == 0 <==> CmpStr(a[1..], b[1..]) == 0;
      assert ([a[0]] + Cut(a[1..]))[1..] == Cut(a[1..]) && ([b[0]] + Cut(b[1..]))[1..] == Cut(b[1..]);
    }
  }

  lemma {:induction false} CutStep(s: Name)
    ensures Cut(s) == if s == [] || s[0] == 0 then [] else [s[0]] + Cut(s[1..])
  {
  }

  // The names agree up to i and have no NUL there. Then they differ, or both have a NUL, or one
  // of them ends.
  ghost predicate AgreeUpTo(a: Name, b: Name, i: nat) {
    && i <= |a| && i <= |b| && a[..i] == b[..i] && 0 !in a[..i]
    && (i == |a| || i == |b| || a[i] != b[i] || a[i] == 0)
  }

  // The first difference decides, and if there is none before a NUL or an end, the lengths do.
  ghost predicate Precedes(a: Name, b: Name, i: nat)
    requires AgreeUpTo(a, b, i)
  {
    if i < |a| && i < |b| && a[i] != b[i] then a[i] < b[i] else |a| < |b|
  }

  lemma {:induction false} CmpFirst(a: Name, b: Name) returns (i: nat)
    ensures AgreeUpTo(a, b, i) && (CmpStr(a, b) < 0 <==> Precedes(a, b, i))
    decreases |a|
  {
    if a != [] && b != [] && a[0] == b[0] != 0 {
      i := CmpFirst(a[1..], b[1..]);
      assert a[..i + 1] == [a[0]] + a[1..][..i] && b[..i + 1] == [b[0]] + b[1..][..i];
      i := i + 1;
    } else {
      i := 0;
    }
  }

  lemma {:induction false} CmpOpposite(a: Name, b: Name)
    ensures CmpStr(a, b) < 0 <==> CmpStr(b, a) > 0
    decreases |a|
  {
    if a != [] && b != [] {
      CmpOpposite(a[1..], b[1..]);
    }
  }

  // The order is transitive, so that names can be sorted by it.
  lemma {:induction false} CmpTransitive(a: Name, b: Name, c: Name)
    requires CmpStr(a, b) <= 0 && CmpStr(b, c) <= 0
    ensures CmpStr(a, c) <= 0
    ensures CmpStr(a, b) < 0 || CmpStr(b, c) < 0 ==> CmpStr(a, c) < 0
    decreases |a|
  {
    if a != [] && b != [] && c != [] && a[0] == b[0] == c[0] != 0 {
      CmpTransitive(a[1..], b[1..], c[1..]);
    }
  }

  // ---------- comparing datamaps ----------

  // ch_cmp_datamaps: by module, by the number of maps visited, by name
  function Compare(a: Map, b: Map): int {
    var cmp := CmpStr(a.mod, b.mod);
    if cmp != 0 then cmp
    else if |Visit(a)| < |Visit(b)| then -1
    else if |Visit(a)| > |Visit(b)| then 1
    else CmpStr(a.name, b.name)
  }

  lemma {:induction false} CompareOpposite(a: Map, b: Map)
    ensures Compare(a, b) < 0 <==> Compare(b, a) > 0
  {
    CmpOpposite(a.mod, b.mod);
    CmpOpposite(b.mod, a.mod);
    CmpOpposite(a.name, b.name);
  }

  lemma {:induction false} CompareTransitive(a: Map, b: Map, c: Map)
    requires Compare(a, b) <= 0 && Compare(b, c) <= 0
    ensures Compare(a, c) <= 0
    ensures Compare(a, b) < 0 || Compare(b, c) < 0 ==> Compare(a, c) < 0
  {
    hide CmpStr, Visit;
    CmpTransitive(a.mod, b.mod, c.mod);
    if CmpStr(a.mod, b.mod) == 0 == CmpStr(b.mod, c.mod) {
      EqualCompares(a.mod, b.mod, c.mod);
      if CmpStr(a.name, b.name) <= 0 && CmpStr(b.name, c.name) <= 0 {
        CmpTransitive(a.name, b.name, c.name);
      }
    }
  }

  lemma {:induction false} EqualCompares(a: Name, b: Name, c: Name)
    requires CmpStr(a, b) == 0 == CmpStr(b, c)
    ensures CmpStr(a, c) == 0
  {
    hide CmpStr;
    CmpZero(a, b);
    CmpZero(b, c);
    CmpZero(a, c);
  }

  ghost predicate NameBefore(a: Name, b: Name) {
    exists i: nat :: AgreeUpTo(a, b, i) && Precedes(a, b, i)
  }

  lemma {:induction false} AgreeOnce(a: Name, b: Name, i: nat, j: nat)
    requires i < j && AgreeUpTo(a, b, j)
    ensures !AgreeUpTo(a, b, i)
  {
    assert a[..j][i] == b[..j][i] && a[..j][i] != 0;
  }

  lemma {:induction false} CmpBefore(a: Name, b: Name)
    ensures CmpStr(a, b) < 0 <==> NameBefore(a, b)
  {
    hide CmpStr;
    var i := CmpFirst(a, b);
    if j: nat :| AgreeUpTo(a, b, j) && Precedes(a, b, j) {
      if i < j {
        AgreeOnce(a, b, i, j);
      } else if j < i {
        AgreeOnce(a, b, j, i);
      }
    }
  }

  // Maps are ordered by their modules, then by how many maps they lead to, then by their names.
  lemma {:induction false} CompareExactly(a: Map, b: Map)
    ensures Compare(a, b) < 0 <==>
      || NameBefore(a.mod, b.mod)
      || (|a.mod| == |b.mod| && Cut(a.mod) == Cut(b.mod)
        && (|Visit(a)| < |Visit(b)| || (|Visit(a)| == |Visit(b)| && NameBefore(a.name, b.name))))
  {
    hide CmpStr, NameBefore, Visit;
    CmpBefore(a.mod, b.mod);
    CmpBefore(a.name, b.name);
    CmpZero(a.mod, b.mod);
  }

  ghost predicate Ordered(ms: seq<Map>) {
    forall i, j :: 0 <= i < j < |ms| ==> Compare(ms[i], ms[j]) <= 0
  }

  // qsort, as an insertion sort
  method SortMaps(ms: seq<Map>) returns (sorted: seq<Map>)
    ensures Ordered(sorted) && multiset(sorted) == multiset(ms)
  {
    hide Compare;
    sorted := [];
    for n := 0 to |ms|
      invariant Ordered(sorted) && multiset(sorted) == multiset(ms[..n])
    {
      assert ms[..n + 1] == ms[..n] + [ms[n]];
      sorted := Insert(sorted, ms[n]);
    }
    assert ms[..|ms|] == ms;
  }

  method Insert(ms: seq<Map>, m: Map) returns (out: seq<Map>)
    requires Ordered(ms)
    ensures Ordered(out) && multiset(out) == multiset(ms) + multiset{m}
  {
    hide Compare;
    var k := |ms|;
    while k > 0 && Compare(ms[k - 1], m) > 0
      invariant 0 <= k <= |ms| && forall i :: k <= i < |ms| ==> Compare(ms[i], m) > 0
    {
      k := k - 1;
    }
    out := ms[..k] + [m] + ms[k..];
    Inserted(ms, m, k);
    Counted(ms[..k], m, ms[k..]);
    assert ms == ms[..k] + ms[k..];
  }

  lemma {:induction false} Counted(a: seq<Map>, m: Map, b: seq<Map>)
    ensures multiset(a + [m] + b) == multiset(a + b) + multiset{m}
  {
    assert multiset(a + [m] + b) == multiset(a) + multiset{m} + multiset(b);
    assert multiset(a + b) == multiset(a) + multiset(b);
  }

  lemma {:induction false} Inserted(ms: seq<Map>, m: Map, k: nat)
    requires Ordered(ms) && k <= |ms|
    requires k > 0 ==> Compare(ms[k - 1], m) <= 0
    requires forall i :: k <= i < |ms| ==> Compare(ms[i], m) > 0
    ensures Ordered(ms[..k] + [m] + ms[k..])
  {
    hide Compare;
    forall i | 0 <= i < k
      ensures Compare(ms[i], m) <= 0
    {
      if i < k - 1 {
        CompareTransitive(ms[i], ms[k - 1], m);
      }
    }
    forall i | k <= i < |ms|
      ensures Compare(m, ms[i]) <= 0
    {
      CompareOpposite(m, ms[i]);
      CompareOpposite(ms[i], m);
    }
  }

  // ---------- dependencies ----------

  // A map that another refers to is written before it exactly if its module does not sort
  // after the other's.
  lemma {:induction false} ChildBefore(ms: seq<Map>, i: nat, j: nat)
    requires Ordered(ms) && i < |ms| && j < |ms| && Child(ms[i], ms[j])
    ensures i < j <==> CmpStr(ms[i].mod, ms[j].mod) <= 0
  {
    hide CmpStr;
    ChildCount(ms[i], ms[j]);
    CompareOpposite(ms[i], ms[j]);
    CompareOpposite(ms[j], ms[i]);
  }

  // Each map comes after all that it refers to; datamap_utils.py demands it of the file.
  ghost predicate DependenciesFirst(ms: seq<Map>) {
    forall j, c :: 0 <= j < |ms| && Child(c, ms[j]) ==> exists i :: 0 <= i < j && ms[i].name == c.name
  }

  // The maps that are referred to are in the list, and equal names mean equal trees.
  ghost predicate Closed(ms: seq<Map>) {
    && (forall i, j :: 0 <= i < j < |ms| ==> ms[i].name != ms[j].name)
    && (forall j, c :: 0 <= j < |ms| && Child(c, ms[j]) ==> c in ms)
  }

  // No map is of a module that sorts after that of a map that refers to it.
  ghost predicate ModulesInOrder(ms: seq<Map>) {
    forall j, c :: 0 <= j < |ms| && Child(c, ms[j]) ==> CmpStr(c.mod, ms[j].mod) <= 0
  }

  // Sorting puts dependencies first exactly if the modules are in order.
  lemma {:induction false} SortedByDependency(ms: seq<Map>)
    requires Ordered(ms) && Closed(ms)
    ensures DependenciesFirst(ms) <==> ModulesInOrder(ms)
  {
    hide CmpStr, Child, Ordered;
    forall j, c | 0 <= j < |ms| && Child(c, ms[j])
      ensures (exists i :: 0 <= i < j && ms[i].name == c.name) <==> CmpStr(c.mod, ms[j].mod) <= 0
    {
      assert c in ms;
      var k :| 0 <= k < |ms| && ms[k] == c;
      ChildBefore(ms, k, j);
    }
  }

  // Nested maps share the module of their owner.
  ghost predicate OneModule(ms: seq<Map>) {
    forall j, c :: 0 <= j < |ms| && Child(c, ms[j]) ==> c.mod == ms[j].mod
  }

  lemma {:induction false} OneModuleSuffices(ms: seq<Map>)
    requires Ordered(ms) && Closed(ms) && OneModule(ms)
    ensures DependenciesFirst(ms)
  {
    hide CmpStr, Child, Ordered, DependenciesFirst;
    forall j, c | 0 <= j < |ms| && Child(c, ms[j])
      ensures CmpStr(c.mod, ms[j].mod) <= 0
    {
      CmpZero(c.mod, c.mod);
    }
    SortedByDependency(ms);
  }

  // A class of server.dll that is derived from one of vphysics.dll is written before it.
  lemma {:induction false} LaterModule()
    ensures var c := Map([99], [118], 0, None, []);
      var m := Map([109], [115], 0, Some(c), []);
      Ordered([m, c]) && Closed([m, c]) && !DependenciesFirst([m, c])
  {
    var c := Map([99], [118], 0, None, []);
    var m := Map([109], [115], 0, Some(c), []);
    assert CmpStr(m.mod, c.mod) == 115 - 118;
    assert Child(c, m);
    assert forall x :: Child(x, m) ==> x == c;
    assert [m, c][1] == c && [m, c][0] == m;
  }
}
