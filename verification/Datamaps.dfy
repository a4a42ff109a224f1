// The trees of datamaps that chicago_parser_exe/src/ch_recv.c is sent: a class with its base
// class and the classes embedded in its fields.
module Datamaps {
  import opened Wrappers
  import opened Bytes

  datatype Map = Map(name: Name, mod: Name, modOffset: nat, base: Option<Map>, fields: seq<Desc>)

  datatype Desc = Desc(
    name: Name,
    ftype: nat,
    flags: nat,
    external: Option<Name>,
    gameOffset: nat,
    nElems: nat,
    totalSize: nat,
    ops: Option<nat>,
    embedded: Option<Map>)

  // ch_recurse_visit_datamaps: a map, then its base class, then what is embedded in its fields.
  function Visit(m: Map): (ms: seq<Map>)
    ensures |ms| >= 1 && ms[0] == m
    decreases m, 1
  {
    [m] + (if m.base.Some? then Visit(m.base.value) else []) + VisitFields(m.fields)
  }

  function VisitFields(fields: seq<Desc>): seq<Map>
    decreases fields, 0
  {
    if fields == [] then []
    else (if fields[0].embedded.Some? then Visit(fields[0].embedded.value) else []) + VisitFields(fields[1..])
  }

  // The maps that a map refers to.
  ghost predicate Child(c: Map, m: Map) {
    m.base == Some(c) || exists k :: 0 <= k < |m.fields| && m.fields[k].embedded == Some(c)
  }

  lemma {:induction false} FieldVisited(fields: seq<Desc>, k: nat)
    requires k < |fields| && fields[k].embedded.Some?
    ensures |Visit(fields[k].embedded.value)| <= |VisitFields(fields)|
    ensures forall x :: x in Visit(fields[k].embedded.value) ==> x in VisitFields(fields)
    decreases k
  {
    if k > 0 {
      FieldVisited(fields[1..], k - 1);
    }
  }

  // The visit of n maps that starts at p is that of a map.
  ghost predicate VisitedAt(ms: seq<Map>, p: nat, m: Map) {
    p + |Visit(m)| <= |ms| && ms[p..p + |Visit(m)|] == Visit(m)
  }

  lemma {:induction false} FieldVisitedAt(fields: seq<Desc>, k: nat) returns (p: nat)
    requires k < |fields| && fields[k].embedded.Some?
    ensures p == |VisitFields(fields[..k])| && VisitedAt(VisitFields(fields), p, fields[k].embedded.value)
    decreases k
  {
    hide Visit;
    if k == 0 {
      p := 0;
    } else {
      var first := if fields[0].embedded.Some? then Visit(fields[0].embedded.value) else [];
      var q := FieldVisitedAt(fields[1..], k - 1);
      assert fields[1..][..k - 1] == fields[..k][1..];
      p := |first| + q;
      Shifted(first, VisitFields(fields[1..]), q, fields[k].embedded.value);
    }
  }

  lemma {:induction false} Shifted(a: seq<Map>, b: seq<Map>, q: nat, m: Map)
    requires VisitedAt(b, q, m)
    ensures VisitedAt(a + b, |a| + q, m)
  {
    hide Visit;
    assert (a + b)[|a| + q..|a| + q + |Visit(m)|] == b[q..q + |Visit(m)|];
  }

  lemma {:induction false} FieldsGrow(fields: seq<Desc>, j: nat, k: nat)
    requires j < k <= |fields| && fields[j].embedded.Some?
    ensures |VisitFields(fields[..j])| + |Visit(fields[j].embedded.value)| <= |VisitFields(fields[..k])|
  {
    var p := FieldVisitedAt(fields[..k], j);
    assert fields[..k][..j] == fields[..j];
  }

  lemma {:induction false} VisitFront(m: Map) returns (front: seq<Map>)
    ensures Visit(m) == front + VisitFields(m.fields) && |front| >= 1
    ensures m.base.Some? ==> |front| == 1 + |Visit(m.base.value)| && VisitedAt(Visit(m), 1, m.base.value)
  {
    hide VisitFields;
    front := [m];
    if m.base.Some? {
      var base := Visit(m.base.value);
      front := [m] + base;
      assert Visit(m)[1..1 + |base|] == base;
    }
  }

  // A map comes first, then what its base class leads to, then what its embedded classes lead to,
  // in the order of the fields.
  lemma {:induction false} VisitOrder(m: Map, j: nat, k: nat) returns (p: nat, q: nat)
    requires j < k < |m.fields| && m.fields[j].embedded.Some? && m.fields[k].embedded.Some?
    ensures m.base.Some? ==> VisitedAt(Visit(m), 1, m.base.value) && 1 + |Visit(m.base.value)| <= p
    ensures VisitedAt(Visit(m), p, m.fields[j].embedded.value) && 1 <= p
    ensures VisitedAt(Visit(m), q, m.fields[k].embedded.value) && p + |Visit(m.fields[j].embedded.value)| <= q
  {
    hide VisitFields, Visit;
    var front := VisitFront(m);
    var p1 := FieldVisitedAt(m.fields, j);
    var q1 := FieldVisitedAt(m.fields, k);
    FieldsGrow(m.fields, j, k);
    p, q := |front| + p1, |front| + q1;
    Shifted(front, VisitFields(m.fields), p1, m.fields[j].embedded.value);
    Shifted(front, VisitFields(m.fields), q1, m.fields[k].embedded.value);
  }

  // The number of maps visited from a map exceeds that from each of its children, and all
  // that a child leads to is visited.
  lemma {:induction false} ChildCount(c: Map, m: Map)
    requires Child(c, m)
    ensures |Visit(c)| < |Visit(m)|
    ensures forall x :: x in Visit(c) ==> x in Visit(m)
  {
    if m.base != Some(c) {
      var k :| 0 <= k < |m.fields| && m.fields[k].embedded == Some(c);
      FieldVisited(m.fields, k);
    }
  }

  // Children of visited maps are visited.
  lemma {:induction false} VisitClosed(m: Map, x: Map, c: Map)
    requires x in Visit(m) && Child(c, x)
    ensures c in Visit(m)
    decreases m, 1
  {
    if x == m {
      ChildCount(c, m);
      assert Visit(c)[0] == c;
    } else if m.base.Some? && x in Visit(m.base.value) {
      VisitClosed(m.base.value, x, c);
    } else {
      FieldsClosed(m.fields, x, c);
    }
  }

  lemma {:induction false} FieldsClosed(fields: seq<Desc>, x: Map, c: Map)
    requires x in VisitFields(fields) && Child(c, x)
    ensures c in VisitFields(fields)
    decreases fields, 0
  {
    if fields[0].embedded.Some? && x in Visit(fields[0].embedded.value) {
      VisitClosed(fields[0].embedded.value, x, c);
    } else {
      FieldsClosed(fields[1..], x, c);
    }
  }
}
