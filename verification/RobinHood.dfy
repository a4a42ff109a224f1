// The bucket array of shared/thirdparty/hashmap/hashmap.c as a value: what it means for
// an array of buckets to be a Robin Hood table, and what one probe step does to it.
module RobinHood {
  import opened Wrappers

  datatype Item<+K, +V> = Item(key: K, val: V)

  // dib is zero in an empty bucket, and otherwise one plus the distance from home.
  datatype Bucket<+K, +V> = Bucket(hash: nat, dib: nat, item: Item<K, V>)

  type Table<K, V> = seq<Bucket<K, V>>

  function Next(i: nat, n: nat): (r: nat)
    requires i < n
    ensures r < n
  {
    if i + 1 == n then 0 else i + 1
  }

  function Prev(i: nat, n: nat): (r: nat)
    requires i < n
    ensures r < n && Next(r, n) == i
  {
    if i == 0 then n - 1 else i - 1
  }

  // How many steps of Next lead from h to i.
  function Dist(h: nat, i: nat, n: nat): (r: nat)
    requires h < n && i < n
    ensures r < n
  {
    if h <= i then i - h else i + n - h
  }

  function Home(hash: nat, n: nat): (r: nat)
    requires n > 0
    ensures r < n
  {
    hash % n
  }

  ghost predicate At<K, V>(s: Table<K, V>, p: nat, k: K) {
    p < |s| && s[p].dib > 0 && s[p].item.key == k
  }

  // Every occupied bucket carries its key's hash and one plus its distance from home.
  ghost predicate Placed<K(!new), V(!new)>(s: Table<K, V>, hash: K -> nat) {
    forall p: nat :: p < |s| && s[p].dib > 0 ==>
      && s[p].hash == hash(s[p].item.key)
      && s[p].dib == Dist(Home(s[p].hash, |s|), p, |s|) + 1
  }

  // Distances grow by at most one from a bucket to the next.
  ghost predicate Ordered<K(!new), V(!new)>(s: Table<K, V>) {
    forall p: nat :: p < |s| ==> s[Next(p, |s|)].dib <= s[p].dib + 1
  }

  // The occupied buckets hold m, each key of it once.
  ghost predicate Holds<K(!new), V(!new)>(s: Table<K, V>, m: map<K, V>) {
    && (forall p: nat :: p < |s| && s[p].dib > 0 ==>
        s[p].item.key in m && m[s[p].item.key] == s[p].item.val)
    && (forall k :: k in m ==> exists p: nat :: At(s, p, k))
    && (forall p: nat, q: nat :: p < |s| && q < |s| && p != q && s[p].dib > 0 && s[q].dib > 0 ==>
        s[p].item.key != s[q].item.key)
  }

  ghost predicate Robin<K(!new), V(!new)>(s: Table<K, V>, m: map<K, V>, hash: K -> nat) {
    |s| > 0 && Placed(s, hash) && Ordered(s) && Holds(s, m)
  }

  // Along the probe order, distances grow by at most the steps taken.
  lemma {:induction false} Chain<K(!new), V(!new)>(s: Table<K, V>, q: nat, p: nat)
    requires Ordered(s) && q < |s| && p < |s|
    ensures s[p].dib <= s[q].dib + Dist(q, p, |s|)
    decreases Dist(q, p, |s|)
  {
    if q != p {
      Chain(s, Next(q, |s|), p);
    }
  }

  // The keys of t buckets that start at q and follow the probe order.
  ghost function RunKeys<K(!new), V(!new)>(s: Table<K, V>, q: nat, t: nat): set<K>
    requires q < |s| && t <= |s|
  {
    if t == 0 then {} else RunKeys(s, q, t - 1) + {s[Along(q, t - 1, |s|)].item.key}
  }

  function Along(q: nat, t: nat, n: nat): (r: nat)
    requires q < n && t < n
    ensures r < n && Dist(q, r, n) == t
  {
    if q + t < n then q + t else q + t - n
  }

  lemma {:induction false} RunKeysMember<K(!new), V(!new)>(s: Table<K, V>, q: nat, t: nat, k: K) returns (j: nat)
    requires q < |s| && t <= |s| && k in RunKeys(s, q, t)
    ensures j < t && s[Along(q, j, |s|)].item.key == k
  {
    j := t - 1;
    if s[Along(q, j, |s|)].item.key != k {
      j := RunKeysMember(s, q, t - 1, k);
    }
  }

  lemma {:induction false} RunKeysCount<K(!new), V(!new)>(s: Table<K, V>, m: map<K, V>, q: nat, t: nat)
    requires Holds(s, m) && q < |s| && t <= |s|
    requires forall j: nat :: j < t ==> s[Along(q, j, |s|)].dib > 0
    ensures RunKeys(s, q, t) <= m.Keys && |RunKeys(s, q, t)| == t
  {
    hide Holds;
    if t > 0 {
      RunKeysCount(s, m, q, t - 1);
      LastIsNew(s, m, q, t);
      KeyIn(s, m, Along(q, t - 1, |s|));
    }
  }

  lemma {:induction false} KeyIn<K(!new), V(!new)>(s: Table<K, V>, m: map<K, V>, i: nat)
    requires Holds(s, m) && i < |s| && s[i].dib > 0
    ensures s[i].item.key in m && m[s[i].item.key] == s[i].item.val
  {
  }

  lemma {:induction false} LastIsNew<K(!new), V(!new)>(s: Table<K, V>, m: map<K, V>, q: nat, t: nat)
    requires Holds(s, m) && q < |s| && 0 < t <= |s|
    requires forall j: nat :: j < t ==> s[Along(q, j, |s|)].dib > 0
    ensures s[Along(q, t - 1, |s|)].item.key !in RunKeys(s, q, t - 1)
  {
    var last := s[Along(q, t - 1, |s|)].item.key;
    if last in RunKeys(s, q, t - 1) {
      var j := RunKeysMember(s, q, t - 1, last);
    }
  }

  lemma {:induction false} SubsetSize<T>(a: set<T>, b: set<T>)
    requires a <= b
    ensures |a| <= |b|
  {
    if a == {} {
    } else {
      var x :| x in a;
      SubsetSize(a - {x}, b - {x});
    }
  }

  // A run of occupied buckets is no longer than the map is large.
  lemma {:induction false} RunBound<K(!new), V(!new)>(s: Table<K, V>, m: map<K, V>, q: nat, t: nat)
    requires Holds(s, m) && q < |s| && t <= |s|
    requires forall j: nat :: j < t ==> s[Along(q, j, |s|)].dib > 0
    ensures t <= |m|
  {
    RunKeysCount(s, m, q, t);
    SubsetSize(RunKeys(s, q, t), m.Keys);
    assert |m.Keys| == |m|;
  }

  // With fewer items than buckets some bucket is empty, so a probe ends.
  lemma {:induction false} EmptyExists<K(!new), V(!new)>(s: Table<K, V>, m: map<K, V>) returns (z: nat)
    requires Holds(s, m) && |m| < |s|
    ensures z < |s| && s[z].dib == 0
  {
    if forall p: nat :: p < |s| ==> s[p].dib > 0 {
      RunBound(s, m, 0, |s|);
      assert false;
    }
    z :| z < |s| && s[z].dib == 0;
  }

  // ---------- lookup ----------

  // A stored key is at or after bucket i in the probe order that starts at its home.
  ghost predicate NotBefore<K(!new), V(!new)>(s: Table<K, V>, k: K, hash: K -> nat, i: nat)
    requires i < |s|
  {
    forall p: nat :: At(s, p, k) ==> Dist(Home(hash(k), |s|), p, |s|) >= Dist(Home(hash(k), |s|), i, |s|)
  }

  // An empty bucket in the probe order of a key means the key is absent.
  lemma {:induction false} AbsentAtGap<K(!new), V(!new)>(s: Table<K, V>, m: map<K, V>, hash: K -> nat, k: K, i: nat,
        d: nat)
    requires Robin(s, m, hash) && i < |s| && NotBefore(s, k, hash, i)
    requires d == Dist(Home(hash(k), |s|), i, |s|) + 1 && s[i].dib < d
    ensures k !in m
  {
    if k in m {
      var p: nat :| At(s, p, k);
      Chain(s, i, p);
      assert false;
    }
  }

  // ---------- one probe step with an item in flight ----------

  // Table s holds m; e, which is not in m, is about to be offered bucket i.
  ghost predicate InFlight<K(!new), V(!new)>(s: Table<K, V>, m: map<K, V>, hash: K -> nat, e: Bucket<K, V>, i: nat) {
    && Robin(s, m, hash)
    && i < |s|
    && e.dib > 0
    && e.hash == hash(e.item.key)
    && e.dib == Dist(Home(e.hash, |s|), i, |s|) + 1
    && e.dib <= s[Prev(i, |s|)].dib + 1
  }

  // The buckets from the home of e up to bucket i are occupied.
  lemma {:induction false} InFlightRun<K(!new), V(!new)>(s: Table<K, V>, m: map<K, V>, hash: K -> nat, e: Bucket<K, V>,
        i: nat)
    requires InFlight(s, m, hash, e, i)
    ensures e.dib <= |m| + 1
    ensures forall z: nat :: z < |s| && s[z].dib == 0 && z != i ==> e.dib <= Dist(z, i, |s|)
  {
    var n := |s|;
    var h := Home(e.hash, n);
    var b := Prev(i, n);
    forall j: nat | j < e.dib - 1
      ensures s[Along(h, j, n)].dib > 0
    {
      Chain(s, Along(h, j, n), b);
    }
    RunBound(s, m, h, e.dib - 1);
    forall z: nat | z < n && s[z].dib == 0 && z != i
      ensures e.dib <= Dist(z, i, n)
    {
      Chain(s, z, b);
    }
  }

  // The bucket is at least as far from home: e moves on.
  lemma {:induction false} StepOver<K(!new), V(!new)>(s: Table<K, V>, m: map<K, V>, hash: K -> nat, e: Bucket<K, V>,
        i: nat, z: nat)
    requires InFlight(s, m, hash, e, i) && e.dib <= s[i].dib
    requires z < |s| && s[z].dib == 0
    ensures InFlight(s, m, hash, e.(dib := e.dib + 1), Next(i, |s|))
    ensures Dist(Next(i, |s|), z, |s|) < Dist(i, z, |s|)
    ensures NotBefore(s, e.item.key, hash, i) && s[i].item.key != e.item.key ==>
      NotBefore(s, e.item.key, hash, Next(i, |s|))
  {
    InFlightRun(s, m, hash, e, i);
    assert Prev(Next(i, |s|), |s|) == i;
  }

  // The bucket is closer to home: e takes it, and its item goes on.
  lemma {:induction false} StepSwap<K(!new), V(!new)>(s: Table<K, V>, m: map<K, V>, hash: K -> nat, e: Bucket<K, V>,
        i: nat, z: nat)
    requires InFlight(s, m, hash, e, i) && 0 < s[i].dib < e.dib && e.item.key !in m
    requires z < |s| && s[z].dib == 0
    ensures var b := s[i]; var m' := m[e.item.key := e.item.val] - {b.item.key};
      && InFlight(s[i := e], m', hash, b.(dib := b.dib + 1), Next(i, |s|))
      && b.item.key !in m'
      && m'[b.item.key := b.item.val] == m[e.item.key := e.item.val]
      && NotBefore(s[i := e], b.item.key, hash, Next(i, |s|))
    ensures s[i := e][z].dib == 0 && Dist(Next(i, |s|), z, |s|) < Dist(i, z, |s|)
  {
    hide Ordered, Holds, Placed, NotBefore;
    var b := s[i];
    Chain(s, z, i);
    OrderedPut(s, e, i);
    SwapHolds(s, m, e, i);
    PlacedPut(s, hash, e, i);
    PlacedAt(s, hash, i);
    KeyIn(s, m, i);
    NextDist(Home(b.hash, |s|), i, |s|);
    NextNearer(i, z, |s|);
    SwapBack(m, e.item.key, e.item.val, b.item.key, b.item.val);
    NoneAt(s[i := e], m[e.item.key := e.item.val] - {b.item.key}, hash, b.item.key, Next(i, |s|));
  }

  lemma {:induction false} PlacedAt<K(!new), V(!new)>(s: Table<K, V>, hash: K -> nat, i: nat)
    requires Placed(s, hash) && i < |s| && s[i].dib > 0
    ensures s[i].hash == hash(s[i].item.key) && s[i].dib == Dist(Home(s[i].hash, |s|), i, |s|) + 1
  {
  }

  lemma {:induction false} NextDist(h: nat, i: nat, n: nat)
    requires h < n && i < n && Dist(h, i, n) + 1 < n
    ensures Dist(h, Next(i, n), n) == Dist(h, i, n) + 1 && Prev(Next(i, n), n) == i
  {
  }

  lemma {:induction false} NextNearer(i: nat, z: nat, n: nat)
    requires i < n && z < n && i != z
    ensures Dist(Next(i, n), z, n) < Dist(i, z, n)
  {
  }

  lemma {:induction false} SwapBack<K, V>(m: map<K, V>, k: K, v: V, k': K, v': V)
    requires k' in m && m[k'] == v' && k != k'
    ensures (m[k := v] - {k'})[k' := v'] == m[k := v]
  {
  }

  // A key that is not held is not in any bucket.
  lemma {:induction false} NoneAt<K(!new), V(!new)>(s: Table<K, V>, m: map<K, V>, hash: K -> nat, k: K, i: nat)
    requires Holds(s, m) && k !in m && i < |s|
    ensures NotBefore(s, k, hash, i)
  {
  }

  lemma {:induction false} PlacedPut<K(!new), V(!new)>(s: Table<K, V>, hash: K -> nat, e: Bucket<K, V>, i: nat)
    requires Placed(s, hash) && i < |s| && e.dib > 0
    requires e.hash == hash(e.item.key) && e.dib == Dist(Home(e.hash, |s|), i, |s|) + 1
    ensures Placed(s[i := e], hash)
  {
  }

  lemma {:induction false} SwapHolds<K(!new), V(!new)>(s: Table<K, V>, m: map<K, V>, e: Bucket<K, V>, i: nat)
    requires Holds(s, m) && i < |s| && s[i].dib > 0 && e.dib > 0 && e.item.key !in m
    ensures Holds(s[i := e], m[e.item.key := e.item.val] - {s[i].item.key})
  {
    var t := s[i := e];
    var m' := m[e.item.key := e.item.val] - {s[i].item.key};
    forall k | k in m'
      ensures exists p: nat :: At(t, p, k)
    {
      if k == e.item.key {
        assert At(t, i, k);
      } else {
        var p: nat :| At(s, p, k);
        assert At(t, p, k);
      }
    }
  }

  lemma {:induction false} OrderedPut<K(!new), V(!new)>(s: Table<K, V>, e: Bucket<K, V>, i: nat)
    requires Ordered(s) && i < |s| && s[i].dib <= e.dib <= s[Prev(i, |s|)].dib + 1
    ensures Ordered(s[i := e])
  {
    var t := s[i := e];
    forall p: nat | p < |t|
      ensures t[Next(p, |t|)].dib <= t[p].dib + 1
    {
      assert s[Next(p, |s|)].dib <= s[p].dib + 1;
    }
  }

  // The bucket is empty: e comes to rest in it.
  lemma {:induction false} StepPlace<K(!new), V(!new)>(s: Table<K, V>, m: map<K, V>, hash: K -> nat, e: Bucket<K, V>,
        i: nat)
    requires InFlight(s, m, hash, e, i) && s[i].dib == 0 && e.item.key !in m
    ensures Robin(s[i := e], m[e.item.key := e.item.val], hash)
  {
    var t := s[i := e];
    var m' := m[e.item.key := e.item.val];
    OrderedPut(s, e, i);
    forall k | k in m'
      ensures exists p: nat :: At(t, p, k)
    {
      if k == e.item.key {
        assert At(t, i, k);
      } else {
        var p: nat :| At(s, p, k);
        assert At(t, p, k);
      }
    }
  }

  // The bucket holds an equal key: its item is overwritten.
  lemma {:induction false} StepReplace<K(!new), V(!new)>(s: Table<K, V>, m: map<K, V>, hash: K -> nat, item: Item<K, V>,
        i: nat)
    requires Robin(s, m, hash) && At(s, i, item.key)
    ensures Robin(s[i := s[i].(item := item)], m[item.key := item.val], hash)
  {
    var t := s[i := s[i].(item := item)];
    var m' := m[item.key := item.val];
    forall p: nat | p < |t|
      ensures t[Next(p, |t|)].dib <= t[p].dib + 1
    {
      assert s[Next(p, |s|)].dib <= s[p].dib + 1;
    }
    forall k | k in m'
      ensures exists p: nat :: At(t, p, k)
    {
      var p: nat :| At(s, p, k);
      assert At(t, p, k);
    }
  }

  // ---------- backward shift ----------

  function Cleared<K, V>(s: Table<K, V>, hole: nat): Table<K, V>
    requires hole < |s|
  {
    s[hole := s[hole].(dib := 0)]
  }

  // Apart from the step out of the hole, the table without the hole's bucket is in order,
  // and the bucket after the hole may move into it.
  ghost predicate Shifting<K(!new), V(!new)>(s: Table<K, V>, m: map<K, V>, hash: K -> nat, hole: nat) {
    && |s| > 2
    && hole < |s|
    && var t := Cleared(s, hole);
      && Placed(t, hash)
      && Holds(t, m)
      && (forall p: nat :: p < |t| && p != hole ==> t[Next(p, |t|)].dib <= t[p].dib + 1)
      && t[Next(hole, |t|)].dib <= t[Prev(hole, |t|)].dib + 2
  }

  lemma {:induction false} ShiftStart<K(!new), V(!new)>(s: Table<K, V>, m: map<K, V>, hash: K -> nat, k: K, hole: nat)
    requires Robin(s, m, hash) && |s| > 2 && At(s, hole, k)
    ensures Shifting(Cleared(s, hole), m - {k}, hash, hole)
  {
    var t := Cleared(s, hole);
    assert Cleared(t, hole) == t;
    assert s[Next(hole, |s|)].dib <= s[hole].dib + 1;
    assert s[Next(Prev(hole, |s|), |s|)].dib <= s[Prev(hole, |s|)].dib + 1;
    forall p: nat | p < |t| && p != hole
      ensures t[Next(p, |t|)].dib <= t[p].dib + 1
    {
      assert s[Next(p, |s|)].dib <= s[p].dib + 1;
    }
    forall k' | k' in m - {k}
      ensures exists p: nat :: At(t, p, k')
    {
      var p: nat :| At(s, p, k');
      assert At(t, p, k');
    }
  }

  lemma {:induction false} ShiftStep<K(!new), V(!new)>(s: Table<K, V>, m: map<K, V>, hash: K -> nat, hole: nat)
    requires Shifting(s, m, hash, hole) && s[Next(hole, |s|)].dib > 1
    ensures var i := Next(hole, |s|); var b := s[i];
      Shifting(s[hole := b.(dib := b.dib - 1)], m, hash, i)
  {
    hide Placed, Holds;
    var n := |s|;
    var i := Next(hole, n);
    var b := s[i];
    var t := Cleared(s, hole);
    var moved := b.(dib := b.dib - 1);
    var u := t[hole := moved][i := b.(dib := 0)];
    assert t[i] == b && Prev(i, n) == hole;
    assert Cleared(s[hole := moved], i) == u;
    ShiftHolds(t, m, hole, i);
    ShiftPlaced(t, hash, hole);
    ShiftOrder(t, hole, i);
  }

  lemma {:induction false} ShiftPlaced<K(!new), V(!new)>(t: Table<K, V>, hash: K -> nat, hole: nat)
    requires Placed(t, hash) && |t| > 2 && hole < |t| && t[Next(hole, |t|)].dib > 1
    ensures var i := Next(hole, |t|);
      Placed(t[hole := t[i].(dib := t[i].dib - 1)][i := t[i].(dib := 0)], hash)
  {
  }

  lemma {:induction false} ShiftOrder<K(!new), V(!new)>(t: Table<K, V>, hole: nat, i: nat)
    requires |t| > 2 && hole < |t| && i == Next(hole, |t|) && t[hole].dib == 0 && t[i].dib > 1
    requires forall p: nat :: p < |t| && p != hole ==> t[Next(p, |t|)].dib <= t[p].dib + 1
    requires t[i].dib <= t[Prev(hole, |t|)].dib + 2
    ensures var u := t[hole := t[i].(dib := t[i].dib - 1)][i := t[i].(dib := 0)];
      && (forall p: nat :: p < |u| && p != i ==> u[Next(p, |u|)].dib <= u[p].dib + 1)
      && u[Next(i, |u|)].dib <= u[hole].dib + 2
  {
    var u := t[hole := t[i].(dib := t[i].dib - 1)][i := t[i].(dib := 0)];
    assert t[Next(i, |t|)].dib <= t[i].dib + 1;
    forall p: nat | p < |u| && p != i
      ensures u[Next(p, |u|)].dib <= u[p].dib + 1
    {
      if p != hole {
        assert t[Next(p, |t|)].dib <= t[p].dib + 1;
      }
    }
  }

  lemma {:induction false} ShiftHolds<K(!new), V(!new)>(t: Table<K, V>, m: map<K, V>, hole: nat, i: nat)
    requires Holds(t, m) && hole < |t| && i < |t| && hole != i && t[hole].dib == 0 && t[i].dib > 1
    ensures Holds(t[hole := t[i].(dib := t[i].dib - 1)][i := t[i].(dib := 0)], m)
  {
    var u := t[hole := t[i].(dib := t[i].dib - 1)][i := t[i].(dib := 0)];
    forall k | k in m
      ensures exists p: nat :: At(u, p, k)
    {
      var p: nat :| At(t, p, k);
      assert At(u, if p == i then hole else p, k);
    }
  }

  lemma {:induction false} ShiftEnd<K(!new), V(!new)>(s: Table<K, V>, m: map<K, V>, hash: K -> nat, hole: nat)
    requires Shifting(s, m, hash, hole) && s[Next(hole, |s|)].dib <= 1
    ensures Robin(Cleared(s, hole), m, hash)
  {
  }
}
