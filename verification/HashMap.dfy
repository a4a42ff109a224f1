// shared/thirdparty/hashmap/hashmap.c: the hash map that every index of the project is.
module HashMap {
  import opened Wrappers
  import opened Bits
  import opened RobinHood

  const MIN_CAP: nat := 16
  const HASH_RANGE: nat := 0x1_0000_0000_0000
  const DEFAULT_LOAD_FACTOR: nat := 60
  const SHRINK_AT: nat := 10
  const DIB_RANGE: nat := 0x1_0000

  // ---------- what the operations do to the map, seen from outside ----------

  datatype State<K, V> = State(
    contents: map<K, V>,
    cap: nat,
    nbuckets: nat,
    growat: nat,
    shrinkat: nat,
    loadfactor: nat,
    growpower: nat,
    oom: bool)

  function Doubled(n: nat, cap: nat): (r: nat)
    requires n > 0
    ensures cap <= r && n <= r
    decreases cap - n
  {
    if n >= cap then n else Doubled(2 * n, cap)
  }

  // The bucket count that a requested capacity is rounded to.
  function RoundCap(cap: nat): (r: nat)
    ensures r >= cap && r >= MIN_CAP
  {
    Doubled(MIN_CAP, cap)
  }

  function Percent(n: nat, p: nat): nat {
    n * p / 100
  }

  function NewSpec<K, V>(cap: nat): State<K, V> {
    var n := RoundCap(cap);
    State(map[], n, n, Percent(n, DEFAULT_LOAD_FACTOR), Percent(n, SHRINK_AT), DEFAULT_LOAD_FACTOR, 1, false)
  }

  // A resize takes the grow limit of a new map, so with the default load factor.
  function Resized<K, V>(st: State<K, V>, newCap: nat): State<K, V> {
    var n := RoundCap(newCap);
    st.(nbuckets := n, growat := Percent(n, DEFAULT_LOAD_FACTOR), shrinkat := Percent(n, SHRINK_AT))
  }

  function SetSpec<K, V>(st: State<K, V>, item: Item<K, V>, alloc: bool): State<K, V> {
    if |st.contents| >= st.growat && !alloc then st.(oom := true)
    else
      var st' := if |st.contents| >= st.growat then Resized(st, st.nbuckets * Pow2(st.growpower)) else st;
      st'.(contents := st.contents[item.key := item.val], oom := false)
  }

  // What is left when a key is gone, and then perhaps shrunk.
  function Without<K, V>(st: State<K, V>, key: K): State<K, V> {
    st.(contents := st.contents - {key}, oom := false)
  }

  function Shrunk<K, V>(d: State<K, V>, alloc: bool): State<K, V> {
    if d.nbuckets > d.cap && |d.contents| <= d.shrinkat && alloc then Resized(d, d.nbuckets / 2) else d
  }

  function DeleteSpec<K, V>(st: State<K, V>, key: K, alloc: bool): State<K, V> {
    if key !in st.contents then st.(oom := false) else Shrunk(Without(st, key), alloc)
  }

  function ClearSpec<K, V>(st: State<K, V>, updateCap: bool): State<K, V> {
    var n := if updateCap then st.nbuckets else st.cap;
    st.(contents := map[], cap := n, nbuckets := n, growat := Percent(n, st.loadfactor),
        shrinkat := Percent(n, SHRINK_AT))
  }

  // clamp_load_factor, as a percentage
  function Clamp(percent: nat): (r: nat)
    ensures 50 <= r <= 95 && (r < percent ==> r == 95) && (r > percent ==> r == 50)
  {
    if percent < 50 then 50 else if percent > 95 then 95 else percent
  }

  function LoadFactorSpec<K, V>(st: State<K, V>, percent: nat): State<K, V> {
    st.(loadfactor := Clamp(percent), growat := Percent(st.nbuckets, Clamp(percent)))
  }

  function GrowPowerSpec<K, V>(st: State<K, V>, power: nat): State<K, V> {
    st.(growpower := if power < 1 then 1 else if power > 16 then 16 else power)
  }

  // What holds between any two operations.
  ghost predicate Sound<K, V>(st: State<K, V>) {
    && IsPow2(st.nbuckets) && IsPow2(st.cap)
    && st.nbuckets >= st.cap >= MIN_CAP
    && |st.contents| < st.nbuckets
    && st.growat < st.nbuckets
    && st.shrinkat == Percent(st.nbuckets, SHRINK_AT)
    && st.growpower >= 1
    && 50 <= st.loadfactor <= 95
  }

  lemma {:induction false} DoubledIsPow2(a: nat, cap: nat)
    ensures IsPow2(Doubled(Pow2(a), cap))
    ensures Doubled(Pow2(a), cap) == Pow2(a) || Doubled(Pow2(a), cap) < 2 * cap
    decreases cap - Pow2(a)
  {
    if Pow2(a) < cap {
      assert Pow2(a + 1) == 2 * Pow2(a);
      DoubledIsPow2(a + 1, cap);
    }
  }

  lemma {:induction false} DoubledExact(a: nat, b: nat)
    requires a <= b
    ensures Doubled(Pow2(a), Pow2(b)) == Pow2(b)
    decreases b - a
  {
    if a == b {
    } else {
      Pow2Monotone(a, b);
      assert Pow2(a + 1) == 2 * Pow2(a);
      DoubledExact(a + 1, b);
    }
  }

  // A capacity is rounded up to the least power of two, from 16 on, that is not below it.
  lemma {:induction false} RoundCapIsPow2(cap: nat)
    ensures IsPow2(RoundCap(cap))
    ensures RoundCap(cap) == MIN_CAP || RoundCap(cap) < 2 * cap
  {
    assert Pow2(4) == 16;
    DoubledIsPow2(4, cap);
  }

  lemma {:induction false} RoundCapExact(n: nat)
    requires IsPow2(n) && n >= MIN_CAP
    ensures RoundCap(n) == n
  {
    assert Pow2(4) == 16;
    var b: nat :| n == Pow2(b);
    if b < 4 {
      Pow2Monotone(b, 4);
      assert false;
    }
    DoubledExact(4, b);
  }

  lemma {:induction false} PercentBelow(n: nat, p: nat)
    requires n >= 1 && p <= 95
    ensures Percent(n, p) < n
  {
    MulMono(p, 95, n);
  }

  lemma {:induction false} GrownIsPow2(n: nat, power: nat)
    requires IsPow2(n) && power >= 1
    ensures IsPow2(n * Pow2(power)) && n * Pow2(power) >= 2 * n
  {
    var a: nat :| n == Pow2(a);
    Pow2Add(a, power);
    Pow2Monotone(1, power);
    assert Pow2(1) == 2;
    MulMono(2, Pow2(power), n);
  }

  lemma {:induction false} HalfIsPow2(n: nat, cap: nat)
    requires IsPow2(n) && IsPow2(cap) && n > cap
    ensures IsPow2(n / 2) && n / 2 >= cap && n == 2 * (n / 2)
  {
    var a: nat :| n == Pow2(a);
    var b: nat :| cap == Pow2(b);
    if a <= b {
      Pow2Monotone(a, b);
      assert false;
    }
    Pow2Monotone(b, a);
    assert n / 2 == Pow2(a - 1);
  }

  lemma {:induction false} ResizeRoom(n: nat, newCap: nat, count: nat)
    requires IsPow2(newCap) && newCap >= MIN_CAP
    ensures RoundCap(newCap) == newCap && Percent(newCap, DEFAULT_LOAD_FACTOR) < newCap
  {
    RoundCapExact(newCap);
    PercentBelow(newCap, DEFAULT_LOAD_FACTOR);
  }

  lemma {:induction false} NewSound<K, V>(cap: nat)
    ensures Sound(NewSpec<K, V>(cap))
  {
    RoundCapIsPow2(cap);
    PercentBelow(RoundCap(cap), DEFAULT_LOAD_FACTOR);
  }

  // A set keeps the state sound, and leaves at least one bucket empty.
  lemma {:induction false} SetSound<K, V>(st: State<K, V>, item: Item<K, V>, alloc: bool)
    requires Sound(st)
    ensures Sound(SetSpec(st, item, alloc))
  {
    if |st.contents| >= st.growat && alloc {
      var n := st.nbuckets * Pow2(st.growpower);
      GrownIsPow2(st.nbuckets, st.growpower);
      ResizeRoom(st.nbuckets, n, |st.contents|);
    }
  }

  // A delete keeps the state sound: a shrink never goes below cap, nor fills the map.
  lemma {:induction false} DeleteSound<K, V>(st: State<K, V>, key: K, alloc: bool)
    requires Sound(st)
    ensures Sound(DeleteSpec(st, key, alloc))
    ensures key in st.contents ==> |DeleteSpec(st, key, alloc).contents| == |st.contents| - 1
  {
    if key in st.contents {
      var rest := st.contents - {key};
      assert rest.Keys == st.contents.Keys - {key};
      assert |rest| == |rest.Keys| && |st.contents| == |st.contents.Keys|;
      if st.nbuckets > st.cap && |rest| <= st.shrinkat && alloc {
        HalfIsPow2(st.nbuckets, st.cap);
        ResizeRoom(st.nbuckets, st.nbuckets / 2, |rest|);
      }
    }
  }

  // A set is refused exactly if the map has to grow and cannot. Otherwise the item is bound,
  // and nothing else is unbound, whether the map grew or not.
  lemma {:induction false} SetBinds<K, V>(st: State<K, V>, item: Item<K, V>, alloc: bool)
    requires Sound(st)
    ensures var r := SetSpec(st, item, alloc); var grows := |st.contents| >= st.growat && alloc;
      && (r.oom <==> |st.contents| >= st.growat && !alloc)
      && r.contents == (if r.oom then st.contents else st.contents[item.key := item.val])
      && r.nbuckets == (if grows then st.nbuckets * Pow2(st.growpower) else st.nbuckets)
      && r.growat == (if grows then r.nbuckets * 60 / 100 else st.growat)
      && r.cap == st.cap && r.loadfactor == st.loadfactor && r.growpower == st.growpower
  {
    if |st.contents| >= st.growat && alloc {
      var n := st.nbuckets * Pow2(st.growpower);
      GrownIsPow2(st.nbuckets, st.growpower);
      RoundCapExact(n);
    }
  }

  lemma {:induction false} DeleteIs<K, V>(st: State<K, V>, key: K, alloc: bool)
    ensures key !in st.contents ==> DeleteSpec(st, key, alloc) == st.(oom := false)
    ensures key in st.contents ==> DeleteSpec(st, key, alloc) == Shrunk(Without(st, key), alloc)
  {
  }

  // A delete unbinds the key and no other, whether the map shrank or not.
  lemma {:induction false} DeleteUnbinds<K, V>(st: State<K, V>, key: K, alloc: bool)
    requires Sound(st)
    ensures var r := DeleteSpec(st, key, alloc);
      var left := st.contents - {key};
      var shrinks := key in st.contents && st.nbuckets > st.cap && |left| <= st.shrinkat && alloc;
      && !r.oom && r.contents == left
      && r.nbuckets == (if shrinks then st.nbuckets / 2 else st.nbuckets)
      && r.growat == (if shrinks then r.nbuckets * 60 / 100 else st.growat)
      && r.cap == st.cap && r.loadfactor == st.loadfactor && r.growpower == st.growpower
  {
    if key in st.contents {
      if st.nbuckets > st.cap {
        HalfIsPow2(st.nbuckets, st.cap);
        RoundCapExact(st.nbuckets / 2);
      }
    } else {
      assert st.contents - {key} == st.contents;
    }
  }

  lemma {:induction false} ClearSound<K, V>(st: State<K, V>, updateCap: bool)
    requires Sound(st)
    ensures Sound(ClearSpec(st, updateCap))
  {
    PercentBelow(if updateCap then st.nbuckets else st.cap, st.loadfactor);
  }

  lemma {:induction false} ClearEmpties<K, V>(st: State<K, V>, updateCap: bool)
    ensures var r := ClearSpec(st, updateCap);
      && r.contents == map[] && r.nbuckets == r.cap == (if updateCap then st.nbuckets else st.cap)
      && r.growat == r.nbuckets * r.loadfactor / 100
      && r.loadfactor == st.loadfactor && r.growpower == st.growpower && r.oom == st.oom
  {
  }

  // ---------- the map itself ----------

  function Clip(h: nat): nat {
    h % HASH_RANGE
  }

  function Clipped<K(!new)>(hash: K -> nat): K -> nat {
    k => Clip(hash(k))
  }

  // dib is a 16-bit field
  function Bump(dib: nat): nat {
    (dib + 1) % DIB_RANGE
  }

  // Every item of the first i buckets of s has been copied to the map m.
  ghost predicate Moved<K(!new), V(!new)>(s: Table<K, V>, m: map<K, V>, i: nat)
    requires i <= |s|
  {
    && (forall p: nat :: p < i && s[p].dib > 0 ==> s[p].item.key in m)
    && (forall k :: k in m ==> exists p: nat :: p < i && At(s, p, k) && s[p].item.val == m[k])
  }

  lemma {:induction false} MovedNext<K(!new), V(!new)>(s: Table<K, V>, all: map<K, V>, m: map<K, V>, i: nat)
    requires Holds(s, all) && i < |s| && Moved(s, m, i)
    ensures s[i].dib == 0 ==> Moved(s, m, i + 1)
    ensures s[i].dib > 0 ==> s[i].item.key !in m && Moved(s, m[s[i].item.key := s[i].item.val], i + 1)
  {
    if s[i].dib > 0 {
      var m' := m[s[i].item.key := s[i].item.val];
      forall k | k in m'
        ensures exists p: nat :: p < i + 1 && At(s, p, k) && s[p].item.val == m'[k]
      {
        if k == s[i].item.key {
          assert At(s, i, k);
        } else {
          var p: nat :| p < i && At(s, p, k) && s[p].item.val == m[k];
        }
      }
    }
  }

  lemma {:induction false} MovedSubset<K(!new), V(!new)>(s: Table<K, V>, all: map<K, V>, m: map<K, V>, i: nat)
    requires Holds(s, all) && i <= |s| && Moved(s, m, i)
    ensures forall k :: k in m ==> k in all && m[k] == all[k]
    ensures |m| <= |all|
    ensures i == |s| ==> m == all
  {
    forall k | k in m
      ensures k in all && m[k] == all[k]
    {
      var p: nat :| p < i && At(s, p, k) && s[p].item.val == m[k];
    }
    SubsetSize(m.Keys, all.Keys);
    assert |m.Keys| == |m| && |all.Keys| == |all|;
    if i == |s| {
      forall k | k in all
        ensures k in m
      {
        var p: nat :| At(s, p, k);
      }
      assert m.Keys == all.Keys;
    }
  }

  lemma {:induction false} EmptyRobin<K(!new), V(!new)>(s: Table<K, V>, hash: K -> nat)
    requires |s| > 0 && forall p: nat :: p < |s| ==> s[p].dib == 0
    ensures Robin(s, map[], hash)
  {
  }

  // An item in flight is never so far from home that its distance wraps.
  lemma {:induction false} BumpExact<K(!new), V(!new)>(s: Table<K, V>, m: map<K, V>, hash: K -> nat, e: Bucket<K, V>,
        i: nat)
    requires InFlight(s, m, hash, e, i) && |m| < DIB_RANGE - 1
    ensures e.dib < DIB_RANGE && Bump(e.dib - 1) == e.dib
  {
    InFlightRun(s, m, hash, e, i);
  }

  lemma {:induction false} FlightStart<K(!new), V(!new)>(s: Table<K, V>, m: map<K, V>, hash: K -> nat, e: Bucket<K, V>)
    requires Robin(s, m, hash) && e.dib == 1 && e.hash == hash(e.item.key)
    ensures InFlight(s, m, hash, e, Home(e.hash, |s|)) && NotBefore(s, e.item.key, hash, Home(e.hash, |s|))
  {
  }

  // A probe loop ends at an empty bucket ...
  lemma {:induction false} ProbeEnd<K(!new), V(!new)>(s: Table<K, V>, m: map<K, V>, hash: K -> nat, e: Bucket<K, V>,
        i: nat)
    requires InFlight(s, m, hash, e, i) && NotBefore(s, e.item.key, hash, i) && s[i].dib == 0
    ensures e.item.key !in m && Robin(s[i := e], m[e.item.key := e.item.val], hash)
  {
    AbsentAtGap(s, m, hash, e.item.key, i, e.dib);
    StepPlace(s, m, hash, e, i);
  }

  // ... or at a bucket with an equal key.
  lemma {:induction false} ProbeMatch<K(!new), V(!new)>(s: Table<K, V>, m: map<K, V>, hash: K -> nat, e: Bucket<K, V>,
        i: nat)
    requires InFlight(s, m, hash, e, i) && s[i].dib > 0 && s[i].item.key == e.item.key
    ensures e.item.key in m && s[i].item == Item(e.item.key, m[e.item.key])
    ensures Robin(s[i := s[i].(item := e.item)], m[e.item.key := e.item.val], hash)
  {
    StepReplace(s, m, hash, e.item, i);
  }

  // An item that the table does not hold never meets an equal key.
  lemma {:induction false} NewcomerUnmatched<K(!new), V(!new)>(s: Table<K, V>, m: map<K, V>, hash: K -> nat,
        e: Bucket<K, V>, i: nat)
    requires InFlight(s, m, hash, e, i) && e.item.key !in m
    ensures NotBefore(s, e.item.key, hash, i)
    ensures s[i].dib > 0 ==> s[i].item.key != e.item.key
  {
  }

  // One turn of a probe loop at an occupied bucket with another key: the item that is
  // further from home keeps the bucket, the other one goes on to the next.
  lemma {:induction false} ProbeStep<K(!new), V(!new)>(s: Table<K, V>, m: map<K, V>, hash: K -> nat, e: Bucket<K, V>,
        i: nat, z: nat)
      returns (s': Table<K, V>, m': map<K, V>, e': Bucket<K, V>)
    requires InFlight(s, m, hash, e, i) && NotBefore(s, e.item.key, hash, i)
    requires s[i].dib > 0 && !(s[i].hash == e.hash && s[i].item.key == e.item.key)
    requires z < |s| && s[z].dib == 0 && |m| < DIB_RANGE - 1
    ensures s' == if s[i].dib < e.dib then s[i := e] else s
    ensures e' == (if s[i].dib < e.dib then s[i] else e).(dib := Bump(if s[i].dib < e.dib then s[i].dib else e.dib))
    ensures |s'| == |s| && s'[z].dib == 0 && Dist(Next(i, |s|), z, |s|) < Dist(i, z, |s|)
    ensures InFlight(s', m', hash, e', Next(i, |s|)) && NotBefore(s', e'.item.key, hash, Next(i, |s|))
    ensures m'[e'.item.key := e'.item.val] == m[e.item.key := e.item.val] && |m'| == |m|
    ensures if s[i].dib < e.dib then e.item.key !in m && e'.item.key !in m' else m' == m
  {
    hide NotBefore, Holds, Ordered, Placed, Dist, Next, Home;
    PlacedAt(s, hash, i);
    if s[i].dib < e.dib {
      AbsentAtGap(s, m, hash, e.item.key, i, e.dib);
      StepSwap(s, m, hash, e, i, z);
      var b := s[i];
      s', m', e' := s[i := e], m[e.item.key := e.item.val] - {b.item.key}, b.(dib := b.dib + 1);
      SwapSize(m, e.item.key, e.item.val, b.item.key, b.item.val);
    } else {
      StepOver(s, m, hash, e, i, z);
      s', m', e' := s, m, e.(dib := e.dib + 1);
    }
    BumpExact(s', m', hash, e', Next(i, |s|));
  }

  lemma {:induction false} SwapSize<K(!new), V(!new)>(m: map<K, V>, k: K, v: V, k': K, v': V)
    requires k !in m && m[k := v] == (m[k := v] - {k'})[k' := v']
    ensures |m[k := v] - {k'}| == |m|
  {
    var m' := m[k := v] - {k'};
    assert k' in m[k := v];
    assert m'.Keys == m.Keys + {k} - {k'};
    assert |m'| == |m'.Keys| && |m| == |m.Keys|;
  }

  // The first bucket of a probe.
  lemma {:induction false} FindStart<K(!new), V(!new)>(s: Table<K, V>, k: K, hash: K -> nat, z: nat)
    requires |s| > 0 && z < |s|
    ensures var h := Home(hash(k), |s|); h < |s| && NotBefore(s, k, hash, h) && Dist(h, h, |s|) == 0
  {
  }

  lemma {:induction false} HoldsAll<K(!new), V(!new)>(s: Table<K, V>, m: map<K, V>, hash: K -> nat)
    requires Robin(s, m, hash)
    ensures |s| > 0 && Holds(s, m)
  {
  }

  // A bucket is that of a key exactly if it has its hash and the key.
  lemma {:induction false} Hit<K(!new), V(!new)>(s: Table<K, V>, m: map<K, V>, hash: K -> nat, i: nat, k: K)
    requires Robin(s, m, hash) && i < |s| && s[i].dib > 0
    ensures At(s, i, k) <==> s[i].hash == hash(k) && s[i].item.key == k
    ensures At(s, i, k) ==> k in m && s[i].item == Item(k, m[k])
  {
  }

  lemma {:induction false} BucketHolds<K(!new), V(!new)>(s: Table<K, V>, m: map<K, V>, hash: K -> nat, i: nat, k: K)
    requires Robin(s, m, hash) && At(s, i, k)
    ensures k in m
  {
  }

  lemma {:induction false} FindStep<K(!new), V(!new)>(s: Table<K, V>, k: K, hash: K -> nat, i: nat, z: nat)
    requires i < |s| && z < |s| && i != z && NotBefore(s, k, hash, i) && !At(s, i, k)
    requires var h := Home(hash(k), |s|); Dist(h, i, |s|) + Dist(i, z, |s|) == Dist(h, z, |s|)
    ensures NotBefore(s, k, hash, Next(i, |s|))
    ensures var h := Home(hash(k), |s|);
      Dist(h, Next(i, |s|), |s|) + Dist(Next(i, |s|), z, |s|) == Dist(h, z, |s|)
  {
  }

  lemma {:induction false} MovedSkip<K(!new), V(!new)>(s: Table<K, V>, m: map<K, V>, a: nat, b: nat)
    requires a <= b <= |s| && Moved(s, m, a)
    requires forall p: nat :: a <= p < b ==> s[p].dib == 0
    ensures Moved(s, m, b)
  {
    forall k | k in m
      ensures exists p: nat :: p < b && At(s, p, k) && s[p].item.val == m[k]
    {
      var p: nat :| p < a && At(s, p, k) && s[p].item.val == m[k];
    }
  }

  // The items of a map, each once.
  ghost predicate Lists<K(!new), V(!new)>(items: seq<Item<K, V>>, m: map<K, V>) {
    && |items| == |m|
    && (forall i, j :: 0 <= i < j < |items| ==> items[i].key != items[j].key)
    && (forall i :: 0 <= i < |items| ==> items[i].key in m && m[items[i].key] == items[i].val)
    && (forall k :: k in m ==> Item(k, m[k]) in items)
  }

  lemma {:induction false} ListsStart<K(!new), V(!new)>(s: Table<K, V>)
    ensures Moved(s, map[], 0) && Lists<K, V>([], map[])
  {
  }

  lemma {:induction false} ListsAdd<K(!new), V(!new)>(items: seq<Item<K, V>>, m: map<K, V>, it: Item<K, V>)
    requires Lists(items, m) && it.key !in m
    ensures Lists(items + [it], m[it.key := it.val])
  {
    var m' := m[it.key := it.val];
    var all := items + [it];
    forall k | k in m'
      ensures Item(k, m'[k]) in all
    {
      if k == it.key {
        assert all[|items|] == it;
      } else {
        assert Item(k, m[k]) in items;
      }
    }
  }

  lemma {:induction false} SoundParts<K, V>(st: State<K, V>)
    requires Sound(st)
    ensures IsPow2(st.nbuckets) && IsPow2(st.cap) && st.cap >= MIN_CAP && |st.contents| < st.nbuckets
    ensures st.nbuckets >= st.cap && st.shrinkat == Percent(st.nbuckets, SHRINK_AT) && Sound(st.(oom := false))
  {
  }

  // A percentage of n buckets is that of the default load factor.
  predicate AsDefault(n: nat, p: nat) {
    p == DEFAULT_LOAD_FACTOR || (n == 16 && 57 <= p <= 62) || (n == 32 && 60 <= p <= 62)
  }

  // After a resize the map grows at the default load factor, whatever factor was set. This
  // is the factor's own limit exactly if the two are rounded to the same number.
  lemma {:induction false} LoadFactorForgotten<K, V>(st: State<K, V>, percent: nat, newCap: nat)
    ensures var set_ := LoadFactorSpec(st, percent); var r := Resized(set_, newCap);
      && set_.growat == Percent(set_.nbuckets, set_.loadfactor) && r.loadfactor == Clamp(percent)
      && (r.growat == Percent(r.nbuckets, r.loadfactor) <==> AsDefault(r.nbuckets, r.loadfactor))
  {
    hide RoundCap;
    var n, p := RoundCap(newCap), Clamp(percent);
    RoundCapIsPow2(newCap);
    SizesOfTables(n);
    if n >= 100 && p != DEFAULT_LOAD_FACTOR {
      PercentsDiffer(n, p, DEFAULT_LOAD_FACTOR);
    }
  }

  // The bucket counts below 100.
  lemma {:induction false} SizesOfTables(n: nat)
    requires IsPow2(n) && n >= MIN_CAP
    ensures n == 16 || n == 32 || n == 64 || n >= 100
  {
    var k: nat :| n == Pow2(k);
    assert Pow2(3) == 8 && Pow2(4) == 16 && Pow2(5) == 32 && Pow2(6) == 64 && Pow2(7) == 128;
    if k <= 3 {
      Pow2Monotone(k, 3);
      assert false;
    } else if k >= 7 {
      Pow2Monotone(7, k);
    }
  }

  lemma {:induction false} PercentsDiffer(n: nat, p: nat, q: nat)
    requires n >= 100 && p != q
    ensures Percent(n, p) != Percent(n, q)
  {
    if p < q {
      PercentGrows(n, p, q);
    } else {
      PercentGrows(n, q, p);
    }
  }

  lemma {:induction false} PercentGrows(n: nat, p: nat, q: nat)
    requires n >= 100 && p < q
    ensures Percent(n, p) < Percent(n, q)
  {
    MulMono(p + 1, q, n);
    assert (p + 1) * n == n * p + n && q * n == n * q;
  }

  // One turn of an iteration.
  lemma {:induction false} ItemStep<K(!new), V(!new)>(s: Table<K, V>, all: map<K, V>, m: map<K, V>,
        items: seq<Item<K, V>>, cursor: nat, next: nat)
    requires Holds(s, all) && cursor < next <= |s| && Moved(s, m, cursor) && Lists(items, m)
    requires (forall p: nat :: cursor <= p < next - 1 ==> s[p].dib == 0) && s[next - 1].dib > 0
    ensures var it := s[next - 1].item; Moved(s, m[it.key := it.val], next) && Lists(items + [it], m[it.key := it.val])
  {
    hide Holds, Moved, Lists;
    MovedSkip(s, m, cursor, next - 1);
    MovedNext(s, all, m, next - 1);
    ListsAdd(items, m, s[next - 1].item);
  }

  lemma {:induction false} ItemsEnd<K(!new), V(!new)>(s: Table<K, V>, all: map<K, V>, m: map<K, V>, cursor: nat)
    requires Holds(s, all) && cursor <= |s| && Moved(s, m, cursor)
    requires forall p: nat :: cursor <= p < |s| ==> s[p].dib == 0
    ensures m == all
  {
    hide Holds, Moved;
    MovedSkip(s, m, cursor, |s|);
    MovedSubset(s, all, m, |s|);
  }

  class HashMap<K(==, 0, !new), V(0, !new)> {
    const hash: K -> nat
    var cap: nat
    var nbuckets: nat
    var count: nat
    var mask: nat
    var growat: nat
    var shrinkat: nat
    var loadfactor: nat
    var growpower: nat
    var oom: bool
    var buckets: array<Bucket<K, V>>
    ghost var Contents: map<K, V>

    ghost function Abs(): State<K, V>
      reads this
    {
      State(Contents, cap, nbuckets, growat, shrinkat, loadfactor, growpower, oom)
    }

    // Only the first nbuckets of the array are in use: a clear that cannot allocate keeps
    // the old, longer array.
    ghost predicate Valid()
      reads this, buckets
    {
      && Sound(Abs())
      && count == |Contents|
      && mask == nbuckets - 1
      && nbuckets <= buckets.Length
      && Robin(buckets[..nbuckets], Contents, Clipped(hash))
    }

    constructor (hash: K -> nat, cap0: nat)
      ensures Valid() && fresh(buckets)
      ensures this.hash == hash
      ensures Abs() == NewSpec(cap0)
      ensures Contents == map[] && cap == nbuckets && growat == nbuckets * 60 / 100 && shrinkat == nbuckets * 10 / 100
      ensures loadfactor == 60 && growpower == 1 && !oom
      ensures buckets.Length == nbuckets && forall i :: 0 <= i < nbuckets ==> buckets[i].dib == 0
    {
      var ncap := MIN_CAP;
      while ncap < cap0
        invariant ncap > 0 && Doubled(ncap, cap0) == RoundCap(cap0)
        decreases cap0 - ncap
      {
        ncap := ncap * 2;
      }
      var zero: Item<K, V> := *;
      this.hash := hash;
      cap := ncap;
      nbuckets := ncap;
      count := 0;
      mask := ncap - 1;
      buckets := new Bucket<K, V>[ncap](_ => Bucket(0, 0, zero));
      growpower := 1;
      loadfactor := DEFAULT_LOAD_FACTOR;
      growat := ncap * DEFAULT_LOAD_FACTOR / 100;
      shrinkat := ncap * SHRINK_AT / 100;
      oom := false;
      Contents := map[];
      new;
      NewSound<K, V>(cap0);
      EmptyRobin(buckets[..nbuckets], Clipped(hash));
    }

    // resize0: every item moves to a new array, the old array serving as scratch space.
    method Resize(newCap: nat, alloc: bool) returns (ok: bool)
      requires nbuckets <= buckets.Length && Robin(buckets[..nbuckets], Contents, Clipped(hash))
      requires |Contents| < RoundCap(newCap) && |Contents| < DIB_RANGE - 1
      modifies this`buckets, this`nbuckets, this`mask, this`growat, this`shrinkat, buckets
      ensures ok == alloc
      ensures !ok ==> buckets == old(buckets)
      ensures !ok ==> buckets[..] == old(buckets[..])
      ensures !ok ==> mask == old(mask)
      ensures !ok ==> Abs() == old(Abs())
      ensures ok ==> Abs() == Resized(old(Abs()), newCap) && mask == nbuckets - 1
      ensures ok ==> fresh(buckets) && nbuckets <= buckets.Length && Robin(buckets[..nbuckets], Contents, Clipped(hash))
    {
      if !alloc {
        return false;
      }
      var map2 := new HashMap(hash, newCap);
      RoundCapIsPow2(newCap);
      EmptyRobin(map2.buckets[..], Clipped(hash));
      Rehash(buckets, nbuckets, map2.buckets, map2.mask, Contents, Clipped(hash));
      Adopt(map2);
      return true;
    }

    // The map takes over the new map's array and limits.
    method Adopt(map2: HashMap<K, V>)
      requires map2 != this && map2.nbuckets == map2.buckets.Length
      modifies this`buckets, this`nbuckets, this`mask, this`growat, this`shrinkat
      ensures buckets == map2.buckets && nbuckets == map2.nbuckets && mask == map2.mask
      ensures growat == map2.growat && shrinkat == map2.shrinkat
      ensures buckets[..nbuckets] == buckets[..]
    {
      buckets := map2.buckets;
      nbuckets := map2.nbuckets;
      mask := map2.mask;
      growat := map2.growat;
      shrinkat := map2.shrinkat;
    }

    // The loop of resize0 over the old array.
    static method Rehash(a: array<Bucket<K, V>>, n: nat, b: array<Bucket<K, V>>, mask: nat, ghost all: map<K, V>,
          ghost hash: K -> nat)
      requires a != b && n <= a.Length && IsPow2(b.Length) && mask == b.Length - 1
      requires Robin(a[..n], all, hash) && Robin(b[..], map[], hash)
      requires |all| < b.Length && |all| < DIB_RANGE - 1
      modifies a, b
      ensures Robin(b[..], all, hash)
    {
      ghost var s0 := a[..n];
      ghost var m: map<K, V> := map[];
      for i := 0 to n
        invariant forall j :: i <= j < n ==> a[j] == s0[j]
        invariant Robin(b[..], m, hash) && Moved(s0, m, i)
      {
        MovedNext(s0, all, m, i);
        MovedSubset(s0, all, m, i);
        if a[i].dib != 0 {
          Reinsert(a, i, b, mask, m, hash);
          m := m[s0[i].item.key := s0[i].item.val];
        }
      }
      MovedSubset(s0, all, m, n);
    }

    // The inner loop of resize0: the item of bucket i of the old array finds a place in
    // the new one. Items it displaces travel on in the old array's bucket.
    static method Reinsert(a: array<Bucket<K, V>>, i: nat, b: array<Bucket<K, V>>, mask: nat, ghost m0: map<K, V>,
          ghost hash: K -> nat)
      requires a != b && i < a.Length && IsPow2(b.Length) && mask == b.Length - 1
      requires a[i].hash == hash(a[i].item.key) && a[i].item.key !in m0
      requires Robin(b[..], m0, hash) && |m0| < b.Length && |m0| < DIB_RANGE - 1
      modifies a, b
      ensures forall j :: 0 <= j < a.Length && j != i ==> a[j] == old(a[j])
      ensures Robin(b[..], m0[old(a[i].item.key) := old(a[i].item.val)], hash)
    {
      hide Placed, Ordered, Holds, InFlight, NotBefore;
      ghost var m := m0;
      ghost var z := EmptyExists(b[..], m0);
      a[i] := a[i].(dib := 1);
      var j: nat := Masked(a[i].hash, mask);
      FlightStart(b[..], m, hash, a[i]);
      while true
        invariant j < b.Length && b[z].dib == 0
        invariant InFlight(b[..], m, hash, a[i], j) && a[i].item.key !in m && |m| == |m0|
        invariant m[a[i].item.key := a[i].item.val] == m0[old(a[i].item.key) := old(a[i].item.val)]
        invariant forall l :: 0 <= l < a.Length && l != i ==> a[l] == old(a[l])
        decreases Dist(j, z, b.Length)
      {
        ghost var s := b[..];
        NewcomerUnmatched(s, m, hash, a[i], j);
        if b[j].dib == 0 {
          ProbeEnd(s, m, hash, a[i], j);
          assert s == b[..b.Length];
          Store(b, b.Length, j, a[i]);
          assert b[..] == b[..b.Length];
          break;
        }
        ghost var s', m', e' := ProbeStep(s, m, hash, a[i], j, z);
        if b[j].dib < a[i].dib {
          var spare := b[j];
          b[j] := a[i];
          a[i] := spare;
        }
        j := Advance(j, mask);
        a[i] := a[i].(dib := Bump(a[i].dib));
        assert b[..] == s' && a[i] == e';
        m := m';
      }
    }

    // memcpy into a bucket
    static method Store(a: array<Bucket<K, V>>, n: nat, i: nat, b: Bucket<K, V>)
      requires i < n <= a.Length
      modifies a
      ensures a[..n] == old(a[..n])[i := b]
      ensures a[i] == b && forall j :: 0 <= j < a.Length && j != i ==> a[j] == old(a[j])
    {
      a[i] := b;
    }

    // hash & mask
    static method Masked(h: nat, mask: nat) returns (i: nat)
      requires IsPow2(mask + 1)
      ensures i == Home(h, mask + 1)
    {
      ghost var k: nat :| mask + 1 == Pow2(k);
      AndMask(h, k);
      i := And(h, mask);
    }

    // (i + 1) & mask
    static method Advance(i: nat, mask: nat) returns (j: nat)
      requires IsPow2(mask + 1) && i <= mask
      ensures j == Next(i, mask + 1)
    {
      j := Masked(i + 1, mask);
      if i == mask {
        DivModUnique(i + 1, mask + 1, 1, 0);
      } else {
        DivModUnique(i + 1, mask + 1, 0, i + 1);
      }
    }

    // hashmap_set_with_hash. The caller's hash must agree with the map's hash function.
    method SetWithHash(item: Item<K, V>, h: nat, alloc: bool) returns (prev: Option<Item<K, V>>)
      requires Valid() && Clip(h) == Clip(hash(item.key)) && count < DIB_RANGE - 1
      modifies this, buckets
      ensures Valid() && (buckets == old(buckets) || fresh(buckets))
      ensures Abs() == SetSpec(old(Abs()), item, alloc)
      ensures oom <==> old(count) >= old(growat) && !alloc
      ensures Contents == if oom then old(Contents) else old(Contents)[item.key := item.val]
      ensures nbuckets == if old(count >= growat) && alloc then old(nbuckets * Pow2(growpower)) else old(nbuckets)
      ensures growat == if old(count >= growat) && alloc then nbuckets * 60 / 100 else old(growat)
      ensures cap == old(cap) && loadfactor == old(loadfactor) && growpower == old(growpower)
      ensures prev == if oom || item.key !in old(Contents) then None
                      else Some(Item(item.key, old(Contents)[item.key]))
    {
      hide Placed, Ordered, Holds;
      ghost var st := Abs();
      SetSound(st, item, alloc);
      SetBinds(st, item, alloc);
      oom := false;
      if count >= growat {
        GrownIsPow2(nbuckets, growpower);
        RoundCapExact(nbuckets * Pow2(growpower));
        var ok := Resize(nbuckets * Pow2(growpower), alloc);
        if !ok {
          oom := true;
          return None;
        }
      }
      prev := Insert(item, Clip(h));
    }

    // The probe loop of hashmap_set_with_hash.
    method Insert(item: Item<K, V>, h: nat) returns (prev: Option<Item<K, V>>)
      requires IsPow2(nbuckets) && mask == nbuckets - 1 && nbuckets <= buckets.Length
      requires Robin(buckets[..nbuckets], Contents, Clipped(hash)) && |Contents| < nbuckets
      requires count == |Contents| < DIB_RANGE - 1 && h == Clip(hash(item.key))
      modifies this`count, this`Contents, buckets
      ensures Robin(buckets[..nbuckets], Contents, Clipped(hash)) && count == |Contents|
      ensures Contents == old(Contents)[item.key := item.val]
      ensures prev == if item.key !in old(Contents) then None
                      else Some(Item(item.key, old(Contents)[item.key]))
    {
      hide Placed, Ordered, Holds, InFlight, NotBefore;
      var entry := Bucket(h, 1, item);
      var i: nat := Masked(h, mask);
      FlightStart(buckets[..nbuckets], Contents, Clipped(hash), entry);
      ghost var m := Contents;
      ghost var z := EmptyExists(buckets[..nbuckets], m);
      while true
        invariant i < nbuckets && buckets[z].dib == 0 && |m| == |Contents|
        invariant InFlight(buckets[..nbuckets], m, Clipped(hash), entry, i)
        invariant NotBefore(buckets[..nbuckets], entry.item.key, Clipped(hash), i)
        invariant m[entry.item.key := entry.item.val] == Contents[item.key := item.val]
        invariant (m == Contents && entry.item == item) || (entry.item.key !in m && item.key !in Contents)
        invariant count == |Contents| && Contents == old(Contents)
        decreases Dist(i, z, nbuckets)
        modifies this`count, this`Contents, buckets
      {
        ghost var s := buckets[..nbuckets];
        if buckets[i].dib == 0 {
          ProbeEnd(s, m, Clipped(hash), entry, i);
          Store(buckets, nbuckets, i, entry);
          count := count + 1;
          Contents := Contents[item.key := item.val];
          return None;
        }
        if entry.hash == buckets[i].hash && entry.item.key == buckets[i].item.key {
          ProbeMatch(s, m, Clipped(hash), entry, i);
          prev := Some(buckets[i].item);
          Store(buckets, nbuckets, i, buckets[i].(item := entry.item));
          Contents := Contents[item.key := item.val];
          return prev;
        }
        ghost var s', m', e' := ProbeStep(s, m, Clipped(hash), entry, i, z);
        if buckets[i].dib < entry.dib {
          var spare := buckets[i];
          Store(buckets, nbuckets, i, entry);
          entry := spare;
        }
        i := Advance(i, mask);
        entry := entry.(dib := Bump(entry.dib));
        assert buckets[..nbuckets] == s' && entry == e';
        m := m';
      }
    }

    method Set(item: Item<K, V>, alloc: bool) returns (prev: Option<Item<K, V>>)
      requires Valid() && count < DIB_RANGE - 1
      modifies this, buckets
      ensures Valid() && (buckets == old(buckets) || fresh(buckets))
      ensures Abs() == SetSpec(old(Abs()), item, alloc)
      ensures oom <==> old(count) >= old(growat) && !alloc
      ensures Contents == if oom then old(Contents) else old(Contents)[item.key := item.val]
      ensures nbuckets == if old(count >= growat) && alloc then old(nbuckets * Pow2(growpower)) else old(nbuckets)
      ensures growat == if old(count >= growat) && alloc then nbuckets * 60 / 100 else old(growat)
      ensures cap == old(cap) && loadfactor == old(loadfactor) && growpower == old(growpower)
      ensures prev == if oom || item.key !in old(Contents) then None
                      else Some(Item(item.key, old(Contents)[item.key]))
    {
      prev := SetWithHash(item, hash(item.key), alloc);
    }

    // The scan shared by hashmap_get_with_hash and hashmap_delete_with_hash.
    method Find(key: K, h: nat) returns (found: bool, i: nat)
      requires Valid() && h == Clip(hash(key))
      ensures found <==> key in Contents
      ensures found ==> i < nbuckets && At(buckets[..nbuckets], i, key) && buckets[i].item == Item(key, Contents[key])
    {
      hide Robin, Holds, NotBefore, At, Dist, Home, Sound, IsPow2;
      SoundParts(Abs());
      HoldsAll(buckets[..nbuckets], Contents, Clipped(hash));
      i := Masked(h, mask);
      ghost var s := buckets[..nbuckets];
      ghost var z := EmptyExists(s, Contents);
      FindStart(s, key, Clipped(hash), z);
      while buckets[i].dib != 0
        invariant i < nbuckets && NotBefore(s, key, Clipped(hash), i)
        invariant Dist(Home(h, nbuckets), i, nbuckets) + Dist(i, z, nbuckets) == Dist(Home(h, nbuckets), z, nbuckets)
        decreases Dist(i, z, nbuckets)
      {
        Hit(s, Contents, Clipped(hash), i, key);
        if buckets[i].hash == h && buckets[i].item.key == key {
          return true, i;
        }
        FindStep(s, key, Clipped(hash), i, z);
        NextNearer(i, z, nbuckets);
        i := Advance(i, mask);
      }
      AbsentAtGap(s, Contents, Clipped(hash), key, i, Dist(Home(h, nbuckets), i, nbuckets) + 1);
      found := false;
    }

    method GetWithHash(key: K, h: nat) returns (item: Option<Item<K, V>>)
      requires Valid() && Clip(h) == Clip(hash(key))
      ensures item == if key in Contents then Some(Item(key, Contents[key])) else None
    {
      var found, i := Find(key, Clip(h));
      item := if found then Some(buckets[i].item) else None;
    }

    method Get(key: K) returns (item: Option<Item<K, V>>)
      requires Valid()
      ensures item == if key in Contents then Some(Item(key, Contents[key])) else None
    {
      item := GetWithHash(key, hash(key));
    }

    // hashmap_delete_with_hash; alloc says whether a shrink would get its memory.
    method DeleteWithHash(key: K, h: nat, alloc: bool) returns (removed: Option<Item<K, V>>)
      requires Valid() && Clip(h) == Clip(hash(key)) && count < DIB_RANGE
      modifies this, buckets
      ensures Valid() && (buckets == old(buckets) || fresh(buckets))
      ensures Abs() == DeleteSpec(old(Abs()), key, alloc)
      ensures Contents == old(Contents) - {key} && !oom
      ensures var shrinks := key in old(Contents) && old(nbuckets > cap) && count <= old(shrinkat) && alloc;
        && nbuckets == (if shrinks then old(nbuckets) / 2 else old(nbuckets))
        && growat == (if shrinks then nbuckets * 60 / 100 else old(growat))
      ensures cap == old(cap) && loadfactor == old(loadfactor) && growpower == old(growpower)
      ensures removed == if key in old(Contents) then Some(Item(key, old(Contents)[key])) else None
    {
      hide Robin, Resized, Percent, Sound, IsPow2, Shrunk, DeleteSpec;
      ghost var st := Abs();
      DeleteSound(st, key, alloc);
      DeleteUnbinds(st, key, alloc);
      SoundParts(st);
      oom := false;
      assert Abs() == st.(oom := false);
      DeleteIs(st, key, alloc);
      var found, i := Find(key, Clip(h));
      if !found {
        return None;
      }
      removed := Some(buckets[i].item);
      DeleteAt(i, key, alloc);
    }

    // The part of hashmap_delete_with_hash behind the search: the item of bucket i goes.
    method DeleteAt(i: nat, key: K, alloc: bool)
      requires Valid() && At(buckets[..nbuckets], i, key) && !oom && count < DIB_RANGE
      modifies this, buckets
      ensures Valid() && (buckets == old(buckets) || fresh(buckets))
      ensures Abs() == Shrunk(Without(old(Abs()), key), alloc)
    {
      hide Robin, Resized, Percent, Sound, IsPow2, Shrunk;
      ghost var st := Abs();
      DeleteSound(st, key, alloc);
      SoundParts(st);
      assert key in Contents by { BucketHolds(buckets[..nbuckets], Contents, Clipped(hash), i, key); }
      ShiftBack(i, key);
      count := count - 1;
      assert Abs() == Without(st, key);
      Shrink(alloc);
    }

    // The end of hashmap_delete_with_hash: a failed shrink is no harm.
    method Shrink(alloc: bool)
      requires nbuckets <= buckets.Length && mask == nbuckets - 1 && count == |Contents| < DIB_RANGE - 1
      requires Robin(buckets[..nbuckets], Contents, Clipped(hash)) && count < nbuckets
      requires IsPow2(nbuckets) && IsPow2(cap) && cap >= MIN_CAP && shrinkat == Percent(nbuckets, SHRINK_AT)
      modifies this`buckets, this`nbuckets, this`mask, this`growat, this`shrinkat, buckets
      ensures Abs() == Shrunk(old(Abs()), alloc)
      ensures mask == nbuckets - 1 && nbuckets <= buckets.Length && (buckets == old(buckets) || fresh(buckets))
      ensures Robin(buckets[..nbuckets], Contents, Clipped(hash))
    {
      if nbuckets > cap && count <= shrinkat {
        HalfIsPow2(nbuckets, cap);
        RoundCapExact(nbuckets / 2);
        var ok := Resize(nbuckets / 2, alloc);
        if !ok {
          assert buckets[..nbuckets] == old(buckets[..nbuckets]);
        }
      }
    }

    // The backward shift of hashmap_delete_with_hash.
    method ShiftBack(start: nat, key: K)
      requires IsPow2(nbuckets) && mask == nbuckets - 1 && 2 < nbuckets <= buckets.Length
      requires Robin(buckets[..nbuckets], Contents, Clipped(hash)) && |Contents| < nbuckets
      requires At(buckets[..nbuckets], start, key)
      modifies this`Contents, buckets
      ensures Contents == old(Contents) - {key}
      ensures Robin(buckets[..nbuckets], Contents, Clipped(hash))
    {
      hide Shifting, Placed, Ordered, Holds, IsPow2;
      ghost var z := EmptyExists(buckets[..nbuckets], Contents);
      ShiftStart(buckets[..nbuckets], Contents, Clipped(hash), key, start);
      Contents := Contents - {key};
      Store(buckets, nbuckets, start, buckets[start].(dib := 0));
      var prev := ShiftRun(start, z);
      ShiftEnd(buckets[..nbuckets], Contents, Clipped(hash), prev);
      Store(buckets, nbuckets, prev, buckets[prev].(dib := 0));
    }

    // Buckets move into the hole until one is empty or at home.
    method ShiftRun(start: nat, ghost z: nat) returns (prev: nat)
      requires IsPow2(nbuckets) && mask == nbuckets - 1 && 2 < nbuckets <= buckets.Length && start < nbuckets
      requires z < nbuckets
      requires Shifting(buckets[..nbuckets], Contents, Clipped(hash), start) && buckets[z].dib == 0 && start != z
      modifies buckets
      ensures prev < nbuckets && buckets[Next(prev, nbuckets)].dib <= 1
      ensures Shifting(buckets[..nbuckets], Contents, Clipped(hash), prev)
    {
      hide Shifting, Dist, IsPow2;
      prev := start;
      var i: nat := Advance(prev, mask);
      while buckets[i].dib > 1
        invariant prev < nbuckets && i == Next(prev, nbuckets) && buckets[z].dib == 0 && prev != z
        invariant Shifting(buckets[..nbuckets], Contents, Clipped(hash), prev)
        decreases Dist(i, z, nbuckets)
        modifies buckets
      {
        ShiftStep(buckets[..nbuckets], Contents, Clipped(hash), prev);
        NextNearer(i, z, nbuckets);
        Store(buckets, nbuckets, prev, buckets[i].(dib := buckets[i].dib - 1));
        prev := i;
        i := Advance(i, mask);
      }
    }

    method Delete(key: K, alloc: bool) returns (removed: Option<Item<K, V>>)
      requires Valid() && count < DIB_RANGE
      modifies this, buckets
      ensures Valid() && (buckets == old(buckets) || fresh(buckets))
      ensures Abs() == DeleteSpec(old(Abs()), key, alloc)
      ensures Contents == old(Contents) - {key} && !oom
      ensures var shrinks := key in old(Contents) && old(nbuckets > cap) && count <= old(shrinkat) && alloc;
        && nbuckets == (if shrinks then old(nbuckets) / 2 else old(nbuckets))
        && growat == (if shrinks then nbuckets * 60 / 100 else old(growat))
      ensures cap == old(cap) && loadfactor == old(loadfactor) && growpower == old(growpower)
      ensures removed == if key in old(Contents) then Some(Item(key, old(Contents)[key])) else None
    {
      removed := DeleteWithHash(key, hash(key), alloc);
    }

    // hashmap_clear. When it cannot allocate the smaller array it keeps using the old one.
    method Clear(updateCap: bool, alloc: bool)
      requires Valid()
      modifies this, buckets
      ensures Valid() && (buckets == old(buckets) || fresh(buckets))
      ensures Abs() == ClearSpec(old(Abs()), updateCap)
      ensures Contents == map[] && nbuckets == cap == (if updateCap then old(nbuckets) else old(cap))
      ensures growat == nbuckets * loadfactor / 100 && loadfactor == old(loadfactor)
      ensures growpower == old(growpower) && oom == old(oom)
    {
      hide Robin, Percent, IsPow2, Sound;
      ghost var st := ClearSpec(Abs(), updateCap);
      SoundParts(Abs());
      ClearSound(Abs(), updateCap);
      ClearEmpties(Abs(), updateCap);
      count := 0;
      Contents := map[];
      SetBuckets(updateCap, alloc);
      Zero(buckets, nbuckets);
      EmptyRobin(buckets[..nbuckets], Clipped(hash));
      mask := nbuckets - 1;
      growat := Percent(nbuckets, loadfactor);
      shrinkat := Percent(nbuckets, SHRINK_AT);
      assert Abs() == st;
    }

    // The bucket array that is to be cleared: a smaller one if that can be had.
    method SetBuckets(updateCap: bool, alloc: bool)
      requires cap <= nbuckets <= buckets.Length && nbuckets > 0
      modifies this`cap, this`nbuckets, this`buckets
      ensures cap == (if updateCap then old(nbuckets) else old(cap)) && nbuckets == cap <= buckets.Length
      ensures buckets == old(buckets) || fresh(buckets)
    {
      if updateCap {
        cap := nbuckets;
      } else if nbuckets != cap {
        if alloc {
          var first := buckets[0];
          buckets := new Bucket<K, V>[cap](_ => first);
        }
        nbuckets := cap;
      }
    }

    // memset over the buckets
    static method Zero(a: array<Bucket<K, V>>, n: nat)
      requires n <= a.Length
      modifies a
      ensures forall p :: 0 <= p < n ==> a[p].dib == 0
    {
      for j := 0 to n
        invariant forall p :: 0 <= p < j ==> a[p].dib == 0
      {
        a[j] := a[j].(hash := 0, dib := 0);
      }
    }

    // hashmap_set_load_factor, the factor given as a percentage
    method SetLoadFactor(percent: nat)
      requires Valid()
      modifies this`loadfactor, this`growat
      ensures Valid() && Abs() == LoadFactorSpec(old(Abs()), percent)
      ensures 50 <= loadfactor <= 95 && growat == nbuckets * loadfactor / 100
      ensures (loadfactor < percent ==> loadfactor == 95) && (loadfactor > percent ==> loadfactor == 50)
    {
      loadfactor := Clamp(percent);
      PercentBelow(nbuckets, loadfactor);
      growat := nbuckets * loadfactor / 100;
    }

    method SetGrowByPower(power: nat)
      requires Valid()
      modifies this`growpower
      ensures Valid() && Abs() == GrowPowerSpec(old(Abs()), power)
      ensures 1 <= growpower <= 16 && (growpower < power ==> growpower == 16) && (growpower > power ==> growpower == 1)
    {
      growpower := if power < 1 then 1 else if power > 16 then 16 else power;
    }

    // hashmap_iter: the next item at or after the cursor, and where to go on from.
    method Iter(cursor: nat) returns (next: nat, item: Option<Item<K, V>>)
      requires Valid()
      ensures cursor <= next && (item.Some? ==> cursor < next <= nbuckets)
      ensures item.None? ==> next >= nbuckets
      ensures forall p: nat :: cursor <= p < next && p < nbuckets && (item.None? || p < next - 1) ==>
        buckets[p].dib == 0
      ensures item.Some? ==> buckets[next - 1].dib > 0 && item.value == buckets[next - 1].item
    {
      next := cursor;
      while next < nbuckets
        invariant cursor <= next
        invariant forall p: nat :: cursor <= p < next && p < nbuckets ==> buckets[p].dib == 0
      {
        next := next + 1;
        if buckets[next - 1].dib > 0 {
          return next, Some(buckets[next - 1].item);
        }
      }
      item := None;
    }

    // The iteration idiom of the map's users: every item is visited, and visited once.
    method Items() returns (items: seq<Item<K, V>>)
      requires Valid()
      ensures Lists(items, Contents)
    {
      hide Placed, Ordered, Holds, Moved, Lists, Sound;
      items := [];
      ghost var s := buckets[..nbuckets];
      ghost var m: map<K, V> := map[];
      ListsStart(s);
      var cursor := 0;
      while true
        invariant cursor <= nbuckets && Moved(s, m, cursor) && Lists(items, m)
        decreases nbuckets - cursor
      {
        var next, item := Iter(cursor);
        if item.None? {
          ItemsEnd(s, Contents, m, cursor);
          break;
        }
        ItemStep(s, Contents, m, items, cursor, next);
        m := m[item.value.key := item.value.val];
        items := items + [item.value];
        cursor := next;
      }
    }
  }

  // ---------- whole runs ----------

  datatype Op<K, V> =
    | Put(item: Item<K, V>, alloc: bool)
    | Drop(key: K, alloc: bool)
    | Wipe(updateCap: bool)
    | Factor(percent: nat)
    | Power(power: nat)

  function Apply<K, V>(st: State<K, V>, op: Op<K, V>): State<K, V> {
    match op
    case Put(item, alloc) => SetSpec(st, item, alloc)
    case Drop(key, alloc) => DeleteSpec(st, key, alloc)
    case Wipe(updateCap) => ClearSpec(st, updateCap)
    case Factor(percent) => LoadFactorSpec(st, percent)
    case Power(power) => GrowPowerSpec(st, power)
  }

  function Run<K, V>(st: State<K, V>, ops: seq<Op<K, V>>): State<K, V>
    decreases |ops|
  {
    if ops == [] then st else Run(Apply(st, ops[0]), ops[1..])
  }

  // Whatever is done to a new map, it stays sound.
  lemma {:induction false} RunSound<K, V>(st: State<K, V>, ops: seq<Op<K, V>>)
    requires Sound(st)
    ensures Sound(Run(st, ops))
    decreases |ops|
  {
    if ops == [] {
    } else {
      match ops[0] {
        case Put(item, alloc) => SetSound(st, item, alloc);
        case Drop(key, alloc) => DeleteSound(st, key, alloc);
        case Wipe(updateCap) => ClearSound(st, updateCap);
        case Factor(percent) => PercentBelow(st.nbuckets, Clamp(percent));
        case Power(power) =>
      }
      RunSound(Apply(st, ops[0]), ops[1..]);
    }
  }

  // What an operation does to a map that only has contents.
  function Bind<K, V>(m: map<K, V>, op: Op<K, V>): map<K, V> {
    match op
    case Put(item, _) => m[item.key := item.val]
    case Drop(key, _) => m - {key}
    case Wipe(_) => map[]
    case _ => m
  }

  function Fold<K, V>(m: map<K, V>, ops: seq<Op<K, V>>): map<K, V>
    decreases |ops|
  {
    if ops == [] then m else Fold(Bind(m, ops[0]), ops[1..])
  }

  // A put for which the map has to grow, and cannot.
  predicate Refused<K, V>(st: State<K, V>, op: Op<K, V>) {
    op.Put? && |st.contents| >= st.growat && !op.alloc
  }

  // The operations of a run that are not refused.
  function Done<K, V>(st: State<K, V>, ops: seq<Op<K, V>>): seq<Op<K, V>>
    decreases |ops|
  {
    if ops == [] then []
    else (if Refused(st, ops[0]) then [] else [ops[0]]) + Done(Apply(st, ops[0]), ops[1..])
  }

  lemma {:induction false} ApplyBinds<K, V>(st: State<K, V>, op: Op<K, V>)
    requires Sound(st)
    ensures Apply(st, op).contents == if Refused(st, op) then st.contents else Bind(st.contents, op)
    ensures Sound(Apply(st, op))
  {
    assert Run(st, [op]) == Apply(st, op) by { RunOne(st, op); }
    RunSound(st, [op]);
    match op {
      case Put(item, alloc) => SetBinds(st, item, alloc);
      case Drop(key, alloc) => DeleteUnbinds(st, key, alloc);
      case _ =>
    }
  }

  // Growing, shrinking and the limits never show: a run leaves what its operations leave, one
  // after the other, in a plain map. A put that is refused leaves the map alone.
  lemma {:induction false} RunIsFold<K, V>(st: State<K, V>, ops: seq<Op<K, V>>)
    requires Sound(st)
    ensures Run(st, ops).contents == Fold(st.contents, Done(st, ops))
    decreases |ops|
  {
    if ops != [] {
      var op, rest := ops[0], Done(Apply(st, ops[0]), ops[1..]);
      ApplyBinds(st, op);
      RunIsFold(Apply(st, op), ops[1..]);
      if Refused(st, op) {
        assert Done(st, ops) == rest;
      } else {
        assert ([op] + rest)[1..] == rest;
      }
    }
  }

  // With memory at hand nothing is refused.
  lemma {:induction false} NoneRefused<K, V>(st: State<K, V>, ops: seq<Op<K, V>>)
    requires forall i: nat :: i < |ops| && ops[i].Put? ==> ops[i].alloc
    ensures Done(st, ops) == ops
    decreases |ops|
  {
    if ops != [] {
      NoneRefused(Apply(st, ops[0]), ops[1..]);
      assert [ops[0]] + ops[1..] == ops;
    }
  }

  predicate Touches<K(==), V>(op: Op<K, V>, k: K) {
    op.Wipe? || (op.Put? && op.item.key == k) || (op.Drop? && op.key == k)
  }

  // The last operation on a key decides: it is bound exactly if that was a put, and to its value.
  lemma {:induction false} LastDecides<K, V>(m: map<K, V>, ops: seq<Op<K, V>>, k: K, last: nat)
    requires last < |ops| && Touches(ops[last], k)
    requires forall i: nat :: last < i < |ops| ==> !Touches(ops[i], k)
    ensures var r := Fold(m, ops); (k in r <==> ops[last].Put?) && (k in r ==> r[k] == ops[last].item.val)
    decreases |ops|
  {
    if last == 0 {
      Untouched(Bind(m, ops[0]), ops[1..], k);
    } else {
      LastDecides(Bind(m, ops[0]), ops[1..], k, last - 1);
    }
  }

  lemma {:induction false} Untouched<K, V>(m: map<K, V>, ops: seq<Op<K, V>>, k: K)
    requires forall i: nat :: i < |ops| ==> !Touches(ops[i], k)
    ensures var r := Fold(m, ops); (k in r <==> k in m) && (k in r ==> r[k] == m[k])
    decreases |ops|
  {
    if ops != [] {
      Untouched(Bind(m, ops[0]), ops[1..], k);
    }
  }

  // Thirteen items, one after the other.
  function Puts(k: nat): (ops: seq<Op<nat, nat>>)
    ensures |ops| == k && forall i: nat :: i < k ==> ops[i] == Put(Item(i, i), true)
  {
    seq(k, i requires 0 <= i < k => Put(Item(i, i), true))
  }

  lemma {:induction false} RunConcat<K, V>(st: State<K, V>, a: seq<Op<K, V>>, b: seq<Op<K, V>>)
    ensures Run(st, a + b) == Run(Run(st, a), b)
    decreases |a|
  {
    if a == [] {
      assert a + b == b;
    } else {
      assert (a + b)[1..] == a[1..] + b;
      RunConcat(Apply(st, a[0]), a[1..], b);
    }
  }

  // The keys below k.
  ghost predicate Below(m: map<nat, nat>, k: nat) {
    |m| == k && forall i :: i in m <==> 0 <= i < k
  }

  // An item that fits changes nothing but the contents.
  lemma {:induction false} PutFits(st: State<nat, nat>, k: nat)
    requires Below(st.contents, k) && k < st.growat && !st.oom
    ensures var r := Apply(st, Put(Item(k, k), true)); r == st.(contents := r.contents) && Below(r.contents, k + 1)
  {
    var m := st.contents[k := k];
    assert m.Keys == st.contents.Keys + {k} && |m.Keys| == |m| && |st.contents.Keys| == |st.contents|;
  }

  lemma {:induction false} RunOne<K, V>(st: State<K, V>, op: Op<K, V>)
    ensures Run(st, [op]) == Apply(st, op)
  {
    assert [op][1..] == [];
  }

  lemma {:induction false} PutsFit(st: State<nat, nat>, k: nat)
    requires st.contents == map[] && k <= st.growat && !st.oom
    ensures var r := Run(st, Puts(k)); r == st.(contents := r.contents) && Below(r.contents, k)
    decreases k
  {
    hide Apply, Below;
    if k == 0 {
      assert Below(map[], 0) by { NoneBelow(); }
    } else {
      PutsFit(st, k - 1);
      var last := Put(Item(k - 1, k - 1), true);
      assert Puts(k) == Puts(k - 1) + [last];
      RunConcat(st, Puts(k - 1), [last]);
      RunOne(Run(st, Puts(k - 1)), last);
      PutFits(Run(st, Puts(k - 1)), k - 1);
    }
  }

  lemma {:induction false} NoneBelow()
    ensures Below(map[], 0)
  {
  }

  // The item that is one too many makes the map grow.
  lemma {:induction false} PutGrows(st: State<nat, nat>, k: nat)
    requires Below(st.contents, k) && k == st.growat && st.nbuckets == 16 && st.growpower == 1
    ensures var r := Apply(st, Put(Item(k, k), true));
      r.nbuckets == 32 && r.loadfactor == st.loadfactor && r.growat == 19
  {
    assert Pow2(1) == 2 && Pow2(5) == 32;
    RoundCapExact(32);
  }

  // A new map with load factor 75 is to grow at 12 of 16 items. It does with the thirteenth,
  // and is from then on to grow at 19 of 32 items, which is 60%, instead of at 24.
  lemma {:induction false} LoadFactorForgottenInRun()
    ensures var r := Run(NewSpec<nat, nat>(0), [Factor(75)] + Puts(13));
      r.nbuckets == 32 && r.loadfactor == 75 && r.growat == 19 && Percent(32, 75) == 24
  {
    var st := Apply(NewSpec<nat, nat>(0), Factor(75));
    assert st == State(map[], 16, 16, 12, 1, 75, 1, false);
    AfterThirteen(st);
    assert ([Factor(75)] + Puts(13))[1..] == Puts(13);
  }

  lemma {:induction false} AfterThirteen(st: State<nat, nat>)
    requires st == State(map[], 16, 16, 12, 1, 75, 1, false)
    ensures var r := Run(st, Puts(13)); r.nbuckets == 32 && r.loadfactor == 75 && r.growat == 19
  {
    hide Run, Apply, Below;
    var last := Put(Item(12, 12), true);
    PutsFit(st, 12);
    assert Puts(13) == Puts(12) + [last];
    RunConcat(st, Puts(12), [last]);
    RunOne(Run(st, Puts(12)), last);
    PutGrows(Run(st, Puts(12)), 12);
  }
}
