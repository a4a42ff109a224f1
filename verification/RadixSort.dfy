// tdefl_radix_sort_syms of shared/thirdparty/miniz/miniz.c: a two-pass radix sort by 16-bit key.
module RadixSort {
  import opened HuffmanTree

  const RADIX: nat := 256

  function Digit(x: SymFreq, pass: nat): (d: nat)
    ensures d < RADIX
  {
    (if pass == 0 then x.key else x.key / RADIX) % RADIX
  }

  // The entries with digit d, in order.
  function Filter(s: seq<SymFreq>, pass: nat, d: nat): seq<SymFreq> {
    if s == [] then []
    else Filter(s[..|s| - 1], pass, d) + (if Digit(s[|s| - 1], pass) == d then [s[|s| - 1]] else [])
  }

  // The entries with digits below d, by digit.
  function Bucketed(s: seq<SymFreq>, pass: nat, d: nat): seq<SymFreq> {
    if d == 0 then [] else Bucketed(s, pass, d - 1) + Filter(s, pass, d - 1)
  }

  ghost predicate SortedByDigit(s: seq<SymFreq>, pass: nat) {
    forall i, j :: 0 <= i < j < |s| ==> Digit(s[i], pass) <= Digit(s[j], pass)
  }

  ghost predicate SortedByKey(s: seq<SymFreq>) {
    forall i, j :: 0 <= i < j < |s| ==> s[i].key <= s[j].key
  }

  lemma {:induction false} FilterDigit(s: seq<SymFreq>, pass: nat, d: nat)
    ensures forall i :: 0 <= i < |Filter(s, pass, d)| ==> Digit(Filter(s, pass, d)[i], pass) == d
    ensures forall i :: 0 <= i < |Filter(s, pass, d)| ==> Filter(s, pass, d)[i] in s
    ensures |Filter(s, pass, d)| <= |s|
  {
    if s != [] {
      FilterDigit(s[..|s| - 1], pass, d);
      assert s == s[..|s| - 1] + [s[|s| - 1]];
    }
  }

  // Filtering keeps an order by another digit.
  lemma {:induction false} FilterSorted(s: seq<SymFreq>, pass: nat, d: nat, other: nat)
    requires SortedByDigit(s, other)
    ensures SortedByDigit(Filter(s, pass, d), other)
  {
    if s != [] {
      var r := s[..|s| - 1];
      FilterSorted(r, pass, d, other);
      FilterDigit(r, pass, d);
      forall i | 0 <= i < |Filter(r, pass, d)|
        ensures Digit(Filter(r, pass, d)[i], other) <= Digit(s[|s| - 1], other)
      {
        var j :| 0 <= j < |r| && r[j] == Filter(r, pass, d)[i];
      }
    }
  }

  lemma {:induction false} BucketedDigits(s: seq<SymFreq>, pass: nat, d: nat)
    ensures forall i :: 0 <= i < |Bucketed(s, pass, d)| ==> Digit(Bucketed(s, pass, d)[i], pass) < d
    ensures SortedByDigit(Bucketed(s, pass, d), pass)
  {
    if d > 0 {
      BucketedDigits(s, pass, d - 1);
      FilterDigit(s, pass, d - 1);
    }
  }

  // A second pass, by the high digit, orders entries sorted by the low digit completely.
  lemma {:induction false} BucketedSorted(s: seq<SymFreq>, d: nat)
    requires SortedByDigit(s, 0) && forall i :: 0 <= i < |s| ==> s[i].key < KEY_RANGE
    ensures SortedByKey(Bucketed(s, 1, d))
    ensures forall i :: 0 <= i < |Bucketed(s, 1, d)| ==> Bucketed(s, 1, d)[i].key < KEY_RANGE
  {
    hide Digit, Filter;
    if d > 0 {
      BucketedSorted(s, d - 1);
      BucketedDigits(s, 1, d - 1);
      FilterDigit(s, 1, d - 1);
      FilterSorted(s, 1, d - 1, 0);
      var a, b := Bucketed(s, 1, d - 1), Filter(s, 1, d - 1);
      forall i | 0 <= i < |b|
        ensures b[i].key < KEY_RANGE && b[i].key == (d - 1) * RADIX + Digit(b[i], 0)
      {
        var j :| 0 <= j < |s| && s[j] == b[i];
        KeyOfDigits(b[i]);
      }
      forall i | 0 <= i < |a|
        ensures a[i].key < (d - 1) * RADIX
      {
        KeyOfDigits(a[i]);
      }
    }
  }

  lemma {:induction false} KeyOfDigits(x: SymFreq)
    requires x.key < KEY_RANGE
    ensures x.key == Digit(x, 1) * RADIX + Digit(x, 0)
  {
  }

  lemma {:induction false} BucketedSnoc(s: seq<SymFreq>, pass: nat, x: SymFreq, d: nat)
    ensures multiset(Bucketed(s + [x], pass, d)) ==
            multiset(Bucketed(s, pass, d)) + (if Digit(x, pass) < d then multiset{x} else multiset{})
  {
    hide Digit, Filter;
    if d > 0 {
      BucketedSnoc(s, pass, x, d - 1);
      FilterSnoc(s, pass, x, d - 1);
      var a, f := Bucketed(s, pass, d - 1), Filter(s, pass, d - 1);
      var a', f' := Bucketed(s + [x], pass, d - 1), Filter(s + [x], pass, d - 1);
      assert Bucketed(s, pass, d) == a + f && Bucketed(s + [x], pass, d) == a' + f';
      SnocStep(a, f, a', f', x, Digit(x, pass) < d - 1, Digit(x, pass) == d - 1);
    }
  }

  lemma {:induction false} SnocStep(a: seq<SymFreq>, f: seq<SymFreq>, a': seq<SymFreq>, f': seq<SymFreq>, x: SymFreq,
        below: bool, here: bool)
    requires multiset(a') == multiset(a) + (if below then multiset{x} else multiset{})
    requires f' == f + (if here then [x] else []) && !(below && here)
    ensures multiset(a' + f') == multiset(a + f) + (if below || here then multiset{x} else multiset{})
  {
    MultisetConcat(a, f);
    MultisetConcat(a', f');
    MultisetConcat(f, [x]);
    assert f + [] == f;
  }

  lemma {:induction false} MultisetConcat(a: seq<SymFreq>, b: seq<SymFreq>)
    ensures multiset(a + b) == multiset(a) + multiset(b)
  {
  }

  lemma {:induction false} FilterSnoc(s: seq<SymFreq>, pass: nat, x: SymFreq, d: nat)
    ensures Filter(s + [x], pass, d) == Filter(s, pass, d) + (if Digit(x, pass) == d then [x] else [])
  {
    assert (s + [x])[..|s|] == s;
  }

  // A pass loses and duplicates nothing.
  lemma {:induction false} BucketedPermutes(s: seq<SymFreq>, pass: nat)
    ensures multiset(Bucketed(s, pass, RADIX)) == multiset(s) && |Bucketed(s, pass, RADIX)| == |s|
  {
    if s == [] {
      EmptyBuckets(pass, RADIX);
    } else {
      var r := s[..|s| - 1];
      assert s == r + [s[|s| - 1]];
      BucketedPermutes(r, pass);
      BucketedSnoc(r, pass, s[|s| - 1], RADIX);
      MultisetConcat(r, [s[|s| - 1]]);
      assert |multiset(Bucketed(s, pass, RADIX))| == |Bucketed(s, pass, RADIX)|;
      assert |multiset(s)| == |s|;
    }
  }

  // ---------- equal keys ----------

  // The entries with this key, in order.
  function WithKey(s: seq<SymFreq>, key: nat): seq<SymFreq> {
    if s == [] then [] else WithKey(s[..|s| - 1], key) + (if s[|s| - 1].key == key then [s[|s| - 1]] else [])
  }

  lemma {:induction false} WithKeyConcat(s: seq<SymFreq>, t: seq<SymFreq>, key: nat)
    ensures WithKey(s + t, key) == WithKey(s, key) + WithKey(t, key)
    decreases |t|
  {
    if t == [] {
      assert s + t == s;
    } else {
      assert (s + t)[..|s + t| - 1] == s + t[..|t| - 1];
      WithKeyConcat(s, t[..|t| - 1], key);
    }
  }

  lemma {:induction false} FilterKeeps(s: seq<SymFreq>, pass: nat, d: nat, key: nat)
    ensures WithKey(Filter(s, pass, d), key) == if Digit(SymFreq(key, 0), pass) == d then WithKey(s, key) else []
  {
    if s != [] {
      var r, x := s[..|s| - 1], s[|s| - 1];
      FilterKeeps(r, pass, d, key);
      WithKeyConcat(Filter(r, pass, d), if Digit(x, pass) == d then [x] else [], key);
      assert [x][..0] == [];
    }
  }

  // A pass leaves entries with equal keys in order.
  lemma {:induction false} BucketedKeeps(s: seq<SymFreq>, pass: nat, d: nat, key: nat)
    ensures WithKey(Bucketed(s, pass, d), key) == if Digit(SymFreq(key, 0), pass) < d then WithKey(s, key) else []
  {
    hide Digit, WithKey;
    if d == 0 {
      NoneWithKey(key);
    } else {
      BucketedKeeps(s, pass, d - 1, key);
      FilterKeeps(s, pass, d - 1, key);
      WithKeyConcat(Bucketed(s, pass, d - 1), Filter(s, pass, d - 1), key);
    }
  }

  lemma {:induction false} NoneWithKey(key: nat)
    ensures WithKey([], key) == []
  {
  }

  ghost predicate Stable(s: seq<SymFreq>, t: seq<SymFreq>) {
    forall key: nat :: WithKey(t, key) == WithKey(s, key)
  }

  lemma {:induction false} PassIsStable(s: seq<SymFreq>, pass: nat)
    ensures Stable(s, Bucketed(s, pass, RADIX))
  {
    hide Bucketed, WithKey;
    forall key: nat
      ensures WithKey(Bucketed(s, pass, RADIX), key) == WithKey(s, key)
    {
      BucketedKeeps(s, pass, RADIX, key);
    }
  }

  ghost predicate InSymbolOrder(s: seq<SymFreq>) {
    forall i, j :: 0 <= i < j < |s| ==> s[i].sym < s[j].sym
  }

  // Entries with equal keys are in symbol order.
  ghost predicate TiesAscend(s: seq<SymFreq>) {
    forall i, j :: 0 <= i < j < |s| && s[i].key == s[j].key ==> s[i].sym < s[j].sym
  }

  lemma {:induction false} WithKeyPlace(s: seq<SymFreq>, i: nat) returns (p: nat)
    requires i < |s|
    ensures p < |WithKey(s, s[i].key)| && WithKey(s, s[i].key)[p] == s[i]
    ensures p == |WithKey(s[..i], s[i].key)|
    decreases |s|
  {
    var n := |s| - 1;
    if i < n {
      p := WithKeyPlace(s[..n], i);
      assert s[..n][..i] == s[..i];
    } else {
      p := |WithKey(s[..n], s[n].key)|;
    }
  }

  lemma {:induction false} WithKeyGrows(s: seq<SymFreq>, i: nat, j: nat, key: nat)
    requires i <= j <= |s|
    ensures |WithKey(s[..i], key)| <= |WithKey(s[..j], key)|
    decreases j
  {
    if i < j {
      assert s[..j][..j - 1] == s[..j - 1];
      WithKeyGrows(s, i, j - 1, key);
    }
  }

  lemma {:induction false} WithKeyAscends(s: seq<SymFreq>, key: nat)
    requires InSymbolOrder(s)
    ensures InSymbolOrder(WithKey(s, key)) && forall x :: x in WithKey(s, key) ==> x in s
  {
    if s != [] {
      var n := |s| - 1;
      WithKeyAscends(s[..n], key);
      assert s == s[..n] + [s[n]];
      forall x | x in WithKey(s[..n], key)
        ensures x.sym < s[n].sym
      {
        var i :| 0 <= i < n && s[..n][i] == x;
      }
    }
  }

  // So if all entries were in symbol order, those with equal keys still are.
  lemma {:induction false} StableTies(s: seq<SymFreq>, t: seq<SymFreq>)
    requires InSymbolOrder(s) && Stable(s, t)
    ensures TiesAscend(t)
  {
    hide WithKey;
    forall i, j | 0 <= i < j < |t| && t[i].key == t[j].key
      ensures t[i].sym < t[j].sym
    {
      var key := t[i].key;
      var p := WithKeyPlace(t, i);
      var q := WithKeyPlace(t, j);
      LaterPlace(t, i, j);
      WithKeyAscends(s, key);
      assert WithKey(t, key) == WithKey(s, key);
      assert WithKey(s, key)[p].sym < WithKey(s, key)[q].sym;
    }
  }

  lemma {:induction false} LaterPlace(t: seq<SymFreq>, i: nat, j: nat)
    requires i < j < |t| && t[i].key == t[j].key
    ensures |WithKey(t[..i], t[i].key)| < |WithKey(t[..j], t[i].key)|
  {
    assert t[..i + 1][..i] == t[..i];
    WithKeyGrows(t, i + 1, j, t[i].key);
  }

  lemma {:induction false} EmptyBuckets(pass: nat, d: nat)
    ensures Bucketed([], pass, d) == []
  {
    if d > 0 {
      EmptyBuckets(pass, d - 1);
    }
  }

  lemma {:induction false} BucketEnds(s: seq<SymFreq>, pass: nat, d: nat, e: nat)
    requires d <= e
    ensures Bucketed(s, pass, d) <= Bucketed(s, pass, e)
    ensures d < e ==> |Bucketed(s, pass, d)| + |Filter(s, pass, d)| <= |Bucketed(s, pass, e)|
    decreases e
  {
    if d < e {
      BucketEnds(s, pass, d, e - 1);
    }
  }

  // A prefix of the entries fills a prefix of each bucket.
  lemma {:induction false} FilterPrefix(s: seq<SymFreq>, pass: nat, d: nat, i: nat)
    requires i <= |s|
    ensures Filter(s[..i], pass, d) <= Filter(s, pass, d)
    ensures i < |s| && Digit(s[i], pass) == d ==> |Filter(s[..i], pass, d)| < |Filter(s, pass, d)|
    decreases |s|
  {
    if i == |s| {
      assert s[..i] == s;
    } else {
      assert s[..|s| - 1][..i] == s[..i];
      FilterPrefix(s[..|s| - 1], pass, d, i);
    }
  }

  // Bucket d of the output, as far as the first i entries fill it.
  ghost predicate Filled(s: seq<SymFreq>, t: seq<SymFreq>, pass: nat, i: nat, d: nat)
    requires i <= |s| <= |t|
  {
    var from := |Bucketed(s, pass, d)|;
    var part := Filter(s[..i], pass, d);
    from + |part| <= |s| && t[from..from + |part|] == part
  }

  ghost predicate Filling(s: seq<SymFreq>, t: seq<SymFreq>, pass: nat, i: nat)
    requires i <= |s| <= |t|
  {
    forall d: nat :: d < RADIX ==> Filled(s, t, pass, i, d)
  }

  // Where entry i goes.
  ghost function Slot(s: seq<SymFreq>, pass: nat, i: nat): nat
    requires i < |s|
  {
    |Bucketed(s, pass, Digit(s[i], pass))| + |Filter(s[..i], pass, Digit(s[i], pass))|
  }

  lemma {:induction false} FilterNext(s: seq<SymFreq>, pass: nat, i: nat, d: nat)
    requires i < |s|
    ensures Filter(s[..i + 1], pass, d) == Filter(s[..i], pass, d) + (if Digit(s[i], pass) == d then [s[i]] else [])
  {
    assert s[..i + 1] == s[..i] + [s[i]];
    FilterSnoc(s[..i], pass, s[i], d);
  }

  // The slot of entry i is just behind its own bucket's part, and in no other bucket.
  lemma {:induction false} SlotApart(s: seq<SymFreq>, pass: nat, i: nat, d: nat)
    requires i < |s| && d < RADIX
    ensures Slot(s, pass, i) < |s|
    ensures d < Digit(s[i], pass) ==> |Bucketed(s, pass, d)| + |Filter(s[..i], pass, d)| <= Slot(s, pass, i)
    ensures d > Digit(s[i], pass) ==> Slot(s, pass, i) < |Bucketed(s, pass, d)|
  {
    var e := Digit(s[i], pass);
    BucketedPermutes(s, pass);
    BucketEnds(s, pass, e, RADIX);
    FilterPrefix(s, pass, e, i);
    FilterPrefix(s, pass, d, i);
    if d < e {
      BucketEnds(s, pass, d, e);
    } else if e < d {
      BucketEnds(s, pass, e, d);
    }
  }

  lemma {:induction false} FilledStep(s: seq<SymFreq>, t: seq<SymFreq>, pass: nat, i: nat, d: nat)
    requires i < |s| <= |t| && d < RADIX && Filled(s, t, pass, i, d)
    ensures Slot(s, pass, i) < |s| && Filled(s, t[Slot(s, pass, i) := s[i]], pass, i + 1, d)
  {
    SlotApart(s, pass, i, d);
    FilterNext(s, pass, i, d);
    var from := |Bucketed(s, pass, d)|;
    var part := Filter(s[..i], pass, d);
    var u := t[Slot(s, pass, i) := s[i]];
    assert u[from..from + |part|] == part;
    if d == Digit(s[i], pass) {
      assert u[from..from + |part| + 1] == part + [s[i]];
    }
  }

  lemma {:induction false} FillingStep(s: seq<SymFreq>, t: seq<SymFreq>, pass: nat, i: nat)
    requires i < |s| <= |t| && Filling(s, t, pass, i)
    ensures Slot(s, pass, i) < |s| && Filling(s, t[Slot(s, pass, i) := s[i]], pass, i + 1)
  {
    SlotApart(s, pass, i, 0);
    var u := t[Slot(s, pass, i) := s[i]];
    var next := i + 1;
    forall d: nat | d < RADIX
      ensures Filled(s, u, pass, next, d)
    {
      FilledStep(s, t, pass, i, d);
    }
  }

  lemma {:induction false} FillingStart(s: seq<SymFreq>, t: seq<SymFreq>, pass: nat)
    requires |s| <= |t|
    ensures Filling(s, t, pass, 0)
  {
    BucketedPermutes(s, pass);
    forall d: nat | d < RADIX
      ensures Filled(s, t, pass, 0, d)
    {
      BucketEnds(s, pass, d, RADIX);
    }
  }

  lemma {:induction false} AllFilled(s: seq<SymFreq>, t: seq<SymFreq>, pass: nat, d: nat)
    requires |s| <= |t| && d <= RADIX && Filling(s, t, pass, |s|)
    ensures |Bucketed(s, pass, d)| <= |s| && t[..|Bucketed(s, pass, d)|] == Bucketed(s, pass, d)
  {
    if d > 0 {
      AllFilled(s, t, pass, d - 1);
      assert Filled(s, t, pass, |s|, d - 1);
      assert s[..|s|] == s;
    }
  }

  // One pass, from src to dst; hist has the sizes of the buckets.
  method Distribute(src: array<SymFreq>, dst: array<SymFreq>, n: nat, pass: nat, hist: array<nat>)
    requires src != dst && n <= src.Length && n <= dst.Length && pass < 2 && hist.Length == 2 * RADIX
    requires forall d: nat :: d < RADIX ==> hist[pass * RADIX + d] == |Filter(src[..n], pass, d)|
    modifies dst
    ensures dst[..n] == Bucketed(src[..n], pass, RADIX)
    ensures dst[n..] == old(dst[n..])
  {
    hide Digit, Filter, Bucketed, Filling, OffsetsAt;
    ghost var s := src[..n];
    var offsets := Offsets(n, pass, hist, s);
    FillingStart(s, dst[..], pass);
    BucketedPermutes(s, pass);
    for i := 0 to n
      invariant src[..n] == s && OffsetsAt(s, offsets[..], pass, i)
      invariant Filling(s, dst[..], pass, i)
      invariant dst[n..] == old(dst[n..])
    {
      Place(src, dst, n, pass, offsets, i);
    }
    AllFilled(s, dst[..], pass, RADIX);
  }

  // Where the next entry of each digit goes.
  ghost predicate OffsetsAt(s: seq<SymFreq>, offsets: seq<nat>, pass: nat, i: nat)
    requires i <= |s|
  {
    && |offsets| == RADIX
    && forall d: nat :: d < RADIX ==> offsets[d] == |Bucketed(s, pass, d)| + |Filter(s[..i], pass, d)|
  }

  method Offsets(n: nat, pass: nat, hist: array<nat>, ghost s: seq<SymFreq>) returns (offsets: array<nat>)
    requires pass < 2 && hist.Length == 2 * RADIX
    requires forall d: nat :: d < RADIX ==> hist[pass * RADIX + d] == |Filter(s, pass, d)|
    ensures fresh(offsets) && OffsetsAt(s, offsets[..], pass, 0)
  {
    hide Digit, Filter, Bucketed, OffsetsAt;
    offsets := new nat[RADIX];
    var cur := 0;
    BucketedNext(s, pass, 0);
    for d := 0 to RADIX
      invariant cur == |Bucketed(s, pass, d)|
      invariant forall e: nat :: e < d ==> offsets[e] == |Bucketed(s, pass, e)|
      modifies offsets
    {
      BucketedNext(s, pass, d);
      offsets[d] := cur;
      cur := cur + hist[pass * RADIX + d];
    }
    OffsetsStart(s, offsets[..], pass);
  }

  lemma {:induction false} BucketedNext(s: seq<SymFreq>, pass: nat, d: nat)
    ensures Bucketed(s, pass, 0) == [] && Bucketed(s, pass, d + 1) == Bucketed(s, pass, d) + Filter(s, pass, d)
  {
  }

  lemma {:induction false} OffsetsStart(s: seq<SymFreq>, offsets: seq<nat>, pass: nat)
    requires |offsets| == RADIX && forall e: nat :: e < RADIX ==> offsets[e] == |Bucketed(s, pass, e)|
    ensures OffsetsAt(s, offsets, pass, 0)
  {
  }

  lemma {:induction false} OffsetsNext(s: seq<SymFreq>, offsets: seq<nat>, pass: nat, i: nat)
    requires i < |s| && OffsetsAt(s, offsets, pass, i)
    ensures var e := Digit(s[i], pass);
      |offsets| == RADIX && offsets[e] == Slot(s, pass, i) && OffsetsAt(s, offsets[e := offsets[e] + 1], pass, i + 1)
  {
    var e := Digit(s[i], pass);
    var o := offsets[e := offsets[e] + 1];
    var next := i + 1;
    forall d: nat | d < RADIX
      ensures o[d] == |Bucketed(s, pass, d)| + |Filter(s[..next], pass, d)|
    {
      FilterNext(s, pass, i, d);
    }
  }

  // The next entry goes to the end of its bucket.
  method Place(src: array<SymFreq>, dst: array<SymFreq>, n: nat, pass: nat, offsets: array<nat>, i: nat)
    requires src != dst && i < n <= src.Length && n <= dst.Length
    requires OffsetsAt(src[..n], offsets[..], pass, i) && Filling(src[..n], dst[..], pass, i)
    modifies dst, offsets
    ensures OffsetsAt(src[..n], offsets[..], pass, i + 1) && Filling(src[..n], dst[..], pass, i + 1)
    ensures dst[n..] == old(dst[n..])
  {
    hide Filling, OffsetsAt, Slot;
    ghost var s, t, o := src[..n], dst[..], offsets[..];
    FillingStep(s, t, pass, i);
    OffsetsNext(s, o, pass, i);
    var e := Digit(src[i], pass);
    dst[offsets[e]] := src[i];
    offsets[e] := offsets[e] + 1;
    assert dst[..] == t[Slot(s, pass, i) := s[i]];
    assert offsets[..] == o[e := o[e] + 1];
  }

  // tdefl_radix_sort_syms returns whichever array the last pass wrote.
  method RadixSortSyms(n: nat, syms0: array<SymFreq>, syms1: array<SymFreq>) returns (cur: array<SymFreq>)
    requires syms0 != syms1 && n <= syms0.Length && n <= syms1.Length
    requires forall i :: 0 <= i < n ==> syms0[i].key < KEY_RANGE
    modifies syms0, syms1
    ensures cur == syms0 || cur == syms1
    ensures SortedByKey(cur[..n]) && multiset(cur[..n]) == multiset(old(syms0[..n]))
    ensures Stable(old(syms0[..n]), cur[..n])
  {
    hide Stable, WithKey;
    ghost var s := syms0[..n];
    var hist := Histogram(n, syms0);
    var passes := 2;
    if n == hist[RADIX] {
      passes := 1;
    }
    Distribute(syms0, syms1, n, 0, hist);
    ghost var t := syms1[..n];
    BucketedPermutes(s, 0);
    BucketedDigits(s, 0, RADIX);
    KeysKept(s, t);
    PassIsStable(s, 0);
    if passes == 1 {
      LowDigitsOnly(s, t);
      return syms1;
    }
    forall d: nat | d < RADIX
      ensures hist[RADIX + d] == |Filter(t, 1, d)|
    {
      FilterCount(s, t, 1, d);
    }
    Distribute(syms1, syms0, n, 1, hist);
    BucketedPermutes(t, 1);
    BucketedSorted(t, RADIX);
    PassIsStable(t, 1);
    StableTwice(s, t, syms0[..n]);
    cur := syms0;
  }

  lemma {:induction false} StableTwice(s: seq<SymFreq>, t: seq<SymFreq>, u: seq<SymFreq>)
    requires Stable(s, t) && Stable(t, u)
    ensures Stable(s, u)
  {
    hide WithKey;
  }

  lemma {:induction false} KeysKept(s: seq<SymFreq>, t: seq<SymFreq>)
    requires multiset(s) == multiset(t) && forall i :: 0 <= i < |s| ==> s[i].key < KEY_RANGE
    ensures forall i :: 0 <= i < |t| ==> t[i].key < KEY_RANGE
  {
    forall i | 0 <= i < |t|
      ensures t[i].key < KEY_RANGE
    {
      assert t[i] in multiset(t);
      assert t[i] in s;
    }
  }

  lemma {:induction false} RemoveOne(r: seq<SymFreq>, a: seq<SymFreq>, b: seq<SymFreq>, x: SymFreq)
    requires multiset(r + [x]) == multiset(a + [x] + b)
    ensures multiset(r) == multiset(a + b)
  {
    MultisetConcat(r, [x]);
    MultisetConcat(a + [x], b);
    MultisetConcat(a, [x]);
    MultisetConcat(a, b);
    assert multiset(r) == multiset(r) + multiset{x} - multiset{x};
    assert multiset(a) + multiset(b) == multiset(a) + multiset{x} + multiset(b) - multiset{x};
  }

  // The bucket sizes depend on which entries there are, not on their order.
  lemma {:induction false} FilterCount(s: seq<SymFreq>, t: seq<SymFreq>, pass: nat, d: nat)
    requires multiset(s) == multiset(t)
    ensures |Filter(s, pass, d)| == |Filter(t, pass, d)|
    decreases |s|
  {
    hide Digit;
    if s == [] {
      assert |multiset(t)| == 0;
      assert t == [];
    } else {
      var x := s[|s| - 1];
      assert x in multiset(t);
      var j :| 0 <= j < |t| && t[j] == x;
      var r, u := s[..|s| - 1], t[..j] + t[j + 1..];
      assert s == r + [x] && t == t[..j] + [x] + t[j + 1..];
      RemoveOne(r, t[..j], t[j + 1..], x);
      FilterCount(r, u, pass, d);
      FilterConcat(t[..j] + [x], t[j + 1..], pass, d);
      FilterConcat(t[..j], t[j + 1..], pass, d);
      assert (t[..j] + [x])[..j] == t[..j];
    }
  }

  lemma {:induction false} FilterConcat(s: seq<SymFreq>, t: seq<SymFreq>, pass: nat, d: nat)
    ensures Filter(s + t, pass, d) == Filter(s, pass, d) + Filter(t, pass, d)
    decreases |t|
  {
    if t == [] {
      assert s + t == s;
    } else {
      assert (s + t)[..|s + t| - 1] == s + t[..|t| - 1];
      FilterConcat(s, t[..|t| - 1], pass, d);
    }
  }

  lemma {:induction false} FilterFull(s: seq<SymFreq>, pass: nat, d: nat)
    requires |Filter(s, pass, d)| == |s|
    ensures forall i :: 0 <= i < |s| ==> Digit(s[i], pass) == d
  {
    if s != [] {
      FilterDigit(s[..|s| - 1], pass, d);
      FilterFull(s[..|s| - 1], pass, d);
    }
  }

  lemma {:induction false} LowDigitsOnly(s: seq<SymFreq>, t: seq<SymFreq>)
    requires multiset(s) == multiset(t) && |Filter(s, 1, 0)| == |s| == |t| && SortedByDigit(t, 0)
    requires forall i :: 0 <= i < |t| ==> t[i].key < KEY_RANGE
    ensures SortedByKey(t)
  {
    FilterCount(s, t, 1, 0);
    FilterFull(t, 1, 0);
    forall i | 0 <= i < |t|
      ensures t[i].key == Digit(t[i], 0)
    {
      assert Digit(t[i], 1) == 0;
    }
  }

  method Histogram(n: nat, syms: array<SymFreq>) returns (hist: array<nat>)
    requires n <= syms.Length
    ensures fresh(hist) && hist.Length == 2 * RADIX
    ensures forall d: nat :: d < RADIX ==>
      hist[d] == |Filter(syms[..n], 0, d)| && hist[RADIX + d] == |Filter(syms[..n], 1, d)|
  {
    hist := new nat[2 * RADIX](_ => 0);
    for i := 0 to n
      invariant forall d: nat :: d < RADIX ==>
        hist[d] == |Filter(syms[..i], 0, d)| && hist[RADIX + d] == |Filter(syms[..i], 1, d)|
    {
      assert syms[..i + 1][..i] == syms[..i];
      var lo, hi := Digit(syms[i], 0), Digit(syms[i], 1);
      hist[lo] := hist[lo] + 1;
      hist[RADIX + hi] := hist[RADIX + hi] + 1;
    }
  }
}
