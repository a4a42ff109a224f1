// How symbols are gathered, lengths counted and sizes given out by tdefl_optimize_huffman_table
// of shared/thirdparty/miniz/miniz.c.
module HuffmanSizes {
  import opened Bits
  import opened HuffmanTree
  import opened HuffmanForest
  import opened HuffmanLimit
  import opened RadixSort
  import opened HuffmanCodes

  // ---------- sizes ----------

  // Exactly the symbols of entries j .. have a size so far, of at most limit, and none of
  // them has a smaller size than a later one.
  ghost predicate SizesFrom(syms: seq<SymFreq>, j: nat, sizes: seq<nat>, limit: nat)
    requires j <= |syms|
  {
    && (forall k :: 0 <= k < |syms| ==> syms[k].sym < |sizes|)
    && (forall k :: j <= k < |syms| ==> 1 <= sizes[syms[k].sym])
    && (forall x :: 0 <= x < |sizes| ==> sizes[x] <= limit)
    && (forall k, l :: j <= k < l < |syms| ==> sizes[syms[k].sym] >= sizes[syms[l].sym])
    && (forall x :: 0 <= x < |sizes| && sizes[x] > 0 ==> exists k :: j <= k < |syms| && syms[k].sym == x)
  }

  ghost predicate Distinct(syms: seq<SymFreq>, n: nat) {
    && (forall k :: 0 <= k < |syms| ==> syms[k].sym < n)
    && (forall k, l :: 0 <= k < l < |syms| ==> syms[k].sym != syms[l].sym)
  }

  lemma {:induction false} OtherSyms(syms: seq<SymFreq>, j: nat, n: nat)
    requires 0 < j <= |syms| && Distinct(syms, n)
    ensures forall k :: j <= k < |syms| ==> syms[k].sym != syms[j - 1].sym
  {
  }

  lemma {:induction false} SizeStep(syms: seq<SymFreq>, j: nat, sizes: seq<nat>, size: nat)
    requires 0 < j <= |syms| && Distinct(syms, |sizes|) && SizesFrom(syms, j, sizes, size) && size >= 1
    ensures syms[j - 1].sym < |sizes| && sizes[syms[j - 1].sym] == 0
    ensures SizesFrom(syms, j - 1, sizes[syms[j - 1].sym := size], size)
  {
    OtherSyms(syms, j, |sizes|);
    OthersKept(syms, j, sizes, size);
    SizesFall(syms, j, sizes, size);
    SizedOccur(syms, j, sizes, size);
  }

  // The entries behind keep their sizes.
  lemma {:induction false} OthersKept(syms: seq<SymFreq>, j: nat, sizes: seq<nat>, size: nat)
    requires 0 < j <= |syms| && Distinct(syms, |sizes|)
    ensures syms[j - 1].sym < |sizes| && forall k :: j <= k < |syms| ==> syms[k].sym < |sizes|
    ensures forall k :: j <= k < |syms| ==> sizes[syms[j - 1].sym := size][syms[k].sym] == sizes[syms[k].sym]
  {
    OtherSyms(syms, j, |sizes|);
  }

  lemma {:induction false} SizesFall(syms: seq<SymFreq>, j: nat, sizes: seq<nat>, size: nat)
    requires 0 < j <= |syms| && Distinct(syms, |sizes|) && SizesFrom(syms, j, sizes, size)
    ensures syms[j - 1].sym < |sizes| && forall k :: j <= k < |syms| ==> syms[k].sym < |sizes|
    ensures forall k, l :: j - 1 <= k < l < |syms| ==>
      sizes[syms[j - 1].sym := size][syms[k].sym] >= sizes[syms[j - 1].sym := size][syms[l].sym]
  {
    OthersKept(syms, j, sizes, size);
    forall k, l | j - 1 <= k < l < |syms|
      ensures sizes[syms[j - 1].sym := size][syms[k].sym] >= sizes[syms[j - 1].sym := size][syms[l].sym]
    {
      assert sizes[syms[l].sym] <= size;
    }
  }

  lemma {:induction false} SizedOccur(syms: seq<SymFreq>, j: nat, sizes: seq<nat>, size: nat)
    requires 0 < j <= |syms| && syms[j - 1].sym < |sizes|
    requires forall x :: 0 <= x < |sizes| && sizes[x] > 0 ==> exists k :: j <= k < |syms| && syms[k].sym == x
    ensures var t := sizes[syms[j - 1].sym := size];
      forall y :: 0 <= y < |t| && t[y] > 0 ==> exists k :: j - 1 <= k < |syms| && syms[k].sym == y
  {
    var t := sizes[syms[j - 1].sym := size];
    forall y | 0 <= y < |t| && t[y] > 0
      ensures exists k :: j - 1 <= k < |syms| && syms[k].sym == y
    {
      if y == syms[j - 1].sym {
        assert syms[j - 1].sym == y;
      } else {
        var k :| j <= k < |syms| && syms[k].sym == y;
      }
    }
  }

  // As many symbols as num says have a size below i, and extra have size i.
  ghost predicate Sized(sizes: seq<nat>, num: seq<int>, limit: nat, i: nat, extra: int) {
    && limit < |num|
    && forall len: nat :: 1 <= len <= limit ==>
      CountOf(sizes, len) == if len < i then num[len] else if len == i then extra else 0
  }

  lemma {:induction false} SizedStart(sizes: seq<nat>, num: seq<int>, limit: nat, syms: seq<SymFreq>)
    requires limit < |num| && forall x :: 0 <= x < |sizes| ==> sizes[x] == 0
    requires Distinct(syms, |sizes|)
    ensures Sized(sizes, num, limit, 1, 0) && SizesFrom(syms, |syms|, sizes, 0)
  {
    forall len: nat | 1 <= len <= limit
      ensures CountOf(sizes, len) == 0
    {
      CountZeros(sizes, len);
    }
  }

  lemma {:induction false} SizedStep(sizes: seq<nat>, num: seq<int>, limit: nat, i: nat, extra: int, x: nat)
    requires Sized(sizes, num, limit, i, extra) && 1 <= i && x < |sizes| && sizes[x] == 0
    ensures Sized(sizes[x := i], num, limit, i, extra + 1)
  {
    var t := sizes[x := i];
    forall len: nat | 1 <= len <= limit
      ensures CountOf(t, len) == if len < i then num[len] else if len == i then extra + 1 else 0
    {
      CountUpdate(sizes, x, i, len);
    }
  }

  lemma {:induction false} SizedNext(sizes: seq<nat>, num: seq<int>, limit: nat, i: nat)
    requires i < |num| && Sized(sizes, num, limit, i, num[i])
    ensures Sized(sizes, num, limit, i + 1, 0)
  {
  }

  lemma {:induction false} SizesRelax(syms: seq<SymFreq>, j: nat, sizes: seq<nat>, limit: nat)
    requires j <= |syms| && SizesFrom(syms, j, sizes, limit)
    ensures SizesFrom(syms, j, sizes, limit + 1)
  {
  }

  // Sizes are given out from the most frequent symbol on, as many of each as num says.
  method AssignSizes(syms: array<SymFreq>, used: nat, num: array<int>, limit: nat, sizes: array<nat>)
    requires used <= syms.Length && Counts(num[..]) && limit <= MAX_SUPPORTED && Total(num[..], limit) == used
    requires Distinct(syms[..used], sizes.Length) && forall x :: 0 <= x < sizes.Length ==> sizes[x] == 0
    modifies sizes
    ensures SizesFrom(syms[..used], 0, sizes[..], limit)
    ensures Sized(sizes[..], num[..], limit, limit + 1, 0)
  {
    hide SizesFrom, Sized, Distinct;
    ghost var s, c := syms[..used], num[..];
    SizedStart(sizes[..], c, limit, s);
    var j := used;
    for i: nat := 1 to limit + 1
      invariant 0 <= j <= used && j == used - Total(c, i - 1)
      invariant SizesFrom(s, j, sizes[..], i - 1) && Sized(sizes[..], c, limit, i, 0)
    {
      WeightGrows(c, i, limit, limit);
      SizesRelax(s, j, sizes[..], i - 1);
      var l := num[i];
      while l > 0
        invariant 0 <= l <= num[i] && j == used - Total(c, i) + l
        invariant SizesFrom(s, j, sizes[..], i) && Sized(sizes[..], c, limit, i, num[i] - l)
      {
        ghost var t := sizes[..];
        SizeStep(s, j, t, i);
        j := j - 1;
        SizedStep(t, c, limit, i, num[i] - l, s[j].sym);
        sizes[syms[j].sym] := i;
        assert sizes[..] == t[s[j].sym := i];
        l := l - 1;
      }
      SizedNext(sizes[..], c, limit, i);
    }
  }

  // ---------- from counts to entries ----------

  ghost function SumOf(s: seq<nat>): nat {
    if s == [] then 0 else SumOf(s[..|s| - 1]) + s[|s| - 1]
  }

  // One entry for each symbol that occurs.
  ghost predicate Gathered(counts: seq<nat>, syms: seq<SymFreq>) {
    && Distinct(syms, |counts|)
    && (forall k :: 0 <= k < |syms| ==> syms[k].key == counts[syms[k].sym] >= 1)
    && (forall x :: 0 <= x < |counts| && counts[x] > 0 ==> SymFreq(counts[x], x) in syms)
    && LeafSum(syms, 0) == SumOf(counts)
    && |syms| == Occurring(counts)
  }

  // How many symbols occur.
  ghost function Occurring(counts: seq<nat>): nat {
    if counts == [] then 0 else Occurring(counts[..|counts| - 1]) + (if counts[|counts| - 1] > 0 then 1 else 0)
  }

  lemma {:induction false} LeafSumConcat(a: seq<SymFreq>, b: seq<SymFreq>, from: nat)
    requires from <= |a|
    ensures LeafSum(a + b, from) == LeafSum(a, from) + LeafSum(b, 0)
    decreases |a| - from
  {
    if from < |a| {
      LeafSumConcat(a, b, from + 1);
    } else {
      LeafSumShift(a, b, 0);
    }
  }

  lemma {:induction false} LeafSumShift(a: seq<SymFreq>, b: seq<SymFreq>, i: nat)
    requires i <= |b|
    ensures LeafSum(a + b, |a| + i) == LeafSum(b, i)
    decreases |b| - i
  {
    if i < |b| {
      LeafSumShift(a, b, i + 1);
    }
  }

  lemma {:induction false} LeafSumPermuted(s: seq<SymFreq>, t: seq<SymFreq>)
    requires multiset(s) == multiset(t)
    ensures LeafSum(s, 0) == LeafSum(t, 0)
    decreases |s|
  {
    if s == [] {
      assert |multiset(t)| == 0;
      assert t == [];
    } else {
      var x := s[|s| - 1];
      assert x in multiset(t);
      var j :| 0 <= j < |t| && t[j] == x;
      var r, a, b := s[..|s| - 1], t[..j], t[j + 1..];
      assert s == r + [x] && t == (a + [x]) + b;
      RemoveOne(r, a, b, x);
      LeafSumPermuted(r, a + b);
      LeafSumConcat(r, [x], 0);
      LeafSumConcat(a + [x], b, 0);
      LeafSumConcat(a, [x], 0);
      LeafSumConcat(a, b, 0);
    }
  }

  lemma {:induction false} TwiceIn(t: seq<SymFreq>, k: nat, l: nat)
    requires k < l < |t| && t[k] == t[l]
    ensures multiset(t)[t[k]] >= 2
  {
    assert t == t[..l] + t[l..];
    MultisetConcat(t[..l], t[l..]);
    assert t[k] in t[..l] && t[l..][0] == t[l];
  }

  lemma {:induction false} OnceIn(s: seq<SymFreq>, k: nat)
    requires k < |s| && forall l :: 0 <= l < |s| && l != k ==> s[l] != s[k]
    ensures multiset(s)[s[k]] == 1
  {
    assert s == s[..k] + [s[k]] + s[k + 1..];
    MultisetConcat(s[..k] + [s[k]], s[k + 1..]);
    MultisetConcat(s[..k], [s[k]]);
    assert s[k] !in s[..k] && s[k] !in s[k + 1..];
  }

  lemma {:induction false} GatheredPermuted(counts: seq<nat>, s: seq<SymFreq>, t: seq<SymFreq>)
    requires Gathered(counts, s) && multiset(s) == multiset(t)
    ensures Gathered(counts, t) && |s| == |t|
  {
    assert |multiset(s)| == |s| && |multiset(t)| == |t|;
    LeafSumPermuted(s, t);
    forall k | 0 <= k < |t|
      ensures t[k] in s && t[k].sym < |counts| && t[k].key == counts[t[k].sym] >= 1
    {
      assert t[k] in multiset(t);
    }
    forall x | 0 <= x < |counts| && counts[x] > 0
      ensures SymFreq(counts[x], x) in t
    {
      assert SymFreq(counts[x], x) in multiset(s);
    }
    forall k, l | 0 <= k < l < |t|
      ensures t[k].sym != t[l].sym
    {
      if t[k].sym == t[l].sym {
        assert t[k] == t[l];
        TwiceIn(t, k, l);
        var a :| 0 <= a < |s| && s[a] == t[k];
        OnceIn(s, a);
      }
    }
  }

  // The loop that collects the symbols that occur.
  method Gather(counts: array<nat>, n: nat, syms: array<SymFreq>) returns (used: nat)
    requires n <= counts.Length && n <= syms.Length
    modifies syms
    ensures used <= n && Gathered(counts[..n], syms[..used]) && InSymbolOrder(syms[..used])
  {
    hide Gathered;
    used := 0;
    GatherStart();
    assert counts[..0] == [] && syms[..0] == [];
    for i := 0 to n
      invariant used <= i && Gathered(counts[..i], syms[..used])
      invariant InSymbolOrder(syms[..used]) && forall k :: 0 <= k < used ==> syms[k].sym < i
    {
      ghost var s := syms[..used];
      GatherStep(counts[..i], counts[i], s);
      assert counts[..i + 1] == counts[..i] + [counts[i]];
      if counts[i] != 0 {
        syms[used] := SymFreq(counts[i], i);
        used := used + 1;
        assert syms[..used] == s + [SymFreq(counts[i], i)];
      }
    }
  }

  lemma {:induction false} GatherStart()
    ensures Gathered([], [])
  {
  }

  lemma {:induction false} GatherStep(counts: seq<nat>, x: nat, syms: seq<SymFreq>)
    requires Gathered(counts, syms)
    ensures Gathered(counts + [x], if x == 0 then syms else syms + [SymFreq(x, |counts|)])
  {
    assert (counts + [x])[..|counts|] == counts;
    if x != 0 {
      GatherAdd(counts, x, syms);
    }
  }

  lemma {:induction false} GatherAdd(counts: seq<nat>, x: nat, syms: seq<SymFreq>)
    requires Gathered(counts, syms) && x >= 1
    ensures Gathered(counts + [x], syms + [SymFreq(x, |counts|)])
  {
    hide LeafSum, SumOf, Occurring;
    var c := counts + [x];
    var e := SymFreq(x, |counts|);
    var t := syms + [e];
    assert t[|syms|] == e;
    forall y | 0 <= y < |c| && c[y] > 0
      ensures SymFreq(c[y], y) in t
    {
      if y < |counts| {
        assert SymFreq(counts[y], y) in syms;
      }
    }
    SumsGrow(counts, x, syms, e);
  }

  lemma {:induction false} SumsGrow(counts: seq<nat>, x: nat, syms: seq<SymFreq>, e: SymFreq)
    requires LeafSum(syms, 0) == SumOf(counts) && e.key == x >= 1 && |syms| == Occurring(counts)
    ensures LeafSum(syms + [e], 0) == SumOf(counts + [x]) && |syms + [e]| == Occurring(counts + [x])
  {
    assert (counts + [x])[..|counts|] == counts;
    LeafSumConcat(syms, [e], 0);
    assert LeafSum([e], 0) == x + LeafSum([e], 1);
  }

  // ---------- from lengths to counts of lengths ----------

  // The code space that symbols of these sizes take, in units of 2^-limit.
  ghost function Space(sizes: seq<nat>, limit: nat): nat
    requires forall i :: 0 <= i < |sizes| ==> sizes[i] <= limit
  {
    if sizes == [] then 0
    else
      var last := sizes[|sizes| - 1];
      Space(sizes[..|sizes| - 1], limit) + (if last > 0 then Pow2(limit - last) else 0)
  }

  lemma {:induction false} SpaceIsWeight(sizes: seq<nat>, num: seq<int>, limit: nat)
    requires limit < |num| && forall i :: 0 <= i < |sizes| ==> sizes[i] <= limit
    requires forall len: nat :: 1 <= len <= limit ==> num[len] == CountOf(sizes, len)
    ensures Space(sizes, limit) == Weight(num, limit, limit)
    decreases |sizes|
  {
    if sizes == [] {
      NoShortCodes(num, limit, limit);
    } else {
      var r, last := sizes[..|sizes| - 1], sizes[|sizes| - 1];
      if last == 0 {
        SpaceIsWeight(r, num, limit);
      } else {
        SpaceIsWeight(r, num[last := num[last] - 1], limit);
        WeightAdd(num, limit, limit, last, -1);
      }
    }
  }

  lemma {:induction false} KraftSnoc(s: seq<SymFreq>, x: SymFreq, top: nat)
    requires x.key <= top && forall i :: 0 <= i < |s| ==> s[i].key <= top
    ensures Kraft(s + [x], top) == Kraft(s, top) + Pow2(top - x.key)
  {
    if s == [] {
      assert [] + [x] == [x];
      assert Kraft([x], top) == Pow2(top - x.key) + Kraft([x][1..], top);
    } else {
      assert (s + [x])[1..] == s[1..] + [x];
      KraftSnoc(s[1..], x, top);
    }
  }

  lemma {:induction false} KraftRescale(s: seq<SymFreq>, top: nat, k: nat)
    requires forall i :: 0 <= i < |s| ==> s[i].key <= top
    ensures Kraft(s, top + k) == Kraft(s, top) * Pow2(k)
  {
    if s != [] {
      KraftRescale(s[1..], top, k);
      Pow2Add(top - s[0].key, k);
      HuffmanLimit.Distribute(Pow2(top - s[0].key), Kraft(s[1..], top), Pow2(k));
    }
  }

  // num says how many of the lengths are len, for each len.
  ghost predicate Counted(num: seq<int>, lens: seq<nat>) {
    |num| == MAX_SUPPORTED + 1 && forall len: nat :: 1 <= len < |num| ==> num[len] == CountOf(lens, len)
  }

  lemma {:induction false} CountedStart(num: seq<int>, syms: seq<SymFreq>)
    requires |num| == MAX_SUPPORTED + 1 && syms == [] && forall len :: 0 <= len < |num| ==> num[len] == 0
    ensures Counted(num, Keys(syms))
  {
  }

  lemma {:induction false} CountedNext(num: seq<int>, syms: seq<SymFreq>, e: SymFreq)
    requires Counted(num, Keys(syms)) && e.key < |num|
    ensures Counted(num[e.key := num[e.key] + 1], Keys(syms + [e]))
  {
    var lens := Keys(syms);
    assert Keys(syms + [e]) == lens + [e.key] && (lens + [e.key])[..|lens|] == lens;
  }

  // The histogram of code lengths has the code space of the lengths themselves.
  method CountLengths(syms: array<SymFreq>, used: nat, num: array<int>)
    requires used <= syms.Length && num.Length == MAX_SUPPORTED + 1
    requires forall i :: 0 <= i < used ==> 1 <= syms[i].key <= MAX_SUPPORTED
    requires forall len :: 0 <= len < num.Length ==> num[len] == 0
    modifies num
    ensures Counts(num[..]) && Total(num[..], MAX_SUPPORTED) == used
    ensures Weight(num[..], MAX_SUPPORTED, MAX_SUPPORTED) == Kraft(syms[..used], MAX_SUPPORTED)
    ensures used <= 1 ==> forall len :: 0 <= len < num.Length ==>
      num[len] == if used == 1 && len == syms[0].key then 1 else 0
    ensures Counted(num[..], Keys(syms[..used]))
  {
    hide Counted, Keys;
    NoShortCodes(num[..], MAX_SUPPORTED, MAX_SUPPORTED);
    CountedStart(num[..], syms[..0]);
    for i := 0 to used
      invariant Counts(num[..]) && Total(num[..], MAX_SUPPORTED) == i
      invariant Weight(num[..], MAX_SUPPORTED, MAX_SUPPORTED) == Kraft(syms[..i], MAX_SUPPORTED)
      invariant i <= 1 ==> forall len :: 0 <= len < num.Length ==>
        num[len] == if i == 1 && len == syms[0].key then 1 else 0
      invariant Counted(num[..], Keys(syms[..i]))
    {
      var key := syms[i].key;
      Added(num[..], MAX_SUPPORTED, key, 1);
      KraftSnoc(syms[..i], syms[i], MAX_SUPPORTED);
      assert syms[..i + 1] == syms[..i] + [syms[i]];
      ghost var s := num[..];
      CountedNext(s, syms[..i], syms[i]);
      num[key] := num[key] + 1;
      assert num[..] == s[key := s[key] + 1];
    }
  }

  method CountSizes(sizes: array<nat>, n: nat, num: array<int>)
    requires n <= sizes.Length && num.Length == MAX_SUPPORTED + 1
    requires forall i :: 0 <= i < n ==> sizes[i] <= MAX_SUPPORTED
    requires forall len :: 0 <= len < num.Length ==> num[len] == 0
    modifies num
    ensures Counts(num[..]) && forall len: nat :: len <= MAX_SUPPORTED ==> num[len] == CountOf(sizes[..n], len)
  {
    for i := 0 to n
      invariant Counts(num[..]) && forall len: nat :: len <= MAX_SUPPORTED ==> num[len] == CountOf(sizes[..i], len)
    {
      forall len: nat | len <= MAX_SUPPORTED
        ensures CountOf(sizes[..i + 1], len) == CountOf(sizes[..i], len) + (if sizes[i] == len then 1 else 0)
      {
        assert sizes[..i + 1][..i] == sizes[..i];
      }
      num[sizes[i]] := num[sizes[i]] + 1;
    }
  }
}
