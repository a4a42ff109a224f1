// Exactly when the code lengths of a table need no repair, no sizes make a shorter text.
module CheapestSizes {
  import opened Bits
  import CodeCost
  import opened HuffmanTree
  import opened HuffmanForest
  import opened HuffmanLimit
  import opened HuffmanCodes
  import opened HuffmanSizes

  // The length of a text in which symbol x occurs counts[x] times.
  ghost function TextLength(counts: seq<nat>, sizes: seq<nat>): nat
    requires |counts| == |sizes|
  {
    if counts == [] then 0
    else TextLength(counts[..|counts| - 1], sizes[..|sizes| - 1]) + counts[|counts| - 1] * sizes[|sizes| - 1]
  }

  // Sizes for at least the symbols that occur that do not take more than the code space, as
  // those of any prefix-free code do not.
  ghost predicate Encodes(counts: seq<nat>, sizes: seq<nat>, top: nat) {
    && |sizes| == |counts|
    && (forall x :: 0 <= x < |sizes| ==> sizes[x] <= top && (counts[x] > 0 ==> sizes[x] > 0))
    && Space(sizes, top) <= Pow2(top)
  }

  // No such sizes make a shorter text.
  ghost predicate Cheapest(counts: seq<nat>, sizes: seq<nat>)
    requires |counts| == |sizes|
  {
    forall other: seq<nat>, top: nat :: Encodes(counts, other, top) ==>
      TextLength(counts, sizes) <= TextLength(counts, other)
  }

  // The longest size that the shortest text takes: there are cheapest sizes within it, and
  // none within less.
  ghost predicate LeastLongest(counts: seq<nat>, longest: nat) {
    && (exists sizes: seq<nat> :: Encodes(counts, sizes, longest) && Cheapest(counts, sizes))
    && forall sizes: seq<nat>, t: nat :: Encodes(counts, sizes, t) && Cheapest(counts, sizes) ==> longest <= t
  }

  // What the construction says of the lengths it makes.
  ghost predicate Made(sorted: seq<SymFreq>, lens: seq<nat>, longest: nat) {
    && |lens| == |sorted|
    && (forall k :: 0 <= k < |lens| ==> 1 <= lens[k] <= longest)
    && (forall k, l :: 0 <= k < l < |lens| ==> lens[k] >= lens[l])
    && CodeCost.Fits(CodeCost.Coded(Keys(sorted), lens), longest)
    && (if |lens| >= 2 then CodeCost.Minimum(Keys(sorted), lens) && CodeCost.Reaches(Keys(sorted), lens, longest)
       else longest == |lens|)
  }

  // When none is above the limit, they are what is counted.
  ghost predicate Unrepaired(lens: seq<nat>, num: seq<int>, limit: nat) {
    && limit < |num| && (forall k :: 0 <= k < |lens| ==> 1 <= lens[k] <= limit)
    && forall len: nat :: 1 <= len <= limit ==> num[len] == CountOf(lens, len)
  }

  // The sizes of the entries.
  function SizesOf(syms: seq<SymFreq>, sizes: seq<nat>): (t: seq<nat>)
    requires forall k :: 0 <= k < |syms| ==> syms[k].sym < |sizes|
    ensures |t| == |syms| && forall k :: 0 <= k < |t| ==> t[k] == sizes[syms[k].sym]
  {
    seq(|syms|, k requires 0 <= k < |syms| => sizes[syms[k].sym])
  }

  // ---------- sizes are the lengths ----------

  // Only the sizes of the entries are counted.
  lemma {:induction false} CountOfSizes(syms: seq<SymFreq>, sizes: seq<nat>, v: nat)
    requires Distinct(syms, |sizes|) && v > 0
    requires forall x :: 0 <= x < |sizes| && sizes[x] > 0 ==> exists k :: 0 <= k < |syms| && syms[k].sym == x
    ensures CountOf(sizes, v) == CountOf(SizesOf(syms, sizes), v)
    decreases |syms|
  {
    var t := SizesOf(syms, sizes);
    if syms == [] {
      CountZeros(sizes, v);
    } else {
      var n := |syms| - 1;
      var r, x := syms[..n], syms[n].sym;
      var rest := sizes[x := 0];
      assert SizesOf(r, rest) == t[..n];
      forall y | 0 <= y < |rest| && rest[y] > 0
        ensures exists k :: 0 <= k < |r| && r[k].sym == y
      {
        var k :| 0 <= k < |syms| && syms[k].sym == y;
        assert r[k].sym == y;
      }
      CountOfSizes(r, rest, v);
      CountUpdate(sizes, x, 0, v);
    }
  }

  lemma {:induction false} CountHas(s: seq<nat>, k: nat)
    requires k < |s|
    ensures CountOf(s, s[k]) > 0
    decreases |s|
  {
    if k < |s| - 1 {
      CountHas(s[..|s| - 1], k);
    }
  }

  lemma {:induction false} CountNone(s: seq<nat>, v: nat)
    requires forall k :: 0 <= k < |s| ==> s[k] != v
    ensures CountOf(s, v) == 0
  {
    if s != [] {
      CountNone(s[..|s| - 1], v);
    }
  }

  // Falling sequences with the same numbers are the same.
  lemma {:induction false} FallingUnique(a: seq<nat>, b: seq<nat>)
    requires |a| == |b| && forall v: nat :: CountOf(a, v) == CountOf(b, v)
    requires forall k, l :: 0 <= k < l < |a| ==> a[k] >= a[l]
    requires forall k, l :: 0 <= k < l < |b| ==> b[k] >= b[l]
    ensures a == b
    decreases |a|
  {
    if a != [] {
      var n := |a| - 1;
      if a[n] < b[n] {
        CountHas(a, n);
        CountNone(b, a[n]);
        assert false;
      } else if b[n] < a[n] {
        CountHas(b, n);
        CountNone(a, b[n]);
        assert false;
      }
      forall v: nat
        ensures CountOf(a[..n], v) == CountOf(b[..n], v)
      {
        assert CountOf(a, v) == CountOf(b, v);
      }
      FallingUnique(a[..n], b[..n]);
      assert a == a[..n] + [a[n]] && b == b[..n] + [b[n]];
    }
  }

  // The sizes that are given out are the lengths that were counted.
  lemma {:induction false} SizesAreLengths(syms: seq<SymFreq>, sizes: seq<nat>, lens: seq<nat>, num: seq<int>,
        limit: nat)
    requires Unrepaired(lens, num, limit) && |syms| == |lens|
    requires forall k, l :: 0 <= k < l < |lens| ==> lens[k] >= lens[l]
    requires Distinct(syms, |sizes|) && SizesFrom(syms, 0, sizes, limit) && Sized(sizes, num, limit, limit + 1, 0)
    ensures SizesOf(syms, sizes) == lens
  {
    var t := SizesOf(syms, sizes);
    forall v: nat
      ensures CountOf(t, v) == CountOf(lens, v)
    {
      if 1 <= v <= limit {
        CountOfSizes(syms, sizes, v);
      } else {
        CountNone(t, v);
        CountNone(lens, v);
      }
    }
    FallingUnique(t, lens);
  }

  lemma {:induction false} SameSizes(syms: seq<SymFreq>, sorted: seq<SymFreq>, sizes: seq<nat>)
    requires Distinct(sorted, |sizes|) && |syms| == |sorted|
    requires forall k :: 0 <= k < |syms| ==> syms[k].sym == sorted[k].sym
    ensures Distinct(syms, |sizes|) && SizesOf(syms, sizes) == SizesOf(sorted, sizes)
  {
  }

  // ---------- from entries to symbols ----------

  lemma {:induction false} TextLengthUpdate(counts: seq<nat>, sizes: seq<nat>, x: nat)
    requires |counts| == |sizes| && x < |counts|
    ensures TextLength(counts, sizes) == TextLength(counts[x := 0], sizes) + counts[x] * sizes[x]
    decreases |counts|
  {
    var n := |counts| - 1;
    if x < n {
      assert counts[x := 0][..n] == counts[..n][x := 0];
      TextLengthUpdate(counts[..n], sizes[..n], x);
    } else {
      assert counts[x := 0][..n] == counts[..n];
    }
  }

  lemma {:induction false} NoText(counts: seq<nat>, sizes: seq<nat>)
    requires |counts| == |sizes| && forall x :: 0 <= x < |counts| ==> counts[x] == 0
    ensures TextLength(counts, sizes) == 0
    decreases |counts|
  {
    if counts != [] {
      NoText(counts[..|counts| - 1], sizes[..|sizes| - 1]);
    }
  }

  // One entry for each symbol that occurs, with its count.
  ghost predicate Entries(counts: seq<nat>, syms: seq<SymFreq>) {
    && Distinct(syms, |counts|)
    && (forall k :: 0 <= k < |syms| ==> syms[k].key == counts[syms[k].sym])
    && (forall x :: 0 <= x < |counts| && counts[x] > 0 ==> exists k :: 0 <= k < |syms| && syms[k].sym == x)
  }

  lemma {:induction false} OneEntryLess(counts: seq<nat>, syms: seq<SymFreq>)
    requires Entries(counts, syms) && syms != []
    ensures syms[0].sym < |counts| && Entries(counts[syms[0].sym := 0], syms[1..])
  {
    var rest := counts[syms[0].sym := 0];
    forall x | 0 <= x < |rest| && rest[x] > 0
      ensures exists k :: 0 <= k < |syms[1..]| && syms[1..][k].sym == x
    {
      var k :| 0 <= k < |syms| && syms[k].sym == x;
      assert syms[1..][k - 1].sym == x;
    }
  }

  // The entries cost what the text does.
  lemma {:induction false} CostIsTextLength(counts: seq<nat>, syms: seq<SymFreq>, sizes: seq<nat>)
    requires Entries(counts, syms) && |sizes| == |counts|
    ensures CodeCost.Cost(CodeCost.Coded(Keys(syms), SizesOf(syms, sizes))) == TextLength(counts, sizes)
    decreases |syms|
  {
    hide Entries, TextLength;
    assert Distinct(syms, |counts|) by { EntriesDistinct(counts, syms); }
    var c := CodeCost.Coded(Keys(syms), SizesOf(syms, sizes));
    if syms == [] {
      NoEntries(counts, syms);
      NoText(counts, sizes);
    } else {
      OneEntryLess(counts, syms);
      var x := syms[0].sym;
      CostIsTextLength(counts[x := 0], syms[1..], sizes);
      TextLengthUpdate(counts, sizes, x);
      assert c[1..] == CodeCost.Coded(Keys(syms[1..]), SizesOf(syms[1..], sizes));
      FirstEntry(counts, syms);
    }
  }

  lemma {:induction false} EntriesDistinct(counts: seq<nat>, syms: seq<SymFreq>)
    requires Entries(counts, syms)
    ensures Distinct(syms, |counts|)
  {
  }

  lemma {:induction false} NoEntries(counts: seq<nat>, syms: seq<SymFreq>)
    requires Entries(counts, syms) && syms == []
    ensures forall x :: 0 <= x < |counts| ==> counts[x] == 0
  {
  }

  lemma {:induction false} FirstEntry(counts: seq<nat>, syms: seq<SymFreq>)
    requires Entries(counts, syms) && syms != []
    ensures syms[0].sym < |counts| && syms[0].key == counts[syms[0].sym]
  {
  }

  lemma {:induction false} SpaceUpdate(sizes: seq<nat>, top: nat, x: nat)
    requires (forall y :: 0 <= y < |sizes| ==> sizes[y] <= top) && x < |sizes| && sizes[x] > 0
    ensures Space(sizes, top) == Space(sizes[x := 0], top) + Pow2(top - sizes[x])
    decreases |sizes|
  {
    var n := |sizes| - 1;
    if x < n {
      assert sizes[x := 0][..n] == sizes[..n][x := 0];
      SpaceUpdate(sizes[..n], top, x);
    } else {
      assert sizes[x := 0][..n] == sizes[..n];
    }
  }

  // The entries take no more space than all sizes do.
  lemma {:induction false} SpaceOfEntries(weights: seq<nat>, syms: seq<SymFreq>, sizes: seq<nat>, top: nat)
    requires Distinct(syms, |sizes|) && |weights| == |syms|
    requires forall x :: 0 <= x < |sizes| ==> sizes[x] <= top
    requires forall k :: 0 <= k < |syms| ==> sizes[syms[k].sym] > 0
    ensures var c := CodeCost.Coded(weights, SizesOf(syms, sizes));
      CodeCost.Bounded(c, top) && CodeCost.Space(c, top) <= Space(sizes, top)
    decreases |syms|
  {
    hide Pow2;
    var c := CodeCost.Coded(weights, SizesOf(syms, sizes));
    if syms != [] {
      var x := syms[0].sym;
      var rest := sizes[x := 0];
      SpaceOfEntries(weights[1..], syms[1..], rest, top);
      SpaceUpdate(sizes, top, x);
      assert c[1..] == CodeCost.Coded(weights[1..], SizesOf(syms[1..], rest));
    }
  }

  // Sizes for the symbols give lengths for the entries.
  lemma {:induction false} EncodesEntries(counts: seq<nat>, syms: seq<SymFreq>, other: seq<nat>, top: nat)
    requires Entries(counts, syms) && Encodes(counts, other, top) && forall k :: 0 <= k < |syms| ==> syms[k].key > 0
    ensures Distinct(syms, |other|) && CodeCost.Fits(CodeCost.Coded(Keys(syms), SizesOf(syms, other)), top)
  {
    SpaceOfEntries(Keys(syms), syms, other, top);
  }

  lemma {:induction false} TextLengthMonotone(counts: seq<nat>, sizes: seq<nat>, other: seq<nat>)
    requires |counts| == |sizes| == |other| && forall x :: 0 <= x < |counts| && counts[x] > 0 ==> sizes[x] <= other[x]
    ensures TextLength(counts, sizes) <= TextLength(counts, other)
    decreases |counts|
  {
    if counts != [] {
      var n := |counts| - 1;
      TextLengthMonotone(counts[..n], sizes[..n], other[..n]);
      if counts[n] > 0 {
        MulMono(sizes[n], other[n], counts[n]);
      }
    }
  }

  // The lengths that were made, given to the symbols of the entries, make the shortest text.
  lemma {:induction false} MadeIsCheapest(counts: seq<nat>, sorted: seq<SymFreq>, sizes: seq<nat>, longest: nat)
    requires Entries(counts, sorted) && |sizes| == |counts| && forall k :: 0 <= k < |sorted| ==> sorted[k].key > 0
    requires Distinct(sorted, |counts|) && Made(sorted, SizesOf(sorted, sizes), longest)
    ensures Cheapest(counts, sizes)
  {
    forall other: seq<nat>, top: nat | Encodes(counts, other, top)
      ensures TextLength(counts, sizes) <= TextLength(counts, other)
    {
      if |sorted| >= 2 {
        MinimumAgainst(counts, sorted, sizes, other, top);
      } else {
        forall x | 0 <= x < |counts| && counts[x] > 0
          ensures sizes[x] <= other[x]
        {
          var k :| 0 <= k < |sorted| && sorted[k].sym == x;
          assert SizesOf(sorted, sizes)[0] == sizes[x];
        }
        TextLengthMonotone(counts, sizes, other);
      }
    }
  }

  lemma {:induction false} MinimumAgainst(counts: seq<nat>, sorted: seq<SymFreq>, sizes: seq<nat>, other: seq<nat>,
        top: nat)
    requires Entries(counts, sorted) && |sizes| == |counts| && forall k :: 0 <= k < |sorted| ==> sorted[k].key > 0
    requires Distinct(sorted, |counts|) && Encodes(counts, other, top)
    requires CodeCost.Minimum(Keys(sorted), SizesOf(sorted, sizes))
    ensures TextLength(counts, sizes) <= TextLength(counts, other)
  {
    hide Entries, CodeCost.Fits, CodeCost.Cost, TextLength;
    EncodesEntries(counts, sorted, other, top);
    CostIsTextLength(counts, sorted, sizes);
    CostIsTextLength(counts, sorted, other);
  }

  // ---------- the longest size ----------

  // Sizes for the symbols of the entries, and no others.
  ghost function Scatter(syms: seq<SymFreq>, lens: seq<nat>, n: nat): (sizes: seq<nat>)
    requires Distinct(syms, n) && |lens| == |syms|
    ensures |sizes| == n
  {
    if syms == [] then seq(n, _ => 0) else Scatter(syms[1..], lens[1..], n)[syms[0].sym := lens[0]]
  }

  lemma {:induction false} Scattered(syms: seq<SymFreq>, lens: seq<nat>, n: nat)
    requires Distinct(syms, n) && |lens| == |syms|
    ensures forall k :: 0 <= k < |syms| ==> Scatter(syms, lens, n)[syms[k].sym] == lens[k]
    ensures forall x :: 0 <= x < n && Scatter(syms, lens, n)[x] > 0 ==> exists k :: 0 <= k < |syms| && syms[k].sym == x
    decreases |syms|
  {
    if syms != [] {
      Scattered(syms[1..], lens[1..], n);
      assert forall k :: 0 < k < |syms| ==> syms[k] == syms[1..][k - 1];
    }
  }

  lemma {:induction false} NoSpace(sizes: seq<nat>, top: nat)
    requires forall x :: 0 <= x < |sizes| ==> sizes[x] == 0
    ensures Space(sizes, top) == 0
  {
    if sizes != [] {
      NoSpace(sizes[..|sizes| - 1], top);
    }
  }

  lemma {:induction false} SpaceSet(sizes: seq<nat>, top: nat, x: nat, len: nat)
    requires (forall y :: 0 <= y < |sizes| ==> sizes[y] <= top) && x < |sizes| && sizes[x] == 0 && 1 <= len <= top
    ensures Space(sizes[x := len], top) == Space(sizes, top) + Pow2(top - len)
  {
    hide Space, Pow2;
    SpaceUpdate(sizes[x := len], top, x);
    assert sizes[x := len][x := 0] == sizes;
  }

  lemma {:induction false} ScatterBounded(syms: seq<SymFreq>, lens: seq<nat>, n: nat, top: nat)
    requires Distinct(syms, n) && |lens| == |syms| && forall k :: 0 <= k < |lens| ==> lens[k] <= top
    ensures forall x :: 0 <= x < n ==> Scatter(syms, lens, n)[x] <= top
    decreases |syms|
  {
    if syms != [] {
      ScatterBounded(syms[1..], lens[1..], n, top);
    }
  }

  lemma {:induction false} CodedSpace(weights: seq<nat>, lens: seq<nat>, top: nat)
    requires |weights| == |lens| > 0 && forall k :: 0 <= k < |lens| ==> lens[k] <= top
    ensures var c, d := CodeCost.Coded(weights, lens), CodeCost.Coded(weights[1..], lens[1..]);
      && CodeCost.Bounded(c, top) && CodeCost.Bounded(d, top)
      && CodeCost.Space(c, top) == Pow2(top - lens[0]) + CodeCost.Space(d, top)
  {
    assert CodeCost.Coded(weights, lens)[1..] == CodeCost.Coded(weights[1..], lens[1..]);
  }

  // They take the space of the lengths.
  lemma {:induction false} ScatterSpace(weights: seq<nat>, syms: seq<SymFreq>, lens: seq<nat>, n: nat, top: nat)
    requires Distinct(syms, n) && |lens| == |syms| == |weights| && forall k :: 0 <= k < |lens| ==> 1 <= lens[k] <= top
    ensures forall x :: 0 <= x < n ==> Scatter(syms, lens, n)[x] <= top
    ensures CodeCost.Bounded(CodeCost.Coded(weights, lens), top)
    ensures Space(Scatter(syms, lens, n), top) == CodeCost.Space(CodeCost.Coded(weights, lens), top)
    decreases |syms|
  {
    hide Pow2, Space;
    ScatterBounded(syms, lens, n, top);
    if syms == [] {
      NoSpace(Scatter(syms, lens, n), top);
    } else {
      hide CodeCost.Space;
      var x, rest := syms[0].sym, Scatter(syms[1..], lens[1..], n);
      ScatterSpace(weights[1..], syms[1..], lens[1..], n, top);
      CodedSpace(weights, lens, top);
      assert rest[x] == 0 by { Scattered(syms[1..], lens[1..], n); }
      SpaceSet(rest, top, x, lens[0]);
    }
  }

  // The lengths that were made have the least longest length that the shortest text takes.
  lemma {:induction false} MadeIsLeast(counts: seq<nat>, sorted: seq<SymFreq>, lens: seq<nat>, longest: nat)
    requires Entries(counts, sorted) && Made(sorted, lens, longest)
    requires forall k :: 0 <= k < |sorted| ==> sorted[k].key > 0
    ensures LeastLongest(counts, longest)
  {
    hide Cheapest, Made, Entries, Space, Pow2;
    EntriesDistinct(counts, sorted);
    var sizes := MadeSizes(counts, sorted, lens, longest);
    MadeIsCheapest(counts, sorted, sizes, longest);
    forall other: seq<nat>, t: nat | Encodes(counts, other, t) && Cheapest(counts, other)
      ensures longest <= t
    {
      LongestNeeded(counts, sorted, sizes, longest, other, t);
    }
  }

  lemma {:induction false} MadeSizes(counts: seq<nat>, sorted: seq<SymFreq>, lens: seq<nat>, longest: nat)
      returns (sizes: seq<nat>)
    requires Entries(counts, sorted) && Made(sorted, lens, longest)
    ensures Encodes(counts, sizes, longest) && |sizes| == |counts| && SizesOf(sorted, sizes) == lens
  {
    sizes := Scatter(sorted, lens, |counts|);
    Scattered(sorted, lens, |counts|);
    ScatterSpace(Keys(sorted), sorted, lens, |counts|, longest);
    forall x | 0 <= x < |counts| && counts[x] > 0
      ensures sizes[x] > 0
    {
      var k :| 0 <= k < |sorted| && sorted[k].sym == x;
      assert lens[k] >= 1;
    }
  }

  // As short a text takes as long a size.
  lemma {:induction false} LongestNeeded(counts: seq<nat>, sorted: seq<SymFreq>, sizes: seq<nat>, longest: nat,
        other: seq<nat>, t: nat)
    requires Entries(counts, sorted) && |sizes| == |counts| && Distinct(sorted, |counts|)
    requires Made(sorted, SizesOf(sorted, sizes), longest) && forall k :: 0 <= k < |sorted| ==> sorted[k].key > 0
    requires Encodes(counts, sizes, longest) && Encodes(counts, other, t) && Cheapest(counts, other)
    ensures longest <= t
  {
    if |sorted| >= 2 {
      MinimumAgainst(counts, sorted, sizes, other, t);
      assert TextLength(counts, sizes) == TextLength(counts, other);
      ReachedBy(counts, sorted, sizes, longest, other, t);
    } else if |sorted| == 1 {
      assert other[sorted[0].sym] >= 1;
    }
  }

  lemma {:induction false} ReachedBy(counts: seq<nat>, sorted: seq<SymFreq>, sizes: seq<nat>, longest: nat,
        other: seq<nat>, t: nat)
    requires Entries(counts, sorted) && |sizes| == |counts| && Distinct(sorted, |counts|)
    requires CodeCost.Reaches(Keys(sorted), SizesOf(sorted, sizes), longest)
    requires forall k :: 0 <= k < |sorted| ==> sorted[k].key > 0
    requires Encodes(counts, other, t) && TextLength(counts, sizes) == TextLength(counts, other)
    ensures longest <= t
  {
    hide Entries, CodeCost.Fits, CodeCost.Cost, TextLength, Space;
    EncodesEntries(counts, sorted, other, t);
    CostIsTextLength(counts, sorted, sizes);
    CostIsTextLength(counts, sorted, other);
    assert CodeCost.AsCheap(Keys(sorted), SizesOf(sorted, sizes), SizesOf(sorted, other), t);
    var i :| 0 <= i < |sorted| && SizesOf(sorted, other)[i] >= longest;
    assert other[sorted[i].sym] <= t;
  }

  // What the sizes are that tdefl_optimize_huffman_table gives to gathered symbols.
  lemma {:induction false} GatheredCheapest(counts: seq<nat>, syms: seq<SymFreq>, sizes: seq<nat>, sorted: seq<SymFreq>,
        lens: seq<nat>, num: seq<int>, limit: nat, longest: nat)
    requires Gathered(counts, sorted) && |syms| == |sorted|
    requires forall k :: 0 <= k < |syms| ==> syms[k].sym == sorted[k].sym
    requires |sizes| == |counts| && Made(sorted, lens, longest) && Unrepaired(lens, num, limit)
    requires SizesFrom(syms, 0, sizes, limit) && Sized(sizes, num, limit, limit + 1, 0)
    ensures Cheapest(counts, sizes)
  {
    hide Unrepaired, Cheapest, SizesFrom, Sized, CodeCost.Fits, CodeCost.Minimum, CodeCost.Reaches;
    SameSizes(syms, sorted, sizes);
    SizesAreLengths(syms, sizes, lens, num, limit);
    GatheredEntries(counts, sorted);
    MadeIsCheapest(counts, sorted, sizes, longest);
  }

  lemma {:induction false} GatheredEntries(counts: seq<nat>, syms: seq<SymFreq>)
    requires Gathered(counts, syms)
    ensures Entries(counts, syms) && forall k :: 0 <= k < |syms| ==> syms[k].key > 0
  {
    forall x | 0 <= x < |counts| && counts[x] > 0
      ensures exists k :: 0 <= k < |syms| && syms[k].sym == x
    {
      assert SymFreq(counts[x], x) in syms;
    }
  }
}
