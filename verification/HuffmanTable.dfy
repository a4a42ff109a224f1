// tdefl_optimize_huffman_table of shared/thirdparty/miniz/miniz.c: from symbol counts to
// code sizes and bit-reversed canonical codes.
module HuffmanTable {
  import opened Bits
  import CodeCost
  import opened HuffmanForest
  import opened HuffmanTree
  import opened Huffman
  import opened HuffmanLimit
  import opened RadixSort
  import opened HuffmanCodes
  import opened HuffmanSizes
  import opened CheapestSizes

  // Sizes for exactly the symbols that occur, none longer for a more frequent symbol or a later
  // one that is as frequent, that fill the code space when there are two or more.
  ghost predicate GoodSizes(counts: seq<nat>, sizes: seq<nat>, limit: nat)
    requires |counts| == |sizes|
  {
    && (forall x :: 0 <= x < |sizes| ==> sizes[x] <= limit && (sizes[x] > 0 <==> counts[x] > 0))
    && (forall x, y :: 0 <= x < |sizes| && 0 <= y < |sizes| && 0 < counts[x] < counts[y] ==> sizes[x] >= sizes[y])
    && (forall x, y :: 0 <= x < y < |sizes| && 0 < counts[x] == counts[y] ==> sizes[x] >= sizes[y])
    && (Occurring(counts) >= 2 ==> Space(sizes, limit) == Pow2(limit))
  }

  // After the repair: used codes that fit, and fill the space if there are two or more.
  ghost predicate Repaired(num: seq<int>, used: nat, limit: nat) {
    && Counts(num) && 1 <= limit < |num| && Total(num, limit) == used
    && Weight(num, limit, limit) <= Pow2(limit)
    && (used >= 2 ==> Complete(num, limit))
  }

  // What limiting makes of codes with these lengths.
  ghost predicate LimitedTo(lens: seq<nat>, num: seq<int>, limit: nat) {
    exists made: seq<int>, turns: seq<seq<int>> :: LimitedBy(lens, made, turns, num, limit)
  }

  ghost predicate LimitedBy(lens: seq<nat>, made: seq<int>, turns: seq<seq<int>>, num: seq<int>, limit: nat) {
    && Counted(made, lens) && limit < |made| && turns != [] && turns[|turns| - 1] == num
    && Folded(made, turns[0], limit) && Turns(turns, limit)
  }

  // As many symbols have each size as are left of the lengths of minimum redundancy when these
  // are limited, turn by turn.
  ghost predicate LimitedFrom(counts: seq<nat>, sizes: seq<nat>, longest: nat, limit: nat) {
    exists sorted: seq<SymFreq>, lens: seq<nat>, num: seq<int> ::
      && Gathered(counts, sorted) && SortedByKey(sorted) && Made(sorted, lens, longest)
      && LimitedTo(lens, num, limit) && SizesNumber(sizes, num, limit)
  }

  ghost predicate SizesNumber(sizes: seq<nat>, num: seq<int>, limit: nat) {
    forall len: nat :: 1 <= len <= limit && len < |num| ==> multiset(sizes)[len] == num[len]
  }

  lemma {:induction false} FitsNumber(sizes: seq<nat>, num: seq<int>, limit: nat)
    requires Fits(sizes, num, limit)
    ensures SizesNumber(sizes, num, limit)
  {
    forall len: nat | 1 <= len <= limit && len < |num|
      ensures multiset(sizes)[len] == num[len]
    {
      CountIsMultiset(sizes, len);
    }
  }

  lemma {:induction false} FewCodes(num: seq<int>, used: nat, limit: nat)
    requires Counts(num) && 1 <= limit < |num| && used <= 1
    requires forall len :: 0 <= len < |num| ==> num[len] == if used == 1 && len == 1 then 1 else 0
    ensures Repaired(num, used, limit)
  {
    var d: int := used;
    NoShortCodes(num[1 := num[1] + -d], limit, limit);
    WeightAdd(num, limit, limit, 1, -d);
    TotalAdd(num, limit, 1, -d);
    Pow2Monotone(limit - 1, limit);
  }

  lemma {:induction false} SizesAreGood(counts: seq<nat>, syms: seq<SymFreq>, sizes: seq<nat>, num: seq<int>,
        limit: nat, sorted: seq<SymFreq>)
    requires Gathered(counts, sorted) && SortedByKey(sorted) && TiesAscend(sorted) && |sorted| == |syms|
    requires forall k :: 0 <= k < |syms| ==> syms[k].sym == sorted[k].sym
    requires |sizes| == |counts| && Repaired(num, |syms|, limit)
    requires SizesFrom(syms, 0, sizes, limit) && Sized(sizes, num, limit, limit + 1, 0)
    ensures GoodSizes(counts, sizes, limit) && Fits(sizes, num, limit)
  {
    SpaceIsWeight(sizes, num, limit);
    forall x: nat, y: nat | x < |counts| && y < |counts|
      ensures sizes[x] > 0 <==> counts[x] > 0
      ensures 0 < counts[x] < counts[y] ==> sizes[x] >= sizes[y]
      ensures x < y && 0 < counts[x] == counts[y] ==> sizes[x] >= sizes[y]
    {
      SizesMatch(counts, syms, sizes, limit, sorted, x, y);
    }
  }

  // The entry of a symbol that occurs.
  lemma {:induction false} EntryOf(counts: seq<nat>, syms: seq<SymFreq>, sorted: seq<SymFreq>, x: nat) returns (k: nat)
    requires Gathered(counts, sorted) && |sorted| == |syms| && x < |counts| && counts[x] > 0
    requires forall k :: 0 <= k < |syms| ==> syms[k].sym == sorted[k].sym
    ensures k < |syms| && sorted[k] == SymFreq(counts[x], x) && syms[k].sym == x
  {
    assert SymFreq(counts[x], x) in sorted;
    k :| 0 <= k < |sorted| && sorted[k] == SymFreq(counts[x], x);
  }

  lemma {:induction false} SizesMatch(counts: seq<nat>, syms: seq<SymFreq>, sizes: seq<nat>, limit: nat,
        sorted: seq<SymFreq>, x: nat, y: nat)
    requires Gathered(counts, sorted) && SortedByKey(sorted) && TiesAscend(sorted) && |sorted| == |syms|
    requires forall k :: 0 <= k < |syms| ==> syms[k].sym == sorted[k].sym
    requires |sizes| == |counts| && SizesFrom(syms, 0, sizes, limit) && x < |counts| && y < |counts|
    ensures sizes[x] > 0 <==> counts[x] > 0
    ensures 0 < counts[x] < counts[y] || (x < y && 0 < counts[x] == counts[y]) ==> sizes[x] >= sizes[y]
  {
    hide Gathered, SortedByKey, TiesAscend;
    if sizes[x] > 0 {
      var k :| 0 <= k < |syms| && syms[k].sym == x;
      EntryCounts(counts, sorted, k);
    }
    if counts[x] > 0 {
      var k := EntryOf(counts, syms, sorted, x);
      EntrySizes(syms, sizes, limit, k, k);
      if counts[x] < counts[y] || (x < y && counts[x] == counts[y]) {
        var l := EntryOf(counts, syms, sorted, y);
        assert k < l by { EntryOrder(sorted, l, k); }
        EntrySizes(syms, sizes, limit, k, l);
      }
    }
  }

  lemma {:induction false} EntryCounts(counts: seq<nat>, sorted: seq<SymFreq>, k: nat)
    requires Gathered(counts, sorted) && k < |sorted|
    ensures sorted[k].sym < |counts| && counts[sorted[k].sym] >= 1
  {
  }

  lemma {:induction false} EntryOrder(sorted: seq<SymFreq>, l: nat, k: nat)
    requires SortedByKey(sorted) && TiesAscend(sorted) && l < |sorted| && k < |sorted|
    ensures l <= k ==> sorted[l].key <= sorted[k].key
    ensures l <= k && sorted[l].key == sorted[k].key ==> sorted[l].sym <= sorted[k].sym
  {
  }

  lemma {:induction false} EntrySizes(syms: seq<SymFreq>, sizes: seq<nat>, limit: nat, k: nat, l: nat)
    requires SizesFrom(syms, 0, sizes, limit) && k <= l < |syms|
    ensures syms[k].sym < |sizes| && syms[l].sym < |sizes| && sizes[syms[k].sym] >= sizes[syms[l].sym] >= 1
  {
  }

  // The symbols that occur, by frequency.
  method SortedSyms(counts: array<nat>, n: nat) returns (syms: array<SymFreq>, used: nat)
    requires n <= counts.Length && n <= MAX_HUFF_SYMBOLS && SumOf(counts[..n]) < KEY_RANGE
    ensures fresh(syms) && used <= syms.Length && used <= MAX_HUFF_SYMBOLS
    ensures Gathered(counts[..n], syms[..used]) && SortedByKey(syms[..used]) && Frequencies(syms[..used])
    ensures TiesAscend(syms[..used])
  {
    hide SortedByKey, Gathered, SumOf, Frequencies, Stable, InSymbolOrder, TiesAscend;
    var syms0 := new SymFreq[MAX_HUFF_SYMBOLS](_ => SymFreq(0, 0));
    var syms1 := new SymFreq[MAX_HUFF_SYMBOLS](_ => SymFreq(0, 0));
    used := Gather(counts, n, syms0);
    ghost var s := syms0[..used];
    GatheredFits(counts[..n], s);
    syms := RadixSortSyms(used, syms0, syms1);
    GatheredPermuted(counts[..n], s, syms[..used]);
    StableTies(s, syms[..used]);
    GatheredFrequencies(counts[..n], syms[..used]);
  }

  lemma {:induction false} GatheredFits(counts: seq<nat>, s: seq<SymFreq>)
    requires Gathered(counts, s) && SumOf(counts) < KEY_RANGE
    ensures forall i :: 0 <= i < |s| ==> s[i].key < KEY_RANGE
  {
    forall i | 0 <= i < |s|
      ensures s[i].key < KEY_RANGE
    {
      LeafBelowSum(s, i, 0);
    }
  }

  lemma {:induction false} LeafBelowSum(s: seq<SymFreq>, i: nat, from: nat)
    requires from <= i < |s|
    ensures s[i].key <= LeafSum(s, from)
    decreases i - from
  {
    if from < i {
      LeafBelowSum(s, i, from + 1);
    }
  }

  lemma {:induction false} GatheredFrequencies(counts: seq<nat>, s: seq<SymFreq>)
    requires Gathered(counts, s) && SortedByKey(s) && SumOf(counts) < KEY_RANGE
    ensures Frequencies(s)
  {
  }

  // How many codes of each length there are to be. The lengths that were made are left in
  // the entries; the longest is that of the first.
  method LengthCounts(syms: array<SymFreq>, used: nat, limit: nat) returns (num: array<int>, ghost longest: nat)
    requires used <= syms.Length && used <= MAX_HUFF_SYMBOLS && 1 <= limit <= 16 && used <= Pow2(limit)
    requires Frequencies(syms[..used])
    modifies syms
    ensures SameSyms(old(syms[..]), syms[..], used)
    ensures fresh(num) && num.Length == MAX_SUPPORTED + 1 && Repaired(num[..], used, limit)
    ensures Made(old(syms[..used]), Keys(syms[..used]), longest) && longest == if used == 0 then 0 else syms[0].key
    ensures longest <= limit ==> Unrepaired(Keys(syms[..used]), num[..], limit)
    ensures used >= 2 ==> LimitedTo(Keys(syms[..used]), num[..], limit)
    ensures used >= 2 ==> Fib(longest + 2) <= LeafSum(old(syms[..used]), 0)
  {
    hide Made, Unrepaired, Counted, Folded, Turns, LeafSum, Fib, CompleteLengths, SameSyms, Frequencies, Repaired,
      CodeCost.Minimum, CodeCost.Reaches, Keys, Weight, Total, Kraft, Pow2, Counts, Complete;
    ghost var sorted := syms[..used];
    ghost var top := CalculateMinimumRedundancy(syms, used);
    if used >= 2 {
      CompleteAt32(syms[..used], top);
      MadeOfMany(sorted, syms[..used], top);
    } else {
      MadeOfFew(sorted, syms[..used]);
    }
    longest := if used == 0 then 0 else syms[0].key;
    num := new int[MAX_SUPPORTED + 1](_ => 0);
    CountLengths(syms, used, num);
    ghost var c := num[..];
    if used >= 2 {
      FullIsComplete(c);
      if longest <= limit {
        NoRepair(syms[..used], top, c, limit);
      }
    }
    ghost var turns := EnforceMaxCodeSize(num, used, limit);
    if used <= 1 {
      FewCodes(num[..], used, limit);
      FewUnrepaired(syms[..used], num[..], limit);
    } else {
      ManyCodes(num[..], used, limit);
      assert LimitedBy(Keys(syms[..used]), c, turns, num[..], limit);
    }
  }

  // The lengths of entries take the code space that the same lengths take as words.
  lemma {:induction false} KraftIsSpace(weights: seq<nat>, t: seq<SymFreq>, top: nat)
    requires |weights| == |t| && forall k :: 0 <= k < |t| ==> t[k].key <= top
    ensures var c := CodeCost.Coded(weights, Keys(t));
      CodeCost.Bounded(c, top) && CodeCost.Space(c, top) == Kraft(t, top)
    decreases |t|
  {
    hide Pow2;
    if t != [] {
      KraftIsSpace(weights[1..], t[1..], top);
      assert CodeCost.Coded(weights, Keys(t))[1..] == CodeCost.Coded(weights[1..], Keys(t[1..]));
    }
  }

  lemma {:induction false} MadeOfMany(sorted: seq<SymFreq>, t: seq<SymFreq>, top: nat)
    requires |t| == |sorted| >= 2 && CompleteLengths(t, top)
    requires CodeCost.Minimum(Keys(sorted), Keys(t)) && CodeCost.Reaches(Keys(sorted), Keys(t), top)
    ensures Made(sorted, Keys(t), top)
  {
    hide CodeCost.Minimum, CodeCost.Reaches;
    KraftIsSpace(Keys(sorted), t, top);
  }

  lemma {:induction false} MadeOfFew(sorted: seq<SymFreq>, t: seq<SymFreq>)
    requires |t| == |sorted| <= 1 && (|t| == 1 ==> t[0].key == 1)
    ensures Made(sorted, Keys(t), |t|)
  {
    assert Pow2(0) == 1 && Pow2(1) == 2;
    KraftIsSpace(Keys(sorted), t, |t|);
    if |t| == 1 {
      assert t[1..] == [] && Kraft(t, 1) == 1;
    }
  }

  // If the construction made no length above the limit, there is nothing to repair.
  lemma {:induction false} NoRepair(t: seq<SymFreq>, top: nat, num: seq<int>, limit: nat)
    requires CompleteLengths(t, top) && top <= limit < MAX_SUPPORTED
    requires Counted(num, Keys(t)) && Total(num, MAX_SUPPORTED) == |t|
    ensures Total(num, limit) == |t| && Unrepaired(Keys(t), num, limit)
  {
    forall len: nat | limit < len <= MAX_SUPPORTED
      ensures num[len] == 0
    {
      CountNone(Keys(t), len);
    }
    NoneAbove(num, limit, MAX_SUPPORTED);
  }

  lemma {:induction false} NoneAbove(num: seq<int>, low: nat, hi: nat)
    requires low <= hi < |num| && forall len: nat :: low < len <= hi ==> num[len] == 0
    ensures Total(num, hi) == Total(num, low)
    decreases hi
  {
    if low < hi {
      NoneAbove(num, low, hi - 1);
    }
  }

  lemma {:induction false} FewUnrepaired(t: seq<SymFreq>, num: seq<int>, limit: nat)
    requires |t| <= 1 && (|t| == 1 ==> t[0].key == 1) && Counted(num, Keys(t)) && 1 <= limit < |num|
    ensures Unrepaired(Keys(t), num, limit)
  {
  }

  lemma {:induction false} CompleteAt32(s: seq<SymFreq>, top: nat)
    requires CompleteLengths(s, top) && top <= MAX_SUPPORTED
    ensures forall i :: 0 <= i < |s| ==> 1 <= s[i].key <= MAX_SUPPORTED
    ensures Kraft(s, MAX_SUPPORTED) == Pow2(MAX_SUPPORTED)
  {
    KraftRescale(s, top, MAX_SUPPORTED - top);
    Pow2Add(top, MAX_SUPPORTED - top);
  }

  lemma {:induction false} FullIsComplete(num: seq<int>)
    requires Counts(num) && Weight(num, MAX_SUPPORTED, MAX_SUPPORTED) == Pow2(MAX_SUPPORTED)
    ensures Complete(num, MAX_SUPPORTED)
  {
  }

  lemma {:induction false} ManyCodes(num: seq<int>, used: nat, limit: nat)
    requires Counts(num) && 1 <= limit < |num| && Complete(num, limit) && Total(num, limit) == used
    ensures Repaired(num, used, limit)
  {
  }

  // The branch of tdefl_optimize_huffman_table for a table that is not static.
  method SizesFromCounts(counts: array<nat>, sizes: array<nat>, limit: nat)
      returns (num: array<int>, ghost longest: nat)
    requires counts != sizes && counts.Length == sizes.Length <= MAX_HUFF_SYMBOLS && 1 <= limit <= 16
    requires SumOf(counts[..]) < KEY_RANGE && Occurring(counts[..]) <= Pow2(limit)
    modifies sizes
    ensures fresh(num) && num.Length == MAX_SUPPORTED + 1
    ensures GoodSizes(counts[..], sizes[..], limit) && Fits(sizes[..], num[..], limit)
    ensures LeastLongest(counts[..], longest) && (Cheapest(counts[..], sizes[..]) <==> longest <= limit)
    ensures Occurring(counts[..]) >= 2 ==> LimitedFrom(counts[..], sizes[..], longest, limit)
    ensures SumOf(counts[..]) < Fib(limit + 3) ==> longest <= limit
  {
    hide Made, LimitedTo, SizesNumber, LeastLongest, Unrepaired, Cheapest, Fib, Keys, Gathered, SortedByKey, TiesAscend,
      Frequencies, SameSyms, Repaired, SizesFrom, Sized, Distinct, GoodSizes, Fits, SumOf, Occurring;
    var n := counts.Length;
    assert counts[..n] == counts[..];
    var syms, used := SortedSyms(counts, n);
    ghost var sorted, before := syms[..used], syms[..];
    GatheredFacts(counts[..], sorted);
    num, longest := LengthCounts(syms, used, limit);
    SameSymbols(sorted, before, syms[..], used);
    RepairedFacts(num[..], used, limit);
    ghost var c, t := num[..], syms[..used];
    for x := 0 to sizes.Length
      invariant forall y :: 0 <= y < x ==> sizes[y] == 0
      modifies sizes
    {
      sizes[x] := 0;
    }
    assert num[..] == c && syms[..used] == t;
    AssignSizes(syms, used, num, limit, sizes);
    assert num[..] == c && syms[..used] == t;
    SizesAreGood(counts[..], t, sizes[..], c, limit, sorted);
    FitsNumber(sizes[..], c, limit);
    LongestIsLeast(counts[..], sorted, Keys(t), longest, limit);
    if longest <= limit {
      GatheredCheapest(counts[..], t, sizes[..], sorted, Keys(t), c, limit, longest);
    } else {
      CheapestWithin(counts[..], sizes[..], c, longest, limit);
    }
  }

  // The longest length is the least that the shortest text takes. Small counts do not make it
  // long.
  lemma {:induction false} LongestIsLeast(counts: seq<nat>, sorted: seq<SymFreq>, lens: seq<nat>, longest: nat,
        limit: nat)
    requires Gathered(counts, sorted) && Made(sorted, lens, longest) && 1 <= limit
    requires |sorted| >= 2 ==> Fib(longest + 2) <= LeafSum(sorted, 0)
    ensures LeastLongest(counts, longest) && (SumOf(counts) < Fib(limit + 3) ==> longest <= limit)
  {
    GatheredEntries(counts, sorted);
    MadeIsLeast(counts, sorted, lens, longest);
    if |sorted| >= 2 && longest > limit {
      FibMonotone(limit + 3, longest + 2);
    }
  }

  // Sizes within the limit are not the cheapest if these need a longer one.
  lemma {:induction false} CheapestWithin(counts: seq<nat>, sizes: seq<nat>, num: seq<int>, longest: nat, limit: nat)
    requires |sizes| == |counts| && GoodSizes(counts, sizes, limit) && LeastLongest(counts, longest) && limit < longest
    requires Fits(sizes, num, limit)
    ensures !Cheapest(counts, sizes)
  {
    SpaceIsWeight(sizes, num, limit);
    assert Encodes(counts, sizes, limit);
  }

  // tdefl_optimize_huffman_table: any table's codes can be told apart, and a table built from counts has
  // good sizes. The static tables come with sizes that fit.
  method OptimizeHuffmanTable(counts: array<nat>, sizes: array<nat>, codes: array<nat>, limit: nat, isStatic: bool)
      returns (ghost longest: nat)
    requires counts != sizes && counts != codes && sizes != codes && 1 <= limit <= 16
    requires counts.Length == sizes.Length == codes.Length <= MAX_HUFF_SYMBOLS
    requires isStatic ==> (forall x :: 0 <= x < sizes.Length ==> sizes[x] <= limit)
    requires isStatic ==> Space(sizes[..], limit) <= Pow2(limit)
    requires !isStatic ==> SumOf(counts[..]) < KEY_RANGE && Occurring(counts[..]) <= Pow2(limit)
    modifies sizes, codes
    ensures Decodable(sizes[..], codes[..]) && Canonical(sizes[..], codes[..], limit) && Ascending(sizes[..], codes[..])
    ensures forall x :: 0 <= x < codes.Length && sizes[x] == 0 ==> codes[x] == if isStatic then old(codes[x]) else 0
    ensures if isStatic then sizes[..] == old(sizes[..]) else GoodSizes(counts[..], sizes[..], limit)
    ensures !isStatic ==> LeastLongest(counts[..], longest) && (Cheapest(counts[..], sizes[..]) <==> longest <= limit)
    ensures !isStatic && Occurring(counts[..]) >= 2 ==> LimitedFrom(counts[..], sizes[..], longest, limit)
    ensures !isStatic && SumOf(counts[..]) < Fib(limit + 3) ==> longest <= limit
  {
    hide LeastLongest, LimitedFrom, Cheapest, Fib, GoodSizes, Fits, SumOf, Occurring, Decodable, Canonical, Ascending;
    var num;
    if isStatic {
      num := new int[MAX_SUPPORTED + 1](_ => 0);
      CountSizes(sizes, sizes.Length, num);
      assert sizes[..sizes.Length] == sizes[..];
      StaticFits(sizes[..], num[..], limit);
      longest := limit;
    } else {
      for x := 0 to codes.Length
        invariant forall y :: 0 <= y < x ==> codes[y] == 0
        modifies codes
      {
        codes[x] := 0;
      }
      num, longest := SizesFromCounts(counts, sizes, limit);
    }
    assert sizes[..sizes.Length] == sizes[..] && codes[..codes.Length] == codes[..];
    AssignCodes(sizes, num, limit, codes, sizes.Length);
    assert codes[..codes.Length] == codes[..];
  }

  lemma {:induction false} StaticFits(sizes: seq<nat>, num: seq<int>, limit: nat)
    requires Counts(num) && 1 <= limit < |num| && forall x :: 0 <= x < |sizes| ==> sizes[x] <= limit
    requires forall len: nat :: len <= MAX_SUPPORTED ==> num[len] == CountOf(sizes, len)
    requires Space(sizes, limit) <= Pow2(limit)
    ensures Fits(sizes, num, limit)
  {
    SpaceIsWeight(sizes, num, limit);
  }

  lemma {:induction false} GatheredFacts(counts: seq<nat>, syms: seq<SymFreq>)
    requires Gathered(counts, syms)
    ensures Distinct(syms, |counts|) && |syms| == Occurring(counts) && LeafSum(syms, 0) == SumOf(counts)
  {
  }

  lemma {:induction false} RepairedFacts(num: seq<int>, used: nat, limit: nat)
    requires Repaired(num, used, limit)
    ensures Counts(num) && limit < |num| && Total(num, limit) == used
  {
  }

  lemma {:induction false} SameSymbols(sorted: seq<SymFreq>, before: seq<SymFreq>, after: seq<SymFreq>, used: nat)
    requires used <= |before| && sorted == before[..used] && SameSyms(before, after, used)
    ensures |before| == |after| && forall k :: 0 <= k < used ==> after[k].sym == sorted[k].sym
    ensures forall n: nat :: Distinct(sorted, n) ==> Distinct(after[..used], n)
  {
  }

  // A limit can cost something: four symbols that occur 1, 1, 2 and 3 times are encoded best
  // with sizes 3, 3, 2 and 1, which a limit of 2 does not admit.
  lemma {:induction false} LimitCosts(sizes: seq<nat>)
    requires |sizes| == 4 && GoodSizes([1, 1, 2, 3], sizes, 2)
    ensures !Cheapest([1, 1, 2, 3], sizes)
  {
    var counts: seq<nat>, best: seq<nat> := [1, 1, 2, 3], [3, 3, 2, 1];
    assert Pow2(1) == 2 && Pow2(2) == 4 && Pow2(3) == 8 && Pow2(0) == 1;
    FourOccur();
    FourSymbols(counts, sizes, 2);
    FourSymbols(counts, best, 3);
    assert forall x :: 0 <= x < 4 ==> counts[x] > 0 && 1 <= sizes[x] <= 2;
    assert Encodes(counts, best, 3);
    assert TextLength(counts, best) == 13 && TextLength(counts, sizes) == 14;
  }

  lemma {:induction false} FourOccur()
    ensures Occurring([1, 1, 2, 3]) == 4
  {
    assert [1, 1, 2, 3][..3] == [1, 1, 2] && [1, 1, 2][..2] == [1, 1] && [1, 1][..1] == [1] && [1][..0] == [];
  }

  lemma {:induction false} FourSymbols(c: seq<nat>, s: seq<nat>, top: nat)
    requires |c| == |s| == 4 && forall x :: 0 <= x < 4 ==> 1 <= s[x] <= top
    ensures TextLength(c, s) == c[0] * s[0] + c[1] * s[1] + c[2] * s[2] + c[3] * s[3]
    ensures Space(s, top) == Pow2(top - s[0]) + Pow2(top - s[1]) + Pow2(top - s[2]) + Pow2(top - s[3])
  {
    assert s[..3][..2] == s[..2] && s[..2][..1] == s[..1] && s[..1][..0] == [];
    assert c[..3][..2] == c[..2] && c[..2][..1] == c[..1] && c[..1][..0] == [];
    assert TextLength(c[..1], s[..1]) == c[0] * s[0];
    assert TextLength(c[..2], s[..2]) == c[0] * s[0] + c[1] * s[1];
    assert TextLength(c[..3], s[..3]) == c[0] * s[0] + c[1] * s[1] + c[2] * s[2];
    assert Space(s[..1], top) == Pow2(top - s[0]);
    assert Space(s[..2], top) == Pow2(top - s[0]) + Pow2(top - s[1]);
  }
}
