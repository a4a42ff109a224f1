// Limiting Huffman code lengths: tdefl_huffman_enforce_max_code_size of
// shared/thirdparty/miniz/miniz.c works on how many codes there are of each length.
module HuffmanLimit {
  import opened Bits

  const MAX_SUPPORTED: nat := 32
  const WORD_RANGE: nat := 0x1_0000_0000

  // The code space, in units of 2^-top, of the codes of length 1 .. hi.
  ghost function Weight(s: seq<int>, hi: nat, top: nat): int
    requires hi <= top && hi < |s|
  {
    if hi == 0 then 0 else Weight(s, hi - 1, top) + s[hi] * Pow2(top - hi)
  }

  // How many codes of length 1 .. hi there are.
  ghost function Total(s: seq<int>, hi: nat): int
    requires hi < |s|
  {
    if hi == 0 then 0 else Total(s, hi - 1) + s[hi]
  }

  ghost predicate Counts(s: seq<int>) {
    |s| == MAX_SUPPORTED + 1 && forall i :: 0 <= i < |s| ==> s[i] >= 0
  }

  lemma {:induction false} WeightAdd(s: seq<int>, hi: nat, top: nat, i: nat, d: int)
    requires hi <= top && hi < |s| && 1 <= i < |s|
    ensures Weight(s[i := s[i] + d], hi, top) == Weight(s, hi, top) + (if i <= hi then d * Pow2(top - i) else 0)
  {
    if hi > 0 {
      WeightAdd(s, hi - 1, top, i, d);
      if i == hi {
        assert (s[i] + d) * Pow2(top - i) == s[i] * Pow2(top - i) + d * Pow2(top - i);
      }
    }
  }

  lemma {:induction false} TotalAdd(s: seq<int>, hi: nat, i: nat, d: int)
    requires hi < |s| && 1 <= i < |s|
    ensures Total(s[i := s[i] + d], hi) == Total(s, hi) + (if i <= hi then d else 0)
  {
    if hi > 0 {
      TotalAdd(s, hi - 1, i, d);
    }
  }

  lemma {:induction false} WeightBounds(s: seq<int>, hi: nat, top: nat)
    requires Counts(s) && hi <= top && hi < |s|
    ensures 0 <= Total(s, hi) <= Weight(s, hi, top)
    ensures forall i :: 1 <= i <= hi ==> s[i] <= Total(s, hi) && (i < top ==> 2 * s[i] <= Weight(s, hi, top))
  {
    if hi > 0 {
      WeightBounds(s, hi - 1, top);
      MulMono(1, Pow2(top - hi), s[hi]);
      if hi < top {
        Pow2Monotone(1, top - hi);
        assert Pow2(1) == 2;
        MulMono(2, Pow2(top - hi), s[hi]);
      }
    }
  }

  // Finer units scale the code space.
  lemma {:induction false} WeightRescale(s: seq<int>, hi: nat, top: nat, k: nat)
    requires hi <= top && hi < |s|
    ensures Weight(s, hi, top + k) == Weight(s, hi, top) * Pow2(k)
  {
    hide Pow2;
    if hi > 0 {
      WeightRescale(s, hi - 1, top, k);
      Pow2Add(top - hi, k);
      RescaleStep(Weight(s, hi - 1, top), s[hi], Pow2(top - hi), Pow2(k));
    }
  }

  lemma {:induction false} RescaleStep(w: int, a: int, p: int, k: int)
    ensures (w + a * p) * k == w * k + a * (p * k)
  {
    Distribute(w, a * p, k);
    assert (a * p) * k == a * (p * k);
  }

  // Codes longer than low take at most the space that as many codes of length low do.
  lemma {:induction false} LongCodesAreSmall(s: seq<int>, low: nat, hi: nat, top: nat)
    requires Counts(s) && low <= hi <= top && hi < |s|
    ensures Weight(s, hi, top) <= Weight(s, low, top) + (Total(s, hi) - Total(s, low)) * Pow2(top - low)
  {
    hide Pow2;
    if low < hi {
      LongCodesAreSmall(s, low, hi - 1, top);
      Pow2Monotone(top - hi, top - low);
      LongStep(Total(s, hi - 1) - Total(s, low), s[hi], Pow2(top - hi), Pow2(top - low));
    }
  }

  lemma {:induction false} LongStep(t: int, a: int, q: int, p: int)
    requires a >= 0 && q <= p
    ensures t * p + a * q <= (t + a) * p
  {
    MulMono(q, p, a);
    Distribute(t, a, p);
  }

  lemma {:induction false} NoShortCodes(s: seq<int>, hi: nat, top: nat)
    requires hi <= top && hi < |s| && forall i :: 1 <= i <= hi ==> s[i] == 0
    ensures Weight(s, hi, top) == 0 && Total(s, hi) == 0
  {
    if hi > 0 {
      NoShortCodes(s, hi - 1, top);
    }
  }

  // The prefix-free codes of at most 2^max symbols that fill the code space up to max.
  ghost predicate Complete(s: seq<int>, max: nat)
    requires max < |s|
  {
    Weight(s, max, max) == Pow2(max)
  }

  // No complete code with lengths up to max has more than 2^max symbols, so the limit can
  // be met exactly when there are no more.
  lemma {:induction false} LimitIsNecessary(s: seq<int>, max: nat)
    requires Counts(s) && max < |s| && Complete(s, max)
    ensures Total(s, max) <= Pow2(max)
  {
    WeightBounds(s, max, max);
  }

  // Between two turns of the repair loop the codes shorter than max are not too many, and
  // those of length max are too many by total - 2^max.
  ghost predicate Repairing(s: seq<int>, max: nat, n: nat, total: nat) {
    && Counts(s) && 1 <= max <= MAX_SUPPORTED
    && n <= Pow2(max) && Total(s, max) == n
    && Weight(s, max - 1, max) <= Pow2(max)
    && total == Weight(s, max, max) >= Pow2(max)
  }

  // While the codes take too much space there is one of length max to give up, and a
  // shorter one to split.
  lemma {:induction false} RepairPossible(s: seq<int>, max: nat, n: nat, total: nat) returns (i: nat)
    requires Repairing(s, max, n, total) && total != Pow2(max)
    ensures |s| == MAX_SUPPORTED + 1 && max < |s| && forall j :: 0 <= j < |s| ==> s[j] >= 0
    ensures s[max] >= 1 && 1 <= i < max && s[i] > 0
  {
    assert Pow2(max - max) == 1;
    assert s[max] >= 1;
    if forall j :: 1 <= j <= max - 1 ==> s[j] == 0 {
      NoShortCodes(s, max - 1, max);
      assert false;
    }
    i :| 1 <= i < max && s[i] > 0;
  }

  // One turn: a code of length max goes, one of length i is split into two.
  lemma {:induction false} RepairStep(s: seq<int>, max: nat, n: nat, total: nat, i: nat)
    requires Repairing(s, max, n, total) && total != Pow2(max)
    requires 1 <= i < max && s[i] > 0 && s[max] >= 1
    ensures total > 0
    ensures var a := s[max := s[max] - 1]; var b := a[i := a[i] - 1]; var c := b[i + 1 := b[i + 1] + 2];
      Repairing(c, max, n, total - 1)
  {
    hide Pow2, Weight, Total;
    var a := s[max := s[max] - 1];
    var b := a[i := a[i] - 1];
    Pow2Next(max - (i + 1));
    Added(s, max, max, -1);
    Added(a, max, i, -1);
    Added(b, max, i + 1, 2);
  }

  lemma {:induction false} Added(s: seq<int>, max: nat, i: nat, d: int)
    requires 1 <= max < |s| && 1 <= i <= max
    ensures var t := s[i := s[i] + d];
      && Total(t, max) == Total(s, max) + d
      && Weight(t, max, max) == Weight(s, max, max) + d * Pow2(max - i)
      && Weight(t, max - 1, max) == Weight(s, max - 1, max) + (if i < max then d * Pow2(max - i) else 0)
  {
    TotalAdd(s, max, i, d);
    WeightAdd(s, max, max, i, d);
    WeightAdd(s, max - 1, max, i, d);
  }

  // Treating every longer code as one of length max leaves a code to repair.
  lemma {:induction false} RepairStart(s: seq<int>, max: nat, n: nat)
    requires Counts(s) && 1 <= max < MAX_SUPPORTED
    requires Complete(s, MAX_SUPPORTED) && Total(s, MAX_SUPPORTED) == n <= Pow2(max)
    ensures var t := s[max := s[max] + (Total(s, MAX_SUPPORTED) - Total(s, max))];
      Weight(t, max, max) >= 0 && Repairing(t, max, n, Weight(t, max, max)) && Weight(t, max, max) < WORD_RANGE
  {
    hide Pow2, Weight;
    var long := Total(s, MAX_SUPPORTED) - Total(s, max);
    var head := Weight(s, max - 1, max);
    WeightGrows(s, max, MAX_SUPPORTED, MAX_SUPPORTED);
    Added(s, max, max, long);
    Pow2Next(0);
    LastWeight(s, max);
    SpaceWithLong(s, max, long);
    SpaceBelow(s, max, long);
    WeightGrows(s, 0, max - 1, max - 1);
    TotalBelowRange(head, s[max] + long, max, n);
  }

  lemma {:induction false} LastWeight(s: seq<int>, max: nat)
    requires 1 <= max < |s|
    ensures Weight(s, max, max) == Weight(s, max - 1, max) + s[max]
  {
    assert Pow2(max - max) == 1;
  }

  // Measured in codes of length max, a complete code overfills the space when its long
  // codes count as codes of that length ...
  lemma {:induction false} SpaceWithLong(s: seq<int>, max: nat, long: int)
    requires Counts(s) && 1 <= max < MAX_SUPPORTED && Complete(s, MAX_SUPPORTED)
    requires long == Total(s, MAX_SUPPORTED) - Total(s, max)
    ensures Weight(s, max, max) + long >= Pow2(max)
  {
    var k := MAX_SUPPORTED - max;
    var w := Weight(s, max, max);
    Pow2Add(max, k);
    WeightRescale(s, max, max, k);
    LongCodesAreSmall(s, max, MAX_SUPPORTED, MAX_SUPPORTED);
    Distribute(w, long, Pow2(k));
    CancelPositive(Pow2(max), w + long, Pow2(k));
  }

  lemma {:induction false} Distribute(a: int, b: int, p: int)
    ensures (a + b) * p == a * p + b * p
  {
  }

  // ... but not when only its shorter codes count.
  lemma {:induction false} SpaceBelow(s: seq<int>, max: nat, long: int)
    requires Counts(s) && 1 <= max < MAX_SUPPORTED && Complete(s, MAX_SUPPORTED)
    requires long == Total(s, MAX_SUPPORTED) - Total(s, max)
    ensures Weight(s, max - 1, max) <= Pow2(max)
    ensures Weight(s, max - 1, max) == Pow2(max) ==> s[max] + long == 0
  {
    var k := MAX_SUPPORTED - max;
    Pow2Add(max, k);
    WeightRescale(s, max - 1, max, k);
    WeightGrows(s, max - 1, MAX_SUPPORTED, MAX_SUPPORTED);
    WeightGrows(s, max, MAX_SUPPORTED, MAX_SUPPORTED);
    CancelPositive(Weight(s, max - 1, max), Pow2(max), Pow2(k));
  }

  lemma {:induction false} TotalBelowRange(head: int, tail: int, max: nat, n: nat)
    requires max < MAX_SUPPORTED && n <= Pow2(max)
    requires head <= Pow2(max) && 0 <= tail <= n && (head == Pow2(max) ==> tail == 0)
    ensures head + tail < WORD_RANGE
  {
    Pow2Monotone(max, MAX_SUPPORTED - 1);
    Pow2Monotone(MAX_SUPPORTED - 1, MAX_SUPPORTED);
    Pow2Values();
  }

  lemma {:induction false} Pow2Values()
    ensures Pow2(MAX_SUPPORTED) == WORD_RANGE
  {
    assert Pow2(8) == 256;
    Pow2Add(8, 8);
    Pow2Add(16, 16);
  }

  lemma {:induction false} CancelPositive(a: int, b: int, p: int)
    requires p >= 1 && a * p <= b * p
    ensures a <= b
  {
    if b < a {
      MulMono(b + 1, a, p);
    }
  }

  // Every code takes some space.
  lemma {:induction false} WeightGrows(s: seq<int>, low: nat, hi: nat, top: nat)
    requires Counts(s) && low <= hi <= top && hi < |s|
    ensures Weight(s, low, top) + Total(s, hi) - Total(s, low) <= Weight(s, hi, top)
    ensures Total(s, low) <= Total(s, hi)
  {
    if low < hi {
      WeightGrows(s, low, hi - 1, top);
      MulMono(1, Pow2(top - hi), s[hi]);
    }
  }

  // If no code is longer than max, the shorter ones alone are complete.
  lemma {:induction false} WithinLimit(s: seq<int>, max: nat)
    requires Counts(s) && 1 <= max < MAX_SUPPORTED && Complete(s, MAX_SUPPORTED)
    requires Total(s, MAX_SUPPORTED) == Total(s, max)
    ensures Weight(s, max, max) == Pow2(max)
  {
    var k := MAX_SUPPORTED - max;
    Pow2Add(max, k);
    WeightRescale(s, max, max, k);
    LongCodesAreSmall(s, max, MAX_SUPPORTED, MAX_SUPPORTED);
    WeightGrows(s, max, MAX_SUPPORTED, MAX_SUPPORTED);
    CancelPositive(Weight(s, max, max), Pow2(max), Pow2(k));
    CancelPositive(Pow2(max), Weight(s, max, max), Pow2(k));
  }

  // Codes that are too long count as codes of length max.
  ghost predicate Folded(s: seq<int>, t: seq<int>, max: nat)
    requires |s| == MAX_SUPPORTED + 1 && max < |s|
  {
    && |t| == |s| && t[max] == s[max] + (Total(s, MAX_SUPPORTED) - Total(s, max))
    && forall len :: 0 <= len < |s| && len != max ==> t[len] == s[len]
  }

  // A code of length max is given up, and one of the longest shorter ones becomes two that
  // are one bit longer.
  ghost predicate Turn(s: seq<int>, t: seq<int>, max: nat) {
    |s| == |t| && exists i :: IsLongestBelow(s, i, max) && SplitAt(s, t, i, max)
  }

  ghost predicate IsLongestBelow(s: seq<int>, i: int, max: nat) {
    1 <= i < max <= |s| && s[i] > 0 && forall j :: i < j < max ==> s[j] == 0
  }

  ghost predicate SplitAt(s: seq<int>, t: seq<int>, i: int, max: nat)
    requires |s| == |t|
  {
    forall len :: 0 <= len < |s| ==>
      t[len] - s[len] == (if len == i + 1 then 2 else 0) - (if len == i || len == max then 1 else 0)
  }

  // From the first to the last of these counts, each is a turn away from the one before.
  ghost predicate Turns(h: seq<seq<int>>, max: nat) {
    forall k :: 0 <= k < |h| - 1 ==> Turn(h[k], h[k + 1], max)
  }

  lemma {:induction false} OneMoreTurn(h: seq<seq<int>>, s: seq<int>, max: nat)
    requires h != [] && Turns(h, max) && Turn(h[|h| - 1], s, max)
    ensures Turns(h + [s], max)
  {
    hide Turn;
    var g := h + [s];
    forall k | 0 <= k < |g| - 1
      ensures Turn(g[k], g[k + 1], max)
    {
      assert g[k] == h[k];
      if k + 1 < |h| {
        assert g[k + 1] == h[k + 1];
      }
    }
  }

  lemma {:induction false} IsTurn(s: seq<int>, t: seq<int>, i: nat, max: nat)
    requires |s| == MAX_SUPPORTED + 1 && 1 <= i < max < |s| && s[i] > 0 && forall j :: i < j < max ==> s[j] == 0
    requires var a := s[max := s[max] - 1]; var b := a[i := a[i] - 1]; t == b[i + 1 := b[i + 1] + 2]
    ensures Turn(s, t, max)
  {
    assert IsLongestBelow(s, i, max) && SplitAt(s, t, i, max);
  }

  // tdefl_huffman_enforce_max_code_size; total is an unsigned 32-bit word.
  method EnforceMaxCodeSize(num: array<int>, codeListLen: nat, max: nat) returns (ghost turns: seq<seq<int>>)
    requires Counts(num[..]) && 1 <= max < MAX_SUPPORTED
    requires codeListLen > 1 ==> Complete(num[..], MAX_SUPPORTED)
    requires codeListLen > 1 ==> Total(num[..], MAX_SUPPORTED) == codeListLen <= Pow2(max)
    modifies num
    ensures codeListLen <= 1 ==> num[..] == old(num[..])
    ensures codeListLen > 1 ==> Counts(num[..]) && Complete(num[..], max) && Total(num[..], max) == codeListLen
    ensures codeListLen > 1 && Total(old(num[..]), max) == codeListLen ==> num[..] == old(num[..])
    ensures num[0] == old(num[0])
    ensures codeListLen > 1 ==> turns != [] && Folded(old(num[..]), turns[0], max) && Turns(turns, max)
    ensures codeListLen > 1 ==> turns[|turns| - 1] == num[..]
  {
    hide Weight, Total, Pow2, Complete, Turn, Turns, Folded;
    turns := [];
    if codeListLen <= 1 {
      return;
    }
    ghost var s := num[..];
    RepairStart(s, max, codeListLen);
    if Total(s, max) == codeListLen {
      WithinLimit(s, max);
    }
    for i := max + 1 to MAX_SUPPORTED + 1
      invariant num[..] == s[max := s[max] + (Total(s, i - 1) - Total(s, max))]
    {
      TotalNext(s, i);
      num[max] := num[max] + num[i];
    }
    var total := SumWeights(num, max);
    turns := [num[..]];
    StartOfTurns(s, num[..], max);
    while total != Pow2(max)
      invariant Repairing(num[..], max, codeListLen, total)
      invariant Total(s, max) == codeListLen ==> num[..] == s && total == Pow2(max)
      invariant num[0] == old(num[0])
      invariant turns != [] && Folded(s, turns[0], max) && Turns(turns, max) && turns[|turns| - 1] == num[..]
      decreases total
    {
      RepairOnce(num, max, codeListLen, total);
      total := total - 1;
      OneMoreTurn(turns, num[..], max);
      turns := turns + [num[..]];
    }
    RepairDone(num[..], max, codeListLen, total);
  }

  lemma {:induction false} StartOfTurns(s: seq<int>, t: seq<int>, max: nat)
    requires |s| == MAX_SUPPORTED + 1 && max < |s|
    requires t == s[max := s[max] + (Total(s, MAX_SUPPORTED) - Total(s, max))]
    ensures Folded(s, t, max) && Turns([t], max)
  {
  }

  lemma {:induction false} TotalNext(s: seq<int>, i: nat)
    requires 1 <= i < |s|
    ensures Total(s, i) == Total(s, i - 1) + s[i]
  {
  }

  lemma {:induction false} RepairDone(s: seq<int>, max: nat, n: nat, total: nat)
    requires Repairing(s, max, n, total) && total == Pow2(max)
    ensures Counts(s) && Complete(s, max) && Total(s, max) == n
  {
  }

  // The loop that adds up the code space, in 32-bit arithmetic.
  method SumWeights(num: array<int>, max: nat) returns (total: nat)
    requires Counts(num[..]) && 1 <= max < MAX_SUPPORTED && Weight(num[..], max, max) < WORD_RANGE
    ensures total == Weight(num[..], max, max)
  {
    total := 0;
    var j := max;
    while j > 0
      invariant 0 <= j <= max
      invariant total == Weight(num[..], max, max) - Weight(num[..], j, max)
    {
      WeightGrows(num[..], j - 1, max, max);
      WeightBounds(num[..], j - 1, max);
      MulMono(0, num[j], Pow2(max - j));
      total := (total + num[j] * Pow2(max - j)) % WORD_RANGE;
      j := j - 1;
    }
  }

  // One turn of the repair loop.
  method RepairOnce(num: array<int>, max: nat, ghost n: nat, ghost total: nat)
    requires Repairing(num[..], max, n, total) && total != Pow2(max)
    modifies num
    ensures total > 0 && Repairing(num[..], max, n, total - 1) && num[0] == old(num[0])
    ensures Turn(old(num[..]), num[..], max)
  {
    hide Repairing, Turn;
    ghost var u := num[..];
    ghost var w := RepairPossible(u, max, n, total);
    num[max] := num[max] - 1;
    var i := max - 1;
    while i > 0
      invariant w <= i < max && num[..] == u[max := u[max] - 1]
      invariant forall j :: i < j < max ==> u[j] == 0
    {
      if num[i] != 0 {
        num[i] := num[i] - 1;
        num[i + 1] := num[i + 1] + 2;
        RepairStep(u, max, n, total, i);
        IsTurn(u, num[..], i, max);
        break;
      }
      i := i - 1;
    }
  }
}
