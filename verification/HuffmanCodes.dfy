// The bit-reversed canonical codes that tdefl_optimize_huffman_table of
// shared/thirdparty/miniz/miniz.c gives to symbols whose sizes are known.
module HuffmanCodes {
  import opened Bits
  import opened HuffmanTree
  import opened HuffmanLimit

  const MAX_HUFF_SYMBOLS: nat := 288

  // ---------- counting ----------

  function CountOf(s: seq<nat>, v: nat): nat {
    if s == [] then 0 else CountOf(s[..|s| - 1], v) + (if s[|s| - 1] == v then 1 else 0)
  }

  lemma {:induction false} CountNext(s: seq<nat>, i: nat, v: nat)
    requires i < |s|
    ensures CountOf(s[..i + 1], v) == CountOf(s[..i], v) + (if s[i] == v then 1 else 0)
  {
    assert s[..i + 1][..i] == s[..i];
  }

  lemma {:induction false} CountMonotone(s: seq<nat>, i: nat, j: nat, v: nat)
    requires i <= j <= |s|
    ensures CountOf(s[..i], v) <= CountOf(s[..j], v)
    decreases j
  {
    if i < j {
      CountNext(s, j - 1, v);
      CountMonotone(s, i, j - 1, v);
    }
  }

  lemma {:induction false} CountUpdate(s: seq<nat>, i: nat, x: nat, v: nat)
    requires i < |s|
    ensures CountOf(s[i := x], v) + (if s[i] == v then 1 else 0) == CountOf(s, v) + (if x == v then 1 else 0)
    decreases |s|
  {
    var r := s[..|s| - 1];
    if i < |s| - 1 {
      assert s[i := x][..|s| - 1] == r[i := x];
      CountUpdate(r, i, x, v);
    } else {
      assert s[i := x][..|s| - 1] == r;
    }
  }

  lemma {:induction false} CountZeros(s: seq<nat>, v: nat)
    requires v != 0 && forall i :: 0 <= i < |s| ==> s[i] == 0
    ensures CountOf(s, v) == 0
  {
    if s != [] {
      CountZeros(s[..|s| - 1], v);
    }
  }

  // ---------- canonical codes ----------

  // Section 3.2.2 of RFC 1951: the smallest code of length len.
  function First(num: seq<int>, len: nat): int
    requires len <= |num|
  {
    if len <= 1 then 0 else 2 * (First(num, len - 1) + num[len - 1])
  }

  // The code of symbol i: codes of one length are consecutive in symbol order.
  function Canon(sizes: seq<nat>, num: seq<int>, i: nat): int
    requires i < |sizes| && sizes[i] <= |num|
  {
    First(num, sizes[i]) + CountOf(sizes[..i], sizes[i])
  }

  // num says how many symbols have each length, and the code space suffices.
  ghost predicate Fits(sizes: seq<nat>, num: seq<int>, limit: nat) {
    && Counts(num) && limit < |num|
    && (forall i :: 0 <= i < |sizes| ==> sizes[i] <= limit)
    && (forall len: nat :: 1 <= len <= limit ==> num[len] == CountOf(sizes, len))
    && Weight(num, limit, limit) <= Pow2(limit)
  }

  lemma {:induction false} FirstIsWeight(num: seq<int>, len: nat)
    requires 1 <= len < |num|
    ensures First(num, len) == Weight(num, len - 1, len)
  {
    if len > 1 {
      FirstIsWeight(num, len - 1);
      WeightRescale(num, len - 1, len - 1, 1);
      assert Pow2(1) == 2 && Pow2(len - 1 - (len - 1)) == 1;
    }
  }

  // The codes of length len end before those of length len' begin, as prefixes of length len.
  lemma {:induction false} FirstAfter(num: seq<int>, len: nat, len': nat)
    requires Counts(num) && 1 <= len < len' < |num|
    ensures First(num, len') >= (First(num, len) + num[len]) * Pow2(len' - len)
  {
    FirstIsWeight(num, len);
    FirstIsWeight(num, len');
    assert Pow2(len - len) == 1;
    assert Weight(num, len, len) == First(num, len) + num[len];
    WeightRescale(num, len, len, len' - len);
    WeightGrows(num, len, len' - 1, len');
  }

  // A canonical code has no more bits than its size says.
  lemma {:induction false} CodeFits(sizes: seq<nat>, num: seq<int>, limit: nat, i: nat)
    requires Fits(sizes, num, limit) && i < |sizes| && sizes[i] > 0
    ensures sizes[i] <= limit < |num|
    ensures 0 <= Canon(sizes, num, i) < First(num, sizes[i]) + num[sizes[i]] <= Pow2(sizes[i])
  {
    hide CountOf, First, Weight, Pow2;
    var len := sizes[i];
    CountNext(sizes, i, len);
    CountMonotone(sizes, i + 1, |sizes|, len);
    assert sizes[..|sizes|] == sizes;
    FirstIsWeight(num, len);
    WeightBounds(num, len - 1, len);
    LastWeight(num, len);
    WeightGrows(num, len, limit, limit);
    WeightRescale(num, len, len, limit - len);
    Pow2Add(len, limit - len);
    CancelPositive(Weight(num, len, len), Pow2(len), Pow2(limit - len));
  }

  lemma {:induction false} DivAtLeast(a: int, b: int, p: int)
    requires p >= 1 && a >= b * p
    ensures a / p >= b
  {
    if a / p < b {
      MulMono(a / p + 1, b, p);
      assert false;
    }
  }

  // No canonical code is a prefix of another one.
  lemma {:induction false} PrefixFree(sizes: seq<nat>, num: seq<int>, limit: nat, i: nat, j: nat)
    requires Fits(sizes, num, limit) && i < |sizes| && j < |sizes| && i != j
    requires 0 < sizes[i] <= sizes[j]
    ensures Canon(sizes, num, i) >= 0 && Canon(sizes, num, j) >= 0
    ensures High(Canon(sizes, num, j), sizes[j] - sizes[i]) != Canon(sizes, num, i)
  {
    var a, b := sizes[i], sizes[j];
    CodeFits(sizes, num, limit, i);
    CodeFits(sizes, num, limit, j);
    if a == b {
      assert Pow2(b - a) == 1;
      var lo, hi := if i < j then i else j, if i < j then j else i;
      CountNext(sizes, lo, a);
      CountMonotone(sizes, lo + 1, hi, a);
    } else {
      FirstAfter(num, a, b);
      DivAtLeast(Canon(sizes, num, j), First(num, a) + num[a], Pow2(b - a));
    }
  }

  // ---------- bit reversal ----------

  // The low len bits of code, last bit first.
  function Reverse(code: nat, len: nat): nat {
    if len == 0 then 0 else (code % 2) * Pow2(len - 1) + Reverse(code / 2, len - 1)
  }

  lemma {:induction false} ReverseFits(code: nat, len: nat)
    ensures Reverse(code, len) < Pow2(len)
  {
    if len > 0 {
      ReverseFits(code / 2, len - 1);
      OneBit(code % 2, Pow2(len - 1), Reverse(code / 2, len - 1));
    }
  }

  lemma {:induction false} OneBit(bit: nat, p: nat, r: nat)
    requires bit <= 1 && r < p
    ensures bit * p + r < 2 * p
  {
    if bit == 0 {
      assert bit * p == 0;
    } else {
      assert bit * p == p;
    }
  }

  function Low(x: nat, k: nat): nat {
    x % Pow2(k)
  }

  function High(x: nat, k: nat): nat {
    hide Pow2;
    x / Pow2(k)
  }

  // Reversal turns a prefix into low bits.
  lemma {:induction false} ReversePrefix(code: nat, len: nat, low: nat)
    requires low <= len
    ensures Low(Reverse(code, len), low) == Reverse(High(code, len - low), low)
    decreases len
  {
    hide Low, High, Pow2;
    if low == len {
      ReverseAll(code, len);
    } else {
      ReversePrefix(code / 2, len - 1, low);
      HighBit(code % 2, len - 1, low, Reverse(code / 2, len - 1));
      HighStep(code, len - 1 - low);
    }
  }

  lemma {:induction false} ReverseAll(code: nat, len: nat)
    ensures Low(Reverse(code, len), len) == Reverse(code, len) && High(code, 0) == code
  {
    ReverseFits(code, len);
    DivModUnique(Reverse(code, len), Pow2(len), 0, Reverse(code, len));
    assert Pow2(0) == 1;
  }

  lemma {:induction false} HighBit(bit: nat, high: nat, low: nat, rest: nat)
    requires low <= high
    ensures Low(bit * Pow2(high) + rest, low) == Low(rest, low)
  {
    Pow2Add(high - low, low);
    MulAssoc(bit, Pow2(high - low), Pow2(low));
    ModAddMultiple(rest, bit * Pow2(high - low), Pow2(low));
  }

  lemma {:induction false} HighStep(code: nat, k: nat)
    ensures High(code, k + 1) == High(code / 2, k)
  {
    DivDiv(code, Pow2(k));
  }

  lemma {:induction false} MulAssoc(a: int, b: int, c: int)
    ensures a * (b * c) == (a * b) * c
  {
  }

  lemma {:induction false} ModAddMultiple(a: int, k: int, p: int)
    requires p >= 1
    ensures (k * p + a) % p == a % p
  {
    assert k * p + a == p * (k + a / p) + a % p;
    DivModUnique(k * p + a, p, k + a / p, a % p);
  }

  lemma {:induction false} DivDiv(a: nat, p: nat)
    requires p >= 1
    ensures (a / 2) / p == a / (2 * p)
  {
    HalfMod(a, p);
    var q := (a / 2) / p;
    assert a / 2 == p * q + (a / 2) % p;
    assert a == (2 * p) * q + a % (2 * p) by {
      assert 2 * (p * q) == (2 * p) * q;
    }
    DivModUnique(a, 2 * p, q, a % (2 * p));
  }

  lemma {:induction false} ReverseInjective(a: nat, b: nat, len: nat)
    requires a < Pow2(len) && b < Pow2(len) && Reverse(a, len) == Reverse(b, len)
    ensures a == b
  {
    hide Pow2;
    Pow2Next(0);
    if len > 0 {
      ReverseFits(a / 2, len - 1);
      ReverseFits(b / 2, len - 1);
      Pow2Next(len - 1);
      SameParts(Pow2(len - 1), a % 2, Reverse(a / 2, len - 1), b % 2, Reverse(b / 2, len - 1));
      ReverseInjective(a / 2, b / 2, len - 1);
    }
  }

  // Bit k of the reversed code is bit k of the code, counted from the other end.
  lemma {:induction false} ReverseBit(code: nat, len: nat, k: nat)
    ensures Bit(Reverse(code, len), k) <==> k < len && Bit(code, len - 1 - k)
    decreases len
  {
    hide Pow2;
    if len == 0 {
      NoBits(k);
    } else {
      ReverseFits(code / 2, len - 1);
      ReverseBit(code / 2, len - 1, k);
      TopBit(code % 2, len - 1, Reverse(code / 2, len - 1), k);
    }
  }

  lemma {:induction false} TopBit(bit: nat, top: nat, rest: nat, k: nat)
    requires bit <= 1 && rest < Pow2(top)
    ensures Bit(bit * Pow2(top) + rest, k) <==> if k == top then bit == 1 else Bit(rest, k)
    decreases top
  {
    NoBits(k);
    if top == 0 {
      assert rest == 0 && bit * Pow2(0) == bit;
    } else {
      Swap2(bit, Pow2(top - 1));
      if k > 0 {
        TopBit(bit, top - 1, rest / 2, k - 1);
        assert (bit * Pow2(top) + rest) / 2 == bit * Pow2(top - 1) + rest / 2;
      }
    }
  }

  // Reversed twice, a code is what it was.
  lemma {:induction false} ReverseTwice(code: nat, len: nat)
    requires code < Pow2(len)
    ensures Reverse(Reverse(code, len), len) == code
  {
    hide Reverse, Bit;
    forall k: nat
      ensures Bit(Reverse(Reverse(code, len), len), k) <==> Bit(code, k)
    {
      ReverseBit(Reverse(code, len), len, k);
      if k < len {
        ReverseBit(code, len, len - 1 - k);
      } else {
        HighBitsClear(code, len, k);
      }
    }
    SameBits(Reverse(Reverse(code, len), len), code);
  }

  lemma {:induction false} HighBitsClear(code: nat, len: nat, k: nat)
    requires code < Pow2(len) && len <= k
    ensures !Bit(code, k)
    decreases k
  {
    if len == 0 {
      NoBits(k);
    } else {
      HighBitsClear(code / 2, len - 1, k - 1);
    }
  }

  lemma {:induction false} SameParts(p: nat, q: nat, r: nat, q': nat, r': nat)
    requires r < p && r' < p && q * p + r == q' * p + r'
    ensures q == q' && r == r'
  {
    QuotientUnique(p, q, r, q', r');
  }

  // A decoder that reads bits from the low end never takes one code for another.
  ghost predicate Decodable(sizes: seq<nat>, codes: seq<nat>) {
    && |sizes| <= |codes|
    && (forall i :: 0 <= i < |sizes| && sizes[i] > 0 ==> codes[i] < Pow2(sizes[i]))
    && (forall i, j :: 0 <= i < |sizes| && 0 <= j < |sizes| && i != j && 0 < sizes[i] <= sizes[j] ==>
        Low(codes[j], sizes[i]) != codes[i])
  }

  lemma {:induction false} CanonDecodable(sizes: seq<nat>, num: seq<int>, limit: nat, codes: seq<nat>)
    requires Fits(sizes, num, limit) && |sizes| <= |codes|
    requires forall i: nat :: i < |sizes| && sizes[i] > 0 ==>
      Canon(sizes, num, i) >= 0 && codes[i] == Reverse(Canon(sizes, num, i), sizes[i])
    ensures Decodable(sizes, codes)
  {
    forall i: nat | i < |sizes| && sizes[i] > 0
      ensures codes[i] < Pow2(sizes[i])
    {
      ReverseFits(Canon(sizes, num, i), sizes[i]);
    }
    forall i: nat, j: nat | i < |sizes| && j < |sizes| && i != j && 0 < sizes[i] <= sizes[j]
      ensures Low(codes[j], sizes[i]) != codes[i]
    {
      NeverConfused(sizes, num, limit, i, j);
    }
  }

  // ---------- the rules of section 3.2.2 of RFC 1951 ----------

  // The code of symbol i as a number, its first bit the highest: codes are stored reversed.
  function Word(sizes: seq<nat>, codes: seq<nat>, i: nat): nat
    requires i < |sizes| && i < |codes|
  {
    Reverse(codes[i], sizes[i])
  }

  // first has the smallest code of each length: it is twice the number behind the codes that
  // are one shorter.
  ghost predicate Smallest(sizes: seq<nat>, first: seq<nat>, limit: nat) {
    && |first| == limit + 1 && (limit >= 1 ==> first[1] == 0)
    && forall len: nat :: 2 <= len <= limit ==> first[len] == 2 * (first[len - 1] + multiset(sizes)[len - 1])
  }

  // Codes of one length are consecutive in symbol order, from the smallest on.
  ghost predicate Consecutive(sizes: seq<nat>, codes: seq<nat>, first: seq<nat>) {
    && |sizes| <= |codes|
    && forall i: nat :: i < |sizes| && 0 < sizes[i] < |first| ==>
      Word(sizes, codes, i) == first[sizes[i]] + multiset(sizes[..i])[sizes[i]]
  }

  ghost predicate Canonical(sizes: seq<nat>, codes: seq<nat>, limit: nat) {
    && (forall i :: 0 <= i < |sizes| ==> sizes[i] <= limit)
    && exists first :: Smallest(sizes, first, limit) && Consecutive(sizes, codes, first)
  }

  lemma {:induction false} CountIsMultiset(s: seq<nat>, v: nat)
    ensures CountOf(s, v) == multiset(s)[v]
  {
    if s != [] {
      var n := |s| - 1;
      CountIsMultiset(s[..n], v);
      assert s == s[..n] + [s[n]];
    }
  }

  lemma {:induction false} FirstIsCount(num: seq<int>, len: nat)
    requires Counts(num) && len < |num|
    ensures First(num, len) >= 0
  {
    if len > 1 {
      FirstIsCount(num, len - 1);
    }
  }

  lemma {:induction false} CodedCanonical(s: seq<nat>, num: seq<int>, limit: nat, codes: seq<nat>)
    requires Coded(s, num, limit, codes, |s|)
    ensures Canonical(s, codes[..|s|], limit)
  {
    hide First, CountOf, Reverse, Weight, Canon, Decodable;
    var cs := codes[..|s|];
    forall len: nat | len <= limit
      ensures First(num, len) >= 0
    {
      FirstIsCount(num, len);
    }
    var first: seq<nat> := seq(limit + 1, len requires 0 <= len <= limit => First(num, len) as nat);
    forall len: nat | 2 <= len <= limit
      ensures first[len] == 2 * (first[len - 1] + multiset(s)[len - 1])
    {
      FirstStep(num, len);
      CountIsMultiset(s, len - 1);
    }
    if limit >= 1 {
      FirstStart(num);
    }
    assert Smallest(s, first, limit);
    forall i: nat | i < |s| && 0 < s[i] < |first|
      ensures Word(s, cs, i) == first[s[i]] + multiset(s[..i])[s[i]]
    {
      CodeWord(s, num, limit, codes, i);
    }
    assert Consecutive(s, cs, first);
  }

  lemma {:induction false} CodeWord(s: seq<nat>, num: seq<int>, limit: nat, codes: seq<nat>, i: nat)
    requires Coded(s, num, limit, codes, |s|) && i < |s| && s[i] > 0
    ensures s[i] <= |num| && Reverse(codes[i], s[i]) == First(num, s[i]) + multiset(s[..i])[s[i]]
  {
    hide First, CountOf, Reverse, Weight;
    CodeFits(s, num, limit, i);
    ReverseTwice(Canon(s, num, i), s[i]);
    CountIsMultiset(s[..i], s[i]);
  }

  // The sizes alone say what the codes are: a decoder that follows the rules has the same.
  lemma {:induction false} CanonicalIsUnique(sizes: seq<nat>, a: seq<nat>, b: seq<nat>, limit: nat, i: nat)
    requires Canonical(sizes, a, limit) && Canonical(sizes, b, limit) && Decodable(sizes, a) && Decodable(sizes, b)
    requires i < |sizes| && sizes[i] > 0
    ensures a[i] == b[i]
  {
    hide Reverse, Pow2, Low;
    var f :| Smallest(sizes, f, limit) && Consecutive(sizes, a, f);
    var g :| Smallest(sizes, g, limit) && Consecutive(sizes, b, g);
    SmallestIsUnique(sizes, f, g, limit, sizes[i]);
    assert Word(sizes, a, i) == Word(sizes, b, i);
    ReverseTwice(a[i], sizes[i]);
    ReverseTwice(b[i], sizes[i]);
  }

  lemma {:induction false} SmallestIsUnique(sizes: seq<nat>, f: seq<nat>, g: seq<nat>, limit: nat, len: nat)
    requires Smallest(sizes, f, limit) && Smallest(sizes, g, limit) && 1 <= len <= limit
    ensures f[len] == g[len]
  {
    if len > 1 {
      SmallestIsUnique(sizes, f, g, limit, len - 1);
    }
  }

  // Read as strings of bits, codes ascend with their sizes, and with the symbols of one size.
  ghost predicate Ascending(sizes: seq<nat>, codes: seq<nat>) {
    && |sizes| <= |codes|
    && (forall i: nat, j: nat :: i < j < |sizes| && 0 < sizes[i] == sizes[j] ==>
        Word(sizes, codes, i) < Word(sizes, codes, j))
    && forall i: nat, j: nat :: i < |sizes| && j < |sizes| && 0 < sizes[i] < sizes[j] ==>
      Word(sizes, codes, i) < High(Word(sizes, codes, j), sizes[j] - sizes[i])
  }

  lemma {:induction false} CodedAscending(s: seq<nat>, num: seq<int>, limit: nat, codes: seq<nat>)
    requires Coded(s, num, limit, codes, |s|)
    ensures Ascending(s, codes[..|s|])
  {
    hide First, CountOf, Reverse, Weight, Canon, High, Fits;
    var cs := codes[..|s|];
    forall i: nat, j: nat | i < j < |s| && 0 < s[i] == s[j]
      ensures Word(s, cs, i) < Word(s, cs, j)
    {
      SameSizeAscends(s, num, limit, codes, i, j);
    }
    forall i: nat, j: nat | i < |s| && j < |s| && 0 < s[i] < s[j]
      ensures Word(s, cs, i) < High(Word(s, cs, j), s[j] - s[i])
    {
      ShorterIsBefore(s, num, limit, codes, i, j);
    }
  }

  lemma {:induction false} WordIsCanon(s: seq<nat>, num: seq<int>, limit: nat, codes: seq<nat>, i: nat)
    requires Coded(s, num, limit, codes, |s|) && i < |s| && s[i] > 0
    ensures s[i] <= limit < |num| && Reverse(codes[i], s[i]) == Canon(s, num, i)
    ensures 0 <= Canon(s, num, i) < First(num, s[i]) + num[s[i]]
  {
    hide First, CountOf, Reverse, Weight;
    CodeFits(s, num, limit, i);
    ReverseTwice(Canon(s, num, i), s[i]);
  }

  lemma {:induction false} SameSizeAscends(s: seq<nat>, num: seq<int>, limit: nat, codes: seq<nat>, i: nat, j: nat)
    requires Coded(s, num, limit, codes, |s|) && i < j < |s| && 0 < s[i] == s[j]
    ensures Reverse(codes[i], s[i]) < Reverse(codes[j], s[j])
  {
    hide First, CountOf, Reverse, Coded;
    WordIsCanon(s, num, limit, codes, i);
    WordIsCanon(s, num, limit, codes, j);
    CountNext(s, i, s[i]);
    CountMonotone(s, i + 1, j, s[i]);
  }

  lemma {:induction false} ShorterIsBefore(s: seq<nat>, num: seq<int>, limit: nat, codes: seq<nat>, i: nat, j: nat)
    requires Coded(s, num, limit, codes, |s|) && i < |s| && j < |s| && 0 < s[i] < s[j]
    ensures Reverse(codes[i], s[i]) < High(Reverse(codes[j], s[j]), s[j] - s[i])
  {
    hide First, CountOf, Reverse, Weight, Canon;
    WordIsCanon(s, num, limit, codes, i);
    WordIsCanon(s, num, limit, codes, j);
    FirstAfter(num, s[i], s[j]);
    CanonFromFirst(s, num, j);
    DivAtLeast(Canon(s, num, j), First(num, s[i]) + num[s[i]], Pow2(s[j] - s[i]));
  }

  lemma {:induction false} CanonFromFirst(s: seq<nat>, num: seq<int>, i: nat)
    requires i < |s| && s[i] <= |num|
    ensures First(num, s[i]) <= Canon(s, num, i)
  {
  }

  lemma {:induction false} HeadFits(code: nat, a: nat, b: nat)
    requires a <= b && code < Pow2(b)
    ensures High(code, b - a) < Pow2(a)
  {
    hide Pow2;
    Pow2Add(a, b - a);
    DivBelow(code, Pow2(a), Pow2(b - a));
  }

  lemma {:induction false} DivBelow(x: nat, q: nat, p: nat)
    requires p >= 1 && x < q * p
    ensures x / p < q
  {
    if x / p >= q {
      MulMono(q, x / p, p);
    }
  }

  lemma {:induction false} NeverConfused(sizes: seq<nat>, num: seq<int>, limit: nat, i: nat, j: nat)
    requires Fits(sizes, num, limit) && i < |sizes| && j < |sizes| && i != j && 0 < sizes[i] <= sizes[j]
    ensures Canon(sizes, num, i) >= 0 && Canon(sizes, num, j) >= 0
    ensures Low(Reverse(Canon(sizes, num, j), sizes[j]), sizes[i]) != Reverse(Canon(sizes, num, i), sizes[i])
  {
    hide Low, High, Canon, Fits, Reverse;
    var a, b := sizes[i], sizes[j];
    CodeFits(sizes, num, limit, i);
    CodeFits(sizes, num, limit, j);
    PrefixFree(sizes, num, limit, i, j);
    var code := Canon(sizes, num, j);
    ReversePrefix(code, b, a);
    HeadFits(code, a, b);
    if Reverse(High(code, b - a), a) == Reverse(Canon(sizes, num, i), a) {
      ReverseInjective(High(code, b - a), Canon(sizes, num, i), a);
    }
  }

  // ---------- the table ----------

  // The loop that reverses the bits of a code.
  method ReverseBits(code0: nat, size: nat) returns (rev: nat)
    ensures rev == Reverse(code0, size)
  {
    rev := 0;
    var code := code0;
    var l := size;
    while l > 0
      invariant 0 <= l <= size
      invariant rev * Pow2(l) + Reverse(code, l) == Reverse(code0, size)
    {
      assert Pow2(l) == 2 * Pow2(l - 1);
      ShiftIn(rev, Pow2(l - 1), code % 2);
      rev := rev * 2 + code % 2;
      code := code / 2;
      l := l - 1;
    }
    assert Pow2(0) == 1;
  }

  lemma {:induction false} ShiftIn(rev: nat, p: nat, bit: nat)
    ensures rev * (2 * p) + bit * p == (rev * 2 + bit) * p
  {
  }

  method FirstCodes(num: array<int>, limit: nat) returns (next: array<int>)
    requires num.Length == MAX_SUPPORTED + 1 && 1 <= limit <= MAX_SUPPORTED
    ensures fresh(next) && next.Length == MAX_SUPPORTED + 1
    ensures forall len: nat :: 1 <= len <= limit ==> next[len] == First(num[..], len)
  {
    hide First;
    ghost var c := num[..];
    next := new int[MAX_SUPPORTED + 1](_ => 0);
    next[1] := 0;
    var j := 0;
    FirstStart(c);
    for i := 2 to limit + 1
      invariant j == First(c, i - 1) && num[..] == c
      invariant forall len: nat :: 1 <= len < i ==> next[len] == First(c, len)
    {
      FirstStep(c, i);
      j := (j + num[i - 1]) * 2;
      next[i] := j;
    }
  }

  lemma {:induction false} FirstStart(num: seq<int>)
    requires |num| > 1
    ensures First(num, 1) == 0
  {
  }

  lemma {:induction false} FirstStep(num: seq<int>, len: nat)
    requires 2 <= len < |num|
    ensures First(num, len) == (First(num, len - 1) + num[len - 1]) * 2
  {
  }

  lemma {:induction false} Pow2Of16()
    ensures Pow2(16) == KEY_RANGE
  {
    assert Pow2(8) == 256;
    Pow2Add(8, 8);
  }

  // Codes are handed out in symbol order; they are stored as 16-bit words.
  method AssignCodes(sizes: array<nat>, num: array<int>, limit: nat, codes: array<nat>, n: nat)
    requires sizes != codes && n <= sizes.Length && n <= codes.Length && 1 <= limit <= 16
    requires num.Length == MAX_SUPPORTED + 1
    requires Fits(sizes[..n], num[..], limit)
    modifies codes
    ensures Decodable(sizes[..n], codes[..n])
    ensures Canonical(sizes[..n], codes[..n], limit) && Ascending(sizes[..n], codes[..n])
    ensures forall i :: 0 <= i < codes.Length && (i >= n || sizes[i] == 0) ==> codes[i] == old(codes[i])
  {
    hide Fits, Handed, Coded, Decodable, Canonical, Ascending, Canon, Reverse;
    ghost var s, c := sizes[..n], num[..];
    var next := FirstCodes(num, limit);
    HandedStart(s, c, limit, next[..], codes[..]);
    for i := 0 to n
      invariant Handed(s, c, limit, next[..], i) && Coded(s, c, limit, codes[..], i)
      invariant forall k :: 0 <= k < codes.Length && (k >= i || sizes[k] == 0) ==> codes[k] == old(codes[k])
    {
      var size := sizes[i];
      ghost var t, u := next[..], codes[..];
      HandedNext(s, c, limit, t, u, i);
      if size != 0 {
        var code := next[size];
        next[size] := next[size] + 1;
        assert next[..] == t[size := t[size] + 1];
        var rev := ReverseBits(code, size);
        codes[i] := Wrap(rev);
        assert codes[..] == u[i := Wrap(rev)];
      }
    }
    CodedDecodable(s, c, limit, codes[..]);
    CodedCanonical(s, c, limit, codes[..]);
    CodedAscending(s, c, limit, codes[..]);
    assert codes[..n] == codes[..][..n];
  }

  // The next code of each length is the one after those of the first i symbols.
  ghost predicate Handed(s: seq<nat>, num: seq<int>, limit: nat, next: seq<int>, i: nat)
    requires i <= |s|
  {
    && |num| == |next| == MAX_SUPPORTED + 1 && limit <= MAX_SUPPORTED
    && forall len: nat :: 1 <= len <= limit ==> next[len] == First(num, len) + CountOf(s[..i], len)
  }

  // The first i symbols have their reversed canonical codes.
  ghost predicate Coded(s: seq<nat>, num: seq<int>, limit: nat, codes: seq<nat>, i: nat)
    requires i <= |s|
  {
    && Fits(s, num, limit) && |s| <= |codes|
    && forall k: nat :: k < i && s[k] > 0 ==> Canon(s, num, k) >= 0 && codes[k] == Reverse(Canon(s, num, k), s[k])
  }

  lemma {:induction false} HandedStart(s: seq<nat>, num: seq<int>, limit: nat, next: seq<int>, codes: seq<nat>)
    requires Fits(s, num, limit) && |s| <= |codes| && |next| == MAX_SUPPORTED + 1
    requires forall len: nat :: 1 <= len <= limit && len < |num| ==> next[len] == First(num, len)
    ensures Handed(s, num, limit, next, 0) && Coded(s, num, limit, codes, 0)
  {
  }

  lemma {:induction false} HandedNext(s: seq<nat>, num: seq<int>, limit: nat, next: seq<int>, codes: seq<nat>, i: nat)
    requires i < |s| && limit <= 16 && Handed(s, num, limit, next, i) && Coded(s, num, limit, codes, i)
    ensures var size := s[i];
      && |next| == MAX_SUPPORTED + 1 && size < |next|
      && if size == 0 then Handed(s, num, limit, next, i + 1) && Coded(s, num, limit, codes, i + 1)
         else next[size] >= 0 && Handed(s, num, limit, next[size := next[size] + 1], i + 1)
              && Coded(s, num, limit, codes[i := Wrap(Reverse(next[size], size))], i + 1)
  {
    var size := s[i];
    forall len: nat | 1 <= len <= limit
      ensures CountOf(s[..i + 1], len) == CountOf(s[..i], len) + (if size == len then 1 else 0)
    {
      CountNext(s, i, len);
    }
    if size != 0 {
      CodeFits(s, num, limit, i);
      ReverseFits(next[size], size);
      Pow2Monotone(size, 16);
      Pow2Of16();
      WrapSmall(Reverse(next[size], size));
    }
  }

  lemma {:induction false} CodedDecodable(s: seq<nat>, num: seq<int>, limit: nat, codes: seq<nat>)
    requires Coded(s, num, limit, codes, |s|)
    ensures Decodable(s, codes[..|s|])
  {
    CanonDecodable(s, num, limit, codes[..|s|]);
  }
}
