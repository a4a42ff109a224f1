// mz_adler32 of shared/thirdparty/miniz/miniz.c: the sums are reduced once per block of
// 5552 bytes instead of once per byte.
module Adler32 {
  import opened Bits
  import opened Bytes

  const BASE: nat := 65521
  const BLOCK: nat := 5552
  const HALF: nat := 0x1_0000
  const WORD_RANGE: nat := 0x1_0000_0000
  const ADLER_INIT: nat := 1

  // ---------- the definition ----------

  // Section 2.2 of RFC 1950: both sums modulo 65521, a byte at a time.
  function Sums(s1: nat, s2: nat, data: seq<Byte>): (nat, nat)
    decreases |data|
  {
    if data == [] then (s1, s2)
    else
      var t1 := (s1 + data[0]) % BASE;
      Sums(t1, (s2 + t1) % BASE, data[1..])
  }

  function Pack(sums: (nat, nat)): nat {
    sums.1 * HALF + sums.0
  }

  function Adler(seed: nat, data: seq<Byte>): nat {
    Pack(Sums(seed % HALF, seed / HALF, data))
  }

  lemma {:induction false} SumsConcat(s1: nat, s2: nat, a: seq<Byte>, b: seq<Byte>)
    ensures Sums(s1, s2, a + b) == Sums(Sums(s1, s2, a).0, Sums(s1, s2, a).1, b)
    decreases |a|
  {
    if a == [] {
      assert a + b == b;
    } else {
      var t1 := (s1 + a[0]) % BASE;
      assert (a + b)[1..] == a[1..] + b;
      SumsConcat(t1, (s2 + t1) % BASE, a[1..], b);
    }
  }

  lemma {:induction false} SumsReduced(s1: nat, s2: nat, data: seq<Byte>)
    requires s1 < HALF
    ensures Sums(s1, s2, data).0 < HALF
    ensures data != [] ==> Sums(s1, s2, data).0 < BASE && Sums(s1, s2, data).1 < BASE
    decreases |data|
  {
    if data != [] {
      var t1 := (s1 + data[0]) % BASE;
      SumsReduced(t1, (s2 + t1) % BASE, data[1..]);
    }
  }

  // A checksum can be carried on: that of a + b is that of b, seeded with that of a.
  lemma {:induction false} AdlerConcat(seed: nat, a: seq<Byte>, b: seq<Byte>)
    ensures Adler(Adler(seed, a), b) == Adler(seed, a + b)
  {
    var s := Sums(seed % HALF, seed / HALF, a);
    SumsReduced(seed % HALF, seed / HALF, a);
    assert Pack(s) % HALF == s.0 && Pack(s) / HALF == s.1;
    SumsConcat(seed % HALF, seed / HALF, a, b);
  }

  // ---------- sums without reduction ----------

  function Raw(s1: nat, s2: nat, data: seq<Byte>): (nat, nat)
    decreases |data|
  {
    if data == [] then (s1, s2) else Raw(s1 + data[0], s2 + s1 + data[0], data[1..])
  }

  lemma {:induction false} RawConcat(s1: nat, s2: nat, a: seq<Byte>, b: seq<Byte>)
    ensures Raw(s1, s2, a + b) == Raw(Raw(s1, s2, a).0, Raw(s1, s2, a).1, b)
    decreases |a|
  {
    if a == [] {
      assert a + b == b;
    } else {
      assert (a + b)[1..] == a[1..] + b;
      RawConcat(s1 + a[0], s2 + s1 + a[0], a[1..], b);
    }
  }

  // Reducing at the end of a block is as good as reducing at every byte.
  lemma {:induction false} ReduceLate(s1: nat, s2: nat, r1: nat, r2: nat, data: seq<Byte>)
    requires s1 % BASE == r1 % BASE && s2 % BASE == r2 % BASE
    ensures Raw(s1, s2, data).0 % BASE == Sums(r1, r2, data).0 % BASE
    ensures Raw(s1, s2, data).1 % BASE == Sums(r1, r2, data).1 % BASE
    decreases |data|
  {
    if data != [] {
      LateStep(s1, s2, r1, r2, data[0]);
      ReduceLate(s1 + data[0], s2 + s1 + data[0], (r1 + data[0]) % BASE, (r2 + (r1 + data[0]) % BASE) % BASE,
        data[1..]);
    }
  }

  lemma {:induction false} LateStep(s1: nat, s2: nat, r1: nat, r2: nat, b: nat)
    requires s1 % BASE == r1 % BASE && s2 % BASE == r2 % BASE
    ensures (s1 + b) % BASE == (r1 + b) % BASE % BASE
    ensures (s2 + s1 + b) % BASE == (r2 + (r1 + b) % BASE) % BASE % BASE
  {
    SumMod(s1, r1, b, b);
    SumMod(s2, r2, s1 + b, (r1 + b) % BASE);
  }

  lemma {:induction false} SumMod(a: nat, a': nat, b: nat, b': nat)
    requires a % BASE == a' % BASE && b % BASE == b' % BASE
    ensures (a + b) % BASE == (a' + b') % BASE
  {
    RestOfSum(a, b);
    RestOfSum(a', b');
  }

  lemma {:induction false} RestOfSum(a: nat, b: nat)
    ensures var r := a % BASE + b % BASE; (a + b) % BASE == if r < BASE then r else r - BASE
  {
    var r := a % BASE + b % BASE;
    if r < BASE {
      DivModUnique(a + b, BASE, a / BASE + b / BASE, r);
    } else {
      DivModUnique(a + b, BASE, a / BASE + b / BASE + 1, r - BASE);
    }
  }

  function Total(data: seq<Byte>): nat
    decreases |data|
  {
    if data == [] then 0 else data[0] + Total(data[1..])
  }

  // Each byte as often as there are bytes from it on.
  function Weighted(data: seq<Byte>): nat
    decreases |data|
  {
    if data == [] then 0 else |data| * data[0] + Weighted(data[1..])
  }

  lemma {:induction false} RawIs(s1: nat, s2: nat, data: seq<Byte>)
    ensures Raw(s1, s2, data) == (s1 + Total(data), s2 + |data| * s1 + Weighted(data))
    decreases |data|
  {
    if data != [] {
      RawIs(s1 + data[0], s2 + s1 + data[0], data[1..]);
      WeightStep(s1, data[0], |data|);
    }
  }

  lemma {:induction false} WeightStep(s1: nat, b: nat, n: nat)
    requires n >= 1
    ensures s1 + b + (n - 1) * (s1 + b) == n * s1 + n * b
  {
  }

  // What section 2.2 of RFC 1950 says the two sums are, written out.
  lemma {:induction false} AdlerIs(seed: nat, data: seq<Byte>)
    ensures data == [] ==> Adler(seed, data) == seed
    ensures data != [] ==> Adler(seed, data) % 65536 == (seed % 65536 + Total(data)) % 65521
    ensures data != [] ==>
      Adler(seed, data) / 65536 == (seed / 65536 + |data| * (seed % 65536) + Weighted(data)) % 65521
  {
    hide Raw;
    var s1, s2 := seed % HALF, seed / HALF;
    if data != [] {
      ReduceLate(s1, s2, s1, s2, data);
      RawIs(s1, s2, data);
      SumsReduced(s1, s2, data);
      PackParts(Sums(s1, s2, data));
    }
  }

  lemma {:induction false} PackParts(s: (nat, nat))
    requires s.0 < BASE && s.1 < BASE
    ensures Pack(s) % HALF == s.0 % BASE && Pack(s) / HALF == s.1 % BASE
  {
  }

  // How large the sums of n bytes can get.
  function Largest(s1: nat, s2: nat, n: nat): nat {
    s2 + n * s1 + 255 * (n * (n + 1) / 2)
  }

  lemma {:induction false} RawBound(s1: nat, s2: nat, data: seq<Byte>)
    ensures Raw(s1, s2, data).0 <= s1 + 255 * |data|
    ensures Raw(s1, s2, data).1 <= Largest(s1, s2, |data|)
    decreases |data|
  {
    hide Largest;
    if data == [] {
      LargestOfNone(s1, s2);
    } else {
      RawBound(s1 + data[0], s2 + s1 + data[0], data[1..]);
      LargestStep(s1, s2, data[0], |data|);
    }
  }

  lemma {:induction false} LargestOfNone(s1: nat, s2: nat)
    ensures Largest(s1, s2, 0) == s2
  {
  }

  lemma {:induction false} Triangle(n: nat)
    requires n >= 1
    ensures n * (n + 1) / 2 == (n - 1) * n / 2 + n
  {
    assert n * (n + 1) == (n - 1) * n + 2 * n;
  }

  lemma {:induction false} LargestStep(s1: nat, s2: nat, b: nat, n: nat)
    requires n >= 1 && b <= 255
    ensures Largest(s1 + b, s2 + s1 + b, n - 1) <= Largest(s1, s2, n)
  {
    Triangle(n);
    assert (n - 1) * (s1 + b) == n * s1 - s1 + (n - 1) * b;
    assert (n - 1) * b <= (n - 1) * 255;
  }

  // No block overflows 32 bits: the first one has less than 5552 bytes but may start with
  // sums of 16 bits, the others start reduced.
  lemma {:induction false} BlockFits(s1: nat, s2: nat, n: nat)
    requires (n < BLOCK && s1 < HALF && s2 < HALF) || (n <= BLOCK && s1 < BASE && s2 < BASE)
    ensures s1 + 255 * n < WORD_RANGE && Largest(s1, s2, n) < WORD_RANGE
  {
    var top, cap := if n < BLOCK then BLOCK - 1 else BLOCK, if n < BLOCK then HALF - 1 else BASE - 1;
    Products(n, top, s1, cap);
  }

  lemma {:induction false} Products(n: nat, top: nat, s1: nat, cap: nat)
    requires n <= top && s1 <= cap
    ensures n * s1 <= top * cap && n * (n + 1) / 2 <= top * (top + 1) / 2
  {
    assert n * s1 <= top * s1;
    assert top * s1 <= top * cap;
    assert n * (n + 1) <= top * (n + 1);
    assert top * (n + 1) <= top * (top + 1);
  }

  lemma {:induction false} PrefixFits(s1: nat, s2: nat, data: seq<Byte>, i: nat)
    requires i <= |data| && s1 + 255 * |data| < WORD_RANGE && Largest(s1, s2, |data|) < WORD_RANGE
    ensures Raw(s1, s2, data[..i]).0 < WORD_RANGE && Raw(s1, s2, data[..i]).1 < WORD_RANGE
  {
    RawBound(s1, s2, data[..i]);
    Products(i, |data|, s1, s1);
  }

  // One byte of the inner loops, in 32-bit arithmetic.
  method AddByte(s1: nat, s2: nat, b: Byte) returns (t1: nat, t2: nat)
    ensures t1 == (s1 + b) % WORD_RANGE && t2 == (s2 + t1) % WORD_RANGE
  {
    t1 := (s1 + b) % WORD_RANGE;
    t2 := (s2 + t1) % WORD_RANGE;
  }

  // Sums of one block: eight bytes at a time, then the rest.
  method AddBlock(s1: nat, s2: nat, data: seq<Byte>) returns (t1: nat, t2: nat)
    requires s1 + 255 * |data| < WORD_RANGE && Largest(s1, s2, |data|) < WORD_RANGE
    ensures (t1, t2) == Raw(s1, s2, data)
  {
    t1, t2 := s1, s2;
    var i := 0;
    while i + 7 < |data|
      invariant i <= |data| && (t1, t2) == Raw(s1, s2, data[..i])
    {
      t1, t2 := AddNext(s1, s2, data, i, t1, t2);
      t1, t2 := AddNext(s1, s2, data, i + 1, t1, t2);
      t1, t2 := AddNext(s1, s2, data, i + 2, t1, t2);
      t1, t2 := AddNext(s1, s2, data, i + 3, t1, t2);
      t1, t2 := AddNext(s1, s2, data, i + 4, t1, t2);
      t1, t2 := AddNext(s1, s2, data, i + 5, t1, t2);
      t1, t2 := AddNext(s1, s2, data, i + 6, t1, t2);
      t1, t2 := AddNext(s1, s2, data, i + 7, t1, t2);
      i := i + 8;
    }
    while i < |data|
      invariant i <= |data| && (t1, t2) == Raw(s1, s2, data[..i])
    {
      t1, t2 := AddNext(s1, s2, data, i, t1, t2);
      i := i + 1;
    }
    assert data[..i] == data;
  }

  method AddNext(ghost s1: nat, ghost s2: nat, data: seq<Byte>, i: nat, u1: nat, u2: nat) returns (t1: nat, t2: nat)
    requires i < |data| && s1 + 255 * |data| < WORD_RANGE && Largest(s1, s2, |data|) < WORD_RANGE
    requires (u1, u2) == Raw(s1, s2, data[..i])
    ensures (t1, t2) == Raw(s1, s2, data[..i + 1])
  {
    hide Raw, Largest;
    RawNext(s1, s2, data, i);
    PrefixFits(s1, s2, data, i + 1);
    t1, t2 := AddByte(u1, u2, data[i]);
    Fits(u1 + data[i]);
    Fits(u2 + t1);
  }

  lemma {:induction false} Fits(x: nat)
    requires x < WORD_RANGE
    ensures x % WORD_RANGE == x
  {
  }

  lemma {:induction false} RawNext(s1: nat, s2: nat, data: seq<Byte>, i: nat)
    requires i < |data|
    ensures var u := Raw(s1, s2, data[..i]); Raw(s1, s2, data[..i + 1]) == (u.0 + data[i], u.1 + u.0 + data[i])
  {
    assert data[..i + 1] == data[..i] + [data[i]];
    RawConcat(s1, s2, data[..i], [data[i]]);
    var u := Raw(s1, s2, data[..i]);
    assert Raw(u.0, u.1, [data[i]]) == (u.0 + data[i], u.1 + u.0 + data[i]) by {
      assert [data[i]][1..] == [];
    }
  }

  // The shift of s2 may drop bits only if it is not below 2^16.
  method FinishSums(s1: nat, s2: nat) returns (adler: nat)
    requires s1 < HALF && s2 < HALF
    ensures adler == Pack((s1, s2)) < WORD_RANGE
  {
    adler := (s2 * HALF % WORD_RANGE + s1) % WORD_RANGE;
  }

  // mz_adler32; a null pointer asks for the initial value.
  method MzAdler32(seed: nat, isNull: bool, data: seq<Byte>) returns (adler: nat)
    requires seed < WORD_RANGE
    ensures isNull ==> adler == ADLER_INIT
    ensures !isNull ==> adler == Adler(seed, data) < WORD_RANGE
    ensures !isNull && data == [] ==> adler == seed
    ensures !isNull && data != [] ==> adler % 65536 == (seed % 65536 + Total(data)) % 65521
    ensures !isNull && data != [] ==>
      adler / 65536 == (seed / 65536 + |data| * (seed % 65536) + Weighted(data)) % 65521
  {
    hide Sums, Raw, Largest;
    var s1: nat, s2: nat := seed % HALF, seed / HALF;
    var blockLen := |data| % BLOCK;
    if isNull {
      return ADLER_INIT;
    }
    ghost var r1: nat, r2: nat := s1, s2;
    SumsOfNone(r1, r2, data);
    var pos := 0;
    while pos < |data|
      invariant pos <= |data| && s1 < HALF && s2 < HALF && r1 < HALF && r2 < HALF
      invariant Congruent(s1, s2, r1, r2, data[..pos])
      invariant if blockLen == BLOCK then s1 < BASE && s2 < BASE && (|data| - pos) % BLOCK == 0
                else pos == 0 && blockLen == |data| % BLOCK
      invariant pos == |data| == 0 ==> s1 == r1 && s2 == r2
      decreases |data| - pos, if blockLen == BLOCK then 0 else 1
    {
      assert pos + blockLen <= |data|;
      var block := data[pos..pos + blockLen];
      BlockFits(s1, s2, |block|);
      ghost var t1: nat, t2: nat := s1, s2;
      s1, s2 := AddBlock(s1, s2, block);
      CongruentBlock(t1, t2, r1, r2, data[..pos], block, s1, s2);
      assert data[..pos + blockLen] == data[..pos] + block;
      s1, s2 := s1 % BASE, s2 % BASE;
      pos := pos + blockLen;
      blockLen := BLOCK;
    }
    assert data[..pos] == data;
    CongruentEnd(s1, s2, r1, r2, data);
    adler := FinishSums(s1, s2);
    AdlerIs(seed, data);
  }

  // (s1, s2) are the sums of the data so far, up to multiples of 65521.
  ghost predicate Congruent(s1: nat, s2: nat, r1: nat, r2: nat, data: seq<Byte>) {
    s1 % BASE == Sums(r1, r2, data).0 % BASE && s2 % BASE == Sums(r1, r2, data).1 % BASE
  }

  lemma {:induction false} SumsOfNone(r1: nat, r2: nat, data: seq<Byte>)
    ensures Sums(r1, r2, data[..0]) == (r1, r2) && Sums(r1, r2, []) == (r1, r2)
  {
  }

  lemma {:induction false} CongruentBlock(t1: nat, t2: nat, r1: nat, r2: nat, data: seq<Byte>, block: seq<Byte>,
        s1: nat, s2: nat)
    requires Congruent(t1, t2, r1, r2, data) && (s1, s2) == Raw(t1, t2, block)
    ensures Congruent(s1 % BASE, s2 % BASE, r1, r2, data + block)
  {
    hide Sums, Raw;
    var p := Sums(r1, r2, data);
    ReduceLate(t1, t2, p.0, p.1, block);
    SumsConcat(r1, r2, data, block);
  }

  lemma {:induction false} CongruentEnd(s1: nat, s2: nat, r1: nat, r2: nat, data: seq<Byte>)
    requires Congruent(s1, s2, r1, r2, data) && r1 < HALF
    requires if data == [] then s1 == r1 && s2 == r2 else s1 < BASE && s2 < BASE
    ensures (s1, s2) == Sums(r1, r2, data)
  {
    SumsReduced(r1, r2, data);
  }
}
