// Shifts and masks of unsigned machine words, on natural numbers.
module Bits {

  // The sizes that pointers can have.
  type Width = n: nat | n == 4 || n == 8 witness 8

  // sizeof(void*) and sizeof(size_t): 4 in the builds of the repository. Nothing depends on
  // which of the two it is.
  const PTR: Width

  // How many values a size_t has.
  const SIZE_RANGE: nat := if PTR == 4 then 0x1_0000_0000 else 0x1_0000_0000_0000_0000

  // (size_t)x
  function SizeT(x: nat): nat {
    x % SIZE_RANGE
  }

  function Pow2(k: nat): (p: nat)
    ensures p >= 1
  {
    if k == 0 then 1 else 2 * Pow2(k - 1)
  }

  ghost predicate IsPow2(n: nat) {
    exists k: nat :: n == Pow2(k)
  }

  lemma {:induction false} Pow2Monotone(a: nat, b: nat)
    requires a <= b
    ensures Pow2(a) <= Pow2(b)
    ensures a < b ==> 2 * Pow2(a) <= Pow2(b)
    decreases b
  {
    if a < b {
      Pow2Monotone(a, b - 1);
    }
  }

  lemma {:induction false} Pow2Add(a: nat, b: nat)
    ensures Pow2(a + b) == Pow2(a) * Pow2(b)
  {
    if b == 0 {
    } else {
      Pow2Add(a, b - 1);
      calc {
        Pow2(a + b);
        2 * Pow2(a + (b - 1));
        2 * (Pow2(a) * Pow2(b - 1));
        Pow2(a) * (2 * Pow2(b - 1));
        Pow2(a) * Pow2(b);
      }
    }
  }

  // a & b
  function And(a: nat, b: nat): nat {
    if a == 0 || b == 0 then 0
    else 2 * And(a / 2, b / 2) + (if a % 2 == 1 && b % 2 == 1 then 1 else 0)
  }

  // a & ~b, for words wide enough to hold both
  function AndNot(a: nat, b: nat): nat {
    if a == 0 then 0
    else 2 * AndNot(a / 2, b / 2) + (if a % 2 == 1 && b % 2 == 0 then 1 else 0)
  }

  // a | b
  function Or(a: nat, b: nat): nat {
    if a == 0 then b
    else if b == 0 then a
    else 2 * Or(a / 2, b / 2) + (if a % 2 == 1 || b % 2 == 1 then 1 else 0)
  }

  // Bit k of a number.
  predicate Bit(a: nat, k: nat) {
    if k == 0 then a % 2 == 1 else Bit(a / 2, k - 1)
  }

  lemma {:induction false} NoBits(k: nat)
    ensures !Bit(0, k)
  {
    if k > 0 {
      NoBits(k - 1);
    }
  }

  // The operations are what they are bit by bit.
  lemma {:induction false} BitByBit(a: nat, b: nat, k: nat)
    ensures Bit(And(a, b), k) <==> Bit(a, k) && Bit(b, k)
    ensures Bit(AndNot(a, b), k) <==> Bit(a, k) && !Bit(b, k)
    ensures Bit(Or(a, b), k) <==> Bit(a, k) || Bit(b, k)
    decreases k
  {
    NoBits(k);
    Halves(a, b);
    if k > 0 {
      BitByBit(a / 2, b / 2, k - 1);
    }
  }

  lemma {:induction false} Halves(a: nat, b: nat)
    ensures And(a, b) / 2 == And(a / 2, b / 2) && (And(a, b) % 2 == 1 <==> a % 2 == 1 && b % 2 == 1)
    ensures AndNot(a, b) / 2 == AndNot(a / 2, b / 2) && (AndNot(a, b) % 2 == 1 <==> a % 2 == 1 && b % 2 == 0)
    ensures Or(a, b) / 2 == Or(a / 2, b / 2) && (Or(a, b) % 2 == 1 <==> a % 2 == 1 || b % 2 == 1)
  {
    AndHalf(a, b);
    AndNotHalf(a, b);
    OrHalf(a, b);
  }

  lemma {:induction false} AndHalf(a: nat, b: nat)
    ensures And(a, b) / 2 == And(a / 2, b / 2) && (And(a, b) % 2 == 1 <==> a % 2 == 1 && b % 2 == 1)
  {
  }

  lemma {:induction false} AndNotHalf(a: nat, b: nat)
    ensures AndNot(a, b) / 2 == AndNot(a / 2, b / 2) && (AndNot(a, b) % 2 == 1 <==> a % 2 == 1 && b % 2 == 0)
  {
  }

  lemma {:induction false} OrHalf(a: nat, b: nat)
    ensures Or(a, b) / 2 == Or(a / 2, b / 2) && (Or(a, b) % 2 == 1 <==> a % 2 == 1 || b % 2 == 1)
  {
  }

  // Numbers that agree in every bit are equal.
  lemma {:induction false} SameBits(a: nat, b: nat)
    requires forall k: nat :: Bit(a, k) <==> Bit(b, k)
    ensures a == b
    decreases a + b
  {
    if a + b > 0 {
      assert Bit(a, 0) <==> Bit(b, 0);
      forall k: nat
        ensures Bit(a / 2, k) <==> Bit(b / 2, k)
      {
        assert Bit(a, k + 1) <==> Bit(b, k + 1);
      }
      SameBits(a / 2, b / 2);
    }
  }

  lemma {:induction false} Pow2Next(k: nat)
    ensures Pow2(0) == 1 && Pow2(k + 1) == 2 * Pow2(k)
  {
  }

  lemma {:induction false} PtrBits() returns (k: nat)
    ensures Pow2(k) == PTR
  {
    assert Pow2(2) == 4 && Pow2(3) == 8;
    k := if PTR == 4 then 2 else 3;
  }

  lemma {:induction false} HalfMod(a: nat, p: nat)
    requires p >= 1
    ensures a % (2 * p) == 2 * ((a / 2) % p) + a % 2
  {
    var q := (a / 2) / p;
    var r := (a / 2) % p;
    assert a / 2 == q * p + r;
    assert a == (2 * p) * q + (2 * r + a % 2) by {
      assert 2 * (q * p) == (2 * p) * q;
    }
    DivModUnique(a, 2 * p, q, 2 * r + a % 2);
  }

  lemma {:induction false} QuotientUnique(d: int, q: int, r: int, q': int, r': int)
    requires d >= 1 && 0 <= r < d && 0 <= r' < d && d * q + r == d * q' + r'
    ensures q == q' && r == r'
  {
    if q < q' {
      MulMono(q + 1, q', d);
    } else if q > q' {
      MulMono(q' + 1, q, d);
    }
  }

  lemma {:induction false} DivModUnique(a: int, d: int, q: int, r: int)
    requires d >= 1 && 0 <= r < d && a == d * q + r
    ensures a / d == q && a % d == r
  {
    QuotientUnique(d, q, r, a / d, a % d);
  }

  lemma {:induction false} MulMono(a: int, b: int, c: int)
    requires a <= b && c >= 0
    ensures a * c <= b * c
  {
  }

  // Masking with 2^k - 1 is the remainder modulo 2^k.
  lemma {:induction false} AndMask(a: nat, k: nat)
    ensures And(a, Pow2(k) - 1) == a % Pow2(k)
  {
    hide Pow2, And;
    AndNone(a, Pow2(k) - 1);
    if k == 0 {
      Pow2Next(0);
    } else if a == 0 {
      DivModUnique(0, Pow2(k), 0, 0);
    } else {
      AndMask(a / 2, k - 1);
      Pow2Next(k - 1);
      HalfMod(a, Pow2(k - 1));
      OddHalf(Pow2(k - 1));
      AndOdd(a, Pow2(k) - 1);
    }
  }

  lemma {:induction false} AndNone(a: nat, b: nat)
    ensures a == 0 || b == 0 ==> And(a, b) == 0
  {
  }

  lemma {:induction false} AndOdd(a: nat, b: nat)
    requires a > 0 && b % 2 == 1
    ensures And(a, b) == 2 * And(a / 2, b / 2) + a % 2
  {
  }

  // Clearing the bits of b takes away at most b.
  lemma {:induction false} AndNotBounds(a: nat, b: nat)
    ensures a - b <= AndNot(a, b) <= a
  {
    if a != 0 {
      AndNotBounds(a / 2, b / 2);
    }
  }

  // Clearing a low mask rounds down to a multiple of the power of two.
  lemma {:induction false} AndNotMask(a: nat, k: nat)
    ensures AndNot(a, Pow2(k) - 1) == a - a % Pow2(k)
  {
    hide Pow2, AndNot;
    if a == 0 {
      AndNotBounds(0, Pow2(k) - 1);
      DivModUnique(0, Pow2(k), 0, 0);
    } else if k == 0 {
      Pow2Next(0);
      AndNotBounds(a, 0);
    } else {
      AndNotMask(a / 2, k - 1);
      Pow2Next(k - 1);
      AndNotStep(a, Pow2(k - 1));
    }
  }

  lemma {:induction false} AndNotStep(a: nat, p: nat)
    requires a > 0 && p >= 1 && AndNot(a / 2, p - 1) == a / 2 - (a / 2) % p
    ensures AndNot(a, 2 * p - 1) == a - a % (2 * p)
  {
    hide AndNot;
    HalfMod(a, p);
    OddHalf(p);
    AndNotOdd(a, 2 * p - 1);
    Doubling(a, (a / 2) % p);
  }

  lemma {:induction false} OddHalf(p: nat)
    requires p >= 1
    ensures (2 * p - 1) / 2 == p - 1 && (2 * p - 1) % 2 == 1
  {
  }

  // An odd mask clears the lowest bit.
  lemma {:induction false} AndNotOdd(a: nat, b: nat)
    requires b % 2 == 1
    ensures AndNot(a, b) == 2 * AndNot(a / 2, b / 2)
  {
  }

  lemma {:induction false} Doubling(a: nat, m: int)
    ensures 2 * (a / 2 - m) == a - (2 * m + a % 2)
  {
  }

  // Putting a number below 2^k into the low bits that a shift left free.
  lemma {:induction false} OrDisjoint(a: nat, b: nat, k: nat)
    requires b < Pow2(k)
    ensures Or(a * Pow2(k), b) == a * Pow2(k) + b
  {
    if k == 0 || a == 0 {
    } else {
      var h := a * Pow2(k - 1);
      assert a * Pow2(k) == 2 * h by {
        Swap2(a, Pow2(k - 1));
      }
      OrDisjoint(a, b / 2, k - 1);
    }
  }

  lemma {:induction false} Swap2(a: int, p: int)
    ensures a * (2 * p) == 2 * (a * p)
  {
  }

  // CH_ALIGN_TO of shared/ch_arena.h: ((x) + (n) - 1) & ~((n) - 1). With n == 0 the
  // mask ~(0 - 1) has no bits, so every x comes out as zero.
  function AlignTo(x: nat, n: nat): nat {
    if n == 0 then 0 else AndNot(x + n - 1, n - 1)
  }

  // CH_ALIGN_TO never shrinks its input, even when n is not a power of two.
  lemma {:induction false} AlignNeverShrinks(x: nat, n: nat)
    requires n >= 1
    ensures x <= AlignTo(x, n) < x + n
  {
    AndNotBounds(x + n - 1, n - 1);
  }

  // For a power of two it is the least multiple of n that is not below x.
  lemma {:induction false} AlignIsLeastMultiple(x: nat, k: nat)
    ensures AlignTo(x, Pow2(k)) % Pow2(k) == 0
    ensures x <= AlignTo(x, Pow2(k)) < x + Pow2(k)
    ensures forall y: nat :: y % Pow2(k) == 0 && x <= y ==> AlignTo(x, Pow2(k)) <= y
  {
    var n := Pow2(k);
    var a := x + n - 1;
    AlignNeverShrinks(x, n);
    AndNotMask(a, k);
    RoundDown(a, n);
    forall y: nat | y % n == 0 && x <= y
      ensures AlignTo(x, n) <= y
    {
      MultiplesApart(AlignTo(x, n), y, n);
    }
  }

  lemma {:induction false} RoundDown(a: int, n: int)
    requires n >= 1
    ensures (a - a % n) % n == 0
  {
    DivModUnique(a - a % n, n, a / n, 0);
  }

  // Two multiples of n that are less than n apart are ordered.
  lemma {:induction false} MultiplesApart(a: int, b: int, n: int)
    requires n >= 1 && a % n == 0 && b % n == 0 && a < b + n
    ensures a <= b
  {
    if a > b {
      if a / n <= b / n {
        MulMono(a / n, b / n, n);
      } else {
        MulMono(b / n + 1, a / n, n);
      }
      assert false;
    }
  }
}
