/** Bit-level operations on machine words.

    A word is a natural number below 2^64.  Every operation is defined by recursion on the
    binary digits, so that reasoning about it stays linear; `ShiftLeft` drops the bits that
    leave the word, as the `<<` of a 64-bit integer does.
  */
module Bits {

  const WORD: nat := 0x1_0000_0000_0000_0000

  type U64 = x: nat | x < WORD

  function Pow2(k: nat): (p: nat)
    ensures p >= 1
  {
    if k == 0 then 1 else 2 * Pow2(k - 1)
  }

  function Shr(a: nat, k: nat): (r: nat)
    ensures r <= a
    decreases k
  {
    if k == 0 then a else Shr(a / 2, k - 1)
  }

  /** Left shift without loss of bits. */
  function Shl(a: nat, k: nat): nat
    decreases k
  {
    if k == 0 then a else 2 * Shl(a, k - 1)
  }

  /** The number formed by the lowest k digits. */
  function LowBits(a: nat, k: nat): (r: nat)
    ensures r < Pow2(k)
    decreases k
  {
    if k == 0 then 0 else 2 * LowBits(a / 2, k - 1) + a % 2
  }

  /** Left shift in a 64-bit word. */
  function ShiftLeft(a: nat, k: nat): (r: U64)
    ensures r < Pow2(64)
  {
    WordIsPow2();
    LowBits(Shl(a, k), 64)
  }

  predicate Bit(a: nat, i: nat)
    decreases i
  {
    if i == 0 then a % 2 == 1 else Bit(a / 2, i - 1)
  }

  function And(a: nat, b: nat): (r: nat)
    ensures r <= a && r <= b
  {
    if a == 0 || b == 0 then 0
    else 2 * And(a / 2, b / 2) + (if a % 2 == 1 && b % 2 == 1 then 1 else 0)
  }

  function Or(a: nat, b: nat): nat
    decreases a + b
  {
    if a == 0 && b == 0 then 0
    else 2 * Or(a / 2, b / 2) + (if a % 2 == 1 || b % 2 == 1 then 1 else 0)
  }

  function Xor(a: nat, b: nat): nat
    decreases a + b
  {
    if a == 0 && b == 0 then 0
    else 2 * Xor(a / 2, b / 2) + (if a % 2 != b % 2 then 1 else 0)
  }

  /** Bitwise complement of a 64-bit word. */
  function Not(a: U64): U64 {
    WORD - 1 - a
  }

  /** Number of set bits (`count_ones`). */
  function PopCount(n: nat): nat {
    if n == 0 then 0 else n % 2 + PopCount(n / 2)
  }

  /** Number of binary digits: 64 minus `leading_zeros`. */
  function BitLength(n: nat): nat {
    if n == 0 then 0 else 1 + BitLength(n / 2)
  }

  // ----- digits of each operation -----

  lemma {:induction false} BitExt(a: nat, b: nat)
    requires forall i: nat :: Bit(a, i) == Bit(b, i)
    ensures a == b
    decreases a + b
  {
    if a + b > 0 {
      assert Bit(a, 0) == Bit(b, 0);
      forall i: nat ensures Bit(a / 2, i) == Bit(b / 2, i) {
        assert Bit(a, i + 1) == Bit(b, i + 1);
      }
      BitExt(a / 2, b / 2);
    }
  }

  lemma {:induction i} BitZero(i: nat)
    ensures !Bit(0, i)
  {
  }

  lemma {:induction false} BitAnd(a: nat, b: nat, i: nat)
    ensures Bit(And(a, b), i) == (Bit(a, i) && Bit(b, i))
    decreases i
  {
    if a == 0 || b == 0 {
      BitZero(i);
    } else if i > 0 {
      BitAnd(a / 2, b / 2, i - 1);
    }
  }

  lemma {:induction false} BitOr(a: nat, b: nat, i: nat)
    ensures Bit(Or(a, b), i) == (Bit(a, i) || Bit(b, i))
    decreases i
  {
    if a == 0 && b == 0 {
      BitZero(i);
    } else if i > 0 {
      BitOr(a / 2, b / 2, i - 1);
    }
  }

  lemma {:induction false} BitXor(a: nat, b: nat, i: nat)
    ensures Bit(Xor(a, b), i) == (Bit(a, i) != Bit(b, i))
    decreases i
  {
    if a == 0 && b == 0 {
      BitZero(i);
    } else if i > 0 {
      BitXor(a / 2, b / 2, i - 1);
    }
  }

  lemma {:induction false} BitShr(a: nat, k: nat, i: nat)
    ensures Bit(Shr(a, k), i) == Bit(a, i + k)
    decreases k
  {
    if k > 0 {
      BitShr(a / 2, k - 1, i);
    }
  }

  lemma {:induction false} BitShl(a: nat, k: nat, i: nat)
    ensures Bit(Shl(a, k), i) == (k <= i && Bit(a, i - k))
    decreases k
  {
    if k > 0 && i > 0 {
      BitShl(a, k - 1, i - 1);
    }
  }

  /** A number below 2^k has no digit from k upwards. */
  lemma {:induction false} BitHigh(a: nat, k: nat, i: nat)
    requires a < Pow2(k) && k <= i
    ensures !Bit(a, i)
    decreases i
  {
    if k == 0 {
      BitZero(i);
    } else {
      BitHigh(a / 2, k - 1, i - 1);
    }
  }

  lemma {:induction false} BitLowBits(a: nat, k: nat, i: nat)
    ensures Bit(LowBits(a, k), i) == (i < k && Bit(a, i))
    decreases k
  {
    if k == 0 {
      BitZero(i);
    } else if i > 0 {
      BitLowBits(a / 2, k - 1, i - 1);
    }
  }

  lemma {:induction false} WordIsPow2()
    ensures Pow2(64) == WORD
  {
    assert Pow2(8) == 0x100;
    assert Pow2(16) == 0x1_0000;
    assert Pow2(24) == 0x100_0000;
    assert Pow2(32) == 0x1_0000_0000;
    assert Pow2(40) == 0x100_0000_0000;
    assert Pow2(48) == 0x1_0000_0000_0000;
    assert Pow2(56) == 0x100_0000_0000_0000;
  }

  lemma BitShiftLeft(a: nat, k: nat, i: nat)
    ensures Bit(ShiftLeft(a, k), i) == (k <= i < 64 && Bit(a, i - k))
  {
    BitLowBits(Shl(a, k), 64, i);
    BitShl(a, k, i);
  }

  /** The mask 2^k - 1 has exactly the digits below k. */
  lemma {:induction false} BitMask(k: nat, i: nat)
    ensures Bit(Pow2(k) - 1, i) == (i < k)
    decreases k
  {
    if k == 0 {
      BitZero(i);
    } else if i > 0 {
      assert (Pow2(k) - 1) / 2 == Pow2(k - 1) - 1;
      BitMask(k - 1, i - 1);
    }
  }

  lemma {:induction false} BitPow2(k: nat, i: nat)
    ensures Bit(Pow2(k), i) == (i == k)
    decreases k
  {
    if k == 0 {
      if i > 0 { BitZero(i - 1); }
    } else if i > 0 {
      BitPow2(k - 1, i - 1);
    }
  }

  // ----- arithmetic meaning -----

  lemma {:induction false} ShlOne(k: nat)
    ensures Shl(1, k) == Pow2(k)
  {
    if k > 0 { ShlOne(k - 1); }
  }

  lemma {:induction false} ShiftLeftOne(k: nat)
    requires k < 64
    ensures ShiftLeft(1, k) == Pow2(k) < WORD
  {
    forall i: nat ensures Bit(ShiftLeft(1, k), i) == Bit(Pow2(k), i) {
      BitShiftLeft(1, k, i);
      BitPow2(k, i);
      if i >= k { BitPow2(0, i - k); }
    }
    BitExt(ShiftLeft(1, k), Pow2(k));
    WordIsPow2();
  }

  lemma {:induction false} ShiftLeftTwo(k: nat)
    requires k < 63
    ensures ShiftLeft(2, k) == Pow2(k + 1) < WORD
  {
    ShiftLeftOne(k + 1);
    ShlTwo(k);
  }

  lemma {:induction false} ShlTwo(k: nat)
    ensures Shl(2, k) == Shl(1, k + 1)
  {
    if k > 0 { ShlTwo(k - 1); }
  }

  lemma {:induction false} Pow2Monotone(j: nat, k: nat)
    requires j <= k
    ensures Pow2(j) <= Pow2(k)
    ensures j < k ==> 2 * Pow2(j) <= Pow2(k)
    decreases k - j
  {
    if j < k { Pow2Monotone(j, k - 1); }
  }

  lemma {:induction false} ShrCompose(a: nat, j: nat, k: nat)
    ensures Shr(Shr(a, j), k) == Shr(a, j + k)
    decreases j
  {
    if j > 0 { ShrCompose(a / 2, j - 1, k); }
  }

  /** Shifting once more halves. */
  lemma ShrStep(a: nat, k: nat)
    ensures Shr(a, k + 1) == Shr(a, k) / 2
  {
    ShrCompose(a, k, 1);
    assert Shr(Shr(a, k), 1) == Shr(Shr(a, k) / 2, 0);
  }

  lemma {:induction false} ShrMonotone(a: nat, b: nat, k: nat)
    requires a <= b
    ensures Shr(a, k) <= Shr(b, k)
    decreases k
  {
    if k > 0 { ShrMonotone(a / 2, b / 2, k - 1); }
  }

  lemma {:induction false} ShrPow2(m: nat, k: nat)
    requires k <= m
    ensures Shr(Pow2(m), k) == Pow2(m - k)
    decreases k
  {
    if k > 0 { ShrPow2(m - 1, k - 1); }
  }

  lemma {:induction false} ShrBound(a: nat, m: nat, k: nat)
    requires a < Pow2(m) && k <= m
    ensures Shr(a, k) < Pow2(m - k)
    decreases k
  {
    if k > 0 { ShrBound(a / 2, m - 1, k - 1); }
  }

  lemma {:induction false} ShrVanishes(a: nat, k: nat)
    requires a < Pow2(k)
    ensures Shr(a, k) == 0
    decreases k
  {
    if k > 0 { ShrVanishes(a / 2, k - 1); }
  }

  lemma BitIsShrParity(a: nat, k: nat)
    ensures Bit(a, k) == (Shr(a, k) % 2 == 1)
  {
    BitShr(a, k, 0);
  }

  /** The test `n & (1 << k) != 0`. */
  lemma AndOneShifted(n: nat, k: nat)
    requires k < 64
    ensures And(n, ShiftLeft(1, k)) == (if Bit(n, k) then Pow2(k) else 0)
  {
    ShiftLeftOne(k);
    var want := if Bit(n, k) then Pow2(k) else 0;
    forall i: nat ensures Bit(And(n, Pow2(k)), i) == Bit(want, i) {
      BitAnd(n, Pow2(k), i);
      BitPow2(k, i);
      BitZero(i);
    }
    BitExt(And(n, Pow2(k)), want);
  }

  /** Masking with 2^k - 1 keeps the low k digits. */
  lemma AndMask(a: nat, k: nat)
    ensures And(a, Pow2(k) - 1) == LowBits(a, k)
  {
    forall i: nat ensures Bit(And(a, Pow2(k) - 1), i) == Bit(LowBits(a, k), i) {
      BitAnd(a, Pow2(k) - 1, i);
      BitMask(k, i);
      BitLowBits(a, k, i);
    }
    BitExt(And(a, Pow2(k) - 1), LowBits(a, k));
  }

  /** Adding a number below 2^k to a multiple of 2^k puts the two digit strings side by side. */
  lemma {:induction false} BitConcat(b: nat, k: nat, a: nat, i: nat)
    requires a < Pow2(k)
    ensures Bit(Shl(b, k) + a, i) == (if i < k then Bit(a, i) else Bit(b, i - k))
    decreases k
  {
    if k > 0 && i > 0 {
      assert (Shl(b, k) + a) / 2 == Shl(b, k - 1) + a / 2;
      BitConcat(b, k - 1, a / 2, i - 1);
    }
  }

  /** Setting a bit above every digit of `a` adds its weight. */
  lemma OrHighBit(a: nat, k: nat)
    requires a < Pow2(k)
    ensures Or(a, Pow2(k)) == a + Pow2(k)
  {
    ShlOne(k);
    forall i: nat ensures Bit(Or(a, Pow2(k)), i) == Bit(Shl(1, k) + a, i) {
      BitOr(a, Pow2(k), i);
      BitPow2(k, i);
      BitConcat(1, k, a, i);
      if i >= k {
        BitHigh(a, k, i);
        BitPow2(0, i - k);
      }
    }
    BitExt(Or(a, Pow2(k)), Shl(1, k) + a);
  }

  lemma {:induction false} OrZero(a: nat)
    ensures Or(a, 0) == a
  {
    if a > 0 { OrZero(a / 2); }
  }

  lemma {:induction false} XorZero(a: nat)
    ensures Xor(a, 0) == a
  {
    if a > 0 { XorZero(a / 2); }
  }

  /** `a ^ 1` is the other half of the pair that holds `a`; `a | 1` is the odd half. */
  lemma LowBit(a: nat)
    ensures Xor(a, 1) == (if a % 2 == 0 then a + 1 else a - 1)
    ensures Or(a, 1) == (if a % 2 == 0 then a + 1 else a)
    ensures And(a, 1) == a % 2
  {
    XorZero(a / 2);
    OrZero(a / 2);
  }

  lemma {:induction false} ShlPow2(h: nat, m: nat)
    ensures Shl(Pow2(h) - 1, m) == Pow2(h + m) - Pow2(m)
  {
    if m > 0 { ShlPow2(h, m - 1); }
  }

  lemma {:induction false} BitLengthBounds(n: nat)
    ensures n < Pow2(BitLength(n))
    ensures n > 0 ==> Pow2(BitLength(n) - 1) <= n
  {
    if n > 1 { BitLengthBounds(n / 2); }
  }

  lemma {:induction false} OrBound(a: nat, b: nat, k: nat)
    requires a < Pow2(k) && b < Pow2(k)
    ensures Or(a, b) < Pow2(k)
    decreases k
  {
    if k > 0 { OrBound(a / 2, b / 2, k - 1); }
  }

  lemma {:induction false} XorBound(a: nat, b: nat, k: nat)
    requires a < Pow2(k) && b < Pow2(k)
    ensures Xor(a, b) < Pow2(k)
    decreases k
  {
    if k > 0 { XorBound(a / 2, b / 2, k - 1); }
  }

  lemma OrWord(a: U64, b: U64)
    ensures Or(a, b) < WORD
  {
    WordIsPow2();
    OrBound(a, b, 64);
  }

  lemma XorWord(a: U64, b: U64)
    ensures Xor(a, b) < WORD
  {
    WordIsPow2();
    XorBound(a, b, 64);
  }

  lemma ShrZero(n: nat)
    ensures Shr(n, 0) == n
  {
  }

  lemma Halve(a: nat)
    ensures Shr(a, 1) == a / 2
  {
    assert Shr(a, 1) == Shr(a / 2, 0);
  }

  lemma HalfCount(n: nat)
    requires n % 2 == 1
    ensures PopCount(n) == 1 + PopCount(n / 2)
  {
  }

  lemma EvenCount(n: nat)
    requires n % 2 == 0
    ensures PopCount(n) == PopCount(n / 2)
  {
  }
}
