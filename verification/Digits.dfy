/** What `remove_bit`, `calc_next_pos`, `parent_many` and `is_ancestor` do to slots
    (src/util/mod.rs). */
module Digits {
  import opened Bits
  import opened Positions

  /** The number without its digit b. */
  function DropDigit(a: nat, b: nat): nat
    decreases b
  {
    if b == 0 then a / 2 else 2 * DropDigit(a / 2, b - 1) + a % 2
  }

  lemma {:induction false} DropDigitBit(a: nat, b: nat, i: nat)
    ensures Bit(DropDigit(a, b), i) == if i < b then Bit(a, i) else Bit(a, i + 1)
    decreases b
  {
    if b > 0 {
      var d := DropDigit(a / 2, b - 1);
      assert (2 * d + a % 2) / 2 == d && (2 * d + a % 2) % 2 == a % 2;
      if i > 0 { DropDigitBit(a / 2, b - 1, i - 1); }
    }
  }

  lemma {:induction false} DropDigitBound(a: nat, b: nat, k: nat)
    requires a < Pow2(k + 1) && b <= k
    ensures DropDigit(a, b) < Pow2(k)
    decreases b
  {
    if b > 0 { DropDigitBound(a / 2, b - 1, k - 1); }
  }

  lemma SmallPowers()
    ensures Pow2(5) == 32 && Pow2(31) == 0x8000_0000 && Pow2(32) == 0x1_0000_0000
  {
    assert Pow2(8) == 0x100;
    assert Pow2(16) == 0x1_0000;
    assert Pow2(24) == 0x100_0000;
  }

  /** Below 31 the 32-bit literals make the mask that was meant. */
  lemma IntMaskSmall(bit: nat)
    requires bit <= 30
    ensures IntMask(1, bit) == Pow2(bit) - 1 && IntMask(2, bit) == Pow2(bit + 1) - 1
  {
    hide Pow2, LowBits, Shl;
    SmallPowers();
    Pow2Monotone(bit, 31);
    Pow2Monotone(bit + 1, 31);
    LowBitsSmall(bit, 5);
    ShlOne(bit);
    ShlTwo(bit);
    ShlOne(bit + 1);
    LowBitsSmall(Pow2(bit), 32);
    LowBitsSmall(Pow2(bit + 1), 32);
  }

  /** `remove_bit` takes out one digit, as long as its 32-bit masks hold. */
  lemma RemoveBitDigit(val: U64, bit: nat)
    requires bit <= 30
    ensures RemoveBit(val, bit) == DropDigit(val, bit)
  {
    hide And, Or, Xor, Bit, Shr, IntMask, Pow2, DropDigit;
    IntMaskSmall(bit);
    XorWord(WORD - 1, IntMask(2, bit));
    XorWord(WORD - 1, IntMask(1, bit));
    forall i: nat ensures Bit(RemoveBit(val, bit), i) == Bit(DropDigit(val, bit), i) {
      DropDigitBit(val, bit, i);
      RemoveBitBit(val, bit, Xor(WORD - 1, Pow2(bit + 1) - 1), Xor(WORD - 1, Pow2(bit) - 1), i);
    }
    BitExt(RemoveBit(val, bit), DropDigit(val, bit));
  }

  lemma RemoveBitBit(val: U64, bit: nat, upper: U64, lower: U64, i: nat)
    requires bit <= 30 && upper == Xor(WORD - 1, Pow2(bit + 1) - 1) && lower == Xor(WORD - 1, Pow2(bit) - 1)
    ensures Bit(Or(Shr(And(val, upper), 1), And(val, Not(lower))), i) ==
            if i < bit then Bit(val, i) else Bit(val, i + 1)
  {
    hide And, Or, Xor, Bit, Shr, Pow2;
    BitOr(Shr(And(val, upper), 1), And(val, Not(lower)), i);
    BitShr(And(val, upper), 1, i);
    BitAnd(val, upper, i + 1);
    BitAnd(val, Not(lower), i);
    MaskedBit(bit + 1, i + 1);
    MaskedBit(bit, i);
    WordIsPow2();
    if i < 64 { BitNot(lower, 64, i); } else { BitHigh(val, 64, i); }
    if i + 1 >= 64 { BitHigh(val, 64, i + 1); }
  }

  lemma MaskedBit(k: nat, i: nat)
    requires k <= 64
    ensures Bit(Xor(WORD - 1, Pow2(k) - 1), i) == (k <= i < 64)
  {
    WordIsPow2();
    BitXor(Pow2(64) - 1, Pow2(k) - 1, i);
    BitMask(64, i);
    BitMask(k, i);
  }

  /** Digits from the word's `bit` on are shifted down, the others stay, for every word. */
  ghost predicate RemovesDigit(bit: nat) {
    forall val: U64 :: RemoveBit(val, bit) == DropDigit(val, bit)
  }

  lemma {:induction false} LowBitsWrap(a: nat, k: nat)
    ensures LowBits(a + Pow2(k), k) == LowBits(a, k)
    decreases k
  {
    if k > 0 {
      assert (a + Pow2(k)) / 2 == a / 2 + Pow2(k - 1) && (a + Pow2(k)) % 2 == a % 2;
      LowBitsWrap(a / 2, k - 1);
    }
  }

  /** A shift amount of 32 and more is cut, so that a lower digit goes. */
  lemma RemoveBitWraps(val: U64, bit: nat)
    ensures RemoveBit(val, bit + 32) == RemoveBit(val, bit)
  {
    hide And, Or, Xor, Shl, Shr, LowBits;
    SmallPowers();
    LowBitsWrap(bit, 5);
  }

  /** At 31 the upper mask is lost altogether. */
  lemma IntMaskAt31()
    ensures IntMask(1, 31) == Pow2(31) - 1 && IntMask(2, 31) == WORD - 1
  {
    hide Pow2, LowBits, Shl;
    SmallPowers();
    LowBitsSmall(31, 5);
    ShlOne(31);
    ShlTwo(31);
    ShlOne(32);
    LowBitsSmall(Pow2(31), 32);
    LowBitsWrap(0, 32);
    LowBitsSmall(0, 32);
  }

  lemma RemoveBit31(val: U64, i: nat)
    ensures Bit(RemoveBit(val, 31), i) == (i < 31 && Bit(val, i))
  {
    hide And, Or, Xor, Bit, Shr, IntMask, Pow2;
    IntMaskAt31();
    XorWord(WORD - 1, IntMask(2, 31));
    XorWord(WORD - 1, IntMask(1, 31));
    WordIsPow2();
    var upper: U64, lower: U64 := Xor(WORD - 1, Pow2(64) - 1), Xor(WORD - 1, Pow2(31) - 1);
    BitOr(Shr(And(val, upper), 1), And(val, Not(lower)), i);
    BitShr(And(val, upper), 1, i);
    BitAnd(val, upper, i + 1);
    MaskedBit(64, i + 1);
    BitAnd(val, Not(lower), i);
    MaskedBit(31, i);
    if i < 64 { BitNot(lower, 64, i); } else { BitHigh(val, 64, i); }
  }

  lemma {:induction false} HighBit(a: nat, k: nat) returns (i: nat)
    requires a >= Pow2(k)
    ensures i >= k && Bit(a, i)
    decreases a
  {
    if k > 0 {
      var j := HighBit(a / 2, k - 1);
      i := j + 1;
    } else if a / 2 > 0 {
      var j := HighBit(a / 2, 0);
      i := j + 1;
    } else {
      i := 0;
    }
  }

  /** Digit 31 is taken out right exactly of the words below 2^32. */
  lemma RemoveBit31Exact(val: U64)
    ensures RemoveBit(val, 31) == DropDigit(val, 31) <==> val < Pow2(32)
  {
    hide Bit, Pow2, DropDigit, RemoveBit;
    if val < Pow2(32) {
      forall i: nat ensures Bit(RemoveBit(val, 31), i) == Bit(DropDigit(val, 31), i) {
        RemoveBit31(val, i);
        DropDigitBit(val, 31, i);
        if i >= 31 { BitHigh(val, 32, i + 1); }
      }
      BitExt(RemoveBit(val, 31), DropDigit(val, 31));
    } else {
      var i := HighBit(val, 32);
      RemoveBit31(val, i - 1);
      DropDigitBit(val, 31, i - 1);
    }
  }

  /** The masks of `remove_bit` hold for digit b of the position. */
  predicate MaskHolds(pos: nat, b: nat) {
    b <= 30 || (b == 31 && pos < Pow2(32))
  }

  lemma RemoveBitMasked(val: U64, b: nat)
    requires MaskHolds(val, b)
    ensures RemoveBit(val, b) == DropDigit(val, b)
  {
    hide RemoveBit, DropDigit, Pow2;
    if b <= 30 { RemoveBitDigit(val, b); } else { RemoveBit31Exact(val); }
  }

  /** The 32-bit literals in its masks let `remove_bit` work for the digits up to 30, and for no
      other. */
  lemma RemoveBitExact(bit: nat)
    requires bit < 64
    ensures RemovesDigit(bit) <==> bit <= 30
  {
    hide And, Or, Xor, Bit, Shr, IntMask, Pow2, DropDigit, RemoveBit;
    if bit <= 30 {
      forall val: U64 ensures RemoveBit(val, bit) == DropDigit(val, bit) { RemoveBitDigit(val, bit); }
    } else {
      var s := bit % 32;
      var val: U64 := WORD - 1;
      WordIsPow2();
      BitMask(64, s);
      BitMask(64, s + 1);
      DropDigitBit(val, bit, s);
      if bit >= 32 { RemoveBitWraps(val, s); }
      if s == 31 {
        RemoveBit31(val, 31);
      } else {
        LoneDigit(s, bit);
      }
    }
  }

  /** A word that loses its only digit. */
  lemma LoneDigit(s: nat, bit: nat)
    requires s <= 30 && bit == s + 32
    ensures !RemovesDigit(bit)
  {
    hide And, Or, Xor, Bit, Shr, IntMask, Pow2, DropDigit, RemoveBit;
    var val := Pow2(s);
    SmallPowers();
    Pow2Monotone(s, 31);
    RemoveBitDigit(val, s);
    RemoveBitWraps(val, s);
    DropDigitBit(val, s, s);
    DropDigitBit(val, bit, s);
    BitPow2(s, s);
    BitPow2(s, s + 1);
  }

  /** A move by one row drops the digit that tells the deleted node from its sibling. */
  lemma NextPosEncode(row: nat, off: nat, delPos: nat, rows: nat)
    requires row < rows < 62 && off < Pow2(rows - row)
    requires row <= RowOf(delPos, rows) < rows && MaskHolds(Encode(row, off, rows), RowOf(delPos, rows) - row)
    ensures Encode(row, off, rows) < WORD && RowOf(Encode(row, off, rows), rows) == row
    ensures var next := DropDigit(off, RowOf(delPos, rows) - row);
            && next < Pow2(rows - (row + 1))
            && CalcNextPos(Encode(row, off, rows), delPos, rows) == Some(Encode(row + 1, next, rows))
  {
    hide RowOf, RemoveBit, DropDigit, Pow2, Encode, Or, ShiftLeft;
    var pos, b := Encode(row, off, rows), RowOf(delPos, rows) - row;
    RowOfEncode(row, off, rows);
    EncodeWord(row, off, rows);
    RemoveBitMasked(pos, b);
    DropDigitBound(off, b, rows - row - 1);
    TwoShifts(row + 1, rows);
    var next := DropDigit(off, b);
    forall i: nat ensures Bit(Or(Pow2(rows), DropDigit(pos, b)), i) == Bit(Encode(row + 1, next, rows), i) {
      NextPosBit(row, off, b, rows, i);
    }
    BitExt(Or(Pow2(rows), DropDigit(pos, b)), Encode(row + 1, next, rows));
  }

  /** From 31 rows below a position of 2^32 or more comes out wrong. */
  lemma NextPosWrong(row: nat, off: nat, delPos: nat, rows: nat)
    requires row < rows < 62 && off < Pow2(rows - row)
    requires row + 31 == RowOf(delPos, rows) < rows && Encode(row, off, rows) >= Pow2(32)
    ensures Encode(row, off, rows) < WORD && RowOf(Encode(row, off, rows), rows) == row
    ensures CalcNextPos(Encode(row, off, rows), delPos, rows) != Some(Encode(row + 1, DropDigit(off, 31), rows))
  {
    hide RowOf, RemoveBit, DropDigit, Pow2, Encode, Or, ShiftLeft, Bit;
    var pos := Encode(row, off, rows);
    RowOfEncode(row, off, rows);
    EncodeWord(row, off, rows);
    DropDigitBound(off, 31, rows - row - 1);
    TwoShifts(row + 1, rows);
    var i := HighBit(pos, 32);
    EncodeBound(row, off, rows);
    if i > rows { BitHigh(pos, rows + 1, i); }
    NextPosBit(row, off, 31, rows, i - 1);
    BitOr(Pow2(rows), DropDigit(pos, 31), i - 1);
    BitOr(Pow2(rows), RemoveBit(pos, 31), i - 1);
    BitPow2(rows, i - 1);
    DropDigitBit(pos, 31, i - 1);
    RemoveBit31(pos, i - 1);
  }

  lemma TwoShifts(toRow: nat, rows: nat)
    requires toRow <= rows < 62
    ensures ShiftLeft(ShiftLeft(1, toRow), rows - toRow) == Pow2(rows)
  {
    hide ShiftLeft, Bit;
    ShiftLeftOne(toRow);
    forall i: nat ensures Bit(ShiftLeft(Pow2(toRow), rows - toRow), i) == Bit(Pow2(rows), i) {
      BitShiftLeft(Pow2(toRow), rows - toRow, i);
      if i >= rows - toRow { BitPow2(toRow, i - (rows - toRow)); }
      BitPow2(rows, i);
    }
    BitExt(ShiftLeft(Pow2(toRow), rows - toRow), Pow2(rows));
  }

  lemma NextPosBit(row: nat, off: nat, b: nat, rows: nat, i: nat)
    requires row < rows && off < Pow2(rows - row) && row + b < rows
    requires DropDigit(off, b) < Pow2(rows - (row + 1))
    ensures Bit(Or(Pow2(rows), DropDigit(Encode(row, off, rows), b)), i) ==
            Bit(Encode(row + 1, DropDigit(off, b), rows), i)
  {
    hide DropDigit, Pow2, Encode, Or, Bit;
    var pos := Encode(row, off, rows);
    BitOr(Pow2(rows), DropDigit(pos, b), i);
    BitPow2(rows, i);
    DropDigitBit(pos, b, i);
    DropDigitBit(off, b, i);
    BitEncode(row, off, rows, i);
    BitEncode(row, off, rows, i + 1);
    BitEncode(row + 1, DropDigit(off, b), rows, i);
  }

  // ----- ancestors -----

  /** hi lies strictly above lo. */
  predicate Above(hi: nat, lo: nat, rows: nat) {
    RowOf(lo, rows) < RowOf(hi, rows) && OffOf(lo, rows) >= 0
    && OffOf(hi, rows) == Shr(OffOf(lo, rows), RowOf(hi, rows) - RowOf(lo, rows))
  }

  lemma ParentManyEncode(row: nat, off: nat, rise: nat, rows: nat)
    requires row + rise <= rows < 62 && off < Pow2(rows - row)
    ensures Shr(off, rise) < Pow2(rows - (row + rise))
    ensures ParentMany(Encode(row, off, rows), rise, rows) == Some(Encode(row + rise, Shr(off, rise), rows))
  {
    hide Pow2, Encode, Or, And, Bit, Shr, ShiftLeft, Mask;
    ShrBound(off, rows - row, rise);
    if rise == 0 {
      ShrZero(off);
    } else {
      var pos := Encode(row, off, rows);
      var high := ShiftLeft(Mask(rows), rows - (rise - 1));
      var many := And(Or(Shr(pos, rise), high), Mask(rows));
      forall i: nat ensures Bit(many, i) == Bit(Encode(row + rise, Shr(off, rise), rows), i) {
        BitAnd(Or(Shr(pos, rise), high), Mask(rows), i);
        MaskBit(rows, i);
        BitOr(Shr(pos, rise), high, i);
        BitShr(pos, rise, i);
        BitEncode(row, off, rows, i + rise);
        BitShiftLeft(Mask(rows), rows - (rise - 1), i);
        if i >= rows - (rise - 1) { MaskBit(rows, i - (rows - (rise - 1))); }
        BitEncode(row + rise, Shr(off, rise), rows, i);
        BitShr(off, rise, i);
      }
      BitExt(many, Encode(row + rise, Shr(off, rise), rows));
    }
  }

  /** `is_ancestor` on slots. */
  lemma AncestorAbove(hi: nat, lo: nat, n: nat, rows: nat)
    requires Fits(n, rows) && Valid(hi, n, rows) && Valid(lo, n, rows)
    ensures IsAncestor(hi, lo, rows) == Some(Above(hi, lo, rows))
  {
    hide Pow2, Encode, RowOf, OffOf, ParentMany, Shr;
    Decode(hi, n, rows);
    Decode(lo, n, rows);
    var row, top := RowOf(lo, rows), RowOf(hi, rows);
    if hi != lo && top >= row {
      ParentManyEncode(row, OffOf(lo, rows), top - row, rows);
      EncodeInjective(top, OffOf(hi, rows), Shr(OffOf(lo, rows), top - row), rows);
      ShrZero(OffOf(lo, rows));
    }
  }

  /** Nothing lies above a root. */
  lemma {:induction false} RootIsTop(n: nat, row: nat, off: nat, k: nat)
    requires off < Shr(n, row) && k > 0 && Shr(off, k) < Shr(n, row + k)
    ensures !RootCoord(row, off, n) && row + k <= RootAbove(n, row, off)
    decreases k
  {
    hide Shr;
    ShrStep(n, row);
    ShrCompose(off, 1, k - 1);
    ShrCompose(n, row + 1, k - 1);
    Halve(off);
    if !RootCoord(row, off, n) && k > 1 {
      RootIsTop(n, row + 1, off / 2, k - 1);
    }
  }

  /** The slots above (row, off), up to its root. */
  lemma {:induction false} AboveSlot(n: nat, row: nat, off: nat, k: nat)
    requires off < Shr(n, row) && row + k <= RootAbove(n, row, off)
    ensures Shr(off, k) < Shr(n, row + k)
    ensures RootCoord(row + k, Shr(off, k), n) <==> RootAbove(n, row, off) == row + k
    ensures RootAbove(n, row + k, Shr(off, k)) == RootAbove(n, row, off)
    decreases k
  {
    hide Shr;
    ShrStep(n, row);
    if k == 0 {
      ShrZero(off);
    } else {
      AboveSlot(n, row + 1, off / 2, k - 1);
      ShrCompose(off, 1, k - 1);
      ShrStep(off, 0);
      ShrZero(off);
    }
  }
}
