/** Finding the tree of a position: the loop of `detect_offset` (src/util/mod.rs). */
module Offsets {
  import opened Bits
  import opened Positions

  /** State of the loop for slot (row, off): no tree above row `tr` holds the slot. */
  ghost predicate OffsetInv(pos: nat, n: nat, rows: nat, row: nat, off: nat, marker: nat, tr: nat)
  {
    && row <= tr <= rows
    && LowBits(marker, tr + 1) == LowBits(pos, tr + 1)
    && Shr(off, tr + 1 - row) == Shr(n, tr + 1)
    && marker == pos - (n - LowBits(n, tr + 1))
  }

  lemma OffsetInit(pos: nat, n: nat, rows: nat, row: nat, off: nat)
    requires Fits(n, rows) && off < Shr(n, row) && row <= rows && off < Pow2(rows - row)
    requires pos == Encode(row, off, rows) && n <= Pow2(rows)
    requires rows == TreeRows(n)
    ensures OffsetInv(pos, n, rows, row, off, pos, rows)
  {
    hide Encode, LowBits, Shr;
    Pow2Monotone(rows - row, rows + 1 - row);
    ShrVanishes(off, rows + 1 - row);
    ShrVanishes(n, rows + 1);
    LowBitsSmall(n, rows + 1);
  }

  /** The loop test looks at one digit of n and one digit of the slot. */
  lemma OffsetDigit(pos: nat, n: nat, rows: nat, row: nat, off: nat, marker: nat, tr: nat)
    requires rows < 62 && row <= rows && off < Pow2(rows - row) && pos == Encode(row, off, rows)
    requires OffsetInv(pos, n, rows, row, off, marker, tr)
    ensures Bit(marker, tr - row) == Bit(off, tr - row)
  {
    hide Encode, Shr;
    LowBitsBit(marker, pos, tr + 1, tr - row);
    BitEncode(row, off, rows, tr - row);
  }

  lemma {:induction false} LowBitsBit(a: nat, b: nat, k: nat, i: nat)
    requires LowBits(a, k) == LowBits(b, k) && i < k
    ensures Bit(a, i) == Bit(b, i)
    decreases k
  {
    if i > 0 { LowBitsBit(a / 2, b / 2, k - 1, i - 1); }
  }

  lemma OffsetStep(pos: nat, n: nat, rows: nat, row: nat, off: nat, marker: nat, tr: nat)
    requires Fits(n, rows) && off < Shr(n, row) && row <= rows && off < Pow2(rows - row)
    requires pos == Encode(row, off, rows)
    requires OffsetInv(pos, n, rows, row, off, marker, tr)
    requires Bit(n, tr) ==> Bit(off, tr - row)
    ensures tr > row && (Bit(n, tr) ==> marker >= Pow2(tr))
    ensures OffsetInv(pos, n, rows, row, off, if Bit(n, tr) then marker - Pow2(tr) else marker, tr - 1)
    ensures RootIndex(n, tr - 1) == RootIndex(n, tr) + if Bit(n, tr) then 1 else 0
  {
    hide Encode, LowBits;
    // the digits agree at tr too
    SameDigit(n, row, off, tr);
    BitIsShrParity(n, tr);
    ShrStep(n, tr);
    LowBitsStep(n, tr);
    LowBitsPrefix(marker, pos, tr);
    HighBelow(pos, n, rows, row, off, tr);
    if Bit(n, tr) {
      LowBitsSub(marker, tr);
    }
  }

  /** If the slot does not differ from n at digit tr, it agrees with n from there up. */
  lemma SameDigit(n: nat, row: nat, off: nat, tr: nat)
    requires off < Shr(n, row) && row <= tr && Shr(off, tr + 1 - row) == Shr(n, tr + 1)
    requires Bit(n, tr) ==> Bit(off, tr - row)
    ensures Shr(off, tr - row) == Shr(n, tr)
    ensures tr > row
  {
    assert Shr(off, 0) == off;
    BitIsShrParity(n, tr);
    BitIsShrParity(off, tr - row);
    ShrStep(n, tr);
    ShrStep(off, tr - row);
    ShrMonotone(off, Shr(n, row), tr - row);
    ShrCompose(n, row, tr - row);
  }

  /** The trees larger than 2^tr end at or before the position. */
  lemma HighBelow(pos: nat, n: nat, rows: nat, row: nat, off: nat, tr: nat)
    requires n <= Pow2(rows) && row <= rows && pos == Encode(row, off, rows) && row <= tr
    requires Shr(off, tr - row) == Shr(n, tr)
    ensures pos >= n - LowBits(n, tr)
  {
    hide LowBits, Shr;
    if row == 0 {
      HighPart(off, n, tr);
      LowBitsStep(off, tr);
    } else {
      Pow2Monotone(rows + 1 - row, rows);
    }
  }

  /** `detect_offset` on a slot: the index of its tree, its depth there, and the complement of its
      path, the branch to take first at the highest of `branchLen` digits. */
  method DetectOffset(pos: U64, n: nat) returns (biggerTrees: nat, branchLen: nat, bits: U64)
    requires n <= MAX_LEAVES && Valid(pos, n, TreeRows(n))
    ensures var rows := TreeRows(n);
            var row, off := RowOf(pos, rows), OffOf(pos, rows);
            && biggerTrees == RootIndex(n, RootAbove(n, row, off))
            && branchLen == RootAbove(n, row, off) - row
            && forall i :: 0 <= i < branchLen ==> Bit(bits, i) == !Bit(off, i)
  {
    hide And, ShiftLeft, LowBits, Shr, Bit, Encode, RowOf, RootIndex, RootAbove, TreeRows, Pow2, OffsetInv;
    TreeRowsFit(n);
    ghost var rows := TreeRows(n);
    Decode(pos, n, rows);
    ghost var row, off := RowOf(pos, rows), OffOf(pos, rows);
    var tr := TreeRows(n);
    var nr := RowOf(pos, tr);
    biggerTrees := 0;
    var marker: U64 := pos;
    OffsetInit(pos, n, rows, row, off);
    RootIndexTop(n, rows);
    InvRow(pos, n, rows, row, off, marker, tr);
    while And(ShiftLeft(marker, nr), Mask(tr)) >= And(ShiftLeft(1, tr), n)
      invariant row <= tr <= rows
      invariant OffsetInv(pos, n, rows, row, off, marker, tr)
      invariant biggerTrees == RootIndex(n, tr)
      decreases tr
    {
      OffsetTest(marker, nr, tr, n);
      OffsetDigit(pos, n, rows, row, off, marker, tr);
      OffsetStep(pos, n, rows, row, off, marker, tr);
      var treeSize := And(ShiftLeft(1, tr), n);
      if treeSize != 0 {
        marker := marker - treeSize;
        biggerTrees := biggerTrees + 1;
      }
      tr := tr - 1;
    }
    OffsetTest(marker, nr, tr, n);
    OffsetDigit(pos, n, rows, row, off, marker, tr);
    OffsetDone(pos, n, rows, row, off, marker, tr);
    branchLen := tr - nr;
    bits := Not(marker);
    forall i | 0 <= i < branchLen ensures Bit(bits, i) == !Bit(off, i) {
      OffsetPath(pos, rows, row, off, marker, tr, n, i);
    }
  }

  lemma RootIndexTop(n: nat, rows: nat)
    requires n <= Pow2(rows)
    ensures RootIndex(n, rows) == 0
  {
    ShrVanishes(n, rows + 1);
  }

  lemma InvRow(pos: nat, n: nat, rows: nat, row: nat, off: nat, marker: nat, tr: nat)
    requires OffsetInv(pos, n, rows, row, off, marker, tr)
    ensures row <= tr <= rows
  {
  }

  lemma OffsetDone(pos: nat, n: nat, rows: nat, row: nat, off: nat, marker: nat, tr: nat)
    requires off < Shr(n, row) && OffsetInv(pos, n, rows, row, off, marker, tr)
    requires row <= tr && Bit(n, tr) && !Bit(off, tr - row)
    ensures RootAbove(n, row, off) == tr
  {
    hide LowBits;
    RootAboveIs(n, row, off, tr);
  }

  lemma OffsetPath(pos: nat, rows: nat, row: nat, off: nat, marker: U64, tr: nat, n: nat, i: nat)
    requires rows < 62 && row <= rows && off < Pow2(rows - row) && pos == Encode(row, off, rows)
    requires OffsetInv(pos, n, rows, row, off, marker, tr) && i < tr - row
    ensures Bit(Not(marker), i) == !Bit(off, i)
  {
    hide Encode, LowBits, Shr, Bit;
    LowBitsBit(marker, pos, tr + 1, i);
    BitEncode(row, off, rows, i);
    WordIsPow2();
    BitNot(marker, 64, i);
  }
}
