/** Position arithmetic of the forest (src/util/mod.rs).

    A forest of `rows` rows numbers its slots row by row from the bottom: slot `off` of row
    `row` is `Encode(row, off, rows)`.  In binary that is `row` ones, a zero, and the digits of
    `off`, which is why the program can move between rows by shifting.  A forest that has seen
    `n` leaves uses exactly the slots with `off < n >> row`; the lemmas of this module turn
    every bit trick of the program into that picture.
  */
module Positions {
  import opened Bits

  const MAX_FOREST_ROWS: nat := 63

  /** The largest forest this model speaks about. */
  const MAX_LEAVES: nat := 0x2000_0000_0000_0000

  datatype Option<+T> = None | Some(value: T)

  // ----- the program's functions -----

  /** The loop of `detect_row`, which `DetectRow` below runs. */
  function RowFrom(pos: nat, marker: nat, h: nat): (r: nat)
    ensures r >= h
    decreases marker
  {
    if And(pos, marker) != 0 then RowFrom(pos, Shr(marker, 1), h + 1) else h
  }

  function RowOf(pos: nat, rows: nat): nat {
    RowFrom(pos, ShiftLeft(1, rows), 0)
  }

  /** From digit `rows` down, h ones lead. */
  predicate LeadingOnes(pos: nat, rows: nat, h: nat) {
    && h <= rows + 1
    && (forall i: nat :: i <= rows && rows - h < i ==> Bit(pos, i))
    && (h <= rows ==> !Bit(pos, rows - h))
  }

  method DetectRow(pos: nat, rows: nat) returns (h: nat)
    ensures h == RowOf(pos, rows)
    ensures rows < 64 ==> LeadingOnes(pos, rows, h)
  {
    hide LeadingOnes, ShiftLeft;
    RowOfLeads(pos, rows);
    var marker := ShiftLeft(1, rows);
    h := 0;
    while And(pos, marker) != 0
      invariant RowOf(pos, rows) == RowFrom(pos, marker, h)
      decreases marker
    {
      marker := Shr(marker, 1);
      h := h + 1;
    }
  }

  function TreeRows(n: nat): nat {
    if n == 0 then 0 else BitLength(n - 1)
  }

  function Parent(pos: nat, rows: nat): nat {
    Or(Shr(pos, 1), ShiftLeft(1, rows))
  }

  function Sibling(pos: nat): nat {
    Xor(pos, 1)
  }

  function LeftSibling(pos: nat): nat {
    Xor(Or(pos, 1), 1)
  }

  function Mask(rows: nat): nat
    requires rows < 63
  {
    ShiftLeftTwo(rows);
    ShiftLeft(2, rows) - 1
  }

  function LeftChild(pos: nat, rows: nat): nat
    requires rows < 63
  {
    And(ShiftLeft(pos, 1), Mask(rows))
  }

  function RightChild(pos: nat, rows: nat): nat
    requires rows < 63
  {
    LeftChild(pos, rows) + 1
  }

  /** Computed in 128 bits and cut to a word.  In builds without overflow checks the shift for a
      row above the forest wraps around and leaves only the low word of `2 << rows`. */
  function StartPositionAtRow(row: nat, rows: nat): U64 {
    WordIsPow2();
    LowBits(if row <= rows then RowStart(row, rows) else Pow2(rows + 1), 64)
  }

  function RowStart(row: nat, rows: nat): nat
    requires row <= rows
  {
    Pow2Monotone(rows - row + 1, rows + 1);
    Pow2(rows + 1) - Pow2(rows - row + 1)
  }

  function RootPosition(n: nat, row: nat, rows: nat): nat
    requires rows < 63 && row <= rows + 1
  {
    var before := And(n, ShiftLeft(Mask(rows), row + 1));
    var shifted := Or(Shr(before, row), ShiftLeft(Mask(rows), rows + 1 - row));
    And(shifted, Mask(rows))
  }

  predicate IsRootPosition(pos: nat, n: nat, rows: nat)
    requires rows < 63
  {
    RowOfBound(pos, rows);
    var row := RowOf(pos, rows);
    And(n, ShiftLeft(1, row)) != 0 && RootPosition(n, row, rows) == pos
  }

  predicate IsRootPopulated(row: nat, n: nat) {
    And(Shr(n, row), 1) == 1
  }

  function WrappingAdd(a: U64, b: U64): U64 {
    if a + b < WORD then a + b else a + b - WORD
  }

  function WrappingSub(a: U64, b: U64): U64 {
    if b <= a then a - b else a + WORD - b
  }

  function Translate(pos: U64, fromRows: nat, toRows: nat): U64 {
    var row := RowOf(pos, fromRows);
    if row == 0 then pos
    else
      var offset := WrappingSub(pos, StartPositionAtRow(row, fromRows));
      WrappingAdd(offset, StartPositionAtRow(row, toRows))
  }

  function ParentMany(pos: nat, rise: nat, rows: nat): Option<nat>
    requires rows < 63
  {
    if rise == 0 then Some(pos)
    else if rise > rows then None
    else Some(And(Or(Shr(pos, rise), ShiftLeft(Mask(rows), rows - (rise - 1))), Mask(rows)))
  }

  function IsAncestor(higherPos: nat, lowerPos: nat, rows: nat): Option<bool>
    requires rows < 63
  {
    if higherPos == lowerPos then Some(false)
    else
      var lowerRow := RowOf(lowerPos, rows);
      var higherRow := RowOf(higherPos, rows);
      if higherRow < lowerRow then Some(false)
      else
        match ParentMany(lowerPos, higherRow - lowerRow, rows)
        case None => None
        case Some(ancestor) => Some(higherPos == ancestor)
  }

  /** `((base << bit) - 1) as u64` with the literal taken for a 32-bit signed integer: the shift
      amount is cut to 5 bits, the result to 32, and the sign is extended. */
  function IntMask(base: nat, bit: nat): U64 {
    LowBitsWord32(Shl(base, LowBits(bit, 5)));
    var shifted := LowBits(Shl(base, LowBits(bit, 5)), 32);
    var less := if shifted == 0 then 0xFFFF_FFFF else shifted - 1;
    if less < 0x8000_0000 then less else less + (WORD - 0x1_0000_0000)
  }

  function RemoveBit(val: U64, bit: nat): U64 {
    XorWord(WORD - 1, IntMask(2, bit));
    XorWord(WORD - 1, IntMask(1, bit));
    var upperMask: U64 := Xor(WORD - 1, IntMask(2, bit));
    var lowerMask: U64 := Not(Xor(WORD - 1, IntMask(1, bit)));
    OrWord(Shr(And(val, upperMask), 1), And(val, lowerMask));
    Or(Shr(And(val, upperMask), 1), And(val, lowerMask))
  }

  lemma LowBitsWord32(a: nat)
    ensures LowBits(a, 32) < 0x1_0000_0000
  {
    assert Pow2(32) == 0x1_0000_0000 by {
      assert Pow2(8) == 0x100;
      assert Pow2(16) == 0x1_0000;
      assert Pow2(24) == 0x100_0000;
    }
  }

  /** The position of a node after its aunt or sibling at `delPos` is deleted; None stands for
      the error "del_pos is at a lower row". */
  function CalcNextPos(position: U64, delPos: nat, rows: nat): Option<U64>
    requires RowOf(position, rows) < rows
  {
    var delRow := RowOf(delPos, rows);
    var posRow := RowOf(position, rows);
    if delRow < posRow then None
    else
      var lowerBits := RemoveBit(position, delRow - posRow);
      var toRow := posRow + 1;
      var higherBits := ShiftLeft(ShiftLeft(1, toRow), rows - toRow);
      WordIsPow2();
      OrWord(higherBits, lowerBits);
      Some(Or(higherBits, lowerBits))
  }

  // ----- slots -----

  function Encode(row: nat, off: nat, rows: nat): nat
    requires row <= rows
  {
    RowStart(row, rows) + off
  }

  function OffOf(pos: nat, rows: nat): int {
    var row := RowOf(pos, rows);
    if row <= rows then pos - RowStart(row, rows) else -1
  }

  /** `pos` is a slot of the forest with n leaves. */
  predicate Valid(pos: nat, n: nat, rows: nat) {
    var row := RowOf(pos, rows);
    row <= rows && 0 <= OffOf(pos, rows) < Shr(n, row)
  }

  /** How many slots a row has; it shrinks towards the top. */
  function Level(pos: nat, n: nat, rows: nat): nat {
    Shr(n, RowOf(pos, rows))
  }

  predicate RootCoord(row: nat, off: nat, n: nat) {
    Shr(n, row) % 2 == 1 && off == Shr(n, row) - 1
  }

  function Twin(off: nat): nat {
    if off % 2 == 0 then off + 1 else off - 1
  }

  lemma {:induction false} RowFromBound(pos: nat, k: nat, h: nat)
    ensures RowFrom(pos, Pow2(k), h) <= h + k + 1
  {
    if And(pos, Pow2(k)) != 0 {
      if k > 0 {
        assert Shr(Pow2(k), 1) == Pow2(k - 1);
        RowFromBound(pos, k - 1, h + 1);
      } else {
        assert Shr(Pow2(k), 1) == 0;
        assert And(pos, 0) == 0;
      }
    }
  }

  lemma {:induction false} RowFromLeads(pos: nat, k: nat, h: nat)
    requires k < 64
    ensures RowFrom(pos, Pow2(k), h) >= h && LeadingOnes(pos, k, RowFrom(pos, Pow2(k), h) - h)
    decreases k
  {
    hide Bit, And;
    MarkerTest(pos, k);
    if Bit(pos, k) {
      if k > 0 {
        HalfPow2(k);
        RowFromLeads(pos, k - 1, h + 1);
      } else {
        ZeroMarker(pos);
      }
    }
  }

  lemma ZeroMarker(pos: nat)
    ensures Shr(Pow2(0), 1) == 0 && And(pos, 0) == 0
  {
    assert Shr(1, 1) == Shr(0, 0);
  }

  /** The row of a position is the number of ones that lead it, whatever the position. */
  lemma RowOfLeads(pos: nat, rows: nat)
    ensures rows < 64 ==> LeadingOnes(pos, rows, RowOf(pos, rows))
  {
    hide LeadingOnes, RowFrom;
    if rows < 64 {
      ShiftLeftOne(rows);
      RowFromLeads(pos, rows, 0);
    }
  }

  lemma RowOfBound(pos: nat, rows: nat)
    requires rows < 64
    ensures RowOf(pos, rows) <= rows + 1
  {
    ShiftLeftOne(rows);
    RowFromBound(pos, rows, 0);
  }

  /** The offsets of a row fit in the digits that the row leaves free. */
  lemma CoordBound(row: nat, off: nat, n: nat, rows: nat)
    requires off < Shr(n, row) && n <= Pow2(rows)
    ensures row <= rows && off < Pow2(rows - row)
  {
    if row > rows {
      Pow2Monotone(rows, row);
      Pow2Monotone(rows + 1, row);
      ShrVanishes(n, row);
    }
    ShrMonotone(n, Pow2(rows), row);
    ShrPow2(rows, row);
  }

  lemma BitEncode(row: nat, off: nat, rows: nat, i: nat)
    requires row <= rows && off < Pow2(rows - row)
    ensures Bit(Encode(row, off, rows), i) ==
            (if i < rows + 1 - row then Bit(off, i) else i < rows + 1)
  {
    ShlPow2(row, rows + 1 - row);
    BitConcat(Pow2(row) - 1, rows + 1 - row, off, i);
    if i >= rows + 1 - row { BitMask(row, i - (rows + 1 - row)); }
  }

  lemma MarkerTest(pos: nat, k: nat)
    requires k < 64
    ensures And(pos, Pow2(k)) != 0 <==> Bit(pos, k)
  {
    ShiftLeftOne(k);
    AndOneShifted(pos, k);
  }

  /** The row of a position is the number of ones that lead its digits. */
  lemma {:induction false} RowFromBits(pos: nat, row: nat, rows: nat, j: nat)
    requires j <= row <= rows < 64
    requires forall i: nat :: rows - row < i <= rows ==> Bit(pos, i)
    requires !Bit(pos, rows - row)
    ensures RowFrom(pos, Pow2(rows - j), j) == row
    decreases row - j
  {
    MarkerTest(pos, rows - j);
    if j < row {
      HalfPow2(rows - j);
      RowFromBits(pos, row, rows, j + 1);
    }
  }

  lemma HalfPow2(k: nat)
    requires k > 0
    ensures Shr(Pow2(k), 1) == Pow2(k - 1)
  {
    assert Shr(Pow2(k), 1) == Shr(Pow2(k) / 2, 0);
  }

  lemma RowOfEncode(row: nat, off: nat, rows: nat)
    requires row <= rows < 64 && off < Pow2(rows - row)
    ensures RowOf(Encode(row, off, rows), rows) == row
    ensures OffOf(Encode(row, off, rows), rows) == off
  {
    hide Bit, RowFrom, ShiftLeft, Pow2, RowStart;
    var pos := Encode(row, off, rows);
    ShiftLeftOne(rows);
    forall i: nat ensures Bit(pos, i) == (if i < rows + 1 - row then Bit(off, i) else i < rows + 1) {
      BitEncode(row, off, rows, i);
    }
    BitHigh(off, rows - row, rows - row);
    RowFromBits(pos, row, rows, 0);
  }

  lemma ValidEncode(row: nat, off: nat, n: nat, rows: nat)
    requires off < Shr(n, row) && n <= Pow2(rows) && rows < 64
    ensures row <= rows
    ensures off < Pow2(rows - row)
    ensures RowOf(Encode(row, off, rows), rows) == row && OffOf(Encode(row, off, rows), rows) == off
    ensures Valid(Encode(row, off, rows), n, rows)
  {
    CoordBound(row, off, n, rows);
    RowOfEncode(row, off, rows);
  }

  lemma Decode(pos: nat, n: nat, rows: nat)
    requires Valid(pos, n, rows) && n <= Pow2(rows)
    ensures var row, off := RowOf(pos, rows), OffOf(pos, rows);
            row <= rows && 0 <= off < Pow2(rows - row) && pos == Encode(row, off, rows)
  {
    CoordBound(RowOf(pos, rows), OffOf(pos, rows), n, rows);
  }

  lemma EncodeBound(row: nat, off: nat, rows: nat)
    requires row <= rows && off < Pow2(rows - row)
    ensures Encode(row, off, rows) < Pow2(rows + 1)
  {
  }

  /** Positions are ordered row by row, then by offset. */
  lemma EncodeOrder(row: nat, off: nat, row': nat, off': nat, rows: nat)
    requires row <= rows && off < Pow2(rows - row)
    requires row' <= rows && off' < Pow2(rows - row')
    ensures Encode(row, off, rows) < Encode(row', off', rows) <==> row < row' || (row == row' && off < off')
  {
    if row < row' {
      Pow2Monotone(rows + 1 - row', rows + 1 - row);
    } else if row' < row {
      Pow2Monotone(rows + 1 - row, rows + 1 - row');
    }
  }

  // ----- what the bit tricks do to slots -----

  lemma ParentEncode(row: nat, off: nat, rows: nat)
    requires row < rows < 64 && off < Pow2(rows - row)
    ensures Parent(Encode(row, off, rows), rows) == Encode(row + 1, off / 2, rows)
  {
    var pos := Encode(row, off, rows);
    assert Pow2(rows + 1 - row) == 2 * Pow2(rows - row);
    assert Shr(pos, 1) == Shr(pos / 2, 0) == pos / 2;
    assert pos / 2 == Pow2(rows) - Pow2(rows - row) + off / 2 < Pow2(rows);
    ShiftLeftOne(rows);
    OrHighBit(pos / 2, rows);
  }

  lemma SiblingEncode(row: nat, off: nat, rows: nat)
    requires row <= rows
    ensures Sibling(Encode(row, off, rows)) == Encode(row, Twin(off), rows)
    ensures Or(Encode(row, off, rows), 1) == Encode(row, 2 * (off / 2) + 1, rows)
    ensures LeftSibling(Encode(row, off, rows)) == Encode(row, 2 * (off / 2), rows)
  {
    hide Or, Xor, RowStart;
    LowBit(Encode(row, off, rows));
    LowBit(Encode(row, 2 * (off / 2) + 1, rows));
    RowStartEven(row, rows);
  }

  lemma RowStartEven(row: nat, rows: nat)
    requires row <= rows
    ensures RowStart(row, rows) % 2 == 0
  {
    Pow2Monotone(rows - row, rows);
    assert RowStart(row, rows) == 2 * (Pow2(rows) - Pow2(rows - row));
  }

  lemma MaskBit(rows: nat, i: nat)
    requires rows < 63
    ensures Bit(Mask(rows), i) == (i < rows + 1)
  {
    hide Bit, ShiftLeft, Pow2;
    ShiftLeftTwo(rows);
    BitMask(rows + 1, i);
  }

  lemma ChildBit(row: nat, off: nat, rows: nat, i: nat)
    requires 0 < row <= rows < 63 && off < Pow2(rows - row)
    ensures Bit(LeftChild(Encode(row, off, rows), rows), i) == Bit(Encode(row - 1, 2 * off, rows), i)
  {
    hide And, Or, Bit, ShiftLeft, Mask;
    var pos := Encode(row, off, rows);
    BitAnd(ShiftLeft(pos, 1), Mask(rows), i);
    BitShiftLeft(pos, 1, i);
    MaskBit(rows, i);
    BitEncode(row - 1, 2 * off, rows, i);
    DoubleBit(off, i);
    if i > 0 { BitEncode(row, off, rows, i - 1); }
  }

  lemma DoubleBit(a: nat, i: nat)
    ensures Bit(2 * a, i) == (i > 0 && Bit(a, i - 1))
  {
  }

  lemma ChildEncode(row: nat, off: nat, rows: nat)
    requires 0 < row <= rows < 63 && off < Pow2(rows - row)
    ensures LeftChild(Encode(row, off, rows), rows) == Encode(row - 1, 2 * off, rows)
    ensures RightChild(Encode(row, off, rows), rows) == Encode(row - 1, 2 * off + 1, rows)
  {
    var pos, child := Encode(row, off, rows), Encode(row - 1, 2 * off, rows);
    forall i: nat ensures Bit(LeftChild(pos, rows), i) == Bit(child, i) {
      ChildBit(row, off, rows, i);
    }
    BitExt(LeftChild(pos, rows), child);
  }

  lemma RootPositionEncode(n: nat, row: nat, rows: nat)
    requires row <= rows < 62 && n <= Pow2(rows) && Bit(n, row)
    ensures Shr(n, row) % 2 == 1 && Shr(n, row) - 1 < Pow2(rows - row)
    ensures RootPosition(n, row, rows) == Encode(row, Shr(n, row) - 1, rows)
  {
    hide Bit, RootPosition, Pow2, Encode;
    BitIsShrParity(n, row);
    ShrStep(n, row);
    var off := Shr(n, row) - 1;
    CoordBound(row, off, n, rows);
    var root := RootPosition(n, row, rows);
    forall i: nat ensures Bit(root, i) == Bit(Encode(row, off, rows), i) {
      RootPositionBit(n, row, rows, off, i);
    }
    BitExt(root, Encode(row, off, rows));
  }

  lemma RootPositionBit(n: nat, row: nat, rows: nat, off: nat, i: nat)
    requires row <= rows < 62 && off < Pow2(rows - row)
    requires Shr(n, row) == off + 1 && off % 2 == 0
    ensures Bit(RootPosition(n, row, rows), i) == Bit(Encode(row, off, rows), i)
  {
    hide Bit, Shr, RootPosition, Encode, Pow2;
    RootMaskBit(n, row, rows, i);
    BitEncode(row, off, rows, i);
    // the digits of the offset are those of n above the root's row
    BitShr(n, row, i);
    LowestOff(Shr(n, row), i);
  }

  lemma LowestOff(a: nat, i: nat)
    requires a % 2 == 1
    ensures Bit(a - 1, i) == (i > 0 && Bit(a, i))
  {
    assert (a - 1) / 2 == a / 2;
  }

  lemma RootMaskBit(n: nat, row: nat, rows: nat, i: nat)
    requires row <= rows < 62
    ensures Bit(RootPosition(n, row, rows), i) ==
            (i < rows + 1 && (i >= rows + 1 - row || (0 < i && Bit(n, i + row))))
  {
    hide And, Or, Bit, ShiftLeft, Mask, Shr;
    var mask := Mask(rows);
    var before := And(n, ShiftLeft(mask, row + 1));
    var ones := ShiftLeft(mask, rows + 1 - row);
    BitAnd(Or(Shr(before, row), ones), mask, i);
    BitOr(Shr(before, row), ones, i);
    BitShr(before, row, i);
    BitAnd(n, ShiftLeft(mask, row + 1), i + row);
    BitShiftLeft(mask, row + 1, i + row);
    BitShiftLeft(mask, rows + 1 - row, i);
    MaskBit(rows, i);
    if i >= rows + 1 - row { MaskBit(rows, i - (rows + 1 - row)); }
    if i > 0 { MaskBit(rows, i - 1); }
  }

  /** For the slots of a forest, `is_root_position` recognises exactly the roots. */
  lemma IsRootEncode(row: nat, off: nat, n: nat, rows: nat)
    requires off < Shr(n, row) && n <= Pow2(rows) && rows < 62
    ensures row <= rows
    ensures IsRootPosition(Encode(row, off, rows), n, rows) <==> RootCoord(row, off, n)
  {
    hide And, Or, Bit, ShiftLeft, Mask, Shr, RowOf, RootPosition, OffOf, Pow2, Encode;
    ValidEncode(row, off, n, rows);
    var pos := Encode(row, off, rows);
    assert IsRootPosition(pos, n, rows) ==
           (And(n, ShiftLeft(1, row)) != 0 && RootPosition(n, row, rows) == pos);
    AndOneShifted(n, row);
    BitIsShrParity(n, row);
    if Bit(n, row) {
      RootPositionEncode(n, row, rows);
      EncodeInjective(row, off, Shr(n, row) - 1, rows);
    }
  }

  lemma EncodeInjective(row: nat, off: nat, off': nat, rows: nat)
    requires row <= rows
    ensures Encode(row, off, rows) == Encode(row, off', rows) <==> off == off'
  {
  }

  lemma TreeRowsBounds(n: nat)
    ensures n <= Pow2(TreeRows(n))
    ensures n >= 2 ==> TreeRows(n) >= 1 && Pow2(TreeRows(n) - 1) < n
    ensures n <= MAX_LEAVES ==> TreeRows(n) <= 61
  {
    if n > 0 { BitLengthBounds(n - 1); }
    if n <= MAX_LEAVES && TreeRows(n) > 61 {
      MaxLeavesIsPow2();
      Pow2Monotone(61, TreeRows(n) - 1);
    }
  }

  lemma MaxLeavesIsPow2()
    ensures Pow2(61) == MAX_LEAVES
  {
    WordIsPow2();
    assert Pow2(64) == 2 * Pow2(63) == 4 * Pow2(62) == 8 * Pow2(61);
  }

  // ----- walking a forest by positions -----

  /** n leaves fit below `rows` rows, and the row arithmetic stays inside a word. */
  predicate Fits(n: nat, rows: nat) {
    n <= Pow2(rows) && rows < 62
  }

  lemma TreeRowsFit(n: nat)
    requires n <= MAX_LEAVES
    ensures Fits(n, TreeRows(n))
  {
    TreeRowsBounds(n);
  }

  /** One climbing step: the sibling and the parent of a slot that is no root are slots of the
      same tree, and the parent lies one row up. */
  lemma Climb(pos: nat, n: nat, rows: nat)
    requires Fits(n, rows) && Valid(pos, n, rows)
    ensures IsRootPosition(pos, n, rows) <==> RootCoord(RowOf(pos, rows), OffOf(pos, rows), n)
    ensures !IsRootPosition(pos, n, rows) ==>
              && Valid(Parent(pos, rows), n, rows)
              && Level(Parent(pos, rows), n, rows) < Level(pos, n, rows)
              && RowOf(Parent(pos, rows), rows) == RowOf(pos, rows) + 1
              && OffOf(Parent(pos, rows), rows) == OffOf(pos, rows) / 2
              && Valid(Sibling(pos), n, rows) && !IsRootPosition(Sibling(pos), n, rows)
              && RowOf(Sibling(pos), rows) == RowOf(pos, rows)
              && OffOf(Sibling(pos), rows) == Twin(OffOf(pos, rows))
              && Parent(Sibling(pos), rows) == Parent(pos, rows)
  {
    hide Bit, And, Or, Xor, ShiftLeft, Shr, RowOf, IsRootPosition, Pow2;
    Decode(pos, n, rows);
    var row, off := RowOf(pos, rows), OffOf(pos, rows);
    IsRootEncode(row, off, n, rows);
    if !IsRootPosition(pos, n, rows) {
      ShrStep(n, row);
      ValidEncode(row + 1, off / 2, n, rows);
      ParentEncode(row, off, rows);
      SiblingEncode(row, off, rows);
      ValidEncode(row, Twin(off), n, rows);
      IsRootEncode(row, Twin(off), n, rows);
      ParentEncode(row, Twin(off), rows);
    }
  }

  /** Parity of a position is parity of its offset. */
  lemma PairEncode(pos: nat, n: nat, rows: nat)
    requires Fits(n, rows) && Valid(pos, n, rows)
    ensures pos % 2 == OffOf(pos, rows) % 2
    ensures Sibling(pos) == (if pos % 2 == 0 then pos + 1 else pos - 1)
    ensures Or(pos, 1) == (if pos % 2 == 0 then pos + 1 else pos)
    ensures LeftSibling(pos) == (if pos % 2 == 0 then pos else pos - 1)
  {
    hide Bit, And, Or, Xor, ShiftLeft, Shr, RowOf, OffOf, Encode, Pow2;
    Decode(pos, n, rows);
    ParityEncode(RowOf(pos, rows), OffOf(pos, rows), rows);
    LowBit(pos);
    LowBit(Or(pos, 1));
  }

  lemma ParityEncode(row: nat, off: nat, rows: nat)
    requires row <= rows
    ensures Encode(row, off, rows) % 2 == off % 2
  {
    assert Pow2(rows + 1) == 2 * Pow2(rows) && Pow2(rows + 1 - row) == 2 * Pow2(rows - row);
  }

  /** Slots are numbered row by row, then left to right. */
  lemma Order(p: nat, q: nat, n: nat, rows: nat)
    requires Fits(n, rows) && Valid(p, n, rows) && Valid(q, n, rows)
    ensures p < q <==> RowOf(p, rows) < RowOf(q, rows)
                       || (RowOf(p, rows) == RowOf(q, rows) && OffOf(p, rows) < OffOf(q, rows))
    ensures p == q <==> RowOf(p, rows) == RowOf(q, rows) && OffOf(p, rows) == OffOf(q, rows)
  {
    hide Bit, And, Or, Xor, ShiftLeft, Shr, RowOf, OffOf, Pow2;
    Decode(p, n, rows);
    Decode(q, n, rows);
    EncodeOrder(RowOf(p, rows), OffOf(p, rows), RowOf(q, rows), OffOf(q, rows), rows);
    EncodeOrder(RowOf(q, rows), OffOf(q, rows), RowOf(p, rows), OffOf(p, rows), rows);
  }

  lemma ParentAbove(p: nat, n: nat, rows: nat)
    requires Fits(n, rows) && Valid(p, n, rows) && !IsRootPosition(p, n, rows)
    ensures p < Parent(p, rows)
  {
    hide Bit, And, Or, Xor, ShiftLeft, Shr, RowOf, OffOf, Parent, Valid, IsRootPosition;
    Climb(p, n, rows);
    Order(p, Parent(p, rows), n, rows);
  }

  /** Parents are ordered as their children, and only siblings share one. */
  lemma ParentOrder(p: nat, q: nat, n: nat, rows: nat)
    requires Fits(n, rows) && Valid(p, n, rows) && Valid(q, n, rows) && p < q
    requires !IsRootPosition(p, n, rows) && !IsRootPosition(q, n, rows)
    ensures Parent(p, rows) <= Parent(q, rows)
    ensures Parent(p, rows) == Parent(q, rows) <==> p % 2 == 0 && q == p + 1
  {
    hide Bit, And, Or, Xor, ShiftLeft, Shr, RowOf, OffOf, Parent, Valid, IsRootPosition, Sibling;
    Climb(p, n, rows);
    Climb(q, n, rows);
    Order(p, q, n, rows);
    Order(Parent(p, rows), Parent(q, rows), n, rows);
    PairEncode(p, n, rows);
    PairEncode(q, n, rows);
    Order(Sibling(p), q, n, rows);
  }

  // ----- the two coordinate systems -----

  lemma {:induction false} LowBitsSmall(a: nat, k: nat)
    requires a < Pow2(k)
    ensures LowBits(a, k) == a
    decreases k
  {
    if k > 0 { LowBitsSmall(a / 2, k - 1); }
  }

  lemma StartIsRowStart(row: nat, rows: nat)
    requires row <= rows < 64
    ensures StartPositionAtRow(row, rows) == RowStart(row, rows) < WORD
  {
    WordIsPow2();
    Pow2Monotone(rows + 1, 64);
    LowBitsSmall(RowStart(row, rows), 64);
  }

  lemma EncodeWord(row: nat, off: nat, rows: nat)
    requires row <= rows < 64 && off < Pow2(rows - row)
    ensures Encode(row, off, rows) < WORD
  {
    EncodeBound(row, off, rows);
    Pow2Monotone(rows + 1, 64);
    WordIsPow2();
  }

  /** Translation keeps the row and the offset of a slot. */
  lemma TranslateEncode(row: nat, off: nat, fromRows: nat, toRows: nat)
    requires row <= fromRows < 64 && row <= toRows < 64
    requires off < Pow2(fromRows - row) && off < Pow2(toRows - row)
    ensures Encode(row, off, fromRows) < WORD
    ensures Translate(Encode(row, off, fromRows), fromRows, toRows) == Encode(row, off, toRows)
  {
    hide RowOf, Pow2, StartPositionAtRow;
    EncodeWord(row, off, fromRows);
    EncodeWord(row, off, toRows);
    RowOfEncode(row, off, fromRows);
    StartIsRowStart(row, fromRows);
    StartIsRowStart(row, toRows);
    if row == 0 { RowStartZero(fromRows); RowStartZero(toRows); }
  }

  lemma RowStartZero(rows: nat)
    ensures RowStart(0, rows) == 0
  {
  }

  /** Positions of the forest itself are taken for slots of the bottom row, and stay put. */
  lemma TranslateCurrent(pos: nat, rows: nat)
    requires pos < Pow2(63)
    ensures pos < WORD && Translate(pos, MAX_FOREST_ROWS, rows) == pos
  {
    hide Pow2;
    WordIsPow2();
    Pow2Monotone(63, 64);
    ShiftLeftOne(63);
    MarkerTest(pos, 63);
    BitHigh(pos, 63, 63);
  }

  /** Handing a position out in 63-row coordinates and reading it back is the identity. */
  lemma TranslateRoundTrip(pos: nat, n: nat, rows: nat)
    requires Fits(n, rows) && Valid(pos, n, rows)
    ensures pos < Pow2(63) && pos < WORD
    ensures Translate(pos, MAX_FOREST_ROWS, rows) == pos
    ensures Translate(Translate(pos, rows, MAX_FOREST_ROWS), MAX_FOREST_ROWS, rows) == pos
  {
    hide RowOf, Pow2, Translate, OffOf, Encode;
    Decode(pos, n, rows);
    var row, off := RowOf(pos, rows), OffOf(pos, rows);
    Pow2Monotone(rows - row, 63 - row);
    Pow2Monotone(rows + 1, 63);
    EncodeBound(row, off, rows);
    TranslateCurrent(pos, rows);
    TranslateEncode(row, off, rows, 63);
    EncodeWord(row, off, 63);
    TranslateEncode(row, off, 63, rows);
  }

  // ----- which tree a slot belongs to -----

  /** Index among the roots of the tree at `row`: the larger trees come first. */
  function RootIndex(n: nat, row: nat): nat {
    PopCount(Shr(n, row + 1))
  }

  lemma {:induction false} RootIndexBound(n: nat, row: nat)
    ensures RootIndex(n, row) <= PopCount(n)
    ensures Shr(n, row) % 2 == 1 ==> RootIndex(n, row) < PopCount(n)
    decreases row
  {
    if row > 0 { RootIndexBound(n / 2, row - 1); } else { ShrStep(n, 0); }
  }

  /** Different rows have different roots. */
  lemma {:induction false} RootIndexInjective(n: nat, row: nat, row': nat)
    requires row < row' && Shr(n, row') % 2 == 1
    ensures RootIndex(n, row') < RootIndex(n, row)
  {
    ShrCompose(n, row + 1, row' - (row + 1));
    RootIndexBound(Shr(n, row + 1), row' - (row + 1));
    ShrCompose(n, row + 1, row' - row);
  }

  /** The root slot above a slot. */
  function RootAbove(n: nat, row: nat, off: nat): (r: nat)
    requires off < Shr(n, row)
    ensures r >= row && Shr(n, r) % 2 == 1
    decreases Shr(n, row)
  {
    ShrStep(n, row);
    if RootCoord(row, off, n) then row else RootAbove(n, row + 1, off / 2)
  }

  lemma HalfNot(a: nat, p: nat)
    requires a < 2 * p
    ensures a / 2 < p && (2 * p - 1 - a) / 2 == p - 1 - a / 2
    ensures (2 * p - 1 - a) % 2 == 1 - a % 2
  {
  }

  lemma {:induction false} BitNot(a: nat, k: nat, i: nat)
    requires a < Pow2(k) && i < k
    ensures Bit(Pow2(k) - 1 - a, i) == !Bit(a, i)
    decreases k
  {
    HalfNot(a, Pow2(k - 1));
    if i > 0 { BitNot(a / 2, k - 1, i - 1); }
  }

  lemma {:induction false} TopBit(a: nat, k: nat)
    requires a < Pow2(k + 1)
    ensures a >= Pow2(k) <==> Bit(a, k)
    decreases k
  {
    if k > 0 { TopBit(a / 2, k - 1); }
  }

  lemma {:induction false} LowBitsSub(a: nat, k: nat)
    requires a >= Pow2(k)
    ensures LowBits(a - Pow2(k), k) == LowBits(a, k)
    decreases k
  {
    if k > 0 {
      var p := Pow2(k - 1);
      assert Pow2(k) == 2 * p && (a - 2 * p) / 2 == a / 2 - p && (a - 2 * p) % 2 == a % 2;
      LowBitsSub(a / 2, k - 1);
    }
  }

  lemma {:induction false} LowBitsPrefix(a: nat, b: nat, k: nat)
    requires LowBits(a, k + 1) == LowBits(b, k + 1)
    ensures LowBits(a, k) == LowBits(b, k) && Bit(a, k) == Bit(b, k)
    decreases k
  {
    if k > 0 { LowBitsPrefix(a / 2, b / 2, k - 1); }
  }

  /** Numbers that agree from digit k up differ only in their low digits. */
  lemma {:induction false} HighPart(a: nat, b: nat, k: nat)
    requires Shr(a, k) == Shr(b, k)
    ensures a - LowBits(a, k) == b - LowBits(b, k)
    decreases k
  {
    if k > 0 { HighPart(a / 2, b / 2, k - 1); }
  }

  lemma {:induction false} LowBitsStep(a: nat, k: nat)
    ensures LowBits(a, k + 1) == LowBits(a, k) + if Bit(a, k) then Pow2(k) else 0
    ensures LowBits(a, k) <= a
    decreases k
  {
    if k > 0 { LowBitsStep(a / 2, k - 1); }
  }

  /** The comparison that decides whether `detect_offset` has to look at smaller trees. */
  lemma OffsetTest(marker: nat, nr: nat, tr: nat, n: nat)
    requires nr <= tr < 62
    ensures And(ShiftLeft(marker, nr), Mask(tr)) >= And(ShiftLeft(1, tr), n) <==>
            (Bit(n, tr) ==> Bit(marker, tr - nr))
    ensures And(ShiftLeft(1, tr), n) == if Bit(n, tr) then Pow2(tr) else 0
  {
    hide And, ShiftLeft, Bit, LowBits, Mask, Pow2;
    var x := ShiftLeft(marker, nr);
    ShiftLeftTwo(tr);
    MaskIs(tr);
    AndMask(x, tr + 1);
    BitLowBits(x, tr + 1, tr);
    BitShiftLeft(marker, nr, tr);
    TopBit(LowBits(x, tr + 1), tr);
    AndCommutes(ShiftLeft(1, tr), n);
    AndOneShifted(n, tr);
  }

  lemma MaskIs(rows: nat)
    requires rows < 63
    ensures Mask(rows) == Pow2(rows + 1) - 1
  {
    ShiftLeftTwo(rows);
  }

  lemma {:induction false} AndCommutes(a: nat, b: nat)
    ensures And(a, b) == And(b, a)
  {
    if a > 0 && b > 0 { AndCommutes(a / 2, b / 2); }
  }

  /** A slot and n share their digits above the row of the tree that holds the slot, and there n
      has a one where the slot has a zero. */
  lemma {:induction false} RootAboveIs(n: nat, row: nat, off: nat, r: nat)
    requires off < Shr(n, row) && row <= r
    requires Shr(off, r + 1 - row) == Shr(n, r + 1) && Bit(n, r) && !Bit(off, r - row)
    ensures RootAbove(n, row, off) == r
    decreases r - row
  {
    ShrStep(n, row);
    BitIsShrParity(n, r);
    BitIsShrParity(off, r - row);
    ShrStep(n, r);
    ShrStep(off, r - row);
    if r == row {
      assert Shr(off, 0) == off;
    } else {
      if RootCoord(row, off, n) {
        assert off / 2 == Shr(n, row) / 2 == Shr(n, row + 1);
        assert Shr(off, 1) == Shr(off / 2, 0);
        ShrCompose(off, 1, r - row - 1);
        ShrCompose(n, row + 1, r - row - 1);
      } else {
        assert Shr(off / 2, r - row) == Shr(off, r + 1 - row);
        assert Bit(off / 2, r - row - 1) == Bit(off, r - row);
        RootAboveIs(n, row + 1, off / 2, r);
      }
    }
  }
}
