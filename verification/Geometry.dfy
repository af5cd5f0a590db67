/** Two facts about whole root paths (src/util/mod.rs): where climbing ends, and that the 63-row
    coordinates have the same shape. */
module Geometry {
  import opened Bits
  import opened Positions

  function ParentTimes(pos: nat, times: nat, rows: nat): nat
    decreases times
  {
    if times == 0 then pos else ParentTimes(Parent(pos, rows), times - 1, rows)
  }

  /** Climbing as often as `detect_offset` says lands on the root position of the slot's tree, the
      first ancestor that `is_root_position` accepts. */
  lemma {:induction false} ClimbEnds(pos: nat, n: nat, rows: nat, times: nat)
    requires Fits(n, rows) && Valid(pos, n, rows)
    requires RowOf(pos, rows) <= rows && 0 <= OffOf(pos, rows) < Shr(n, RowOf(pos, rows))
    requires RowOf(pos, rows) + times <= RootAbove(n, RowOf(pos, rows), OffOf(pos, rows))
    ensures var top := RootAbove(n, RowOf(pos, rows), OffOf(pos, rows));
            && IsRootPosition(ParentTimes(pos, times, rows), n, rows) == (RowOf(pos, rows) + times == top)
            && top <= rows
            && (RowOf(pos, rows) + times == top ==> ParentTimes(pos, times, rows) == RootPosition(n, top, rows))
    decreases times
  {
    hide RowOf, OffOf, IsRootPosition, Parent, RootPosition, Shr, Sibling, Level, Encode;
    var row, off := RowOf(pos, rows), OffOf(pos, rows);
    Climb(pos, n, rows);
    TopRow(n, row, off, rows);
    if times == 0 {
      if IsRootPosition(pos, n, rows) {
        BitIsShrParity(n, row);
        RootPositionEncode(n, row, rows);
        Decode(pos, n, rows);
      }
    } else {
      ClimbEnds(Parent(pos, rows), n, rows, times - 1);
    }
  }

  lemma TopRow(n: nat, row: nat, off: nat, rows: nat)
    requires Fits(n, rows) && off < Shr(n, row)
    ensures RootAbove(n, row, off) <= rows
  {
    hide Shr;
    var top := RootAbove(n, row, off);
    CoordBound(top, 0, n, rows);
  }

  /** Translating to 63 rows commutes with `parent` and with taking the sibling. */
  lemma TranslateCommutes(pos: nat, n: nat, rows: nat)
    requires Fits(n, rows) && Valid(pos, n, rows) && !IsRootPosition(pos, n, rows)
    ensures pos < WORD && Parent(pos, rows) < WORD && Sibling(pos) < WORD
    ensures Parent(Translate(pos, rows, MAX_FOREST_ROWS), MAX_FOREST_ROWS) ==
            Translate(Parent(pos, rows), rows, MAX_FOREST_ROWS)
    ensures Sibling(Translate(pos, rows, MAX_FOREST_ROWS)) == Translate(Sibling(pos), rows, MAX_FOREST_ROWS)
  {
    hide RowOf, OffOf, IsRootPosition, Parent, Shr, Sibling, Level, Encode, Translate, Pow2;
    Climb(pos, n, rows);
    TranslateSlot(pos, n, rows);
    TranslateSlot(Parent(pos, rows), n, rows);
    TranslateSlot(Sibling(pos), n, rows);
    var row, off := RowOf(pos, rows), OffOf(pos, rows);
    Decode(pos, n, rows);
    Pow2Monotone(rows - row, 63 - row);
    ParentEncode(row, off, MAX_FOREST_ROWS);
    SiblingEncode(row, off, MAX_FOREST_ROWS);
  }

  lemma TranslateSlot(pos: nat, n: nat, rows: nat)
    requires Fits(n, rows) && Valid(pos, n, rows)
    ensures pos < WORD && RowOf(pos, rows) <= rows && OffOf(pos, rows) >= 0
    ensures Translate(pos, rows, MAX_FOREST_ROWS) == Encode(RowOf(pos, rows), OffOf(pos, rows), MAX_FOREST_ROWS)
  {
    hide RowOf, Pow2, Translate, OffOf, Encode;
    Decode(pos, n, rows);
    var row, off := RowOf(pos, rows), OffOf(pos, rows);
    Pow2Monotone(rows - row, 63 - row);
    EncodeWord(row, off, rows);
    TranslateEncode(row, off, rows, MAX_FOREST_ROWS);
  }
}
