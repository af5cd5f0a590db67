/** Paths from a root down to a node, as the digits `get_pos` and `grab_node` use. */
module Walks {
  import opened Bits
  import opened Positions
  import opened Forest
  import opened Slots

  /** The subtree reached from t; true goes right. */
  function Walk(t: Tree, ds: seq<bool>): Tree {
    if ds == [] then t
    else
      match t
      case Fork(l, r) => Walk(if ds[0] then r else l, ds[1..])
      case _ => Nil
  }

  /** The digits as a number, the first step in the lowest bit. */
  function Indicator(ds: seq<bool>): (i: nat)
    ensures i < Pow2(|ds|)
  {
    if ds == [] then 0 else 2 * Indicator(ds[1..]) + if ds[0] then 1 else 0
  }

  lemma {:induction false} WalkHeight(t: Tree, ds: seq<bool>)
    requires Walk(t, ds) != Nil
    ensures |ds| <= Height(t)
  {
    if ds != [] { WalkHeight(if ds[0] then t.right else t.left, ds[1..]); }
  }

  lemma {:induction false} WalkConcat(t: Tree, a: seq<bool>, b: seq<bool>)
    ensures Walk(t, a + b) == Walk(Walk(t, a), b)
  {
    if a == [] {
      assert a + b == b;
    } else {
      assert (a + b)[1..] == a[1..] + b;
      if t.Fork? { WalkConcat(if a[0] then t.right else t.left, a[1..], b); } else { WalkNil(b); }
    }
  }

  lemma WalkNil(b: seq<bool>)
    ensures Walk(Nil, b) == Nil
  {
  }

  /** One more step. */
  lemma WalkStep(t: Tree, ds: seq<bool>, k: nat)
    requires k < |ds| && Walk(t, ds) != Nil
    ensures Walk(t, ds[..k]).Fork?
    ensures Walk(t, ds[..k + 1]) == if ds[k] then Walk(t, ds[..k]).right else Walk(t, ds[..k]).left
  {
    WalkConcat(t, ds[..k], ds[k..]);
    assert ds == ds[..k] + ds[k..];
    WalkConcat(t, ds[..k], [ds[k]]);
    assert ds[..k + 1] == ds[..k] + [ds[k]];
    WalkOne(Walk(t, ds[..k]), ds[k]);
  }

  lemma WalkOne(t: Tree, d: bool)
    ensures t.Fork? ==> Walk(t, [d]) == if d then t.right else t.left
  {
  }

  lemma ShiftDouble(a: nat)
    requires a < Pow2(63)
    ensures ShiftLeft(a, 1) == 2 * a
  {
    assert Shl(a, 1) == 2 * Shl(a, 0);
    LowBitsSmall(2 * a, 64);
  }

  /** Going down: the two children of a slot above the bottom row. */
  lemma Descend(pos: nat, n: nat, rows: nat)
    requires Fits(n, rows) && Valid(pos, n, rows) && RowOf(pos, rows) > 0
    ensures var l, r := LeftChild(pos, rows), RightChild(pos, rows);
            && r == l + 1 && l % 2 == 0
            && Valid(l, n, rows) && !IsRootPosition(l, n, rows) && Parent(l, rows) == pos
            && Valid(r, n, rows) && !IsRootPosition(r, n, rows) && Parent(r, rows) == pos
            && RowOf(l, rows) == RowOf(r, rows) == RowOf(pos, rows) - 1
  {
    hide Bit, And, Or, Xor, ShiftLeft, Shr, RowOf, OffOf, IsRootPosition, Pow2, Encode, Parent, LeftChild;
    Decode(pos, n, rows);
    var row, off := RowOf(pos, rows), OffOf(pos, rows);
    ChildEncode(row, off, rows);
    ShrStep(n, row - 1);
    ChildSlot(row, off, n, rows, 2 * off);
    ChildSlot(row, off, n, rows, 2 * off + 1);
    ParityEncode(row - 1, 2 * off, rows);
  }

  lemma ChildSlot(row: nat, off: nat, n: nat, rows: nat, c: nat)
    requires Fits(n, rows) && 0 < row <= rows && off < Shr(n, row) && c / 2 == off
    requires Shr(n, row) == Shr(n, row - 1) / 2
    ensures var p := Encode(row - 1, c, rows);
            Valid(p, n, rows) && !IsRootPosition(p, n, rows) && Parent(p, rows) == Encode(row, off, rows)
            && RowOf(p, rows) == row - 1
  {
    hide Bit, And, Or, Xor, ShiftLeft, Shr, RowOf, OffOf, IsRootPosition, Pow2, Encode, Parent;
    ValidEncode(row - 1, c, n, rows);
    IsRootEncode(row - 1, c, n, rows);
    ParentEncode(row - 1, c, rows);
  }

  lemma DescendAt(trees: seq<Tree>, n: nat, rows: nat, pos: nat)
    requires Sound(trees, n, rows) && Valid(pos, n, rows) && At(trees, n, rows, pos).Fork?
    ensures RowOf(pos, rows) > 0
    ensures var l, r := LeftChild(pos, rows), RightChild(pos, rows);
            && Valid(l, n, rows) && At(trees, n, rows, l) == At(trees, n, rows, pos).left
            && Valid(r, n, rows) && At(trees, n, rows, r) == At(trees, n, rows, pos).right
            && RowOf(l, rows) == RowOf(r, rows) == RowOf(pos, rows) - 1
  {
    hide WellFormed, Valid, RowOf, At, Parent, LeftChild, RightChild, IsRootPosition;
    AtProper(trees, n, rows, pos);
    Descend(pos, n, rows);
    AtChild(trees, n, rows, LeftChild(pos, rows));
    AtChild(trees, n, rows, RightChild(pos, rows));
  }

  /** The position of the root of a row. */
  lemma RootSlot(trees: seq<Tree>, n: nat, rows: nat, row: nat)
    requires Sound(trees, n, rows) && row <= rows && Shr(n, row) % 2 == 1
    ensures var pos := RootPosition(n, row, rows);
            && Valid(pos, n, rows) && RowOf(pos, rows) == row && IsRootPosition(pos, n, rows)
            && RootIndex(n, row) < |trees| && At(trees, n, rows, pos) == trees[RootIndex(n, row)]
  {
    hide WellFormed, RowOf, OffOf, IsRootPosition, Encode, RootPosition, Shr, Bit, RootIndex;
    BitIsShrParity(n, row);
    RootPositionEncode(n, row, rows);
    ValidEncode(row, Shr(n, row) - 1, n, rows);
    IsRootEncode(row, Shr(n, row) - 1, n, rows);
    AtRoot(trees, n, rows, RootPosition(n, row, rows));
  }

  /** No tree is higher than the forest. */
  lemma {:induction false} TreeHeights(trees: seq<Tree>, n: nat, row: nat, i: nat)
    requires Shape(trees, n, row) && i < |trees|
    ensures BitLength(n) >= 1 && Height(trees[i]) <= row + BitLength(n) - 1
    decreases n
  {
    if n % 2 == 0 {
      TreeHeights(trees, n / 2, row + 1, i);
    } else if i < |trees| - 1 {
      TreeHeights(trees[..|trees| - 1], n / 2, row + 1, i);
    }
  }

  lemma HeightBelow(trees: seq<Tree>, n: nat, i: nat)
    requires WellFormed(trees, n) && n <= MAX_LEAVES && i < |trees|
    ensures Height(trees[i]) <= 61
  {
    TreeHeights(trees, n, 0, i);
    BitLengthBounds(n);
    MaxLeavesIsPow2();
    if BitLength(n) > 62 { Pow2Monotone(62, BitLength(n) - 1); }
  }

  lemma IndicatorStep(ds: seq<bool>, k: nat)
    requires k < |ds|
    ensures Indicator(ds[k..]) % 2 == (if ds[k] then 1 else 0)
    ensures Indicator(ds[k..]) / 2 == Indicator(ds[k + 1..])
  {
    assert ds[k..][1..] == ds[k + 1..];
  }

  lemma PositionWord(pos: nat, n: nat, rows: nat)
    requires Fits(n, rows) && Valid(pos, n, rows)
    ensures pos < WORD
  {
    hide RowOf, OffOf;
    Decode(pos, n, rows);
    EncodeWord(RowOf(pos, rows), OffOf(pos, rows), rows);
  }

  lemma IndicatorEmpty()
    ensures Indicator([]) == 0
  {
  }

  lemma IndicatorCons(d: bool, ds: seq<bool>)
    ensures Indicator([d] + ds) == 2 * Indicator(ds) + if d then 1 else 0
  {
    assert ([d] + ds)[1..] == ds;
  }

  /** One more turn on the way up. */
  lemma TurnAdded(ds: seq<bool>, right: bool)
    requires |ds| <= 61
    ensures ShiftLeft(Indicator(ds), 1) < WORD && Or(ShiftLeft(Indicator(ds), 1), 1) < WORD
    ensures Indicator([right] + ds) == if right then Or(ShiftLeft(Indicator(ds), 1), 1) else ShiftLeft(Indicator(ds), 1)
  {
    hide Indicator, Or, And, Xor, Shr, ShiftLeft, Pow2;
    TurnBound(ds);
    DoubledOr(Indicator(ds));
    IndicatorCons(right, ds);
  }

  lemma TurnBound(ds: seq<bool>)
    requires |ds| <= 61
    ensures 2 * Indicator(ds) + 1 < WORD
    ensures ShiftLeft(Indicator(ds), 1) == 2 * Indicator(ds)
  {
    hide Or, And, Xor, Shr, ShiftLeft, Pow2;
    Pow2Monotone(|ds|, 61);
    HalfWord();
    ShiftDouble(Indicator(ds));
  }

  lemma DoubledOr(i: nat)
    ensures Or(2 * i, 1) == 2 * i + 1
  {
    hide Or, And, Xor;
    LowBit(2 * i);
  }

  lemma HalfWord()
    ensures Pow2(61) < Pow2(63) && 2 * Pow2(61) + 1 < WORD
  {
    WordIsPow2();
    assert Pow2(62) == 2 * Pow2(61) && Pow2(63) == 2 * Pow2(62) && Pow2(64) == 2 * Pow2(63);
  }

  lemma WalkEmpty(t: Tree)
    ensures Walk(t, []) == t
  {
  }

  /** Last loop of both `get_pos`: from the root's position down along the turns. */
  method DescendTurns(n: nat, rootRow: nat, turns: U64, rowsToTop: nat, ghost trees: seq<Tree>, ghost ds: seq<bool>)
    returns (pos: U64)
    requires n <= MAX_LEAVES && Sound(trees, n, TreeRows(n))
    requires rootRow <= TreeRows(n) && Shr(n, rootRow) % 2 == 1 && RootIndex(n, rootRow) < |trees|
    requires rowsToTop == |ds| && turns == Indicator(ds)
    requires Walk(trees[RootIndex(n, rootRow)], ds) != Nil
    ensures Valid(pos, n, TreeRows(n))
    ensures At(trees, n, TreeRows(n), pos) == Walk(trees[RootIndex(n, rootRow)], ds)
  {
    hide Walk, At, Valid, LeftChild, RightChild, RootPosition, Shr, And, TreeRows, RowOf, WellFormed, Indicator,
      RootIndex, Bit;
    ghost var root := trees[RootIndex(n, rootRow)];
    var forestRows := TreeRows(n);
    RootSlot(trees, n, forestRows, rootRow);
    PositionWord(RootPosition(n, rootRow, forestRows), n, forestRows);
    pos := RootPosition(n, rootRow, forestRows);
    var indicator := turns;
    assert ds[0..] == ds && Walk(root, ds[..0]) == root by { WalkEmpty(root); }
    for k := 0 to rowsToTop
      invariant Valid(pos, n, forestRows)
      invariant At(trees, n, forestRows, pos) == Walk(root, ds[..k])
      invariant indicator == Indicator(ds[k..])
    {
      WalkStep(root, ds, k);
      IndicatorStep(ds, k);
      LowBit(indicator);
      DescendAt(trees, n, forestRows, pos);
      PositionWord(LeftChild(pos, forestRows), n, forestRows);
      PositionWord(RightChild(pos, forestRows), n, forestRows);
      if And(indicator, 1) == 0 {
        pos := LeftChild(pos, forestRows);
      } else {
        pos := RightChild(pos, forestRows);
      }
      Halve(indicator);
      indicator := Shr(indicator, 1);
    }
    assert ds[..rowsToTop] == ds;
  }
}
