/** The smallest block whose deletions `detwin` puts out of order. */
module OrderExamples {
  import opened Bits
  import opened Positions
  import opened Digits
  import opened Forest
  import opened ProofPositions
  import opened Slots
  import opened Moves
  import opened Detwins
  import opened VerdictExamples

  lemma EightNumbers(n: nat, rows: nat)
    requires n == 8 && rows == 3
    ensures TreeRows(n) == rows && Shr(n, 0) == 8 && Shr(n, 1) == 4 && Shr(n, 2) == 2 && Shr(n, 3) == 1
    ensures Pow2(0) == 1 && Pow2(1) == 2 && Pow2(2) == 4 && Pow2(rows) == 8 && Pow2(rows + 1) == 16
    ensures PopCount(n) == 1 && RootIndex(n, rows) == 0
  {
    assert BitLength(n - 1) == 1 + BitLength(3) && BitLength(3) == 1 + BitLength(1);
    ShrZero(n);
    ShrStep(n, 0);
    ShrStep(n, 1);
    ShrStep(n, 2);
    assert PopCount(4) == PopCount(2) == PopCount(1) == 1;
  }

  /** Slot `off` of a row in a forest of n = 8 leaves. */
  lemma EightSlot(n: nat, rows: nat, row: nat, off: nat, pos: nat)
    requires n == 8 && rows == 3 && row <= 3 && off < 2
    requires row == 3 ==> off == 0
    requires pos == off + if row == 0 then 0 else if row == 1 then 8 else if row == 2 then 12 else 14
    ensures Fits(n, rows) && pos == Encode(row, off, rows) && Valid(pos, n, rows)
    ensures RowOf(pos, rows) == row && OffOf(pos, rows) == off && (IsRootPosition(pos, n, rows) <==> row == 3)
  {
    hide RowOf, OffOf, IsRootPosition, Pow2, Shr, Valid;
    EightNumbers(n, rows);
    CoordBound(row, off, n, rows);
    RowOfEncode(row, off, rows);
    ValidEncode(row, off, n, rows);
    IsRootEncode(row, off, n, rows);
  }

  /** The leftmost slots of the lower rows, with their siblings and parents. */
  lemma EightPair(n: nat, rows: nat, row: nat, l: nat, r: nat, p: nat)
    requires n == 8 && rows == 3 && row < 3 && r == l + 1
    requires l == if row == 0 then 0 else if row == 1 then 8 else 12
    requires p == if row == 0 then 8 else if row == 1 then 12 else 14
    ensures Fits(n, rows) && Valid(l, n, rows) && Valid(r, n, rows) && Valid(p, n, rows)
    ensures !IsRootPosition(l, n, rows) && !IsRootPosition(r, n, rows) && Parent(l, rows) == p == Parent(r, rows)
    ensures Sibling(l) == r && Sibling(r) == l && l % 2 == 0
  {
    hide RowOf, OffOf, IsRootPosition, Pow2, Shr, Valid, Encode, Parent, Sibling, Level, Fits;
    EightSlot(n, rows, row, 0, l);
    EightSlot(n, rows, row, 1, r);
    EightSlot(n, rows, row + 1, 0, p);
    EightNumbers(n, rows);
    PairEncode(l, n, rows);
    SiblingInvolution(l);
    Climb(l, n, rows);
    Climb(r, n, rows);
    Order(p, Parent(l, rows), n, rows);
  }

  lemma EightForest(n: nat, rows: nat, trees: seq<Tree>, a: nat, b: nat, c: nat, d: nat,
                    p0: nat, p1: nat, p8: nat, p9: nat, p12: nat, p13: nat, top: nat)
    requires n == 8 && rows == 3 && trees == [Fork(Fork(Fork(Tip(a), Tip(b)), Tip(c)), Tip(d))]
    requires a != b && a != c && a != d && b != c && b != d && c != d
    requires p0 == 0 && p1 == 1 && p8 == 8 && p9 == 9 && p12 == 12 && p13 == 13 && top == 14
    ensures Sound(trees, n, rows) && Valid(p0, n, rows) && Valid(p1, n, rows) && Valid(p9, n, rows)
    ensures Valid(p13, n, rows)
    ensures At(trees, n, rows, p0) == Tip(a) && At(trees, n, rows, p1) == Tip(b)
    ensures At(trees, n, rows, p9) == Tip(c) && At(trees, n, rows, p13) == Tip(d)
  {
    hide RowOf, OffOf, IsRootPosition, Parent, Sibling, Level, Pow2, TreeRows, Valid, Encode, At, Shr, PopCount,
      WellFormed;
    EightNumbers(n, rows);
    EightShape(n, trees, a, b, c, d);
    EightPair(n, rows, 0, p0, p1, p8);
    EightPair(n, rows, 1, p8, p9, p12);
    EightPair(n, rows, 2, p12, p13, top);
    EightSlot(n, rows, 3, 0, top);
    AtRoot(trees, n, rows, top);
    AtChild(trees, n, rows, p12);
    AtChild(trees, n, rows, p13);
    AtChild(trees, n, rows, p8);
    AtChild(trees, n, rows, p9);
    AtChild(trees, n, rows, p0);
    AtChild(trees, n, rows, p1);
  }

  lemma EightShape(n: nat, trees: seq<Tree>, a: nat, b: nat, c: nat, d: nat)
    requires n == 8 && trees == [Fork(Fork(Fork(Tip(a), Tip(b)), Tip(c)), Tip(d))]
    requires a != b && a != c && a != d && b != c && b != d && c != d
    ensures WellFormed(trees, n)
  {
    hide Shape, RootTree, Ids, AllIds;
    EightTree(a, b, c, d);
    ShapeCons([], 0, 4);
    assert trees[..0] == [];
    ShapeCons(trees, 1, 3);
    ShapeEven(trees, 2, 2);
    ShapeEven(trees, 4, 1);
    ShapeEven(trees, n, 0);
    OneIds(trees[0]);
  }

  lemma EightTree(a: nat, b: nat, c: nat, d: nat)
    ensures var t := Fork(Fork(Fork(Tip(a), Tip(b)), Tip(c)), Tip(d));
            RootTree(t, 3) && Ids(t) == multiset{a, b, c, d}
  {
    hide RootTree, Ids;
    PairTree(a, b);
    ForkTip(Fork(Tip(a), Tip(b)), c, 1);
    ForkTip(Fork(Fork(Tip(a), Tip(b)), Tip(c)), d, 2);
  }

  lemma ForkTip(l: Tree, x: nat, row: nat)
    requires RootTree(l, row) && l != Nil
    ensures RootTree(Fork(l, Tip(x)), row + 1) && Ids(Fork(l, Tip(x))) == Ids(l) + multiset{x}
  {
    TipTree(x);
  }

  lemma ShapeEven(trees: seq<Tree>, n: nat, row: nat)
    requires n % 2 == 0 && n > 0 && Shape(trees, n / 2, row + 1)
    ensures Shape(trees, n, row)
  {
  }

  /** `detwin` puts the deletion in row 2 before the pair below its sibling. */
  lemma EightTwins(n: nat, rows: nat, block: seq<nat>)
    requires n == 8 && rows == 3 && block == [0, 1, 13]
    ensures Twins(block, rows) == [13, 8]
  {
    hide RowOf, OffOf, IsRootPosition, Parent, Sibling, Valid, Fits, Twins;
    EightPair(n, rows, 0, 0, 1, 8);
    EightPair(n, rows, 1, 8, 9, 12);
    EightPair(n, rows, 2, 12, 13, 14);
    assert block == [0, Sibling(0)] + [13] && [13] + [8] == [13, 8];
    TwinsPair(0, [13], rows);
    assert [13] + [8] == [13, 8] && [] + [13] == [13] && [13] + [] == [13];
    TwinsKeep([], 13, [8], rows);
    TwinsKeep([13], 8, [], rows);
    assert [] + Twins([13] + [8], rows) == Twins([13, 8], rows);
    assert [8] + [] == [8];
    TwinsNone([13, 8], rows);
  }

  lemma EightSteps(n: nat, rows: nat, pos: nat, del: nat, next: nat, low: nat)
    requires n == 8 && rows == 3 && pos == 9 && del == 13 && next == 13 && low == 8
    ensures MoveStep(pos, del, n, rows) == next && MoveStep(next, low, n, rows) == next
  {
    hide RowOf, OffOf, IsRootPosition, Parent, Sibling, Valid, Fits, Encode, Shr;
    EightPair(n, rows, 1, low, pos, 12);
    EightPair(n, rows, 2, 12, del, 14);
    EightSlot(n, rows, 3, 0, 14);
    EightSlot(n, rows, 2, 0, 12);
    EightSlot(n, rows, 1, 1, pos);
    EightSlot(n, rows, 2, 1, del);
    ShrZero(1);
    ShrStep(1, 0);
    ShrStep(1, 1);
    DropLow();
  }

  lemma DropLow()
    ensures DropDigit(1, 1) == 1
  {
    assert DropDigit(0, 0) == 0;
  }

  /** In the forest of four leaves with a and b at 0 and 1, c at 9 and d at 13, the deletion of a, b and
      d leaves c at the root, 14.  `calc_next_positions` sends it to 13, where nothing is. */
  lemma WrongPlace(n: nat, rows: nat, trees: seq<Tree>, block: seq<nat>, a: nat, b: nat, c: nat, d: nat)
    requires n == 8 && rows == 3 && trees == [Fork(Fork(Fork(Tip(a), Tip(b)), Tip(c)), Tip(d))] && block == [0, 1, 13]
    requires a != b && a != c && a != d && b != c && b != d && c != d
    ensures TreeRows(n) == rows && Sound(trees, n, rows) && Valid(9, n, rows) && Valid(13, n, rows)
    ensures Valid(14, n, rows)
    ensures LeafTargets(trees, n, rows, block) && TargetIds(trees, n, rows, block) == [a, b, d]
    ensures At(trees, n, rows, 9) == Tip(c)
    ensures var after := PruneAll(trees, Elements([a, b, d]));
            && |after| == PopCount(n)
            && At(after, n, rows, 14) == Tip(c) && At(after, n, rows, 13) == Nil
    ensures MoveAll(9, Twins(block, rows), n, rows) == 13
  {
    hide RowOf, OffOf, IsRootPosition, Parent, Sibling, Level, Valid, Fits, At, Twins, MoveStep, WellFormed, TreeRows,
      PopCount, Elements;
    EightNumbers(n, rows);
    EightForest(n, rows, trees, a, b, c, d, 0, 1, 8, 9, 12, 13, 14);
    EightSlot(n, rows, 3, 0, 14);
    EightPair(n, rows, 2, 12, 13, 14);
    EightTwins(n, rows, block);
    EightSteps(n, rows, 9, 13, 13, 8);
    TwoMoves(9, 13, 8, n, rows);
    assert TargetIds(trees, n, rows, block) == [a, b, d];
    EightPruned(n, rows, trees, a, b, c, d, 13, 14);
  }

  lemma TwoMoves(x: nat, d: nat, e: nat, n: nat, rows: nat)
    requires rows < 62
    ensures MoveAll(x, [d, e], n, rows) == MoveStep(MoveStep(x, d, n, rows), e, n, rows)
  {
    hide MoveStep;
    assert [d, e][..1] == [d] && [d][..0] == [];
    assert MoveAll(x, [d], n, rows) == MoveStep(MoveAll(x, [], n, rows), d, n, rows);
  }

  lemma EightPruned(n: nat, rows: nat, trees: seq<Tree>, a: nat, b: nat, c: nat, d: nat, right: nat, top: nat)
    requires n == 8 && rows == 3 && trees == [Fork(Fork(Fork(Tip(a), Tip(b)), Tip(c)), Tip(d))]
    requires a != b && a != c && a != d && b != c && b != d && c != d && right == 13 && top == 14
    ensures Fits(n, rows) && Valid(right, n, rows) && Valid(top, n, rows)
    ensures var after := PruneAll(trees, Elements([a, b, d]));
            && |after| == PopCount(n)
            && At(after, n, rows, top) == Tip(c) && At(after, n, rows, right) == Nil
  {
    hide RowOf, OffOf, IsRootPosition, Parent, Sibling, Level, Valid, At, TreeRows, PopCount;
    EightNumbers(n, rows);
    EightSlot(n, rows, 3, 0, top);
    EightPair(n, rows, 2, 12, right, top);
    var gone := Elements([a, b, d]);
    var after := PruneAll(trees, gone);
    assert [a, b, d][0] in gone && [a, b, d][1] in gone && [a, b, d][2] in gone && c !in gone;
    assert Prune(Fork(Tip(a), Tip(b)), gone) == Nil;
    assert Prune(Fork(Fork(Tip(a), Tip(b)), Tip(c)), gone) == Tip(c);
    assert Prune(Tip(d), gone) == Nil && Prune(trees[0], gone) == Tip(c) && trees[1..] == [];
    assert after == [Tip(c)];
    AtRoot(after, n, rows, top);
    AtChild(after, n, rows, right);
  }
}
