/** The smallest proof that `verify` accepts although it names a leaf that does not exist. */
module VerdictExamples {
  import opened Bits
  import opened Positions
  import opened Forest
  import opened ProofPositions
  import opened Slots
  import opened MergeLoop
  import opened ProofEngine
  import opened ProofChecks
  import opened Verdicts

  /** Slot `off` of a row in a forest of n = 3 leaves. */
  lemma ThreeSlot(n: nat, rows: nat, row: nat, off: nat, pos: nat)
    requires n == 3 && rows == 2 && row <= 1 && off < (if row == 0 then 3 else 1)
    requires pos == if row == 0 then off else 4
    ensures Fits(n, rows) && Shr(n, 0) == 3 && Shr(n, 1) == 1 && off < Pow2(rows - row)
    ensures pos == Encode(row, off, rows) && Valid(pos, n, rows) && RowOf(pos, rows) == row && OffOf(pos, rows) == off
    ensures IsRootPosition(pos, n, rows) <==> RootCoord(row, off, n)
  {
    hide RowOf, OffOf, IsRootPosition, Pow2, Shr, Valid;
    ThreeNumbers(n, rows);
    CoordBound(row, off, n, rows);
    RowOfEncode(row, off, rows);
    ValidEncode(row, off, n, rows);
    IsRootEncode(row, off, n, rows);
  }

  lemma ThreeNumbers(n: nat, rows: nat)
    requires n == 3 && rows == 2
    ensures TreeRows(n) == rows && Shr(n, 0) == 3 && Shr(n, 1) == 1
    ensures Pow2(0) == 1 && Pow2(1) == 2 && Pow2(rows) == 4 && Pow2(rows + 1) == 8
  {
    assert BitLength(n - 1) == 1 + BitLength(1);
    ShrZero(n);
    ShrStep(n, 0);
  }

  /** Three leaves stand at 0, 1 and 2, and 4 is above the first two. */
  lemma ThreeLeaves(n: nat, rows: nat, a: nat, b: nat, c: nat, top: nat)
    requires n == 3 && rows == 2 && a == 0 && b == 1 && c == 2 && top == 4
    ensures TreeRows(n) == rows && Fits(n, rows)
    ensures Valid(a, n, rows) && Valid(b, n, rows) && Valid(c, n, rows) && Valid(top, n, rows)
    ensures !IsRootPosition(a, n, rows) && IsRootPosition(c, n, rows) && IsRootPosition(top, n, rows)
    ensures Parent(a, rows) == top && Sibling(a) == b
    ensures RowOf(c, rows) == 0 && RowOf(top, rows) == 1
  {
    hide RowOf, OffOf, IsRootPosition, Parent, Sibling, Level, Pow2, TreeRows, Shr, Valid, Fits, Encode;
    ThreeNumbers(n, rows);
    ThreeSlot(n, rows, 0, a, a);
    ThreeSlot(n, rows, 0, b, b);
    ThreeSlot(n, rows, 0, c, c);
    ThreeSlot(n, rows, 1, 0, top);
    ParentEncode(0, a, rows);
    PairEncode(a, n, rows);
  }

  lemma ThreeForest(n: nat, rows: nat, trees: seq<Tree>, a: nat, b: nat, c: nat, top: nat, x: nat, y: nat, z: nat)
    requires n == 3 && rows == 2 && a == 0 && b == 1 && c == 2 && top == 4
    requires x != y && y != z && x != z && trees == [Fork(Tip(x), Tip(y)), Tip(z)]
    ensures Sound(trees, n, rows) && Valid(a, n, rows) && Valid(b, n, rows) && Valid(c, n, rows) && Valid(top, n, rows)
    ensures At(trees, n, rows, a) == Tip(x) && At(trees, n, rows, b) == Tip(y) && At(trees, n, rows, c) == Tip(z)
    ensures At(trees, n, rows, top) == trees[0]
  {
    hide RowOf, OffOf, IsRootPosition, Parent, Sibling, Level, Pow2, TreeRows, Valid, Fits, Encode, At, Shr;
    ThreeLeaves(n, rows, a, b, c, top);
    ThreeSlot(n, rows, 0, b, b);
    ThreeCounts(n);
    ThreeShape(n, trees, x, y, z);
    PairEncode(a, n, rows);
    Climb(a, n, rows);
    AtRoot(trees, n, rows, c);
    AtRoot(trees, n, rows, top);
    AtChild(trees, n, rows, a);
    AtChild(trees, n, rows, b);
  }

  lemma ThreeCounts(n: nat)
    requires n == 3
    ensures PopCount(n) == 2 && RootIndex(n, 0) == 1 && RootIndex(n, 1) == 0
  {
    ShrZero(n);
    ShrStep(n, 0);
    ShrStep(n, 1);
    assert PopCount(1) == 1;
  }

  lemma PairTree(x: nat, y: nat)
    ensures var t := Fork(Tip(x), Tip(y));
            RootTree(t, 1) && Ids(t) == multiset{x, y} && Merkle(t) == Branch(LeafHash(x), LeafHash(y))
  {
    var l, r := Tip(x), Tip(y);
    assert Proper(l) && Proper(r) && Height(l) == Height(r) == 0 && Ids(l) == multiset{x} && Ids(r) == multiset{y};
    assert Merkle(l) == LeafHash(x) && Merkle(r) == LeafHash(y);
  }

  lemma ThreeShape(n: nat, trees: seq<Tree>, x: nat, y: nat, z: nat)
    requires n == 3 && x != y && y != z && x != z && trees == [Fork(Tip(x), Tip(y)), Tip(z)]
    ensures WellFormed(trees, n)
  {
    hide Shape, RootTree, Ids, AllIds;
    PairTree(x, y);
    var first, last := trees[..1], trees[1..];
    assert first == [trees[0]] && last == [Tip(z)];
    ShapeCons([], 0, 2);
    ShapeCons(first, 1, 1);
    TipTree(z);
    ShapeCons(trees, n, 0);
    assert trees == first + last;
    AllIdsConcat(first, last);
    OneIds(trees[0]);
    OneIds(Tip(z));
    assert AllIds(trees) == multiset{x, y} + multiset{z};
  }

  lemma TipTree(z: nat)
    ensures RootTree(Tip(z), 0) && Ids(Tip(z)) == multiset{z}
  {
  }

  lemma OneIds(t: Tree)
    ensures AllIds([t]) == Ids(t)
  {
    assert [t][1..] == [];
  }

  lemma ShapeCons(trees: seq<Tree>, n: nat, row: nat)
    ensures n == 0 && trees == [] ==> Shape(trees, n, row)
    ensures (n % 2 == 1 && trees != [] && RootTree(trees[|trees| - 1], row)
             && Shape(trees[..|trees| - 1], n / 2, row + 1)) ==> Shape(trees, n, row)
  {
    hide RootTree;
  }

  /** The needed position is 1, and both roots are touched. */
  lemma ThreePaths(n: nat, rows: nat, targets: seq<nat>, a: nat, b: nat, c: nat, top: nat)
    requires n == 3 && rows == 2 && a == 0 && b == 1 && c == 2 && top == 4 && targets == [c, a]
    ensures Fits(n, rows) && AllValid(targets, n, rows)
    ensures Sorted(ProofSet(targets, n, rows)) == [b] && TouchedRoots(targets, n, rows) == [c, top]
  {
    hide RowOf, OffOf, IsRootPosition, Parent, Sibling, Level, Pow2, TreeRows, Valid, Fits, Encode, Sorted,
      TouchedRoots;
    ThreeLeaves(n, rows, a, b, c, top);
    RootPath(c, n, rows);
    RootPath(top, n, rows);
    ParentPath(a, n, rows);
    PathIs(targets, a, c, n, rows);
    var path := Path(targets, n, rows);
    assert path == {a, c, top};
    assert ProofSet(targets, n, rows) == {b};
    SortedIs({b});
    AscendingUnique([b], Sorted({b}));
    var rs := TouchedRoots(targets, n, rows);
    forall p: nat ensures p in Elements(rs) <==> p in Elements([c, top]) { InElements(rs, p); }
    AscendingUnique(rs, [c, top]);
  }

  lemma PathIs(targets: seq<nat>, a: nat, c: nat, n: nat, rows: nat)
    requires Fits(n, rows) && Valid(a, n, rows) && Valid(c, n, rows) && targets == [c, a]
    ensures Path(targets, n, rows) == PathOf(c, n, rows) + PathOf(a, n, rows)
  {
    hide PathOf, Valid;
    assert targets[1..] == [a] && targets[1..][1..] == [];
    assert Path(targets[1..], n, rows) == PathOf(a, n, rows) + Path(targets[1..][1..], n, rows);
  }

  /** Leaf x is in no tree of the forest of a, b and c, and `verify` accepts this proof of c and x. */
  lemma FooledThree(n: nat, targets: seq<U64>, a: nat, b: nat, c: nat, x: nat, y: nat)
    requires n == 3 && targets == [2, 0] && x != y && y != c && x != c && x != a
    ensures Accepted(Proof(targets, [LeafHash(y)]), [LeafHash(c), LeafHash(x)],
            [Branch(LeafHash(a), LeafHash(b)), LeafHash(c)], n)
  {
    hide Accepted, Match, Valid, At, TreeRows, ProofSet, Sorted, TouchedRoots, WellFormed, Fits;
    var rows, trees := 2, [Fork(Tip(x), Tip(y)), Tip(c)];
    var proof, delHashes := Proof(targets, [LeafHash(y)]), [LeafHash(c), LeafHash(x)];
    ThreeNumbers(n, rows);
    ThreeForest(n, rows, trees, 0, 1, 2, 4, x, y, c);
    ThreePaths(n, rows, targets, 0, 1, 2, 4);
    assert delHashes == LeafHashes(TargetIds(trees, n, rows, targets));
    assert HonestHashes(trees, n, rows, targets) == [LeafHash(y)];
    assert CurrentProof(trees, n, proof, delHashes);
    var calculated := [LeafHash(c), Branch(LeafHash(x), LeafHash(y))];
    var val := Current(trees, n, rows);
    PairTree(x, y);
    assert val(2) == calculated[0] && val(4) == calculated[1];
    assert Vals([2, 4], val) == calculated;
    OneOfTwo([Branch(LeafHash(a), LeafHash(b)), LeafHash(c)], calculated);
    HonestAnswers(trees, n, proof, delHashes, [Branch(LeafHash(a), LeafHash(b)), LeafHash(c)]);
  }

  lemma OneOfTwo(roots: seq<Hash>, calculated: seq<Hash>)
    requires |roots| == |calculated| == 2 && calculated[0] == roots[1] && calculated[1] != roots[0]
    ensures Verdict(roots, calculated)
  {
    assert roots[..1][..0] == [] && calculated[1..] == [calculated[1]];
    assert Match(roots[..1], calculated[1..]) == Match([], calculated[1..]);
  }
}
