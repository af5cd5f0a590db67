/** Another forest of the same shape: one leaf replaced by a different one. */
module Renaming {
  import opened Bits
  import opened Positions
  import opened Forest
  import opened Slots

  /** Leaf a becomes leaf x. */
  function Rename(t: Tree, a: nat, x: nat): Tree {
    match t
    case Nil => Nil
    case Tip(id) => Tip(if id == a then x else id)
    case Fork(l, r) => Fork(Rename(l, a, x), Rename(r, a, x))
  }

  function RenameAll(trees: seq<Tree>, a: nat, x: nat): (r: seq<Tree>)
    ensures |r| == |trees| && forall i :: 0 <= i < |r| ==> r[i] == Rename(trees[i], a, x)
  {
    seq(|trees|, i requires 0 <= i < |trees| => Rename(trees[i], a, x))
  }

  lemma {:induction false} RenameShape(t: Tree, a: nat, x: nat)
    ensures Height(Rename(t, a, x)) == Height(t) && (Proper(Rename(t, a, x)) <==> Proper(t))
    ensures Rename(t, a, x).Nil? <==> t.Nil?
  {
    if t.Fork? {
      RenameShape(t.left, a, x);
      RenameShape(t.right, a, x);
    }
  }

  /** x stands in for a. */
  ghost predicate Renamed(m: multiset<nat>, a: nat, x: nat, m': multiset<nat>) {
    forall i :: m'[i] == if i == x then m[x] + m[a] else if i == a then 0 else m[i]
  }

  lemma {:induction false} RenameIds(t: Tree, a: nat, x: nat)
    requires a != x
    ensures Renamed(Ids(t), a, x, Ids(Rename(t, a, x)))
  {
    if t.Fork? {
      RenameIds(t.left, a, x);
      RenameIds(t.right, a, x);
    }
  }

  lemma {:induction false} RenameAllIds(trees: seq<Tree>, a: nat, x: nat)
    requires a != x
    ensures Renamed(AllIds(trees), a, x, AllIds(RenameAll(trees, a, x)))
  {
    hide Ids;
    if trees != [] {
      RenameIds(trees[0], a, x);
      RenameAllIds(trees[1..], a, x);
      assert RenameAll(trees, a, x)[1..] == RenameAll(trees[1..], a, x);
    }
  }

  lemma {:induction false} RenameElsewhere(t: Tree, a: nat, x: nat)
    requires a !in Ids(t)
    ensures Rename(t, a, x) == t
  {
    if t.Fork? {
      RenameElsewhere(t.left, a, x);
      RenameElsewhere(t.right, a, x);
    }
  }

  lemma {:induction false} RenameForest(trees: seq<Tree>, a: nat, x: nat, n: nat, row: nat)
    requires Shape(trees, n, row)
    ensures Shape(RenameAll(trees, a, x), n, row)
    decreases n
  {
    if n > 0 {
      if n % 2 == 0 {
        RenameForest(trees, a, x, n / 2, row + 1);
      } else {
        var k := |trees| - 1;
        RenameShape(trees[k], a, x);
        RenameForest(trees[..k], a, x, n / 2, row + 1);
        assert RenameAll(trees, a, x)[..k] == RenameAll(trees[..k], a, x);
      }
    }
  }

  lemma RenameWellFormed(trees: seq<Tree>, a: nat, x: nat, n: nat)
    requires WellFormed(trees, n) && a in AllIds(trees) && x !in AllIds(trees)
    ensures WellFormed(RenameAll(trees, a, x), n)
  {
    hide Shape, AllIds;
    RenameForest(trees, a, x, n, 0);
    RenameAllIds(trees, a, x);
    var m, m' := AllIds(trees), AllIds(RenameAll(trees, a, x));
    forall i | i in m' ensures m'[i] == 1 {
      if i == x { assert m[a] == 1; } else { assert i in m; }
    }
  }

  lemma {:induction false} RenameNode(trees: seq<Tree>, a: nat, x: nat, n: nat, row: nat, off: nat)
    requires off < Shr(n, row) && |trees| == PopCount(n)
    ensures NodeAt(RenameAll(trees, a, x), n, row, off) == Rename(NodeAt(trees, n, row, off), a, x)
    decreases Shr(n, row)
  {
    hide NodeAt;
    ShrStep(n, row);
    if RootCoord(row, off, n) {
      NodeAtRoot(trees, n, row, off);
      NodeAtRoot(RenameAll(trees, a, x), n, row, off);
    } else {
      RenameNode(trees, a, x, n, row + 1, off / 2);
      NodeAtChild(trees, n, row, off);
      NodeAtChild(RenameAll(trees, a, x), n, row, off);
    }
  }

  lemma RenameAt(trees: seq<Tree>, a: nat, x: nat, n: nat, rows: nat, p: nat)
    requires Valid(p, n, rows) && |trees| == PopCount(n)
    ensures At(RenameAll(trees, a, x), n, rows, p) == Rename(At(trees, n, rows, p), a, x)
  {
    hide NodeAt;
    RenameNode(trees, a, x, n, RowOf(p, rows), OffOf(p, rows));
  }

  lemma RenameTargets(trees: seq<Tree>, a: nat, x: nat, n: nat, rows: nat, targets: seq<nat>)
    requires LeafTargets(trees, n, rows, targets)
    ensures LeafTargets(RenameAll(trees, a, x), n, rows, targets)
    ensures forall i :: 0 <= i < |targets| ==>
              TargetIds(RenameAll(trees, a, x), n, rows, targets)[i]
              == if TargetIds(trees, n, rows, targets)[i] == a then x else TargetIds(trees, n, rows, targets)[i]
  {
    hide At, Valid;
    forall i | 0 <= i < |targets|
      ensures At(RenameAll(trees, a, x), n, rows, targets[i]) == Rename(At(trees, n, rows, targets[i]), a, x)
    {
      RenameAt(trees, a, x, n, rows, targets[i]);
    }
  }

  /** Some number is no leaf. */
  lemma {:induction false} FreshId(m: multiset<nat>) returns (x: nat)
    ensures forall i :: i in m ==> i < x
    decreases |m|
  {
    if m == multiset{} {
      x := 0;
    } else {
      var i :| i in m;
      var y := FreshId(m - multiset{i});
      x := if i < y then y else i + 1;
      forall j | j in m ensures j < x { assert j == i || j in m - multiset{i}; }
    }
  }
}
