/** Subtrees of a forest addressed by position, and the root paths of its leaves. */
module Slots {
  import opened Bits
  import opened Positions
  import opened Forest
  import opened ProofPositions

  /** The subtree at a position; Nil where the slot is empty. */
  function At(trees: seq<Tree>, n: nat, rows: nat, pos: nat): Tree
    requires Valid(pos, n, rows) && |trees| == PopCount(n)
  {
    NodeAt(trees, n, RowOf(pos, rows), OffOf(pos, rows))
  }

  /** A well-formed forest small enough for the position arithmetic. */
  predicate Sound(trees: seq<Tree>, n: nat, rows: nat) {
    WellFormed(trees, n) && |trees| == PopCount(n) && Fits(n, rows)
  }

  /** A slot below a root is a child of its parent's subtree: even positions are left. */
  lemma AtChild(trees: seq<Tree>, n: nat, rows: nat, pos: nat)
    requires Fits(n, rows) && |trees| == PopCount(n) && Valid(pos, n, rows) && !IsRootPosition(pos, n, rows)
    ensures Valid(Parent(pos, rows), n, rows)
    ensures At(trees, n, rows, pos) ==
            match At(trees, n, rows, Parent(pos, rows))
            case Fork(l, r) => if pos % 2 == 0 then l else r
            case _ => Nil
  {
    hide IsRootPosition, Parent, Sibling, RowOf, OffOf, Shr;
    Climb(pos, n, rows);
    PairEncode(pos, n, rows);
  }

  lemma AtRoot(trees: seq<Tree>, n: nat, rows: nat, pos: nat)
    requires Fits(n, rows) && |trees| == PopCount(n) && Valid(pos, n, rows) && IsRootPosition(pos, n, rows)
    ensures RootIndex(n, RowOf(pos, rows)) < |trees|
    ensures At(trees, n, rows, pos) == trees[RootIndex(n, RowOf(pos, rows))]
  {
    hide IsRootPosition, Parent, Sibling, RowOf, OffOf, Shr;
    Climb(pos, n, rows);
    RootIndexBound(n, RowOf(pos, rows));
  }

  lemma AtProper(trees: seq<Tree>, n: nat, rows: nat, pos: nat)
    requires Sound(trees, n, rows) && Valid(pos, n, rows)
    ensures RootTree(At(trees, n, rows, pos), RowOf(pos, rows))
  {
    NodeProper(trees, n, RowOf(pos, rows), OffOf(pos, rows));
  }

  /** Every slot strictly above an occupied one holds a fork. */
  lemma {:induction false} PathForks(trees: seq<Tree>, n: nat, rows: nat, pos: nat, p: nat)
    requires Fits(n, rows) && |trees| == PopCount(n) && Valid(pos, n, rows) && At(trees, n, rows, pos) != Nil
    requires p in PathOf(pos, n, rows) && p != pos
    ensures Valid(p, n, rows) && At(trees, n, rows, p).Fork?
    decreases Level(pos, n, rows)
  {
    hide IsRootPosition, Parent, Sibling, RowOf, OffOf, Level, At, Valid;
    Climb(pos, n, rows);
    PathOfFacts(pos, n, rows, p);
    AtChild(trees, n, rows, pos);
    if p != Parent(pos, rows) {
      PathForks(trees, n, rows, Parent(pos, rows), p);
    }
  }

  /** A path node above the start has a path node below it. */
  lemma {:induction false} PathChild(pos: nat, n: nat, rows: nat, p: nat) returns (c: nat)
    requires Fits(n, rows) && Valid(pos, n, rows) && p in PathOf(pos, n, rows) && p != pos
    ensures c in PathOf(pos, n, rows) && Valid(c, n, rows) && !IsRootPosition(c, n, rows) && Parent(c, rows) == p
    decreases Level(pos, n, rows)
  {
    hide IsRootPosition, Parent, Sibling, RowOf, OffOf, Level, Valid;
    Climb(pos, n, rows);
    if p == Parent(pos, rows) {
      c := pos;
    } else {
      c := PathChild(Parent(pos, rows), n, rows, p);
    }
  }

  lemma RootPath(pos: nat, n: nat, rows: nat)
    requires Fits(n, rows) && Valid(pos, n, rows) && IsRootPosition(pos, n, rows)
    ensures PathOf(pos, n, rows) == {pos}
  {
  }

  lemma ParentPath(pos: nat, n: nat, rows: nat)
    requires Fits(n, rows) && Valid(pos, n, rows) && !IsRootPosition(pos, n, rows)
    ensures Valid(Parent(pos, rows), n, rows)
    ensures PathOf(pos, n, rows) == {pos} + PathOf(Parent(pos, rows), n, rows)
  {
    Climb(pos, n, rows);
  }

  /** Leaves below a slot are leaves below its parent. */
  lemma IdsUp(trees: seq<Tree>, n: nat, rows: nat, pos: nat, id: nat)
    requires Fits(n, rows) && |trees| == PopCount(n) && Valid(pos, n, rows) && !IsRootPosition(pos, n, rows)
    requires id in Ids(At(trees, n, rows, pos))
    ensures Valid(Parent(pos, rows), n, rows) && id in Ids(At(trees, n, rows, Parent(pos, rows)))
  {
    hide At, Valid, IsRootPosition, Parent;
    AtChild(trees, n, rows, pos);
  }

  lemma {:induction false} IdsAbove(trees: seq<Tree>, n: nat, rows: nat, pos: nat, p: nat, id: nat)
    requires Fits(n, rows) && |trees| == PopCount(n) && Valid(pos, n, rows) && p in PathOf(pos, n, rows)
    requires id in Ids(At(trees, n, rows, pos))
    ensures Valid(p, n, rows) && id in Ids(At(trees, n, rows, p))
    decreases Level(pos, n, rows)
  {
    hide IsRootPosition, Parent, Sibling, RowOf, OffOf, Level, At, Valid;
    Climb(pos, n, rows);
    if p != pos {
      IdsUp(trees, n, rows, pos, id);
      IdsAbove(trees, n, rows, Parent(pos, rows), p, id);
    }
  }

  /** Siblings have no leaf in common. */
  lemma SiblingsDisjoint(trees: seq<Tree>, n: nat, rows: nat, p: nat, id: nat)
    requires Sound(trees, n, rows) && Valid(p, n, rows) && !IsRootPosition(p, n, rows)
    requires Valid(Sibling(p), n, rows)
    ensures id !in Ids(At(trees, n, rows, p)) || id !in Ids(At(trees, n, rows, Sibling(p)))
  {
    hide IsRootPosition, Parent, Sibling, RowOf, OffOf, Valid, At, Shape, AllIds;
    Climb(p, n, rows);
    PairEncode(p, n, rows);
    PairEncode(Sibling(p), n, rows);
    AtChild(trees, n, rows, p);
    AtChild(trees, n, rows, Sibling(p));
    var parent := Parent(p, rows);
    AtIds(trees, n, rows, parent);
    if id in Ids(At(trees, n, rows, p)) && id in Ids(At(trees, n, rows, Sibling(p))) {
      var l, r := At(trees, n, rows, parent).left, At(trees, n, rows, parent).right;
      Doubled(Ids(l), Ids(r), AllIds(trees), id);
    }
  }

  lemma AtIds(trees: seq<Tree>, n: nat, rows: nat, pos: nat)
    requires Fits(n, rows) && |trees| == PopCount(n) && Valid(pos, n, rows)
    ensures Ids(At(trees, n, rows, pos)) <= AllIds(trees)
  {
    var row, off := RowOf(pos, rows), OffOf(pos, rows);
    NodeIds(trees, n, row, off);
    AllIdsMember(trees, RootIndex(n, RootAbove(n, row, off)));
  }

  /** A root that shares a leaf with a slot is the root above that slot. */
  lemma RootShared(trees: seq<Tree>, n: nat, rows: nat, p: nat, q: nat, id: nat)
    requires Sound(trees, n, rows) && Valid(p, n, rows) && Valid(q, n, rows) && IsRootPosition(p, n, rows)
    requires id in Ids(At(trees, n, rows, p)) && id in Ids(At(trees, n, rows, q))
    ensures RowOf(p, rows) == RootAbove(n, RowOf(q, rows), OffOf(q, rows))
    ensures RowOf(q, rows) <= RowOf(p, rows)
    ensures RowOf(q, rows) == RowOf(p, rows) ==> p == q
  {
    hide IsRootPosition, RowOf, OffOf, RootIndex, NodeAt, Shape, AllIds, Level, Ids;
    Climb(p, n, rows);
    AtRoot(trees, n, rows, p);
    var row, off := RowOf(q, rows), OffOf(q, rows);
    NodeIds(trees, n, row, off);
    var r, s := RootAbove(n, row, off), RowOf(p, rows);
    DisjointTrees(trees, RootIndex(n, r), RootIndex(n, s), id);
    if r < s { RootIndexInjective(n, r, s); }
    if s < r { RootIndexInjective(n, s, r); }
    Order(p, q, n, rows);
  }

  /** A leaf lies below at most one slot of each row. */
  lemma {:induction false} SameRow(trees: seq<Tree>, n: nat, rows: nat, p: nat, q: nat, id: nat)
    requires Sound(trees, n, rows) && Valid(p, n, rows) && Valid(q, n, rows)
    requires RowOf(p, rows) == RowOf(q, rows)
    requires id in Ids(At(trees, n, rows, p)) && id in Ids(At(trees, n, rows, q))
    ensures p == q
    decreases Level(p, n, rows)
  {
    hide IsRootPosition, Parent, Sibling, RowOf, OffOf, Level, At, Valid, WellFormed, Shr;
    if IsRootPosition(p, n, rows) {
      RootShared(trees, n, rows, p, q, id);
    } else if IsRootPosition(q, n, rows) {
      RootShared(trees, n, rows, q, p, id);
    } else {
      Climb(p, n, rows);
      Climb(q, n, rows);
      IdsUp(trees, n, rows, p, id);
      IdsUp(trees, n, rows, q, id);
      SameRow(trees, n, rows, Parent(p, rows), Parent(q, rows), id);
      if p < q { SiblingsApart(trees, n, rows, p, q, id); }
      if q < p { SiblingsApart(trees, n, rows, q, p, id); }
    }
  }

  lemma SiblingsApart(trees: seq<Tree>, n: nat, rows: nat, p: nat, q: nat, id: nat)
    requires Sound(trees, n, rows) && Valid(p, n, rows) && Valid(q, n, rows) && p < q
    requires !IsRootPosition(p, n, rows) && !IsRootPosition(q, n, rows)
    requires Parent(p, rows) == Parent(q, rows) && id in Ids(At(trees, n, rows, p))
    ensures id !in Ids(At(trees, n, rows, q))
  {
    hide IsRootPosition, Parent, Sibling, RowOf, OffOf, Level, At, Valid, WellFormed, Shr;
    ParentOrder(p, q, n, rows);
    PairEncode(p, n, rows);
    SiblingsDisjoint(trees, n, rows, p, id);
  }

  /** Slots that share a leaf lie on one root path: the higher one is above the lower one. */
  lemma {:induction false} Comparable(trees: seq<Tree>, n: nat, rows: nat, p: nat, q: nat, id: nat)
    requires Sound(trees, n, rows) && Valid(p, n, rows) && Valid(q, n, rows)
    requires RowOf(p, rows) <= RowOf(q, rows)
    requires id in Ids(At(trees, n, rows, p)) && id in Ids(At(trees, n, rows, q))
    ensures q in PathOf(p, n, rows)
    decreases Level(p, n, rows)
  {
    hide IsRootPosition, Parent, Sibling, RowOf, OffOf, Level, At, Valid, WellFormed, Shr;
    if RowOf(p, rows) == RowOf(q, rows) {
      SameRow(trees, n, rows, p, q, id);
    } else if IsRootPosition(p, n, rows) {
      RootShared(trees, n, rows, p, q, id);
    } else {
      Climb(p, n, rows);
      IdsUp(trees, n, rows, p, id);
      Comparable(trees, n, rows, Parent(p, rows), q, id);
    }
  }

  /** The slot of a leaf is below every slot whose subtree has the leaf. */
  lemma LeafBelow(trees: seq<Tree>, n: nat, rows: nat, leaf: nat, q: nat, id: nat)
    requires Sound(trees, n, rows) && Valid(leaf, n, rows) && Valid(q, n, rows)
    requires At(trees, n, rows, leaf) == Tip(id) && id in Ids(At(trees, n, rows, q))
    ensures q in PathOf(leaf, n, rows)
  {
    hide IsRootPosition, Parent, RowOf, OffOf, Level, At, Valid, WellFormed, PathOf;
    if RowOf(leaf, rows) <= RowOf(q, rows) {
      Comparable(trees, n, rows, leaf, q, id);
    } else {
      Comparable(trees, n, rows, q, leaf, id);
      PathForks(trees, n, rows, q, leaf);
    }
  }

  lemma {:induction false} PathHeights(trees: seq<Tree>, n: nat, rows: nat, pos: nat, p: nat)
    requires Fits(n, rows) && |trees| == PopCount(n) && Valid(pos, n, rows) && At(trees, n, rows, pos) != Nil
    requires p in PathOf(pos, n, rows) && p != pos
    ensures Valid(p, n, rows) && Height(At(trees, n, rows, pos)) < Height(At(trees, n, rows, p))
    decreases Level(pos, n, rows)
  {
    hide IsRootPosition, Parent, Sibling, RowOf, OffOf, Level, At, Valid;
    Climb(pos, n, rows);
    PathOfFacts(pos, n, rows, p);
    AtChild(trees, n, rows, pos);
    if p != Parent(pos, rows) {
      PathHeights(trees, n, rows, Parent(pos, rows), p);
    }
  }

  /** A nonempty subtree occurs at one slot only. */
  lemma SlotUnique(trees: seq<Tree>, n: nat, rows: nat, p: nat, q: nat)
    requires Sound(trees, n, rows) && Valid(p, n, rows) && Valid(q, n, rows)
    requires At(trees, n, rows, p) == At(trees, n, rows, q) != Nil
    ensures p == q
  {
    hide IsRootPosition, Parent, RowOf, OffOf, Level, At, Valid, WellFormed, PathOf;
    AtProper(trees, n, rows, p);
    var id := ProperHasLeaf(At(trees, n, rows, p));
    if RowOf(p, rows) <= RowOf(q, rows) {
      Comparable(trees, n, rows, p, q, id);
      if p != q { PathHeights(trees, n, rows, p, q); }
    } else {
      Comparable(trees, n, rows, q, p, id);
      if p != q { PathHeights(trees, n, rows, q, p); }
    }
  }

  /** A proof only asks for slots that are occupied. */
  lemma ProofSlotOccupied(trees: seq<Tree>, n: nat, rows: nat, targets: seq<nat>, q: nat)
    requires Sound(trees, n, rows) && AllValid(targets, n, rows) && q in ProofSet(targets, n, rows)
    requires forall i :: 0 <= i < |targets| ==> At(trees, n, rows, targets[i]) != Nil
    ensures Valid(q, n, rows) && At(trees, n, rows, q) != Nil
  {
    hide PathOf, At, Path, IsRootPosition, Valid, RowOf, OffOf, Shape, ProofSet, Parent, Sibling;
    ProofSetMember(targets, n, rows, q);
    var p := Sibling(q);
    SiblingInvolution(q);
    PathFacts(targets, n, rows, p);
    PathMember(targets, n, rows, p);
    var i :| 0 <= i < |targets| && p in PathOf(targets[i], n, rows);
    if p != targets[i] { PathForks(trees, n, rows, targets[i], p); }
    Climb(p, n, rows);
    AtChild(trees, n, rows, p);
    AtChild(trees, n, rows, q);
    PairEncode(p, n, rows);
    PairEncode(q, n, rows);
    AtProper(trees, n, rows, Parent(p, rows));
    ProperChildren(At(trees, n, rows, Parent(q, rows)));
  }

  lemma ProperChildren(t: Tree)
    requires Proper(t) && t.Fork?
    ensures t.left != Nil && t.right != Nil
  {
  }

  // ----- targets of an honest proof -----

  /** The targets are distinct slots of leaves. */
  predicate LeafTargets(trees: seq<Tree>, n: nat, rows: nat, targets: seq<nat>) {
    && |trees| == PopCount(n) && Fits(n, rows)
    && AllValid(targets, n, rows)
    && (forall i :: 0 <= i < |targets| ==> At(trees, n, rows, targets[i]).Tip?)
    && (forall i, j :: 0 <= i < j < |targets| ==> targets[i] != targets[j])
  }

  /** The identifiers of the targeted leaves. */
  function TargetIds(trees: seq<Tree>, n: nat, rows: nat, targets: seq<nat>): (ids: seq<nat>)
    requires LeafTargets(trees, n, rows, targets)
    ensures |ids| == |targets|
    ensures forall i :: 0 <= i < |ids| ==> At(trees, n, rows, targets[i]) == Tip(ids[i])
  {
    seq(|targets|, i requires 0 <= i < |targets| => At(trees, n, rows, targets[i]).id)
  }

  /** No target is above another one. */
  lemma Antichain(trees: seq<Tree>, n: nat, rows: nat, targets: seq<nat>, i: nat, j: nat)
    requires LeafTargets(trees, n, rows, targets) && i < |targets| && j < |targets|
    requires targets[j] in PathOf(targets[i], n, rows)
    ensures i == j
  {
    hide PathOf, At;
    if targets[i] != targets[j] {
      PathForks(trees, n, rows, targets[i], targets[j]);
    }
  }

  /** Every computed slot holds a fork. */
  lemma InnerFork(trees: seq<Tree>, n: nat, rows: nat, targets: seq<nat>, p: nat)
    requires LeafTargets(trees, n, rows, targets)
    requires p in Path(targets, n, rows) - Elements(targets)
    ensures Valid(p, n, rows) && At(trees, n, rows, p).Fork?
  {
    hide PathOf, At, Path;
    PathMember(targets, n, rows, p);
    var i :| 0 <= i < |targets| && p in PathOf(targets[i], n, rows);
    PathForks(trees, n, rows, targets[i], p);
  }

  /** A path node's parent is no target. */
  lemma ParentInner(trees: seq<Tree>, n: nat, rows: nat, targets: seq<nat>, p: nat)
    requires LeafTargets(trees, n, rows, targets)
    requires p in Path(targets, n, rows) && !IsRootPosition(p, n, rows)
    ensures Parent(p, rows) in Path(targets, n, rows) - Elements(targets)
  {
    hide PathOf, At, Path, Parent, IsRootPosition, Valid, RowOf;
    PathFacts(targets, n, rows, p);
    PathMember(targets, n, rows, p);
    var i :| 0 <= i < |targets| && p in PathOf(targets[i], n, rows);
    PathOfFacts(targets[i], n, rows, p);
    if Parent(p, rows) in targets {
      var j :| 0 <= j < |targets| && targets[j] == Parent(p, rows);
      Antichain(trees, n, rows, targets, i, j);
      Climb(p, n, rows);
    }
  }

  /** A slot off the paths has none of the targeted leaves below it. */
  lemma OffPath(trees: seq<Tree>, n: nat, rows: nat, targets: seq<nat>, q: nat, i: nat)
    requires Sound(trees, n, rows) && LeafTargets(trees, n, rows, targets) && i < |targets|
    requires Valid(q, n, rows) && q !in Path(targets, n, rows)
    ensures TargetIds(trees, n, rows, targets)[i] !in Ids(At(trees, n, rows, q))
  {
    hide PathOf, At, Path, IsRootPosition, Valid, RowOf, WellFormed;
    var id := TargetIds(trees, n, rows, targets)[i];
    if id in Ids(At(trees, n, rows, q)) {
      LeafBelow(trees, n, rows, targets[i], q, id);
      PathMember(targets, n, rows, q);
    }
  }
}
