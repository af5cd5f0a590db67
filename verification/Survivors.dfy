/** The forest after a deletion, slot by slot: which subtrees survive, and that the fold of
    `calc_next_pos` finds them again. */
module Survivors {
  import opened Positions
  import opened Forest
  import opened ProofPositions
  import opened Slots
  import opened Walks
  import opened Moves
  import opened TopSlots

  /** The deletion of the leaves at `block`. */
  ghost predicate Deletion(trees: seq<Tree>, n: nat, rows: nat, block: seq<nat>, ds: seq<nat>, gone: set<nat>) {
    && Sound(trees, n, rows) && LeafTargets(trees, n, rows, block)
    && gone == Elements(TargetIds(trees, n, rows, block))
    && Tops(block, ds, n, rows)
  }

  // ----- deleted subtrees are the covered ones -----

  lemma {:induction false} CoveredGone(trees: seq<Tree>, n: nat, rows: nat, block: seq<nat>, q: nat)
    requires Sound(trees, n, rows) && LeafTargets(trees, n, rows, block) && Valid(q, n, rows)
    requires AllBelow(q, block, n, rows)
    ensures Prune(At(trees, n, rows, q), Elements(TargetIds(trees, n, rows, block))) == Nil
    decreases RowOf(q, rows)
  {
    hide Valid, IsRootPosition, Parent, PathOf, RowOf, OffOf, At, WellFormed, LeftChild, AllBelow;
    var t := At(trees, n, rows, q);
    if t.Tip? {
      CoveredLeaf(trees, n, rows, block, q);
    } else if t.Fork? {
      DescendAt(trees, n, rows, q);
      Descend(q, n, rows);
      var l, r := LeftChild(q, rows), RightChild(q, rows);
      AllBelowChild(q, l, block, n, rows);
      AllBelowChild(q, r, block, n, rows);
      CoveredGone(trees, n, rows, block, l);
      CoveredGone(trees, n, rows, block, r);
    }
  }

  /** A leaf that is covered is listed: nothing is above or below a leaf. */
  lemma CoveredLeaf(trees: seq<Tree>, n: nat, rows: nat, block: seq<nat>, q: nat)
    requires Sound(trees, n, rows) && LeafTargets(trees, n, rows, block) && Valid(q, n, rows)
    requires AllBelow(q, block, n, rows) && At(trees, n, rows, q).Tip?
    ensures Prune(At(trees, n, rows, q), Elements(TargetIds(trees, n, rows, block))) == Nil
  {
    hide Valid, RowOf, At, WellFormed, PathOf, AllBelow;
    var t := CoveredBy(q, block, n, rows);
    var i :| 0 <= i < |block| && block[i] == t;
    if t != q {
      if t in PathOf(q, n, rows) {
        PathForks(trees, n, rows, q, t);
      } else {
        PathForks(trees, n, rows, t, q);
      }
    }
    ElementsAt(TargetIds(trees, n, rows, block), i);
  }

  /** The subtrees in `ds` are deleted completely. */
  lemma TopGone(trees: seq<Tree>, n: nat, rows: nat, block: seq<nat>, ds: seq<nat>, gone: set<nat>, d: nat)
    requires Deletion(trees, n, rows, block, ds, gone) && d in Elements(ds)
    ensures Valid(d, n, rows) && At(trees, n, rows, d) != Nil && Prune(At(trees, n, rows, d), gone) == Nil
  {
    hide Valid, RowOf, At, WellFormed, PathOf, AllBelow, IsRootPosition, Parent;
    var t := TopListed(d, block, n, rows);
    var i :| 0 <= i < |block| && block[i] == t;
    if d != t { PathForks(trees, n, rows, t, d); }
    CoveredGone(trees, n, rows, block, d);
  }

  /** A subtree that is deleted completely is covered. */
  lemma {:induction false} GoneCovered(trees: seq<Tree>, n: nat, rows: nat, block: seq<nat>, q: nat)
    requires Sound(trees, n, rows) && LeafTargets(trees, n, rows, block) && Valid(q, n, rows)
    requires At(trees, n, rows, q) != Nil
    requires Prune(At(trees, n, rows, q), Elements(TargetIds(trees, n, rows, block))) == Nil
    ensures AllBelow(q, block, n, rows)
    decreases Height(At(trees, n, rows, q))
  {
    hide Valid, IsRootPosition, Parent, PathOf, RowOf, OffOf, At, WellFormed, LeftChild, Sibling, LeafTargets,
      AllBelow;
    if At(trees, n, rows, q).Tip? {
      GoneLeaf(trees, n, rows, block, q);
    } else {
      DescendAt(trees, n, rows, q);
      Descend(q, n, rows);
      AtProper(trees, n, rows, q);
      ProperChildren(At(trees, n, rows, q));
      var l, r := LeftChild(q, rows), RightChild(q, rows);
      PairEncode(l, n, rows);
      GoneCovered(trees, n, rows, block, l);
      GoneCovered(trees, n, rows, block, r);
      BothBelow(block, n, rows, l);
    }
  }

  lemma GoneLeaf(trees: seq<Tree>, n: nat, rows: nat, block: seq<nat>, q: nat)
    requires Sound(trees, n, rows) && LeafTargets(trees, n, rows, block) && Valid(q, n, rows)
    requires At(trees, n, rows, q).Tip?
    requires Prune(At(trees, n, rows, q), Elements(TargetIds(trees, n, rows, block))) == Nil
    ensures AllBelow(q, block, n, rows)
  {
    hide Valid, PathOf, RowOf, At, WellFormed, AllBelow;
    var ids := TargetIds(trees, n, rows, block);
    var i :| 0 <= i < |ids| && ids[i] == At(trees, n, rows, q).id;
    SlotUnique(trees, n, rows, q, block[i]);
    ElementsAt(block, i);
    ListedBelow(q, block, n, rows);
  }

  lemma PrunedLeaf(t: Tree, gone: set<nat>) returns (id: nat)
    requires Prune(t, gone) != Nil && (t.Nil? || Proper(t))
    ensures id in Ids(t) && id !in gone
  {
    PruneProper(t, gone);
    id := ProperHasLeaf(Prune(t, gone));
    PruneIds(t, gone);
    assert Ids(Prune(t, gone))[id] > 0;
  }

  lemma {:induction false} PruneProper(t: Tree, gone: set<nat>)
    requires t.Nil? || Proper(t)
    ensures Prune(t, gone).Nil? || Proper(Prune(t, gone))
  {
    if t.Fork? {
      PruneProper(t.left, gone);
      PruneProper(t.right, gone);
    }
  }

  /** An occupied slot is kept exactly when something below it survives. */
  lemma KeptSurvives(trees: seq<Tree>, n: nat, rows: nat, block: seq<nat>, ds: seq<nat>, gone: set<nat>, p: nat)
    requires Deletion(trees, n, rows, block, ds, gone) && Valid(p, n, rows) && At(trees, n, rows, p) != Nil
    ensures Kept(p, ds, n, rows) <==> Prune(At(trees, n, rows, p), gone) != Nil
  {
    hide Valid, PathOf, RowOf, At, WellFormed, LeafTargets, Tops, Prune, AllBelow, Kept;
    KeptUncovered(p, block, ds, n, rows);
    if AllBelow(p, block, n, rows) {
      CoveredGone(trees, n, rows, block, p);
    } else if Prune(At(trees, n, rows, p), gone) == Nil {
      GoneCovered(trees, n, rows, block, p);
    }
  }

  // ----- the surviving subtrees in the forest after the deletion -----

  lemma PrunedSound(trees: seq<Tree>, n: nat, rows: nat, gone: set<nat>)
    requires Sound(trees, n, rows)
    ensures Sound(PruneAll(trees, gone), n, rows)
  {
    hide WellFormed;
    PruneWellFormed(trees, n, gone);
  }

  lemma OccupiedUp(trees: seq<Tree>, n: nat, rows: nat, p: nat)
    requires Sound(trees, n, rows) && Valid(p, n, rows) && !IsRootPosition(p, n, rows) && At(trees, n, rows, p) != Nil
    ensures Valid(Parent(p, rows), n, rows) && Valid(Sibling(p), n, rows)
    ensures var t, s := At(trees, n, rows, p), At(trees, n, rows, Sibling(p));
            s != Nil && At(trees, n, rows, Parent(p, rows)) == if p % 2 == 0 then Fork(t, s) else Fork(s, t)
  {
    hide Valid, IsRootPosition, Parent, RowOf, OffOf, At, WellFormed, Level, Sibling, Proper, RootTree;
    Climb(p, n, rows);
    PairEncode(p, n, rows);
    AtChild(trees, n, rows, p);
    AtChild(trees, n, rows, Sibling(p));
    ForkChildren(trees, n, rows, Parent(p, rows));
  }

  lemma ForkChildren(trees: seq<Tree>, n: nat, rows: nat, p: nat)
    requires Sound(trees, n, rows) && Valid(p, n, rows) && At(trees, n, rows, p).Fork?
    ensures At(trees, n, rows, p).left != Nil && At(trees, n, rows, p).right != Nil
  {
    hide Valid, RowOf, OffOf, At, WellFormed;
    AtProper(trees, n, rows, p);
    ProperChildren(At(trees, n, rows, p));
  }

  /** What stands at the slot a surviving node moves to is what survives of it. */
  lemma {:induction false} MovedAt(trees: seq<Tree>, n: nat, rows: nat, block: seq<nat>, ds: seq<nat>, gone: set<nat>,
                                   p: nat)
    requires Deletion(trees, n, rows, block, ds, gone) && Valid(p, n, rows)
    requires At(trees, n, rows, p) != Nil && Kept(p, ds, n, rows)
    ensures At(PruneAll(trees, gone), n, rows, Moved(p, Elements(ds), n, rows)) == Prune(At(trees, n, rows, p), gone)
    decreases Level(p, n, rows)
  {
    hide Valid, IsRootPosition, Parent, PathOf, RowOf, OffOf, At, WellFormed, LeftChild, Sibling, LeafTargets, Tops,
      Kept, Moved, Level, PruneAll, Prune;
    PrunedSound(trees, n, rows, gone);
    Climb(p, n, rows);
    if IsRootPosition(p, n, rows) {
      MovedRoot(p, Elements(ds), n, rows);
      AtRoot(trees, n, rows, p);
      AtRoot(PruneAll(trees, gone), n, rows, p);
    } else {
      var parent := Parent(p, rows);
      OccupiedUp(trees, n, rows, p);
      KeptUp(p, ds, n, rows);
      MovedUp(p, Elements(ds), n, rows);
      MovedAt(trees, n, rows, block, ds, gone, parent);
      KeptSibling(p, ds, n, rows);
      KeptSurvives(trees, n, rows, block, ds, gone, p);
      if Sibling(p) in Elements(ds) {
        TopGone(trees, n, rows, block, ds, gone, Sibling(p));
        PruneBeside(At(trees, n, rows, p), At(trees, n, rows, Sibling(p)), gone);
      } else {
        KeptSurvives(trees, n, rows, block, ds, gone, Sibling(p));
        PruneBoth(At(trees, n, rows, p), At(trees, n, rows, Sibling(p)), gone);
        DescendAt(PruneAll(trees, gone), n, rows, Moved(parent, Elements(ds), n, rows));
      }
    }
  }

  lemma PruneBeside(t: Tree, s: Tree, gone: set<nat>)
    requires Prune(s, gone) == Nil
    ensures Prune(Fork(t, s), gone) == Prune(t, gone) == Prune(Fork(s, t), gone)
  {
  }
}
