/** What a cached proof becomes when the forest grows over its empty roots: old nodes and new leaves go
    where the fillers leave them, and what is needed there is known. */
module Regrowths {
  import opened Bits
  import opened Positions
  import opened Forest
  import opened ProofPositions
  import opened Slots
  import opened Paths
  import opened MergeLoop
  import opened MergeRuns
  import opened ProofEngine
  import opened Moves
  import opened Detwins
  import opened TopSlots
  import opened MoveOrders
  import opened Survivors
  import opened ProofMoves
  import opened ProofUpdates
  import opened ProofRemovals
  import opened Growth
  import opened HolesFilled
  import opened ListedRoots
  import opened Landings
  import opened GrownPaths

  // ----- the filled forest -----

  ghost predicate Regrowing(trees: seq<Tree>, n: nat, R: nat, ids: seq<nat>, full: seq<Tree>, gone: set<nat>,
                            grown: seq<Tree>, m: nat, S: nat, block: seq<nat>, tops: seq<nat>) {
    && FilledGrowth(trees, n, ids, full, gone, grown, m, S) && Grows(n, R, m, S)
    && Deletion(grown, m, S, block, tops, gone) && Elements(block) == HoleSet(trees, n, m, S)
    && PruneAll(grown, gone) == AddAll(trees, n, ids)
  }

  lemma RegrowthExists(trees: seq<Tree>, n: nat, R: nat, ids: seq<nat>, m: nat, S: nat)
    returns (full: seq<Tree>, gone: set<nat>, grown: seq<Tree>, block: seq<nat>, tops: seq<nat>)
    requires WellFormed(trees, n) && |trees| == PopCount(n) && Fresh(trees, ids) && m == n + |ids| && Grows(n, R, m, S)
    ensures Regrowing(trees, n, R, ids, full, gone, grown, m, S, block, tops)
  {
    hide WellFormed, AddAll, PopCount, Fresh, Deletion, Elements, HoleSet;
    full, gone := FillExists(trees, n, ids);
    grown := AddAll(full, n, ids);
    FilledLength(full, trees, n, ids, gone);
    block, tops := HolesDeleted(trees, n, ids, full, gone, grown, m, S);
  }

  lemma FilledLength(full: seq<Tree>, trees: seq<Tree>, n: nat, ids: seq<nat>, gone: set<nat>)
    requires Filled(full, trees, n, ids, gone)
    ensures |full| == |trees|
  {
    hide WellFormed;
  }

  lemma RegrowingFacts(trees: seq<Tree>, n: nat, R: nat, ids: seq<nat>, full: seq<Tree>, gone: set<nat>,
                       grown: seq<Tree>, m: nat, S: nat, block: seq<nat>, tops: seq<nat>)
    requires Regrowing(trees, n, R, ids, full, gone, grown, m, S, block, tops)
    ensures FilledGrowth(trees, n, ids, full, gone, grown, m, S) && Grows(n, R, m, S) && Fits(n, R) && Fits(m, S)
    ensures Sound(grown, m, S) && Sound(AddAll(trees, n, ids), m, S)
    ensures |grown| == |AddAll(trees, n, ids)| == PopCount(m)
    ensures |full| == |trees| == PopCount(n) && NoHoles(full) && m == n + |ids| && grown == AddAll(full, n, ids)
    ensures Deletion(grown, m, S, block, tops, gone) && Tops(block, tops, m, S) && WellFormed(full, n)
    ensures PruneAll(grown, gone) == AddAll(trees, n, ids)
  {
    hide WellFormed, AddAll, PopCount, Fresh, Tops, Elements, HoleSet, LeafTargets;
    PrunedSound(grown, m, S, gone);
  }

  lemma {:induction false} NodeFilled(trees: seq<Tree>, n: nat, ids: seq<nat>, full: seq<Tree>, gone: set<nat>,
                                      row: nat, off: nat)
    requires Filled(full, trees, n, ids, gone) && |trees| == |full| == PopCount(n) && off < Shr(n, row)
    requires NodeAt(trees, n, row, off) != Nil
    ensures NodeAt(full, n, row, off) == NodeAt(trees, n, row, off)
    decreases Shr(n, row)
  {
    hide NodeAt, WellFormed, Ids, Shr, PopCount;
    ShrStep(n, row);
    if RootCoord(row, off, n) {
      NodeAtRoot(trees, n, row, off);
      NodeAtRoot(full, n, row, off);
    } else {
      NodeAtChild(trees, n, row, off);
      NodeAtChild(full, n, row, off);
      NodeFilled(trees, n, ids, full, gone, row + 1, off / 2);
    }
  }

  lemma NodeUntouched(trees: seq<Tree>, n: nat, ids: seq<nat>, full: seq<Tree>, gone: set<nat>, row: nat, off: nat)
    requires Filled(full, trees, n, ids, gone) && |trees| == |full| == PopCount(n) && off < Shr(n, row)
    requires NodeAt(trees, n, row, off) != Nil
    ensures Prune(NodeAt(full, n, row, off), gone) == NodeAt(full, n, row, off) == NodeAt(trees, n, row, off)
  {
    hide NodeAt, Shape, AllIds, Ids, Shr, PopCount, RootIndex;
    NodeFilled(trees, n, ids, full, gone, row, off);
    NodeIds(trees, n, row, off);
    NodeProper(full, n, row, off);
    var t := NodeAt(trees, n, row, off);
    var root := trees[RootIndex(n, RootAbove(n, row, off))];
    if root == Nil { assert Ids(root) == multiset{} by { NoLeaf(); } ProperLeaf(t); }
    forall x | x in Ids(t) ensures x !in gone { assert x in Ids(root); }
    PruneNothing(t, gone);
  }

  lemma NoLeaf()
    ensures Ids(Nil) == multiset{}
  {
  }

  lemma ProperLeaf(t: Tree)
    requires Proper(t)
    ensures Ids(t) != multiset{}
  {
    var id := ProperHasLeaf(t);
  }

  /** An old node stays as it is, and goes where the fillers leave it. */
  lemma OldStays(trees: seq<Tree>, n: nat, R: nat, ids: seq<nat>, full: seq<Tree>, gone: set<nat>,
                 grown: seq<Tree>, m: nat, S: nat, block: seq<nat>, tops: seq<nat>, q: nat)
    requires Regrowing(trees, n, R, ids, full, gone, grown, m, S, block, tops)
    requires |trees| == |full| == PopCount(n) && Valid(q, n, R) && At(trees, n, R, q) != Nil
    ensures At(full, n, R, q) == At(trees, n, R, q)
    ensures var x := Regrown(q, n, R, S);
            && |grown| == |AddAll(trees, n, ids)| == PopCount(m) && Fits(m, S) && Valid(x, m, S)
            && At(grown, m, S, x) == At(trees, n, R, q) && Prune(At(grown, m, S, x), gone) == At(trees, n, R, q)
            && Kept(x, tops, m, S)
            && Moved(x, Elements(tops), m, S) == Moved(x, Overwritten(trees, n, m, S), m, S)
            && At(AddAll(trees, n, ids), m, S, Moved(x, Overwritten(trees, n, m, S), m, S)) == At(trees, n, R, q)
  {
    hide RowOf, OffOf, NodeAt, Regrown, AddAll, Prune, WellFormed, Moved, Overwritten, Tops, Kept, PathOf, PopCount,
      HoleSet, LeafTargets, Fresh, Elements;
    RegrowingFacts(trees, n, R, ids, full, gone, grown, m, S, block, tops);
    NodeUntouched(trees, n, ids, full, gone, RowOf(q, R), OffOf(q, R));
    AtGrown(full, n, R, ids, S, q);
    var x := Regrown(q, n, R, S);
    KeptSurvives(grown, m, S, block, tops, gone, x);
    MovedOverHoles(trees, n, m, S, block, tops, x);
    StandsThere(trees, n, ids, full, gone, grown, m, S, x);
  }

  /** A new leaf goes where the fillers leave it. */
  lemma NewStays(trees: seq<Tree>, n: nat, R: nat, ids: seq<nat>, full: seq<Tree>, gone: set<nat>,
                 grown: seq<Tree>, m: nat, S: nat, block: seq<nat>, tops: seq<nat>, k: nat)
    requires Regrowing(trees, n, R, ids, full, gone, grown, m, S, block, tops) && k < |ids|
    ensures |grown| == |AddAll(trees, n, ids)| == PopCount(m) && Fits(m, S) && Valid(n + k, m, S)
    ensures |trees| == PopCount(n)
    ensures At(grown, m, S, n + k) == Tip(ids[k]) && Kept(n + k, tops, m, S) && Appeared(n + k, n, m, S)
    ensures Moved(n + k, Elements(tops), m, S) == Moved(n + k, Overwritten(trees, n, m, S), m, S)
    ensures At(AddAll(trees, n, ids), m, S, Moved(n + k, Overwritten(trees, n, m, S), m, S)) == Tip(ids[k])
    ensures IsNew(n + k, n, m, S) && !HoleAt(trees, n, S, n + k)
  {
    hide RowOf, OffOf, NodeAt, AddAll, WellFormed, Moved, Overwritten, Tops, Kept, PathOf, PopCount, HoleSet, At,
      HoleAt, LeafTargets, Fresh, Elements, IsNew, Appeared;
    RegrowingFacts(trees, n, R, ids, full, gone, grown, m, S, block, tops);
    NewLeafAt(full, n, ids, S, k);
    assert Prune(Tip(ids[k]), gone) == Tip(ids[k]);
    KeptSurvives(grown, m, S, block, tops, gone, n + k);
    MovedOverHoles(trees, n, m, S, block, tops, n + k);
    StandsThere(trees, n, ids, full, gone, grown, m, S, n + k);
  }

  // ----- old and new do not meet -----

  /** Below an old inner slot nothing is new. */
  lemma BelowOld(x: nat, q: nat, n: nat, R: nat, m: nat, S: nat)
    requires Grows(n, R, m, S) && Valid(x, n, R) && !IsRootPosition(x, n, R) && Valid(q, m, S)
    requires Regrown(x, n, R, S) in PathOf(q, m, S)
    ensures !IsNew(q, n, m, S)
  {
    hide RowOf, OffOf, IsRootPosition, Regrown, Parent, Sibling, Level, PathOf, Valid;
    RegrownExisted(x, n, R, m, S);
    var y := Regrown(x, n, R, S);
    if q == y {
      OldInner(x, n, R, m, S);
    } else if IsNew(q, n, m, S) {
      if !Existed(q, n, m, S) {
        NewAbove(q, y, n, m, S);
      } else {
        OldRootBelow(q, y, n, m, S);
      }
    }
  }

  lemma OldRootBelow(q: nat, y: nat, n: nat, m: nat, S: nat)
    requires Fits(m, S) && Valid(q, m, S) && y in PathOf(q, m, S) && y != q && Valid(y, m, S) && Existed(y, n, m, S)
    ensures !RootCoord(RowOf(q, S), OffOf(q, S), n)
  {
    hide RowOf, OffOf, IsRootPosition, Parent, Sibling, Level, PathOf;
    Climb(q, m, S);
    if IsRootPosition(q, m, S) { RootPath(q, m, S); }
    ParentPath(q, m, S);
    if RootCoord(RowOf(q, S), OffOf(q, S), n) {
      ShrStep(n, RowOf(q, S));
      NewAbove(Parent(q, S), y, n, m, S);
    }
  }

  /** An old needed node does not come to stand where something new does. */
  lemma OldNotNew(trees: seq<Tree>, n: nat, R: nat, ids: seq<nat>, full: seq<Tree>, gone: set<nat>,
                  grown: seq<Tree>, m: nat, S: nat, block: seq<nat>, tops: seq<nat>, p: nat)
    requires Regrowing(trees, n, R, ids, full, gone, grown, m, S, block, tops)
    requires |trees| == PopCount(n) && Valid(p, n, R) && At(trees, n, R, p) != Nil && !IsRootPosition(p, n, R)
    ensures Valid(Regrown(p, n, R, S), m, S) && Fits(m, S)
    ensures !Lands(trees, n, m, S, Moved(Regrown(p, n, R, S), Overwritten(trees, n, m, S), m, S))
  {
    hide RowOf, OffOf, At, Regrown, AddAll, Prune, WellFormed, Moved, Overwritten, Tops, Kept, PathOf, PopCount,
      HoleSet, LeafTargets, Fresh, Elements, HoleAt, IsRootPosition, Deletion;
    RegrowingFacts(trees, n, R, ids, full, gone, grown, m, S, block, tops);
    FilledLength(full, trees, n, ids, gone);
    OldStays(trees, n, R, ids, full, gone, grown, m, S, block, tops, p);
    var x, dels := Regrown(p, n, R, S), Overwritten(trees, n, m, S);
    forall q: nat | IsNew(q, n, m, S) && !HoleAt(trees, n, S, q) ensures Moved(q, dels, m, S) != Moved(x, dels, m, S) {
      if Moved(q, dels, m, S) == Moved(x, dels, m, S) {
        NewSurvives(trees, n, ids, full, gone, grown, m, S, q);
        StandsThere(trees, n, ids, full, gone, grown, m, S, q);
        SharePath(grown, m, S, gone, q, x);
        if x in PathOf(q, m, S) {
          BelowOld(p, q, n, R, m, S);
        } else {
          OldApart(trees, n, R, m, S, p, q);
        }
      }
    }
  }

  /** Nodes that share a survivor are above one another. */
  lemma SharePath(trees: seq<Tree>, m: nat, S: nat, gone: set<nat>, p: nat, q: nat)
    requires Sound(trees, m, S) && Valid(p, m, S) && Valid(q, m, S)
    requires Prune(At(trees, m, S, p), gone) == Prune(At(trees, m, S, q), gone) != Nil
    ensures p in PathOf(q, m, S) || q in PathOf(p, m, S)
  {
    hide RowOf, OffOf, At, Prune, PathOf, WellFormed, Valid;
    PruneOfNil(At(trees, m, S, p), gone);
    AtProper(trees, m, S, p);
    var id := PrunedLeaf(At(trees, m, S, p), gone);
    SharedSurvivor(At(trees, m, S, p), At(trees, m, S, q), gone, id);
    if RowOf(p, S) <= RowOf(q, S) {
      Comparable(trees, m, S, p, q, id);
    } else {
      Comparable(trees, m, S, q, p, id);
    }
  }

  /** An old inner node has no filler for a sibling, so it stays below its parent. */
  lemma OldApart(trees: seq<Tree>, n: nat, R: nat, m: nat, S: nat, p: nat, q: nat)
    requires Grows(n, R, m, S) && |trees| == PopCount(n) && Valid(p, n, R) && !IsRootPosition(p, n, R)
    requires Valid(Regrown(p, n, R, S), m, S) && q in PathOf(Regrown(p, n, R, S), m, S) && q != Regrown(p, n, R, S)
    ensures Valid(q, m, S)
    ensures Moved(q, Overwritten(trees, n, m, S), m, S) != Moved(Regrown(p, n, R, S), Overwritten(trees, n, m, S), m, S)
  {
    hide RowOf, OffOf, IsRootPosition, Regrown, Parent, Sibling, Level, PathOf, Valid, Moved, Overwritten, PopCount,
      LeftChild, Shr;
    var x, dels := Regrown(p, n, R, S), Overwritten(trees, n, m, S);
    PathOfFacts(x, m, S, q);
    RegrownUp(p, n, R, m, S);
    Climb(p, n, R);
    RegrownSlot(Sibling(p), n, R, m, S);
    Climb(Sibling(p), n, R);
    OverwrittenIs(trees, n, m, S, Sibling(x));
    ParentPath(x, m, S);
    MovedUp(x, dels, m, S);
    var up := Moved(Parent(x, S), dels, m, S);
    MovedPath(Parent(x, S), q, dels, m, S);
    PathOfFacts(up, m, S, Moved(q, dels, m, S));
    ChildCoords(up, x % 2, m, S);
  }

  // ----- what is needed -----

  /** The targets before, in the filled forest, and after. */
  ghost predicate RegrownTargets(targets: seq<nat>, n: nat, R: nat, grown: seq<Tree>, m: nat, S: nat, block: seq<nat>,
                                 tops: seq<nat>, gone: set<nat>, kept: seq<nat>, moved: seq<nat>) {
    && Grows(n, R, m, S) && AllValid(targets, n, R)
    && Setting(grown, m, S, block, tops, gone, kept, moved) && GrownTargets(targets, kept, n, R, m, S)
    && AllValid(kept, m, S) && AllValid(moved, m, S)
  }

  /** What was needed is needed where it goes, and nothing new stands there. */
  lemma OldNeeded(trees: seq<Tree>, n: nat, R: nat, ids: seq<nat>, full: seq<Tree>, gone: set<nat>,
                  grown: seq<Tree>, m: nat, S: nat, block: seq<nat>, tops: seq<nat>,
                  targets: seq<nat>, kept: seq<nat>, moved: seq<nat>, q: nat)
    requires Regrowing(trees, n, R, ids, full, gone, grown, m, S, block, tops)
    requires RegrownTargets(targets, n, R, grown, m, S, block, tops, gone, kept, moved) && |trees| == PopCount(n)
    requires Fits(n, R) && AllValid(targets, n, R) && q in ProofSet(targets, n, R)
    requires Valid(q, n, R) && At(trees, n, R, q) != Nil && !IsRootPosition(q, n, R)
    ensures Valid(Regrown(q, n, R, S), m, S) && AllValid(moved, m, S) && AllValid(kept, m, S) && Fits(m, S)
    ensures Regrown(q, n, R, S) in ProofSet(kept, m, S) && Kept(Regrown(q, n, R, S), tops, m, S)
    ensures var b := Moved(Regrown(q, n, R, S), Overwritten(trees, n, m, S), m, S);
            b in ProofSet(moved, m, S) && !Lands(trees, n, m, S, b)
  {
    hide RowOf, OffOf, At, Regrown, AddAll, Moved, Overwritten, Tops, Kept, PopCount, Elements, IsRootPosition, Setting,
      Regrowing, GrownTargets, ProofSet, Valid, AllValid, Lands, Prune, IsNew;
    StillNeeded(targets, kept, n, R, m, S, q);
    RegrowingFacts(trees, n, R, ids, full, gone, grown, m, S, block, tops);
    OldStays(trees, n, R, ids, full, gone, grown, m, S, block, tops, q);
    NeededMoves(grown, m, S, block, tops, gone, kept, moved, Regrown(q, n, R, S));
    OldNotNew(trees, n, R, ids, full, gone, grown, m, S, block, tops, q);
  }

  /** What is needed is new or was needed before. */
  lemma NeededSource(trees: seq<Tree>, n: nat, R: nat, ids: seq<nat>, full: seq<Tree>, gone: set<nat>,
                     grown: seq<Tree>, m: nat, S: nat, block: seq<nat>, tops: seq<nat>,
                     targets: seq<nat>, kept: seq<nat>, moved: seq<nat>, b: nat) returns (q: nat)
    requires Regrowing(trees, n, R, ids, full, gone, grown, m, S, block, tops)
    requires RegrownTargets(targets, n, R, grown, m, S, block, tops, gone, kept, moved) && |trees| == PopCount(n)
    requires Fits(n, R) && Fits(m, S) && AllValid(targets, n, R) && AllValid(moved, m, S) && b in ProofSet(moved, m, S)
    ensures !Lands(trees, n, m, S, b) ==>
              && q in ProofSet(targets, n, R) && Valid(q, n, R) && Valid(Regrown(q, n, R, S), m, S)
              && b == Moved(Regrown(q, n, R, S), Overwritten(trees, n, m, S), m, S)
  {
    hide RowOf, OffOf, At, Regrown, AddAll, Moved, Overwritten, Tops, Kept, PopCount, Elements, IsRootPosition, Setting,
      GrownTargets, ProofSet, Valid, AllValid, Prune, IsNew, HoleAt, FilledGrowth, Deletion, HoleSet;
    var x := NeededFrom(grown, m, S, block, tops, gone, kept, moved, b);
    RegrowingFacts(trees, n, R, ids, full, gone, grown, m, S, block, tops);
    NeededFacts(grown, m, S, block, tops, gone, kept, moved, x);
    KeptSurvives(grown, m, S, block, tops, gone, x);
    StandsThere(trees, n, ids, full, gone, grown, m, S, x);
    MovedOverHoles(trees, n, m, S, block, tops, x);
    q := 0;
    if !IsNew(x, n, m, S) { q := NeededBefore(targets, kept, n, R, m, S, x); }
  }

  // ----- the old proof in the forest afterwards -----

  /** The old proof where the growth takes it: distinct needed positions, none of them new, with their
      hashes; and whatever is needed and not new is among them. */
  lemma ProofRegrown(trees: seq<Tree>, n: nat, R: nat, ids: seq<nat>, full: seq<Tree>, gone: set<nat>,
                     grown: seq<Tree>, m: nat, S: nat, block: seq<nat>, tops: seq<nat>,
                     targets: seq<nat>, kept: seq<nat>, moved: seq<nat>, positions: seq<nat>, olds: seq<Node<Hash>>,
                     nodes: seq<Node<Hash>>)
    requires Regrowing(trees, n, R, ids, full, gone, grown, m, S, block, tops)
    requires RegrownTargets(targets, n, R, grown, m, S, block, tops, gone, kept, moved) && |trees| == PopCount(n)
    requires Sound(trees, n, R) && LeafTargets(trees, n, R, targets) && Fits(m, S) && AllValid(moved, m, S)
    requires AllValid(targets, n, R) && Elements(positions) == ProofSet(targets, n, R) && Ascending(positions)
    requires |olds| == |positions| == |nodes| && Carries(olds, Current(trees, n, R))
    requires forall i :: 0 <= i < |olds| ==> olds[i].0 == positions[i]
    requires forall i :: 0 <= i < |positions| ==>
             Valid(positions[i], n, R) && Valid(Regrown(positions[i], n, R, S), m, S)
    requires forall i :: 0 <= i < |nodes| ==>
               nodes[i] == (Moved(Regrown(positions[i], n, R, S), Overwritten(trees, n, m, S), m, S), olds[i].1)
    ensures |AddAll(trees, n, ids)| == PopCount(m)
    ensures DistinctPositions(nodes) && Carries(nodes, Current(AddAll(trees, n, ids), m, S))
    ensures forall i :: 0 <= i < |nodes| ==> nodes[i].0 in ProofSet(moved, m, S) && !Lands(trees, n, m, S, nodes[i].0)
    ensures forall b :: b in ProofSet(moved, m, S) && !Lands(trees, n, m, S, b) ==> Holds(nodes, b)
  {
    hide RowOf, OffOf, At, Regrown, AddAll, Moved, Overwritten, Tops, Kept, PopCount, IsRootPosition, Setting,
      GrownTargets, ProofSet, Valid, AllValid, Lands, WellFormed, Regrowing, RegrownTargets, Merkle;
    RegrowingFacts(trees, n, R, ids, full, gone, grown, m, S, block, tops);
    forall i | 0 <= i < |nodes|
      ensures nodes[i].0 in ProofSet(moved, m, S) && !Lands(trees, n, m, S, nodes[i].0)
      ensures nodes[i].1 == Current(AddAll(trees, n, ids), m, S)(nodes[i].0)
    {
      OldProofNode(trees, n, R, ids, full, gone, grown, m, S, block, tops, targets, kept, moved, positions, i);
    }
    forall i, j | 0 <= i < j < |nodes| ensures nodes[i].0 != nodes[j].0 {
      OldProofApart(trees, n, R, ids, full, gone, grown, m, S, block, tops, targets, kept, moved, positions, i, j);
    }
    forall b | b in ProofSet(moved, m, S) && !Lands(trees, n, m, S, b) ensures Holds(nodes, b) {
      RegrownAll(targets, n, R, grown, m, S, block, tops, gone, kept, moved);
      var q := NeededSource(trees, n, R, ids, full, gone, grown, m, S, block, tops, targets, kept, moved, b);
      InElements(positions, q);
      var i :| 0 <= i < |positions| && positions[i] == q;
      assert nodes[i].0 == b;
    }
  }

  lemma RegrownAll(targets: seq<nat>, n: nat, R: nat, grown: seq<Tree>, m: nat, S: nat, block: seq<nat>,
                   tops: seq<nat>, gone: set<nat>, kept: seq<nat>, moved: seq<nat>)
    requires RegrownTargets(targets, n, R, grown, m, S, block, tops, gone, kept, moved)
    ensures Grows(n, R, m, S) && AllValid(targets, n, R) && AllValid(kept, m, S) && AllValid(moved, m, S)
    ensures Setting(grown, m, S, block, tops, gone, kept, moved)
  {
    hide Setting, GrownTargets, Valid;
  }

  lemma OldProofNode(trees: seq<Tree>, n: nat, R: nat, ids: seq<nat>, full: seq<Tree>, gone: set<nat>,
                     grown: seq<Tree>, m: nat, S: nat, block: seq<nat>, tops: seq<nat>,
                     targets: seq<nat>, kept: seq<nat>, moved: seq<nat>, positions: seq<nat>, i: nat)
    requires Regrowing(trees, n, R, ids, full, gone, grown, m, S, block, tops)
    requires RegrownTargets(targets, n, R, grown, m, S, block, tops, gone, kept, moved) && |trees| == PopCount(n)
    requires Sound(trees, n, R) && LeafTargets(trees, n, R, targets) && Fits(m, S) && AllValid(moved, m, S)
    requires AllValid(targets, n, R) && Elements(positions) == ProofSet(targets, n, R) && i < |positions|
    requires Valid(positions[i], n, R) && Valid(Regrown(positions[i], n, R, S), m, S)
    ensures |AddAll(trees, n, ids)| == PopCount(m)
    ensures var b := Moved(Regrown(positions[i], n, R, S), Overwritten(trees, n, m, S), m, S);
            && b in ProofSet(moved, m, S) && !Lands(trees, n, m, S, b)
            && Current(AddAll(trees, n, ids), m, S)(b) == Current(trees, n, R)(positions[i])
    ensures AllValid(kept, m, S)
    ensures Regrown(positions[i], n, R, S) in ProofSet(kept, m, S) && Kept(Regrown(positions[i], n, R, S), tops, m, S)
    ensures Moved(Regrown(positions[i], n, R, S), Elements(tops), m, S) ==
            Moved(Regrown(positions[i], n, R, S), Overwritten(trees, n, m, S), m, S)
  {
    hide RowOf, OffOf, At, Regrown, AddAll, Moved, Overwritten, Tops, Kept, PopCount, IsRootPosition, Setting,
      GrownTargets, ProofSet, AllValid, Lands, WellFormed, Regrowing, RegrownTargets, Merkle, LeafTargets;
    ElementsAt(positions, i);
    var q := positions[i];
    RegrowingFacts(trees, n, R, ids, full, gone, grown, m, S, block, tops);
    RegrownAll(targets, n, R, grown, m, S, block, tops, gone, kept, moved);
    ProofSetValid(targets, n, R, q);
    TargetsOccupied(trees, n, R, targets);
    ProofSlotOccupied(trees, n, R, targets, q);
    OldNeeded(trees, n, R, ids, full, gone, grown, m, S, block, tops, targets, kept, moved, q);
    OldStays(trees, n, R, ids, full, gone, grown, m, S, block, tops, q);
  }

  lemma TargetsOccupied(trees: seq<Tree>, n: nat, R: nat, targets: seq<nat>)
    requires LeafTargets(trees, n, R, targets)
    ensures forall i :: 0 <= i < |targets| ==> Valid(targets[i], n, R) && At(trees, n, R, targets[i]) != Nil
  {
    hide At, Valid;
  }

  lemma OldProofApart(trees: seq<Tree>, n: nat, R: nat, ids: seq<nat>, full: seq<Tree>, gone: set<nat>,
                      grown: seq<Tree>, m: nat, S: nat, block: seq<nat>, tops: seq<nat>,
                      targets: seq<nat>, kept: seq<nat>, moved: seq<nat>, positions: seq<nat>, i: nat, j: nat)
    requires Regrowing(trees, n, R, ids, full, gone, grown, m, S, block, tops)
    requires RegrownTargets(targets, n, R, grown, m, S, block, tops, gone, kept, moved) && |trees| == PopCount(n)
    requires Sound(trees, n, R) && LeafTargets(trees, n, R, targets) && Fits(m, S) && AllValid(moved, m, S)
    requires AllValid(targets, n, R) && Elements(positions) == ProofSet(targets, n, R) && Ascending(positions)
    requires i < j < |positions|
    requires forall i :: 0 <= i < |positions| ==>
             Valid(positions[i], n, R) && Valid(Regrown(positions[i], n, R, S), m, S)
    ensures Moved(Regrown(positions[i], n, R, S), Overwritten(trees, n, m, S), m, S) !=
            Moved(Regrown(positions[j], n, R, S), Overwritten(trees, n, m, S), m, S)
  {
    hide RowOf, OffOf, At, Regrown, AddAll, Moved, Overwritten, Tops, Kept, PopCount, IsRootPosition, Setting,
      GrownTargets, ProofSet, AllValid, Lands, WellFormed, Regrowing, RegrownTargets, Merkle, LeafTargets, Valid,
      Elements;
    OldProofNode(trees, n, R, ids, full, gone, grown, m, S, block, tops, targets, kept, moved, positions, i);
    OldProofNode(trees, n, R, ids, full, gone, grown, m, S, block, tops, targets, kept, moved, positions, j);
    RegrownAll(targets, n, R, grown, m, S, block, tops, gone, kept, moved);
    var x, y := Regrown(positions[i], n, R, S), Regrown(positions[j], n, R, S);
    if Moved(x, Overwritten(trees, n, m, S), m, S) == Moved(y, Overwritten(trees, n, m, S), m, S) {
      NeededInjective(grown, m, S, block, tops, gone, kept, moved, x, y);
      RegrownInjective(positions[i], positions[j], n, R, m, S);
    }
  }

  // ----- one written-over root after the other -----

  /** A single slot covers what is below it. */
  lemma SingleCover(p: nat, d: nat, m: nat, S: nat)
    requires Fits(m, S) && Valid(p, m, S) && Valid(d, m, S) && !IsRootPosition(d, m, S)
    ensures AllBelow(p, [d], m, S) <==> d in PathOf(p, m, S)
    ensures IsTop(p, [d], m, S) <==> p == d
  {
    hide RowOf, OffOf, IsRootPosition, Parent, Sibling, Level, PathOf, Valid, AllBelow;
    assert [d][0] == d;
    ListedBelow(d, [d], m, S);
    SingleAbove(d, m, S);
    ParentPath(d, m, S);
    SelfPath(p, m, S);
    if d in PathOf(p, m, S) { BelowCovered(p, d, [d], m, S); }
    if AllBelow(p, [d], m, S) {
      var e := TopAbove(p, [d], m, S);
      var t := TopListed(e, [d], m, S);
      if e != d { BelowCovered(Parent(d, S), e, [d], m, S); }
      if IsTop(p, [d], m, S) { SingleTop(p, d, m, S); }
    }
  }

  lemma SingleTop(p: nat, d: nat, m: nat, S: nat)
    requires Fits(m, S) && IsTop(p, [d], m, S) && Valid(p, m, S) && Valid(d, m, S) && d in PathOf(p, m, S)
    requires AllBelow(d, [d], m, S)
    ensures p == d
  {
    hide RowOf, OffOf, Parent, Sibling, Level, PathOf, Valid, AllBelow;
    if p != d {
      if IsRootPosition(p, m, S) { RootPath(p, m, S); }
      ParentPath(p, m, S);
      BelowCovered(Parent(p, S), d, [d], m, S);
    }
  }

  lemma SingleAbove(d: nat, m: nat, S: nat)
    requires Fits(m, S) && Valid(d, m, S) && !IsRootPosition(d, m, S)
    ensures Valid(Parent(d, S), m, S) && !AllBelow(Parent(d, S), [d], m, S)
  {
    hide RowOf, OffOf, IsRootPosition, Parent, Sibling, Level, PathOf, Valid;
    Climb(d, m, S);
    SiblingInvolution(d);
    ValidRow(Sibling(d), m, S);
    var x := SlotBelow(Sibling(d), RowOf(d, S), m, S);
    PathOfFacts(x, m, S, Sibling(d));
    if AllBelow(Parent(d, S), [d], m, S) {
      assert Covers(Elements([d]), x, m, S);
      PathRows(x, m, S, d, Sibling(d));
    }
  }

  /** For a single slot within the reach of the masks nothing can go wrong. */
  lemma SingleMovable(d: nat, m: nat, S: nat)
    requires Fits(m, S) && Valid(d, m, S) && !IsRootPosition(d, m, S) && MasksReach(d, S)
    ensures Movable([d], m, S) && AllValid([d], m, S) && Apart([d], m, S) && Twins([d], S) == [d] && InOrder([d], m, S)
  {
    hide RowOf, OffOf, IsRootPosition, Parent, Sibling, Level, PathOf, Valid, AllBelow;
    forall p: nat | Valid(p, m, S) && !IsRootPosition(p, m, S) && AllBelow(p, [d], m, S) ensures MasksReach(p, S) {
      SingleCover(p, d, m, S);
      PathOfFacts(p, m, S, d);
    }
    assert [d][1..] == [] && [d] + [] == [d];
    assert Twins([], S) == [];
  }

  /** Nodes of a list and where they go: the hashes are not empty. */
  predicate AllPresent(nodes: seq<Node<Hash>>) {
    forall i :: 0 <= i < |nodes| ==> !nodes[i].1.Empty?
  }

  ghost predicate AsideAll(nodes: seq<Node<Hash>>, ds: seq<nat>, m: nat, S: nat)
    requires Fits(m, S)
  {
    ValidNodes(nodes, m, S) && forall i, k :: 0 <= i < |nodes| && 0 <= k < |ds| ==> ds[k] !in PathOf(nodes[i].0, m, S)
  }

  function MoveNode(dels: set<nat>, m: nat, S: nat): Node<Hash> -> Node<Hash>
    requires Fits(m, S)
  {
    (x: Node<Hash>) => if Valid(x.0, m, S) then (Moved(x.0, dels, m, S), x.1) else x
  }

  lemma MovedNodesMap(nodes: seq<Node<Hash>>, dels: set<nat>, m: nat, S: nat)
    requires Fits(m, S) && ValidNodes(nodes, m, S) && AllPresent(nodes)
    ensures MovedNodes(nodes, dels, m, S, true) == MapSeq(nodes, MoveNode(dels, m, S))
    ensures ValidNodes(MovedNodes(nodes, dels, m, S, true), m, S) && AllPresent(MovedNodes(nodes, dels, m, S, true))
  {
    hide Moved, RowOf, OffOf;
    MovedNodesAt(nodes, dels, m, S);
  }

  lemma PermutedNodes(a: seq<Node<Hash>>, b: seq<Node<Hash>>, m: nat, S: nat)
    requires multiset(a) == multiset(b) && ValidNodes(b, m, S) && AllPresent(b)
    ensures ValidNodes(a, m, S) && AllPresent(a)
  {
    hide Valid;
    forall i | 0 <= i < |a| ensures Valid(a[i].0, m, S) && !a[i].1.Empty? {
      var k := PermutedAt(a, b, i);
    }
  }

  /** One written-over root more. */
  lemma MovedOneMore(nodes: seq<Node<Hash>>, ds: seq<nat>, k: nat, cur: seq<Node<Hash>>, next: seq<Node<Hash>>, m: nat,
                     S: nat)
    requires Fits(m, S) && AllValid(ds, m, S) && RowsRise(ds, S) && k < |ds| && AsideAll(nodes, ds, m, S)
    requires ValidNodes(nodes, m, S) && AllPresent(nodes)
    requires multiset(cur) == multiset(MovedNodes(nodes, Elements(ds[..k]), m, S, true)) && ValidNodes(cur, m, S)
    requires multiset(next) == multiset(MovedNodes(cur, {ds[k]}, m, S, true))
    ensures multiset(next) == multiset(MovedNodes(nodes, Elements(ds[..k + 1]), m, S, true))
  {
    hide Moved, RowOf, OffOf, Valid, PathOf, MovedNodes, MapSeq, AllPresent, ValidNodes, RowsRise, AsideAll, Elements,
      MoveNode;
    var dels, d := Elements(ds[..k]), ds[k];
    var mid := MovedNodes(nodes, dels, m, S, true);
    MovedNodesMap(nodes, dels, m, S);
    PermutedNodes(cur, mid, m, S);
    MovedNodesMap(cur, {d}, m, S);
    MovedNodesMap(mid, {d}, m, S);
    MapPermuted(cur, mid, MoveNode({d}, m, S));
    MovedNodesMap(nodes, Elements(ds[..k + 1]), m, S);
    var all := MovedNodes(nodes, Elements(ds[..k + 1]), m, S, true);
    var twice := MovedNodes(mid, {d}, m, S, true);
    NodesTwice(nodes, ds, k, m, S);
  }

  lemma NodesTwice(nodes: seq<Node<Hash>>, ds: seq<nat>, k: nat, m: nat, S: nat)
    requires Fits(m, S) && AllValid(ds, m, S) && RowsRise(ds, S) && k < |ds| && AsideAll(nodes, ds, m, S)
    requires ValidNodes(nodes, m, S) && AllPresent(nodes)
    ensures ValidNodes(MovedNodes(nodes, Elements(ds[..k]), m, S, true), m, S)
    ensures MovedNodes(MovedNodes(nodes, Elements(ds[..k]), m, S, true), {ds[k]}, m, S, true) ==
            MovedNodes(nodes, Elements(ds[..k + 1]), m, S, true)
    ensures forall i :: 0 <= i < |MovedNodes(nodes, Elements(ds[..k]), m, S, true)| ==>
              Valid(MovedNodes(nodes, Elements(ds[..k]), m, S, true)[i].0, m, S)
              && ds[k] !in PathOf(MovedNodes(nodes, Elements(ds[..k]), m, S, true)[i].0, m, S)
  {
    hide Moved, RowOf, OffOf, Valid, PathOf, MovedNodes, RowsRise, Elements, MapSeq, MoveNode, AllPresent, ValidNodes;
    var dels, d := Elements(ds[..k]), ds[k];
    var mid := MovedNodes(nodes, dels, m, S, true);
    MovedNodesMap(nodes, dels, m, S);
    MovedNodesMap(mid, {d}, m, S);
    MovedNodesIs(nodes, dels, m, S);
    MovedNodesIs(mid, {d}, m, S);
    MovedNodesIs(nodes, Elements(ds[..k + 1]), m, S);
    forall i | 0 <= i < |nodes|
      ensures Valid(mid[i].0, m, S) && d !in PathOf(mid[i].0, m, S)
      ensures MovedNodes(mid, {d}, m, S, true)[i] == MovedNodes(nodes, Elements(ds[..k + 1]), m, S, true)[i]
    {
      NodeTwice(nodes, ds, k, i, m, S);
    }
  }

  lemma MovedNodesIs(nodes: seq<Node<Hash>>, dels: set<nat>, m: nat, S: nat)
    requires Fits(m, S) && ValidNodes(nodes, m, S) && AllPresent(nodes)
    ensures |MovedNodes(nodes, dels, m, S, true)| == |nodes|
    ensures forall i :: 0 <= i < |nodes| ==>
              Valid(nodes[i].0, m, S)
              && MovedNodes(nodes, dels, m, S, true)[i] == (Moved(nodes[i].0, dels, m, S), nodes[i].1)
  {
    hide Moved, Valid, MovedNodes;
    MovedNodesAt(nodes, dels, m, S);
  }

  lemma NodeTwice(nodes: seq<Node<Hash>>, ds: seq<nat>, k: nat, i: nat, m: nat, S: nat)
    requires Fits(m, S) && i < |nodes| && Valid(nodes[i].0, m, S)
    requires AllValid(ds, m, S) && RowsRise(ds, S) && k < |ds| && AsideAll(nodes, ds, m, S)
    ensures var x := Moved(nodes[i].0, Elements(ds[..k]), m, S);
            && Valid(ds[k], m, S) && ds[k] !in PathOf(x, m, S)
            && Moved(x, {ds[k]}, m, S) == Moved(nodes[i].0, Elements(ds[..k + 1]), m, S)
  {
    hide Moved, RowOf, OffOf, Valid, PathOf, RowsRise, ValidNodes, AllValid;
    forall j | 0 <= j < |ds| ensures ds[j] !in PathOf(nodes[i].0, m, S) { }
    MovedPast(nodes[i].0, ds, k, m, S);
  }

  lemma MovedPast(p: nat, ds: seq<nat>, k: nat, m: nat, S: nat)
    requires Fits(m, S) && Valid(p, m, S) && AllValid(ds, m, S) && RowsRise(ds, S) && k < |ds|
    requires forall j :: 0 <= j < |ds| ==> ds[j] !in PathOf(p, m, S)
    ensures Valid(ds[k], m, S) && Valid(Moved(p, Elements(ds[..k]), m, S), m, S)
    ensures ds[k] !in PathOf(Moved(p, Elements(ds[..k]), m, S), m, S)
    ensures Moved(Moved(p, Elements(ds[..k]), m, S), {ds[k]}, m, S) == Moved(p, Elements(ds[..k + 1]), m, S)
  {
    hide Moved, RowOf, OffOf, Valid, PathOf, RowsRise, AllValid, Calm, InPlace, Elements;
    LowerInPlace(ds, k, m, S);
    PrefixStep(ds, k);
    var dels := Elements(ds[..k]);
    forall a | a in PathOf(p, m, S) ensures a !in dels { PathClear(p, ds, k, a, m, S); }
    MovedTwice(p, dels, ds[k], m, S);
  }

  lemma PathClear(p: nat, ds: seq<nat>, k: nat, a: nat, m: nat, S: nat)
    requires Fits(m, S) && Valid(p, m, S) && k <= |ds| && a in PathOf(p, m, S)
    requires forall j :: 0 <= j < |ds| ==> ds[j] !in PathOf(p, m, S)
    ensures a !in Elements(ds[..k])
  {
  }

  lemma PrefixStep(ds: seq<nat>, k: nat)
    requires k < |ds|
    ensures Elements(ds[..k + 1]) == Elements(ds[..k]) + {ds[k]}
  {
    assert ds[..k + 1] == ds[..k] + [ds[k]];
    ElementsAppend(ds[..k], ds[k]);
  }

  /** The loop over `to_destroy`: what has been moved over all written-over roots, one by one, has been
      moved over them at once. */
  method MoveOver(toDestroy: seq<nat>, targets: seq<Node<Hash>>, proofNodes: seq<Node<Hash>>, m: nat)
    returns (r: Result<(seq<Node<Hash>>, seq<Node<Hash>>)>)
    requires m <= MAX_LEAVES && Fits(m, TreeRows(m)) && AllValid(toDestroy, m, TreeRows(m))
    requires RowsRise(toDestroy, TreeRows(m))
    requires forall i :: 0 <= i < |toDestroy| ==>
               !IsRootPosition(toDestroy[i], m, TreeRows(m)) && MasksReach(toDestroy[i], TreeRows(m))
                   && toDestroy[i] < WORD
    requires ValidNodes(targets, m, TreeRows(m)) && AllPresent(targets) && AsideAll(targets, toDestroy, m, TreeRows(m))
    requires ValidNodes(proofNodes, m, TreeRows(m)) && AllPresent(proofNodes)
    requires AsideAll(proofNodes, toDestroy, m, TreeRows(m))
    ensures r.Ok?
    ensures multiset(r.value.0) == multiset(MovedNodes(targets, Elements(toDestroy), m, TreeRows(m), true))
    ensures multiset(r.value.1) == multiset(MovedNodes(proofNodes, Elements(toDestroy), m, TreeRows(m), true))
  {
    hide TreeRows, Moved, RowOf, OffOf, Valid, PathOf, MovedNodes, RowsRise, AsideAll, Elements, IsRootPosition,
      AllBelow, Movable, MasksReach, AllPresent, ValidNodes, Tops, InOrder, Twins, Apart;
    ghost var S := TreeRows(m);
    var finalTargets, withPos := targets, proofNodes;
    NothingMoved(targets, toDestroy, m, S);
    NothingMoved(proofNodes, toDestroy, m, S);
    for k := 0 to |toDestroy|
      invariant ValidNodes(finalTargets, m, S) && ValidNodes(withPos, m, S) && AllPresent(finalTargets)
      invariant AllPresent(withPos)
      invariant multiset(finalTargets) == multiset(MovedNodes(targets, Elements(toDestroy[..k]), m, S, true))
      invariant multiset(withPos) == multiset(MovedNodes(proofNodes, Elements(toDestroy[..k]), m, S, true))
    {
      var node := toDestroy[k];
      assert Valid(node, m, S);
      SingleMovable(node, m, S);
      StillAsideAll(targets, toDestroy, k, finalTargets, m, S);
      StillAsideAll(proofNodes, toDestroy, k, withPos, m, S);
      var a, ds := CalcNextPositions([node], finalTargets, m, true);
      var b, es := CalcNextPositions([node], withPos, m, true);
      SingleTops(node, ds, m, S);
      SingleTops(node, es, m, S);
      MovedOneMore(targets, toDestroy, k, finalTargets, a.value, m, S);
      MovedOneMore(proofNodes, toDestroy, k, withPos, b.value, m, S);
      MovedKeeps(finalTargets, a.value, node, m, S);
      MovedKeeps(withPos, b.value, node, m, S);
      finalTargets, withPos := a.value, b.value;
    }
    assert toDestroy[..|toDestroy|] == toDestroy;
    r := Ok((finalTargets, withPos));
  }

  lemma NothingMoved(nodes: seq<Node<Hash>>, ds: seq<nat>, m: nat, S: nat)
    requires Fits(m, S) && ValidNodes(nodes, m, S) && AllPresent(nodes)
    ensures MovedNodes(nodes, Elements(ds[..0]), m, S, true) == nodes
  {
    hide Moved, Valid, MovedNodes;
    assert ds[..0] == [];
    MovedNodesAt(nodes, Elements([]), m, S);
    forall i | 0 <= i < |nodes| ensures Moved(nodes[i].0, Elements([]), m, S) == nodes[i].0 {
      NoneMoves(nodes[i].0, m, S);
    }
  }

  lemma StillAsideAll(nodes: seq<Node<Hash>>, ds: seq<nat>, k: nat, cur: seq<Node<Hash>>, m: nat, S: nat)
    requires Fits(m, S) && AllValid(ds, m, S) && RowsRise(ds, S) && k < |ds| && AsideAll(nodes, ds, m, S)
    requires !IsRootPosition(ds[k], m, S) && ValidNodes(nodes, m, S) && AllPresent(nodes) && ValidNodes(cur, m, S)
    requires multiset(cur) == multiset(MovedNodes(nodes, Elements(ds[..k]), m, S, true))
    ensures forall i :: 0 <= i < |cur| ==> !AllBelow(cur[i].0, [ds[k]], m, S)
  {
    hide Moved, RowOf, OffOf, Valid, PathOf, MovedNodes, RowsRise, AsideAll, Elements, IsRootPosition, AllBelow,
      AllPresent;
    var mid := MovedNodes(nodes, Elements(ds[..k]), m, S, true);
    NodesTwice(nodes, ds, k, m, S);
    forall i | 0 <= i < |cur| ensures !AllBelow(cur[i].0, [ds[k]], m, S) {
      var j := PermutedAt(cur, mid, i);
      SingleCover(cur[i].0, ds[k], m, S);
    }
  }

  lemma SingleTops(d: nat, ds: seq<nat>, m: nat, S: nat)
    requires Fits(m, S) && Valid(d, m, S) && !IsRootPosition(d, m, S) && Tops([d], ds, m, S)
    ensures Elements(ds) == {d}
  {
    hide Valid, IsRootPosition, IsTop;
    forall p: nat ensures p in Elements(ds) <==> p == d {
      if p in Elements(ds) {
        var i :| 0 <= i < |ds| && ds[i] == p;
        SingleCover(p, d, m, S);
      }
      SingleCover(d, d, m, S);
    }
  }

  lemma MovedKeeps(cur: seq<Node<Hash>>, next: seq<Node<Hash>>, d: nat, m: nat, S: nat)
    requires Fits(m, S) && ValidNodes(cur, m, S) && AllPresent(cur)
    requires multiset(next) == multiset(MovedNodes(cur, {d}, m, S, true))
    ensures ValidNodes(next, m, S) && AllPresent(next)
  {
    hide MovedNodes, ValidNodes, AllPresent;
    MovedNodesMap(cur, {d}, m, S);
    PermutedNodes(next, MovedNodes(cur, {d}, m, S, true), m, S);
  }
}
