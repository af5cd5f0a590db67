/** The proof that is needed after a deletion, in terms of the proof needed before it. */
module ProofMoves {
  import opened Bits
  import opened Positions
  import opened Forest
  import opened ProofPositions
  import opened Slots
  import opened Paths
  import opened ProofEngine
  import opened Moves
  import opened TopSlots
  import opened Survivors

  lemma PathClosed(targets: seq<nat>, a: nat, b: nat, n: nat, rows: nat)
    requires Fits(n, rows) && AllValid(targets, n, rows) && a in Path(targets, n, rows)
    requires Valid(a, n, rows) && b in PathOf(a, n, rows)
    ensures b in Path(targets, n, rows)
  {
    hide Valid, PathOf, Path;
    PathMember(targets, n, rows, a);
    var i :| 0 <= i < |targets| && a in PathOf(targets[i], n, rows);
    PathTrans(targets[i], a, b, n, rows);
    PathMember(targets, n, rows, b);
  }

  /** `kept` are targets that survive, `moved` their new slots in any order. */
  ghost predicate MovedTargets(kept: seq<nat>, moved: seq<nat>, ds: seq<nat>, n: nat, rows: nat)
    requires Fits(n, rows)
  {
    && AllValid(kept, n, rows) && AllValid(moved, n, rows)
    && (forall i :: 0 <= i < |kept| ==> Kept(kept[i], ds, n, rows))
    && (forall i :: 0 <= i < |kept| ==> Moved(kept[i], Elements(ds), n, rows) in moved)
    && (forall i :: 0 <= i < |moved| ==> ComesFrom(moved[i], kept, ds, n, rows))
  }

  /** Some kept target moves to p. */
  ghost predicate ComesFrom(p: nat, kept: seq<nat>, ds: seq<nat>, n: nat, rows: nat)
    requires Fits(n, rows) && AllValid(kept, n, rows)
  {
    exists j :: 0 <= j < |kept| && p == Moved(kept[j], Elements(ds), n, rows)
  }

  lemma MovedTargetAt(kept: seq<nat>, moved: seq<nat>, ds: seq<nat>, n: nat, rows: nat, i: nat) returns (j: nat)
    requires Fits(n, rows) && MovedTargets(kept, moved, ds, n, rows) && i < |kept|
    ensures Valid(kept[i], n, rows) && Kept(kept[i], ds, n, rows)
    ensures j < |moved| && moved[j] == Moved(kept[i], Elements(ds), n, rows)
  {
    hide Valid, Kept;
    assert Valid(kept[i], n, rows);
    var q := Moved(kept[i], Elements(ds), n, rows);
    assert q in moved;
    j :| 0 <= j < |moved| && moved[j] == q;
  }

  lemma MovedTargetFrom(kept: seq<nat>, moved: seq<nat>, ds: seq<nat>, n: nat, rows: nat, i: nat) returns (j: nat)
    requires Fits(n, rows) && MovedTargets(kept, moved, ds, n, rows) && i < |moved|
    ensures Valid(moved[i], n, rows) && j < |kept| && Valid(kept[j], n, rows) && Kept(kept[j], ds, n, rows)
    ensures moved[i] == Moved(kept[j], Elements(ds), n, rows)
  {
    hide Valid, Kept;
    var q := moved[i];
    assert exists j :: 0 <= j < |kept| && q == Moved(kept[j], Elements(ds), n, rows);
    j :| 0 <= j < |kept| && q == Moved(kept[j], Elements(ds), n, rows);
  }

  /** Path nodes of surviving targets survive, and move onto the new paths. */
  lemma PathMoves(kept: seq<nat>, moved: seq<nat>, ds: seq<nat>, n: nat, rows: nat, a: nat)
    requires Fits(n, rows) && MovedTargets(kept, moved, ds, n, rows)
    requires AllValid(kept, n, rows) && AllValid(moved, n, rows) && a in Path(kept, n, rows)
    ensures Valid(a, n, rows) && Kept(a, ds, n, rows)
    ensures Moved(a, Elements(ds), n, rows) in Path(moved, n, rows)
  {
    hide Valid, Moved, Elements, Path, PathOf, MovedTargets;
    PathFacts(kept, n, rows, a);
    PathMember(kept, n, rows, a);
    var i :| 0 <= i < |kept| && a in PathOf(kept[i], n, rows);
    var j := MovedTargetAt(kept, moved, ds, n, rows, i);
    MovedPath(kept[i], a, Elements(ds), n, rows);
    PathMember(moved, n, rows, Moved(a, Elements(ds), n, rows));
    forall d | d in Elements(ds) ensures d !in PathOf(a, n, rows) {
      if d in PathOf(a, n, rows) { PathTrans(kept[i], a, d, n, rows); }
    }
  }

  /** Every node of a new path comes from an old path node that keeps its sibling or is a root. */
  lemma PathFrom(kept: seq<nat>, moved: seq<nat>, ds: seq<nat>, n: nat, rows: nat, b: nat) returns (a: nat)
    requires Fits(n, rows) && MovedTargets(kept, moved, ds, n, rows)
    requires AllValid(kept, n, rows) && AllValid(moved, n, rows) && b in Path(moved, n, rows)
    ensures a in Path(kept, n, rows) && Valid(a, n, rows) && Moved(a, Elements(ds), n, rows) == b
    ensures IsRootPosition(a, n, rows) || Sibling(a) !in Elements(ds)
    ensures exists j :: 0 <= j < |kept| && a in PathOf(kept[j], n, rows)
  {
    hide Valid, Moved, Elements, Path, PathOf, Sibling, IsRootPosition, MovedTargets;
    PathMember(moved, n, rows, b);
    var i :| 0 <= i < |moved| && b in PathOf(moved[i], n, rows);
    var j := MovedTargetFrom(kept, moved, ds, n, rows, i);
    a := MovedPathBack(kept[j], b, Elements(ds), n, rows);
    PathMember(kept, n, rows, a);
  }

  /** The setting of the lemmas below. */
  ghost predicate Setting(trees: seq<Tree>, n: nat, rows: nat, block: seq<nat>, ds: seq<nat>, gone: set<nat>,
                          kept: seq<nat>, moved: seq<nat>)
  {
    && Deletion(trees, n, rows, block, ds, gone)
    && LeafTargets(trees, n, rows, kept)
    && MovedTargets(kept, moved, ds, n, rows)
  }

  lemma SettingFacts(trees: seq<Tree>, n: nat, rows: nat, block: seq<nat>, ds: seq<nat>, gone: set<nat>,
                     kept: seq<nat>, moved: seq<nat>)
    requires Setting(trees, n, rows, block, ds, gone, kept, moved)
    ensures Sound(trees, n, rows) && Fits(n, rows) && |trees| == PopCount(n)
    ensures AllValid(kept, n, rows) && AllValid(moved, n, rows) && MovedTargets(kept, moved, ds, n, rows)
    ensures LeafTargets(trees, n, rows, kept) && Deletion(trees, n, rows, block, ds, gone)
    ensures forall i :: 0 <= i < |kept| ==> At(trees, n, rows, kept[i]) != Nil
  {
    hide Valid, At, WellFormed, Kept, Moved;
  }

  lemma NeededFacts(trees: seq<Tree>, n: nat, rows: nat, block: seq<nat>, ds: seq<nat>, gone: set<nat>,
                    kept: seq<nat>, moved: seq<nat>, q: nat)
    requires Setting(trees, n, rows, block, ds, gone, kept, moved)
    requires Fits(n, rows) && AllValid(kept, n, rows) && q in ProofSet(kept, n, rows)
    ensures Valid(q, n, rows) && |trees| == PopCount(n) && At(trees, n, rows, q) != Nil
    ensures !IsRootPosition(q, n, rows) && q !in Path(kept, n, rows)
    ensures Sibling(q) in Path(kept, n, rows) && Parent(q, rows) in Path(kept, n, rows)
  {
    hide Valid, IsRootPosition, Sibling, Parent, ProofSet, Path, Setting, At, WellFormed, Deletion, LeafTargets;
    SettingFacts(trees, n, rows, block, ds, gone, kept, moved);
    ProofSetValid(kept, n, rows, q);
    ProofSlotOccupied(trees, n, rows, kept, q);
  }

  /** A surviving node off the old paths does not move onto the new paths. */
  lemma MovedOff(trees: seq<Tree>, n: nat, rows: nat, block: seq<nat>, ds: seq<nat>, gone: set<nat>,
                 kept: seq<nat>, moved: seq<nat>, q: nat)
    requires Setting(trees, n, rows, block, ds, gone, kept, moved)
    requires Fits(n, rows) && AllValid(kept, n, rows) && AllValid(moved, n, rows)
    requires Valid(q, n, rows) && |trees| == PopCount(n) && At(trees, n, rows, q) != Nil
    requires Kept(q, ds, n, rows) && q !in Path(kept, n, rows)
    ensures Moved(q, Elements(ds), n, rows) !in Path(moved, n, rows)
  {
    hide Valid, Sibling, Parent, Path, PathOf, Setting, At, WellFormed, Deletion, LeafTargets, Moved, Kept,
      MovedTargets, IsRootPosition, PruneAll;
    SettingFacts(trees, n, rows, block, ds, gone, kept, moved);
    var b := Moved(q, Elements(ds), n, rows);
    if b in Path(moved, n, rows) {
      var a := PathFrom(kept, moved, ds, n, rows, b);
      PathMoves(kept, moved, ds, n, rows, a);
      var j :| 0 <= j < |kept| && a in PathOf(kept[j], n, rows);
      var id := KeptLeaf(trees, n, rows, block, ds, gone, kept, moved, j);
      IdsAbove(trees, n, rows, kept[j], a, id);
      MovedAt(trees, n, rows, block, ds, gone, a);
      MovedAt(trees, n, rows, block, ds, gone, q);
      SharedSurvivor(At(trees, n, rows, a), At(trees, n, rows, q), gone, id);
      OffPath(trees, n, rows, kept, q, j);
    }
  }

  lemma KeptLeaf(trees: seq<Tree>, n: nat, rows: nat, block: seq<nat>, ds: seq<nat>, gone: set<nat>,
                 kept: seq<nat>, moved: seq<nat>, j: nat) returns (id: nat)
    requires Setting(trees, n, rows, block, ds, gone, kept, moved) && j < |kept|
    ensures LeafTargets(trees, n, rows, kept) && TargetIds(trees, n, rows, kept)[j] == id && id !in gone
    ensures Valid(kept[j], n, rows) && At(trees, n, rows, kept[j]) == Tip(id)
  {
    hide Valid, At, WellFormed, Deletion, Moved, Kept;
    SettingFacts(trees, n, rows, block, ds, gone, kept, moved);
    id := TargetIds(trees, n, rows, kept)[j];
    KeptSurvives(trees, n, rows, block, ds, gone, kept[j]);
  }

  lemma SharedSurvivor(t: Tree, s: Tree, gone: set<nat>, id: nat)
    requires Prune(t, gone) == Prune(s, gone) && id in Ids(t) && id !in gone
    ensures id in Ids(s)
  {
    PruneIds(t, gone);
    PruneIds(s, gone);
    assert Ids(Prune(t, gone))[id] == Ids(t)[id];
    assert Ids(Prune(s, gone))[id] == Ids(s)[id];
  }

  /** What the surviving targets need after the deletion is what they needed before, moved, without
      the subtrees that are gone. */
  lemma NeededMoves(trees: seq<Tree>, n: nat, rows: nat, block: seq<nat>, ds: seq<nat>, gone: set<nat>,
                    kept: seq<nat>, moved: seq<nat>, q: nat)
    requires Setting(trees, n, rows, block, ds, gone, kept, moved)
    requires Fits(n, rows) && AllValid(kept, n, rows) && AllValid(moved, n, rows)
    requires q in ProofSet(kept, n, rows) && Valid(q, n, rows) && Kept(q, ds, n, rows)
    ensures Moved(q, Elements(ds), n, rows) in ProofSet(moved, n, rows)
  {
    hide Valid, Sibling, Parent, Path, PathOf, Setting, At, Moved, MovedTargets, IsRootPosition, ProofSet, Kept, RowOf,
      OffOf, Level;
    SettingFacts(trees, n, rows, block, ds, gone, kept, moved);
    NeededFacts(trees, n, rows, block, ds, gone, kept, moved, q);
    var p := Sibling(q);
    SiblingInvolution(q);
    Climb(q, n, rows);
    PathMoves(kept, moved, ds, n, rows, p);
    KeptUp(p, ds, n, rows);
    KeptUp(q, ds, n, rows);
    MovedSiblings(p, Elements(ds), n, rows);
    MovedOff(trees, n, rows, block, ds, gone, kept, moved, q);
    var b := Moved(q, Elements(ds), n, rows);
    SiblingInvolution(Moved(p, Elements(ds), n, rows));
    ProofSetMember(moved, n, rows, b);
  }

  lemma NeededFrom(trees: seq<Tree>, n: nat, rows: nat, block: seq<nat>, ds: seq<nat>, gone: set<nat>,
                   kept: seq<nat>, moved: seq<nat>, b: nat) returns (q: nat)
    requires Setting(trees, n, rows, block, ds, gone, kept, moved)
    requires Fits(n, rows) && AllValid(kept, n, rows) && AllValid(moved, n, rows) && b in ProofSet(moved, n, rows)
    ensures q in ProofSet(kept, n, rows) && Valid(q, n, rows) && Kept(q, ds, n, rows)
    ensures Moved(q, Elements(ds), n, rows) == b
  {
    hide Valid, Sibling, Parent, Path, PathOf, Setting, At, Moved, MovedTargets, IsRootPosition, ProofSet, Kept, RowOf,
      OffOf, Level;
    SettingFacts(trees, n, rows, block, ds, gone, kept, moved);
    ProofSetMember(moved, n, rows, b);
    SiblingInvolution(b);
    var a := PathFrom(kept, moved, ds, n, rows, Sibling(b));
    PathMoves(kept, moved, ds, n, rows, a);
    if IsRootPosition(a, n, rows) { MovedRoot(a, Elements(ds), n, rows); }
    KeptUp(a, ds, n, rows);
    KeptSibling(a, ds, n, rows);
    MovedSiblings(a, Elements(ds), n, rows);
    q := Sibling(a);
    SiblingInvolution(a);
    if q in Path(kept, n, rows) { PathMoves(kept, moved, ds, n, rows, q); }
    ProofSetMember(kept, n, rows, q);
  }

  /** No two needed nodes move to one slot. */
  lemma NeededInjective(trees: seq<Tree>, n: nat, rows: nat, block: seq<nat>, ds: seq<nat>, gone: set<nat>,
                        kept: seq<nat>, moved: seq<nat>, q: nat, r: nat)
    requires Setting(trees, n, rows, block, ds, gone, kept, moved)
    requires Fits(n, rows) && AllValid(kept, n, rows)
    requires q in ProofSet(kept, n, rows) && Valid(q, n, rows) && Kept(q, ds, n, rows)
    requires r in ProofSet(kept, n, rows) && Valid(r, n, rows) && Kept(r, ds, n, rows)
    requires Moved(q, Elements(ds), n, rows) == Moved(r, Elements(ds), n, rows)
    ensures q == r
  {
    hide Valid, Sibling, Parent, Path, PathOf, Setting, At, Moved, MovedTargets, IsRootPosition, ProofSet, Kept, RowOf,
      WellFormed, Deletion, PruneAll;
    SettingFacts(trees, n, rows, block, ds, gone, kept, moved);
    NeededFacts(trees, n, rows, block, ds, gone, kept, moved, q);
    NeededFacts(trees, n, rows, block, ds, gone, kept, moved, r);
    MovedAt(trees, n, rows, block, ds, gone, q);
    MovedAt(trees, n, rows, block, ds, gone, r);
    KeptSurvives(trees, n, rows, block, ds, gone, q);
    AtProper(trees, n, rows, q);
    var id := PrunedLeaf(At(trees, n, rows, q), gone);
    SharedSurvivor(At(trees, n, rows, q), At(trees, n, rows, r), gone, id);
    if q != r {
      if RowOf(q, rows) <= RowOf(r, rows) {
        Comparable(trees, n, rows, q, r, id);
        NotAbove(kept, n, rows, q, r);
      } else {
        Comparable(trees, n, rows, r, q, id);
        NotAbove(kept, n, rows, r, q);
      }
    }
  }

  lemma NotAbove(kept: seq<nat>, n: nat, rows: nat, q: nat, r: nat)
    requires Fits(n, rows) && AllValid(kept, n, rows) && Valid(q, n, rows) && !IsRootPosition(q, n, rows)
    requires Parent(q, rows) in Path(kept, n, rows) && r in PathOf(q, n, rows) && q != r
    ensures r in Path(kept, n, rows)
  {
    hide Valid, Sibling, Parent, Path, PathOf, IsRootPosition;
    ParentPath(q, n, rows);
    PathClosed(kept, Parent(q, rows), r, n, rows);
  }

  /** Surviving targets keep their leaves, at distinct slots. */
  lemma MovedLeafTargets(trees: seq<Tree>, n: nat, rows: nat, block: seq<nat>, ds: seq<nat>, gone: set<nat>,
                         kept: seq<nat>, moved: seq<nat>, j: nat)
    requires Setting(trees, n, rows, block, ds, gone, kept, moved) && j < |kept|
    ensures Sound(PruneAll(trees, gone), n, rows) && Valid(kept[j], n, rows) && LeafTargets(trees, n, rows, kept)
    ensures At(PruneAll(trees, gone), n, rows, Moved(kept[j], Elements(ds), n, rows)) ==
            Tip(TargetIds(trees, n, rows, kept)[j])
    ensures TargetIds(trees, n, rows, kept)[j] !in gone
  {
    hide Valid, At, WellFormed, Deletion, Moved, Kept, PruneAll, LeafTargets;
    SettingFacts(trees, n, rows, block, ds, gone, kept, moved);
    PrunedSound(trees, n, rows, gone);
    var id := KeptLeaf(trees, n, rows, block, ds, gone, kept, moved, j);
    MovedAt(trees, n, rows, block, ds, gone, kept[j]);
  }
}
