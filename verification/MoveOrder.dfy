/** In which order `calc_next_positions` (src/proof/mod.rs) has to go through the deleted subtrees. */
module MoveOrders {
  import opened Bits
  import opened Positions
  import opened Digits
  import opened ProofPositions
  import opened Slots
  import opened Walks
  import opened Paths
  import opened Moves
  import opened Detwins
  import opened TopSlots

  /** The tree of d is covered as a whole. */
  ghost predicate Dead(d: nat, ds: seq<nat>, n: nat, rows: nat)
    requires Fits(n, rows) && Valid(d, n, rows)
  {
    exists r :: r in PathOf(d, n, rows) && IsRootPosition(r, n, rows) && AllBelow(r, ds, n, rows)
  }

  /** No subtree is followed by one that lies in its sibling, except in trees that are deleted as a
      whole. */
  ghost predicate InOrder(ds: seq<nat>, n: nat, rows: nat)
    requires Fits(n, rows)
  {
    && AllValid(ds, n, rows)
    && forall i, j :: 0 <= i < j < |ds| && Sibling(ds[i]) in PathOf(ds[j], n, rows) ==> Dead(ds[i], ds, n, rows)
  }

  // ----- dead trees -----

  lemma {:induction false} RootOn(p: nat, n: nat, rows: nat) returns (r: nat)
    requires Fits(n, rows) && Valid(p, n, rows)
    ensures Valid(r, n, rows) && IsRootPosition(r, n, rows) && r in PathOf(p, n, rows)
    decreases Level(p, n, rows)
  {
    hide RowOf, OffOf, IsRootPosition, Parent, Valid, Level, Sibling, PathOf;
    Climb(p, n, rows);
    SelfPath(p, n, rows);
    if IsRootPosition(p, n, rows) {
      r := p;
    } else {
      ParentPath(p, n, rows);
      r := RootOn(Parent(p, rows), n, rows);
    }
  }

  /** A path has one root, at its end. */
  lemma RootLast(p: nat, r: nat, a: nat, n: nat, rows: nat)
    requires Fits(n, rows) && Valid(p, n, rows) && r in PathOf(p, n, rows) && a in PathOf(p, n, rows)
    requires IsRootPosition(r, n, rows)
    ensures Valid(a, n, rows) && Valid(r, n, rows) && r in PathOf(a, n, rows)
    ensures IsRootPosition(a, n, rows) ==> a == r
  {
    hide RowOf, IsRootPosition, Valid, PathOf;
    PathOfFacts(p, n, rows, a);
    PathOfFacts(p, n, rows, r);
    SelfPath(a, n, rows);
    RootPath(r, n, rows);
    if RowOf(a, rows) <= RowOf(r, rows) {
      PathBoth(p, n, rows, a, r);
      if IsRootPosition(a, n, rows) { RootPath(a, n, rows); }
    } else {
      PathBoth(p, n, rows, r, a);
    }
  }

  lemma DeadAlong(p: nat, a: nat, ds: seq<nat>, n: nat, rows: nat)
    requires Fits(n, rows) && Valid(p, n, rows) && a in PathOf(p, n, rows)
    ensures Valid(a, n, rows) && (Dead(a, ds, n, rows) <==> Dead(p, ds, n, rows))
  {
    hide RowOf, IsRootPosition, Valid, PathOf, AllBelow;
    PathOfFacts(p, n, rows, a);
    if Dead(p, ds, n, rows) {
      var r :| r in PathOf(p, n, rows) && IsRootPosition(r, n, rows) && AllBelow(r, ds, n, rows);
      RootLast(p, r, a, n, rows);
    }
    if Dead(a, ds, n, rows) {
      var r :| r in PathOf(a, n, rows) && IsRootPosition(r, n, rows) && AllBelow(r, ds, n, rows);
      PathTrans(p, a, r, n, rows);
    }
  }

  lemma DeadBelow(p: nat, ds: seq<nat>, n: nat, rows: nat)
    requires Fits(n, rows) && Valid(p, n, rows) && Dead(p, ds, n, rows)
    ensures AllBelow(p, ds, n, rows)
  {
    hide RowOf, IsRootPosition, Valid, PathOf, AllBelow;
    var r :| r in PathOf(p, n, rows) && IsRootPosition(r, n, rows) && AllBelow(r, ds, n, rows);
    BelowCovered(p, r, ds, n, rows);
  }

  // ----- in order, the list holds the largest covered subtrees -----

  /** A covered slot of another tree has a listed slot on its path. */
  lemma {:induction false} Listed(q: nat, ds: seq<nat>, n: nat, rows: nat) returns (d: nat)
    requires Fits(n, rows) && InOrder(ds, n, rows)
    requires Valid(q, n, rows) && AllBelow(q, ds, n, rows) && !Dead(q, ds, n, rows)
    ensures d in Elements(ds) && d in PathOf(q, n, rows)
    decreases RowOf(q, rows)
  {
    hide Valid, IsRootPosition, Parent, PathOf, RowOf, OffOf, LeftChild, Sibling, AllBelow, Dead, InOrder;
    if RowOf(q, rows) == 0 {
      d := ListedBottom(q, ds, n, rows);
    } else {
      Descend(q, n, rows);
      var l, r := LeftChild(q, rows), RightChild(q, rows);
      AllBelowChild(q, l, ds, n, rows);
      AllBelowChild(q, r, ds, n, rows);
      ParentPath(l, n, rows);
      ParentPath(r, n, rows);
      SelfPath(q, n, rows);
      DeadAlong(l, q, ds, n, rows);
      DeadAlong(r, q, ds, n, rows);
      d := Listed(l, ds, n, rows);
      if d == l {
        d := Listed(r, ds, n, rows);
        if d == r {
          PairEncode(l, n, rows);
          SiblingInvolution(l);
          NoTwins(l, ds, n, rows);
        }
      }
    }
  }

  lemma ListedBottom(q: nat, ds: seq<nat>, n: nat, rows: nat) returns (d: nat)
    requires Fits(n, rows) && Valid(q, n, rows) && AllBelow(q, ds, n, rows) && RowOf(q, rows) == 0
    ensures d in Elements(ds) && d in PathOf(q, n, rows)
  {
    hide Valid, PathOf, RowOf;
    SelfPath(q, n, rows);
    assert Covers(Elements(ds), q, n, rows);
    d :| d in Elements(ds) && d in PathOf(q, n, rows);
  }

  lemma NoTwins(l: nat, ds: seq<nat>, n: nat, rows: nat)
    requires Fits(n, rows) && InOrder(ds, n, rows) && Valid(l, n, rows) && Valid(Sibling(l), n, rows)
    requires !Dead(l, ds, n, rows) && !Dead(Sibling(l), ds, n, rows)
    requires l in Elements(ds)
    ensures Sibling(l) !in Elements(ds)
  {
    hide Valid, PathOf, RowOf, Sibling, Dead;
    SiblingInvolution(l);
    SelfPath(l, n, rows);
    SelfPath(Sibling(l), n, rows);
    var i :| 0 <= i < |ds| && ds[i] == l;
    forall j | 0 <= j < |ds| ensures ds[j] != Sibling(l) { }
  }

  lemma ApartElements(ds: seq<nat>, n: nat, rows: nat, a: nat, b: nat)
    requires Fits(n, rows) && AllValid(ds, n, rows) && Apart(ds, n, rows) && a in Elements(ds) && b in Elements(ds)
    ensures Valid(a, n, rows) && (b in PathOf(a, n, rows) ==> a == b)
  {
    hide Valid, PathOf;
    var i :| 0 <= i < |ds| && ds[i] == a;
    var j :| 0 <= j < |ds| && ds[j] == b;
  }

  lemma ListedIsTop(d: nat, ds: seq<nat>, n: nat, rows: nat)
    requires Fits(n, rows) && InOrder(ds, n, rows) && AllValid(ds, n, rows) && Apart(ds, n, rows)
    requires d in Elements(ds) && Valid(d, n, rows) && !Dead(d, ds, n, rows)
    ensures IsTop(d, ds, n, rows) && !IsRootPosition(d, n, rows)
  {
    hide Valid, PathOf, RowOf, OffOf, Level, Sibling, Dead, AllBelow, IsRootPosition, Parent, InOrder, Apart;
    ListedBelow(d, ds, n, rows);
    SelfPath(d, n, rows);
    if IsRootPosition(d, n, rows) {
      RootDead(d, ds, n, rows);
    } else if AllBelow(Parent(d, rows), ds, n, rows) {
      ParentPath(d, n, rows);
      Climb(d, n, rows);
      SelfPath(Parent(d, rows), n, rows);
      DeadAlong(d, Parent(d, rows), ds, n, rows);
      var e := Listed(Parent(d, rows), ds, n, rows);
      ApartElements(ds, n, rows, d, e);
      PathOfFacts(Parent(d, rows), n, rows, e);
    }
  }

  lemma RootDead(d: nat, ds: seq<nat>, n: nat, rows: nat)
    requires Fits(n, rows) && Valid(d, n, rows) && IsRootPosition(d, n, rows) && AllBelow(d, ds, n, rows)
    ensures Dead(d, ds, n, rows)
  {
    hide Valid, PathOf, AllBelow, IsRootPosition;
    SelfPath(d, n, rows);
  }

  lemma TopAlive(e: nat, ds: seq<nat>, n: nat, rows: nat)
    requires Fits(n, rows) && IsTop(e, ds, n, rows) && !IsRootPosition(e, n, rows)
    ensures Valid(e, n, rows) && !Dead(e, ds, n, rows)
  {
    hide Valid, PathOf, RowOf, AllBelow, IsRootPosition, Parent;
    ParentPath(e, n, rows);
    SelfPath(Parent(e, rows), n, rows);
    if Dead(e, ds, n, rows) {
      DeadAlong(e, Parent(e, rows), ds, n, rows);
      DeadBelow(Parent(e, rows), ds, n, rows);
    }
  }

  lemma TopIsListed(e: nat, ds: seq<nat>, n: nat, rows: nat)
    requires Fits(n, rows) && InOrder(ds, n, rows) && IsTop(e, ds, n, rows) && !IsRootPosition(e, n, rows)
    ensures e in Elements(ds)
  {
    hide Valid, PathOf, RowOf, Dead, AllBelow, IsRootPosition, Parent, InOrder;
    TopAlive(e, ds, n, rows);
    var d := Listed(e, ds, n, rows);
    if d != e {
      ParentPath(e, n, rows);
      ListedBelow(d, ds, n, rows);
      BelowCovered(Parent(e, rows), d, ds, n, rows);
    }
  }

  // ----- the fold -----

  /** The listed slots of the trees that are not deleted as a whole. */
  ghost function Alive(part: seq<nat>, ds: seq<nat>, n: nat, rows: nat): set<nat>
    requires Fits(n, rows)
  {
    set d | d in Elements(part) && Valid(d, n, rows) && !Dead(d, ds, n, rows)
  }

  /** In its turn every subtree is still in its place. */
  lemma AliveInPlace(ds: seq<nat>, k: nat, n: nat, rows: nat)
    requires Fits(n, rows) && AllValid(ds, n, rows) && InOrder(ds, n, rows) && Apart(ds, n, rows) && k < |ds|
    requires Valid(ds[k], n, rows)
    ensures InPlace(ds[k], Alive(ds[..k], ds, n, rows), n, rows)
  {
    hide Valid, PathOf, RowOf, OffOf, Level, Sibling, Dead, IsRootPosition, Parent;
    var d, alive := ds[k], Alive(ds[..k], ds, n, rows);
    Climb(d, n, rows);
    forall x | x in alive ensures x !in PathOf(d, n, rows) && Sibling(x) !in PathOf(d, n, rows) {
      var i :| 0 <= i < k && ds[..k][i] == x;
      assert ds[i] == x;
    }
    forall a | a in PathOf(d, n, rows) ensures Sibling(a) !in alive { SiblingInvolution(a); }
    if !IsRootPosition(d, n, rows) { ParentPath(d, n, rows); }
  }

  lemma {:induction false} AbovePath(hi: nat, x: nat, n: nat, rows: nat)
    requires Fits(n, rows) && Valid(hi, n, rows) && Valid(x, n, rows) && Above(hi, x, rows)
    ensures hi in PathOf(x, n, rows)
    decreases Level(x, n, rows)
  {
    hide RowOf, OffOf, Shr, IsRootPosition, Parent, Sibling, Level, PathOf;
    Climb(x, n, rows);
    if IsRootPosition(x, n, rows) {
      RootIsTop(n, RowOf(x, rows), OffOf(x, rows), RowOf(hi, rows) - RowOf(x, rows));
    } else {
      ParentPath(x, n, rows);
      Halve(OffOf(x, rows));
      if RowOf(hi, rows) == RowOf(x, rows) + 1 {
        Order(hi, Parent(x, rows), n, rows);
        SelfPath(hi, n, rows);
      } else {
        ShrCompose(OffOf(x, rows), 1, RowOf(hi, rows) - RowOf(x, rows) - 1);
        AbovePath(hi, Parent(x, rows), n, rows);
      }
    }
  }

  /** A step in a tree that is deleted as a whole moves nothing that stays. */
  lemma DeadStep(p: nat, dels: set<nat>, d: nat, ds: seq<nat>, n: nat, rows: nat)
    requires Fits(n, rows) && Valid(p, n, rows) && Valid(d, n, rows)
    requires !AllBelow(p, ds, n, rows) && Dead(d, ds, n, rows)
    ensures MoveStep(Moved(p, dels, n, rows), d, n, rows) == Moved(p, dels, n, rows)
  {
    hide RowOf, OffOf, Shr, IsRootPosition, Parent, Sibling, Level, PathOf, AllBelow, Above, Valid, Moved, Dead, Encode,
      DropDigit;
    var x := Moved(p, dels, n, rows);
    if !IsRootPosition(d, n, rows) && Above(Parent(d, rows), x, rows) {
      ParentPath(d, n, rows);
      SelfPath(Parent(d, rows), n, rows);
      DeadAlong(d, Parent(d, rows), ds, n, rows);
      AbovePath(Parent(d, rows), x, n, rows);
      DeadAlong(x, Parent(d, rows), ds, n, rows);
      var r := RootOn(p, n, rows);
      MovedPath(p, r, dels, n, rows);
      MovedRoot(r, dels, n, rows);
      DeadAlong(x, r, ds, n, rows);
      DeadAlong(p, r, ds, n, rows);
      DeadBelow(p, ds, n, rows);
    }
  }

  lemma AliveNext(ds: seq<nat>, k: nat, n: nat, rows: nat)
    requires Fits(n, rows) && AllValid(ds, n, rows) && k < |ds| && Valid(ds[k], n, rows)
    ensures Alive(ds[..k + 1], ds, n, rows) ==
            Alive(ds[..k], ds, n, rows) + if Dead(ds[k], ds, n, rows) then {} else {ds[k]}
  {
    hide Valid, Dead;
    assert ds[..k + 1] == ds[..k] + [ds[k]];
    ElementsAppend(ds[..k], ds[k]);
  }

  /** Folding `calc_next_pos` over subtrees in order sends every node that stays to its slot. */
  lemma {:induction false} MoveAllMoved(p: nat, ds: seq<nat>, k: nat, n: nat, rows: nat)
    requires Fits(n, rows) && Valid(p, n, rows) && AllValid(ds, n, rows) && InOrder(ds, n, rows) && Apart(ds, n, rows)
    requires !AllBelow(p, ds, n, rows) && k <= |ds|
    ensures MoveAll(p, ds[..k], n, rows) == Moved(p, Alive(ds[..k], ds, n, rows), n, rows)
    decreases k
  {
    hide Valid, PathOf, RowOf, Sibling, Dead, IsRootPosition, Parent, InOrder, Apart, Moved, MoveStep, AllBelow,
      InPlace;
    if k == 0 {
      assert Alive([], ds, n, rows) == {};
      CalmStays(p, {}, n, rows);
    } else {
      var d := ds[k - 1];
      assert ds[..k][..k - 1] == ds[..k - 1];
      MoveAllMoved(p, ds, k - 1, n, rows);
      AliveNext(ds, k - 1, n, rows);
      ElementsAt(ds, k - 1);
      var alive := Alive(ds[..k - 1], ds, n, rows);
      if Dead(d, ds, n, rows) {
        assert alive + {} == alive;
        DeadStep(p, alive, d, ds, n, rows);
      } else {
        ListedBelow(d, ds, n, rows);
        if d in PathOf(p, n, rows) { BelowCovered(p, d, ds, n, rows); }
        AliveInPlace(ds, k - 1, n, rows);
        MovedStep(p, alive, d, n, rows);
      }
    }
  }

  lemma {:induction false} MovedAgree(p: nat, a: set<nat>, b: set<nat>, n: nat, rows: nat)
    requires Fits(n, rows) && Valid(p, n, rows)
    requires forall q :: q in PathOf(p, n, rows) && !IsRootPosition(q, n, rows) ==>
             (Sibling(q) in a <==> Sibling(q) in b)
    ensures Moved(p, a, n, rows) == Moved(p, b, n, rows)
    decreases Level(p, n, rows)
  {
    hide RowOf, OffOf, IsRootPosition, Parent, LeftChild, Valid, Level, Sibling, Moved, PathOf;
    if IsRootPosition(p, n, rows) {
      MovedRoot(p, a, n, rows);
      MovedRoot(p, b, n, rows);
    } else {
      Climb(p, n, rows);
      SelfPath(p, n, rows);
      ParentPath(p, n, rows);
      MovedUp(p, a, n, rows);
      MovedUp(p, b, n, rows);
      MovedAgree(Parent(p, rows), a, b, n, rows);
    }
  }

  /** In order the moves are right. */
  lemma OrderMoves(p: nat, ds: seq<nat>, tops: seq<nat>, n: nat, rows: nat)
    requires Fits(n, rows) && AllValid(ds, n, rows) && Apart(ds, n, rows) && Tops(ds, tops, n, rows)
    requires InOrder(ds, n, rows) && Valid(p, n, rows) && Kept(p, tops, n, rows)
    ensures MoveAll(p, ds, n, rows) == Moved(p, Elements(tops), n, rows)
  {
    hide RowOf, OffOf, IsRootPosition, Parent, Valid, Level, Sibling, Moved, PathOf, Apart, InOrder, Kept, Dead,
      MoveAll, IsTop;
    KeptUncovered(p, ds, tops, n, rows);
    MoveAllMoved(p, ds, |ds|, n, rows);
    assert ds[..|ds|] == ds;
    var alive := Alive(ds, ds, n, rows);
    forall q | q in PathOf(p, n, rows) && !IsRootPosition(q, n, rows)
      ensures Sibling(q) in alive <==> Sibling(q) in Elements(tops)
    {
      PathOfFacts(p, n, rows, q);
      Climb(q, n, rows);
      AliveIsTop(Sibling(q), ds, n, rows);
    }
    MovedAgree(p, alive, Elements(tops), n, rows);
  }

  lemma AliveIsTop(e: nat, ds: seq<nat>, n: nat, rows: nat)
    requires Fits(n, rows) && AllValid(ds, n, rows) && Apart(ds, n, rows) && InOrder(ds, n, rows)
    requires Valid(e, n, rows) && !IsRootPosition(e, n, rows)
    ensures e in Alive(ds, ds, n, rows) <==> IsTop(e, ds, n, rows)
  {
    hide IsRootPosition, Valid, PathOf, Apart, InOrder, Dead, IsTop;
    if e in Alive(ds, ds, n, rows) { ListedIsTop(e, ds, n, rows); }
    if IsTop(e, ds, n, rows) {
      TopIsListed(e, ds, n, rows);
      TopAlive(e, ds, n, rows);
    }
  }

  // ----- any list of slots, step by step -----

  /** A step keeps a child and its parent apart, unless it deletes a child of that parent. */
  lemma {:induction false} StepUp(x: nat, d: nat, n: nat, rows: nat)
    requires Fits(n, rows) && Valid(x, n, rows) && Valid(d, n, rows)
    ensures var x' := MoveStep(x, d, n, rows);
            Valid(x', n, rows) && (x' == x || RowOf(x', rows) == RowOf(x, rows) + 1)
    ensures !IsRootPosition(x, n, rows) ==>
              var x', y, y' := MoveStep(x, d, n, rows), Parent(x, rows), MoveStep(Parent(x, rows), d, n, rows);
              if !IsRootPosition(d, n, rows) && Parent(d, rows) == y then x' == y == y'
              else !IsRootPosition(x', n, rows) && Parent(x', rows) == y'
    decreases Level(x, n, rows)
  {
    hide RowOf, OffOf, IsRootPosition, Parent, LeftChild, Valid, Level, Sibling, MoveStep, PathOf;
    Climb(x, n, rows);
    if IsRootPosition(x, n, rows) {
      RootStep(x, d, n, rows);
    } else {
      var y := Parent(x, rows);
      StepUp(y, d, n, rows);
      if !IsRootPosition(d, n, rows) && Parent(d, rows) == y {
        StepBeside(x, d, n, rows);
      } else {
        ChildIs(x, n, rows);
        var y' := MoveStep(y, d, n, rows);
        StepChild(y, x % 2, d, n, rows, y');
        ChildCoords(y', x % 2, n, rows);
      }
      StepRow(x, d, n, rows);
    }
  }

  lemma StepRow(x: nat, d: nat, n: nat, rows: nat)
    requires Fits(n, rows) && Valid(x, n, rows) && Valid(d, n, rows) && Valid(MoveStep(x, d, n, rows), n, rows)
    ensures var x' := MoveStep(x, d, n, rows); x' == x || RowOf(x', rows) == RowOf(x, rows) + 1
  {
    hide RowOf, OffOf, IsRootPosition, Parent, Level, Sibling, Encode, Above, DropDigit;
    if !IsRootPosition(d, n, rows) && Above(Parent(d, rows), x, rows) {
      AboveRows(x, d, n, rows);
      Climb(d, n, rows);
      Decode(x, n, rows);
      Decode(Parent(d, rows), n, rows);
      DropDigitBound(OffOf(x, rows), RowOf(d, rows) - RowOf(x, rows), rows - RowOf(x, rows) - 1);
      RowOfEncode(RowOf(x, rows) + 1, DropDigit(OffOf(x, rows), RowOf(d, rows) - RowOf(x, rows)), rows);
    }
  }

  lemma FoldNext(x: nat, ds: seq<nat>, k: nat, n: nat, rows: nat)
    requires rows < 62 && k < |ds|
    ensures MoveAll(x, ds[..k + 1], n, rows) == MoveStep(MoveAll(x, ds[..k], n, rows), ds[k], n, rows)
  {
    hide MoveStep;
    assert ds[..k + 1][..k] == ds[..k];
  }

  lemma {:induction false} FoldValid(x: nat, ds: seq<nat>, k: nat, n: nat, rows: nat)
    requires Fits(n, rows) && Valid(x, n, rows) && AllValid(ds, n, rows) && k <= |ds|
    ensures Valid(MoveAll(x, ds[..k], n, rows), n, rows)
    decreases k
  {
    hide Valid, MoveStep, MoveAll, RowOf, IsRootPosition, Parent;
    if k == 0 {
      FoldStart(x, ds[..0], n, rows);
    } else {
      FoldValid(x, ds, k - 1, n, rows);
      FoldNext(x, ds, k - 1, n, rows);
      StepUp(MoveAll(x, ds[..k - 1], n, rows), ds[k - 1], n, rows);
    }
  }

  /** Positions only rise. */
  lemma {:induction false} FoldRises(x: nat, ds: seq<nat>, i: nat, k: nat, n: nat, rows: nat)
    requires Fits(n, rows) && Valid(x, n, rows) && AllValid(ds, n, rows) && i <= k <= |ds|
    ensures var a, b := MoveAll(x, ds[..i], n, rows), MoveAll(x, ds[..k], n, rows);
            && Valid(a, n, rows) && Valid(b, n, rows) && RowOf(a, rows) <= RowOf(b, rows)
            && (RowOf(a, rows) == RowOf(b, rows) ==> a == b)
    decreases k
  {
    hide RowOf, Valid, MoveStep, MoveAll, IsRootPosition, Parent;
    FoldValid(x, ds, k, n, rows);
    if i < k {
      FoldRises(x, ds, i, k - 1, n, rows);
      FoldNext(x, ds, k - 1, n, rows);
      StepUp(MoveAll(x, ds[..k - 1], n, rows), ds[k - 1], n, rows);
    }
  }

  lemma FoldStart(x: nat, ds: seq<nat>, n: nat, rows: nat)
    requires rows < 62 && ds == []
    ensures MoveAll(x, ds, n, rows) == x
  {
  }

  /** A node and its parent stay neighbours until they meet, by the deletion of a child of the
      parent. */
  lemma {:induction false} FoldPair(x: nat, ds: seq<nat>, k: nat, n: nat, rows: nat)
    requires Fits(n, rows) && Valid(x, n, rows) && AllValid(ds, n, rows) && k <= |ds| && !IsRootPosition(x, n, rows)
    ensures Valid(Parent(x, rows), n, rows)
    ensures var a, b := MoveAll(x, ds[..k], n, rows), MoveAll(Parent(x, rows), ds[..k], n, rows);
            && Valid(a, n, rows) && Valid(b, n, rows)
            && if a == b then
                 exists j: nat :: j < k && Valid(ds[j], n, rows) && !IsRootPosition(ds[j], n, rows)
                                  && Parent(ds[j], rows) == MoveAll(Parent(x, rows), ds[..j], n, rows)
               else !IsRootPosition(a, n, rows) && Parent(a, rows) == b
    decreases k
  {
    hide RowOf, OffOf, IsRootPosition, Parent, Valid, Level, Sibling, MoveStep, MoveAll;
    Climb(x, n, rows);
    if k == 0 {
      FoldStart(x, ds[..0], n, rows);
      FoldStart(Parent(x, rows), ds[..0], n, rows);
    } else {
      FoldPair(x, ds, k - 1, n, rows);
      FoldNext(x, ds, k - 1, n, rows);
      FoldNext(Parent(x, rows), ds, k - 1, n, rows);
      var a, b := MoveAll(x, ds[..k - 1], n, rows), MoveAll(Parent(x, rows), ds[..k - 1], n, rows);
      assert Valid(ds[k - 1], n, rows);
      StepUp(a, ds[k - 1], n, rows);
      StepUp(b, ds[k - 1], n, rows);
      if a != b {
        Climb(MoveStep(a, ds[k - 1], n, rows), n, rows);
      }
    }
  }

  lemma {:induction false} FoldPath(x: nat, a: nat, ds: seq<nat>, k: nat, n: nat, rows: nat)
    requires Fits(n, rows) && Valid(x, n, rows) && AllValid(ds, n, rows) && k <= |ds| && a in PathOf(x, n, rows)
    ensures Valid(MoveAll(x, ds[..k], n, rows), n, rows)
    ensures MoveAll(a, ds[..k], n, rows) in PathOf(MoveAll(x, ds[..k], n, rows), n, rows)
    decreases Level(x, n, rows)
  {
    hide RowOf, OffOf, IsRootPosition, Parent, Valid, Level, Sibling, MoveStep, MoveAll, PathOf;
    FoldValid(x, ds, k, n, rows);
    var y := MoveAll(x, ds[..k], n, rows);
    SelfPath(y, n, rows);
    if a != x {
      Climb(x, n, rows);
      if IsRootPosition(x, n, rows) { RootPath(x, n, rows); }
      ParentPath(x, n, rows);
      FoldPath(Parent(x, rows), a, ds, k, n, rows);
      FoldPair(x, ds, k, n, rows);
      if y != MoveAll(Parent(x, rows), ds[..k], n, rows) { ParentPath(y, n, rows); }
    }
  }

  // ----- only in order -----

  /** Every node that stays ends up where it belongs. */
  ghost predicate MovesHome(ds: seq<nat>, tops: seq<nat>, n: nat, rows: nat)
    requires Fits(n, rows)
  {
    forall p: nat :: Valid(p, n, rows) && Kept(p, tops, n, rows) ==>
      MoveAll(p, ds, n, rows) == Moved(p, Elements(tops), n, rows)
  }

  /** e has its turn while its parent is where it was. */
  ghost predicate OnTime(e: nat, ds: seq<nat>, n: nat, rows: nat)
    requires Fits(n, rows)
  {
    exists k: nat :: k < |ds| && ds[k] == e && MoveAll(Parent(e, rows), ds[..k], n, rows) == Parent(e, rows)
  }

  /** Nodes that meet after the deletion are above one another. */
  lemma MeetAbove(y: nat, z: nat, dels: set<nat>, n: nat, rows: nat)
    requires Fits(n, rows) && Valid(y, n, rows) && Valid(z, n, rows)
    requires Moved(y, dels, n, rows) == Moved(z, dels, n, rows)
    requires forall a :: a in PathOf(y, n, rows) || a in PathOf(z, n, rows) ==> a !in dels
    ensures y in PathOf(z, n, rows) || z in PathOf(y, n, rows)
  {
    hide RowOf, OffOf, IsRootPosition, Parent, Valid, Level, Sibling, Moved, PathOf;
    if y !in PathOf(z, n, rows) && z !in PathOf(y, n, rows) {
      var s := Departure(y, z, n, rows);
      var q := Moved(y, dels, n, rows);
      MovedPath(y, s, dels, n, rows);
      Climb(s, n, rows);
      if IsRootPosition(s, n, rows) {
        var r := RootOn(z, n, rows);
        MovedPath(z, r, dels, n, rows);
        MovedRoot(r, dels, n, rows);
        MovedRoot(s, dels, n, rows);
        RootLast(q, r, s, n, rows);
      } else {
        PathOfFacts(y, n, rows, s);
        var t := Sibling(s);
        MovedPath(z, t, dels, n, rows);
        MovedSiblings(s, dels, n, rows);
        Climb(Moved(s, dels, n, rows), n, rows);
        SiblingInvolution(Moved(s, dels, n, rows));
        PathRows(q, n, rows, Moved(s, dels, n, rows), Moved(t, dels, n, rows));
      }
    }
  }

  lemma KeptNotDeleted(p: nat, ds: seq<nat>, tops: seq<nat>, n: nat, rows: nat)
    requires Fits(n, rows) && Valid(p, n, rows) && Tops(ds, tops, n, rows) && !AllBelow(p, ds, n, rows)
    ensures Kept(p, tops, n, rows)
    ensures forall a :: a in PathOf(p, n, rows) ==> a !in Elements(tops)
  {
    hide Valid, PathOf, AllBelow, Tops;
    KeptUncovered(p, ds, tops, n, rows);
  }

  /** Where a top's parent and sibling meet: at the parent, or at a later place of the parent. */
  lemma TopMeets(e: nat, ds: seq<nat>, tops: seq<nat>, n: nat, rows: nat) returns (j: nat)
    requires Fits(n, rows) && AllValid(ds, n, rows) && Tops(ds, tops, n, rows) && MovesHome(ds, tops, n, rows)
    requires IsTop(e, ds, n, rows) && !IsRootPosition(e, n, rows)
    ensures Valid(Parent(e, rows), n, rows) && !AllBelow(Parent(e, rows), ds, n, rows)
    ensures Valid(Sibling(e), n, rows) && !AllBelow(Sibling(e), ds, n, rows)
    ensures j < |ds| && Valid(ds[j], n, rows) && !IsRootPosition(ds[j], n, rows)
    ensures Parent(ds[j], rows) == MoveAll(Parent(e, rows), ds[..j], n, rows)
  {
    hide RowOf, OffOf, IsRootPosition, Parent, Valid, Level, Sibling, Moved, PathOf, AllBelow, Kept, MoveAll;
    Climb(e, n, rows);
    var x, y := Sibling(e), Parent(e, rows);
    SiblingInvolution(e);
    if AllBelow(x, ds, n, rows) { BothBelow(ds, n, rows, e); }
    KeptNotDeleted(x, ds, tops, n, rows);
    KeptNotDeleted(y, ds, tops, n, rows);
    MovedUp(x, Elements(tops), n, rows);
    FoldPair(x, ds, |ds|, n, rows);
    assert ds[..|ds|] == ds;
    j :| j < |ds| && Valid(ds[j], n, rows) && !IsRootPosition(ds[j], n, rows)
         && Parent(ds[j], rows) == MoveAll(Parent(x, rows), ds[..j], n, rows);
  }

  /** If all moves are right, every top has its turn on time: from the highest row down. */
  lemma {:induction false} AllOnTime(e: nat, ds: seq<nat>, tops: seq<nat>, n: nat, rows: nat)
    requires Fits(n, rows) && AllValid(ds, n, rows) && Apart(ds, n, rows) && Tops(ds, tops, n, rows)
    requires MovesHome(ds, tops, n, rows) && IsTop(e, ds, n, rows) && !IsRootPosition(e, n, rows)
    requires RowOf(e, rows) <= rows
    ensures OnTime(e, ds, n, rows)
    decreases rows - RowOf(e, rows)
  {
    hide RowOf, OffOf, IsRootPosition, Parent, Valid, Level, Sibling, Moved, PathOf, AllBelow, Kept, MoveAll, IsTop,
      Tops, MovesHome, OnTime, Apart;
    var j := TopMeets(e, ds, tops, n, rows);
    var f, y := ds[j], Parent(e, rows);
    TopFacts(e, ds, n, rows);
    Climb(e, n, rows);
    Climb(f, n, rows);
    ElementsAt(ds, j);
    ListedBelow(f, ds, n, rows);
    FoldRises(y, ds, 0, j, n, rows);
    FoldStart(y, ds[..0], n, rows);
    if Parent(f, rows) == y {
      SameParent(e, f, n, rows);
      MakeOnTime(e, ds, j, n, rows);
    } else {
      var g := TopAbove(f, ds, n, rows);
      PathOfFacts(f, n, rows, g);
      ValidRow(g, n, rows);
      SameTreeTop(y, f, g, ds, j, n, rows);
      AllOnTime(g, ds, tops, n, rows);
      LaterTurn(y, f, g, ds, tops, j, n, rows);
    }
  }

  lemma MakeOnTime(e: nat, ds: seq<nat>, k: nat, n: nat, rows: nat)
    requires Fits(n, rows) && k < |ds| && ds[k] == e
    requires MoveAll(Parent(e, rows), ds[..k], n, rows) == Parent(e, rows)
    ensures OnTime(e, ds, n, rows)
  {
    hide MoveAll, Parent;
  }

  lemma TopFacts(e: nat, ds: seq<nat>, n: nat, rows: nat)
    requires Fits(n, rows) && IsTop(e, ds, n, rows) && !IsRootPosition(e, n, rows)
    ensures Valid(e, n, rows) && AllBelow(e, ds, n, rows) && !AllBelow(Parent(e, rows), ds, n, rows)
  {
  }

  /** The top over a subtree deleted where y has come to is no root: y stays. */
  lemma SameTreeTop(y: nat, f: nat, g: nat, ds: seq<nat>, j: nat, n: nat, rows: nat)
    requires Fits(n, rows) && AllValid(ds, n, rows) && Valid(y, n, rows) && !AllBelow(y, ds, n, rows)
    requires j <= |ds| && Valid(f, n, rows) && !IsRootPosition(f, n, rows)
    requires Parent(f, rows) == MoveAll(y, ds[..j], n, rows)
    requires IsTop(g, ds, n, rows) && g in PathOf(f, n, rows)
    ensures !IsRootPosition(g, n, rows)
  {
    hide RowOf, OffOf, IsRootPosition, Parent, Valid, Level, Sibling, PathOf, AllBelow, MoveAll;
    if IsRootPosition(g, n, rows) {
      var r := RootOn(y, n, rows);
      FoldPath(y, r, ds, j, n, rows);
      FoldRoot(r, ds, j, n, rows);
      ParentPath(f, n, rows);
      RootLast(f, g, r, n, rows);
      BelowCovered(y, g, ds, n, rows);
    }
  }

  lemma {:induction false} FoldRoot(r: nat, ds: seq<nat>, k: nat, n: nat, rows: nat)
    requires Fits(n, rows) && Valid(r, n, rows) && IsRootPosition(r, n, rows) && AllValid(ds, n, rows) && k <= |ds|
    ensures MoveAll(r, ds[..k], n, rows) == r
    decreases k
  {
    hide RowOf, IsRootPosition, Valid, MoveStep, MoveAll;
    if k == 0 {
      FoldStart(r, ds[..0], n, rows);
    } else {
      FoldRoot(r, ds, k - 1, n, rows);
      FoldNext(r, ds, k - 1, n, rows);
      RootStep(r, ds[k - 1], n, rows);
    }
  }

  /** A node that comes to the parent of a top on time meets it there for good, but it has the
      sibling of that top to pass, and no turn is left for it. */
  lemma LaterTurn(y: nat, f: nat, g: nat, ds: seq<nat>, tops: seq<nat>, j: nat, n: nat, rows: nat)
    requires Fits(n, rows) && AllValid(ds, n, rows) && Apart(ds, n, rows) && Tops(ds, tops, n, rows)
    requires MovesHome(ds, tops, n, rows)
    requires Valid(y, n, rows) && !AllBelow(y, ds, n, rows)
    requires j < |ds| && f == ds[j] && Valid(f, n, rows) && !IsRootPosition(f, n, rows)
    requires Parent(f, rows) == MoveAll(y, ds[..j], n, rows)
    requires IsTop(g, ds, n, rows) && g in PathOf(f, n, rows) && OnTime(g, ds, n, rows)
    ensures Parent(f, rows) == y
  {
    hide RowOf, OffOf, IsRootPosition, Parent, Valid, Level, Sibling, PathOf, AllBelow, MoveAll, Moved, MovesHome, Tops,
      Apart, IsTop;
    var k: nat :| k < |ds| && ds[k] == g && MoveAll(Parent(g, rows), ds[..k], n, rows) == Parent(g, rows);
    ElementsAt(ds, j);
    ElementsAt(ds, k);
    ApartElements(ds, n, rows, f, g);
    ApartIndex(ds, j, k, n, rows);
    Climb(f, n, rows);
    var z := Parent(f, rows);
    TopFacts(f, ds, n, rows);
    Together(y, z, ds, tops, j, n, rows);
    FoldRises(y, ds, 0, j, n, rows);
    FoldStart(y, ds[..0], n, rows);
    if y in PathOf(z, n, rows) {
      PathOfFacts(z, n, rows, y);
    } else {
      NoTurn(y, f, z, ds, j, n, rows);
    }
  }

  lemma NoTurn(y: nat, f: nat, z: nat, ds: seq<nat>, j: nat, n: nat, rows: nat)
    requires Fits(n, rows) && AllValid(ds, n, rows) && Apart(ds, n, rows)
    requires j < |ds| && f == ds[j] && Valid(f, n, rows) && !IsRootPosition(f, n, rows) && z == Parent(f, rows)
    requires Valid(z, n, rows) && !AllBelow(z, ds, n, rows) && AllBelow(f, ds, n, rows)
    requires Valid(y, n, rows) && !AllBelow(y, ds, n, rows) && z in PathOf(y, n, rows)
    requires MoveAll(y, ds[..j], n, rows) == MoveAll(z, ds[..j], n, rows) == z
    ensures z == y
  {
    hide RowOf, OffOf, IsRootPosition, Parent, Valid, Level, Sibling, PathOf, AllBelow, MoveAll, Apart;
    if z != y {
      Climb(f, n, rows);
      var v := Sibling(f);
      SiblingInvolution(f);
      if AllBelow(v, ds, n, rows) { BothBelow(ds, n, rows, f); }
      var c := PathChild(y, n, rows, z);
      SameParent(f, c, n, rows);
      if c == f { BelowCovered(y, f, ds, n, rows); }
      FoldPath(y, v, ds, j, n, rows);
      ParentPath(v, n, rows);
      SelfPath(z, n, rows);
      FoldPath(v, z, ds, j, n, rows);
      PathAntisym(MoveAll(v, ds[..j], n, rows), z, n, rows);
      FoldPair(v, ds, j, n, rows);
      var i: nat :| i < j && Valid(ds[i], n, rows) && !IsRootPosition(ds[i], n, rows)
                    && Parent(ds[i], rows) == MoveAll(z, ds[..i], n, rows);
      FoldRises(z, ds, i, j, n, rows);
      FoldRises(z, ds, 0, i, n, rows);
      FoldStart(z, ds[..0], n, rows);
      SameParent(f, ds[i], n, rows);
      ElementsAt(ds, i);
      ListedBelow(ds[i], ds, n, rows);
      ApartIndex(ds, i, j, n, rows);
    }
  }

  lemma ApartIndex(ds: seq<nat>, i: nat, j: nat, n: nat, rows: nat)
    requires Fits(n, rows) && AllValid(ds, n, rows) && Apart(ds, n, rows) && i < |ds| && j < |ds| && ds[i] == ds[j]
    ensures i == j
  {
    hide Valid, PathOf;
    SelfPath(ds[i], n, rows);
  }

  /** Two nodes at one place at one time stay together. */
  lemma Together(y: nat, z: nat, ds: seq<nat>, tops: seq<nat>, j: nat, n: nat, rows: nat)
    requires Fits(n, rows) && AllValid(ds, n, rows) && Tops(ds, tops, n, rows) && MovesHome(ds, tops, n, rows)
    requires Valid(y, n, rows) && !AllBelow(y, ds, n, rows) && Valid(z, n, rows) && !AllBelow(z, ds, n, rows)
    requires j <= |ds| && MoveAll(y, ds[..j], n, rows) == MoveAll(z, ds[..j], n, rows)
    ensures y in PathOf(z, n, rows) || z in PathOf(y, n, rows)
  {
    hide RowOf, Valid, PathOf, AllBelow, MoveAll, Moved, Tops, Kept;
    KeptNotDeleted(y, ds, tops, n, rows);
    KeptNotDeleted(z, ds, tops, n, rows);
    SameEnd(y, z, ds, j, |ds|, n, rows);
    assert ds[..|ds|] == ds;
    MeetAbove(y, z, Elements(tops), n, rows);
  }

  lemma {:induction false} SameEnd(y: nat, z: nat, ds: seq<nat>, j: nat, k: nat, n: nat, rows: nat)
    requires rows < 62 && j <= k <= |ds| && MoveAll(y, ds[..j], n, rows) == MoveAll(z, ds[..j], n, rows)
    ensures MoveAll(y, ds[..k], n, rows) == MoveAll(z, ds[..k], n, rows)
    decreases k
  {
    hide MoveAll, MoveStep;
    if j < k {
      SameEnd(y, z, ds, j, k - 1, n, rows);
      FoldNext(y, ds, k - 1, n, rows);
      FoldNext(z, ds, k - 1, n, rows);
    }
  }

  /** A listed slot of a tree that is not deleted as a whole is a top. */
  lemma AliveTop(d: nat, ds: seq<nat>, tops: seq<nat>, n: nat, rows: nat)
    requires Fits(n, rows) && AllValid(ds, n, rows) && Apart(ds, n, rows) && Tops(ds, tops, n, rows)
    requires MovesHome(ds, tops, n, rows) && d in Elements(ds) && Valid(d, n, rows) && !Dead(d, ds, n, rows)
    ensures IsTop(d, ds, n, rows) && !IsRootPosition(d, n, rows) && OnTime(d, ds, n, rows)
  {
    hide RowOf, IsRootPosition, Parent, Valid, PathOf, AllBelow, IsTop, Tops, MovesHome, Apart, Dead, MoveAll;
    ListedBelow(d, ds, n, rows);
    var g := TopAbove(d, ds, n, rows);
    PathOfFacts(d, n, rows, g);
    DeadAlong(d, g, ds, n, rows);
    if IsRootPosition(g, n, rows) {
      TopCovered(g, ds, n, rows);
      RootDead(g, ds, n, rows);
    }
    ValidRow(g, n, rows);
    AllOnTime(g, ds, tops, n, rows);
    var k: nat :| k < |ds| && ds[k] == g && MoveAll(Parent(g, rows), ds[..k], n, rows) == Parent(g, rows);
    ElementsAt(ds, k);
    ApartElements(ds, n, rows, d, g);
  }

  lemma TopCovered(g: nat, ds: seq<nat>, n: nat, rows: nat)
    requires Fits(n, rows) && IsTop(g, ds, n, rows)
    ensures Valid(g, n, rows) && AllBelow(g, ds, n, rows)
  {
  }

  lemma OrderNeeded(ds: seq<nat>, tops: seq<nat>, n: nat, rows: nat)
    requires Fits(n, rows) && AllValid(ds, n, rows) && Apart(ds, n, rows) && Tops(ds, tops, n, rows)
    requires MovesHome(ds, tops, n, rows)
    ensures InOrder(ds, n, rows)
  {
    hide RowOf, Valid, PathOf, Sibling, Dead, MovesHome, Tops, Apart;
    forall i, j | 0 <= i < j < |ds| && Sibling(ds[i]) in PathOf(ds[j], n, rows) ensures Dead(ds[i], ds, n, rows) {
      TooLate(ds, tops, i, j, n, rows);
    }
  }

  /** A subtree that lies in the sibling of an earlier one misses its turn. */
  lemma TooLate(ds: seq<nat>, tops: seq<nat>, i: nat, j: nat, n: nat, rows: nat)
    requires Fits(n, rows) && AllValid(ds, n, rows) && Apart(ds, n, rows) && Tops(ds, tops, n, rows)
    requires MovesHome(ds, tops, n, rows) && i < j < |ds| && Valid(ds[i], n, rows) && Valid(ds[j], n, rows)
    requires Sibling(ds[i]) in PathOf(ds[j], n, rows)
    ensures Dead(ds[i], ds, n, rows)
  {
    hide RowOf, OffOf, IsRootPosition, Parent, Valid, Level, Sibling, PathOf, AllBelow, IsTop, Tops, MovesHome, Apart,
      Dead, MoveAll, Above;
    var d, e := ds[i], ds[j];
    ElementsAt(ds, i);
    ElementsAt(ds, j);
    if !Dead(d, ds, n, rows) {
      AliveTop(d, ds, tops, n, rows);
      Climb(d, n, rows);
      ParentPath(d, n, rows);
      ParentPath(Sibling(d), n, rows);
      SelfPath(Parent(d, rows), n, rows);
      PathOfFacts(e, n, rows, Sibling(d));
      DeadAlong(d, Parent(d, rows), ds, n, rows);
      DeadAlong(Sibling(d), Parent(d, rows), ds, n, rows);
      DeadAlong(e, Sibling(d), ds, n, rows);
      AliveTop(e, ds, tops, n, rows);
      TopFacts(d, ds, n, rows);
      TopFacts(e, ds, n, rows);
      if e == Sibling(d) { BothBelow(ds, n, rows, d); }
      Climb(e, n, rows);
      ParentPath(e, n, rows);
      BelowMoves(Parent(e, rows), d, n, rows);
      StillThere(e, ds, i, j, n, rows);
    }
  }

  /** Until the turn of e no earlier step moves its parent. */
  lemma StillThere(e: nat, ds: seq<nat>, i: nat, j: nat, n: nat, rows: nat)
    requires Fits(n, rows) && AllValid(ds, n, rows) && Apart(ds, n, rows) && i < j < |ds| && ds[j] == e
    requires OnTime(e, ds, n, rows) && Valid(Parent(e, rows), n, rows)
    ensures MoveStep(Parent(e, rows), ds[i], n, rows) == Parent(e, rows)
  {
    hide RowOf, IsRootPosition, Parent, Valid, PathOf, Apart, MoveAll, MoveStep;
    var k: nat :| k < |ds| && ds[k] == e && MoveAll(Parent(e, rows), ds[..k], n, rows) == Parent(e, rows);
    ApartIndex(ds, j, k, n, rows);
    var p := Parent(e, rows);
    FoldStart(p, ds[..0], n, rows);
    FoldRises(p, ds, 0, i, n, rows);
    FoldRises(p, ds, i, j, n, rows);
    FoldRises(p, ds, 0, i + 1, n, rows);
    FoldRises(p, ds, i + 1, j, n, rows);
    FoldNext(p, ds, i, n, rows);
  }

  /** What lies below the sibling of a deleted node moves. */
  lemma {:induction false} BelowMoves(p: nat, d: nat, n: nat, rows: nat)
    requires Fits(n, rows) && Valid(p, n, rows) && Valid(d, n, rows) && !IsRootPosition(d, n, rows)
    requires Sibling(d) in PathOf(p, n, rows)
    ensures MoveStep(p, d, n, rows) != p
    decreases Level(p, n, rows)
  {
    hide RowOf, OffOf, IsRootPosition, Parent, Valid, Level, Sibling, PathOf, MoveStep;
    Climb(d, n, rows);
    PathOfFacts(p, n, rows, Sibling(d));
    Climb(p, n, rows);
    StepUp(p, d, n, rows);
    if p == Sibling(d) {
      StepBeside(p, d, n, rows);
    } else {
      if IsRootPosition(p, n, rows) { RootPath(p, n, rows); }
      ParentPath(p, n, rows);
      BelowMoves(Parent(p, rows), d, n, rows);
    }
  }

  /** For any list of slots none of which is above another: all moves are right exactly if the list is
      in order. */
  lemma OrderExact(ds: seq<nat>, tops: seq<nat>, n: nat, rows: nat)
    requires Fits(n, rows) && AllValid(ds, n, rows) && Apart(ds, n, rows) && Tops(ds, tops, n, rows)
    ensures MovesHome(ds, tops, n, rows) <==> InOrder(ds, n, rows)
  {
    hide Valid, Apart, Tops, InOrder, Kept, Moved, MoveAll;
    if MovesHome(ds, tops, n, rows) { OrderNeeded(ds, tops, n, rows); }
    if InOrder(ds, n, rows) {
      forall p: nat | Valid(p, n, rows) && Kept(p, tops, n, rows)
        ensures MoveAll(p, ds, n, rows) == Moved(p, Elements(tops), n, rows)
      {
        OrderMoves(p, ds, tops, n, rows);
      }
    }
  }

  /** Of a list without siblings beyond which it goes on, `detwin` makes one in order. */
  lemma TwinsLastInOrder(nodes: seq<nat>, n: nat, rows: nat)
    requires Fits(n, rows) && TwinsLast(nodes, n, rows)
    ensures InOrder(Twins(nodes, rows), n, rows)
  {
    hide Valid, RowOf, OffOf, IsRootPosition, Parent, Sibling, Level, PathOf, Dead, TwinsLast, Twins;
    TwinsLastSorted(nodes, n, rows);
    var ds := Twins(nodes, rows);
    forall i, j | 0 <= i < j < |ds| ensures Sibling(ds[i]) !in PathOf(ds[j], n, rows) {
      NotBeside(ds, i, j, n, rows);
    }
  }

  lemma NotBeside(ds: seq<nat>, i: nat, j: nat, n: nat, rows: nat)
    requires Fits(n, rows) && AllValid(ds, n, rows) && Ascending(ds) && Twinless(Elements(ds), Elements(ds), n, rows)
    requires i < j < |ds|
    ensures Valid(ds[j], n, rows) && Sibling(ds[i]) !in PathOf(ds[j], n, rows)
  {
    hide Valid, RowOf, OffOf, IsRootPosition, Parent, Sibling, Level, PathOf;
    ElementsAt(ds, i);
    ElementsAt(ds, j);
    if Sibling(ds[i]) in PathOf(ds[j], n, rows) {
      PathOfFacts(ds[j], n, rows, Sibling(ds[i]));
      RootAlone(ds[i], n, rows);
      Climb(ds[i], n, rows);
      Order(ds[i], ds[j], n, rows);
    }
  }

  // ----- one after the other -----

  lemma MovedOnce(x: nat, d: nat, n: nat, rows: nat)
    requires Fits(n, rows) && Valid(x, n, rows) && Valid(d, n, rows) && d !in PathOf(x, n, rows)
    ensures Moved(x, {d}, n, rows) == MoveStep(x, d, n, rows)
  {
    hide Valid, RowOf, OffOf, IsRootPosition, Parent, Sibling, Level, PathOf, Moved, MoveStep;
    Climb(d, n, rows);
    CalmStays(x, {}, n, rows);
    MovedStep(x, {}, d, n, rows);
    assert {} + {d} == {d};
  }

  /** A node that is not below d does not get there. */
  lemma StillAside(p: nat, dels: set<nat>, d: nat, n: nat, rows: nat)
    requires Fits(n, rows) && Valid(p, n, rows) && Valid(d, n, rows) && d !in PathOf(p, n, rows)
    requires forall a :: a in PathOf(p, n, rows) || a in PathOf(d, n, rows) ==> a !in dels
    requires Calm(d, dels, n, rows)
    ensures d !in PathOf(Moved(p, dels, n, rows), n, rows)
  {
    hide Valid, RowOf, OffOf, IsRootPosition, Parent, Sibling, Level, PathOf, Moved;
    if d in PathOf(Moved(p, dels, n, rows), n, rows) {
      var a := MovedPathBack(p, d, dels, n, rows);
      CalmStays(d, dels, n, rows);
      forall x | x in PathOf(a, n, rows) ensures x in PathOf(p, n, rows) { PathTrans(p, a, x, n, rows); }
      MeetAbove(a, d, dels, n, rows);
      if a in PathOf(d, n, rows) {
        forall x | x in PathOf(a, n, rows) ensures x in PathOf(d, n, rows) { PathTrans(d, a, x, n, rows); }
        CalmStays(a, dels, n, rows);
      }
    }
  }

  /** Deleting d after `dels`, on its own, is deleting both. */
  lemma MovedTwice(p: nat, dels: set<nat>, d: nat, n: nat, rows: nat)
    requires Fits(n, rows) && Valid(p, n, rows) && Valid(d, n, rows) && d !in PathOf(p, n, rows)
    requires forall a :: a in PathOf(p, n, rows) || a in PathOf(d, n, rows) ==> a !in dels
    requires Calm(d, dels, n, rows)
    ensures d !in PathOf(Moved(p, dels, n, rows), n, rows)
    ensures Moved(Moved(p, dels, n, rows), {d}, n, rows) == Moved(p, dels + {d}, n, rows)
  {
    hide Valid, RowOf, OffOf, IsRootPosition, Parent, Sibling, Level, PathOf, Moved, MoveStep;
    StillAside(p, dels, d, n, rows);
    MovedOnce(Moved(p, dels, n, rows), d, n, rows);
    Climb(d, n, rows);
    if !IsRootPosition(d, n, rows) { ParentPath(d, n, rows); }
    MovedStep(p, dels, d, n, rows);
  }
}
