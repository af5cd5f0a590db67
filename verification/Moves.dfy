/** Where a node goes when other nodes are deleted: the fold of `calc_next_pos` over the deleted
    nodes, and the slot it computes. */
module Moves {
  import opened Bits
  import opened Positions
  import opened Digits
  import opened ProofPositions
  import opened Slots
  import opened Walks
  import opened Paths

  /** The slot that the node at p has when the nodes in `dels` are gone: wherever the sibling of a
      node on its root path is deleted, the path is one row shorter. */
  function Moved(p: nat, dels: set<nat>, n: nat, rows: nat): (q: nat)
    requires Fits(n, rows) && Valid(p, n, rows)
    ensures Valid(q, n, rows) && RowOf(q, rows) >= RowOf(p, rows)
    decreases Level(p, n, rows)
  {
    Rises(p, n, rows);
    if IsRootPosition(p, n, rows) then p
    else
      var up := Moved(Parent(p, rows), dels, n, rows);
      Falls(p, up, n, rows);
      if Sibling(p) in dels then up else LeftChild(up, rows) + p % 2
  }

  lemma Rises(p: nat, n: nat, rows: nat)
    requires Fits(n, rows) && Valid(p, n, rows)
    ensures !IsRootPosition(p, n, rows) ==>
              Valid(Parent(p, rows), n, rows) && Level(Parent(p, rows), n, rows) < Level(p, n, rows)
  {
    hide RowOf, OffOf, IsRootPosition, Parent, Level, Sibling, Valid;
    Climb(p, n, rows);
  }

  lemma Falls(p: nat, up: nat, n: nat, rows: nat)
    requires Fits(n, rows) && Valid(p, n, rows) && !IsRootPosition(p, n, rows)
    requires Valid(up, n, rows) && RowOf(up, rows) >= RowOf(Parent(p, rows), rows)
    ensures RowOf(up, rows) >= RowOf(p, rows)
    ensures var c := LeftChild(up, rows) + p % 2; Valid(c, n, rows) && RowOf(c, rows) >= RowOf(p, rows)
  {
    hide RowOf, OffOf, IsRootPosition, Parent, LeftChild, Level, Sibling, Valid;
    Climb(p, n, rows);
    ChildCoords(up, p % 2, n, rows);
  }

  // ----- children -----

  lemma ChildCoords(x: nat, side: nat, n: nat, rows: nat)
    requires Fits(n, rows) && Valid(x, n, rows) && RowOf(x, rows) > 0 && side < 2
    ensures var c := LeftChild(x, rows) + side;
            && Valid(c, n, rows) && !IsRootPosition(c, n, rows) && Parent(c, rows) == x && c % 2 == side
            && RowOf(c, rows) == RowOf(x, rows) - 1 && OffOf(c, rows) == 2 * OffOf(x, rows) + side
            && Sibling(c) == LeftChild(x, rows) + 1 - side
  {
    hide RowOf, OffOf, IsRootPosition, Parent, LeftChild, Valid, Level, Sibling;
    Descend(x, n, rows);
    var c := LeftChild(x, rows) + side;
    Climb(c, n, rows);
    PairEncode(c, n, rows);
  }

  lemma ChildIs(p: nat, n: nat, rows: nat)
    requires Fits(n, rows) && Valid(p, n, rows) && !IsRootPosition(p, n, rows)
    ensures Valid(Parent(p, rows), n, rows) && RowOf(Parent(p, rows), rows) > 0
    ensures LeftChild(Parent(p, rows), rows) + p % 2 == p
  {
    hide RowOf, OffOf, IsRootPosition, Parent, LeftChild, Valid, Level, Sibling, Shr;
    Climb(p, n, rows);
    ChildCoords(Parent(p, rows), p % 2, n, rows);
    PairEncode(p, n, rows);
    Order(LeftChild(Parent(p, rows), rows) + p % 2, p, n, rows);
  }

  lemma MovedRoot(p: nat, dels: set<nat>, n: nat, rows: nat)
    requires Fits(n, rows) && Valid(p, n, rows) && IsRootPosition(p, n, rows)
    ensures Moved(p, dels, n, rows) == p
  {
  }

  lemma MovedUp(p: nat, dels: set<nat>, n: nat, rows: nat)
    requires Fits(n, rows) && Valid(p, n, rows) && !IsRootPosition(p, n, rows)
    ensures Valid(Parent(p, rows), n, rows)
    ensures RowOf(Parent(p, rows), rows) == RowOf(p, rows) + 1
    ensures var up := Moved(Parent(p, rows), dels, n, rows);
            && RowOf(up, rows) > 0
            && Moved(p, dels, n, rows) == if Sibling(p) in dels then up else LeftChild(up, rows) + p % 2
  {
    hide RowOf, OffOf, LeftChild;
    Climb(p, n, rows);
  }

  // ----- root paths -----

  lemma {:induction false} MovedPath(p: nat, a: nat, dels: set<nat>, n: nat, rows: nat)
    requires Fits(n, rows) && Valid(p, n, rows) && a in PathOf(p, n, rows)
    ensures Valid(a, n, rows) && Moved(a, dels, n, rows) in PathOf(Moved(p, dels, n, rows), n, rows)
    decreases Level(p, n, rows)
  {
    hide Valid, IsRootPosition, Parent, PathOf, RowOf, OffOf, LeftChild, Sibling, Moved, Level;
    PathOfFacts(p, n, rows, a);
    SelfPath(Moved(p, dels, n, rows), n, rows);
    if a != p {
      MovedPathStep(p, dels, n, rows, a);
      MovedPath(Parent(p, rows), a, dels, n, rows);
    }
  }

  /** One step up an old path is none or one step up the new path. */
  lemma MovedPathStep(p: nat, dels: set<nat>, n: nat, rows: nat, a: nat)
    requires Fits(n, rows) && Valid(p, n, rows) && a in PathOf(p, n, rows) && a != p
    ensures !IsRootPosition(p, n, rows) && Valid(Parent(p, rows), n, rows) && a in PathOf(Parent(p, rows), n, rows)
    ensures Level(Parent(p, rows), n, rows) < Level(p, n, rows)
    ensures PathOf(Moved(Parent(p, rows), dels, n, rows), n, rows) <= PathOf(Moved(p, dels, n, rows), n, rows)
  {
    hide Valid, IsRootPosition, Parent, PathOf, RowOf, OffOf, LeftChild, Sibling, Moved, Level;
    Climb(p, n, rows);
    if IsRootPosition(p, n, rows) { RootPath(p, n, rows); }
    ParentPath(p, n, rows);
    MovedUp(p, dels, n, rows);
    var up := Moved(Parent(p, rows), dels, n, rows);
    ChildCoords(up, p % 2, n, rows);
    ParentPath(LeftChild(up, rows) + p % 2, n, rows);
  }

  /** Every slot on the new path comes from a node of the old path that keeps its sibling, or is
      the root. */
  lemma {:induction false} MovedPathBack(p: nat, b: nat, dels: set<nat>, n: nat, rows: nat) returns (a: nat)
    requires Fits(n, rows) && Valid(p, n, rows) && b in PathOf(Moved(p, dels, n, rows), n, rows)
    ensures a in PathOf(p, n, rows) && Valid(a, n, rows) && Moved(a, dels, n, rows) == b
    ensures IsRootPosition(a, n, rows) || Sibling(a) !in dels
    decreases Level(p, n, rows)
  {
    hide Valid, IsRootPosition, Parent, PathOf, RowOf, OffOf, LeftChild, Sibling, Moved, Level;
    SelfPath(p, n, rows);
    if IsRootPosition(p, n, rows) {
      MovedRoot(p, dels, n, rows);
      RootPath(p, n, rows);
      a := p;
    } else {
      Climb(p, n, rows);
      MovedUp(p, dels, n, rows);
      ParentPath(p, n, rows);
      var up := Moved(Parent(p, rows), dels, n, rows);
      ChildCoords(up, p % 2, n, rows);
      ParentPath(LeftChild(up, rows) + p % 2, n, rows);
      if Sibling(p) !in dels && b == Moved(p, dels, n, rows) {
        a := p;
      } else {
        a := MovedPathBack(Parent(p, rows), b, dels, n, rows);
      }
    }
  }

  /** Siblings that both stay are siblings afterwards. */
  lemma MovedSiblings(p: nat, dels: set<nat>, n: nat, rows: nat)
    requires Fits(n, rows) && Valid(p, n, rows) && !IsRootPosition(p, n, rows) && p !in dels && Sibling(p) !in dels
    ensures Valid(Sibling(p), n, rows)
    ensures var q := Moved(p, dels, n, rows);
            !IsRootPosition(q, n, rows) && Moved(Sibling(p), dels, n, rows) == Sibling(q)
  {
    hide Valid, IsRootPosition, Parent, PathOf, RowOf, OffOf, LeftChild, Sibling, Moved, Level;
    Climb(p, n, rows);
    SiblingInvolution(p);
    PairEncode(p, n, rows);
    MovedUp(p, dels, n, rows);
    MovedUp(Sibling(p), dels, n, rows);
    ChildCoords(Moved(Parent(p, rows), dels, n, rows), p % 2, n, rows);
  }
  // ----- what a deletion leaves in place -----

  /** None of the nodes above p, and not p, has its sibling deleted. */
  ghost predicate Calm(p: nat, dels: set<nat>, n: nat, rows: nat)
    requires Fits(n, rows) && Valid(p, n, rows)
  {
    forall a :: a in PathOf(p, n, rows) && !IsRootPosition(a, n, rows) ==> Sibling(a) !in dels
  }

  lemma {:induction false} CalmStays(p: nat, dels: set<nat>, n: nat, rows: nat)
    requires Fits(n, rows) && Valid(p, n, rows) && Calm(p, dels, n, rows)
    ensures Moved(p, dels, n, rows) == p
    decreases Level(p, n, rows)
  {
    hide RowOf, OffOf, IsRootPosition, Parent, LeftChild, Valid, Level, Sibling, Moved, PathOf;
    if IsRootPosition(p, n, rows) {
      MovedRoot(p, dels, n, rows);
    } else {
      Climb(p, n, rows);
      SelfPath(p, n, rows);
      ParentPath(p, n, rows);
      MovedUp(p, dels, n, rows);
      CalmStays(Parent(p, rows), dels, n, rows);
      ChildIs(p, n, rows);
    }
  }

  /** The node at d is still in its place: nothing on its path is deleted, and no sibling of the
      nodes above it. */
  ghost predicate InPlace(d: nat, dels: set<nat>, n: nat, rows: nat)
    requires Fits(n, rows) && Valid(d, n, rows)
  {
    && (forall a :: a in PathOf(d, n, rows) ==> a !in dels)
    && (!IsRootPosition(d, n, rows) ==> Valid(Parent(d, rows), n, rows) && Calm(Parent(d, rows), dels, n, rows))
  }

  lemma CalmMore(d: nat, dels: set<nat>, n: nat, rows: nat)
    requires Fits(n, rows) && Valid(d, n, rows) && !IsRootPosition(d, n, rows)
    requires Valid(Parent(d, rows), n, rows) && Calm(Parent(d, rows), dels, n, rows)
    ensures Calm(Parent(d, rows), dels + {d}, n, rows)
  {
    hide RowOf, OffOf, IsRootPosition, Parent, Valid, Level, Sibling, PathOf;
    Climb(d, n, rows);
    forall a | a in PathOf(Parent(d, rows), n, rows) && !IsRootPosition(a, n, rows) ensures Sibling(a) != d {
      PathOfFacts(Parent(d, rows), n, rows, a);
      Climb(a, n, rows);
    }
  }

  /** No other node is where d's parent is. */
  lemma NotThere(q: nat, dels: set<nat>, d: nat, n: nat, rows: nat)
    requires Fits(n, rows) && Valid(q, n, rows) && Valid(d, n, rows) && !IsRootPosition(d, n, rows)
    requires d !in PathOf(q, n, rows) && q != Parent(d, rows) && InPlace(d, dels, n, rows)
    ensures Moved(q, dels, n, rows) != Parent(d, rows)
  {
    hide RowOf, OffOf, IsRootPosition, Parent, LeftChild, Valid, Level, Sibling, Moved, PathOf;
    var top := Parent(d, rows);
    Climb(d, n, rows);
    SelfPath(d, n, rows);
    if q in PathOf(top, n, rows) {
      forall a | a in PathOf(q, n, rows) ensures a in PathOf(top, n, rows) { PathTrans(top, q, a, n, rows); }
      CalmStays(q, dels, n, rows);
    } else {
      var s := Departure(q, top, n, rows);
      DepartureCalm(q, s, dels, d, n, rows);
      CalmStays(s, dels, n, rows);
      MovedPath(q, s, dels, n, rows);
    }
  }

  lemma DepartureCalm(q: nat, s: nat, dels: set<nat>, d: nat, n: nat, rows: nat)
    requires Fits(n, rows) && Valid(q, n, rows) && Valid(d, n, rows) && !IsRootPosition(d, n, rows)
    requires d !in PathOf(q, n, rows) && InPlace(d, dels, n, rows)
    requires Valid(s, n, rows) && s in PathOf(q, n, rows)
    requires Valid(Parent(d, rows), n, rows)
    requires !IsRootPosition(s, n, rows) ==>
               && Parent(s, rows) in PathOf(Parent(d, rows), n, rows)
               && (Sibling(s) in PathOf(Parent(d, rows), n, rows) || Parent(s, rows) == Parent(d, rows))
    ensures Calm(s, dels, n, rows)
  {
    hide RowOf, OffOf, IsRootPosition, Parent, LeftChild, Valid, Level, Sibling, PathOf;
    ParentPath(d, n, rows);
    if IsRootPosition(s, n, rows) {
      RootPath(s, n, rows);
    } else {
      ParentPath(s, n, rows);
      if Parent(s, rows) == Parent(d, rows) { SameParent(d, s, n, rows); SiblingInvolution(d); }
      forall a | a in PathOf(s, n, rows) && !IsRootPosition(a, n, rows) ensures Sibling(a) !in dels {
        if a != s { PathTrans(Parent(d, rows), Parent(s, rows), a, n, rows); }
      }
    }
  }

  // ----- one deletion -----

  /** What `calc_next_positions` does to a position for one deleted node. */
  function MoveStep(x: nat, d: nat, n: nat, rows: nat): nat
    requires rows < 62
  {
    if !IsRootPosition(d, n, rows) && Above(Parent(d, rows), x, rows)
       && RowOf(x, rows) < rows && RowOf(x, rows) <= RowOf(d, rows)
    then Encode(RowOf(x, rows) + 1, DropDigit(OffOf(x, rows), RowOf(d, rows) - RowOf(x, rows)), rows)
    else x
  }

  lemma AboveRows(x: nat, d: nat, n: nat, rows: nat)
    requires Fits(n, rows) && Valid(x, n, rows) && Valid(d, n, rows) && !IsRootPosition(d, n, rows)
    requires Above(Parent(d, rows), x, rows)
    ensures RowOf(x, rows) < rows && RowOf(x, rows) <= RowOf(d, rows)
  {
    hide IsRootPosition, Parent, Level, Sibling, RowOf;
    Climb(d, n, rows);
  }

  /** A child of x lies below exactly what x lies below, and below x. */
  lemma AboveChild(hi: nat, x: nat, side: nat, n: nat, rows: nat)
    requires Fits(n, rows) && Valid(x, n, rows) && RowOf(x, rows) > 0 && side < 2 && Valid(hi, n, rows) && hi != x
    ensures Above(hi, LeftChild(x, rows) + side, rows) <==> Above(hi, x, rows)
  {
    hide RowOf, OffOf, IsRootPosition, Parent, LeftChild, Level, Sibling, Shr;
    ChildCoords(x, side, n, rows);
    Order(hi, x, n, rows);
    Decode(x, n, rows);
    var off := OffOf(x, rows);
    if RowOf(hi, rows) >= RowOf(x, rows) {
      ShrCompose(2 * off + side, 1, RowOf(hi, rows) - RowOf(x, rows));
      Halve(2 * off + side);
      ShrZero(off);
    }
  }

  /** Stepping from a child of x is stepping from x. */
  lemma StepChild(x: nat, side: nat, d: nat, n: nat, rows: nat, next: nat)
    requires Fits(n, rows) && Valid(x, n, rows) && RowOf(x, rows) > 0 && side < 2 && Valid(d, n, rows)
    requires IsRootPosition(d, n, rows) || Parent(d, rows) != x
    requires next == MoveStep(x, d, n, rows) && Valid(next, n, rows)
    ensures RowOf(next, rows) > 0
    ensures MoveStep(LeftChild(x, rows) + side, d, n, rows) == LeftChild(next, rows) + side
  {
    hide RowOf, OffOf, IsRootPosition, Parent, LeftChild, Level, Sibling, Shr, Above, DropDigit, Encode;
    var c := LeftChild(x, rows) + side;
    ChildCoords(x, side, n, rows);
    if !IsRootPosition(d, n, rows) {
      Climb(d, n, rows);
      AboveChild(Parent(d, rows), x, side, n, rows);
      if Above(Parent(d, rows), x, rows) {
        AboveRows(x, d, n, rows);
        Decode(x, n, rows);
        Decode(d, n, rows);
        var b := RowOf(d, rows) - RowOf(x, rows);
        Climb(d, n, rows);
        DropDigitBound(OffOf(x, rows), b, rows - RowOf(x, rows) - 1);
        RowOfEncode(RowOf(x, rows) + 1, DropDigit(OffOf(x, rows), b), rows);
        ChildCoords(next, side, n, rows);
        Decode(LeftChild(next, rows) + side, n, rows);
        DropDigitDown(OffOf(x, rows), side, b);
      }
    }
  }

  lemma DropDigitDown(off: nat, side: nat, b: nat)
    requires side < 2
    ensures DropDigit(2 * off + side, b + 1) == 2 * DropDigit(off, b) + side
  {
  }

  /** The children of the parent of a deleted node move to it. */
  lemma StepBeside(p: nat, d: nat, n: nat, rows: nat)
    requires Fits(n, rows) && Valid(p, n, rows) && !IsRootPosition(p, n, rows)
    requires Valid(d, n, rows) && !IsRootPosition(d, n, rows) && Parent(d, rows) == Parent(p, rows)
    ensures MoveStep(p, d, n, rows) == Parent(p, rows) == MoveStep(Parent(p, rows), d, n, rows)
  {
    hide OffOf, RowOf, IsRootPosition, Parent, LeftChild, Level, Sibling, Encode;
    Climb(p, n, rows);
    Climb(d, n, rows);
    Decode(Parent(p, rows), n, rows);
    Halve(OffOf(p, rows));
  }

  /** The node at p before and after one more deletion. */
  lemma {:induction false} MovedStep(p: nat, dels: set<nat>, d: nat, n: nat, rows: nat)
    requires Fits(n, rows) && Valid(p, n, rows) && Valid(d, n, rows)
    requires d !in PathOf(p, n, rows) && InPlace(d, dels, n, rows)
    ensures Moved(p, dels + {d}, n, rows) == MoveStep(Moved(p, dels, n, rows), d, n, rows)
    decreases Level(p, n, rows)
  {
    hide RowOf, OffOf, IsRootPosition, Parent, LeftChild, Valid, Level, Sibling, Moved, MoveStep, PathOf, Calm;
    Climb(p, n, rows);
    if IsRootPosition(p, n, rows) {
      MovedRoot(p, dels, n, rows);
      MovedRoot(p, dels + {d}, n, rows);
      RootStep(p, d, n, rows);
    } else {
      MovedUp(p, dels, n, rows);
      MovedUp(p, dels + {d}, n, rows);
      ParentPath(p, n, rows);
      var parent := Parent(p, rows);
      MovedStep(parent, dels, d, n, rows);
      if Sibling(p) == d {
        SiblingStep(p, dels, n, rows);
      } else if Sibling(p) !in dels {
        var x := Moved(parent, dels, n, rows);
        if !IsRootPosition(d, n, rows) {
          SelfPath(p, n, rows);
          if parent == Parent(d, rows) { SameParent(p, d, n, rows); }
          NotThere(parent, dels, d, n, rows);
        }
        StepChild(x, p % 2, d, n, rows, MoveStep(x, d, n, rows));
      }
    }
  }

  /** The sibling of the deleted node. */
  lemma SiblingStep(p: nat, dels: set<nat>, n: nat, rows: nat)
    requires Fits(n, rows) && Valid(p, n, rows) && !IsRootPosition(p, n, rows)
    requires Valid(Sibling(p), n, rows) && InPlace(Sibling(p), dels, n, rows)
    ensures Moved(p, dels + {Sibling(p)}, n, rows) == MoveStep(Moved(p, dels, n, rows), Sibling(p), n, rows)
  {
    hide RowOf, OffOf, IsRootPosition, Parent, LeftChild, Valid, Level, Sibling, Moved, MoveStep, PathOf, Calm;
    Climb(p, n, rows);
    var d, parent := Sibling(p), Parent(p, rows);
    SelfPath(d, n, rows);
    MovedUp(p, dels, n, rows);
    MovedUp(p, dels + {d}, n, rows);
    CalmMore(d, dels, n, rows);
    CalmStays(parent, dels, n, rows);
    CalmStays(parent, dels + {d}, n, rows);
    ChildIs(p, n, rows);
    StepBeside(p, d, n, rows);
  }

  lemma RootStep(x: nat, d: nat, n: nat, rows: nat)
    requires Fits(n, rows) && Valid(x, n, rows) && Valid(d, n, rows) && IsRootPosition(x, n, rows)
    ensures MoveStep(x, d, n, rows) == x
  {
    hide RowOf, OffOf, IsRootPosition, Parent, LeftChild, Level, Sibling, Shr;
    if !IsRootPosition(d, n, rows) {
      Climb(d, n, rows);
      Climb(x, n, rows);
      if Above(Parent(d, rows), x, rows) {
        RootIsTop(n, RowOf(x, rows), OffOf(x, rows), RowOf(Parent(d, rows), rows) - RowOf(x, rows));
      }
    }
  }

  // ----- all deletions, lowest row first -----

  function MoveAll(x: nat, ds: seq<nat>, n: nat, rows: nat): nat
    requires rows < 62
  {
    if ds == [] then x
    else MoveStep(MoveAll(x, ds[..|ds| - 1], n, rows), ds[|ds| - 1], n, rows)
  }
}
