/** The largest subtrees that a list of slots covers: those a deletion takes out as a whole. */
module TopSlots {
  import opened Bits
  import opened Positions
  import opened ProofPositions
  import opened Slots
  import opened Walks
  import opened Paths
  import opened Detwins

  /** Every bottom slot at or below q lies at or below a slot of the block. */
  ghost predicate AllBelow(q: nat, block: seq<nat>, n: nat, rows: nat)
    requires Fits(n, rows)
  {
    forall x: nat :: Valid(x, n, rows) && RowOf(x, rows) == 0 && q in PathOf(x, n, rows) ==>
      Covers(Elements(block), x, n, rows)
  }

  lemma ListedBelow(t: nat, block: seq<nat>, n: nat, rows: nat)
    requires Fits(n, rows) && t in Elements(block)
    ensures AllBelow(t, block, n, rows)
  {
    hide Valid, RowOf, PathOf;
  }

  lemma SameBelow(q: nat, a: seq<nat>, b: seq<nat>, n: nat, rows: nat)
    requires Fits(n, rows) && SameCover(Elements(a), Elements(b), n, rows)
    ensures AllBelow(q, a, n, rows) <==> AllBelow(q, b, n, rows)
  {
    hide Valid, RowOf, PathOf, Covers;
  }

  /** What lies below a covered slot is covered. */
  lemma BelowCovered(q: nat, a: nat, block: seq<nat>, n: nat, rows: nat)
    requires Fits(n, rows) && Valid(q, n, rows) && a in PathOf(q, n, rows) && AllBelow(a, block, n, rows)
    ensures AllBelow(q, block, n, rows)
  {
    hide Valid, RowOf, PathOf, Covers;
    forall x: nat | Valid(x, n, rows) && RowOf(x, rows) == 0 && q in PathOf(x, n, rows)
      ensures Covers(Elements(block), x, n, rows)
    {
      PathTrans(x, q, a, n, rows);
    }
  }

  lemma AllBelowChild(q: nat, c: nat, block: seq<nat>, n: nat, rows: nat)
    requires Fits(n, rows) && Valid(c, n, rows) && !IsRootPosition(c, n, rows) && Parent(c, rows) == q
    requires AllBelow(q, block, n, rows)
    ensures AllBelow(c, block, n, rows)
  {
    hide Valid, IsRootPosition, Parent, PathOf, RowOf, AllBelow;
    ParentPath(c, n, rows);
    SelfPath(q, n, rows);
    BelowCovered(c, q, block, n, rows);
  }

  lemma BothBelow(block: seq<nat>, n: nat, rows: nat, p: nat)
    requires Fits(n, rows) && Valid(p, n, rows) && !IsRootPosition(p, n, rows)
    requires AllBelow(p, block, n, rows) && AllBelow(Sibling(p), block, n, rows)
    ensures AllBelow(Parent(p, rows), block, n, rows)
  {
    hide Valid, IsRootPosition, Parent, PathOf, RowOf, OffOf, Sibling, Covers;
    forall x: nat | Valid(x, n, rows) && RowOf(x, rows) == 0 && Parent(p, rows) in PathOf(x, n, rows)
      ensures Covers(Elements(block), x, n, rows)
    {
      PairCovers(p, x, n, rows);
    }
  }

  /** A covered slot has a slot of the block above it, at it or below it. */
  lemma CoveredBy(q: nat, block: seq<nat>, n: nat, rows: nat) returns (t: nat)
    requires Fits(n, rows) && Valid(q, n, rows) && AllBelow(q, block, n, rows)
    ensures t in Elements(block) && Valid(t, n, rows) && (t in PathOf(q, n, rows) || q in PathOf(t, n, rows))
  {
    hide Valid, PathOf, RowOf;
    ValidRow(q, n, rows);
    var x := SlotBelow(q, RowOf(q, rows), n, rows);
    assert Covers(Elements(block), x, n, rows);
    t :| t in Elements(block) && t in PathOf(x, n, rows);
    PathOfFacts(x, n, rows, t);
    if RowOf(q, rows) <= RowOf(t, rows) {
      PathBoth(x, n, rows, q, t);
    } else {
      PathBoth(x, n, rows, t, q);
    }
  }

  lemma ValidRow(q: nat, n: nat, rows: nat)
    requires Valid(q, n, rows)
    ensures RowOf(q, rows) <= rows
  {
  }

  // ----- the largest covered slots -----

  ghost predicate IsTop(d: nat, block: seq<nat>, n: nat, rows: nat)
    requires Fits(n, rows)
  {
    && Valid(d, n, rows) && AllBelow(d, block, n, rows)
    && (IsRootPosition(d, n, rows) || !AllBelow(Parent(d, rows), block, n, rows))
  }

  /** `ds` are the largest subtrees that the block covers. */
  ghost predicate Tops(block: seq<nat>, ds: seq<nat>, n: nat, rows: nat)
    requires Fits(n, rows)
  {
    && AllValid(ds, n, rows)
    && forall d: nat :: d in Elements(ds) <==> IsTop(d, block, n, rows)
  }

  lemma TopsExist(block: seq<nat>, n: nat, rows: nat) returns (ds: seq<nat>)
    requires Fits(n, rows)
    ensures Tops(block, ds, n, rows)
  {
    hide Valid, IsRootPosition, AllBelow;
    var s := set d: nat | d < WORD && IsTop(d, block, n, rows);
    ds := Sorted(s);
    forall d: nat | IsTop(d, block, n, rows) ensures d in s { PositionWord(d, n, rows); }
    forall i | 0 <= i < |ds| ensures Valid(ds[i], n, rows) { ElementsAt(ds, i); }
  }

  lemma {:induction false} TopAbove(q: nat, block: seq<nat>, n: nat, rows: nat) returns (d: nat)
    requires Fits(n, rows) && Valid(q, n, rows) && AllBelow(q, block, n, rows)
    ensures IsTop(d, block, n, rows) && d in PathOf(q, n, rows)
    decreases Level(q, n, rows)
  {
    hide Valid, IsRootPosition, AllBelow, RowOf, OffOf, Parent, Sibling, PathOf, Level;
    Climb(q, n, rows);
    SelfPath(q, n, rows);
    if IsRootPosition(q, n, rows) || !AllBelow(Parent(q, rows), block, n, rows) {
      d := q;
    } else {
      ParentPath(q, n, rows);
      d := TopAbove(Parent(q, rows), block, n, rows);
    }
  }

  /** A top has a slot of the block at it or below it. */
  lemma TopListed(d: nat, block: seq<nat>, n: nat, rows: nat) returns (t: nat)
    requires Fits(n, rows) && IsTop(d, block, n, rows)
    ensures t in Elements(block) && Valid(t, n, rows) && d in PathOf(t, n, rows)
  {
    hide Valid, IsRootPosition, AllBelow, RowOf, OffOf, Parent, Sibling, PathOf, Level;
    t := CoveredBy(d, block, n, rows);
    if d !in PathOf(t, n, rows) {
      SelfPath(d, n, rows);
      if IsRootPosition(d, n, rows) {
        RootPath(d, n, rows);
      } else {
        ParentPath(d, n, rows);
        Climb(d, n, rows);
        ListedBelow(t, block, n, rows);
        BelowCovered(Parent(d, rows), t, block, n, rows);
      }
    }
  }

  // ----- what is left -----

  /** No deleted subtree holds the slot. */
  ghost predicate Kept(p: nat, ds: seq<nat>, n: nat, rows: nat)
    requires Fits(n, rows) && Valid(p, n, rows)
  {
    forall d :: d in Elements(ds) ==> d !in PathOf(p, n, rows)
  }

  lemma KeptUncovered(p: nat, block: seq<nat>, ds: seq<nat>, n: nat, rows: nat)
    requires Fits(n, rows) && Valid(p, n, rows) && Tops(block, ds, n, rows)
    ensures Kept(p, ds, n, rows) <==> !AllBelow(p, block, n, rows)
  {
    hide Valid, IsRootPosition, AllBelow, RowOf, Parent, PathOf;
    if AllBelow(p, block, n, rows) {
      var d := TopAbove(p, block, n, rows);
    } else {
      forall d | d in Elements(ds) ensures d !in PathOf(p, n, rows) {
        if d in PathOf(p, n, rows) { BelowCovered(p, d, block, n, rows); }
      }
    }
  }

  lemma KeptUp(p: nat, ds: seq<nat>, n: nat, rows: nat)
    requires Fits(n, rows) && Valid(p, n, rows) && Kept(p, ds, n, rows) && !IsRootPosition(p, n, rows)
    ensures Valid(Parent(p, rows), n, rows) && Kept(Parent(p, rows), ds, n, rows)
    ensures p !in Elements(ds)
  {
    hide Valid, IsRootPosition, Parent, PathOf;
    ParentPath(p, n, rows);
  }

  /** A kept parent's other child is kept unless it is itself taken out. */
  lemma KeptSibling(p: nat, ds: seq<nat>, n: nat, rows: nat)
    requires Fits(n, rows) && Valid(p, n, rows) && Kept(p, ds, n, rows) && !IsRootPosition(p, n, rows)
    ensures Valid(Sibling(p), n, rows) && !IsRootPosition(Sibling(p), n, rows)
    ensures Sibling(p) !in Elements(ds) ==> Kept(Sibling(p), ds, n, rows)
  {
    hide Valid, IsRootPosition, Parent, PathOf, Sibling, RowOf, OffOf, Level;
    Climb(p, n, rows);
    KeptUp(p, ds, n, rows);
    ParentPath(Sibling(p), n, rows);
  }
}
