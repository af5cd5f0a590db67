/** What additions do to the slots of a forest without empty roots: old subtrees stay where they
    are, and a new leaf completes the subtrees of which it is the last. */
module Growth {
  import opened Bits
  import opened Positions
  import opened Forest

  predicate NoHoles(trees: seq<Tree>) {
    forall i :: 0 <= i < |trees| ==> trees[i] != Nil
  }

  /** The forest one row up. */
  function Upper(trees: seq<Tree>, n: nat): (r: seq<Tree>)
    requires |trees| == PopCount(n)
    ensures |r| == PopCount(n / 2)
  {
    if n % 2 == 0 then trees else trees[..|trees| - 1]
  }

  lemma {:induction false} NodeShift(trees: seq<Tree>, n: nat, row: nat, off: nat)
    requires |trees| == PopCount(n) && off < Shr(n, row + 1)
    ensures off < Shr(n / 2, row) && NodeAt(trees, n, row + 1, off) == NodeAt(Upper(trees, n), n / 2, row, off)
    decreases Shr(n, row + 1)
  {
    assert Shr(n, row + 1) == Shr(n / 2, row) && Shr(n, row + 2) == Shr(n / 2, row + 1);
    ShrStep(n, row + 1);
    RootIndexBound(n / 2, row);
    if !RootCoord(row + 1, off, n) {
      NodeShift(trees, n, row + 1, off / 2);
    }
  }

  lemma NodeBelow(trees: seq<Tree>, n: nat, off: nat)
    requires |trees| == PopCount(n) && off < n && (n % 2 == 0 || off < n - 1)
    ensures off / 2 < Shr(n / 2, 0)
    ensures var up := NodeAt(Upper(trees, n), n / 2, 0, off / 2);
            NodeAt(trees, n, 0, off) == if !up.Fork? then Nil else if off % 2 == 0 then up.left else up.right
  {
    hide NodeAt;
    ShrStep(n, 0);
    ShrZero(n);
    NodeAtChild(trees, n, 0, off);
    NodeShift(trees, n, 0, off / 2);
  }

  lemma NodeLast(trees: seq<Tree>, n: nat)
    requires |trees| == PopCount(n) && n % 2 == 1
    ensures n - 1 < Shr(n, 0) && NodeAt(trees, n, 0, n - 1) == trees[|trees| - 1]
  {
    RootIndexBound(n, 0);
  }

  /** The new leaf stands at the next free slot of the bottom row. */
  lemma {:induction false} CarryNew(trees: seq<Tree>, n: nat, t: Tree)
    requires |trees| == PopCount(n) && NoHoles(trees) && t != Nil
    ensures |Carry(trees, n, t)| == PopCount(n + 1) && NoHoles(Carry(trees, n, t))
    ensures n < Shr(n + 1, 0) && NodeAt(Carry(trees, n, t), n + 1, 0, n) == t
    decreases n
  {
    hide NodeAt;
    CarryLength(trees, n, t);
    var c := Carry(trees, n, t);
    if n % 2 == 0 {
      NodeLast(c, n + 1);
    } else {
      var k := |trees| - 1;
      CarryNew(trees[..k], n / 2, Fork(trees[k], t));
      NodeBelow(c, n + 1, n);
      assert Upper(c, n + 1) == c && (n + 1) / 2 == n / 2 + 1;
    }
  }

  /** An addition leaves every subtree at its slot. */
  lemma {:induction false} CarryStable(trees: seq<Tree>, n: nat, t: Tree, row: nat, off: nat)
    requires |trees| == PopCount(n) && NoHoles(trees) && t != Nil && off < Shr(n, row)
    ensures |Carry(trees, n, t)| == PopCount(n + 1) && off < Shr(n + 1, row)
    ensures NodeAt(Carry(trees, n, t), n + 1, row, off) == NodeAt(trees, n, row, off)
    decreases n
  {
    hide NodeAt, Shr;
    CarryLength(trees, n, t);
    ShrMonotone(n, n + 1, row);
    CarryUpper(trees, n, t);
    var c, up := Carry(trees, n, t), Upper(trees, n);
    if row > 0 {
      ShiftBoth(c, n + 1, row, off);
      ShiftBoth(trees, n, row, off);
      if n % 2 == 1 { CarryStable(up, n / 2, Fork(trees[|trees| - 1], t), row - 1, off); }
    } else if n % 2 == 0 {
      ShrZero(n);
      NodeBelow(c, n + 1, off);
      NodeBelow(trees, n, off);
    } else {
      CarryStableLow(trees, n, t, off);
      if off < n - 1 { CarryStable(up, n / 2, Fork(trees[|trees| - 1], t), 0, off / 2); }
    }
  }

  lemma CarryUpper(trees: seq<Tree>, n: nat, t: Tree)
    requires |trees| == PopCount(n) && NoHoles(trees) && t != Nil
    ensures |Carry(trees, n, t)| == PopCount(n + 1) && NoHoles(Upper(trees, n))
    ensures var c, up := Carry(trees, n, t), Upper(trees, n);
            if n % 2 == 0 then (n + 1) / 2 == n / 2 && Upper(c, n + 1) == up
            else (n + 1) / 2 == n / 2 + 1 && |trees| > 0
                 && Upper(c, n + 1) == c == Carry(up, n / 2, Fork(trees[|trees| - 1], t))
  {
    CarryLength(trees, n, t);
  }

  /** The bottom row, when the carry goes on. */
  lemma CarryStableLow(trees: seq<Tree>, n: nat, t: Tree, off: nat)
    requires |trees| == PopCount(n) && NoHoles(trees) && t != Nil && off < Shr(n, 0) && n % 2 == 1
    ensures |Carry(trees, n, t)| == PopCount(n + 1) && off < Shr(n + 1, 0) && |trees| > 0
    ensures var c, up := Carry(trees, n, t), Upper(trees, n);
            if off < n - 1 then
              && |c| == PopCount(n / 2 + 1) && off / 2 < Shr(n / 2, 0) && off / 2 < Shr(n / 2 + 1, 0)
              && (NodeAt(c, n / 2 + 1, 0, off / 2) == NodeAt(up, n / 2, 0, off / 2)
                  ==> NodeAt(c, n + 1, 0, off) == NodeAt(trees, n, 0, off))
            else NodeAt(c, n + 1, 0, off) == NodeAt(trees, n, 0, off)
  {
    hide NodeAt, Shr;
    ShrZero(n);
    ShrZero(n + 1);
    ShrZero(n / 2);
    ShrZero(n / 2 + 1);
    CarryUpper(trees, n, t);
    var c, up := Carry(trees, n, t), Upper(trees, n);
    NodeBelow(c, n + 1, off);
    if off < n - 1 {
      NodeBelow(trees, n, off);
    } else {
      NodeLast(trees, n);
      CarryNew(up, n / 2, Fork(trees[|trees| - 1], t));
    }
  }

  lemma ShiftBoth(trees: seq<Tree>, n: nat, row: nat, off: nat)
    requires |trees| == PopCount(n) && row > 0 && off < Shr(n, row)
    ensures off < Shr(n / 2, row - 1)
    ensures NodeAt(trees, n, row, off) == NodeAt(Upper(trees, n), n / 2, row - 1, off)
  {
    NodeShift(trees, n, row - 1, off);
  }

  lemma {:induction false} AddStable(trees: seq<Tree>, n: nat, ids: seq<nat>, row: nat, off: nat)
    requires |trees| == PopCount(n) && NoHoles(trees) && off < Shr(n, row)
    ensures |AddAll(trees, n, ids)| == PopCount(n + |ids|) && NoHoles(AddAll(trees, n, ids))
    ensures off < Shr(n + |ids|, row)
    ensures NodeAt(AddAll(trees, n, ids), n + |ids|, row, off) == NodeAt(trees, n, row, off)
    decreases |ids|
  {
    hide NodeAt, Carry;
    if ids != [] {
      CarryNew(trees, n, Tip(ids[0]));
      CarryStable(trees, n, Tip(ids[0]), row, off);
      AddStable(Carry(trees, n, Tip(ids[0])), n + 1, ids[1..], row, off);
    }
  }

  // ----- the slots that an addition completes or merges over -----

  /** Adding leaf number n completes the slot, or makes the slot's root the left half of one. */
  predicate Touches(n: nat, row: nat, off: nat) {
    Shr(n, row) < Shr(n + 1, row) && (off == Shr(n, row) || (off + 1 == Shr(n, row) && off % 2 == 0))
  }

  /** From n to m leaves: the slot is new, or held a root that is none any more. */
  predicate NewSlot(n: nat, m: nat, row: nat, off: nat) {
    off < Shr(m, row) && (off >= Shr(n, row) || (RootCoord(row, off, n) && !RootCoord(row, off, m)))
  }

  lemma TouchesShift(n: nat, row: nat, off: nat)
    requires row > 0
    ensures Touches(n, row, off) <==> n % 2 == 1 && Touches(n / 2, row - 1, off)
  {
    assert Shr(n, row) == Shr(n / 2, row - 1) && Shr(n + 1, row) == Shr((n + 1) / 2, row - 1);
    if n % 2 == 0 { assert (n + 1) / 2 == n / 2; } else { assert (n + 1) / 2 == n / 2 + 1; }
  }

  lemma TouchesBottom(n: nat, off: nat)
    ensures Touches(n, 0, off) <==> off == n || (n % 2 == 1 && off == n - 1)
  {
  }

  lemma TouchesValid(n: nat, row: nat, off: nat)
    requires Touches(n, row, off)
    ensures off < Shr(n + 1, row) && (off >= Shr(n, row) || RootCoord(row, off, n))
  {
    ShrStep1(n, row);
  }

  /** One more leaf adds at most one slot to each row. */
  lemma {:induction false} ShrStep1(n: nat, row: nat)
    ensures Shr(n, row) <= Shr(n + 1, row) <= Shr(n, row) + 1
    decreases row
  {
    if row > 0 {
      if n % 2 == 0 { assert (n + 1) / 2 == n / 2; } else {
        assert (n + 1) / 2 == n / 2 + 1;
        ShrStep1(n / 2, row - 1);
      }
    }
  }

  /** The slots touched by the additions of a block, one after the other, are the new slots and the
      roots merged over. */
  lemma NewSlotStep(n: nat, m: nat, row: nat, off: nat)
    requires n < m
    ensures NewSlot(n, m, row, off) <==> NewSlot(n + 1, m, row, off) || (Touches(n, row, off) && off < Shr(m, row))
  {
    ShrStep1(n, row);
    ShrMonotone(n + 1, m, row);
    TouchRoot(n, row, off);
  }

  lemma TouchRoot(n: nat, row: nat, off: nat)
    ensures RootCoord(row, off, n) && !RootCoord(row, off, n + 1) ==> Touches(n, row, off)
    ensures Touches(n, row, off) && off < Shr(n, row) ==> RootCoord(row, off, n) && Shr(n + 1, row) == off + 2
  {
    ShrStep1(n, row);
  }

  lemma NewSlotNone(n: nat, row: nat, off: nat)
    ensures !NewSlot(n, n, row, off)
  {
  }
}
