/** The empty roots that additions write over, and where that puts a new leaf (`roots_to_destroy`,
    src/util/mod.rs, and the beginning of `Stump::add`, src/stump/mod.rs). */
module DestroyedRoots {
  import opened Bits
  import opened Positions
  import opened Digits
  import opened Forest
  import opened Moves
  import opened MoveOrders
  import opened ProofUpdates

  /** A slot below the top row. */
  ghost predicate BelowTop(pos: nat, rows: nat) {
    exists row: nat, off: nat :: IsSlot(pos, row, off, rows) && row < rows
  }

  predicate IsSlot(pos: nat, row: nat, off: nat, rows: nat) {
    row <= rows && off < Pow2(rows - row) && pos == Encode(row, off, rows)
  }

  predicate NoneEmpty(hs: seq<Hash>) {
    forall i :: 0 <= i < |hs| ==> !hs[i].Empty?
  }

  predicate RootEmpty(roots: seq<Hash>, n: nat, row: nat)
    requires |roots| == PopCount(n) && Shr(n, row) % 2 == 1
  {
    RootIndexBound(n, row);
    roots[RootIndex(n, row)].Empty?
  }

  /** The loops of `roots_to_destroy`, which `RootsToDestroy` below runs: `adds` leaves are still to come. */
  function Destroys(roots: seq<Hash>, leaves: nat, h: nat, adds: nat, rows: nat): seq<nat>
    requires rows < 62
    decreases adds, Shr(leaves, h)
  {
    if adds == 0 then []
    else if Shr(leaves, h) % 2 == 1 && roots != [] && h <= rows then
      ShrStep(leaves, h);
      var k := |roots| - 1;
      (if roots[k].Empty? then [RootPosition(leaves, h, rows)] else [])
          + Destroys(roots[..k], leaves, h + 1, adds, rows)
    else
      Destroys(roots + [Placeholder], leaves + 1, h, adds - 1, rows)
  }

  /** Without empty roots nothing is listed. */
  lemma {:induction false} NoneDestroys(roots: seq<Hash>, leaves: nat, h: nat, adds: nat, rows: nat)
    requires rows < 62 && NoneEmpty(roots)
    ensures Destroys(roots, leaves, h, adds, rows) == []
    decreases adds, Shr(leaves, h)
  {
    hide RootPosition, Shr;
    if adds > 0 {
      if Shr(leaves, h) % 2 == 1 && roots != [] && h <= rows {
        ShrStep(leaves, h);
        NoneDestroys(roots[..|roots| - 1], leaves, h + 1, adds, rows);
      } else {
        NoneDestroys(roots + [Placeholder], leaves + 1, h, adds - 1, rows);
      }
    }
  }

  lemma DestroysPop(roots: seq<Hash>, leaves: nat, h: nat, adds: nat, rows: nat, deleted: seq<nat>)
    requires rows < 62 && adds > 0 && Shr(leaves, h) % 2 == 1 && roots != [] && h <= rows
    ensures var k := |roots| - 1;
            deleted + Destroys(roots, leaves, h, adds, rows) ==
            (if roots[k].Empty? then deleted + [RootPosition(leaves, h, rows)] else deleted)
            + Destroys(roots[..k], leaves, h + 1, adds, rows)
  {
    hide RootPosition, Shr;
  }

  lemma DestroysPush(roots: seq<Hash>, leaves: nat, h: nat, adds: nat, rows: nat)
    requires rows < 62 && adds > 0 && Shr(leaves, h) % 2 == 0
    ensures Destroys(roots, leaves, h, adds, rows) == Destroys(roots + [Placeholder], leaves + 1, h, adds - 1, rows)
  {
    hide RootPosition, Shr;
  }

  lemma DestroysEnd(roots: seq<Hash>, leaves: nat, h: nat, rows: nat)
    requires rows < 62
    ensures Destroys(roots, leaves, h, 0, rows) == []
  {
  }

  ghost predicate AllBelowTop(deleted: seq<nat>, rows: nat) {
    forall i :: 0 <= i < |deleted| ==> BelowTop(deleted[i], rows)
  }

  /** `roots_to_destroy`: positions of empty roots that the additions write over.  The row `h`
      is not reset between additions, as in the program. */
  method RootsToDestroy(numAdds: nat, numLeaves: nat, origRoots: seq<Hash>) returns (deleted: seq<nat>)
    requires numLeaves + numAdds <= MAX_LEAVES && |origRoots| == PopCount(numLeaves)
    ensures TreeRows(numLeaves + numAdds) < 62
    ensures deleted == Destroys(origRoots, numLeaves, 0, numAdds, TreeRows(numLeaves + numAdds))
    ensures forall i :: 0 <= i < |deleted| ==> BelowTop(deleted[i], TreeRows(numLeaves + numAdds))
  {
    hide RootPosition, Shr, And, Pow2, TreeRows, PopCount, BelowTop, Destroys;
    TreeRowsFit(numLeaves + numAdds);
    deleted := [];
    ghost var rows := TreeRows(numLeaves + numAdds);
    if forall i :: 0 <= i < |origRoots| ==> !origRoots[i].Empty? {
      NoneDestroys(origRoots, numLeaves, 0, numAdds, rows);
      return;
    }
    var roots := origRoots;
    var leaves := numLeaves;
    var h := 0;
    ghost var all := Destroys(origRoots, numLeaves, 0, numAdds, rows);
    ShrZero(numLeaves);
    for add := 0 to numAdds
      invariant leaves == numLeaves + add && |roots| >= PopCount(Shr(leaves, h)) && AllBelowTop(deleted, rows)
      invariant all == deleted + Destroys(roots, leaves, h, numAdds - add, rows)
    {
      while And(Shr(leaves, h), 1) == 1
        invariant |roots| >= PopCount(Shr(leaves, h)) && AllBelowTop(deleted, rows)
        invariant all == deleted + Destroys(roots, leaves, h, numAdds - add, rows)
        decreases Shr(leaves, h)
      {
        LowestSet(leaves, h);
        RootBelowTop(leaves, h, rows);
        DestroysPop(roots, leaves, h, numAdds - add, rows, deleted);
        var root := roots[|roots| - 1];
        roots := roots[..|roots| - 1];
        if root.Empty? {
          assert leaves + (numAdds - add) == numLeaves + numAdds;
          deleted := deleted + [RootPosition(leaves, h, TreeRows(leaves + (numAdds - add)))];
        }
        h := h + 1;
      }
      PopCountNext(leaves, h);
      LowBit(Shr(leaves, h));
      DestroysPush(roots, leaves, h, numAdds - add, rows);
      roots := roots + [Placeholder];
      leaves := leaves + 1;
    }
    DestroysEnd(roots, leaves, h, rows);
  }

  lemma LowestSet(n: nat, h: nat)
    requires And(Shr(n, h), 1) == 1
    ensures Shr(n, h) % 2 == 1 && Shr(n, h + 1) < Shr(n, h)
    ensures PopCount(Shr(n, h)) == 1 + PopCount(Shr(n, h + 1))
  {
    hide Shr, And;
    LowBit(Shr(n, h));
    ShrStep(n, h);
  }

  lemma RootBelowTop(leaves: nat, h: nat, rows: nat)
    requires leaves < Pow2(rows) && rows < 62 && Shr(leaves, h) % 2 == 1
    ensures h < rows && BelowTop(RootPosition(leaves, h, rows), rows)
  {
    hide Shr, Encode, RootPosition, Pow2;
    if h >= rows {
      Pow2Monotone(rows, h);
      ShrVanishes(leaves, h);
    }
    BitIsShrParity(leaves, h);
    RootPositionEncode(leaves, h, rows);
    assert IsSlot(RootPosition(leaves, h, rows), h, Shr(leaves, h) - 1, rows);
  }

  lemma {:induction false} PopCountNext(n: nat, h: nat)
    ensures PopCount(Shr(n + 1, h)) <= PopCount(Shr(n, h)) + 1
    decreases h
  {
    if h == 0 {
      PopCountInc(n);
    } else {
      PopCountNext(n / 2, h - 1);
      assert (n + 1) / 2 == n / 2 || (n + 1) / 2 == n / 2 + 1;
    }
  }

  lemma {:induction false} PopCountInc(n: nat)
    ensures PopCount(n + 1) <= PopCount(n) + 1
  {
    if n % 2 == 1 {
      assert (n + 1) / 2 == n / 2 + 1;
      PopCountInc(n / 2);
    }
  }

  lemma HalfBound(a: nat, k: nat)
    requires k > 0 && a < Pow2(k)
    ensures a / 2 < Pow2(k - 1)
  {
  }

  /** For a destroyed root both `unwrap`s of `Stump::add` succeed. */
  lemma DestroyedMoves(del: nat, pos: nat, rows: nat)
    requires rows < 62 && BelowTop(del, rows)
    ensures IsAncestor(Parent(del, rows), pos, rows).Some?
    ensures IsAncestor(Parent(del, rows), pos, rows).value && pos < WORD ==>
              RowOf(pos, rows) < rows && CalcNextPos(pos, del, rows).Some?
  {
    hide Encode, Parent, RowOf, And, Or, Shr, Mask, ShiftLeft, RemoveBit, Pow2;
    var row: nat, off: nat :| IsSlot(del, row, off, rows) && row < rows;
    ParentEncode(row, off, rows);
    RowOfEncode(row, off, rows);
    HalfBound(off, rows - row);
    RowOfEncode(row + 1, off / 2, rows);
  }

  /** The masks of `remove_bit` reach for the destroyed roots, which are no roots any more. */
  ghost predicate Reachable(deleted: seq<nat>, m: nat, rows: nat) {
    Fits(m, rows) && forall i :: 0 <= i < |deleted| ==>
      Valid(deleted[i], m, rows) && !IsRootPosition(deleted[i], m, rows) && MasksReach(deleted[i], rows)
  }

  /** One move as `is_ancestor` and `calc_next_pos` make it. */
  function Push(pos: nat, del: nat, rows: nat): nat
    requires rows < 62
  {
    if IsAncestor(Parent(del, rows), pos, rows) == Some(true) && RowOf(pos, rows) < rows && pos < WORD
       && CalcNextPos(pos, del, rows).Some?
    then CalcNextPos(pos, del, rows).value
    else pos
  }

  function PushAll(pos: nat, ds: seq<nat>, rows: nat): nat
    requires rows < 62
  {
    if ds == [] then pos else Push(PushAll(pos, ds[..|ds| - 1], rows), ds[|ds| - 1], rows)
  }

  lemma PushNext(pos: nat, ds: seq<nat>, k: nat, rows: nat)
    requires rows < 62 && k < |ds|
    ensures PushAll(pos, ds[..k + 1], rows) == Push(PushAll(pos, ds[..k], rows), ds[k], rows)
  {
    hide Push;
    assert ds[..k + 1][..k] == ds[..k];
  }

  lemma PushStart(pos: nat, rows: nat)
    requires rows < 62
    ensures PushAll(pos, [], rows) == pos
  {
  }

  /** Where the masks reach these are the moves over the destroyed roots. */
  lemma {:induction false} PushesMove(leaves: nat, deleted: seq<nat>, k: nat, m: nat, rows: nat)
    requires Reachable(deleted, m, rows) && Valid(leaves, m, rows) && leaves < WORD && rows < 62 && k <= |deleted|
    ensures PushAll(leaves, deleted[..k], rows) == MoveAll(leaves, deleted[..k], m, rows) < WORD
    decreases k
  {
    hide IsAncestor, CalcNextPos, Parent, RowOf, BelowTop, MoveAll, MoveStep, Reachable, Valid;
    if k == 0 {
      PushStart(leaves, rows);
      FoldStart(leaves, deleted[..0], m, rows);
    } else {
      PushesMove(leaves, deleted, k - 1, m, rows);
      var pos := MoveAll(leaves, deleted[..k - 1], m, rows);
      PushNext(leaves, deleted, k - 1, rows);
      FoldNext(leaves, deleted, k - 1, m, rows);
      NoRootBelowTop(deleted, k - 1, m, rows);
      DestroyedMoves(deleted[k - 1], pos, rows);
      DestroyedStep(leaves, deleted, k - 1, pos, m, rows);
    }
  }

  lemma NoRootBelowTop(deleted: seq<nat>, k: nat, m: nat, rows: nat)
    requires Reachable(deleted, m, rows) && k < |deleted| && rows < 62
    ensures BelowTop(deleted[k], rows)
  {
    hide RowOf, OffOf, IsRootPosition, Valid, MasksReach, Parent, Sibling, Level, Pow2, Shr, Encode;
    var d := deleted[k];
    Decode(d, m, rows);
    Climb(d, m, rows);
    Decode(Parent(d, rows), m, rows);
    assert IsSlot(d, RowOf(d, rows), OffOf(d, rows), rows);
  }

  /** Where the next leaf goes: it is moved over the `deleted` roots one after the other. */
  method AddPosition(leaves: nat, deleted: seq<nat>, rows: nat) returns (pos: nat)
    requires leaves < WORD && rows < 62
    requires forall i :: 0 <= i < |deleted| ==> BelowTop(deleted[i], rows)
    ensures pos == PushAll(leaves, deleted, rows)
    ensures forall m: nat :: Reachable(deleted, m, rows) && Valid(leaves, m, rows) ==>
              pos == MoveAll(leaves, deleted, m, rows)
  {
    hide IsAncestor, CalcNextPos, Parent, RowOf, BelowTop, MoveAll, MoveStep, Reachable, Valid, PushAll;
    pos := leaves;
    PushStart(leaves, rows);
    assert deleted[..0] == [];
    for d := 0 to |deleted|
      invariant pos < WORD
      invariant pos == PushAll(leaves, deleted[..d], rows)
    {
      DestroyedMoves(deleted[d], pos, rows);
      PushNext(leaves, deleted, d, rows);
      if IsAncestor(Parent(deleted[d], rows), pos, rows).value {
        pos := CalcNextPos(pos, deleted[d], rows).value;
      }
    }
    assert deleted[..|deleted|] == deleted;
    forall m: nat | Reachable(deleted, m, rows) && Valid(leaves, m, rows)
      ensures pos == MoveAll(leaves, deleted, m, rows)
    {
      PushesMove(leaves, deleted, |deleted|, m, rows);
    }
  }

  lemma DestroyedStep(leaves: nat, deleted: seq<nat>, k: nat, pos: nat, m: nat, rows: nat)
    requires Reachable(deleted, m, rows) && Valid(leaves, m, rows) && k < |deleted|
    requires pos == MoveAll(leaves, deleted[..k], m, rows) && pos < WORD
    ensures rows < 62
    ensures var ancestor := IsAncestor(Parent(deleted[k], rows), pos, rows);
            && ancestor.Some?
            && (ancestor.value ==> RowOf(pos, rows) < rows
                                   && CalcNextPos(pos, deleted[k], rows) == Some(MoveStep(pos, deleted[k], m, rows)))
            && (!ancestor.value ==> MoveStep(pos, deleted[k], m, rows) == pos)
  {
    hide IsAncestor, CalcNextPos, Parent, RowOf, OffOf, MoveAll, IsRootPosition, Above, Encode, DropDigit, Level,
      Sibling, Valid;
    var d := deleted[k];
    FoldValid(leaves, deleted, k, m, rows);
    Climb(d, m, rows);
    AncestorAbove(Parent(d, rows), pos, m, rows);
    if Above(Parent(d, rows), pos, rows) {
      AboveRows(pos, d, m, rows);
      ReachMoves(pos, d, m, rows);
    }
  }
}
