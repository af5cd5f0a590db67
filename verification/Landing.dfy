/** Where the nodes of the update data stand after additions that write over empty roots. */
module Landings {
  import opened Bits
  import opened Positions
  import opened Forest
  import opened ProofPositions
  import opened Slots
  import opened Walks
  import opened Paths
  import opened MergeLoop
  import opened ProofEngine
  import opened Moves
  import opened TopSlots
  import opened MoveOrders
  import opened Survivors
  import opened Growth
  import opened HolesFilled
  import opened ProofUpdates
  import opened DestroyedRoots
  import opened ListedRoots
  import opened Stumps
  import opened NewAdds

  /** The position is new, or held a root that is none any more. */
  predicate IsNew(p: nat, n: nat, m: nat, rows: nat) {
    Valid(p, m, rows) && NewSlot(n, m, RowOf(p, rows), OffOf(p, rows))
  }

  /** Some new slot, or old root that is none any more, comes to stand at b. */
  ghost predicate Lands(trees: seq<Tree>, n: nat, m: nat, S: nat, b: nat)
    requires |trees| == PopCount(n) && Fits(m, S)
  {
    exists q: nat :: IsNew(q, n, m, S) && !HoleAt(trees, n, S, q) && Moved(q, Overwritten(trees, n, m, S), m, S) == b
  }

  /** The nodes are exactly the new slots and the merged-over roots of the grown forest, where they come
      to stand, each with its hash, once, in ascending order. */
  ghost predicate NewAddExact(trees: seq<Tree>, n: nat, ids: seq<nat>, nodes: seq<Node<Hash>>)
    requires |trees| == PopCount(n) && n + |ids| <= MAX_LEAVES
  {
    hide TreeRows, AddAll, PopCount, Holds, Lands;
    var m, S := n + |ids|, TreeRows(n + |ids|);
    TreeRowsFit(m);
    && StrictlyOrdered(nodes) && Carries(nodes, Current(AddAll(trees, n, ids), m, S))
    && forall b :: Holds(nodes, b) <==> Lands(trees, n, m, S, b)
  }

  // ----- the holes that are written over -----

  lemma HoleEmpty(trees: seq<Tree>, n: nat, S: nat, p: nat)
    requires |trees| == PopCount(n) && HoleAt(trees, n, S, p)
    ensures Shr(n, RowOf(p, S)) % 2 == 1 && RootEmpty(Hashes(trees), n, RowOf(p, S))
    ensures OffOf(p, S) + 1 == Shr(n, RowOf(p, S))
  {
    hide RowOf, OffOf, Shr, PopCount;
    RootIndexBound(n, RowOf(p, S));
  }

  lemma EmptyHole(trees: seq<Tree>, n: nat, S: nat, p: nat)
    requires |trees| == PopCount(n) && OffOf(p, S) >= 0 && RootCoord(RowOf(p, S), OffOf(p, S), n)
    ensures HoleAt(trees, n, S, p) <==> RootEmpty(Hashes(trees), n, RowOf(p, S))
  {
    hide RowOf, OffOf, Shr, PopCount;
    RootIndexBound(n, RowOf(p, S));
    var t := trees[RootIndex(n, RowOf(p, S))];
    if t != Nil { NotEmpty(t); }
  }

  /** Where the overwritten roots stand. */
  lemma OverwrittenRow(trees: seq<Tree>, n: nat, m: nat, S: nat, p: nat)
    requires |trees| == PopCount(n) && n <= m && Fits(m, S)
    ensures p in Overwritten(trees, n, m, S) <==>
            exists row: nat :: OverRow(Hashes(trees), n, m, row) && IsRootSlot(p, n, row, S)
  {
    hide RowOf, OffOf, Shr, PopCount, IsRootPosition, HoleAt, Encode, Pow2, RootEmpty, Overwritten;
    OverwrittenIs(trees, n, m, S, p);
    if WrittenOver(trees, n, m, S, p) {
      HoleEmpty(trees, n, S, p);
      Decode(p, m, S);
      Climb(p, m, S);
      ShrMonotone(n, m, RowOf(p, S));
      assert OverRow(Hashes(trees), n, m, RowOf(p, S));
    }
    if row: nat :| OverRow(Hashes(trees), n, m, row) && IsRootSlot(p, n, row, S) {
      ValidEncode(row, Shr(n, row) - 1, m, S);
      EmptyHole(trees, n, S, p);
      Climb(p, m, S);
    }
  }

  /** Whether a slot of the row is an overwritten root. */
  lemma OverwrittenSlot(trees: seq<Tree>, n: nat, m: nat, S: nat, p: nat)
    requires |trees| == PopCount(n) && n <= m && Fits(m, S) && Valid(p, m, S)
    ensures p in Overwritten(trees, n, m, S) <==>
            OverRow(Hashes(trees), n, m, RowOf(p, S)) && OffOf(p, S) + 1 == Shr(n, RowOf(p, S))
  {
    hide RowOf, OffOf, Shr, PopCount, Encode, Pow2, OverRow, Overwritten, Valid;
    OverwrittenRow(trees, n, m, S, p);
    Decode(p, m, S);
    if row: nat :| OverRow(Hashes(trees), n, m, row) && IsRootSlot(p, n, row, S) {
      SlotRow(p, n, row, m, S);
    }
    if OverRow(Hashes(trees), n, m, RowOf(p, S)) && OffOf(p, S) + 1 == Shr(n, RowOf(p, S)) {
      assert IsRootSlot(p, n, RowOf(p, S), S);
    }
  }

  /** For any number of additions: `roots_to_destroy` lists exactly the empty roots that are written over if
      and only if it treats each empty root right. */
  lemma DestroysExact(trees: seq<Tree>, n: nat, adds: nat, S: nat)
    requires |trees| == PopCount(n) && n + adds <= MAX_LEAVES && S == TreeRows(n + adds)
    ensures Fits(n + adds, S)
    ensures Elements(Destroys(Hashes(trees), n, 0, adds, S)) == Overwritten(trees, n, n + adds, S) <==>
            forall row: nat :: EmptyRow(Hashes(trees), n, row) ==> TreatedRight(n, adds, row)
  {
    hide Shr, PopCount, TreeRows, Destroys, Overwritten, Pow2, TreatedRight, EmptyRow, RowRight;
    TreeRowsFit(n + adds);
    var roots, m := Hashes(trees), n + adds;
    var listed := Destroys(roots, n, 0, adds, S);
    RightExact(roots, n, adds);
    if forall row: nat :: RowRight(roots, n, adds, row) {
      forall p: nat ensures p in Elements(listed) <==> p in Overwritten(trees, n, m, S) {
        InElements(listed, p);
        RightListed(trees, n, adds, S, p);
      }
    }
    if Elements(listed) == Overwritten(trees, n, m, S) {
      forall row: nat ensures RowRight(roots, n, adds, row) { ListedRight(trees, n, adds, S, row); }
    }
  }

  lemma RightListed(trees: seq<Tree>, n: nat, adds: nat, S: nat, p: nat)
    requires |trees| == PopCount(n) && Fits(n + adds, S) && forall row: nat :: RowRight(Hashes(trees), n, adds, row)
    ensures p in Destroys(Hashes(trees), n, 0, adds, S) <==> p in Overwritten(trees, n, n + adds, S)
  {
    hide Shr, PopCount, Destroys, Overwritten, Pow2, OverRow, Lists, IsRootSlot;
    ListIs(Hashes(trees), n, adds, S, p);
    OverwrittenRow(trees, n, n + adds, S, p);
    forall row: nat ensures Lists(Hashes(trees), n, adds, row) <==> OverRow(Hashes(trees), n, n + adds, row) {
      assert RowRight(Hashes(trees), n, adds, row);
    }
  }

  lemma ListedRight(trees: seq<Tree>, n: nat, adds: nat, S: nat, row: nat)
    requires |trees| == PopCount(n) && Fits(n + adds, S)
    requires Elements(Destroys(Hashes(trees), n, 0, adds, S)) == Overwritten(trees, n, n + adds, S)
    ensures RowRight(Hashes(trees), n, adds, row)
  {
    hide Shr, PopCount, Destroys, Overwritten, Pow2, Lists, IsRootSlot, RowOf, RootEmpty;
    var roots, m := Hashes(trees), n + adds;
    if Lists(roots, n, adds, row) || OverRow(roots, n, m, row) {
      if Lists(roots, n, adds, row) { ListsOdd(roots, n, adds, row); }
      var p := RootStands(n, row, m, S);
      SlotRow(p, n, row, m, S);
      InElements(Destroys(roots, n, 0, adds, S), p);
      ListIs(roots, n, adds, S, p);
      OverwrittenRow(trees, n, m, S, p);
      forall other: nat | IsRootSlot(p, n, other, S) ensures other == row { SlotRow(p, n, other, m, S); }
    }
  }

  // ----- where the leaves start -----

  /** The row of a leaf's path at which it meets the next root. */
  ghost predicate Climbing(n: nat, m: nat, S: nat, base: nat) {
    n < m && Fits(m, S) && Shr(n + 1, base) == Shr(n, base) + 1
  }

  lemma SpineSlot(n: nat, m: nat, S: nat, base: nat)
    requires Climbing(n, m, S, base)
    ensures base <= S && Shr(n, base) + 1 <= Pow2(S - base)
    ensures var x := Encode(base, Shr(n, base), S);
            Valid(x, m, S) && RowOf(x, S) == base && OffOf(x, S) == Shr(n, base)
            && (Shr(n, base) % 2 == 1 ==> !IsRootPosition(x, m, S) && base < S)
  {
    hide RowOf, OffOf, Shr, Encode, Pow2, IsRootPosition;
    ShrMonotone(n + 1, m, base);
    ValidEncode(base, Shr(n, base), m, S);
    IsRootEncode(base, Shr(n, base), m, S);
    if Shr(n, base) % 2 == 1 && base == S { TopSlotZero(Shr(n, base)); }
  }

  lemma TopSlotZero(off: nat)
    requires off < Pow2(0)
    ensures off == 0
  {
  }

  /** The roots of the forest with l leaves that have been empty since there were n. */
  ghost predicate Since(roots: seq<Hash>, l: nat, before: seq<Hash>, n: nat)
    requires |roots| == PopCount(l) && |before| == PopCount(n)
  {
    n <= l && forall row: nat :: EmptyRow(roots, l, row) <==> EmptyRow(before, n, row) && Shr(l, row) == Shr(n, row)
  }

  lemma SinceLater(roots: seq<Hash>, l: nat, before: seq<Hash>, n: nat)
    requires |roots| == PopCount(l) && |before| == PopCount(n) && Since(roots, l, before, n)
    ensures n <= l
  {
  }

  lemma SinceNext(roots: seq<Hash>, l: nat, before: seq<Hash>, n: nat, h: Hash, next: seq<Hash>, later: nat)
    requires |roots| == PopCount(l) && |before| == PopCount(n) && Since(roots, l, before, n) && !h.Empty?
    requires next == CarryHashes(roots, l, h) && later == l + 1 && |next| == PopCount(later)
    ensures Since(next, later, before, n)
  {
    hide Shr, PopCount, EmptyRow, CarryHashes;
    forall row: nat
      ensures EmptyRow(next, later, row) <==> EmptyRow(before, n, row) && Shr(later, row) == Shr(n, row)
    {
      CarryRow(roots, l, h, row);
      ShrMonotone(n, l, row);
      ShrMonotone(l, later, row);
    }
  }

  lemma SpineFree(trees: seq<Tree>, n: nat, l: nat, m: nat, S: nat, base: nat, x: nat)
    requires |trees| == PopCount(n) && n <= l && Climbing(l, m, S, base) && base <= S
    requires x == Encode(base, Shr(l, base), S)
    ensures x !in Overwritten(trees, n, m, S)
  {
    hide RowOf, OffOf, Shr, Encode, Pow2, IsRootPosition, PopCount, Overwritten, Valid, OverRow;
    SpineSlot(l, m, S, base);
    ShrMonotone(n, l, base);
    OverwrittenSlot(trees, n, m, S, x);
  }

  /** A root beside the path of the leaf l is a hole if and only if it is written over. */
  lemma SpineBeside(trees: seq<Tree>, n: nat, now: seq<Tree>, l: nat, m: nat, S: nat, base: nat, off: nat, y: nat)
    requires |trees| == PopCount(n) && |now| == PopCount(l) && Fits(m, S) && off + 1 == Shr(l, base)
    requires Shr(l, base) % 2 == 1
    requires Climbing(l, m, S, base) && base <= S && y == Encode(base, off, S)
    requires Since(Hashes(now), l, Hashes(trees), n)
    ensures RootIndex(l, base) < |now|
    ensures y in Overwritten(trees, n, m, S) <==> now[RootIndex(l, base)] == Nil
  {
    hide RowOf, OffOf, Shr, Encode, Pow2, IsRootPosition, PopCount, Overwritten, Valid, EmptyRow, RootIndex, Since,
      Hashes, OverRow, TreeRows, Merkle;
    SinceLater(Hashes(now), l, Hashes(trees), n);
    ShrMonotone(l + 1, m, base);
    BesideSlot(trees, n, m, S, base, off, y);
    OverSince(Hashes(now), l, Hashes(trees), n, m, base, off + 1);
    EmptyTree(now, l, base);
  }

  lemma BesideSlot(trees: seq<Tree>, n: nat, m: nat, S: nat, base: nat, off: nat, y: nat)
    requires |trees| == PopCount(n) && n <= m && Fits(m, S) && off < Shr(m, base)
    requires base <= S && y == Encode(base, off, S)
    ensures y in Overwritten(trees, n, m, S) <==> OverRow(Hashes(trees), n, m, base) && off + 1 == Shr(n, base)
  {
    hide RowOf, OffOf, Shr, Encode, Pow2, PopCount, Overwritten, Valid, OverRow, Hashes, TreeRows;
    ValidEncode(base, off, m, S);
    OverwrittenSlot(trees, n, m, S, y);
  }

  lemma OverSince(roots: seq<Hash>, l: nat, before: seq<Hash>, n: nat, m: nat, row: nat, end: nat)
    requires |roots| == PopCount(l) && |before| == PopCount(n) && Since(roots, l, before, n)
    requires end == Shr(l, row) && end < Shr(m, row)
    ensures OverRow(before, n, m, row) && end == Shr(n, row) <==> EmptyRow(roots, l, row)
  {
    hide EmptyRow, Shr, PopCount;
  }

  lemma EmptyTree(trees: seq<Tree>, n: nat, row: nat)
    requires |trees| == PopCount(n) && Shr(n, row) % 2 == 1
    ensures RootIndex(n, row) < |trees|
    ensures EmptyRow(Hashes(trees), n, row) <==> trees[RootIndex(n, row)] == Nil
  {
    hide Shr, PopCount;
    RootIndexBound(n, row);
    if trees[RootIndex(n, row)] != Nil { NotEmpty(trees[RootIndex(n, row)]); }
  }

  /** Each leaf meets fillers exactly at the roots that are written over. */
  lemma {:induction false} SpineLinked(full: seq<Tree>, trees: seq<Tree>, n: nat, l: nat, m: nat, S: nat, base: nat,
                                       gone: set<nat>, dels: set<nat>)
    requires |trees| == PopCount(n) && |full| == PopCount(l) && Climbing(l, m, S, base)
    requires PopCount(Shr(l, base)) <= |full|
    requires Since(Hashes(PruneAll(full, gone)), l, Hashes(trees), n) && dels == Overwritten(trees, n, m, S)
    ensures Linked(full[..PopCount(Shr(l, base))], Shr(l, base), base, S, gone, dels, m)
    decreases S - base
  {
    hide RowOf, OffOf, Shr, Encode, Pow2, Valid, IsRootPosition, Overwritten, Sibling, PopCount, PruneAll, Since;
    SpineSlot(l, m, S, base);
    SinceLater(Hashes(PruneAll(full, gone)), l, Hashes(trees), n);
    SpineFree(trees, n, l, m, S, base, Encode(base, Shr(l, base), S));
    var nb := Shr(l, base);
    if nb % 2 == 1 {
      SpineSibling(nb, base, S, m, Encode(base, nb, S));
      SpineBeside(trees, n, PruneAll(full, gone), l, m, S, base, nb - 1, Encode(base, nb - 1, S));
      ShrStep(l, base);
      ShrStep(l + 1, base);
      HalfCount(nb);
      SpineLinked(full, trees, n, l, m, S, base + 1, gone, dels);
      var prefix := full[..PopCount(nb)];
      assert prefix[..|prefix| - 1] == full[..PopCount(Shr(l, base + 1))];
      assert PruneAll(full, gone)[RootIndex(l, base)] == Prune(prefix[|prefix| - 1], gone);
    }
  }

  /** The path of a leaf that is to be added lies beside all roots. */
  lemma PathOff(l: nat, m: nat, S: nat, a: nat)
    requires l < m && Fits(m, S) && Valid(l, m, S) && a in PathOf(l, m, S)
    ensures Valid(a, m, S) && OffOf(a, S) == Shr(l, RowOf(a, S))
  {
    hide RowOf, OffOf, Shr, PathOf, Valid, IsRootPosition, Parent;
    FirstLeaf(l, m, S);
    PathOfFacts(l, m, S, a);
    PathShift(l, m, S, a);
    assert RowOf(a, S) - RowOf(l, S) == RowOf(a, S);
  }

  /** On the path of the leaf l the roots that are written over are those that are so from l leaves on. */
  lemma SameSiblings(trees: seq<Tree>, n: nat, roots: seq<Hash>, l: nat, m: nat, S: nat, a: nat)
    requires |trees| == PopCount(n) && |roots| == PopCount(l) && l < m && Fits(m, S)
    requires Since(roots, l, Hashes(trees), n)
    requires RoundsRight(roots, l, m) && Valid(l, m, S) && a in PathOf(l, m, S) && !IsRootPosition(a, m, S)
    ensures Sibling(a) in Destroys(roots, l, 0, m - l, S) <==> Sibling(a) in Overwritten(trees, n, m, S)
  {
    hide RowOf, OffOf, Shr, Encode, Pow2, Valid, IsRootPosition, Overwritten, Sibling, PopCount, Destroys, RoundsRight,
      PathOf, EmptyRow, Level, Parent;
    PathOff(l, m, S, a);
    Climb(a, m, S);
    var b := Sibling(a);
    var row := RowOf(b, S);
    ShrMonotone(n, l, row);
    OverwrittenSlot(trees, n, m, S, b);
    ListedSlot(roots, l, m, S, b);
  }

  lemma ListedSlot(roots: seq<Hash>, n: nat, m: nat, S: nat, p: nat)
    requires |roots| == PopCount(n) && n < m && Fits(m, S) && RoundsRight(roots, n, m) && Valid(p, m, S)
    ensures p in Destroys(roots, n, 0, m - n, S) <==>
            OverRow(roots, n, m, RowOf(p, S)) && OffOf(p, S) + 1 == Shr(n, RowOf(p, S))
  {
    hide RowOf, OffOf, Shr, PopCount, Encode, Pow2, OverRow, Destroys, Valid, RoundsRight;
    ListedOver(roots, n, m, S, p);
    Decode(p, m, S);
    if row: nat :| OverRow(roots, n, m, row) && IsRootSlot(p, n, row, S) {
      SlotRow(p, n, row, m, S);
    }
    if OverRow(roots, n, m, RowOf(p, S)) && OffOf(p, S) + 1 == Shr(n, RowOf(p, S)) {
      assert IsRootSlot(p, n, RowOf(p, S), S);
    }
  }

  lemma StartMoves(roots: seq<Hash>, l: nat, m: nat, S: nat)
    requires |roots| == PopCount(l) && l < m && Fits(m, S) && RoundsRight(roots, l, m) && MasksHold(roots, l, m)
    ensures StartAt(roots, l, m, S) == MoveAll(l, Destroys(roots, l, 0, m - l, S), m, S)
  {
    hide PopCount, Destroys, RoundsRight, MasksHold, PushAll, MoveAll, Reachable, Valid, Shr, RowOf, OffOf;
    var ds := Destroys(roots, l, 0, m - l, S);
    FirstLeaf(l, m, S);
    ListedReach(roots, l, m, S);
    PositionWord(l, m, S);
    PushesMove(l, ds, |ds|, m, S);
    assert ds[..|ds|] == ds;
  }

  /** The loop over the destroyed roots starts each leaf where all roots written over put it. */
  lemma StartStands(trees: seq<Tree>, n: nat, roots: seq<Hash>, l: nat, m: nat, S: nat)
    requires |trees| == PopCount(n) && |roots| == PopCount(l) && l < m && Fits(m, S)
    requires Since(roots, l, Hashes(trees), n)
    requires RoundsRight(roots, l, m) && MasksHold(roots, l, m)
    ensures Valid(l, m, S) && StartAt(roots, l, m, S) == Moved(l, Overwritten(trees, n, m, S), m, S)
  {
    hide RowOf, OffOf, Shr, Pow2, Valid, IsRootPosition, Overwritten, Sibling, PopCount, Destroys, RoundsRight,
      MasksHold, PathOf, Since, MasksReach, MoveAll, Moved, RowsRise, RowsFrom, StartAt;
    var ds := Destroys(roots, l, 0, m - l, S);
    FirstLeaf(l, m, S);
    ListRises(roots, l, 0, m - l, S);
    ListedReach(roots, l, m, S);
    forall i | 0 <= i < |ds| ensures Valid(ds[i], m, S) && ds[i] !in PathOf(l, m, S) {
      ListedSlot(roots, l, m, S, ds[i]);
      if ds[i] in PathOf(l, m, S) { PathOff(l, m, S, ds[i]); }
    }
    assert ds[..|ds|] == ds;
    StartMoves(roots, l, m, S);
    MoveAllRising(l, ds, |ds|, m, S);
    forall a | a in PathOf(l, m, S) && !IsRootPosition(a, m, S)
      ensures Sibling(a) in Elements(ds) <==> Sibling(a) in Overwritten(trees, n, m, S)
    {
      SameSiblings(trees, n, roots, l, m, S, a);
      InElements(ds, Sibling(a));
    }
    MovedAgree(l, Elements(ds), Overwritten(trees, n, m, S), m, S);
  }

  lemma {:induction false} LeavesLinked(full: seq<Tree>, trees: seq<Tree>, n: nat, l: nat, ids: seq<nat>, m: nat,
                                        S: nat, gone: set<nat>, dels: set<nat>)
    requires |trees| == PopCount(n) && |full| == PopCount(l) && m == l + |ids| && Fits(m, S) && NoHoles(full)
    requires Since(Hashes(PruneAll(full, gone)), l, Hashes(trees), n) && dels == Overwritten(trees, n, m, S)
    requires Plain(Hashes(PruneAll(full, gone)), l, LeafHashes(ids)) && forall i :: 0 <= i < |ids| ==> ids[i] !in gone
    ensures AllLinked(full, l, ids, S, gone, dels, m)
    decreases |ids|
  {
    hide RowOf, OffOf, Shr, Encode, Pow2, Valid, IsRootPosition, Overwritten, Sibling, PopCount, PruneAll, Since, Plain,
      Linked, Carry, AllLinked, StartAt, Moved, CarryHashes, LeafHashes;
    if ids == [] {
      NoneLinked(full, l, ids, S, gone, dels, m);
    } else {
      var t := Tip(ids[0]);
      var now := PruneAll(full, gone);
      ShrZero(l);
      ShrZero(l + 1);
      SpineLinked(full, trees, n, l, m, S, 0, gone, dels);
      assert full[..|full|] == full;
      PlainFacts(Hashes(now), l, LeafHashes(ids), m);
      StartStands(trees, n, Hashes(now), l, m, S);
      FirstLeaf(l, m, S);
      Decode(l, m, S);
      CarryNew(full, l, t);
      LeafRest(ids);
      PlainNext(Hashes(now), l, LeafHashes(ids));
      NextHashes(full, l, ids[0], gone);
      SinceNext(Hashes(now), l, Hashes(trees), n, LeafHash(ids[0]), Hashes(PruneAll(Carry(full, l, t), gone)), l + 1);
      LeavesLinked(Carry(full, l, t), trees, n, l + 1, ids[1..], m, S, gone, dels);
      AllLinkedCons(full, l, ids, S, gone, dels, m, Carry(full, l, t));
    }
  }

  lemma LeafRest(ids: seq<nat>)
    requires ids != []
    ensures LeafHashes(ids)[0] == LeafHash(ids[0]) && LeafHashes(ids)[1..] == LeafHashes(ids[1..])
    ensures LeafHashes(ids) != []
  {
  }

  /** The root hashes after one more leaf. */
  lemma NextHashes(full: seq<Tree>, n: nat, id: nat, gone: set<nat>)
    requires |full| == PopCount(n) && NoHoles(full) && id !in gone
    ensures |Carry(full, n, Tip(id))| == PopCount(n + 1)
    ensures Hashes(PruneAll(Carry(full, n, Tip(id)), gone)) ==
            CarryHashes(Hashes(PruneAll(full, gone)), n, LeafHash(id))
  {
    hide Carry, CarryHashes;
    CarryLength(full, n, Tip(id));
    PruneCarry(full, n, Tip(id), gone);
    CarryCommutes(PruneAll(full, gone), n, Tip(id));
  }

  lemma PlainFacts(roots: seq<Hash>, n: nat, utxos: seq<Hash>, m: nat)
    requires |roots| == PopCount(n) && Plain(roots, n, utxos) && m == n + |utxos|
    ensures RoundsRight(roots, n, m) && MasksHold(roots, n, m)
  {
  }

  lemma NoneLinked(full: seq<Tree>, n: nat, ids: seq<nat>, S: nat, gone: set<nat>, dels: set<nat>, m: nat)
    requires |full| == PopCount(n) && Fits(m, S) && ids == []
    ensures AllLinked(full, n, ids, S, gone, dels, m)
  {
  }

  lemma AllLinkedCons(full: seq<Tree>, n: nat, ids: seq<nat>, S: nat, gone: set<nat>, dels: set<nat>, m: nat,
                      next: seq<Tree>)
    requires Fits(m, S) && |full| == PopCount(n) && ids != [] && |next| == PopCount(n + 1)
    requires next == Carry(full, n, Tip(ids[0]))
    requires ids[0] !in gone && AllLinked(next, n + 1, ids[1..], S, gone, dels, m)
    requires Linked(full, n, 0, S, gone, dels, m)
    requires m == n + |ids| && Encode(0, n, S) == n && Valid(n, m, S)
    requires StartAt(Hashes(PruneAll(full, gone)), n, m, S) == Moved(n, dels, m, S)
    ensures AllLinked(full, n, ids, S, gone, dels, m)
  {
    hide Valid, Moved, Carry, Encode, Linked, StartAt, Hashes, PruneAll, PopCount;
  }

  // ----- what stands there -----

  /** The last bottom slot below q. */
  lemma {:induction false} LastBelow(q: nat, n: nat, m: nat, S: nat) returns (x: nat)
    requires Fits(m, S) && Valid(q, m, S) && OffOf(q, S) >= Shr(n, RowOf(q, S))
    ensures Valid(x, m, S) && RowOf(x, S) == 0 && q in PathOf(x, m, S) && n <= OffOf(x, S)
    decreases RowOf(q, S)
  {
    hide RowOf, OffOf, Shr, IsRootPosition, Parent, Sibling, Level, PathOf, Valid, LeftChild;
    if RowOf(q, S) == 0 {
      ShrZero(n);
      SelfPath(q, m, S);
      x := q;
    } else {
      ChildCoords(q, 1, m, S);
      var r := LeftChild(q, S) + 1;
      ShrStep(n, RowOf(r, S));
      x := LastBelow(r, n, m, S);
      ParentPath(r, m, S);
      SelfPath(q, m, S);
      PathTrans(x, r, q, m, S);
    }
  }

  /** Something of every new slot but a hole stays when the fillers are taken out. */
  lemma NewSurvives(trees: seq<Tree>, n: nat, ids: seq<nat>, full: seq<Tree>, gone: set<nat>, grown: seq<Tree>, m: nat,
                    S: nat, q: nat)
    requires FilledGrowth(trees, n, ids, full, gone, grown, m, S) && IsNew(q, n, m, S) && !HoleAt(trees, n, S, q)
    ensures Prune(At(grown, m, S, q), gone) != Nil
  {
    hide RowOf, OffOf, Shr, AddAll, PopCount, WellFormed, At, Prune, Valid, Fresh;
    if OffOf(q, S) < Shr(n, RowOf(q, S)) {
      OldRootStays(trees, n, ids, full, gone, grown, m, S, q);
    } else {
      var x := LastBelow(q, n, m, S);
      NewLeafThere(trees, n, ids, full, gone, grown, m, S, x);
      var id := At(grown, m, S, x).id;
      IdsAbove(grown, m, S, x, q, id);
      if Prune(At(grown, m, S, q), gone) == Nil { GoneNothing(At(grown, m, S, q), gone, id); }
    }
  }

  lemma GoneNothing(t: Tree, gone: set<nat>, id: nat)
    requires Prune(t, gone) == Nil && id in Ids(t)
    ensures id in gone
  {
    PruneIds(t, gone);
    assert Ids(Prune(t, gone))[id] == 0;
  }

  lemma OldRootStays(trees: seq<Tree>, n: nat, ids: seq<nat>, full: seq<Tree>, gone: set<nat>, grown: seq<Tree>, m: nat,
                     S: nat, q: nat)
    requires FilledGrowth(trees, n, ids, full, gone, grown, m, S) && Valid(q, m, S) && !HoleAt(trees, n, S, q)
    requires RootCoord(RowOf(q, S), OffOf(q, S), n) && OffOf(q, S) >= 0
    ensures Prune(At(grown, m, S, q), gone) != Nil
  {
    hide RowOf, OffOf, Shr, AddAll, PopCount, Shape, AllIds, NodeAt, Fresh;
    var row, off := RowOf(q, S), OffOf(q, S);
    RootIndexBound(n, row);
    AddStable(full, n, ids, row, off);
    NodeAtRoot(full, n, row, off);
    var t := trees[RootIndex(n, row)];
    ShapeEach(full, n, 0, RootIndex(n, row));
    PruneNothing(t, gone);
  }

  /** On the bottom row from n on stand the new leaves. */
  lemma NewLeafThere(trees: seq<Tree>, n: nat, ids: seq<nat>, full: seq<Tree>, gone: set<nat>, grown: seq<Tree>, m: nat,
                     S: nat, x: nat)
    requires FilledGrowth(trees, n, ids, full, gone, grown, m, S)
    requires Valid(x, m, S) && RowOf(x, S) == 0 && n <= OffOf(x, S)
    ensures At(grown, m, S, x).Tip? && At(grown, m, S, x).id !in gone
  {
    hide RowOf, OffOf, Shr, AddAll, PopCount, WellFormed, NodeAt;
    ShrZero(m);
    NewLeafNode(full, n, ids, OffOf(x, S) - n);
  }

  /** The k-th new leaf stands at the k-th new slot of the bottom row. */
  lemma {:induction false} NewLeafNode(trees: seq<Tree>, n: nat, ids: seq<nat>, k: nat)
    requires |trees| == PopCount(n) && NoHoles(trees) && k < |ids|
    ensures |AddAll(trees, n, ids)| == PopCount(n + |ids|) && n + k < Shr(n + |ids|, 0)
    ensures NodeAt(AddAll(trees, n, ids), n + |ids|, 0, n + k) == Tip(ids[k])
    decreases |ids|
  {
    hide NodeAt, Carry;
    ShrZero(n + |ids|);
    CarryNew(trees, n, Tip(ids[0]));
    var next := Carry(trees, n, Tip(ids[0]));
    if k > 0 {
      NewLeafNode(next, n + 1, ids[1..], k - 1);
    } else {
      ShrZero(n + 1);
      AddStable(next, n + 1, ids[1..], 0, n);
    }
  }

  /** A slot of the grown forest that survives stands where it moves. */
  lemma StandsThere(trees: seq<Tree>, n: nat, ids: seq<nat>, full: seq<Tree>, gone: set<nat>, grown: seq<Tree>, m: nat,
                    S: nat, q: nat)
    requires FilledGrowth(trees, n, ids, full, gone, grown, m, S) && Valid(q, m, S)
    requires Prune(At(grown, m, S, q), gone) != Nil
    ensures |AddAll(trees, n, ids)| == PopCount(m)
    ensures At(AddAll(trees, n, ids), m, S, Moved(q, Overwritten(trees, n, m, S), m, S)) ==
            Prune(At(grown, m, S, q), gone)
    ensures !HoleAt(trees, n, S, q)
  {
    hide RowOf, OffOf, AddAll, PopCount, WellFormed, At, Valid, HoleAt, Moved, Overwritten, Tops, Kept, PruneAll,
      LeafTargets;
    var block, tops := HolesDeleted(trees, n, ids, full, gone, grown, m, S);
    MovedOverHoles(trees, n, m, S, block, tops, q);
    PruneOfNil(At(grown, m, S, q), gone);
    KeptSurvives(grown, m, S, block, tops, gone, q);
    MovedAt(grown, m, S, block, tops, gone, q);
    if HoleAt(trees, n, S, q) {
      HoleFilled(trees, n, ids, full, gone, grown, m, S, q);
    }
  }

  lemma PruneOfNil(t: Tree, gone: set<nat>)
    ensures Prune(t, gone) != Nil ==> t != Nil
  {
  }

  /** The nodes that the additions enter are those that land. */
  lemma LandedNode(trees: seq<Tree>, n: nat, ids: seq<nat>, full: seq<Tree>, gone: set<nat>, grown: seq<Tree>, m: nat,
                   S: nat, row: nat, off: nat, node: Node<Hash>)
    requires FilledGrowth(trees, n, ids, full, gone, grown, m, S)
    requires NewNode(full, n, ids, S, gone, Overwritten(trees, n, m, S), m, row, off, node)
    ensures |AddAll(trees, n, ids)| == PopCount(m) && node.1 == Current(AddAll(trees, n, ids), m, S)(node.0)
    ensures Lands(trees, n, m, S, node.0)
  {
    hide RowOf, OffOf, AddAll, PopCount, WellFormed, NodeAt, HoleAt, Moved, Overwritten, NewSlot, Encode, Prune, Merkle,
      Fresh;
    NewSlotValid(n, m, row, off);
    ValidEncode(row, off, m, S);
    var q := Encode(row, off, S);
    StandsThere(trees, n, ids, full, gone, grown, m, S, q);
    assert IsNew(q, n, m, S);
  }

  lemma NewSlotValid(n: nat, m: nat, row: nat, off: nat)
    requires NewSlot(n, m, row, off)
    ensures off < Shr(m, row)
  {
  }

  lemma LandingNode(trees: seq<Tree>, n: nat, ids: seq<nat>, full: seq<Tree>, gone: set<nat>, grown: seq<Tree>, m: nat,
                    S: nat, q: nat)
    returns (node: Node<Hash>)
    requires FilledGrowth(trees, n, ids, full, gone, grown, m, S) && IsNew(q, n, m, S) && !HoleAt(trees, n, S, q)
    ensures node.0 == Moved(q, Overwritten(trees, n, m, S), m, S) && OffOf(q, S) >= 0
    ensures NewNode(full, n, ids, S, gone, Overwritten(trees, n, m, S), m, RowOf(q, S), OffOf(q, S), node)
  {
    hide RowOf, OffOf, AddAll, PopCount, WellFormed, NodeAt, HoleAt, Moved, Overwritten, NewSlot, Encode, Prune, Merkle,
      Fresh;
    NewSurvives(trees, n, ids, full, gone, grown, m, S, q);
    Decode(q, m, S);
    node := (Moved(q, Overwritten(trees, n, m, S), m, S), Merkle(Prune(At(grown, m, S, q), gone)));
  }

  /** The update data of `Stump::add` for plain additions. */
  lemma NewAddData(trees: seq<Tree>, n: nat, ids: seq<nat>, nodes: seq<Node<Hash>>)
    requires WellFormed(trees, n) && |trees| == PopCount(n) && n + |ids| <= MAX_LEAVES && Fresh(trees, ids)
    requires Plain(Hashes(trees), n, LeafHashes(ids)) && Ordered(nodes) && TreeRows(n + |ids|) < 62
    requires multiset(nodes) == multiset(AllInserted(Hashes(trees), n, LeafHashes(ids), TreeRows(n + |ids|)))
    ensures NewAddExact(trees, n, ids, nodes)
  {
    hide Merkle, AllInserted, TreeRows, Ordered, PopCount, AddAll, Current, Hashes, LeafHashes, Plain, Fresh,
      WellFormed, Lands, Moved;
    var m, S := n + |ids|, TreeRows(n + |ids|);
    TreeRowsFit(m);
    var all := AllInserted(Hashes(trees), n, LeafHashes(ids), S);
    SetMembers(nodes, all);
    if ids == [] {
      NoneLand(trees, n, ids, S);
    } else {
      var full, gone := FillExists(trees, n, ids);
      var grown := AddAll(full, n, ids);
      forall node | node in all
        ensures node.1 == Current(AddAll(trees, n, ids), m, S)(node.0) && Lands(trees, n, m, S, node.0)
      {
        EnteredNode(trees, n, ids, full, gone, grown, m, S, node);
      }
      forall b | Lands(trees, n, m, S, b) ensures exists node :: node in all && node.0 == b {
        var node := NodeEntered(trees, n, ids, full, gone, grown, m, S, b);
      }
    }
    assert Carries(nodes, Current(AddAll(trees, n, ids), m, S));
    SetOrdered(nodes, all, Current(AddAll(trees, n, ids), m, S));
    forall b ensures Holds(nodes, b) <==> Lands(trees, n, m, S, b) {
      if Lands(trees, n, m, S, b) {
        var node :| node in all && node.0 == b;
        assert node in nodes;
      }
    }
  }

  lemma NoneLand(trees: seq<Tree>, n: nat, ids: seq<nat>, S: nat)
    requires |trees| == PopCount(n) && ids == [] && Fits(n, S)
    ensures AllInserted(Hashes(trees), n, LeafHashes(ids), S) == {}
    ensures forall b :: !Lands(trees, n, n, S, b)
  {
    hide RowOf, OffOf, PopCount, HoleAt, Overwritten, Moved, Shr, NewSlot;
    forall q: nat ensures !IsNew(q, n, n, S) {
      if IsNew(q, n, n, S) { NewSlotNone(n, RowOf(q, S), OffOf(q, S)); }
    }
  }

  lemma FromStart(full: seq<Tree>, trees: seq<Tree>, n: nat, ids: seq<nat>, m: nat, S: nat, gone: set<nat>)
    requires |trees| == PopCount(n) && m == n + |ids| && Fits(m, S) && Filled(full, trees, n, ids, gone)
    requires Plain(Hashes(trees), n, LeafHashes(ids))
    ensures |full| == PopCount(n) && NoHoles(full) && PruneAll(full, gone) == trees
    ensures AllLinked(full, n, ids, S, gone, Overwritten(trees, n, m, S), m)
  {
    hide Overwritten, WellFormed, PopCount, Hashes, LeafHashes, Plain, AllLinked, EmptyRow, Fresh, Shr;
    FilledPruned(full, trees, n, ids, gone);
    LeavesLinked(full, trees, n, n, ids, m, S, gone, Overwritten(trees, n, m, S));
  }

  lemma EnteredNode(trees: seq<Tree>, n: nat, ids: seq<nat>, full: seq<Tree>, gone: set<nat>, grown: seq<Tree>, m: nat,
                    S: nat, node: Node<Hash>)
    requires FilledGrowth(trees, n, ids, full, gone, grown, m, S)
    requires Plain(Hashes(trees), n, LeafHashes(ids))
    requires node in AllInserted(Hashes(trees), n, LeafHashes(ids), S)
    ensures |AddAll(trees, n, ids)| == PopCount(m) && node.1 == Current(AddAll(trees, n, ids), m, S)(node.0)
    ensures Lands(trees, n, m, S, node.0)
  {
    hide NewNode, Merkle, AllInserted, TreeRows, RowOf, OffOf, NewSlot, Valid, AddAll, At, PopCount, Hashes, LeafHashes,
      NoHoles, Shr, Pow2, WellFormed, Plain, Fresh, Overwritten, Moved, HoleAt, AllLinked;
    FilledPruned(full, trees, n, ids, gone);
    FromStart(full, trees, n, ids, m, S, gone);
    var row, off := AllInsertedFrom(full, n, ids, S, gone, Overwritten(trees, n, m, S), m, node);
    LandedNode(trees, n, ids, full, gone, grown, m, S, row, off, node);
  }

  lemma NodeEntered(trees: seq<Tree>, n: nat, ids: seq<nat>, full: seq<Tree>, gone: set<nat>, grown: seq<Tree>, m: nat,
                    S: nat, b: nat)
    returns (node: Node<Hash>)
    requires FilledGrowth(trees, n, ids, full, gone, grown, m, S)
    requires Plain(Hashes(trees), n, LeafHashes(ids)) && Lands(trees, n, m, S, b)
    ensures node.0 == b
    ensures node in AllInserted(Hashes(trees), n, LeafHashes(ids), S)
  {
    hide NewNode, Merkle, AllInserted, TreeRows, RowOf, OffOf, NewSlot, Valid, AddAll, At, PopCount, Hashes, LeafHashes,
      NoHoles, Shr, Pow2, WellFormed, Plain, Fresh, Overwritten, Moved, HoleAt, AllLinked;
    FilledPruned(full, trees, n, ids, gone);
    FromStart(full, trees, n, ids, m, S, gone);
    var q: nat :| IsNew(q, n, m, S) && !HoleAt(trees, n, S, q) && Moved(q, Overwritten(trees, n, m, S), m, S) == b;
    node := LandingNode(trees, n, ids, full, gone, grown, m, S, q);
    AllInsertedHas(full, n, ids, S, gone, Overwritten(trees, n, m, S), m, RowOf(q, S), OffOf(q, S), node);
  }

  // ----- the roots that are written over, in order -----

  /** For plain additions the list is exact, goes upwards and is within reach. */
  lemma DestroyedIs(trees: seq<Tree>, n: nat, utxos: seq<Hash>, S: nat)
    requires |trees| == PopCount(n) && n + |utxos| <= MAX_LEAVES && S == TreeRows(n + |utxos|)
    requires Plain(Hashes(trees), n, utxos)
    ensures Fits(n + |utxos|, S)
    ensures var ds := Destroys(Hashes(trees), n, 0, |utxos|, S);
            && RowsRise(ds, S) && Elements(ds) == Overwritten(trees, n, n + |utxos|, S)
            && forall i :: 0 <= i < |ds| ==> MasksReach(ds[i], S)
  {
    hide RowOf, OffOf, Shr, PopCount, Overwritten, TreeRows, RowsRise, RowsFrom, EmptyRow, TreatedRight, Destroys,
      MasksHold, Pow2, MasksReach;
    var m := n + |utxos|;
    TreeRowsFit(m);
    ListRises(Hashes(trees), n, 0, |utxos|, S);
    if utxos == [] {
      DestroysEnd(Hashes(trees), n, 0, S);
      NoneOver(trees, n, S);
    } else {
      ListedReach(Hashes(trees), n, m, S);
      forall row: nat | EmptyRow(Hashes(trees), n, row)
        ensures TreatedRight(n, |utxos|, row) { assert RightAt(n, m, row); }
      DestroysExact(trees, n, |utxos|, S);
    }
  }

  // ----- one deletion after the other, lowest row first -----

  lemma LowerInPlace(ds: seq<nat>, k: nat, m: nat, S: nat)
    requires Fits(m, S) && AllValid(ds, m, S) && RowsRise(ds, S) && k < |ds|
    ensures Valid(ds[k], m, S) && InPlace(ds[k], Elements(ds[..k]), m, S)
    ensures Calm(ds[k], Elements(ds[..k]), m, S)
    ensures forall a :: a in PathOf(ds[k], m, S) ==> a !in Elements(ds[..k])
  {
    hide RowOf, OffOf, IsRootPosition, Parent, Sibling, Level, PathOf, Valid;
    var d, dels := ds[k], Elements(ds[..k]);
    forall x | x in dels ensures RowOf(x, S) < RowOf(d, S) {
      var i :| 0 <= i < k && ds[..k][i] == x;
    }
    forall a | a in PathOf(d, m, S) ensures a !in dels && (!IsRootPosition(a, m, S) ==> Sibling(a) !in dels) {
      PathOfFacts(d, m, S, a);
      Climb(a, m, S);
    }
    Climb(d, m, S);
    if !IsRootPosition(d, m, S) { ParentPath(d, m, S); }
  }

  lemma {:induction false} MoveAllRising(p: nat, ds: seq<nat>, k: nat, m: nat, S: nat)
    requires Fits(m, S) && Valid(p, m, S) && AllValid(ds, m, S) && RowsRise(ds, S) && k <= |ds|
    requires forall i :: 0 <= i < |ds| ==> ds[i] !in PathOf(p, m, S)
    ensures MoveAll(p, ds[..k], m, S) == Moved(p, Elements(ds[..k]), m, S)
    decreases k
  {
    hide RowOf, OffOf, IsRootPosition, Valid, Level, Moved, MoveStep, PathOf, MoveAll, InPlace, Calm;
    if k == 0 {
      FoldStart(p, ds[..0], m, S);
      NoneMoves(p, m, S);
      assert ds[..0] == [];
    } else {
      MoveAllRising(p, ds, k - 1, m, S);
      FoldNext(p, ds, k - 1, m, S);
      LowerInPlace(ds, k - 1, m, S);
      MovedStep(p, Elements(ds[..k - 1]), ds[k - 1], m, S);
      assert ds[..k] == ds[..k - 1] + [ds[k - 1]];
      ElementsAppend(ds[..k - 1], ds[k - 1]);
    }
  }

  lemma NoneMoves(p: nat, m: nat, S: nat)
    requires Fits(m, S) && Valid(p, m, S)
    ensures Moved(p, Elements([]), m, S) == p
  {
    hide RowOf, Moved, Valid, IsRootPosition, PathOf, Sibling;
    CalmStays(p, Elements([]), m, S);
  }

  /** A sorted set of nodes that have the right hashes holds no position twice. */
  lemma SetOrdered(nodes: seq<Node<Hash>>, all: set<Node<Hash>>, val: nat -> Hash)
    requires multiset(nodes) == multiset(all) && Ordered(nodes) && Carries(nodes, val)
    ensures StrictlyOrdered(nodes)
  {
    forall i, j | 0 <= i < j < |nodes| ensures nodes[i].0 < nodes[j].0 {
      assert multiset(all)[nodes[i]] <= 1;
      if nodes[i].0 == nodes[j].0 { CountTwo(nodes, i, j); }
    }
  }

  lemma SetMembers<T>(s: seq<T>, all: set<T>)
    requires multiset(s) == multiset(all)
    ensures forall i :: 0 <= i < |s| ==> s[i] in all
    ensures forall x :: x in all ==> x in s
  {
    forall i | 0 <= i < |s| ensures s[i] in all { assert s[i] in multiset(s); }
    forall x | x in all ensures x in s { assert x in multiset(s); }
  }
}
