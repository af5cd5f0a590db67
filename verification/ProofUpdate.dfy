/** Keeping a cached proof up to date over the deletions of a block (`update_proof_remove` and
    `calc_next_positions`, src/proof/mod.rs). */
module ProofUpdates {
  import opened Bits
  import opened Positions
  import opened Digits
  import opened Offsets
  import opened Forest
  import opened ProofPositions
  import opened Slots
  import opened Walks
  import opened Paths
  import opened MergeLoop
  import opened ProofEngine
  import opened Moves
  import opened Detwins
  import opened TopSlots
  import opened MoveOrders

  // ----- calc_next_positions -----

  /** The 32-bit masks of `remove_bit` hold for every slot that the deletion of d moves. */
  predicate MasksReach(d: nat, rows: nat) {
    RowOf(d, rows) <= 30 || (RowOf(d, rows) == 31 && OffOf(d, rows) < 2)
  }

  lemma ReachHolds(x: nat, d: nat, n: nat, rows: nat)
    requires Fits(n, rows) && Valid(x, n, rows) && Valid(d, n, rows) && !IsRootPosition(d, n, rows)
    requires MasksReach(d, rows) && Valid(Parent(d, rows), n, rows) && Above(Parent(d, rows), x, rows)
    ensures RowOf(x, rows) <= RowOf(d, rows) < rows
    ensures MaskHolds(x, RowOf(d, rows) - RowOf(x, rows))
  {
    hide RowOf, OffOf, Shr, IsRootPosition, Parent, Sibling, Level, Pow2;
    AboveRows(x, d, n, rows);
    Climb(d, n, rows);
    Decode(Parent(d, rows), n, rows);
    Decode(x, n, rows);
    if RowOf(d, rows) == 31 && RowOf(x, rows) == 0 {
      SmallShr(OffOf(x, rows), 32);
      RowStartZero(rows);
    }
  }

  lemma {:induction false} SmallShr(a: nat, k: nat)
    requires Shr(a, k) == 0
    ensures a < Pow2(k)
    decreases k
  {
    if k > 0 { SmallShr(a / 2, k - 1); }
  }

  /** For one deleted subtree `calc_next_pos` finds the new position of every slot below its sibling
      if and only if the masks reach: from row 31 on they do not, except for the first pair there. */
  lemma MoveExact(d: nat, n: nat, rows: nat)
    requires Fits(n, rows) && Valid(d, n, rows) && !IsRootPosition(d, n, rows)
    ensures MovesAll(d, n, rows) <==> MasksReach(d, rows)
  {
    hide RowOf, OffOf, IsRootPosition, Parent, Sibling, PathOf, Valid, Level;
    if MasksReach(d, rows) {
      forall x: nat | Valid(x, n, rows) && Sibling(d) in PathOf(x, n, rows) ensures MovesRight(x, d, n, rows) {
        BelowSibling(x, d, n, rows);
        ReachMoves(x, d, n, rows);
      }
    } else {
      var x := FirstWrong(d, n, rows);
      assert !MovesRight(x, d, n, rows);
    }
  }

  ghost predicate MovesRight(x: nat, d: nat, n: nat, rows: nat)
    requires Fits(n, rows)
  {
    x < WORD && RowOf(x, rows) < rows && CalcNextPos(x, d, rows) == Some(MoveStep(x, d, n, rows))
  }

  ghost predicate MovesAll(d: nat, n: nat, rows: nat)
    requires Fits(n, rows)
  {
    forall x: nat :: Valid(x, n, rows) && Sibling(d) in PathOf(x, n, rows) ==> MovesRight(x, d, n, rows)
  }

  lemma {:induction false} PathAbove(x: nat, a: nat, n: nat, rows: nat)
    requires Fits(n, rows) && Valid(x, n, rows) && a in PathOf(x, n, rows)
    ensures Valid(a, n, rows) && (a == x || Above(a, x, rows))
    decreases Level(x, n, rows)
  {
    hide RowOf, OffOf, Shr, IsRootPosition, Parent, Sibling, Valid, Level;
    Climb(x, n, rows);
    Decode(x, n, rows);
    if a != x {
      PathAbove(Parent(x, rows), a, n, rows);
      Halve(OffOf(x, rows));
      if a != Parent(x, rows) { ShrCompose(OffOf(x, rows), 1, RowOf(a, rows) - RowOf(x, rows) - 1); }
    }
  }

  lemma BelowSibling(x: nat, d: nat, n: nat, rows: nat)
    requires Fits(n, rows) && Valid(x, n, rows) && Valid(d, n, rows) && !IsRootPosition(d, n, rows)
    requires Sibling(d) in PathOf(x, n, rows)
    ensures Valid(Parent(d, rows), n, rows) && Above(Parent(d, rows), x, rows)
  {
    hide RowOf, OffOf, Shr, IsRootPosition, Parent, Sibling, Valid, Level, PathOf, Above;
    Climb(d, n, rows);
    PathOfFacts(x, n, rows, Sibling(d));
    PathAbove(x, Parent(d, rows), n, rows);
  }

  /** Where the masks reach one step is right. */
  lemma ReachMoves(x: nat, d: nat, n: nat, rows: nat)
    requires Fits(n, rows) && Valid(x, n, rows) && Valid(d, n, rows) && !IsRootPosition(d, n, rows)
    requires MasksReach(d, rows) && Valid(Parent(d, rows), n, rows) && Above(Parent(d, rows), x, rows)
    ensures MovesRight(x, d, n, rows)
  {
    hide RowOf, OffOf, Shr, IsRootPosition, Parent, Sibling, CalcNextPos, Above, DropDigit, Encode, MaskHolds,
      MasksReach;
    ReachHolds(x, d, n, rows);
    PositionWord(x, n, rows);
    Decode(x, n, rows);
    NextPosEncode(RowOf(x, rows), OffOf(x, rows), d, rows);
  }

  /** Beyond the reach some slot 31 rows down goes wrong. */
  lemma FirstWrong(d: nat, n: nat, rows: nat) returns (x: nat)
    requires Fits(n, rows) && Valid(d, n, rows) && !IsRootPosition(d, n, rows) && !MasksReach(d, rows)
    ensures Valid(x, n, rows) && Sibling(d) in PathOf(x, n, rows) && !MovesRight(x, d, n, rows)
  {
    hide RowOf, OffOf, Shr, IsRootPosition, Parent, Sibling, Valid, Level, PathOf, Pow2, Encode, CalcNextPos,
      DropDigit, Above;
    Climb(d, n, rows);
    Decode(d, n, rows);
    Decode(Parent(d, rows), n, rows);
    x := SlotBelow(Sibling(d), 31, n, rows);
    BelowSibling(x, d, n, rows);
    Decode(x, n, rows);
    FarSlot(x, d, n, rows);
    NextPosWrong(RowOf(x, rows), OffOf(x, rows), d, rows);
  }

  /** Such a slot has a digit above the 32 that the masks cover. */
  lemma FarSlot(x: nat, d: nat, n: nat, rows: nat)
    requires Fits(n, rows) && Valid(d, n, rows) && !IsRootPosition(d, n, rows) && !MasksReach(d, rows)
    requires Valid(x, n, rows) && Sibling(d) in PathOf(x, n, rows) && RowOf(x, rows) + 31 == RowOf(d, rows) < rows
    ensures x >= Pow2(32)
  {
    hide RowOf, OffOf, Shr, IsRootPosition, Parent, Sibling, Valid, Level, PathOf;
    Climb(d, n, rows);
    Decode(x, n, rows);
    PathAbove(x, Sibling(d), n, rows);
    Pow2Monotone(32, rows);
    if RowOf(x, rows) == 0 {
      RowStartZero(rows);
      if OffOf(x, rows) < Pow2(32) { ShrBound(OffOf(x, rows), 32, 31); }
    } else {
      Pow2Monotone(rows + 1 - RowOf(x, rows), rows);
    }
  }

  lemma SubtreeOf(x: nat, d: nat, n: nat, rows: nat)
    requires Fits(n, rows) && Valid(x, n, rows) && Valid(d, n, rows)
    ensures RowOf(x, rows) <= rows && 0 <= OffOf(x, rows) < Shr(n, RowOf(x, rows))
    ensures RowOf(d, rows) <= rows && 0 <= OffOf(d, rows) < Shr(n, RowOf(d, rows))
    ensures var t, u := RootAbove(n, RowOf(x, rows), OffOf(x, rows)), RootAbove(n, RowOf(d, rows), OffOf(d, rows));
            RootIndex(n, t) == RootIndex(n, u) ==> t == u
  {
    hide RowOf, OffOf, RootIndex, Shr;
    var t, u := RootAbove(n, RowOf(x, rows), OffOf(x, rows)), RootAbove(n, RowOf(d, rows), OffOf(d, rows));
    if t < u { RootIndexInjective(n, t, u); }
    if u < t { RootIndexInjective(n, u, t); }
  }

  /** In another tree nothing moves. */
  lemma OtherTree(x: nat, d: nat, n: nat, rows: nat)
    requires Fits(n, rows) && Valid(x, n, rows) && Valid(d, n, rows)
    requires RowOf(x, rows) <= rows && 0 <= OffOf(x, rows) < Shr(n, RowOf(x, rows))
    requires RowOf(d, rows) <= rows && 0 <= OffOf(d, rows) < Shr(n, RowOf(d, rows))
    requires RootAbove(n, RowOf(x, rows), OffOf(x, rows)) != RootAbove(n, RowOf(d, rows), OffOf(d, rows))
    ensures MoveStep(x, d, n, rows) == x
  {
    hide RowOf, OffOf, Shr, IsRootPosition, Parent, Level, Sibling, RootIndex;
    Climb(d, n, rows);
    if !IsRootPosition(d, n, rows) && Above(Parent(d, rows), x, rows) {
      var k := RowOf(Parent(d, rows), rows) - RowOf(x, rows);
      RootIsTop(n, RowOf(x, rows), OffOf(x, rows), k);
      AboveSlot(n, RowOf(x, rows), OffOf(x, rows), k);
    }
  }

  /** The masks reach for every deletion but those in trees that are deleted completely. */
  ghost predicate AllReach(ds: seq<nat>, n: nat, rows: nat)
    requires Fits(n, rows)
  {
    forall d :: d in Elements(ds) && Valid(d, n, rows) ==> MasksReach(d, rows) || Dead(d, ds, n, rows)
  }

  /** The body of the loop for a target in the same tree. */
  lemma SameTree(p: nat, x: nat, ds: seq<nat>, k: nat, n: nat, rows: nat)
    requires Fits(n, rows) && Valid(p, n, rows) && AllValid(ds, n, rows) && k < |ds| && AllReach(ds, n, rows)
    requires !AllBelow(p, ds, n, rows) && x == MoveAll(p, ds[..k], n, rows) && Valid(x, n, rows)
    requires RowOf(x, rows) <= rows && 0 <= OffOf(x, rows) < Shr(n, RowOf(x, rows))
    requires RowOf(ds[k], rows) <= rows && 0 <= OffOf(ds[k], rows) < Shr(n, RowOf(ds[k], rows))
    requires RootAbove(n, RowOf(x, rows), OffOf(x, rows)) == RootAbove(n, RowOf(ds[k], rows), OffOf(ds[k], rows))
    ensures x < WORD
    ensures var ancestor := IsAncestor(Parent(ds[k], rows), x, rows);
            && ancestor.Some?
            && (ancestor.value ==>
                  && RowOf(x, rows) < rows
                  && CalcNextPos(x, ds[k], rows) == Some(MoveStep(x, ds[k], n, rows)))
            && (!ancestor.value ==> MoveStep(x, ds[k], n, rows) == x)
  {
    hide RowOf, OffOf, Shr, IsRootPosition, Parent, Sibling, PathOf, MoveAll, IsAncestor, CalcNextPos, Above, AllBelow,
      RootAbove, DropDigit, Encode, Elements, Level, Dead;
    var d := ds[k];
    NotRoot(p, x, ds, k, n, rows);
    Climb(d, n, rows);
    AncestorAbove(Parent(d, rows), x, n, rows);
    PositionWord(x, n, rows);
    if Above(Parent(d, rows), x, rows) {
      AboveRows(x, d, n, rows);
      ReachMoves(x, d, n, rows);
    }
  }

  /** A deletion in the tree of a node that stays is no root, and the masks reach. */
  lemma NotRoot(p: nat, x: nat, ds: seq<nat>, k: nat, n: nat, rows: nat)
    requires Fits(n, rows) && Valid(p, n, rows) && AllValid(ds, n, rows) && k < |ds| && AllReach(ds, n, rows)
    requires !AllBelow(p, ds, n, rows) && x == MoveAll(p, ds[..k], n, rows)
    requires Valid(x, n, rows) && Valid(ds[k], n, rows)
    requires RowOf(x, rows) <= rows && 0 <= OffOf(x, rows) < Shr(n, RowOf(x, rows))
    requires RowOf(ds[k], rows) <= rows && 0 <= OffOf(ds[k], rows) < Shr(n, RowOf(ds[k], rows))
    requires RootAbove(n, RowOf(x, rows), OffOf(x, rows)) == RootAbove(n, RowOf(ds[k], rows), OffOf(ds[k], rows))
    ensures !IsRootPosition(ds[k], n, rows) && MasksReach(ds[k], rows)
  {
    hide RowOf, OffOf, Shr, IsRootPosition, PathOf, MoveAll, Level, Parent, Sibling, MasksReach, Elements, AllBelow,
      Valid, Dead;
    var d := ds[k];
    ElementsAt(ds, k);
    var r := RootOn(p, n, rows);
    FoldPath(p, r, ds, k, n, rows);
    FoldRoot(r, ds, k, n, rows);
    var t := RootOn(d, n, rows);
    RootRow(x, r, n, rows);
    RootRow(d, t, n, rows);
    Climb(r, n, rows);
    Climb(t, n, rows);
    Order(r, t, n, rows);
    if IsRootPosition(d, n, rows) {
      RootPath(d, n, rows);
      ListedBelow(d, ds, n, rows);
      BelowCovered(p, r, ds, n, rows);
    } else if Dead(d, ds, n, rows) {
      DeadAlong(d, r, ds, n, rows);
      DeadAlong(p, r, ds, n, rows);
      DeadBelow(p, ds, n, rows);
    }
  }

  lemma {:induction false} RootRow(d: nat, r: nat, n: nat, rows: nat)
    requires Fits(n, rows) && Valid(d, n, rows) && Valid(r, n, rows) && IsRootPosition(r, n, rows)
    requires r in PathOf(d, n, rows)
    requires RowOf(d, rows) <= rows && 0 <= OffOf(d, rows) < Shr(n, RowOf(d, rows))
    ensures RootAbove(n, RowOf(d, rows), OffOf(d, rows)) == RowOf(r, rows)
    decreases Level(d, n, rows)
  {
    hide RowOf, OffOf, Shr, IsRootPosition, Parent, Sibling;
    Climb(d, n, rows);
    if !IsRootPosition(d, n, rows) { RootRow(Parent(d, rows), r, n, rows); }
  }

  lemma {:induction false} RootEnds(p: nat, ds: seq<nat>, k: nat, n: nat, rows: nat)
    requires Fits(n, rows) && Valid(p, n, rows) && AllValid(ds, n, rows) && k <= |ds|
    requires Valid(MoveAll(p, ds[..k], n, rows), n, rows) && IsRootPosition(MoveAll(p, ds[..k], n, rows), n, rows)
    ensures MoveAll(p, ds, n, rows) == MoveAll(p, ds[..k], n, rows)
    decreases |ds| - k
  {
    hide RowOf, OffOf, MoveStep, Valid, IsRootPosition, MoveAll;
    if k < |ds| {
      FoldNext(p, ds, k, n, rows);
      RootStep(MoveAll(p, ds[..k], n, rows), ds[k], n, rows);
      RootEnds(p, ds, k + 1, n, rows);
    } else {
      assert ds[..k] == ds;
    }
  }

  /** The inner loop of `calc_next_positions`: for any list of targets and any node that is not below
      them the fold of the moves. */
  method NextPosition(position: U64, blockTargets: seq<nat>, n: nat) returns (r: Result<U64>)
    requires n <= MAX_LEAVES && Fits(n, TreeRows(n)) && AllReach(blockTargets, n, TreeRows(n))
    requires AllValid(blockTargets, n, TreeRows(n))
    requires Valid(position, n, TreeRows(n)) && !AllBelow(position, blockTargets, n, TreeRows(n))
    ensures r.Ok? && r.value == MoveAll(position, blockTargets, n, TreeRows(n))
  {
    hide RowOf, OffOf, PathOf, MoveAll, MoveStep, Valid, Elements, IsRootPosition, TreeRows, Parent, IsAncestor,
      CalcNextPos, RootAbove, RootIndex, Shr, AllReach, AllBelow;
    var rows := TreeRows(n);
    var nextPos := position;
    FoldStart(position, blockTargets[..0], n, rows);
    var k := 0;
    while k < |blockTargets|
      invariant k <= |blockTargets| && Valid(nextPos, n, rows)
      invariant nextPos == MoveAll(position, blockTargets[..k], n, rows)
    {
      var target := blockTargets[k];
      if IsRootPosition(nextPos, n, rows) {
        RootEnds(position, blockTargets, k, n, rows);
        return Ok(nextPos);
      }
      PositionWord(target, n, rows);
      SubtreeOf(nextPos, target, n, rows);
      FoldNext(position, blockTargets, k, n, rows);
      FoldValid(position, blockTargets, k + 1, n, rows);
      var subTree, depth, bits := DetectOffset(target, n);
      var subTree1, depth1, bits1 := DetectOffset(nextPos, n);
      if subTree != subTree1 {
        OtherTree(nextPos, target, n, rows);
      } else {
        SameTree(position, nextPos, blockTargets, k, n, rows);
        if IsAncestor(Parent(target, rows), nextPos, rows).value {
          nextPos := CalcNextPos(nextPos, target, rows).value;
        }
      }
      k := k + 1;
    }
    assert blockTargets[..k] == blockTargets;
    r := Ok(nextPos);
  }

  predicate ValidNodes(nodes: seq<Node<Hash>>, n: nat, rows: nat) {
    forall i :: 0 <= i < |nodes| ==> Valid(nodes[i].0, n, rows)
  }

  /** The moved nodes; empty hashes are left out, and roots too if they are not wanted. */
  function MovedNodes(nodes: seq<Node<Hash>>, dels: set<nat>, n: nat, rows: nat, appendRoots: bool): seq<Node<Hash>>
    requires Fits(n, rows) && ValidNodes(nodes, n, rows)
    decreases |nodes|
  {
    if nodes == [] then []
    else
      var k := |nodes| - 1;
      MovedNodes(nodes[..k], dels, n, rows, appendRoots) + MovedNode(nodes[k], dels, n, rows, appendRoots)
  }

  function MovedNode(node: Node<Hash>, dels: set<nat>, n: nat, rows: nat, appendRoots: bool): seq<Node<Hash>>
    requires Fits(n, rows) && Valid(node.0, n, rows)
  {
    var q := Moved(node.0, dels, n, rows);
    if node.1.Empty? || (!appendRoots && IsRootPosition(q, n, rows)) then [] else [(q, node.1)]
  }

  /** The same with one move after the other, for a list of deletions in any order. */
  function FoldedNodes(nodes: seq<Node<Hash>>, ds: seq<nat>, n: nat, rows: nat, appendRoots: bool): seq<Node<Hash>>
    requires rows < 62
    decreases |nodes|
  {
    if nodes == [] then []
    else
      var k := |nodes| - 1;
      FoldedNodes(nodes[..k], ds, n, rows, appendRoots) + FoldedNode(nodes[k], ds, n, rows, appendRoots)
  }

  function FoldedNode(node: Node<Hash>, ds: seq<nat>, n: nat, rows: nat, appendRoots: bool): seq<Node<Hash>>
    requires rows < 62
  {
    var q := MoveAll(node.0, ds, n, rows);
    if node.1.Empty? || (!appendRoots && IsRootPosition(q, n, rows)) then [] else [(q, node.1)]
  }

  lemma FoldedNodesNext(nodes: seq<Node<Hash>>, ds: seq<nat>, n: nat, rows: nat, appendRoots: bool, i: nat)
    requires rows < 62 && i < |nodes|
    ensures FoldedNodes(nodes[..i + 1], ds, n, rows, appendRoots) ==
            FoldedNodes(nodes[..i], ds, n, rows, appendRoots) + FoldedNode(nodes[i], ds, n, rows, appendRoots)
  {
    hide FoldedNode;
    assert nodes[..i + 1][..i] == nodes[..i];
  }

  lemma MovedNodesNext(nodes: seq<Node<Hash>>, dels: set<nat>, n: nat, rows: nat, appendRoots: bool, i: nat)
    requires Fits(n, rows) && ValidNodes(nodes, n, rows) && i < |nodes|
    ensures ValidNodes(nodes[..i], n, rows) && ValidNodes(nodes[..i + 1], n, rows) && Valid(nodes[i].0, n, rows)
    ensures MovedNodes(nodes[..i + 1], dels, n, rows, appendRoots) ==
            MovedNodes(nodes[..i], dels, n, rows, appendRoots) + MovedNode(nodes[i], dels, n, rows, appendRoots)
  {
    hide Valid, MovedNode;
    assert nodes[..i + 1][..i] == nodes[..i];
  }

  // ----- which blocks the masks reach for -----

  /** Whenever a subtree beyond the reach of the masks is deleted completely, so is its sibling: the
      block is so small or the deletion so complete that nothing is moved over 31 rows. */
  ghost predicate Movable(block: seq<nat>, n: nat, rows: nat)
    requires Fits(n, rows)
  {
    forall p: nat ::
      Valid(p, n, rows) && !IsRootPosition(p, n, rows) && !MasksReach(p, rows) && AllBelow(p, block, n, rows) ==>
        AllBelow(Sibling(p), block, n, rows)
  }

  /** In a movable block a subtree beyond the reach takes its whole tree with it. */
  lemma {:induction false} WholeTree(block: seq<nat>, n: nat, rows: nat, p: nat) returns (r: nat)
    requires Fits(n, rows) && Movable(block, n, rows) && Valid(p, n, rows) && !MasksReach(p, rows)
    requires AllBelow(p, block, n, rows)
    ensures Valid(r, n, rows) && IsRootPosition(r, n, rows) && r in PathOf(p, n, rows) && AllBelow(r, block, n, rows)
    decreases Level(p, n, rows)
  {
    hide Valid, IsRootPosition, Parent, PathOf, RowOf, OffOf, Sibling, Level, AllBelow;
    Climb(p, n, rows);
    SelfPath(p, n, rows);
    if IsRootPosition(p, n, rows) {
      r := p;
    } else {
      BothBelow(block, n, rows, p);
      ParentPath(p, n, rows);
      SelfPath(Parent(p, rows), n, rows);
      r := WholeTree(block, n, rows, Parent(p, rows));
      PathTrans(p, Parent(p, rows), r, n, rows);
    }
  }

  lemma MovableReach(block: seq<nat>, ds: seq<nat>, n: nat, rows: nat)
    requires Fits(n, rows) && SameCover(Elements(block), Elements(ds), n, rows) && Movable(block, n, rows)
    ensures AllReach(ds, n, rows)
  {
    hide Valid, IsRootPosition, PathOf, RowOf, OffOf, SameCover, AllBelow, MasksReach, Movable;
    forall d | d in Elements(ds) && Valid(d, n, rows) ensures MasksReach(d, rows) || Dead(d, ds, n, rows) {
      if !MasksReach(d, rows) {
        ListedBelow(d, ds, n, rows);
        SameBelow(d, block, ds, n, rows);
        var r := WholeTree(block, n, rows, d);
        SameBelow(r, block, ds, n, rows);
      }
    }
  }

  /** How many bottom slots the block covers at most. */
  function Span(block: seq<nat>, rows: nat): nat {
    if block == [] then 0 else Pow2(RowOf(block[0], rows)) + Span(block[1..], rows)
  }

  /** Forests of at most 2^32 leaves and blocks that cover less than 2^31 slots are movable. */
  lemma SmallMovable(block: seq<nat>, n: nat, rows: nat)
    requires Fits(n, rows) && AllValid(block, n, rows) && (rows <= 32 || Span(block, rows) < Pow2(31))
    ensures Movable(block, n, rows)
  {
    hide Valid, IsRootPosition, PathOf, RowOf, OffOf, AllBelow, Pow2, Parent, Sibling, Level, Span, MasksReach;
    forall p: nat | Valid(p, n, rows) && !IsRootPosition(p, n, rows) && AllBelow(p, block, n, rows)
      ensures MasksReach(p, rows)
    {
      SmallReach(p, block, n, rows);
    }
  }

  lemma SmallReach(p: nat, block: seq<nat>, n: nat, rows: nat)
    requires Fits(n, rows) && AllValid(block, n, rows) && (rows <= 32 || Span(block, rows) < Pow2(31))
    requires Valid(p, n, rows) && !IsRootPosition(p, n, rows) && AllBelow(p, block, n, rows)
    ensures MasksReach(p, rows)
  {
    hide Valid, IsRootPosition, PathOf, OffOf, RowOf, AllBelow, Pow2, Parent, Sibling, Level, Span;
    Climb(p, n, rows);
    Decode(p, n, rows);
    Decode(Parent(p, rows), n, rows);
    if rows <= 32 {
      TopPair(p, rows);
    } else {
      CoveredSpan(p, block, n, rows);
      if RowOf(p, rows) >= 31 { Pow2Monotone(31, RowOf(p, rows)); }
    }
  }

  lemma TopPair(p: nat, rows: nat)
    requires rows <= 32 && RowOf(p, rows) < rows && 0 <= OffOf(p, rows) < Pow2(rows - RowOf(p, rows))
    ensures MasksReach(p, rows)
  {
    hide RowOf, OffOf;
    assert Pow2(1) == 2 * Pow2(0);
  }

  /** What the slot t contributes to covering q. */
  ghost function Share(t: nat, q: nat, n: nat, rows: nat): nat
    requires Fits(n, rows) && Valid(t, n, rows) && Valid(q, n, rows)
  {
    if q in PathOf(t, n, rows) then Pow2(RowOf(t, rows))
    else if t in PathOf(q, n, rows) then Pow2(RowOf(q, rows))
    else 0
  }

  ghost function Shares(block: seq<nat>, q: nat, n: nat, rows: nat): nat
    requires Fits(n, rows) && AllValid(block, n, rows) && Valid(q, n, rows)
  {
    if block == [] then 0 else Share(block[0], q, n, rows) + Shares(block[1..], q, n, rows)
  }

  lemma CoveredSpan(q: nat, block: seq<nat>, n: nat, rows: nat)
    requires Fits(n, rows) && AllValid(block, n, rows) && Valid(q, n, rows) && AllBelow(q, block, n, rows)
    ensures Pow2(RowOf(q, rows)) <= Span(block, rows)
  {
    hide Valid, RowOf, AllBelow, Pow2, Span, Shares;
    CoveredShares(q, block, n, rows);
    SharesBound(block, q, n, rows);
  }

  lemma {:induction false} CoveredShares(q: nat, block: seq<nat>, n: nat, rows: nat)
    requires Fits(n, rows) && AllValid(block, n, rows) && Valid(q, n, rows) && AllBelow(q, block, n, rows)
    ensures Pow2(RowOf(q, rows)) <= Shares(block, q, n, rows)
    decreases RowOf(q, rows)
  {
    hide Valid, IsRootPosition, Parent, PathOf, RowOf, OffOf, LeftChild, Sibling, AllBelow, Shares, Share;
    if RowOf(q, rows) == 0 {
      var t := ListedBottom(q, block, n, rows);
      var i :| 0 <= i < |block| && block[i] == t;
      OneShare(block, i, q, n, rows);
    } else {
      Descend(q, n, rows);
      var l, r := LeftChild(q, rows), RightChild(q, rows);
      AllBelowChild(q, l, block, n, rows);
      AllBelowChild(q, r, block, n, rows);
      CoveredShares(l, block, n, rows);
      CoveredShares(r, block, n, rows);
      PairEncode(l, n, rows);
      SplitShares(block, l, n, rows);
    }
  }

  lemma {:induction false} OneShare(block: seq<nat>, i: nat, q: nat, n: nat, rows: nat)
    requires Fits(n, rows) && AllValid(block, n, rows) && Valid(q, n, rows) && i < |block|
    requires block[i] in PathOf(q, n, rows) && RowOf(q, rows) == 0
    ensures Shares(block, q, n, rows) >= 1
    decreases i
  {
    hide Valid, RowOf, PathOf;
    if i > 0 { OneShare(block[1..], i - 1, q, n, rows); }
  }

  lemma {:induction false} SharesBound(block: seq<nat>, q: nat, n: nat, rows: nat)
    requires Fits(n, rows) && AllValid(block, n, rows) && Valid(q, n, rows)
    ensures Shares(block, q, n, rows) <= Span(block, rows)
    decreases |block|
  {
    hide Valid, RowOf, PathOf, Pow2;
    if block != [] {
      SharesBound(block[1..], q, n, rows);
      var t := block[0];
      if t in PathOf(q, n, rows) {
        PathOfFacts(q, n, rows, t);
        Pow2Monotone(RowOf(q, rows), RowOf(t, rows));
      }
    }
  }

  /** What covers a slot covers its children, to the same amount. */
  lemma {:induction false} SplitShares(block: seq<nat>, l: nat, n: nat, rows: nat)
    requires Fits(n, rows) && AllValid(block, n, rows) && Valid(l, n, rows) && !IsRootPosition(l, n, rows)
    ensures Valid(Sibling(l), n, rows) && Valid(Parent(l, rows), n, rows)
    ensures Shares(block, Parent(l, rows), n, rows) == Shares(block, l, n, rows) + Shares(block, Sibling(l), n, rows)
    decreases |block|
  {
    hide Valid, RowOf, OffOf, PathOf, Share, IsRootPosition, Parent, Sibling, Level;
    Climb(l, n, rows);
    if block != [] {
      SplitShares(block[1..], l, n, rows);
      SplitShare(block[0], l, n, rows);
    }
  }

  lemma SplitShare(t: nat, l: nat, n: nat, rows: nat)
    requires Fits(n, rows) && Valid(t, n, rows) && Valid(l, n, rows) && !IsRootPosition(l, n, rows)
    ensures Valid(Sibling(l), n, rows) && Valid(Parent(l, rows), n, rows)
    ensures Share(t, Parent(l, rows), n, rows) == Share(t, l, n, rows) + Share(t, Sibling(l), n, rows)
  {
    hide Valid, RowOf, OffOf, PathOf, IsRootPosition, Parent, Sibling, Level, Pow2;
    Climb(l, n, rows);
    var q, r := Parent(l, rows), Sibling(l);
    SiblingInvolution(l);
    ParentPath(l, n, rows);
    ParentPath(r, n, rows);
    SelfPath(q, n, rows);
    Pow2Double(RowOf(l, rows));
    if l in PathOf(t, n, rows) {
      PathOfFacts(t, n, rows, l);
      if r in PathOf(t, n, rows) { PathRows(t, n, rows, l, r); }
      if t in PathOf(q, n, rows) { PathOfFacts(q, n, rows, t); }
      if t == r { PathOfFacts(t, n, rows, l); }
    } else if r in PathOf(t, n, rows) {
      PathOfFacts(t, n, rows, r);
      if t in PathOf(q, n, rows) { PathOfFacts(q, n, rows, t); }
    } else {
      SelfPath(t, n, rows);
      if q in PathOf(t, n, rows) && t != q {
        var c := PathChild(t, n, rows, q);
        SameParent(l, c, n, rows);
      }
      if t in PathOf(q, n, rows) && q in PathOf(t, n, rows) { PathAntisym(t, q, n, rows); }
    }
  }

  lemma Pow2Double(k: nat)
    ensures Pow2(k + 1) == Pow2(k) + Pow2(k)
  {
  }

  /** `calc_next_positions`: nothing fails, and every node that is not wholly deleted makes the moves of all
      that `detwin` lists, one after the other; if the largest deleted subtrees come in order, it goes to its
      slot in the forest after the deletion. */
  method CalcNextPositions(blockTargets: seq<U64>, oldPositions: seq<Node<Hash>>, n: nat, appendRoots: bool)
    returns (r: Result<seq<Node<Hash>>>, ghost ds: seq<nat>)
    requires n <= MAX_LEAVES && Fits(n, TreeRows(n)) && Movable(blockTargets, n, TreeRows(n))
    requires AllValid(blockTargets, n, TreeRows(n)) && Apart(blockTargets, n, TreeRows(n))
    requires ValidNodes(oldPositions, n, TreeRows(n))
    requires forall i :: 0 <= i < |oldPositions| && !oldPositions[i].1.Empty? ==>
               !AllBelow(oldPositions[i].0, blockTargets, n, TreeRows(n))
    ensures r.Ok? && Ordered(r.value) && Tops(blockTargets, ds, n, TreeRows(n))
    ensures multiset(r.value) ==
            multiset(FoldedNodes(oldPositions, Twins(blockTargets, TreeRows(n)), n, TreeRows(n), appendRoots))
    ensures InOrder(Twins(blockTargets, TreeRows(n)), n, TreeRows(n)) ==>
              multiset(r.value) ==
              multiset(MovedNodes(oldPositions, Elements(ds), n, TreeRows(n), appendRoots))
  {
    hide RowOf, Moved, MoveAll, PathOf, Valid, Elements, Kept, IsRootPosition, TreeRows, SameCover, Twins, InOrder,
      AllBelow, MovedNodes, Ordered, ValidNodes, Tops, AllReach, Movable, Apart, AllValid,
      FoldedNodes;
    var rows := TreeRows(n);
    ghost var inOrder := InOrder(Twins(blockTargets, rows), n, rows);
    var detwinned := Detwin(blockTargets, rows, n);
    ds := TopsExist(blockTargets, n, rows);
    SameTops(blockTargets, detwinned, ds, n, rows);
    MovableReach(blockTargets, detwinned, n, rows);
    var newPositions: seq<Node<Hash>> := [];
    assert oldPositions[..0] == [];
    NoNodes(Elements(ds), detwinned, n, rows, appendRoots);
    var i := 0;
    while i < |oldPositions|
      invariant i <= |oldPositions| && ValidNodes(oldPositions[..i], n, rows)
      invariant newPositions == FoldedNodes(oldPositions[..i], detwinned, n, rows, appendRoots)
      invariant inOrder ==> newPositions == MovedNodes(oldPositions[..i], Elements(ds), n, rows, appendRoots)
    {
      MovedNodesNext(oldPositions, Elements(ds), n, rows, appendRoots, i);
      FoldedNodesNext(oldPositions, detwinned, n, rows, appendRoots, i);
      var (position, hash) := oldPositions[i];
      i := i + 1;
      if hash.Empty? {
        continue;
      }
      SameBelow(position, blockTargets, detwinned, n, rows);
      PositionWord(position, n, rows);
      var next := NextPosition(position, detwinned, n);
      if inOrder {
        KeptUncovered(position, detwinned, ds, n, rows);
        OrderMoves(position, detwinned, ds, n, rows);
      }
      if appendRoots || !IsRootPosition(next.value, n, rows) {
        newPositions := newPositions + [(next.value, hash)];
      }
    }
    assert oldPositions[..i] == oldPositions;
    var sorted := SortNodes(newPositions);
    r := Ok(sorted);
  }

  lemma NoNodes(dels: set<nat>, ds: seq<nat>, n: nat, rows: nat, appendRoots: bool)
    requires Fits(n, rows)
    ensures FoldedNodes([], ds, n, rows, appendRoots) == []
    ensures ValidNodes([], n, rows) && MovedNodes([], dels, n, rows, appendRoots) == []
  {
  }

  /** What `detwin` makes of the block has the same tops. */
  lemma SameTops(block: seq<nat>, detwinned: seq<nat>, ds: seq<nat>, n: nat, rows: nat)
    requires Fits(n, rows) && SameCover(Elements(block), Elements(detwinned), n, rows) && Tops(block, ds, n, rows)
    ensures Tops(detwinned, ds, n, rows)
  {
    hide Valid, SameCover, AllBelow, IsRootPosition, Parent;
    forall d: nat ensures IsTop(d, block, n, rows) <==> IsTop(d, detwinned, n, rows) {
      SameBelow(d, block, detwinned, n, rows);
      SameBelow(Parent(d, rows), block, detwinned, n, rows);
    }
  }

  /** For the caller's block: the moves of `calc_next_positions` are right for every node that survives if and
      only if what `detwin` makes of the block is in order. */
  lemma BlockExact(block: seq<nat>, tops: seq<nat>, n: nat, rows: nat)
    requires Fits(n, rows) && AllValid(block, n, rows) && Apart(block, n, rows) && Tops(block, tops, n, rows)
    ensures MovesHome(Twins(block, rows), tops, n, rows) <==> InOrder(Twins(block, rows), n, rows)
  {
    hide Valid, Twinning, SameCover, Elements, Apart, AllValid, Twins, Tops, MovesHome, InOrder;
    TwinningStart(block, n, rows);
    assert [] + block == block && [] + Twins(block, rows) == Twins(block, rows);
    TwinsKept(block, [], block, n, rows);
    SameTops(block, Twins(block, rows), tops, n, rows);
    OrderExact(Twins(block, rows), tops, n, rows);
  }
}
