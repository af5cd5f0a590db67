/** The accumulator that keeps every node in memory (src/mem_forest/mod.rs). */
module MemForests {
  import opened Bits
  import opened Positions
  import opened Forest
  import opened ProofPositions
  import opened Slots
  import opened MergeLoop
  import opened ProofEngine
  import opened Offsets
  import opened NodeHeap
  import opened ForestHeap
  import opened HeapDeletion
  import opened HeapAddition
  import opened Walks
  import opened Lookups
  import opened Blocks

  /** The position of the first root with the given data (`roots.iter().position(..)`). */
  method FindRoot(roots: seq<TreeNode>, data: Hash) returns (pos: nat)
    requires exists i :: 0 <= i < |roots| && roots[i].data == data
    ensures pos < |roots| && roots[pos].data == data
  {
    pos := 0;
    while roots[pos].data != data
      invariant pos < |roots| && exists i :: pos <= i < |roots| && roots[i].data == data
      decreases |roots| - pos
    {
      pos := pos + 1;
    }
  }

  class MemForest {
    var roots: seq<TreeNode>
    var leaves: nat
    var index: map<Hash, TreeNode>
    ghost var nodes: set<TreeNode>

    ghost predicate Valid()
      reads this, nodes
    {
      ForestOk(Snap(nodes), roots, leaves, index)
    }

    /** The forest that the linked nodes stand for. */
    ghost function Trees(): (ts: seq<Tree>)
      reads this, nodes
      requires Valid()
      ensures WellFormed(ts, leaves) && |ts| == |roots| == PopCount(leaves)
    {
      var ts := TreesOf(Snap(nodes), roots);
      ShapeLength(ts, leaves, 0);
      ts
    }

    constructor ()
      ensures Valid() && leaves == 0 && Trees() == [] && index == map[] && fresh(nodes)
    {
      roots, leaves, index, nodes := [], 0, map[], {};
    }

    constructor FromParts(roots: seq<TreeNode>, leaves: nat, index: map<Hash, TreeNode>, ghost nodes: set<TreeNode>)
      ensures this.roots == roots && this.leaves == leaves && this.index == index && this.nodes == nodes
    {
      this.roots, this.leaves, this.index, this.nodes := roots, leaves, index, nodes;
    }

    method AddSingle(value: Hash)
      requires Valid() && value.LeafHash? && value !in index
      modifies this, nodes
      ensures Valid() && fresh(nodes - old(nodes))
      ensures leaves == old(leaves) + 1
      ensures Trees() == Carry(old(Trees()), old(leaves), Tip(value.id))
      ensures index.Keys == old(index).Keys + {value}
    {
      hide ForestOk, CarryState, Carry, And, Shr, PopCount, WellFormed, TreesOf, Snap, Or, Xor;
      ghost var goal := Carry(Trees(), leaves, Tip(value.id));
      CarryWellFormed(Snap(nodes), roots, leaves, index, value.id);
      var node := NewLeaf(value);
      var rest := leaves;
      while And(rest, 1) != 0
        invariant leaves == old(leaves) && index.Keys == old(index).Keys + {value}
        invariant fresh(nodes - old(nodes))
        invariant CarryState(Snap(nodes), roots, node, index, rest, goal)
        decreases rest
      {
        LowBit(rest);
        node := PopRoot(node, rest, goal);
        Halve(rest);
        rest := Shr(rest, 1);
      }
      LowBit(rest);
      StateFinish(Snap(nodes), roots, node, index, rest, goal, leaves + 1);
      roots := roots + [node];
      leaves := leaves + 1;
    }

    /** The node of a new leaf, entered into the map. */
    method NewLeaf(value: Hash) returns (node: TreeNode)
      requires Valid() && value.LeafHash? && value !in index
      modifies this
      ensures fresh(nodes - old(nodes)) && leaves == old(leaves)
      ensures index.Keys == old(index).Keys + {value}
      ensures CarryState(Snap(nodes), roots, node, index, leaves, Carry(old(Trees()), leaves, Tip(value.id)))
    {
      hide ForestOk, CarryState, Carry;
      ghost var h := Snap(nodes);
      node := new TreeNode(LeafNode, value, null, null, Tip(value.id));
      StateStart(h, roots, leaves, index, value.id, node);
      nodes := nodes + {node};
      assert Snap(nodes) == h[node := Cell(LeafNode, LeafHash(value.id), null, null, null, Tip(value.id))];
      index := index[value := node];
    }

    /** One step of the carry: the last root is dropped if it is empty, else hashed with `top`. */
    method PopRoot(top: TreeNode, ghost rest: nat, ghost goal: seq<Tree>) returns (node: TreeNode)
      requires CarryState(Snap(nodes), roots, top, index, rest, goal) && rest % 2 == 1
      modifies this, nodes
      ensures fresh(nodes - old(nodes)) && leaves == old(leaves) && index == old(index)
      ensures CarryState(Snap(nodes), roots, node, index, rest / 2, goal)
    {
      hide CarryState, Carry, Merged;
      ghost var h := Snap(nodes);
      StateRoot(h, roots, top, index, rest, goal);
      ghost var all := roots;
      var root := roots[|roots| - 1];
      roots := roots[..|roots| - 1];
      if root.data == Empty {
        StateEmpty(h, all, top, index, rest, goal, root);
        nodes := nodes - {root};
        assert Snap(nodes) == h - {root};
        node := top;
      } else {
        node := JoinUnder(root, top, nodes);
        StateMerge(h, all, top, index, rest, goal, root, node);
        nodes := nodes + {node};
      }
    }

    /** `del_single`: takes a leaf, already out of the map, out of the forest. */
    method DelSingle(node: TreeNode, ghost id: nat)
      requires LeafHash(id) !in index && ForestOk(Snap(nodes), roots, leaves, index[LeafHash(id) := node])
      requires node in nodes && node.tree == Tip(id)
      modifies this, nodes
      ensures Valid() && fresh(nodes - old(nodes)) && nodes - old(nodes) !! old(nodes)
      ensures leaves == old(leaves) && index == old(index)
      ensures Trees() == PruneAll(TreesOf(old(Snap(nodes)), old(roots)), {id})
    {
      hide ForestOk, PruneAll, TreesOf;
      if node.parent == null {
        DelRoot(node, id);
      } else {
        PromoteSibling(node, id);
      }
    }

    /** A deleted root leaves an empty root behind. */
    method DelRoot(node: TreeNode, ghost id: nat)
      requires LeafHash(id) !in index && ForestOk(Snap(nodes), roots, leaves, index[LeafHash(id) := node])
      requires node in nodes && node.tree == Tip(id) && node.parent == null
      modifies this
      ensures Valid() && fresh(nodes - old(nodes))
      ensures leaves == old(leaves) && index == old(index)
      ensures Trees() == PruneAll(TreesOf(old(Snap(nodes)), old(roots)), {id})
    {
      hide ForestOk, PruneAll, TreesOf, RootDeleted;
      ghost var h := Snap(nodes);
      ghost var with := index[LeafHash(id) := node];
      ghost var i := RootOf(h, roots, leaves, with, node);
      var pos := FindRoot(roots, node.data);
      RootByData(h, roots, leaves, with, node, pos);
      var empty := new TreeNode(BranchNode, Empty, null, null, Nil);
      DeleteRoot(h, roots, leaves, with, node, id, empty, pos);
      roots := roots[pos := empty];
      nodes := nodes - {node} + {empty};
      RootDeletedSnap(h, Snap(nodes), node, empty);
      assert with - {LeafHash(id)} == index;
    }

    method PromoteSibling(node: TreeNode, ghost id: nat)
      requires LeafHash(id) !in index && ForestOk(Snap(nodes), roots, leaves, index[LeafHash(id) := node])
      requires node in nodes && node.tree == Tip(id) && node.parent != null
      modifies this, nodes
      ensures Valid() && nodes <= old(nodes)
      ensures leaves == old(leaves) && index == old(index)
      ensures Trees() == PruneAll(TreesOf(old(Snap(nodes)), old(roots)), {id})
    {
      hide ForestOk, PruneAll, TreesOf, LeafFamily, Spliced, AllOk, Cut, CutAt, Repaired, Snap, SameLinks;
      ghost var h := Snap(nodes);
      ghost var with := index[LeafHash(id) := node];
      SnapAt(nodes, node);
      ghost var p, s := PromotedFamily(h, roots, leaves, with, node, id);
      var parent: TreeNode := node.parent;
      SnapAt(nodes, parent);
      SnapAt(nodes, parent.left);
      var sibling: TreeNode := if parent.left.data == node.data then parent.right else parent.left;
      var grandparent := parent.parent;
      if grandparent != null {
        SpliceOut(node, parent, sibling, grandparent, id);
        ghost var bound := PromotedReady(h, roots, leaves, with, node, p, s, id);
        Recompute(sibling, TreesBefore(h, Snap(nodes)), id, bound);
        RepairedBy(h, Spliced(h, node, p, s), Snap(nodes), id);
        DeletedForest(h, roots, leaves, with, node, p, s, id, Snap(nodes), 0, roots);
      } else {
        ghost var i := RootOf(h, roots, leaves, with, parent);
        var pos := FindRoot(roots, parent.data);
        SnapAt(nodes, roots[pos]);
        RootByData(h, roots, leaves, with, parent, pos);
        Detach(node, parent, sibling);
        PromotedRoot(h, roots, leaves, with, node, p, s, id);
        DeletedForest(h, roots, leaves, with, node, p, s, id, Snap(nodes), pos, roots[pos := sibling]);
        roots := roots[pos := sibling];
      }
      assert with - {LeafHash(id)} == index;
    }

    /** The sibling takes the parent's place below the grandparent. */
    method SpliceOut(node: TreeNode, parent: TreeNode, sibling: TreeNode, grandparent: TreeNode, ghost id: nat)
      requires LeafHash(id) !in index && ForestOk(Snap(nodes), roots, leaves, index[LeafHash(id) := node])
      requires LeafFamily(Snap(nodes), node, parent, sibling, id)
      requires parent in nodes && sibling in nodes && parent.parent == grandparent && grandparent in nodes
      modifies this`nodes, nodes
      ensures nodes == old(nodes) - {node, parent}
      ensures Snap(nodes) == Spliced(old(Snap(nodes)), node, parent, sibling)
    {
      hide ForestOk, LeafFamily, Spliced;
      ghost var h := Snap(nodes);
      ghost var with := index[LeafHash(id) := node];
      GrandByData(h, roots, leaves, with, node, parent, sibling, id, grandparent);
      FamilyNode(h, node, parent, sibling, id);
      sibling.parent := grandparent;
      if grandparent.left.data == parent.data {
        grandparent.left := sibling;
      } else {
        grandparent.right := sibling;
      }
      nodes := nodes - {node, parent};
      SplicedSnap(h, Snap(nodes), node, parent, sibling);
    }

    /** The sibling becomes parentless. */
    method Detach(node: TreeNode, parent: TreeNode, sibling: TreeNode)
      requires parent in nodes && sibling in nodes && sibling != node && sibling != parent && parent.parent == null
      modifies this`nodes, sibling`parent
      ensures nodes == old(nodes) - {node, parent}
      ensures Snap(nodes) == Spliced(old(Snap(nodes)), node, parent, sibling)
    {
      hide Spliced;
      ghost var h := Snap(nodes);
      sibling.parent := null;
      nodes := nodes - {node, parent};
      SplicedSnap(h, Snap(nodes), node, parent, sibling);
    }

    method Recompute(sibling: TreeNode, ghost was: map<TreeNode, Tree>, ghost id: nat, ghost bound: nat)
      requires sibling in nodes && Cut(Snap(nodes), was, id) && CutAt(Snap(nodes), sibling, was, id)
      requires forall n :: n in nodes ==> Size(was[n]) <= bound
      modifies nodes`data, nodes`tree
      ensures AllOk(Snap(nodes)) && SameLinks(old(Snap(nodes)), Snap(nodes))
      ensures forall n :: n in nodes ==> Snap(nodes)[n].tree == Prune(was[n], {id})
    {
      hide Cut, CutAt, AllOk, Prune;
      sibling.RecomputeHashes(nodes, was, id, bound);
    }

    // ----- lookup -----

    /** `get_pos`: the position of a node, from its links alone. */
    method GetPos(start: TreeNode) returns (r: Option<U64>)
      requires Valid() && leaves <= MAX_LEAVES && start in nodes && start.tree != Nil
      ensures r.Some? && Positions.Valid(r.value, leaves, TreeRows(leaves))
      ensures At(Trees(), leaves, TreeRows(leaves), r.value) == start.tree
    {
      hide ForestOk, At, Positions.Valid, WellFormed, TreeRows;
      var top, indicator, rowsToTop;
      ghost var ds;
      top, indicator, rowsToTop, ds := ClimbToRoot(start);
      var row := RootRow(top);
      TreeRowsFit(leaves);
      var pos := DescendTurns(leaves, row, indicator, rowsToTop, Trees(), ds);
      r := Some(pos);
    }

    /** First loop of `get_pos`: up to the root, collecting the turns. */
    method ClimbToRoot(start: TreeNode) returns (top: TreeNode, indicator: U64, rowsToTop: nat, ghost ds: seq<bool>)
      requires Valid() && leaves <= MAX_LEAVES && start in nodes && start.tree != Nil
      ensures top in nodes && top.parent == null && top.tree != Nil
      ensures Walk(top.tree, ds) == start.tree && indicator == Indicator(ds) && rowsToTop == |ds| <= 61
    {
      hide Size, TreesOf, TreeRows, PopCount, ForestOk, Walk, Indicator, Or, WellFormed, ShiftLeft, Snap;
      ghost var h := Snap(nodes);
      ghost var bound := SizesBounded(h, h.Keys);
      top, indicator, rowsToTop, ds := start, 0, 0, [];
      SnapAt(nodes, top);
      IndicatorEmpty();
      assert Walk(start.tree, []) == start.tree by { WalkEmpty(start.tree); }
      ClimbHeight(h, roots, leaves, index, top, ds);
      while top.parent != null
        invariant top in nodes && top.tree != Nil
        invariant Walk(top.tree, ds) == start.tree && indicator == Indicator(ds) && rowsToTop == |ds| <= 61
        decreases bound - Size(top.tree)
      {
        SnapAt(nodes, top);
        ClimbFacts(h, roots, leaves, index, top, ds);
        var parent: TreeNode := top.parent;
        SnapAt(nodes, parent);
        SnapAt(nodes, parent.left);
        TurnAdded(ds, parent.left.data != top.data);
        ds := [parent.left.data != top.data] + ds;
        if parent.left.data == top.data {
          indicator := ShiftLeft(indicator, 1);
        } else {
          indicator := ShiftLeft(indicator, 1);
          indicator := Or(indicator, 1);
        }
        rowsToTop := rowsToTop + 1;
        top := parent;
        ClimbHeight(h, roots, leaves, index, top, ds);
      }
    }

    /** Second loop of `get_pos`: the row of a root, smallest tree first. */
    method RootRow(top: TreeNode) returns (rootRow: nat)
      requires Valid() && leaves <= MAX_LEAVES && top in nodes && top.parent == null && top.tree != Nil
      ensures rootRow <= TreeRows(leaves) && Shr(leaves, rootRow) % 2 == 1
      ensures RootIndex(leaves, rootRow) < |roots| && roots[RootIndex(leaves, rootRow)] == top
    {
      hide ForestOk, Shr, And, TreeRows, WellFormed, Snap, TreesOf;
      ghost var h := Snap(nodes);
      SnapAt(nodes, top);
      ghost var i := RootOf(h, roots, leaves, index, top);
      ghost var trees := Trees();
      TreeRowsFit(leaves);
      var rootIdx: int := |roots| - 1;
      var forestRows := TreeRows(leaves);
      var row := 0;
      ShrZero(leaves);
      while row <= forestRows
        invariant row <= forestRows + 1
        invariant rootIdx == PopCount(Shr(leaves, row)) - 1 && i <= rootIdx < |roots|
      {
        ShrStep(leaves, row);
        LowBit(Shr(leaves, row));
        if IsRootPopulated(row, leaves) {
          SnapAt(nodes, roots[rootIdx]);
          if roots[rootIdx].data == top.data {
            RootByData(h, roots, leaves, index, top, rootIdx);
            return row;
          }
          rootIdx := rootIdx - 1;
        }
        row := row + 1;
      }
      ShrVanishes(leaves, row);
      assert false;
    }

    /** `grab_node`: the node at a position, its sibling, and the sibling of its parent (below a
        root, the root itself).  Nothing is found exactly at the holes of the forest. */
    method GrabNode(pos: U64) returns (r: Option<(TreeNode, TreeNode, TreeNode)>)
      requires Valid() && leaves <= MAX_LEAVES && Positions.Valid(pos, leaves, TreeRows(leaves))
      ensures Fits(leaves, TreeRows(leaves))
      ensures r.Some? <==>
              IsRootPosition(pos, leaves, TreeRows(leaves)) || At(Trees(), leaves, TreeRows(leaves), pos) != Nil
      ensures r.Some? ==> r.value.0 in nodes && r.value.1 in nodes && r.value.2 in nodes
      ensures r.Some? ==>
              GrabbedAt(Trees(), leaves, TreeRows(leaves), pos, r.value.0.tree, r.value.1.tree, r.value.2.tree)
    {
      hide Snap, TreesOf, PopCount, LowBits, ShiftLeft, Fits, ForestOk, At, NodeAt, Positions.Valid, IsRootPosition,
        WellFormed, TreeRows, RowOf, OffOf, Shr, RootIndex, And, RootAbove, Bit, GrabbedAt, Grabbing;
      ghost var h, trees, rows := Snap(nodes), Trees(), TreeRows(leaves);
      ghost var row, off := RowOf(pos, rows), OffOf(pos, rows);
      TreeRowsFit(leaves);
      ValidCoords(pos, leaves, rows);
      var tree, branchLen, bits := DetectOffset(pos, leaves);
      GrabStart(h, roots, leaves, index, row, off);
      var n: TreeNode? := roots[tree];
      var sibling: TreeNode? := roots[tree];
      var parent: TreeNode? := sibling;
      var k := branchLen;
      while k > 0
        invariant k <= branchLen && Grabbing(h, trees, leaves, row, off, branchLen, k, n, sibling, parent)
      {
        k := k - 1;
        GrabbingIn(h, trees, leaves, row, off, branchLen, k + 1, n, sibling, parent);
        if n != null { SnapAt(nodes, n); }
        GrabStep(h, roots, leaves, index, row, off, branchLen, k + 1, n, sibling, parent);
        LowBit(Shr(bits, k));
        BitIsShrParity(bits, k);
        parent := sibling;
        var niecePos := And(Shr(bits, k), 1);
        if n != null {
          var node: TreeNode := n;
          if niecePos == 0 {
            n := node.right;
            sibling := node.left;
          } else {
            n := node.left;
            sibling := node.right;
          }
        } else {
          sibling := null;
        }
      }
      GrabEnd(h, roots, leaves, index, pos, branchLen, n, sibling, parent);
      if n != null && sibling != null && parent != null {
        SnapAt(nodes, n);
        SnapAt(nodes, sibling);
        SnapAt(nodes, parent);
        return Some((n, sibling, parent));
      }
      return None;
    }

    /** `get_pos` then `grab_node`: back at the same node. */
    method NodeRoundTrip(node: TreeNode) returns (again: TreeNode)
      requires Valid() && leaves <= MAX_LEAVES && node in nodes && node.tree != Nil
      ensures again == node
    {
      hide ForestOk, At, Positions.Valid, WellFormed, TreeRows, IsRootPosition, GrabbedAt, PopCount, Snap;
      TreeRowsFit(leaves);
      var pos := GetPos(node);
      PositionWord(pos.value, leaves, TreeRows(leaves));
      var found := GrabNode(pos.value);
      again := found.value.0;
      SnapAt(nodes, node);
      SnapAt(nodes, again);
      SameNode(Snap(nodes), roots, leaves, index, pos.value, node, again, found.value.1.tree, found.value.2.tree);
    }

    /** `grab_node` then `get_pos`: back at the same position. */
    method PositionRoundTrip(pos: U64) returns (again: U64)
      requires Valid() && leaves <= MAX_LEAVES && Positions.Valid(pos, leaves, TreeRows(leaves))
      requires Fits(leaves, TreeRows(leaves)) && At(Trees(), leaves, TreeRows(leaves), pos) != Nil
      ensures again == pos
    {
      hide ForestOk, At, Positions.Valid, WellFormed, TreeRows, IsRootPosition, GrabbedAt, PopCount, Snap;
      var found := GrabNode(pos);
      var node := found.value.0;
      GrabbedNode(Trees(), leaves, TreeRows(leaves), pos, node.tree, found.value.1.tree, found.value.2.tree);
      var back := GetPos(node);
      again := back.value;
      SnapAt(nodes, node);
      SamePosition(Snap(nodes), roots, leaves, index, pos, again, node);
    }

    // ----- proving -----

    /** `prove`: None exactly when one of the hashes is no live leaf.  The positions of the leaves,
        in order, are handed out in 63-row coordinates, with the hashes that a proof for them
        needs. */
    method Prove(targets: seq<Hash>) returns (r: Option<Proof>, ghost positions: seq<U64>)
      requires Valid() && leaves <= MAX_LEAVES
      ensures r.Some? <==> forall i :: 0 <= i < |targets| ==> targets[i] in index
      ensures r.Some? ==> Proves(Trees(), leaves, targets, positions, r.value)
    {
      hide ForestOk, At, Positions.Valid, WellFormed, TreeRows, RowOf, OffOf, LocatedLeaves, ProofSet, AllValid,
        HashesUpTo, Proves, Sorted, IsRootPosition;
      ghost var trees, rows := Trees(), TreeRows(leaves);
      TreeRowsFit(leaves);
      positions := [];
      var found: seq<U64> := [];
      LocatedNone(trees, leaves, rows);
      for i := 0 to |targets|
        invariant forall k :: 0 <= k < i ==> targets[k] in index
        invariant LocatedLeaves(trees, leaves, rows, targets[..i], found)
      {
        if targets[i] !in index {
          return None, [];
        }
        IndexedLeaf(Snap(nodes), roots, leaves, index, targets[i]);
        SnapAt(nodes, index[targets[i]]);
        var position := GetPos(index[targets[i]]);
        assert targets[..i + 1] == targets[..i] + [targets[i]];
        LocatedNext(trees, leaves, rows, targets[..i], found, targets[i], position.value);
        found := found + [position.value];
      }
      assert targets[..|targets|] == targets;
      LocatedFacts(trees, leaves, rows, targets, found);
      var needed := GetProofPositions(found, leaves, TreeRows(leaves));
      ProofPositionsValid(found, leaves, rows);
      var hashes: seq<Hash> := [];
      HashesNone(trees, leaves, rows, needed);
      for j := 0 to |needed|
        invariant HashesUpTo(trees, leaves, rows, needed, hashes, j)
      {
        NeededSlot(trees, leaves, rows, found, needed, j);
        PositionWord(needed[j], leaves, rows);
        var hash := GetHash(needed[j]);
        HashesNext(trees, leaves, rows, needed, hashes, j, hash.value);
        hashes := hashes + [hash.value];
      }
      r := Some(Proof(TranslateAll(found, TreeRows(leaves), MAX_FOREST_ROWS), hashes));
      positions := found;
      ProvesAll(trees, leaves, targets, found, needed, r.value);
    }

    /** `get_hash` */
    method GetHash(pos: U64) returns (r: Option<Hash>)
      requires Valid() && leaves <= MAX_LEAVES && Positions.Valid(pos, leaves, TreeRows(leaves))
      ensures Fits(leaves, TreeRows(leaves))
      ensures r.Some? <==>
              IsRootPosition(pos, leaves, TreeRows(leaves)) || At(Trees(), leaves, TreeRows(leaves), pos) != Nil
      ensures r.Some? ==> r.value == Merkle(At(Trees(), leaves, TreeRows(leaves), pos))
    {
      hide ForestOk, At, Positions.Valid, WellFormed, TreeRows, IsRootPosition, GrabbedAt;
      var grabbed := GrabNode(pos);
      if grabbed.None? { return None; }
      NodeData(Snap(nodes), roots, leaves, index, grabbed.value.0);
      SnapAt(nodes, grabbed.value.0);
      GrabbedNode(Trees(), leaves, TreeRows(leaves), pos, grabbed.value.0.tree, grabbed.value.1.tree,
          grabbed.value.2.tree);
      r := Some(grabbed.value.0.data);
    }

    // ----- whole blocks -----

    /** `del`: deletes the leaves in the order of their positions.  It succeeds exactly on distinct
        live leaves; a missing leaf is noticed before anything is deleted, a repeated one only
        when its second deletion comes up: then the leaves up to the lowest repeated one are gone. */
    method Del(targets: seq<Hash>) returns (ok: bool, ghost gone: set<nat>, ghost positions: seq<nat>, ghost stop: nat)
      requires Valid() && leaves <= MAX_LEAVES
      modifies this, nodes
      ensures Valid() && fresh(nodes - old(nodes)) && leaves == old(leaves)
      ensures ok <==> (forall i :: 0 <= i < |targets| ==> targets[i] in old(index)) && DistinctHashes(targets)
      ensures Trees() == PruneAll(old(Trees()), gone) && Removed(old(index), index, gone)
      ensures ok ==> LeafKind(targets) && gone == Elements(IdsOf(targets))
      ensures (exists i :: 0 <= i < |targets| && targets[i] !in old(index)) ==>
                gone == {} && Trees() == old(Trees()) && index == old(index)
      ensures !ok && (forall i :: 0 <= i < |targets| ==> targets[i] in old(index)) ==>
                LocatedLeaves(old(Trees()), leaves, TreeRows(leaves), targets, positions)
                && StopsAt(targets, positions, stop, gone)
    {
      hide ForestOk, WellFormed, PruneAll, Elements, DistinctHashes, Removed, LeafKind, PopCount, SecondsOf, Ordered,
        LocatedLeaves, StopsAt, TreeRows, DeletedUpTo, At;
      ghost var trees, whole := Trees(), index;
      gone, stop := {}, 0;
      PruneAllNothing(trees, leaves);
      RemovedNone(index);
      var found;
      found, positions := Locate(targets);
      if found.None? {
        return false, gone, positions, stop;
      }
      var sorted := SortNodes(found.value);
      SecondsPermuted(found.value, sorted, targets);
      ok, gone, stop := DelSorted(sorted, targets, positions);
    }

    /** Second loop of `del`: the leaves in the order of their positions. */
    method DelSorted(sorted: seq<Node<Hash>>, ghost targets: seq<Hash>, ghost positions: seq<nat>)
      returns (ok: bool, ghost gone: set<nat>, ghost stop: nat)
      requires Valid() && leaves <= MAX_LEAVES && LocatedLeaves(Trees(), leaves, TreeRows(leaves), targets, positions)
      requires multiset(Zip(positions, targets)) == multiset(sorted) && Ordered(sorted)
      requires multiset(SecondsOf(sorted)) == multiset(targets)
      requires forall i :: 0 <= i < |sorted| ==> sorted[i].1 in index && sorted[i].1.LeafHash?
      modifies this, nodes
      ensures Valid() && fresh(nodes - old(nodes)) && leaves == old(leaves)
      ensures ok <==> DistinctHashes(targets)
      ensures Trees() == PruneAll(old(Trees()), gone) && Removed(old(index), index, gone)
      ensures ok ==> LeafKind(targets) && gone == Elements(IdsOf(targets))
      ensures !ok ==> |positions| == |targets| && StopsAt(targets, positions, stop, gone)
    {
      hide ForestOk, WellFormed, PruneAll, Elements, DistinctHashes, Removed, LeafKind, PopCount, SecondsOf, Ordered,
        LocatedLeaves, StopsAt, TreeRows, DeletedUpTo, At;
      ghost var trees, whole, hs := Trees(), index, SecondsOf(sorted);
      gone, stop := {}, 0;
      PruneAllNothing(trees, leaves);
      RemovedNone(index);
      DeletedNone(hs);
      var i := 0;
      while i < |sorted|
        invariant i <= |sorted| && Valid() && fresh(nodes - old(nodes)) && leaves == old(leaves)
        invariant DeletedUpTo(hs, i, gone)
        invariant Removed(whole, index, gone) && Trees() == PruneAll(trees, gone)
      {
        var target := sorted[i].1;
        RemovedAt(whole, index, gone, target);
        if target !in index {
          Repeated(hs, i, gone);
          PermutedDistinct(hs, targets);
          TreeRowsFit(leaves);
          stop := RepeatStops(trees, leaves, TreeRows(leaves), targets, positions, sorted, i, gone);
          return false, gone, stop;
        }
        gone := DelOne(target, hs, i, whole, trees, gone);
        i := i + 1;
      }
      DeletedAll(hs, gone);
      PermutedDistinct(hs, targets);
      PermutedIds(hs, targets);
      ok := true;
    }

    /** First loop of `del`: the leaves with their positions, unless one is missing. */
    method Locate(targets: seq<Hash>) returns (r: Option<seq<Node<Hash>>>, ghost positions: seq<nat>)
      requires Valid() && leaves <= MAX_LEAVES
      ensures r.Some? <==> forall i :: 0 <= i < |targets| ==> targets[i] in index
      ensures r.Some? ==> |r.value| == |targets|
      ensures r.Some? ==> forall i :: 0 <= i < |targets| ==> targets[i].LeafHash? && r.value[i].1 == targets[i]
      ensures r.Some? ==> LocatedLeaves(Trees(), leaves, TreeRows(leaves), targets, positions)
                          && r.value == Zip(positions, targets)
    {
      hide ForestOk, At, Positions.Valid, WellFormed, TreeRows, LocatedLeaves;
      var found: seq<Node<Hash>> := [];
      positions := [];
      LocatedNone(Trees(), leaves, TreeRows(leaves));
      for i := 0 to |targets|
        invariant |found| == |positions| == i
        invariant forall k :: 0 <= k < i ==> targets[k] in index && targets[k].LeafHash? && found[k].1 == targets[k]
        invariant forall k :: 0 <= k < i ==> found[k].0 == positions[k]
        invariant LocatedLeaves(Trees(), leaves, TreeRows(leaves), targets[..i], positions)
      {
        if targets[i] !in index {
          return None, positions;
        }
        IndexedLeaf(Snap(nodes), roots, leaves, index, targets[i]);
        SnapAt(nodes, index[targets[i]]);
        var pos := GetPos(index[targets[i]]);
        LocatedNext(Trees(), leaves, TreeRows(leaves), targets[..i], positions, targets[i], pos.value);
        assert targets[..i + 1] == targets[..i] + [targets[i]];
        positions := positions + [pos.value];
        found := found + [(pos.value, index[targets[i]].data)];
      }
      assert targets[..|targets|] == targets;
      assert found == Zip(positions, targets);
      r := Some(found);
    }

    /** One round of the second loop. */
    method DelOne(target: Hash, ghost hs: seq<Hash>, ghost i: nat, ghost whole: map<Hash, TreeNode>,
                  ghost trees: seq<Tree>, ghost gone: set<nat>)
      returns (ghost gone': set<nat>)
      requires Valid() && target in index && DeletedUpTo(hs, i, gone) && i < |hs| && hs[i] == target
      requires Removed(whole, index, gone) && Trees() == PruneAll(trees, gone)
      modifies this, nodes
      ensures Valid() && fresh(nodes - old(nodes)) && leaves == old(leaves)
      ensures DeletedUpTo(hs, i + 1, gone') && Removed(whole, index, gone') && Trees() == PruneAll(trees, gone')
    {
      hide ForestOk, WellFormed, PruneAll, Elements, DistinctHashes, Removed, DeletedUpTo, PopCount;
      var node := index[target];
      IndexedLeaf(Snap(nodes), roots, leaves, index, target);
      SnapAt(nodes, node);
      ghost var before := index;
      RemovedAt(whole, index, gone, target);
      index := index - {target};
      assert index[target := node] == before;
      DelSingle(node, target.id);
      PruneAllTwice(trees, gone, {target.id});
      gone' := gone + {target.id};
      RemovedNext(whole, before, index, gone, target);
      DeletedNext(hs, i, gone, target);
    }

    /** `add` */
    method Add(values: seq<Hash>)
      requires Valid() && LeafKind(values) && DistinctHashes(values)
      requires forall i :: 0 <= i < |values| ==> values[i] !in index
      modifies this, nodes
      ensures Valid() && fresh(nodes - old(nodes))
      ensures leaves == old(leaves) + |values|
      ensures Trees() == AddAll(old(Trees()), old(leaves), IdsOf(values))
      ensures index.Keys == old(index).Keys + set h | h in values
    {
      hide ForestOk, Carry, WellFormed, PopCount, AddAll, IdsOf, TreesOf, Snap;
      ghost var goal := AddAll(Trees(), leaves, IdsOf(values));
      assert values[0..] == values;
      var i := 0;
      while i < |values|
        invariant i <= |values| && Valid() && fresh(nodes - old(nodes)) && leaves == old(leaves) + i
        invariant AddAll(Trees(), leaves, IdsOf(values[i..])) == goal
        invariant index.Keys == old(index).Keys + set h | h in values[..i]
      {
        AddNext(Trees(), leaves, values, i);
        assert values[i] !in values[..i];
        AddSingle(values[i]);
        assert values[..i + 1] == values[..i] + [values[i]];
        i := i + 1;
      }
      assert values[..i] == values;
      AddNone(Trees(), leaves, values);
    }

    /** `modify`: one block, deletions first.  A block with an unknown leaf changes nothing; one that
        lists a leaf twice leaves behind what `del` does. */
    method Modify(add: seq<Hash>, del: seq<Hash>)
      returns (ok: bool, ghost gone: set<nat>, ghost positions: seq<nat>, ghost stop: nat)
      requires Valid() && leaves <= MAX_LEAVES && LeafKind(add) && DistinctHashes(add)
      requires forall i :: 0 <= i < |add| ==> add[i] !in index || add[i] in del
      modifies this, nodes
      ensures Valid() && fresh(nodes - old(nodes))
      ensures ok <==> (forall i :: 0 <= i < |del| ==> del[i] in old(index)) && DistinctHashes(del)
      ensures ok ==> LeafKind(del) && leaves == old(leaves) + |add|
                     && Trees() == Block(old(Trees()), old(leaves), Elements(IdsOf(del)), IdsOf(add))
                     && index.Keys == old(index).Keys - (set h | h in del) + (set h | h in add)
      ensures !ok ==> leaves == old(leaves) && Trees() == PruneAll(old(Trees()), gone)
                      && Removed(old(index), index, gone)
      ensures (exists i :: 0 <= i < |del| && del[i] !in old(index)) ==> Trees() == old(Trees()) && index == old(index)
      ensures !ok && (forall i :: 0 <= i < |del| ==> del[i] in old(index)) ==>
                LocatedLeaves(old(Trees()), leaves, TreeRows(leaves), del, positions)
                && StopsAt(del, positions, stop, gone)
    {
      hide ForestOk, AddAll, PruneAll, WellFormed, DistinctHashes, PopCount, LocatedLeaves, StopsAt, TreeRows;
      ok, gone, positions, stop := Del(del);
      if ok {
        GoneHashes(del, gone);
        Add(add);
      }
    }
  }

  lemma MergedSnap(h: Heap, h': Heap, root: TreeNode, top: TreeNode, node: TreeNode)
    requires root in h && top in h && h'.Keys == h.Keys + {node} && node !in h && root != top
    requires forall n :: n in h && n != root && n != top ==> h'[n] == h[n]
    requires h'[root] == h[root].(parent := node) && h'[top] == h[top].(parent := node)
    requires h'[node] ==
             Cell(BranchNode, ParentHash(h[root].data, h[top].data), null, root, top, Fork(h[root].tree, h[top].tree))
    ensures h' == Merged(h, root, top, node)
  {
  }

  /** A new branch above two parentless nodes. */
  method JoinUnder(root: TreeNode, top: TreeNode, ghost nodes: set<TreeNode>) returns (parent: TreeNode)
    requires root in nodes && top in nodes && root != top
    modifies root`parent, top`parent
    ensures fresh(parent)
    ensures Snap(nodes + {parent}) == Merged(old(Snap(nodes)), root, top, parent)
  {
    hide Merged;
    ghost var h := Snap(nodes);
    parent := new TreeNode(BranchNode, ParentHash(root.data, top.data), root, top, Fork(root.tree, top.tree));
    root.parent := parent;
    top.parent := parent;
    MergedSnap(h, Snap(nodes + {parent}), root, top, parent);
  }

  lemma RootOf(h: Heap, roots: seq<TreeNode>, leaves: nat, index: map<Hash, TreeNode>, node: TreeNode) returns (i: nat)
    requires ForestOk(h, roots, leaves, index) && node in h && h[node].parent == null
    ensures RootsIn(h, roots) && i < |roots| && roots[i] == node
  {
    i :| 0 <= i < |roots| && roots[i] == node;
  }

  /** A root found by its hash is the root that was looked for. */
  lemma RootByData(h: Heap, roots: seq<TreeNode>, leaves: nat, index: map<Hash, TreeNode>, node: TreeNode, pos: nat)
    requires ForestOk(h, roots, leaves, index) && node in h && h[node].tree != Nil
    requires pos < |roots| && roots[pos] in h && h[roots[pos]].data == h[node].data
    ensures roots[pos] == node
  {
    hide AllOk, IndexOk, RootsOk;
    DataUnique(h, index, node, roots[pos]);
  }

  lemma RootDeletedSnap(h: Heap, h': Heap, node: TreeNode, empty: TreeNode)
    requires node in h && empty !in h && h'.Keys == h.Keys - {node} + {empty}
    requires forall n :: n in h && n != node ==> h'[n] == h[n]
    requires h'[empty] == EmptyCell()
    ensures h' == RootDeleted(h, node, empty)
  {
  }

  lemma PromotedFamily(h: Heap, roots: seq<TreeNode>, leaves: nat, index: map<Hash, TreeNode>, node: TreeNode, id: nat)
    returns (p: TreeNode, s: TreeNode)
    requires ForestOk(h, roots, leaves, index) && node in h && h[node].tree == Tip(id) && h[node].parent != null
    ensures LeafFamily(h, node, p, s, id) && p == h[node].parent && p in h && s in h && node != p && node != s && s != p
    ensures h[p].tree != Nil && h[p].left != null && h[p].left in h && h[p].right != null && h[p].right in h
    ensures s == if h[h[p].left].data == h[node].data then h[p].right else h[p].left
    ensures h[p].parent != null ==> h[p].parent in h
  {
    hide AllOk, IndexOk, RootsOk;
    p, s := FamilyOfLeaf(h, node, id);
    LinksIn(h, p);
    FamilyFork(h, node, p, s, id);
    DataUnique(h, index, node, h[p].left);
  }

  lemma GrandByData(h: Heap, roots: seq<TreeNode>, leaves: nat, index: map<Hash, TreeNode>,
                    node: TreeNode, p: TreeNode, s: TreeNode, id: nat, g: TreeNode)
    requires ForestOk(h, roots, leaves, index) && LeafFamily(h, node, p, s, id) && p in h && h[p].parent == g && g in h
    ensures h[g].left != null && h[g].left in h && g != s && g != p && g != node
    ensures h[h[g].left].data == h[p].data <==> h[g].left == p
  {
    hide AllOk, IndexOk, RootsOk;
    LinksIn(h, p);
    LinksIn(h, g);
    FamilyFork(h, node, p, s, id);
    DataUnique(h, index, p, h[g].left);
  }

  lemma SplicedSnap(h: Heap, h': Heap, node: TreeNode, p: TreeNode, s: TreeNode)
    requires p in h && s in h && s != node && s != p && h'.Keys == h.Keys - {node, p}
    requires var g := h[p].parent;
             && h'[s] == h[s].(parent := g)
             && (g != null ==>
                 g in h' && g != s && h'[g] == if h[g].left == p then h[g].(left := s) else h[g].(right := s))
             && forall n :: n in h' && n != s && n != g ==> h'[n] == h[n]
    ensures h' == Spliced(h, node, p, s)
  {
  }

  lemma PromotedReady(h: Heap, roots: seq<TreeNode>, leaves: nat, index: map<Hash, TreeNode>,
                      node: TreeNode, p: TreeNode, s: TreeNode, id: nat) returns (bound: nat)
    requires ForestOk(h, roots, leaves, index) && LeafFamily(h, node, p, s, id) && p in h && s in h
    requires h[p].parent != null
    ensures var h1 := Spliced(h, node, p, s);
            && h1.Keys == h.Keys - {node, p} && s in h1
            && Cut(h1, TreesBefore(h, h1), id) && CutAt(h1, s, TreesBefore(h, h1), id)
            && forall n :: n in h1 ==> Size(TreesBefore(h, h1)[n]) <= bound
  {
    hide AllOk, IndexOk, RootsOk, LeafFamily, Spliced, Cut, CutAt, Distinct;
    forall n | n in h ensures Distinct(Ids(h[n].tree)) {
      NodeIdsLive(h, roots, leaves, index, n);
    }
    FamilyNode(h, node, p, s, id);
    SplicedCut(h, index, node, p, s, id);
    SplicedCutAt(h, index, node, p, s, id);
    bound := SizesBounded(h, h.Keys);
  }

  lemma PromotedRoot(h: Heap, roots: seq<TreeNode>, leaves: nat, index: map<Hash, TreeNode>,
                     node: TreeNode, p: TreeNode, s: TreeNode, id: nat)
    requires ForestOk(h, roots, leaves, index) && LeafFamily(h, node, p, s, id) && p in h && s in h
    requires h[p].parent == null
    ensures Spliced(h, node, p, s).Keys == h.Keys - {node, p}
    ensures Repaired(h, Spliced(h, node, p, s), Spliced(h, node, p, s), id)
  {
    hide IndexOk, RootsOk, LeafFamily, Spliced, WellFormed, AllOk;
    SplicedKeys(h, node, p, s, id);
    SplicedRoot(h, roots, leaves, index, node, p, s, id);
  }

  lemma RepairedBy(h: Heap, h1: Heap, h2: Heap, id: nat)
    requires h1.Keys <= h.Keys && SameLinks(h1, h2) && AllOk(h2)
    requires forall n :: n in h2 ==> h2[n].tree == Prune(TreesBefore(h, h1)[n], {id})
    ensures Repaired(h, h1, h2, id)
  {
    hide AllOk, Prune;
  }

  lemma SnapAt(nodes: set<TreeNode>, n: TreeNode)
    requires n in nodes
    ensures Snap(nodes)[n] == Cell(n.ty, n.data, n.parent, n.left, n.right, n.tree)
  {
  }

  /** A walk down from a node of the forest is at most 61 steps long. */
  lemma ClimbHeight(h: Heap, roots: seq<TreeNode>, leaves: nat, index: map<Hash, TreeNode>, n: TreeNode, ds: seq<bool>)
    requires ForestOk(h, roots, leaves, index) && leaves <= MAX_LEAVES && n in h && Walk(h[n].tree, ds) != Nil
    ensures |ds| <= 61
  {
    hide AllOk, IndexOk, WellFormed;
    var bound := SizesBounded(h, h.Keys);
    var i := BelowRoot(h, roots, n, bound);
    WalkHeight(h[n].tree, ds);
    HeightBelow(TreesOf(h, roots), leaves, i);
  }

  /** One step up: hashes tell left from right. */
  lemma ClimbFacts(h: Heap, roots: seq<TreeNode>, leaves: nat, index: map<Hash, TreeNode>, n: TreeNode, ds: seq<bool>)
    requires ForestOk(h, roots, leaves, index) && n in h && h[n].parent != null && h[n].tree != Nil
    ensures h[n].parent in h && h[h[n].parent].left != null && h[h[n].parent].left in h
    ensures var p := h[n].parent;
            && h[p].tree != Nil && Size(h[n].tree) < Size(h[p].tree)
            && Walk(h[p].tree, [h[h[p].left].data != h[n].data] + ds) == Walk(h[n].tree, ds)
  {
    hide IndexOk, WellFormed, AllOk, Merkle;
    LinksIn(h, n);
    var p: TreeNode := h[n].parent;
    ContentIn(h, p);
    ChildSmaller(h, p);
    ContentIn(h, h[p].left);
    ContentIn(h, h[p].right);
    DataUnique(h, index, n, h[p].left);
    var d := h[h[p].left].data != h[n].data;
    assert ([d] + ds)[1..] == ds;
  }
}
