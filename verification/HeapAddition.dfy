/** Adding a leaf to the linked nodes (`add_single`, src/mem_forest/mod.rs). */
module HeapAddition {
  import opened Forest
  import opened Bits
  import opened NodeHeap
  import opened ForestHeap

  /** While the new leaf is carried up: `top` is the tree under construction, the roots that are
      left stand for the upper rows. */
  ghost predicate Carrying(h: Heap, roots: seq<TreeNode>, top: TreeNode, index: map<Hash, TreeNode>) {
    && AllOk(h) && IndexOk(h, index)
    && RootsOk(h, roots + [top])
    && top in h && h[top].tree != Nil
  }

  /** A new leaf starts the carry. */
  lemma CarryStart(h: Heap, roots: seq<TreeNode>, index: map<Hash, TreeNode>, id: nat, node: TreeNode)
    requires AllOk(h) && RootsOk(h, roots) && IndexOk(h, index)
    requires node !in h && LeafHash(id) !in index
    ensures Carrying(h[node := Cell(LeafNode, LeafHash(id), null, null, null, Tip(id))], roots, node,
                     index[LeafHash(id) := node])
  {
    hide AllOk, RootsOk, IndexOk, NodeOk;
    var h' := h[node := Cell(LeafNode, LeafHash(id), null, null, null, Tip(id))];
    forall n | n in h' ensures NodeOk(h', n) {
      if n != node { NodeKept(h, h', n); } else { LeafOk(h', node, id); }
    }
    Everyone(h');
    RootsAdd(h, h', roots, node);
    IndexAdd(h, h', index, id, node);
  }

  lemma LeafOk(h: Heap, node: TreeNode, id: nat)
    requires node in h && h[node] == Cell(LeafNode, LeafHash(id), null, null, null, Tip(id))
    ensures NodeOk(h, node)
  {
  }

  lemma IndexAdd(h: Heap, h': Heap, index: map<Hash, TreeNode>, id: nat, node: TreeNode)
    requires IndexOk(h, index) && LeafHash(id) !in index && node !in h
    requires h'.Keys == h.Keys + {node} && h'[node].tree == Tip(id)
    requires forall m :: m in h ==> h'[m] == h[m]
    ensures IndexOk(h', index[LeafHash(id) := node])
  {
  }

  lemma NodeKept(h: Heap, h': Heap, n: TreeNode)
    requires AllOk(h) && n in h && forall m :: m in h ==> m in h' && h'[m] == h[m]
    ensures NodeOk(h', n)
  {
    hide Merkle;
    assert NodeOk(h, n);
  }

  lemma RootsAdd(h: Heap, h': Heap, roots: seq<TreeNode>, node: TreeNode)
    requires RootsOk(h, roots) && node !in h && h'.Keys == h.Keys + {node} && h'[node].parent == null
    requires forall m :: m in h ==> h'[m] == h[m]
    ensures RootsOk(h', roots + [node])
  {
    var all := roots + [node];
    forall n | n in h' && h'[n].parent == null ensures n in all {
      if n == node {
        assert all[|roots|] == node;
      } else {
        var i :| 0 <= i < |roots| && roots[i] == n;
        assert all[i] == n;
      }
    }
  }

  /** An empty root is dropped. */
  lemma CarryOverEmpty(h: Heap, roots: seq<TreeNode>, top: TreeNode, index: map<Hash, TreeNode>, root: TreeNode)
    requires Carrying(h, roots, top, index) && roots != [] && root == roots[|roots| - 1]
    requires root in h && h[root].data == Empty
    ensures h[root].tree == Nil && root != top
    ensures Carrying(h - {root}, roots[..|roots| - 1], top, index)
  {
    CarryDrop(h, roots, top, index, root, h - {root});
  }

  lemma CarryDrop(h: Heap, roots: seq<TreeNode>, top: TreeNode, index: map<Hash, TreeNode>, root: TreeNode, h': Heap)
    requires Carrying(h, roots, top, index) && roots != [] && root == roots[|roots| - 1]
    requires root in h && h[root].data == Empty && h' == h - {root}
    ensures h[root].tree == Nil && root != top
    ensures Carrying(h', roots[..|roots| - 1], top, index)
  {
    hide AllOk, RootsOk, IndexOk, NodeOk;
    RootsTop(h, roots, top, root);
    EmptyIsNil(h, root);
    forall n | n in h' ensures NodeOk(h', n) {
      DropKept(h, root, n);
    }
    Everyone(h');
    RootsDrop(h, roots, top, root);
    IndexDrop(h, index, root);
  }

  lemma IndexDrop(h: Heap, index: map<Hash, TreeNode>, root: TreeNode)
    requires IndexOk(h, index) && root in h && h[root].tree == Nil
    ensures IndexOk(h - {root}, index)
  {
  }

  lemma Everyone(h: Heap)
    requires forall n :: n in h ==> NodeOk(h, n)
    ensures AllOk(h)
  {
  }

  lemma RootsTop(h: Heap, roots: seq<TreeNode>, top: TreeNode, root: TreeNode)
    requires RootsOk(h, roots + [top]) && roots != [] && root == roots[|roots| - 1]
    ensures root in h && top in h && h[root].parent == null && root != top && h[top].parent == null
  {
    var all := roots + [top];
    assert all[|roots| - 1] == root && all[|roots|] == top;
  }

  lemma EmptyIsNil(h: Heap, n: TreeNode)
    requires AllOk(h) && n in h
    ensures h[n].data == Empty <==> h[n].tree == Nil
    ensures h[n].tree == Nil ==> h[n].left == null && h[n].right == null && h[n].parent == null
  {
    assert NodeOk(h, n);
  }

  lemma DropKept(h: Heap, root: TreeNode, n: TreeNode)
    requires AllOk(h) && root in h && h[root].parent == null && h[root].left == null && h[root].right == null
    requires n in h && n != root
    ensures NodeOk(h - {root}, n)
  {
    hide Merkle, AllOk;
    ContentIn(h, n);
    ContentIn(h, root);
    if h[n].left != null {
      ContentIn(h, h[n].left);
      ContentIn(h, h[n].right);
    }
    if h[n].parent != null { ContentIn(h, h[n].parent); }
  }

  lemma RootsDrop(h: Heap, roots: seq<TreeNode>, top: TreeNode, root: TreeNode)
    requires RootsOk(h, roots + [top]) && roots != [] && root == roots[|roots| - 1]
    ensures RootsOk(h - {root}, roots[..|roots| - 1] + [top])
  {
    var all, rest := roots + [top], roots[..|roots| - 1] + [top];
    var k := |roots| - 1;
    assert all[k] == root && all[k + 1] == top && |all| == k + 2 && |rest| == k + 1;
    forall i | 0 <= i < |rest| ensures rest[i] in h - {root} && h[rest[i]].parent == null {
      var j := if i < k then i else i + 1;
      assert all[j] == rest[i] && all[j] != all[k];
    }
    forall i, j | 0 <= i < j < |rest| ensures rest[i] != rest[j] {
      assert rest[i] == all[i] && rest[j] == all[if j < k then j else j + 1];
    }
    forall n | n in h - {root} && h[n].parent == null ensures n in rest {
      var i :| 0 <= i < |all| && all[i] == n;
      assert rest[if i < k then i else i - 1] == n;
    }
  }

  function Merged(h: Heap, root: TreeNode, top: TreeNode, node: TreeNode): Heap
    requires root in h && top in h
  {
    h[root := h[root].(parent := node)][top := h[top].(parent := node)]
     [node := Cell(BranchNode, ParentHash(h[root].data, h[top].data), null, root, top, Fork(h[root].tree, h[top].tree))]
  }

  /** A nonempty root and the tree under construction get a common parent. */
  lemma CarryMerge(h: Heap, roots: seq<TreeNode>, top: TreeNode, index: map<Hash, TreeNode>, root: TreeNode,
                   node: TreeNode)
    requires Carrying(h, roots, top, index) && roots != [] && root == roots[|roots| - 1]
    requires root in h && h[root].data != Empty && node !in h
    ensures Carrying(Merged(h, root, top, node), roots[..|roots| - 1], node, index)
    ensures Merged(h, root, top, node)[node].tree == Join(h[root].tree, h[top].tree)
  {
    hide AllOk, RootsOk, IndexOk;
    RootsTop(h, roots, top, root);
    EmptyIsNil(h, root);
    var h' := Merged(h, root, top, node);
    forall n | n in h' ensures NodeOk(h', n) {
      MergeKept(h, root, top, node, n);
    }
    Everyone(h');
    MergeRoots(h, roots, top, root, node);
    MergeIndex(h, root, top, node, index);
  }

  lemma MergeKept(h: Heap, root: TreeNode, top: TreeNode, node: TreeNode, n: TreeNode)
    requires AllOk(h) && root in h && top in h && root != top && node !in h
    requires h[root].parent == null && h[top].parent == null && h[root].tree != Nil && h[top].tree != Nil
    requires n in Merged(h, root, top, node)
    ensures NodeOk(Merged(h, root, top, node), n)
  {
    var h' := Merged(h, root, top, node);
    assert NodeOk(h, root) && NodeOk(h, top);
    if n != node {
      assert NodeOk(h, n);
      if h[n].left != null { assert NodeOk(h, h[n].left) && NodeOk(h, h[n].right); }
      if h[n].parent != null { assert NodeOk(h, h[n].parent); }
    }
  }

  lemma MergeRoots(h: Heap, roots: seq<TreeNode>, top: TreeNode, root: TreeNode, node: TreeNode)
    requires RootsOk(h, roots + [top]) && roots != [] && root == roots[|roots| - 1] && root in h && top in h
    requires node !in h
    ensures RootsOk(Merged(h, root, top, node), roots[..|roots| - 1] + [node])
  {
    var h' := Merged(h, root, top, node);
    var all, rest := roots + [top], roots[..|roots| - 1] + [node];
    var k := |roots| - 1;
    forall i | 0 <= i < |rest| ensures rest[i] == (if i < k then all[i] else node) { }
    assert all[k] == root && all[k + 1] == top;
    forall n | n in h' && h'[n].parent == null ensures n in rest {
      if n == node {
        assert rest[k] == node;
      } else {
        var i :| 0 <= i < |all| && all[i] == n;
        assert rest[i] == n;
      }
    }
  }

  lemma MergeIndex(h: Heap, root: TreeNode, top: TreeNode, node: TreeNode, index: map<Hash, TreeNode>)
    requires IndexOk(h, index) && root in h && top in h && node !in h
    ensures IndexOk(Merged(h, root, top, node), index)
  {
  }

  // ----- the carry as a whole -----

  ghost predicate RootsIn(h: Heap, roots: seq<TreeNode>) {
    forall i :: 0 <= i < |roots| ==> roots[i] in h
  }

  /** Carrying `top` into the remaining roots, which stand for the bits `rest`, gives `goal`. */
  ghost predicate CarryState(h: Heap, roots: seq<TreeNode>, top: TreeNode, index: map<Hash, TreeNode>,
                             rest: nat, goal: seq<Tree>) {
    && Carrying(h, roots, top, index) && RootsIn(h, roots) && |roots| == PopCount(rest)
    && Carry(TreesOf(h, roots), rest, h[top].tree) == goal
  }

  lemma StateStart(h: Heap, roots: seq<TreeNode>, leaves: nat, index: map<Hash, TreeNode>, id: nat, node: TreeNode)
    requires ForestOk(h, roots, leaves, index) && node !in h && LeafHash(id) !in index
    ensures RootsIn(h, roots) && |roots| == PopCount(leaves)
    ensures CarryState(h[node := Cell(LeafNode, LeafHash(id), null, null, null, Tip(id))], roots, node,
                       index[LeafHash(id) := node], leaves, Carry(TreesOf(h, roots), leaves, Tip(id)))
  {
    hide AllOk, IndexOk, Shape, Carrying, Distinct;
    ShapeLength(TreesOf(h, roots), leaves, 0);
    CarryStart(h, roots, index, id, node);
    var h' := h[node := Cell(LeafNode, LeafHash(id), null, null, null, Tip(id))];
    assert TreesOf(h', roots) == TreesOf(h, roots);
  }

  lemma StateRoot(h: Heap, roots: seq<TreeNode>, top: TreeNode, index: map<Hash, TreeNode>, rest: nat, goal: seq<Tree>)
    requires CarryState(h, roots, top, index, rest, goal)
    ensures top in h && RootsIn(h, roots) && h[top].parent == null
    ensures rest % 2 == 1 ==> roots != [] && roots[|roots| - 1] != top && h[roots[|roots| - 1]].parent == null
  {
    hide AllOk, IndexOk, Carry;
    if rest % 2 == 1 { RootsTop(h, roots, top, roots[|roots| - 1]); }
    var all := roots + [top];
    assert all[|roots|] == top;
  }

  lemma StateEmpty(h: Heap, roots: seq<TreeNode>, top: TreeNode, index: map<Hash, TreeNode>, rest: nat, goal: seq<Tree>,
                   root: TreeNode)
    requires CarryState(h, roots, top, index, rest, goal) && rest % 2 == 1
    requires roots != [] && root == roots[|roots| - 1] && root in h && h[root].data == Empty
    ensures CarryState(h - {root}, roots[..|roots| - 1], top, index, rest / 2, goal) && root != top
  {
    hide Carrying, AllOk;
    CarryOverEmpty(h, roots, top, index, root);
    var rest' := roots[..|roots| - 1];
    CarryingRoots(h - {root}, rest', top, index);
    assert TreesOf(h - {root}, rest') == TreesOf(h, roots)[..|roots| - 1];
  }

  lemma CarryingRoots(h: Heap, roots: seq<TreeNode>, top: TreeNode, index: map<Hash, TreeNode>)
    requires Carrying(h, roots, top, index)
    ensures RootsIn(h, roots) && top in h && top !in roots && h[top].parent == null
  {
    hide AllOk, IndexOk;
    var all := roots + [top];
    assert all[|roots|] == top;
    forall i | 0 <= i < |roots| ensures roots[i] in h && roots[i] != top { assert all[i] == roots[i]; }
  }

  lemma StateMerge(h: Heap, roots: seq<TreeNode>, top: TreeNode, index: map<Hash, TreeNode>, rest: nat, goal: seq<Tree>,
                   root: TreeNode, node: TreeNode)
    requires CarryState(h, roots, top, index, rest, goal) && rest % 2 == 1
    requires roots != [] && root == roots[|roots| - 1] && root in h && top in h && h[root].data != Empty && node !in h
    ensures CarryState(Merged(h, root, top, node), roots[..|roots| - 1], node, index, rest / 2, goal)
  {
    hide Carrying, Join, Merged;
    CarryMerge(h, roots, top, index, root, node);
    var rest' := roots[..|roots| - 1];
    CarryingRoots(Merged(h, root, top, node), rest', node, index);
    CarryingRoots(h, roots, top, index);
    MergedTrees(h, roots, top, root, node);
  }

  lemma MergedTrees(h: Heap, roots: seq<TreeNode>, top: TreeNode, root: TreeNode, node: TreeNode)
    requires RootsIn(h, roots) && roots != [] && root == roots[|roots| - 1] && top in h && node !in h
    requires RootsIn(Merged(h, root, top, node), roots[..|roots| - 1])
    ensures TreesOf(Merged(h, root, top, node), roots[..|roots| - 1]) == TreesOf(h, roots)[..|roots| - 1]
  {
  }

  lemma StateFinish(h: Heap, roots: seq<TreeNode>, top: TreeNode, index: map<Hash, TreeNode>, rest: nat,
                    goal: seq<Tree>, leaves: nat)
    requires CarryState(h, roots, top, index, rest, goal) && rest % 2 == 0 && WellFormed(goal, leaves)
    ensures ForestOk(h, roots + [top], leaves, index) && TreesOf(h, roots + [top]) == goal
  {
    hide AllOk, IndexOk;
    CarryingRoots(h, roots, top, index);
    assert TreesOf(h, roots + [top]) == TreesOf(h, roots) + [h[top].tree];
  }

  lemma CarryWellFormed(h: Heap, roots: seq<TreeNode>, leaves: nat, index: map<Hash, TreeNode>, id: nat)
    requires ForestOk(h, roots, leaves, index) && LeafHash(id) !in index && |roots| == PopCount(leaves)
    ensures WellFormed(Carry(TreesOf(h, roots), leaves, Tip(id)), leaves + 1)
  {
    hide AllOk, IndexOk, Carry, Shape, AllIds;
    var trees := TreesOf(h, roots);
    IndexIsLive(h, roots, leaves, index, id);
    AddWellFormed(trees, leaves, [id]);
    AddOneIs(trees, leaves, id);
  }
}
