/** The linked nodes of `MemForest` (src/mem_forest/mod.rs), and what holds of their links.

    Every node carries a ghost `tree`, the value it is the root of.  All properties are stated of
    a snapshot of the nodes, a map from node to cell, one node at a time: links are inverse to
    each other, children come in pairs, and the cached hash is the Merkle hash of the tree that
    the children make up.  Acyclicity needs no extra condition, since a child's tree is a proper
    part of its parent's.
  */
module NodeHeap {
  import opened Forest

  datatype NodeType = BranchNode | LeafNode

  datatype Cell = Cell(ty: NodeType, data: Hash, parent: TreeNode?, left: TreeNode?, right: TreeNode?, tree: Tree)

  type Heap = map<TreeNode, Cell>

  class TreeNode {
    var ty: NodeType
    var data: Hash
    var parent: TreeNode?
    var left: TreeNode?
    var right: TreeNode?
    ghost var tree: Tree

    constructor (ty: NodeType, data: Hash, left: TreeNode?, right: TreeNode?, ghost tree: Tree)
      ensures this.ty == ty && this.data == data && this.parent == null
      ensures this.left == left && this.right == right && this.tree == tree
    {
      this.ty := ty;
      this.data := data;
      this.parent := null;
      this.left := left;
      this.right := right;
      this.tree := tree;
    }

    /** Recomputes the cached hash of this node and of every node above it, after leaf `id` was
        cut out; `was` holds the trees from before. */
    method RecomputeHashes(ghost nodes: set<TreeNode>, ghost was: map<TreeNode, Tree>, ghost id: nat, ghost bound: nat)
      requires this in nodes && Cut(Snap(nodes), was, id) && CutAt(Snap(nodes), this, was, id)
      requires forall n :: n in nodes ==> Size(was[n]) <= bound
      modifies nodes`data, nodes`tree
      ensures AllOk(Snap(nodes)) && forall n :: n in nodes ==> n.tree == Prune(was[n], {id})
      decreases bound - Size(was[this])
    {
      hide Cut, CutAt, AllOk, Prune, Merkle;
      ghost var h := Snap(nodes);
      CutStep(h, this, was, id);
      if left != null && right != null {
        data := ParentHash(left.data, right.data);
        tree := Fork(left.tree, right.tree);
      }
      assert Snap(nodes) == h[this := Rehashed(h, this)];
      if parent != null {
        parent.RecomputeHashes(nodes, was, id, bound);
      }
    }
  }

  ghost function Snap(nodes: set<TreeNode>): (h: Heap)
    reads nodes
    ensures h.Keys == nodes
  {
    map n | n in nodes :: Cell(n.ty, n.data, n.parent, n.left, n.right, n.tree)
  }

  /** Parent and child links are inverse to each other, and children come in pairs. */
  ghost predicate LinksOk(h: Heap, n: TreeNode)
    requires n in h
  {
    var c := h[n];
    && (c.left == null <==> c.right == null)
    && (c.left != null ==>
          c.left in h && c.right in h && c.left != c.right && h[c.left].parent == n && h[c.right].parent == n)
    && (c.parent != null ==> c.parent in h && (h[c.parent].left == n || h[c.parent].right == n))
  }

  /** The node's type, cached hash and tree fit its children. */
  ghost predicate ContentOk(h: Heap, n: TreeNode)
    requires n in h && LinksOk(h, n)
  {
    var c := h[n];
    && c.data == Merkle(c.tree)
    && (if c.left != null then c.ty.BranchNode? && c.tree == Fork(h[c.left].tree, h[c.right].tree)
        else (c.ty.LeafNode? && c.tree.Tip?) || (c.ty.BranchNode? && c.tree.Nil? && c.parent == null))
  }

  ghost predicate NodeOk(h: Heap, n: TreeNode)
    requires n in h
  {
    LinksOk(h, n) && ContentOk(h, n)
  }

  ghost predicate AllOk(h: Heap) {
    forall n :: n in h ==> NodeOk(h, n)
  }

  lemma LinksIn(h: Heap, n: TreeNode)
    requires AllOk(h) && n in h
    ensures LinksOk(h, n)
  {
    hide ContentOk;
    assert NodeOk(h, n);
  }

  lemma ContentIn(h: Heap, n: TreeNode)
    requires AllOk(h) && n in h
    ensures NodeOk(h, n)
  {
    hide NodeOk;
  }

  // ----- repairing the hashes above a cut -----

  /** Every tree is either untouched and still to be repaired, or already without the leaf. */
  ghost predicate Cut(h: Heap, was: map<TreeNode, Tree>, id: nat) {
    forall n :: n in h ==> CutNode(h, n, was, id)
  }

  ghost predicate CutNode(h: Heap, n: TreeNode, was: map<TreeNode, Tree>, id: nat)
    requires n in h
  {
    && n in was && Distinct(Ids(was[n])) && (was[n].Nil? || Proper(was[n]))
    && h[n].tree == (if id in Ids(h[n].tree) then was[n] else Prune(was[n], {id}))
    && h[n].tree != Tip(id)
    && LinksOk(h, n)
  }

  /** The tree that the children of a node make up. */
  ghost function TreeOfChildren(h: Heap, n: TreeNode): Tree
    requires n in h && LinksOk(h, n)
  {
    if h[n].left != null then Fork(h[h[n].left].tree, h[h[n].right].tree) else h[n].tree
  }

  /** The cell after the hash and the tree have been recomputed from the children. */
  ghost function Rehashed(h: Heap, n: TreeNode): Cell
    requires n in h && LinksOk(h, n)
  {
    if h[n].left != null then
      h[n].(data := ParentHash(h[h[n].left].data, h[h[n].right].data), tree := TreeOfChildren(h, n))
    else h[n]
  }

  /** Only `cur` and its parent are out of date: the children of `cur` make up its pruned tree, and
      the parent is to be repaired with it. */
  ghost predicate CutAt(h: Heap, cur: TreeNode, was: map<TreeNode, Tree>, id: nat)
    requires cur in h && Cut(h, was, id)
  {
    && (forall n :: n in h && n != cur && n != h[cur].parent ==> NodeOk(h, n))
    && CutHere(h, cur, was, id)
  }

  ghost predicate CutHere(h: Heap, cur: TreeNode, was: map<TreeNode, Tree>, id: nat)
    requires cur in h && CutNode(h, cur, was, id)
  {
    var c := h[cur];
    && TreeOfChildren(h, cur) == Prune(was[cur], {id})
    && id !in Ids(TreeOfChildren(h, cur))
    && (if c.left == null then ContentOk(h, cur)
        else c.ty.BranchNode? && h[c.left].data == Merkle(h[c.left].tree) && h[c.right].data == Merkle(h[c.right].tree))
    && (c.parent != null ==> LinksOk(h, c.parent) && ParentWaits(h, cur, c.parent, was, id))
  }

  /** The parent still has its old tree, made of the old tree of `cur` and an untouched sibling. */
  ghost predicate ParentWaits(h: Heap, cur: TreeNode, p: TreeNode, was: map<TreeNode, Tree>, id: nat)
    requires cur in h && LinksOk(h, cur) && p in h && LinksOk(h, p)
  {
    var now, t := TreeOfChildren(h, cur), h[p].tree;
    && h[p].left != null && h[p].ty.BranchNode? && t.Fork? && id in Ids(t)
    && cur in was && Size(was[cur]) < Size(t)
    && (h[p].left == cur ==> now == Prune(t.left, {id}) && Untouched(h, h[p].right, t.right, id))
    && (h[p].right == cur ==> now == Prune(t.right, {id}) && Untouched(h, h[p].left, t.left, id))
  }

  ghost predicate Untouched(h: Heap, n: TreeNode, t: Tree, id: nat)
    requires n in h
  {
    h[n].tree == t == Prune(t, {id}) && id !in Ids(t)
  }

  lemma CutNodeAt(h: Heap, n: TreeNode, was: map<TreeNode, Tree>, id: nat)
    requires n in h && Cut(h, was, id)
    ensures CutNode(h, n, was, id)
  {
    hide CutNode;
  }

  lemma CutAtOther(h: Heap, cur: TreeNode, n: TreeNode, was: map<TreeNode, Tree>, id: nat)
    requires cur in h && Cut(h, was, id) && CutAt(h, cur, was, id)
    requires n in h && n != cur && n != h[cur].parent
    ensures NodeOk(h, n)
  {
    hide CutNode, CutHere, NodeOk;
  }

  /** A leaf of a fork is in one of its children only, and deleting it leaves the other as it is. */
  lemma HalvesApart(l: Tree, r: Tree, id: nat)
    requires Distinct(Ids(Fork(l, r))) && Proper(Fork(l, r))
    ensures id in Ids(l) ==> id !in Ids(r) && Prune(r, {id}) == r
    ensures id in Ids(r) ==> id !in Ids(l) && Prune(l, {id}) == l
  {
    if id in Ids(l) && id in Ids(r) {
      Doubled(Ids(l), Ids(r), Ids(Fork(l, r)), id);
    }
    if id in Ids(l) { PruneNothing(r, {id}); } else { PruneNothing(l, {id}); }
  }

  /** Facts about the family of the node under repair, before the step. */
  ghost predicate Family(h: Heap, cur: TreeNode, p: TreeNode, was: map<TreeNode, Tree>, id: nat)
    requires cur in h && p in h && Cut(h, was, id)
  {
    && CutNode(h, cur, was, id) && CutNode(h, p, was, id)
    && h[cur].parent == p && p != cur && h[p].left != null
    && ParentWaits(h, cur, p, was, id)
    && h[p].tree == was[p]
    && TreeOfChildren(h, cur) != Nil
    && (h[p].left == cur ==> h[p].right != cur && h[p].right != p && NodeOk(h, h[p].right) && h[h[p].right].tree != Nil)
    && (h[p].right == cur ==> h[p].left != cur && h[p].left != p && NodeOk(h, h[p].left) && h[h[p].left].tree != Nil)
  }

  lemma FamilyFacts(h: Heap, cur: TreeNode, was: map<TreeNode, Tree>, id: nat)
    requires cur in h && Cut(h, was, id) && CutAt(h, cur, was, id) && h[cur].parent != null
    ensures h[cur].parent in h && Family(h, cur, h[cur].parent, was, id)
  {
    hide Cut, CutAt, Merkle, Prune, Distinct, Proper, AllOk;
    CutNodeAt(h, cur, was, id);
    CutAtHere(h, cur, was, id);
    var p: TreeNode := h[cur].parent;
    CutNodeAt(h, p, was, id);
    var s: TreeNode := if h[p].left == cur then h[p].right else h[p].left;
    CutAtOther(h, cur, s, was, id);
  }

  lemma CutAtHere(h: Heap, cur: TreeNode, was: map<TreeNode, Tree>, id: nat)
    requires cur in h && Cut(h, was, id) && CutAt(h, cur, was, id)
    ensures CutNode(h, cur, was, id) && CutHere(h, cur, was, id)
  {
    hide CutNode, CutHere, NodeOk;
  }

  /** The grandparent, if any, is in order and waits for the parent. */
  lemma GrandparentFacts(h: Heap, cur: TreeNode, p: TreeNode, was: map<TreeNode, Tree>, id: nat)
    requires cur in h && p in h && Cut(h, was, id) && CutAt(h, cur, was, id) && Family(h, cur, p, was, id)
    requires h[p].parent != null
    ensures h[p].parent in h && h[p].parent != cur && h[p].parent != p && NodeOk(h, h[p].parent)
    ensures var g := h[p].parent; var t := h[g].tree;
            && h[g].left != null && h[g].ty.BranchNode? && t == was[g] && t.Fork? && id in Ids(t)
            && Size(was[p]) < Size(t)
            && (h[g].left == p ==> t.left == was[p] && Untouched(h, h[g].right, t.right, id))
            && (h[g].right == p ==> t.right == was[p] && Untouched(h, h[g].left, t.left, id))
  {
    hide Cut, CutAt, Merkle, Prune, Distinct, Proper, AllOk;
    CutAtHere(h, cur, was, id);
    var g: TreeNode := h[p].parent;
    CutNodeAt(h, g, was, id);
    CutAtOther(h, cur, g, was, id);
    HalvesApart(h[g].tree.left, h[g].tree.right, id);
  }

  /** Two heaps with the same links. */
  ghost predicate SameLinks(h: Heap, h': Heap) {
    h.Keys == h'.Keys
    && forall n :: n in h ==> h'[n].parent == h[n].parent && h'[n].left == h[n].left && h'[n].right == h[n].right
  }

  lemma LinksSame(h: Heap, h': Heap, n: TreeNode)
    requires SameLinks(h, h') && n in h && LinksOk(h, n)
    ensures LinksOk(h', n)
  {
  }

  lemma RehashedLinks(h: Heap, cur: TreeNode)
    requires cur in h && LinksOk(h, cur)
    ensures SameLinks(h, h[cur := Rehashed(h, cur)])
    ensures Rehashed(h, cur).tree == TreeOfChildren(h, cur)
  {
  }

  /** The repaired node is in order, and its neighbours' cells are what they were. */
  lemma RehashedOk(h: Heap, cur: TreeNode, was: map<TreeNode, Tree>, id: nat)
    requires cur in h && CutNode(h, cur, was, id) && CutHere(h, cur, was, id) && h[cur].parent != cur
    ensures var h' := h[cur := Rehashed(h, cur)];
            NodeOk(h', cur) && h'[cur].tree == Prune(was[cur], {id}) && id !in Ids(h'[cur].tree)
  {
    hide Prune, Distinct, Proper;
  }

  lemma CutKept(h: Heap, cur: TreeNode, was: map<TreeNode, Tree>, id: nat, n: TreeNode)
    requires cur in h && CutNode(h, cur, was, id) && CutHere(h, cur, was, id)
    requires n in h && CutNode(h, n, was, id)
    ensures CutNode(h[cur := Rehashed(h, cur)], n, was, id)
  {
    hide Merkle, Prune, Distinct, Proper, LinksOk;
    RehashedLinks(h, cur);
    LinksSame(h, h[cur := Rehashed(h, cur)], n);
  }

  /** A node that is not the parent of the repaired one does not notice. */
  lemma OtherOk(h: Heap, cur: TreeNode, n: TreeNode)
    requires cur in h && LinksOk(h, cur) && n in h && NodeOk(h, n) && n != cur && n != h[cur].parent
    ensures NodeOk(h[cur := Rehashed(h, cur)], n)
  {
    hide Merkle;
    RehashedLinks(h, cur);
    LinksSame(h, h[cur := Rehashed(h, cur)], n);
  }

  /** With every node in order and the leaf itself gone, no tree has the leaf. */
  lemma {:induction false} NoneLeft(h: Heap, id: nat, n: TreeNode)
    requires AllOk(h) && n in h && forall m :: m in h ==> h[m].tree != Tip(id)
    ensures id !in Ids(h[n].tree)
    decreases h[n].tree
  {
    hide Merkle;
    assert NodeOk(h, n);
    if h[n].left != null {
      NoneLeft(h, id, h[n].left);
      NoneLeft(h, id, h[n].right);
    }
  }

  lemma CutStepRoot(h: Heap, cur: TreeNode, was: map<TreeNode, Tree>, id: nat)
    requires cur in h && Cut(h, was, id) && CutAt(h, cur, was, id) && h[cur].parent == null && LinksOk(h, cur)
    requires Cut(h[cur := Rehashed(h, cur)], was, id)
    ensures var h' := h[cur := Rehashed(h, cur)];
            AllOk(h') && forall n :: n in h ==> h'[n].tree == Prune(was[n], {id})
  {
    hide Cut, CutAt, Merkle, Prune, Distinct, Proper, NodeOk;
    var h' := h[cur := Rehashed(h, cur)];
    CutAtHere(h, cur, was, id);
    forall n | n in h' ensures NodeOk(h', n) {
      if n == cur {
        RehashedOk(h, cur, was, id);
      } else {
        CutAtOther(h, cur, n, was, id);
        OtherOk(h, cur, n);
      }
    }
    forall n | n in h' ensures h'[n].tree != Tip(id) { CutNodeAt(h', n, was, id); }
    forall n | n in h' ensures n in was && h'[n].tree == Prune(was[n], {id}) {
      CutNodeAt(h', n, was, id);
      NoneLeft(h', id, n);
    }
  }

  lemma CutStepParent(h: Heap, cur: TreeNode, p: TreeNode, was: map<TreeNode, Tree>, id: nat)
    requires cur in h && p in h && Cut(h, was, id) && CutAt(h, cur, was, id) && LinksOk(h, cur)
    requires Family(h, cur, p, was, id)
    requires Cut(h[cur := Rehashed(h, cur)], was, id)
    ensures CutAt(h[cur := Rehashed(h, cur)], p, was, id)
  {
    hide Cut, Merkle, Prune, Distinct, Proper, NodeOk, CutHere, Family, CutNode;
    var h' := h[cur := Rehashed(h, cur)];
    RehashedLinks(h, cur);
    CutNodeAt(h', p, was, id);
    CutAtHere(h, cur, was, id);
    FamilyParent(h, cur, p, was, id);
    forall n | n in h' && n != p && n != h'[p].parent ensures NodeOk(h', n) {
      if n == cur {
        RehashedOk(h, cur, was, id);
      } else {
        CutAtOther(h, cur, n, was, id);
        OtherOk(h, cur, n);
      }
    }
    CutHereParent(h, cur, p, was, id);
  }

  lemma FamilyParent(h: Heap, cur: TreeNode, p: TreeNode, was: map<TreeNode, Tree>, id: nat)
    requires cur in h && p in h && Cut(h, was, id) && Family(h, cur, p, was, id)
    ensures h[cur].parent == p && p != cur
  {
  }

  lemma CutHereParent(h: Heap, cur: TreeNode, p: TreeNode, was: map<TreeNode, Tree>, id: nat)
    requires cur in h && p in h && Cut(h, was, id) && CutAt(h, cur, was, id) && LinksOk(h, cur)
    requires Family(h, cur, p, was, id)
    requires CutNode(h[cur := Rehashed(h, cur)], p, was, id)
    ensures CutHere(h[cur := Rehashed(h, cur)], p, was, id)
  {
    hide Cut, CutAt, Merkle, Distinct, Proper, Prune;
    var h' := h[cur := Rehashed(h, cur)];
    RehashedLinks(h, cur);
    CutAtHere(h, cur, was, id);
    RehashedOk(h, cur, was, id);
    PruneBoth(h[p].tree.left, h[p].tree.right, {id});
    if h[p].parent != null {
      GrandparentFacts(h, cur, p, was, id);
      LinksSame(h, h', h[p].parent);
    }
  }

  /** One repair step: the node is put in order, and its parent becomes the one to repair. */
  lemma CutStep(h: Heap, cur: TreeNode, was: map<TreeNode, Tree>, id: nat)
    requires cur in h && Cut(h, was, id) && CutAt(h, cur, was, id)
    ensures LinksOk(h, cur)
    ensures var h' := h[cur := Rehashed(h, cur)];
            && Cut(h', was, id)
            && (h[cur].parent == null ==> AllOk(h') && forall n :: n in h ==> h'[n].tree == Prune(was[n], {id}))
            && (h[cur].parent != null ==>
                  h[cur].parent in h && CutAt(h', h[cur].parent, was, id)
                  && cur in was && h[cur].parent in was && Size(was[cur]) < Size(was[h[cur].parent]))
  {
    hide CutAt, Merkle, Prune, Distinct, Proper, NodeOk, CutHere, AllOk, Family, CutNode;
    CutAtHere(h, cur, was, id);
    CutNodeLinks(h, cur, was, id);
    forall n | n in h ensures CutNode(h[cur := Rehashed(h, cur)], n, was, id) {
      CutNodeAt(h, n, was, id);
      CutKept(h, cur, was, id, n);
    }
    if h[cur].parent == null {
      CutStepRoot(h, cur, was, id);
    } else {
      FamilyFacts(h, cur, was, id);
      CutStepParent(h, cur, h[cur].parent, was, id);
      FamilySize(h, cur, h[cur].parent, was, id);
    }
  }

  lemma CutNodeLinks(h: Heap, n: TreeNode, was: map<TreeNode, Tree>, id: nat)
    requires n in h && CutNode(h, n, was, id)
    ensures n in was && LinksOk(h, n)
  {
  }

  lemma FamilySize(h: Heap, cur: TreeNode, p: TreeNode, was: map<TreeNode, Tree>, id: nat)
    requires cur in h && p in h && Cut(h, was, id) && Family(h, cur, p, was, id)
    ensures cur in was && p in was && Size(was[cur]) < Size(was[p])
  {
    hide Cut, Prune, Merkle;
  }
}
