/** Deleting a leaf from the linked nodes (`del_single`, src/mem_forest/mod.rs): its parent goes
    too, and the sibling takes the parent's place. */
module HeapDeletion {
  import opened Forest
  import opened NodeHeap
  import opened ForestHeap

  // ----- a leaf that is a root -----

  function EmptyCell(): Cell {
    Cell(BranchNode, Empty, null, null, null, Nil)
  }

  /** Only the leaf's own node has a tree with exactly that leaf, and no other node that is not
      above it has the leaf at all. */
  lemma LeafElsewhere(h: Heap, index: map<Hash, TreeNode>, node: TreeNode, n: TreeNode, id: nat)
    requires AllOk(h) && IndexOk(h, index) && node in h && h[node].tree == Tip(id)
    requires n in h && n != node
    ensures h[n].tree != Tip(id)
  {
    if h[n].tree == Tip(id) { TreeUnique(h, index, n, node); }
  }

  /** Deleting a leaf leaves the trees without it as they are. */
  lemma PruneElsewhere(h: Heap, n: TreeNode, id: nat)
    requires AllOk(h) && n in h && id !in Ids(h[n].tree)
    ensures Prune(h[n].tree, {id}) == h[n].tree
  {
    TreeProper(h, n);
    PruneNothing(h[n].tree, {id});
  }

  lemma RootElsewhere(h: Heap, roots: seq<TreeNode>, leaves: nat, index: map<Hash, TreeNode>, pos: nat, i: nat, id: nat)
    requires ForestOk(h, roots, leaves, index) && pos < |roots| && i < |roots| && i != pos
    requires id in Ids(h[roots[pos]].tree)
    ensures Prune(h[roots[i]].tree, {id}) == h[roots[i]].tree
  {
    hide AllOk, Shape, AllIds, Prune;
    if id in Ids(h[roots[i]].tree) {
      DisjointTrees(TreesOf(h, roots), i, pos, id);
    }
    PruneElsewhere(h, roots[i], id);
  }

  function RootDeleted(h: Heap, node: TreeNode, empty: TreeNode): Heap {
    (h - {node})[empty := EmptyCell()]
  }

  lemma DeleteRoot(h: Heap, roots: seq<TreeNode>, leaves: nat, index: map<Hash, TreeNode>,
                   node: TreeNode, id: nat, empty: TreeNode, pos: nat)
    requires ForestOk(h, roots, leaves, index)
    requires node in h && h[node].tree == Tip(id) && h[node].parent == null
    requires pos < |roots| && roots[pos] == node && empty !in h
    ensures var h' := RootDeleted(h, node, empty);
            && ForestOk(h', roots[pos := empty], leaves, index - {LeafHash(id)})
            && TreesOf(h', roots[pos := empty]) == PruneAll(TreesOf(h, roots), {id})
  {
    hide AllOk, IndexOk, Shape, AllIds, Distinct, RootDeleted, Prune;
    DeleteRootNodes(h, node, id, empty);
    DeleteRootRoots(h, roots, node, empty, pos);
    DeleteRootIndex(h, index, node, id, empty);
    DeleteRootTrees(h, roots, leaves, index, node, id, empty, pos);
    PruneWellFormed(TreesOf(h, roots), leaves, {id});
  }

  lemma DeleteRootNodes(h: Heap, node: TreeNode, id: nat, empty: TreeNode)
    requires AllOk(h) && node in h && h[node].tree == Tip(id) && h[node].parent == null && empty !in h
    ensures AllOk(RootDeleted(h, node, empty))
  {
    hide Merkle;
    var h' := RootDeleted(h, node, empty);
    assert NodeOk(h, node);
    forall n | n in h' ensures NodeOk(h', n) {
      if n == empty {
        EmptyMerkle();
      } else {
        assert NodeOk(h, n);
        DetachedLeaf(h, n, node);
      }
    }
  }

  lemma DeleteRootRoots(h: Heap, roots: seq<TreeNode>, node: TreeNode, empty: TreeNode, pos: nat)
    requires RootsOk(h, roots) && node in h && empty !in h && pos < |roots| && roots[pos] == node
    ensures RootsOk(RootDeleted(h, node, empty), roots[pos := empty])
  {
    var h', roots' := RootDeleted(h, node, empty), roots[pos := empty];
    forall n | n in h' && h'[n].parent == null ensures n in roots' {
      if n == empty {
        assert roots'[pos] == empty;
      } else {
        var i :| 0 <= i < |roots| && roots[i] == n;
        assert roots'[i] == n;
      }
    }
  }

  lemma DeleteRootIndex(h: Heap, index: map<Hash, TreeNode>, node: TreeNode, id: nat, empty: TreeNode)
    requires AllOk(h) && IndexOk(h, index) && node in h && h[node].tree == Tip(id) && empty !in h
    ensures IndexOk(RootDeleted(h, node, empty), index - {LeafHash(id)})
  {
    hide AllOk;
    var h' := RootDeleted(h, node, empty);
    forall n | n in h' ensures h'[n].tree != Tip(id) {
      if n != empty { LeafElsewhere(h, index, node, n, id); }
    }
  }

  lemma PruneTip(id: nat)
    ensures Prune(Tip(id), {id}) == Nil
  {
  }

  lemma DeletedRootAt(h: Heap, roots: seq<TreeNode>, leaves: nat, index: map<Hash, TreeNode>,
                      node: TreeNode, id: nat, empty: TreeNode, pos: nat, i: nat)
    requires ForestOk(h, roots, leaves, index) && node in h && h[node].tree == Tip(id) && empty !in h
    requires pos < |roots| && i < |roots| && roots[pos] == node
    ensures roots[i] in h && roots[pos := empty][i] in RootDeleted(h, node, empty)
    ensures RootDeleted(h, node, empty)[roots[pos := empty][i]].tree == Prune(h[roots[i]].tree, {id})
  {
    hide AllOk, IndexOk, WellFormed, Prune;
    assert roots[i] in h;
    if i == pos { PruneTip(id); } else {
      assert roots[i] != node;
      RootElsewhere(h, roots, leaves, index, pos, i, id);
    }
  }

  lemma DeleteRootTrees(h: Heap, roots: seq<TreeNode>, leaves: nat, index: map<Hash, TreeNode>,
                        node: TreeNode, id: nat, empty: TreeNode, pos: nat)
    requires ForestOk(h, roots, leaves, index) && node in h && h[node].tree == Tip(id) && empty !in h
    requires pos < |roots| && roots[pos] == node && RootsOk(RootDeleted(h, node, empty), roots[pos := empty])
    ensures TreesOf(RootDeleted(h, node, empty), roots[pos := empty]) == PruneAll(TreesOf(h, roots), {id})
  {
    hide AllOk, IndexOk, WellFormed, Prune, RootDeleted;
    var h', roots' := RootDeleted(h, node, empty), roots[pos := empty];
    forall i | 0 <= i < |roots| ensures h'[roots'[i]].tree == Prune(h[roots[i]].tree, {id}) {
      DeletedRootAt(h, roots, leaves, index, node, id, empty, pos, i);
    }
    assert TreesOf(h', roots') == PruneAll(TreesOf(h, roots), {id});
  }

  lemma EmptyMerkle()
    ensures Merkle(Nil) == Empty
  {
  }

  /** Nobody links to a leaf without a parent. */
  lemma DetachedLeaf(h: Heap, n: TreeNode, node: TreeNode)
    requires n in h && node in h && NodeOk(h, n) && NodeOk(h, node) && h[node].tree.Tip? && h[node].parent == null
    ensures h[n].left != node && h[n].right != node && h[n].parent != node
  {
  }

  // ----- a leaf below a parent -----

  /** The nodes after the leaf `node` and its parent `p` have been taken out and the sibling `s`
      has been put in the parent's place; the hashes above are not recomputed yet. */
  function Spliced(h: Heap, node: TreeNode, p: TreeNode, s: TreeNode): Heap
    requires p in h && s in h
  {
    var g := h[p].parent;
    var h' := (h - {node, p})[s := h[s].(parent := g)];
    if g == null || g !in h then h'
    else if h[g].left == p then h'[g := h[g].(left := s)]
    else h'[g := h[g].(right := s)]
  }

  /** `node` is a leaf, `p` its parent and `s` its sibling. */
  ghost predicate LeafFamily(h: Heap, node: TreeNode, p: TreeNode, s: TreeNode, id: nat) {
    && node in h && p in h && s in h && h[node].tree == Tip(id) && h[node].parent == p && h[s].parent == p
    && node != p && s != p && node != s
    && NodeOk(h, p) && ((h[p].left == node && h[p].right == s) || (h[p].left == s && h[p].right == node))
    && h[p].parent != node && h[p].parent != s && h[p].parent != p
  }

  lemma ChildSmaller(h: Heap, n: TreeNode)
    requires n in h && NodeOk(h, n) && h[n].left != null
    ensures Size(h[h[n].left].tree) < Size(h[n].tree) && Size(h[h[n].right].tree) < Size(h[n].tree)
  {
    hide Merkle;
  }

  lemma FamilyOfLeaf(h: Heap, node: TreeNode, id: nat) returns (p: TreeNode, s: TreeNode)
    requires AllOk(h) && node in h && h[node].tree == Tip(id) && h[node].parent != null
    ensures p == h[node].parent && p in h && h[p].left != null
    ensures s == (if h[p].left == node then h[p].right else h[p].left)
    ensures LeafFamily(h, node, p, s, id)
  {
    hide Merkle;
    assert NodeOk(h, node);
    p := h[node].parent;
    assert NodeOk(h, p);
    s := if h[p].left == node then h[p].right else h[p].left;
    assert NodeOk(h, s);
    ChildSmaller(h, p);
    if h[p].parent != null {
      assert NodeOk(h, h[p].parent);
      ChildSmaller(h, h[p].parent);
    }
  }

  /** The family's trees: the parent without the leaf is the sibling. */
  lemma FamilyTrees(h: Heap, index: map<Hash, TreeNode>, node: TreeNode, p: TreeNode, s: TreeNode, id: nat)
    requires AllOk(h) && IndexOk(h, index) && LeafFamily(h, node, p, s, id)
    requires Distinct(Ids(h[p].tree))
    ensures id in Ids(h[p].tree) && id !in Ids(h[s].tree) && h[s].tree != Nil && Proper(h[s].tree)
    ensures Prune(h[p].tree, {id}) == h[s].tree == Prune(h[s].tree, {id})
    ensures Size(h[s].tree) < Size(h[p].tree)
  {
    hide Merkle;
    assert NodeOk(h, p) && NodeOk(h, s);
    TreeProper(h, s);
    TreeProper(h, p);
    HalvesApart(h[p].tree.left, h[p].tree.right, id);
  }

  /** Links after splicing. */
  lemma SplicedLinks(h: Heap, node: TreeNode, p: TreeNode, s: TreeNode, id: nat, n: TreeNode)
    requires AllOk(h) && LeafFamily(h, node, p, s, id) && n in Spliced(h, node, p, s)
    ensures n in h && Spliced(h, node, p, s)[n].tree == h[n].tree
    ensures Spliced(h, node, p, s)[n].data == h[n].data && Spliced(h, node, p, s)[n].ty == h[n].ty
    ensures LinksOk(Spliced(h, node, p, s), n)
  {
    hide Merkle, ContentOk, AllOk;
    LinksIn(h, n);
    LinksIn(h, p);
    LinksIn(h, node);
    LinksIn(h, s);
    LeafHasNoChildren(h, node, id);
    if h[p].parent != null { LinksIn(h, h[p].parent); }
    if h[n].left != null { LinksIn(h, h[n].left); LinksIn(h, h[n].right); }
    if h[n].parent != null { LinksIn(h, h[n].parent); }
  }

  lemma LeafHasNoChildren(h: Heap, n: TreeNode, id: nat)
    requires AllOk(h) && n in h && h[n].tree == Tip(id)
    ensures h[n].left == null && h[n].right == null
  {
    assert NodeOk(h, n);
  }

  function TreesBefore(h: Heap, h1: Heap): map<TreeNode, Tree>
    requires h1.Keys <= h.Keys
  {
    map n | n in h1 :: h[n].tree
  }

  lemma SplicedKeys(h: Heap, node: TreeNode, p: TreeNode, s: TreeNode, id: nat)
    requires AllOk(h) && LeafFamily(h, node, p, s, id)
    ensures Spliced(h, node, p, s).Keys == h.Keys - {node, p}
  {
    hide ContentOk, AllOk;
    if h[p].parent != null { LinksIn(h, p); }
  }

  /** After the splice everything is ready for `recompute_hashes` to start at the sibling. */
  lemma SplicedCut(h: Heap, index: map<Hash, TreeNode>, node: TreeNode, p: TreeNode, s: TreeNode, id: nat)
    requires AllOk(h) && IndexOk(h, index) && LeafFamily(h, node, p, s, id)
    requires forall n :: n in h ==> Distinct(Ids(h[n].tree))
    ensures Spliced(h, node, p, s).Keys == h.Keys - {node, p}
    ensures Cut(Spliced(h, node, p, s), TreesBefore(h, Spliced(h, node, p, s)), id)
  {
    hide AllOk, IndexOk, LeafFamily, Spliced, Distinct, LinksOk, Prune, Proper;
    FamilyNode(h, node, p, s, id);
    var h1 := Spliced(h, node, p, s);
    SplicedKeys(h, node, p, s, id);
    forall n | n in h1 ensures CutNode(h1, n, TreesBefore(h, h1), id) {
      SplicedLinks(h, node, p, s, id, n);
      TreeProper(h, n);
      if id !in Ids(h[n].tree) { PruneElsewhere(h, n, id); }
      LeafElsewhere(h, index, node, n, id);
    }
  }

  lemma FamilyNode(h: Heap, node: TreeNode, p: TreeNode, s: TreeNode, id: nat)
    requires LeafFamily(h, node, p, s, id)
    ensures node in h && p in h && s in h && h[node].tree == Tip(id) && node != s && p != s
    ensures h[p].parent != node && h[p].parent != s && h[p].parent != p
  {
  }

  /** The cells that the splice does not touch. */
  lemma SplicedOther(h: Heap, node: TreeNode, p: TreeNode, s: TreeNode, id: nat, n: TreeNode)
    requires AllOk(h) && LeafFamily(h, node, p, s, id) && n in Spliced(h, node, p, s)
    requires n != s && n != h[p].parent
    ensures NodeOk(Spliced(h, node, p, s), n)
  {
    hide Merkle, AllOk, ContentOk;
    SplicedLinks(h, node, p, s, id, n);
    ContentIn(h, n);
    if h[n].left != null {
      LinksIn(h, h[n].left);
      LinksIn(h, h[n].right);
      SplicedLinks(h, node, p, s, id, h[n].left);
      SplicedLinks(h, node, p, s, id, h[n].right);
    }
    SplicedCell(h, node, p, s, n);
    SameContent(h, Spliced(h, node, p, s), n);
  }

  lemma SplicedCell(h: Heap, node: TreeNode, p: TreeNode, s: TreeNode, n: TreeNode)
    requires p in h && s in h && n in Spliced(h, node, p, s) && n in h && n != s && n != h[p].parent
    ensures Spliced(h, node, p, s)[n] == h[n]
  {
  }

  lemma SameContent(h: Heap, h1: Heap, n: TreeNode)
    requires n in h && n in h1 && NodeOk(h, n) && h1[n] == h[n] && LinksOk(h1, n)
    requires h[n].left != null ==> h1[h[n].left].tree == h[h[n].left].tree && h1[h[n].right].tree == h[h[n].right].tree
    ensures NodeOk(h1, n)
  {
  }

  /** The sibling itself stays in order, in its new place. */
  lemma SplicedSibling(h: Heap, node: TreeNode, p: TreeNode, s: TreeNode, id: nat)
    requires AllOk(h) && LeafFamily(h, node, p, s, id) && s in Spliced(h, node, p, s)
    ensures NodeOk(Spliced(h, node, p, s), s) && Spliced(h, node, p, s)[s] == h[s].(parent := h[p].parent)
  {
    hide Merkle, AllOk, LinksOk;
    SplicedLinks(h, node, p, s, id, s);
    ContentIn(h, s);
    LinksOf(h, s);
    if h[s].left != null {
      LinksIn(h, s);
      SplicedChildren(h, node, p, s, id, s);
    }
  }

  lemma LinksOf(h: Heap, n: TreeNode)
    requires n in h && NodeOk(h, n)
    ensures LinksOk(h, n)
  {
  }

  lemma SplicedChildren(h: Heap, node: TreeNode, p: TreeNode, s: TreeNode, id: nat, n: TreeNode)
    requires AllOk(h) && LeafFamily(h, node, p, s, id) && n in Spliced(h, node, p, s) && n in h
    requires LinksOk(h, n) && h[n].left != null && n != h[p].parent
    ensures h[n].left in Spliced(h, node, p, s) && h[n].right in Spliced(h, node, p, s)
    ensures Spliced(h, node, p, s)[h[n].left].tree == h[h[n].left].tree
    ensures Spliced(h, node, p, s)[h[n].right].tree == h[h[n].right].tree
  {
    hide Merkle, AllOk;
    SplicedKeys(h, node, p, s, id);
    SplicedLinks(h, node, p, s, id, h[n].left);
    SplicedLinks(h, node, p, s, id, h[n].right);
  }

  /** With a grandparent: the sibling is where the repair starts. */
  lemma SplicedCutAt(h: Heap, index: map<Hash, TreeNode>, node: TreeNode, p: TreeNode, s: TreeNode, id: nat)
    requires AllOk(h) && IndexOk(h, index) && LeafFamily(h, node, p, s, id) && h[p].parent != null
    requires forall n :: n in h ==> Distinct(Ids(h[n].tree))
    requires Spliced(h, node, p, s).Keys == h.Keys - {node, p}
    requires Cut(Spliced(h, node, p, s), TreesBefore(h, Spliced(h, node, p, s)), id)
    ensures CutAt(Spliced(h, node, p, s), s, TreesBefore(h, Spliced(h, node, p, s)), id)
  {
    hide AllOk, IndexOk, LeafFamily, Spliced, Distinct, LinksOk, Prune, Proper, Cut, CutNode, CutHere, NodeOk;
    FamilyNode(h, node, p, s, id);
    var h1 := Spliced(h, node, p, s);
    var was := TreesBefore(h, h1);
    SplicedSibling(h, node, p, s, id);
    CutNodeAt(h1, s, was, id);
    forall n | n in h1 && n != s && n != h1[s].parent ensures NodeOk(h1, n) {
      SplicedOther(h, node, p, s, id, n);
    }
    SplicedHere(h, index, node, p, s, id, h[p].parent);
  }

  lemma SplicedHere(h: Heap, index: map<Hash, TreeNode>, node: TreeNode, p: TreeNode, s: TreeNode, id: nat, g: TreeNode)
    requires AllOk(h) && IndexOk(h, index) && LeafFamily(h, node, p, s, id) && h[p].parent == g
    requires forall n :: n in h ==> Distinct(Ids(h[n].tree))
    requires Spliced(h, node, p, s).Keys == h.Keys - {node, p}
    requires CutNode(Spliced(h, node, p, s), s, TreesBefore(h, Spliced(h, node, p, s)), id)
    ensures CutHere(Spliced(h, node, p, s), s, TreesBefore(h, Spliced(h, node, p, s)), id)
  {
    hide AllOk, IndexOk, LeafFamily, Spliced, Distinct, Prune, Proper, CutNode, ParentWaits;
    FamilyNode(h, node, p, s, id);
    var h1 := Spliced(h, node, p, s);
    SplicedSibling(h, node, p, s, id);
    FamilyTrees(h, index, node, p, s, id);
    SelfTree(h1, s);
    LinksIn(h, p);
    SplicedLinks(h, node, p, s, id, g);
    if h[s].left != null {
      LinksIn(h, s);
      FamilyNode(h, node, p, s, id);
      SplicedChildren(h, node, p, s, id, s);
      SplicedLinks(h, node, p, s, id, h[s].left);
      SplicedLinks(h, node, p, s, id, h[s].right);
      ContentIn(h, h[s].left);
      ContentIn(h, h[s].right);
    }
    SplicedWaits(h, index, node, p, s, id, g);
  }

  lemma SelfTree(h: Heap, n: TreeNode)
    requires n in h && NodeOk(h, n)
    ensures TreeOfChildren(h, n) == h[n].tree
  {
  }

  lemma SplicedGrand(h: Heap, node: TreeNode, p: TreeNode, s: TreeNode, id: nat, g: TreeNode)
    requires AllOk(h) && LeafFamily(h, node, p, s, id) && h[p].parent == g && g in h
    requires g in Spliced(h, node, p, s)
    ensures NodeOk(h, g) && h[g].left != null && (h[g].left == p || h[g].right == p)
    ensures Spliced(h, node, p, s)[g] == if h[g].left == p then h[g].(left := s) else h[g].(right := s)
    ensures h[g].left == p ==> h[g].right != p && h[g].right != node && h[g].right != s
    ensures h[g].right == p ==> h[g].left != p && h[g].left != node && h[g].left != s
  {
    hide Merkle, ContentOk, AllOk;
    ContentIn(h, g);
    LinksIn(h, p);
    LinksIn(h, node);
    LinksIn(h, s);
  }

  lemma SplicedWaits(h: Heap, index: map<Hash, TreeNode>, node: TreeNode, p: TreeNode, s: TreeNode, id: nat,
                     g: TreeNode)
    requires AllOk(h) && IndexOk(h, index) && LeafFamily(h, node, p, s, id) && h[p].parent == g && g in h
    requires forall n :: n in h ==> Distinct(Ids(h[n].tree))
    requires var h1 := Spliced(h, node, p, s);
             h1.Keys == h.Keys - {node, p} && NodeOk(h1, s) && g in h1 && LinksOk(h1, g)
    ensures ParentWaits(Spliced(h, node, p, s), s, g, TreesBefore(h, Spliced(h, node, p, s)), id)
  {
    hide AllOk, IndexOk, Distinct, Prune, Proper, Merkle, LeafFamily, Spliced, NodeOk, Ids, Size;
    FamilyNode(h, node, p, s, id);
    var h1 := Spliced(h, node, p, s);
    SplicedGrand(h, node, p, s, id, g);
    SelfTree(h1, s);
    SplicedLinks(h, node, p, s, id, s);
    FamilyTrees(h, index, node, p, s, id);
    TreeProper(h, g);
    LinksOf(h, g);
    var o: TreeNode := if h[g].left == p then h[g].right else h[g].left;
    SplicedLinks(h, node, p, s, id, o);
    ForkTree(h, g);
    ChildSmaller(h, g);
    HalvesApart(h[g].tree.left, h[g].tree.right, id);
    ForkIds(h[g].tree, id);
  }

  lemma ForkTree(h: Heap, n: TreeNode)
    requires n in h && NodeOk(h, n) && h[n].left != null
    ensures h[n].right != null && h[n].ty.BranchNode? && h[n].tree == Fork(h[h[n].left].tree, h[h[n].right].tree)
  {
  }

  lemma ForkIds(t: Tree, id: nat)
    requires t.Fork?
    ensures id in Ids(t) <==> id in Ids(t.left) || id in Ids(t.right)
  {
  }

  lemma FamilyLinks(h: Heap, node: TreeNode, p: TreeNode, s: TreeNode, id: nat)
    requires LeafFamily(h, node, p, s, id)
    ensures h[s].parent == p && h[node].parent == p
  {
  }

  /** Without a grandparent the sibling is the new root, and nothing is left to repair. */
  lemma SplicedRoot(h: Heap, roots: seq<TreeNode>, leaves: nat, index: map<Hash, TreeNode>,
                    node: TreeNode, p: TreeNode, s: TreeNode, id: nat)
    requires ForestOk(h, roots, leaves, index) && LeafFamily(h, node, p, s, id) && h[p].parent == null
    requires Spliced(h, node, p, s).Keys == h.Keys - {node, p}
    ensures AllOk(Spliced(h, node, p, s))
    ensures forall n :: n in Spliced(h, node, p, s) ==> Spliced(h, node, p, s)[n].tree == Prune(h[n].tree, {id})
  {
    hide IndexOk, LeafFamily, Spliced, NodeOk, WellFormed, Prune;
    FamilyNode(h, node, p, s, id);
    var h1 := Spliced(h, node, p, s);
    forall n | n in h1 ensures NodeOk(h1, n) {
      if n == s { SplicedSibling(h, node, p, s, id); } else { SplicedOther(h, node, p, s, id, n); }
    }
    forall n | n in h1 ensures h1[n].tree != Tip(id) {
      SplicedLinks(h, node, p, s, id, n);
      LeafElsewhere(h, index, node, n, id);
    }
    forall n | n in h1 ensures h1[n].tree == Prune(h[n].tree, {id}) {
      SplicedLinks(h, node, p, s, id, n);
      NoneLeft(h1, id, n);
      PruneElsewhere(h, n, id);
    }
  }

  // ----- the forest after the deletion -----

  /** The nodes after the splice and the repair: the links of the splice, every tree pruned. */
  ghost predicate Repaired(h: Heap, h1: Heap, h2: Heap, id: nat) {
    && h1.Keys <= h.Keys && SameLinks(h1, h2) && AllOk(h2)
    && forall n :: n in h2 ==> h2[n].tree == Prune(h[n].tree, {id})
  }

  lemma DeletedForest(h: Heap, roots: seq<TreeNode>, leaves: nat, index: map<Hash, TreeNode>,
                      node: TreeNode, p: TreeNode, s: TreeNode, id: nat, h2: Heap, pos: nat, roots': seq<TreeNode>)
    requires ForestOk(h, roots, leaves, index) && LeafFamily(h, node, p, s, id)
    requires Repaired(h, Spliced(h, node, p, s), h2, id) && Spliced(h, node, p, s).Keys == h.Keys - {node, p}
    requires h[p].parent != null ==> roots' == roots
    requires h[p].parent == null ==> pos < |roots| && roots[pos] == p && roots' == roots[pos := s]
    ensures ForestOk(h2, roots', leaves, index - {LeafHash(id)})
    ensures TreesOf(h2, roots') == PruneAll(TreesOf(h, roots), {id})
  {
    hide AllOk, IndexOk, Shape, AllIds, Distinct, LeafFamily, Spliced, Prune;
    FamilyNode(h, node, p, s, id);
    DeletedRoots(h, roots, node, p, s, id, h2, pos, roots');
    DeletedIndex(h, index, node, p, s, id, h2);
    forall i | 0 <= i < |roots| ensures h2[roots'[i]].tree == Prune(h[roots[i]].tree, {id}) {
      if h[p].parent == null && i == pos {
        NodeIdsLive(h, roots, leaves, index, p);
        FamilyTrees(h, index, node, p, s, id);
      }
    }
    assert TreesOf(h2, roots') == PruneAll(TreesOf(h, roots), {id});
    PruneWellFormed(TreesOf(h, roots), leaves, {id});
  }

  lemma SplicedParent(h: Heap, node: TreeNode, p: TreeNode, s: TreeNode, id: nat, n: TreeNode)
    requires LeafFamily(h, node, p, s, id) && n in Spliced(h, node, p, s) && n in h
    ensures Spliced(h, node, p, s)[n].parent == if n == s then h[p].parent else h[n].parent
  {
  }

  lemma DeletedRoots(h: Heap, roots: seq<TreeNode>, node: TreeNode, p: TreeNode, s: TreeNode, id: nat, h2: Heap,
                     pos: nat, roots': seq<TreeNode>)
    requires RootsOk(h, roots) && LeafFamily(h, node, p, s, id)
    requires SameLinks(Spliced(h, node, p, s), h2) && Spliced(h, node, p, s).Keys == h.Keys - {node, p}
    requires h[p].parent != null ==> roots' == roots
    requires h[p].parent == null ==> pos < |roots| && roots[pos] == p && roots' == roots[pos := s]
    ensures RootsOk(h2, roots')
  {
    hide LeafFamily, Spliced;
    FamilyNode(h, node, p, s, id);
    FamilyLinks(h, node, p, s, id);
    forall n | n in h2 ensures h2[n].parent == if n == s then h[p].parent else h[n].parent {
      SplicedParent(h, node, p, s, id, n);
    }
    forall i | 0 <= i < |roots'| ensures roots'[i] in h2 && h2[roots'[i]].parent == null {
      if roots'[i] != s { assert roots'[i] == roots[i]; }
    }
    forall n | n in h2 && h2[n].parent == null ensures n in roots' {
      if n == s {
        assert roots'[pos] == s;
      } else {
        var i :| 0 <= i < |roots| && roots[i] == n;
        assert roots'[i] == n;
      }
    }
  }

  lemma DeletedIndex(h: Heap, index: map<Hash, TreeNode>, node: TreeNode, p: TreeNode, s: TreeNode, id: nat, h2: Heap)
    requires AllOk(h) && IndexOk(h, index) && LeafFamily(h, node, p, s, id)
    requires Repaired(h, Spliced(h, node, p, s), h2, id) && Spliced(h, node, p, s).Keys == h.Keys - {node, p}
    ensures IndexOk(h2, index - {LeafHash(id)})
  {
    hide LeafFamily, Spliced, Merkle, AllOk;
    FamilyNode(h, node, p, s, id);
    forall k | k in index - {LeafHash(id)} ensures index[k] in h2 && h2[index[k]].tree == Tip(k.id) {
      FamilyFork(h, node, p, s, id);
    }
    forall n | n in h2 && h2[n].tree.Tip?
      ensures h[n].tree == h2[n].tree && h[n].tree != Tip(id)
    {
      TipStays(h, node, p, s, id, h2, n);
    }
  }

  lemma FamilyFork(h: Heap, node: TreeNode, p: TreeNode, s: TreeNode, id: nat)
    requires LeafFamily(h, node, p, s, id)
    ensures h[p].tree.Fork?
  {
  }

  /** A node that is a leaf after the deletion was one before. */
  lemma TipStays(h: Heap, node: TreeNode, p: TreeNode, s: TreeNode, id: nat, h2: Heap, n: TreeNode)
    requires AllOk(h) && LeafFamily(h, node, p, s, id)
    requires Repaired(h, Spliced(h, node, p, s), h2, id) && n in h2 && h2[n].tree.Tip?
    ensures n in h && h[n].tree == h2[n].tree && h[n].tree != Tip(id)
  {
    hide Merkle, AllOk;
    ContentIn(h2, n);
    FamilyNode(h, node, p, s, id);
    ContentIn(h, n);
    if h[p].parent != null { SplicedLinks(h, node, p, s, id, n); }
  }
}
