/** What holds of the nodes of a whole `MemForest`: the roots stand for a well-formed forest, and
    the leaf map finds exactly its leaves. */
module ForestHeap {
  import opened Forest
  import opened NodeHeap

  function TreesOf(h: Heap, roots: seq<TreeNode>): (ts: seq<Tree>)
    requires forall i :: 0 <= i < |roots| ==> roots[i] in h
    ensures |ts| == |roots| && forall i :: 0 <= i < |ts| ==> ts[i] == h[roots[i]].tree
  {
    seq(|roots|, i requires 0 <= i < |roots| => h[roots[i]].tree)
  }

  /** The roots are exactly the nodes without a parent, each listed once. */
  ghost predicate RootsOk(h: Heap, roots: seq<TreeNode>) {
    && (forall i :: 0 <= i < |roots| ==> roots[i] in h && h[roots[i]].parent == null)
    && (forall i, j :: 0 <= i < j < |roots| ==> roots[i] != roots[j])
    && (forall n :: n in h && h[n].parent == null ==> n in roots)
  }

  /** The map sends each leaf hash to the node of that leaf, and knows every leaf. */
  ghost predicate IndexOk(h: Heap, index: map<Hash, TreeNode>) {
    && (forall k :: k in index ==> k.LeafHash? && index[k] in h && h[index[k]].tree == Tip(k.id))
    && (forall n :: n in h && h[n].tree.Tip? ==>
          LeafHash(h[n].tree.id) in index && index[LeafHash(h[n].tree.id)] == n)
  }

  ghost predicate ForestOk(h: Heap, roots: seq<TreeNode>, leaves: nat, index: map<Hash, TreeNode>) {
    AllOk(h) && RootsOk(h, roots) && IndexOk(h, index) && WellFormed(TreesOf(h, roots), leaves)
  }

  // ----- consequences -----

  lemma {:induction false} TreeProper(h: Heap, n: TreeNode)
    requires AllOk(h) && n in h
    ensures h[n].tree.Nil? || Proper(h[n].tree)
    ensures h[n].parent != null ==> Proper(h[n].tree)
    decreases h[n].tree
  {
    hide Merkle;
    assert NodeOk(h, n);
    if h[n].left != null {
      TreeProper(h, h[n].left);
      TreeProper(h, h[n].right);
    }
  }

  /** No two nodes stand for the same (nonempty) tree, so comparing hashes compares nodes. */
  lemma {:induction false} TreeUnique(h: Heap, index: map<Hash, TreeNode>, n: TreeNode, m: TreeNode)
    requires AllOk(h) && IndexOk(h, index) && n in h && m in h
    requires h[n].tree == h[m].tree && h[n].tree != Nil
    ensures n == m
    decreases h[n].tree
  {
    hide Merkle;
    assert NodeOk(h, n) && NodeOk(h, m);
    if h[n].tree.Fork? {
      assert NodeOk(h, h[n].left) && NodeOk(h, h[m].left);
      TreeUnique(h, index, h[n].left, h[m].left);
    }
  }

  lemma DataUnique(h: Heap, index: map<Hash, TreeNode>, n: TreeNode, m: TreeNode)
    requires AllOk(h) && IndexOk(h, index) && n in h && m in h && h[n].tree != Nil
    ensures h[n].data == h[m].data <==> n == m
  {
    assert NodeOk(h, n) && NodeOk(h, m);
    if h[n].data == h[m].data {
      MerkleInjective(h[n].tree, h[m].tree);
      TreeUnique(h, index, n, m);
    }
  }

  lemma {:induction false} SizesBounded(h: Heap, keys: set<TreeNode>) returns (bound: nat)
    requires keys <= h.Keys
    ensures forall n :: n in keys ==> Size(h[n].tree) <= bound
  {
    if keys == {} {
      bound := 0;
    } else {
      var n :| n in keys;
      var b := SizesBounded(h, keys - {n});
      bound := if b < Size(h[n].tree) then Size(h[n].tree) else b;
    }
  }

  /** Every node lies below a root, so its leaves are leaves of the forest. */
  lemma {:induction false} BelowRoot(h: Heap, roots: seq<TreeNode>, n: TreeNode, bound: nat) returns (i: nat)
    requires AllOk(h) && RootsOk(h, roots) && n in h
    requires forall m :: m in h ==> Size(h[m].tree) <= bound
    ensures i < |roots| && Ids(h[n].tree) <= Ids(h[roots[i]].tree)
    ensures Height(h[n].tree) <= Height(h[roots[i]].tree)
    decreases bound - Size(h[n].tree)
  {
    hide Merkle;
    assert NodeOk(h, n);
    if h[n].parent == null {
      i :| 0 <= i < |roots| && roots[i] == n;
    } else {
      assert NodeOk(h, h[n].parent);
      i := BelowRoot(h, roots, h[n].parent, bound);
    }
  }

  lemma NodeIdsLive(h: Heap, roots: seq<TreeNode>, leaves: nat, index: map<Hash, TreeNode>, n: TreeNode)
    requires ForestOk(h, roots, leaves, index) && n in h
    ensures Ids(h[n].tree) <= AllIds(TreesOf(h, roots)) && Distinct(Ids(h[n].tree))
  {
    hide AllOk, Shape;
    var bound := SizesBounded(h, h.Keys);
    var i := BelowRoot(h, roots, n, bound);
    AllIdsMember(TreesOf(h, roots), i);
    var m := AllIds(TreesOf(h, roots));
    forall x | x in Ids(h[n].tree) ensures Ids(h[n].tree)[x] == 1 {
      assert x in m && Ids(h[n].tree)[x] <= m[x];
    }
  }

  /** The leaf map knows exactly the live leaves. */
  lemma IndexIsLive(h: Heap, roots: seq<TreeNode>, leaves: nat, index: map<Hash, TreeNode>, id: nat)
    requires ForestOk(h, roots, leaves, index)
    ensures LeafHash(id) in index <==> id in AllIds(TreesOf(h, roots))
  {
    hide AllOk, Shape;
    if LeafHash(id) in index {
      NodeIdsLive(h, roots, leaves, index, index[LeafHash(id)]);
    }
    if id in AllIds(TreesOf(h, roots)) {
      var i := AllIdsSome(TreesOf(h, roots), id);
      var n := LeafOf(h, roots[i], id);
    }
  }

  lemma {:induction false} AllIdsSome(trees: seq<Tree>, id: nat) returns (i: nat)
    requires id in AllIds(trees)
    ensures i < |trees| && id in Ids(trees[i])
  {
    if id in Ids(trees[0]) {
      i := 0;
    } else {
      var j := AllIdsSome(trees[1..], id);
      i := j + 1;
    }
  }

  lemma {:induction false} LeafOf(h: Heap, n: TreeNode, id: nat) returns (leaf: TreeNode)
    requires AllOk(h) && n in h && id in Ids(h[n].tree)
    ensures leaf in h && h[leaf].tree == Tip(id)
    decreases h[n].tree
  {
    hide Merkle;
    assert NodeOk(h, n);
    if h[n].tree.Tip? {
      leaf := n;
    } else if id in Ids(h[h[n].left].tree) {
      leaf := LeafOf(h, h[n].left, id);
    } else {
      leaf := LeafOf(h, h[n].right, id);
    }
  }
}
