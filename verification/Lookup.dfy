/** Going down to a position (`grab_node`, src/mem_forest/mod.rs), on a snapshot of the nodes. */
module Lookups {
  import opened Bits
  import opened Positions
  import opened Digits
  import opened Forest
  import opened Slots
  import opened NodeHeap
  import opened ForestHeap

  /** What `grab_node` finds at a position. */
  ghost predicate GrabbedAt(trees: seq<Tree>, n: nat, rows: nat, pos: nat, node: Tree, sibling: Tree, aunt: Tree)
    requires |trees| == PopCount(n) && Fits(n, rows) && Valid(pos, n, rows)
  {
    Climb(pos, n, rows);
    && node == At(trees, n, rows, pos)
    && (if IsRootPosition(pos, n, rows) then sibling == node && aunt == node
        else
          && sibling == At(trees, n, rows, Sibling(pos))
          && var p := Parent(pos, rows);
             Climb(p, n, rows);
             aunt == At(trees, n, rows, if IsRootPosition(p, n, rows) then p else Sibling(p)))
  }

  lemma ValidCoords(pos: nat, n: nat, rows: nat)
    requires Valid(pos, n, rows)
    ensures RowOf(pos, rows) <= rows && 0 <= OffOf(pos, rows) < Shr(n, RowOf(pos, rows))
  {
  }

  /** An optional node stands for a possibly empty subtree. */
  ghost predicate Found(h: Heap, n: TreeNode?, t: Tree) {
    if n == null then t == Nil else n in h && h[n].tree == t
  }

  /** k rows above the slot (row, off), whose root is `len` rows above it. */
  ghost predicate Grabbing(h: Heap, trees: seq<Tree>, leaves: nat, row: nat, off: nat, len: nat, k: nat,
                           n: TreeNode?, sibling: TreeNode?, parent: TreeNode?)
  {
    && |trees| == PopCount(leaves) && off < Shr(leaves, row)
    && k <= len && RootAbove(leaves, row, off) == row + len
    && (n != null ==> n in h && sibling != null && sibling in h && parent != null && parent in h)
    && (n != null && k < len ==> h[n].parent != null)
    && Shr(off, k) < Shr(leaves, row + k)
    && Found(h, n, NodeAt(trees, leaves, row + k, Shr(off, k)))
    && (if k == len then n != null && n == sibling == parent
        else
          && Twin(Shr(off, k)) < Shr(leaves, row + k)
          && Found(h, sibling, NodeAt(trees, leaves, row + k, Twin(Shr(off, k))))
          && Shr(off, k + 1) < Shr(leaves, row + k + 1)
          && (if k + 1 == len then parent != null
              && Found(h, parent, NodeAt(trees, leaves, row + k + 1, Shr(off, k + 1)))
              else
                && Twin(Shr(off, k + 1)) < Shr(leaves, row + k + 1)
                && (n != null ==> Found(h, parent, NodeAt(trees, leaves, row + k + 1, Twin(Shr(off, k + 1)))))))
  }

  lemma TwinBound(n: nat, row: nat, off: nat)
    requires off < Shr(n, row) && !RootCoord(row, off, n)
    ensures Twin(off) < Shr(n, row) && !RootCoord(row, Twin(off), n) && off / 2 < Shr(n, row + 1)
    ensures Twin(off) / 2 == off / 2
  {
    ShrStep(n, row);
  }

  lemma GrabStart(h: Heap, roots: seq<TreeNode>, leaves: nat, index: map<Hash, TreeNode>, row: nat, off: nat)
    requires ForestOk(h, roots, leaves, index) && off < Shr(leaves, row)
    ensures var i := RootIndex(leaves, RootAbove(leaves, row, off));
            var len := RootAbove(leaves, row, off) - row;
            && i < |roots| && |roots| == PopCount(leaves)
            && Grabbing(h, TreesOf(h, roots), leaves, row, off, len, len, roots[i], roots[i], roots[i])
  {
    hide AllOk, IndexOk, Shr, RootIndex, RootAbove, Shape, NodeAt;
    var r := RootAbove(leaves, row, off);
    ShapeLength(TreesOf(h, roots), leaves, 0);
    AboveSlot(leaves, row, off, r - row);
    RootIndexBound(leaves, r);
    NodeAtRoot(TreesOf(h, roots), leaves, r, Shr(off, r - row));
  }

  lemma GrabbingIn(h: Heap, trees: seq<Tree>, leaves: nat, row: nat, off: nat, len: nat, k: nat,
                   n: TreeNode?, sibling: TreeNode?, parent: TreeNode?)
    requires Grabbing(h, trees, leaves, row, off, len, k, n, sibling, parent)
    ensures n != null ==> n in h
  {
  }

  /** Children of a node stand for the children of its tree. */
  lemma FoundChildren(h: Heap, n: TreeNode?, t: Tree)
    requires AllOk(h) && Found(h, n, t)
    ensures n != null ==>
              && (h[n].left == null <==> h[n].right == null)
              && (h[n].left != null ==> h[n].left in h && h[h[n].left].parent == n)
              && (h[n].right != null ==> h[n].right in h && h[h[n].right].parent == n)
    ensures Found(h, if n == null then null else h[n].left, if t.Fork? then t.left else Nil)
    ensures Found(h, if n == null then null else h[n].right, if t.Fork? then t.right else Nil)
  {
    if n != null { assert NodeOk(h, n); }
  }

  /** One round of the loop. */
  lemma GrabStep(h: Heap, roots: seq<TreeNode>, leaves: nat, index: map<Hash, TreeNode>,
                 row: nat, off: nat, len: nat, k: nat, n: TreeNode?, sibling: TreeNode?, parent: TreeNode?)
    requires ForestOk(h, roots, leaves, index) && k > 0
    requires Grabbing(h, TreesOf(h, roots), leaves, row, off, len, k, n, sibling, parent)
    ensures n != null ==> n in h
    ensures var right := Bit(off, k - 1);
            Grabbing(h, TreesOf(h, roots), leaves, row, off, len, k - 1,
                     if n == null then null else if right then h[n].right else h[n].left,
                     if n == null then null else if right then h[n].left else h[n].right,
                     sibling)
  {
    hide AllOk, IndexOk, Shr, RootIndex, RootAbove, WellFormed, NodeAt, Bit, Found;
    var trees := TreesOf(h, roots);
    FoundNull(h, n, NodeAt(trees, leaves, row + k, Shr(off, k)));
    var c := Shr(off, k - 1);
    AboveSlot(leaves, row, off, k - 1);
    AboveSlot(leaves, row, off, k);
    ShrStep(off, k - 1);
    BitIsShrParity(off, k - 1);
    TwinBound(leaves, row + k - 1, c);
    FoundChildren(h, n, NodeAt(trees, leaves, row + k, Shr(off, k)));
    NodeAtChild(trees, leaves, row + k - 1, c);
    NodeAtChild(trees, leaves, row + k - 1, Twin(c));
    FoundNull(h, null, Nil);
  }

  lemma FoundNull(h: Heap, n: TreeNode?, t: Tree)
    ensures Found(h, null, Nil)
    ensures Found(h, null, t) ==> t == Nil
    ensures n != null && Found(h, n, t) ==> n in h && h[n].tree == t
  {
  }

  lemma GrabEnd(h: Heap, roots: seq<TreeNode>, leaves: nat, index: map<Hash, TreeNode>, pos: nat, len: nat,
                n: TreeNode?, sibling: TreeNode?, parent: TreeNode?)
    requires ForestOk(h, roots, leaves, index) && Fits(leaves, TreeRows(leaves)) && Valid(pos, leaves, TreeRows(leaves))
    requires Grabbing(h, TreesOf(h, roots), leaves, RowOf(pos, TreeRows(leaves)), OffOf(pos, TreeRows(leaves)), len, 0,
                      n, sibling, parent)
    ensures |roots| == PopCount(leaves)
    ensures n != null ==> n in h && sibling != null && sibling in h && parent != null && parent in h
    ensures n != null <==> IsRootPosition(pos, leaves, TreeRows(leaves))
                           || At(TreesOf(h, roots), leaves, TreeRows(leaves), pos) != Nil
    ensures n != null ==> GrabbedAt(TreesOf(h, roots), leaves, TreeRows(leaves), pos,
                                    h[n].tree, h[sibling].tree, h[parent].tree)
  {
    hide IndexOk, Shr, RootIndex, RootAbove, WellFormed, NodeAt, Bit, RowOf, OffOf, IsRootPosition, TreeRows, Valid,
      Parent, Sibling, Fits, AllOk, Found, At;
    var trees, rows := TreesOf(h, roots), TreeRows(leaves);
    var row, off := RowOf(pos, rows), OffOf(pos, rows);
    ShapeLen(trees, leaves);
    AboveSlot(leaves, row, off, 0);
    ShrZero(off);
    Climb(pos, leaves, rows);
    AtIs(trees, leaves, rows, pos);
    FoundNull(h, n, NodeAt(trees, leaves, row, off));
    if n != null && len > 0 {
      TreeProper(h, n);
      var p := Parent(pos, rows);
      Climb(p, leaves, rows);
      AboveSlot(leaves, row, off, 1);
      ShrStep(off, 0);
      AtIs(trees, leaves, rows, Sibling(pos));
      FoundNull(h, sibling, NodeAt(trees, leaves, row, Twin(off)));
      AtIs(trees, leaves, rows, p);
      if len == 1 {
        FoundNull(h, parent, NodeAt(trees, leaves, row + 1, off / 2));
      } else {
        AtIs(trees, leaves, rows, Sibling(p));
        FoundNull(h, parent, NodeAt(trees, leaves, row + 1, Twin(off / 2)));
      }
    }
  }

  lemma ShapeLen(trees: seq<Tree>, n: nat)
    requires WellFormed(trees, n)
    ensures |trees| == PopCount(n)
  {
    ShapeLength(trees, n, 0);
  }

  lemma AtIs(trees: seq<Tree>, n: nat, rows: nat, pos: nat)
    requires |trees| == PopCount(n) && Valid(pos, n, rows)
    ensures RowOf(pos, rows) <= rows && 0 <= OffOf(pos, rows) < Shr(n, RowOf(pos, rows))
    ensures At(trees, n, rows, pos) == NodeAt(trees, n, RowOf(pos, rows), OffOf(pos, rows))
  {
  }

  /** The node at a position is the only one: looking a node up and looking its position up are
      inverse to each other. */
  lemma LookupInverse(h: Heap, roots: seq<TreeNode>, leaves: nat, index: map<Hash, TreeNode>, node: TreeNode, pos: nat)
    requires ForestOk(h, roots, leaves, index) && leaves <= MAX_LEAVES && node in h && h[node].tree != Nil
    requires Valid(pos, leaves, TreeRows(leaves)) && |roots| == PopCount(leaves)
    requires At(TreesOf(h, roots), leaves, TreeRows(leaves), pos) == h[node].tree
    ensures forall m :: m in h && h[m].tree == At(TreesOf(h, roots), leaves, TreeRows(leaves), pos) ==> m == node
    ensures forall q: nat ::
              Valid(q, leaves, TreeRows(leaves)) && h[node].tree == At(TreesOf(h, roots), leaves, TreeRows(leaves), q)
              ==> q == pos
  {
    hide AllOk, IndexOk, WellFormed, Valid, At, TreeRows;
    TreeRowsFit(leaves);
    forall m | m in h && h[m].tree == At(TreesOf(h, roots), leaves, TreeRows(leaves), pos) ensures m == node {
      TreeUnique(h, index, m, node);
    }
    forall q: nat |
      Valid(q, leaves, TreeRows(leaves)) && At(TreesOf(h, roots), leaves, TreeRows(leaves), q) == h[node].tree
      ensures q == pos
    {
      SlotUnique(TreesOf(h, roots), leaves, TreeRows(leaves), q, pos);
    }
  }

  lemma GrabbedNode(trees: seq<Tree>, n: nat, rows: nat, pos: nat, node: Tree, sibling: Tree, aunt: Tree)
    requires |trees| == PopCount(n) && Fits(n, rows) && Valid(pos, n, rows)
    requires GrabbedAt(trees, n, rows, pos, node, sibling, aunt)
    ensures node == At(trees, n, rows, pos)
  {
  }

  lemma SameNode(h: Heap, roots: seq<TreeNode>, leaves: nat, index: map<Hash, TreeNode>, pos: nat, node: TreeNode,
                 again: TreeNode, sibling: Tree, aunt: Tree)
    requires ForestOk(h, roots, leaves, index) && leaves <= MAX_LEAVES && node in h && h[node].tree != Nil
    requires Valid(pos, leaves, TreeRows(leaves)) && Fits(leaves, TreeRows(leaves)) && |roots| == PopCount(leaves)
    requires At(TreesOf(h, roots), leaves, TreeRows(leaves), pos) == h[node].tree && again in h
    requires GrabbedAt(TreesOf(h, roots), leaves, TreeRows(leaves), pos, h[again].tree, sibling, aunt)
    ensures again == node
  {
    hide AllOk, IndexOk, WellFormed, Valid, At, TreeRows, GrabbedAt;
    GrabbedNode(TreesOf(h, roots), leaves, TreeRows(leaves), pos, h[again].tree, sibling, aunt);
    LookupInverse(h, roots, leaves, index, node, pos);
  }

  lemma SamePosition(h: Heap, roots: seq<TreeNode>, leaves: nat, index: map<Hash, TreeNode>, pos: nat, again: nat,
                     node: TreeNode)
    requires ForestOk(h, roots, leaves, index) && leaves <= MAX_LEAVES && node in h && h[node].tree != Nil
    requires Valid(pos, leaves, TreeRows(leaves)) && Valid(again, leaves, TreeRows(leaves))
    requires |roots| == PopCount(leaves)
    requires At(TreesOf(h, roots), leaves, TreeRows(leaves), pos) == h[node].tree
    requires At(TreesOf(h, roots), leaves, TreeRows(leaves), again) == h[node].tree
    ensures again == pos
  {
    hide ForestOk, Valid, At, TreeRows;
    LookupInverse(h, roots, leaves, index, node, pos);
  }

  lemma NodeData(h: Heap, roots: seq<TreeNode>, leaves: nat, index: map<Hash, TreeNode>, node: TreeNode)
    requires ForestOk(h, roots, leaves, index) && node in h
    ensures h[node].data == Merkle(h[node].tree)
  {
    assert NodeOk(h, node);
  }

  lemma IndexedLeaf(h: Heap, roots: seq<TreeNode>, leaves: nat, index: map<Hash, TreeNode>, target: Hash)
    requires ForestOk(h, roots, leaves, index) && target in index
    ensures target.LeafHash? && index[target] in h && h[index[target]].tree == Tip(target.id)
    ensures h[index[target]].data == target
  {
    assert NodeOk(h, index[target]);
  }
}
