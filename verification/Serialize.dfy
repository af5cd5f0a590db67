/** Writing a `MemForest` to a stream and reading it back (src/mem_forest/mod.rs). */
module Serialization {
  import opened Bits
  import opened Positions
  import opened Forest
  import opened NodeHeap
  import opened ForestHeap
  import opened HeapAddition
  import opened Streams
  import opened MemForests

  // ----- writing -----

  /** `write_one` */
  method WriteOne(node: TreeNode, d: Digests, writer: Writer, ghost nodes: set<TreeNode>)
    requires node in nodes && AllOk(Snap(nodes))
    modifies writer
    ensures writer.out == old(writer.out) + TreeBytes(d, node.tree)
    ensures var bytes := writer.out[|old(writer.out)|..];
            |bytes| >= 8 && forall i :: 0 <= i < 8 ==> bytes[i] == if i == 0 && node.tree.Tip? then 1 else 0
    decreases node.tree
  {
    hide AllOk, Merkle, Snap, WordBytes, HashBytes, TreeBytes;
    SnapAt(nodes, node);
    NodeContent(Snap(nodes), node);
    TreeBytesParts(d, node.tree);
    TypeBytes(d, node.tree);
    match node.ty {
      case BranchNode => writer.WriteAll(WordBytes(0));
      case LeafNode => writer.WriteAll(WordBytes(1));
    }
    WriteHash(d, node.data, writer);
    if node.left != null {
      SnapAt(nodes, node.left);
      WriteOne(node.left, d, writer, nodes);
    }
    if node.right != null {
      SnapAt(nodes, node.right);
      WriteOne(node.right, d, writer, nodes);
    }
  }

  lemma TypeBytes(d: Digests, t: Tree)
    ensures |TreeBytes(d, t)| >= 8
    ensures forall i :: 0 <= i < 8 ==> TreeBytes(d, t)[i] == if i == 0 && t.Tip? then 1 else 0
  {
    hide WordBytes, HashBytes, TreeBytes, Shr;
    TreeBytesParts(d, t);
    var ty := if t.Tip? then 1 else 0;
    WordByte(ty);
    forall i | 0 <= i < 8 ensures WordBytes(ty)[i] == if i == 0 && t.Tip? then 1 else 0 {
      if i == 0 { ShrZero(ty); } else { SmallShr(ty, 8 * i); }
    }
  }

  lemma SmallShr(x: nat, k: nat)
    requires x <= 1 && k > 0
    ensures Shr(x, k) == 0
  {
    assert Shr(x, k) == Shr(x / 2, k - 1) <= x / 2;
  }

  lemma NodeContent(h: Heap, n: TreeNode)
    requires AllOk(h) && n in h
    ensures h[n].data == Merkle(h[n].tree) && (h[n].ty.LeafNode? <==> h[n].tree.Tip?)
    ensures h[n].left != null <==> h[n].tree.Fork?
    ensures h[n].right != null <==> h[n].tree.Fork?
    ensures h[n].tree.Fork? ==>
              h[n].left in h && h[n].right in h && h[n].tree == Fork(h[h[n].left].tree, h[h[n].right].tree)
  {
    assert NodeOk(h, n);
  }

  lemma TreeBytesParts(d: Digests, t: Tree)
    ensures TreeBytes(d, t) == WordBytes(if t.Tip? then 1 else 0) + HashBytes(d, Merkle(t))
                               + if t.Fork? then TreeBytes(d, t.left) + TreeBytes(d, t.right) else []
  {
    hide WordBytes, HashBytes;
    SplitTree(d, t, []);
    assert TreeBytes(d, t) + [] == TreeBytes(d, t) && ChildBytes(d, t) + [] == ChildBytes(d, t);
  }

  function ForestBytes(d: Digests, trees: seq<Tree>, leaves: nat): seq<Byte>
    requires leaves < WORD && |trees| < WORD
  {
    WordBytes(leaves) + WordBytes(|trees|) + TreesBytes(d, trees)
  }

  /** `serialize` */
  method Serialize(f: MemForest, d: Digests, writer: Writer)
    requires f.Valid() && f.leaves <= MAX_LEAVES
    modifies writer
    ensures |f.Trees()| < WORD && f.leaves < WORD
    ensures writer.out == old(writer.out) + ForestBytes(d, f.Trees(), f.leaves)
    ensures var bytes := writer.out[|old(writer.out)|..];
            && |bytes| >= 16 && bytes[16..] == TreesBytes(d, f.Trees())
            && (forall i :: 0 <= i < 8 ==> bytes[i] == Shr(f.leaves, 8 * i) % 256)
            && (forall i :: 0 <= i < 8 ==> bytes[8..][i] == Shr(|f.Trees()|, 8 * i) % 256)
  {
    hide ForestOk, AllOk, Merkle, Snap, WordBytes, TreeBytes, TreesOf, WellFormed, PopCount, Shr, ForestBytes;
    ghost var trees, was := f.Trees(), writer.out;
    PopCountWord(f.leaves);
    ForestFacts(Snap(f.nodes), f.roots, f.leaves, f.index);
    writer.WriteAll(WordBytes(f.leaves));
    writer.WriteAll(WordBytes(|f.roots|));
    HeaderFirst(d, trees, f.leaves);
    var i := 0;
    assert trees[0..] == trees;
    while i < |f.roots|
      invariant i <= |f.roots| && writer.out + TreesBytes(d, trees[i..]) == was + ForestBytes(d, trees, f.leaves)
    {
      SnapAt(f.nodes, f.roots[i]);
      TreesNext(d, trees, i);
      WriteOne(f.roots[i], d, writer, f.nodes);
      i := i + 1;
    }
    assert trees[i..] == [];
    AllWritten(writer.out, TreesBytes(d, trees[i..]), was, ForestBytes(d, trees, f.leaves));
    Header(d, trees, f.leaves);
  }

  lemma AllWritten(out: seq<Byte>, left: seq<Byte>, was: seq<Byte>, bytes: seq<Byte>)
    requires out + left == was + bytes && left == []
    ensures out == was + bytes && out[|was|..] == bytes
  {
    assert out + left == out;
  }

  lemma HeaderFirst(d: Digests, trees: seq<Tree>, leaves: nat)
    requires leaves < WORD && |trees| < WORD
    ensures ForestBytes(d, trees, leaves) == WordBytes(leaves) + WordBytes(|trees|) + TreesBytes(d, trees)
  {
  }

  lemma Header(d: Digests, trees: seq<Tree>, leaves: nat)
    requires leaves < WORD && |trees| < WORD
    ensures var bytes := ForestBytes(d, trees, leaves);
            && |bytes| >= 16 && bytes[16..] == TreesBytes(d, trees)
            && (forall i :: 0 <= i < 8 ==> bytes[i] == Shr(leaves, 8 * i) % 256)
            && (forall i :: 0 <= i < 8 ==> bytes[8..][i] == Shr(|trees|, 8 * i) % 256)
  {
    hide WordBytes, TreesBytes, Shr;
    WordByte(leaves);
    WordByte(|trees|);
    var bytes := ForestBytes(d, trees, leaves);
    assert bytes[..8] == WordBytes(leaves) && bytes[8..][..8] == WordBytes(|trees|);
    forall i | 0 <= i < 8
      ensures bytes[i] == Shr(leaves, 8 * i) % 256 && bytes[8..][i] == Shr(|trees|, 8 * i) % 256
    {
      assert bytes[i] == bytes[..8][i] && bytes[8..][i] == bytes[8..][..8][i];
    }
  }

  lemma TreesNext(d: Digests, trees: seq<Tree>, i: nat)
    requires i < |trees|
    ensures TreesBytes(d, trees[i..]) == TreeBytes(d, trees[i]) + TreesBytes(d, trees[i + 1..])
  {
    assert trees[i..][0] == trees[i] && trees[i..][1..] == trees[i + 1..];
  }

  lemma PopCountWord(n: nat)
    requires n <= MAX_LEAVES
    ensures PopCount(n) < WORD && n < WORD
  {
    PopCountSmall(n);
    MaxLeavesIsPow2();
    Pow2Monotone(62, 64);
    WordIsPow2();
  }

  lemma {:induction false} PopCountSmall(n: nat)
    ensures PopCount(n) <= n
  {
    if n > 0 { PopCountSmall(n / 2); }
  }

  lemma ForestFacts(h: Heap, roots: seq<TreeNode>, leaves: nat, index: map<Hash, TreeNode>)
    requires ForestOk(h, roots, leaves, index)
    ensures AllOk(h) && forall i :: 0 <= i < |roots| ==> roots[i] in h && TreesOf(h, roots)[i] == h[roots[i]].tree
  {
    hide AllOk, IndexOk, WellFormed;
  }

  // ----- what has been read -----

  /** The nodes h make up one tree below `top`, which hangs from `ancestor`; `leaves` are its
      leaves. */
  ghost predicate Built(h: Heap, top: TreeNode, ancestor: TreeNode?, t: Tree, leaves: map<Hash, TreeNode>) {
    && top in h && h[top].parent == ancestor && h[top].tree == t
    && AllOk(Unhooked(h, top)) && IndexOk(h, leaves) && leaves.Keys == TipHashes(t)
    && forall n :: n in h && n != top ==> h[n].parent != null
  }

  /** The same nodes without the link upwards. */
  ghost function Unhooked(h: Heap, top: TreeNode): Heap
    requires top in h
  {
    h[top := h[top].(parent := null)]
  }

  function TipHashes(t: Tree): set<Hash> {
    match t
    case Nil => {}
    case Tip(id) => {LeafHash(id)}
    case Fork(l, r) => TipHashes(l) + TipHashes(r)
  }

  lemma {:induction false} TipsAreIds(t: Tree, k: Hash)
    ensures k in TipHashes(t) <==> k.LeafHash? && k.id in Ids(t)
  {
    if t.Fork? {
      TipsAreIds(t.left, k);
      TipsAreIds(t.right, k);
    }
  }

  lemma BuiltLeaf(h: Heap, top: TreeNode, ancestor: TreeNode?, id: nat)
    requires h == map[top := Cell(LeafNode, LeafHash(id), ancestor, null, null, Tip(id))]
    ensures Built(h, top, ancestor, Tip(id), map[LeafHash(id) := top])
  {
    assert Unhooked(h, top) == map[top := Cell(LeafNode, LeafHash(id), null, null, null, Tip(id))];
  }

  lemma BuiltEmpty(h: Heap, top: TreeNode, ancestor: TreeNode?)
    requires h == map[top := Cell(BranchNode, Empty, ancestor, null, null, Nil)]
    ensures Built(h, top, ancestor, Nil, map[])
  {
    assert Unhooked(h, top) == map[top := Cell(BranchNode, Empty, null, null, null, Nil)];
  }

  /** Two disjoint heaps side by side. */
  lemma UnionOk(h1: Heap, h2: Heap)
    requires AllOk(h1) && AllOk(h2) && h1.Keys !! h2.Keys
    ensures AllOk(h1 + h2)
  {
    hide AllOk, NodeOk;
    var h := h1 + h2;
    forall n | n in h ensures NodeOk(h, n) {
      if n in h1 { NodeKept(h1, h, n); } else { NodeKept(h2, h, n); }
    }
    Everyone(h);
  }

  lemma UnionIndex(h1: Heap, h2: Heap, i1: map<Hash, TreeNode>, i2: map<Hash, TreeNode>)
    requires IndexOk(h1, i1) && IndexOk(h2, i2) && h1.Keys !! h2.Keys && i1.Keys !! i2.Keys
    ensures IndexOk(h1 + h2, i1 + i2)
  {
  }

  ghost function BranchCell(t: Tree, ancestor: TreeNode?, l: TreeNode, r: TreeNode): Cell {
    Cell(BranchNode, Merkle(t), ancestor, l, r, t)
  }

  /** A branch above the two trees just read. */
  lemma BuiltFork(hl: Heap, hr: Heap, l: TreeNode, r: TreeNode, node: TreeNode, ancestor: TreeNode?, t: Tree,
                  li: map<Hash, TreeNode>, ri: map<Hash, TreeNode>)
    requires t.Fork? && t.left != Nil && t.right != Nil && Distinct(Ids(t))
    requires Built(hl, l, node, t.left, li) && Built(hr, r, node, t.right, ri)
    requires hl.Keys !! hr.Keys && node !in hl && node !in hr
    ensures Built((hl + hr)[node := BranchCell(t, ancestor, l, r)], node, ancestor, t, li + ri)
  {
    hide AllOk, IndexOk, Distinct, Merkle, Unhooked, Merged;
    BuiltLinks(hl, hr, l, r, node, ancestor, t, li, ri);
    DisjointTips(t);
    UnionIndex(hl, hr, li, ri);
    IndexSkips(hl + hr, li + ri, node, BranchCell(t, ancestor, l, r));
  }

  lemma BuiltLinks(hl: Heap, hr: Heap, l: TreeNode, r: TreeNode, node: TreeNode, ancestor: TreeNode?, t: Tree,
                   li: map<Hash, TreeNode>, ri: map<Hash, TreeNode>)
    requires t.Fork? && t.left != Nil && t.right != Nil
    requires Built(hl, l, node, t.left, li) && Built(hr, r, node, t.right, ri)
    requires hl.Keys !! hr.Keys && node !in hl && node !in hr
    ensures AllOk(Unhooked((hl + hr)[node := BranchCell(t, ancestor, l, r)], node))
  {
    hide AllOk, IndexOk, Merkle, Merged, TipHashes;
    var hl', hr' := Unhooked(hl, l), Unhooked(hr, r);
    UnionOk(hl', hr');
    TopData(hl', l);
    TopData(hr', r);
    ForkMerkle(t);
    AboveBoth(hl' + hr', l, r, node);
    MergedCells(hl, hr, l, r, node, ancestor, t);
  }

  lemma AboveBoth(h: Heap, l: TreeNode, r: TreeNode, node: TreeNode)
    requires AllOk(h) && l in h && r in h && l != r && node !in h
    requires h[l].parent == null && h[r].parent == null && h[l].tree != Nil && h[r].tree != Nil
    ensures AllOk(Merged(h, l, r, node))
  {
    hide AllOk, Merged, NodeOk;
    var h' := Merged(h, l, r, node);
    forall n | n in h' ensures NodeOk(h', n) { MergeKept(h, l, r, node, n); }
    Everyone(h');
  }

  lemma MergedCells(hl: Heap, hr: Heap, l: TreeNode, r: TreeNode, node: TreeNode, ancestor: TreeNode?, t: Tree)
    requires l in hl && r in hr && hl.Keys !! hr.Keys && node !in hl && node !in hr
    requires hl[l].parent == node == hr[r].parent
    requires t == Fork(hl[l].tree, hr[r].tree) && Merkle(t) == ParentHash(hl[l].data, hr[r].data)
    ensures Unhooked((hl + hr)[node := BranchCell(t, ancestor, l, r)], node) ==
            Merged(Unhooked(hl, l) + Unhooked(hr, r), l, r, node)
  {
    hide Merkle;
  }

  lemma TopData(h: Heap, x: TreeNode)
    requires AllOk(h) && x in h
    ensures h[x].data == Merkle(h[x].tree)
  {
    assert NodeOk(h, x);
  }

  lemma ForkMerkle(t: Tree)
    requires t.Fork?
    ensures Merkle(t) == ParentHash(Merkle(t.left), Merkle(t.right))
  {
  }

  lemma IndexSkips(h: Heap, index: map<Hash, TreeNode>, node: TreeNode, c: Cell)
    requires IndexOk(h, index) && node !in h && !c.tree.Tip?
    ensures IndexOk(h[node := c], index)
  {
  }

  lemma DisjointTips(t: Tree)
    requires t.Fork? && Distinct(Ids(t))
    ensures TipHashes(t.left) !! TipHashes(t.right) && Distinct(Ids(t.left)) && Distinct(Ids(t.right))
  {
    forall k | k in TipHashes(t.left) ensures k !in TipHashes(t.right) {
      TipsAreIds(t.left, k);
      TipsAreIds(t.right, k);
      assert k.id in Ids(t) && Ids(t)[k.id] == Ids(t.left)[k.id] + Ids(t.right)[k.id];
    }
    forall x | x in Ids(t.left) ensures Ids(t.left)[x] == 1 { assert x in Ids(t); }
    forall x | x in Ids(t.right) ensures Ids(t.right)[x] == 1 { assert x in Ids(t); }
  }

  // ----- reading -----

  /** The stream starts with what `write_one` wrote for t. */
  ghost predicate Expected(bytes: seq<Byte>, d: Digests, t: Tree, after: seq<Byte>) {
    bytes == TreeBytes(d, t) + after && FaithfulTree(d, t) && Distinct(Ids(t)) && (t == Nil || Proper(t))
  }

  lemma ExpectedHead(bytes: seq<Byte>, d: Digests, t: Tree, after: seq<Byte>)
    requires Expected(bytes, d, t, after)
    ensures bytes == WordBytes(TypeWord(t)) + (HashBytes(d, Merkle(t)) + (ChildBytes(d, t) + after))
    ensures Faithful(d, Merkle(t)) && (t.Fork? <==> !t.Tip? && Merkle(t) != Empty)
    ensures t.Tip? ==> Merkle(t) == LeafHash(t.id)
    ensures !t.Fork? ==> ChildBytes(d, t) + after == after
  {
    hide WordBytes, HashBytes, Faithful;
    SplitTree(d, t, after);
  }

  lemma ExpectedChildren(bytes: seq<Byte>, d: Digests, t: Tree, after: seq<Byte>)
    requires Expected(bytes, d, t, after) && t.Fork?
    ensures t.left != Nil && t.right != Nil && Distinct(Ids(t))
    ensures Expected(ChildBytes(d, t) + after, d, t.left, TreeBytes(d, t.right) + after)
    ensures Expected(TreeBytes(d, t.right) + after, d, t.right, after)
  {
    hide Faithful, TreeBytes, TipHashes;
    DisjointTips(t);
    assert Proper(t.left) && Proper(t.right);
    assert ChildBytes(d, t) + after == TreeBytes(d, t.left) + (TreeBytes(d, t.right) + after);
  }

  /** `_read_one`.  On a stream that starts with the bytes of a tree t it builds the nodes of t, enters the
      leaves into the map, and consumes exactly these bytes. */
  method ReadNode(ancestor: TreeNode?, d: Digests, reader: Reader, index: map<Hash, TreeNode>, ghost t: Tree,
                  ghost after: seq<Byte>)
    returns (r: Option<TreeNode>, index': map<Hash, TreeNode>, ghost made: set<TreeNode>,
             ghost own: map<Hash, TreeNode>)
    modifies reader
    ensures |reader.rest| <= |old(reader.rest)| && (r.Some? ==> |reader.rest| < |old(reader.rest)|)
    ensures fresh(made) && (r.Some? ==> r.value in made)
    ensures Expected(old(reader.rest), d, t, after) ==>
              && r.Some? && reader.rest == after && index' == index + own
              && Built(Snap(made), r.value, ancestor, t, own)
    decreases |reader.rest|, 0
  {
    hide Expected, Built, Merkle, WordBytes, HashBytes, TreeBytes, ChildBytes, Faithful;
    ghost var was := reader.rest;
    ghost var good := Expected(was, d, t, after);
    made, own, index' := {}, map[], index;
    if good { ExpectedHead(was, d, t, after); }
    var ty := ReadWord(reader);
    if ty.None? { return None, index', made, own; }
    var data := ReadHash(d, reader);
    if data.None? { return None, index', made, own; }
    if ty.value == 1 {
      var leaf := NewNode(LeafNode, data.value, ancestor, t);
      made, own := {leaf}, map[data.value := leaf];
      index' := index[data.value := leaf];
      r := Some(leaf);
      assert index' == index + own;
      if good { BuiltLeaf(Snap(made), leaf, ancestor, t.id); }
    } else if ty.value == 0 {
      var node := NewNode(BranchNode, data.value, ancestor, t);
      if good && t.Fork? { ExpectedChildren(was, d, t, after); }
      r, index', made, own := ReadChildren(node, data.value, d, reader, index, ancestor, t, after);
    } else {
      // The program panics on any other type.
      r := None;
    }
  }

  /** What is left of the stream once type and hash of a branch have been read. */
  ghost predicate ExpectedBelow(bytes: seq<Byte>, d: Digests, t: Tree, after: seq<Byte>, data: Hash) {
    && !t.Tip? && data == Merkle(t) && bytes == ChildBytes(d, t) + after
    && (t.Fork? ==>
          && t.left != Nil && t.right != Nil && Distinct(Ids(t))
          && Expected(bytes, d, t.left, TreeBytes(d, t.right) + after)
          && Expected(TreeBytes(d, t.right) + after, d, t.right, after))
  }

  /** Second half of `_read_one`, for a branch: a branch that is not empty has two children. */
  method ReadChildren(node: TreeNode, data: Hash, d: Digests, reader: Reader, index: map<Hash, TreeNode>,
                      ghost ancestor: TreeNode?, ghost t: Tree, ghost after: seq<Byte>)
    returns (r: Option<TreeNode>, index': map<Hash, TreeNode>, ghost made: set<TreeNode>,
             ghost own: map<Hash, TreeNode>)
    requires Snap({node}) == map[node := Cell(BranchNode, data, ancestor, null, null, t)]
    modifies reader, node
    ensures |reader.rest| <= |old(reader.rest)|
    ensures fresh(made - {node}) && (r.Some? ==> r.value == node && node in made)
    ensures ExpectedBelow(old(reader.rest), d, t, after, data) ==>
              && r.Some? && reader.rest == after && index' == index + own
              && Built(Snap(made), node, ancestor, t, own)
    decreases |reader.rest|, 1
  {
    hide Expected, Built, Merkle, WordBytes, HashBytes, TreeBytes, ChildBytes, Faithful, Distinct, Snap;
    NodeAlone(node, BranchNode, data, ancestor, t);
    ghost var was := reader.rest;
    ghost var good := ExpectedBelow(was, d, t, after, data);
    BranchKinds(d, t);
    made, own, index', r := {node}, map[], index, Some(node);
    if data == Empty {
      if good { BuiltEmpty(Snap(made), node, ancestor); }
      return;
    }
    ghost var tl, tr := if t.Fork? then t.left else Nil, if t.Fork? then t.right else Nil;
    ghost var madeL, madeR, ownL, ownR;
    var left, right;
    left, index', madeL, ownL := ReadNode(node, d, reader, index, tl, TreeBytes(d, tr) + after);
    if left.None? { return None, index', {}, map[]; }
    right, index', madeR, ownR := ReadNode(node, d, reader, index', tr, after);
    if right.None? { return None, index', {}, map[]; }
    made, own := madeL + madeR + {node}, ownL + ownR;
    SequentialUpdates(index, ownL, ownR);
    LinkChildren(node, left.value, right.value, madeL, madeR, ancestor, t, ownL, ownR);
  }

  lemma SequentialUpdates(a: map<Hash, TreeNode>, b: map<Hash, TreeNode>, c: map<Hash, TreeNode>)
    ensures a + b + c == a + (b + c)
  {
  }

  /** The links between a branch and the two nodes just read. */
  method LinkChildren(node: TreeNode, left: TreeNode, right: TreeNode, ghost madeL: set<TreeNode>,
                      ghost madeR: set<TreeNode>, ghost ancestor: TreeNode?, ghost t: Tree,
                      ghost ownL: map<Hash, TreeNode>, ghost ownR: map<Hash, TreeNode>)
    requires left in madeL && right in madeR && madeL !! madeR && node !in madeL && node !in madeR
    modifies node`left, node`right, left`parent, right`parent
    ensures old(node.ty == BranchNode && node.data == Merkle(t) && node.parent == ancestor && node.tree == t) && t.Fork?
            && t.left != Nil && t.right != Nil && Distinct(Ids(t))
            && old(Built(Snap(madeL), left, node, t.left, ownL)) && old(Built(Snap(madeR), right, node, t.right, ownR))
            ==> Built(Snap(madeL + madeR + {node}), node, ancestor, t, ownL + ownR)
  {
    hide Built, Merkle, Distinct;
    ghost var hl, hr := Snap(madeL), Snap(madeR);
    ghost var good := node.ty == BranchNode && node.data == Merkle(t) && node.parent == ancestor && node.tree == t
        && t.Fork?
                      && t.left != Nil && t.right != Nil && Distinct(Ids(t))
                      && Built(hl, left, node, t.left, ownL) && Built(hr, right, node, t.right, ownR);
    node.left, node.right := left, right;
    left.parent, right.parent := node, node;
    if good {
      BuiltFork(hl, hr, left, right, node, ancestor, t, ownL, ownR);
      BuiltSnap(hl, hr, left, right, node, t, ancestor, Snap(madeL + madeR + {node}), ownL, ownR);
    }
  }

  lemma BranchKinds(d: Digests, t: Tree)
    ensures !t.Tip? ==> (Merkle(t) == Empty <==> t == Nil)
    ensures t == Nil ==> ChildBytes(d, t) == []
  {
  }

  lemma BuiltSnap(hl: Heap, hr: Heap, l: TreeNode, r: TreeNode, node: TreeNode, t: Tree, ancestor: TreeNode?, h: Heap,
                  li: map<Hash, TreeNode>, ri: map<Hash, TreeNode>)
    requires t.Fork? && Built(hl, l, node, t.left, li) && Built(hr, r, node, t.right, ri) && hl.Keys !! hr.Keys
    requires h.Keys == hl.Keys + hr.Keys + {node} && node !in hl && node !in hr
    requires h[node] == BranchCell(t, ancestor, l, r)
    requires forall x :: x in hl ==> h[x] == if x == l then hl[x].(parent := node) else hl[x]
    requires forall x :: x in hr ==> h[x] == if x == r then hr[x].(parent := node) else hr[x]
    ensures h == (hl + hr)[node := BranchCell(t, ancestor, l, r)]
  {
    hide AllOk, IndexOk, Unhooked, TipHashes, Merkle;
  }

  lemma NodeAlone(node: TreeNode, ty: NodeType, data: Hash, ancestor: TreeNode?, t: Tree)
    requires Snap({node}) == map[node := Cell(ty, data, ancestor, null, null, t)]
    ensures node.ty == ty && node.data == data && node.parent == ancestor && node.tree == t
  {
    SnapAt({node}, node);
  }

  method NewNode(ty: NodeType, data: Hash, ancestor: TreeNode?, ghost t: Tree) returns (node: TreeNode)
    ensures fresh(node) && Snap({node}) == map[node := Cell(ty, data, ancestor, null, null, t)]
  {
    node := new TreeNode(ty, data, null, null, t);
    node.parent := ancestor;
  }

  /** `read_one`: one tree, and the map of its leaves. */
  method ReadOne(d: Digests, reader: Reader, ghost t: Tree, ghost after: seq<Byte>)
    returns (r: Option<TreeNode>, leaves: map<Hash, TreeNode>, ghost made: set<TreeNode>)
    modifies reader
    ensures fresh(made)
    ensures Expected(old(reader.rest), d, t, after) ==>
              r.Some? && reader.rest == after && Built(Snap(made), r.value, null, t, leaves)
  {
    hide Expected, Built;
    ghost var own;
    r, leaves, made, own := ReadNode(null, d, reader, map[], t, after);
    assert map[] + own == own;
  }

  ghost predicate FaithfulTrees(d: Digests, trees: seq<Tree>) {
    forall i :: 0 <= i < |trees| ==> FaithfulTree(d, trees[i])
  }

  /** The stream starts with what `serialize` wrote for the forest. */
  ghost predicate Stored(bytes: seq<Byte>, d: Digests, trees: seq<Tree>, n: nat, after: seq<Byte>) {
    && n <= MAX_LEAVES && n < WORD && |trees| < WORD && WellFormed(trees, n)
    && FaithfulTrees(d, trees)
    && bytes == ForestBytes(d, trees, n) + after
  }

  lemma StoredHead(bytes: seq<Byte>, d: Digests, trees: seq<Tree>, n: nat, after: seq<Byte>)
    requires Stored(bytes, d, trees, n, after)
    ensures n < WORD && |trees| < WORD && WellFormed(trees, n) && FaithfulTrees(d, trees)
    ensures bytes == WordBytes(n) + (WordBytes(|trees|) + (TreesBytes(d, trees) + after))
  {
    hide WordBytes, TreesBytes, WellFormed, FaithfulTrees;
  }

  /** A stream stands for one forest only, and it is clear where it ends. */
  lemma StoredUnique(bytes: seq<Byte>, d: Digests, ts: seq<Tree>, n: nat, after: seq<Byte>,
                     us: seq<Tree>, m: nat, after': seq<Byte>)
    requires Stored(bytes, d, ts, n, after) && Stored(bytes, d, us, m, after')
    ensures ts == us && n == m && after == after'
  {
    hide WordBytes, TreesBytes, WellFormed, Stored, FaithfulTrees;
    StoredHead(bytes, d, ts, n, after);
    StoredHead(bytes, d, us, m, after');
    var x, y := TreesBytes(d, ts) + after, TreesBytes(d, us) + after';
    assert bytes[..8] == WordBytes(n) == WordBytes(m);
    assert bytes[8..][..8] == WordBytes(|ts|) == WordBytes(|us|);
    assert bytes[8..][8..] == x == y;
    WordBack(n);
    WordBack(m);
    WordBack(|ts|);
    WordBack(|us|);
    TreesUnique(d, ts, us, after, after');
  }

  lemma {:induction false} TreesUnique(d: Digests, ts: seq<Tree>, us: seq<Tree>, after: seq<Byte>, after': seq<Byte>)
    requires FaithfulTrees(d, ts) && FaithfulTrees(d, us) && |ts| == |us|
    requires TreesBytes(d, ts) + after == TreesBytes(d, us) + after'
    ensures ts == us && after == after'
  {
    hide TreeBytes, FaithfulTree;
    if ts == [] {
      assert TreesBytes(d, ts) + after == after && TreesBytes(d, us) + after' == after';
    } else {
      var x, y := TreesBytes(d, ts[1..]) + after, TreesBytes(d, us[1..]) + after';
      assert TreesBytes(d, ts) + after == TreeBytes(d, ts[0]) + x;
      assert TreesBytes(d, us) + after' == TreeBytes(d, us[0]) + y;
      TreeBytesUnique(d, ts[0], us[0], x, y);
      TreesUnique(d, ts[1..], us[1..], after, after');
      assert ts == [ts[0]] + ts[1..] && us == [us[0]] + us[1..];
    }
  }

  /** The first trees are rebuilt. */
  ghost predicate Rebuilt(h: Heap, roots: seq<TreeNode>, index: map<Hash, TreeNode>, ts: seq<Tree>) {
    && AllOk(h) && RootsOk(h, roots) && IndexOk(h, index) && TreesOf(h, roots) == ts
    && forall k :: k in index ==> k.LeafHash? && k.id in AllIds(ts)
  }

  lemma RebuiltNone()
    ensures Rebuilt(map[], [], map[], [])
  {
  }

  lemma {:induction false} StoredTree(d: Digests, trees: seq<Tree>, n: nat, i: nat, after: seq<Byte>)
    requires WellFormed(trees, n) && FaithfulTrees(d, trees) && i < |trees|
    ensures Expected(TreesBytes(d, trees[i..]) + after, d, trees[i], TreesBytes(d, trees[i + 1..]) + after)
  {
    hide FaithfulTree, TreeBytes, Distinct, Shape;
    TreesNext(d, trees, i);
    assert TreesBytes(d, trees[i..]) + after == TreeBytes(d, trees[i]) + (TreesBytes(d, trees[i + 1..]) + after);
    TreeOfForest(trees, n, i);
  }

  lemma TreeOfForest(trees: seq<Tree>, n: nat, i: nat)
    requires WellFormed(trees, n) && i < |trees|
    ensures Distinct(Ids(trees[i])) && (trees[i] == Nil || Proper(trees[i]))
  {
    ShapeEach(trees, n, 0, i);
    AllIdsMember(trees, i);
    forall x | x in Ids(trees[i]) ensures Ids(trees[i])[x] == 1 {
      assert x in AllIds(trees) && Ids(trees[i])[x] <= AllIds(trees)[x];
    }
  }

  /** One more tree. */
  lemma RebuiltNext(h: Heap, roots: seq<TreeNode>, index: map<Hash, TreeNode>, trees: seq<Tree>, n: nat, i: nat,
                    h1: Heap, top: TreeNode, leaves: map<Hash, TreeNode>)
    requires WellFormed(trees, n) && i < |trees| && Rebuilt(h, roots, index, trees[..i])
    requires Built(h1, top, null, trees[i], leaves) && h.Keys !! h1.Keys
    ensures Rebuilt(h + h1, roots + [top], index + leaves, trees[..i + 1])
  {
    hide AllOk, IndexOk, RootsOk, Shape, Distinct, TipHashes;
    assert Unhooked(h1, top) == h1;
    UnionOk(h, h1);
    forall k | k in index ensures k !in leaves { NewTips(trees, n, i, k); }
    UnionIndex(h, h1, index, leaves);
    UnionRoots(h, roots, h1, top);
    UnionTrees(h, roots, h1, top);
    assert trees[..i + 1] == trees[..i] + [trees[i]];
    forall k | k in index + leaves ensures k.LeafHash? && k.id in AllIds(trees[..i + 1]) {
      AllIdsAppend(trees[..i], trees[i]);
      TipsAreIds(trees[i], k);
    }
  }

  lemma RebuiltAll(h: Heap, roots: seq<TreeNode>, index: map<Hash, TreeNode>, trees: seq<Tree>, n: nat)
    requires Rebuilt(h, roots, index, trees) && WellFormed(trees, n)
    ensures ForestOk(h, roots, n, index) && TreesOf(h, roots) == trees
  {
    hide AllOk, IndexOk, WellFormed;
  }

  lemma NoTrees(d: Digests, trees: seq<Tree>, after: seq<Byte>)
    ensures TreesBytes(d, trees[|trees|..]) + after == after
  {
  }

  lemma SnapUnion(a: set<TreeNode>, b: set<TreeNode>)
    ensures Snap(a + b) == Snap(a) + Snap(b)
  {
  }

  lemma NewTips(trees: seq<Tree>, n: nat, i: nat, k: Hash)
    requires WellFormed(trees, n) && i < |trees| && k.LeafHash? && k.id in AllIds(trees[..i])
    ensures k !in TipHashes(trees[i])
  {
    hide Shape, AllIds;
    TipsAreIds(trees[i], k);
    var j := AllIdsSome(trees[..i], k.id);
    if k in TipHashes(trees[i]) { DisjointTrees(trees, j, i, k.id); }
  }

  lemma UnionRoots(h: Heap, roots: seq<TreeNode>, h1: Heap, top: TreeNode)
    requires RootsOk(h, roots) && h.Keys !! h1.Keys && top in h1 && h1[top].parent == null
    requires forall n :: n in h1 && n != top ==> h1[n].parent != null
    ensures RootsOk(h + h1, roots + [top])
  {
    var all := roots + [top];
    forall n | n in h + h1 && (h + h1)[n].parent == null ensures n in all {
      if n in h {
        var i :| 0 <= i < |roots| && roots[i] == n;
        assert all[i] == n;
      } else {
        assert all[|roots|] == n;
      }
    }
  }

  lemma UnionTrees(h: Heap, roots: seq<TreeNode>, h1: Heap, top: TreeNode)
    requires RootsOk(h, roots) && top in h1 && h.Keys !! h1.Keys
    ensures forall i :: 0 <= i < |roots| + 1 ==> (roots + [top])[i] in h + h1
    ensures TreesOf(h + h1, roots + [top]) == TreesOf(h, roots) + [h1[top].tree]
  {
  }

  /** `deserialize` */
  method Deserialize(d: Digests, reader: Reader, ghost trees: seq<Tree>, ghost n: nat, ghost after: seq<Byte>)
    returns (r: Option<MemForest>)
    modifies reader
    ensures Stored(old(reader.rest), d, trees, n, after) ==>
              && r.Some? && reader.rest == after && fresh(r.value) && fresh(r.value.nodes)
              && r.value.Valid() && r.value.leaves == n && r.value.Trees() == trees
  {
    hide Stored, Rebuilt, Expected, Built, ForestOk, FaithfulTrees, TreesOf, WordBytes, TreesBytes, Snap, WellFormed;
    ghost var good := Stored(reader.rest, d, trees, n, after);
    if good { StoredHead(reader.rest, d, trees, n, after); }
    var leaves := ReadWord(reader);
    if leaves.None? { return None; }
    var rootsLen := ReadWord(reader);
    if rootsLen.None? { return None; }
    var roots: seq<TreeNode>, index: map<Hash, TreeNode> := [], map[];
    ghost var made: set<TreeNode> := {};
    RebuiltNone();
    assert trees[..0] == [] && trees[0..] == trees && Snap(made) == map[];
    for i := 0 to rootsLen.value
      invariant fresh(made)
      invariant good ==> rootsLen.value == |trees| && reader.rest == TreesBytes(d, trees[i..]) + after
                         && Rebuilt(Snap(made), roots, index, trees[..i])
    {
      ghost var t := if i < |trees| then trees[i] else Nil;
      ghost var more := if i < |trees| then TreesBytes(d, trees[i + 1..]) + after else [];
      if good {
        StoredTree(d, trees, n, i, after);
      }
      var root, own;
      ghost var tree;
      root, own, tree := ReadOne(d, reader, t, more);
      if root.None? { return None; }
      if good {
        RebuiltNext(Snap(made), roots, index, trees, n, i, Snap(tree), root.value, own);
        SnapUnion(made, tree);
      }
      index := index + own;
      roots := roots + [root.value];
      made := made + tree;
    }
    if good {
      assert trees[..|trees|] == trees && TreesBytes(d, trees[|trees|..]) + after == after by {
        NoTrees(d, trees, after);
      }
      RebuiltAll(Snap(made), roots, index, trees, n);
    }
    var f := new MemForest.FromParts(roots, leaves.value, index, made);
    r := Some(f);
  }
}
