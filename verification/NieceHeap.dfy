/** The linked nodes of `Pollard` (src/pollard/mod.rs).  A node does not point to its own children
    but to its nieces, the children of its sibling; only a root holds its own children.  Upwards
    it points to its aunt.

    Every node carries ghost fields: the subtree that it is the root of, its parent and its
    sibling.  `AllOk` says that nieces and aunts encode exactly these.
  */
module NieceHeap {
  import opened Forest

  datatype NieceCell = NieceCell(remember: bool, hash: Hash, aunt: PollardNode?, left: PollardNode?,
      right: PollardNode?,
                                 tree: Tree, par: PollardNode?, sib: PollardNode?)

  type NHeap = map<PollardNode, NieceCell>

  ghost function Shot(nodes: set<PollardNode>): (h: NHeap)
    reads nodes
    ensures h.Keys == nodes
  {
    map n | n in nodes :: NieceCell(n.remember, n.hash, n.auntRef, n.leftNiece, n.rightNiece, n.tree, n.par, n.sib)
  }

  lemma ShotAt(nodes: set<PollardNode>, n: PollardNode)
    requires n in nodes
    ensures Shot(nodes)[n] ==
            NieceCell(n.remember, n.hash, n.auntRef, n.leftNiece, n.rightNiece, n.tree, n.par, n.sib)
  {
  }

  /** The node that points to the children of x. */
  ghost function Holder(h: NHeap, x: PollardNode): PollardNode
    requires x in h
  {
    if h[x].sib == null then x else h[x].sib
  }

  /** The hash is right, and a node that is no root has a sibling, and its parent's holder for an
      aunt. */
  ghost predicate UpOk(h: NHeap, x: PollardNode)
    requires x in h
  {
    var c := h[x];
    && c.hash == Merkle(c.tree)
    && (if c.par == null then c.sib == null && c.aunt == null
        else
          && c.par in h && c.sib != null && c.sib in h && c.sib != x && h[c.sib].sib == x && h[c.sib].par == c.par
          && c.aunt == Holder(h, c.par) && c.aunt in h
          && (h[c.aunt].left == x || h[c.aunt].right == x))
  }

  /** The holder's nieces are the children of x. */
  ghost predicate DownOk(h: NHeap, x: PollardNode)
    requires x in h
  {
    && Holder(h, x) in h
    && var t, l, r := h[x].tree, h[Holder(h, x)].left, h[Holder(h, x)].right;
       if t.Fork? then
         && l != null && l in h && h[l].tree == t.left && h[l].par == x && h[l].sib == r
         && r != null && r in h && h[r].tree == t.right && h[r].par == x && h[r].sib == l
       else t.Tip? && l == null && r == null
  }

  ghost predicate PNodeOk(h: NHeap, x: PollardNode)
    requires x in h
  {
    UpOk(h, x) && DownOk(h, x)
  }

  ghost predicate PAllOk(h: NHeap) {
    forall x :: x in h ==> PNodeOk(h, x)
  }

  lemma POk(h: NHeap, x: PollardNode)
    requires PAllOk(h) && x in h
    ensures UpOk(h, x) && DownOk(h, x)
  {
    hide UpOk, DownOk;
    assert PNodeOk(h, x);
  }

  /** The leaf map knows every leaf. */
  ghost predicate PIndexOk(h: NHeap, index: map<Hash, PollardNode>) {
    && (forall k :: k in index ==> k.LeafHash? && index[k] in h && h[index[k]].tree == Tip(k.id))
    && (forall n :: n in h && h[n].tree.Tip? ==>
          LeafHash(h[n].tree.id) in index && index[LeafHash(h[n].tree.id)] == n)
  }

  /** No two nodes stand for the same subtree, so comparing hashes compares nodes. */
  lemma {:induction false} PTreeUnique(h: NHeap, index: map<Hash, PollardNode>, n: PollardNode, m: PollardNode)
    requires PAllOk(h) && PIndexOk(h, index) && n in h && m in h && h[n].tree == h[m].tree
    ensures n == m
    decreases h[n].tree
  {
    hide PAllOk, UpOk;
    POk(h, n);
    POk(h, m);
    if h[n].tree.Fork? {
      PTreeUnique(h, index, h[Holder(h, n)].left, h[Holder(h, m)].left);
    }
  }

  lemma PHashUnique(h: NHeap, index: map<Hash, PollardNode>, n: PollardNode, m: PollardNode)
    requires PAllOk(h) && PIndexOk(h, index) && n in h && m in h
    ensures h[n].hash == h[m].hash <==> n == m
  {
    hide PAllOk, DownOk, PIndexOk;
    POk(h, n);
    POk(h, m);
    if h[n].hash == h[m].hash {
      MerkleInjective(h[n].tree, h[m].tree);
      PTreeUnique(h, index, n, m);
    }
  }

  /** The links of a node that is no root. */
  lemma PFamily(h: NHeap, x: PollardNode)
    requires PAllOk(h) && x in h && h[x].par != null
    ensures h[x].par in h && h[x].sib != null && h[x].sib in h && h[x].aunt != null && h[x].aunt in h
    ensures h[x].sib != x && h[h[x].sib].sib == x && h[h[x].sib].par == h[x].par
    ensures h[x].aunt == if h[h[x].par].par == null then h[x].par else h[h[x].par].sib
    ensures var a := h[h[x].aunt];
            && a.left != null && a.left in h && a.right != null && a.right in h
            && (if a.left == x then a.right == h[x].sib else a.left == h[x].sib && a.right == x)
    ensures h[h[x].par].tree == if h[h[x].aunt].left == x then Fork(h[x].tree, h[h[x].sib].tree)
                                else Fork(h[h[x].sib].tree, h[x].tree)
  {
    hide PAllOk, Merkle;
    POk(h, x);
    POk(h, h[x].par);
    POk(h, h[x].sib);
  }

  // ----- a new leaf -----

  ghost function LeafCell(id: nat): NieceCell {
    NieceCell(true, LeafHash(id), null, null, null, Tip(id), null, null)
  }

  lemma PLeafOk(h: NHeap, node: PollardNode, id: nat)
    requires PAllOk(h) && node !in h
    ensures PAllOk(h[node := LeafCell(id)])
  {
    hide PAllOk, PNodeOk;
    var h' := h[node := LeafCell(id)];
    forall x | x in h' ensures PNodeOk(h', x) {
      if x == node { PLeafNode(h', node, id); } else { PKept(h, h', x); }
    }
    PEveryone(h');
  }

  lemma PEveryone(h: NHeap)
    requires forall x :: x in h ==> PNodeOk(h, x)
    ensures PAllOk(h)
  {
  }

  lemma PLeafNode(h: NHeap, node: PollardNode, id: nat)
    requires node in h && h[node] == LeafCell(id)
    ensures PNodeOk(h, node)
  {
  }

  lemma PKept(h: NHeap, h': NHeap, x: PollardNode)
    requires PAllOk(h) && x in h && forall m :: m in h ==> m in h' && h'[m] == h[m]
    ensures PNodeOk(h', x)
  {
    hide Merkle, PAllOk;
    POk(h, x);
  }

  lemma PIndexAdd(h: NHeap, index: map<Hash, PollardNode>, node: PollardNode, id: nat)
    requires PIndexOk(h, index) && node !in h && LeafHash(id) !in index
    ensures PIndexOk(h[node := LeafCell(id)], index[LeafHash(id) := node])
  {
  }

  // ----- two roots under a new one -----

  /** The cell of a node after the roots o and w have become the children of r: the two swap their
      nieces, so that each holds the other's children, and these children get the holder for aunt. */
  ghost function JoinedCell(h: NHeap, o: PollardNode, w: PollardNode, r: PollardNode, x: PollardNode): NieceCell
    requires o in h && w in h && x in h
  {
    if x == o then h[o].(left := h[w].left, right := h[w].right, aunt := r, par := r, sib := w)
    else if x == w then h[w].(left := h[o].left, right := h[o].right, aunt := r, par := r, sib := o)
    else if x == h[o].left || x == h[o].right then h[x].(aunt := w)
    else if x == h[w].left || x == h[w].right then h[x].(aunt := o)
    else h[x]
  }

  ghost function RootCell(h: NHeap, o: PollardNode, w: PollardNode): NieceCell
    requires o in h && w in h
  {
    NieceCell(true, ParentHash(h[o].hash, h[w].hash), null, o, w, Fork(h[o].tree, h[w].tree), null, null)
  }

  ghost predicate JoinedTo(h: NHeap, h': NHeap, o: PollardNode, w: PollardNode, r: PollardNode) {
    && o in h && w in h && r !in h && h'.Keys == h.Keys + {r}
    && (forall x :: x in h ==> h'[x] == JoinedCell(h, o, w, r, x))
    && h'[r] == RootCell(h, o, w)
  }

  /** Two roots have four different children at most, and none of them is a root. */
  lemma RootChildren(h: NHeap, o: PollardNode, w: PollardNode)
    requires PAllOk(h) && o in h && w in h && o != w && h[o].par == null && h[w].par == null
    ensures h[o].sib == null && h[w].sib == null
    ensures h[o].left != null ==> h[o].left in h && h[h[o].left].par == o
    ensures h[o].right != null ==> h[o].right in h && h[h[o].right].par == o
    ensures h[w].left != null ==> h[w].left in h && h[h[w].left].par == w
    ensures h[w].right != null ==> h[w].right in h && h[h[w].right].par == w
  {
    hide PAllOk, Merkle;
    POk(h, o);
    POk(h, w);
  }

  lemma JoinedUp(h: NHeap, h': NHeap, o: PollardNode, w: PollardNode, r: PollardNode, x: PollardNode)
    requires PAllOk(h) && JoinedTo(h, h', o, w, r) && o != w && h[o].par == null && h[w].par == null && x in h
    ensures UpOk(h', x)
  {
    hide PAllOk, Merkle, DownOk;
    RootChildren(h, o, w);
    POk(h, x);
    if h[x].par != null {
      PFamily(h, x);
      var p: PollardNode := h[x].par;
      if p == o || p == w {
        JoinedChild(h, h', o, w, r, x);
      } else {
        JoinedOther(h, h', o, w, r, x);
      }
    }
  }

  /** A child of one of the two roots. */
  lemma JoinedChild(h: NHeap, h': NHeap, o: PollardNode, w: PollardNode, r: PollardNode, x: PollardNode)
    requires PAllOk(h) && JoinedTo(h, h', o, w, r) && o != w && h[o].par == null && h[w].par == null && x in h
    requires h[x].par == o || h[x].par == w
    ensures UpOk(h', x)
  {
    hide PAllOk, Merkle, DownOk;
    RootChildren(h, o, w);
    POk(h, x);
    PFamily(h, x);
    var s: PollardNode := h[x].sib;
    POk(h, s);
    PFamily(h, s);
  }

  /** A node further down. */
  lemma JoinedOther(h: NHeap, h': NHeap, o: PollardNode, w: PollardNode, r: PollardNode, x: PollardNode)
    requires PAllOk(h) && JoinedTo(h, h', o, w, r) && o != w && h[o].par == null && h[w].par == null && x in h
    requires h[x].par != null && h[x].par != o && h[x].par != w
    ensures UpOk(h', x)
  {
    hide PAllOk, Merkle, DownOk, RootCell;
    RootChildren(h, o, w);
    POk(h, x);
    PFamily(h, x);
    var s: PollardNode, p: PollardNode, a: PollardNode := h[x].sib, h[x].par, h[x].aunt;
    POk(h, p);
    if h[p].par != null { PFamily(h, p); }
    assert h'[x] == h[x] && h'[s] == h[s];
    assert h'[p].par == h[p].par && h'[p].sib == h[p].sib;
    assert h'[a].left == h[a].left && h'[a].right == h[a].right;
  }

  lemma JoinedDown(h: NHeap, h': NHeap, o: PollardNode, w: PollardNode, r: PollardNode, x: PollardNode)
    requires PAllOk(h) && JoinedTo(h, h', o, w, r) && o != w && h[o].par == null && h[w].par == null && x in h
    ensures DownOk(h', x)
  {
    hide PAllOk, UpOk, DownOk, JoinedTo, JoinedCell, JoinedLinks;
    JoinedKeys(h, h', o, w, r);
    RootChildren(h, o, w);
    POk(h, x);
    ChildrenOf(h, x);
    var hd := Holder(h, x);
    if h[hd].left != null { JoinedLink(h, h', o, w, r, h[hd].left); }
    if h[hd].right != null { JoinedLink(h, h', o, w, r, h[hd].right); }
    if x == o || x == w {
      JoinedHolder(h, h', o, w, r);
    } else {
      HolderElsewhere(h, o, x);
      HolderElsewhere(h, w, x);
      JoinedSame(h, h', o, w, r, x);
      JoinedSame(h, h', o, w, r, hd);
    }
    DownMoved(h, h', x);
  }

  lemma JoinedLink(h: NHeap, h': NHeap, o: PollardNode, w: PollardNode, r: PollardNode, x: PollardNode)
    requires JoinedTo(h, h', o, w, r) && x in h && x != o && x != w
    ensures JoinedLinks(h, h', x)
  {
  }

  lemma JoinedHolder(h: NHeap, h': NHeap, o: PollardNode, w: PollardNode, r: PollardNode)
    requires JoinedTo(h, h', o, w, r) && o != w && h[o].sib == null && h[w].sib == null
    ensures o in h' && w in h' && h'[o].tree == h[o].tree && h'[w].tree == h[w].tree
    ensures Holder(h, o) == o && Holder(h, w) == w && Holder(h', o) == w && Holder(h', w) == o
    ensures h'[w].left == h[o].left && h'[w].right == h[o].right && h'[o].left == h[w].left && h'[o].right == h[w].right
  {
  }

  lemma JoinedSame(h: NHeap, h': NHeap, o: PollardNode, w: PollardNode, r: PollardNode, x: PollardNode)
    requires JoinedTo(h, h', o, w, r) && x in h && x != o && x != w
    ensures x in h' && h'[x] == h[x].(aunt := h'[x].aunt)
  {
  }

  lemma ChildrenOf(h: NHeap, x: PollardNode)
    requires x in h && DownOk(h, x)
    ensures Holder(h, x) in h
    ensures h[Holder(h, x)].left != null ==> h[Holder(h, x)].left in h && h[h[Holder(h, x)].left].par == x
    ensures h[Holder(h, x)].right != null ==> h[Holder(h, x)].right in h && h[h[Holder(h, x)].right].par == x
  {
  }

  /** The holder's nieces and the children's links are enough. */
  lemma DownMoved(h: NHeap, h': NHeap, x: PollardNode)
    requires x in h && x in h' && DownOk(h, x) && h'[x].tree == h[x].tree && Holder(h, x) in h && Holder(h', x) in h'
    requires h'[Holder(h', x)].left == h[Holder(h, x)].left && h'[Holder(h', x)].right == h[Holder(h, x)].right
    requires h[Holder(h, x)].left != null ==> JoinedLinks(h, h', h[Holder(h, x)].left)
    requires h[Holder(h, x)].right != null ==> JoinedLinks(h, h', h[Holder(h, x)].right)
    ensures DownOk(h', x)
  {
  }

  /** Tree, parent and sibling are what they were. */
  ghost predicate JoinedLinks(h: NHeap, h': NHeap, x: PollardNode) {
    x in h && x in h' && h'[x].tree == h[x].tree && h'[x].par == h[x].par && h'[x].sib == h[x].sib
  }

  lemma HolderElsewhere(h: NHeap, o: PollardNode, x: PollardNode)
    requires PAllOk(h) && o in h && h[o].sib == null && x in h && x != o
    ensures Holder(h, x) != o
  {
    hide PAllOk, Merkle, DownOk;
    POk(h, x);
  }

  /** Joining two roots keeps the encoding. */
  lemma JoinedOk(h: NHeap, h': NHeap, o: PollardNode, w: PollardNode, r: PollardNode)
    requires PAllOk(h) && JoinedTo(h, h', o, w, r) && o != w && h[o].par == null && h[w].par == null
    ensures PAllOk(h')
  {
    hide PAllOk, JoinedTo, UpOk, DownOk;
    forall x | x in h' ensures PNodeOk(h', x) {
      JoinedKeys(h, h', o, w, r);
      if x == r {
        JoinedRoot(h, h', o, w, r);
      } else {
        JoinedUp(h, h', o, w, r, x);
        JoinedDown(h, h', o, w, r, x);
      }
    }
    PEveryone(h');
  }

  lemma JoinedKeys(h: NHeap, h': NHeap, o: PollardNode, w: PollardNode, r: PollardNode)
    requires JoinedTo(h, h', o, w, r)
    ensures h'.Keys == h.Keys + {r} && r !in h && o in h && w in h
  {
  }

  lemma JoinedRoot(h: NHeap, h': NHeap, o: PollardNode, w: PollardNode, r: PollardNode)
    requires PAllOk(h) && JoinedTo(h, h', o, w, r) && o != w && h[o].par == null && h[w].par == null
    ensures r in h' && PNodeOk(h', r)
  {
    hide PAllOk;
    POk(h, o);
    POk(h, w);
  }

  lemma JoinedIndex(h: NHeap, h': NHeap, o: PollardNode, w: PollardNode, r: PollardNode, index: map<Hash, PollardNode>)
    requires PIndexOk(h, index) && JoinedTo(h, h', o, w, r)
    ensures PIndexOk(h', index)
  {
    hide RootCell, JoinedTo;
    JoinedTrees(h, h', o, w, r);
  }

  lemma JoinedTrees(h: NHeap, h': NHeap, o: PollardNode, w: PollardNode, r: PollardNode)
    requires JoinedTo(h, h', o, w, r)
    ensures h'.Keys == h.Keys + {r} && r !in h
    ensures forall x :: x in h ==> h'[x].tree == h[x].tree
    ensures forall x :: x in h ==> h'[x].par == if x == o || x == w then r else h[x].par
    ensures h'[r].par == null && h'[r].tree == Fork(h[o].tree, h[w].tree)
  {
  }

  // ----- the class -----

  class PollardNode {
    var remember: bool
    var hash: Hash
    var auntRef: PollardNode?
    var leftNiece: PollardNode?
    var rightNiece: PollardNode?
    ghost var tree: Tree
    ghost var par: PollardNode?
    ghost var sib: PollardNode?

    constructor (hash: Hash, remember: bool, ghost tree: Tree)
      ensures this.hash == hash && this.remember == remember && this.tree == tree
      ensures auntRef == null && leftNiece == null && rightNiece == null && par == null && sib == null
    {
      this.hash := hash;
      this.remember := remember;
      this.tree := tree;
      this.auntRef, this.leftNiece, this.rightNiece, this.par, this.sib := null, null, null, null, null;
    }

    /** `sibling`: found among the aunt's nieces. */
    method Sibling(ghost nodes: set<PollardNode>, ghost index: map<Hash, PollardNode>) returns (r: PollardNode?)
      requires this in nodes && PAllOk(Shot(nodes)) && PIndexOk(Shot(nodes), index)
      ensures r == sib && (r != null ==> r in nodes)
    {
      hide PAllOk, PIndexOk, Shot, UpOk, DownOk;
      ghost var h := Shot(nodes);
      ShotAt(nodes, this);
      if auntRef == null {
        NoAunt(h, this);
        return null;
      }
      HasAunt(h, this);
      PFamily(h, this);
      ShotAt(nodes, auntRef);
      ShotAt(nodes, auntRef.leftNiece);
      PHashUnique(h, index, this, auntRef.leftNiece);
      if auntRef.leftNiece.hash == hash {
        r := auntRef.rightNiece;
      } else {
        r := auntRef.leftNiece;
      }
    }

    /** `children`: the own nieces of a root, else the sibling's. */
    method Children(ghost nodes: set<PollardNode>, ghost index: map<Hash, PollardNode>)
      returns (left: PollardNode?, right: PollardNode?)
      requires this in nodes && PAllOk(Shot(nodes)) && PIndexOk(Shot(nodes), index)
      ensures if tree.Fork? then
                && left != null && left in nodes && left.tree == tree.left && left.par == this
                && right != null && right in nodes && right.tree == tree.right && right.par == this
              else left == null && right == null
    {
      hide PAllOk, PIndexOk, Shot, UpOk;
      ghost var h := Shot(nodes);
      ShotAt(nodes, this);
      POk(h, this);
      if auntRef == null {
        NoAunt(h, this);
        left, right := leftNiece, rightNiece;
      } else {
        HasAunt(h, this);
        var sibling := Sibling(nodes, index);
        PFamily(h, this);
        ShotAt(nodes, sibling);
        left, right := sibling.leftNiece, sibling.rightNiece;
      }
      if left != null { ShotAt(nodes, left); ShotAt(nodes, right); }
    }

    /** `parent`: the aunt if she is a root, else her sibling, found among the grandparent's
        nieces. */
    method Parent(ghost nodes: set<PollardNode>, ghost index: map<Hash, PollardNode>) returns (r: PollardNode?)
      requires this in nodes && PAllOk(Shot(nodes)) && PIndexOk(Shot(nodes), index)
      ensures r == par && (r != null ==> r in nodes)
    {
      hide PAllOk, PIndexOk, Shot, UpOk, DownOk;
      ghost var h := Shot(nodes);
      ShotAt(nodes, this);
      if auntRef == null {
        NoAunt(h, this);
        return null;
      }
      HasAunt(h, this);
      PFamily(h, this);
      var aunt: PollardNode := auntRef;
      ShotAt(nodes, aunt);
      ShotAt(nodes, par);
      if aunt.auntRef == null {
        NoAunt(h, aunt);
        AuntIsRoot(h, this);
        return aunt;
      }
      HasAunt(h, aunt);
      PFamily(h, aunt);
      AuntIsSibling(h, this);
      var grandparent: PollardNode := aunt.auntRef;
      ShotAt(nodes, grandparent);
      ShotAt(nodes, grandparent.leftNiece);
      PHashUnique(h, index, grandparent.leftNiece, aunt);
      if grandparent.leftNiece.hash == aunt.hash {
        r := grandparent.rightNiece;
      } else {
        r := grandparent.leftNiece;
      }
    }

    /** `should_remember` */
    method ShouldRemember(ghost nodes: set<PollardNode>) returns (r: bool)
      requires this in nodes && RanksOk(Shot(nodes))
      ensures r == Remembers(Shot(nodes), this)
      ensures r <==> exists path :: MarkedPath(Shot(nodes), this, path)
      decreases Rank(Shot(nodes), this)
    {
      hide Shot, Rank, RanksOk, MarkedPath;
      ghost var h := Shot(nodes);
      ShotAt(nodes, this);
      RanksAt(h, this);
      if leftNiece != null && rightNiece != null {
        r := leftNiece.ShouldRemember(nodes);
        if !r { r := rightNiece.ShouldRemember(nodes); }
      } else if leftNiece != null {
        r := leftNiece.ShouldRemember(nodes);
      } else if rightNiece != null {
        r := rightNiece.ShouldRemember(nodes);
      } else {
        r := remember;
      }
      RemembersExact(Shot(nodes), this);
    }
  }

  lemma NoAunt(h: NHeap, x: PollardNode)
    requires PAllOk(h) && x in h && h[x].aunt == null
    ensures h[x].par == null && h[x].sib == null && Holder(h, x) == x
  {
    hide PAllOk, Merkle, DownOk;
    POk(h, x);
  }

  lemma HasAunt(h: NHeap, x: PollardNode)
    requires PAllOk(h) && x in h && h[x].aunt != null
    ensures h[x].par != null && h[x].sib != null && Holder(h, x) == h[x].sib
  {
    hide PAllOk, Merkle, DownOk;
    POk(h, x);
  }

  lemma AuntIsRoot(h: NHeap, x: PollardNode)
    requires PAllOk(h) && x in h && h[x].aunt != null && h[x].aunt in h && h[h[x].aunt].par == null
    ensures h[x].aunt == h[x].par
  {
    hide PAllOk, Merkle, DownOk;
    POk(h, x);
    var p: PollardNode := h[x].par;
    if h[p].par != null { PFamily(h, p); } else { NoParent(h, p); }
  }

  lemma AuntIsSibling(h: NHeap, x: PollardNode)
    requires PAllOk(h) && x in h && h[x].aunt != null && h[x].aunt in h && h[h[x].aunt].par != null
    ensures h[x].par in h && h[h[x].par].sib == h[x].aunt && h[h[x].aunt].sib == h[x].par
  {
    hide PAllOk, Merkle, DownOk;
    POk(h, x);
    var p: PollardNode := h[x].par;
    POk(h, p);
  }

  // ----- remembering -----

  /** Nieces have a smaller parent. */
  ghost function Rank(h: NHeap, x: PollardNode): nat
    requires x in h
  {
    if h[x].par == null || h[x].par !in h then Size(h[x].tree) + 1 else Size(h[h[x].par].tree)
  }

  ghost predicate RanksOk(h: NHeap) {
    forall x :: x in h ==> RankDown(h, x)
  }

  ghost predicate RankDown(h: NHeap, x: PollardNode)
    requires x in h
  {
    && (h[x].left != null ==> h[x].left in h && Rank(h, h[x].left) < Rank(h, x))
    && (h[x].right != null ==> h[x].right in h && Rank(h, h[x].right) < Rank(h, x))
  }

  lemma RanksAt(h: NHeap, x: PollardNode)
    requires RanksOk(h) && x in h
    ensures RankDown(h, x)
  {
    hide RankDown;
  }

  /** Whether one of the nodes below, along the nieces, is marked. */
  ghost function Remembers(h: NHeap, x: PollardNode): bool
    requires x in h && RanksOk(h)
    decreases Rank(h, x)
  {
    RanksAt(h, x);
    if h[x].left == null && h[x].right == null then h[x].remember
    else (h[x].left != null && Remembers(h, h[x].left)) || (h[x].right != null && Remembers(h, h[x].right))
  }

  ghost predicate IsNiece(h: NHeap, x: PollardNode, y: PollardNode)
    requires x in h
  {
    h[x].left == y || h[x].right == y
  }

  /** A way along the nieces from x to a marked node without nieces. */
  ghost predicate MarkedPath(h: NHeap, x: PollardNode, path: seq<PollardNode>) {
    && path != [] && path[0] == x && (forall i :: 0 <= i < |path| ==> path[i] in h)
    && (forall i :: 0 < i < |path| ==> IsNiece(h, path[i - 1], path[i]))
    && var last := path[|path| - 1];
       h[last].left == null && h[last].right == null && h[last].remember
  }

  lemma RemembersExact(h: NHeap, x: PollardNode)
    requires x in h && RanksOk(h)
    ensures Remembers(h, x) <==> exists path :: MarkedPath(h, x, path)
  {
    hide RanksOk, Rank, MarkedPath, Remembers;
    if Remembers(h, x) {
      var path := FindMark(h, x);
    }
    if path :| MarkedPath(h, x, path) { MarkCounts(h, x, path); }
  }

  lemma {:induction false} FindMark(h: NHeap, x: PollardNode) returns (path: seq<PollardNode>)
    requires x in h && RanksOk(h) && Remembers(h, x)
    ensures MarkedPath(h, x, path)
    decreases Rank(h, x)
  {
    hide RanksOk, Rank;
    RanksAt(h, x);
    if h[x].left == null && h[x].right == null {
      path := [x];
    } else {
      var y: PollardNode := if h[x].left != null && Remembers(h, h[x].left) then h[x].left else h[x].right;
      var rest := FindMark(h, y);
      path := [x] + rest;
      forall i | 0 < i < |path| ensures IsNiece(h, path[i - 1], path[i]) {
        if i > 1 { assert path[i - 1] == rest[i - 2] && path[i] == rest[i - 1]; }
      }
    }
  }

  lemma {:induction false} MarkCounts(h: NHeap, x: PollardNode, path: seq<PollardNode>)
    requires x in h && RanksOk(h) && MarkedPath(h, x, path)
    ensures Remembers(h, x)
    decreases |path|
  {
    hide RanksOk, Rank;
    RanksAt(h, x);
    if |path| > 1 {
      assert IsNiece(h, path[1 - 1], path[1]);
      assert MarkedPath(h, path[1], path[1..]) by {
        forall i | 0 < i < |path| - 1 ensures IsNiece(h, path[1..][i - 1], path[1..][i]) {
          assert IsNiece(h, path[i + 1 - 1], path[i + 1]);
        }
      }
      MarkCounts(h, path[1], path[1..]);
    }
  }

  ghost predicate AllMarked(h: NHeap) {
    forall x :: x in h ==> h[x].remember
  }

  /** With every node marked, every node is to be remembered. */
  lemma {:induction false} MarkedRemembers(h: NHeap, x: PollardNode)
    requires x in h && RanksOk(h) && AllMarked(h)
    ensures Remembers(h, x)
    decreases Rank(h, x)
  {
    hide Rank, RanksOk;
    RanksAt(h, x);
    if h[x].left != null {
      MarkedRemembers(h, h[x].left);
    } else if h[x].right != null {
      MarkedRemembers(h, h[x].right);
    }
  }

  lemma NiecesRank(h: NHeap, x: PollardNode)
    requires PAllOk(h) && x in h
    ensures RankDown(h, x)
  {
    hide PAllOk, Merkle;
    POk(h, x);
    if h[x].par != null {
      PFamily(h, x);
      var s: PollardNode := h[x].sib;
      POk(h, s);
      HolderOfSibling(h, x);
    } else {
      NoParent(h, x);
    }
  }

  lemma AllRanks(h: NHeap)
    requires PAllOk(h)
    ensures RanksOk(h)
  {
    hide PAllOk, RankDown;
    forall x | x in h ensures RankDown(h, x) { NiecesRank(h, x); }
  }

  lemma HolderOfSibling(h: NHeap, x: PollardNode)
    requires PAllOk(h) && x in h && h[x].par != null
    ensures h[x].sib in h && Holder(h, h[x].sib) == x
  {
    hide PAllOk, Merkle, DownOk;
    POk(h, x);
  }

  lemma NoParent(h: NHeap, x: PollardNode)
    requires PAllOk(h) && x in h && h[x].par == null
    ensures h[x].aunt == null && h[x].sib == null && Holder(h, x) == x
  {
    hide PAllOk, Merkle, DownOk;
    POk(h, x);
  }
}
