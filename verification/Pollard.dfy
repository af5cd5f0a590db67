/** The accumulator that points to nieces (src/pollard/mod.rs), for additions that are remembered. */
module Pollards {
  import opened Bits
  import opened Positions
  import opened Digits
  import opened Offsets
  import opened Forest
  import opened Slots
  import opened Walks
  import opened NieceHeap
  import opened PollardRows
  import opened PollardWalks
  import opened ProofPositions
  import opened ProofEngine
  import opened Blocks
  import opened SingleProofs
  import Stumps

  datatype PollardAddition = PollardAddition(hash: Hash, remember: bool)

  /** Leaves that may be added: new, distinct, and all to be remembered. */
  ghost predicate Addable(adds: seq<PollardAddition>, known: set<Hash>) {
    && (forall i :: 0 <= i < |adds| ==> adds[i].hash.LeafHash? && adds[i].remember && adds[i].hash !in known)
    && (forall i, j :: 0 <= i < j < |adds| ==> adds[i].hash != adds[j].hash)
  }

  function HashesOf(adds: seq<PollardAddition>): (hs: seq<Hash>)
    ensures |hs| == |adds| && forall i :: 0 <= i < |hs| ==> hs[i] == adds[i].hash
  {
    seq(|adds|, i requires 0 <= i < |adds| => adds[i].hash)
  }

  /** `Pollard::detect_offset` on a slot: the row of its root, its depth there, and the low digits
      of its offset. */
  method DetectRootRow(pos: U64, n: nat) returns (rootRow: nat, depth: nat, bits: U64)
    requires n <= MAX_LEAVES && Valid(pos, n, TreeRows(n))
    ensures var rows := TreeRows(n);
            var row, off := RowOf(pos, rows), OffOf(pos, rows);
            && rootRow == RootAbove(n, row, off)
            && depth == RootAbove(n, row, off) - row
            && forall i :: 0 <= i < depth ==> Bit(bits, i) == Bit(off, i)
  {
    hide And, ShiftLeft, LowBits, Shr, Bit, Encode, RowOf, RootIndex, RootAbove, TreeRows, Pow2, OffsetInv;
    TreeRowsFit(n);
    ghost var rows := TreeRows(n);
    Decode(pos, n, rows);
    ghost var row, off := RowOf(pos, rows), OffOf(pos, rows);
    var tr := TreeRows(n);
    var nr := RowOf(pos, tr);
    var biggerTrees := tr;
    var marker: U64 := pos;
    OffsetInit(pos, n, rows, row, off);
    InvRow(pos, n, rows, row, off, marker, tr);
    while And(ShiftLeft(marker, nr), Mask(tr)) >= And(ShiftLeft(1, tr), n)
      invariant row <= tr <= rows && biggerTrees == tr
      invariant OffsetInv(pos, n, rows, row, off, marker, tr)
      decreases tr
    {
      OffsetTest(marker, nr, tr, n);
      OffsetDigit(pos, n, rows, row, off, marker, tr);
      OffsetStep(pos, n, rows, row, off, marker, tr);
      var treeSize := And(ShiftLeft(1, tr), n);
      marker := marker - treeSize;
      biggerTrees := biggerTrees - 1;
      tr := tr - 1;
    }
    OffsetTest(marker, nr, tr, n);
    OffsetDigit(pos, n, rows, row, off, marker, tr);
    OffsetDone(pos, n, rows, row, off, marker, tr);
    rootRow, depth, bits := biggerTrees, tr - nr, marker;
    forall i | 0 <= i < depth ensures Bit(bits, i) == Bit(off, i) {
      MarkerDigit(pos, rows, row, off, marker, tr, n, i);
    }
  }

  lemma MarkerDigit(pos: nat, rows: nat, row: nat, off: nat, marker: nat, tr: nat, n: nat, i: nat)
    requires rows < 62 && row <= rows && off < Pow2(rows - row) && pos == Encode(row, off, rows)
    requires OffsetInv(pos, n, rows, row, off, marker, tr) && i < tr - row
    ensures Bit(marker, i) == Bit(off, i)
  {
    hide Encode, LowBits, Shr, Bit;
    LowBitsBit(marker, pos, tr + 1, i);
    BitEncode(row, off, rows, i);
  }

  /** The nieces of x get x for an aunt. */
  method Adopt(x: PollardNode, ghost nodes: set<PollardNode>)
    requires x in nodes && (x.leftNiece != null ==> x.leftNiece in nodes)
    requires (x.rightNiece != null ==> x.rightNiece in nodes)
    modifies nodes`auntRef
    ensures forall y :: y in nodes ==>
              Shot(nodes)[y] == old(Shot(nodes))[y].(aunt := if Niece(old(Shot(nodes)), y, x) then x
                                                             else old(Shot(nodes))[y].aunt)
  {
    if x.leftNiece != null { x.leftNiece.auntRef := x; }
    if x.rightNiece != null { x.rightNiece.auntRef := x; }
  }

  /** `swap_nieces` */
  method SwapNieces(o: PollardNode, w: PollardNode, ghost nodes: set<PollardNode>)
    requires o in nodes && w in nodes && o != w
    modifies o`leftNiece, o`rightNiece, w`leftNiece, w`rightNiece
    ensures var h := old(Shot(nodes));
            forall y :: y in nodes ==>
              Shot(nodes)[y] == if y == o then h[o].(left := h[w].left, right := h[w].right)
                                else if y == w then h[w].(left := h[o].left, right := h[o].right) else h[y]
  {
    w.leftNiece, o.leftNiece := o.leftNiece, w.leftNiece;
    w.rightNiece, o.rightNiece := o.rightNiece, w.rightNiece;
  }

  ghost predicate Niece(h: NHeap, x: PollardNode, o: PollardNode)
    requires o in h
  {
    x == h[o].left || x == h[o].right
  }

  ghost function SwappedCell(h: NHeap, o: PollardNode, w: PollardNode, x: PollardNode): NieceCell
    requires o in h && w in h && x in h
  {
    h[x].(left := if x == o then h[w].left else if x == w then h[o].left else h[x].left,
          right := if x == o then h[w].right else if x == w then h[o].right else h[x].right,
          aunt := if Niece(h, x, o) then w else if Niece(h, x, w) then o else h[x].aunt)
  }

  /** The two nodes swap their nieces, which get the other one for an aunt. */
  method SwapAndAdopt(o: PollardNode, w: PollardNode, ghost nodes: set<PollardNode>)
    requires o in nodes && w in nodes && o != w
    requires (o.leftNiece != null ==> o.leftNiece in nodes) && (o.rightNiece != null ==> o.rightNiece in nodes)
    requires (w.leftNiece != null ==> w.leftNiece in nodes) && (w.rightNiece != null ==> w.rightNiece in nodes)
    requires forall x :: x in nodes ==> !Niece(Shot(nodes), x, o) || !Niece(Shot(nodes), x, w)
    modifies nodes`auntRef, o`leftNiece, o`rightNiece, w`leftNiece, w`rightNiece
    ensures forall x :: x in nodes ==> Shot(nodes)[x] == SwappedCell(old(Shot(nodes)), o, w, x)
  {
    hide Shot, Niece, SwappedCell;
    ghost var h := Shot(nodes);
    ShotAt(nodes, o);
    ShotAt(nodes, w);
    SwapNieces(o, w, nodes);
    ghost var h1 := Shot(nodes);
    ShotAt(nodes, o);
    ShotAt(nodes, w);
    Adopt(w, nodes);
    ghost var h2 := Shot(nodes);
    ShotAt(nodes, o);
    Adopt(o, nodes);
    forall x | x in nodes ensures Shot(nodes)[x] == SwappedCell(h, o, w, x) {
      SwapSteps(h, h1, h2, Shot(nodes), o, w, x);
    }
  }

  lemma SwapSteps(h: NHeap, h1: NHeap, h2: NHeap, h3: NHeap, o: PollardNode, w: PollardNode, x: PollardNode)
    requires o in h && w in h && x in h && o != w && (!Niece(h, x, o) || !Niece(h, x, w))
    requires o in h1 && w in h1 && x in h1 && o in h2 && x in h2 && x in h3
    requires h1[o] == h[o].(left := h[w].left, right := h[w].right)
    requires h1[w] == h[w].(left := h[o].left, right := h[o].right)
    requires x != o && x != w ==> h1[x] == h[x]
    requires h2[o].left == h1[o].left && h2[o].right == h1[o].right
    requires h2[x] == h1[x].(aunt := if Niece(h1, x, w) then w else h1[x].aunt)
    requires h3[x] == h2[x].(aunt := if Niece(h2, x, o) then o else h2[x].aunt)
    ensures h3[x] == SwappedCell(h, o, w, x)
  {
    hide Niece;
    NieceSwap(h, h1, h2, o, w, x);
  }

  lemma NieceSwap(h: NHeap, h1: NHeap, h2: NHeap, o: PollardNode, w: PollardNode, x: PollardNode)
    requires o in h && w in h && x in h && o in h1 && w in h1 && o in h2 && o != w
    requires h1[o].left == h[w].left && h1[o].right == h[w].right && h1[w].left == h[o].left
    requires h1[w].right == h[o].right
    requires h2[o].left == h1[o].left && h2[o].right == h1[o].right
    ensures Niece(h1, x, w) == Niece(h, x, o) && Niece(h2, x, o) == Niece(h, x, w)
  {
  }

  /** The new root becomes aunt and parent of both. */
  method TieRoots(o: PollardNode, w: PollardNode, r: PollardNode, ghost nodes: set<PollardNode>)
    requires o in nodes && w in nodes && o != w
    modifies o`auntRef, o`par, o`sib, w`auntRef, w`par, w`sib
    ensures forall x :: x in nodes ==>
              Shot(nodes)[x] == if x == o then old(Shot(nodes))[o].(aunt := r, par := r, sib := w)
                                else if x == w then old(Shot(nodes))[w].(aunt := r, par := r, sib := o)
                                else old(Shot(nodes))[x]
  {
    o.auntRef, w.auntRef := r, r;
    o.par, w.par, o.sib, w.sib := r, r, w, o;
  }

  /** Swapped nieces and new aunts: w holds the children of o, o those of w, and the new root r is
      the aunt of both. */
  method Entwine(o: PollardNode, w: PollardNode, r: PollardNode, ghost nodes: set<PollardNode>)
    requires o in nodes && w in nodes && o != w && r !in nodes && o.par == null && w.par == null
    requires PAllOk(Shot(nodes))
    modifies nodes
    ensures forall x :: x in nodes ==> Shot(nodes)[x] == JoinedCell(old(Shot(nodes)), o, w, r, x)
  {
    hide PAllOk, Shot, JoinedCell, SwappedCell;
    ghost var h := Shot(nodes);
    ShotAt(nodes, o);
    ShotAt(nodes, w);
    RootChildren(h, o, w);
    SwapAndAdopt(o, w, nodes);
    TieRoots(o, w, r, nodes);
    forall x | x in nodes ensures Shot(nodes)[x] == JoinedCell(h, o, w, r, x) {
      SwappedJoined(h, o, w, r, x);
    }
  }

  lemma SwappedJoined(h: NHeap, o: PollardNode, w: PollardNode, r: PollardNode, x: PollardNode)
    requires o in h && w in h && x in h && o != w
    ensures JoinedCell(h, o, w, r, x) ==
            if x == o then SwappedCell(h, o, w, o).(aunt := r, par := r, sib := w)
            else if x == w then SwappedCell(h, o, w, w).(aunt := r, par := r, sib := o)
            else SwappedCell(h, o, w, x)
  {
  }

  /** Two roots become the children of a new one. */
  method JoinRoots(o: PollardNode, w: PollardNode, ghost nodes: set<PollardNode>) returns (r: PollardNode)
    requires o in nodes && w in nodes && o != w && o.par == null && w.par == null
    requires PAllOk(Shot(nodes)) && AllMarked(Shot(nodes))
    modifies nodes
    ensures fresh(r) && JoinedTo(old(Shot(nodes)), Shot(nodes + {r}), o, w, r)
  {
    hide PAllOk, RanksOk, AllMarked, Rank, JoinedTo, JoinedCell, Remembers, Shot;
    ghost var h := Shot(nodes);
    ShotAt(nodes, o);
    ShotAt(nodes, w);
    AllRanks(h);
    var remember := o.ShouldRemember(nodes);
    var remember' := w.ShouldRemember(nodes);
    MarkedRemembers(h, o);
    r := new PollardNode(ParentHash(o.hash, w.hash), remember || remember', Fork(o.tree, w.tree));
    Entwine(o, w, r, nodes);
    ghost var h2 := Shot(nodes + {r});
    ShotAt(nodes + {r}, r);
    forall x | x in h ensures h2[x] == JoinedCell(h, o, w, r, x) {
      ShotAt(nodes, x);
      ShotAt(nodes + {r}, x);
    }
    ghost var goal := h2[r := RootCell(h, o, w)];
    MakeJoined(h, goal, o, w, r);
    JoinedOk(h, goal, o, w, r);
    JoinedMarks(h, goal, o, w, r);
    CutRanks(goal, h2, r);
    var keep := o.ShouldRemember(nodes + {r});
    var keep' := w.ShouldRemember(nodes + {r});
    MarkedRemembers(h2, o);
    SetNieces(r, if keep || keep' then o else null, if keep || keep' then w else null, nodes + {r});
  }

  /** `set_niece` */
  method SetNieces(r: PollardNode, left: PollardNode?, right: PollardNode?, ghost nodes: set<PollardNode>)
    requires r in nodes
    modifies r`leftNiece, r`rightNiece
    ensures Shot(nodes) == old(Shot(nodes))[r := old(Shot(nodes))[r].(left := left, right := right)]
  {
    r.leftNiece := left;
    r.rightNiece := right;
  }

  lemma MakeJoined(h: NHeap, h': NHeap, o: PollardNode, w: PollardNode, r: PollardNode)
    requires o in h && w in h && r !in h && h'.Keys == h.Keys + {r} && h'[r] == RootCell(h, o, w)
    requires forall x :: x in h ==> h'[x] == JoinedCell(h, o, w, r, x)
    ensures JoinedTo(h, h', o, w, r)
  {
  }

  /** Without the nieces of the new root every other rank is what it will be. */
  lemma CutRanks(goal: NHeap, h: NHeap, r: PollardNode)
    requires PAllOk(goal) && AllMarked(goal) && r in h && r in goal && h[r] == goal[r].(left := null, right := null)
    requires goal.Keys == h.Keys && forall x :: x in h && x != r ==> h[x] == goal[x]
    ensures RanksOk(h) && AllMarked(h)
  {
    hide PAllOk, Rank;
    AllRanks(goal);
    forall x | x in h ensures RankDown(h, x) {
      RanksAt(goal, x);
      SameRank(goal, h, x);
      if h[x].left != null { SameRank(goal, h, h[x].left); }
      if h[x].right != null { SameRank(goal, h, h[x].right); }
    }
  }

  lemma SameRank(g: NHeap, h: NHeap, x: PollardNode)
    requires g.Keys == h.Keys && x in h && forall y :: y in h ==> h[y].par == g[y].par && h[y].tree == g[y].tree
    ensures Rank(h, x) == Rank(g, x)
  {
  }

  class Pollard {
    const roots: array<PollardNode?>
    var leaves: nat
    var leafMap: map<Hash, PollardNode>
    ghost var nodes: set<PollardNode>

    ghost predicate Valid()
      reads this, roots, nodes
    {
      PForestOk(Shot(nodes), roots[..], leaves, leafMap)
    }

    /** The forest that nieces and aunts encode. */
    ghost function Trees(): (ts: seq<Tree>)
      reads this, roots, nodes
      requires Valid()
      ensures WellFormed(ts, leaves) && |ts| == PopCount(leaves) && AllFull(ts, leaves, 0)
    {
      RowsShape(Shot(nodes), roots[..], leaves, 0);
      TreesFrom(Shot(nodes), roots[..], leaves, 0)
    }

    constructor ()
      ensures Valid() && leaves == 0 && Trees() == [] && fresh(nodes) && fresh(roots)
    {
      roots := new PollardNode?[ROWS](_ => null);
      leaves, leafMap, nodes := 0, map[], {};
      new;
      EmptyRows(Shot(nodes), roots[..], 0);
    }

    /** `add_single` for a leaf that is to be remembered. */
    method AddSingle(hash: Hash, remember: bool)
      requires Valid() && hash.LeafHash? && hash !in leafMap && remember && leaves < MAX_LEAVES
      modifies this, roots, nodes
      ensures Valid() && fresh(nodes - old(nodes))
      ensures leaves == old(leaves) + 1 && leafMap.Keys == old(leafMap).Keys + {hash}
      ensures Trees() == Carry(old(Trees()), old(leaves), Tip(hash.id))
    {
      hide PForestOk, PCarry, Carry, And, Shr, PopCount, WellFormed, TreesFrom, Rows, Scale, Shot, AllFull;
      ghost var goal := Carry(Trees(), leaves, Tip(hash.id));
      PollardLength(Shot(nodes), roots[..], leaves, leafMap);
      GrownWellFormed(Shot(nodes), roots[..], leaves, leafMap, hash.id);
      var newNode := NewLeaf(hash, remember);
      var row := 0;
      ghost var rest := leaves;
      ShrZero(leaves);
      ScaleZero(rest + 1);
      while And(Shr(leaves, row), 1) == 1
        invariant leaves == old(leaves) && leafMap.Keys == old(leafMap).Keys + {hash} && roots.Length == ROWS
        invariant fresh(nodes - old(nodes)) && rest == Shr(leaves, row)
        invariant PCarry(Shot(nodes), roots[..], newNode, leafMap, rest, row, goal)
        invariant Scale(rest + 1, row) == leaves + 1 && row <= ROWS
        decreases rest
      {
        LowBit(Shr(leaves, row));
        ShrStep(leaves, row);
        ScaleNext(rest, row);
        newNode := CarryRow(newNode, row, rest, goal);
        rest := rest / 2;
        row := row + 1;
      }
      LowBit(Shr(leaves, row));
      RowInRange(rest, row, leaves);
      PCarryEnd(Shot(nodes), roots[..], newNode, leafMap, rest, row, goal, leaves + 1);
      roots[row] := newNode;
      leaves := leaves + 1;
    }

    method NewLeaf(hash: Hash, remember: bool) returns (node: PollardNode)
      requires Valid() && hash.LeafHash? && hash !in leafMap && remember && roots.Length == ROWS
      modifies this
      ensures fresh(nodes - old(nodes)) && leaves == old(leaves)
      ensures leafMap.Keys == old(leafMap).Keys + {hash}
      ensures PCarry(Shot(nodes), roots[..], node, leafMap, leaves, 0, Carry(old(Trees()), leaves, Tip(hash.id)))
    {
      hide PForestOk, PCarry, Carry, TreesFrom, WellFormed, AllFull, PopCount;
      ghost var h := Shot(nodes);
      node := new PollardNode(hash, remember, Tip(hash.id));
      PCarryStart(h, roots[..], leaves, leafMap, hash.id, node);
      nodes := nodes + {node};
      assert Shot(nodes) == h[node := LeafCell(hash.id)];
      leafMap := leafMap[hash := node];
    }

    /** One round of the loop: the root of the row and the carried node get a common parent. */
    method CarryRow(top: PollardNode, row: nat, ghost rest: nat, ghost goal: seq<Tree>) returns (node: PollardNode)
      requires roots.Length == ROWS && PCarry(Shot(nodes), roots[..], top, leafMap, rest, row, goal) && rest % 2 == 1
      modifies this`nodes, roots, nodes
      ensures row < ROWS && fresh(nodes - old(nodes))
      ensures PCarry(Shot(nodes), roots[..], node, leafMap, rest / 2, row + 1, goal)
    {
      hide PCarry, Shot, PAllOk, JoinedTo, AllMarked;
      ghost var h, before := Shot(nodes), roots[..];
      PCarryRoot(h, before, top, leafMap, rest, row, goal);
      PCarryMarks(h, before, top, leafMap, rest, row, goal);
      var oldRoot: PollardNode := roots[row];
      ShotAt(nodes, oldRoot);
      ShotAt(nodes, top);
      roots[row] := null;
      assert roots[..] == before[row := null];
      node := JoinRoots(oldRoot, top, nodes);
      PCarryJoin(h, before, top, leafMap, rest, row, goal, oldRoot, node, Shot(nodes + {node}));
      nodes := nodes + {node};
    }

    /** Loop of `grab_position`: from the root to the node whose nieces are the pair looked for. */
    method DescendNieces(pos: U64, top: PollardNode, depth: nat, ghost h: NHeap, ghost trees: seq<Tree>, ghost rw: nat,
                         ghost off: nat)
      returns (node: PollardNode, ghost above: PollardNode)
      requires h == Shot(nodes) && PAllOk(h)
      requires depth > 0 && Holding(h, trees, leaves, rw, off, depth, depth, top, top)
      requires forall i :: 0 <= i < depth ==> Bit(pos, i) == Bit(off, i)
      ensures Holding(h, trees, leaves, rw, off, depth, 1, above, node)
    {
      hide PAllOk, Shr, And, Bit, Shot, Holding;
      node, above := top, top;
      for row := 0 to depth - 1
        invariant Holding(h, trees, leaves, rw, off, depth, depth - row, above, node)
      {
        HoldingStep(h, trees, leaves, rw, off, depth, depth - row, above, node);
        ShotAt(nodes, node);
        LowBit(Shr(pos, depth - row - 1));
        BitIsShrParity(pos, depth - row - 1);
        above := if Bit(off, depth - row - 1) then node.rightNiece else node.leftNiece;
        node := if And(Shr(pos, depth - row - 1), 1) == 1 then node.leftNiece else node.rightNiece;
      }
    }

    /** What `grab_position` promises: the node at a position and its sibling; at a root, the root
        twice. */
    ghost predicate Grabbed(pos: nat, node: PollardNode, sibling: PollardNode)
      reads this, roots, nodes
      requires Valid() && Fits(leaves, TreeRows(leaves)) && Positions.Valid(pos, leaves, TreeRows(leaves))
    {
      && node in nodes && sibling in nodes
      && node.tree == At(Trees(), leaves, TreeRows(leaves), pos)
      && if IsRootPosition(pos, leaves, TreeRows(leaves)) then sibling == node
         else Positions.Valid(Sibling(pos), leaves, TreeRows(leaves))
              && sibling.tree == At(Trees(), leaves, TreeRows(leaves), Sibling(pos))
    }

    /** `grab_position` */
    method GrabPosition(pos: U64) returns (r: Option<(PollardNode, PollardNode)>)
      requires Valid() && leaves <= MAX_LEAVES && Positions.Valid(pos, leaves, TreeRows(leaves))
      ensures Fits(leaves, TreeRows(leaves)) && r.Some? && Grabbed(pos, r.value.0, r.value.1)
    {
      hide PForestOk, PAllOk, PIndexOk, At, NodeAt, Positions.Valid, IsRootPosition, WellFormed, TreeRows, RowOf, OffOf,
        Shr, And, RootAbove, Bit, Shot, Holding, Fits, LowBits, TreesFrom, PopCount, Sibling, AllFull;
      ghost var h, trees, rows := Shot(nodes), Trees(), TreeRows(leaves);
      ghost var rw, off := RowOf(pos, rows), OffOf(pos, rows);
      TreeRowsFit(leaves);
      PositionCoords(pos, leaves, rows);
      var root, depth, bits := DetectRootRow(pos, leaves);
      HoldingStart(h, roots[..], leaves, leafMap, rw, off, rows);
      NodesOk(h, roots[..], leaves, leafMap);
      var node: PollardNode := roots[root];
      ShotAt(nodes, node);
      if depth == 0 {
        HoldingRoot(h, roots[..], leaves, leafMap, pos, node);
        return Some((node, node));
      }
      PositionDigits(pos, leaves, rows, depth);
      ghost var above;
      node, above := DescendNieces(pos, node, depth, h, trees, rw, off);
      HoldingEnd(h, trees, leaves, rows, pos, depth, above, node);
      ShotAt(nodes, node);
      ShotAt(nodes, node.leftNiece);
      ShotAt(nodes, node.rightNiece);
      LowBit(bits);
      BitZeroParity(bits, off);
      if And(bits, 1) == 0 {
        return Some((node.leftNiece, node.rightNiece));
      } else {
        return Some((node.rightNiece, node.leftNiece));
      }
    }

    /** The node stands for the subtree at the position. */
    ghost predicate Located(pos: nat, node: PollardNode)
      reads this, roots, nodes, node
      requires Valid()
    {
      && Positions.Valid(pos, leaves, TreeRows(leaves))
      && At(Trees(), leaves, TreeRows(leaves), pos) == node.tree
    }

    /** `get_pos`: the position of a node. */
    method GetPos(node: PollardNode) returns (r: Option<U64>)
      requires Valid() && leaves <= MAX_LEAVES && node in nodes
      ensures r.Some? && Located(r.value, node)
    {
      hide PForestOk, PAllOk, PIndexOk, Size, Rows, RootPosition, RowOf, OffOf, NodeAt, Bit, LowBits, At,
        Positions.Valid, TreeRows, Shr, RootIndex, Fits, TreesFrom, PopCount, AllFull, Walk, Indicator, WellFormed,
        Shot;
      var top, indicator, rowsToTop;
      ghost var ds;
      top, indicator, rowsToTop, ds := ClimbToRoot(node);
      var row := RootRow(top);
      TreeRowsFit(leaves);
      RootOfRow(Shot(nodes), roots[..], leaves, leafMap, row);
      ShotAt(nodes, top);
      ShotAt(nodes, node);
      NodesOk(Shot(nodes), roots[..], leaves, leafMap);
      NodeNotNil(Shot(nodes), node);
      var pos := DescendTurns(leaves, row, indicator, rowsToTop, Trees(), ds);
      r := Some(pos);
    }

    /** `get_pos` then `grab_position`: back at the same node. */
    method NodeRoundTrip(node: PollardNode) returns (again: PollardNode)
      requires Valid() && leaves <= MAX_LEAVES && node in nodes
      ensures again == node
    {
      hide PForestOk, At, Positions.Valid, TreeRows, TreesFrom, PopCount, WellFormed, Shot, AllFull, IsRootPosition,
        Sibling;
      TreeRowsFit(leaves);
      var pos := GetPos(node);
      PositionWord(pos.value, leaves, TreeRows(leaves));
      var found := GrabPosition(pos.value);
      again := found.value.0;
      ShotAt(nodes, node);
      ShotAt(nodes, again);
      NieceLookupInverse(Shot(nodes), roots[..], leaves, leafMap, node, pos.value);
    }

    /** `grab_position` then `get_pos`: back at the same position. */
    method PositionRoundTrip(pos: U64) returns (again: U64)
      requires Valid() && leaves <= MAX_LEAVES && Positions.Valid(pos, leaves, TreeRows(leaves))
      ensures again == pos
    {
      hide PForestOk, At, Positions.Valid, TreeRows, TreesFrom, PopCount, WellFormed, Shot, AllFull, IsRootPosition,
        Sibling;
      var found := GrabPosition(pos);
      var node := found.value.0;
      var back := GetPos(node);
      again := back.value;
      ShotAt(nodes, node);
      NieceLookupInverse(Shot(nodes), roots[..], leaves, leafMap, node, pos);
    }

    /** First loop of `get_pos`: up to the root, collecting the turns. */
    method ClimbToRoot(start: PollardNode)
      returns (top: PollardNode, indicator: U64, rowsToTop: nat, ghost ds: seq<bool>)
      requires Valid() && leaves <= MAX_LEAVES && start in nodes
      ensures top in nodes && top.par == null
      ensures Walk(top.tree, ds) == start.tree && indicator == Indicator(ds) && rowsToTop == |ds| <= 61
    {
      hide PForestOk, PAllOk, PIndexOk, Size, TreesFrom, PopCount, Walk, Indicator, Or, WellFormed, ShiftLeft, Shot,
        AllFull;
      ghost var h := Shot(nodes);
      ghost var bound := PSizesBounded(h, h.Keys);
      top, indicator, rowsToTop, ds := start, 0, 0, [];
      ShotAt(nodes, top);
      IndicatorEmpty();
      NodesOk(h, roots[..], leaves, leafMap);
      NodeNotNil(h, start);
      assert Walk(start.tree, []) == start.tree by { WalkEmpty(start.tree); }
      PClimbHeight(h, roots[..], leaves, leafMap, top, ds);
      var parent := top.Parent(nodes, leafMap);
      while parent != null
        invariant top in nodes && parent == top.par && (parent != null ==> parent in nodes)
        invariant Walk(top.tree, ds) == start.tree && indicator == Indicator(ds) && rowsToTop == |ds| <= 61
        decreases bound - Size(top.tree)
      {
        var left, right := parent.Children(nodes, leafMap);
        ShotAt(nodes, top);
        ShotAt(nodes, parent);
        ChildOf(h, top);
        ShotAt(nodes, left);
        PClimbFacts(h, roots[..], leaves, leafMap, top, left, ds);
        TurnAdded(ds, left.hash != top.hash);
        ds := [left.hash != top.hash] + ds;
        if left.hash == top.hash {
          indicator := ShiftLeft(indicator, 1);
        } else {
          indicator := ShiftLeft(indicator, 1);
          indicator := Or(indicator, 1);
        }
        rowsToTop := rowsToTop + 1;
        top := parent;
        PClimbHeight(h, roots[..], leaves, leafMap, top, ds);
        parent := top.Parent(nodes, leafMap);
      }
    }

    /** The row of a root. */
    method RootRow(top: PollardNode) returns (rootRow: nat)
      requires Valid() && top in nodes && top.par == null
      ensures rootRow < roots.Length == ROWS && roots[rootRow] == top
    {
      hide PForestOk, Shot, WellFormed, TreesFrom, Rows, AllFull;
      ghost var h := Shot(nodes);
      ShotAt(nodes, top);
      RootInRow(h, roots[..], leaves, leafMap, top);
      rootRow := 0;
      while rootRow < roots.Length
        invariant rootRow <= ROWS && forall i :: 0 <= i < rootRow ==> roots[i] != top
      {
        if roots[rootRow] != null {
          ShotAt(nodes, roots[rootRow]);
          if roots[rootRow].hash == top.hash { return; }
        }
        rootRow := rootRow + 1;
      }
      assert false;
    }

    /** `batch_proof` */
    method BatchProof(targets: seq<Hash>) returns (r: Option<Proof>, ghost positions: seq<U64>)
      requires Valid() && leaves <= MAX_LEAVES
      ensures r.Some? <==> forall i :: 0 <= i < |targets| ==> targets[i] in leafMap
      ensures r.Some? ==> Proves(Trees(), leaves, targets, positions, r.value)
    {
      hide PForestOk, At, Positions.Valid, WellFormed, TreeRows, RowOf, OffOf, LocatedLeaves, ProofSet, AllValid,
        HashesUpTo, Proves, Sorted, IsRootPosition, TreesFrom, PopCount, Rows, AllFull, Shot;
      ghost var trees, rows := Trees(), TreeRows(leaves);
      TreeRowsFit(leaves);
      positions := [];
      var found: seq<U64> := [];
      LocatedNone(trees, leaves, rows);
      for i := 0 to |targets|
        invariant forall k :: 0 <= k < i ==> targets[k] in leafMap
        invariant LocatedLeaves(trees, leaves, rows, targets[..i], found)
      {
        if targets[i] !in leafMap {
          return None, [];
        }
        KnownLeaf(Shot(nodes), roots[..], leaves, leafMap, targets[i]);
        ShotAt(nodes, leafMap[targets[i]]);
        var position := GetPos(leafMap[targets[i]]);
        assert targets[..i + 1] == targets[..i] + [targets[i]];
        LocatedNext(trees, leaves, rows, targets[..i], found, targets[i], position.value);
        found := found + [position.value];
      }
      assert targets[..|targets|] == targets;
      LocatedFacts(trees, leaves, rows, targets, found);
      var needed := GetProofPositions(found, leaves, TreeRows(leaves));
      ProofPositionsValid(found, leaves, rows);
      var hashes: seq<Hash> := [];
      HashesNone(trees, leaves, rows, needed);
      for j := 0 to |needed|
        invariant HashesUpTo(trees, leaves, rows, needed, hashes, j)
      {
        NeededSlot(trees, leaves, rows, found, needed, j);
        PositionWord(needed[j], leaves, rows);
        var hash := GetHash(needed[j]);
        HashesNext(trees, leaves, rows, needed, hashes, j, hash.value);
        hashes := hashes + [hash.value];
      }
      r := Some(Proof(TranslateAll(found, TreeRows(leaves), MAX_FOREST_ROWS), hashes));
      positions := found;
      ProvesAll(trees, leaves, targets, found, needed, r.value);
    }

    /** `get_hash` */
    method GetHash(pos: U64) returns (r: Option<Hash>)
      requires Valid() && leaves <= MAX_LEAVES && Positions.Valid(pos, leaves, TreeRows(leaves))
      ensures r.Some? && r.value == Merkle(At(Trees(), leaves, TreeRows(leaves), pos))
    {
      hide PForestOk, At, Positions.Valid, WellFormed, TreeRows, IsRootPosition, TreesFrom, PopCount, Rows, AllFull,
        Shot;
      TreeRowsFit(leaves);
      var grabbed := GrabPosition(pos);
      ShotAt(nodes, grabbed.value.0);
      NodesOk(Shot(nodes), roots[..], leaves, leafMap);
      AuntHash(Shot(nodes), grabbed.value.0);
      r := Some(grabbed.value.0.hash);
    }

    /** `roots`: smallest tree first. */
    method Roots() returns (hs: seq<Hash>)
      requires Valid() && leaves <= MAX_LEAVES
      ensures |hs| == |Trees()| && forall i :: 0 <= i < |hs| ==> hs[i] == Merkle(Trees()[|hs| - 1 - i])
    {
      hide PForestOk, WellFormed, TreesFrom, PopCount, Rows, AllFull, Shot, Shr, RootIndex;
      ghost var h, trees := Shot(nodes), Trees();
      PollardLength(h, roots[..], leaves, leafMap);
      hs := [];
      ShrZero(leaves);
      for row := 0 to ROWS
        invariant |hs| == PopCount(leaves) - PopCount(Shr(leaves, row))
        invariant forall i :: 0 <= i < |hs| ==> hs[i] == Merkle(trees[|trees| - 1 - i])
      {
        RowHash(h, roots[..], leaves, leafMap, row);
        if roots[row] != null {
          ShotAt(nodes, roots[row]);
          hs := hs + [roots[row].hash];
        }
      }
      MaxLeavesIsPow2();
      Pow2Monotone(62, ROWS);
      ShrVanishes(leaves, ROWS);
      NoBits();
    }

    /** `prove_single`.  A leaf that is itself a root comes with its own hash, every other leaf with
        an honest proof. */
    method ProveSingle(leaf: Hash) returns (r: Option<Proof>)
      requires Valid() && leaves <= MAX_LEAVES
      ensures Fits(leaves, TreeRows(leaves)) && (r.Some? <==> leaf in leafMap)
      ensures r.Some? ==> ProvesOne(Trees(), leaves, leaf, r.value)
    {
      hide PForestOk, At, Positions.Valid, WellFormed, TreeRows, IsRootPosition, TreesFrom, PopCount, Rows, AllFull,
        Shot, ProvesOne, HashesUp;
      TreeRowsFit(leaves);
      if leaf !in leafMap { return None; }
      KnownLeaf(Shot(nodes), roots[..], leaves, leafMap, leaf);
      ShotAt(nodes, leafMap[leaf]);
      var pos := GetPos(leafMap[leaf]);
      var hashes := ProveSingleInner(pos.value);
      r := Some(Proof([pos.value], hashes.value));
      OneProof(Trees(), leaves, leaf, pos.value, hashes.value);
    }

    /** `prove_single_inner` */
    method ProveSingleInner(pos: U64) returns (r: Option<seq<Hash>>)
      requires Valid() && leaves <= MAX_LEAVES && Positions.Valid(pos, leaves, TreeRows(leaves))
      ensures Fits(leaves, TreeRows(leaves)) && r.Some?
      ensures r.value == if IsRootPosition(pos, leaves, TreeRows(leaves))
              then [Merkle(At(Trees(), leaves, TreeRows(leaves), pos))]
                         else HashesUp(Trees(), leaves, TreeRows(leaves), pos)
    {
      hide PForestOk, At, Positions.Valid, WellFormed, TreeRows, IsRootPosition, TreesFrom, PopCount, Rows, AllFull,
        Shot, Ascent, OnSlot, HashesUp, Parent, Sibling, Level, Merkle, PAllOk, PIndexOk;
      ghost var h, trees, rows := Shot(nodes), Trees(), TreeRows(leaves);
      TreeRowsFit(leaves);
      NodesOk(h, roots[..], leaves, leafMap);
      var grabbed := GrabPosition(pos);
      var node, sibling := grabbed.value.0, grabbed.value.1;
      ShotAt(nodes, node);
      ShotAt(nodes, sibling);
      AuntHash(h, sibling);
      NodeOnSlot(h, roots[..], leaves, leafMap, rows, pos, node);
      OnSlotTree(h, trees, leaves, rows, pos, node);
      AuntHash(h, node);
      var proof := [sibling.hash];
      var current := node;
      ghost var c: nat, on: PollardNode := pos, node;
      if !IsRootPosition(pos, leaves, rows) { AscentStart(h, trees, leaves, rows, pos, node, sibling.hash); }
      while current.auntRef != null
        invariant current in nodes && current.auntRef == h[current].aunt && Positions.Valid(c, leaves, rows)
        invariant if IsRootPosition(pos, leaves, rows)
                  then current == node && proof == [Merkle(At(trees, leaves, rows, pos))]
                  else Ascent(h, trees, leaves, rows, pos, c, on, current, proof)
        decreases Level(c, leaves, rows)
      {
        var aunt: PollardNode := current.auntRef;
        AscentIn(h, roots[..], leaves, leafMap, rows, pos, c, on, current, proof);
        AscentStep(h, roots[..], leaves, leafMap, rows, pos, c, on, current, proof);
        ShotAt(nodes, aunt);
        AuntHash(h, aunt);
        if aunt.auntRef != null {
          proof := proof + [aunt.hash];
        }
        current := aunt;
        c, on := Parent(c, rows), h[on].par;
      }
      if !IsRootPosition(pos, leaves, rows) {
        AscentIn(h, roots[..], leaves, leafMap, rows, pos, c, on, current, proof);
        AscentEnd(h, roots[..], leaves, leafMap, rows, pos, c, on, current, proof);
      }
      r := Some(proof);
    }

    /** The additions of `modify`.  The root hashes are what `Stump::add` makes of the old ones. */
    method Add(adds: seq<PollardAddition>)
      requires Valid() && Addable(adds, leafMap.Keys) && leaves + |adds| <= MAX_LEAVES
      modifies this, roots, nodes
      ensures Valid() && fresh(nodes - old(nodes)) && leaves == old(leaves) + |adds|
      ensures LeafKind(HashesOf(adds)) && Trees() == AddAll(old(Trees()), old(leaves), IdsOf(HashesOf(adds)))
      ensures |Hashes(old(Trees()))| == PopCount(old(leaves))
      ensures Hashes(Trees()) == Stumps.AddHashes(Hashes(old(Trees())), old(leaves), HashesOf(adds))
      ensures leafMap.Keys == old(leafMap).Keys + set h | h in HashesOf(adds)
    {
      hide PForestOk, Carry, WellFormed, PopCount, AllFull, TreesFrom, Rows, Shot, AddAll, IdsOf, Stumps.AddHashes;
      ghost var was, hs := Trees(), HashesOf(adds);
      ghost var goal := AddAll(was, leaves, IdsOf(hs));
      PollardLength(Shot(nodes), roots[..], leaves, leafMap);
      assert hs[0..] == hs;
      var i := 0;
      while i < |adds|
        invariant i <= |adds| && Valid() && fresh(nodes - old(nodes)) && leaves == old(leaves) + i
        invariant AddAll(Trees(), leaves, IdsOf(hs[i..])) == goal
        invariant leafMap.Keys == old(leafMap).Keys + set h | h in hs[..i]
      {
        AddNext(Trees(), leaves, hs, i);
        assert hs[i] !in hs[..i];
        AddSingle(adds[i].hash, adds[i].remember);
        assert hs[..i + 1] == hs[..i] + [hs[i]];
        i := i + 1;
      }
      assert hs[..i] == hs;
      AddNone(Trees(), leaves, hs);
      Stumps.AddCommutes(was, old(leaves), IdsOf(hs));
      assert LeafHashes(IdsOf(hs)) == hs;
    }
  }

  lemma {:induction false} EmptyRows(h: NHeap, roots: seq<PollardNode?>, row: nat)
    requires |roots| == ROWS && row <= ROWS && forall i :: 0 <= i < ROWS ==> roots[i] == null
    ensures Rows(h, roots, 0, row) && TreesFrom(h, roots, 0, row) == []
    decreases ROWS - row
  {
    if row < ROWS { EmptyRows(h, roots, row + 1); }
  }

  lemma NoBits()
    ensures PopCount(0) == 0
  {
  }

  lemma RowHash(h: NHeap, roots: seq<PollardNode?>, n: nat, index: map<Hash, PollardNode>, row: nat)
    requires PForestOk(h, roots, n, index) && row < ROWS
    ensures |roots| == ROWS
    ensures PopCount(Shr(n, row)) == PopCount(Shr(n, row + 1)) + if roots[row] == null then 0 else 1
    ensures roots[row] != null ==>
              && roots[row] in h && PopCount(Shr(n, row + 1)) < |TreesFrom(h, roots, n, 0)|
              && h[roots[row]].hash == Merkle(TreesFrom(h, roots, n, 0)[PopCount(Shr(n, row + 1))])
  {
    hide PAllOk, PIndexOk, WellFormed, TreesFrom, Rows, AllMarked, Parentless, Merkle;
    RowRoot(h, roots, n, 0, row);
    ShrStep(n, row);
    if roots[row] != null { AuntHash(h, roots[row]); }
  }

  lemma KnownLeaf(h: NHeap, roots: seq<PollardNode?>, n: nat, index: map<Hash, PollardNode>, target: Hash)
    requires PForestOk(h, roots, n, index) && target in index
    ensures target.LeafHash? && index[target] in h && h[index[target]].tree == Tip(target.id)
  {
    hide PAllOk, WellFormed, TreesFrom, Rows, AllMarked, Parentless;
  }

  lemma PollardLength(h: NHeap, roots: seq<PollardNode?>, n: nat, index: map<Hash, PollardNode>)
    requires PForestOk(h, roots, n, index)
    ensures |roots| == ROWS && |TreesFrom(h, roots, n, 0)| == PopCount(n)
  {
    hide PAllOk, PIndexOk, WellFormed;
  }

  lemma NodesOk(h: NHeap, roots: seq<PollardNode?>, n: nat, index: map<Hash, PollardNode>)
    requires PForestOk(h, roots, n, index)
    ensures PAllOk(h) && PIndexOk(h, index)
  {
    hide PAllOk, PIndexOk, WellFormed;
  }

  lemma PCarryMarks(h: NHeap, roots: seq<PollardNode?>, top: PollardNode, index: map<Hash, PollardNode>,
                    rest: nat, row: nat, goal: seq<Tree>)
    requires PCarry(h, roots, top, index, rest, row, goal)
    ensures AllMarked(h)
  {
    hide PAllOk, PIndexOk, AllMarked, Carry;
  }

  lemma ScaleZero(m: nat)
    ensures Scale(m, 0) == m
  {
  }

  lemma ScaleNext(rest: nat, row: nat)
    requires rest % 2 == 1
    ensures Scale(rest / 2 + 1, row + 1) == Scale(rest + 1, row)
  {
    ScaleShift(rest / 2 + 1, row);
    assert 2 * (rest / 2 + 1) == rest + 1;
  }

  lemma RowInRange(rest: nat, row: nat, leaves: nat)
    requires Scale(rest + 1, row) == leaves + 1 && leaves < MAX_LEAVES
    ensures row < ROWS
  {
    ScaleBound(rest + 1, row);
    MaxLeavesIsPow2();
    if row >= ROWS { Pow2Monotone(62, row); }
  }

  // ----- the new forest is well-formed -----

  lemma GrownWellFormed(h: NHeap, roots: seq<PollardNode?>, n: nat, index: map<Hash, PollardNode>, id: nat)
    requires PForestOk(h, roots, n, index) && LeafHash(id) !in index
    ensures |TreesFrom(h, roots, n, 0)| == PopCount(n)
    ensures WellFormed(Carry(TreesFrom(h, roots, n, 0), n, Tip(id)), n + 1)
  {
    hide PAllOk, PIndexOk, Shape, AllIds, Carry;
    var trees := TreesFrom(h, roots, n, 0);
    if id in AllIds(trees) { LiveLeaf(h, roots, n, index, id); }
    AddWellFormed(trees, n, [id]);
    assert AddAll(trees, n, [id]) == Carry(trees, n, Tip(id)) by { AddOneIs(trees, n, id); }
  }

  /** Every leaf of the forest is in the leaf map. */
  lemma LiveLeaf(h: NHeap, roots: seq<PollardNode?>, n: nat, index: map<Hash, PollardNode>, id: nat)
    requires PForestOk(h, roots, n, index) && id in AllIds(TreesFrom(h, roots, n, 0))
    ensures LeafHash(id) in index
  {
    hide PAllOk, PIndexOk, Shape, AllIds;
    var x := RootWith(h, roots, n, 0, id);
    LeafBelowNode(h, index, x, id);
  }

  lemma {:induction false} RootWith(h: NHeap, roots: seq<PollardNode?>, n: nat, row: nat, id: nat)
    returns (x: PollardNode)
    requires |roots| == ROWS && row <= ROWS && Rows(h, roots, n, row) && id in AllIds(TreesFrom(h, roots, n, row))
    ensures x in h && id in Ids(h[x].tree)
    decreases ROWS - row
  {
    var rest := TreesFrom(h, roots, n / 2, row + 1);
    if n % 2 == 1 {
      AllIdsConcat(rest, [h[roots[row]].tree]);
      assert AllIds([h[roots[row]].tree]) == Ids(h[roots[row]].tree) + AllIds([]);
      if id in Ids(h[roots[row]].tree) {
        x := roots[row];
        return;
      }
    } else {
      assert rest + [] == rest;
    }
    x := RootWith(h, roots, n / 2, row + 1, id);
  }

  lemma {:induction false} LeafBelowNode(h: NHeap, index: map<Hash, PollardNode>, x: PollardNode, id: nat)
    requires PAllOk(h) && PIndexOk(h, index) && x in h && id in Ids(h[x].tree)
    ensures LeafHash(id) in index
    decreases h[x].tree
  {
    hide PAllOk, UpOk;
    POk(h, x);
    if h[x].tree.Fork? {
      var l, r := h[Holder(h, x)].left, h[Holder(h, x)].right;
      if id in Ids(h[l].tree) { LeafBelowNode(h, index, l, id); } else { LeafBelowNode(h, index, r, id); }
    }
  }

  // ----- grab_position -----

  lemma PositionCoords(pos: nat, n: nat, rows: nat)
    requires Positions.Valid(pos, n, rows)
    ensures RowOf(pos, rows) <= rows && 0 <= OffOf(pos, rows) < Shr(n, RowOf(pos, rows))
  {
  }

  /** `above` is the node k rows above the slot (row, off), whose root is `len` rows above it, and
      `holder` holds its children. */
  ghost predicate Holding(h: NHeap, trees: seq<Tree>, n: nat, row: nat, off: nat, len: nat, k: nat,
                          above: PollardNode, holder: PollardNode)
  {
    && |trees| == PopCount(n) && AllFull(trees, n, 0) && off < Shr(n, row)
    && RootAbove(n, row, off) == row + len && k <= len
    && above in h && holder == Holder(h, above) && holder in h
    && Shr(off, k) < Shr(n, row + k)
    && h[above].tree == NodeAt(trees, n, row + k, Shr(off, k))
  }

  lemma HoldingStart(h: NHeap, roots: seq<PollardNode?>, n: nat, index: map<Hash, PollardNode>, row: nat, off: nat,
                     rows: nat)
    requires PForestOk(h, roots, n, index) && Fits(n, rows) && off < Shr(n, row)
    ensures |roots| == ROWS
    ensures var top := RootAbove(n, row, off);
            && top < ROWS && roots[top] != null && roots[top] in h
            && Holding(h, TreesFrom(h, roots, n, 0), n, row, off, top - row, top - row, roots[top], roots[top])
  {
    hide PAllOk, PIndexOk, Shr, RootAbove, WellFormed, NodeAt, RootIndex, TreesFrom, Rows, PopCount, Holder, AllFull,
      Parentless, AllMarked;
    var top := RootAbove(n, row, off);
    var trees := TreesFrom(h, roots, n, 0);
    CoordBound(top, 0, n, rows);
    AboveSlot(n, row, off, top - row);
    RowsShape(h, roots, n, 0);
    RowRoot(h, roots, n, 0, top);
    NodeAtRoot(trees, n, top, Shr(off, top - row));
    NoSibling(h, roots[top]);
  }

  lemma NoSibling(h: NHeap, x: PollardNode)
    requires PAllOk(h) && x in h && h[x].par == null
    ensures Holder(h, x) == x
  {
    hide PAllOk, DownOk;
    POk(h, x);
  }

  lemma HoldingRoot(h: NHeap, roots: seq<PollardNode?>, n: nat, index: map<Hash, PollardNode>, pos: nat,
                    node: PollardNode)
    requires PForestOk(h, roots, n, index) && Fits(n, TreeRows(n)) && Positions.Valid(pos, n, TreeRows(n))
    requires RowOf(pos, TreeRows(n)) <= TreeRows(n) && 0 <= OffOf(pos, TreeRows(n)) < Shr(n, RowOf(pos, TreeRows(n)))
    requires Holding(h, TreesFrom(h, roots, n, 0), n, RowOf(pos, TreeRows(n)), OffOf(pos, TreeRows(n)), 0, 0, node,
             node)
    ensures node in h && |TreesFrom(h, roots, n, 0)| == PopCount(n) && IsRootPosition(pos, n, TreeRows(n))
    ensures h[node].tree == At(TreesFrom(h, roots, n, 0), n, TreeRows(n), pos)
  {
    hide PAllOk, PIndexOk, Shr, RootAbove, WellFormed, NodeAt, RowOf, OffOf, TreeRows, IsRootPosition, AllFull, Parent,
      Sibling, Level, Rows, TreesFrom, AllMarked, Parentless, Holder;
    var rows := TreeRows(n);
    Climb(pos, n, rows);
    AboveSlot(n, RowOf(pos, rows), OffOf(pos, rows), 0);
    ShrZero(OffOf(pos, rows));
  }

  /** The subtree k rows up is a fork of the slot's ancestor one row down and its sibling. */
  lemma ForkBelow(trees: seq<Tree>, n: nat, row: nat, off: nat, k: nat)
    requires |trees| == PopCount(n) && AllFull(trees, n, 0) && off < Shr(n, row) && k > 0
    requires row + k <= RootAbove(n, row, off)
    ensures Shr(off, k) < Shr(n, row + k) && Shr(off, k - 1) < Shr(n, row + k - 1)
    ensures Twin(Shr(off, k - 1)) < Shr(n, row + k - 1)
    ensures var up := NodeAt(trees, n, row + k, Shr(off, k));
            && up.Fork?
            && NodeAt(trees, n, row + k - 1, Shr(off, k - 1)) == (if Bit(off, k - 1) then up.right else up.left)
            && NodeAt(trees, n, row + k - 1, Twin(Shr(off, k - 1))) == if Bit(off, k - 1) then up.left else up.right
  {
    hide Shr, RootAbove, NodeAt, Bit, AllFull, PopCount;
    var c := Shr(off, k - 1);
    AboveSlot(n, row, off, k - 1);
    AboveSlot(n, row, off, k);
    ShrStep(off, k - 1);
    BitIsShrParity(off, k - 1);
    ShrStep(n, row + k - 1);
    FullNode(trees, n, row + k, Shr(off, k));
    NodeAtChild(trees, n, row + k - 1, c);
    NodeAtChild(trees, n, row + k - 1, Twin(c));
  }

  /** The holder's nieces are the two nodes one row down, each other's siblings. */
  lemma HoldingStep(h: NHeap, trees: seq<Tree>, n: nat, row: nat, off: nat, len: nat, k: nat,
                    above: PollardNode, holder: PollardNode)
    requires PAllOk(h) && k > 0 && Holding(h, trees, n, row, off, len, k, above, holder)
    ensures holder in h && h[holder].left != null && h[holder].left in h && h[holder].right != null
    ensures h[holder].right in h
    ensures var l, r := h[holder].left, h[holder].right;
            if Bit(off, k - 1) then Holding(h, trees, n, row, off, len, k - 1, r, l)
            else Holding(h, trees, n, row, off, len, k - 1, l, r)
  {
    hide PAllOk, Shr, RootAbove, NodeAt, Bit, AllFull, PopCount, Holder;
    ForkBelow(trees, n, row, off, k);
    HolderOfChild(h, above);
  }

  lemma HolderOfChild(h: NHeap, x: PollardNode)
    requires PAllOk(h) && x in h && h[x].tree.Fork?
    ensures Holder(h, x) in h
    ensures var l, r := h[Holder(h, x)].left, h[Holder(h, x)].right;
            && l != null && l in h && r != null && r in h && Holder(h, l) == r && Holder(h, r) == l
            && h[l].tree == h[x].tree.left && h[r].tree == h[x].tree.right
  {
    hide PAllOk, UpOk;
    POk(h, x);
  }

  lemma HoldingEnd(h: NHeap, trees: seq<Tree>, n: nat, rows: nat, pos: nat, len: nat, above: PollardNode,
                   holder: PollardNode)
    requires PAllOk(h) && Fits(n, rows) && Positions.Valid(pos, n, rows) && len > 0 && |trees| == PopCount(n)
    requires RowOf(pos, rows) <= rows && 0 <= OffOf(pos, rows) < Shr(n, RowOf(pos, rows))
    requires Holding(h, trees, n, RowOf(pos, rows), OffOf(pos, rows), len, 1, above, holder)
    ensures holder in h && h[holder].left != null && h[holder].left in h && h[holder].right != null
    ensures h[holder].right in h
    ensures !IsRootPosition(pos, n, rows) && Positions.Valid(Sibling(pos), n, rows)
    ensures var l, r := h[holder].left, h[holder].right;
            if Bit(OffOf(pos, rows), 0)
            then h[r].tree == At(trees, n, rows, pos) && h[l].tree == At(trees, n, rows, Sibling(pos))
            else h[l].tree == At(trees, n, rows, pos) && h[r].tree == At(trees, n, rows, Sibling(pos))
  {
    hide PAllOk, Shr, RootAbove, NodeAt, Bit, AllFull, RowOf, OffOf, IsRootPosition, Sibling, PopCount, Parent, Level,
      Holder;
    Climb(pos, n, rows);
    AboveSlot(n, RowOf(pos, rows), OffOf(pos, rows), 0);
    ShrZero(OffOf(pos, rows));
    ForkBelow(trees, n, RowOf(pos, rows), OffOf(pos, rows), 1);
    HolderOfChild(h, above);
  }

  /** Below its root, the digits of a position are those of its offset. */
  lemma PositionDigit(pos: nat, n: nat, rows: nat, i: nat)
    requires Fits(n, rows) && Positions.Valid(pos, n, rows)
    requires RowOf(pos, rows) <= rows && 0 <= OffOf(pos, rows) < Shr(n, RowOf(pos, rows))
    requires RowOf(pos, rows) + i < RootAbove(n, RowOf(pos, rows), OffOf(pos, rows))
    ensures Bit(pos, i) == Bit(OffOf(pos, rows), i)
  {
    hide RowOf, OffOf, Shr, RootAbove, Bit, Encode;
    Decode(pos, n, rows);
    var row, off := RowOf(pos, rows), OffOf(pos, rows);
    CoordBound(RootAbove(n, row, off), 0, n, rows);
    BitEncode(row, off, rows, i);
  }

  lemma PositionDigits(pos: nat, n: nat, rows: nat, depth: nat)
    requires Fits(n, rows) && Positions.Valid(pos, n, rows)
    requires RowOf(pos, rows) <= rows && 0 <= OffOf(pos, rows) < Shr(n, RowOf(pos, rows))
    requires depth == RootAbove(n, RowOf(pos, rows), OffOf(pos, rows)) - RowOf(pos, rows)
    ensures forall i :: 0 <= i < depth ==> Bit(pos, i) == Bit(OffOf(pos, rows), i)
  {
    hide RowOf, OffOf, Shr, RootAbove, Bit, Positions.Valid;
    forall i | 0 <= i < depth ensures Bit(pos, i) == Bit(OffOf(pos, rows), i) { PositionDigit(pos, n, rows, i); }
  }

  lemma BitZeroParity(bits: nat, off: nat)
    ensures Bit(bits, 0) == (bits % 2 == 1)
  {
  }
}
