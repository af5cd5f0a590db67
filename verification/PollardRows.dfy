/** The roots of a `Pollard`, one for each row, and the forest that they stand for. */
module PollardRows {
  import opened Bits
  import opened Positions
  import opened Forest
  import opened NieceHeap

  const ROWS: nat := 64

  /** A full binary tree of height `row`. */
  predicate Full(t: Tree, row: nat) {
    if row == 0 then t.Tip? else t.Fork? && Full(t.left, row - 1) && Full(t.right, row - 1)
  }

  /** From `row` up, there is a root exactly for every set bit of n, and it holds a full tree. */
  ghost predicate Rows(h: NHeap, roots: seq<PollardNode?>, n: nat, row: nat)
    requires |roots| == ROWS && row <= ROWS
    decreases ROWS - row
  {
    if row == ROWS then n == 0
    else
      && (if n % 2 == 1 then
            roots[row] != null && roots[row] in h && h[roots[row]].par == null && Full(h[roots[row]].tree, row)
          else roots[row] == null)
      && Rows(h, roots, n / 2, row + 1)
  }

  /** The root trees, largest first. */
  ghost function TreesFrom(h: NHeap, roots: seq<PollardNode?>, n: nat, row: nat): (ts: seq<Tree>)
    requires |roots| == ROWS && row <= ROWS && Rows(h, roots, n, row)
    ensures |ts| == PopCount(n)
    decreases ROWS - row
  {
    if row == ROWS then []
    else TreesFrom(h, roots, n / 2, row + 1) + if n % 2 == 1 then [h[roots[row]].tree] else []
  }

  /** Every tree of a row is full. */
  predicate AllFull(trees: seq<Tree>, n: nat, row: nat)
    requires |trees| == PopCount(n)
    decreases n
  {
    n == 0 || (if n % 2 == 0 then AllFull(trees, n / 2, row + 1)
               else Full(trees[|trees| - 1], row) && AllFull(trees[..|trees| - 1], n / 2, row + 1))
  }

  lemma {:induction false} FullProper(t: Tree, row: nat)
    requires Full(t, row)
    ensures Proper(t) && Height(t) == row
  {
    if row > 0 {
      FullProper(t.left, row - 1);
      FullProper(t.right, row - 1);
    }
  }

  lemma {:induction false} RowsShape(h: NHeap, roots: seq<PollardNode?>, n: nat, row: nat)
    requires |roots| == ROWS && row <= ROWS && Rows(h, roots, n, row)
    ensures AllFull(TreesFrom(h, roots, n, row), n, row) && Shape(TreesFrom(h, roots, n, row), n, row)
    decreases ROWS - row
  {
    if row < ROWS {
      var rest := TreesFrom(h, roots, n / 2, row + 1);
      var all := TreesFrom(h, roots, n, row);
      RowsShape(h, roots, n / 2, row + 1);
      if n % 2 == 1 {
        FullProper(h[roots[row]].tree, row);
        assert all[..|all| - 1] == rest;
      } else {
        assert all == rest;
        if n == 0 { NoRows(h, roots, row); }
      }
    }
  }

  lemma {:induction false} NoRows(h: NHeap, roots: seq<PollardNode?>, row: nat)
    requires |roots| == ROWS && row <= ROWS && Rows(h, roots, 0, row)
    ensures TreesFrom(h, roots, 0, row) == []
    decreases ROWS - row
  {
    if row < ROWS { NoRows(h, roots, row + 1); }
  }

  /** The root of a row is the tree at that row's index. */
  lemma {:induction false} RowRoot(h: NHeap, roots: seq<PollardNode?>, n: nat, base: nat, k: nat)
    requires |roots| == ROWS && base + k < ROWS && Rows(h, roots, n, base)
    ensures Shr(n, k) % 2 == 1 <==> roots[base + k] != null
    ensures Shr(n, k) % 2 == 1 ==>
              && roots[base + k] in h && h[roots[base + k]].par == null && RootIndex(n, k) < PopCount(n)
              && TreesFrom(h, roots, n, base)[RootIndex(n, k)] == h[roots[base + k]].tree
    decreases k
  {
    RootIndexBound(n, k);
    if k > 0 {
      RowRoot(h, roots, n / 2, base + 1, k - 1);
      assert Shr(n, k) == Shr(n / 2, k - 1) && RootIndex(n, k) == RootIndex(n / 2, k - 1);
    } else {
      ShrZero(n);
      assert RootIndex(n, 0) == PopCount(n / 2);
    }
  }

  /** Only the roots from `row` up matter, and of these only tree and parent. */
  lemma {:induction false} RowsKept(h: NHeap, roots: seq<PollardNode?>, h': NHeap, roots': seq<PollardNode?>, n: nat,
                                    row: nat)
    requires |roots| == |roots'| == ROWS && row <= ROWS && Rows(h, roots, n, row)
    requires forall i :: row <= i < ROWS ==> roots'[i] == roots[i]
    requires forall i :: row <= i < ROWS && roots[i] != null ==>
               && roots[i] in h && roots[i] in h'
               && h'[roots[i]].tree == h[roots[i]].tree && h'[roots[i]].par == h[roots[i]].par
    ensures Rows(h', roots', n, row) && TreesFrom(h', roots', n, row) == TreesFrom(h, roots, n, row)
    decreases ROWS - row
  {
    if row < ROWS { RowsKept(h, roots, h', roots', n / 2, row + 1); }
  }

  /** m shifted up by `row` digits. */
  function Scale(m: nat, row: nat): nat {
    if row == 0 then m else 2 * Scale(m, row - 1)
  }

  lemma {:induction false} ScaleShift(m: nat, row: nat)
    ensures Scale(2 * m, row) == Scale(m, row + 1)
  {
    if row > 0 { ScaleShift(m, row - 1); }
  }

  lemma {:induction false} ScaleBound(m: nat, row: nat)
    requires m > 0
    ensures Scale(m, row) >= Pow2(row)
  {
    if row > 0 { ScaleBound(m, row - 1); }
  }

  lemma ScaleStep(m: nat, row: nat)
    ensures row == 0 ==> Scale(m, row) == m
    ensures row > 0 ==> Scale(m, row) / 2 == Scale(m, row - 1) && Scale(m, row) % 2 == 0
  {
  }

  /** Empty rows below. */
  lemma {:induction false} RowsDown(h: NHeap, roots: seq<PollardNode?>, m: nat, row: nat, base: nat)
    requires |roots| == ROWS && base + row <= ROWS && Rows(h, roots, m, base + row)
    requires forall i :: base <= i < base + row ==> roots[i] == null
    ensures Rows(h, roots, Scale(m, row), base)
    ensures TreesFrom(h, roots, Scale(m, row), base) == TreesFrom(h, roots, m, base + row)
    decreases row
  {
    hide Scale;
    ScaleStep(m, row);
    if row > 0 { RowsDown(h, roots, m, row - 1, base + 1); }
  }

  // ----- full forests have no holes -----

  lemma {:induction false} FullAt(trees: seq<Tree>, n: nat, base: nat, row: nat)
    requires |trees| == PopCount(n) && AllFull(trees, n, base) && Shr(n, row) % 2 == 1
    ensures RootIndex(n, row) < |trees| && Full(trees[RootIndex(n, row)], base + row)
    decreases row
  {
    RootIndexBound(n, row);
    if row > 0 {
      FullAt(if n % 2 == 0 then trees else trees[..|trees| - 1], n / 2, base + 1, row - 1);
    } else {
      ShrZero(n);
    }
  }

  lemma {:induction false} FullNode(trees: seq<Tree>, n: nat, row: nat, off: nat)
    requires |trees| == PopCount(n) && AllFull(trees, n, 0) && off < Shr(n, row)
    ensures Full(NodeAt(trees, n, row, off), row)
    decreases Shr(n, row)
  {
    hide NodeAt;
    ShrStep(n, row);
    if RootCoord(row, off, n) {
      FullAt(trees, n, 0, row);
      NodeAtRoot(trees, n, row, off);
    } else {
      FullNode(trees, n, row + 1, off / 2);
      NodeAtChild(trees, n, row, off);
    }
  }

  // ----- the carry -----

  /** Parentless nodes are the roots, and `top` if there is one; no node is two roots. */
  ghost predicate Parentless(h: NHeap, roots: seq<PollardNode?>, top: PollardNode?)
    requires |roots| == ROWS
  {
    && (forall x :: x in h && h[x].par == null ==> x in roots || x == top)
    && (forall i, j :: 0 <= i < j < ROWS && roots[i] != null ==> roots[i] != roots[j])
    && (top != null ==> top !in roots)
    && (forall i :: 0 <= i < ROWS && roots[i] != null ==> roots[i] in h && h[roots[i]].par == null)
  }

  ghost predicate PForestOk(h: NHeap, roots: seq<PollardNode?>, n: nat, index: map<Hash, PollardNode>) {
    && |roots| == ROWS
    && PAllOk(h) && PIndexOk(h, index) && AllMarked(h) && Rows(h, roots, n, 0) && Parentless(h, roots, null)
    && WellFormed(TreesFrom(h, roots, n, 0), n)
  }

  /** `top`, a full tree of height `row`, is carried into the rows from `row` up, which stand for
      the bits `rest`; the result is to be `goal`. */
  ghost predicate PCarry(h: NHeap, roots: seq<PollardNode?>, top: PollardNode, index: map<Hash, PollardNode>,
                         rest: nat, row: nat, goal: seq<Tree>) {
    && |roots| == ROWS && row <= ROWS
    && PAllOk(h) && PIndexOk(h, index) && AllMarked(h) && Rows(h, roots, rest, row)
    && (forall i :: 0 <= i < row ==> roots[i] == null)
    && Parentless(h, roots, top)
    && top in h && h[top].par == null && Full(h[top].tree, row)
    && Carry(TreesFrom(h, roots, rest, row), rest, h[top].tree) == goal
  }

  lemma PCarryStart(h: NHeap, roots: seq<PollardNode?>, n: nat, index: map<Hash, PollardNode>, id: nat,
                    node: PollardNode)
    requires PForestOk(h, roots, n, index) && node !in h && LeafHash(id) !in index
    ensures |TreesFrom(h, roots, n, 0)| == PopCount(n)
    ensures PCarry(h[node := LeafCell(id)], roots, node, index[LeafHash(id) := node], n, 0,
                   Carry(TreesFrom(h, roots, n, 0), n, Tip(id)))
  {
    hide PAllOk, PIndexOk, WellFormed, Parentless, Rows, TreesFrom, AllMarked, Carry;
    var h' := h[node := LeafCell(id)];
    PLeafOk(h, node, id);
    PIndexAdd(h, index, node, id);
    StartKept(h, roots, n, node, id);
  }

  lemma StartKept(h: NHeap, roots: seq<PollardNode?>, n: nat, node: PollardNode, id: nat)
    requires |roots| == ROWS && Rows(h, roots, n, 0) && Parentless(h, roots, null) && AllMarked(h) && node !in h
    ensures var h' := h[node := LeafCell(id)];
            && Rows(h', roots, n, 0) && TreesFrom(h', roots, n, 0) == TreesFrom(h, roots, n, 0)
            && Parentless(h', roots, node) && AllMarked(h')
  {
    hide Rows, TreesFrom;
    var h' := h[node := LeafCell(id)];
    forall i | 0 <= i < ROWS && roots[i] != null ensures roots[i] in h && roots[i] != node {}
    RowsKept(h, roots, h', roots, n, 0);
    assert node !in roots;
  }

  lemma PCarryRoot(h: NHeap, roots: seq<PollardNode?>, top: PollardNode, index: map<Hash, PollardNode>,
                   rest: nat, row: nat, goal: seq<Tree>)
    requires PCarry(h, roots, top, index, rest, row, goal) && rest % 2 == 1
    ensures row < ROWS && roots[row] != null && roots[row] in h && top in h && roots[row] != top
    ensures h[roots[row]].par == null && h[top].par == null && PAllOk(h)
  {
    hide PAllOk, PIndexOk, Carry;
  }

  /** One round of the carry. */
  lemma PCarryJoin(h: NHeap, roots: seq<PollardNode?>, top: PollardNode, index: map<Hash, PollardNode>,
                   rest: nat, row: nat, goal: seq<Tree>, o: PollardNode, r: PollardNode, h': NHeap)
    requires PCarry(h, roots, top, index, rest, row, goal) && rest % 2 == 1 && row < ROWS && roots[row] == o
    requires JoinedTo(h, h', o, top, r)
    ensures PCarry(h', roots[row := null], r, index, rest / 2, row + 1, goal)
  {
    hide PAllOk, PIndexOk, JoinedTo, UpOk, DownOk, Parentless, AllMarked, WellFormed, TreesFrom, Carry, Rows, PopCount;
    PCarryRoot(h, roots, top, index, rest, row, goal);
    TreesOdd(h, roots, rest, row);
    JoinedOk(h, h', o, top, r);
    JoinedIndex(h, h', o, top, r, index);
    JoinedMarks(h, h', o, top, r);
    JoinedTrees(h, h', o, top, r);
    JoinedRows(h, h', roots, o, top, r, rest / 2, row);
    JoinedParentless(h, h', roots, o, top, r, row);
    CarryStep(TreesFrom(h, roots, rest / 2, row + 1), rest, h[o].tree, h[top].tree);
  }

  /** The tree of an occupied row comes after those of the rows above it. */
  lemma TreesOdd(h: NHeap, roots: seq<PollardNode?>, n: nat, row: nat)
    requires |roots| == ROWS && row < ROWS && Rows(h, roots, n, row) && n % 2 == 1
    ensures roots[row] in h && Full(h[roots[row]].tree, row)
    ensures Rows(h, roots, n / 2, row + 1)
    ensures TreesFrom(h, roots, n, row) == TreesFrom(h, roots, n / 2, row + 1) + [h[roots[row]].tree]
  {
  }

  lemma CarryStep(trees: seq<Tree>, n: nat, last: Tree, t: Tree)
    requires n % 2 == 1 && |trees| == PopCount(n / 2)
    ensures |trees + [last]| == PopCount(n)
    ensures Carry(trees + [last], n, t) == Carry(trees, n / 2, Join(last, t))
  {
    assert (trees + [last])[..|trees|] == trees;
  }

  lemma JoinedMarks(h: NHeap, h': NHeap, o: PollardNode, w: PollardNode, r: PollardNode)
    requires AllMarked(h) && JoinedTo(h, h', o, w, r)
    ensures AllMarked(h')
  {
  }

  lemma JoinedRows(h: NHeap, h': NHeap, roots: seq<PollardNode?>, o: PollardNode, w: PollardNode, r: PollardNode,
                   n: nat, row: nat)
    requires |roots| == ROWS && row < ROWS && roots[row] == o && Parentless(h, roots, w) && Rows(h, roots, n, row + 1)
    requires h.Keys <= h'.Keys && forall x :: x in h ==> h'[x].tree == h[x].tree
    requires forall x :: x in h && x != o && x != w ==> h'[x].par == h[x].par
    ensures Rows(h', roots[row := null], n, row + 1)
    ensures TreesFrom(h', roots[row := null], n, row + 1) == TreesFrom(h, roots, n, row + 1)
  {
    hide Rows, TreesFrom;
    forall i | row + 1 <= i < ROWS && roots[i] != null ensures roots[i] in h && roots[i] != o && roots[i] != w {
      assert roots[i] in roots;
    }
    RowsKept(h, roots, h', roots[row := null], n, row + 1);
  }

  lemma JoinedParentless(h: NHeap, h': NHeap, roots: seq<PollardNode?>, o: PollardNode, w: PollardNode, r: PollardNode,
                         row: nat)
    requires |roots| == ROWS && row < ROWS && roots[row] == o && Parentless(h, roots, w) && o in h && w in h && r !in h
    requires h'.Keys == h.Keys + {r} && h'[r].par == null
    requires forall x :: x in h ==> h'[x].par == if x == o || x == w then r else h[x].par
    ensures Parentless(h', roots[row := null], r)
  {
    var next := roots[row := null];
    forall x | x in h' && h'[x].par == null ensures x in next || x == r {
      if x != r {
        var i :| 0 <= i < ROWS && roots[i] == x;
        assert next[i] == x;
      }
    }
    forall i | 0 <= i < ROWS && next[i] != null ensures next[i] in h' && h'[next[i]].par == null {
      assert next[i] == roots[i] && roots[i] != o && roots[i] in roots;
    }
    assert r !in next;
  }

  /** The carry ends in an empty row. */
  lemma PCarryEnd(h: NHeap, roots: seq<PollardNode?>, top: PollardNode, index: map<Hash, PollardNode>,
                  rest: nat, row: nat, goal: seq<Tree>, n: nat)
    requires PCarry(h, roots, top, index, rest, row, goal) && rest % 2 == 0 && Scale(rest + 1, row) == n
    requires row < ROWS && WellFormed(goal, n)
    ensures PForestOk(h, roots[row := top], n, index) && TreesFrom(h, roots[row := top], n, 0) == goal
  {
    hide PAllOk, PIndexOk, WellFormed, Parentless, Rows, TreesFrom, AllMarked, Scale, Full;
    EndRows(h, roots, top, rest, row);
    RowsDown(h, roots[row := top], rest + 1, row, 0);
    EndParentless(h, roots, top, row);
  }

  lemma EndRows(h: NHeap, roots: seq<PollardNode?>, top: PollardNode, rest: nat, row: nat)
    requires |roots| == ROWS && row < ROWS && Rows(h, roots, rest, row) && rest % 2 == 0
    requires top in h && h[top].par == null && Full(h[top].tree, row) && Parentless(h, roots, top)
    ensures roots[row] == null && Rows(h, roots[row := top], rest + 1, row)
    ensures TreesFrom(h, roots[row := top], rest + 1, row) == TreesFrom(h, roots, rest, row) + [h[top].tree]
  {
    var next := roots[row := top];
    RowsKept(h, roots, h, next, rest / 2, row + 1);
    assert (rest + 1) / 2 == rest / 2;
  }

  lemma EndParentless(h: NHeap, roots: seq<PollardNode?>, top: PollardNode, row: nat)
    requires |roots| == ROWS && row < ROWS && roots[row] == null && Parentless(h, roots, top) && top in h
    requires h[top].par == null
    ensures Parentless(h, roots[row := top], null)
  {
    var next := roots[row := top];
    forall x | x in h && h[x].par == null ensures x in next {
      if x == top {
        assert next[row] == x;
      } else {
        var i :| 0 <= i < ROWS && roots[i] == x;
        assert next[i] == x;
      }
    }
    forall i, j | 0 <= i < j < ROWS && next[i] != null ensures next[i] != next[j] {
      assert roots[i] in roots && roots[j] in roots;
    }
  }
}
