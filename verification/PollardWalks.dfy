/** Going up from a node of a `Pollard` to its root. */
module PollardWalks {
  import opened Bits
  import opened Positions
  import opened Forest
  import opened Slots
  import opened Walks
  import opened NieceHeap
  import opened PollardRows
  import opened SingleProofs

  lemma {:induction false} PSizesBounded(h: NHeap, keys: set<PollardNode>) returns (bound: nat)
    requires keys <= h.Keys
    ensures forall x :: x in keys ==> Size(h[x].tree) <= bound
  {
    if keys == {} {
      bound := 0;
    } else {
      var x :| x in keys;
      var b := PSizesBounded(h, keys - {x});
      bound := if b < Size(h[x].tree) then Size(h[x].tree) else b;
    }
  }

  lemma ChildOf(h: NHeap, x: PollardNode)
    requires PAllOk(h) && x in h && h[x].par != null
    ensures h[x].par in h && h[h[x].par].tree.Fork? && h[x].tree < h[h[x].par].tree
    ensures Size(h[x].tree) < Size(h[h[x].par].tree) && Height(h[x].tree) < Height(h[h[x].par].tree)
  {
    hide PAllOk;
    PFamily(h, x);
  }

  /** Every node lies below the root of some row. */
  lemma {:induction false} BelowSomeRoot(h: NHeap, roots: seq<PollardNode?>, x: PollardNode, bound: nat)
    returns (row: nat)
    requires PAllOk(h) && |roots| == ROWS && Parentless(h, roots, null) && x in h
    requires forall y :: y in h ==> Size(h[y].tree) <= bound
    ensures row < ROWS && roots[row] != null && roots[row] in h
    ensures Height(h[x].tree) <= Height(h[roots[row]].tree)
    decreases bound - Size(h[x].tree)
  {
    hide PAllOk;
    if h[x].par == null {
      row :| 0 <= row < ROWS && roots[row] == x;
    } else {
      ChildOf(h, x);
      row := BelowSomeRoot(h, roots, h[x].par, bound);
    }
  }

  /** A walk down from a node of the forest is at most 61 steps long. */
  lemma PClimbHeight(h: NHeap, roots: seq<PollardNode?>, n: nat, index: map<Hash, PollardNode>, x: PollardNode,
                     ds: seq<bool>)
    requires PForestOk(h, roots, n, index) && n <= MAX_LEAVES && x in h && Walk(h[x].tree, ds) != Nil
    ensures |ds| <= 61
  {
    hide PAllOk, PIndexOk, WellFormed, Rows, TreesFrom, Parentless, AllMarked;
    var bound := PSizesBounded(h, h.Keys);
    var row := BelowSomeRoot(h, roots, x, bound);
    WalkHeight(h[x].tree, ds);
    RowRoot(h, roots, n, 0, row);
    HeightBelow(TreesFrom(h, roots, n, 0), n, RootIndex(n, row));
  }

  /** One step up: hashes tell left from right. */
  lemma PClimbFacts(h: NHeap, roots: seq<PollardNode?>, n: nat, index: map<Hash, PollardNode>, x: PollardNode,
                    left: PollardNode, ds: seq<bool>)
    requires PForestOk(h, roots, n, index) && x in h && h[x].par != null && h[x].par in h && left in h
    requires h[h[x].par].tree.Fork? && h[left].tree == h[h[x].par].tree.left
    ensures Size(h[x].tree) < Size(h[h[x].par].tree)
    ensures Walk(h[h[x].par].tree, [h[left].hash != h[x].hash] + ds) == Walk(h[x].tree, ds)
  {
    hide PIndexOk, WellFormed, PAllOk, Merkle, TreesFrom, Rows, Parentless, AllMarked;
    PFamily(h, x);
    ChildOf(h, x);
    if h[h[x].aunt].left == x {
      PTreeUnique(h, index, left, x);
    } else {
      PTreeUnique(h, index, left, h[x].sib);
    }
    PHashUnique(h, index, left, x);
    assert ([h[left].hash != h[x].hash] + ds)[1..] == ds;
  }

  /** A root sits in the row of its tree. */
  lemma RootOfRow(h: NHeap, roots: seq<PollardNode?>, n: nat, index: map<Hash, PollardNode>, row: nat)
    requires PForestOk(h, roots, n, index) && Fits(n, TreeRows(n)) && row < ROWS && roots[row] != null
    ensures row <= TreeRows(n) && Shr(n, row) % 2 == 1
    ensures roots[row] in h && Sound(TreesFrom(h, roots, n, 0), n, TreeRows(n))
    ensures RootIndex(n, row) < |TreesFrom(h, roots, n, 0)|
    ensures TreesFrom(h, roots, n, 0)[RootIndex(n, row)] == h[roots[row]].tree
  {
    hide PAllOk, PIndexOk, WellFormed, TreesFrom, Parentless, AllMarked, Shr, RootIndex, TreeRows;
    RowRoot(h, roots, n, 0, row);
    CoordBound(row, 0, n, TreeRows(n));
  }

  lemma RootInRow(h: NHeap, roots: seq<PollardNode?>, n: nat, index: map<Hash, PollardNode>, x: PollardNode)
    requires PForestOk(h, roots, n, index) && x in h && h[x].par == null
    ensures |roots| == ROWS && exists row :: 0 <= row < ROWS && roots[row] == x
    ensures forall row :: 0 <= row < ROWS && roots[row] != null ==>
              roots[row] in h && (h[roots[row]].hash == h[x].hash <==> roots[row] == x)
  {
    hide PAllOk, PIndexOk, WellFormed, TreesFrom, Rows, AllMarked;
    forall row | 0 <= row < ROWS && roots[row] != null
      ensures roots[row] in h && (h[roots[row]].hash == h[x].hash <==> roots[row] == x)
    {
      PHashUnique(h, index, roots[row], x);
    }
  }

  /** No other node stands for the subtree at a position, and no other position has the subtree of
      a node: `grab_position` and `get_pos` are inverse to each other. */
  lemma NieceLookupInverse(h: NHeap, roots: seq<PollardNode?>, n: nat, index: map<Hash, PollardNode>, node: PollardNode,
                           pos: nat)
    requires PForestOk(h, roots, n, index) && n <= MAX_LEAVES && node in h
    requires Valid(pos, n, TreeRows(n)) && |TreesFrom(h, roots, n, 0)| == PopCount(n)
    requires At(TreesFrom(h, roots, n, 0), n, TreeRows(n), pos) == h[node].tree
    ensures forall m :: m in h && h[m].tree == At(TreesFrom(h, roots, n, 0), n, TreeRows(n), pos) ==> m == node
    ensures forall q: nat ::
              Valid(q, n, TreeRows(n)) && At(TreesFrom(h, roots, n, 0), n, TreeRows(n), q) == h[node].tree ==> q == pos
  {
    hide PAllOk, PIndexOk, WellFormed, TreesFrom, Rows, AllMarked, Parentless, Valid, At, TreeRows;
    TreeRowsFit(n);
    forall m | m in h && h[m].tree == At(TreesFrom(h, roots, n, 0), n, TreeRows(n), pos) ensures m == node {
      PTreeUnique(h, index, m, node);
    }
    NodeNotNil(h, node);
    forall q: nat | Valid(q, n, TreeRows(n)) && At(TreesFrom(h, roots, n, 0), n, TreeRows(n), q) == h[node].tree
      ensures q == pos
    {
      SlotUnique(TreesFrom(h, roots, n, 0), n, TreeRows(n), q, pos);
    }
  }

  lemma NodeNotNil(h: NHeap, x: PollardNode)
    requires PAllOk(h) && x in h
    ensures h[x].tree != Nil
  {
    hide PAllOk, UpOk;
    POk(h, x);
  }

  // ----- the node of a slot -----

  /** x stands for the slot p; its parent and its sibling for the slots next to it. */
  ghost predicate OnSlot(h: NHeap, trees: seq<Tree>, n: nat, rows: nat, p: nat, x: PollardNode) {
    && |trees| == PopCount(n) && Fits(n, rows) && Valid(p, n, rows)
    && x in h && h[x].tree == At(trees, n, rows, p)
    && if IsRootPosition(p, n, rows) then h[x].par == null
       else
         && Valid(Parent(p, rows), n, rows) && Valid(Sibling(p), n, rows)
         && h[x].par != null && h[x].par in h && h[h[x].par].tree == At(trees, n, rows, Parent(p, rows))
         && h[x].sib != null && h[x].sib in h && h[h[x].sib].tree == At(trees, n, rows, Sibling(p))
  }

  lemma {:induction false} SlotNode(h: NHeap, roots: seq<PollardNode?>, n: nat, index: map<Hash, PollardNode>,
                                    rows: nat, p: nat)
    returns (x: PollardNode)
    requires PForestOk(h, roots, n, index) && Fits(n, rows) && rows < ROWS && Valid(p, n, rows)
    ensures OnSlot(h, TreesFrom(h, roots, n, 0), n, rows, p, x)
    decreases Level(p, n, rows)
  {
    hide PAllOk, PIndexOk, WellFormed, TreesFrom, Rows, AllMarked, Parentless, At, Valid, RowOf, OffOf, IsRootPosition,
      Parent, Sibling, Level, Shr, RootIndex, OnSlot;
    var trees := TreesFrom(h, roots, n, 0);
    Climb(p, n, rows);
    if IsRootPosition(p, n, rows) {
      Decode(p, n, rows);
      RowRoot(h, roots, n, 0, RowOf(p, rows));
      AtRoot(trees, n, rows, p);
      x := roots[RowOf(p, rows)];
      OnRoot(h, trees, n, rows, p, x);
    } else {
      var y := SlotNode(h, roots, n, index, rows, Parent(p, rows));
      OnSlotTree(h, trees, n, rows, Parent(p, rows), y);
      RowsShape(h, roots, n, 0);
      InnerSlot(trees, n, rows, p);
      x := OnChild(h, trees, n, rows, p, y);
    }
  }

  lemma OnSlotTree(h: NHeap, trees: seq<Tree>, n: nat, rows: nat, p: nat, x: PollardNode)
    requires OnSlot(h, trees, n, rows, p, x)
    ensures |trees| == PopCount(n) && Fits(n, rows) && Valid(p, n, rows) && x in h && h[x].tree == At(trees, n, rows, p)
    ensures IsRootPosition(p, n, rows) <==> h[x].par == null
  {
    hide At, Valid, IsRootPosition, Parent, Sibling;
  }

  lemma OnRoot(h: NHeap, trees: seq<Tree>, n: nat, rows: nat, p: nat, x: PollardNode)
    requires |trees| == PopCount(n) && Fits(n, rows) && Valid(p, n, rows) && IsRootPosition(p, n, rows)
    requires x in h && h[x].tree == At(trees, n, rows, p) && h[x].par == null
    ensures OnSlot(h, trees, n, rows, p, x)
  {
    hide At, Valid, IsRootPosition;
  }

  /** In a full forest every slot above the bottom row holds a fork. */
  lemma InnerSlot(trees: seq<Tree>, n: nat, rows: nat, p: nat)
    requires |trees| == PopCount(n) && AllFull(trees, n, 0) && Fits(n, rows) && Valid(p, n, rows)
    requires !IsRootPosition(p, n, rows)
    ensures Valid(Parent(p, rows), n, rows) && At(trees, n, rows, Parent(p, rows)).Fork?
  {
    hide AllFull, RowOf, OffOf, IsRootPosition, Parent, Sibling, Level, Shr, NodeAt;
    Climb(p, n, rows);
    FullNode(trees, n, RowOf(p, rows) + 1, OffOf(p, rows) / 2);
  }

  lemma OnChild(h: NHeap, trees: seq<Tree>, n: nat, rows: nat, p: nat, y: PollardNode) returns (x: PollardNode)
    requires PAllOk(h) && |trees| == PopCount(n) && Fits(n, rows) && Valid(p, n, rows) && !IsRootPosition(p, n, rows)
    requires Valid(Parent(p, rows), n, rows) && y in h && h[y].tree == At(trees, n, rows, Parent(p, rows))
    requires h[y].tree.Fork?
    ensures OnSlot(h, trees, n, rows, p, x)
  {
    hide PAllOk, UpOk, At, Valid, RowOf, OffOf, IsRootPosition, Parent, Sibling, Level, Shr;
    Climb(p, n, rows);
    PairEncode(p, n, rows);
    AtChild(trees, n, rows, p);
    AtChild(trees, n, rows, Sibling(p));
    POk(h, y);
    x := if p % 2 == 0 then h[Holder(h, y)].left else h[Holder(h, y)].right;
  }

  /** A node whose subtree is that of a slot stands for the slot. */
  lemma NodeOnSlot(h: NHeap, roots: seq<PollardNode?>, n: nat, index: map<Hash, PollardNode>, rows: nat, p: nat,
                   x: PollardNode)
    requires PForestOk(h, roots, n, index) && Fits(n, rows) && rows < ROWS && Valid(p, n, rows) && x in h
    requires |TreesFrom(h, roots, n, 0)| == PopCount(n) && h[x].tree == At(TreesFrom(h, roots, n, 0), n, rows, p)
    ensures OnSlot(h, TreesFrom(h, roots, n, 0), n, rows, p, x)
  {
    hide PAllOk, PIndexOk, WellFormed, TreesFrom, Rows, AllMarked, Parentless, At, Valid, OnSlot;
    var y := SlotNode(h, roots, n, index, rows, p);
    OnSlotTree(h, TreesFrom(h, roots, n, 0), n, rows, p, y);
    PTreeUnique(h, index, x, y);
  }

  /** The sibling's hash is on the way up, and the aunt is the parent, if that is a root, or the
      parent's sibling. */
  lemma AuntOnSlot(h: NHeap, roots: seq<PollardNode?>, n: nat, index: map<Hash, PollardNode>, rows: nat, p: nat,
                   x: PollardNode)
    requires PForestOk(h, roots, n, index) && Fits(n, rows) && rows < ROWS
    requires OnSlot(h, TreesFrom(h, roots, n, 0), n, rows, p, x) && h[x].par != null
    ensures |TreesFrom(h, roots, n, 0)| == PopCount(n) && Valid(p, n, rows) && !IsRootPosition(p, n, rows)
    ensures h[x].aunt != null && h[x].aunt in h && h[x].par in h && Valid(Parent(p, rows), n, rows)
    ensures var q := Parent(p, rows);
            if IsRootPosition(q, n, rows) then h[x].aunt == h[x].par && h[h[x].aunt].par == null
            else Valid(Sibling(q), n, rows) && h[h[x].aunt].par != null
                 && h[h[x].aunt].tree == At(TreesFrom(h, roots, n, 0), n, rows, Sibling(q))
                 && h[h[x].par].par != null && h[x].aunt == h[h[x].par].sib
    ensures OnSlot(h, TreesFrom(h, roots, n, 0), n, rows, Parent(p, rows), h[x].par)
  {
    hide PAllOk, PIndexOk, WellFormed, TreesFrom, Rows, AllMarked, Parentless, At, Valid, IsRootPosition, Parent,
      Sibling;
    PFamily(h, x);
    var y: PollardNode := h[x].par;
    NodeOnSlot(h, roots, n, index, rows, Parent(p, rows), y);
    if h[y].par != null { PFamily(h, y); }
  }

  // ----- prove_single -----

  /** `on` stands for an ancestor c of the slot pos (or pos itself) that `current` is, or is the
      sibling of; `hashes` are the siblings' hashes up to c. */
  ghost predicate Ascent(h: NHeap, trees: seq<Tree>, n: nat, rows: nat, pos: nat, c: nat, on: PollardNode,
                         current: PollardNode, hashes: seq<Hash>)
  {
    && OnSlot(h, trees, n, rows, c, on) && Valid(pos, n, rows) && !IsRootPosition(pos, n, rows)
    && (current == on || (h[on].par != null && current == h[on].sib))
    && HashesUp(trees, n, rows, pos)
       == hashes + if IsRootPosition(c, n, rows) then [] else HashesUp(trees, n, rows, Parent(c, rows))
  }

  lemma AscentStart(h: NHeap, trees: seq<Tree>, n: nat, rows: nat, pos: nat, x: PollardNode, hash: Hash)
    requires OnSlot(h, trees, n, rows, pos, x) && !IsRootPosition(pos, n, rows)
    requires |trees| == PopCount(n) && Valid(Sibling(pos), n, rows) && hash == Merkle(At(trees, n, rows, Sibling(pos)))
    ensures Ascent(h, trees, n, rows, pos, pos, x, x, [hash])
  {
    hide At, Valid, IsRootPosition, Parent, Sibling, Merkle, HashesUp;
    HashesUpStep(trees, n, rows, pos);
  }

  lemma AscentIn(h: NHeap, roots: seq<PollardNode?>, n: nat, index: map<Hash, PollardNode>, rows: nat, pos: nat, c: nat,
                 on: PollardNode, current: PollardNode, hashes: seq<Hash>)
    requires PForestOk(h, roots, n, index) && Ascent(h, TreesFrom(h, roots, n, 0), n, rows, pos, c, on, current, hashes)
    ensures on in h && current in h && h[current].aunt == h[on].aunt && Valid(c, n, rows) && h[current].par == h[on].par
  {
    hide PAllOk, PIndexOk, WellFormed, TreesFrom, Rows, AllMarked, Parentless, At, Valid, IsRootPosition, Parent,
      Sibling, HashesUp;
    if h[on].par != null {
      PFamily(h, on);
      PFamily(h, h[on].sib);
    }
  }

  lemma AscentStep(h: NHeap, roots: seq<PollardNode?>, n: nat, index: map<Hash, PollardNode>, rows: nat, pos: nat,
                   c: nat, on: PollardNode, current: PollardNode, hashes: seq<Hash>)
    requires PForestOk(h, roots, n, index) && Fits(n, rows) && rows < ROWS
    requires Ascent(h, TreesFrom(h, roots, n, 0), n, rows, pos, c, on, current, hashes) && on in h && h[on].aunt != null
    ensures Valid(c, n, rows) && !IsRootPosition(c, n, rows) && h[on].par != null && h[on].aunt in h
    ensures var aunt: PollardNode := h[on].aunt;
            var next := if h[aunt].aunt == null then hashes else hashes + [h[aunt].hash];
            Ascent(h, TreesFrom(h, roots, n, 0), n, rows, pos, Parent(c, rows), h[on].par, aunt, next)
    ensures Valid(Parent(c, rows), n, rows) && Level(Parent(c, rows), n, rows) < Level(c, n, rows)
  {
    hide PAllOk, PIndexOk, WellFormed, TreesFrom, Rows, AllMarked, Parentless, At, Valid, IsRootPosition, Parent,
      Sibling, HashesUp, OnSlot, Level, RowOf, OffOf;
    HasAunt(h, on);
    AuntOnSlot(h, roots, n, index, rows, c, on);
    Climb(c, n, rows);
    var aunt: PollardNode := h[on].aunt;
    AuntHash(h, aunt);
    var trees, q := TreesFrom(h, roots, n, 0), Parent(c, rows);
    HashesUpStep(trees, n, rows, q);
    if !IsRootPosition(q, n, rows) {
      var up := HashesUp(trees, n, rows, Parent(q, rows));
      assert hashes + ([h[aunt].hash] + up) == hashes + [h[aunt].hash] + up;
    }
  }

  lemma AuntHash(h: NHeap, x: PollardNode)
    requires PAllOk(h) && x in h
    ensures h[x].hash == Merkle(h[x].tree) && (h[x].aunt == null <==> h[x].par == null)
  {
    hide PAllOk, Merkle, DownOk;
    POk(h, x);
  }

  lemma AscentEnd(h: NHeap, roots: seq<PollardNode?>, n: nat, index: map<Hash, PollardNode>, rows: nat, pos: nat,
                  c: nat, on: PollardNode, current: PollardNode, hashes: seq<Hash>)
    requires PForestOk(h, roots, n, index) && Fits(n, rows)
    requires Ascent(h, TreesFrom(h, roots, n, 0), n, rows, pos, c, on, current, hashes) && on in h && h[on].aunt == null
    ensures |TreesFrom(h, roots, n, 0)| == PopCount(n) && Valid(pos, n, rows)
    ensures hashes == HashesUp(TreesFrom(h, roots, n, 0), n, rows, pos)
  {
    hide PAllOk, PIndexOk, WellFormed, TreesFrom, Rows, AllMarked, Parentless, At, Valid, IsRootPosition, Parent,
      Sibling, HashesUp, OnSlot, Level;
    NoAunt(h, on);
    OnSlotTree(h, TreesFrom(h, roots, n, 0), n, rows, c, on);
  }
}
