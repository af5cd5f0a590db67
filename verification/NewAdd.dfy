/** What `Stump::add` reports about a block's additions: the subtrees that the new leaves complete, and
    the old roots merged over, each at its slot in the grown forest. */
module NewAdds {
  import opened Bits
  import opened Positions
  import opened Forest
  import opened ProofPositions
  import opened MergeLoop
  import opened Moves
  import opened Growth
  import opened HolesFilled
  import opened Stumps

  /** A node that one addition enters: a slot it touches, with its hash in the forest afterwards.  In
      a forest whose empty roots are filled by the leaves of `gone`, the fillers are taken out again:
      `dels` are the slots whose siblings rise. */
  ghost predicate TouchedNode(trees: seq<Tree>, n: nat, t: Tree, base: nat, rows: nat, gone: set<nat>, dels: set<nat>,
                              m: nat, row: nat, off: nat, node: Node<Hash>)
    requires |trees| == PopCount(n) && Fits(m, rows)
  {
    CarryLength(trees, n, t);
    && Touches(n, row, off) && off < Shr(n + 1, row) && base + row <= rows
    && IsAt(NodeAt(Carry(trees, n, t), n + 1, row, off), base + row, off, rows, gone, dels, m, node)
  }

  /** What is left of a subtree, at the place where it goes. */
  ghost predicate IsAt(t: Tree, row: nat, off: nat, rows: nat, gone: set<nat>, dels: set<nat>, m: nat, node: Node<Hash>)
    requires Fits(m, rows) && row <= rows
  {
    var q := Encode(row, off, rows);
    && Valid(q, m, rows) && Prune(t, gone) != Nil
    && node == (Moved(q, dels, m, rows), Merkle(Prune(t, gone)))
  }

  /** On its way up from slot n the new leaf meets fillers exactly at `dels`. */
  ghost predicate Linked(trees: seq<Tree>, n: nat, base: nat, rows: nat, gone: set<nat>, dels: set<nat>, m: nat)
    requires |trees| == PopCount(n) && Fits(m, rows)
    decreases n
  {
    && base <= rows && n + 1 <= Pow2(rows - base)
    && var x := Encode(base, n, rows);
       && Valid(x, m, rows) && x !in dels
       && (n % 2 == 1 ==>
             && !IsRootPosition(x, m, rows)
             && (Sibling(x) in dels <==> Prune(trees[|trees| - 1], gone) == Nil)
             && Linked(trees[..|trees| - 1], n / 2, base + 1, rows, gone, dels, m))
  }

  /** The new leaf itself, or what it has become. */
  lemma LeafTouched(trees: seq<Tree>, n: nat, t: Tree, base: nat, rows: nat, gone: set<nat>, dels: set<nat>, m: nat,
                    x: nat)
    requires |trees| == PopCount(n) && NoHoles(trees) && t != Nil && Prune(t, gone) != Nil && Fits(m, rows)
    requires base <= rows && x == Encode(base, n, rows) && Valid(x, m, rows)
    ensures TouchedNode(trees, n, t, base, rows, gone, dels, m, 0, n, (Moved(x, dels, m, rows), Merkle(Prune(t, gone))))
  {
    hide NodeAt, Carry, Encode, Prune, Merkle, Moved, Valid, PopCount;
    CarryNew(trees, n, t);
  }

  /** The root that it meets. */
  lemma RootTouched(trees: seq<Tree>, n: nat, t: Tree, base: nat, rows: nat, gone: set<nat>, dels: set<nat>, m: nat,
                    off: nat, y: nat, root: Tree)
    requires |trees| == PopCount(n) && NoHoles(trees) && t != Nil && Fits(m, rows) && n == off + 1 && n % 2 == 1
    requires trees != [] && root == trees[|trees| - 1] && Prune(root, gone) != Nil
    requires base <= rows && y == Encode(base, off, rows) && Valid(y, m, rows)
    ensures TouchedNode(trees, n, t, base, rows, gone, dels, m, 0, off,
            (Moved(y, dels, m, rows), Merkle(Prune(root, gone))))
  {
    hide NodeAt, Carry, Encode, Prune, Merkle, Moved, Valid, PopCount, Touches, Shr;
    NodeLast(trees, n);
    CarryStable(trees, n, t, 0, off);
    TouchesBottom(n, off);
  }

  /** At an odd count, what is touched above the bottom row is what the carry into the next row
      touches. */
  lemma TouchedAbove(trees: seq<Tree>, n: nat, t: Tree, base: nat, rows: nat, gone: set<nat>, dels: set<nat>, m: nat,
                     row: nat, off: nat, node: Node<Hash>)
    requires |trees| == PopCount(n) && NoHoles(trees) && t != Nil && n % 2 == 1 && row > 0 && Fits(m, rows)
    ensures TouchedNode(trees, n, t, base, rows, gone, dels, m, row, off, node) <==>
            TouchedNode(trees[..|trees| - 1], n / 2, Fork(trees[|trees| - 1], t), base + 1,
                        rows, gone, dels, m, row - 1, off, node)
  {
    hide NodeAt, Encode, Touches, IsAt;
    var c := Carry(trees, n, t);
    CarryLength(trees, n, t);
    CarryLength(trees[..|trees| - 1], n / 2, Fork(trees[|trees| - 1], t));
    TouchesShift(n, row, off);
    assert (n + 1) / 2 == n / 2 + 1 && Upper(c, n + 1) == c && Shr(n + 1, row) == Shr(n / 2 + 1, row - 1);
    if off < Shr(n + 1, row) { ShiftBoth(c, n + 1, row, off); }
  }

  /** The slot x, the n-th of its row, is the right child of its parent. */
  lemma SpineSibling(n: nat, base: nat, rows: nat, m: nat, x: nat)
    requires n >= 1 && n % 2 == 1 && base < rows && Fits(m, rows) && n + 1 <= Pow2(rows - base)
    requires x == Encode(base, n, rows)
    requires Valid(x, m, rows) && !IsRootPosition(x, m, rows)
    ensures Sibling(x) == Encode(base, n - 1, rows) && Valid(Sibling(x), m, rows) && x % 2 == 1
  {
    hide Encode, Valid, IsRootPosition, Sibling, Level, RowOf, OffOf, Parent, Pow2;
    SiblingEncode(base, n, rows);
    RowOfEncode(base, n, rows);
    Climb(x, m, rows);
    PairEncode(x, m, rows);
  }

  lemma BeforeOdd(x: nat)
    requires x % 2 == 1
    ensures x >= 1 && (x - 1) % 2 == 0
  {
  }

  lemma MovedPair(x: nat, y: nat, dels: set<nat>, m: nat, rows: nat)
    requires Fits(m, rows) && Valid(x, m, rows) && !IsRootPosition(x, m, rows) && x % 2 == 1 && x !in dels
    requires y == Sibling(x)
    ensures Valid(y, m, rows) && Valid(Parent(x, rows), m, rows)
    ensures var up := Moved(Parent(x, rows), dels, m, rows);
            && RowOf(up, rows) > 0 && Moved(y, dels, m, rows) == LeftChild(up, rows)
            && Moved(x, dels, m, rows) == if y in dels then up else LeftChild(up, rows) + 1
  {
    hide Encode, Valid, IsRootPosition, Sibling, Level, RowOf, OffOf, Parent, LeftSibling, LeftChild, Moved, Pow2;
    Climb(x, m, rows);
    MovedUp(x, dels, m, rows);
    PairEncode(x, m, rows);
    BeforeOdd(x);
    SiblingInvolution(x);
    MovedUp(y, dels, m, rows);
  }

  lemma RightUp(x: nat, y: nat, dels: set<nat>, m: nat, rows: nat)
    requires Fits(m, rows) && Valid(x, m, rows) && !IsRootPosition(x, m, rows) && x % 2 == 1 && x !in dels
    requires y == Sibling(x)
    ensures Valid(y, m, rows) && Valid(Parent(x, rows), m, rows)
    ensures var pos, up := Moved(x, dels, m, rows), Moved(Parent(x, rows), dels, m, rows);
            if y in dels then pos == up else LeftSibling(pos) == Moved(y, dels, m, rows) && Parent(pos, rows) == up
  {
    hide Encode, Valid, IsRootPosition, Sibling, Level, RowOf, OffOf, Parent, LeftSibling, LeftChild, Moved, Pow2;
    MovedPair(x, y, dels, m, rows);
    var up := Moved(Parent(x, rows), dels, m, rows);
    ChildCoords(up, 1, m, rows);
    PairEncode(LeftChild(up, rows) + 1, m, rows);
  }

  /** One row up: over a filler the place stays the same, beside a root it is the parent's. */
  lemma SpineUp(n: nat, base: nat, rows: nat, dels: set<nat>, m: nat)
    requires n >= 1 && n % 2 == 1 && base < rows && Fits(m, rows) && n + 1 <= Pow2(rows - base)
    requires Valid(Encode(base, n, rows), m, rows) && !IsRootPosition(Encode(base, n, rows), m, rows)
    requires Encode(base, n, rows) !in dels
    ensures Sibling(Encode(base, n, rows)) == Encode(base, n - 1, rows) && Valid(Encode(base, n - 1, rows), m, rows)
    ensures Valid(Encode(base + 1, n / 2, rows), m, rows)
    ensures var pos := Moved(Encode(base, n, rows), dels, m, rows);
            var up := Moved(Encode(base + 1, n / 2, rows), dels, m, rows);
            if Encode(base, n - 1, rows) in dels then pos == up
            else LeftSibling(pos) == Moved(Encode(base, n - 1, rows), dels, m, rows) && Parent(pos, rows) == up
  {
    hide Encode, Valid, IsRootPosition, Sibling, Level, RowOf, OffOf, Parent, LeftSibling, Moved, Pow2;
    var x := Encode(base, n, rows);
    SpineSibling(n, base, rows, m, x);
    CarryPositions(n, base, rows);
    RightUp(x, Sibling(x), dels, m, rows);
  }

  lemma CarryPositions(n: nat, base: nat, rows: nat)
    requires n % 2 == 1 && base <= rows < 62 && n + 1 <= Pow2(rows - base)
    ensures base < rows && n / 2 + 1 <= Pow2(rows - base - 1)
    ensures LeftSibling(Encode(base, n, rows)) == Encode(base, n - 1, rows)
    ensures Parent(Encode(base, n, rows), rows) == Encode(base + 1, n / 2, rows)
  {
    hide Encode, Parent, LeftSibling;
    SiblingEncode(base, n, rows);
    ParentEncode(base, n, rows);
  }

  lemma HashesDrop(trees: seq<Tree>)
    requires trees != []
    ensures Hashes(trees)[..|trees| - 1] == Hashes(trees[..|trees| - 1])
    ensures Hashes(trees)[|trees| - 1] == Merkle(trees[|trees| - 1])
  {
    HashesPrefix(trees, |trees| - 1);
  }

  lemma NotEmpty(t: Tree)
    requires t != Nil
    ensures !Merkle(t).Empty?
  {
  }

  /** What an addition enters are the nodes it touches. */
  lemma {:induction false} InsertedFrom(trees: seq<Tree>, n: nat, t: Tree, base: nat, rows: nat, gone: set<nat>,
                                        dels: set<nat>, m: nat, node: Node<Hash>)
    returns (row: nat, off: nat)
    requires |trees| == PopCount(n) && NoHoles(trees) && t != Nil && Prune(t, gone) != Nil && Fits(m, rows)
    requires Linked(trees, n, base, rows, gone, dels, m)
    requires node in Inserted(Hashes(PruneAll(trees, gone)), n, Moved(Encode(base, n, rows), dels, m, rows),
                              Merkle(Prune(t, gone)), rows)
    ensures TouchedNode(trees, n, t, base, rows, gone, dels, m, row, off, node)
    decreases n
  {
    hide PopCount, TouchedNode, Encode, Merkle, Prune, LeftSibling, Parent, Moved, Valid, IsRootPosition, Sibling,
      Hashes, PruneAll, Pow2, Inserted, NoHoles, IsAt, Touches, NodeAt, Carry;
    var x := Encode(base, n, rows);
    row, off := 0, n;
    if node == (Moved(x, dels, m, rows), Merkle(Prune(t, gone))) {
      LeafTouched(trees, n, t, base, rows, gone, dels, m, x);
    } else {
      InsertedOdd(Hashes(PruneAll(trees, gone)), n, Moved(x, dels, m, rows), Merkle(Prune(t, gone)), rows, node);
      HalfCount(n);
      var root, rest, half, y := trees[|trees| - 1], trees[..|trees| - 1], n / 2, Encode(base, n - 1, rows);
      InsertedOver(trees, n, t, base, rows, gone, dels, m, node, root, rest, half, y);
      if Prune(root, gone) != Nil && node == (Moved(y, dels, m, rows), Merkle(Prune(root, gone))) {
        RootTouched(trees, n, t, base, rows, gone, dels, m, n - 1, y, root);
        off := n - 1;
      } else {
        row, off := InsertedFrom(rest, half, Fork(root, t), base + 1, rows, gone, dels, m, node);
        row := row + 1;
        TouchedAbove(trees, n, t, base, rows, gone, dels, m, row, off, node);
      }
    }
  }

  /** What is entered beside and above the first node when a root is met. */
  lemma InsertedOver(trees: seq<Tree>, n: nat, t: Tree, base: nat, rows: nat, gone: set<nat>, dels: set<nat>, m: nat,
                     node: Node<Hash>, root: Tree, rest: seq<Tree>, half: nat, y: nat)
    requires |trees| == PopCount(n) && NoHoles(trees) && t != Nil && Prune(t, gone) != Nil && Fits(m, rows)
    requires n >= 1 && n % 2 == 1 && trees != [] && root == trees[|trees| - 1] && rest == trees[..|trees| - 1]
    requires Linked(trees, n, base, rows, gone, dels, m) && half == n / 2 && y == Encode(base, n - 1, rows)
    ensures |rest| == PopCount(half) && NoHoles(rest) && Prune(Fork(root, t), gone) != Nil
    ensures Linked(rest, half, base + 1, rows, gone, dels, m) && Valid(y, m, rows)
    ensures node in Inserted(Hashes(PruneAll(trees, gone)), n, Moved(Encode(base, n, rows), dels, m, rows),
                             Merkle(Prune(t, gone)), rows) <==>
            || node == (Moved(Encode(base, n, rows), dels, m, rows), Merkle(Prune(t, gone)))
            || (Prune(root, gone) != Nil && node == (Moved(y, dels, m, rows), Merkle(Prune(root, gone))))
            || node in Inserted(Hashes(PruneAll(rest, gone)), half, Moved(Encode(base + 1, half, rows), dels, m, rows),
                                Merkle(Prune(Fork(root, t), gone)), rows)
  {
    hide PopCount, Encode, Merkle, Prune, LeftSibling, Parent, Moved, Valid, IsRootPosition, Sibling, Hashes, PruneAll,
      Pow2, Inserted;
    var start := Moved(Encode(base, n, rows), dels, m, rows);
    HalfCount(n);
    CarryPositions(n, base, rows);
    SpineUp(n, base, rows, dels, m);
    PrunedDrop(trees, gone);
    PruneFork(root, t, gone);
    MerkleOfJoin(Prune(root, gone), Prune(t, gone));
    InsertedSplit(Hashes(PruneAll(trees, gone)), n, start, Merkle(Prune(t, gone)), rows, node, half,
                  Hashes(PruneAll(rest, gone)), Merkle(Prune(root, gone)));
  }

  lemma InsertedSplit(roots: seq<Hash>, n: nat, pos: nat, toAdd: Hash, rows: nat, node: Node<Hash>, half: nat,
                      rest: seq<Hash>, root: Hash)
    requires |roots| == PopCount(n) && n % 2 == 1 && half == n / 2 && |rest| == PopCount(half)
    requires roots != [] && root == roots[|roots| - 1] && rest == roots[..|roots| - 1]
    ensures node in Inserted(roots, n, pos, toAdd, rows) <==>
            || node == (pos, toAdd)
            || (!root.Empty? && node == (LeftSibling(pos), root))
            || node in (if root.Empty? then Inserted(rest, half, pos, toAdd, rows)
                        else Inserted(rest, half, Parent(pos, rows), ParentHash(root, toAdd), rows))
  {
    hide LeftSibling, Parent, PopCount;
    InsertedFirst(roots, n, pos, toAdd, rows);
  }

  lemma InsertedOdd(roots: seq<Hash>, n: nat, pos: nat, toAdd: Hash, rows: nat, node: Node<Hash>)
    requires |roots| == PopCount(n) && node in Inserted(roots, n, pos, toAdd, rows) && node != (pos, toAdd)
    ensures n >= 1 && n % 2 == 1
  {
  }

  lemma PrunedDrop(trees: seq<Tree>, gone: set<nat>)
    requires trees != []
    ensures var hs, k := Hashes(PruneAll(trees, gone)), |trees| - 1;
            hs[..k] == Hashes(PruneAll(trees[..k], gone)) && hs[k] == Merkle(Prune(trees[k], gone))
    ensures Hashes(PruneAll(trees, gone))[|trees| - 1].Empty? <==> Prune(trees[|trees| - 1], gone) == Nil
  {
    var ps, k := PruneAll(trees, gone), |trees| - 1;
    PrunePrefix(trees, k, gone);
    HashesDrop(ps);
    if ps[k] != Nil { NotEmpty(ps[k]); }
  }

  lemma MerkleOfJoin(l: Tree, r: Tree)
    requires r != Nil
    ensures Join(l, r) != Nil
    ensures Merkle(Join(l, r)) == if l == Nil then Merkle(r) else ParentHash(Merkle(l), Merkle(r))
  {
  }

  lemma {:induction false} InsertedHas(trees: seq<Tree>, n: nat, t: Tree, base: nat, rows: nat, gone: set<nat>,
                                       dels: set<nat>, m: nat, row: nat, off: nat, node: Node<Hash>)
    requires |trees| == PopCount(n) && NoHoles(trees) && t != Nil && Prune(t, gone) != Nil && Fits(m, rows)
    requires Linked(trees, n, base, rows, gone, dels, m)
    requires TouchedNode(trees, n, t, base, rows, gone, dels, m, row, off, node)
    ensures node in Inserted(Hashes(PruneAll(trees, gone)), n, Moved(Encode(base, n, rows), dels, m, rows),
                             Merkle(Prune(t, gone)), rows)
    decreases n
  {
    hide PopCount, TouchedNode, Encode, Merkle, Prune, LeftSibling, Parent, Moved, Valid, IsRootPosition, Sibling,
      Hashes, PruneAll, Pow2, Touches, NodeAt, Carry, Inserted, NoHoles, IsAt;
    if row == 0 && off == n {
      LowFirst(trees, n, t, base, rows, gone, dels, m, off, node, Encode(base, n, rows));
      InsertedFirst(Hashes(PruneAll(trees, gone)), n, Moved(Encode(base, n, rows), dels, m, rows),
                    Merkle(Prune(t, gone)), rows);
    } else {
      TouchedOdd(trees, n, t, base, rows, gone, dels, m, row, off, node);
      HalfCount(n);
      var root, rest, half, y := trees[|trees| - 1], trees[..|trees| - 1], n / 2, Encode(base, n - 1, rows);
      InsertedOver(trees, n, t, base, rows, gone, dels, m, node, root, rest, half, y);
      if row == 0 {
        LowRoot(trees, n, t, base, rows, gone, dels, m, off, node, root, y);
      } else {
        TouchedAbove(trees, n, t, base, rows, gone, dels, m, row, off, node);
        InsertedHas(rest, half, Fork(root, t), base + 1, rows, gone, dels, m, row - 1, off, node);
      }
    }
  }

  lemma LowFirst(trees: seq<Tree>, n: nat, t: Tree, base: nat, rows: nat, gone: set<nat>, dels: set<nat>, m: nat,
                 off: nat, node: Node<Hash>, x: nat)
    requires |trees| == PopCount(n) && NoHoles(trees) && t != Nil && base <= rows && Fits(m, rows) && off == n
    requires TouchedNode(trees, n, t, base, rows, gone, dels, m, 0, off, node) && x == Encode(base, n, rows)
    ensures Valid(x, m, rows) && node == (Moved(x, dels, m, rows), Merkle(Prune(t, gone)))
  {
    hide PopCount, TouchedNode, Encode, Merkle, Prune, Moved, Valid, NoHoles;
    TouchedLow(trees, n, t, base, rows, gone, dels, m, off, node);
  }

  lemma LowRoot(trees: seq<Tree>, n: nat, t: Tree, base: nat, rows: nat, gone: set<nat>, dels: set<nat>, m: nat,
                off: nat, node: Node<Hash>, root: Tree, y: nat)
    requires |trees| == PopCount(n) && NoHoles(trees) && t != Nil && base <= rows && Fits(m, rows) && off != n
    requires TouchedNode(trees, n, t, base, rows, gone, dels, m, 0, off, node)
    requires trees != [] && root == trees[|trees| - 1] && n >= 1 && y == Encode(base, n - 1, rows)
    ensures Valid(y, m, rows) && Prune(root, gone) != Nil
    ensures node == (Moved(y, dels, m, rows), Merkle(Prune(root, gone)))
  {
    hide PopCount, TouchedNode, Encode, Merkle, Prune, Moved, Valid, NoHoles;
    TouchedLow(trees, n, t, base, rows, gone, dels, m, off, node);
  }

  lemma {:induction false} InsertedFirst(roots: seq<Hash>, n: nat, pos: nat, toAdd: Hash, rows: nat)
    requires |roots| == PopCount(n)
    ensures (pos, toAdd) in Inserted(roots, n, pos, toAdd, rows)
    decreases n
  {
    hide Parent, LeftSibling;
    if n % 2 == 1 && roots[|roots| - 1].Empty? {
      InsertedFirst(roots[..|roots| - 1], n / 2, pos, toAdd, rows);
    }
  }

  /** In the bottom row stand the leaf and, at an odd count, the root that it meets. */
  lemma TouchedLow(trees: seq<Tree>, n: nat, t: Tree, base: nat, rows: nat, gone: set<nat>, dels: set<nat>, m: nat,
                   off: nat, node: Node<Hash>)
    requires |trees| == PopCount(n) && NoHoles(trees) && t != Nil && base <= rows && Fits(m, rows)
    requires TouchedNode(trees, n, t, base, rows, gone, dels, m, 0, off, node)
    ensures off != n ==> off + 1 == n && trees != []
    ensures IsAt(if off == n || trees == [] then t else trees[|trees| - 1], base, off, rows, gone, dels, m, node)
  {
    hide PopCount, IsAt, NodeAt, Touches, Carry, Shr;
    TouchesBottom(n, off);
    if off == n {
      CarryNew(trees, n, t);
    } else {
      HalfCount(n);
      NodeLast(trees, n);
      CarryStable(trees, n, t, 0, off);
    }
  }

  lemma TouchedOdd(trees: seq<Tree>, n: nat, t: Tree, base: nat, rows: nat, gone: set<nat>, dels: set<nat>, m: nat,
                   row: nat, off: nat, node: Node<Hash>)
    requires |trees| == PopCount(n) && Fits(m, rows) && (row > 0 || off != n)
    requires TouchedNode(trees, n, t, base, rows, gone, dels, m, row, off, node)
    ensures n % 2 == 1
  {
    hide PopCount, IsAt, NodeAt, Touches, Carry;
    if row > 0 { TouchesShift(n, row, off); } else { TouchesBottom(n, off); }
  }

  // ----- all additions of a block -----

  /** A slot that is new after the block, or whose root was merged over, with what is left of it. */
  ghost predicate NewNode(trees: seq<Tree>, n: nat, ids: seq<nat>, rows: nat, gone: set<nat>, dels: set<nat>, m: nat,
                          row: nat, off: nat, node: Node<Hash>)
    requires |trees| == PopCount(n) && Fits(m, rows)
  {
    && NewSlot(n, n + |ids|, row, off) && row <= rows
    && IsAt(NodeAt(AddAll(trees, n, ids), n + |ids|, row, off), row, off, rows, gone, dels, m, node)
  }

  /** Every new leaf starts where `dels` put it, and meets fillers exactly at `dels`. */
  ghost predicate AllLinked(trees: seq<Tree>, n: nat, ids: seq<nat>, rows: nat, gone: set<nat>, dels: set<nat>, m: nat)
    requires |trees| == PopCount(n) && Fits(m, rows)
    decreases |ids|
  {
    if ids == [] then true
    else
      CarryLength(trees, n, Tip(ids[0]));
      && AllLinked(Carry(trees, n, Tip(ids[0])), n + 1, ids[1..], rows, gone, dels, m)
      && ids[0] !in gone
      && Linked(trees, n, 0, rows, gone, dels, m) && Starts(trees, n, n + |ids|, rows, gone, dels, m)
  }

  /** The leaf starts where `dels` put it. */
  ghost predicate Starts(trees: seq<Tree>, n: nat, last: nat, rows: nat, gone: set<nat>, dels: set<nat>, m: nat)
    requires Fits(m, rows) && n <= last
  {
    var x := Encode(0, n, rows);
    Valid(x, m, rows) && StartAt(Hashes(PruneAll(trees, gone)), n, last, rows) == Moved(x, dels, m, rows)
  }

  lemma NewNodeTouched(trees: seq<Tree>, n: nat, ids: seq<nat>, rows: nat, gone: set<nat>, dels: set<nat>, m: nat,
                       row: nat, off: nat, node: Node<Hash>)
    requires |trees| == PopCount(n) && NoHoles(trees) && ids != [] && Fits(m, rows)
    ensures |Carry(trees, n, Tip(ids[0]))| == PopCount(n + 1) && NoHoles(Carry(trees, n, Tip(ids[0])))
    ensures NewNode(trees, n, ids, rows, gone, dels, m, row, off, node) <==>
            || NewNode(Carry(trees, n, Tip(ids[0])), n + 1, ids[1..], rows, gone, dels, m, row, off, node)
            || (TouchedNode(trees, n, Tip(ids[0]), 0, rows, gone, dels, m, row, off, node) && off < Shr(n + |ids|, row))
  {
    hide NodeAt, Encode, Touches, IsAt, NewSlot, Carry;
    var next := Carry(trees, n, Tip(ids[0]));
    CarryNew(trees, n, Tip(ids[0]));
    NewSlotStep(n, n + |ids|, row, off);
    if Touches(n, row, off) {
      TouchesValid(n, row, off);
      ShrMonotone(n + 1, n + |ids|, row);
      AddStable(next, n + 1, ids[1..], row, off);
    }
    assert n + 1 + |ids[1..]| == n + |ids|;
  }

  lemma TouchedStays(trees: seq<Tree>, n: nat, t: Tree, rows: nat, gone: set<nat>, dels: set<nat>, m: nat,
                     row: nat, off: nat, node: Node<Hash>, later: nat)
    requires |trees| == PopCount(n) && Fits(m, rows) && n < later
    requires TouchedNode(trees, n, t, 0, rows, gone, dels, m, row, off, node)
    ensures off < Shr(later, row)
  {
    hide IsAt, Touches, Shr, NodeAt;
    ShrMonotone(n + 1, later, row);
  }

  lemma {:induction false} AllInsertedFrom(trees: seq<Tree>, n: nat, ids: seq<nat>, rows: nat, gone: set<nat>,
                                           dels: set<nat>, m: nat, node: Node<Hash>)
    returns (row: nat, off: nat)
    requires |trees| == PopCount(n) && NoHoles(trees) && Fits(m, rows)
    requires AllLinked(trees, n, ids, rows, gone, dels, m)
    requires node in AllInserted(Hashes(PruneAll(trees, gone)), n, LeafHashes(ids), rows)
    ensures NewNode(trees, n, ids, rows, gone, dels, m, row, off, node)
    decreases |ids|
  {
    hide PopCount, AllInserted, NewNode, TouchedNode, Inserted, Merkle, Carry, NodeAt, Encode, Moved, Valid, Linked,
      Hashes, PruneAll, Shr, Starts, StartAt, AllLinked;
    if ids == [] {
      NothingInserted(Hashes(PruneAll(trees, gone)), n, LeafHashes(ids), rows);
    } else {
      var t, later, rest := Tip(ids[0]), n + 1, ids[1..];
      var next := Carry(trees, n, t);
      LinkedFirst(trees, n, ids, rows, gone, dels, m);
      AllInsertedStep(trees, n, ids, rows, gone);
      var start := StartIn(trees, n, n + |ids|, rows, gone, dels, m);
      if node in Inserted(Hashes(PruneAll(trees, gone)), n, start, Merkle(t), rows) {
        row, off := InsertedFrom(trees, n, t, 0, rows, gone, dels, m, node);
        TouchedNew(trees, n, ids, t, rows, gone, dels, m, row, off, node);
      } else {
        CarryNew(trees, n, t);
        LinkedRest(trees, n, ids, rows, gone, dels, m, next, later, rest);
        row, off := AllInsertedFrom(next, later, rest, rows, gone, dels, m, node);
        RestNew(trees, n, ids, next, later, rest, rows, gone, dels, m, row, off, node);
      }
    }
  }

  lemma TouchedNew(trees: seq<Tree>, n: nat, ids: seq<nat>, t: Tree, rows: nat, gone: set<nat>, dels: set<nat>, m: nat,
                   row: nat, off: nat, node: Node<Hash>)
    requires |trees| == PopCount(n) && NoHoles(trees) && ids != [] && Fits(m, rows) && t == Tip(ids[0])
    requires TouchedNode(trees, n, t, 0, rows, gone, dels, m, row, off, node)
    ensures NewNode(trees, n, ids, rows, gone, dels, m, row, off, node)
  {
    hide PopCount, NewNode, TouchedNode, Carry, Shr;
    TouchedStays(trees, n, t, rows, gone, dels, m, row, off, node, n + |ids|);
    NewNodeTouched(trees, n, ids, rows, gone, dels, m, row, off, node);
  }

  lemma RestNew(trees: seq<Tree>, n: nat, ids: seq<nat>, next: seq<Tree>, later: nat, rest: seq<nat>, rows: nat,
                gone: set<nat>, dels: set<nat>, m: nat, row: nat, off: nat, node: Node<Hash>)
    requires |trees| == PopCount(n) && |next| == PopCount(later) && NoHoles(trees) && ids != [] && Fits(m, rows)
    requires next == Carry(trees, n, Tip(ids[0])) && later == n + 1 && rest == ids[1..]
    requires NewNode(next, later, rest, rows, gone, dels, m, row, off, node)
    ensures NewNode(trees, n, ids, rows, gone, dels, m, row, off, node)
  {
    hide PopCount, NewNode, TouchedNode, Carry, Shr;
    NewNodeTouched(trees, n, ids, rows, gone, dels, m, row, off, node);
  }

  lemma LinkedFirst(trees: seq<Tree>, n: nat, ids: seq<nat>, rows: nat, gone: set<nat>, dels: set<nat>, m: nat)
    requires |trees| == PopCount(n) && Fits(m, rows) && AllLinked(trees, n, ids, rows, gone, dels, m) && ids != []
    ensures ids[0] !in gone
    ensures Linked(trees, n, 0, rows, gone, dels, m) && Starts(trees, n, n + |ids|, rows, gone, dels, m)
  {
    hide PopCount, Carry, Linked, Starts;
  }

  lemma LinkedRest(trees: seq<Tree>, n: nat, ids: seq<nat>, rows: nat, gone: set<nat>, dels: set<nat>, m: nat,
                   next: seq<Tree>, later: nat, rest: seq<nat>)
    requires |trees| == PopCount(n) && |next| == PopCount(later) && Fits(m, rows) && ids != []
    requires next == Carry(trees, n, Tip(ids[0])) && later == n + 1 && rest == ids[1..]
    requires AllLinked(trees, n, ids, rows, gone, dels, m)
    ensures AllLinked(next, later, rest, rows, gone, dels, m)
  {
    hide PopCount, Carry, Linked, Starts;
  }

  lemma NothingInserted(roots: seq<Hash>, n: nat, utxos: seq<Hash>, rows: nat)
    requires |roots| == PopCount(n) && utxos == [] && rows < 62
    ensures AllInserted(roots, n, utxos, rows) == {}
  {
  }

  lemma StartIn(trees: seq<Tree>, n: nat, last: nat, rows: nat, gone: set<nat>, dels: set<nat>, m: nat)
    returns (start: nat)
    requires Fits(m, rows) && n <= last && Starts(trees, n, last, rows, gone, dels, m)
    ensures Valid(Encode(0, n, rows), m, rows)
    ensures start == StartAt(Hashes(PruneAll(trees, gone)), n, last, rows) == Moved(Encode(0, n, rows), dels, m, rows)
  {
    hide Valid, Encode, StartAt, Moved;
    start := StartAt(Hashes(PruneAll(trees, gone)), n, last, rows);
  }

  lemma AllInsertedStep(trees: seq<Tree>, n: nat, ids: seq<nat>, rows: nat, gone: set<nat>)
    requires |trees| == PopCount(n) && NoHoles(trees) && ids != [] && ids[0] !in gone && rows < 62
    ensures var t := Tip(ids[0]);
            && |Carry(trees, n, t)| == PopCount(n + 1) && Prune(t, gone) == t
            && AllInserted(Hashes(PruneAll(trees, gone)), n, LeafHashes(ids), rows) ==
               Inserted(Hashes(PruneAll(trees, gone)), n, StartAt(Hashes(PruneAll(trees, gone)), n, n + |ids|, rows),
                   Merkle(t), rows)
               + AllInserted(Hashes(PruneAll(Carry(trees, n, t), gone)), n + 1, LeafHashes(ids[1..]), rows)
  {
    hide Inserted, Carry, CarryHashes, StartAt;
    var t := Tip(ids[0]);
    var ps := PruneAll(trees, gone);
    CarryLength(trees, n, t);
    CarryLength(ps, n, t);
    PruneCarry(trees, n, t, gone);
    CarryCommutes(ps, n, t);
    assert LeafHashes(ids)[1..] == LeafHashes(ids[1..]);
  }

  lemma {:induction false} AllInsertedHas(trees: seq<Tree>, n: nat, ids: seq<nat>, rows: nat, gone: set<nat>,
                                          dels: set<nat>, m: nat, row: nat, off: nat, node: Node<Hash>)
    requires |trees| == PopCount(n) && NoHoles(trees) && Fits(m, rows)
    requires AllLinked(trees, n, ids, rows, gone, dels, m)
    requires NewNode(trees, n, ids, rows, gone, dels, m, row, off, node)
    ensures node in AllInserted(Hashes(PruneAll(trees, gone)), n, LeafHashes(ids), rows)
    decreases |ids|
  {
    hide PopCount, NewNode, TouchedNode, Inserted, Merkle, Carry, NodeAt, Encode, AllInserted, Moved, Valid, Linked,
      Hashes, PruneAll, Shr, Starts, StartAt;
    if ids == [] {
      NoNewNode(trees, n, ids, rows, gone, dels, m, row, off, node);
    } else {
      AllInsertedStep(trees, n, ids, rows, gone);
      NewNodeTouched(trees, n, ids, rows, gone, dels, m, row, off, node);
      var start := StartIn(trees, n, n + |ids|, rows, gone, dels, m);
      var t := Tip(ids[0]);
      if NewNode(Carry(trees, n, t), n + 1, ids[1..], rows, gone, dels, m, row, off, node) {
        AllInsertedHas(Carry(trees, n, t), n + 1, ids[1..], rows, gone, dels, m, row, off, node);
      } else {
        InsertedHas(trees, n, t, 0, rows, gone, dels, m, row, off, node);
      }
    }
  }

  lemma NoNewNode(trees: seq<Tree>, n: nat, ids: seq<nat>, rows: nat, gone: set<nat>, dels: set<nat>, m: nat,
                  row: nat, off: nat, node: Node<Hash>)
    requires |trees| == PopCount(n) && ids == [] && Fits(m, rows)
    ensures !NewNode(trees, n, ids, rows, gone, dels, m, row, off, node)
  {
    hide NodeAt, AddAll, IsAt, NewSlot, PopCount;
    NewSlotNone(n, row, off);
  }
}
