/** Root paths: which slots they share and where they part. */
module Paths {
  import opened Bits
  import opened Positions
  import opened ProofPositions
  import opened Slots
  import opened Walks

  lemma SelfPath(p: nat, n: nat, rows: nat)
    requires Fits(n, rows) && Valid(p, n, rows)
    ensures p in PathOf(p, n, rows)
  {
  }

  lemma {:induction false} PathTrans(p: nat, a: nat, b: nat, n: nat, rows: nat)
    requires Fits(n, rows) && Valid(p, n, rows) && a in PathOf(p, n, rows) && Valid(a, n, rows)
    requires b in PathOf(a, n, rows)
    ensures b in PathOf(p, n, rows)
    decreases Level(p, n, rows)
  {
    hide Valid, IsRootPosition, Parent, PathOf, RowOf, OffOf, Sibling, Level;
    if a != p {
      Climb(p, n, rows);
      if IsRootPosition(p, n, rows) { RootPath(p, n, rows); }
      ParentPath(p, n, rows);
      PathTrans(Parent(p, rows), a, b, n, rows);
    }
  }

  /** A path has one slot a row. */
  lemma {:induction false} PathRows(pos: nat, n: nat, rows: nat, p: nat, q: nat)
    requires Fits(n, rows) && Valid(pos, n, rows) && p in PathOf(pos, n, rows) && q in PathOf(pos, n, rows)
    requires RowOf(p, rows) == RowOf(q, rows)
    ensures p == q
    decreases Level(pos, n, rows)
  {
    hide RowOf, OffOf, IsRootPosition, Parent, Valid, Sibling, Level;
    PathOfFacts(pos, n, rows, p);
    PathOfFacts(pos, n, rows, q);
    Climb(pos, n, rows);
    if p != pos && q != pos { PathRows(Parent(pos, rows), n, rows, p, q); }
  }

  /** Of two slots on one path the higher one is above the lower one. */
  lemma {:induction false} PathBoth(pos: nat, n: nat, rows: nat, a: nat, b: nat)
    requires Fits(n, rows) && Valid(pos, n, rows) && a in PathOf(pos, n, rows) && b in PathOf(pos, n, rows)
    requires RowOf(a, rows) <= RowOf(b, rows)
    ensures Valid(a, n, rows) && b in PathOf(a, n, rows)
    decreases Level(pos, n, rows)
  {
    hide RowOf, OffOf, IsRootPosition, Parent, Valid, Sibling, Level;
    PathOfFacts(pos, n, rows, a);
    PathOfFacts(pos, n, rows, b);
    if a != pos {
      Climb(pos, n, rows);
      PathBoth(Parent(pos, rows), n, rows, a, b);
    }
  }

  lemma PathAntisym(a: nat, b: nat, n: nat, rows: nat)
    requires Fits(n, rows) && Valid(a, n, rows) && Valid(b, n, rows)
    requires a in PathOf(b, n, rows) && b in PathOf(a, n, rows)
    ensures a == b
  {
    hide Valid, RowOf, PathOf;
    PathOfFacts(a, n, rows, b);
    PathOfFacts(b, n, rows, a);
  }

  /** Where the path of p leaves the path of q. */
  lemma {:induction false} Departure(p: nat, q: nat, n: nat, rows: nat) returns (s: nat)
    requires Fits(n, rows) && Valid(p, n, rows) && Valid(q, n, rows) && p !in PathOf(q, n, rows)
    ensures s in PathOf(p, n, rows) && s !in PathOf(q, n, rows) && Valid(s, n, rows)
    ensures !IsRootPosition(s, n, rows) ==>
              Parent(s, rows) in PathOf(q, n, rows) && (Sibling(s) in PathOf(q, n, rows) || Parent(s, rows) == q)
    decreases Level(p, n, rows)
  {
    hide RowOf, OffOf, IsRootPosition, Parent, Valid, Sibling, Level, PathOf;
    Climb(p, n, rows);
    SelfPath(p, n, rows);
    if !IsRootPosition(p, n, rows) { ParentPath(p, n, rows); }
    if !IsRootPosition(p, n, rows) && Parent(p, rows) !in PathOf(q, n, rows) {
      s := Departure(Parent(p, rows), q, n, rows);
    } else {
      s := p;
      if !IsRootPosition(p, n, rows) && Parent(p, rows) != q {
        var c := PathChild(q, n, rows, Parent(p, rows));
        SameParent(p, c, n, rows);
      }
    }
  }

  /** Nodes that share a parent are equal or siblings. */
  lemma SameParent(p: nat, q: nat, n: nat, rows: nat)
    requires Fits(n, rows) && Valid(p, n, rows) && Valid(q, n, rows)
    requires !IsRootPosition(p, n, rows) && !IsRootPosition(q, n, rows) && Parent(p, rows) == Parent(q, rows)
    ensures p == q || q == Sibling(p)
  {
    hide RowOf, OffOf, IsRootPosition, Parent, Valid, Level, Sibling;
    PairEncode(p, n, rows);
    PairEncode(q, n, rows);
    if p < q { ParentOrder(p, q, n, rows); }
    if q < p { ParentOrder(q, p, n, rows); }
  }

  /** A root has no sibling in the forest. */
  lemma RootAlone(p: nat, n: nat, rows: nat)
    requires Fits(n, rows) && Valid(p, n, rows) && Valid(Sibling(p), n, rows)
    ensures !IsRootPosition(p, n, rows)
  {
    hide RowOf, OffOf, IsRootPosition, Parent, Level, Sibling, Encode, Shr;
    Climb(p, n, rows);
    Decode(p, n, rows);
    Decode(Sibling(p), n, rows);
    var row, off := RowOf(p, rows), OffOf(p, rows);
    SiblingEncode(row, off, rows);
    if IsRootPosition(p, n, rows) {
      if row < rows {
        EvenRoom(off, rows - row);
        RowOfEncode(row, off + 1, rows);
      } else {
        PastTheTop(RowOf(Sibling(p), rows), OffOf(Sibling(p), rows), off, rows);
      }
    }
  }

  lemma EvenRoom(off: nat, k: nat)
    requires off % 2 == 0 && off < Pow2(k) && k > 0
    ensures off + 1 < Pow2(k)
  {
    assert Pow2(k) == 2 * Pow2(k - 1);
  }

  lemma PastTheTop(row: nat, off: nat, top: nat, rows: nat)
    requires row <= rows && off < Pow2(rows - row) && top < Pow2(0)
    ensures Encode(row, off, rows) != Encode(rows, top + 1, rows)
  {
    assert Pow2(rows - row + 1) == 2 * Pow2(rows - row);
    assert Pow2(1) == 2;
  }

  /** A slot k rows below q. */
  lemma {:induction false} SlotBelow(q: nat, k: nat, n: nat, rows: nat) returns (x: nat)
    requires Fits(n, rows) && Valid(q, n, rows) && k <= RowOf(q, rows)
    ensures Valid(x, n, rows) && RowOf(x, rows) == RowOf(q, rows) - k && q in PathOf(x, n, rows)
    decreases k
  {
    hide RowOf, OffOf, IsRootPosition, Parent, Sibling, Valid, Level, PathOf, LeftChild;
    if k == 0 {
      SelfPath(q, n, rows);
      x := q;
    } else {
      Descend(q, n, rows);
      var l := LeftChild(q, rows);
      x := SlotBelow(l, k - 1, n, rows);
      ParentPath(l, n, rows);
      SelfPath(q, n, rows);
      PathTrans(x, l, q, n, rows);
    }
  }
}
