/** The abstract Utreexo forest: what every accumulator of the repository represents.

    A forest that has seen n leaves is one tree for each set bit of n, largest first.  Deleting
    a leaf promotes its sibling into the parent's place, and adding a leaf carries like a binary
    counter.  Hashes are a free datatype, so distinct contents have distinct hashes.
  */
module Forest {
  import opened Bits
  import opened Positions

  /** src/node_hash/mod.rs: the kinds of `BitcoinNodeHash`; a `Some` is either the hash of a leaf
      or the `parent_hash` of two nodes. */
  datatype Hash = Empty | Placeholder | LeafHash(id: nat) | Branch(left: Hash, right: Hash)

  function ParentHash(left: Hash, right: Hash): Hash {
    Branch(left, right)
  }

  datatype Tree = Nil | Tip(id: nat) | Fork(left: Tree, right: Tree)

  function Merkle(t: Tree): Hash {
    match t
    case Nil => Empty
    case Tip(id) => LeafHash(id)
    case Fork(l, r) => ParentHash(Merkle(l), Merkle(r))
  }

  function Hashes(trees: seq<Tree>): (hs: seq<Hash>)
    ensures |hs| == |trees|
    ensures forall i :: 0 <= i < |trees| ==> hs[i] == Merkle(trees[i])
  {
    if trees == [] then [] else [Merkle(trees[0])] + Hashes(trees[1..])
  }

  function LeafHashes(ids: seq<nat>): (hs: seq<Hash>)
    ensures |hs| == |ids| && forall i :: 0 <= i < |ids| ==> hs[i] == LeafHash(ids[i])
  {
    seq(|ids|, i requires 0 <= i < |ids| => LeafHash(ids[i]))
  }

  predicate LeafKind(hs: seq<Hash>) {
    forall i :: 0 <= i < |hs| ==> hs[i].LeafHash?
  }

  function IdsOf(hs: seq<Hash>): (ids: seq<nat>)
    requires LeafKind(hs)
    ensures |ids| == |hs| && forall i :: 0 <= i < |ids| ==> hs[i] == LeafHash(ids[i])
  {
    seq(|hs|, i requires 0 <= i < |hs| => hs[i].id)
  }

  /** A tree without holes. */
  predicate Proper(t: Tree) {
    match t
    case Nil => false
    case Tip(_) => true
    case Fork(l, r) => Proper(l) && Proper(r)
  }

  function Height(t: Tree): nat {
    match t
    case Nil => 0
    case Tip(_) => 0
    case Fork(l, r) => 1 + if Height(l) < Height(r) then Height(r) else Height(l)
  }

  /** How many subtrees a tree has. */
  function Size(t: Tree): nat {
    match t
    case Nil => 1
    case Tip(_) => 1
    case Fork(l, r) => 1 + Size(l) + Size(r)
  }

  function Ids(t: Tree): multiset<nat> {
    match t
    case Nil => multiset{}
    case Tip(id) => multiset{id}
    case Fork(l, r) => Ids(l) + Ids(r)
  }

  function AllIds(trees: seq<Tree>): multiset<nat> {
    if trees == [] then multiset{} else Ids(trees[0]) + AllIds(trees[1..])
  }

  predicate Distinct(m: multiset<nat>) {
    forall x :: x in m ==> m[x] == 1
  }

  lemma DistinctParts(a: multiset<nat>, b: multiset<nat>)
    requires Distinct(a + b)
    ensures Distinct(a) && Distinct(b) && forall x :: x in a ==> x !in b
  {
    forall x | x in a ensures a[x] == 1 && x !in b { assert (a + b)[x] == a[x] + b[x]; }
    forall x | x in b ensures b[x] == 1 { assert (a + b)[x] == a[x] + b[x]; }
  }

  // ----- deletion -----

  /** A missing child leaves its place to the other one. */
  function Join(l: Tree, r: Tree): Tree {
    if l.Nil? then r else if r.Nil? then l else Fork(l, r)
  }

  /** The tree that is left when the leaves in `gone` are deleted. */
  function Prune(t: Tree, gone: set<nat>): (p: Tree)
  {
    match t
    case Nil => Nil
    case Tip(id) => if id in gone then Nil else t
    case Fork(l, r) => Join(Prune(l, gone), Prune(r, gone))
  }

  function PruneAll(trees: seq<Tree>, gone: set<nat>): (ps: seq<Tree>)
    ensures |ps| == |trees|
    ensures forall i :: 0 <= i < |trees| ==> ps[i] == Prune(trees[i], gone)
  {
    if trees == [] then [] else [Prune(trees[0], gone)] + PruneAll(trees[1..], gone)
  }

  // ----- addition -----

  /** Adds tree `t` at the lowest row of a forest with n slots there. */
  function Carry(trees: seq<Tree>, n: nat, t: Tree): seq<Tree>
    requires |trees| == PopCount(n)
    decreases n
  {
    if n % 2 == 0 then trees + [t]
    else Carry(trees[..|trees| - 1], n / 2, Join(trees[|trees| - 1], t))
  }

  function AddAll(trees: seq<Tree>, n: nat, ids: seq<nat>): (r: seq<Tree>)
    requires |trees| == PopCount(n)
    ensures |r| == PopCount(n + |ids|)
    decreases |ids|
  {
    if ids == [] then trees
    else
      CarryLength(trees, n, Tip(ids[0]));
      AddAll(Carry(trees, n, Tip(ids[0])), n + 1, ids[1..])
  }

  /** The next leaf of a list. */
  lemma AddNext(trees: seq<Tree>, n: nat, hs: seq<Hash>, i: nat)
    requires |trees| == PopCount(n) && LeafKind(hs) && i < |hs|
    ensures |Carry(trees, n, Tip(hs[i].id))| == PopCount(n + 1)
    ensures AddAll(trees, n, IdsOf(hs[i..])) == AddAll(Carry(trees, n, Tip(hs[i].id)), n + 1, IdsOf(hs[i + 1..]))
  {
    hide Carry, PopCount;
    CarryLength(trees, n, Tip(hs[i].id));
    assert IdsOf(hs[i..])[0] == hs[i].id && IdsOf(hs[i..])[1..] == IdsOf(hs[i + 1..]);
  }

  lemma AddOneIs(trees: seq<Tree>, n: nat, id: nat)
    requires |trees| == PopCount(n)
    ensures AddAll(trees, n, [id]) == Carry(trees, n, Tip(id))
  {
    hide Carry;
    CarryLength(trees, n, Tip(id));
    assert [id][1..] == [];
    assert AddAll(Carry(trees, n, Tip(id)), n + 1, []) == Carry(trees, n, Tip(id));
  }

  lemma AddNone(trees: seq<Tree>, n: nat, hs: seq<Hash>)
    requires |trees| == PopCount(n) && LeafKind(hs)
    ensures AddAll(trees, n, IdsOf(hs[|hs|..])) == trees
  {
    hide PopCount;
  }

  lemma {:induction false} CarryLength(trees: seq<Tree>, n: nat, t: Tree)
    requires |trees| == PopCount(n)
    ensures |Carry(trees, n, t)| == PopCount(n + 1)
    decreases n
  {
    hide Join;
    if n % 2 == 1 {
      assert (n + 1) / 2 == n / 2 + 1 && PopCount(n + 1) == PopCount(n / 2 + 1);
      CarryLength(trees[..|trees| - 1], n / 2, Join(trees[|trees| - 1], t));
    } else {
      assert (n + 1) / 2 == n / 2 && PopCount(n + 1) == 1 + PopCount(n / 2);
    }
  }

  /** One block: deletions first, then additions. */
  function Block(trees: seq<Tree>, n: nat, gone: set<nat>, added: seq<nat>): seq<Tree>
    requires |trees| == PopCount(n)
  {
    AddAll(PruneAll(trees, gone), n, added)
  }

  // ----- well-formed forests -----

  predicate RootTree(t: Tree, row: nat) {
    t.Nil? || (Proper(t) && Height(t) <= row)
  }

  /** One root tree for each set bit of n, none higher than its row (rows counted from `row`). */
  predicate Shape(trees: seq<Tree>, n: nat, row: nat)
    decreases n
  {
    if n == 0 then trees == []
    else if n % 2 == 0 then Shape(trees, n / 2, row + 1)
    else
      && trees != []
      && RootTree(trees[|trees| - 1], row)
      && Shape(trees[..|trees| - 1], n / 2, row + 1)
  }

  predicate WellFormed(trees: seq<Tree>, n: nat) {
    Shape(trees, n, 0) && Distinct(AllIds(trees))
  }

  lemma {:induction false} ShapeLength(trees: seq<Tree>, n: nat, row: nat)
    requires Shape(trees, n, row)
    ensures |trees| == PopCount(n)
    decreases n
  {
    if n > 0 {
      ShapeLength(if n % 2 == 0 then trees else trees[..|trees| - 1], n / 2, row + 1);
    }
  }

  lemma {:induction false} ShapeAt(trees: seq<Tree>, n: nat, base: nat, row: nat)
    requires Shape(trees, n, base) && Shr(n, row) % 2 == 1
    ensures RootIndex(n, row) < |trees|
    ensures RootTree(trees[RootIndex(n, row)], base + row)
    decreases row
  {
    ShapeLength(trees, n, base);
    if row > 0 {
      ShapeAt(if n % 2 == 0 then trees else trees[..|trees| - 1], n / 2, base + 1, row - 1);
    }
  }

  lemma {:induction false} ShapeEach(trees: seq<Tree>, n: nat, row: nat, i: nat)
    requires Shape(trees, n, row) && i < |trees|
    ensures trees[i].Nil? || Proper(trees[i])
    decreases n
  {
    if n % 2 == 0 {
      ShapeEach(trees, n / 2, row + 1, i);
    } else if i < |trees| - 1 {
      ShapeEach(trees[..|trees| - 1], n / 2, row + 1, i);
    }
  }

  lemma {:induction false} ShapeCarry(trees: seq<Tree>, n: nat, row: nat, t: Tree)
    requires Shape(trees, n, row) && RootTree(t, row)
    ensures |trees| == PopCount(n) && Shape(Carry(trees, n, t), n + 1, row)
    decreases n
  {
    ShapeLength(trees, n, row);
    if n % 2 == 0 {
      assert (trees + [t])[..|trees|] == trees;
      if n == 0 { assert Shape([], 0, row + 1); }
    } else {
      ShapeCarry(trees[..|trees| - 1], n / 2, row + 1, Join(trees[|trees| - 1], t));
    }
  }

  // ----- hashing is faithful -----

  lemma {:induction false} MerkleInjective(s: Tree, t: Tree)
    requires Merkle(s) == Merkle(t)
    ensures s == t
  {
    if s.Fork? {
      MerkleInjective(s.left, t.left);
      MerkleInjective(s.right, t.right);
    }
  }

  // ----- leaf identifiers -----

  lemma {:induction false} ProperHasLeaf(t: Tree) returns (id: nat)
    requires Proper(t)
    ensures id in Ids(t)
  {
    match t
    case Tip(i) => id := i;
    case Fork(l, _) => id := ProperHasLeaf(l);
  }

  lemma {:induction false} AllIdsMember(trees: seq<Tree>, i: nat)
    requires i < |trees|
    ensures Ids(trees[i]) <= AllIds(trees)
  {
    if i > 0 { AllIdsMember(trees[1..], i - 1); }
  }

  lemma {:induction false} AllIdsTwo(trees: seq<Tree>, i: nat, j: nat)
    requires i < j < |trees|
    ensures Ids(trees[i]) + Ids(trees[j]) <= AllIds(trees)
  {
    hide Ids;
    assert trees[1..][j - 1] == trees[j];
    if i > 0 {
      assert trees[1..][i - 1] == trees[i];
      AllIdsTwo(trees[1..], i - 1, j - 1);
    } else {
      AllIdsMember(trees[1..], j - 1);
    }
  }

  lemma {:induction false} AllIdsConcat(a: seq<Tree>, b: seq<Tree>)
    ensures AllIds(a + b) == AllIds(a) + AllIds(b)
  {
    if a == [] {
      assert a + b == b;
    } else {
      assert (a + b)[1..] == a[1..] + b;
      AllIdsConcat(a[1..], b);
    }
  }

  /** In a forest with distinct leaves no identifier occurs in two trees. */
  lemma DisjointTrees(trees: seq<Tree>, i: nat, j: nat, id: nat)
    requires Distinct(AllIds(trees)) && i < |trees| && j < |trees|
    requires id in Ids(trees[i]) && id in Ids(trees[j])
    ensures i == j
  {
    hide Ids, AllIds;
    if i < j {
      AllIdsTwo(trees, i, j);
      Doubled(Ids(trees[i]), Ids(trees[j]), AllIds(trees), id);
    } else if j < i {
      AllIdsTwo(trees, j, i);
      Doubled(Ids(trees[j]), Ids(trees[i]), AllIds(trees), id);
    }
  }

  lemma Doubled(a: multiset<nat>, b: multiset<nat>, m: multiset<nat>, id: nat)
    requires a + b <= m && id in a && id in b
    ensures id in m && m[id] >= 2
  {
  }

  lemma {:induction false} JoinIds(l: Tree, r: Tree)
    ensures Ids(Join(l, r)) == Ids(l) + Ids(r)
  {
  }

  lemma {:induction false} CarryIds(trees: seq<Tree>, n: nat, t: Tree)
    requires |trees| == PopCount(n)
    ensures AllIds(Carry(trees, n, t)) == AllIds(trees) + Ids(t)
    decreases n
  {
    hide Ids, Join, AllIds;
    if n % 2 == 0 {
      AllIdsAppend(trees, t);
    } else {
      var k := |trees| - 1;
      assert trees == trees[..k] + [trees[k]];
      AllIdsAppend(trees[..k], trees[k]);
      JoinIds(trees[k], t);
      CarryIds(trees[..k], n / 2, Join(trees[k], t));
    }
  }

  lemma AllIdsAppend(trees: seq<Tree>, t: Tree)
    ensures AllIds(trees + [t]) == AllIds(trees) + Ids(t)
  {
    AllIdsConcat(trees, [t]);
    assert AllIds([t]) == Ids(t) + AllIds([]);
  }

  /** The multiset of the elements of m outside `gone`. */
  ghost predicate Without(m: multiset<nat>, gone: set<nat>, r: multiset<nat>) {
    forall x :: r[x] == if x in gone then 0 else m[x]
  }

  /** Where both subtrees leave something the fork stays. */
  lemma PruneBoth(t: Tree, s: Tree, gone: set<nat>)
    requires Prune(s, gone) != Nil && Prune(t, gone) != Nil
    ensures Prune(Fork(t, s), gone) == Fork(Prune(t, gone), Prune(s, gone))
    ensures Prune(Fork(s, t), gone) == Fork(Prune(s, gone), Prune(t, gone))
  {
  }

  lemma {:induction false} PruneIds(t: Tree, gone: set<nat>)
    ensures Without(Ids(t), gone, Ids(Prune(t, gone)))
  {
    match t
    case Nil =>
    case Tip(_) =>
    case Fork(l, r) =>
      PruneIds(l, gone);
      PruneIds(r, gone);
      JoinIds(Prune(l, gone), Prune(r, gone));
  }

  lemma {:induction false} PruneAllIds(trees: seq<Tree>, gone: set<nat>)
    ensures Without(AllIds(trees), gone, AllIds(PruneAll(trees, gone)))
  {
    if trees != [] {
      PruneIds(trees[0], gone);
      PruneAllIds(trees[1..], gone);
      assert PruneAll(trees, gone)[1..] == PruneAll(trees[1..], gone);
    }
  }

  lemma {:induction false} PruneRoot(t: Tree, gone: set<nat>, row: nat)
    requires RootTree(t, row)
    ensures RootTree(Prune(t, gone), row)
  {
    if t.Fork? {
      PruneRoot(t.left, gone, row - 1);
      PruneRoot(t.right, gone, row - 1);
    }
  }

  lemma {:induction false} PruneShape(trees: seq<Tree>, n: nat, row: nat, gone: set<nat>)
    requires Shape(trees, n, row)
    ensures Shape(PruneAll(trees, gone), n, row)
    decreases n
  {
    if n > 0 {
      if n % 2 == 0 {
        PruneShape(trees, n / 2, row + 1, gone);
      } else {
        var k := |trees| - 1;
        PruneRoot(trees[k], gone, row);
        PruneShape(trees[..k], n / 2, row + 1, gone);
        assert PruneAll(trees, gone)[..k] == PruneAll(trees[..k], gone);
      }
    }
  }

  /** Deleting leaves that a tree does not have changes nothing. */
  lemma {:induction false} PruneNothing(t: Tree, gone: set<nat>)
    requires t.Nil? || Proper(t)
    requires forall x :: x in gone ==> x !in Ids(t)
    ensures Prune(t, gone) == t
  {
    if t.Fork? {
      PruneNothing(t.left, gone);
      PruneNothing(t.right, gone);
    }
  }

  /** Deleting leaf after leaf is deleting all of them at once. */
  lemma {:induction false} PruneTwice(t: Tree, a: set<nat>, b: set<nat>)
    ensures Prune(Prune(t, a), b) == Prune(t, a + b)
  {
    if t.Fork? {
      PruneTwice(t.left, a, b);
      PruneTwice(t.right, a, b);
    }
  }

  lemma PruneAllTwice(trees: seq<Tree>, a: set<nat>, b: set<nat>)
    ensures PruneAll(PruneAll(trees, a), b) == PruneAll(trees, a + b)
  {
    forall i | 0 <= i < |trees| ensures Prune(Prune(trees[i], a), b) == Prune(trees[i], a + b) {
      PruneTwice(trees[i], a, b);
    }
  }

  /** A block of distinct live deletions and fresh additions keeps the forest well-formed. */
  lemma PruneWellFormed(trees: seq<Tree>, n: nat, gone: set<nat>)
    requires WellFormed(trees, n)
    ensures WellFormed(PruneAll(trees, gone), n)
  {
    PruneShape(trees, n, 0, gone);
    PruneAllIds(trees, gone);
  }

  predicate Fresh(trees: seq<Tree>, ids: seq<nat>) {
    && (forall i :: 0 <= i < |ids| ==> ids[i] !in AllIds(trees))
    && (forall i, j :: 0 <= i < j < |ids| ==> ids[i] != ids[j])
  }

  lemma {:induction false} AddWellFormed(trees: seq<Tree>, n: nat, ids: seq<nat>)
    requires WellFormed(trees, n) && Fresh(trees, ids)
    ensures |trees| == PopCount(n) && WellFormed(AddAll(trees, n, ids), n + |ids|)
    ensures AllIds(AddAll(trees, n, ids)) == AllIds(trees) + multiset(ids)
    decreases |ids|
  {
    hide Carry, Shape, AllIds;
    ShapeLength(trees, n, 0);
    if ids != [] {
      ShapeCarry(trees, n, 0, Tip(ids[0]));
      CarryIds(trees, n, Tip(ids[0]));
      var next := Carry(trees, n, Tip(ids[0]));
      assert AllIds(next) == AllIds(trees) + multiset{ids[0]};
      assert ids == [ids[0]] + ids[1..];
      AddWellFormed(next, n + 1, ids[1..]);
    } else {
      assert multiset(ids) == multiset{};
    }
  }

  /** A block keeps the forest well-formed. */
  lemma BlockWellFormed(trees: seq<Tree>, n: nat, gone: set<nat>, added: seq<nat>)
    requires WellFormed(trees, n) && Fresh(PruneAll(trees, gone), added)
    ensures |trees| == PopCount(n) && WellFormed(Block(trees, n, gone, added), n + |added|)
  {
    ShapeLength(trees, n, 0);
    PruneWellFormed(trees, n, gone);
    AddWellFormed(PruneAll(trees, gone), n, added);
  }

  // ----- nodes by slot -----

  /** The subtree at slot (row, off); Nil where deletions left the slot empty. */
  function NodeAt(trees: seq<Tree>, n: nat, row: nat, off: nat): Tree
    requires off < Shr(n, row) && |trees| == PopCount(n)
    decreases Shr(n, row)
  {
    ShrStep(n, row);
    RootIndexBound(n, row);
    if RootCoord(row, off, n) then trees[RootIndex(n, row)]
    else
      match NodeAt(trees, n, row + 1, off / 2)
      case Fork(l, r) => if off % 2 == 0 then l else r
      case _ => Nil
  }

  lemma NodeAtRoot(trees: seq<Tree>, n: nat, row: nat, off: nat)
    requires off < Shr(n, row) && |trees| == PopCount(n) && RootCoord(row, off, n)
    ensures RootIndex(n, row) < |trees| && NodeAt(trees, n, row, off) == trees[RootIndex(n, row)]
  {
    RootIndexBound(n, row);
  }

  lemma NodeAtChild(trees: seq<Tree>, n: nat, row: nat, off: nat)
    requires off < Shr(n, row) && |trees| == PopCount(n) && !RootCoord(row, off, n)
    ensures off / 2 < Shr(n, row + 1)
    ensures var up := NodeAt(trees, n, row + 1, off / 2);
            NodeAt(trees, n, row, off) == if !up.Fork? then Nil else if off % 2 == 0 then up.left else up.right
  {
    ShrStep(n, row);
  }

  lemma {:induction false} NodeProper(trees: seq<Tree>, n: nat, row: nat, off: nat)
    requires off < Shr(n, row) && Shape(trees, n, 0)
    ensures |trees| == PopCount(n) && RootTree(NodeAt(trees, n, row, off), row)
    decreases Shr(n, row)
  {
    ShapeLength(trees, n, 0);
    ShrStep(n, row);
    if RootCoord(row, off, n) {
      ShapeAt(trees, n, 0, row);
    } else {
      NodeProper(trees, n, row + 1, off / 2);
    }
  }

  lemma {:induction false} NodeIds(trees: seq<Tree>, n: nat, row: nat, off: nat)
    requires off < Shr(n, row) && |trees| == PopCount(n)
    ensures RootIndex(n, RootAbove(n, row, off)) < |trees|
    ensures Ids(NodeAt(trees, n, row, off)) <= Ids(trees[RootIndex(n, RootAbove(n, row, off))])
    decreases Shr(n, row)
  {
    ShrStep(n, row);
    RootIndexBound(n, row);
    if !RootCoord(row, off, n) {
      NodeIds(trees, n, row + 1, off / 2);
    }
  }
}
