/** Why no proof, honest or not, can make a deletion do anything but delete the named leaves.

    Every pair (old, new) the hashing loop handles carries a multiset of deleted leaves: if
    `old` is the hash of some leaf-distinct tree then those leaves are in the tree, and `new` is
    the hash of the tree without them.  Popping and pushing conserve that multiset, so once every
    computed root has been matched with a root of the accumulator, the leaves named by the caller
    are exactly the ones removed.
  */
module Soundness {
  import opened Bits
  import opened Positions
  import opened Forest
  import opened MergeLoop
  import opened MergeRuns
  import opened ProofEngine

  /** `old` commits to the leaves in `dels`, and `new` is what is left without them. */
  ghost predicate Commits(v: (Hash, Hash), dels: multiset<nat>) {
    forall t: Tree :: (t.Nil? || Proper(t)) && Distinct(Ids(t)) && Merkle(t) == v.0 ==> CommitsTo(v, dels, t)
  }

  ghost predicate CommitsTo(v: (Hash, Hash), dels: multiset<nat>, t: Tree) {
    && dels <= Ids(t)
    && forall gone: set<nat> :: Agrees(gone, dels, Ids(t)) ==> Merkle(Prune(t, gone)) == v.1
  }

  /** Among the given leaves, `gone` holds exactly those in `dels`. */
  ghost predicate Agrees(gone: set<nat>, dels: multiset<nat>, leaves: multiset<nat>) {
    forall x :: x in leaves ==> (x in gone <==> x in dels)
  }

  /** What the program feeds into the loop: a leaf hash to be deleted, or a hash to be kept. */
  predicate Admissible(v: (Hash, Hash)) {
    v.0 == v.1 || (v.0.LeafHash? && v.1.Empty?)
  }

  function DelOf(v: (Hash, Hash)): multiset<nat> {
    if v.0.LeafHash? && v.1.Empty? then multiset{v.0.id} else multiset{}
  }

  function DelsIn(nodes: seq<Node<(Hash, Hash)>>): multiset<nat> {
    if nodes == [] then multiset{} else DelOf(nodes[0].1) + DelsIn(nodes[1..])
  }

  function Sum(ms: seq<multiset<nat>>): multiset<nat> {
    if ms == [] then multiset{} else ms[0] + Sum(ms[1..])
  }

  lemma CommitsSource(v: (Hash, Hash))
    requires Admissible(v)
    ensures Commits(v, DelOf(v))
  {
    forall t: Tree | (t.Nil? || Proper(t)) && Distinct(Ids(t)) && Merkle(t) == v.0
      ensures CommitsTo(v, DelOf(v), t)
    {
      forall gone: set<nat> | Agrees(gone, DelOf(v), Ids(t)) ensures Merkle(Prune(t, gone)) == v.1 {
        if v.0 == v.1 { PruneNothing(t, gone); }
      }
    }
  }

  lemma CommitsPair(a: (Hash, Hash), da: multiset<nat>, b: (Hash, Hash), db: multiset<nat>)
    requires Commits(a, da) && Commits(b, db)
    ensures Commits(CombinePair(a, b), da + db)
  {
    var v := CombinePair(a, b);
    forall t: Tree | (t.Nil? || Proper(t)) && Distinct(Ids(t)) && Merkle(t) == v.0
      ensures CommitsTo(v, da + db, t)
    {
      CommitsFork(a, da, b, db, t.left, t.right);
    }
  }

  lemma CommitsFork(a: (Hash, Hash), da: multiset<nat>, b: (Hash, Hash), db: multiset<nat>, l: Tree, r: Tree)
    requires Commits(a, da) && Commits(b, db)
    requires Proper(l) && Proper(r) && Distinct(Ids(l) + Ids(r)) && Merkle(l) == a.0 && Merkle(r) == b.0
    ensures CommitsTo(CombinePair(a, b), da + db, Fork(l, r))
  {
    DistinctParts(Ids(l), Ids(r));
    assert CommitsTo(a, da, l) && CommitsTo(b, db, r);
    forall gone: set<nat> | Agrees(gone, da + db, Ids(Fork(l, r)))
      ensures Merkle(Prune(Fork(l, r), gone)) == CombinePair(a, b).1
    {
      AgreesParts(gone, da, Ids(l), db, Ids(r));
      MerkleJoin(Prune(l, gone), Prune(r, gone));
    }
  }

  lemma AgreesParts(gone: set<nat>, da: multiset<nat>, a: multiset<nat>, db: multiset<nat>, b: multiset<nat>)
    requires Distinct(a + b) && da <= a && db <= b && Agrees(gone, da + db, a + b)
    ensures Agrees(gone, da, a) && Agrees(gone, db, b)
  {
    DistinctParts(a, b);
    forall x | x in a ensures x in gone <==> x in da {
      assert x in a + b && x !in db;
    }
    forall x | x in b ensures x in gone <==> x in db {
      assert x in a + b && x !in da;
    }
  }

  // ----- conservation through the loop -----

  ghost predicate Committed(nodes: seq<Node<(Hash, Hash)>>, ms: seq<multiset<nat>>) {
    |ms| == |nodes| && forall i :: 0 <= i < |nodes| ==> Commits(nodes[i].1, ms[i])
  }

  ghost predicate CommittedRoots(roots: seq<(Hash, Hash)>, ms: seq<multiset<nat>>) {
    |ms| == |roots| && forall i :: 0 <= i < |roots| ==> Commits(roots[i], ms[i])
  }

  lemma {:induction false} SumConcat(a: seq<multiset<nat>>, b: seq<multiset<nat>>)
    ensures Sum(a + b) == Sum(a) + Sum(b)
  {
    if a == [] {
      assert a + b == b;
    } else {
      assert (a + b)[1..] == a[1..] + b;
      SumConcat(a[1..], b);
    }
  }

  lemma SumAppend(a: seq<multiset<nat>>, m: multiset<nat>)
    ensures Sum(a + [m]) == Sum(a) + m
  {
    SumConcat(a, [m]);
    assert Sum([m]) == m + Sum([]);
  }

  /** Popping a node takes its leaves out of the queues. */
  lemma PopConserves(nodes: seq<Node<(Hash, Hash)>>, computed: seq<Node<(Hash, Hash)>>, ci: nat, pi: nat,
                     cm: seq<multiset<nat>>) returns (d: multiset<nat>)
    requires ci <= |computed| && pi <= |nodes| && Committed(computed, cm)
    requires forall i :: 0 <= i < |nodes| ==> Admissible(nodes[i].1)
    requires GetNext(computed, nodes, ci, pi).Popped?
    ensures var r := GetNext(computed, nodes, ci, pi);
            Commits(r.node.1, d)
            && Sum(cm[ci..]) + DelsIn(nodes[pi..]) == d + Sum(cm[r.computedIndex..]) + DelsIn(nodes[r.providedIndex..])
  {
    hide Commits, Admissible, DelOf;
    var r := GetNext(computed, nodes, ci, pi);
    if r.computedIndex == ci + 1 {
      d := cm[ci];
      assert cm[ci..][1..] == cm[ci + 1..];
    } else {
      CommitsSource(nodes[pi].1);
      d := DelOf(nodes[pi].1);
      assert nodes[pi..][1..] == nodes[pi + 1..];
    }
  }

  /** Whatever the nodes are, the roots that come out carry exactly the leaves that went in. */
  lemma {:induction false} MergeSound(
      nodes: seq<Node<(Hash, Hash)>>, computed: seq<Node<(Hash, Hash)>>, ci: nat, pi: nat, roots: seq<(Hash, Hash)>,
      n: nat, rows: nat, cm: seq<multiset<nat>>, rm: seq<multiset<nat>>)
    returns (ms: seq<multiset<nat>>)
    requires ci <= |computed| && pi <= |nodes| && rows < 63
    requires forall i :: 0 <= i < |nodes| ==> Admissible(nodes[i].1)
    requires Committed(computed, cm) && CommittedRoots(roots, rm)
    ensures var out := Merge(nodes, computed, ci, pi, roots, n, rows, CombinePair);
            out.Finished? ==> CommittedRoots(out.roots, ms)
                              && Sum(ms) == Sum(rm) + (Sum(cm[ci..]) + DelsIn(nodes[pi..]))
    decreases |nodes| - pi + |computed| - ci
  {
    hide Commits, Admissible, IsRootPosition, Parent, Or, GetNext, Merge, CombinePair, DelsIn, Sum;
    MergeUnfold(nodes, computed, ci, pi, roots, n, rows, CombinePair);
    ms := [];
    var r1 := GetNext(computed, nodes, ci, pi);
    if r1.Exhausted? {
      ms := rm;
      NothingLeft(nodes, computed, cm);
      assert ci == |computed| && pi == |nodes|;
      assert Sum(cm[ci..]) + DelsIn(nodes[pi..]) == multiset{};
      return;
    }
    var d1 := PopConserves(nodes, computed, ci, pi, cm);
    if IsRootPosition(r1.node.0, n, rows) {
      SumAppend(rm, d1);
      ms := MergeSound(nodes, computed, r1.computedIndex, r1.providedIndex, roots + [r1.node.1], n, rows, cm,
                       rm + [d1]);
      Regroup(Sum(rm), d1, Sum(cm[r1.computedIndex..]) + DelsIn(nodes[r1.providedIndex..]),
              Sum(cm[ci..]) + DelsIn(nodes[pi..]));
      return;
    }
    var r2 := GetNext(computed, nodes, r1.computedIndex, r1.providedIndex);
    if r2.Exhausted? || r2.node.0 != Or(r1.node.0, 1) {
      return;
    }
    var d2 := PopConserves(nodes, computed, r1.computedIndex, r1.providedIndex, cm);
    CommitsPair(r1.node.1, d1, r2.node.1, d2);
    var parent := (Parent(r1.node.0, rows), CombinePair(r1.node.1, r2.node.1));
    assert (cm + [d1 + d2])[r2.computedIndex..] == cm[r2.computedIndex..] + [d1 + d2];
    SumAppend(cm[r2.computedIndex..], d1 + d2);
    ms := MergeSound(nodes, computed + [parent], r2.computedIndex, r2.providedIndex, roots, n, rows,
                     cm + [d1 + d2], rm);
    var c2, n2 := Sum(cm[r2.computedIndex..]), DelsIn(nodes[r2.providedIndex..]);
    RegroupPair(d1, d2, Sum(cm[r1.computedIndex..]), DelsIn(nodes[r1.providedIndex..]), c2, n2);
  }

  lemma Regroup(a: multiset<nat>, d: multiset<nat>, rest: multiset<nat>, all: multiset<nat>)
    requires all == d + rest
    ensures (a + d) + rest == a + all
  {
  }

  lemma RegroupPair(d1: multiset<nat>, d2: multiset<nat>, c1: multiset<nat>, n1: multiset<nat>,
                    c2: multiset<nat>, n2: multiset<nat>)
    requires c1 + n1 == d2 + c2 + n2
    ensures d1 + c1 + n1 == c2 + (d1 + d2) + n2
  {
    assert d1 + c1 + n1 == d1 + (c1 + n1);
  }

  lemma NothingLeft(nodes: seq<Node<(Hash, Hash)>>, computed: seq<Node<(Hash, Hash)>>, cm: seq<multiset<nat>>)
    requires |cm| == |computed|
    ensures Sum(cm[|computed|..]) + DelsIn(nodes[|nodes|..]) == multiset{}
  {
  }

  // ----- matching the computed roots with the accumulator's -----

  /** Index of the first pair whose old hash is `root`. */
  function FirstOld(computed: seq<(Hash, Hash)>, root: Hash): (j: nat)
    ensures j <= |computed| && (j < |computed| ==> computed[j].0 == root)
  {
    if computed == [] then 0 else if computed[0].0 == root then 0 else 1 + FirstOld(computed[1..], root)
  }

  /** The root loop of `Stump::modify`: new roots and the pairs nobody claimed. */
  function ReplaceRoots(roots: seq<Hash>, computed: seq<(Hash, Hash)>): (r: (seq<Hash>, seq<(Hash, Hash)>))
    ensures |r.0| == |roots|
  {
    if roots == [] then ([], computed)
    else
      var j := FirstOld(computed, roots[0]);
      if j < |computed| then
        var (rest, left) := ReplaceRoots(roots[1..], computed[..j] + computed[j + 1..]);
        ([computed[j].1] + rest, left)
      else
        var (rest, left) := ReplaceRoots(roots[1..], computed);
        ([roots[0]] + rest, left)
  }

  lemma {:induction false} FirstOldMisses(pairs: seq<(Hash, Hash)>, root: Hash)
    ensures forall k :: 0 <= k < FirstOld(pairs, root) ==> pairs[k].0 != root
  {
    if pairs != [] && pairs[0].0 != root {
      FirstOldMisses(pairs[1..], root);
      forall k | 0 <= k < FirstOld(pairs, root) ensures pairs[k].0 != root {
        if k > 0 { assert pairs[1..][k - 1] == pairs[k]; }
      }
    }
  }

  function Firsts(pairs: seq<(Hash, Hash)>): seq<Hash> {
    MapSeq(pairs, (v: (Hash, Hash)) => v.0)
  }

  /** The root loop of `Stump::modify` claims every pair if and only if each old hash occurs among
      the roots as often as among the pairs. */
  lemma {:induction false} AllReplaced(roots: seq<Hash>, pairs: seq<(Hash, Hash)>)
    ensures ReplaceRoots(roots, pairs).1 == [] <==> multiset(Firsts(pairs)) <= multiset(roots)
    decreases |roots|
  {
    hide Firsts;
    if roots == [] {
      FirstsNone(pairs);
    } else {
      var j := FirstOld(pairs, roots[0]);
      assert roots == [roots[0]] + roots[1..];
      assert multiset(roots) == multiset{roots[0]} + multiset(roots[1..]);
      if j < |pairs| {
        FirstsWithout(pairs, j);
        DropOne(multiset(Firsts(pairs[..j] + pairs[j + 1..])), multiset(roots[1..]), roots[0]);
        AllReplaced(roots[1..], pairs[..j] + pairs[j + 1..]);
      } else {
        FirstsMiss(pairs, roots[0]);
        DropOther(multiset(Firsts(pairs)), multiset(roots[1..]), roots[0]);
        AllReplaced(roots[1..], pairs);
      }
    }
  }

  lemma DropOne(a: multiset<Hash>, b: multiset<Hash>, x: Hash)
    ensures multiset{x} + a <= multiset{x} + b <==> a <= b
  {
    var a', b' := multiset{x} + a, multiset{x} + b;
    if a' <= b' {
      forall y | y in a ensures a[y] <= b[y] { assert a'[y] <= b'[y]; }
    }
  }

  lemma DropOther(a: multiset<Hash>, b: multiset<Hash>, x: Hash)
    requires x !in a
    ensures a <= multiset{x} + b <==> a <= b
  {
    var b' := multiset{x} + b;
    if a <= b' {
      forall y | y in a ensures a[y] <= b[y] { assert a[y] <= b'[y]; }
    }
  }

  lemma FirstsNone(pairs: seq<(Hash, Hash)>)
    ensures multiset(Firsts(pairs)) <= multiset([]) <==> pairs == []
  {
    assert |multiset(Firsts(pairs))| == |Firsts(pairs)|;
  }

  lemma FirstsWithout(pairs: seq<(Hash, Hash)>, j: nat)
    requires j < |pairs|
    ensures multiset(Firsts(pairs)) == multiset{pairs[j].0} + multiset(Firsts(pairs[..j] + pairs[j + 1..]))
  {
    hide MapSeq;
    MapWithout(pairs, j, (v: (Hash, Hash)) => v.0);
  }

  lemma {:induction false} FirstsMiss(pairs: seq<(Hash, Hash)>, root: Hash)
    requires FirstOld(pairs, root) == |pairs|
    ensures root !in multiset(Firsts(pairs))
  {
    FirstOldMisses(pairs, root);
    forall i | 0 <= i < |pairs| ensures Firsts(pairs)[i] != root {}
  }

  lemma {:induction false} SumWithout(ms: seq<multiset<nat>>, j: nat)
    requires j < |ms|
    ensures Sum(ms) == ms[j] + Sum(ms[..j] + ms[j + 1..])
  {
    SumConcat(ms[..j], ms[j..]);
    SumConcat(ms[..j], ms[j + 1..]);
    assert ms == ms[..j] + ms[j..];
    assert ms[j..][1..] == ms[j + 1..];
  }

  /** If every pair is claimed, the new roots are the hashes of the trees without the leaves
      that the pairs carry, and those leaves were in the trees. */
  lemma {:induction false} ReplaceSound(trees: seq<Tree>, computed: seq<(Hash, Hash)>, ms: seq<multiset<nat>>)
    requires CommittedRoots(computed, ms)
    requires Distinct(AllIds(trees)) && forall i :: 0 <= i < |trees| ==> trees[i].Nil? || Proper(trees[i])
    requires ReplaceRoots(Hashes(trees), computed).1 == []
    ensures Sum(ms) <= AllIds(trees)
    ensures forall gone: set<nat> :: Agrees(gone, Sum(ms), AllIds(trees)) ==>
              ReplaceRoots(Hashes(trees), computed).0 == Hashes(PruneAll(trees, gone))
  {
    hide Commits, Merkle, Prune, Proper, Sum, Ids, FirstOld;
    if trees == [] {
      SumEmpty(ms);
      return;
    }
    var t, rest := trees[0], trees[1..];
    assert Hashes(trees)[1..] == Hashes(rest);
    DistinctParts(Ids(t), AllIds(rest));
    var j := FirstOld(computed, Merkle(t));
    var computed', ms' := computed, ms;
    if j < |computed| {
      computed', ms' := computed[..j] + computed[j + 1..], ms[..j] + ms[j + 1..];
      SumWithout(ms, j);
      CommitsAt(computed[j], ms[j], t);
    }
    ReplaceSound(rest, computed', ms');
    forall gone: set<nat> | Agrees(gone, Sum(ms), AllIds(trees))
      ensures ReplaceRoots(Hashes(trees), computed).0 == Hashes(PruneAll(trees, gone))
    {
      assert PruneAll(trees, gone)[1..] == PruneAll(rest, gone);
      if j < |computed| {
        AgreesParts(gone, ms[j], Ids(t), Sum(ms'), AllIds(rest));
        CommitsPrune(computed[j], ms[j], t, gone);
      } else {
        assert Sum(ms) == multiset{} + Sum(ms');
        AgreesParts(gone, multiset{}, Ids(t), Sum(ms'), AllIds(rest));
        PruneNothing(t, gone);
      }
    }
  }

  lemma SumEmpty(ms: seq<multiset<nat>>)
    requires ms == []
    ensures Sum(ms) == multiset{}
  {
  }

  lemma CommitsAt(v: (Hash, Hash), dels: multiset<nat>, t: Tree)
    requires Commits(v, dels) && (t.Nil? || Proper(t)) && Distinct(Ids(t)) && Merkle(t) == v.0
    ensures dels <= Ids(t)
  {
    assert CommitsTo(v, dels, t);
  }

  lemma CommitsPrune(v: (Hash, Hash), dels: multiset<nat>, t: Tree, gone: set<nat>)
    requires Commits(v, dels) && (t.Nil? || Proper(t)) && Distinct(Ids(t)) && Merkle(t) == v.0
    requires Agrees(gone, dels, Ids(t))
    ensures Merkle(Prune(t, gone)) == v.1
  {
    assert CommitsTo(v, dels, t);
  }
}
