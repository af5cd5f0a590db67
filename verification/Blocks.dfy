/** What `prove` and `del` do with lists of leaves (src/mem_forest/mod.rs). */
module Blocks {
  import opened Bits
  import opened Positions
  import opened Forest
  import opened ProofPositions
  import opened Slots
  import opened MergeLoop
  import opened ProofEngine
  import opened NodeHeap

  predicate DistinctHashes(hs: seq<Hash>) {
    forall i, j :: 0 <= i < j < |hs| ==> hs[i] != hs[j]
  }

  // ----- proving -----

  /** The positions are those of the leaves, in order. */
  predicate LocatedLeaves(trees: seq<Tree>, n: nat, rows: nat, targets: seq<Hash>, positions: seq<nat>) {
    && |trees| == PopCount(n) && |positions| == |targets| && AllValid(positions, n, rows)
    && forall i :: 0 <= i < |targets| ==>
         targets[i].LeafHash? && At(trees, n, rows, positions[i]) == Tip(targets[i].id)
  }

  lemma LocatedNone(trees: seq<Tree>, n: nat, rows: nat)
    requires |trees| == PopCount(n)
    ensures LocatedLeaves(trees, n, rows, [], [])
  {
  }

  lemma LocatedNext(trees: seq<Tree>, n: nat, rows: nat, targets: seq<Hash>, positions: seq<nat>, target: Hash,
                    pos: nat)
    requires LocatedLeaves(trees, n, rows, targets, positions)
    requires target.LeafHash? && Valid(pos, n, rows) && At(trees, n, rows, pos) == Tip(target.id)
    ensures LocatedLeaves(trees, n, rows, targets + [target], positions + [pos])
  {
    hide Valid, At;
  }

  lemma LocatedFacts(trees: seq<Tree>, n: nat, rows: nat, targets: seq<Hash>, positions: seq<nat>)
    requires LocatedLeaves(trees, n, rows, targets, positions)
    ensures |positions| == |targets| && AllValid(positions, n, rows) && |trees| == PopCount(n)
    ensures forall i :: 0 <= i < |positions| ==> At(trees, n, rows, positions[i]) != Nil
  {
    hide Valid, At;
  }

  /** What `prove` returns for the leaves at `positions`. */
  predicate Proves(trees: seq<Tree>, n: nat, targets: seq<Hash>, positions: seq<U64>, proof: Proof) {
    var rows := TreeRows(n);
    && Fits(n, rows)
    && LocatedLeaves(trees, n, rows, targets, positions)
    && proof.targets == TranslateAll(positions, rows, MAX_FOREST_ROWS)
    && AllValid(Sorted(ProofSet(positions, n, rows)), n, rows)
    && proof.hashes == HashesAt(trees, n, rows, Sorted(ProofSet(positions, n, rows)))
  }

  predicate HashesUpTo(trees: seq<Tree>, n: nat, rows: nat, needed: seq<nat>, hashes: seq<Hash>, j: nat) {
    && |trees| == PopCount(n) && AllValid(needed, n, rows) && |hashes| == j <= |needed|
    && forall k :: 0 <= k < j ==> hashes[k] == Merkle(At(trees, n, rows, needed[k]))
  }

  lemma HashesNone(trees: seq<Tree>, n: nat, rows: nat, needed: seq<nat>)
    requires |trees| == PopCount(n) && AllValid(needed, n, rows)
    ensures HashesUpTo(trees, n, rows, needed, [], 0)
  {
  }

  lemma HashesNext(trees: seq<Tree>, n: nat, rows: nat, needed: seq<nat>, hashes: seq<Hash>, j: nat, hash: Hash)
    requires HashesUpTo(trees, n, rows, needed, hashes, j) && j < |needed|
    requires |trees| == PopCount(n) && Valid(needed[j], n, rows) && hash == Merkle(At(trees, n, rows, needed[j]))
    ensures HashesUpTo(trees, n, rows, needed, hashes + [hash], j + 1)
  {
    hide Valid, At, Merkle;
  }

  lemma NeededSlot(trees: seq<Tree>, n: nat, rows: nat, positions: seq<nat>, needed: seq<nat>, j: nat)
    requires Sound(trees, n, rows) && AllValid(positions, n, rows) && j < |needed|
    requires needed == Sorted(ProofSet(positions, n, rows))
    requires forall i :: 0 <= i < |positions| ==> At(trees, n, rows, positions[i]) != Nil
    ensures Valid(needed[j], n, rows) && At(trees, n, rows, needed[j]) != Nil
  {
    hide ProofSet, WellFormed, At, Valid, Sorted;
    ElementsAt(needed, j);
    SortedIs(ProofSet(positions, n, rows));
    ProofSlotOccupied(trees, n, rows, positions, needed[j]);
  }

  lemma ProvesAll(trees: seq<Tree>, n: nat, targets: seq<Hash>, positions: seq<U64>, needed: seq<nat>, proof: Proof)
    requires Fits(n, TreeRows(n)) && LocatedLeaves(trees, n, TreeRows(n), targets, positions)
    requires AllValid(positions, n, TreeRows(n)) && needed == Sorted(ProofSet(positions, n, TreeRows(n)))
    requires proof.targets == TranslateAll(positions, TreeRows(n), MAX_FOREST_ROWS)
    requires HashesUpTo(trees, n, TreeRows(n), needed, proof.hashes, |needed|)
    ensures Proves(trees, n, targets, positions, proof)
  {
    hide LocatedLeaves, ProofSet, At, Valid, Sorted, Merkle, TreeRows;
    ProofPositionsValid(positions, n, TreeRows(n));
    var ps := Sorted(ProofSet(positions, n, TreeRows(n)));
    LocatedFacts(trees, n, TreeRows(n), targets, positions);
    assert proof.hashes == HashesAt(trees, n, TreeRows(n), ps);
  }

  /** For distinct leaves the proof is an honest one, for these leaves. */
  lemma ProvesHonest(trees: seq<Tree>, n: nat, targets: seq<Hash>, positions: seq<U64>, proof: Proof)
    requires Sound(trees, n, TreeRows(n)) && Proves(trees, n, targets, positions, proof) && DistinctHashes(targets)
    ensures HonestProof(trees, n, positions, proof)
    ensures targets == LeafHashes(TargetIds(trees, n, TreeRows(n), positions))
  {
    hide ProofSet, At, Valid, Sorted, Merkle, TreeRows, WellFormed, Translate;
    var rows := TreeRows(n);
    forall i, j | 0 <= i < j < |positions| ensures positions[i] != positions[j] {
      assert targets[i] != targets[j];
    }
    forall i | 0 <= i < |positions|
      ensures Translate(proof.targets[i], MAX_FOREST_ROWS, rows) == positions[i]
    {
      TranslateRoundTrip(positions[i], n, rows);
    }
    assert TranslateAll(proof.targets, MAX_FOREST_ROWS, rows) == positions;
  }

  // ----- deleting -----

  function SecondsOf(nodes: seq<Node<Hash>>): (hs: seq<Hash>)
    ensures |hs| == |nodes| && forall i :: 0 <= i < |hs| ==> hs[i] == nodes[i].1
  {
    seq(|nodes|, i requires 0 <= i < |nodes| => nodes[i].1)
  }

  lemma SecondsWithout(b: seq<Node<Hash>>, k: nat)
    requires k < |b|
    ensures multiset(SecondsOf(b)) == multiset{b[k].1} + multiset(SecondsOf(b[..k] + b[k + 1..]))
  {
    assert SecondsOf(b[..k] + b[k + 1..]) == SecondsOf(b)[..k] + SecondsOf(b)[k + 1..];
    CountWithout(SecondsOf(b), k);
  }

  lemma CountWithout<T>(s: seq<T>, k: nat)
    requires k < |s|
    ensures multiset(s) == multiset{s[k]} + multiset(s[..k] + s[k + 1..])
  {
    assert s == s[..k] + [s[k]] + s[k + 1..];
  }

  lemma WithoutCount<T>(a: seq<T>, b: seq<T>) returns (k: nat)
    requires multiset(a) == multiset(b) && a != []
    ensures k < |b| && b[k] == a[0] && multiset(a[1..]) == multiset(b[..k] + b[k + 1..])
  {
    k := PermutedAt(a, b, 0);
    assert b == b[..k] + [b[k]] + b[k + 1..];
    assert a == [a[0]] + a[1..];
    assert multiset(a[1..]) == multiset(a) - multiset{a[0]};
    assert multiset(b[..k] + b[k + 1..]) == multiset(b) - multiset{a[0]};
  }

  lemma SecondsFirst(a: seq<Node<Hash>>)
    requires a != []
    ensures multiset(SecondsOf(a)) == multiset{a[0].1} + multiset(SecondsOf(a[1..]))
  {
    SecondsWithout(a, 0);
    assert a[..0] + a[0 + 1..] == a[1..];
  }

  lemma {:induction false} SecondsCount(a: seq<Node<Hash>>, b: seq<Node<Hash>>)
    requires multiset(a) == multiset(b)
    ensures multiset(SecondsOf(a)) == multiset(SecondsOf(b))
    decreases |a|
  {
    hide SecondsOf;
    if a == [] {
      assert |b| == |multiset(b)| == 0;
    } else {
      var k := WithoutCount(a, b);
      var rest := b[..k] + b[k + 1..];
      SecondsCount(a[1..], rest);
      SecondsWithout(b, k);
      SecondsFirst(a);
      assert a[0].1 == b[k].1;
    }
  }

  lemma SecondsPermuted(found: seq<Node<Hash>>, sorted: seq<Node<Hash>>, targets: seq<Hash>)
    requires multiset(sorted) == multiset(found) && |found| == |targets|
    requires forall k :: 0 <= k < |targets| ==> found[k].1 == targets[k]
    ensures multiset(SecondsOf(sorted)) == multiset(targets)
    ensures forall i :: 0 <= i < |sorted| ==> SecondsOf(sorted)[i] in targets
  {
    assert SecondsOf(found) == targets;
    SecondsCount(sorted, found);
    forall i | 0 <= i < |sorted| ensures SecondsOf(sorted)[i] in targets {
      assert SecondsOf(sorted)[i] in multiset(targets);
    }
  }

  lemma PermutedDistinct(a: seq<Hash>, b: seq<Hash>)
    requires multiset(a) == multiset(b)
    ensures DistinctHashes(a) <==> DistinctHashes(b)
  {
    if DistinctHashes(a) { PermutedDistinctOne(a, b); }
    if DistinctHashes(b) { PermutedDistinctOne(b, a); }
  }

  lemma PermutedDistinctOne(a: seq<Hash>, b: seq<Hash>)
    requires multiset(a) == multiset(b) && DistinctHashes(a)
    ensures DistinctHashes(b)
  {
    forall i, j | 0 <= i < j < |b| ensures b[i] != b[j] {
      if b[i] == b[j] {
        CountTwo(b, i, j);
        var k := PermutedAt(b, a, i);
        CountOne(a, k);
      }
    }
  }

  lemma PermutedIds(a: seq<Hash>, b: seq<Hash>)
    requires multiset(a) == multiset(b) && LeafKind(a)
    ensures LeafKind(b) && Elements(IdsOf(a)) == Elements(IdsOf(b))
  {
    forall i | 0 <= i < |b| ensures b[i].LeafHash? && b[i].id in Elements(IdsOf(a)) {
      var k := PermutedAt(b, a, i);
      ElementsAt(IdsOf(a), k);
    }
    forall i | 0 <= i < |a| ensures a[i].id in Elements(IdsOf(b)) {
      var k := PermutedAt(a, b, i);
      ElementsAt(IdsOf(b), k);
    }
    assert forall x :: x in Elements(IdsOf(a)) ==> x in IdsOf(a);
    assert forall x :: x in Elements(IdsOf(b)) ==> x in IdsOf(b);
  }

  /** The map has lost exactly the deleted leaves. */
  ghost predicate Removed(whole: map<Hash, TreeNode>, index: map<Hash, TreeNode>, gone: set<nat>) {
    && (forall k :: k in index <==> k in whole && !(k.LeafHash? && k.id in gone))
    && (forall k :: k in index ==> index[k] == whole[k])
  }

  lemma RemovedNone(index: map<Hash, TreeNode>)
    ensures Removed(index, index, {})
  {
  }

  lemma RemovedAt(whole: map<Hash, TreeNode>, index: map<Hash, TreeNode>, gone: set<nat>, target: Hash)
    requires Removed(whole, index, gone)
    ensures target in index <==> target in whole && !(target.LeafHash? && target.id in gone)
  {
  }

  lemma RemovedNext(whole: map<Hash, TreeNode>, before: map<Hash, TreeNode>, index: map<Hash, TreeNode>, gone: set<nat>,
                    target: Hash)
    requires Removed(whole, before, gone) && index == before - {target} && target.LeafHash?
    ensures Removed(whole, index, gone + {target.id})
  {
  }

  /** The first i leaves of the list are deleted. */
  ghost predicate DeletedUpTo(hs: seq<Hash>, i: nat, gone: set<nat>) {
    i <= |hs| && DistinctHashes(hs[..i]) && LeafKind(hs[..i]) && gone == Elements(IdsOf(hs[..i]))
  }

  lemma DeletedNone(hs: seq<Hash>)
    ensures DeletedUpTo(hs, 0, {})
  {
    assert IdsOf(hs[..0]) == [];
  }

  lemma DeletedAll(hs: seq<Hash>, gone: set<nat>)
    requires DeletedUpTo(hs, |hs|, gone)
    ensures DistinctHashes(hs) && LeafKind(hs) && gone == Elements(IdsOf(hs))
  {
    assert hs[..|hs|] == hs;
  }

  /** A leaf that is no longer in the map was deleted by an earlier round. */
  lemma Repeated(hs: seq<Hash>, i: nat, gone: set<nat>)
    requires i < |hs| && DeletedUpTo(hs, i, gone) && hs[i].LeafHash? && hs[i].id in gone
    ensures !DistinctHashes(hs)
  {
    var j :| 0 <= j < i && IdsOf(hs[..i])[j] == hs[i].id;
    assert hs[j] == hs[i];
  }

  /** Target k is listed once more. */
  predicate Twice(targets: seq<Hash>, k: nat) {
    k < |targets| && exists j :: 0 <= j < |targets| && j != k && targets[j] == targets[k]
  }

  /** Of a list that names a leaf twice, deleted are the leaves up to the lowest one named twice. */
  ghost predicate StopsAt(targets: seq<Hash>, positions: seq<nat>, k: nat, gone: set<nat>)
    requires |positions| == |targets|
  {
    && Twice(targets, k)
    && (forall j :: 0 <= j < |targets| && Twice(targets, j) ==> positions[k] <= positions[j])
    && (forall id :: id in gone <==> exists i :: 0 <= i < |targets| && targets[i] == LeafHash(id)
                                                 && positions[i] <= positions[k])
  }

  lemma {:induction false} TwoPlaces<T>(s: seq<T>, x: T) returns (a: nat, b: nat)
    requires multiset(s)[x] >= 2
    ensures a < b < |s| && s[a] == x && s[b] == x
  {
    assert s == [s[0]] + s[1..];
    if s[0] == x {
      assert x in multiset(s[1..]);
      a := 0;
      b :| 0 < b < |s| && s[b] == x;
    } else {
      a, b := TwoPlaces(s[1..], x);
      a, b := a + 1, b + 1;
    }
  }

  lemma TwiceSorted(found: seq<Node<Hash>>, sorted: seq<Node<Hash>>, i: nat, j: nat) returns (a: nat, b: nat)
    requires multiset(found) == multiset(sorted) && i < |found| && j < |found| && i != j && found[i] == found[j]
    ensures a < b < |sorted| && sorted[a] == found[i] && sorted[b] == found[i]
  {
    if i < j { CountTwo(found, i, j); } else { CountTwo(found, j, i); }
    a, b := TwoPlaces(sorted, found[i]);
  }

  /** The same leaf stands at one position. */
  lemma SamePlace(trees: seq<Tree>, n: nat, rows: nat, targets: seq<Hash>, positions: seq<nat>, i: nat, j: nat)
    requires Sound(trees, n, rows) && LocatedLeaves(trees, n, rows, targets, positions)
    requires i < |targets| && j < |targets|
    ensures |positions| == |targets| && (targets[i] == targets[j] <==> positions[i] == positions[j])
  {
    hide WellFormed, Valid, At;
    if targets[i] == targets[j] { SlotUnique(trees, n, rows, positions[i], positions[j]); }
  }

  lemma RepeatStops(trees: seq<Tree>, n: nat, rows: nat, targets: seq<Hash>, positions: seq<nat>,
                    sorted: seq<Node<Hash>>, i: nat, gone: set<nat>) returns (k: nat)
    requires Sound(trees, n, rows) && LocatedLeaves(trees, n, rows, targets, positions)
    requires multiset(Zip(positions, targets)) == multiset(sorted) && Ordered(sorted) && i < |sorted|
    requires DeletedUpTo(SecondsOf(sorted), i, gone) && sorted[i].1.LeafHash? && sorted[i].1.id in gone
    ensures |positions| == |targets| && StopsAt(targets, positions, k, gone)
  {
    hide WellFormed, Valid, At, LocatedLeaves, IdsOf;
    LocatedFacts(trees, n, rows, targets, positions);
    var found := Zip(positions, targets);
    var x := EarlierSame(SecondsOf(sorted), i, gone);
    SortedPlaces(trees, n, rows, targets, positions, sorted, x, i);
    CountTwo(sorted, x, i);
    var j;
    k, j := TwoPlaces(found, sorted[i]);
    forall t | 0 <= t < |targets| && Twice(targets, t) ensures positions[k] <= positions[t] {
      LowestTwice(trees, n, rows, targets, positions, sorted, i, gone, t);
    }
    forall id ensures id in gone <==> exists y :: 0 <= y < |targets| && targets[y] == LeafHash(id)
                                                  && positions[y] <= positions[k]
    {
      if id in gone { var y := GoneListed(targets, positions, sorted, i, gone, id); }
      forall y | 0 <= y < |targets| && targets[y] == LeafHash(id) && positions[y] <= positions[k] ensures id in gone {
        ListedGone(trees, n, rows, targets, positions, sorted, i, gone, y, k);
      }
    }
  }

  lemma EarlierSame(hs: seq<Hash>, i: nat, gone: set<nat>) returns (x: nat)
    requires i < |hs| && DeletedUpTo(hs, i, gone) && hs[i].LeafHash? && hs[i].id in gone
    ensures x < i && hs[x] == hs[i]
  {
    x :| 0 <= x < i && IdsOf(hs[..i])[x] == hs[i].id;
  }

  lemma SortedPlaces(trees: seq<Tree>, n: nat, rows: nat, targets: seq<Hash>, positions: seq<nat>,
                     sorted: seq<Node<Hash>>, x: nat, i: nat)
    requires Sound(trees, n, rows) && LocatedLeaves(trees, n, rows, targets, positions)
    requires multiset(Zip(positions, targets)) == multiset(sorted) && x < |sorted| && i < |sorted|
    ensures sorted[x].1 == sorted[i].1 <==> sorted[x].0 == sorted[i].0
  {
    hide WellFormed, Valid, At;
    var y := PermutedAt(sorted, Zip(positions, targets), x);
    var k := PermutedAt(sorted, Zip(positions, targets), i);
    SamePlace(trees, n, rows, targets, positions, y, k);
  }

  /** Had a lower leaf been listed twice, the loop would have stopped there. */
  lemma LowestTwice(trees: seq<Tree>, n: nat, rows: nat, targets: seq<Hash>, positions: seq<nat>,
                    sorted: seq<Node<Hash>>, i: nat, gone: set<nat>, t: nat)
    requires Sound(trees, n, rows) && LocatedLeaves(trees, n, rows, targets, positions)
    requires multiset(Zip(positions, targets)) == multiset(sorted) && Ordered(sorted) && i < |sorted|
    requires DeletedUpTo(SecondsOf(sorted), i, gone) && Twice(targets, t)
    ensures |positions| == |targets| && sorted[i].0 <= positions[t]
  {
    hide WellFormed, Valid, At, IdsOf, DeletedUpTo, LocatedLeaves, DistinctHashes;
    LocatedFacts(trees, n, rows, targets, positions);
    var u :| 0 <= u < |targets| && u != t && targets[u] == targets[t];
    SamePlace(trees, n, rows, targets, positions, t, u);
    var found := Zip(positions, targets);
    var a, b := TwiceSorted(found, sorted, t, u);
    AfterFirst(SecondsOf(sorted), i, gone, a, b);
  }

  lemma AfterFirst(hs: seq<Hash>, i: nat, gone: set<nat>, a: nat, b: nat)
    requires DeletedUpTo(hs, i, gone) && a < b < |hs| && hs[a] == hs[b]
    ensures i <= b
  {
    hide IdsOf;
    var first := hs[..i];
    assert forall x :: 0 <= x < |first| ==> first[x] == hs[x];
  }

  lemma GoneListed(targets: seq<Hash>, positions: seq<nat>, sorted: seq<Node<Hash>>, i: nat, gone: set<nat>, id: nat)
    returns (y: nat)
    requires |positions| == |targets| && multiset(Zip(positions, targets)) == multiset(sorted) && Ordered(sorted)
    requires i < |sorted| && DeletedUpTo(SecondsOf(sorted), i, gone) && id in gone
    ensures y < |targets| && targets[y] == LeafHash(id) && positions[y] <= sorted[i].0
  {
    var x :| 0 <= x < i && IdsOf(SecondsOf(sorted)[..i])[x] == id;
    assert SecondsOf(sorted)[..i][x] == sorted[x].1;
    y := PermutedAt(sorted, Zip(positions, targets), x);
  }

  lemma ListedGone(trees: seq<Tree>, n: nat, rows: nat, targets: seq<Hash>, positions: seq<nat>,
                   sorted: seq<Node<Hash>>, i: nat, gone: set<nat>, y: nat, k: nat)
    requires Sound(trees, n, rows) && LocatedLeaves(trees, n, rows, targets, positions)
    requires multiset(Zip(positions, targets)) == multiset(sorted) && Ordered(sorted) && i < |sorted|
    requires DeletedUpTo(SecondsOf(sorted), i, gone) && sorted[i].1.LeafHash? && sorted[i].1.id in gone
    requires y < |targets| && k < |targets| && |positions| == |targets| && (positions[k], targets[k]) == sorted[i]
    requires positions[y] <= positions[k]
    ensures targets[y].LeafHash? && targets[y].id in gone
  {
    hide WellFormed, Valid, At;
    var x := PermutedAt(Zip(positions, targets), sorted, y);
    if x < i {
      assert SecondsOf(sorted)[..i][x] == targets[y];
      ElementsAt(IdsOf(SecondsOf(sorted)[..i]), x);
    } else {
      SamePlace(trees, n, rows, targets, positions, y, k);
    }
  }

  lemma DeletedNext(hs: seq<Hash>, i: nat, gone: set<nat>, target: Hash)
    requires DeletedUpTo(hs, i, gone) && i < |hs| && hs[i] == target && target.LeafHash? && target.id !in gone
    ensures DeletedUpTo(hs, i + 1, gone + {target.id})
  {
    var ids := IdsOf(hs[..i]);
    assert hs[..i + 1] == hs[..i] + [target];
    assert IdsOf(hs[..i + 1]) == ids + [target.id];
    ElementsAppend(ids, target.id);
    forall j | 0 <= j < i ensures hs[j] != target { ElementsAt(ids, j); }
  }

  lemma PruneAllNothing(trees: seq<Tree>, n: nat)
    requires WellFormed(trees, n)
    ensures PruneAll(trees, {}) == trees
  {
    forall i | 0 <= i < |trees| ensures Prune(trees[i], {}) == trees[i] {
      ShapeEach(trees, n, 0, i);
      PruneNothing(trees[i], {});
    }
  }

  lemma GoneHashes(del: seq<Hash>, gone: set<nat>)
    requires LeafKind(del) && gone == Elements(IdsOf(del))
    ensures forall k: Hash :: k in del <==> k.LeafHash? && k.id in gone
  {
    forall i | 0 <= i < |del| ensures del[i].id in gone { ElementsAt(IdsOf(del), i); }
    forall x | x in gone ensures LeafHash(x) in del {
      var i :| 0 <= i < |del| && IdsOf(del)[i] == x;
      assert del[i] == LeafHash(x);
    }
  }
}
