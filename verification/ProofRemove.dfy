/** `update_proof_remove` (src/proof/mod.rs): the updated proof is the proof that a prover would
    compute in the forest after the deletion. */
module ProofRemovals {
  import opened Bits
  import opened Positions
  import opened Forest
  import opened ProofPositions
  import opened Slots
  import opened Walks
  import opened MergeLoop
  import opened ProofEngine
  import opened ProofChecks
  import opened Moves
  import opened Detwins
  import opened TopSlots
  import opened Survivors
  import opened MoveOrders
  import opened ProofMoves
  import opened ProofUpdates

  /** `iter().find(..)` by position. */
  function FindHash(nodes: seq<Node<Hash>>, pos: nat): Option<Hash> {
    if nodes == [] then None
    else if nodes[0].0 == pos then Some(nodes[0].1)
    else FindHash(nodes[1..], pos)
  }

  lemma {:induction false} FindCarries(nodes: seq<Node<Hash>>, pos: nat, val: nat -> Hash)
    requires Carries(nodes, val)
    ensures FindHash(nodes, pos) == if Holds(nodes, pos) then Some(val(pos)) else None
  {
    if nodes != [] {
      FindCarries(nodes[1..], pos, val);
      assert nodes == [nodes[0]] + nodes[1..];
      HoldsConcat([nodes[0]], nodes[1..], pos);
      HoldsOne(nodes[0], pos);
    }
  }

  /** The hash of what survives at a slot. */
  function After(trees: seq<Tree>, n: nat, rows: nat, gone: set<nat>): nat -> Hash
    requires |trees| == PopCount(n)
  {
    (p: nat) => if Valid(p, n, rows) then Merkle(Prune(At(trees, n, rows, p), gone)) else Empty
  }

  /** A block that deletes the leaves at `block`, in any order, and what `modify` reports of it. */
  ghost predicate BlockData(trees: seq<Tree>, n: nat, block: seq<nat>, gone: set<nat>, updated: seq<Node<Hash>>) {
    && Sound(trees, n, TreeRows(n)) && LeafTargets(trees, n, TreeRows(n), block)
    && gone == Elements(TargetIds(trees, n, TreeRows(n), block))
    && SurvivingNodes(trees, n, block, gone, updated)
  }

  lemma BlockDeletes(trees: seq<Tree>, n: nat, block: seq<nat>, gone: set<nat>, updated: seq<Node<Hash>>, ds: seq<nat>)
    requires BlockData(trees, n, block, gone, updated) && Fits(n, TreeRows(n)) && Tops(block, ds, n, TreeRows(n))
    ensures Deletion(trees, n, TreeRows(n), block, ds, gone)
  {
    hide Tops, WellFormed, At, Valid, SurvivingNodes, TreeRows;
  }

  lemma UpdatedCarries(trees: seq<Tree>, n: nat, block: seq<nat>, gone: set<nat>, updated: seq<Node<Hash>>)
    requires BlockData(trees, n, block, gone, updated)
    ensures |trees| == PopCount(n) && Fits(n, TreeRows(n)) && AllValid(block, n, TreeRows(n))
    ensures Carries(updated, After(trees, n, TreeRows(n), gone))
    ensures forall p :: Holds(updated, p) <==> p in Path(block, n, TreeRows(n)) || p in ProofSet(block, n, TreeRows(n))
  {
    hide WellFormed, At, Valid, TreeRows, Path, ProofSet, Prune, Merkle;
  }

  // ----- the targets that remain -----

  lemma {:induction false} ExceptDistinct<T>(nodes: seq<Node<T>>, positions: seq<nat>)
    requires DistinctPositions(nodes)
    ensures DistinctPositions(Except(nodes, positions))
    ensures forall i :: 0 <= i < |Except(nodes, positions)| ==> Except(nodes, positions)[i] in nodes
  {
    if nodes != [] {
      var rest := Except(nodes[1..], positions);
      ExceptDistinct(nodes[1..], positions);
      forall i | 0 <= i < |rest| ensures rest[i].0 != nodes[0].0 && rest[i] in nodes {
        assert rest[i] in nodes[1..];
      }
    }
  }

  /** The remaining targets with their leaf hashes. */
  ghost predicate Remaining(trees: seq<Tree>, n: nat, rows: nat, targets: seq<nat>, block: seq<nat>,
                            nodes: seq<Node<Hash>>)
    requires |trees| == PopCount(n)
  {
    && DistinctPositions(nodes) && Carries(nodes, Current(trees, n, rows))
    && (forall p :: Holds(nodes, p) <==> p in targets && p !in block)
  }

  lemma RemainingTargets(trees: seq<Tree>, n: nat, proof: Proof, cached: seq<Hash>, block: seq<nat>)
    requires CurrentProof(trees, n, proof, cached)
    ensures |trees| == PopCount(n)
    ensures Remaining(trees, n, TreeRows(n), proof.targets, block, Except(Zip(proof.targets, cached), block))
  {
    hide WellFormed, At, Valid, TreeRows, Except, CurrentProof, Current, Zip;
    var zipped := Zip(proof.targets, cached);
    TargetNodes(trees, n, proof, cached);
    ExceptHolds(zipped, block, Current(trees, n, TreeRows(n)));
    ExceptDistinct(zipped, block);
  }

  lemma TargetNodes(trees: seq<Tree>, n: nat, proof: Proof, cached: seq<Hash>)
    requires CurrentProof(trees, n, proof, cached)
    ensures |trees| == PopCount(n) && DistinctPositions(Zip(proof.targets, cached))
    ensures Carries(Zip(proof.targets, cached), Current(trees, n, TreeRows(n)))
    ensures forall p :: Holds(Zip(proof.targets, cached), p) <==> p in proof.targets
  {
    hide CurrentProof, TreeRows, Zip, Current;
    TargetsCarry(trees, n, proof, cached);
    ZipHolds(proof.targets, cached);
  }

  lemma TargetsCarry(trees: seq<Tree>, n: nat, proof: Proof, cached: seq<Hash>)
    requires CurrentProof(trees, n, proof, cached)
    ensures |trees| == PopCount(n) && |proof.targets| == |cached| && DistinctPositions(Zip(proof.targets, cached))
    ensures Carries(Zip(proof.targets, cached), Current(trees, n, TreeRows(n)))
  {
    hide WellFormed, At, Valid, TreeRows, HonestHashes;
    CurrentTargets(trees, n, proof, cached);
  }

  lemma RemainingFacts(trees: seq<Tree>, n: nat, rows: nat, targets: seq<nat>, block: seq<nat>, gone: set<nat>,
                       nodes: seq<Node<Hash>>)
    requires Sound(trees, n, rows) && LeafTargets(trees, n, rows, targets) && LeafTargets(trees, n, rows, block)
    requires gone == Elements(TargetIds(trees, n, rows, block))
    requires Remaining(trees, n, rows, targets, block, nodes)
    ensures LeafTargets(trees, n, rows, PositionsIn(nodes)) && ValidNodes(nodes, n, rows)
    ensures Elements(PositionsIn(nodes)) <= Elements(targets)
    ensures forall i :: 0 <= i < |nodes| ==>
              && nodes[i].1 == LeafHash(TargetIds(trees, n, rows, PositionsIn(nodes))[i])
              && TargetIds(trees, n, rows, PositionsIn(nodes))[i] !in gone
              && !AllBelow(nodes[i].0, block, n, rows)
  {
    hide WellFormed, At, Valid, AllBelow;
    forall i | 0 <= i < |nodes|
      ensures Valid(nodes[i].0, n, rows) && At(trees, n, rows, nodes[i].0).Tip? && nodes[i].0 in targets
    {
      assert Holds(nodes, nodes[i].0);
      var j :| 0 <= j < |targets| && targets[j] == nodes[i].0;
    }
    forall i | 0 <= i < |nodes|
      ensures nodes[i].1 == LeafHash(TargetIds(trees, n, rows, PositionsIn(nodes))[i])
      ensures TargetIds(trees, n, rows, PositionsIn(nodes))[i] !in gone && !AllBelow(nodes[i].0, block, n, rows)
    {
      RemainingLeaf(trees, n, rows, targets, block, nodes, i);
    }
  }

  lemma RemainingLeaf(trees: seq<Tree>, n: nat, rows: nat, targets: seq<nat>, block: seq<nat>, nodes: seq<Node<Hash>>,
                      i: nat)
    requires Sound(trees, n, rows) && LeafTargets(trees, n, rows, block)
    requires Remaining(trees, n, rows, targets, block, nodes) && i < |nodes|
    requires Valid(nodes[i].0, n, rows) && At(trees, n, rows, nodes[i].0).Tip?
    ensures At(trees, n, rows, nodes[i].0).id !in Elements(TargetIds(trees, n, rows, block))
    ensures !AllBelow(nodes[i].0, block, n, rows)
  {
    hide WellFormed, At, Valid, AllBelow;
    var ids := TargetIds(trees, n, rows, block);
    var id := At(trees, n, rows, nodes[i].0).id;
    assert Holds(nodes, nodes[i].0);
    if id in Elements(ids) {
      var j :| 0 <= j < |ids| && ids[j] == id;
      SlotUnique(trees, n, rows, nodes[i].0, block[j]);
    }
    if AllBelow(nodes[i].0, block, n, rows) {
      CoveredGone(trees, n, rows, block, nodes[i].0);
    }
  }

  // ----- the hashes that are still needed -----

  /** One hash for each slot in `wanted` with something left below it. */
  ghost predicate Collected(nodes: seq<Node<Hash>>, wanted: set<nat>, val: nat -> Hash) {
    && StrictlyOrdered(nodes) && Carries(nodes, val)
    && forall q :: Holds(nodes, q) <==> q in wanted && !val(q).Empty?
  }

  lemma CollectedNone(val: nat -> Hash)
    ensures Collected([], {}, val)
  {
  }

  lemma CollectedNext(nodes: seq<Node<Hash>>, wanted: set<nat>, val: nat -> Hash, q: nat, take: bool)
    requires Collected(nodes, wanted, val) && forall x :: x in wanted ==> x < q
    ensures if take && !val(q).Empty? then Collected(nodes + [(q, val(q))], wanted + {q}, val)
            else Collected(nodes, if take then wanted + {q} else wanted, val)
  {
    if take && !val(q).Empty? {
      var next := nodes + [(q, val(q))];
      forall i | 0 <= i < |nodes| ensures nodes[i].0 < q { assert Holds(nodes, nodes[i].0); }
      forall p ensures Holds(next, p) <==> Holds(nodes, p) || p == q {
        HoldsConcat(nodes, [(q, val(q))], p);
        HoldsOne((q, val(q)), p);
      }
    }
  }

  /** Two collections at different slots, one after the other. */
  lemma CollectedBoth(a: seq<Node<Hash>>, b: seq<Node<Hash>>, v: set<nat>, w: set<nat>, val: nat -> Hash)
    requires Collected(a, v, val) && Collected(b, w, val) && v !! w
    ensures DistinctPositions(a + b) && Carries(a + b, val)
    ensures forall q :: Holds(a + b, q) <==> q in v + w && !val(q).Empty?
    ensures forall i :: 0 <= i < |a + b| ==> !(a + b)[i].1.Empty?
  {
    forall q ensures Holds(a + b, q) <==> q in v + w && !val(q).Empty? { HoldsConcat(a, b, q); }
    forall i | 0 <= i < |a| ensures a[i].0 in v && !a[i].1.Empty? { assert Holds(a, a[i].0); }
    forall i | 0 <= i < |b| ensures b[i].0 in w && !b[i].1.Empty? { assert Holds(b, b[i].0); }
  }

  /** An old proof hash that is still needed, refreshed. */
  lemma OldHash(trees: seq<Tree>, n: nat, rows: nat, block: seq<nat>, gone: set<nat>, updated: seq<Node<Hash>>,
                pos: nat, hash: Hash)
    requires BlockData(trees, n, block, gone, updated) && rows == TreeRows(n)
    requires |trees| == PopCount(n) && Valid(pos, n, rows) && hash == Merkle(At(trees, n, rows, pos))
    ensures var found := FindHash(updated, pos);
            After(trees, n, rows, gone)(pos) == if found.Some? then found.value else hash
  {
    hide WellFormed, At, Valid, TreeRows, Path, ProofSet, FindHash, SurvivingNodes, Prune, Merkle;
    UpdatedCarries(trees, n, block, gone, updated);
    FindCarries(updated, pos, After(trees, n, rows, gone));
    if !Holds(updated, pos) { OffPathUnchanged(trees, n, rows, block, pos); }
  }

  /** A needed hash that the old proof lacks is on a path of the block, or is gone. */
  lemma NewHash(trees: seq<Tree>, n: nat, rows: nat, block: seq<nat>, gone: set<nat>, updated: seq<Node<Hash>>,
                targets: seq<nat>, part: seq<nat>, pos: nat)
    requires BlockData(trees, n, block, gone, updated) && rows == TreeRows(n)
    requires |trees| == PopCount(n) && Fits(n, rows) && AllValid(targets, n, rows) && AllValid(part, n, rows)
    requires forall p :: p in part <==> p in targets && p !in block
    requires pos in ProofSet(part, n, rows) && pos !in ProofSet(targets, n, rows)
    ensures var found := FindHash(updated, pos);
            if pos in block then After(trees, n, rows, gone)(pos).Empty?
            else found == Some(After(trees, n, rows, gone)(pos))
  {
    hide WellFormed, At, Valid, TreeRows, Path, PathOf, ProofSet, FindHash, SurvivingNodes, Merkle, Sibling,
      IsRootPosition;
    UpdatedCarries(trees, n, block, gone, updated);
    FindCarries(updated, pos, After(trees, n, rows, gone));
    forall p | p in Elements(part) ensures p in Elements(targets) { assert p in part; }
    SubsetKnown(n, rows, targets, part, pos);
    ProofSetMember(part, n, rows, pos);
    PathMember(targets, n, rows, pos);
    var i :| 0 <= i < |targets| && pos in PathOf(targets[i], n, rows);
    if targets[i] in part {
      var j :| 0 <= j < |part| && part[j] == targets[i];
      PathMember(part, n, rows, pos);
    }
    assert targets[i] in block;
    var k :| 0 <= k < |block| && block[k] == targets[i];
    PathMember(block, n, rows, pos);
    if pos in block { BlockLeafGone(trees, n, block, gone, updated, pos); }
  }

  lemma BlockLeafGone(trees: seq<Tree>, n: nat, block: seq<nat>, gone: set<nat>, updated: seq<Node<Hash>>, pos: nat)
    requires BlockData(trees, n, block, gone, updated) && pos in block
    ensures |trees| == PopCount(n) && Valid(pos, n, TreeRows(n)) && After(trees, n, TreeRows(n), gone)(pos).Empty?
  {
    hide WellFormed, At, Valid, TreeRows, SurvivingNodes;
    var i :| 0 <= i < |block| && block[i] == pos;
    ElementsAt(TargetIds(trees, n, TreeRows(n), block), i);
  }

  /** The hashes of the proof after the deletion, before they are moved. */
  ghost predicate Refreshed(trees: seq<Tree>, n: nat, rows: nat, gone: set<nat>, part: seq<nat>, nodes: seq<Node<Hash>>)
    requires |trees| == PopCount(n) && Fits(n, rows) && AllValid(part, n, rows)
  {
    && DistinctPositions(nodes) && Carries(nodes, After(trees, n, rows, gone))
    && (forall q :: Holds(nodes, q) <==> q in ProofSet(part, n, rows) && !After(trees, n, rows, gone)(q).Empty?)
    && (forall i :: 0 <= i < |nodes| ==> !nodes[i].1.Empty?)
  }

  /** The two loops of `update_proof_remove`. */
  method RefreshProof(oldProof: seq<Node<Hash>>, proofPositions: seq<nat>, needed: seq<nat>, blockTargets: seq<nat>,
                      updated: seq<Node<Hash>>, n: nat, ghost trees: seq<Tree>, ghost gone: set<nat>,
                      ghost targets: seq<nat>, ghost part: seq<nat>)
    returns (newProof: seq<Node<Hash>>)
    requires BlockData(trees, n, blockTargets, gone, updated)
    requires |trees| == PopCount(n) && Fits(n, TreeRows(n))
    requires AllValid(targets, n, TreeRows(n)) && AllValid(part, n, TreeRows(n))
    requires forall p :: p in part <==> p in targets && p !in blockTargets
    requires Ascending(proofPositions) && Elements(proofPositions) == ProofSet(targets, n, TreeRows(n))
    requires Ascending(needed) && Elements(needed) == ProofSet(part, n, TreeRows(n))
    requires |oldProof| == |proofPositions|
    requires forall i :: 0 <= i < |oldProof| ==> oldProof[i].0 == proofPositions[i]
    requires Carries(oldProof, Current(trees, n, TreeRows(n)))
    ensures Refreshed(trees, n, TreeRows(n), gone, part, newProof)
  {
    hide WellFormed, At, Valid, TreeRows, Path, ProofSet, FindHash, BlockData, Prune, Merkle, Collected, Refreshed,
      After, Current, AllValid, Ascending;
    ghost var val := After(trees, n, TreeRows(n), gone);
    newProof := [];
    ghost var v: set<nat> := {};
    CollectedNone(val);
    for i := 0 to |oldProof|
      invariant Collected(newProof, v, val)
      invariant forall q :: q in v <==> q in proofPositions[..i] && q in needed
    {
      var (pos, hash) := oldProof[i];
      assert proofPositions[..i + 1] == proofPositions[..i] + [pos];
      OldProofHash(trees, n, blockTargets, gone, updated, targets, proofPositions, oldProof, i);
      AscendingBefore(proofPositions, i);
      CollectedNext(newProof, v, val, pos, pos in needed);
      if pos in needed {
        v := v + {pos};
        var found := FindHash(updated, pos);
        if found.Some? {
          if !found.value.Empty? { newProof := newProof + [(pos, found.value)]; }
        } else {
          if !hash.Empty? { newProof := newProof + [(pos, hash)]; }
        }
      }
    }
    ghost var first := newProof;
    ghost var extra: seq<Node<Hash>> := [];
    ghost var w: set<nat> := {};
    assert proofPositions[..|oldProof|] == proofPositions;
    assert first + extra == newProof;
    for i := 0 to |needed|
      invariant newProof == first + extra && Collected(extra, w, val)
      invariant forall q :: q in w <==> q in needed[..i] && q !in proofPositions
    {
      var missing := needed[i];
      assert needed[..i + 1] == needed[..i] + [missing];
      AscendingBefore(needed, i);
      CollectedNext(extra, w, val, missing, missing !in proofPositions);
      if missing !in proofPositions {
        w := w + {missing};
        MissingHash(trees, n, blockTargets, gone, updated, targets, part, proofPositions, needed, i);
        if missing !in blockTargets {
          var found := FindHash(updated, missing);
          if found.Some? && !found.value.Empty? {
            newProof := newProof + [(missing, found.value)];
            extra := extra + [(missing, found.value)];
          }
        }
      }
    }
    assert needed[..|needed|] == needed;
    CollectedBoth(first, extra, v, w, val);
    RefreshedAll(trees, n, gone, part, needed, newProof, v + w);
  }

  lemma AscendingBefore(s: seq<nat>, i: nat)
    requires Ascending(s) && i < |s|
    ensures forall x :: x in s[..i] ==> x < s[i]
  {
  }

  lemma OldProofHash(trees: seq<Tree>, n: nat, block: seq<nat>, gone: set<nat>, updated: seq<Node<Hash>>,
                     targets: seq<nat>, proofPositions: seq<nat>, oldProof: seq<Node<Hash>>, i: nat)
    requires BlockData(trees, n, block, gone, updated)
    requires |trees| == PopCount(n) && Fits(n, TreeRows(n)) && AllValid(targets, n, TreeRows(n))
    requires Elements(proofPositions) == ProofSet(targets, n, TreeRows(n)) && i < |proofPositions| == |oldProof|
    requires oldProof[i].0 == proofPositions[i] && Carries(oldProof, Current(trees, n, TreeRows(n)))
    ensures var found := FindHash(updated, proofPositions[i]);
            After(trees, n, TreeRows(n), gone)(proofPositions[i]) == if found.Some? then found.value else oldProof[i].1
  {
    hide WellFormed, At, TreeRows, Path, ProofSet, FindHash, BlockData, Prune, Merkle, After, Valid;
    ElementsAt(proofPositions, i);
    ProofSetValid(targets, n, TreeRows(n), proofPositions[i]);
    OldHash(trees, n, TreeRows(n), block, gone, updated, proofPositions[i], oldProof[i].1);
  }

  lemma MissingHash(trees: seq<Tree>, n: nat, block: seq<nat>, gone: set<nat>, updated: seq<Node<Hash>>,
                    targets: seq<nat>, part: seq<nat>, proofPositions: seq<nat>, needed: seq<nat>, i: nat)
    requires BlockData(trees, n, block, gone, updated)
    requires |trees| == PopCount(n) && Fits(n, TreeRows(n)) && AllValid(targets, n, TreeRows(n))
    requires AllValid(part, n, TreeRows(n))
    requires forall p :: p in part <==> p in targets && p !in block
    requires Elements(proofPositions) == ProofSet(targets, n, TreeRows(n))
    requires Elements(needed) == ProofSet(part, n, TreeRows(n)) && i < |needed| && needed[i] !in proofPositions
    ensures var found := FindHash(updated, needed[i]);
            if needed[i] in block then After(trees, n, TreeRows(n), gone)(needed[i]).Empty?
            else found == Some(After(trees, n, TreeRows(n), gone)(needed[i]))
  {
    hide WellFormed, At, TreeRows, Path, ProofSet, FindHash, BlockData, Prune, Merkle, After, Valid;
    ElementsAt(needed, i);
    NewHash(trees, n, TreeRows(n), block, gone, updated, targets, part, needed[i]);
  }

  lemma RefreshedAll(trees: seq<Tree>, n: nat, gone: set<nat>, part: seq<nat>, needed: seq<nat>, nodes: seq<Node<Hash>>,
                     w: set<nat>)
    requires |trees| == PopCount(n) && Fits(n, TreeRows(n)) && AllValid(part, n, TreeRows(n))
    requires Elements(needed) == ProofSet(part, n, TreeRows(n)) && forall q :: q in w <==> q in needed
    requires DistinctPositions(nodes) && Carries(nodes, After(trees, n, TreeRows(n), gone))
    requires forall q :: Holds(nodes, q) <==> q in w && !After(trees, n, TreeRows(n), gone)(q).Empty?
    requires forall i :: 0 <= i < |nodes| ==> !nodes[i].1.Empty?
    ensures Refreshed(trees, n, TreeRows(n), gone, part, nodes)
  {
    hide At, TreeRows, ProofSet, After, Valid;
    forall q ensures q in w <==> q in ProofSet(part, n, TreeRows(n)) { InElements(needed, q); }
  }

  // ----- moving targets and hashes -----

  lemma {:induction false} MovedNodesAt(nodes: seq<Node<Hash>>, dels: set<nat>, n: nat, rows: nat)
    requires Fits(n, rows) && ValidNodes(nodes, n, rows)
    requires forall i :: 0 <= i < |nodes| ==> !nodes[i].1.Empty?
    ensures |MovedNodes(nodes, dels, n, rows, true)| == |nodes|
    ensures forall i :: 0 <= i < |nodes| ==>
              MovedNodes(nodes, dels, n, rows, true)[i] == (Moved(nodes[i].0, dels, n, rows), nodes[i].1)
    decreases |nodes|
  {
    hide Valid, Moved, IsRootPosition;
    if nodes != [] { MovedNodesAt(nodes[..|nodes| - 1], dels, n, rows); }
  }

  /** Whichever list of deleted subtrees is used, an occupied node moves to one slot. */
  lemma MovedSame(trees: seq<Tree>, n: nat, rows: nat, block: seq<nat>, ds: seq<nat>, es: seq<nat>, gone: set<nat>,
                  p: nat)
    requires Deletion(trees, n, rows, block, ds, gone) && Deletion(trees, n, rows, block, es, gone)
    requires Valid(p, n, rows) && At(trees, n, rows, p) != Nil && Kept(p, ds, n, rows)
    ensures Moved(p, Elements(ds), n, rows) == Moved(p, Elements(es), n, rows)
  {
    hide Valid, At, WellFormed, Tops, Kept, Moved, PruneAll, LeafTargets, RowOf;
    KeptSurvives(trees, n, rows, block, ds, gone, p);
    KeptSurvives(trees, n, rows, block, es, gone, p);
    MovedAt(trees, n, rows, block, ds, gone, p);
    MovedAt(trees, n, rows, block, es, gone, p);
    PrunedSound(trees, n, rows, gone);
    SlotUnique(PruneAll(trees, gone), n, rows, Moved(p, Elements(ds), n, rows), Moved(p, Elements(es), n, rows));
  }

  /** A permutation of the moved nodes holds the moved positions. */
  lemma PermutedTargets(nodes: seq<Node<Hash>>, sorted: seq<Node<Hash>>, m: seq<Node<Hash>>, ds: seq<nat>, n: nat,
                        rows: nat)
    requires Fits(n, rows) && AllValid(PositionsIn(nodes), n, rows) && multiset(sorted) == multiset(m) && |m| == |nodes|
    requires forall i :: 0 <= i < |nodes| ==> Kept(PositionsIn(nodes)[i], ds, n, rows)
    requires forall i :: 0 <= i < |nodes| ==> m[i].0 == Moved(PositionsIn(nodes)[i], Elements(ds), n, rows)
    ensures MovedTargets(PositionsIn(nodes), PositionsIn(sorted), ds, n, rows)
  {
    hide Valid, Moved, Kept, Elements, ComesFrom;
    var kept, moved := PositionsIn(nodes), PositionsIn(sorted);
    forall i | 0 <= i < |kept| ensures Moved(kept[i], Elements(ds), n, rows) in moved {
      var k := PermutedAt(m, sorted, i);
      assert moved[k] == m[i].0;
    }
    forall k | 0 <= k < |moved| ensures Valid(moved[k], n, rows) && ComesFrom(moved[k], kept, ds, n, rows) {
      var j := PermutedAt(sorted, m, k);
      MovedFrom(moved[k], kept, ds, n, rows, j);
    }
  }

  lemma MovedFrom(p: nat, kept: seq<nat>, ds: seq<nat>, n: nat, rows: nat, j: nat)
    requires Fits(n, rows) && AllValid(kept, n, rows) && j < |kept| && p == Moved(kept[j], Elements(ds), n, rows)
    ensures Valid(p, n, rows) && ComesFrom(p, kept, ds, n, rows)
  {
    hide Valid, Moved;
  }

  lemma RemainingKept(trees: seq<Tree>, n: nat, rows: nat, block: seq<nat>, ds: seq<nat>, gone: set<nat>,
                      targets: seq<nat>, nodes: seq<Node<Hash>>)
    requires Deletion(trees, n, rows, block, ds, gone) && LeafTargets(trees, n, rows, targets) && |trees| == PopCount(n)
    requires Remaining(trees, n, rows, targets, block, nodes)
    ensures LeafTargets(trees, n, rows, PositionsIn(nodes)) && ValidNodes(nodes, n, rows)
    ensures Fits(n, rows) && AllValid(ds, n, rows) && AllValid(PositionsIn(nodes), n, rows)
    ensures forall i :: 0 <= i < |nodes| ==> Kept(PositionsIn(nodes)[i], ds, n, rows)
    ensures forall i :: 0 <= i < |nodes| ==> !nodes[i].1.Empty?
  {
    hide WellFormed, At, Valid, Kept, AllBelow, Remaining;
    RemainingFacts(trees, n, rows, targets, block, gone, nodes);
    forall i | 0 <= i < |nodes| ensures Kept(PositionsIn(nodes)[i], ds, n, rows) {
      KeptUncovered(nodes[i].0, block, ds, n, rows);
    }
  }

  /** Remaining targets and their slots after the deletion. */
  lemma TargetsMove(trees: seq<Tree>, n: nat, rows: nat, block: seq<nat>, ds: seq<nat>, gone: set<nat>,
                    targets: seq<nat>, nodes: seq<Node<Hash>>, sorted: seq<Node<Hash>>)
    requires Deletion(trees, n, rows, block, ds, gone) && LeafTargets(trees, n, rows, targets)
    requires Remaining(trees, n, rows, targets, block, nodes) && ValidNodes(nodes, n, rows)
    requires multiset(sorted) == multiset(MovedNodes(nodes, Elements(ds), n, rows, true))
    ensures Setting(trees, n, rows, block, ds, gone, PositionsIn(nodes), PositionsIn(sorted))
    ensures |MovedNodes(nodes, Elements(ds), n, rows, true)| == |nodes|
    ensures forall i :: 0 <= i < |nodes| ==>
              MovedNodes(nodes, Elements(ds), n, rows, true)[i] ==
                  (Moved(nodes[i].0, Elements(ds), n, rows), nodes[i].1)
  {
    hide WellFormed, At, Valid, Moved, MovedNodes, Tops, Kept, AllBelow, LeafTargets, PathOf, Elements, Remaining,
      MovedTargets;
    RemainingKept(trees, n, rows, block, ds, gone, targets, nodes);
    MovedNodesAt(nodes, Elements(ds), n, rows);
    PermutedTargets(nodes, sorted, MovedNodes(nodes, Elements(ds), n, rows, true), ds, n, rows);
  }

  /** The remaining targets are the leaves at the new slots, with their hashes. */
  lemma TargetsAfter(trees: seq<Tree>, n: nat, rows: nat, block: seq<nat>, ds: seq<nat>, gone: set<nat>,
                     targets: seq<nat>, nodes: seq<Node<Hash>>, sorted: seq<Node<Hash>>)
    requires Deletion(trees, n, rows, block, ds, gone) && LeafTargets(trees, n, rows, targets)
    requires Remaining(trees, n, rows, targets, block, nodes) && ValidNodes(nodes, n, rows) && Ordered(sorted)
    requires multiset(sorted) == multiset(MovedNodes(nodes, Elements(ds), n, rows, true))
    ensures Setting(trees, n, rows, block, ds, gone, PositionsIn(nodes), PositionsIn(sorted))
    ensures Sound(PruneAll(trees, gone), n, rows)
    ensures LeafTargets(PruneAll(trees, gone), n, rows, PositionsIn(sorted))
    ensures ValuesIn(sorted) == LeafHashes(TargetIds(PruneAll(trees, gone), n, rows, PositionsIn(sorted)))
    ensures forall h :: h in ValuesIn(sorted) <==> h in ValuesIn(nodes)
  {
    hide WellFormed, At, Valid, Moved, MovedNodes, Tops, Kept, AllBelow, PathOf, Elements, Remaining, Setting, PruneAll,
      MovedTargets, Ordered, Deletion, LeafNodeAt;
    var m := MovedNodes(nodes, Elements(ds), n, rows, true);
    TargetsMove(trees, n, rows, block, ds, gone, targets, nodes, sorted);
    SettingFacts(trees, n, rows, block, ds, gone, PositionsIn(nodes), PositionsIn(sorted));
    PrunedSound(trees, n, rows, gone);
    forall i | 0 <= i < |m| ensures LeafNodeAt(PruneAll(trees, gone), n, rows, m[i]) {
      TargetValue(trees, n, rows, block, ds, gone, targets, nodes, sorted, i);
      MovedIsValid(nodes[i].0, Elements(ds), n, rows);
      assert LeafNodeAt(PruneAll(trees, gone), n, rows, m[i]) by { LeafNodeIs(PruneAll(trees, gone), n, rows, m[i]); }
    }
    forall i, j | 0 <= i < j < |m| ensures m[i].0 != m[j].0 {
      TargetValue(trees, n, rows, block, ds, gone, targets, nodes, sorted, i);
      TargetValue(trees, n, rows, block, ds, gone, targets, nodes, sorted, j);
      TargetApart(trees, n, rows, targets, block, nodes, i, j);
    }
    SortedTargets(PruneAll(trees, gone), n, rows, m, sorted);
    assert ValuesIn(m) == ValuesIn(nodes);
  }

  lemma MovedIsValid(p: nat, dels: set<nat>, n: nat, rows: nat)
    requires Fits(n, rows) && Valid(p, n, rows)
    ensures Valid(Moved(p, dels, n, rows), n, rows)
  {
  }

  lemma LeafNodeIs(trees: seq<Tree>, n: nat, rows: nat, node: Node<Hash>)
    requires |trees| == PopCount(n)
    requires Valid(node.0, n, rows) && At(trees, n, rows, node.0).Tip? && node.1 == Merkle(At(trees, n, rows, node.0))
    ensures LeafNodeAt(trees, n, rows, node)
  {
  }

  lemma TargetValue(trees: seq<Tree>, n: nat, rows: nat, block: seq<nat>, ds: seq<nat>, gone: set<nat>,
                    targets: seq<nat>, nodes: seq<Node<Hash>>, sorted: seq<Node<Hash>>, i: nat)
    requires Setting(trees, n, rows, block, ds, gone, PositionsIn(nodes), PositionsIn(sorted)) && i < |nodes|
    requires LeafTargets(trees, n, rows, targets) && Remaining(trees, n, rows, targets, block, nodes)
    ensures Sound(PruneAll(trees, gone), n, rows) && Valid(nodes[i].0, n, rows)
    ensures var q := Moved(nodes[i].0, Elements(ds), n, rows);
            && At(PruneAll(trees, gone), n, rows, q).Tip?
            && At(PruneAll(trees, gone), n, rows, q) == At(trees, n, rows, nodes[i].0)
            && nodes[i].1 == Merkle(At(PruneAll(trees, gone), n, rows, q))
  {
    hide WellFormed, At, Valid, Moved, Tops, Kept, AllBelow, PathOf, Elements, PruneAll, MovedTargets;
    RemainingFacts(trees, n, rows, targets, block, gone, nodes);
    MovedLeafTargets(trees, n, rows, block, ds, gone, PositionsIn(nodes), PositionsIn(sorted), i);
  }

  lemma TargetApart(trees: seq<Tree>, n: nat, rows: nat, targets: seq<nat>, block: seq<nat>, nodes: seq<Node<Hash>>,
                    i: nat, j: nat)
    requires Sound(trees, n, rows) && Remaining(trees, n, rows, targets, block, nodes) && i < j < |nodes|
    requires Valid(nodes[i].0, n, rows) && Valid(nodes[j].0, n, rows)
    requires At(trees, n, rows, nodes[i].0) != Nil
    ensures At(trees, n, rows, nodes[i].0) != At(trees, n, rows, nodes[j].0)
  {
    hide WellFormed, At, Valid;
    if At(trees, n, rows, nodes[i].0) == At(trees, n, rows, nodes[j].0) {
      SlotUnique(trees, n, rows, nodes[i].0, nodes[j].0);
    }
  }

  lemma SettingOther(trees: seq<Tree>, n: nat, rows: nat, block: seq<nat>, ds: seq<nat>, es: seq<nat>, gone: set<nat>,
                     kept: seq<nat>, moved: seq<nat>)
    requires Setting(trees, n, rows, block, ds, gone, kept, moved) && Deletion(trees, n, rows, block, es, gone)
    ensures Setting(trees, n, rows, block, es, gone, kept, moved)
  {
    hide WellFormed, At, Valid, Moved, Tops, Kept, PathOf, Elements, PruneAll, Deletion, Prune, LeafTargets;
    SettingFacts(trees, n, rows, block, ds, gone, kept, moved);
    assert Fits(n, rows) && |trees| == PopCount(n);
    forall i | 0 <= i < |kept|
      ensures Kept(kept[i], es, n, rows)
      ensures Moved(kept[i], Elements(ds), n, rows) == Moved(kept[i], Elements(es), n, rows)
    {
      KeptSurvives(trees, n, rows, block, ds, gone, kept[i]);
      KeptSurvives(trees, n, rows, block, es, gone, kept[i]);
      MovedSame(trees, n, rows, block, ds, es, gone, kept[i]);
    }
    forall i | 0 <= i < |kept| ensures Moved(kept[i], Elements(es), n, rows) in moved {
      assert Moved(kept[i], Elements(ds), n, rows) in moved;
    }
    forall i | 0 <= i < |moved|
      ensures exists j :: 0 <= j < |kept| && moved[i] == Moved(kept[j], Elements(es), n, rows)
    {
      var j := MovedTargetFrom(kept, moved, ds, n, rows, i);
      assert moved[i] == Moved(kept[j], Elements(es), n, rows);
    }
    assert forall i :: 0 <= i < |kept| ==> Moved(kept[i], Elements(es), n, rows) in moved;
    assert forall i :: 0 <= i < |moved| ==>
           exists j :: 0 <= j < |kept| && moved[i] == Moved(kept[j], Elements(es), n, rows);
  }

  /** A refreshed node is occupied and kept, and its hash is found again where it moves to. */
  lemma HashMoves(trees: seq<Tree>, n: nat, rows: nat, block: seq<nat>, ds: seq<nat>, gone: set<nat>,
                  kept: seq<nat>, moved: seq<nat>, q: nat)
    requires Setting(trees, n, rows, block, ds, gone, kept, moved)
    requires |trees| == PopCount(n) && Fits(n, rows) && AllValid(kept, n, rows)
    requires q in ProofSet(kept, n, rows)
    ensures Valid(q, n, rows) && Sound(PruneAll(trees, gone), n, rows)
    ensures Kept(q, ds, n, rows) <==> !After(trees, n, rows, gone)(q).Empty?
    ensures Kept(q, ds, n, rows) ==>
              After(trees, n, rows, gone)(q) ==
                  Merkle(At(PruneAll(trees, gone), n, rows, Moved(q, Elements(ds), n, rows)))
  {
    hide WellFormed, At, Valid, Moved, Tops, Kept, PathOf, Elements, PruneAll, Deletion, Prune, LeafTargets, Setting,
      ProofSet, Path;
    SettingFacts(trees, n, rows, block, ds, gone, kept, moved);
    NeededFacts(trees, n, rows, block, ds, gone, kept, moved, q);
    KeptSurvives(trees, n, rows, block, ds, gone, q);
    PrunedSound(trees, n, rows, gone);
    if Kept(q, ds, n, rows) { MovedAt(trees, n, rows, block, ds, gone, q); }
  }

  /** The refreshed hashes, moved and sorted, are the hashes a prover sends for the moved targets. */
  lemma HashesAfter(trees: seq<Tree>, n: nat, rows: nat, block: seq<nat>, ds: seq<nat>, gone: set<nat>,
                    kept: seq<nat>, moved: seq<nat>, nodes: seq<Node<Hash>>, sorted: seq<Node<Hash>>)
    requires Setting(trees, n, rows, block, ds, gone, kept, moved)
    requires |trees| == PopCount(n) && Fits(n, rows) && AllValid(kept, n, rows) && AllValid(moved, n, rows)
    requires Refreshed(trees, n, rows, gone, kept, nodes) && ValidNodes(nodes, n, rows) && Ordered(sorted)
    requires multiset(sorted) == multiset(MovedNodes(nodes, Elements(ds), n, rows, true))
    ensures Sound(PruneAll(trees, gone), n, rows) && AllValid(Sorted(ProofSet(moved, n, rows)), n, rows)
    ensures ValuesIn(sorted) == HashesAt(PruneAll(trees, gone), n, rows, Sorted(ProofSet(moved, n, rows)))
  {
    hide WellFormed, At, Valid, Moved, MovedNodes, Kept, Elements, Setting, PruneAll, Ordered, ProofSet, After, Sorted;
    var m := MovedNodes(nodes, Elements(ds), n, rows, true);
    SettingSound(trees, n, rows, block, ds, gone, kept, moved);
    MovedNodesAt(nodes, Elements(ds), n, rows);
    MovedHashes(trees, n, rows, block, ds, gone, kept, moved, nodes, m);
    SortedHashes(PruneAll(trees, gone), n, rows, moved, m, sorted);
  }

  lemma SettingSound(trees: seq<Tree>, n: nat, rows: nat, block: seq<nat>, ds: seq<nat>, gone: set<nat>,
                     kept: seq<nat>, moved: seq<nat>)
    requires Setting(trees, n, rows, block, ds, gone, kept, moved)
    ensures Sound(PruneAll(trees, gone), n, rows)
  {
    hide WellFormed, At, Valid, PruneAll, Tops, MovedTargets;
    PrunedSound(trees, n, rows, gone);
  }

  lemma MovedHashes(trees: seq<Tree>, n: nat, rows: nat, block: seq<nat>, ds: seq<nat>, gone: set<nat>,
                    kept: seq<nat>, moved: seq<nat>, nodes: seq<Node<Hash>>, m: seq<Node<Hash>>)
    requires Setting(trees, n, rows, block, ds, gone, kept, moved)
    requires |trees| == PopCount(n) && Fits(n, rows) && AllValid(kept, n, rows) && AllValid(moved, n, rows)
    requires Refreshed(trees, n, rows, gone, kept, nodes) && ValidNodes(nodes, n, rows) && |m| == |nodes|
    requires forall i :: 0 <= i < |nodes| ==> m[i] == (Moved(nodes[i].0, Elements(ds), n, rows), nodes[i].1)
    requires Sound(PruneAll(trees, gone), n, rows)
    ensures DistinctPositions(m) && Carries(m, Current(PruneAll(trees, gone), n, rows))
    ensures forall b :: Holds(m, b) <==> b in ProofSet(moved, n, rows)
  {
    hide WellFormed, At, Valid, Moved, Kept, Elements, Setting, PruneAll, ProofSet, After;
    forall i | 0 <= i < |m|
      ensures nodes[i].0 in ProofSet(kept, n, rows) && Valid(nodes[i].0, n, rows) && Kept(nodes[i].0, ds, n, rows)
      ensures m[i].1 == Current(PruneAll(trees, gone), n, rows)(m[i].0) && m[i].0 in ProofSet(moved, n, rows)
    {
      assert Holds(nodes, nodes[i].0);
      HashMoves(trees, n, rows, block, ds, gone, kept, moved, nodes[i].0);
      NeededMoves(trees, n, rows, block, ds, gone, kept, moved, nodes[i].0);
    }
    forall i, j | 0 <= i < j < |m| ensures m[i].0 != m[j].0 {
      if m[i].0 == m[j].0 {
        NeededInjective(trees, n, rows, block, ds, gone, kept, moved, nodes[i].0, nodes[j].0);
      }
    }
    forall b | b in ProofSet(moved, n, rows) ensures Holds(m, b) {
      var q := NeededFrom(trees, n, rows, block, ds, gone, kept, moved, b);
      HashMoves(trees, n, rows, block, ds, gone, kept, moved, q);
      var i :| 0 <= i < |nodes| && nodes[i].0 == q;
      assert m[i].0 == b;
    }
  }

  lemma RefreshedNodes(trees: seq<Tree>, n: nat, rows: nat, block: seq<nat>, gone: set<nat>, part: seq<nat>,
                       nodes: seq<Node<Hash>>)
    requires Sound(trees, n, rows) && LeafTargets(trees, n, rows, block)
    requires gone == Elements(TargetIds(trees, n, rows, block))
    requires AllValid(part, n, rows) && Refreshed(trees, n, rows, gone, part, nodes)
    ensures ValidNodes(nodes, n, rows)
    ensures forall i :: 0 <= i < |nodes| ==> !AllBelow(nodes[i].0, block, n, rows)
  {
    hide WellFormed, At, Valid, ProofSet, AllBelow, LeafTargets;
    forall i | 0 <= i < |nodes| ensures Valid(nodes[i].0, n, rows) && !AllBelow(nodes[i].0, block, n, rows) {
      assert Holds(nodes, nodes[i].0);
      ProofSetValid(part, n, rows, nodes[i].0);
      if AllBelow(nodes[i].0, block, n, rows) { CoveredGone(trees, n, rows, block, nodes[i].0); }
    }
  }

  lemma WordPositions(nodes: seq<Node<Hash>>, n: nat, rows: nat)
    requires Fits(n, rows) && AllValid(PositionsIn(nodes), n, rows)
    ensures forall i :: 0 <= i < |nodes| ==> PositionsIn(nodes)[i] < WORD
  {
    hide Valid;
    forall i | 0 <= i < |nodes| ensures PositionsIn(nodes)[i] < WORD {
      PositionWord(PositionsIn(nodes)[i], n, rows);
    }
  }

  /** `update_proof_remove`: from an honest cached proof and the deletion data of `modify`, the
      proof a prover would compute for the surviving targets in the forest after the deletion. */
  method UpdateProofRemove(proof: Proof, blockTargets: seq<U64>, cachedHashes: seq<Hash>, updated: seq<Node<Hash>>,
                           n: nat, ghost trees: seq<Tree>, ghost gone: set<nat>)
    returns (r: Result<(Proof, seq<Hash>)>)
    requires n <= MAX_LEAVES && CurrentProof(trees, n, proof, cachedHashes)
    requires BlockData(trees, n, blockTargets, gone, updated) && Movable(blockTargets, n, TreeRows(n))
    requires InOrder(Twins(blockTargets, TreeRows(n)), n, TreeRows(n))
    ensures r.Ok? && CurrentProof(PruneAll(trees, gone), n, r.value.0, r.value.1)
    ensures Ascending(r.value.0.targets)
    ensures forall h: Hash :: h in r.value.1 <==> h in cachedHashes && h.LeafHash? && h.id !in gone
  {
    hide WellFormed, At, Valid, Moved, MovedNodes, Kept, Elements, Setting, PruneAll, Ordered, ProofSet, After, Sorted,
      Path, CurrentProof, BlockData, Remaining, Refreshed, Tops, Deletion, AllBelow, TreeRows, Except, AllValid,
      ValidNodes, Zip, Ascending, PopCount, Current, Movable, Apart, Twins, InOrder;
    var rows := TreeRows(n);
    UpdateFacts(trees, n, proof, cachedHashes, blockTargets, gone, updated);
    var targetsWithHash := Except(Zip(proof.targets, cachedHashes), blockTargets);
    RemainingTargets(trees, n, proof, cachedHashes, blockTargets);
    RemainingFacts(trees, n, rows, proof.targets, blockTargets, gone, targetsWithHash);
    var targets := PositionsIn(targetsWithHash);
    PartFacts(trees, n, rows, proof.targets, blockTargets, targetsWithHash);
    WordPositions(targetsWithHash, n, rows);
    var proofPositions := GetProofPositions(proof.targets, n, rows);
    var oldProof := Zip(proofPositions, proof.hashes);
    var needed := GetProofPositions(targets, n, rows);
    OldProofIs(trees, n, proof, cachedHashes, proofPositions, needed, targets);
    var newProof := RefreshProof(oldProof, proofPositions, needed, blockTargets, updated, n, trees, gone, proof.targets,
      targets);
    RefreshedNodes(trees, n, rows, blockTargets, gone, targets, newProof);
    var elements, ds := CalcNextPositions(blockTargets, newProof, n, true);
    var sorted := SortNodes(elements.value);
    var moved, es := CalcNextPositions(blockTargets, targetsWithHash, n, true);
    BlockDeletes(trees, n, blockTargets, gone, updated, ds);
    BlockDeletes(trees, n, blockTargets, gone, updated, es);
    TargetsAfter(trees, n, rows, blockTargets, es, gone, proof.targets, targetsWithHash, moved.value);
    SettingOther(trees, n, rows, blockTargets, es, ds, gone, targets, PositionsIn(moved.value));
    MovedValid(trees, n, rows, blockTargets, ds, gone, targets, PositionsIn(moved.value));
    HashesAfter(trees, n, rows, blockTargets, ds, gone, targets, PositionsIn(moved.value), newProof, sorted);
    WordPositions(moved.value, n, rows);
    MakeCurrentProof(PruneAll(trees, gone), n, PositionsIn(moved.value), ValuesIn(sorted), ValuesIn(moved.value));
    RemainingHashes(trees, n, proof, cachedHashes, blockTargets, gone, updated, targetsWithHash);
    r := Ok((Proof(PositionsIn(moved.value), ValuesIn(sorted)), ValuesIn(moved.value)));
    TargetsAscend(PruneAll(trees, gone), n, r.value.0, r.value.1, moved.value);
  }

  lemma LeavesApart(trees: seq<Tree>, n: nat, rows: nat, block: seq<nat>)
    requires LeafTargets(trees, n, rows, block)
    ensures AllValid(block, n, rows) && Apart(block, n, rows)
  {
    hide PathOf, At, Valid;
    forall i, j | 0 <= i < |block| && 0 <= j < |block| && i != j ensures block[j] !in PathOf(block[i], n, rows) {
      if block[j] in PathOf(block[i], n, rows) { Antichain(trees, n, rows, block, i, j); }
    }
  }

  lemma UpdateFacts(trees: seq<Tree>, n: nat, proof: Proof, cached: seq<Hash>, block: seq<nat>, gone: set<nat>,
                    updated: seq<Node<Hash>>)
    requires CurrentProof(trees, n, proof, cached) && BlockData(trees, n, block, gone, updated)
    ensures Sound(trees, n, TreeRows(n)) && |trees| == PopCount(n) && Fits(n, TreeRows(n))
    ensures LeafTargets(trees, n, TreeRows(n), proof.targets) && AllValid(proof.targets, n, TreeRows(n))
    ensures LeafTargets(trees, n, TreeRows(n), block) && Apart(block, n, TreeRows(n))
    ensures gone == Elements(TargetIds(trees, n, TreeRows(n), block))
  {
    hide WellFormed, At, Valid, TreeRows, SurvivingNodes, Apart;
    LeavesApart(trees, n, TreeRows(n), block);
  }

  lemma PartFacts(trees: seq<Tree>, n: nat, rows: nat, targets: seq<nat>, block: seq<nat>, nodes: seq<Node<Hash>>)
    requires |trees| == PopCount(n) && Remaining(trees, n, rows, targets, block, nodes)
    requires LeafTargets(trees, n, rows, PositionsIn(nodes))
    ensures AllValid(PositionsIn(nodes), n, rows)
    ensures forall p :: p in PositionsIn(nodes) <==> p in targets && p !in block
    ensures forall i :: 0 <= i < |nodes| && !nodes[i].1.Empty? ==> Holds(nodes, nodes[i].0)
  {
    hide At, Valid;
    forall p ensures p in PositionsIn(nodes) <==> Holds(nodes, p) {
      HoldsElements(nodes, p);
      InElements(PositionsIn(nodes), p);
    }
  }

  lemma OldProofIs(trees: seq<Tree>, n: nat, proof: Proof, cached: seq<Hash>, proofPositions: seq<nat>,
                   needed: seq<nat>, targets: seq<nat>)
    requires CurrentProof(trees, n, proof, cached) && |trees| == PopCount(n) && Fits(n, TreeRows(n))
    requires AllValid(proof.targets, n, TreeRows(n)) && AllValid(targets, n, TreeRows(n))
    requires proofPositions == Sorted(ProofSet(proof.targets, n, TreeRows(n)))
    requires needed == Sorted(ProofSet(targets, n, TreeRows(n)))
    ensures Elements(proofPositions) == ProofSet(proof.targets, n, TreeRows(n))
    ensures Elements(needed) == ProofSet(targets, n, TreeRows(n))
    ensures |Zip(proofPositions, proof.hashes)| == |proofPositions|
    ensures forall i :: 0 <= i < |proofPositions| ==> Zip(proofPositions, proof.hashes)[i].0 == proofPositions[i]
    ensures Carries(Zip(proofPositions, proof.hashes), Current(trees, n, TreeRows(n)))
  {
    hide ProofSet, CurrentProof, TreeRows, AllValid, Current, Zip;
    OldProofCarries(trees, n, proof, cached, proofPositions);
    SortedIs(ProofSet(proof.targets, n, TreeRows(n)));
    SortedIs(ProofSet(targets, n, TreeRows(n)));
  }

  lemma MovedValid(trees: seq<Tree>, n: nat, rows: nat, block: seq<nat>, ds: seq<nat>, gone: set<nat>, kept: seq<nat>,
                   moved: seq<nat>)
    requires Setting(trees, n, rows, block, ds, gone, kept, moved)
    ensures AllValid(moved, n, rows) && AllValid(kept, n, rows)
  {
    hide Valid, At, WellFormed, Kept, Moved;
  }

  /** The remaining hashes are the cached ones that are not deleted. */
  lemma RemainingHashes(trees: seq<Tree>, n: nat, proof: Proof, cached: seq<Hash>, block: seq<nat>, gone: set<nat>,
                        updated: seq<Node<Hash>>, nodes: seq<Node<Hash>>)
    requires CurrentProof(trees, n, proof, cached) && BlockData(trees, n, block, gone, updated)
    requires nodes == Except(Zip(proof.targets, cached), block)
    ensures forall h: Hash :: h in ValuesIn(nodes) <==> h in cached && h.LeafHash? && h.id !in gone
  {
    hide WellFormed, At, Valid, TreeRows, Except, Remaining, CurrentProof, BlockData, AllBelow, Elements;
    var rows := TreeRows(n);
    UpdateFacts(trees, n, proof, cached, block, gone, updated);
    RemainingTargets(trees, n, proof, cached, block);
    RemainingFacts(trees, n, rows, proof.targets, block, gone, nodes);
    TargetNodes(trees, n, proof, cached);
    ExceptDistinct(Zip(proof.targets, cached), block);
    CachedAre(trees, n, proof, cached);
    forall h: Hash ensures h in ValuesIn(nodes) <==> h in cached && h.LeafHash? && h.id !in gone {
      if h in ValuesIn(nodes) {
        var i :| 0 <= i < |nodes| && ValuesIn(nodes)[i] == h;
        assert nodes[i] in Zip(proof.targets, cached);
        var j :| 0 <= j < |cached| && Zip(proof.targets, cached)[j] == nodes[i];
        assert cached[j] == h;
      }
      if h in cached && h.LeafHash? && h.id !in gone {
        var j :| 0 <= j < |cached| && cached[j] == h;
        NotDeleted(trees, n, rows, proof.targets, block, gone, nodes, j);
      }
    }
  }

  lemma CachedAre(trees: seq<Tree>, n: nat, proof: Proof, cached: seq<Hash>)
    requires CurrentProof(trees, n, proof, cached)
    ensures LeafTargets(trees, n, TreeRows(n), proof.targets) && |cached| == |proof.targets|
    ensures forall i :: 0 <= i < |cached| ==> cached[i] == LeafHash(TargetIds(trees, n, TreeRows(n), proof.targets)[i])
  {
    hide WellFormed, At, Valid, TreeRows;
  }

  lemma NotDeleted(trees: seq<Tree>, n: nat, rows: nat, targets: seq<nat>, block: seq<nat>, gone: set<nat>,
                   nodes: seq<Node<Hash>>, j: nat)
    requires Sound(trees, n, rows) && LeafTargets(trees, n, rows, targets) && LeafTargets(trees, n, rows, block)
    requires gone == Elements(TargetIds(trees, n, rows, block)) && Remaining(trees, n, rows, targets, block, nodes)
    requires j < |targets| && TargetIds(trees, n, rows, targets)[j] !in gone
    ensures LeafHash(TargetIds(trees, n, rows, targets)[j]) in ValuesIn(nodes)
  {
    hide WellFormed, At, Valid;
    if targets[j] in block {
      var k :| 0 <= k < |block| && block[k] == targets[j];
      ElementsAt(TargetIds(trees, n, rows, block), k);
    }
    assert Holds(nodes, targets[j]);
    var i :| 0 <= i < |nodes| && nodes[i].0 == targets[j];
    assert ValuesIn(nodes)[i] == Current(trees, n, rows)(targets[j]);
  }
}
