/** `Proof::update` (src/proof/mod.rs): what `Stump::modify` reports about a block is what a cached
    proof needs to become the proof for the forest after the block. */
module ProofMaintenance {
  import opened Bits
  import opened Positions
  import opened Forest
  import opened ProofPositions
  import opened Slots
  import opened MergeLoop
  import opened ProofEngine
  import opened ProofChecks
  import opened Detwins
  import opened Stumps
  import opened HolesFilled
  import opened DestroyedRoots
  import opened ListedRoots
  import opened Landings
  import opened MoveOrders
  import opened ProofUpdates
  import opened ProofRemovals
  import opened ProofAdditions

  /** `update`: deletions first, then additions.  The result is the proof of the surviving targets and
      the remembered new leaves, as far as these are found. */
  method Update(proof: Proof, cachedHashes: seq<Hash>, addHashes: seq<Hash>, blockTargets: seq<U64>,
                remembers: seq<nat>, updateData: UpdateData, ghost trees: seq<Tree>, ghost gone: set<nat>)
    returns (r: Result<(Proof, seq<Hash>)>)
    requires updateData.prevNumLeaves <= MAX_LEAVES
    requires CurrentProof(trees, updateData.prevNumLeaves, proof, cachedHashes)
    requires BlockData(trees, updateData.prevNumLeaves, blockTargets, gone, updateData.newDel)
    requires Movable(blockTargets, updateData.prevNumLeaves, TreeRows(updateData.prevNumLeaves))
    requires InOrder(Twins(blockTargets, TreeRows(updateData.prevNumLeaves)), updateData.prevNumLeaves,
                     TreeRows(updateData.prevNumLeaves))
    requires LeafKind(addHashes)
    requires GrowthData(PruneAll(trees, gone), updateData.prevNumLeaves, IdsOf(addHashes), updateData.newAdd,
                        updateData.toDestroy)
    ensures |trees| == PopCount(updateData.prevNumLeaves) && updateData.prevNumLeaves + |addHashes| <= MAX_LEAVES
    ensures r.Ok? && CurrentProof(Block(trees, updateData.prevNumLeaves, gone, IdsOf(addHashes)),
                                  updateData.prevNumLeaves + |addHashes|, r.value.0, r.value.1)
    ensures Ascending(r.value.0.targets)
    ensures forall h: Hash :: h in r.value.1 <==>
              || (h in cachedHashes && h.LeafHash? && h.id !in gone)
              || exists k ::
                  k in Taken(remembers, Places(PruneAll(trees, gone), updateData.prevNumLeaves, |addHashes|), 0)
                             && k < |addHashes| && h == addHashes[k]
  {
    hide Movable, InOrder, Twins, Taken, Places, CurrentProof, BlockData, GrowthData, TreeRows, PruneAll, AddAll,
      WellFormed, PopCount, Ascending;
    var n := updateData.prevNumLeaves;
    BlockFacts(trees, n, blockTargets, gone, updateData.newDel);
    var removed := UpdateProofRemove(proof, blockTargets, cachedHashes, updateData.newDel, n, trees, gone);
    r := UpdateProofAdd(removed.value.0, addHashes, removed.value.1, remembers, updateData.newAdd, n,
        updateData.toDestroy,
                        PruneAll(trees, gone));
  }

  lemma BlockFacts(trees: seq<Tree>, n: nat, block: seq<nat>, gone: set<nat>, updated: seq<Node<Hash>>)
    requires BlockData(trees, n, block, gone, updated)
    ensures |trees| == PopCount(n)
  {
    hide WellFormed, SurvivingNodes, TreeRows, At, Valid;
  }

  lemma LeavesNotEmpty(utxos: seq<Hash>)
    requires LeafKind(utxos)
    ensures NoneEmpty(utxos) && LeafHashes(IdsOf(utxos)) == utxos
  {
  }

  /** For an honest block whose additions are plain, the update data of `modify` is what `update`
      needs. */
  lemma ModifyFeedsUpdate(stump: Stump, trees: seq<Tree>, targets: seq<nat>, utxos: seq<Hash>, delHashes: seq<Hash>,
                          proof: Proof, data: UpdateData, gone: set<nat>)
    requires Acceptable(stump, trees, targets, delHashes, proof) && LeafKind(delHashes)
    requires delHashes == [] ==> targets == []
    requires NewDelExact(stump, trees, targets, delHashes, proof, data.newDel)
    requires gone == Elements(IdsOf(delHashes))
    requires Represents(stump, trees) && stump.leaves + |utxos| <= MAX_LEAVES && TreeRows(stump.leaves + |utxos|) < 62
    requires NewAddReported(stump, utxos, delHashes, trees, data) && |trees| == PopCount(stump.leaves)
    requires LeafKind(utxos) && Fresh(PruneAll(trees, gone), IdsOf(utxos))
    requires Plain(Hashes(PruneAll(trees, gone)), stump.leaves, utxos)
    ensures BlockData(trees, stump.leaves, targets, gone, data.newDel)
    ensures GrowthData(PruneAll(trees, gone), stump.leaves, IdsOf(utxos), data.newAdd, data.toDestroy)
  {
    hide HonestProof, TreeRows, WellFormed, At, Valid, PruneAll, SurvivingNodes, GivenFirst, Fresh, NewAddExact,
      DestroyExact, Ordered, AllInserted, Hashes, AddAll, PopCount, AllValid, Plain, Destroys;
    var n := stump.leaves;
    ForestSound(stump, trees);
    if delHashes == [] {
      NothingDeleted(trees, n);
      assert gone == {} by { assert IdsOf(delHashes) == []; }
    } else {
      HonestTargets(stump, trees, targets, delHashes, proof);
    }
    PrunedForest(trees, n, gone);
    PlainGrowth(PruneAll(trees, gone), n, utxos, data.newAdd, data.toDestroy);
  }

  /** The data of plain additions is exact. */
  lemma PlainGrowth(trees: seq<Tree>, n: nat, utxos: seq<Hash>, newAdd: seq<Node<Hash>>, toDestroy: seq<nat>)
    requires Sound(trees, n, TreeRows(n)) && n + |utxos| <= MAX_LEAVES && TreeRows(n + |utxos|) < 62
    requires LeafKind(utxos) && Fresh(trees, IdsOf(utxos)) && Plain(Hashes(trees), n, utxos)
    requires toDestroy == Destroys(Hashes(trees), n, 0, |utxos|, TreeRows(n + |utxos|)) && Ordered(newAdd)
    requires multiset(newAdd) == multiset(AllInserted(Hashes(trees), n, utxos, TreeRows(n + |utxos|)))
    ensures GrowthData(trees, n, IdsOf(utxos), newAdd, toDestroy)
  {
    hide TreeRows, WellFormed, Fresh, NewAddExact, Ordered, AllInserted, Hashes, AddAll, PopCount, Plain, RowsRise,
      Overwritten, Destroys, MasksReach;
    LeavesNotEmpty(utxos);
    NewAddData(trees, n, IdsOf(utxos), newAdd);
    DestroyedIs(trees, n, utxos, TreeRows(n + |utxos|));
  }

  lemma ForestSound(stump: Stump, trees: seq<Tree>)
    requires Represents(stump, trees) && stump.leaves <= MAX_LEAVES
    ensures Sound(trees, stump.leaves, TreeRows(stump.leaves))
  {
    hide TreeRows;
    TreeRowsFit(stump.leaves);
    ShapeLength(trees, stump.leaves, 0);
  }

  /** A block without deletions. */
  lemma NothingDeleted(trees: seq<Tree>, n: nat)
    requires Sound(trees, n, TreeRows(n))
    ensures BlockData(trees, n, [], {}, [])
  {
    hide WellFormed, TreeRows, At, Valid;
    assert TargetIds(trees, n, TreeRows(n), []) == [];
  }

  lemma PrunedForest(trees: seq<Tree>, n: nat, gone: set<nat>)
    requires Sound(trees, n, TreeRows(n))
    ensures Sound(PruneAll(trees, gone), n, TreeRows(n))
  {
    hide WellFormed, TreeRows;
    PruneWellFormed(trees, n, gone);
  }
}
