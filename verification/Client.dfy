/** A client that keeps a stump and a cached proof and sees of every block only the deleted and the
    added leaves and a proof of the deletions: `Stump::modify` and `Proof::update` over whole runs. */
module Clients {
  import opened Bits
  import opened Positions
  import opened Forest
  import opened ProofPositions
  import opened Slots
  import opened ProofEngine
  import opened ProofChecks
  import opened Detwins
  import opened MoveOrders
  import opened Stumps
  import opened ProofUpdates
  import opened ProofRemovals
  import opened ProofAdditions
  import opened ProofMaintenance
  import opened NodeHeap
  import opened ForestHeap
  import opened Blocks
  import opened MemForests
  import opened Runs

  /** The additions of the block are plain, and its deletions come in order and within the reach of
      `remove_bit`. */
  ghost predicate Followable(trees: seq<Tree>, n: nat, block: Update) {
    && LeafKind(block.del) && |trees| == PopCount(n)
    && Plain(Hashes(PruneAll(trees, Elements(IdsOf(block.del)))), n, block.add)
    && forall targets :: LeafTargets(trees, n, TreeRows(n), targets)
                         && block.del == LeafHashes(TargetIds(trees, n, TreeRows(n), targets)) ==>
         Movable(targets, n, TreeRows(n)) && InOrder(Twins(targets, TreeRows(n)), n, TreeRows(n))
  }

  lemma FollowableAt(trees: seq<Tree>, n: nat, block: Update, targets: seq<nat>)
    requires Followable(trees, n, block) && LeafTargets(trees, n, TreeRows(n), targets)
    requires block.del == LeafHashes(TargetIds(trees, n, TreeRows(n), targets))
    ensures Fits(n, TreeRows(n)) && Movable(targets, n, TreeRows(n))
    ensures InOrder(Twins(targets, TreeRows(n)), n, TreeRows(n))
  {
    hide At, Valid, TreeRows, Movable, InOrder, Twins;
  }

  /** What the client caches after a block whose new leaves come to stand at `places`. */
  function Cached(cached: set<Hash>, block: Update, remembers: seq<nat>, places: seq<nat>): set<Hash> {
    (set h | h in cached && h !in block.del)
    + (set k | k in Taken(remembers, places, 0) && k < |block.add| :: block.add[k])
  }

  /** Where the new leaves of a block come to stand. */
  function BlockPlaces(trees: seq<Tree>, n: nat, block: Update): seq<nat>
    requires |trees| == PopCount(n) && LeafKind(block.del) && n + |block.add| <= MAX_LEAVES
  {
    Places(PruneAll(trees, Elements(IdsOf(block.del))), n, |block.add|)
  }

  lemma CachedMember(cached: set<Hash>, hashes: seq<Hash>, block: Update, remembers: seq<nat>, places: seq<nat>,
                     h: Hash)
    requires LeafKind(block.del) && LeafKind(hashes) && forall x: Hash :: x in hashes <==> x in cached
    ensures h in Cached(cached, block, remembers, places) <==>
              || (h in hashes && h.LeafHash? && h.id !in Elements(IdsOf(block.del)))
              || exists k :: k in Taken(remembers, places, 0) && k < |block.add| && h == block.add[k]
  {
    hide Taken;
    if h in hashes {
      var i :| 0 <= i < |hashes| && hashes[i] == h;
      assert h.LeafHash?;
      forall j | 0 <= j < |block.del| ensures block.del[j] == h <==> IdsOf(block.del)[j] == h.id {}
    }
  }

  lemma CachedLeaves(trees: seq<Tree>, n: nat, proof: Proof, hashes: seq<Hash>)
    requires CurrentProof(trees, n, proof, hashes)
    ensures LeafKind(hashes)
  {
  }

  /** One block: from the stump and an honest cached proof to the stump of the forest after the block
      and the proof that a prover would compute there for what is cached then. */
  method Follow(stump: Stump, cachedProof: Proof, hashes: seq<Hash>, block: Update, remembers: seq<nat>,
                blockProof: Proof, blockTargets: seq<U64>, ghost trees: seq<Tree>, ghost live: set<nat>)
    returns (next: Stump, proof: Proof, cached: seq<Hash>)
    requires Represents(stump, trees) && Live(trees, live) && Legal(live, stump.leaves, block)
    requires CurrentProof(trees, stump.leaves, cachedProof, hashes)
    requires Acceptable(stump, trees, blockTargets, block.del, blockProof) && (block.del == [] ==> blockTargets == [])
    requires Followable(trees, stump.leaves, block)
    ensures |trees| == PopCount(stump.leaves) && LeafKind(block.del) && stump.leaves + |block.add| <= MAX_LEAVES
    ensures Represents(next, Applied(trees, stump.leaves, block)) && next.leaves == stump.leaves + |block.add|
    ensures CurrentProof(Applied(trees, stump.leaves, block), next.leaves, proof, cached) && Ascending(proof.targets)
    ensures forall c: set<Hash> :: (forall h :: h in hashes <==> h in c) ==>
              forall h :: h in cached <==> h in Cached(c, block, remembers, BlockPlaces(trees, stump.leaves, block))
  {
    hide Represents, Live, Legal, CurrentProof, Acceptable, Followable, PopCount, Applied, Block, SoundTransition,
      Decided, NewAddReported, NewDelExact, BlockData, GrowthData, Movable, InOrder, Twins, TreeRows, Plain, Fresh,
      LeafKind, Cached, Taken, PruneAll, Elements, IdsOf, Places, Hashes;
    LegalKinds(live, stump.leaves, block);
    RootsCount(stump, trees);
    LegalFresh(trees, stump.leaves, live, block);
    LegalSize(live, stump.leaves, block);
    var r, _, _ := Stumps.Modify(stump, block.add, block.del, blockProof);
    assert Acceptable(stump, trees, blockTargets, block.del, blockProof);
    assert r.Ok? && NewDelExact(stump, trees, blockTargets, block.del, blockProof, r.value.1.newDel);
    assert SoundTransition(stump, block.add, block.del, trees, r.value.0)
           && NewAddReported(stump, block.add, block.del, trees, r.value.1);
    next := r.value.0;
    TransitionRepresents(stump, trees, live, block, next);
    ghost var gone := Elements(IdsOf(block.del));
    FollowableNow(stump, trees, block, blockTargets, blockProof);
    ModifyFeedsUpdate(stump, trees, blockTargets, block.add, block.del, blockProof, r.value.1, gone);
    var u := ProofMaintenance.Update(cachedProof, hashes, block.add, blockTargets, remembers, r.value.1, trees, gone);
    proof, cached := u.value.0, u.value.1;
    AppliedIs(trees, stump.leaves, block);
    CachedLeaves(trees, stump.leaves, cachedProof, hashes);
    forall c: set<Hash> | forall h :: h in hashes <==> h in c
      ensures forall h :: h in cached <==> h in Cached(c, block, remembers, BlockPlaces(trees, stump.leaves, block))
    {
      forall h ensures h in cached <==> h in Cached(c, block, remembers, BlockPlaces(trees, stump.leaves, block)) {
        CachedMember(c, hashes, block, remembers, BlockPlaces(trees, stump.leaves, block), h);
      }
    }
  }

  lemma LegalSize(live: set<nat>, n: nat, block: Update)
    requires Legal(live, n, block)
    ensures n + |block.add| <= MAX_LEAVES
  {
  }

  lemma RootsCount(stump: Stump, trees: seq<Tree>)
    requires Represents(stump, trees)
    ensures |stump.roots| == |trees| == PopCount(stump.leaves) && WellFormed(trees, stump.leaves)
  {
    ShapeOf(trees, stump.leaves);
  }

  lemma FollowableNow(stump: Stump, trees: seq<Tree>, block: Update, targets: seq<nat>, proof: Proof)
    requires Represents(stump, trees) && stump.leaves <= MAX_LEAVES && Followable(trees, stump.leaves, block)
    requires Acceptable(stump, trees, targets, block.del, proof) && (block.del == [] ==> targets == [])
    ensures LeafKind(block.del) && |trees| == PopCount(stump.leaves)
    ensures Plain(Hashes(PruneAll(trees, Elements(IdsOf(block.del)))), stump.leaves, block.add)
    ensures Fits(stump.leaves, TreeRows(stump.leaves)) && Movable(targets, stump.leaves, TreeRows(stump.leaves))
    ensures InOrder(Twins(targets, TreeRows(stump.leaves)), stump.leaves, TreeRows(stump.leaves))
  {
    hide Represents, At, Valid, TreeRows, Movable, InOrder, Twins, Plain, HonestProof, WellFormed, Followable, PopCount;
    FollowableFacts(trees, stump.leaves, block);
    ForestSound(stump, trees);
    if block.del == [] {
      NothingTargeted(trees, stump.leaves);
    } else {
      HonestTargets(stump, trees, targets, block.del, proof);
    }
    FollowableAt(trees, stump.leaves, block, targets);
  }

  lemma FollowableFacts(trees: seq<Tree>, n: nat, block: Update)
    requires Followable(trees, n, block)
    ensures LeafKind(block.del) && |trees| == PopCount(n)
    ensures Plain(Hashes(PruneAll(trees, Elements(IdsOf(block.del)))), n, block.add)
  {
    hide Plain, Movable, InOrder, Twins, PopCount;
  }

  lemma NothingTargeted(trees: seq<Tree>, n: nat)
    requires Sound(trees, n, TreeRows(n))
    ensures LeafTargets(trees, n, TreeRows(n), []) && LeafHashes(TargetIds(trees, n, TreeRows(n), [])) == []
  {
    hide WellFormed, TreeRows;
  }

  // ----- whole runs -----

  /** What is cached after the run. */
  function CachedAfter(blocks: seq<Update>, remembers: seq<seq<nat>>): set<Hash>
    requires Typed(blocks) && LegalRun(blocks) && |remembers| == |blocks|
  {
    if blocks == [] then {}
    else
      var k := |blocks| - 1;
      Cached(CachedAfter(blocks[..k], remembers[..k]), blocks[k], remembers[k],
             BlockPlaces(ForestAfter(blocks[..k]), TotalAdded(blocks[..k]), blocks[k]))
  }

  ghost predicate FollowableRun(blocks: seq<Update>)
    requires Typed(blocks)
  {
    forall i :: 0 <= i < |blocks| ==> Followable(ForestAfter(blocks[..i]), TotalAdded(blocks[..i]), blocks[i])
  }

  lemma CachedNext(blocks: seq<Update>, remembers: seq<seq<nat>>, i: nat)
    requires Typed(blocks) && LegalRun(blocks) && |remembers| == |blocks| && i < |blocks|
    ensures Typed(blocks[..i]) && LegalRun(blocks[..i]) && Typed(blocks[..i + 1]) && LegalRun(blocks[..i + 1])
    ensures TotalAdded(blocks[..i]) + |blocks[i].add| <= MAX_LEAVES && LeafKind(blocks[i].del)
    ensures |ForestAfter(blocks[..i])| == PopCount(TotalAdded(blocks[..i]))
    ensures CachedAfter(blocks[..i + 1], remembers[..i + 1]) ==
            Cached(CachedAfter(blocks[..i], remembers[..i]), blocks[i], remembers[i],
                   BlockPlaces(ForestAfter(blocks[..i]), TotalAdded(blocks[..i]), blocks[i]))
  {
    hide Cached, BlockPlaces, ForestAfter, TotalAdded, LiveIn;
    LegalPrefix(blocks, i);
    LegalPrefix(blocks, i + 1);
    RunNext(blocks, i);
    LegalSize(LiveIn(blocks[..i]), TotalAdded(blocks[..i]), blocks[i]);
    assert blocks[..i + 1][..i] == blocks[..i] && remembers[..i + 1][..i] == remembers[..i];
  }

  /** The targets of a proof, translated back from 63 rows. */
  lemma ProvedTargets(trees: seq<Tree>, n: nat, del: seq<Hash>, positions: seq<U64>, proof: Proof)
    requires Sound(trees, n, TreeRows(n)) && Proves(trees, n, del, positions, proof) && DistinctHashes(del)
    ensures TranslateAll(proof.targets, MAX_FOREST_ROWS, TreeRows(n)) == positions
    ensures del == [] ==> positions == []
  {
    hide ProofSet, At, Valid, Sorted, Merkle, TreeRows, WellFormed, Translate;
    ProvesHonest(trees, n, del, positions, proof);
  }

  lemma EmptyProof()
    ensures CurrentProof([], 0, Proof([], []), [])
  {
    TreeRowsFit(0);
    assert TargetIds([], 0, TreeRows(0), []) == [];
    assert ProofSet([], 0, TreeRows(0)) == {};
    assert Sorted({}) == [];
  }

  lemma CurrentProofOf(trees: seq<Tree>, n: nat, forest: MemForest, stump: Stump)
    requires InStep(forest, stump) && trees == forest.Trees() && n == stump.leaves && n <= MAX_LEAVES
    ensures Sound(trees, n, TreeRows(n)) && Represents(stump, trees) && n == forest.leaves && forest.Valid()
  {
    hide ForestOk, WellFormed, TreeRows;
    InStepFacts(forest, stump);
    ForestSound(stump, trees);
  }

  /** Along any legal run, as long as the blocks can be followed: the stump stands for the forest, and
      the cached proof is the one that the forest would give for the leaves that were remembered and
      have not been deleted since. */
  method FollowRun(blocks: seq<Update>, remembers: seq<seq<nat>>)
    returns (forest: MemForest, stump: Stump, proof: Proof, cached: seq<Hash>)
    requires Typed(blocks) && LegalRun(blocks) && |remembers| == |blocks| && FollowableRun(blocks)
    ensures forest.Valid() && forest.Trees() == ForestAfter(blocks)
    ensures Represents(stump, ForestAfter(blocks)) && stump.leaves == TotalAdded(blocks)
    ensures CurrentProof(ForestAfter(blocks), TotalAdded(blocks), proof, cached) && Ascending(proof.targets)
    ensures forall h :: h in cached <==> h in CachedAfter(blocks, remembers)
  {
    hide ForestOk, Live, LegalRun, Represents, Applied, ForestAfter, PopCount, WellFormed, Snap, LiveAfter, Legal,
      InStep, LiveIn, TotalAdded, Followable, CachedAfter, Cached, BlockPlaces, CurrentProof, TreeRows, Translate,
      Acceptable, Proves, Block;
    forest := new MemForest();
    stump, proof, cached := Stump(0, []), Proof([], []), [];
    RunStart(forest, stump, blocks);
    EmptyProof();
    assert remembers[..0] == [] && blocks[..0] == [];
    NothingCached(blocks, remembers);
    var i := 0;
    while i < |blocks|
      invariant i <= |blocks| && fresh(forest) && fresh(forest.nodes)
      invariant InStep(forest, stump) && forest.Valid() && stump.leaves == TotalAdded(blocks[..i])
      invariant Live(forest.Trees(), LiveIn(blocks[..i])) && forest.Trees() == ForestAfter(blocks[..i])
      invariant CurrentProof(forest.Trees(), stump.leaves, proof, cached) && Ascending(proof.targets)
      invariant Typed(blocks[..i]) && LegalRun(blocks[..i])
      invariant forall h :: h in cached <==> h in CachedAfter(blocks[..i], remembers[..i])
    {
      RunNext(blocks, i);
      CachedNext(blocks, remembers, i);
      stump, proof, cached := FollowBlock(forest, stump, proof, cached, blocks[i], remembers[i], LiveIn(blocks[..i]));
      InStepFacts(forest, stump);
      i := i + 1;
    }
    InStepFacts(forest, stump);
    assert blocks[..i] == blocks && remembers[..i] == remembers;
  }

  lemma NothingCached(blocks: seq<Update>, remembers: seq<seq<nat>>)
    requires Typed(blocks) && |remembers| == |blocks|
    ensures LegalRun(blocks[..0]) && CachedAfter(blocks[..0], remembers[..0]) == {}
  {
  }

  /** One block of the run: the forest proves the deletions, the client follows, the forest changes. */
  method FollowBlock(forest: MemForest, stump: Stump, cachedProof: Proof, hashes: seq<Hash>, block: Update,
                     remembers: seq<nat>, ghost live: set<nat>)
    returns (next: Stump, proof: Proof, cached: seq<Hash>)
    requires InStep(forest, stump) && Live(forest.Trees(), live) && Legal(live, stump.leaves, block)
    requires CurrentProof(forest.Trees(), stump.leaves, cachedProof, hashes)
    requires Followable(forest.Trees(), stump.leaves, block)
    modifies forest, forest.nodes
    ensures InStep(forest, next) && fresh(forest.nodes - old(forest.nodes))
    ensures next.leaves == stump.leaves + |block.add|
    ensures forest.Trees() == Applied(old(forest.Trees()), stump.leaves, block)
    ensures Live(forest.Trees(), LiveAfter(live, block))
    ensures CurrentProof(forest.Trees(), next.leaves, proof, cached) && Ascending(proof.targets)
    ensures |old(forest.Trees())| == PopCount(stump.leaves) && LeafKind(block.del)
    ensures stump.leaves + |block.add| <= MAX_LEAVES
    ensures forall c: set<Hash> :: (forall h :: h in hashes <==> h in c) ==>
              forall h :: h in cached <==>
                  h in Cached(c, block, remembers, BlockPlaces(old(forest.Trees()), stump.leaves, block))
  {
    hide ForestOk, Live, Proves, Represents, Acceptable, Block, Applied, PopCount, WellFormed, Snap, Hashes, LiveAfter,
      CurrentProof, Followable, Cached, BlockPlaces, Translate, TreeRows, StopsAt, LocatedLeaves, Removed;
    ghost var trees := forest.Trees();
    LegalKinds(live, stump.leaves, block);
    LegalSize(live, stump.leaves, block);
    CurrentProofOf(trees, stump.leaves, forest, stump);
    LiveIndex(Snap(forest.nodes), forest.roots, forest.leaves, forest.index, live, block);
    var blockProof, positions := forest.Prove(block.del);
    ProvedAcceptable(stump, trees, block.del, positions, blockProof.value);
    ProvedTargets(trees, stump.leaves, block.del, positions, blockProof.value);
    var targets := TranslateAll(blockProof.value.targets, MAX_FOREST_ROWS, TreeRows(stump.leaves));
    next, proof, cached := Follow(stump, cachedProof, hashes, block, remembers, blockProof.value, targets, trees, live);
    LegalApplied(trees, stump.leaves, live, block);
    var ok, _, _, _ := forest.Modify(block.add, block.del);
    AppliedIs(trees, stump.leaves, block);
    NextInStep(forest, next, trees, stump.leaves, block);
  }
}
