/** The two accumulators side by side: `Stump::modify`, fed with the proofs of the full forest,
    follows `MemForest::modify` over every run of blocks. */
module Runs {
  import opened Bits
  import opened Positions
  import opened Forest
  import opened ProofPositions
  import opened Slots
  import opened ProofEngine
  import opened Stumps
  import opened NodeHeap
  import opened ForestHeap
  import opened Blocks
  import opened MemForests

  datatype Update = Update(add: seq<Hash>, del: seq<Hash>)

  /** Distinct live leaves are deleted, distinct leaves that are not live are added. */
  predicate Legal(live: set<nat>, n: nat, block: Update) {
    && LeafKind(block.add) && DistinctHashes(block.add) && LeafKind(block.del) && DistinctHashes(block.del)
    && n + |block.add| <= MAX_LEAVES
    && (forall i :: 0 <= i < |block.del| ==> block.del[i].id in live)
    && (forall i :: 0 <= i < |block.add| ==> block.add[i].id !in live || block.add[i] in block.del)
  }

  function LiveAfter(live: set<nat>, block: Update): set<nat>
    requires LeafKind(block.add) && LeafKind(block.del)
  {
    live - Elements(IdsOf(block.del)) + Elements(IdsOf(block.add))
  }

  ghost predicate Live(trees: seq<Tree>, live: set<nat>) {
    forall x :: x in AllIds(trees) <==> x in live
  }

  function Applied(trees: seq<Tree>, n: nat, block: Update): (r: seq<Tree>)
    requires |trees| == PopCount(n) && LeafKind(block.add) && LeafKind(block.del)
    ensures |r| == PopCount(n + |block.add|)
  {
    Block(trees, n, Elements(IdsOf(block.del)), IdsOf(block.add))
  }

  lemma LegalFresh(trees: seq<Tree>, n: nat, live: set<nat>, block: Update)
    requires WellFormed(trees, n) && Live(trees, live) && Legal(live, n, block)
    ensures |trees| == PopCount(n)
    ensures Fresh(PruneAll(trees, Elements(IdsOf(block.del))), IdsOf(block.add))
  {
    hide PruneAll, Shape, AllIds;
    ShapeLength(trees, n, 0);
    var gone := Elements(IdsOf(block.del));
    PruneAllIds(trees, gone);
    forall i | 0 <= i < |block.add| ensures IdsOf(block.add)[i] !in AllIds(PruneAll(trees, gone)) {
      if block.add[i] in block.del {
        var j :| 0 <= j < |block.del| && block.del[j] == block.add[i];
        ElementsAt(IdsOf(block.del), j);
      }
    }
  }

  /** A legal block leaves a well-formed forest with the expected leaves. */
  lemma LegalApplied(trees: seq<Tree>, n: nat, live: set<nat>, block: Update)
    requires WellFormed(trees, n) && Live(trees, live) && Legal(live, n, block)
    ensures |trees| == PopCount(n)
    ensures WellFormed(Applied(trees, n, block), n + |block.add|)
    ensures Live(Applied(trees, n, block), LiveAfter(live, block))
  {
    hide PruneAll, Shape, AllIds, AddAll, Legal, WellFormed, Fresh;
    assert LeafKind(block.add) && LeafKind(block.del) by { LegalKinds(live, n, block); }
    ShapeOf(trees, n);
    LegalFresh(trees, n, live, block);
    var gone, ids := Elements(IdsOf(block.del)), IdsOf(block.add);
    BlockWellFormed(trees, n, gone, ids);
    PruneWellFormed(trees, n, gone);
    AddWellFormed(PruneAll(trees, gone), n, ids);
    PruneAllIds(trees, gone);
    forall x ensures x in AllIds(Applied(trees, n, block)) <==> x in LiveAfter(live, block) {
      assert x in multiset(ids) <==> x in Elements(ids);
    }
  }

  lemma LegalKinds(live: set<nat>, n: nat, block: Update)
    requires Legal(live, n, block)
    ensures LeafKind(block.add) && LeafKind(block.del)
  {
  }

  lemma ShapeOf(trees: seq<Tree>, n: nat)
    requires WellFormed(trees, n)
    ensures |trees| == PopCount(n)
  {
    ShapeLength(trees, n, 0);
  }

  /** A sound transition of leaf-kind additions commits to the forest after the block. */
  lemma TransitionRepresents(stump: Stump, trees: seq<Tree>, live: set<nat>, block: Update, next: Stump)
    requires Represents(stump, trees) && Live(trees, live) && Legal(live, stump.leaves, block)
    requires SoundTransition(stump, block.add, block.del, trees, next)
    ensures |trees| == PopCount(stump.leaves)
    ensures Represents(next, Applied(trees, stump.leaves, block)) && next.leaves == stump.leaves + |block.add|
  {
    hide PruneAll, Shape, AllIds, AddAll, AddHashes, WellFormed, Live, Merkle;
    LegalApplied(trees, stump.leaves, live, block);
    assert LeafHashes(IdsOf(block.add)) == block.add;
    AddCommutes(PruneAll(trees, Elements(IdsOf(block.del))), stump.leaves, IdsOf(block.add));
  }

  // ----- whole runs, from the empty forest -----

  predicate Typed(blocks: seq<Update>) {
    forall i :: 0 <= i < |blocks| ==> LeafKind(blocks[i].add) && LeafKind(blocks[i].del)
  }

  function TotalAdded(blocks: seq<Update>): nat {
    if blocks == [] then 0 else TotalAdded(blocks[..|blocks| - 1]) + |blocks[|blocks| - 1].add|
  }

  function LiveIn(blocks: seq<Update>): set<nat>
    requires Typed(blocks)
  {
    if blocks == [] then {} else LiveAfter(LiveIn(blocks[..|blocks| - 1]), blocks[|blocks| - 1])
  }

  predicate LegalRun(blocks: seq<Update>)
    requires Typed(blocks)
  {
    if blocks == [] then true
    else
      && LegalRun(blocks[..|blocks| - 1])
      && Legal(LiveIn(blocks[..|blocks| - 1]), TotalAdded(blocks[..|blocks| - 1]), blocks[|blocks| - 1])
  }

  /** The forest after the run. */
  function ForestAfter(blocks: seq<Update>): (r: seq<Tree>)
    requires Typed(blocks)
    ensures |r| == PopCount(TotalAdded(blocks))
  {
    if blocks == [] then []
    else Applied(ForestAfter(blocks[..|blocks| - 1]), TotalAdded(blocks[..|blocks| - 1]), blocks[|blocks| - 1])
  }

  lemma {:induction false} LegalPrefix(blocks: seq<Update>, i: nat)
    requires Typed(blocks) && LegalRun(blocks) && i <= |blocks|
    ensures Typed(blocks[..i]) && LegalRun(blocks[..i])
  {
    hide Legal;
    if i < |blocks| {
      var front := blocks[..|blocks| - 1];
      LegalPrefix(front, i);
      assert front[..i] == blocks[..i];
    } else {
      assert blocks[..i] == blocks;
    }
  }

  /** The run one block further. */
  lemma RunNext(blocks: seq<Update>, i: nat)
    requires Typed(blocks) && LegalRun(blocks) && i < |blocks|
    ensures Typed(blocks[..i]) && Typed(blocks[..i + 1]) && LeafKind(blocks[i].add) && LeafKind(blocks[i].del)
    ensures Legal(LiveIn(blocks[..i]), TotalAdded(blocks[..i]), blocks[i])
    ensures TotalAdded(blocks[..i + 1]) == TotalAdded(blocks[..i]) + |blocks[i].add|
    ensures LiveIn(blocks[..i + 1]) == LiveAfter(LiveIn(blocks[..i]), blocks[i])
    ensures |ForestAfter(blocks[..i])| == PopCount(TotalAdded(blocks[..i]))
    ensures ForestAfter(blocks[..i + 1]) == Applied(ForestAfter(blocks[..i]), TotalAdded(blocks[..i]), blocks[i])
  {
    hide Legal, Applied, LiveAfter;
    LegalPrefix(blocks, i + 1);
    assert blocks[..i + 1][..i] == blocks[..i];
  }

  /** The leaves and the root hashes of the full forest are those of the stump. */
  ghost predicate InStep(forest: MemForest, stump: Stump)
    reads forest, forest.nodes
  {
    && forest.Valid() && stump.leaves == forest.leaves
    && |stump.roots| == |forest.roots|
    && (forall i :: 0 <= i < |forest.roots| ==>
        forest.roots[i] in forest.nodes && forest.roots[i].data == stump.roots[i])
    && Represents(stump, forest.Trees())
  }

  lemma RootData(h: Heap, roots: seq<TreeNode>, leaves: nat, index: map<Hash, TreeNode>)
    requires ForestOk(h, roots, leaves, index)
    ensures forall i :: 0 <= i < |roots| ==> h[roots[i]].data == Hashes(TreesOf(h, roots))[i]
  {
    hide Merkle;
    forall i | 0 <= i < |roots| ensures h[roots[i]].data == Hashes(TreesOf(h, roots))[i] {
      assert NodeOk(h, roots[i]);
    }
  }

  lemma LiveIndex(h: Heap, roots: seq<TreeNode>, leaves: nat, index: map<Hash, TreeNode>, live: set<nat>, block: Update)
    requires ForestOk(h, roots, leaves, index) && Live(TreesOf(h, roots), live) && Legal(live, leaves, block)
    ensures forall i :: 0 <= i < |block.del| ==> block.del[i] in index
    ensures forall i :: 0 <= i < |block.add| ==> block.add[i] !in index || block.add[i] in block.del
  {
    hide ForestOk;
    forall i | 0 <= i < |block.del| ensures block.del[i] in index {
      IndexIsLive(h, roots, leaves, index, block.del[i].id);
    }
    forall i | 0 <= i < |block.add| ensures block.add[i] !in index || block.add[i] in block.del {
      IndexIsLive(h, roots, leaves, index, block.add[i].id);
    }
  }

  lemma ProvedAcceptable(stump: Stump, trees: seq<Tree>, del: seq<Hash>, positions: seq<U64>, proof: Proof)
    requires Represents(stump, trees) && stump.leaves <= MAX_LEAVES && DistinctHashes(del)
    requires Proves(trees, stump.leaves, del, positions, proof)
    ensures Acceptable(stump, trees, positions, del, proof)
  {
    hide HonestProof, Proves, WellFormed, TreeRows, LeafTargets;
    TreeRowsFit(stump.leaves);
    ShapeOf(trees, stump.leaves);
    ProvesHonest(trees, stump.leaves, del, positions, proof);
  }

  /** One block: the proof of the forest is accepted, and both accumulators arrive at the same
      forest. */
  method Step(forest: MemForest, stump: Stump, block: Update, ghost live: set<nat>) returns (next: Stump)
    requires InStep(forest, stump) && Live(forest.Trees(), live) && Legal(live, stump.leaves, block)
    modifies forest, forest.nodes
    ensures InStep(forest, next) && fresh(forest.nodes - old(forest.nodes))
    ensures next.leaves == stump.leaves + |block.add|
    ensures forest.Trees() == Applied(old(forest.Trees()), stump.leaves, block)
    ensures Live(forest.Trees(), LiveAfter(live, block))
  {
    hide ForestOk, Live, Proves, SoundTransition, Represents, Acceptable, NewDelExact, Block, Applied, PopCount,
      WellFormed, Snap, Hashes, LiveAfter, Decided, StopsAt, LocatedLeaves, Removed, TreeRows;
    ghost var trees := forest.Trees();
    LiveIndex(Snap(forest.nodes), forest.roots, forest.leaves, forest.index, live, block);
    var proof, positions := forest.Prove(block.del);
    ProvedAcceptable(stump, trees, block.del, positions, proof.value);
    var r, _, _ := Stumps.Modify(stump, block.add, block.del, proof.value);
    assert r.Ok?;
    next := r.value.0;
    TransitionRepresents(stump, trees, live, block, next);
    LegalApplied(trees, stump.leaves, live, block);
    var ok, _, _, _ := forest.Modify(block.add, block.del);
    AppliedIs(trees, stump.leaves, block);
    NextInStep(forest, next, trees, stump.leaves, block);
  }

  lemma AppliedIs(trees: seq<Tree>, n: nat, block: Update)
    requires |trees| == PopCount(n) && LeafKind(block.add) && LeafKind(block.del)
    ensures Applied(trees, n, block) == Block(trees, n, Elements(IdsOf(block.del)), IdsOf(block.add))
  {
  }

  lemma NextInStep(forest: MemForest, next: Stump, trees: seq<Tree>, n: nat, block: Update)
    requires forest.Valid() && |trees| == PopCount(n) && LeafKind(block.add) && LeafKind(block.del)
    requires forest.Trees() == Applied(trees, n, block) && forest.leaves == n + |block.add|
    requires Represents(next, Applied(trees, n, block)) && next.leaves == n + |block.add|
    ensures InStep(forest, next)
  {
    hide Applied, WellFormed, ForestOk, Merkle;
    RootData(Snap(forest.nodes), forest.roots, forest.leaves, forest.index);
    RootsInNodes(Snap(forest.nodes), forest.roots, forest.leaves, forest.index);
    forall i | 0 <= i < |forest.roots| ensures forest.roots[i].data == next.roots[i] {
      SnapAt(forest.nodes, forest.roots[i]);
    }
  }

  lemma RootsInNodes(h: Heap, roots: seq<TreeNode>, leaves: nat, index: map<Hash, TreeNode>)
    requires ForestOk(h, roots, leaves, index)
    ensures forall i :: 0 <= i < |roots| ==> roots[i] in h
  {
  }

  method RootHashes(forest: MemForest) returns (hs: seq<Hash>)
    ensures |hs| == |forest.roots| && forall i :: 0 <= i < |hs| ==> hs[i] == forest.roots[i].data
  {
    hs := [];
    for i := 0 to |forest.roots|
      invariant |hs| == i && forall k :: 0 <= k < i ==> hs[k] == forest.roots[k].data
    {
      hs := hs + [forest.roots[i].data];
    }
  }

  lemma InStepFacts(forest: MemForest, stump: Stump)
    requires InStep(forest, stump)
    ensures forest.Valid() && stump.leaves == forest.leaves && Represents(stump, forest.Trees())
    ensures forall hs: seq<Hash> ::
              |hs| == |forest.roots| && (forall i :: 0 <= i < |hs| ==> hs[i] == forest.roots[i].data) ==>
              hs == stump.roots
  {
  }

  /** What is reported after a run: leaf count and root hashes are those of the forest that the run
      describes, and the stump has the same. */
  ghost predicate Follows(blocks: seq<Update>, stump: Stump, roots: seq<Hash>, leaves: nat)
    requires Typed(blocks)
  {
    && leaves == TotalAdded(blocks) && roots == Hashes(ForestAfter(blocks))
    && stump == Stump(leaves, roots) && Represents(stump, ForestAfter(blocks))
  }

  /** From the empty accumulators, over any legal run: after every block the stump has the leaf
      count and the root hashes of the full forest, in order, and both stand for the forest that
      the run describes. */
  method Run(blocks: seq<Update>)
    returns (forest: MemForest, stumps: seq<Stump>, roots: seq<seq<Hash>>, leaves: seq<nat>)
    requires Typed(blocks) && LegalRun(blocks)
    ensures |stumps| == |roots| == |leaves| == |blocks|
    ensures forall i :: 0 <= i < |blocks| ==> Follows(blocks[..i + 1], stumps[i], roots[i], leaves[i])
    ensures forest.Valid() && forest.Trees() == ForestAfter(blocks)
  {
    hide ForestOk, Live, LegalRun, Represents, Applied, ForestAfter, PopCount, WellFormed, Snap, LiveAfter, Legal,
      InStep, LiveIn, TotalAdded, Follows;
    forest := new MemForest();
    var stump := Stump(0, []);
    stumps, roots, leaves := [], [], [];
    RunStart(forest, stump, blocks);
    var i := 0;
    while i < |blocks|
      invariant i <= |blocks| && |stumps| == |roots| == |leaves| == i
      invariant fresh(forest) && fresh(forest.nodes)
      invariant InStep(forest, stump) && forest.Valid() && stump.leaves == TotalAdded(blocks[..i])
      invariant Live(forest.Trees(), LiveIn(blocks[..i])) && forest.Trees() == ForestAfter(blocks[..i])
      invariant forall k :: 0 <= k < i ==> Follows(blocks[..k + 1], stumps[k], roots[k], leaves[k])
    {
      RunNext(blocks, i);
      stump := Step(forest, stump, blocks[i], LiveIn(blocks[..i]));
      var hashes := RootHashes(forest);
      StepFollows(forest, stump, blocks[..i + 1], hashes);
      stumps, roots, leaves := stumps + [stump], roots + [hashes], leaves + [forest.leaves];
      i := i + 1;
    }
    assert blocks[..i] == blocks;
  }

  lemma StepFollows(forest: MemForest, stump: Stump, blocks: seq<Update>, hashes: seq<Hash>)
    requires InStep(forest, stump) && Typed(blocks)
    requires stump.leaves == TotalAdded(blocks) && forest.Trees() == ForestAfter(blocks)
    requires |hashes| == |forest.roots| && forall i :: 0 <= i < |hashes| ==> hashes[i] == forest.roots[i].data
    ensures Follows(blocks, stump, hashes, forest.leaves) && forest.Valid()
  {
    hide Represents, ForestAfter, TotalAdded, ForestOk;
    InStepFacts(forest, stump);
    RepresentsRoots(stump, forest.Trees());
  }

  lemma RepresentsRoots(stump: Stump, trees: seq<Tree>)
    requires Represents(stump, trees)
    ensures stump.roots == Hashes(trees)
  {
    hide WellFormed;
  }

  lemma RunStart(forest: MemForest, stump: Stump, blocks: seq<Update>)
    requires forest.Valid() && forest.leaves == 0 && forest.Trees() == [] && stump == Stump(0, []) && Typed(blocks)
    ensures InStep(forest, stump) && stump.leaves == TotalAdded(blocks[..0])
    ensures Live(forest.Trees(), LiveIn(blocks[..0])) && forest.Trees() == ForestAfter(blocks[..0])
  {
  }
}
