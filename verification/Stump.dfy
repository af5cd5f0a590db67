/** The accumulator that keeps only the roots (src/stump/mod.rs). */
module Stumps {
  import opened Bits
  import opened Positions
  import opened Forest
  import opened ProofPositions
  import opened Slots
  import opened MergeLoop
  import opened ProofEngine
  import opened Soundness
  import opened Moves
  import opened HolesFilled
  import opened DestroyedRoots
  import opened ListedRoots

  datatype Stump = Stump(leaves: nat, roots: seq<Hash>)

  /** What `modify` reports for updating cached proofs. */
  datatype UpdateData = UpdateData(
    toDestroy: seq<nat>, prevNumLeaves: nat, newAdd: seq<Node<Hash>>, newDel: seq<Node<Hash>>)

  /** The stump commits to the forest. */
  predicate Represents(stump: Stump, trees: seq<Tree>) {
    WellFormed(trees, stump.leaves) && stump.roots == Hashes(trees)
  }

  // ----- additions -----

  /** `Carry` on root hashes. */
  function CarryHashes(roots: seq<Hash>, n: nat, h: Hash): seq<Hash>
    requires |roots| == PopCount(n)
    decreases n
  {
    if n % 2 == 0 then roots + [h]
    else
      var root := roots[|roots| - 1];
      CarryHashes(roots[..|roots| - 1], n / 2, if root.Empty? then h else ParentHash(root, h))
  }

  lemma {:induction false} CarryCommutes(trees: seq<Tree>, n: nat, t: Tree)
    requires |trees| == PopCount(n) && t != Nil
    ensures CarryHashes(Hashes(trees), n, Merkle(t)) == Hashes(Carry(trees, n, t))
    decreases n
  {
    hide Join, Merkle;
    var k := |trees| - 1;
    if n % 2 == 1 {
      HashesPrefix(trees, k);
      MerkleJoinLeaf(trees[k], t);
      CarryCommutes(trees[..k], n / 2, Join(trees[k], t));
    } else {
      HashesPrefix(trees + [t], |trees|);
      assert (trees + [t])[..|trees|] == trees;
    }
  }

  lemma HashesPrefix(trees: seq<Tree>, k: nat)
    requires k <= |trees|
    ensures Hashes(trees)[..k] == Hashes(trees[..k])
  {
    hide Merkle;
  }

  lemma MerkleJoinLeaf(root: Tree, t: Tree)
    requires t != Nil
    ensures Join(root, t) != Nil
    ensures Merkle(Join(root, t)) == if Merkle(root).Empty? then Merkle(t) else ParentHash(Merkle(root), Merkle(t))
  {
  }

  function AddHashes(roots: seq<Hash>, n: nat, utxos: seq<Hash>): seq<Hash>
    requires |roots| == PopCount(n)
    decreases |utxos|
  {
    if utxos == [] then roots
    else
      CarryHashesLength(roots, n, utxos[0]);
      AddHashes(CarryHashes(roots, n, utxos[0]), n + 1, utxos[1..])
  }

  lemma {:induction false} CarryHashesLength(roots: seq<Hash>, n: nat, h: Hash)
    requires |roots| == PopCount(n)
    ensures |CarryHashes(roots, n, h)| == PopCount(n + 1)
    decreases n
  {
    if n % 2 == 1 {
      assert (n + 1) / 2 == n / 2 + 1 && PopCount(n + 1) == PopCount(n / 2 + 1);
      var root := roots[|roots| - 1];
      CarryHashesLength(roots[..|roots| - 1], n / 2, if root.Empty? then h else ParentHash(root, h));
    } else {
      assert (n + 1) / 2 == n / 2 && PopCount(n + 1) == 1 + PopCount(n / 2);
    }
  }

  /** Adding hashes to roots follows adding leaves to trees. */
  lemma {:induction false} AddCommutes(trees: seq<Tree>, n: nat, ids: seq<nat>)
    requires |trees| == PopCount(n)
    ensures AddHashes(Hashes(trees), n, LeafHashes(ids)) == Hashes(AddAll(trees, n, ids))
    decreases |ids|
  {
    hide Carry, CarryHashes, PopCount, Hashes;
    if ids != [] {
      CarryCommutes(trees, n, Tip(ids[0]));
      CarryLength(trees, n, Tip(ids[0]));
      assert LeafHashes(ids)[1..] == LeafHashes(ids[1..]);
      AddCommutes(Carry(trees, n, Tip(ids[0])), n + 1, ids[1..]);
    }
  }

  /** The nodes that a new leaf enters into the update data while it meets roots. */
  function Inserted(roots: seq<Hash>, n: nat, pos: nat, toAdd: Hash, rows: nat): set<Node<Hash>>
    requires |roots| == PopCount(n)
    decreases n
  {
    if n % 2 == 0 then {(pos, toAdd)}
    else
      var root := roots[|roots| - 1];
      if root.Empty? then Inserted(roots[..|roots| - 1], n / 2, pos, toAdd, rows)
      else
        {(LeftSibling(pos), root), (pos, toAdd)}
        + Inserted(roots[..|roots| - 1], n / 2, Parent(pos, rows), ParentHash(root, toAdd), rows)
  }

  /** Where a new leaf starts: over the roots that are listed in its round. */
  function StartAt(roots: seq<Hash>, n: nat, m: nat, rows: nat): nat
    requires n <= m && rows < 62
  {
    PushAll(n, Destroys(roots, n, 0, m - n, rows), rows)
  }

  /** What the leaves of a block enter. */
  function AllInserted(roots: seq<Hash>, n: nat, utxos: seq<Hash>, rows: nat): set<Node<Hash>>
    requires |roots| == PopCount(n) && rows < 62
    decreases |utxos|
  {
    if utxos == [] then {}
    else
      CarryHashesLength(roots, n, utxos[0]);
      Inserted(roots, n, StartAt(roots, n, n + |utxos|, rows), utxos[0], rows)
      + AllInserted(CarryHashes(roots, n, utxos[0]), n + 1, utxos[1..], rows)
  }

  /** One round of `Stump::add`: the roots that the new leaf meets are popped and hashed in. */
  method AddOne(origRoots: seq<Hash>, utxo: Hash, leaves: nat, startPos: nat, rows: nat)
    returns (roots: seq<Hash>, inserted: set<Node<Hash>>)
    requires |origRoots| == PopCount(leaves)
    ensures roots == CarryHashes(origRoots, leaves, utxo)
    ensures inserted == Inserted(origRoots, leaves, startPos, utxo, rows)
  {
    hide And, Parent, LeftSibling, Shr;
    roots, inserted := origRoots, {};
    var pos := startPos;
    var h := 0;
    var toAdd := utxo;
    ShrZero(leaves);
    while And(Shr(leaves, h), 1) == 1
      invariant |roots| == PopCount(Shr(leaves, h))
      invariant CarryHashes(roots, Shr(leaves, h), toAdd) == CarryHashes(origRoots, leaves, utxo)
      invariant inserted + Inserted(roots, Shr(leaves, h), pos, toAdd, rows) ==
                Inserted(origRoots, leaves, startPos, utxo, rows)
      decreases Shr(leaves, h)
    {
      LowestSet(leaves, h);
      ShrStep(leaves, h);
      var root := roots[|roots| - 1];
      roots := roots[..|roots| - 1];
      if !root.Empty? {
        inserted := inserted + {(LeftSibling(pos), root), (pos, toAdd)};
        pos := Parent(pos, rows);
        toAdd := ParentHash(root, toAdd);
      }
      h := h + 1;
    }
    LowBit(Shr(leaves, h));
    inserted := inserted + {(pos, toAdd)};
    roots := roots + [toAdd];
  }

  /** An addition leaves the roots empty that it does not reach. */
  lemma {:induction false} CarryRow(roots: seq<Hash>, n: nat, h: Hash, row: nat)
    requires |roots| == PopCount(n) && !h.Empty?
    ensures |CarryHashes(roots, n, h)| == PopCount(n + 1)
    ensures EmptyRow(CarryHashes(roots, n, h), n + 1, row) <==>
            EmptyRow(roots, n, row) && Shr(n + 1, row) == Shr(n, row)
    decreases n
  {
    hide RootEmpty;
    CarryHashesLength(roots, n, h);
    ShrZero(n);
    ShrZero(n + 1);
    if n % 2 == 0 {
      EvenRow(roots, n, h, row);
    } else if row > 0 {
      HalfCount(n);
      var k := |roots| - 1;
      var h' := if roots[k].Empty? then h else ParentHash(roots[k], h);
      CarryRow(roots[..k], n / 2, h', row - 1);
      HalfRow(CarryHashes(roots, n, h), n + 1, row);
      assert (n + 1) / 2 == n / 2 + 1;
      if Shr(n / 2, row - 1) % 2 == 1 { RootEmptyUp(roots, n, row - 1); }
    }
  }

  lemma EvenRow(roots: seq<Hash>, n: nat, h: Hash, row: nat)
    requires |roots| == PopCount(n) && !h.Empty? && n % 2 == 0 && |roots + [h]| == PopCount(n + 1)
    ensures EmptyRow(roots + [h], n + 1, row) <==> EmptyRow(roots, n, row) && Shr(n + 1, row) == Shr(n, row)
  {
    hide PopCount;
    assert (n + 1) / 2 == n / 2;
    EvenCount(n);
    ShrZero(n / 2);
    if row > 0 && Shr(n, row) % 2 == 1 {
      RootIndexBound(n, row);
      assert Shr(n + 1, row + 1) == Shr(n, row + 1);
    }
  }

  lemma HalfRow(roots: seq<Hash>, n: nat, row: nat)
    requires |roots| == PopCount(n) && n % 2 == 0 && row > 0
    ensures PopCount(n / 2) == |roots| && (EmptyRow(roots, n, row) <==> EmptyRow(roots, n / 2, row - 1))
    ensures Shr(n, row) == Shr(n / 2, row - 1)
  {
    hide PopCount;
    EvenCount(n);
    assert Shr(n, row + 1) == Shr(n / 2, row);
  }

  lemma RootEmptyUp(roots: seq<Hash>, n: nat, row: nat)
    requires |roots| == PopCount(n) && n % 2 == 1 && Shr(n / 2, row) % 2 == 1 && PopCount(n) == 1 + PopCount(n / 2)
    ensures Shr(n, row + 1) == Shr(n / 2, row) && Shr(n + 1, row + 1) == Shr(n / 2 + 1, row)
    ensures RootEmpty(roots, n, row + 1) <==> RootEmpty(roots[..|roots| - 1], n / 2, row)
  {
    assert (n + 1) / 2 == n / 2 + 1;
    assert Shr(n, row + 2) == Shr(n / 2, row + 1);
    RootIndexBound(n / 2, row);
    RootIndexBound(n, row + 1);
  }

  /** In every round what is listed is what the additions still to come write over, and the masks of
      `remove_bit` reach for it. */
  ghost predicate Plain(roots: seq<Hash>, n: nat, utxos: seq<Hash>)
    requires |roots| == PopCount(n)
  {
    NoneEmpty(utxos) && RoundsRight(roots, n, n + |utxos|) && MasksHold(roots, n, n + |utxos|)
  }

  /** One round later. */
  lemma PlainNext(roots: seq<Hash>, n: nat, utxos: seq<Hash>)
    requires |roots| == PopCount(n) && Plain(roots, n, utxos) && utxos != []
    ensures |CarryHashes(roots, n, utxos[0])| == PopCount(n + 1)
    ensures Plain(CarryHashes(roots, n, utxos[0]), n + 1, utxos[1..])
  {
    hide PopCount, CarryHashes, EmptyRow, RightAt, Shr;
    CarryHashesLength(roots, n, utxos[0]);
    var next, later, m := CarryHashes(roots, n, utxos[0]), n + 1, n + |utxos|;
    forall row: nat ensures EmptyRow(next, later, row) <==> EmptyRow(roots, n, row) && Shr(later, row) == Shr(n, row) {
      CarryRow(roots, n, utxos[0], row);
    }
    forall l: nat, row: nat | later <= l < m && EmptyRow(next, later, row) && Shr(l, row) == Shr(later, row)
      ensures RightAt(l, m, row)
    {
    }
    forall row: nat | OverRow(next, later, m, row) ensures row <= 30 || (row == 31 && Shr(later, row) <= 2) {
      assert OverRow(roots, n, m, row);
    }
    assert later + |utxos[1..]| == m;
  }

  /** What additions report: the list of destroyed roots, and the nodes entered, each once. */
  ghost predicate AddData(roots: seq<Hash>, n: nat, utxos: seq<Hash>, newAdd: seq<Node<Hash>>, toDestroy: seq<nat>)
    requires |roots| == PopCount(n) && TreeRows(n + |utxos|) < 62
  {
    && toDestroy == Destroys(roots, n, 0, |utxos|, TreeRows(n + |utxos|))
    && multiset(newAdd) == multiset(AllInserted(roots, n, utxos, TreeRows(n + |utxos|)))
  }

  method Add(origRoots: seq<Hash>, utxos: seq<Hash>, numLeaves: nat)
    returns (roots: seq<Hash>, updated: seq<Node<Hash>>, allDeleted: seq<nat>)
    requires numLeaves + |utxos| <= MAX_LEAVES && |origRoots| == PopCount(numLeaves)
    ensures roots == AddHashes(origRoots, numLeaves, utxos)
    ensures Ordered(updated) && TreeRows(numLeaves + |utxos|) < 62
    ensures AddData(origRoots, numLeaves, utxos, updated, allDeleted)
  {
    hide TreeRows, BelowTop, CarryHashes, Inserted, Ordered, PopCount, AllInserted, AddHashes, Pow2, Destroys, MoveAll,
      PushAll, Reachable;
    ghost var rows := TreeRows(numLeaves + |utxos|);
    assert utxos[0..] == utxos;
    var afterRows := TreeRows(numLeaves + |utxos|);
    TreeRowsFit(numLeaves + |utxos|);
    ghost var goal := AllInserted(origRoots, numLeaves, utxos, rows);
    roots := origRoots;
    var leaves := numLeaves;
    var updatedSubtree: set<Node<Hash>> := {};
    allDeleted := RootsToDestroy(|utxos|, leaves, roots);
    var i := 0;
    while i < |utxos|
      invariant i <= |utxos| && leaves == numLeaves + i
      invariant |roots| == PopCount(leaves)
      invariant AddHashes(roots, leaves, utxos[i..]) == AddHashes(origRoots, numLeaves, utxos)
      invariant updatedSubtree + AllInserted(roots, leaves, utxos[i..], rows) == goal
    {
      var deleted := RootsToDestroy(|utxos| - i, leaves, roots);
      assert leaves + (|utxos| - i) == numLeaves + |utxos|;
      var pos := AddPosition(leaves, deleted, afterRows);
      assert utxos[i..][0] == utxos[i] && utxos[i..][1..] == utxos[i + 1..];
      CarryHashesLength(roots, leaves, utxos[i]);
      InsertedNext(roots, leaves, utxos, i, rows);
      var inserted;
      roots, inserted := AddOne(roots, utxos[i], leaves, pos, afterRows);
      updatedSubtree := updatedSubtree + inserted;
      leaves := leaves + 1;
      i := i + 1;
    }
    NothingLeftToInsert(roots, leaves, utxos, i, rows);
    updated := SortedSet(updatedSubtree);
  }

  lemma NothingLeftToInsert(roots: seq<Hash>, leaves: nat, utxos: seq<Hash>, i: nat, rows: nat)
    requires |roots| == PopCount(leaves) && i == |utxos| && rows < 62
    ensures AllInserted(roots, leaves, utxos[i..], rows) == {} && AddHashes(roots, leaves, utxos[i..]) == roots
  {
  }

  lemma InsertedNext(roots: seq<Hash>, leaves: nat, utxos: seq<Hash>, i: nat, rows: nat)
    requires |roots| == PopCount(leaves) && i < |utxos| && rows < 62
    requires |CarryHashes(roots, leaves, utxos[i])| == PopCount(leaves + 1)
    ensures AllInserted(roots, leaves, utxos[i..], rows) ==
            Inserted(roots, leaves, StartAt(roots, leaves, leaves + (|utxos| - i), rows), utxos[i], rows)
            + AllInserted(CarryHashes(roots, leaves, utxos[i]), leaves + 1, utxos[i + 1..], rows)
    ensures AddHashes(roots, leaves, utxos[i..]) ==
            AddHashes(CarryHashes(roots, leaves, utxos[i]), leaves + 1, utxos[i + 1..])
  {
    hide CarryHashes, Inserted, PopCount, StartAt;
    assert utxos[i..][1..] == utxos[i + 1..];
  }

  /** The iteration order of the `BTreeSet` of nodes. */
  method SortedSet(nodes: set<Node<Hash>>) returns (r: seq<Node<Hash>>)
    ensures Ordered(r) && multiset(r) == multiset(nodes)
  {
    var left := nodes;
    r := [];
    while left != {}
      invariant left <= nodes && Ordered(r) && multiset(r) == multiset(nodes - left)
      decreases left
    {
      var x :| x in left;
      InsertKeeps(x, r);
      r := Insert(x, r);
      assert nodes - (left - {x}) == (nodes - left) + {x};
      left := left - {x};
    }
    assert nodes - {} == nodes;
  }

  // ----- deletions -----

  function Deletions(delHashes: seq<Hash>): (r: seq<(Hash, Hash)>)
    ensures |r| == |delHashes| && forall i :: 0 <= i < |r| ==> r[i] == (delHashes[i], Empty)
  {
    seq(|delHashes|, i requires 0 <= i < |delHashes| => (delHashes[i], Empty))
  }

  /** The pairs carry exactly the deleted leaves. */
  ghost predicate Carried(pairs: seq<(Hash, Hash)>, dels: multiset<nat>) {
    exists ms :: CommittedRoots(pairs, ms) && Sum(ms) == dels
  }

  lemma {:induction false} DelsInMember(nodes: seq<Node<(Hash, Hash)>>, i: nat)
    requires i < |nodes|
    ensures DelsIn(nodes) == DelOf(nodes[i].1) + DelsIn(nodes[..i] + nodes[i + 1..])
  {
    var rest := nodes[..i] + nodes[i + 1..];
    if i == 0 {
      assert rest == nodes[1..];
    } else {
      DelsInMember(nodes[1..], i - 1);
      assert rest[1..] == nodes[1..][..i - 1] + nodes[1..][i..];
    }
  }

  /** The leaves named in the nodes do not depend on the order of the nodes. */
  lemma {:induction false} DelsInPermuted(a: seq<Node<(Hash, Hash)>>, b: seq<Node<(Hash, Hash)>>)
    requires multiset(a) == multiset(b)
    ensures DelsIn(a) == DelsIn(b)
    decreases |a|
  {
    hide DelOf;
    if a == [] {
      assert |b| == |multiset(b)| == 0;
    } else {
      var k := PermutedAt(a, b, 0);
      var rest := b[..k] + b[k + 1..];
      assert b == b[..k] + [b[k]] + b[k + 1..];
      assert a == [a[0]] + a[1..];
      assert multiset(a[1..]) == multiset(a) - multiset{a[0]};
      assert multiset(rest) == multiset(b) - multiset{a[0]};
      DelsInMember(b, k);
      DelsInPermuted(a[1..], rest);
    }
  }

  lemma {:induction false} DelsInConcat(a: seq<Node<(Hash, Hash)>>, b: seq<Node<(Hash, Hash)>>)
    ensures DelsIn(a + b) == DelsIn(a) + DelsIn(b)
  {
    hide DelOf;
    if a == [] {
      assert a + b == b;
    } else {
      assert (a + b)[1..] == a[1..] + b;
      DelsInConcat(a[1..], b);
    }
  }

  lemma {:induction false} DelsInTargets(targets: seq<nat>, delHashes: seq<Hash>)
    requires |targets| == |delHashes| && LeafKind(delHashes)
    ensures DelsIn(Zip(targets, Deletions(delHashes))) == multiset(IdsOf(delHashes))
  {
    hide IdsOf;
    if targets != [] {
      assert Deletions(delHashes)[1..] == Deletions(delHashes[1..]);
      IdsCons(delHashes);
      DelsInTargets(targets[1..], delHashes[1..]);
    } else {
      assert IdsOf(delHashes) == [];
    }
  }

  lemma IdsCons(hashes: seq<Hash>)
    requires hashes != [] && LeafKind(hashes)
    ensures IdsOf(hashes) == [hashes[0].id] + IdsOf(hashes[1..])
  {
  }

  lemma {:induction false} DelsInProof(positions: seq<nat>, hashes: seq<Hash>)
    ensures DelsIn(Zip(positions, Doubles(hashes))) == multiset{}
  {
    if positions != [] && hashes != [] {
      assert Doubles(hashes)[1..] == Doubles(hashes[1..]);
      DelsInProof(positions[1..], hashes[1..]);
    }
  }

  /** What goes into the loop names the deleted leaves and nothing else. */
  lemma InputDels(targets: seq<nat>, delHashes: seq<Hash>, positions: seq<nat>, hashes: seq<Hash>,
                  nodes: seq<Node<(Hash, Hash)>>)
    requires |targets| == |delHashes| && LeafKind(delHashes)
    requires multiset(nodes) == multiset(InputNodes(targets, Deletions(delHashes), positions, Doubles(hashes)))
    ensures DelsIn(nodes) == multiset(IdsOf(delHashes))
    ensures forall i :: 0 <= i < |nodes| ==> Admissible(nodes[i].1)
  {
    hide DelsIn, IdsOf, Zip, Admissible;
    var dels, keeps := Zip(targets, Deletions(delHashes)), Zip(positions, Doubles(hashes));
    DelsInPermuted(nodes, dels + keeps);
    DelsInConcat(dels, keeps);
    DelsInTargets(targets, delHashes);
    DelsInProof(positions, hashes);
    forall i | 0 <= i < |nodes| ensures Admissible(nodes[i].1) {
      var k := PermutedAt(nodes, dels + keeps, i);
      if k < |dels| { DeletionAdmissible(delHashes[k]); } else { DoubleDels(hashes[k - |dels|]); }
    }
  }

  lemma DeletionAdmissible(h: Hash)
    requires h.LeafHash?
    ensures Admissible((h, Empty))
  {
  }

  lemma KeptRoots(roots: seq<Hash>)
    ensures Carried(Doubles(roots), multiset{})
  {
    var ms := seq(|roots|, i => multiset{});
    forall i | 0 <= i < |roots| ensures Commits(Doubles(roots)[i], ms[i]) {
      CommitsSource(Doubles(roots)[i]);
      DoubleDels(roots[i]);
    }
    SumOfNothing(ms);
    assert CommittedRoots(Doubles(roots), ms);
  }

  lemma DoubleDels(h: Hash)
    ensures Admissible((h, h)) && DelOf((h, h)) == multiset{}
  {
  }

  lemma {:induction false} SumOfNothing(ms: seq<multiset<nat>>)
    requires forall i :: 0 <= i < |ms| ==> ms[i] == multiset{}
    ensures Sum(ms) == multiset{}
  {
    if ms != [] { SumOfNothing(ms[1..]); }
  }

  /** The deletion is honest: `targets` are the slots of the leaves to delete and the proof is the
      one a prover computes for them. */
  predicate HonestDeletion(stump: Stump, trees: seq<Tree>, targets: seq<nat>, delHashes: seq<Hash>, proof: Proof) {
    && Represents(stump, trees)
    && HonestProof(trees, stump.leaves, targets, proof)
    && delHashes == LeafHashes(TargetIds(trees, stump.leaves, TreeRows(stump.leaves), targets))
  }

  /** The result of an honest deletion: the touched roots before and after, and the surviving
      hash at every visited slot. */
  ghost predicate RemovedHonestly(stump: Stump, trees: seq<Tree>, targets: seq<nat>, delHashes: seq<Hash>, proof: Proof,
                                  r: Result<(seq<Node<Hash>>, seq<(Hash, Hash)>)>)
    requires HonestDeletion(stump, trees, targets, delHashes, proof)
  {
    HonestTargets(stump, trees, targets, delHashes, proof);
    && r.Ok?
    && TouchedPairs(trees, stump.leaves, targets, Elements(IdsOf(delHashes)), r.value.1)
    && SurvivingNodes(trees, stump.leaves, targets, Elements(IdsOf(delHashes)), r.value.0)
    && GivenFirst(r.value.0, targets, stump.leaves, TreeRows(stump.leaves))
  }

  /** The sorted nodes that enter the loop of a deletion. */
  ghost predicate DeleteInput(proof: Proof, delHashes: seq<Hash>, n: nat, positions: seq<nat>,
                              nodes: seq<Node<(Hash, Hash)>>) {
    var rows := TreeRows(n);
    var translated := TranslateAll(proof.targets, MAX_FOREST_ROWS, rows);
    && rows < 62 && Ordered(nodes)
    && (AllValid(translated, n, rows) ==> Fits(n, rows) && positions == Sorted(ProofSet(translated, n, rows)))
    && multiset(nodes) == multiset(InputNodes(translated, Deletions(delHashes), positions, Doubles(proof.hashes)))
  }

  method Remove(stump: Stump, delHashes: seq<Hash>, proof: Proof)
    returns (r: Result<(seq<Node<Hash>>, seq<(Hash, Hash)>)>, ghost positions: seq<nat>,
             ghost nodes: seq<Node<(Hash, Hash)>>)
    requires stump.leaves <= MAX_LEAVES
    ensures delHashes == [] ==> r == Ok(([], Doubles(stump.roots)))
    ensures delHashes != [] && |delHashes| != |proof.targets| ==>
              r == Err(DelHashesTargetsMismatch(|proof.targets|, |delHashes|))
    ensures delHashes != [] && |delHashes| == |proof.targets| ==>
              DeleteInput(proof, delHashes, stump.leaves, positions, nodes)
              && r == CheckMerge(Merge(nodes, [], 0, 0, [], stump.leaves, TreeRows(stump.leaves), CombinePair),
                                 (computed, roots) => (NewHashes(nodes + computed), roots))
    ensures r.Ok? && LeafKind(delHashes) ==> Carried(r.value.1, multiset(IdsOf(delHashes)))
    ensures delHashes != [] ==>
              forall trees, targets :: HonestDeletion(stump, trees, targets, delHashes, proof) ==>
                RemovedHonestly(stump, trees, targets, delHashes, proof, r)
  {
    hide Merge, HonestDeletion, Sum, DelsIn, InputNodes, TreeRows, AllValid, ProofSet, Carried, RemovedHonestly;
    positions, nodes := [], [];
    if delHashes == [] {
      r := Ok(([], Doubles(stump.roots)));
      KeptRoots(stump.roots);
      return;
    }
    r, positions, nodes := CalculateHashesDelete(proof, Deletions(delHashes), stump.leaves);
    if r.Ok? && LeafKind(delHashes) {
      var translated := TranslateAll(proof.targets, MAX_FOREST_ROWS, TreeRows(stump.leaves));
      InputDels(translated, delHashes, positions, proof.hashes, nodes);
      var ms := MergeSound(nodes, [], 0, 0, [], stump.leaves, TreeRows(stump.leaves), [], []);
      CarriedBy(r.value.1, ms, nodes);
    }
    forall trees, targets | HonestDeletion(stump, trees, targets, delHashes, proof)
      ensures RemovedHonestly(stump, trees, targets, delHashes, proof, r)
    {
      HonestTargets(stump, trees, targets, delHashes, proof);
      RemoveHonest(stump, trees, targets, delHashes, proof, r, nodes);
    }
  }

  lemma RemoveHonest(stump: Stump, trees: seq<Tree>, targets: seq<nat>, delHashes: seq<Hash>, proof: Proof,
                     r: Result<(seq<Node<Hash>>, seq<(Hash, Hash)>)>, nodes: seq<Node<(Hash, Hash)>>)
    requires HonestDeletion(stump, trees, targets, delHashes, proof)
    requires LeafTargets(trees, stump.leaves, TreeRows(stump.leaves), targets)
    requires multiset(nodes) == multiset(InputNodes(targets, Deletions(delHashes),
                                           Sorted(ProofSet(targets, stump.leaves, TreeRows(stump.leaves))),
                                           Doubles(proof.hashes)))
    requires Ordered(nodes)
    requires r == CheckMerge(Merge(nodes, [], 0, 0, [], stump.leaves, TreeRows(stump.leaves), CombinePair),
                             (computed, roots) => (NewHashes(nodes + computed), roots))
    ensures RemovedHonestly(stump, trees, targets, delHashes, proof, r)
  {
    hide HonestProof, WellFormed, Merge, TouchedPairs, SurvivingNodes, GivenFirst, InputNodes, TreeRows, AllValid,
      ProofSet;
    HonestTargets(stump, trees, targets, delHashes, proof);
    var computed, pairs := HonestDelete(trees, stump.leaves, targets, proof, Deletions(delHashes), nodes);
  }

  lemma CarriedBy(pairs: seq<(Hash, Hash)>, ms: seq<multiset<nat>>, nodes: seq<Node<(Hash, Hash)>>)
    requires CommittedRoots(pairs, ms)
    requires Sum(ms) == Sum([]) + (Sum([][0..]) + DelsIn(nodes[0..]))
    ensures Carried(pairs, DelsIn(nodes))
  {
    assert nodes[0..] == nodes;
  }

  lemma HonestTargets(stump: Stump, trees: seq<Tree>, targets: seq<nat>, delHashes: seq<Hash>, proof: Proof)
    requires HonestDeletion(stump, trees, targets, delHashes, proof)
    ensures |trees| == PopCount(stump.leaves) && Fits(stump.leaves, TreeRows(stump.leaves))
    ensures LeafTargets(trees, stump.leaves, TreeRows(stump.leaves), targets)
    ensures LeafKind(delHashes) && IdsOf(delHashes) == TargetIds(trees, stump.leaves, TreeRows(stump.leaves), targets)
    ensures DeletesTargets(trees, stump.leaves, TreeRows(stump.leaves), targets, Deletions(delHashes))
    ensures |proof.targets| == |delHashes|
    ensures TranslateAll(proof.targets, MAX_FOREST_ROWS, TreeRows(stump.leaves)) == targets
  {
    hide WellFormed, Valid, At;
  }

  // ----- modify -----

  /** Whatever the proof was, an accepted block names distinct live leaves, removes exactly those
      (siblings promoted), and carries the additions in. */
  ghost predicate SoundTransition(stump: Stump, utxos: seq<Hash>, delHashes: seq<Hash>, trees: seq<Tree>, next: Stump)
    requires Represents(stump, trees) && LeafKind(delHashes)
  {
    ShapeLength(trees, stump.leaves, 0);
    && multiset(IdsOf(delHashes)) <= AllIds(trees)
    && next == Stump(stump.leaves + |utxos|,
                     AddHashes(Hashes(PruneAll(trees, Elements(IdsOf(delHashes)))), stump.leaves, utxos))
  }

  lemma AgreesElements(ids: seq<nat>, leaves: multiset<nat>)
    ensures Agrees(Elements(ids), multiset(ids), leaves)
  {
    forall x ensures x in Elements(ids) <==> x in multiset(ids) { }
  }

  lemma RootsSound(stump: Stump, utxos: seq<Hash>, delHashes: seq<Hash>, trees: seq<Tree>,
                   pairs: seq<(Hash, Hash)>, next: Stump)
    requires Represents(stump, trees) && LeafKind(delHashes)
    requires Carried(pairs, multiset(IdsOf(delHashes)))
    requires ReplaceRoots(stump.roots, pairs).1 == []
    requires |stump.roots| == PopCount(stump.leaves)
    requires next == Stump(stump.leaves + |utxos|, AddHashes(ReplaceRoots(stump.roots, pairs).0, stump.leaves, utxos))
    ensures SoundTransition(stump, utxos, delHashes, trees, next)
    ensures ReplaceRoots(stump.roots, pairs).0 == Hashes(PruneAll(trees, Elements(IdsOf(delHashes))))
  {
    hide ReplaceRoots, Sum, CommittedRoots, AddHashes, PruneAll, Merkle;
    var ids := IdsOf(delHashes);
    var ms :| CommittedRoots(pairs, ms) && Sum(ms) == multiset(ids);
    forall i | 0 <= i < |trees| ensures trees[i].Nil? || Proper(trees[i]) {
      ShapeEach(trees, stump.leaves, 0, i);
    }
    ReplaceSound(trees, pairs, ms);
    AgreesElements(ids, AllIds(trees));
  }

  // ----- every honest block is accepted -----

  predicate DistinctOld(pairs: seq<(Hash, Hash)>) {
    forall i, j :: 0 <= i < j < |pairs| ==> pairs[i].0 != pairs[j].0
  }

  /** Distinct old hashes that all belong to roots are all claimed. */
  lemma AllClaimed(roots: seq<Hash>, pairs: seq<(Hash, Hash)>)
    requires DistinctOld(pairs) && forall j :: 0 <= j < |pairs| ==> pairs[j].0 in roots
    ensures ReplaceRoots(roots, pairs).1 == []
  {
    hide ReplaceRoots;
    AllReplaced(roots, pairs);
    var olds := Firsts(pairs);
    forall h | h in multiset(olds) ensures multiset(olds)[h] <= multiset(roots)[h] {
      var j :| 0 <= j < |olds| && olds[j] == h;
      assert pairs[j].0 == h;
      CountOne(olds, j);
    }
  }

  lemma ReplaceFirst(roots: seq<Hash>, pairs: seq<(Hash, Hash)>)
    requires roots != []
    ensures var j := FirstOld(pairs, roots[0]);
            var rest := ReplaceRoots(roots[1..], if j < |pairs| then pairs[..j] + pairs[j + 1..] else pairs);
            ReplaceRoots(roots, pairs) == ([if j < |pairs| then pairs[j].1 else roots[0]] + rest.0, rest.1)
  {
    hide FirstOld;
  }

  lemma {:induction false} DoublesClaimed(roots: seq<Hash>)
    ensures ReplaceRoots(roots, Doubles(roots)) == (roots, [])
  {
    hide ReplaceRoots;
    var pairs := Doubles(roots);
    if roots == [] {
      ReplaceEnd(roots, 0, pairs);
    } else {
      ReplaceFirst(roots, pairs);
      assert pairs[0].0 == roots[0] && FirstOld(pairs, roots[0]) == 0;
      assert pairs[..0] + pairs[0 + 1..] == Doubles(roots[1..]);
      DoublesClaimed(roots[1..]);
      assert roots == [roots[0]] + roots[1..];
    }
  }

  /** The touched trees are not empty. */
  lemma TouchedRootFacts(trees: seq<Tree>, n: nat, rows: nat, targets: seq<nat>, p: nat)
    requires Sound(trees, n, rows) && LeafTargets(trees, n, rows, targets) && p in TouchedRoots(targets, n, rows)
    ensures Valid(p, n, rows) && IsRootPosition(p, n, rows)
    ensures RootIndex(n, RowOf(p, rows)) < |trees|
    ensures At(trees, n, rows, p) == trees[RootIndex(n, RowOf(p, rows))] && Proper(At(trees, n, rows, p))
  {
    hide Path, IsRootPosition, At, WellFormed, Valid, RowOf;
    PathFacts(targets, n, rows, p);
    AtRoot(trees, n, rows, p);
    AtProper(trees, n, rows, p);
    if p in Elements(targets) {
    } else {
      InnerFork(trees, n, rows, targets, p);
    }
  }

  lemma TouchedRootsApart(trees: seq<Tree>, n: nat, rows: nat, targets: seq<nat>, rs: seq<nat>, i: nat, j: nat)
    requires Sound(trees, n, rows) && LeafTargets(trees, n, rows, targets) && i < j < |rs|
    requires rs == TouchedRoots(targets, n, rows)
    ensures Valid(rs[i], n, rows) && Valid(rs[j], n, rows)
    ensures Merkle(At(trees, n, rows, rs[i])) != Merkle(At(trees, n, rows, rs[j]))
  {
    hide Path, IsRootPosition, At, WellFormed, Valid, RowOf, TouchedRoots, Merkle, Ids;
    var p, q := rs[i], rs[j];
    TouchedRootFacts(trees, n, rows, targets, p);
    TouchedRootFacts(trees, n, rows, targets, q);
    if Merkle(At(trees, n, rows, p)) == Merkle(At(trees, n, rows, q)) {
      MerkleInjective(At(trees, n, rows, p), At(trees, n, rows, q));
      var id := ProperHasLeaf(At(trees, n, rows, p));
      if RowOf(p, rows) <= RowOf(q, rows) {
        RootShared(trees, n, rows, p, q, id);
      } else {
        RootShared(trees, n, rows, q, p, id);
      }
    }
  }

  lemma TouchedClaimed(trees: seq<Tree>, n: nat, targets: seq<nat>, gone: set<nat>, pairs: seq<(Hash, Hash)>)
    requires Sound(trees, n, TreeRows(n)) && LeafTargets(trees, n, TreeRows(n), targets)
    requires TouchedPairs(trees, n, targets, gone, pairs)
    ensures ReplaceRoots(Hashes(trees), pairs).1 == []
  {
    hide Path, IsRootPosition, At, WellFormed, Valid, TouchedRoots, TreeRows, Prune, Merkle;
    var rows := TreeRows(n);
    var rs := TouchedRoots(targets, n, rows);
    forall j | 0 <= j < |pairs| ensures pairs[j].0 in Hashes(trees) && Valid(rs[j], n, rows)
                                        && pairs[j].0 == Merkle(At(trees, n, rows, rs[j]))
    {
      TouchedRootFacts(trees, n, rows, targets, rs[j]);
      assert Hashes(trees)[RootIndex(n, RowOf(rs[j], rows))] == pairs[j].0;
    }
    forall i, j | 0 <= i < j < |pairs| ensures pairs[i].0 != pairs[j].0 {
      TouchedRootsApart(trees, n, rows, targets, rs, i, j);
    }
    AllClaimed(Hashes(trees), pairs);
  }

  /** Roots and deletion that `modify` has to accept. */
  predicate Acceptable(stump: Stump, trees: seq<Tree>, targets: seq<nat>, delHashes: seq<Hash>, proof: Proof) {
    delHashes == [] || HonestDeletion(stump, trees, targets, delHashes, proof)
  }

  /** The deletion part of the update data: nothing for an empty deletion, else the surviving
      hash at every slot on or beside the root paths of the targets, the given ones first. */
  ghost predicate NewDelExact(stump: Stump, trees: seq<Tree>, targets: seq<nat>, delHashes: seq<Hash>, proof: Proof,
                              newDel: seq<Node<Hash>>)
    requires Acceptable(stump, trees, targets, delHashes, proof)
  {
    if delHashes == [] then newDel == []
    else
      HonestTargets(stump, trees, targets, delHashes, proof);
      && SurvivingNodes(trees, stump.leaves, targets, Elements(IdsOf(delHashes)), newDel)
      && GivenFirst(newDel, targets, stump.leaves, TreeRows(stump.leaves))
  }

  /** The addition part of the update data. */
  ghost predicate NewAddReported(stump: Stump, utxos: seq<Hash>, delHashes: seq<Hash>, trees: seq<Tree>,
                                 data: UpdateData)
    requires Represents(stump, trees) && LeafKind(delHashes) && TreeRows(stump.leaves + |utxos|) < 62
  {
    ShapeLength(trees, stump.leaves, 0);
    var left := Hashes(PruneAll(trees, Elements(IdsOf(delHashes))));
    && Ordered(data.newAdd)
    && AddData(left, stump.leaves, utxos, data.newAdd, data.toDestroy)
  }

  /** The loop over the roots: each computed pair replaces the first root that has its old hash; the
      pairs that match no root are left over. */
  method MatchRoots(roots: seq<Hash>, pairs: seq<(Hash, Hash)>)
    returns (newRoots: seq<Hash>, computedRoots: seq<(Hash, Hash)>)
    ensures (newRoots, computedRoots) == ReplaceRoots(roots, pairs) && |newRoots| == |roots|
    ensures computedRoots == [] <==> multiset(Firsts(pairs)) <= multiset(roots)
  {
    hide ReplaceRoots, FirstOld, Firsts;
    AllReplaced(roots, pairs);
    newRoots, computedRoots := [], pairs;
    var i := 0;
    assert roots[i..] == roots;
    while i < |roots|
      invariant i <= |roots| && |newRoots| == i
      invariant ReplaceRoots(roots, pairs).0 == newRoots + ReplaceRoots(roots[i..], computedRoots).0
      invariant ReplaceRoots(roots, pairs).1 == ReplaceRoots(roots[i..], computedRoots).1
    {
      var root := roots[i];
      ReplaceNext(roots, i, computedRoots);
      var pos := FirstOld(computedRoots, root);
      if pos < |computedRoots| {
        newRoots := newRoots + [computedRoots[pos].1];
        computedRoots := computedRoots[..pos] + computedRoots[pos + 1..];
      } else {
        newRoots := newRoots + [root];
      }
      i := i + 1;
    }
    ReplaceEnd(roots, i, computedRoots);
    assert newRoots + [] == newRoots;
  }

  /** The additions are carried into the given roots. */
  ghost predicate AddsTo(stump: Stump, newRoots: seq<Hash>, utxos: seq<Hash>, next: Stump, data: UpdateData) {
    && |newRoots| == PopCount(stump.leaves) && TreeRows(stump.leaves + |utxos|) < 62
    && next == Stump(stump.leaves + |utxos|, AddHashes(newRoots, stump.leaves, utxos))
    && Ordered(data.newAdd) && AddData(newRoots, stump.leaves, utxos, data.newAdd, data.toDestroy)
    && data.prevNumLeaves == stump.leaves
  }

  /** For every proof: a missing sibling is an error, computed roots that are no roots are another, and
      nothing else is; otherwise each pair of a computed root replaces the first root that has its old hash. */
  ghost predicate Decided(stump: Stump, utxos: seq<Hash>, delHashes: seq<Hash>, proof: Proof, positions: seq<nat>,
                          nodes: seq<Node<(Hash, Hash)>>, r: Result<(Stump, UpdateData)>) {
    && DeleteInput(proof, delHashes, stump.leaves, positions, nodes)
    && var out := Merge(nodes, [], 0, 0, [], stump.leaves, TreeRows(stump.leaves), CombinePair);
       if out.Stuck? then r == Err(MissingSibling(out.pos))
       else if multiset(Firsts(out.roots)) <= multiset(stump.roots) then
         && r.Ok? && r.value.1.newDel == NewHashes(nodes + out.computed)
         && AddsTo(stump, ReplaceRoots(stump.roots, out.roots).0, utxos, r.value.0, r.value.1)
       else r == Err(RootsMismatch)
  }

  /** `modify`.  For every proof: it answers Ok exactly if no sibling is missing and the old hashes of the
      computed roots occur among the roots, and then the new roots are those of the forest after the block. */
  method Modify(stump: Stump, utxos: seq<Hash>, delHashes: seq<Hash>, proof: Proof)
    returns (r: Result<(Stump, UpdateData)>, ghost positions: seq<nat>, ghost nodes: seq<Node<(Hash, Hash)>>)
    requires stump.leaves + |utxos| <= MAX_LEAVES && |stump.roots| == PopCount(stump.leaves)
    ensures delHashes != [] && |delHashes| != |proof.targets| ==>
              r == Err(DelHashesTargetsMismatch(|proof.targets|, |delHashes|))
    ensures TreeRows(stump.leaves + |utxos|) < 62
    ensures r.Ok? && LeafKind(delHashes) ==>
              forall trees :: Represents(stump, trees) ==>
                SoundTransition(stump, utxos, delHashes, trees, r.value.0)
                && NewAddReported(stump, utxos, delHashes, trees, r.value.1)
    ensures delHashes == [] ==>
              r.Ok? && r.value.1.newDel == [] && AddsTo(stump, stump.roots, utxos, r.value.0, r.value.1)
    ensures delHashes != [] && |delHashes| == |proof.targets| ==>
              Decided(stump, utxos, delHashes, proof, positions, nodes, r)
    ensures forall trees, targets :: Acceptable(stump, trees, targets, delHashes, proof) ==>
              r.Ok? && NewDelExact(stump, trees, targets, delHashes, proof, r.value.1.newDel)
    ensures r.Ok? ==> r.value.1.prevNumLeaves == stump.leaves
  {
    hide HonestDeletion, Sum, TreeRows, AllValid, ProofSet, Carried, RemovedHonestly, NewDelExact, SoundTransition,
      NewAddReported, Plain, NoneEmpty, AllInserted, Ordered, Represents, PopCount, Doubles, ReplaceRoots, FirstOld,
      AddHashes, LeafKind, IdsOf, Acceptable, Merge, DeleteInput, Firsts;
    TreeRowsFit(stump.leaves + |utxos|);
    var removed;
    removed, positions, nodes := Remove(stump, delHashes, proof);
    forall trees, targets | Acceptable(stump, trees, targets, delHashes, proof) ensures removed.Ok? {
      RemovedOk(stump, trees, targets, delHashes, proof, removed);
    }
    if removed.Err? {
      return Err(removed.error), positions, nodes;
    }
    var (intermediate, computedPairs) := removed.value;
    var newRoots, computedRoots := MatchRoots(stump.roots, computedPairs);
    ghost var pairs := computedPairs;
    ghost var accepted := computedRoots == [];
    if delHashes == [] { DoublesClaimed(stump.roots); EmptyCarried(stump.roots, delHashes); }
    forall trees, targets | Acceptable(stump, trees, targets, delHashes, proof)
      ensures accepted && NewDelExact(stump, trees, targets, delHashes, proof, intermediate)
    {
      ModifyAccepts(stump, trees, targets, delHashes, proof, removed);
    }
    if computedRoots != [] {
      return Err(RootsMismatch), positions, nodes;
    }
    var roots, updated, destroyed := Add(newRoots, utxos, stump.leaves);
    var newStump := Stump(stump.leaves + |utxos|, roots);
    var data := UpdateData(destroyed, stump.leaves, updated, intermediate);
    if LeafKind(delHashes) {
      forall trees | Represents(stump, trees)
        ensures SoundTransition(stump, utxos, delHashes, trees, newStump)
        ensures NewAddReported(stump, utxos, delHashes, trees, data)
      {
        RootsSound(stump, utxos, delHashes, trees, pairs, newStump);
        NewAddFor(stump, utxos, delHashes, trees, data, newRoots);
      }
    }
    return Ok((newStump, data)), positions, nodes;
  }

  lemma NewAddFor(stump: Stump, utxos: seq<Hash>, delHashes: seq<Hash>, trees: seq<Tree>, data: UpdateData,
                  newRoots: seq<Hash>)
    requires Represents(stump, trees) && LeafKind(delHashes) && |newRoots| == PopCount(stump.leaves)
    requires newRoots == Hashes(PruneAll(trees, Elements(IdsOf(delHashes))))
    requires Ordered(data.newAdd) && TreeRows(stump.leaves + |utxos|) < 62
    requires AddData(newRoots, stump.leaves, utxos, data.newAdd, data.toDestroy)
    ensures NewAddReported(stump, utxos, delHashes, trees, data)
  {
    hide WellFormed, AddData, AllInserted, TreeRows, Ordered, PopCount, PruneAll, Destroys;
  }

  lemma ReplaceNext(roots: seq<Hash>, i: nat, computed: seq<(Hash, Hash)>)
    requires i < |roots|
    ensures var j := FirstOld(computed, roots[i]);
            var left := if j < |computed| then computed[..j] + computed[j + 1..] else computed;
            var rest := ReplaceRoots(roots[i + 1..], left);
            ReplaceRoots(roots[i..], computed) ==
            ([if j < |computed| then computed[j].1 else roots[i]] + rest.0, rest.1)
  {
    assert roots[i..][1..] == roots[i + 1..];
  }

  lemma ReplaceEnd(roots: seq<Hash>, i: nat, computed: seq<(Hash, Hash)>)
    requires i == |roots|
    ensures ReplaceRoots(roots[i..], computed) == ([], computed)
  {
  }

  lemma EmptyCarried(roots: seq<Hash>, delHashes: seq<Hash>)
    requires delHashes == []
    ensures LeafKind(delHashes) && Carried(Doubles(roots), multiset(IdsOf(delHashes)))
  {
    KeptRoots(roots);
    assert IdsOf(delHashes) == [];
  }

  lemma RemovedOk(stump: Stump, trees: seq<Tree>, targets: seq<nat>, delHashes: seq<Hash>, proof: Proof,
                  removed: Result<(seq<Node<Hash>>, seq<(Hash, Hash)>)>)
    requires Acceptable(stump, trees, targets, delHashes, proof)
    requires delHashes == [] ==> removed.Ok?
    requires delHashes != [] ==> forall ts, ps :: HonestDeletion(stump, ts, ps, delHashes, proof) ==>
                                   RemovedHonestly(stump, ts, ps, delHashes, proof, removed)
    ensures removed.Ok?
  {
    hide HonestDeletion, TouchedPairs, SurvivingNodes, GivenFirst;
    if delHashes != [] {
      assert RemovedHonestly(stump, trees, targets, delHashes, proof, removed);
    }
  }

  lemma ModifyAccepts(stump: Stump, trees: seq<Tree>, targets: seq<nat>, delHashes: seq<Hash>, proof: Proof,
                      removed: Result<(seq<Node<Hash>>, seq<(Hash, Hash)>)>)
    requires Acceptable(stump, trees, targets, delHashes, proof) && removed.Ok?
    requires delHashes == [] ==> removed == Ok(([], Doubles(stump.roots)))
    requires delHashes != [] ==> forall ts, ps :: HonestDeletion(stump, ts, ps, delHashes, proof) ==>
                                   RemovedHonestly(stump, ts, ps, delHashes, proof, removed)
    ensures ReplaceRoots(stump.roots, removed.value.1).1 == []
    ensures NewDelExact(stump, trees, targets, delHashes, proof, removed.value.0)
  {
    hide WellFormed, TouchedPairs, SurvivingNodes, GivenFirst, TreeRows, AllValid, ProofSet, ReplaceRoots, Valid, At;
    if delHashes == [] {
      DoublesClaimed(stump.roots);
    } else {
      assert RemovedHonestly(stump, trees, targets, delHashes, proof, removed);
      HonestTargets(stump, trees, targets, delHashes, proof);
      TouchedClaimed(trees, stump.leaves, targets, Elements(IdsOf(delHashes)), removed.value.1);
    }
  }
}
