/** Checking a proof against the present roots, and cutting a proof down to fewer targets
    (`calculate_hashes`, `verify` and `get_proof_subset`, src/proof/mod.rs). */
module ProofChecks {
  import opened Bits
  import opened Positions
  import opened Forest
  import opened ProofPositions
  import opened Slots
  import opened MergeLoop
  import opened ProofEngine

  /** The proof a prover computes for `targets`, given in the forest's own positions. */
  predicate CurrentProof(trees: seq<Tree>, n: nat, proof: Proof, delHashes: seq<Hash>) {
    && Sound(trees, n, TreeRows(n))
    && LeafTargets(trees, n, TreeRows(n), proof.targets)
    && proof.hashes == HonestHashes(trees, n, TreeRows(n), proof.targets)
    && delHashes == LeafHashes(TargetIds(trees, n, TreeRows(n), proof.targets))
  }

  /** `nodes.retain(..)`: drops the nodes at proof positions. */
  function Except<T>(nodes: seq<Node<T>>, positions: seq<nat>): (r: seq<Node<T>>)
  {
    if nodes == [] then []
    else (if nodes[0].0 in positions then [] else [nodes[0]]) + Except(nodes[1..], positions)
  }

  lemma {:induction false} ExceptHolds<T>(nodes: seq<Node<T>>, positions: seq<nat>, val: nat -> T)
    requires Carries(nodes, val)
    ensures Carries(Except(nodes, positions), val)
    ensures forall p :: Holds(Except(nodes, positions), p) <==> Holds(nodes, p) && p !in positions
  {
    if nodes != [] {
      var rest := Except(nodes[1..], positions);
      ExceptHolds(nodes[1..], positions, val);
      forall p ensures Holds(Except(nodes, positions), p) <==> Holds(nodes, p) && p !in positions {
        HoldsConcat([nodes[0]], nodes[1..], p);
        assert nodes == [nodes[0]] + nodes[1..];
        HoldsOne(nodes[0], p);
        HoldsConcat([nodes[0]], rest, p);
        HoldsConcat([], rest, p);
      }
    }
  }

  lemma HoldsOne<T>(node: Node<T>, p: nat)
    ensures Holds([node], p) <==> node.0 == p
  {
    assert [node][0] == node;
  }

  /** `calculate_hashes`: recomputes the touched roots.  The loop runs on the targets as they are
      given; `positions` and `nodes` show the proof positions and the sorted nodes. */
  method CalculateHashes(proof: Proof, delHashes: seq<Hash>, n: nat)
    returns (r: Result<(seq<Node<Hash>>, seq<Hash>)>, ghost positions: seq<nat>, ghost nodes: seq<Node<Hash>>)
    requires n <= MAX_LEAVES
    ensures |proof.targets| != |delHashes| ==>
              r == Err(DelHashesTargetsMismatch(|proof.targets|, |delHashes|))
    ensures |proof.targets| == |delHashes| ==>
              var rows := TreeRows(n);
              var translated := TranslateAll(proof.targets, MAX_FOREST_ROWS, rows);
              && (AllValid(translated, n, rows) ==>
                    Fits(n, rows) && positions == Sorted(ProofSet(translated, n, rows)))
              && multiset(nodes) == multiset(InputNodes(proof.targets, delHashes, positions, proof.hashes))
              && Ordered(nodes)
              && rows < 62
              && r == CheckMerge(Merge(nodes, [], 0, 0, [], n, rows, ParentHash),
                                 (computed, roots) => (Except(nodes + computed, positions), roots))
  {
    hide ProofSet, AllValid, Fits, Merge, IsRootPosition, Parent, Or, GetNext, InputNodes, TranslateAll, Sorted,
      TreeRows, Ordered, Except;
    positions, nodes := [], [];
    if |proof.targets| != |delHashes| {
      return Err(DelHashesTargetsMismatch(|proof.targets|, |delHashes|)), positions, nodes;
    }
    TreeRowsFit(n);
    var rows := TreeRows(n);
    var translated := TranslateAll(proof.targets, MAX_FOREST_ROWS, rows);
    var proofPositions := GetProofPositions(translated, n, rows);
    var sorted := SortNodes(InputNodes(proof.targets, delHashes, proofPositions, proof.hashes));
    positions, nodes := proofPositions, sorted;
    var computed: seq<Node<Hash>> := [];
    var calculatedRoots: seq<Hash> := [];
    var computedIndex: nat, providedIndex: nat := 0, 0;
    ghost var outcome := Merge(sorted, [], 0, 0, [], n, rows, ParentHash);
    var next := GetNext(computed, sorted, computedIndex, providedIndex);
    while next.Popped?
      invariant computedIndex <= |computed| && providedIndex <= |sorted|
      invariant next == GetNext(computed, sorted, computedIndex, providedIndex)
      invariant outcome == Merge(sorted, computed, computedIndex, providedIndex, calculatedRoots, n, rows, ParentHash)
      decreases |sorted| - providedIndex + |computed| - computedIndex
    {
      var (nextPos, nextHash) := next.node;
      MergeUnfold(sorted, computed, computedIndex, providedIndex, calculatedRoots, n, rows, ParentHash);
      computedIndex, providedIndex := next.computedIndex, next.providedIndex;
      if IsRootPosition(nextPos, n, rows) {
        calculatedRoots := calculatedRoots + [nextHash];
      } else {
        var second := GetNext(computed, sorted, computedIndex, providedIndex);
        if second.Exhausted? || second.node.0 != Or(nextPos, 1) {
          return Err(MissingSibling(nextPos)), positions, nodes;
        }
        computedIndex, providedIndex := second.computedIndex, second.providedIndex;
        computed := computed + [(Parent(nextPos, rows), ParentHash(nextHash, second.node.1))];
      }
      next := GetNext(computed, sorted, computedIndex, providedIndex);
    }
    MergeUnfold(sorted, computed, computedIndex, providedIndex, calculatedRoots, n, rows, ParentHash);
    return Ok((Except(sorted + computed, proofPositions), calculatedRoots)), positions, nodes;
  }

  lemma CurrentTargets(trees: seq<Tree>, n: nat, proof: Proof, delHashes: seq<Hash>)
    requires CurrentProof(trees, n, proof, delHashes)
    ensures |proof.targets| == |delHashes|
    ensures Fits(n, TreeRows(n)) && AllValid(proof.targets, n, TreeRows(n))
    ensures TranslateAll(proof.targets, MAX_FOREST_ROWS, TreeRows(n)) == proof.targets
  {
    hide WellFormed, Valid, Translate, TreeRows, At;
    forall i | 0 <= i < |proof.targets|
      ensures Translate(proof.targets[i], MAX_FOREST_ROWS, TreeRows(n)) == proof.targets[i]
    {
      TranslateRoundTrip(proof.targets[i], n, TreeRows(n));
    }
  }

  lemma CurrentCarries(trees: seq<Tree>, n: nat, proof: Proof, delHashes: seq<Hash>)
    requires CurrentProof(trees, n, proof, delHashes)
    ensures Fits(n, TreeRows(n)) && AllValid(proof.targets, n, TreeRows(n)) && |trees| == PopCount(n)
    ensures |proof.hashes| == |Sorted(ProofSet(proof.targets, n, TreeRows(n)))|
    ensures Carries(InputNodes(proof.targets, delHashes, Sorted(ProofSet(proof.targets, n, TreeRows(n))), proof.hashes),
                    Current(trees, n, TreeRows(n)))
  {
    hide WellFormed, ProofSet, TreeRows, At, InputNodes, Valid, Sorted;
    CurrentTargets(trees, n, proof, delHashes);
    var rows := TreeRows(n);
    var ps := Sorted(ProofSet(proof.targets, n, rows));
    ProofPositionsValid(proof.targets, n, rows);
    InputLength(proof.targets, delHashes, ps, proof.hashes);
    forall k | 0 <= k < |proof.targets| + |ps|
      ensures var node := InputNodes(proof.targets, delHashes, ps, proof.hashes)[k];
              node.1 == Current(trees, n, rows)(node.0)
    {
      InputAt(proof.targets, delHashes, ps, proof.hashes, k);
    }
  }

  /** The nodes are exactly the root paths of the targets, each with its present hash. */
  ghost predicate PathNodes(trees: seq<Tree>, n: nat, targets: seq<nat>, nodes: seq<Node<Hash>>)
    requires |trees| == PopCount(n) && Fits(n, TreeRows(n)) && AllValid(targets, n, TreeRows(n))
  {
    && (forall p :: Holds(nodes, p) <==> p in Path(targets, n, TreeRows(n)))
    && Carries(nodes, Current(trees, n, TreeRows(n)))
  }

  /** From an honest proof the loop recomputes exactly the touched roots, smallest tree first, and
      the hashes along the root paths. */
  lemma CurrentHashes(trees: seq<Tree>, n: nat, proof: Proof, delHashes: seq<Hash>, nodes: seq<Node<Hash>>)
    returns (computed: seq<Node<Hash>>)
    requires CurrentProof(trees, n, proof, delHashes) && Ordered(nodes)
    requires Fits(n, TreeRows(n)) && AllValid(proof.targets, n, TreeRows(n)) && |trees| == PopCount(n)
    requires multiset(nodes) == multiset(InputNodes(proof.targets, delHashes,
                                           Sorted(ProofSet(proof.targets, n, TreeRows(n))), proof.hashes))
    ensures Merge(nodes, [], 0, 0, [], n, TreeRows(n), ParentHash) ==
            Finished(computed, Vals(TouchedRoots(proof.targets, n, TreeRows(n)), Current(trees, n, TreeRows(n))))
    ensures PathNodes(trees, n, proof.targets,
                      Except(nodes + computed, Sorted(ProofSet(proof.targets, n, TreeRows(n)))))
  {
    hide ProofSet, Path, AllValid, At, Provided, Inner, InputNodes, IsRootPosition, WellFormed, TreeRows, Merge, Valid,
      Sorted, Except, Current;
    var rows, targets := TreeRows(n), proof.targets;
    var val := Current(trees, n, rows);
    CurrentTargets(trees, n, proof, delHashes);
    CurrentCarries(trees, n, proof, delHashes);
    CurrentConsistent(trees, n, rows, targets);
    computed := HonestMerge(trees, n, rows, targets, delHashes, proof.hashes, nodes, val, ParentHash);
    VisitedNodes(trees, n, rows, targets, nodes, computed, val);
    var ps := Sorted(ProofSet(targets, n, rows));
    ExceptHolds(nodes + computed, ps, val);
    forall p ensures Holds(Except(nodes + computed, ps), p) <==> p in Path(targets, n, rows) {
      assert p in ps <==> p in Elements(ps);
      ProofSetMember(targets, n, rows, p);
    }
  }

  // ----- verify -----

  /** The loop over the roots, last root first: what is left of the calculated roots, and how many
      were matched. */
  function Match(roots: seq<Hash>, calculated: seq<Hash>): (r: (seq<Hash>, nat))
    ensures |r.0| + r.1 == |calculated|
  {
    if roots == [] then (calculated, 0)
    else
      var k := |roots| - 1;
      if calculated != [] && calculated[0] == roots[k] then
        var rest := Match(roots[..k], calculated[1..]);
        (rest.0, rest.1 + 1)
      else Match(roots[..k], calculated)
  }

  /** The hashes are found among the roots at the given places, each one before those of the hashes that
      come earlier in the list. */
  predicate FoundAt(roots: seq<Hash>, found: seq<Hash>, at: seq<nat>) {
    && |at| == |found|
    && (forall j :: 0 <= j < |at| ==> at[j] < |roots| && roots[at[j]] == found[j])
    && (forall i, j :: 0 <= i < j < |at| ==> at[j] < at[i])
  }

  /** The hashes are roots of different trees, listed from the last tree to the first. */
  ghost predicate Occur(roots: seq<Hash>, found: seq<Hash>) {
    exists at :: FoundAt(roots, found, at)
  }

  /** The loop matches the longest beginning of the list that occurs. */
  lemma MatchLongest(roots: seq<Hash>, calculated: seq<Hash>)
    ensures var m := Match(roots, calculated);
            && m.1 <= |calculated| && m.0 == calculated[m.1..]
            && forall k :: 0 <= k <= |calculated| ==> (Occur(roots, calculated[..k]) <==> k <= m.1)
  {
    hide Match;
    var m := Match(roots, calculated);
    var at := MatchPlaces(roots, calculated);
    forall k | 0 <= k <= |calculated| ensures Occur(roots, calculated[..k]) <==> k <= m.1 {
      if k <= m.1 {
        assert calculated[..k] == calculated[..m.1][..k];
        assert FoundAt(roots, calculated[..k], at[..k]);
      }
      if Occur(roots, calculated[..k]) {
        var places :| FoundAt(roots, calculated[..k], places);
        MatchAtLeast(roots, calculated, places);
      }
    }
  }

  lemma {:induction false} MatchPlaces(roots: seq<Hash>, calculated: seq<Hash>) returns (at: seq<nat>)
    ensures var m := Match(roots, calculated);
            m.1 <= |calculated| && m.0 == calculated[m.1..] && FoundAt(roots, calculated[..m.1], at)
    decreases |roots|
  {
    at := [];
    if roots != [] {
      var k := |roots| - 1;
      if calculated != [] && calculated[0] == roots[k] {
        var rest := MatchPlaces(roots[..k], calculated[1..]);
        at := [k] + rest;
        var m := Match(roots, calculated);
        assert calculated[m.1..] == calculated[1..][m.1 - 1..];
        assert calculated[..m.1] == [roots[k]] + calculated[1..][..m.1 - 1];
      } else {
        at := MatchPlaces(roots[..k], calculated);
      }
    }
  }

  lemma {:induction false} MatchAtLeast(roots: seq<Hash>, calculated: seq<Hash>, at: seq<nat>)
    requires |at| <= |calculated| && FoundAt(roots, calculated[..|at|], at)
    ensures Match(roots, calculated).1 >= |at|
    decreases |roots|
  {
    if at != [] {
      var k := |roots| - 1;
      var first := at[0];
      assert first < |roots| && roots[first] == calculated[0];
      if calculated[0] == roots[k] {
        assert calculated[1..][..|at| - 1] == calculated[..|at|][1..];
        assert FoundAt(roots[..k], calculated[1..][..|at| - 1], at[1..]);
        MatchAtLeast(roots[..k], calculated[1..], at[1..]);
      } else {
        forall j | 0 <= j < |at| ensures at[j] < k { assert j == 0 || at[j] < at[0]; }
        assert FoundAt(roots[..k], calculated[..|at|], at);
        MatchAtLeast(roots[..k], calculated, at);
      }
    }
  }

  /** Roots calculated in the order in which they occur are all matched. */
  lemma {:induction false} MatchesAll(roots: seq<Hash>, calculated: seq<Hash>, at: seq<nat>)
    requires FoundAt(roots, calculated, at)
    ensures Match(roots, calculated) == ([], |calculated|)
    decreases |roots|
  {
    if roots != [] && calculated != [] {
      var k := |roots| - 1;
      if calculated[0] == roots[k] {
        MatchesAll(roots[..k], calculated[1..], at[1..]);
      } else {
        forall j | 0 <= j < |at| ensures at[j] < k { assert j == 0 || at[j] < at[0]; }
        MatchesAll(roots[..k], calculated, at);
      }
    } else if roots != [] {
      MatchesAll(roots[..|roots| - 1], calculated, at);
    } else {
      BelowNothing(at, |roots|);
    }
  }

  lemma BelowNothing(at: seq<nat>, bound: nat)
    requires forall j :: 0 <= j < |at| ==> at[j] < bound
    ensures bound == 0 ==> at == []
  {
    if at != [] {
      var first := at[0];
      assert first < bound;
    }
  }

  lemma TouchedOrder(trees: seq<Tree>, n: nat, rows: nat, targets: seq<nat>, i: nat, j: nat)
    requires Sound(trees, n, rows) && LeafTargets(trees, n, rows, targets)
    requires i < j < |TouchedRoots(targets, n, rows)|
    ensures RootIndex(n, RowOf(TouchedRoots(targets, n, rows)[j], rows)) <
            RootIndex(n, RowOf(TouchedRoots(targets, n, rows)[i], rows))
  {
    hide Path, IsRootPosition, WellFormed, Valid, RowOf, OffOf, At, TouchedRoots, RootIndex, Level;
    var rs := TouchedRoots(targets, n, rows);
    var p, q := rs[i], rs[j];
    TouchedRoot(trees, n, rows, targets, p);
    TouchedRoot(trees, n, rows, targets, q);
    Climb(p, n, rows);
    Climb(q, n, rows);
    Order(p, q, n, rows);
    RootIndexInjective(n, RowOf(p, rows), RowOf(q, rows));
  }

  lemma TouchedRoot(trees: seq<Tree>, n: nat, rows: nat, targets: seq<nat>, p: nat)
    requires Sound(trees, n, rows) && LeafTargets(trees, n, rows, targets) && p in TouchedRoots(targets, n, rows)
    ensures Valid(p, n, rows) && IsRootPosition(p, n, rows)
    ensures RootIndex(n, RowOf(p, rows)) < |trees|
    ensures At(trees, n, rows, p) == trees[RootIndex(n, RowOf(p, rows))]
  {
    hide Path, IsRootPosition, At, WellFormed, Valid, RowOf;
    PathFacts(targets, n, rows, p);
    AtRoot(trees, n, rows, p);
  }

  lemma TouchedMatch(trees: seq<Tree>, n: nat, targets: seq<nat>)
    requires Sound(trees, n, TreeRows(n)) && LeafTargets(trees, n, TreeRows(n), targets)
    ensures Match(Hashes(trees), Vals(TouchedRoots(targets, n, TreeRows(n)), Current(trees, n, TreeRows(n)))).0 == []
  {
    hide Path, IsRootPosition, WellFormed, Valid, RowOf, At, TouchedRoots, RootIndex, TreeRows, Match, Merkle;
    var rows := TreeRows(n);
    var rs := TouchedRoots(targets, n, rows);
    var at := seq(|rs|, i requires 0 <= i < |rs| => RootIndex(n, RowOf(rs[i], rows)));
    forall j | 0 <= j < |rs|
      ensures at[j] < |trees| && Hashes(trees)[at[j]] == Current(trees, n, rows)(rs[j])
    {
      TouchedRoot(trees, n, rows, targets, rs[j]);
    }
    forall i, j | 0 <= i < j < |rs| ensures at[j] < at[i] {
      TouchedOrder(trees, n, rows, targets, i, j);
    }
    MatchesAll(Hashes(trees), Vals(rs, Current(trees, n, rows)), at);
  }

  /** What the sorted nodes that enter the hashing loop are. */
  ghost predicate HashInput(proof: Proof, delHashes: seq<Hash>, n: nat, positions: seq<nat>, nodes: seq<Node<Hash>>) {
    var rows := TreeRows(n);
    var translated := TranslateAll(proof.targets, MAX_FOREST_ROWS, rows);
    && rows < 62 && Ordered(nodes)
    && (AllValid(translated, n, rows) ==> Fits(n, rows) && positions == Sorted(ProofSet(translated, n, rows)))
    && multiset(nodes) == multiset(InputNodes(proof.targets, delHashes, positions, proof.hashes))
  }

  /** The calculated roots that are left over are compared with those matched. */
  function Verdict(roots: seq<Hash>, calculated: seq<Hash>): bool {
    var m := Match(roots, calculated);
    m.0 == [] || |m.0| == m.1
  }

  /** All calculated roots are roots of the accumulator, or exactly the first half of them are. */
  lemma VerdictExact(roots: seq<Hash>, calculated: seq<Hash>)
    ensures Verdict(roots, calculated) <==>
            || Occur(roots, calculated)
            || exists k :: 0 < k && |calculated| == 2 * k && Occur(roots, calculated[..k])
                           && !Occur(roots, calculated[..k + 1])
  {
    hide Match, Occur;
    MatchLongest(roots, calculated);
    var m := Match(roots, calculated);
    assert calculated[..|calculated|] == calculated;
    if |m.0| == m.1 && m.1 > 0 {
      assert |calculated| == 2 * m.1 && Occur(roots, calculated[..m.1]) && !Occur(roots, calculated[..m.1 + 1]);
    }
  }

  /** What `verify` may answer: all orders of nodes at one position are allowed for. */
  ghost predicate Answers(proof: Proof, delHashes: seq<Hash>, roots: seq<Hash>, n: nat,
                          positions: seq<nat>, nodes: seq<Node<Hash>>, r: Result<bool>) {
    if proof.targets == [] then r == Ok(true)
    else if |proof.targets| != |delHashes| then r == Err(DelHashesTargetsMismatch(|proof.targets|, |delHashes|))
    else
      && HashInput(proof, delHashes, n, positions, nodes)
      && r == CheckMerge(Merge(nodes, [], 0, 0, [], n, TreeRows(n), ParentHash),
                         (computed, found) => Verdict(roots, found))
  }

  /** `verify`.  Without targets everything passes; every honest proof passes; in general the
      verdict is on the roots that the hashing loop returns. */
  method Verify(proof: Proof, delHashes: seq<Hash>, roots: seq<Hash>, n: nat)
    returns (r: Result<bool>, ghost calculated: seq<Hash>, ghost positions: seq<nat>, ghost nodes: seq<Node<Hash>>)
    requires n <= MAX_LEAVES
    ensures Answers(proof, delHashes, roots, n, positions, nodes, r)
    ensures proof.targets != [] && r.Ok? ==>
              && TreeRows(n) < 62
              && Merge(nodes, [], 0, 0, [], n, TreeRows(n), ParentHash).Finished?
              && calculated == Merge(nodes, [], 0, 0, [], n, TreeRows(n), ParentHash).roots
    ensures proof.targets != [] && r.Ok? ==>
              (r.value <==>
               || Occur(roots, calculated)
               || exists k :: 0 < k && |calculated| == 2 * k && Occur(roots, calculated[..k])
                              && !Occur(roots, calculated[..k + 1]))
    ensures forall trees :: CurrentProof(trees, n, proof, delHashes) && roots == Hashes(trees) ==> r == Ok(true)
    ensures forall trees :: CurrentProof(trees, n, proof, delHashes) && proof.targets != [] ==>
              calculated == Vals(TouchedRoots(proof.targets, n, TreeRows(n)), Current(trees, n, TreeRows(n)))
  {
    hide CurrentProof, Merge, ProofSet, AllValid, TreeRows, InputNodes, TranslateAll, Except, TouchedRoots, Current,
      Fits, Match, Ordered, Sorted, Occur;
    calculated, positions, nodes := [], [], [];
    if proof.targets == [] {
      return Ok(true), calculated, positions, nodes;
    }
    var hashed;
    hashed, positions, nodes := CalculateHashes(proof, delHashes, n);
    forall trees | CurrentProof(trees, n, proof, delHashes)
      ensures HashedHonestly(trees, n, proof, delHashes, hashed)
    {
      HashesHonest(trees, n, proof, delHashes, hashed, positions, nodes);
    }
    if hashed.Err? {
      forall trees | CurrentProof(trees, n, proof, delHashes) ensures false {
        HonestlyOk(trees, n, proof, delHashes, hashed);
      }
      return Err(hashed.error), calculated, positions, nodes;
    }
    calculated := hashed.value.1;
    var left := hashed.value.1;
    var numberMatched := 0;
    var i := |roots|;
    assert roots[..i] == roots;
    while i > 0
      invariant i <= |roots|
      invariant Match(roots, calculated).0 == Match(roots[..i], left).0
      invariant Match(roots, calculated).1 == numberMatched + Match(roots[..i], left).1
    {
      i := i - 1;
      MatchNext(roots, i, left);
      if left != [] && left[0] == roots[i] {
        numberMatched := numberMatched + 1;
        left := left[1..];
      }
    }
    MatchEnd(left);
    VerdictExact(roots, calculated);
    forall trees | CurrentProof(trees, n, proof, delHashes)
      ensures |trees| == PopCount(n) && Fits(n, TreeRows(n)) && AllValid(proof.targets, n, TreeRows(n))
      ensures calculated == Vals(TouchedRoots(proof.targets, n, TreeRows(n)), Current(trees, n, TreeRows(n)))
      ensures roots == Hashes(trees) ==> left == []
    {
      HonestlyOk(trees, n, proof, delHashes, hashed);
    }
    if |left| != numberMatched && |left| != 0 {
      return Ok(false), calculated, positions, nodes;
    }
    return Ok(true), calculated, positions, nodes;
  }

  ghost predicate HashedHonestly(trees: seq<Tree>, n: nat, proof: Proof, delHashes: seq<Hash>,
                                 r: Result<(seq<Node<Hash>>, seq<Hash>)>)
    requires CurrentProof(trees, n, proof, delHashes)
  {
    && r.Ok?
    && r.value.1 == Vals(TouchedRoots(proof.targets, n, TreeRows(n)), Current(trees, n, TreeRows(n)))
    && PathNodes(trees, n, proof.targets, r.value.0)
  }

  lemma HonestlyOk(trees: seq<Tree>, n: nat, proof: Proof, delHashes: seq<Hash>,
                   r: Result<(seq<Node<Hash>>, seq<Hash>)>)
    requires CurrentProof(trees, n, proof, delHashes) && HashedHonestly(trees, n, proof, delHashes, r)
    ensures |trees| == PopCount(n) && Fits(n, TreeRows(n)) && AllValid(proof.targets, n, TreeRows(n))
    ensures r.Ok? && r.value.1 == Vals(TouchedRoots(proof.targets, n, TreeRows(n)), Current(trees, n, TreeRows(n)))
    ensures PathNodes(trees, n, proof.targets, r.value.0)
    ensures Match(Hashes(trees), r.value.1).0 == []
  {
    hide WellFormed, TreeRows, Match, Valid, At, PathNodes;
    TouchedMatch(trees, n, proof.targets);
  }

  lemma HashesHonest(trees: seq<Tree>, n: nat, proof: Proof, delHashes: seq<Hash>,
                     r: Result<(seq<Node<Hash>>, seq<Hash>)>, positions: seq<nat>, nodes: seq<Node<Hash>>)
    requires CurrentProof(trees, n, proof, delHashes)
    requires var rows := TreeRows(n);
             |proof.targets| == |delHashes| ==>
               var translated := TranslateAll(proof.targets, MAX_FOREST_ROWS, rows);
               && (AllValid(translated, n, rows) ==>
                   Fits(n, rows) && positions == Sorted(ProofSet(translated, n, rows)))
               && multiset(nodes) == multiset(InputNodes(proof.targets, delHashes, positions, proof.hashes))
               && Ordered(nodes) && rows < 62
               && r == CheckMerge(Merge(nodes, [], 0, 0, [], n, rows, ParentHash),
                                  (computed, roots) => (Except(nodes + computed, positions), roots))
    ensures HashedHonestly(trees, n, proof, delHashes, r)
  {
    hide CurrentProof, Merge, ProofSet, AllValid, TreeRows, InputNodes, TranslateAll, Except, TouchedRoots, Current,
      PathNodes, Ordered, Sorted;
    CurrentTargets(trees, n, proof, delHashes);
    CurrentCarries(trees, n, proof, delHashes);
    var computed := CurrentHashes(trees, n, proof, delHashes, nodes);
  }

  lemma MatchNext(roots: seq<Hash>, i: nat, left: seq<Hash>)
    requires i < |roots|
    ensures var m := Match(roots[..i + 1], left);
            if left != [] && left[0] == roots[i] then
              m == (Match(roots[..i], left[1..]).0, Match(roots[..i], left[1..]).1 + 1)
            else m == Match(roots[..i], left)
  {
    assert roots[..i + 1][..i] == roots[..i];
  }

  lemma MatchEnd(left: seq<Hash>)
    ensures Match([], left) == (left, 0)
  {
  }

  // ----- get_proof_subset -----

  /** `collect` and `extend` into a map; later nodes win. */
  function Extended<T>(m: map<nat, T>, nodes: seq<Node<T>>): map<nat, T>
    decreases |nodes|
  {
    if nodes == [] then m else Extended(m[nodes[0].0 := nodes[0].1], nodes[1..])
  }

  lemma {:induction false} ExtendedCarries<T>(m: map<nat, T>, nodes: seq<Node<T>>, val: nat -> T)
    requires Carries(nodes, val) && forall p :: p in m ==> m[p] == val(p)
    ensures forall p :: p in Extended(m, nodes) <==> p in m || Holds(nodes, p)
    ensures forall p :: p in Extended(m, nodes) ==> Extended(m, nodes)[p] == val(p)
    decreases |nodes|
  {
    if nodes != [] {
      ExtendedCarries(m[nodes[0].0 := nodes[0].1], nodes[1..], val);
      forall p ensures Holds(nodes, p) <==> p == nodes[0].0 || Holds(nodes[1..], p) {
        assert nodes == [nodes[0]] + nodes[1..];
        HoldsConcat([nodes[0]], nodes[1..], p);
        HoldsOne(nodes[0], p);
      }
    }
  }

  /** What an honest proof for T knows is enough for every part S of T. */
  lemma SubsetKnown(n: nat, rows: nat, targets: seq<nat>, part: seq<nat>, q: nat)
    requires Fits(n, rows) && AllValid(targets, n, rows) && AllValid(part, n, rows)
    requires Elements(part) <= Elements(targets) && q in ProofSet(part, n, rows)
    ensures q in Path(targets, n, rows) || q in ProofSet(targets, n, rows)
  {
    hide Path, PathOf, ProofSet, IsRootPosition, Sibling, Valid;
    ProofSetMember(part, n, rows, q);
    ProofSetMember(targets, n, rows, q);
    PathGrows(n, rows, targets, part, Sibling(q));
  }

  lemma PathGrows(n: nat, rows: nat, targets: seq<nat>, part: seq<nat>, p: nat)
    requires Fits(n, rows) && AllValid(targets, n, rows) && AllValid(part, n, rows)
    requires Elements(part) <= Elements(targets) && p in Path(part, n, rows)
    ensures p in Path(targets, n, rows)
  {
    hide Path, PathOf, Valid;
    PathMember(part, n, rows, p);
    var i :| 0 <= i < |part| && p in PathOf(part[i], n, rows);
    ElementsAt(part, i);
    var j :| 0 <= j < |targets| && targets[j] == part[i];
    PathMember(targets, n, rows, p);
  }

  lemma PartValid(n: nat, rows: nat, targets: seq<nat>, part: seq<nat>)
    requires AllValid(targets, n, rows) && Elements(part) <= Elements(targets)
    ensures AllValid(part, n, rows)
  {
    hide Valid;
    forall i | 0 <= i < |part| ensures Valid(part[i], n, rows) {
      ElementsAt(part, i);
      var j :| 0 <= j < |targets| && targets[j] == part[i];
    }
  }

  function PositionsIn<T>(nodes: seq<Node<T>>): (ps: seq<nat>)
    ensures |ps| == |nodes| && forall i :: 0 <= i < |ps| ==> ps[i] == nodes[i].0
  {
    seq(|nodes|, i requires 0 <= i < |nodes| => nodes[i].0)
  }

  function ValuesIn<T>(nodes: seq<Node<T>>): (vs: seq<T>)
    ensures |vs| == |nodes| && forall i :: 0 <= i < |vs| ==> vs[i] == nodes[i].1
  {
    seq(|nodes|, i requires 0 <= i < |nodes| => nodes[i].1)
  }

  lemma HoldsElements<T>(nodes: seq<Node<T>>, p: nat)
    ensures p in Elements(PositionsIn(nodes)) <==> Holds(nodes, p)
  {
    if Holds(nodes, p) {
      var i :| 0 <= i < |nodes| && nodes[i].0 == p;
      assert PositionsIn(nodes)[i] == p;
    }
  }

  /** The loop of `get_proof_subset`: the needed positions that are known, with their hashes. */
  function Known<T>(needed: seq<nat>, m: map<nat, T>): seq<Node<T>> {
    if needed == [] then []
    else (if needed[0] in m then [(needed[0], m[needed[0]])] else []) + Known(needed[1..], m)
  }

  lemma {:induction false} KnownIs<T>(needed: seq<nat>, m: map<nat, T>, val: nat -> T)
    requires Ascending(needed) && forall p :: p in m ==> m[p] == val(p)
    ensures StrictlyOrdered(Known(needed, m)) && Carries(Known(needed, m), val)
    ensures forall p :: Holds(Known(needed, m), p) <==> p in needed && p in m
  {
    if needed != [] {
      var first, rest := needed[0], needed[1..];
      KnownIs(rest, m, val);
      assert Known(needed, m) == (if first in m then [(first, m[first])] else []) + Known(rest, m);
      if first in m {
        KnownCons((first, m[first]), Known(rest, m), val);
      } else {
        assert Known(needed, m) == Known(rest, m);
      }
      assert forall p :: p in needed <==> p == first || p in rest;
    }
  }

  lemma KnownCons<T>(node: Node<T>, nodes: seq<Node<T>>, val: nat -> T)
    requires StrictlyOrdered(nodes) && Carries(nodes, val) && node.1 == val(node.0)
    requires forall p: nat :: Holds(nodes, p) ==> p > node.0
    ensures StrictlyOrdered([node] + nodes) && Carries([node] + nodes, val)
    ensures forall p: nat :: Holds([node] + nodes, p) <==> p == node.0 || Holds(nodes, p)
  {
    forall k | 0 <= k < |nodes| ensures nodes[k].0 > node.0 { assert Holds(nodes, nodes[k].0); }
    forall p: nat ensures Holds([node] + nodes, p) <==> p == node.0 || Holds(nodes, p) {
      HoldsConcat([node], nodes, p);
      HoldsOne(node, p);
    }
  }

  lemma {:induction false} KnownNext<T>(needed: seq<nat>, m: map<nat, T>, i: nat)
    requires i < |needed|
    ensures Known(needed[..i + 1], m) == Known(needed[..i], m)
            + if needed[i] in m then [(needed[i], m[needed[i]])] else []
    decreases i
  {
    if i == 0 {
      assert needed[..1] == [needed[0]];
    } else {
      KnownNext(needed[1..], m, i - 1);
      assert needed[..i + 1][1..] == needed[1..][..i];
      assert needed[..i][1..] == needed[1..][..i - 1];
    }
  }

  /** The needed positions of the new targets that the old proof says something about. */
  function KnownNeeds(part: seq<nat>, targets: seq<nat>, n: nat, rows: nat): set<nat>
    requires Fits(n, rows) && AllValid(targets, n, rows) && AllValid(part, n, rows)
  {
    set q | q in ProofSet(part, n, rows) && (q in Path(targets, n, rows) || q in ProofSet(targets, n, rows))
  }

  lemma KnownNeedsValid(part: seq<nat>, targets: seq<nat>, n: nat, rows: nat)
    requires Fits(n, rows) && AllValid(targets, n, rows) && AllValid(part, n, rows)
    ensures AllValid(Sorted(KnownNeeds(part, targets, n, rows)), n, rows)
  {
    hide ProofSet, Path, Valid, Sorted;
    var known := KnownNeeds(part, targets, n, rows);
    SortedIs(known);
    forall i | 0 <= i < |Sorted(known)| ensures Valid(Sorted(known)[i], n, rows) {
      ElementsAt(Sorted(known), i);
      ProofSetValid(part, n, rows, Sorted(known)[i]);
    }
  }

  /** The old proof knows all that is needed for targets that lie on or beside its root paths. */
  lemma KnownEnough(part: seq<nat>, targets: seq<nat>, n: nat, rows: nat)
    requires Fits(n, rows) && AllValid(targets, n, rows) && AllValid(part, n, rows)
    requires forall p :: p in part ==> p in Path(targets, n, rows) || p in ProofSet(targets, n, rows)
    ensures KnownNeeds(part, targets, n, rows) == ProofSet(part, n, rows)
  {
    hide ProofSet, Path, PathOf, Valid, IsRootPosition, Sibling, Parent;
    var s := Path(targets, n, rows) + ProofSet(targets, n, rows);
    forall p | p in s && Valid(p, n, rows) && !IsRootPosition(p, n, rows) ensures Parent(p, rows) in s {
      if p in Path(targets, n, rows) { PathFacts(targets, n, rows, p); } else { ProofSetValid(targets, n, rows, p); }
    }
    forall q | q in ProofSet(part, n, rows) ensures q in s {
      ProofSetMember(part, n, rows, q);
      PathMember(part, n, rows, Sibling(q));
      var i :| 0 <= i < |part| && Sibling(q) in PathOf(part[i], n, rows);
      PathLeast(part[i], n, rows, s);
      SiblingKnown(targets, n, rows, q);
    }
  }

  lemma SiblingKnown(targets: seq<nat>, n: nat, rows: nat, q: nat)
    requires Fits(n, rows) && AllValid(targets, n, rows) && !IsRootPosition(Sibling(q), n, rows)
    requires Sibling(q) in Path(targets, n, rows) || Sibling(q) in ProofSet(targets, n, rows)
    ensures q in Path(targets, n, rows) || q in ProofSet(targets, n, rows)
  {
    hide ProofSet, Path, IsRootPosition, Sibling;
    ProofSetMember(targets, n, rows, q);
    if Sibling(q) in ProofSet(targets, n, rows) {
      ProofSetMember(targets, n, rows, Sibling(q));
      SiblingInvolution(q);
    }
  }

  lemma OwnTargets(part: seq<nat>, targets: seq<nat>, n: nat, rows: nat)
    requires Fits(n, rows) && AllValid(targets, n, rows) && Elements(part) <= Elements(targets)
    ensures AllValid(part, n, rows) && forall p :: p in part ==> p in Path(targets, n, rows)
  {
    hide Path, Valid;
    PartValid(n, rows, targets, part);
    forall p | p in part ensures p in Path(targets, n, rows) {
      InElements(part, p);
      TargetElement(targets, n, rows, p);
    }
  }

  /** The new targets are among the old ones, or at least lie on or beside the root paths of these. */
  ghost predicate KnownTargets(part: seq<nat>, targets: seq<nat>, n: nat, rows: nat) {
    && Fits(n, rows) && AllValid(targets, n, rows)
    && (|| Elements(part) <= Elements(targets)
        || (AllValid(part, n, rows)
            && forall p :: p in part ==> p in Path(targets, n, rows) || p in ProofSet(targets, n, rows)))
  }

  /** What `get_proof_subset` makes of an honest proof: the true hashes at exactly the needed positions
      that are known, from left to right and row by row. */
  ghost predicate SubsetOf(trees: seq<Tree>, n: nat, targets: seq<nat>, newTargets: seq<U64>, r: Result<Proof>)
    requires |trees| == PopCount(n) && Fits(n, TreeRows(n)) && AllValid(targets, n, TreeRows(n))
    requires AllValid(newTargets, n, TreeRows(n))
  {
    KnownNeedsValid(newTargets, targets, n, TreeRows(n));
    r == Ok(Proof(newTargets, HashesAt(trees, n, TreeRows(n), Sorted(KnownNeeds(newTargets, targets, n, TreeRows(n))))))
  }

  /** `get_proof_subset`: from an honest proof the hashes, among those needed for the new targets, that it
      knows; if these lie on or beside its root paths, for example among its own targets, the proof a prover
      would compute for them. */
  method GetProofSubset(proof: Proof, delHashes: seq<Hash>, newTargets: seq<U64>, n: nat)
    returns (r: Result<Proof>, ghost positions: seq<nat>, ghost nodes: seq<Node<Hash>>)
    requires n <= MAX_LEAVES
    ensures |proof.targets| != |delHashes| ==>
              r == Err(DelHashesTargetsMismatch(|proof.targets|, |delHashes|))
    ensures |proof.targets| == |delHashes| ==>
              && HashInput(proof, delHashes, n, positions, nodes)
              && var outcome := Merge(nodes, [], 0, 0, [], n, TreeRows(n), ParentHash);
                 if outcome.Stuck? then r == Err(MissingSibling(outcome.pos)) else r.Ok?
    ensures r.Ok? ==> r.value.targets == newTargets
    ensures forall trees :: CurrentProof(trees, n, proof, delHashes) ==>
              && |trees| == PopCount(n) && Fits(n, TreeRows(n)) && AllValid(proof.targets, n, TreeRows(n))
              && (AllValid(newTargets, n, TreeRows(n)) ==> SubsetOf(trees, n, proof.targets, newTargets, r))
    ensures forall trees ::
              CurrentProof(trees, n, proof, delHashes) && KnownTargets(newTargets, proof.targets, n, TreeRows(n)) ==>
              && |trees| == PopCount(n) && Fits(n, TreeRows(n)) && AllValid(newTargets, n, TreeRows(n))
              && AllValid(Sorted(ProofSet(newTargets, n, TreeRows(n))), n, TreeRows(n))
              && r == Ok(Proof(newTargets,
                  HashesAt(trees, n, TreeRows(n), Sorted(ProofSet(newTargets, n, TreeRows(n))))))
  {
    hide CurrentProof, Merge, ProofSet, AllValid, TreeRows, InputNodes, TranslateAll, Except, TouchedRoots, Current,
      Fits, Match, Ordered, Known, Extended, Sorted, Elements, KnownNeeds, KnownTargets, SubsetOf;
    TreeRowsFit(n);
    var rows := TreeRows(n);
    var oldPositions := GetProofPositions(proof.targets, n, rows);
    var needed := GetProofPositions(newTargets, n, rows);
    var hashed;
    hashed, positions, nodes := CalculateHashes(proof, delHashes, n);
    forall trees | CurrentProof(trees, n, proof, delHashes)
      ensures HashedHonestly(trees, n, proof, delHashes, hashed)
    {
      HashesHonest(trees, n, proof, delHashes, hashed, positions, nodes);
    }
    if hashed.Err? {
      forall trees | CurrentProof(trees, n, proof, delHashes) ensures false {
        HonestlyOk(trees, n, proof, delHashes, hashed);
      }
      return Err(hashed.error), positions, nodes;
    }
    var oldProof := Extended(map[], Zip(oldPositions, proof.hashes));
    oldProof := Extended(oldProof, hashed.value.0);
    var newProof: seq<Node<Hash>> := [];
    var missing: seq<nat> := [];
    assert Known(needed[..0], oldProof) == [] by { KnownEmpty(oldProof); }
    for i := 0 to |needed|
      invariant newProof == Known(needed[..i], oldProof)
    {
      KnownNext(needed, oldProof, i);
      if needed[i] in oldProof {
        newProof := newProof + [(needed[i], oldProof[needed[i]])];
      } else {
        missing := missing + [needed[i]];
      }
    }
    assert needed[..|needed|] == needed;
    var sorted := SortNodes(newProof);
    r := Ok(Proof(newTargets, ValuesIn(sorted)));
    forall trees | CurrentProof(trees, n, proof, delHashes)
      ensures |trees| == PopCount(n) && Fits(n, rows) && AllValid(proof.targets, n, rows)
      ensures AllValid(newTargets, n, rows) ==> SubsetOf(trees, n, proof.targets, newTargets, r)
    {
      HonestlyOk(trees, n, proof, delHashes, hashed);
      if AllValid(newTargets, n, rows) {
        SubsetHashes(trees, n, proof, delHashes, newTargets, hashed.value.0, oldPositions, needed, sorted);
      }
    }
    forall trees | CurrentProof(trees, n, proof, delHashes) && KnownTargets(newTargets, proof.targets, n, rows)
      ensures |trees| == PopCount(n) && Fits(n, rows) && AllValid(newTargets, n, rows)
      ensures AllValid(Sorted(ProofSet(newTargets, n, rows)), n, rows)
      ensures r == Ok(Proof(newTargets, HashesAt(trees, n, rows, Sorted(ProofSet(newTargets, n, rows)))))
    {
      HonestlyOk(trees, n, proof, delHashes, hashed);
      SubsetHonest(trees, n, proof.targets, newTargets, r);
    }
  }

  lemma KnownEmpty<T>(m: map<nat, T>)
    ensures Known([], m) == []
  {
  }

  lemma SubsetHonest(trees: seq<Tree>, n: nat, targets: seq<nat>, part: seq<U64>, r: Result<Proof>)
    requires |trees| == PopCount(n) && Fits(n, TreeRows(n)) && AllValid(targets, n, TreeRows(n))
    requires KnownTargets(part, targets, n, TreeRows(n))
    requires AllValid(part, n, TreeRows(n)) ==> SubsetOf(trees, n, targets, part, r)
    ensures AllValid(part, n, TreeRows(n)) && AllValid(Sorted(ProofSet(part, n, TreeRows(n))), n, TreeRows(n))
    ensures r == Ok(Proof(part, HashesAt(trees, n, TreeRows(n), Sorted(ProofSet(part, n, TreeRows(n))))))
  {
    hide ProofSet, Path, AllValid, TreeRows, Fits, Sorted, KnownNeeds, Elements;
    if Elements(part) <= Elements(targets) { OwnTargets(part, targets, n, TreeRows(n)); }
    KnownEnough(part, targets, n, TreeRows(n));
    KnownNeedsValid(part, targets, n, TreeRows(n));
    assert SubsetOf(trees, n, targets, part, r);
  }

  /** The hashes collected by the loop, for an honest proof. */
  lemma SubsetHashes(trees: seq<Tree>, n: nat, proof: Proof, delHashes: seq<Hash>, part: seq<U64>,
                     nodes: seq<Node<Hash>>, oldPositions: seq<nat>, needed: seq<nat>, sorted: seq<Node<Hash>>)
    requires CurrentProof(trees, n, proof, delHashes)
    requires |trees| == PopCount(n) && Fits(n, TreeRows(n)) && AllValid(proof.targets, n, TreeRows(n))
    requires AllValid(part, n, TreeRows(n)) && PathNodes(trees, n, proof.targets, nodes)
    requires oldPositions == Sorted(ProofSet(proof.targets, n, TreeRows(n)))
    requires needed == Sorted(ProofSet(part, n, TreeRows(n)))
    requires var m := Extended(Extended(map[], Zip(oldPositions, proof.hashes)), nodes);
             multiset(sorted) == multiset(Known(needed, m)) && Ordered(sorted)
    ensures SubsetOf(trees, n, proof.targets, part, Ok(Proof(part, ValuesIn(sorted))))
  {
    hide CurrentProof, ProofSet, TreeRows, Fits, Extended, Sorted, Elements, Path, Valid, At, AllValid, Current,
      PopCount, Known, Ordered, Merkle, HashesAt;
    var rows, targets := TreeRows(n), proof.targets;
    var val := Current(trees, n, rows);
    OldProofCarries(trees, n, proof, delHashes, oldPositions);
    ZipHolds(oldPositions, proof.hashes);
    var before := Extended(map[], Zip(oldPositions, proof.hashes));
    var m := Extended(before, nodes);
    ExtendedCarries(map[], Zip(oldPositions, proof.hashes), val);
    ExtendedCarries(before, nodes, val);
    KnownIs(needed, m, val);
    SortedIs(ProofSet(part, n, rows));
    SortedIs(ProofSet(targets, n, rows));
    var known := KnownNeeds(part, targets, n, rows);
    forall p ensures Holds(Known(needed, m), p) <==> p in known {
      InElements(needed, p);
      InElements(oldPositions, p);
    }
    KnownNeedsValid(part, targets, n, rows);
    SortedNodes(trees, n, rows, known, Known(needed, m), sorted);
  }

  lemma OldProofCarries(trees: seq<Tree>, n: nat, proof: Proof, delHashes: seq<Hash>, positions: seq<nat>)
    requires CurrentProof(trees, n, proof, delHashes)
    requires Fits(n, TreeRows(n)) && AllValid(proof.targets, n, TreeRows(n)) && |trees| == PopCount(n)
    requires positions == Sorted(ProofSet(proof.targets, n, TreeRows(n)))
    ensures |positions| == |proof.hashes| && Carries(Zip(positions, proof.hashes), Current(trees, n, TreeRows(n)))
  {
    hide WellFormed, ProofSet, TreeRows, At, Valid, Sorted;
    ProofPositionsValid(proof.targets, n, TreeRows(n));
  }

  lemma ZipHolds(targets: seq<nat>, cached: seq<Hash>)
    requires |targets| == |cached|
    ensures forall p :: Holds(Zip(targets, cached), p) <==> p in targets
  {
    var zipped := Zip(targets, cached);
    forall p ensures Holds(zipped, p) <==> p in targets {
      if p in targets {
        var i :| 0 <= i < |targets| && targets[i] == p;
        assert zipped[i].0 == p;
      }
    }
  }

  // ----- putting a proof together from nodes -----

  /** Sorted nodes give the hashes at their positions. */
  lemma SortedNodes(trees: seq<Tree>, n: nat, rows: nat, positions: set<nat>, input: seq<Node<Hash>>,
                    sorted: seq<Node<Hash>>)
    requires |trees| == PopCount(n) && AllValid(Sorted(positions), n, rows)
    requires DistinctPositions(input) && Carries(input, Current(trees, n, rows))
    requires forall p :: Holds(input, p) <==> p in positions
    requires multiset(sorted) == multiset(input) && Ordered(sorted)
    ensures ValuesIn(sorted) == HashesAt(trees, n, rows, Sorted(positions))
  {
    hide At, Valid, Ordered, DistinctPositions, Merkle, PopCount;
    var ps := Sorted(positions);
    SortedDistinct(input, sorted, Current(trees, n, rows));
    forall p ensures p in Elements(PositionsIn(sorted)) <==> p in Elements(ps) {
      HoldsElements(sorted, p);
    }
    AscendingUnique(PositionsIn(sorted), ps);
    forall i | 0 <= i < |ps|
      ensures Valid(ps[i], n, rows) && ValuesIn(sorted)[i] == Merkle(At(trees, n, rows, ps[i]))
    {
      CurrentAt(trees, n, rows, ps, i);
      assert PositionsIn(sorted)[i] == ps[i];
    }
  }

  lemma CurrentAt(trees: seq<Tree>, n: nat, rows: nat, needed: seq<nat>, i: nat)
    requires |trees| == PopCount(n) && AllValid(needed, n, rows) && i < |needed|
    ensures Valid(needed[i], n, rows) && Current(trees, n, rows)(needed[i]) == Merkle(At(trees, n, rows, needed[i]))
  {
    hide Valid, At, Merkle;
  }

  /** Nodes at exactly the needed positions, sorted, give the hashes an honest prover sends. */
  lemma SortedHashes(trees: seq<Tree>, n: nat, rows: nat, targets: seq<nat>, input: seq<Node<Hash>>,
                     sorted: seq<Node<Hash>>)
    requires Sound(trees, n, rows) && AllValid(targets, n, rows)
    requires DistinctPositions(input) && Carries(input, Current(trees, n, rows))
    requires forall p :: Holds(input, p) <==> p in ProofSet(targets, n, rows)
    requires multiset(sorted) == multiset(input) && Ordered(sorted)
    ensures AllValid(Sorted(ProofSet(targets, n, rows)), n, rows)
    ensures ValuesIn(sorted) == HashesAt(trees, n, rows, Sorted(ProofSet(targets, n, rows)))
  {
    hide WellFormed, At, Valid, ProofSet, Ordered, DistinctPositions, Merkle;
    ProofPositionsValid(targets, n, rows);
    SortedNodes(trees, n, rows, ProofSet(targets, n, rows), input, sorted);
  }

  /** A leaf at its slot, with its hash. */
  predicate LeafNodeAt(trees: seq<Tree>, n: nat, rows: nat, node: Node<Hash>)
    requires |trees| == PopCount(n)
  {
    Valid(node.0, n, rows) && At(trees, n, rows, node.0).Tip? && node.1 == Merkle(At(trees, n, rows, node.0))
  }

  /** Distinct leaves, sorted, are targets with their hashes. */
  lemma SortedTargets(trees: seq<Tree>, n: nat, rows: nat, input: seq<Node<Hash>>, sorted: seq<Node<Hash>>)
    requires Sound(trees, n, rows) && DistinctPositions(input)
    requires forall i :: 0 <= i < |input| ==> LeafNodeAt(trees, n, rows, input[i])
    requires multiset(sorted) == multiset(input) && Ordered(sorted)
    ensures LeafTargets(trees, n, rows, PositionsIn(sorted))
    ensures ValuesIn(sorted) == LeafHashes(TargetIds(trees, n, rows, PositionsIn(sorted)))
    ensures forall p :: p in PositionsIn(sorted) <==> Holds(input, p)
    ensures forall h :: h in ValuesIn(sorted) <==> h in ValuesIn(input)
  {
    hide WellFormed, At, Valid, Ordered, DistinctPositions;
    SortedDistinct(input, sorted, Current(trees, n, rows));
    forall k | 0 <= k < |sorted| ensures LeafNodeAt(trees, n, rows, sorted[k]) && sorted[k].1 in ValuesIn(input) {
      var i := PermutedAt(sorted, input, k);
      assert ValuesIn(input)[i] == sorted[k].1;
    }
    forall i | 0 <= i < |input| ensures input[i].1 in ValuesIn(sorted) {
      var k := PermutedAt(input, sorted, i);
      assert ValuesIn(sorted)[k] == input[i].1;
    }
    forall p ensures p in PositionsIn(sorted) <==> Holds(sorted, p) {
      HoldsElements(sorted, p);
    }
  }

  /** Sorted targets of a proof go upwards. */
  lemma TargetsAscend(trees: seq<Tree>, n: nat, proof: Proof, delHashes: seq<Hash>, nodes: seq<Node<Hash>>)
    requires CurrentProof(trees, n, proof, delHashes) && Ordered(nodes) && proof.targets == PositionsIn(nodes)
    ensures Ascending(proof.targets)
  {
    hide WellFormed, TreeRows, At, Valid, HonestHashes;
  }

  lemma MakeCurrentProof(trees: seq<Tree>, n: nat, targets: seq<U64>, hashes: seq<Hash>, delHashes: seq<Hash>)
    requires Sound(trees, n, TreeRows(n)) && LeafTargets(trees, n, TreeRows(n), targets)
    requires delHashes == LeafHashes(TargetIds(trees, n, TreeRows(n), targets))
    requires AllValid(Sorted(ProofSet(targets, n, TreeRows(n))), n, TreeRows(n))
    requires hashes == HashesAt(trees, n, TreeRows(n), Sorted(ProofSet(targets, n, TreeRows(n))))
    ensures CurrentProof(trees, n, Proof(targets, hashes), delHashes)
  {
    hide WellFormed, At, Valid, ProofSet, TreeRows;
  }
}
