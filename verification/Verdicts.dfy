/** When a positive answer of `verify` (src/proof/mod.rs) can be trusted.  Its last test lets a proof
    pass if as many calculated roots are left over as were matched. */
module Verdicts {
  import opened Bits
  import opened Positions
  import opened Forest
  import opened ProofPositions
  import opened Slots
  import opened MergeLoop
  import opened MergeRuns
  import opened ProofEngine
  import opened ProofChecks
  import opened Soundness
  import opened Stumps
  import opened Renaming

  lemma TargetsCurrent(trees: seq<Tree>, n: nat, targets: seq<U64>)
    requires LeafTargets(trees, n, TreeRows(n), targets)
    ensures TranslateAll(targets, MAX_FOREST_ROWS, TreeRows(n)) == targets
    ensures AllValid(targets, n, TreeRows(n)) && Fits(n, TreeRows(n))
  {
    hide Valid, Translate, TreeRows, At;
    forall i | 0 <= i < |targets| ensures Translate(targets[i], MAX_FOREST_ROWS, TreeRows(n)) == targets[i] {
      TranslateRoundTrip(targets[i], n, TreeRows(n));
    }
  }

  // ----- how many roots come out -----

  lemma {:induction false} SortedExists<T>(input: seq<Node<T>>) returns (nodes: seq<Node<T>>)
    ensures multiset(nodes) == multiset(input) && Ordered(nodes)
  {
    if input == [] {
      nodes := [];
    } else {
      var rest := SortedExists(input[1..]);
      InsertKeeps(input[0], rest);
      assert input == [input[0]] + input[1..];
      nodes := Insert(input[0], rest);
    }
  }

  function Units(k: nat): (us: seq<()>)
    ensures |us| == k
  {
    seq(k, i => ())
  }

  /** Only the positions matter: with enough proof hashes the input is complete. */
  lemma CompleteInput(targets: seq<nat>, delHashes: seq<Hash>, positions: seq<nat>, hashes: seq<Hash>,
                      nodes: seq<Node<Hash>>)
    requires |targets| == |delHashes| && |hashes| >= |positions|
    requires multiset(nodes) == multiset(InputNodes(targets, delHashes, positions, hashes)) && Ordered(nodes)
    ensures var us := MapNodes(nodes, (h: Hash) => ());
            multiset(us) == multiset(InputNodes(targets, Units(|targets|), positions, Units(|positions|)))
                && Ordered(us)
  {
    var f := (h: Hash) => ();
    var g := (x: Node<Hash>) => (x.0, f(x.1));
    var input := InputNodes(targets, delHashes, positions, hashes);
    MapPermuted(nodes, input, g);
    assert MapSeq(nodes, g) == MapNodes(nodes, f);
    assert MapSeq(input, g) == InputNodes(targets, Units(|targets|), positions, Units(|positions|));
  }

  /** With too few the input is that of fewer positions. */
  lemma ShortInput(targets: seq<nat>, delHashes: seq<Hash>, positions: seq<nat>, hashes: seq<Hash>)
    requires |targets| == |delHashes| && |hashes| < |positions|
    ensures InputNodes(targets, delHashes, positions, hashes) ==
            InputNodes(targets, delHashes, positions[..|hashes|], hashes)
  {
    assert Zip(positions, hashes) == Zip(positions[..|hashes|], hashes);
  }

  lemma UnitsConsistent(prov: set<nat>, inner: set<nat>, n: nat, rows: nat)
    requires Fits(n, rows)
    ensures Consistent(prov, inner, n, rows, (p: nat) => (), (a: (), b: ()) => ())
  {
    hide IsRootPosition, Parent;
  }

  /** The needed positions are no roots, and no two of them are siblings. */
  lemma NeededApart(targets: seq<nat>, n: nat, rows: nat, q: nat)
    requires Fits(n, rows) && AllValid(targets, n, rows) && q in ProofSet(targets, n, rows)
    ensures !IsRootPosition(q, n, rows) && Sibling(q) !in ProofSet(targets, n, rows)
  {
    hide Path, IsRootPosition, Sibling, ProofSet, Parent, RowOf, OffOf, Valid, Level;
    ProofSetMember(targets, n, rows, q);
    PathFacts(targets, n, rows, Sibling(q));
    SiblingInvolution(q);
    Climb(Sibling(q), n, rows);
    ProofSetMember(targets, n, rows, Sibling(q));
  }

  /** Without enough proof hashes the loop gets stuck. */
  lemma ShortStuck(trees: seq<Tree>, n: nat, rows: nat, targets: seq<nat>, delHashes: seq<Hash>, hashes: seq<Hash>,
                   nodes: seq<Node<Hash>>)
    requires LeafTargets(trees, n, rows, targets) && |targets| == |delHashes|
    requires var positions := Sorted(ProofSet(targets, n, rows));
             |hashes| < |positions| && Ordered(nodes)
             && multiset(nodes) == multiset(InputNodes(targets, delHashes, positions, hashes))
    ensures Merge(nodes, [], 0, 0, [], n, rows, ParentHash).Stuck?
  {
    hide ProofSet, Path, AllValid, At, Provided, Inner, InputNodes, IsRootPosition, Closed, Consistent, Merge, Progress,
      Boundary, Elements, Sibling, Sorted, Lacking, MapNodes, Ordered;
    var f, val, combine := (h: Hash) => (), (p: nat) => (), (a: (), b: ()) => ();
    var prov, inner := Provided(targets, n, rows), Inner(targets, n, rows);
    var positions := Sorted(ProofSet(targets, n, rows));
    var k := |hashes|;
    var missing := Elements(positions[k..]);
    HonestClosed(trees, n, rows, targets);
    UnitsConsistent(prov, inner, n, rows);
    var full := SortedExists(InputNodes(targets, Units(|targets|), positions, Units(|positions|)));
    InputPositions(trees, n, rows, targets, Units(|targets|), Units(|positions|));
    UnitsCarry(InputNodes(targets, Units(|targets|), positions, Units(|positions|)));
    SortedDistinct(InputNodes(targets, Units(|targets|), positions, Units(|positions|)), full, val);
    MergeStart(full, prov, inner, n, rows, val);
    var short := MapNodes(nodes, f);
    ShortInput(targets, delHashes, positions, hashes);
    CompleteInput(targets, delHashes, positions[..k], hashes, nodes);
    ShortPositions(trees, n, rows, targets, k, short);
    MissingSlots(targets, n, rows, positions, k);
    MergeStart(short, prov - missing, inner, n, rows, val);
    MergeShort(full, short, [], 0, 0, 0, [], -1, prov, inner, missing, n, rows, val, combine, []);
    UnitMap();
    MergeMapped(nodes, [], 0, 0, [], n, rows, ParentHash, combine, f);
    assert MapNodes<Hash, ()>([], f) == [] && MapSeq<Hash, ()>([], f) == [];
  }

  lemma UnitMap()
    ensures Homomorphic((h: Hash) => (), ParentHash, (a: (), b: ()) => ())
  {
  }

  lemma UnitsCarry(nodes: seq<Node<()>>)
    ensures Carries(nodes, (p: nat) => ())
  {
  }

  lemma MissingSlots(targets: seq<nat>, n: nat, rows: nat, positions: seq<nat>, k: nat)
    requires Fits(n, rows) && AllValid(targets, n, rows) && positions == Sorted(ProofSet(targets, n, rows))
    requires k < |positions|
    ensures Lacking(Elements(positions[k..]), -1, Provided(targets, n, rows), n, rows)
  {
    hide ProofSet, AllValid, IsRootPosition, Sibling, Sorted;
    assert positions[k] == positions[k..][0];
    forall q | q in Elements(positions[k..])
      ensures q in ProofSet(targets, n, rows) && !IsRootPosition(q, n, rows) && Sibling(q) !in Elements(positions[k..])
    {
      SortedIs(ProofSet(targets, n, rows));
      assert forall x :: x in positions[k..] ==> x in positions;
      NeededApart(targets, n, rows, q);
      forall x | x in Elements(positions[k..]) ensures x in ProofSet(targets, n, rows) { assert x in positions; }
    }
    ElementsAt(positions[k..], 0);
    assert Elements(positions[k..]) <= Provided(targets, n, rows);
  }

  lemma SplitApart(s: seq<nat>, k: nat, x: nat)
    requires Ascending(s) && k <= |s| && x in s[..k]
    ensures x !in s[k..]
  {
    forall j | 0 <= j < |s[k..]| ensures s[k..][j] != x { assert s[k..][j] == s[k + j]; }
  }

  lemma ShortPositions(trees: seq<Tree>, n: nat, rows: nat, targets: seq<nat>, k: nat, short: seq<Node<()>>)
    requires LeafTargets(trees, n, rows, targets) && k < |Sorted(ProofSet(targets, n, rows))| && Ordered(short)
    requires var positions := Sorted(ProofSet(targets, n, rows));
             multiset(short) == multiset(InputNodes(targets, Units(|targets|), positions[..k], Units(k)))
    ensures StrictlyOrdered(short) && Carries(short, (p: nat) => ())
    ensures var missing := Elements(Sorted(ProofSet(targets, n, rows))[k..]);
            forall p: nat :: p in Provided(targets, n, rows) - missing <==> Holds(short, p)
  {
    hide ProofSet, At, InputNodes, Sorted, Valid;
    var positions := Sorted(ProofSet(targets, n, rows));
    var input := InputNodes(targets, Units(|targets|), positions[..k], Units(k));
    SortedIs(ProofSet(targets, n, rows));
    forall q | q in Elements(targets) ensures q !in ProofSet(targets, n, rows) {
      TargetElement(targets, n, rows, q);
      ProofSetMember(targets, n, rows, q);
    }
    assert positions == positions[..k] + positions[k..];
    assert forall x :: x in positions <==> x in positions[..k] || x in positions[k..];
    InputDistinct(targets, Units(|targets|), positions[..k], Units(k));
    UnitsCarry(input);
    SortedDistinct(input, short, (p: nat) => ());
    forall p: nat ensures p in Provided(targets, n, rows) - Elements(positions[k..]) <==> Holds(short, p) {
      InputHolds(targets, Units(|targets|), positions[..k], Units(k), p);
      if p in positions[..k] { SplitApart(positions, k, p); }
    }
  }

  /** Whatever the hashes are, a finished run returns one root for each touched tree. */
  lemma RootCount(trees: seq<Tree>, n: nat, rows: nat, targets: seq<nat>, delHashes: seq<Hash>, hashes: seq<Hash>,
                  nodes: seq<Node<Hash>>)
    requires LeafTargets(trees, n, rows, targets) && |targets| == |delHashes| && Ordered(nodes)
    requires multiset(nodes) == multiset(InputNodes(targets, delHashes, Sorted(ProofSet(targets, n, rows)), hashes))
    ensures var out := Merge(nodes, [], 0, 0, [], n, rows, ParentHash);
            out.Finished? ==> |out.roots| == |TouchedRoots(targets, n, rows)|
  {
    hide ProofSet, Path, AllValid, At, InputNodes, IsRootPosition, Consistent, Merge, Sorted, MapNodes, Ordered,
      TouchedRoots;
    var positions := Sorted(ProofSet(targets, n, rows));
    if |hashes| < |positions| {
      ShortStuck(trees, n, rows, targets, delHashes, hashes, nodes);
    } else {
      var f, val, combine := (h: Hash) => (), (p: nat) => (), (a: (), b: ()) => ();
      CompleteInput(targets, delHashes, positions, hashes, nodes);
      UnitsCarry(InputNodes(targets, Units(|targets|), positions, Units(|positions|)));
      UnitsConsistent(Provided(targets, n, rows), Inner(targets, n, rows), n, rows);
      var final := HonestMerge(trees, n, rows, targets, Units(|targets|), Units(|positions|), MapNodes(nodes, f), val,
        combine);
      UnitMap();
      MergeMapped(nodes, [], 0, 0, [], n, rows, ParentHash, combine, f);
      assert MapNodes<Hash, ()>([], f) == [] && MapSeq<Hash, ()>([], f) == [];
    }
  }

  // ----- an odd number of touched trees -----

  /** Roots that are all matched are roots of the accumulator, each used once. */
  lemma {:induction false} MatchedRoots(roots: seq<Hash>, calculated: seq<Hash>)
    requires Match(roots, calculated).0 == []
    ensures multiset(calculated) <= multiset(roots)
    decreases |roots|
  {
    if roots != [] {
      var k := |roots| - 1;
      assert roots == roots[..k] + [roots[k]];
      if calculated != [] && calculated[0] == roots[k] {
        MatchedRoots(roots[..k], calculated[1..]);
        assert calculated == [calculated[0]] + calculated[1..];
      } else {
        MatchedRoots(roots[..k], calculated);
      }
    }
  }

  /** A hash to be deleted or to be kept, as `calculate_hashes_delete` takes them. */
  function Marked(targets: seq<nat>): Node<Hash> -> Node<(Hash, Hash)> {
    (x: Node<Hash>) => (x.0, if x.0 in targets then (x.1, Empty) else (x.1, x.1))
  }

  lemma MarkedInput(targets: seq<nat>, delHashes: seq<Hash>, positions: seq<nat>, hashes: seq<Hash>)
    requires |targets| == |delHashes| && forall p :: p in positions ==> p !in targets
    ensures MapSeq(InputNodes(targets, delHashes, positions, hashes), Marked(targets))
            == InputNodes(targets, Deletions(delHashes), positions, Doubles(hashes))
  {
    var a, b := Zip(targets, delHashes), Zip(positions, hashes);
    MapConcat(a, b, Marked(targets));
    assert MapSeq(a, Marked(targets)) == Zip(targets, Deletions(delHashes));
    assert MapSeq(b, Marked(targets)) == Zip(positions, Doubles(hashes));
  }

  lemma MarkedFirsts(targets: seq<nat>, nodes: seq<Node<Hash>>)
    ensures MapNodes(MapSeq(nodes, Marked(targets)), (v: (Hash, Hash)) => v.0) == nodes
  {
  }

  lemma PairsProject()
    ensures Homomorphic((v: (Hash, Hash)) => v.0, CombinePair, ParentHash)
  {
  }

  /** Whatever the hashes are, the roots that come out commit to the claimed leaves. */
  lemma RunCommits(targets: seq<nat>, delHashes: seq<Hash>, positions: seq<nat>, hashes: seq<Hash>,
                   nodes: seq<Node<Hash>>, n: nat, rows: nat)
    returns (pairs: seq<(Hash, Hash)>, ms: seq<multiset<nat>>)
    requires |targets| == |delHashes| && LeafKind(delHashes) && (forall p :: p in positions ==> p !in targets)
             && rows < 63
    requires multiset(nodes) == multiset(InputNodes(targets, delHashes, positions, hashes))
    ensures var out := Merge(nodes, [], 0, 0, [], n, rows, ParentHash);
            out.Finished? ==>
                out.roots == Firsts(pairs) && CommittedRoots(pairs, ms) && Sum(ms) == multiset(IdsOf(delHashes))
  {
    hide InputNodes, Merge, MapSeq, Marked, Commits, DelsIn, Sum, IdsOf, Homomorphic, Deletions, MapNodes;
    var f := (v: (Hash, Hash)) => v.0;
    var marked := MapSeq(nodes, Marked(targets));
    MapPermuted(nodes, InputNodes(targets, delHashes, positions, hashes), Marked(targets));
    MarkedInput(targets, delHashes, positions, hashes);
    InputDels(targets, delHashes, positions, hashes, marked);
    MarkedFirsts(targets, nodes);
    PairsProject();
    MergeMapped(marked, [], 0, 0, [], n, rows, CombinePair, ParentHash, f);
    assert MapNodes<(Hash, Hash), Hash>([], f) == [] && MapSeq<(Hash, Hash), Hash>([], f) == [];
    ms := MergeSound(marked, [], 0, 0, [], n, rows, [], []);
    NothingSum();
    assert marked[0..] == marked;
    var out := Merge(marked, [], 0, 0, [], n, rows, CombinePair);
    pairs := if out.Finished? then out.roots else [];
  }

  lemma NothingSum()
    ensures Sum([]) == multiset{}
  {
  }

  lemma SoundParts(trees: seq<Tree>, n: nat)
    requires WellFormed(trees, n)
    ensures Distinct(AllIds(trees)) && forall i :: 0 <= i < |trees| ==> trees[i].Nil? || Proper(trees[i])
  {
    forall i | 0 <= i < |trees| ensures trees[i].Nil? || Proper(trees[i]) { ShapeEach(trees, n, 0, i); }
  }

  /** With an odd number of touched trees as many matched as left over is impossible: an accepted
      proof names leaves of the forest. */
  lemma OddTrusted(trees: seq<Tree>, n: nat, proof: Proof, delHashes: seq<Hash>, positions: seq<nat>,
                   nodes: seq<Node<Hash>>)
    requires Sound(trees, n, TreeRows(n)) && LeafTargets(trees, n, TreeRows(n), proof.targets) && LeafKind(delHashes)
    requires AllValid(proof.targets, n, TreeRows(n)) && |TouchedRoots(proof.targets, n, TreeRows(n))| % 2 == 1
    requires Answers(proof, delHashes, Hashes(trees), n, positions, nodes, Ok(true))
    ensures multiset(IdsOf(delHashes)) <= AllIds(trees)
  {
    hide WellFormed, ProofSet, Path, AllValid, At, InputNodes, IsRootPosition, Merge, Sorted, Ordered, TouchedRoots,
      TreeRows, Match, Firsts, IdsOf, Sum, Commits, LeafTargets, TranslateAll;
    var rows := TreeRows(n);
    NoTargets(proof.targets, n, rows);
    TargetsCurrent(trees, n, proof.targets);
    NeededOffTargets(proof.targets, n, rows);
    RootCount(trees, n, rows, proof.targets, delHashes, proof.hashes, nodes);
    var pairs, ms := RunCommits(proof.targets, delHashes, positions, proof.hashes, nodes, n, rows);
    MatchedRoots(Hashes(trees), Firsts(pairs));
    AllReplaced(Hashes(trees), pairs);
    SoundParts(trees, n);
    ReplaceSound(trees, pairs, ms);
  }

  lemma NoTargets(targets: seq<nat>, n: nat, rows: nat)
    requires Fits(n, rows) && AllValid(targets, n, rows)
    ensures targets == [] ==> TouchedRoots(targets, n, rows) == []
  {
    if targets == [] {
      var rs := TouchedRoots(targets, n, rows);
      assert Elements(rs) == {};
      EmptyElements(rs);
    }
  }

  lemma NeededOffTargets(targets: seq<nat>, n: nat, rows: nat)
    requires Fits(n, rows) && AllValid(targets, n, rows)
    ensures forall p :: p in Sorted(ProofSet(targets, n, rows)) ==> p !in targets
  {
    hide ProofSet, Path, AllValid, Sorted;
    var ps := Sorted(ProofSet(targets, n, rows));
    SortedIs(ProofSet(targets, n, rows));
    forall p | p in ps ensures p !in targets {
      InElements(ps, p);
      ProofSetMember(targets, n, rows, p);
      if p in Elements(targets) { TargetElement(targets, n, rows, p); }
    }
  }

  // ----- an even number of touched trees -----

  lemma OccurLast(roots: seq<Hash>, found: seq<Hash>)
    requires Occur(roots, found) && found != []
    ensures found[|found| - 1] in roots
  {
    var at :| FoundAt(roots, found, at);
    assert roots[at[|at| - 1]] == found[|found| - 1];
  }

  /** The matching stops at a calculated root that the accumulator does not have. */
  lemma HalfPasses(roots: seq<Hash>, calculated: seq<Hash>, at: seq<nat>)
    requires |calculated| == 2 * |at| > 0 && FoundAt(roots, calculated[..|at|], at) && calculated[|at|] !in roots
    ensures Verdict(roots, calculated)
  {
    hide Match, Verdict;
    var k := |at|;
    if Occur(roots, calculated[..k + 1]) { OccurLast(roots, calculated[..k + 1]); }
    assert Occur(roots, calculated[..k]);
    VerdictExact(roots, calculated);
  }

  lemma {:induction false} RootOnTop(p: nat, n: nat, rows: nat) returns (r: nat)
    requires Fits(n, rows) && Valid(p, n, rows)
    ensures r in PathOf(p, n, rows) && IsRootPosition(r, n, rows)
    decreases Level(p, n, rows)
  {
    hide IsRootPosition, Parent, Valid, Level, RowOf, OffOf, Sibling;
    Climb(p, n, rows);
    if IsRootPosition(p, n, rows) { r := p; } else { r := RootOnTop(Parent(p, rows), n, rows); }
  }

  lemma SomeRoot(targets: seq<nat>, n: nat, rows: nat)
    requires Fits(n, rows) && AllValid(targets, n, rows) && targets != []
    ensures TouchedRoots(targets, n, rows) != []
  {
    hide IsRootPosition, Path, PathOf, Valid;
    var r := RootOnTop(targets[0], n, rows);
    PathMember(targets, n, rows, r);
    assert r in TouchedRoots(targets, n, rows);
  }

  /** A target in the tree of a touched root. */
  lemma TargetUnder(trees: seq<Tree>, n: nat, rows: nat, targets: seq<nat>, p: nat) returns (i: nat)
    requires Sound(trees, n, rows) && LeafTargets(trees, n, rows, targets) && p in TouchedRoots(targets, n, rows)
    ensures i < |targets| && Valid(p, n, rows) && RootIndex(n, RowOf(p, rows)) < |trees|
    ensures TargetIds(trees, n, rows, targets)[i] in Ids(trees[RootIndex(n, RowOf(p, rows))])
  {
    hide IsRootPosition, Path, PathOf, Valid, At, WellFormed, RowOf, RootIndex;
    PathMember(targets, n, rows, p);
    TouchedRoot(trees, n, rows, targets, p);
    i :| 0 <= i < |targets| && p in PathOf(targets[i], n, rows);
    IdsAbove(trees, n, rows, targets[i], p, TargetIds(trees, n, rows, targets)[i]);
  }

  /** The roots of the renamed forest: only the one that holds the leaf is different, and it is no
      root of the forest. */
  lemma RenamedRoot(trees: seq<Tree>, n: nat, rows: nat, targets: seq<nat>, a: nat, x: nat, p: nat, q: nat)
    requires Sound(trees, n, rows) && LeafTargets(trees, n, rows, targets) && x !in AllIds(trees)
    requires p in TouchedRoots(targets, n, rows) && q in TouchedRoots(targets, n, rows)
    requires Valid(p, n, rows) && RootIndex(n, RowOf(p, rows)) < |trees|
    requires a in Ids(trees[RootIndex(n, RowOf(p, rows))])
    ensures Valid(q, n, rows) && RootIndex(n, RowOf(q, rows)) < |trees|
    ensures var h := Merkle(At(RenameAll(trees, a, x), n, rows, q));
            if RootIndex(n, RowOf(q, rows)) == RootIndex(n, RowOf(p, rows)) then h !in Hashes(trees)
            else h == Merkle(trees[RootIndex(n, RowOf(q, rows))])
  {
    hide IsRootPosition, Path, PathOf, At, Shape, RowOf, RootIndex, AllIds, Rename, Merkle, Ids, OffOf;
    TouchedRoot(trees, n, rows, targets, q);
    RenameAt(trees, a, x, n, rows, q);
    var i, j := RootIndex(n, RowOf(p, rows)), RootIndex(n, RowOf(q, rows));
    if i == j {
      RenamedIsNew(trees, a, x, i);
    } else {
      if a in Ids(trees[j]) { DisjointTrees(trees, i, j, a); }
      RenameElsewhere(trees[j], a, x);
    }
  }

  lemma RenamedIsNew(trees: seq<Tree>, a: nat, x: nat, i: nat)
    requires i < |trees| && a in Ids(trees[i]) && x !in AllIds(trees)
    ensures Merkle(Rename(trees[i], a, x)) !in Hashes(trees)
  {
    hide Merkle, Rename, Ids, AllIds;
    AllIdsMember(trees, i);
    assert a != x by { assert Ids(trees[i])[a] <= AllIds(trees)[a]; }
    RenameIds(trees[i], a, x);
    forall k | 0 <= k < |trees| ensures Hashes(trees)[k] != Merkle(Rename(trees[i], a, x)) {
      AllIdsMember(trees, k);
      assert Ids(trees[k])[x] <= AllIds(trees)[x];
      if Merkle(trees[k]) == Merkle(Rename(trees[i], a, x)) { MerkleInjective(trees[k], Rename(trees[i], a, x)); }
    }
  }

  /** Half of the roots match, then one does not: as many are left over as were matched. */
  lemma HalfMatched(trees: seq<Tree>, n: nat, rows: nat, targets: seq<nat>, a: nat, x: nat, k: nat)
    requires Sound(trees, n, rows) && LeafTargets(trees, n, rows, targets) && x !in AllIds(trees)
    requires AllValid(targets, n, rows)
    requires k < |TouchedRoots(targets, n, rows)| == 2 * k
    requires var p := TouchedRoots(targets, n, rows)[k];
             Valid(p, n, rows) && RootIndex(n, RowOf(p, rows)) < |trees|
                 && a in Ids(trees[RootIndex(n, RowOf(p, rows))])
    ensures |RenameAll(trees, a, x)| == PopCount(n)
    ensures Verdict(Hashes(trees), Vals(TouchedRoots(targets, n, rows), Current(RenameAll(trees, a, x), n, rows)))
  {
    hide IsRootPosition, Path, PathOf, At, WellFormed, RowOf, RootIndex, AllIds, Rename, Merkle, Ids, OffOf,
      TouchedRoots, LeafTargets, Match, Valid, Verdict;
    var rs := TouchedRoots(targets, n, rows);
    var p := rs[k];
    var calculated := Vals(rs, Current(RenameAll(trees, a, x), n, rows));
    forall j | 0 <= j < |rs|
      ensures Valid(rs[j], n, rows) && RootIndex(n, RowOf(rs[j], rows)) < |trees|
      ensures if j == k then calculated[j] !in Hashes(trees)
              else RootIndex(n, RowOf(rs[j], rows)) != RootIndex(n, RowOf(p, rows))
                   && calculated[j] == Hashes(trees)[RootIndex(n, RowOf(rs[j], rows))]
    {
      RenamedRoot(trees, n, rows, targets, a, x, p, rs[j]);
      if j < k { TouchedOrder(trees, n, rows, targets, j, k); }
      if k < j { TouchedOrder(trees, n, rows, targets, k, j); }
    }
    var at := seq(k, i requires 0 <= i < k => RootIndex(n, RowOf(rs[i], rows)));
    forall i, j | 0 <= i < j < k ensures at[j] < at[i] { TouchedOrder(trees, n, rows, targets, i, j); }
    assert forall j :: 0 <= j < k ==> calculated[..k][j] == calculated[j];
    HalfPasses(Hashes(trees), calculated, at);
  }

  /** With an even number of touched trees some proof names a leaf that does not exist, and every run
      of `verify` accepts it. */
  lemma EvenFooled(trees: seq<Tree>, n: nat, targets: seq<U64>) returns (proof: Proof, delHashes: seq<Hash>)
    requires Sound(trees, n, TreeRows(n)) && LeafTargets(trees, n, TreeRows(n), targets)
    requires AllValid(targets, n, TreeRows(n)) && |TouchedRoots(targets, n, TreeRows(n))| % 2 == 0
    ensures proof.targets == targets && LeafKind(delHashes) && !(multiset(IdsOf(delHashes)) <= AllIds(trees))
    ensures Accepted(proof, delHashes, Hashes(trees), n)
  {
    hide WellFormed, ProofSet, Path, AllValid, At, InputNodes, IsRootPosition, Merge, Sorted, Ordered, TouchedRoots,
      TreeRows, Match, LeafTargets, TranslateAll, AllIds, CurrentProof, Verdict, Current;
    var rows := TreeRows(n);
    var x := FreshId(AllIds(trees));
    if targets == [] {
      proof, delHashes := Proof([], []), [LeafHash(x)];
      NotLive(delHashes, 0, x, AllIds(trees));
      return;
    }
    SomeRoot(targets, n, rows);
    var rs := TouchedRoots(targets, n, rows);
    var k := |rs| / 2;
    assert rs[k] in rs;
    var i := TargetUnder(trees, n, rows, targets, rs[k]);
    var a := TargetIds(trees, n, rows, targets)[i];
    var trees' := RenameAll(trees, a, x);
    proof, delHashes := SpoiledProof(trees, n, targets, a, x, i, RootIndex(n, RowOf(rs[k], rows)));
    NotLive(delHashes, i, x, AllIds(trees));
    HalfMatched(trees, n, rows, targets, a, x, k);
    HonestAnswers(trees', n, proof, delHashes, Hashes(trees));
  }

  lemma NotLive(delHashes: seq<Hash>, i: nat, x: nat, live: multiset<nat>)
    requires LeafKind(delHashes) && i < |delHashes| && delHashes[i] == LeafHash(x) && x !in live
    ensures !(multiset(IdsOf(delHashes)) <= live)
  {
    assert IdsOf(delHashes)[i] == x;
    assert x in multiset(IdsOf(delHashes));
  }

  /** The honest proof of the renamed forest. */
  lemma SpoiledProof(trees: seq<Tree>, n: nat, targets: seq<U64>, a: nat, x: nat, i: nat, j: nat)
    returns (proof: Proof, delHashes: seq<Hash>)
    requires Sound(trees, n, TreeRows(n)) && LeafTargets(trees, n, TreeRows(n), targets)
    requires i < |targets| && TargetIds(trees, n, TreeRows(n), targets)[i] == a
    requires j < |trees| && a in Ids(trees[j]) && x !in AllIds(trees)
    ensures CurrentProof(RenameAll(trees, a, x), n, proof, delHashes) && proof.targets == targets
    ensures LeafKind(delHashes) && |delHashes| == |targets| && delHashes[i] == LeafHash(x)
  {
    hide WellFormed, At, TreeRows, AllIds, Valid, HonestHashes;
    var trees' := RenameAll(trees, a, x);
    AllIdsMember(trees, j);
    assert a in AllIds(trees) by { assert Ids(trees[j])[a] <= AllIds(trees)[a]; }
    RenameWellFormed(trees, a, x, n);
    RenameTargets(trees, a, x, n, TreeRows(n), targets);
    proof := Proof(targets, HonestHashes(trees', n, TreeRows(n), targets));
    delHashes := LeafHashes(TargetIds(trees', n, TreeRows(n), targets));
  }

  /** Every run of `verify` answers Ok(true). */
  ghost predicate Accepted(proof: Proof, delHashes: seq<Hash>, roots: seq<Hash>, n: nat) {
    forall positions, nodes, r :: Answers(proof, delHashes, roots, n, positions, nodes, r) ==> r == Ok(true)
  }

  /** An honest proof for another forest is judged by the roots of its touched trees. */
  lemma HonestAnswers(trees: seq<Tree>, n: nat, proof: Proof, delHashes: seq<Hash>, roots: seq<Hash>)
    requires CurrentProof(trees, n, proof, delHashes) && |trees| == PopCount(n)
    requires Fits(n, TreeRows(n)) && AllValid(proof.targets, n, TreeRows(n))
    requires Verdict(roots, Vals(TouchedRoots(proof.targets, n, TreeRows(n)), Current(trees, n, TreeRows(n))))
    ensures Accepted(proof, delHashes, roots, n)
  {
    hide WellFormed, ProofSet, Path, AllValid, At, InputNodes, IsRootPosition, Merge, Sorted, TouchedRoots, TreeRows,
      Match, LeafTargets, TranslateAll, CurrentProof, Verdict, Current, Ordered;
    CurrentTargets(trees, n, proof, delHashes);
    forall positions, nodes, r | Answers(proof, delHashes, roots, n, positions, nodes, r) ensures r == Ok(true) {
      if proof.targets != [] {
        var computed := CurrentHashes(trees, n, proof, delHashes, nodes);
      }
    }
  }

  // ----- exactly when -----

  /** Some run of `verify` may answer Ok(true). */
  ghost predicate MayAccept(proof: Proof, delHashes: seq<Hash>, roots: seq<Hash>, n: nat) {
    exists positions, nodes :: Answers(proof, delHashes, roots, n, positions, nodes, Ok(true))
  }

  lemma SomeAnswer(proof: Proof, delHashes: seq<Hash>, roots: seq<Hash>, n: nat)
    requires n <= MAX_LEAVES && Accepted(proof, delHashes, roots, n)
    ensures MayAccept(proof, delHashes, roots, n)
  {
    hide ProofSet, AllValid, InputNodes, Merge, Sorted, TreeRows, TranslateAll, Verdict, Ordered, Fits;
    var positions: seq<nat>, nodes: seq<Node<Hash>> := [], [];
    var r: Result<bool> := Ok(true);
    if proof.targets != [] && |proof.targets| != |delHashes| {
      r := Err(DelHashesTargetsMismatch(|proof.targets|, |delHashes|));
    } else if proof.targets != [] {
      TreeRowsFit(n);
      var translated := TranslateAll(proof.targets, MAX_FOREST_ROWS, TreeRows(n));
      if AllValid(translated, n, TreeRows(n)) { positions := Sorted(ProofSet(translated, n, TreeRows(n))); }
      nodes := SortedExists(InputNodes(proof.targets, delHashes, positions, proof.hashes));
      r := CheckMerge(Merge(nodes, [], 0, 0, [], n, TreeRows(n), ParentHash),
          (computed, found) => Verdict(roots, found));
    }
    assert Answers(proof, delHashes, roots, n, positions, nodes, r);
  }

  /** For these targets every proof that `verify` accepts names leaves of the forest. */
  ghost predicate Trusted(trees: seq<Tree>, n: nat, targets: seq<U64>) {
    forall proof: Proof, delHashes: seq<Hash> ::
      proof.targets == targets && LeafKind(delHashes) && MayAccept(proof, delHashes, Hashes(trees), n) ==>
        multiset(IdsOf(delHashes)) <= AllIds(trees)
  }

  /** A positive answer can be trusted if and only if the number of trees that hold a target is odd. */
  lemma TrustExact(trees: seq<Tree>, n: nat, targets: seq<U64>)
    requires n <= MAX_LEAVES && Sound(trees, n, TreeRows(n)) && LeafTargets(trees, n, TreeRows(n), targets)
    requires AllValid(targets, n, TreeRows(n))
    ensures Trusted(trees, n, targets) <==> |TouchedRoots(targets, n, TreeRows(n))| % 2 == 1
  {
    hide WellFormed, AllValid, TouchedRoots, TreeRows, LeafTargets, AllIds, Answers, Accepted, IdsOf;
    if |TouchedRoots(targets, n, TreeRows(n))| % 2 == 1 {
      forall proof: Proof, delHashes: seq<Hash> |
        proof.targets == targets && LeafKind(delHashes) && MayAccept(proof, delHashes, Hashes(trees), n)
        ensures multiset(IdsOf(delHashes)) <= AllIds(trees)
      {
        var positions, nodes :| Answers(proof, delHashes, Hashes(trees), n, positions, nodes, Ok(true));
        OddTrusted(trees, n, proof, delHashes, positions, nodes);
      }
    } else {
      var proof, delHashes := EvenFooled(trees, n, targets);
      SomeAnswer(proof, delHashes, Hashes(trees), n);
    }
  }
}
