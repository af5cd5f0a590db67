/** What an accepted proof is worth in any case: the leaves that it names in the matched trees are there
    (`verify`, src/proof/mod.rs). */
module HalfTrusted {
  import opened Bits
  import opened Positions
  import opened Forest
  import opened ProofPositions
  import opened Slots
  import opened MergeLoop
  import opened MergeRuns
  import opened ProofEngine
  import opened ProofChecks
  import opened Soundness
  import opened Stumps
  import opened Verdicts

  /** A hash that enters the loop, and the leaves that it is claimed to hold. */
  type Claim = (Hash, multiset<nat>)

  function CombineClaims(a: Claim, b: Claim): Claim {
    (ParentHash(a.0, b.0), a.1 + b.1)
  }

  /** If it is the hash of a tree, the claimed leaves are in the tree. */
  ghost predicate Backed(v: Claim) {
    forall t: Tree :: (t.Nil? || Proper(t)) && Merkle(t) == v.0 ==> v.1 <= Ids(t)
  }

  lemma BackedSource(h: Hash)
    ensures Backed((h, multiset{})) && (h.LeafHash? ==> Backed((h, multiset{h.id})))
  {
    forall t: Tree | (t.Nil? || Proper(t)) && Merkle(t) == h && h.LeafHash? ensures multiset{h.id} <= Ids(t) {
      assert t == Tip(h.id);
    }
  }

  lemma BackedPair(a: Claim, b: Claim)
    requires Backed(a) && Backed(b)
    ensures Backed(CombineClaims(a, b))
  {
    forall t: Tree | (t.Nil? || Proper(t)) && Merkle(t) == CombineClaims(a, b).0
      ensures CombineClaims(a, b).1 <= Ids(t)
    {
      assert Merkle(t.left) == a.0 && Merkle(t.right) == b.0;
    }
  }

  ghost predicate AllBacked(nodes: seq<Node<Claim>>) {
    forall i :: 0 <= i < |nodes| ==> Backed(nodes[i].1)
  }

  /** Whatever the nodes are, the roots that come out are backed if they are. */
  lemma {:induction false} MergeBacked(nodes: seq<Node<Claim>>, computed: seq<Node<Claim>>, ci: nat, pi: nat,
                                       roots: seq<Claim>, n: nat, rows: nat)
    requires ci <= |computed| && pi <= |nodes| && rows < 63 && AllBacked(nodes) && AllBacked(computed)
    requires forall i :: 0 <= i < |roots| ==> Backed(roots[i])
    ensures var out := Merge(nodes, computed, ci, pi, roots, n, rows, CombineClaims);
            out.Finished? ==> forall i :: 0 <= i < |out.roots| ==> Backed(out.roots[i])
    decreases |nodes| - pi + |computed| - ci
  {
    hide Backed, IsRootPosition, Parent, Or, GetNext, Merge, CombineClaims;
    MergeUnfold(nodes, computed, ci, pi, roots, n, rows, CombineClaims);
    var r1 := GetNext(computed, nodes, ci, pi);
    if r1.Popped? {
      if IsRootPosition(r1.node.0, n, rows) {
        MergeBacked(nodes, computed, r1.computedIndex, r1.providedIndex, roots + [r1.node.1], n, rows);
      } else {
        var r2 := GetNext(computed, nodes, r1.computedIndex, r1.providedIndex);
        if r2.Popped? && r2.node.0 == Or(r1.node.0, 1) {
          BackedPair(r1.node.1, r2.node.1);
          var parent := (Parent(r1.node.0, rows), CombineClaims(r1.node.1, r2.node.1));
          MergeBacked(nodes, computed + [parent], r2.computedIndex, r2.providedIndex, roots, n, rows);
        }
      }
    }
  }

  // ----- the claims of a proof -----

  /** The leaves of the forest that are targeted, and the leaves that are claimed to stand there. */
  ghost predicate ClaimMap(ids: seq<nat>, delHashes: seq<Hash>, m: map<nat, nat>) {
    && |ids| == |delHashes| && LeafKind(delHashes)
    && (forall i :: 0 <= i < |ids| ==> ids[i] in m && m[ids[i]] == delHashes[i].id)
    && (forall x :: x in m ==> x in ids)
  }

  /** Every proof for leaf targets makes such claims. */
  lemma ClaimsExist(trees: seq<Tree>, n: nat, rows: nat, targets: seq<nat>, delHashes: seq<Hash>)
    returns (m: map<nat, nat>)
    requires Sound(trees, n, rows) && LeafTargets(trees, n, rows, targets)
    requires |targets| == |delHashes| && LeafKind(delHashes)
    ensures ClaimMap(TargetIds(trees, n, rows, targets), delHashes, m)
  {
    hide At, Valid, WellFormed;
    var ids := TargetIds(trees, n, rows, targets);
    forall i, j | 0 <= i < j < |ids| ensures ids[i] != ids[j] {
      if ids[i] == ids[j] { SlotUnique(trees, n, rows, targets[i], targets[j]); }
    }
    m := MapTo(ids, delHashes);
  }

  lemma {:induction false} MapTo(ids: seq<nat>, delHashes: seq<Hash>) returns (m: map<nat, nat>)
    requires |ids| == |delHashes| && LeafKind(delHashes) && forall i, j :: 0 <= i < j < |ids| ==> ids[i] != ids[j]
    ensures ClaimMap(ids, delHashes, m)
  {
    m := map[];
    if ids != [] {
      var k := |ids| - 1;
      var rest := MapTo(ids[..k], delHashes[..k]);
      m := rest[ids[k] := delHashes[k].id];
      assert forall i :: 0 <= i < k ==> ids[..k][i] == ids[i] && delHashes[..k][i] == delHashes[i];
      forall x | x in m ensures x in ids {
        if x != ids[k] { assert x in ids[..k]; }
      }
    }
  }

  /** What is claimed of a tree. */
  function Claims(t: Tree, m: map<nat, nat>): multiset<nat> {
    match t
    case Nil => multiset{}
    case Tip(id) => if id in m then multiset{m[id]} else multiset{}
    case Fork(l, r) => Claims(l, m) + Claims(r, m)
  }

  lemma {:induction false} NoClaims(t: Tree, m: map<nat, nat>)
    requires forall x :: x in m ==> x !in Ids(t)
    ensures Claims(t, m) == multiset{}
  {
    if t.Fork? {
      NoClaims(t.left, m);
      NoClaims(t.right, m);
    }
  }

  lemma {:induction false} ClaimsMember(t: Tree, m: map<nat, nat>, x: nat)
    requires x in m && x in Ids(t)
    ensures m[x] in Claims(t, m)
  {
    if t.Fork? {
      if x in Ids(t.left) { ClaimsMember(t.left, m, x); } else { ClaimsMember(t.right, m, x); }
    }
  }

  function ClaimsAt(trees: seq<Tree>, n: nat, rows: nat, m: map<nat, nat>): nat -> multiset<nat>
    requires |trees| == PopCount(n)
  {
    (p: nat) => if Valid(p, n, rows) then Claims(At(trees, n, rows, p), m) else multiset{}
  }

  function Union(a: multiset<nat>, b: multiset<nat>): multiset<nat> {
    a + b
  }

  lemma ClaimsConsistent(trees: seq<Tree>, n: nat, rows: nat, targets: seq<nat>, m: map<nat, nat>)
    requires LeafTargets(trees, n, rows, targets)
    ensures Consistent(Provided(targets, n, rows), Inner(targets, n, rows), n, rows, ClaimsAt(trees, n, rows, m), Union)
  {
    hide IsRootPosition, Provided, Inner, At, Valid, Parent;
    var val := ClaimsAt(trees, n, rows, m);
    forall p | p in Provided(targets, n, rows) + Inner(targets, n, rows) && p % 2 == 0 && !IsRootPosition(p, n, rows)
      ensures val(Parent(p, rows)) == Union(val(p), val(p + 1))
    {
      InnerPair(trees, n, rows, targets, p);
    }
  }

  /** A node as it enters the loop, with what it claims. */
  function Claimed(targets: seq<nat>): Node<Hash> -> Node<Claim> {
    (x: Node<Hash>) => (x.0, (x.1, if x.0 in targets && x.1.LeafHash? then multiset{x.1.id} else multiset{}))
  }

  function ClaimOf(h: Hash): multiset<nat> {
    if h.LeafHash? then multiset{h.id} else multiset{}
  }

  function ClaimsOf(hs: seq<Hash>): (r: seq<multiset<nat>>)
    ensures |r| == |hs| && forall i :: 0 <= i < |r| ==> r[i] == ClaimOf(hs[i])
  {
    seq(|hs|, i requires 0 <= i < |hs| => ClaimOf(hs[i]))
  }

  function Nothing(k: nat): (r: seq<multiset<nat>>)
    ensures |r| == k && forall i :: 0 <= i < k ==> r[i] == multiset{}
  {
    seq(k, i => multiset{})
  }

  lemma ClaimedInput(targets: seq<nat>, delHashes: seq<Hash>, positions: seq<nat>, hashes: seq<Hash>)
    requires |targets| == |delHashes| && |hashes| >= |positions| && forall p :: p in positions ==> p !in targets
    ensures MapNodes(MapSeq(InputNodes(targets, delHashes, positions, hashes), Claimed(targets)), (v: Claim) => v.1)
            == InputNodes(targets, ClaimsOf(delHashes), positions, Nothing(|positions|))
  {
    hide MapSeq, MapNodes, Zip, Claimed;
    var a, b := Zip(targets, delHashes), Zip(positions, hashes);
    MapConcat(a, b, Claimed(targets));
    NodesConcat(MapSeq(a, Claimed(targets)), MapSeq(b, Claimed(targets)), (v: Claim) => v.1);
    ClaimedTargets(targets, delHashes);
    ClaimedProof(targets, positions, hashes);
  }

  lemma NodesConcat<T, U>(a: seq<Node<T>>, b: seq<Node<T>>, f: T -> U)
    ensures MapNodes(a + b, f) == MapNodes(a, f) + MapNodes(b, f)
  {
  }

  lemma ClaimedTargets(targets: seq<nat>, delHashes: seq<Hash>)
    requires |targets| == |delHashes|
    ensures MapNodes(MapSeq(Zip(targets, delHashes), Claimed(targets)), (v: Claim) => v.1)
            == Zip(targets, ClaimsOf(delHashes))
  {
    hide MapNodes, MapSeq, Zip;
    var a := MapNodes(MapSeq(Zip(targets, delHashes), Claimed(targets)), (v: Claim) => v.1);
    forall i | 0 <= i < |targets| ensures a[i] == Zip(targets, ClaimsOf(delHashes))[i] {
      assert targets[i] in targets;
    }
  }

  lemma ClaimedProof(targets: seq<nat>, positions: seq<nat>, hashes: seq<Hash>)
    requires |hashes| >= |positions| && forall p :: p in positions ==> p !in targets
    ensures MapNodes(MapSeq(Zip(positions, hashes), Claimed(targets)), (v: Claim) => v.1)
            == Zip(positions, Nothing(|positions|))
  {
    hide MapNodes, MapSeq, Zip;
    var b := MapNodes(MapSeq(Zip(positions, hashes), Claimed(targets)), (v: Claim) => v.1);
    forall i | 0 <= i < |positions| ensures b[i] == Zip(positions, Nothing(|positions|))[i] {
      assert positions[i] in positions;
    }
  }

  lemma ClaimsCarried(trees: seq<Tree>, n: nat, rows: nat, targets: seq<nat>, delHashes: seq<Hash>, m: map<nat, nat>)
    requires Sound(trees, n, rows) && LeafTargets(trees, n, rows, targets)
    requires ClaimMap(TargetIds(trees, n, rows, targets), delHashes, m)
    ensures var ps := Sorted(ProofSet(targets, n, rows));
            Carries(InputNodes(targets, ClaimsOf(delHashes), ps, Nothing(|ps|)), ClaimsAt(trees, n, rows, m))
  {
    hide At, ProofSet, InputNodes, WellFormed, Sorted, Valid, Path;
    var ids := TargetIds(trees, n, rows, targets);
    var ps := Sorted(ProofSet(targets, n, rows));
    var input := InputNodes(targets, ClaimsOf(delHashes), ps, Nothing(|ps|));
    InputLength(targets, ClaimsOf(delHashes), ps, Nothing(|ps|));
    SortedIs(ProofSet(targets, n, rows));
    forall k | 0 <= k < |input| ensures input[k].1 == ClaimsAt(trees, n, rows, m)(input[k].0) {
      InputAt(targets, ClaimsOf(delHashes), ps, Nothing(|ps|), k);
      if k >= |targets| {
        var q := ps[k - |targets|];
        ElementsAt(ps, k - |targets|);
        ProofSetValid(targets, n, rows, q);
        forall x | x in m ensures x !in Ids(At(trees, n, rows, q)) {
          var i :| 0 <= i < |ids| && ids[i] == x;
          OffPath(trees, n, rows, targets, q, i);
        }
        NoClaims(At(trees, n, rows, q), m);
      }
    }
  }

  lemma ClaimedBacked(nodes: seq<Node<Hash>>, targets: seq<nat>)
    ensures AllBacked(MapSeq(nodes, Claimed(targets)))
  {
    hide Backed;
    forall i | 0 <= i < |nodes| ensures Backed(MapSeq(nodes, Claimed(targets))[i].1) { BackedSource(nodes[i].1); }
  }

  lemma ClaimProjections(nodes: seq<Node<Hash>>, targets: seq<nat>)
    ensures Homomorphic((v: Claim) => v.0, CombineClaims, ParentHash)
    ensures Homomorphic((v: Claim) => v.1, CombineClaims, Union)
    ensures MapNodes(MapSeq(nodes, Claimed(targets)), (v: Claim) => v.0) == nodes
  {
  }

  /** Whatever the hashes are: each root that comes out is backed, with the claims that the proof makes of
      its tree. */
  lemma RootsBacked(trees: seq<Tree>, n: nat, rows: nat, targets: seq<nat>, delHashes: seq<Hash>, hashes: seq<Hash>,
                    nodes: seq<Node<Hash>>, m: map<nat, nat>)
    returns (claims: seq<Claim>)
    requires Sound(trees, n, rows) && LeafTargets(trees, n, rows, targets) && Ordered(nodes)
    requires ClaimMap(TargetIds(trees, n, rows, targets), delHashes, m)
    requires multiset(nodes) == multiset(InputNodes(targets, delHashes, Sorted(ProofSet(targets, n, rows)), hashes))
    ensures var out := Merge(nodes, [], 0, 0, [], n, rows, ParentHash);
            var rs := TouchedRoots(targets, n, rows);
            out.Finished? ==>
              && |out.roots| == |rs| == |claims|
              && forall j :: 0 <= j < |rs| ==>
                   claims[j] == (out.roots[j], ClaimsAt(trees, n, rows, m)(rs[j])) && Backed(claims[j])
  {
    hide ProofSet, Path, AllValid, At, InputNodes, IsRootPosition, Consistent, Merge, Sorted, MapNodes, MapSeq, Ordered,
      TouchedRoots, Provided, Inner, ClaimsAt, Claimed, CombineClaims, Backed, Homomorphic, WellFormed, Carries;
    claims := [];
    var positions := Sorted(ProofSet(targets, n, rows));
    if |hashes| < |positions| {
      ShortStuck(trees, n, rows, targets, delHashes, hashes, nodes);
    } else {
      var fst, snd := (v: Claim) => v.0, (v: Claim) => v.1;
      var tagged := MapSeq(nodes, Claimed(targets));
      var cnodes := MapNodes(tagged, snd);
      NeededOffTargets(targets, n, rows);
      ClaimProjections(nodes, targets);
      ClaimedNodes(nodes, targets, delHashes, positions, hashes);
      ClaimsCarried(trees, n, rows, targets, delHashes, m);
      ClaimsConsistent(trees, n, rows, targets, m);
      var final := HonestMerge(trees, n, rows, targets, ClaimsOf(delHashes), Nothing(|positions|), cnodes,
        ClaimsAt(trees, n, rows, m), Union);
      MergeMapped(tagged, [], 0, 0, [], n, rows, CombineClaims, ParentHash, fst);
      MergeMapped(tagged, [], 0, 0, [], n, rows, CombineClaims, Union, snd);
      NothingMapped(fst);
      NothingMapped(snd);
      ClaimedBacked(nodes, targets);
      MergeBacked(tagged, [], 0, 0, [], n, rows);
      var out := Merge(tagged, [], 0, 0, [], n, rows, CombineClaims);
      claims := if out.Finished? then out.roots else [];
    }
  }

  lemma NothingMapped<T>(f: Claim -> T)
    ensures MapNodes<Claim, T>([], f) == [] && MapSeq<Claim, T>([], f) == []
  {
  }

  lemma ClaimedNodes(nodes: seq<Node<Hash>>, targets: seq<nat>, delHashes: seq<Hash>, positions: seq<nat>,
                     hashes: seq<Hash>)
    requires |targets| == |delHashes| && |hashes| >= |positions| && (forall p :: p in positions ==> p !in targets)
    requires multiset(nodes) == multiset(InputNodes(targets, delHashes, positions, hashes)) && Ordered(nodes)
    ensures var cnodes := MapNodes(MapSeq(nodes, Claimed(targets)), (v: Claim) => v.1);
            && multiset(cnodes) == multiset(InputNodes(targets, ClaimsOf(delHashes), positions, Nothing(|positions|)))
            && Ordered(cnodes)
  {
    hide InputNodes;
    var f, input := (v: Claim) => v.1, InputNodes(targets, delHashes, positions, hashes);
    var g := (x: Node<Claim>) => (x.0, f(x.1));
    MapPermuted(nodes, input, Claimed(targets));
    MapPermuted(MapSeq(nodes, Claimed(targets)), MapSeq(input, Claimed(targets)), g);
    assert MapSeq(MapSeq(input, Claimed(targets)), g) == MapNodes(MapSeq(input, Claimed(targets)), f);
    assert MapSeq(MapSeq(nodes, Claimed(targets)), g) == MapNodes(MapSeq(nodes, Claimed(targets)), f);
    ClaimedInput(targets, delHashes, positions, hashes);
  }

  // ----- the matched trees -----

  function AllClaims(vs: seq<Claim>): multiset<nat> {
    if vs == [] then multiset{} else vs[0].1 + AllClaims(vs[1..])
  }

  /** Claims on different trees fit into the forest together. */
  lemma {:induction false} ClaimsFit(trees: seq<Tree>, vs: seq<Claim>, at: seq<nat>)
    requires forall i :: 0 <= i < |trees| ==> trees[i].Nil? || Proper(trees[i])
    requires |at| == |vs| && forall j :: 0 <= j < |vs| ==> Backed(vs[j])
    requires forall j :: 0 <= j < |at| ==> at[j] < |trees| && Merkle(trees[at[j]]) == vs[j].0
    requires forall i, j :: 0 <= i < j < |at| ==> at[j] < at[i]
    ensures AllClaims(vs) <= AllIds(trees)
    decreases |trees|
  {
    hide Merkle, Backed, Proper, Ids;
    if vs != [] {
      var k := |trees| - 1;
      var first := at[0];
      assert first < |trees|;
      assert trees == trees[..k] + [trees[k]];
      AllIdsConcat(trees[..k], [trees[k]]);
      LastIds(trees[k]);
      if first == k {
        BackedBy(vs[0], trees[k]);
        ClaimsFit(trees[..k], vs[1..], at[1..]);
      } else {
        forall j | 0 <= j < |at| ensures at[j] < k { assert j == 0 || at[j] < at[0]; }
        ClaimsFit(trees[..k], vs, at);
      }
    }
  }

  lemma LastIds(t: Tree)
    ensures AllIds([t]) == Ids(t)
  {
    assert [t][1..] == [];
  }

  lemma BackedBy(v: Claim, t: Tree)
    requires Backed(v) && (t.Nil? || Proper(t)) && Merkle(t) == v.0
    ensures v.1 <= Ids(t)
  {
  }

  /** What is claimed of the trees with the given roots, each leaf as often as it is claimed. */
  function ClaimedUnder(trees: seq<Tree>, n: nat, rows: nat, tops: seq<nat>, m: map<nat, nat>): multiset<nat>
    requires |trees| == PopCount(n)
  {
    if tops == [] then multiset{}
    else ClaimsAt(trees, n, rows, m)(tops[0]) + ClaimedUnder(trees, n, rows, tops[1..], m)
  }

  lemma {:induction false} ClaimsTogether(trees: seq<Tree>, n: nat, rows: nat, tops: seq<nat>, m: map<nat, nat>,
                                          vs: seq<Claim>)
    requires |trees| == PopCount(n) && |vs| == |tops|
    requires forall j :: 0 <= j < |tops| ==> vs[j].1 == ClaimsAt(trees, n, rows, m)(tops[j])
    ensures AllClaims(vs) == ClaimedUnder(trees, n, rows, tops, m)
    decreases |tops|
  {
    hide ClaimsAt, PopCount;
    if tops != [] { ClaimsTogether(trees, n, rows, tops[1..], m, vs[1..]); }
  }

  /** Whatever the proof: what it claims of the trees whose calculated roots are matched is in the forest. */
  lemma MatchedTrusted(trees: seq<Tree>, n: nat, rows: nat, targets: seq<nat>, delHashes: seq<Hash>, hashes: seq<Hash>,
                       nodes: seq<Node<Hash>>, k: nat, m: map<nat, nat>)
    requires Sound(trees, n, rows) && LeafTargets(trees, n, rows, targets) && Ordered(nodes)
    requires ClaimMap(TargetIds(trees, n, rows, targets), delHashes, m)
    requires multiset(nodes) == multiset(InputNodes(targets, delHashes, Sorted(ProofSet(targets, n, rows)), hashes))
    requires var out := Merge(nodes, [], 0, 0, [], n, rows, ParentHash);
             out.Finished? && k <= |out.roots| && Occur(Hashes(trees), out.roots[..k])
    ensures k <= |TouchedRoots(targets, n, rows)|
    ensures ClaimedUnder(trees, n, rows, TouchedRoots(targets, n, rows)[..k], m) <= AllIds(trees)
  {
    hide ProofSet, InputNodes, Merge, Sorted, Ordered, TouchedRoots, ClaimsAt, Backed, WellFormed, ClaimMap, Merkle,
      AllIds, Ids, Occur, AllClaims, ClaimedUnder, Proper, At, Valid;
    var claims := RootsBacked(trees, n, rows, targets, delHashes, hashes, nodes, m);
    var roots := Merge(nodes, [], 0, 0, [], n, rows, ParentHash).roots;
    SoundParts(trees, n);
    BeginningFits(trees, n, rows, m, roots, TouchedRoots(targets, n, rows), claims, k);
  }

  lemma BeginningFits(trees: seq<Tree>, n: nat, rows: nat, m: map<nat, nat>, roots: seq<Hash>, rs: seq<nat>,
                      claims: seq<Claim>, k: nat)
    requires |trees| == PopCount(n) && forall i :: 0 <= i < |trees| ==> trees[i].Nil? || Proper(trees[i])
    requires |roots| == |rs| == |claims| && k <= |rs| && Occur(Hashes(trees), roots[..k])
    requires forall j :: 0 <= j < |rs| ==>
               claims[j] == (roots[j], ClaimsAt(trees, n, rows, m)(rs[j])) && Backed(claims[j])
    ensures ClaimedUnder(trees, n, rows, rs[..k], m) <= AllIds(trees)
  {
    hide ClaimsAt, Backed, Merkle, AllIds, Occur, AllClaims, ClaimedUnder, Proper, PopCount;
    ClaimsTogether(trees, n, rows, rs[..k], m, claims[..k]);
    ClaimsOccur(trees, claims[..k], roots[..k]);
  }

  lemma ClaimsOccur(trees: seq<Tree>, vs: seq<Claim>, found: seq<Hash>)
    requires forall i :: 0 <= i < |trees| ==> trees[i].Nil? || Proper(trees[i])
    requires |vs| == |found| && forall j :: 0 <= j < |vs| ==> Backed(vs[j]) && vs[j].0 == found[j]
    requires Occur(Hashes(trees), found)
    ensures AllClaims(vs) <= AllIds(trees)
  {
    hide Backed, Merkle, Proper, AllIds, AllClaims;
    var at :| FoundAt(Hashes(trees), found, at);
    ClaimsFit(trees, vs, at);
  }

  /** An even number of touched trees: if `verify` answers Ok(true), the first half of the calculated roots
      are roots of the forest, each of another tree, and what the proof claims of the trees with these
      touched roots is there. */
  lemma EvenTrusted(trees: seq<Tree>, n: nat, proof: Proof, delHashes: seq<Hash>, positions: seq<nat>,
                    nodes: seq<Node<Hash>>, k: nat, m: map<nat, nat>)
    requires Sound(trees, n, TreeRows(n)) && LeafTargets(trees, n, TreeRows(n), proof.targets)
    requires AllValid(proof.targets, n, TreeRows(n)) && |TouchedRoots(proof.targets, n, TreeRows(n))| == 2 * k > 0
    requires ClaimMap(TargetIds(trees, n, TreeRows(n), proof.targets), delHashes, m)
    requires Answers(proof, delHashes, Hashes(trees), n, positions, nodes, Ok(true))
    ensures var out := Merge(nodes, [], 0, 0, [], n, TreeRows(n), ParentHash);
            && out.Finished? && |out.roots| == 2 * k && Occur(Hashes(trees), out.roots[..k])
            && multiset(out.roots[..k]) <= multiset(Hashes(trees))
    ensures ClaimedUnder(trees, n, TreeRows(n), TouchedRoots(proof.targets, n, TreeRows(n))[..k], m) <= AllIds(trees)
  {
    hide WellFormed, ProofSet, AllValid, At, InputNodes, IsRootPosition, Merge, Sorted, Ordered, TouchedRoots,
      TreeRows, Match, LeafTargets, TranslateAll, Occur, ClaimMap, AllIds, ClaimedUnder;
    var rows := TreeRows(n);
    NoTargets(proof.targets, n, rows);
    TargetsCurrent(trees, n, proof.targets);
    MapLength(TargetIds(trees, n, rows, proof.targets), delHashes, m);
    RootCount(trees, n, rows, proof.targets, delHashes, proof.hashes, nodes);
    var roots := Merge(nodes, [], 0, 0, [], n, rows, ParentHash).roots;
    VerdictExact(Hashes(trees), roots);
    HalfOccurs(Hashes(trees), roots, k);
    MatchedTrusted(trees, n, rows, proof.targets, delHashes, proof.hashes, nodes, k, m);
  }

  lemma MapLength(ids: seq<nat>, delHashes: seq<Hash>, m: map<nat, nat>)
    requires ClaimMap(ids, delHashes, m)
    ensures |ids| == |delHashes|
  {
  }

  lemma HalfOccurs(roots: seq<Hash>, calculated: seq<Hash>, k: nat)
    requires Verdict(roots, calculated) && |calculated| == 2 * k
    ensures Occur(roots, calculated[..k]) && multiset(calculated[..k]) <= multiset(roots)
  {
    hide Match, Occur;
    MatchLongest(roots, calculated);
    var half := calculated[..k];
    MatchLongest(roots, half);
    assert half[..k] == half;
    MatchedRoots(roots, half);
  }

  /** Each leaf that the proof names in these trees is there. */
  lemma NamedIsLive(trees: seq<Tree>, n: nat, targets: seq<nat>, delHashes: seq<Hash>, k: nat, m: map<nat, nat>,
                    i: nat, j: nat)
    requires Sound(trees, n, TreeRows(n)) && LeafTargets(trees, n, TreeRows(n), targets) && i < |targets| && j < k
    requires k <= |TouchedRoots(targets, n, TreeRows(n))|
    requires ClaimMap(TargetIds(trees, n, TreeRows(n), targets), delHashes, m)
    requires ClaimedUnder(trees, n, TreeRows(n), TouchedRoots(targets, n, TreeRows(n))[..k], m) <= AllIds(trees)
    requires TouchedRoots(targets, n, TreeRows(n))[j] in PathOf(targets[i], n, TreeRows(n))
    ensures i < |delHashes| && delHashes[i].LeafHash? && delHashes[i].id in AllIds(trees)
  {
    hide At, Valid, TreeRows, TouchedRoots, PathOf, AllIds, Path, ClaimedUnder, Ids, Claims, WellFormed;
    var rows := TreeRows(n);
    var top, id := TouchedRoots(targets, n, rows)[j], TargetIds(trees, n, rows, targets)[i];
    PathOfFacts(targets[i], n, rows, top);
    TopIds(trees, n, rows, targets[i], top, id);
    ClaimsMember(At(trees, n, rows, top), m, id);
    UnderMember(trees, n, rows, TouchedRoots(targets, n, rows)[..k], m, j);
    assert ClaimsAt(trees, n, rows, m)(top)[m[id]] <= AllIds(trees)[m[id]];
  }

  lemma TopIds(trees: seq<Tree>, n: nat, rows: nat, p: nat, top: nat, id: nat)
    requires Sound(trees, n, rows) && Valid(p, n, rows) && Valid(top, n, rows)
    requires top in PathOf(p, n, rows) && At(trees, n, rows, p) == Tip(id)
    ensures id in Ids(At(trees, n, rows, top))
  {
    hide At, Valid, PathOf, WellFormed;
    IdsAbove(trees, n, rows, p, top, id);
  }

  lemma {:induction false} UnderMember(trees: seq<Tree>, n: nat, rows: nat, tops: seq<nat>, m: map<nat, nat>, j: nat)
    requires |trees| == PopCount(n) && j < |tops|
    ensures ClaimsAt(trees, n, rows, m)(tops[j]) <= ClaimedUnder(trees, n, rows, tops, m)
    decreases j
  {
    hide ClaimsAt, PopCount;
    if j > 0 { UnderMember(trees, n, rows, tops[1..], m, j - 1); }
  }

  /** If fewer than half of the calculated roots are matched the answer is Ok(false). */
  lemma FewRejected(proof: Proof, delHashes: seq<Hash>, roots: seq<Hash>, n: nat, positions: seq<nat>,
                    nodes: seq<Node<Hash>>, r: Result<bool>, half: nat)
    requires proof.targets != [] && |proof.targets| == |delHashes|
    requires Answers(proof, delHashes, roots, n, positions, nodes, r)
    requires var out := Merge(nodes, [], 0, 0, [], n, TreeRows(n), ParentHash);
             out.Finished? && half == (|out.roots| + 1) / 2 && !Occur(roots, out.roots[..half])
    ensures r == Ok(false)
  {
    assert TreeRows(n) < 62;
    hide Merge, Match, Occur, TreeRows, HashInput;
    var calculated := Merge(nodes, [], 0, 0, [], n, TreeRows(n), ParentHash).roots;
    FewMatched(roots, calculated, half);
  }

  lemma FewMatched(roots: seq<Hash>, calculated: seq<Hash>, half: nat)
    requires half == (|calculated| + 1) / 2 && !Occur(roots, calculated[..half])
    ensures !Verdict(roots, calculated)
  {
    hide Match, Occur;
    MatchLongest(roots, calculated);
  }
}
