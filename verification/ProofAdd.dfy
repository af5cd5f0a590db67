/** Keeping a cached proof up to date over the additions of a block (`update_proof_add` and
    `maybe_remap`, src/proof/mod.rs). */
module ProofAdditions {
  import opened Bits
  import opened Positions
  import opened Forest
  import opened ProofPositions
  import opened Slots
  import opened Walks
  import opened MergeLoop
  import opened ProofEngine
  import opened ProofChecks
  import opened Moves
  import opened TopSlots
  import opened Survivors
  import opened ProofMoves
  import opened ProofUpdates
  import opened ProofRemovals
  import opened HolesFilled
  import opened ListedRoots
  import opened Landings
  import opened GrownPaths
  import opened Regrowths

  // ----- maybe_remap -----

  lemma RemapWord(p: nat, n: nat, R: nat, m: nat, S: nat)
    requires Grows(n, R, m, S) && Valid(p, n, R)
    ensures p < WORD && RowOf(p, R) <= R
    ensures WrappingAdd(WrappingSub(p, StartPositionAtRow(RowOf(p, R), R)), StartPositionAtRow(RowOf(p, R), S)) ==
            Regrown(p, n, R, S)
    ensures R == S ==> Regrown(p, n, R, S) == p
  {
    hide RowOf, OffOf, RowStart, StartPositionAtRow, Pow2;
    Decode(p, n, R);
    PositionWord(p, n, R);
    RegrownSlot(p, n, R, m, S);
    PositionWord(Regrown(p, n, R, S), m, S);
    StartIsRowStart(RowOf(p, R), R);
    StartIsRowStart(RowOf(p, R), S);
  }

  /** The nodes at the same slots of the grown forest. */
  function RemapNodes(nodes: seq<Node<Hash>>, n: nat, R: nat, S: nat): (r: seq<Node<Hash>>)
    requires ValidNodes(nodes, n, R) && R <= S
    ensures |r| == |nodes|
    ensures forall i :: 0 <= i < |r| ==> r[i] == (Regrown(nodes[i].0, n, R, S), nodes[i].1)
  {
    seq(|nodes|, i requires 0 <= i < |nodes| => (Regrown(nodes[i].0, n, R, S), nodes[i].1))
  }

  method MaybeRemap(numLeaves: nat, numAdds: nat, positions: seq<Node<Hash>>) returns (r: seq<Node<Hash>>)
    requires numLeaves + numAdds <= MAX_LEAVES && ValidNodes(positions, numLeaves, TreeRows(numLeaves))
    ensures Grows(numLeaves, TreeRows(numLeaves), numLeaves + numAdds, TreeRows(numLeaves + numAdds))
    ensures r == RemapNodes(positions, numLeaves, TreeRows(numLeaves), TreeRows(numLeaves + numAdds))
  {
    hide TreeRows, RowOf, OffOf, Valid, Regrown, WrappingAdd, WrappingSub, StartPositionAtRow;
    RowsGrow(numLeaves, numLeaves + numAdds);
    var newRows, oldRows := TreeRows(numLeaves + numAdds), TreeRows(numLeaves);
    if newRows > oldRows {
      r := [];
      for i := 0 to |positions|
        invariant |r| == i
        invariant forall k :: 0 <= k < i ==>
                  r[k] == (Regrown(positions[k].0, numLeaves, oldRows, newRows), positions[k].1)
      {
        var (pos, hash) := positions[i];
        RemapWord(pos, numLeaves, oldRows, numLeaves + numAdds, newRows);
        var row := RowOf(pos, oldRows);
        var offset := WrappingSub(pos, StartPositionAtRow(row, oldRows));
        r := r + [(WrappingAdd(offset, StartPositionAtRow(row, newRows)), hash)];
      }
    } else {
      r := positions;
      forall i | 0 <= i < |positions|
        ensures r[i] == (Regrown(positions[i].0, numLeaves, oldRows, newRows), positions[i].1)
      {
        RemapWord(positions[i].0, numLeaves, oldRows, numLeaves + numAdds, newRows);
      }
    }
  }

  // ----- the remembered leaves -----

  /** `new_nodes_iter.find(..)`: the first node from `start` on with the hash, and where the
      iterator stands afterwards. */
  method FindFrom(nodes: seq<Node<Hash>>, start: nat, hash: Hash) returns (found: bool, next: nat)
    requires start <= |nodes|
    ensures found ==> start < next <= |nodes| && nodes[next - 1].1 == hash
    ensures found ==> forall i :: start <= i < next - 1 ==> nodes[i].1 != hash
    ensures !found ==> next == |nodes| && forall i :: start <= i < |nodes| ==> nodes[i].1 != hash
  {
    next := start;
    while next < |nodes|
      invariant start <= next <= |nodes|
      invariant forall i :: start <= i < next ==> nodes[i].1 != hash
    {
      next := next + 1;
      if nodes[next - 1].1 == hash { return true, next; }
    }
    found := false;
  }

  /** Where the k-th new leaf comes to stand. */
  function PlaceOf(trees: seq<Tree>, n: nat, adds: nat, k: nat): nat
    requires |trees| == PopCount(n) && n + adds <= MAX_LEAVES && k < adds
  {
    TreeRowsFit(n + adds);
    PlaceAfter(n + k, Overwritten(trees, n, n + adds, TreeRows(n + adds)), n + adds, TreeRows(n + adds))
  }

  /** Where the subtrees at `dels` put the leaf when their siblings rise. */
  function PlaceAfter(leaf: nat, dels: set<nat>, m: nat, S: nat): nat
    requires leaf < m && Fits(m, S)
  {
    FirstLeaf(leaf, m, S);
    Moved(leaf, dels, m, S)
  }

  function Places(trees: seq<Tree>, n: nat, adds: nat): (r: seq<nat>)
    requires |trees| == PopCount(n) && n + adds <= MAX_LEAVES
    ensures |r| == adds && forall k :: 0 <= k < adds ==> r[k] == PlaceOf(trees, n, adds, k)
  {
    seq(adds, k requires 0 <= k < adds => PlaceOf(trees, n, adds, k))
  }

  /** The roots to be destroyed are the empty roots that are written over, lowest first, and the masks
      of `remove_bit` reach for them. */
  ghost predicate DestroyExact(trees: seq<Tree>, n: nat, m: nat, toDestroy: seq<nat>)
    requires |trees| == PopCount(n) && m <= MAX_LEAVES
  {
    TreeRowsFit(m);
    && RowsRise(toDestroy, TreeRows(m)) && Elements(toDestroy) == Overwritten(trees, n, m, TreeRows(m))
    && forall i :: 0 <= i < |toDestroy| ==> MasksReach(toDestroy[i], TreeRows(m))
  }

  /** The grown forest of a block that adds `ids`, and what `Stump::add` reports of it. */
  ghost predicate GrowthData(trees: seq<Tree>, n: nat, ids: seq<nat>, newNodes: seq<Node<Hash>>, toDestroy: seq<nat>) {
    && Sound(trees, n, TreeRows(n)) && n + |ids| <= MAX_LEAVES && Fresh(trees, ids)
    && NewAddExact(trees, n, ids, newNodes) && DestroyExact(trees, n, n + |ids|, toDestroy)
  }

  lemma GrowthFacts(trees: seq<Tree>, n: nat, ids: seq<nat>, newNodes: seq<Node<Hash>>, toDestroy: seq<nat>)
    requires GrowthData(trees, n, ids, newNodes, toDestroy)
    ensures |trees| == PopCount(n) && n + |ids| <= MAX_LEAVES && WellFormed(trees, n) && Fresh(trees, ids)
    ensures Sound(trees, n, TreeRows(n)) && Fits(n + |ids|, TreeRows(n + |ids|))
    ensures Grows(n, TreeRows(n), n + |ids|, TreeRows(n + |ids|))
    ensures Sound(AddAll(trees, n, ids), n + |ids|, TreeRows(n + |ids|))
    ensures StrictlyOrdered(newNodes)
    ensures Carries(newNodes, Current(AddAll(trees, n, ids), n + |ids|, TreeRows(n + |ids|)))
    ensures forall p :: Holds(newNodes, p) <==> Lands(trees, n, n + |ids|, TreeRows(n + |ids|), p)
    ensures DestroyExact(trees, n, n + |ids|, toDestroy)
  {
    hide TreeRows, AddAll, Shape, AllIds, Ordered, Lands, DestroyExact, Fresh;
    RowsGrow(n, n + |ids|);
    AddWellFormed(trees, n, ids);
  }

  /** A new leaf is found at its place, and its hash nowhere else. */
  lemma LeafThere(trees: seq<Tree>, n: nat, ids: seq<nat>, newNodes: seq<Node<Hash>>, toDestroy: seq<nat>, k: nat)
    returns (i: nat)
    requires GrowthData(trees, n, ids, newNodes, toDestroy) && k < |ids| && |trees| == PopCount(n)
    ensures i < |newNodes| && newNodes[i] == (PlaceOf(trees, n, |ids|, k), LeafHash(ids[k]))
    ensures forall j :: 0 <= j < |newNodes| && newNodes[j].1 == LeafHash(ids[k]) ==> j == i
  {
    hide TreeRows, IsNew, AddAll, WellFormed, Ordered, Fresh, Valid, RowOf, OffOf, At, Lands, DestroyExact, GrowthData,
      Moved, Overwritten, Regrowing, HoleAt, Merkle, PopCount;
    var m, R, S := n + |ids|, TreeRows(n), TreeRows(n + |ids|);
    GrowthFacts(trees, n, ids, newNodes, toDestroy);
    var full, gone, grown, block, tops := RegrowthExists(trees, n, R, ids, m, S);
    NewStays(trees, n, R, ids, full, gone, grown, m, S, block, tops, k);
    var b := PlaceOf(trees, n, |ids|, k);
    LandsAt(trees, n, m, S, n + k);
    assert Holds(newNodes, b);
    i :| 0 <= i < |newNodes| && newNodes[i].0 == b;
    MerkleOfTip(ids[k]);
    forall j | 0 <= j < |newNodes| && newNodes[j].1 == LeafHash(ids[k]) ensures j == i {
      assert Holds(newNodes, newNodes[j].0);
      LandsValid(trees, n, m, S, newNodes[j].0);
      MerkleInjective(At(AddAll(trees, n, ids), m, S, newNodes[j].0), Tip(ids[k]));
      SlotUnique(AddAll(trees, n, ids), m, S, newNodes[j].0, b);
      OnlyOnce(newNodes, i, b);
    }
  }

  lemma LandsAt(trees: seq<Tree>, n: nat, m: nat, S: nat, q: nat)
    requires |trees| == PopCount(n) && Fits(m, S) && IsNew(q, n, m, S) && !HoleAt(trees, n, S, q)
    ensures Valid(q, m, S) && Lands(trees, n, m, S, Moved(q, Overwritten(trees, n, m, S), m, S))
  {
    hide RowOf, OffOf, PopCount, HoleAt, Moved, Overwritten;
  }

  lemma LandsValid(trees: seq<Tree>, n: nat, m: nat, S: nat, b: nat)
    requires |trees| == PopCount(n) && Fits(m, S) && Lands(trees, n, m, S, b)
    ensures Valid(b, m, S)
  {
    hide RowOf, OffOf, PopCount, HoleAt, Overwritten, Moved;
  }

  lemma MerkleOfTip(id: nat)
    ensures Merkle(Tip(id)) == LeafHash(id)
  {
  }

  lemma OnlyOnce(nodes: seq<Node<Hash>>, k: nat, p: nat)
    requires StrictlyOrdered(nodes) && k < |nodes| && nodes[k].0 == p
    ensures forall i :: 0 <= i < |nodes| && nodes[i].0 == p ==> i == k
  {
  }

  /** What the single pass over the new nodes finds: a leaf that stands before one already found, or is
      the same, is searched for in vain, and so is everything after it. */
  function Taken(remembers: seq<nat>, places: seq<nat>, from: nat): (taken: seq<nat>)
    ensures forall i :: 0 <= i < |taken| ==> taken[i] < |places|
  {
    if remembers == [] then []
    else if remembers[0] >= |places| then Taken(remembers[1..], places, from)
    else if places[remembers[0]] < from then []
    else [remembers[0]] + Taken(remembers[1..], places, places[remembers[0]] + 1)
  }

  /** The entries of `remembers` that are leaves of the block. */
  function Listed(remembers: seq<nat>, adds: nat): (r: seq<nat>)
    ensures forall i :: 0 <= i < |r| ==> r[i] < adds
  {
    if remembers == [] then []
    else if remembers[0] >= adds then Listed(remembers[1..], adds)
    else [remembers[0]] + Listed(remembers[1..], adds)
  }

  /** The leaves stand in this order. */
  predicate Rising(leaves: seq<nat>, places: seq<nat>)
    requires forall i :: 0 <= i < |leaves| ==> leaves[i] < |places|
  {
    forall i, j :: 0 <= i < j < |leaves| ==> places[leaves[i]] < places[leaves[j]]
  }

  lemma {:induction false} ListedFrom(remembers: seq<nat>, places: seq<nat>, from: nat)
    ensures var all := Listed(remembers, |places|);
            Taken(remembers, places, from) == all <==>
            Rising(all, places) && forall i :: 0 <= i < |all| ==> places[all[i]] >= from
    decreases |remembers|
  {
    if remembers != [] {
      var r, rest := remembers[0], Listed(remembers[1..], |places|);
      if r >= |places| {
        ListedFrom(remembers[1..], places, from);
      } else {
        ListedFrom(remembers[1..], places, places[r] + 1);
        var all := Listed(remembers, |places|);
        assert all == [r] + rest && all[1..] == rest;
        RisingCons(r, rest, places);
        if places[r] >= from {
          assert Taken(remembers, places, from)[1..] == Taken(remembers[1..], places, places[r] + 1);
        } else {
          assert all[0] == r;
        }
      }
    }
  }

  lemma RisingCons(r: nat, rest: seq<nat>, places: seq<nat>)
    requires r < |places| && forall i :: 0 <= i < |rest| ==> rest[i] < |places|
    ensures Rising([r] + rest, places) <==>
            Rising(rest, places) && forall i :: 0 <= i < |rest| ==> places[rest[i]] >= places[r] + 1
  {
    var all := [r] + rest;
    if Rising(all, places) {
      forall i | 0 <= i < |rest|
        ensures places[rest[i]] >= places[r] + 1 { assert places[all[0]] < places[all[i + 1]]; }
      forall i, j | 0 <= i < j < |rest|
        ensures places[rest[i]] < places[rest[j]] { assert places[all[i + 1]] < places[all[j + 1]]; }
    }
  }

  /** Every entry is found if and only if the leaves of the block that are listed stand in that order. */
  lemma RemembersAll(remembers: seq<nat>, places: seq<nat>)
    ensures Taken(remembers, places, 0) == Listed(remembers, |places|) <==> Rising(Listed(remembers, |places|), places)
  {
    ListedFrom(remembers, places, 0);
  }

  /** The nodes of the leaves that were found. */
  ghost predicate Remembered(places: seq<nat>, adds: seq<Hash>, taken: seq<nat>, nodes: seq<Node<Hash>>) {
    && |places| == |adds| && |nodes| == |taken| && StrictlyOrdered(nodes)
    && forall i :: 0 <= i < |taken| ==> taken[i] < |adds| && nodes[i] == (places[taken[i]], adds[taken[i]])
  }

  /** Where the pass over the new nodes stands: `done` leaves have been found, `rest` is what is left to
      be looked for, from position `from` on; once it is over nothing more is found. */
  ghost predicate Passing(places: seq<nat>, all: seq<nat>, done: seq<nat>, rest: seq<nat>, over: bool, from: nat,
                          newNodes: seq<Node<Hash>>, next: nat)
  {
    && next <= |newNodes|
    && if over then next == |newNodes| && all == done
       else
         && all == done + Taken(rest, places, from)
         && (next == 0 ==> from == 0) && (next > 0 ==> newNodes[next - 1].0 + 1 == from)
         && forall i :: 0 <= i < |done| ==> done[i] < |places| && places[done[i]] < from
  }

  lemma PassingStart(places: seq<nat>, remembers: seq<nat>, newNodes: seq<Node<Hash>>)
    ensures Passing(places, Taken(remembers, places, 0), [], remembers, false, 0, newNodes, 0)
  {
  }

  lemma PassingEnd(places: seq<nat>, all: seq<nat>, done: seq<nat>, over: bool, from: nat, newNodes: seq<Node<Hash>>,
                   next: nat)
    requires Passing(places, all, done, [], over, from, newNodes, next)
    ensures done == all
  {
  }

  /** One round of the loop over `remembers`: the leaf is found if and only if it stands after those
      found before. */
  lemma PassingNext(places: seq<nat>, all: seq<nat>, done: seq<nat>, rest: seq<nat>, over: bool, from: nat,
                    newNodes: seq<Node<Hash>>, next: nat, k: nat)
    requires rest != [] && Passing(places, all, done, rest, over, from, newNodes, next) && StrictlyOrdered(newNodes)
    requires rest[0] < |places| ==> k < |newNodes| && newNodes[k].0 == places[rest[0]]
    ensures next <= |newNodes|
    ensures rest[0] >= |places| ==> Passing(places, all, done, rest[1..], over, from, newNodes, next)
    ensures rest[0] < |places| && k < next ==> Passing(places, all, done, rest[1..], true, from, newNodes, |newNodes|)
    ensures rest[0] < |places| && next <= k ==>
              && !over && forall i :: 0 <= i < |done| ==> done[i] < |places| && places[done[i]] < places[rest[0]]
    ensures rest[0] < |places| && next <= k ==>
              Passing(places, all, done + [rest[0]], rest[1..], false, places[rest[0]] + 1, newNodes, k + 1)
  {
    var r := rest[0];
    if r < |places| && !over {
      if next > 0 && k < next { assert newNodes[k].0 <= newNodes[next - 1].0; }
      if next > 0 && next <= k { assert newNodes[next - 1].0 < newNodes[k].0; }
      if next <= k {
        assert done + ([r] + Taken(rest[1..], places, places[r] + 1)) ==
               done + [r] + Taken(rest[1..], places, places[r] + 1);
      }
    }
  }

  lemma RememberNext(places: seq<nat>, adds: seq<Hash>, done: seq<nat>, r: nat, nodes: seq<Node<Hash>>)
    requires Remembered(places, adds, done, nodes) && r < |places|
    requires forall i :: 0 <= i < |done| ==> done[i] < |places| && places[done[i]] < places[r]
    ensures |places| == |adds| && Remembered(places, adds, done + [r], nodes + [(places[r], adds[r])])
  {
  }

  /** The loop over `remembers`. */
  method Remember(adds: seq<Hash>, remembers: seq<nat>, newNodes: seq<Node<Hash>>,
                  ghost trees: seq<Tree>, ghost n: nat, ghost toDestroy: seq<nat>)
    returns (nodes: seq<Node<Hash>>)
    requires LeafKind(adds) && GrowthData(trees, n, IdsOf(adds), newNodes, toDestroy)
    requires |trees| == PopCount(n) && n + |adds| <= MAX_LEAVES
    ensures Remembered(Places(trees, n, |adds|), adds, Taken(remembers, Places(trees, n, |adds|), 0), nodes)
  {
    hide GrowthData, Remembered, Passing, Taken, TreeRows, AddAll, Current, Lands, StrictlyOrdered, Carries, Places,
      PlaceOf, DestroyExact, PopCount;
    ghost var ids, places := IdsOf(adds), Places(trees, n, |adds|);
    ghost var all := Taken(remembers, places, 0);
    GrowthFacts(trees, n, ids, newNodes, toDestroy);
    nodes := [];
    var next := 0;
    ghost var done: seq<nat>, over, from: nat := [], false, 0;
    PassingStart(places, remembers, newNodes);
    RememberNone(places, adds, done);
    assert remembers[0..] == remembers;
    for i := 0 to |remembers|
      invariant Remembered(places, adds, done, nodes)
      invariant Passing(places, all, done, remembers[i..], over, from, newNodes, next)
    {
      var remember := remembers[i];
      assert remembers[i..][0] == remember && remembers[i..][1..] == remembers[i + 1..];
      ghost var k := 0;
      if remember < |adds| { k := LeafThere(trees, n, ids, newNodes, toDestroy, remember); }
      PassingNext(places, all, done, remembers[i..], over, from, newNodes, next, k);
      if remember < |adds| {
        var found;
        ghost var before := next;
        found, next := FindFrom(newNodes, next, adds[remember]);
        if found {
          assert next - 1 == k;
          RememberNext(places, adds, done, remember, nodes);
          done, over, from := done + [remember], false, places[remember] + 1;
          nodes := nodes + [newNodes[next - 1]];
        } else {
          assert k < before;
          over := true;
        }
      }
    }
    assert remembers[|remembers|..] == [];
    PassingEnd(places, all, done, over, from, newNodes, next);
  }

  lemma RememberNone(places: seq<nat>, adds: seq<Hash>, none: seq<nat>)
    requires none == [] && |places| == |adds|
    ensures Remembered(places, adds, none, [])
  {
  }

  // ----- the targets -----

  /** Nodes of distinct leaves. */
  ghost predicate LeafNodes(trees: seq<Tree>, n: nat, rows: nat, nodes: seq<Node<Hash>>)
    requires |trees| == PopCount(n)
  {
    DistinctPositions(nodes) && forall i :: 0 <= i < |nodes| ==> LeafNodeAt(trees, n, rows, nodes[i])
  }

  lemma TargetNodesLeaves(trees: seq<Tree>, n: nat, proof: Proof, cached: seq<Hash>)
    requires CurrentProof(trees, n, proof, cached)
    ensures |proof.targets| == |cached| && ValidNodes(Zip(proof.targets, cached), n, TreeRows(n))
    ensures Fits(n, TreeRows(n)) && AllValid(proof.targets, n, TreeRows(n)) && |trees| == PopCount(n)
    ensures LeafNodes(trees, n, TreeRows(n), Zip(proof.targets, cached))
  {
    hide WellFormed, TreeRows, At, Valid, HonestHashes;
  }

  /** The nodes of new leaves at their own slots. */
  function NewLeafNodes(n: nat, adds: seq<Hash>, taken: seq<nat>): (r: seq<Node<Hash>>)
    requires forall i :: 0 <= i < |taken| ==> taken[i] < |adds|
    ensures |r| == |taken| && forall i :: 0 <= i < |r| ==> r[i] == (n + taken[i], adds[taken[i]])
  {
    seq(|taken|, i requires 0 <= i < |taken| => (n + taken[i], adds[taken[i]]))
  }

  /** The setting: the forest, the filled forest, and the data of the block. */
  ghost predicate Updating(trees: seq<Tree>, n: nat, R: nat, adds: seq<Hash>, full: seq<Tree>, gone: set<nat>,
                           grown: seq<Tree>, m: nat, S: nat, block: seq<nat>, tops: seq<nat>) {
    && LeafKind(adds) && |trees| == PopCount(n) && m == n + |adds| && m <= MAX_LEAVES && Sound(trees, n, R)
    && R == TreeRows(n) && S == TreeRows(m) && Fits(n, R) && Fits(m, S) && Grows(n, R, m, S)
    && Regrowing(trees, n, R, IdsOf(adds), full, gone, grown, m, S, block, tops)
  }

  /** A leaf of the filled forest that stays. */
  ghost predicate StayingLeaf(grown: seq<Tree>, m: nat, S: nat, block: seq<nat>, tops: seq<nat>, node: Node<Hash>)
    requires |grown| == PopCount(m) && Fits(m, S)
  {
    Valid(node.0, m, S) && LeafNodeAt(grown, m, S, node) && Kept(node.0, tops, m, S) && node.0 !in block
  }

  /** An old leaf in the filled forest. */
  lemma OldLeaf(trees: seq<Tree>, n: nat, R: nat, adds: seq<Hash>, full: seq<Tree>, gone: set<nat>,
                grown: seq<Tree>, m: nat, S: nat, block: seq<nat>, tops: seq<nat>, node: Node<Hash>)
    requires Updating(trees, n, R, adds, full, gone, grown, m, S, block, tops) && LeafNodeAt(trees, n, R, node)
    ensures Valid(Regrown(node.0, n, R, S), m, S) && Existed(Regrown(node.0, n, R, S), n, m, S)
    ensures |grown| == PopCount(m)
    ensures StayingLeaf(grown, m, S, block, tops, (Regrown(node.0, n, R, S), node.1))
    ensures Moved(Regrown(node.0, n, R, S), Elements(tops), m, S) ==
            Moved(Regrown(node.0, n, R, S), Overwritten(trees, n, m, S), m, S)
  {
    hide RowOf, OffOf, At, Regrown, AddAll, Moved, Overwritten, Tops, Kept, PopCount, Elements, Regrowing, TreeRows,
      Existed, WellFormed, Merkle, Prune;
    var ids := IdsOf(adds);
    RegrowingFacts(trees, n, R, ids, full, gone, grown, m, S, block, tops);
    OldStays(trees, n, R, ids, full, gone, grown, m, S, block, tops, node.0);
    RegrownExisted(node.0, n, R, m, S);
    NotInBlock(grown, m, S, block, tops, gone, Regrown(node.0, n, R, S));
  }

  lemma NotInBlock(grown: seq<Tree>, m: nat, S: nat, block: seq<nat>, tops: seq<nat>, gone: set<nat>, x: nat)
    requires Deletion(grown, m, S, block, tops, gone) && Valid(x, m, S) && Kept(x, tops, m, S)
    ensures x !in block
  {
    hide RowOf, OffOf, At, WellFormed, AllBelow, PathOf, Valid, IsTop;
    if x in block {
      InElements(block, x);
      ListedBelow(x, block, m, S);
      KeptUncovered(x, block, tops, m, S);
    }
  }

  lemma NewLeaf(trees: seq<Tree>, n: nat, R: nat, adds: seq<Hash>, full: seq<Tree>, gone: set<nat>,
                grown: seq<Tree>, m: nat, S: nat, block: seq<nat>, tops: seq<nat>, k: nat)
    requires |trees| == PopCount(n) && |grown| == PopCount(m) && Fits(m, S) && k < |adds|
    requires Updating(trees, n, R, adds, full, gone, grown, m, S, block, tops)
    ensures Appeared(n + k, n, m, S) && StayingLeaf(grown, m, S, block, tops, (n + k, adds[k]))
  {
    hide RowOf, OffOf, At, Regrown, AddAll, Moved, Overwritten, Tops, Kept, PopCount, Elements, Regrowing, TreeRows,
      Appeared, WellFormed, Merkle, Prune, HoleAt, IsNew;
    var ids := IdsOf(adds);
    RegrowingFacts(trees, n, R, ids, full, gone, grown, m, S, block, tops);
    NewStays(trees, n, R, ids, full, gone, grown, m, S, block, tops, k);
    MerkleOfTip(ids[k]);
    NotInBlock(grown, m, S, block, tops, gone, n + k);
  }

  /** Where a new leaf moves when the fillers are deleted is its place. */
  lemma NewLeafPlace(trees: seq<Tree>, n: nat, R: nat, adds: seq<Hash>, full: seq<Tree>, gone: set<nat>,
                     grown: seq<Tree>, m: nat, S: nat, block: seq<nat>, tops: seq<nat>, k: nat, leaf: nat, place: nat)
    requires Fits(m, S) && Valid(leaf, m, S) && leaf == n + k
    requires |trees| == PopCount(n) && n + |adds| <= MAX_LEAVES && k < |adds| && place == PlaceOf(trees, n, |adds|, k)
    requires Updating(trees, n, R, adds, full, gone, grown, m, S, block, tops)
    ensures Moved(leaf, Elements(tops), m, S) == place
  {
    hide RowOf, OffOf, At, Regrown, AddAll, Moved, Overwritten, Tops, Kept, PopCount, Elements, Regrowing, TreeRows,
      Appeared, WellFormed, Merkle, Prune, HoleAt, IsNew;
    NewStays(trees, n, R, IdsOf(adds), full, gone, grown, m, S, block, tops, k);
  }

  /** Old targets and remembered leaves in the filled forest are distinct leaves that stay. */
  lemma AllTargets(trees: seq<Tree>, n: nat, R: nat, adds: seq<Hash>, full: seq<Tree>, gone: set<nat>,
                   grown: seq<Tree>, m: nat, S: nat, block: seq<nat>, tops: seq<nat>,
                   olds: seq<Node<Hash>>, taken: seq<nat>)
    requires Updating(trees, n, R, adds, full, gone, grown, m, S, block, tops)
    requires ValidNodes(olds, n, R) && LeafNodes(trees, n, R, olds)
    requires forall i :: 0 <= i < |taken| ==> taken[i] < |adds|
    requires forall i, j :: 0 <= i < j < |taken| ==> taken[i] != taken[j]
    ensures |grown| == PopCount(m)
    ensures var all := RemapNodes(olds, n, R, S) + NewLeafNodes(n, adds, taken);
            DistinctPositions(all) && forall i :: 0 <= i < |all| ==> StayingLeaf(grown, m, S, block, tops, all[i])
    ensures forall i :: 0 <= i < |taken| ==> Appeared(n + taken[i], n, m, S)
  {
    hide Regrown, Existed, Valid, Updating, PopCount, LeafNodeAt, Kept, Appeared, StayingLeaf, Moved, Elements, PlaceOf;
    UpdatingSizes(trees, n, R, adds, full, gone, grown, m, S, block, tops);
    var kept, news := RemapNodes(olds, n, R, S), NewLeafNodes(n, adds, taken);
    forall i | 0 <= i < |kept|
      ensures Valid(Regrown(olds[i].0, n, R, S), m, S) && Existed(Regrown(olds[i].0, n, R, S), n, m, S)
      ensures StayingLeaf(grown, m, S, block, tops, kept[i])
    {
      OldLeaf(trees, n, R, adds, full, gone, grown, m, S, block, tops, olds[i]);
    }
    NewLeaves(trees, n, R, adds, full, gone, grown, m, S, block, tops, taken);
    NewLeavesApart(n, adds, taken);
    TargetsDistinct(olds, n, R, m, S, news);
  }

  lemma NewLeavesApart(n: nat, adds: seq<Hash>, taken: seq<nat>)
    requires forall i :: 0 <= i < |taken| ==> taken[i] < |adds|
    requires forall i, j :: 0 <= i < j < |taken| ==> taken[i] != taken[j]
    ensures DistinctPositions(NewLeafNodes(n, adds, taken))
  {
  }

  lemma NewLeaves(trees: seq<Tree>, n: nat, R: nat, adds: seq<Hash>, full: seq<Tree>, gone: set<nat>,
                  grown: seq<Tree>, m: nat, S: nat, block: seq<nat>, tops: seq<nat>, taken: seq<nat>)
    requires |trees| == PopCount(n) && n + |adds| <= MAX_LEAVES && |grown| == PopCount(m) && Fits(m, S)
    requires Updating(trees, n, R, adds, full, gone, grown, m, S, block, tops)
    requires forall i :: 0 <= i < |taken| ==> taken[i] < |adds|
    ensures forall node :: node in NewLeafNodes(n, adds, taken) ==>
              StayingLeaf(grown, m, S, block, tops, node) && Appeared(node.0, n, m, S)
  {
    hide Valid, Updating, PopCount, LeafNodeAt, Kept, Appeared, PlaceOf, Moved, Elements, StayingLeaf;
    var news := NewLeafNodes(n, adds, taken);
    forall node | node in news ensures StayingLeaf(grown, m, S, block, tops, node) && Appeared(node.0, n, m, S) {
      var i :| 0 <= i < |news| && news[i] == node;
      NewLeaf(trees, n, R, adds, full, gone, grown, m, S, block, tops, taken[i]);
    }
  }

  lemma UpdatingFacts(trees: seq<Tree>, n: nat, R: nat, adds: seq<Hash>, full: seq<Tree>, gone: set<nat>,
                      grown: seq<Tree>, m: nat, S: nat, block: seq<nat>, tops: seq<nat>)
    requires Updating(trees, n, R, adds, full, gone, grown, m, S, block, tops)
    ensures LeafKind(adds) && |trees| == PopCount(n) && m == n + |adds| && Sound(trees, n, R) && m <= MAX_LEAVES
    ensures R == TreeRows(n) && S == TreeRows(m) && Fits(n, R) && Fits(m, S) && Grows(n, R, m, S)
    ensures |grown| == PopCount(m)
    ensures Regrowing(trees, n, R, IdsOf(adds), full, gone, grown, m, S, block, tops)
    ensures Deletion(grown, m, S, block, tops, gone) && Sound(grown, m, S)
    ensures PruneAll(grown, gone) == AddAll(trees, n, IdsOf(adds)) && Sound(AddAll(trees, n, IdsOf(adds)), m, S)
  {
    hide Regrowing, TreeRows, WellFormed, PopCount, AddAll, Deletion;
    RegrowingFacts(trees, n, R, IdsOf(adds), full, gone, grown, m, S, block, tops);
  }

  lemma UpdatingSizes(trees: seq<Tree>, n: nat, R: nat, adds: seq<Hash>, full: seq<Tree>, gone: set<nat>,
                      grown: seq<Tree>, m: nat, S: nat, block: seq<nat>, tops: seq<nat>)
    requires Updating(trees, n, R, adds, full, gone, grown, m, S, block, tops)
    ensures |trees| == PopCount(n) && Grows(n, R, m, S) && |grown| == PopCount(m) && Fits(n, R) && Fits(m, S)
    ensures n + |adds| == m <= MAX_LEAVES
  {
    hide Regrowing, TreeRows, WellFormed, PopCount, AddAll, Deletion;
    UpdatingFacts(trees, n, R, adds, full, gone, grown, m, S, block, tops);
  }

  lemma TargetsDistinct(olds: seq<Node<Hash>>, n: nat, R: nat, m: nat, S: nat, news: seq<Node<Hash>>)
    requires Grows(n, R, m, S) && ValidNodes(olds, n, R) && DistinctPositions(olds) && DistinctPositions(news)
    requires forall i :: 0 <= i < |olds| ==>
             Valid(Regrown(olds[i].0, n, R, S), m, S) && Existed(Regrown(olds[i].0, n, R, S), n, m, S)
    requires forall i :: 0 <= i < |news| ==> Appeared(news[i].0, n, m, S)
    ensures DistinctPositions(RemapNodes(olds, n, R, S) + news)
  {
    hide Regrown, Existed, Valid;
    var kept := RemapNodes(olds, n, R, S);
    forall i, j | 0 <= i < j < |kept| ensures kept[i].0 != kept[j].0 {
      if kept[i].0 == kept[j].0 { RegrownInjective(olds[i].0, olds[j].0, n, R, m, S); }
    }
  }

  /** The targets in the filled forest are the grown targets of the old ones. */
  lemma TargetsGrown(targets: seq<nat>, olds: seq<Node<Hash>>, n: nat, R: nat, m: nat, S: nat,
                     news: seq<Node<Hash>>, grown: seq<nat>)
    requires |targets| == |olds| && forall i :: 0 <= i < |olds| ==> olds[i].0 == targets[i]
    requires AllValid(targets, n, R) && ValidNodes(olds, n, R) && Grows(n, R, m, S)
    requires forall i :: 0 <= i < |news| ==> Appeared(news[i].0, n, m, S)
    requires AllValid(grown, m, S)
    requires forall p :: p in grown <==> Holds(RemapNodes(olds, n, R, S) + news, p)
    ensures GrownTargets(targets, grown, n, R, m, S)
  {
    hide Regrown, Existed, Valid;
    var kept := RemapNodes(olds, n, R, S);
    forall i | 0 <= i < |targets| ensures Regrown(targets[i], n, R, S) in grown {
      assert kept[i].0 == Regrown(targets[i], n, R, S) && (kept + news)[i] == kept[i];
      assert Holds(kept + news, kept[i].0);
    }
    forall i | 0 <= i < |grown|
      ensures !Existed(grown[i], n, m, S) || exists j :: 0 <= j < |targets| && grown[i] == Regrown(targets[j], n, R, S)
    {
      assert grown[i] in grown;
      var k :| 0 <= k < |kept + news| && (kept + news)[k].0 == grown[i];
      if k < |kept| { assert grown[i] == Regrown(targets[k], n, R, S); }
    }
  }

  // ----- the hashes -----

  lemma OldProofValid(trees: seq<Tree>, n: nat, proof: Proof, cached: seq<Hash>, positions: seq<nat>)
    requires CurrentProof(trees, n, proof, cached) && |trees| == PopCount(n)
    requires Fits(n, TreeRows(n)) && AllValid(proof.targets, n, TreeRows(n))
    requires positions == Sorted(ProofSet(proof.targets, n, TreeRows(n)))
    ensures ValidNodes(Zip(positions, proof.hashes), n, TreeRows(n)) && Ascending(positions)
    ensures |proof.hashes| == |positions| && Carries(Zip(positions, proof.hashes), Current(trees, n, TreeRows(n)))
  {
    hide CurrentProof, TreeRows, Valid, ProofSet, Current, PopCount;
    ProofPositionsValid(proof.targets, n, TreeRows(n));
    OldProofCarries(trees, n, proof, cached, positions);
  }

  /** Hashes of the needed positions that are new, so far. */
  ghost predicate NewlyNeeded(nodes: seq<Node<Hash>>, needed: seq<nat>, newNodes: seq<Node<Hash>>, val: nat -> Hash) {
    && StrictlyOrdered(nodes) && Carries(nodes, val)
    && forall p :: Holds(nodes, p) <==> p in needed && Holds(newNodes, p)
  }

  lemma NewlyNeededNext(nodes: seq<Node<Hash>>, needed: seq<nat>, i: nat, newNodes: seq<Node<Hash>>, val: nat -> Hash)
    requires i < |needed| && Ascending(needed) && NewlyNeeded(nodes, needed[..i], newNodes, val)
    ensures Holds(newNodes, needed[i]) ==>
              NewlyNeeded(nodes + [(needed[i], val(needed[i]))], needed[..i + 1], newNodes, val)
    ensures !Holds(newNodes, needed[i]) ==> NewlyNeeded(nodes, needed[..i + 1], newNodes, val)
  {
    assert needed[..i + 1] == needed[..i] + [needed[i]];
    if Holds(newNodes, needed[i]) {
      var next := nodes + [(needed[i], val(needed[i]))];
      forall k | 0 <= k < |nodes| ensures nodes[k].0 < needed[i] { assert Holds(nodes, nodes[k].0); }
      forall p ensures Holds(next, p) <==> p in needed[..i + 1] && Holds(newNodes, p) {
        HoldsConcat(nodes, [(needed[i], val(needed[i]))], p);
        HoldsOne((needed[i], val(needed[i])), p);
      }
    }
  }

  /** The loop over the needed positions: every one is new or has its hash in the old proof. */
  method CompleteProof(kept: seq<Node<Hash>>, needed: seq<nat>, newNodes: seq<Node<Hash>>, ghost val: nat -> Hash)
    returns (r: Result<seq<Node<Hash>>>)
    requires Ascending(needed) && Carries(newNodes, val) && Carries(kept, val) && DistinctPositions(kept)
    requires forall i :: 0 <= i < |kept| ==> !Holds(newNodes, kept[i].0) && kept[i].0 in needed
    requires forall i :: 0 <= i < |needed| && !Holds(newNodes, needed[i]) ==> Holds(kept, needed[i])
    ensures r.Ok? && DistinctPositions(r.value) && Carries(r.value, val)
    ensures forall p :: Holds(r.value, p) <==> p in needed
  {
    hide FindHash, NewlyNeeded, DistinctPositions, Holds;
    var newProof := kept;
    ghost var extra: seq<Node<Hash>> := [];
    assert newProof == kept + extra;
    NothingNeeded(newNodes, val, needed[..0]);
    for i := 0 to |needed|
      invariant newProof == kept + extra && NewlyNeeded(extra, needed[..i], newNodes, val)
    {
      var pos := needed[i];
      FindCarries(newNodes, pos, val);
      NewlyNeededNext(extra, needed, i, newNodes, val);
      var found := FindHash(newNodes, pos);
      if found.Some? {
        newProof := newProof + [(pos, found.value)];
        extra := extra + [(pos, found.value)];
      } else {
        HoldsConcat(kept, extra, pos);
        if !Holds(newProof, pos) {
          return Err(MissingProofHash(pos));
        }
      }
    }
    assert needed[..|needed|] == needed;
    Completed(kept, extra, needed, newNodes, val);
    r := Ok(newProof);
  }

  lemma NothingNeeded(newNodes: seq<Node<Hash>>, val: nat -> Hash, none: seq<nat>)
    requires none == []
    ensures NewlyNeeded([], none, newNodes, val)
  {
  }

  lemma Completed(kept: seq<Node<Hash>>, extra: seq<Node<Hash>>, needed: seq<nat>, newNodes: seq<Node<Hash>>,
                  val: nat -> Hash)
    requires Carries(kept, val) && DistinctPositions(kept) && NewlyNeeded(extra, needed, newNodes, val)
    requires forall i :: 0 <= i < |kept| ==> !Holds(newNodes, kept[i].0) && kept[i].0 in needed
    requires forall i :: 0 <= i < |needed| && !Holds(newNodes, needed[i]) ==> Holds(kept, needed[i])
    ensures DistinctPositions(kept + extra) && Carries(kept + extra, val)
    ensures forall p :: Holds(kept + extra, p) <==> p in needed
  {
    hide Holds;
    forall i | 0 <= i < |extra| ensures Holds(newNodes, extra[i].0) && extra[i].0 in needed {
      assert Holds(extra, extra[i].0) by { HeldAt(extra, i); }
    }
    forall p ensures Holds(kept + extra, p) <==> p in needed {
      HoldsConcat(kept, extra, p);
      if Holds(kept, p) { HeldIn(kept, needed, p); }
    }
  }

  lemma HeldAt(nodes: seq<Node<Hash>>, i: nat)
    requires i < |nodes|
    ensures Holds(nodes, nodes[i].0)
  {
  }

  lemma HeldIn(nodes: seq<Node<Hash>>, needed: seq<nat>, p: nat)
    requires Holds(nodes, p) && forall i :: 0 <= i < |nodes| ==> nodes[i].0 in needed
    ensures p in needed
  {
  }

  // ----- putting it together -----

  lemma DestroyFacts(trees: seq<Tree>, n: nat, m: nat, S: nat, toDestroy: seq<nat>)
    requires |trees| == PopCount(n) && m <= MAX_LEAVES && DestroyExact(trees, n, m, toDestroy) && S == TreeRows(m)
    requires Fits(m, S)
    ensures AllValid(toDestroy, m, S) && RowsRise(toDestroy, S) && Elements(toDestroy) == Overwritten(trees, n, m, S)
    ensures forall i :: 0 <= i < |toDestroy| ==>
              !IsRootPosition(toDestroy[i], m, S) && MasksReach(toDestroy[i], S) && toDestroy[i] < WORD
  {
    hide TreeRows, RowOf, OffOf, PopCount, HoleAt, RowsRise, Overwritten, MasksReach, IsRootPosition;
    forall i | 0 <= i < |toDestroy|
      ensures Valid(toDestroy[i], m, S) && !IsRootPosition(toDestroy[i], m, S) && toDestroy[i] < WORD
    {
      ElementsAt(toDestroy, i);
      OverwrittenIs(trees, n, m, S, toDestroy[i]);
      PositionWord(toDestroy[i], m, S);
    }
  }

  /** What stays is below no root that is written over. */
  lemma KeptAside(trees: seq<Tree>, n: nat, R: nat, adds: seq<Hash>, full: seq<Tree>, gone: set<nat>,
                  grown: seq<Tree>, m: nat, S: nat, block: seq<nat>, tops: seq<nat>, toDestroy: seq<nat>, x: nat)
    requires Updating(trees, n, R, adds, full, gone, grown, m, S, block, tops)
    requires Elements(toDestroy) == Overwritten(trees, n, m, S) && Valid(x, m, S) && Kept(x, tops, m, S)
    ensures forall k :: 0 <= k < |toDestroy| ==> toDestroy[k] !in PathOf(x, m, S)
  {
    hide TreeRows, RowOf, OffOf, PopCount, HoleAt, IsRootPosition, PathOf, Valid, WellFormed, IsTop, Overwritten,
      AddAll, LeafTargets, FilledGrowth, HoleSet;
    forall k | 0 <= k < |toDestroy| ensures toDestroy[k] !in PathOf(x, m, S) {
      ElementsAt(toDestroy, k);
      OverwrittenIs(trees, n, m, S, toDestroy[k]);
      RegrowingSizes(trees, n, R, adds, full, gone, grown, m, S, block, tops);
      HoleTops(trees, n, m, S, block, toDestroy[k]);
    }
  }

  lemma RegrowingSizes(trees: seq<Tree>, n: nat, R: nat, adds: seq<Hash>, full: seq<Tree>, gone: set<nat>,
                       grown: seq<Tree>, m: nat, S: nat, block: seq<nat>, tops: seq<nat>)
    requires Updating(trees, n, R, adds, full, gone, grown, m, S, block, tops)
    ensures n <= m && Elements(block) == HoleSet(trees, n, m, S)
    ensures Tops(block, tops, m, S)
  {
    hide TreeRows, PopCount, WellFormed, AddAll, LeafTargets, FilledGrowth, HoleSet, Tops, Elements;
  }

  lemma AsideAllKept(trees: seq<Tree>, n: nat, R: nat, adds: seq<Hash>, full: seq<Tree>, gone: set<nat>,
                     grown: seq<Tree>, m: nat, S: nat, block: seq<nat>, tops: seq<nat>, toDestroy: seq<nat>,
                     nodes: seq<Node<Hash>>)
    requires Updating(trees, n, R, adds, full, gone, grown, m, S, block, tops)
    requires Elements(toDestroy) == Overwritten(trees, n, m, S) && ValidNodes(nodes, m, S)
    requires forall i :: 0 <= i < |nodes| ==> Kept(nodes[i].0, tops, m, S)
    ensures AsideAll(nodes, toDestroy, m, S)
  {
    hide Updating, Valid, Kept, PathOf, Overwritten, Elements;
    UpdatingFacts(trees, n, R, adds, full, gone, grown, m, S, block, tops);
    forall i | 0 <= i < |nodes| ensures forall k :: 0 <= k < |toDestroy| ==> toDestroy[k] !in PathOf(nodes[i].0, m, S) {
      KeptAside(trees, n, R, adds, full, gone, grown, m, S, block, tops, toDestroy, nodes[i].0);
    }
  }

  /** Moving over the written-over roots is moving over the fillers. */
  lemma MovedNodesOver(trees: seq<Tree>, n: nat, R: nat, adds: seq<Hash>, full: seq<Tree>, gone: set<nat>,
                       grown: seq<Tree>, m: nat, S: nat, block: seq<nat>, tops: seq<nat>, nodes: seq<Node<Hash>>)
    requires Updating(trees, n, R, adds, full, gone, grown, m, S, block, tops) && ValidNodes(nodes, m, S)
    requires AllPresent(nodes)
    ensures |trees| == PopCount(n) && Fits(m, S)
    ensures MovedNodes(nodes, Elements(tops), m, S, true) == MovedNodes(nodes, Overwritten(trees, n, m, S), m, S, true)
  {
    hide Updating, Valid, Moved, Overwritten, Elements, MovedNodes, PopCount, Tops, HoleSet;
    UpdatingFacts(trees, n, R, adds, full, gone, grown, m, S, block, tops);
    RegrowingSizes(trees, n, R, adds, full, gone, grown, m, S, block, tops);
    MovedNodesAt(nodes, Elements(tops), m, S);
    MovedNodesAt(nodes, Overwritten(trees, n, m, S), m, S);
    forall i | 0 <= i < |nodes|
      ensures Moved(nodes[i].0, Elements(tops), m, S) == Moved(nodes[i].0, Overwritten(trees, n, m, S), m, S)
    {
      MovedOverHoles(trees, n, m, S, block, tops, nodes[i].0);
    }
  }

  lemma TakenApart(places: seq<nat>, adds: seq<Hash>, taken: seq<nat>, nodes: seq<Node<Hash>>)
    requires Remembered(places, adds, taken, nodes)
    ensures forall i :: 0 <= i < |taken| ==> taken[i] < |adds|
    ensures forall i, j :: 0 <= i < j < |taken| ==> taken[i] != taken[j]
  {
    forall i, j | 0 <= i < j < |taken| ensures taken[i] != taken[j] {
      assert nodes[i].0 < nodes[j].0;
    }
  }

  /** All targets in the filled forest go where the update puts them. */
  lemma AllMoved(trees: seq<Tree>, n: nat, R: nat, adds: seq<Hash>, full: seq<Tree>, gone: set<nat>,
                 grown: seq<Tree>, m: nat, S: nat, block: seq<nat>, tops: seq<nat>,
                 kept: seq<Node<Hash>>, taken: seq<nat>, remembered: seq<Node<Hash>>)
    requires |trees| == PopCount(n) && n + |adds| <= MAX_LEAVES && |grown| == PopCount(m) && Fits(m, S)
    requires Updating(trees, n, R, adds, full, gone, grown, m, S, block, tops)
    requires Remembered(Places(trees, n, |adds|), adds, taken, remembered)
    requires forall i :: 0 <= i < |taken| ==> taken[i] < |adds|
    requires ValidNodes(kept, m, S) && AllPresent(kept) && ValidNodes(kept + NewLeafNodes(n, adds, taken), m, S)
    requires AllPresent(kept + NewLeafNodes(n, adds, taken))
    ensures MovedNodes(kept + NewLeafNodes(n, adds, taken), Elements(tops), m, S, true) ==
            MovedNodes(kept, Overwritten(trees, n, m, S), m, S, true) + remembered
  {
    hide Valid, Updating, PopCount, PlaceOf, Moved, Elements, Overwritten, MovedNodes, StayingLeaf, Appeared;
    var news := NewLeafNodes(n, adds, taken);
    var all := kept + news;
    MovedNodesOver(trees, n, R, adds, full, gone, grown, m, S, block, tops, kept);
    MovedNodesAt(all, Elements(tops), m, S);
    MovedNodesAt(kept, Elements(tops), m, S);
    forall i | 0 <= i < |taken| ensures MovedNodes(all, Elements(tops), m, S, true)[|kept| + i] == remembered[i] {
      assert all[|kept| + i] == news[i];
      NewLeafPlace(trees, n, R, adds, full, gone, grown, m, S, block, tops, taken[i],
                   all[|kept| + i].0, PlaceOf(trees, n, |adds|, taken[i]));
    }
  }

  /** Leaves that stay are targets of the filled forest, and remain when the holes are deleted. */
  lemma StayingTargets(grown: seq<Tree>, m: nat, S: nat, block: seq<nat>, tops: seq<nat>, nodes: seq<Node<Hash>>)
    requires |grown| == PopCount(m) && Fits(m, S) && DistinctPositions(nodes)
    requires forall i :: 0 <= i < |nodes| ==> StayingLeaf(grown, m, S, block, tops, nodes[i])
    ensures LeafTargets(grown, m, S, PositionsIn(nodes)) && ValidNodes(nodes, m, S) && AllPresent(nodes)
    ensures Remaining(grown, m, S, PositionsIn(nodes), block, nodes)
  {
    hide Valid, At, Kept;
    forall i | 0 <= i < |nodes|
      ensures Valid(nodes[i].0, m, S) && At(grown, m, S, nodes[i].0).Tip?
      ensures nodes[i].1 == Merkle(At(grown, m, S, nodes[i].0))
      ensures !nodes[i].1.Empty? && nodes[i].0 !in block
    {
      assert StayingLeaf(grown, m, S, block, tops, nodes[i]);
    }
    forall p ensures Holds(nodes, p) <==> p in PositionsIn(nodes) && p !in block {
      if p in PositionsIn(nodes) {
        var i :| 0 <= i < |nodes| && PositionsIn(nodes)[i] == p;
        assert nodes[i].0 == p;
      }
    }
  }

  /** The sorted targets are leaves of the forest afterwards, with their hashes. */
  lemma TargetsDone(trees: seq<Tree>, n: nat, R: nat, adds: seq<Hash>, full: seq<Tree>, gone: set<nat>,
                    grown: seq<Tree>, m: nat, S: nat, block: seq<nat>, tops: seq<nat>,
                    olds: seq<Node<Hash>>, taken: seq<nat>, moved: seq<Node<Hash>>, remembered: seq<Node<Hash>>,
                    sorted: seq<Node<Hash>>)
    requires |trees| == PopCount(n) && n + |adds| <= MAX_LEAVES && |grown| == PopCount(m) && Fits(m, S) && R <= S
    requires Updating(trees, n, R, adds, full, gone, grown, m, S, block, tops)
    requires ValidNodes(olds, n, R) && LeafNodes(trees, n, R, olds)
    requires Remembered(Places(trees, n, |adds|), adds, taken, remembered)
    requires ValidNodes(RemapNodes(olds, n, R, S), m, S)
    requires multiset(moved) == multiset(MovedNodes(RemapNodes(olds, n, R, S), Overwritten(trees, n, m, S), m, S, true))
    requires multiset(sorted) == multiset(moved + remembered) && Ordered(sorted)
    requires forall i :: 0 <= i < |taken| ==> taken[i] < |adds|
    ensures var all := RemapNodes(olds, n, R, S) + NewLeafNodes(n, adds, taken);
            && Setting(grown, m, S, block, tops, gone, PositionsIn(all), PositionsIn(sorted))
            && (forall i :: 0 <= i < |taken| ==> Appeared(n + taken[i], n, m, S))
            && AllValid(PositionsIn(all), m, S)
            && forall h :: h in ValuesIn(sorted) <==> h in ValuesIn(all)
    ensures Sound(AddAll(trees, n, IdsOf(adds)), m, S)
    ensures LeafTargets(AddAll(trees, n, IdsOf(adds)), m, S, PositionsIn(sorted))
    ensures ValuesIn(sorted) == LeafHashes(TargetIds(AddAll(trees, n, IdsOf(adds)), m, S, PositionsIn(sorted)))
  {
    hide Valid, Updating, PopCount, Moved, Elements, Overwritten, MovedNodes, StayingLeaf, Appeared, Regrown, Places,
      Remembered, LeafNodes, Ordered, Setting, Remaining, LeafTargets, WellFormed, Deletion, AddAll, PruneAll;
    var kept, news := RemapNodes(olds, n, R, S), NewLeafNodes(n, adds, taken);
    var all := kept + news;
    UpdatingFacts(trees, n, R, adds, full, gone, grown, m, S, block, tops);
    TakenApart(Places(trees, n, |adds|), adds, taken, remembered);
    AllTargets(trees, n, R, adds, full, gone, grown, m, S, block, tops, olds, taken);
    StayingTargets(grown, m, S, block, tops, all);
    AliveParts(kept, news);
    AllMoved(trees, n, R, adds, full, gone, grown, m, S, block, tops, kept, taken, remembered);
    assert multiset(moved + remembered) == multiset(moved) + multiset(remembered);
    TargetsAfter(grown, m, S, block, tops, gone, PositionsIn(all), all, sorted);
    TargetsAreValid(grown, m, S, PositionsIn(all));
  }

  lemma AliveParts(a: seq<Node<Hash>>, b: seq<Node<Hash>>)
    requires AllPresent(a + b)
    ensures AllPresent(a)
  {
    forall i | 0 <= i < |a| ensures !a[i].1.Empty? { assert (a + b)[i] == a[i]; }
  }

  lemma TargetsAreValid(trees: seq<Tree>, n: nat, rows: nat, targets: seq<nat>)
    requires LeafTargets(trees, n, rows, targets)
    ensures AllValid(targets, n, rows)
  {
    hide At, Valid;
  }

  /** The old proof at the grown slots. */
  lemma OldProofStays(trees: seq<Tree>, n: nat, R: nat, adds: seq<Hash>, full: seq<Tree>, gone: set<nat>,
                      grown: seq<Tree>, m: nat, S: nat, block: seq<nat>, tops: seq<nat>,
                      targets: seq<nat>, positions: seq<nat>, olds: seq<Node<Hash>>)
    requires |trees| == PopCount(n) && n + |adds| <= MAX_LEAVES && Fits(n, R) && Fits(m, S) && R <= S
    requires Updating(trees, n, R, adds, full, gone, grown, m, S, block, tops)
    requires LeafTargets(trees, n, R, targets) && AllValid(targets, n, R)
    requires Elements(positions) == ProofSet(targets, n, R)
    requires |olds| == |positions| && ValidNodes(olds, n, R) && Carries(olds, Current(trees, n, R))
    requires forall i :: 0 <= i < |olds| ==> olds[i].0 == positions[i]
    ensures var kept := RemapNodes(olds, n, R, S);
            && ValidNodes(kept, m, S) && AllPresent(kept) && forall i :: 0 <= i < |kept| ==> Kept(kept[i].0, tops, m, S)
    ensures forall i :: 0 <= i < |positions| ==>
            Valid(positions[i], n, R) && Valid(Regrown(positions[i], n, R, S), m, S)
  {
    hide Valid, Updating, PopCount, Moved, Elements, Overwritten, Regrown, Kept, At, LeafTargets, ProofSet, AllValid,
      Prune;
    UpdatingFacts(trees, n, R, adds, full, gone, grown, m, S, block, tops);
    forall i | 0 <= i < |positions|
      ensures Valid(positions[i], n, R) && Valid(Regrown(positions[i], n, R, S), m, S)
      ensures Kept(Regrown(positions[i], n, R, S), tops, m, S) && !olds[i].1.Empty?
    {
      ElementsAt(positions, i);
      assert olds[i].0 == positions[i];
      TargetsOccupied(trees, n, R, targets);
      ProofSlotOccupied(trees, n, R, targets, positions[i]);
      OldStays(trees, n, R, IdsOf(adds), full, gone, grown, m, S, block, tops, positions[i]);
      NotNilNotEmpty(At(trees, n, R, positions[i]));
    }
  }

  lemma NotNilNotEmpty(t: Tree)
    requires t != Nil
    ensures !Merkle(t).Empty?
  {
  }

  lemma OldTargetsStay(trees: seq<Tree>, n: nat, R: nat, adds: seq<Hash>, full: seq<Tree>, gone: set<nat>,
                       grown: seq<Tree>, m: nat, S: nat, block: seq<nat>, tops: seq<nat>, olds: seq<Node<Hash>>)
    requires |trees| == PopCount(n) && n + |adds| <= MAX_LEAVES && R <= S && |grown| == PopCount(m) && Fits(m, S)
    requires Updating(trees, n, R, adds, full, gone, grown, m, S, block, tops)
    requires ValidNodes(olds, n, R) && LeafNodes(trees, n, R, olds)
    ensures var kept := RemapNodes(olds, n, R, S);
            && ValidNodes(kept, m, S) && AllPresent(kept) && forall i :: 0 <= i < |kept| ==> Kept(kept[i].0, tops, m, S)
  {
    hide Valid, Updating, PopCount, Moved, Elements, Overwritten, Regrown, At, Kept;
    forall i | 0 <= i < |olds|
      ensures Valid(Regrown(olds[i].0, n, R, S), m, S) && Kept(Regrown(olds[i].0, n, R, S), tops, m, S)
      ensures !olds[i].1.Empty?
    {
      OldLeaf(trees, n, R, adds, full, gone, grown, m, S, block, tops, olds[i]);
    }
  }

  /** The moved old proof has what `CompleteProof` asks for. */
  lemma ProofReady(trees: seq<Tree>, n: nat, R: nat, adds: seq<Hash>, full: seq<Tree>, gone: set<nat>,
                   grown: seq<Tree>, m: nat, S: nat, block: seq<nat>, tops: seq<nat>,
                   targets: seq<nat>, kept: seq<nat>, moved: seq<nat>, positions: seq<nat>, olds: seq<Node<Hash>>,
                   withPos: seq<Node<Hash>>, needed: seq<nat>, newNodes: seq<Node<Hash>>)
    requires |trees| == PopCount(n) && n + |adds| <= MAX_LEAVES && Fits(n, R) && Fits(m, S) && R <= S
    requires Updating(trees, n, R, adds, full, gone, grown, m, S, block, tops)
    requires RegrownTargets(targets, n, R, grown, m, S, block, tops, gone, kept, moved) && AllValid(moved, m, S)
    requires LeafTargets(trees, n, R, targets) && AllValid(targets, n, R)
    requires Elements(positions) == ProofSet(targets, n, R) && Ascending(positions)
    requires |olds| == |positions| && ValidNodes(olds, n, R) && Carries(olds, Current(trees, n, R))
    requires forall i :: 0 <= i < |olds| ==> olds[i].0 == positions[i]
    requires ValidNodes(RemapNodes(olds, n, R, S), m, S)
    requires multiset(withPos) ==
             multiset(MovedNodes(RemapNodes(olds, n, R, S), Overwritten(trees, n, m, S), m, S, true))
    requires forall p :: p in needed <==> p in ProofSet(moved, m, S)
    requires forall p :: Holds(newNodes, p) <==> Lands(trees, n, m, S, p)
    ensures |AddAll(trees, n, IdsOf(adds))| == PopCount(m)
    ensures DistinctPositions(withPos) && Carries(withPos, Current(AddAll(trees, n, IdsOf(adds)), m, S))
    ensures forall i :: 0 <= i < |withPos| ==> !Holds(newNodes, withPos[i].0) && withPos[i].0 in needed
    ensures forall i :: 0 <= i < |needed| && !Holds(newNodes, needed[i]) ==> Holds(withPos, needed[i])
  {
    hide Valid, Updating, PopCount, Moved, Elements, Overwritten, Regrown, Kept, At, LeafTargets, ProofSet, AllValid,
      RegrownTargets, Lands, AddAll, MovedNodes, DistinctPositions, Holds, Carries, WellFormed, Ascending, Regrowing,
      AllPresent;
    UpdatingFacts(trees, n, R, adds, full, gone, grown, m, S, block, tops);
    OldProofStays(trees, n, R, adds, full, gone, grown, m, S, block, tops, targets, positions, olds);
    var remapped := RemapNodes(olds, n, R, S);
    MovedNodesIs(remapped, Overwritten(trees, n, m, S), m, S);
    var nodes := MovedNodes(remapped, Overwritten(trees, n, m, S), m, S, true);
    assert forall i :: 0 <= i < |remapped| ==> remapped[i] == (Regrown(positions[i], n, R, S), olds[i].1);
    ProofRegrown(trees, n, R, IdsOf(adds), full, gone, grown, m, S, block, tops, targets, kept, moved, positions, olds,
        nodes);
    PermutedProof(nodes, withPos, Current(AddAll(trees, n, IdsOf(adds)), m, S));
    forall i | 0 <= i < |withPos| ensures !Holds(newNodes, withPos[i].0) && withPos[i].0 in needed {
      var j := PermutedAt(withPos, nodes, i);
    }
  }

  lemma PermutedProof(a: seq<Node<Hash>>, b: seq<Node<Hash>>, val: nat -> Hash)
    requires multiset(a) == multiset(b) && DistinctPositions(a) && Carries(a, val)
    ensures DistinctPositions(b) && Carries(b, val) && forall p :: Holds(a, p) <==> Holds(b, p)
  {
    forall i | 0 <= i < |b| ensures b[i].1 == val(b[i].0) { var k := PermutedAt(b, a, i); }
    forall p ensures Holds(a, p) <==> Holds(b, p) {
      if Holds(a, p) {
        var i :| 0 <= i < |a| && a[i].0 == p;
        var k := PermutedAt(a, b, i);
      }
      if Holds(b, p) {
        var i :| 0 <= i < |b| && b[i].0 == p;
        var k := PermutedAt(b, a, i);
      }
    }
    forall i, j | 0 <= i < j < |b| ensures b[i].0 != b[j].0 {
      if b[i].0 == b[j].0 {
        assert b[i] == b[j];
        CountTwo(b, i, j);
        var k := PermutedAt(b, a, i);
        CountOne(a, k);
      }
    }
  }

  /** `update_proof_add`: from an honest proof and the addition data of `Stump::add`, the proof a
      prover would compute in the grown forest for the old targets and the new leaves that are found.
      No proof hash is ever missing. */
  method UpdateProofAdd(proof: Proof, adds: seq<Hash>, cachedHashes: seq<Hash>, remembers: seq<nat>,
                        newNodes: seq<Node<Hash>>, n: nat, toDestroy: seq<nat>, ghost trees: seq<Tree>)
    returns (r: Result<(Proof, seq<Hash>)>)
    requires CurrentProof(trees, n, proof, cachedHashes) && LeafKind(adds)
    requires GrowthData(trees, n, IdsOf(adds), newNodes, toDestroy)
    ensures |trees| == PopCount(n) && n + |adds| <= MAX_LEAVES
    ensures r.Ok? && CurrentProof(AddAll(trees, n, IdsOf(adds)), n + |adds|, r.value.0, r.value.1)
    ensures Ascending(r.value.0.targets)
    ensures forall h :: h in r.value.1 <==>
              h in cachedHashes
              || exists k :: k in Taken(remembers, Places(trees, n, |adds|), 0) && k < |adds| && h == adds[k]
  {
    hide Taken, CurrentProof, GrowthData, TreeRows, AddAll, WellFormed, Valid, At, Regrown, Lands, ProofSet, Sorted,
      Places, Remembered, GrownTargets, ValidNodes, LeafNodeAt, RemapNodes, Zip, AllValid, Current, Ordered,
      DestroyExact, DistinctPositions, PopCount, Holds, Ascending, Carries, MovedNodes, Overwritten, Elements,
      MasksReach, RowsRise, IsRootPosition, AllPresent, AsideAll, Updating, Setting, RegrownTargets, NewLeafNodes, Kept,
      Regrowing, LeafTargets;
    ghost var ids := IdsOf(adds);
    GrowthFacts(trees, n, ids, newNodes, toDestroy);
    var m := n + |adds|;
    ghost var R, S, after := TreeRows(n), TreeRows(m), AddAll(trees, n, ids);
    ghost var full, gone, grown, block, tops := RegrowthExists(trees, n, R, ids, m, S);
    MakeUpdating(trees, n, R, adds, full, gone, grown, m, S, block, tops);
    TargetNodesLeaves(trees, n, proof, cachedHashes);
    CurrentLeaves(trees, n, proof, cachedHashes);
    DestroyFacts(trees, n, m, S, toDestroy);
    var origTargets := Zip(proof.targets, cachedHashes);
    var proofPos := GetProofPositions(proof.targets, n, TreeRows(n));
    OldProofValid(trees, n, proof, cachedHashes, proofPos);
    SortedIs(ProofSet(proof.targets, n, R));
    var remapped := MaybeRemap(n, |adds|, origTargets);
    var proofRemapped := MaybeRemap(n, |adds|, Zip(proofPos, proof.hashes));
    OldTargetsStay(trees, n, R, adds, full, gone, grown, m, S, block, tops, origTargets);
    OldProofStays(trees, n, R, adds, full, gone, grown, m, S, block, tops, proof.targets, proofPos,
        Zip(proofPos, proof.hashes));
    AsideAllKept(trees, n, R, adds, full, gone, grown, m, S, block, tops, toDestroy, remapped);
    AsideAllKept(trees, n, R, adds, full, gone, grown, m, S, block, tops, toDestroy, proofRemapped);
    var moved := MoveOver(toDestroy, remapped, proofRemapped, m);
    var remembered := Remember(adds, remembers, newNodes, trees, n, toDestroy);
    ghost var taken := Taken(remembers, Places(trees, n, |adds|), 0);
    var sorted := SortNodes(moved.value.0 + remembered);
    TargetsDone(trees, n, R, adds, full, gone, grown, m, S, block, tops, origTargets, taken, moved.value.0, remembered,
        sorted);
    var targets := PositionsIn(sorted);
    TargetsAreValid(after, m, S, targets);
    WordPositions(sorted, m, S);
    var needed := GetProofPositions(targets, m, TreeRows(m));
    ghost var kept := PositionsIn(remapped + NewLeafNodes(n, adds, taken));
    TargetsRegrown(proof.targets, origTargets, n, R, m, S, adds, taken, remapped, grown, block, tops, gone, targets);
    NeededIs(targets, m, S, needed);
    ProofReady(trees, n, R, adds, full, gone, grown, m, S, block, tops, proof.targets, kept, targets, proofPos,
               Zip(proofPos, proof.hashes), moved.value.1, needed, newNodes);
    var newProof := CompleteProof(moved.value.1, needed, newNodes, Current(after, m, S));
    var hashes := SortNodes(newProof.value);
    SortedHashes(after, m, S, targets, newProof.value, hashes);
    MakeCurrentProof(after, m, targets, ValuesIn(hashes), ValuesIn(sorted));
    KnownHashes(n, adds, taken, cachedHashes, origTargets, remapped, sorted);
    r := Ok((Proof(targets, ValuesIn(hashes)), ValuesIn(sorted)));
    TargetsAscend(after, m, r.value.0, r.value.1, sorted);
  }

  lemma MakeUpdating(trees: seq<Tree>, n: nat, R: nat, adds: seq<Hash>, full: seq<Tree>, gone: set<nat>,
                     grown: seq<Tree>, m: nat, S: nat, block: seq<nat>, tops: seq<nat>)
    requires LeafKind(adds) && |trees| == PopCount(n) && m == n + |adds| <= MAX_LEAVES && Sound(trees, n, R)
    requires R == TreeRows(n) && S == TreeRows(m) && Fits(n, R) && Fits(m, S) && Grows(n, R, m, S)
    requires Regrowing(trees, n, R, IdsOf(adds), full, gone, grown, m, S, block, tops)
    ensures Updating(trees, n, R, adds, full, gone, grown, m, S, block, tops) && |grown| == PopCount(m)
  {
    hide Regrowing, TreeRows, WellFormed, PopCount;
    RegrowingFacts(trees, n, R, IdsOf(adds), full, gone, grown, m, S, block, tops);
  }

  lemma CurrentLeaves(trees: seq<Tree>, n: nat, proof: Proof, cached: seq<Hash>)
    requires CurrentProof(trees, n, proof, cached)
    ensures LeafTargets(trees, n, TreeRows(n), proof.targets)
  {
    hide WellFormed, TreeRows, At, Valid, HonestHashes;
  }

  lemma TargetsRegrown(targets: seq<nat>, olds: seq<Node<Hash>>, n: nat, R: nat, m: nat, S: nat, adds: seq<Hash>,
                       taken: seq<nat>, remapped: seq<Node<Hash>>, grown: seq<Tree>, block: seq<nat>, tops: seq<nat>,
                       gone: set<nat>, moved: seq<nat>)
    requires |targets| == |olds| && forall i :: 0 <= i < |olds| ==> olds[i].0 == targets[i]
    requires AllValid(targets, n, R) && ValidNodes(olds, n, R) && Grows(n, R, m, S)
    requires remapped == RemapNodes(olds, n, R, S)
    requires forall i :: 0 <= i < |taken| ==> taken[i] < |adds| && Appeared(n + taken[i], n, m, S)
    requires AllValid(PositionsIn(remapped + NewLeafNodes(n, adds, taken)), m, S) && AllValid(moved, m, S)
    requires Setting(grown, m, S, block, tops, gone, PositionsIn(remapped + NewLeafNodes(n, adds, taken)), moved)
    ensures RegrownTargets(targets, n, R, grown, m, S, block, tops, gone,
                           PositionsIn(remapped + NewLeafNodes(n, adds, taken)), moved)
  {
    hide Regrown, Existed, Valid, Setting, GrownTargets;
    var news := NewLeafNodes(n, adds, taken);
    var all := remapped + news;
    forall p ensures p in PositionsIn(all) <==> Holds(all, p) {
      if p in PositionsIn(all) {
        var i :| 0 <= i < |all| && PositionsIn(all)[i] == p;
        assert all[i].0 == p;
      }
      if Holds(all, p) {
        var i :| 0 <= i < |all| && all[i].0 == p;
        assert PositionsIn(all)[i] == p;
      }
    }
    TargetsGrown(targets, olds, n, R, m, S, news, PositionsIn(all));
  }

  lemma NeededIs(targets: seq<nat>, m: nat, S: nat, needed: seq<nat>)
    requires Fits(m, S) && AllValid(targets, m, S) && needed == Sorted(ProofSet(targets, m, S))
    ensures Ascending(needed) && forall p :: p in needed <==> p in ProofSet(targets, m, S)
  {
    hide ProofSet, Sorted, AllValid;
    SortedIs(ProofSet(targets, m, S));
    forall p ensures p in needed <==> p in ProofSet(targets, m, S) { InElements(needed, p); }
  }

  /** The hashes of the new targets are the cached ones and the remembered ones. */
  lemma KnownHashes(n: nat, adds: seq<Hash>, taken: seq<nat>, cached: seq<Hash>, zipped: seq<Node<Hash>>,
                    kept: seq<Node<Hash>>, sorted: seq<Node<Hash>>)
    requires |kept| == |zipped| == |cached| && forall i :: 0 <= i < |taken| ==> taken[i] < |adds|
    requires forall i :: 0 <= i < |cached| ==> kept[i].1 == zipped[i].1 == cached[i]
    requires forall h :: h in ValuesIn(sorted) <==> h in ValuesIn(kept + NewLeafNodes(n, adds, taken))
    ensures forall h :: h in ValuesIn(sorted) <==> h in cached || exists k :: k in taken && k < |adds| && h == adds[k]
  {
    var news := NewLeafNodes(n, adds, taken);
    ValuesConcat(kept, news);
    forall h ensures h in ValuesIn(news) <==> exists k :: k in taken && k < |adds| && h == adds[k] {
      if h in ValuesIn(news) {
        var i :| 0 <= i < |news| && ValuesIn(news)[i] == h;
        assert taken[i] in taken;
      }
      if exists k :: k in taken && k < |adds| && h == adds[k] {
        var k :| k in taken && k < |adds| && h == adds[k];
        var i :| 0 <= i < |taken| && taken[i] == k;
        assert ValuesIn(news)[i] == h;
      }
    }
    assert ValuesIn(kept) == cached;
  }

  lemma ValuesConcat<T>(a: seq<Node<T>>, b: seq<Node<T>>)
    ensures ValuesIn(a + b) == ValuesIn(a) + ValuesIn(b)
  {
  }
}
