/** The proof of a single node: the siblings on the way up to the root. */
module SingleProofs {
  import opened Bits
  import opened Positions
  import opened Forest
  import opened ProofPositions
  import opened Slots
  import opened Paths
  import opened ProofEngine

  function SiblingsUp(pos: nat, n: nat, rows: nat): (ps: seq<nat>)
    requires Fits(n, rows) && Valid(pos, n, rows)
    decreases Level(pos, n, rows)
  {
    Climb(pos, n, rows);
    if IsRootPosition(pos, n, rows) then [] else [Sibling(pos)] + SiblingsUp(Parent(pos, rows), n, rows)
  }

  lemma {:induction false} SiblingsUpMember(pos: nat, n: nat, rows: nat, q: nat)
    requires Fits(n, rows) && Valid(pos, n, rows)
    ensures q in SiblingsUp(pos, n, rows) <==>
            Sibling(q) in PathOf(pos, n, rows) && !IsRootPosition(Sibling(q), n, rows)
    ensures q in SiblingsUp(pos, n, rows) ==> Valid(q, n, rows) && RowOf(pos, rows) <= RowOf(q, rows)
    decreases Level(pos, n, rows)
  {
    hide RowOf, OffOf, IsRootPosition, Parent, Valid, Sibling, Level;
    Climb(pos, n, rows);
    SiblingInvolution(q);
    SiblingInvolution(pos);
    if !IsRootPosition(pos, n, rows) {
      SiblingsUpMember(Parent(pos, rows), n, rows, q);
      assert q in SiblingsUp(pos, n, rows) <==> q == Sibling(pos) || q in SiblingsUp(Parent(pos, rows), n, rows);
    }
  }

  lemma {:induction false} SiblingsUpAscending(pos: nat, n: nat, rows: nat)
    requires Fits(n, rows) && Valid(pos, n, rows)
    ensures Ascending(SiblingsUp(pos, n, rows)) && AllValid(SiblingsUp(pos, n, rows), n, rows)
    decreases Level(pos, n, rows)
  {
    hide RowOf, OffOf, IsRootPosition, Parent, Valid, Sibling, Level;
    Climb(pos, n, rows);
    if !IsRootPosition(pos, n, rows) {
      var rest := SiblingsUp(Parent(pos, rows), n, rows);
      SiblingsUpAscending(Parent(pos, rows), n, rows);
      forall i | 0 <= i < |rest| ensures Sibling(pos) < rest[i] {
        SiblingsUpMember(Parent(pos, rows), n, rows, rest[i]);
        Order(Sibling(pos), rest[i], n, rows);
      }
    }
  }

  lemma SiblingOffPath(pos: nat, n: nat, rows: nat, q: nat)
    requires Fits(n, rows) && Valid(pos, n, rows)
    requires Sibling(q) in PathOf(pos, n, rows) && !IsRootPosition(Sibling(q), n, rows)
    ensures q !in PathOf(pos, n, rows)
  {
    hide RowOf, OffOf, IsRootPosition, Parent, Valid, Sibling, Level, PathOf;
    SiblingInvolution(q);
    PathOfFacts(pos, n, rows, Sibling(q));
    Climb(Sibling(q), n, rows);
    if q in PathOf(pos, n, rows) { PathRows(pos, n, rows, q, Sibling(q)); }
  }

  /** For one target the needed positions are the siblings on its way up, in that order. */
  lemma SinglePositions(pos: nat, n: nat, rows: nat)
    requires Fits(n, rows) && Valid(pos, n, rows)
    ensures SiblingsUp(pos, n, rows) == Sorted(ProofSet([pos], n, rows))
  {
    hide RowOf, OffOf, IsRootPosition, Parent, Valid, Sibling, Level, PathOf, SiblingsUp, ProofSet, Path, Sorted;
    var ups := SiblingsUp(pos, n, rows);
    SiblingsUpAscending(pos, n, rows);
    forall q ensures q in Elements(ups) <==> q in ProofSet([pos], n, rows) {
      SiblingsUpMember(pos, n, rows, q);
      InElements(ups, q);
      SinglePath(pos, n, rows);
      ProofSetMember([pos], n, rows, q);
      if Sibling(q) in PathOf(pos, n, rows) && !IsRootPosition(Sibling(q), n, rows) { SiblingOffPath(pos, n, rows, q); }
    }
    assert Elements(ups) == ProofSet([pos], n, rows);
    AscendingUnique(ups, Sorted(ProofSet([pos], n, rows)));
  }

  lemma SinglePath(pos: nat, n: nat, rows: nat)
    requires Fits(n, rows) && Valid(pos, n, rows)
    ensures Path([pos], n, rows) == PathOf(pos, n, rows)
  {
    hide PathOf, Valid;
    assert [pos][1..] == [];
  }

  /** The hashes there. */
  function HashesUp(trees: seq<Tree>, n: nat, rows: nat, pos: nat): (hs: seq<Hash>)
    requires Fits(n, rows) && |trees| == PopCount(n) && Valid(pos, n, rows)
  {
    SiblingsUpAscending(pos, n, rows);
    HashesAt(trees, n, rows, SiblingsUp(pos, n, rows))
  }

  lemma HashesUpStep(trees: seq<Tree>, n: nat, rows: nat, pos: nat)
    requires Fits(n, rows) && |trees| == PopCount(n) && Valid(pos, n, rows)
    ensures IsRootPosition(pos, n, rows) ==> HashesUp(trees, n, rows, pos) == []
    ensures !IsRootPosition(pos, n, rows) ==>
              && Valid(Parent(pos, rows), n, rows) && Valid(Sibling(pos), n, rows)
              && HashesUp(trees, n, rows, pos)
                 == [Merkle(At(trees, n, rows, Sibling(pos)))] + HashesUp(trees, n, rows, Parent(pos, rows))
  {
    hide RowOf, OffOf, IsRootPosition, Parent, Valid, Sibling, Level, At, Merkle;
    Climb(pos, n, rows);
    SiblingsUpAscending(pos, n, rows);
    if !IsRootPosition(pos, n, rows) { SiblingsUpAscending(Parent(pos, rows), n, rows); }
  }

  /** What `Pollard::prove_single` returns: the target in the forest's own coordinates, and the
      honest hashes, exactly if the leaf is no root. */
  ghost predicate ProvesOne(trees: seq<Tree>, n: nat, leaf: Hash, proof: Proof) {
    var rows := TreeRows(n);
    && Fits(n, rows) && |trees| == PopCount(n) && leaf.LeafHash?
    && |proof.targets| == 1 && Valid(proof.targets[0], n, rows)
    && At(trees, n, rows, proof.targets[0]) == Tip(leaf.id)
    && var needed := Sorted(ProofSet([proof.targets[0]], n, rows));
       && AllValid(needed, n, rows)
       && (proof.hashes == HashesAt(trees, n, rows, needed) <==> !IsRootPosition(proof.targets[0], n, rows))
       && (IsRootPosition(proof.targets[0], n, rows) ==> needed == [] && proof.hashes == [leaf])
  }

  lemma OneProof(trees: seq<Tree>, n: nat, leaf: Hash, pos: U64, hashes: seq<Hash>)
    requires Fits(n, TreeRows(n)) && |trees| == PopCount(n) && leaf.LeafHash? && Valid(pos, n, TreeRows(n))
    requires At(trees, n, TreeRows(n), pos) == Tip(leaf.id)
    requires hashes == if IsRootPosition(pos, n, TreeRows(n)) then [Merkle(At(trees, n, TreeRows(n), pos))]
                       else HashesUp(trees, n, TreeRows(n), pos)
    ensures ProvesOne(trees, n, leaf, Proof([pos], hashes))
  {
    hide RowOf, OffOf, IsRootPosition, Parent, Valid, Sibling, Level, At, ProofSet, Sorted, TreeRows;
    var rows := TreeRows(n);
    SinglePositions(pos, n, rows);
    SiblingsUpAscending(pos, n, rows);
    HashesUpStep(trees, n, rows, pos);
  }
}
