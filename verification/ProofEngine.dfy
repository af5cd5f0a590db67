/** Proofs and the hashing loops that check them (src/proof/mod.rs). */
module ProofEngine {
  import opened Bits
  import opened Positions
  import opened Forest
  import opened ProofPositions
  import opened Slots
  import opened MergeLoop

  datatype Proof = Proof(targets: seq<U64>, hashes: seq<Hash>)

  datatype Error =
    | DelHashesTargetsMismatch(targets: nat, delHashes: nat)
    | MissingSibling(pos: nat)
    | MissingProofHash(pos: nat)
    | RootsMismatch

  datatype Result<+T> = Ok(value: T) | Err(error: Error)

  function Zip<A, B>(a: seq<A>, b: seq<B>): (r: seq<(A, B)>)
    ensures |r| == if |a| < |b| then |a| else |b|
    ensures forall i :: 0 <= i < |r| ==> r[i] == (a[i], b[i])
  {
    if a == [] || b == [] then [] else [(a[0], b[0])] + Zip(a[1..], b[1..])
  }

  function TranslateAll(targets: seq<U64>, fromRows: nat, toRows: nat): (r: seq<U64>)
    ensures |r| == |targets|
    ensures forall i :: 0 <= i < |r| ==> r[i] == Translate(targets[i], fromRows, toRows)
  {
    seq(|targets|, i requires 0 <= i < |targets| => Translate(targets[i], fromRows, toRows))
  }

  // ----- sorting the provided nodes -----

  function Insert<T>(x: Node<T>, s: seq<Node<T>>): seq<Node<T>> {
    if s == [] || x.0 <= s[0].0 then [x] + s else [s[0]] + Insert(x, s[1..])
  }

  lemma {:induction false} InsertKeeps<T>(x: Node<T>, s: seq<Node<T>>)
    ensures multiset(Insert(x, s)) == multiset(s) + multiset{x}
    ensures |Insert(x, s)| == |s| + 1
    ensures Ordered(s) ==> Ordered(Insert(x, s))
  {
    hide Ordered;
    if s == [] || x.0 <= s[0].0 {
      if Ordered(s) {
        if s != [] { OrderedTail(s); }
        OrderedCons(x, s);
      }
    } else {
      var t := Insert(x, s[1..]);
      InsertKeeps(x, s[1..]);
      assert s == [s[0]] + s[1..];
      if Ordered(s) {
        OrderedTail(s);
        forall i | 0 <= i < |t| ensures s[0].0 <= t[i].0 {
          assert t[i] in multiset(t);
        }
        OrderedCons(s[0], t);
      }
    }
  }

  lemma OrderedCons<T>(x: Node<T>, s: seq<Node<T>>)
    requires Ordered(s) && forall i :: 0 <= i < |s| ==> x.0 <= s[i].0
    ensures Ordered([x] + s)
  {
  }

  lemma OrderedTail<T>(s: seq<Node<T>>)
    requires Ordered(s) && s != []
    ensures Ordered(s[1..]) && forall i :: 0 <= i < |s| ==> s[0].0 <= s[i].0
  {
  }

  /** `nodes.sort()`.  Callers rely on the order of positions only, so any order among nodes of
      one position is covered. */
  method SortNodes<T>(input: seq<Node<T>>) returns (nodes: seq<Node<T>>)
    ensures multiset(nodes) == multiset(input) && Ordered(nodes)
  {
    nodes := [];
    var i := 0;
    while i < |input|
      invariant i <= |input|
      invariant multiset(nodes) == multiset(input[..i]) && Ordered(nodes)
    {
      InsertKeeps(input[i], nodes);
      assert input[..i + 1] == input[..i] + [input[i]];
      nodes := Insert(input[i], nodes);
      i := i + 1;
    }
    assert input[..i] == input;
  }

  lemma CountTwo<T>(s: seq<T>, i: nat, j: nat)
    requires i < j < |s| && s[i] == s[j]
    ensures multiset(s)[s[i]] >= 2
  {
    assert s == s[..j] + s[j..];
    assert s[..j][i] == s[i] && s[j..][0] == s[j];
    assert s[i] in multiset(s[..j]) && s[i] in multiset(s[j..]);
    assert multiset(s) == multiset(s[..j]) + multiset(s[j..]);
  }

  lemma {:induction false} CountOne<T>(s: seq<T>, i: nat)
    requires i < |s| && forall k :: 0 <= k < |s| && s[k] == s[i] ==> k == i
    ensures multiset(s)[s[i]] == 1
  {
    assert s == s[..i] + [s[i]] + s[i + 1..];
    assert multiset(s) == multiset(s[..i]) + multiset{s[i]} + multiset(s[i + 1..]);
    assert s[i] !in s[..i] && s[i] !in s[i + 1..];
  }

  lemma PermutedAt<T>(a: seq<T>, b: seq<T>, i: nat) returns (k: nat)
    requires multiset(a) == multiset(b) && i < |a|
    ensures k < |b| && b[k] == a[i]
  {
    assert a[i] in multiset(b);
    k :| 0 <= k < |b| && b[k] == a[i];
  }

  predicate DistinctPositions<T>(input: seq<Node<T>>) {
    forall i, j :: 0 <= i < j < |input| ==> input[i].0 != input[j].0
  }

  lemma SortedStrictly<T>(input: seq<Node<T>>, nodes: seq<Node<T>>, i: nat, j: nat)
    requires multiset(nodes) == multiset(input) && Ordered(nodes) && DistinctPositions(input)
    requires i < j < |nodes|
    ensures nodes[i].0 < nodes[j].0
  {
    var k := PermutedAt(nodes, input, i);
    var l := PermutedAt(nodes, input, j);
    if nodes[i].0 == nodes[j].0 {
      assert k == l;
      CountTwo(nodes, i, j);
      CountOne(input, k);
    }
  }

  /** Sorting nodes at distinct positions. */
  lemma SortedDistinct<T>(input: seq<Node<T>>, nodes: seq<Node<T>>, val: nat -> T)
    requires multiset(nodes) == multiset(input) && Ordered(nodes) && DistinctPositions(input)
    requires Carries(input, val)
    ensures StrictlyOrdered(nodes) && Carries(nodes, val)
    ensures forall p :: Holds(nodes, p) <==> Holds(input, p)
  {
    hide Ordered, DistinctPositions;
    forall i, j | 0 <= i < j < |nodes| ensures nodes[i].0 < nodes[j].0 {
      SortedStrictly(input, nodes, i, j);
    }
    forall i | 0 <= i < |nodes| ensures nodes[i].1 == val(nodes[i].0) && Holds(input, nodes[i].0) {
      var k := PermutedAt(nodes, input, i);
    }
    forall k | 0 <= k < |input| ensures Holds(nodes, input[k].0) {
      var i := PermutedAt(input, nodes, k);
    }
  }

  // ----- combining siblings -----

  /** The new hash of a parent: a deleted child leaves the other one in its place. */
  function CombineNew(l: Hash, r: Hash): Hash {
    if l.Empty? then r else if r.Empty? then l else ParentHash(l, r)
  }

  /** (old, new) hashes of a parent. */
  function CombinePair(l: (Hash, Hash), r: (Hash, Hash)): (Hash, Hash) {
    (ParentHash(l.0, r.0), CombineNew(l.1, r.1))
  }

  lemma MerkleJoin(l: Tree, r: Tree)
    ensures Merkle(Join(l, r)) == CombineNew(Merkle(l), Merkle(r))
  {
  }

  // ----- honest proofs -----

  /** The hashes of the subtrees at the given positions. */
  function HashesAt(trees: seq<Tree>, n: nat, rows: nat, ps: seq<nat>): (hs: seq<Hash>)
    requires |trees| == PopCount(n) && AllValid(ps, n, rows)
    ensures |hs| == |ps|
    ensures forall i :: 0 <= i < |ps| ==> hs[i] == Merkle(At(trees, n, rows, ps[i]))
  {
    seq(|ps|, i requires 0 <= i < |ps| => Merkle(At(trees, n, rows, ps[i])))
  }

  lemma ProofSetValid(targets: seq<nat>, n: nat, rows: nat, q: nat)
    requires Fits(n, rows) && AllValid(targets, n, rows) && q in ProofSet(targets, n, rows)
    ensures Valid(q, n, rows) && !IsRootPosition(q, n, rows) && q !in Path(targets, n, rows)
    ensures Sibling(q) in Path(targets, n, rows)
    ensures Parent(q, rows) in Path(targets, n, rows)
  {
    hide Path, IsRootPosition, Valid, Sibling, Parent;
    ProofSetMember(targets, n, rows, q);
    PathFacts(targets, n, rows, Sibling(q));
    Climb(Sibling(q), n, rows);
    SiblingInvolution(q);
  }

  lemma ProofPositionsValid(targets: seq<nat>, n: nat, rows: nat)
    requires Fits(n, rows) && AllValid(targets, n, rows)
    ensures AllValid(Sorted(ProofSet(targets, n, rows)), n, rows)
  {
    hide ProofSet;
    var ps := Sorted(ProofSet(targets, n, rows));
    forall i | 0 <= i < |ps| ensures Valid(ps[i], n, rows) {
      ElementsAt(ps, i);
      ProofSetValid(targets, n, rows, ps[i]);
    }
  }

  /** The hashes an honest prover sends for the targets. */
  function HonestHashes(trees: seq<Tree>, n: nat, rows: nat, targets: seq<nat>): seq<Hash>
    requires LeafTargets(trees, n, rows, targets)
  {
    ProofPositionsValid(targets, n, rows);
    HashesAt(trees, n, rows, Sorted(ProofSet(targets, n, rows)))
  }

  function Inner(targets: seq<nat>, n: nat, rows: nat): set<nat>
    requires Fits(n, rows) && AllValid(targets, n, rows)
  {
    Path(targets, n, rows) - Elements(targets)
  }

  function Provided(targets: seq<nat>, n: nat, rows: nat): set<nat>
    requires Fits(n, rows) && AllValid(targets, n, rows)
  {
    Elements(targets) + ProofSet(targets, n, rows)
  }

  lemma PathIsSlots(trees: seq<Tree>, n: nat, rows: nat, targets: seq<nat>, p: nat)
    requires LeafTargets(trees, n, rows, targets)
    ensures p in Provided(targets, n, rows) + Inner(targets, n, rows) <==>
            p in Path(targets, n, rows) || p in ProofSet(targets, n, rows)
  {
    hide Path, ProofSet, AllValid;
    if p in Elements(targets) {
      var i :| 0 <= i < |targets| && targets[i] == p;
      TargetOnPath(targets, n, rows, i);
    }
  }

  /** An honest input is complete for the hashing loop. */
  lemma HonestClosed(trees: seq<Tree>, n: nat, rows: nat, targets: seq<nat>)
    requires LeafTargets(trees, n, rows, targets)
    ensures Closed(Provided(targets, n, rows), Inner(targets, n, rows), n, rows)
  {
    hide Path, ProofSet, AllValid, IsRootPosition, Valid, Sibling, Parent, Provided, Inner;
    var prov, inner := Provided(targets, n, rows), Inner(targets, n, rows);
    forall p | p in prov + inner
      ensures Valid(p, n, rows)
      ensures !IsRootPosition(p, n, rows) ==> Sibling(p) in prov + inner && Parent(p, rows) in inner
    {
      PathIsSlots(trees, n, rows, targets, p);
      PathIsSlots(trees, n, rows, targets, Sibling(p));
      HonestSlot(trees, n, rows, targets, p);
    }
    forall p | p in inner
      ensures exists c :: c in prov + inner && !IsRootPosition(c, n, rows) && Parent(c, rows) == p
    {
      var c := InnerChild(trees, n, rows, targets, p);
      PathIsSlots(trees, n, rows, targets, c);
    }
    ProvidedApart(trees, n, rows, targets);
  }

  lemma ProvidedApart(trees: seq<Tree>, n: nat, rows: nat, targets: seq<nat>)
    requires LeafTargets(trees, n, rows, targets)
    ensures Provided(targets, n, rows) !! Inner(targets, n, rows)
  {
    hide Path, ProofSet;
    forall q | q in ProofSet(targets, n, rows) ensures q !in Path(targets, n, rows) {
      ProofSetMember(targets, n, rows, q);
    }
  }

  lemma HonestSlot(trees: seq<Tree>, n: nat, rows: nat, targets: seq<nat>, p: nat)
    requires LeafTargets(trees, n, rows, targets)
    requires p in Path(targets, n, rows) || p in ProofSet(targets, n, rows)
    ensures Valid(p, n, rows)
    ensures !IsRootPosition(p, n, rows) ==>
              && (Sibling(p) in Path(targets, n, rows) || Sibling(p) in ProofSet(targets, n, rows))
              && Parent(p, rows) in Inner(targets, n, rows)
  {
    hide Path, ProofSet, AllValid, IsRootPosition, Valid, Sibling, Parent;
    SiblingInvolution(p);
    if p in Path(targets, n, rows) {
      PathFacts(targets, n, rows, p);
      if !IsRootPosition(p, n, rows) {
        ProofSetMember(targets, n, rows, Sibling(p));
        ParentInner(trees, n, rows, targets, p);
      }
    } else {
      ProofSetValid(targets, n, rows, p);
      Climb(p, n, rows);
      ParentInner(trees, n, rows, targets, Sibling(p));
    }
  }

  lemma InnerChild(trees: seq<Tree>, n: nat, rows: nat, targets: seq<nat>, p: nat) returns (c: nat)
    requires LeafTargets(trees, n, rows, targets) && p in Inner(targets, n, rows)
    ensures c in Path(targets, n, rows) && !IsRootPosition(c, n, rows) && Parent(c, rows) == p
  {
    hide Path, PathOf, IsRootPosition, Valid, Parent;
    PathMember(targets, n, rows, p);
    var i :| 0 <= i < |targets| && p in PathOf(targets[i], n, rows);
    c := PathChild(targets[i], n, rows, p);
    PathMember(targets, n, rows, c);
  }

  /** Every slot the loop visits above another one holds a fork whose children are the slots
      of the pair below it. */
  lemma InnerPair(trees: seq<Tree>, n: nat, rows: nat, targets: seq<nat>, p: nat)
    requires LeafTargets(trees, n, rows, targets)
    requires p in Provided(targets, n, rows) + Inner(targets, n, rows)
    requires p % 2 == 0 && !IsRootPosition(p, n, rows)
    ensures Valid(p, n, rows) && Valid(p + 1, n, rows) && Valid(Parent(p, rows), n, rows)
    ensures At(trees, n, rows, Parent(p, rows)) == Fork(At(trees, n, rows, p), At(trees, n, rows, p + 1))
  {
    hide Path, ProofSet, AllValid, IsRootPosition, Valid, Sibling, Parent, Provided, At;
    PathIsSlots(trees, n, rows, targets, p);
    HonestSlot(trees, n, rows, targets, p);
    InnerFork(trees, n, rows, targets, Parent(p, rows));
    PairEncode(p, n, rows);
    Climb(p, n, rows);
    PairEncode(Sibling(p), n, rows);
    AtChild(trees, n, rows, p);
    AtChild(trees, n, rows, Sibling(p));
  }

  // ----- the hashing loop on honest input -----

  /** The nodes handed to the loop: the targets, then as many proof hashes as there are. */
  function InputNodes<T>(targets: seq<nat>, vals: seq<T>, positions: seq<nat>, proofVals: seq<T>): seq<Node<T>> {
    Zip(targets, vals) + Zip(positions, proofVals)
  }

  /** The roots of the trees that hold a target, smallest tree first. */
  function TouchedRoots(targets: seq<nat>, n: nat, rows: nat): (rs: seq<nat>)
    requires Fits(n, rows) && AllValid(targets, n, rows)
    ensures Ascending(rs)
    ensures forall p :: p in rs <==> p in Path(targets, n, rows) && IsRootPosition(p, n, rows)
  {
    hide Path, IsRootPosition, AllValid;
    var s := set p | p in Path(targets, n, rows) && IsRootPosition(p, n, rows);
    var rs := Sorted(s);
    assert forall p :: p in rs <==> p in Elements(rs);
    rs
  }

  lemma InputAt<T>(targets: seq<nat>, vals: seq<T>, ps: seq<nat>, proofVals: seq<T>, k: nat)
    requires |vals| == |targets| && |proofVals| == |ps| && k < |targets| + |ps|
    ensures var input := InputNodes(targets, vals, ps, proofVals);
            |input| == |targets| + |ps|
            && input[k] == if k < |targets| then (targets[k], vals[k])
                else (ps[k - |targets|], proofVals[k - |targets|])
  {
  }

  lemma InputHolds<T>(targets: seq<nat>, vals: seq<T>, ps: seq<nat>, proofVals: seq<T>, p: nat)
    requires |vals| == |targets| && |proofVals| == |ps|
    ensures p in Elements(targets) + Elements(ps) <==> Holds(InputNodes(targets, vals, ps, proofVals), p)
  {
    hide InputNodes;
    var input := InputNodes(targets, vals, ps, proofVals);
    InputLength(targets, vals, ps, proofVals);
    if p in Elements(targets) {
      var i :| 0 <= i < |targets| && targets[i] == p;
      InputAt(targets, vals, ps, proofVals, i);
    }
    if p in Elements(ps) {
      var i :| 0 <= i < |ps| && ps[i] == p;
      InputAt(targets, vals, ps, proofVals, |targets| + i);
    }
    if Holds(input, p) {
      var k :| 0 <= k < |input| && input[k].0 == p;
      InputAt(targets, vals, ps, proofVals, k);
    }
  }

  lemma InputLength<T>(targets: seq<nat>, vals: seq<T>, ps: seq<nat>, proofVals: seq<T>)
    requires |vals| == |targets| && |proofVals| == |ps|
    ensures |InputNodes(targets, vals, ps, proofVals)| == |targets| + |ps|
  {
  }

  lemma InputDistinct<T>(targets: seq<nat>, vals: seq<T>, ps: seq<nat>, proofVals: seq<T>)
    requires |vals| == |targets| && |proofVals| == |ps|
    requires forall i, j :: 0 <= i < j < |targets| ==> targets[i] != targets[j]
    requires Ascending(ps) && Elements(targets) !! Elements(ps)
    ensures DistinctPositions(InputNodes(targets, vals, ps, proofVals))
  {
    hide InputNodes;
    var input := InputNodes(targets, vals, ps, proofVals);
    InputLength(targets, vals, ps, proofVals);
    forall i, j | 0 <= i < j < |input| ensures input[i].0 != input[j].0 {
      InputAt(targets, vals, ps, proofVals, i);
      InputAt(targets, vals, ps, proofVals, j);
      if i < |targets| <= j {
        ElementsAt(targets, i);
        ElementsAt(ps, j - |targets|);
      }
    }
  }

  lemma InputPositions<T>(trees: seq<Tree>, n: nat, rows: nat, targets: seq<nat>, vals: seq<T>, proofVals: seq<T>)
    requires LeafTargets(trees, n, rows, targets) && |vals| == |targets|
    requires |proofVals| == |Sorted(ProofSet(targets, n, rows))|
    ensures var input := InputNodes(targets, vals, Sorted(ProofSet(targets, n, rows)), proofVals);
            DistinctPositions(input) && forall p: nat :: p in Provided(targets, n, rows) <==> Holds(input, p)
  {
    hide ProofSet, Path, At, InputNodes, Elements;
    var ps := Sorted(ProofSet(targets, n, rows));
    forall q | q in Elements(targets) ensures q !in ProofSet(targets, n, rows) {
      TargetElement(targets, n, rows, q);
      ProofSetMember(targets, n, rows, q);
    }
    InputDistinct(targets, vals, ps, proofVals);
    forall p: nat ensures p in Provided(targets, n, rows) <==> Holds(InputNodes(targets, vals, ps, proofVals), p) {
      InputHolds(targets, vals, ps, proofVals, p);
    }
  }

  lemma TargetElement(targets: seq<nat>, n: nat, rows: nat, q: nat)
    requires Fits(n, rows) && AllValid(targets, n, rows) && q in Elements(targets)
    ensures q in Path(targets, n, rows)
  {
    hide Path;
    var i :| 0 <= i < |targets| && targets[i] == q;
    TargetOnPath(targets, n, rows, i);
  }

  /** On an honest input the loop runs to its end, hands out the touched roots in ascending
      order, and computes every path node above the targets. */
  lemma HonestMerge<T>(trees: seq<Tree>, n: nat, rows: nat, targets: seq<nat>, vals: seq<T>, proofVals: seq<T>,
                       nodes: seq<Node<T>>, val: nat -> T, combine: (T, T) -> T)
    returns (final: seq<Node<T>>)
    requires LeafTargets(trees, n, rows, targets) && |vals| == |targets|
    requires |proofVals| == |Sorted(ProofSet(targets, n, rows))|
    requires var input := InputNodes(targets, vals, Sorted(ProofSet(targets, n, rows)), proofVals);
             Carries(input, val) && multiset(nodes) == multiset(input) && Ordered(nodes)
    requires Consistent(Provided(targets, n, rows), Inner(targets, n, rows), n, rows, val, combine)
    ensures Merge(nodes, [], 0, 0, [], n, rows, combine) == Finished(final, Vals(TouchedRoots(targets, n, rows), val))
    ensures StrictlyOrdered(nodes) && Carries(nodes, val)
    ensures StrictlyOrdered(final) && Carries(final, val)
    ensures forall p: nat :: p in Provided(targets, n, rows) <==> Holds(nodes, p)
    ensures forall p: nat :: p in Inner(targets, n, rows) <==> Holds(final, p)
  {
    hide ProofSet, Path, AllValid, At, Provided, Inner, InputNodes, IsRootPosition, Closed, Consistent;
    var prov, inner := Provided(targets, n, rows), Inner(targets, n, rows);
    var input := InputNodes(targets, vals, Sorted(ProofSet(targets, n, rows)), proofVals);
    InputPositions(trees, n, rows, targets, vals, proofVals);
    SortedDistinct(input, nodes, val);
    HonestClosed(trees, n, rows, targets);
    MergeStart(nodes, prov, inner, n, rows, val);
    var rs: seq<nat>;
    final, rs := MergeCompletes(nodes, [], 0, 0, [], -1, prov, inner, n, rows, val, combine, []);
    forall p ensures p in Elements(rs) <==> p in Elements(TouchedRoots(targets, n, rows)) {
      PathIsSlots(trees, n, rows, targets, p);
      if p in ProofSet(targets, n, rows) { ProofSetValid(targets, n, rows, p); }
      assert p in rs <==> p in Elements(rs);
    }
    AscendingUnique(rs, TouchedRoots(targets, n, rows));
  }

  lemma MergeStart<T>(nodes: seq<Node<T>>, prov: set<nat>, inner: set<nat>, n: nat, rows: nat, val: nat -> T)
    requires Fits(n, rows)
    requires StrictlyOrdered(nodes) && Carries(nodes, val)
    requires forall p: nat :: p in prov <==> Holds(nodes, p)
    ensures Progress(nodes, [], 0, 0, -1, -1, prov, inner, n, rows, val)
    ensures Boundary(-1, prov, inner, n, rows) && RootsUpTo([], -1, prov, inner, n, rows)
    ensures Vals([], val) == []
  {
    hide IsRootPosition, Sibling;
  }

  // ----- calculate_hashes -----

  function CheckMerge<T, U>(outcome: Outcome<T>, finish: (seq<Node<T>>, seq<T>) -> U): Result<U> {
    match outcome
    case Stuck(pos) => Err(MissingSibling(pos))
    case Finished(computed, roots) => Ok(finish(computed, roots))
  }

  /** Current hash of every slot. */
  function Current(trees: seq<Tree>, n: nat, rows: nat): nat -> Hash
    requires |trees| == PopCount(n)
  {
    (p: nat) => if Valid(p, n, rows) then Merkle(At(trees, n, rows, p)) else Empty
  }

  /** Hash of every slot before and after the deletion of `gone`. */
  function OldNew(trees: seq<Tree>, n: nat, rows: nat, gone: set<nat>): nat -> (Hash, Hash)
    requires |trees| == PopCount(n)
  {
    (p: nat) => if Valid(p, n, rows)
      then (Merkle(At(trees, n, rows, p)), Merkle(Prune(At(trees, n, rows, p), gone)))
      else (Empty, Empty)
  }

  lemma CurrentConsistent(trees: seq<Tree>, n: nat, rows: nat, targets: seq<nat>)
    requires LeafTargets(trees, n, rows, targets)
    ensures Consistent(Provided(targets, n, rows), Inner(targets, n, rows), n, rows, Current(trees, n, rows),
            ParentHash)
  {
    hide IsRootPosition, Provided, Inner, At, Valid;
    forall p | p in Provided(targets, n, rows) + Inner(targets, n, rows) && p % 2 == 0 && !IsRootPosition(p, n, rows)
      ensures Current(trees, n, rows)(Parent(p, rows)) ==
              ParentHash(Current(trees, n, rows)(p), Current(trees, n, rows)(p + 1))
    {
      InnerPair(trees, n, rows, targets, p);
    }
  }

  lemma MerkleFork(l: Tree, r: Tree, gone: set<nat>)
    ensures (Merkle(Fork(l, r)), Merkle(Prune(Fork(l, r), gone))) ==
            CombinePair((Merkle(l), Merkle(Prune(l, gone))), (Merkle(r), Merkle(Prune(r, gone))))
  {
    MerkleJoin(Prune(l, gone), Prune(r, gone));
  }

  lemma OldNewConsistent(trees: seq<Tree>, n: nat, rows: nat, targets: seq<nat>, gone: set<nat>)
    requires LeafTargets(trees, n, rows, targets)
    ensures Consistent(Provided(targets, n, rows), Inner(targets, n, rows), n, rows,
                       OldNew(trees, n, rows, gone), CombinePair)
  {
    hide IsRootPosition, Provided, Inner, At, Valid, Join, Prune, Merkle, Parent;
    var val := OldNew(trees, n, rows, gone);
    forall p | p in Provided(targets, n, rows) + Inner(targets, n, rows) && p % 2 == 0 && !IsRootPosition(p, n, rows)
      ensures val(Parent(p, rows)) == CombinePair(val(p), val(p + 1))
    {
      InnerPair(trees, n, rows, targets, p);
      MerkleFork(At(trees, n, rows, p), At(trees, n, rows, p + 1), gone);
    }
  }

  /** Where nothing is deleted the hash stays. */
  lemma OffPathUnchanged(trees: seq<Tree>, n: nat, rows: nat, targets: seq<nat>, q: nat)
    requires Sound(trees, n, rows) && LeafTargets(trees, n, rows, targets)
    requires Valid(q, n, rows) && q !in Path(targets, n, rows)
    ensures Prune(At(trees, n, rows, q), Elements(TargetIds(trees, n, rows, targets))) == At(trees, n, rows, q)
  {
    hide Path, At, Valid, WellFormed;
    var ids := TargetIds(trees, n, rows, targets);
    AtProper(trees, n, rows, q);
    forall x | x in Elements(ids) ensures x !in Ids(At(trees, n, rows, q)) {
      var i :| 0 <= i < |ids| && ids[i] == x;
      OffPath(trees, n, rows, targets, q, i);
    }
    PruneNothing(At(trees, n, rows, q), Elements(ids));
  }

  /** What the caller sends for honest deletion: the leaf hashes, each to become empty. */
  predicate DeletesTargets(trees: seq<Tree>, n: nat, rows: nat, targets: seq<nat>, delHashes: seq<(Hash, Hash)>)
    requires LeafTargets(trees, n, rows, targets)
  {
    && |delHashes| == |targets|
    && forall i :: 0 <= i < |targets| ==>
         delHashes[i] == (LeafHash(TargetIds(trees, n, rows, targets)[i]), Empty)
  }

  function Doubles(hs: seq<Hash>): (r: seq<(Hash, Hash)>)
    ensures |r| == |hs| && forall i :: 0 <= i < |hs| ==> r[i] == (hs[i], hs[i])
  {
    seq(|hs|, i requires 0 <= i < |hs| => (hs[i], hs[i]))
  }

  lemma DeleteInputCarries(trees: seq<Tree>, n: nat, rows: nat, targets: seq<nat>, delHashes: seq<(Hash, Hash)>)
    requires Sound(trees, n, rows) && LeafTargets(trees, n, rows, targets)
    requires DeletesTargets(trees, n, rows, targets, delHashes)
    ensures Carries(InputNodes(targets, delHashes, Sorted(ProofSet(targets, n, rows)),
                               Doubles(HonestHashes(trees, n, rows, targets))),
                    OldNew(trees, n, rows, Elements(TargetIds(trees, n, rows, targets))))
  {
    hide At, ProofSet, InputNodes, WellFormed;
    var ids := TargetIds(trees, n, rows, targets);
    var val := OldNew(trees, n, rows, Elements(ids));
    var ps := Sorted(ProofSet(targets, n, rows));
    ProofPositionsValid(targets, n, rows);
    var doubles := Doubles(HonestHashes(trees, n, rows, targets));
    InputLength(targets, delHashes, ps, doubles);
    forall k | 0 <= k < |targets| + |ps|
      ensures var node := InputNodes(targets, delHashes, ps, doubles)[k]; node.1 == val(node.0)
    {
      InputAt(targets, delHashes, ps, doubles, k);
      if k < |targets| {
        ElementsAt(ids, k);
      } else {
        ElementsAt(ps, k - |targets|);
        ProofSetValid(targets, n, rows, ps[k - |targets|]);
        OffPathUnchanged(trees, n, rows, targets, ps[k - |targets|]);
      }
    }
  }

  function NewHashes(nodes: seq<Node<(Hash, Hash)>>): (r: seq<Node<Hash>>)
    ensures |r| == |nodes| && forall i :: 0 <= i < |r| ==> r[i] == (nodes[i].0, nodes[i].1.1)
  {
    seq(|nodes|, i requires 0 <= i < |nodes| => (nodes[i].0, nodes[i].1.1))
  }

  /** `calculate_hashes_delete`: recomputes the touched roots before and after the deletion.
      `positions` and `nodes` show the proof positions and the sorted nodes the loop ran on. */
  method CalculateHashesDelete(proof: Proof, delHashes: seq<(Hash, Hash)>, n: nat)
    returns (r: Result<(seq<Node<Hash>>, seq<(Hash, Hash)>)>,
             ghost positions: seq<nat>, ghost nodes: seq<Node<(Hash, Hash)>>)
    requires n <= MAX_LEAVES
    ensures |proof.targets| != |delHashes| ==>
              r == Err(DelHashesTargetsMismatch(|proof.targets|, |delHashes|))
    ensures |proof.targets| == |delHashes| ==>
              var rows := TreeRows(n);
              var translated := TranslateAll(proof.targets, MAX_FOREST_ROWS, rows);
              && (AllValid(translated, n, rows) ==>
                    Fits(n, rows) && positions == Sorted(ProofSet(translated, n, rows)))
              && multiset(nodes) == multiset(InputNodes(translated, delHashes, positions, Doubles(proof.hashes)))
              && Ordered(nodes)
              && rows < 62
              && r == CheckMerge(Merge(nodes, [], 0, 0, [], n, rows, CombinePair),
                                 (computed, roots) => (NewHashes(nodes + computed), roots))
  {
    hide ProofSet, AllValid, Fits, Merge, IsRootPosition, Parent, Or, GetNext, InputNodes, Doubles, TranslateAll,
      Sorted, TreeRows, Ordered;
    positions, nodes := [], [];
    if |proof.targets| != |delHashes| {
      return Err(DelHashesTargetsMismatch(|proof.targets|, |delHashes|)), positions, nodes;
    }
    TreeRowsFit(n);
    var rows := TreeRows(n);
    var translated := TranslateAll(proof.targets, MAX_FOREST_ROWS, rows);
    var proofPositions := GetProofPositions(translated, n, rows);
    var sorted := SortNodes(InputNodes(translated, delHashes, proofPositions, Doubles(proof.hashes)));
    positions, nodes := proofPositions, sorted;
    var computed: seq<Node<(Hash, Hash)>> := [];
    var calculatedRoots: seq<(Hash, Hash)> := [];
    var computedIndex: nat, providedIndex: nat := 0, 0;
    ghost var outcome := Merge(sorted, [], 0, 0, [], n, rows, CombinePair);
    var next := GetNext(computed, sorted, computedIndex, providedIndex);
    while next.Popped?
      invariant computedIndex <= |computed| && providedIndex <= |sorted|
      invariant next == GetNext(computed, sorted, computedIndex, providedIndex)
      invariant outcome == Merge(sorted, computed, computedIndex, providedIndex, calculatedRoots, n, rows, CombinePair)
      decreases |sorted| - providedIndex + |computed| - computedIndex
    {
      var (nextPos, nextHash) := next.node;
      MergeUnfold(sorted, computed, computedIndex, providedIndex, calculatedRoots, n, rows, CombinePair);
      computedIndex, providedIndex := next.computedIndex, next.providedIndex;
      if IsRootPosition(nextPos, n, rows) {
        calculatedRoots := calculatedRoots + [nextHash];
      } else {
        var second := GetNext(computed, sorted, computedIndex, providedIndex);
        if second.Exhausted? || second.node.0 != Or(nextPos, 1) {
          return Err(MissingSibling(nextPos)), positions, nodes;
        }
        var siblingHash := second.node.1;
        computedIndex, providedIndex := second.computedIndex, second.providedIndex;
        var parentHash := match (nextHash.1.Empty?, siblingHash.1.Empty?)
          case (true, true) => Empty
          case (true, false) => siblingHash.1
          case (false, true) => nextHash.1
          case (false, false) => ParentHash(nextHash.1, siblingHash.1);
        var oldParentHash := ParentHash(nextHash.0, siblingHash.0);
        computed := computed + [(Parent(nextPos, rows), (oldParentHash, parentHash))];
      }
      next := GetNext(computed, sorted, computedIndex, providedIndex);
    }
    MergeUnfold(sorted, computed, computedIndex, providedIndex, calculatedRoots, n, rows, CombinePair);
    return Ok((NewHashes(sorted + computed), calculatedRoots)), positions, nodes;
  }

  // ----- honest proofs, put together -----

  /** The proof commits to the leaves at `targets` the way a prover computes it; its own targets
      may be given in either coordinate system. */
  predicate HonestProof(trees: seq<Tree>, n: nat, targets: seq<nat>, proof: Proof) {
    var rows := TreeRows(n);
    && Sound(trees, n, rows)
    && LeafTargets(trees, n, rows, targets)
    && TranslateAll(proof.targets, MAX_FOREST_ROWS, rows) == targets
    && proof.hashes == HonestHashes(trees, n, rows, targets)
  }

  /** The nodes are exactly the root paths of the targets with their siblings, each with the hash
      of what survives below it. */
  ghost predicate SurvivingNodes(trees: seq<Tree>, n: nat, targets: seq<nat>, gone: set<nat>, nodes: seq<Node<Hash>>)
    requires |trees| == PopCount(n) && Fits(n, TreeRows(n)) && AllValid(targets, n, TreeRows(n))
  {
    var rows := TreeRows(n);
    && DistinctPositions(nodes)
    && (forall p :: Holds(nodes, p) <==> p in Path(targets, n, rows) || p in ProofSet(targets, n, rows))
    && (forall i :: 0 <= i < |nodes| ==>
          Valid(nodes[i].0, n, rows) && nodes[i].1 == Merkle(Prune(At(trees, n, rows, nodes[i].0), gone)))
  }

  /** The given nodes come first, then those computed from them, and both parts go upwards. */
  ghost predicate GivenFirst(nodes: seq<Node<Hash>>, targets: seq<nat>, n: nat, rows: nat)
    requires Fits(n, rows) && AllValid(targets, n, rows)
  {
    exists k :: 0 <= k <= |nodes| && StrictlyOrdered(nodes[..k]) && StrictlyOrdered(nodes[k..])
                && forall p :: Holds(nodes[..k], p) <==> p in Provided(targets, n, rows)
  }

  lemma GivenParts(nodes: seq<Node<(Hash, Hash)>>, computed: seq<Node<(Hash, Hash)>>, targets: seq<nat>, n: nat,
                   rows: nat)
    requires Fits(n, rows) && AllValid(targets, n, rows) && StrictlyOrdered(nodes) && StrictlyOrdered(computed)
    requires forall p: nat :: p in Provided(targets, n, rows) <==> Holds(nodes, p)
    ensures GivenFirst(NewHashes(nodes + computed), targets, n, rows)
  {
    hide Provided;
    var all, k := NewHashes(nodes + computed), |nodes|;
    assert all[..k] == NewHashes(nodes) && all[k..] == NewHashes(computed);
    NewHashesKeep(nodes);
  }

  /** The roots of a deletion: hashes of the touched trees before and after, smallest tree first. */
  predicate TouchedPairs(trees: seq<Tree>, n: nat, targets: seq<nat>, gone: set<nat>, pairs: seq<(Hash, Hash)>)
    requires |trees| == PopCount(n) && Fits(n, TreeRows(n)) && AllValid(targets, n, TreeRows(n))
  {
    var rows := TreeRows(n);
    pairs == Vals(TouchedRoots(targets, n, rows), OldNew(trees, n, rows, gone))
  }

  /** Honest deletions go through: the loop never misses a sibling, returns the touched roots from
      the smallest tree up, and reports the surviving hash at every slot it visits. */
  lemma HonestDelete(trees: seq<Tree>, n: nat, targets: seq<nat>, proof: Proof, delHashes: seq<(Hash, Hash)>,
                     nodes: seq<Node<(Hash, Hash)>>)
    returns (computed: seq<Node<(Hash, Hash)>>, pairs: seq<(Hash, Hash)>)
    requires HonestProof(trees, n, targets, proof)
    requires DeletesTargets(trees, n, TreeRows(n), targets, delHashes)
    requires multiset(nodes) == multiset(InputNodes(targets, delHashes, Sorted(ProofSet(targets, n, TreeRows(n))),
                                                    Doubles(proof.hashes)))
    requires Ordered(nodes)
    ensures Merge(nodes, [], 0, 0, [], n, TreeRows(n), CombinePair) == Finished(computed, pairs)
    ensures TouchedPairs(trees, n, targets, Elements(TargetIds(trees, n, TreeRows(n), targets)), pairs)
    ensures SurvivingNodes(trees, n, targets, Elements(TargetIds(trees, n, TreeRows(n), targets)),
                           NewHashes(nodes + computed))
    ensures GivenFirst(NewHashes(nodes + computed), targets, n, TreeRows(n))
  {
    hide ProofSet, Path, AllValid, At, Provided, Inner, InputNodes, IsRootPosition, WellFormed, TreeRows, Merge, Valid,
      Prune, GivenFirst;
    var rows := TreeRows(n);
    var gone := Elements(TargetIds(trees, n, rows, targets));
    var val := OldNew(trees, n, rows, gone);
    DeleteInputCarries(trees, n, rows, targets, delHashes);
    OldNewConsistent(trees, n, rows, targets, gone);
    ProofPositionsValid(targets, n, rows);
    computed := HonestMerge(trees, n, rows, targets, delHashes, Doubles(proof.hashes), nodes, val, CombinePair);
    pairs := Vals(TouchedRoots(targets, n, rows), val);
    VisitedNodes(trees, n, rows, targets, nodes, computed, val);
    GivenParts(nodes, computed, targets, n, rows);
    NewHashesKeep(nodes + computed);
    forall i | 0 <= i < |nodes + computed|
      ensures Valid((nodes + computed)[i].0, n, rows)
    {
      var p := (nodes + computed)[i].0;
      assert Holds(nodes + computed, p);
      HonestSlot(trees, n, rows, targets, p);
    }
  }

  lemma NewHashesKeep(nodes: seq<Node<(Hash, Hash)>>)
    ensures DistinctPositions(nodes) ==> DistinctPositions(NewHashes(nodes))
    ensures forall p :: Holds(NewHashes(nodes), p) <==> Holds(nodes, p)
  {
    forall p ensures Holds(NewHashes(nodes), p) <==> Holds(nodes, p) {
      if Holds(nodes, p) {
        var i :| 0 <= i < |nodes| && nodes[i].0 == p;
        assert NewHashes(nodes)[i].0 == p;
      }
    }
  }

  /** The provided and computed nodes together are the visited slots. */
  lemma VisitedNodes<T>(trees: seq<Tree>, n: nat, rows: nat, targets: seq<nat>,
                        nodes: seq<Node<T>>, computed: seq<Node<T>>, val: nat -> T)
    requires LeafTargets(trees, n, rows, targets)
    requires StrictlyOrdered(nodes) && Carries(nodes, val) && StrictlyOrdered(computed) && Carries(computed, val)
    requires forall p: nat :: p in Provided(targets, n, rows) <==> Holds(nodes, p)
    requires forall p: nat :: p in Inner(targets, n, rows) <==> Holds(computed, p)
    ensures DistinctPositions(nodes + computed) && Carries(nodes + computed, val)
    ensures forall p :: Holds(nodes + computed, p) <==>
                        p in Path(targets, n, rows) || p in ProofSet(targets, n, rows)
  {
    hide ProofSet, Path, At, Provided, Inner, IsRootPosition;
    var all := nodes + computed;
    ProvidedApart(trees, n, rows, targets);
    forall i, j | 0 <= i < j < |all| ensures all[i].0 != all[j].0 {
      if i < |nodes| <= j {
        assert Holds(nodes, all[i].0) && Holds(computed, computed[j - |nodes|].0);
      }
    }
    forall p ensures Holds(all, p) <==> p in Path(targets, n, rows) || p in ProofSet(targets, n, rows) {
      PathIsSlots(trees, n, rows, targets, p);
      HoldsConcat(nodes, computed, p);
    }
  }

  lemma HoldsConcat<T>(a: seq<Node<T>>, b: seq<Node<T>>, p: nat)
    ensures Holds(a + b, p) <==> Holds(a, p) || Holds(b, p)
  {
    if Holds(a, p) {
      var i :| 0 <= i < |a| && a[i].0 == p;
      assert (a + b)[i].0 == p;
    }
    if Holds(b, p) {
      var i :| 0 <= i < |b| && b[i].0 == p;
      assert (a + b)[|a| + i].0 == p;
    }
  }
}
