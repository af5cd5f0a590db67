/** Slots and root paths when a forest without empty roots grows. */
module GrownPaths {
  import opened Bits
  import opened Positions
  import opened Forest
  import opened ProofPositions
  import opened Slots
  import opened Paths
  import opened ProofEngine
  import opened Growth
  import opened Landings

  /** A forest of n leaves in R rows grows to m leaves in S rows. */
  predicate Grows(n: nat, R: nat, m: nat, S: nat) {
    n <= m && R <= S && Fits(n, R) && Fits(m, S)
  }

  lemma RowsGrow(n: nat, m: nat)
    requires n <= m <= MAX_LEAVES
    ensures Grows(n, TreeRows(n), m, TreeRows(m))
  {
    hide Pow2;
    TreeRowsFit(n);
    TreeRowsFit(m);
    TreeRowsBounds(n);
    TreeRowsBounds(m);
    if n >= 2 && TreeRows(n) > TreeRows(m) { Pow2Monotone(TreeRows(m), TreeRows(n) - 1); }
    if n < 2 { RowsOfOne(n); }
  }

  lemma RowsOfOne(n: nat)
    requires n < 2
    ensures TreeRows(n) == 0
  {
  }

  /** The position of the same slot in the grown forest. */
  function Regrown(p: nat, n: nat, R: nat, S: nat): nat
    requires Valid(p, n, R) && R <= S
  {
    Encode(RowOf(p, R), OffOf(p, R), S)
  }

  lemma RegrownSlot(p: nat, n: nat, R: nat, m: nat, S: nat)
    requires Grows(n, R, m, S) && Valid(p, n, R)
    ensures var q := Regrown(p, n, R, S);
            Valid(q, m, S) && RowOf(q, S) == RowOf(p, R) && OffOf(q, S) == OffOf(p, R)
  {
    hide RowOf, OffOf, Encode, Shr, Pow2;
    ShrMonotone(n, m, RowOf(p, R));
    ValidEncode(RowOf(p, R), OffOf(p, R), m, S);
  }

  /** The slot already existed. */
  predicate Existed(q: nat, n: nat, m: nat, S: nat)
    requires Valid(q, m, S)
  {
    OffOf(q, S) < Shr(n, RowOf(q, S))
  }

  /** A slot of the grown forest that did not exist before. */
  predicate Appeared(q: nat, n: nat, m: nat, S: nat) {
    Valid(q, m, S) && !Existed(q, n, m, S)
  }

  /** The position of an existing slot before the growth. */
  lemma Before(q: nat, n: nat, R: nat, m: nat, S: nat) returns (p: nat)
    requires Grows(n, R, m, S) && Valid(q, m, S) && Existed(q, n, m, S)
    ensures Valid(p, n, R) && Regrown(p, n, R, S) == q
  {
    hide RowOf, OffOf, Encode, Shr, Pow2;
    ValidEncode(RowOf(q, S), OffOf(q, S), n, R);
    Decode(q, m, S);
    p := Encode(RowOf(q, S), OffOf(q, S), R);
  }

  lemma RegrownExisted(p: nat, n: nat, R: nat, m: nat, S: nat)
    requires Grows(n, R, m, S) && Valid(p, n, R)
    ensures Valid(Regrown(p, n, R, S), m, S) && Existed(Regrown(p, n, R, S), n, m, S)
  {
    hide RowOf, OffOf, Regrown;
    RegrownSlot(p, n, R, m, S);
  }

  lemma RegrownInjective(p: nat, q: nat, n: nat, R: nat, m: nat, S: nat)
    requires Grows(n, R, m, S) && Valid(p, n, R) && Valid(q, n, R) && Regrown(p, n, R, S) == Regrown(q, n, R, S)
    ensures p == q
  {
    hide RowOf, OffOf, Regrown;
    RegrownSlot(p, n, R, m, S);
    RegrownSlot(q, n, R, m, S);
    Order(p, q, n, R);
  }

  /** What is no root stays none, and parents and siblings stay what they are. */
  lemma RegrownUp(p: nat, n: nat, R: nat, m: nat, S: nat)
    requires Grows(n, R, m, S) && Valid(p, n, R) && !IsRootPosition(p, n, R)
    ensures Valid(Parent(p, R), n, R) && Valid(Sibling(p), n, R)
    ensures var q := Regrown(p, n, R, S);
            && Valid(q, m, S) && !IsRootPosition(q, m, S)
            && Parent(q, S) == Regrown(Parent(p, R), n, R, S) && Sibling(q) == Regrown(Sibling(p), n, R, S)
  {
    hide RowOf, OffOf, Encode, Shr, Pow2, Parent, Sibling, IsRootPosition, Level, Regrown;
    Climb(p, n, R);
    RegrownSlot(p, n, R, m, S);
    var q := Regrown(p, n, R, S);
    Climb(q, m, S);
    ShrMonotone(n, m, RowOf(p, R));
    RegrownSlot(Parent(p, R), n, R, m, S);
    RegrownSlot(Sibling(p), n, R, m, S);
    Order(Parent(q, S), Regrown(Parent(p, R), n, R, S), m, S);
    Order(Sibling(q), Regrown(Sibling(p), n, R, S), m, S);
  }

  lemma {:induction false} RegrownPath(p: nat, a: nat, n: nat, R: nat, m: nat, S: nat)
    requires Grows(n, R, m, S) && Valid(p, n, R) && a in PathOf(p, n, R)
    ensures Valid(a, n, R) && Valid(Regrown(p, n, R, S), m, S)
    ensures Regrown(a, n, R, S) in PathOf(Regrown(p, n, R, S), m, S)
    decreases Level(p, n, R)
  {
    hide RowOf, OffOf, Parent, Sibling, IsRootPosition, Level, Regrown, Valid, PathOf;
    PathOfFacts(p, n, R, a);
    RegrownExisted(p, n, R, m, S);
    SelfPath(Regrown(p, n, R, S), m, S);
    if a != p {
      if IsRootPosition(p, n, R) { RootPath(p, n, R); }
      ParentPath(p, n, R);
      Climb(p, n, R);
      RegrownUp(p, n, R, m, S);
      ParentPath(Regrown(p, n, R, S), m, S);
      RegrownPath(Parent(p, R), a, n, R, m, S);
    }
  }

  /** Above a new slot everything is new. */
  lemma {:induction false} NewAbove(q: nat, b: nat, n: nat, m: nat, S: nat)
    requires Fits(m, S) && Valid(q, m, S) && !Existed(q, n, m, S) && b in PathOf(q, m, S)
    ensures Valid(b, m, S) && !Existed(b, n, m, S)
    decreases Level(q, m, S)
  {
    hide RowOf, OffOf, Parent, Sibling, IsRootPosition, Level, PathOf;
    PathOfFacts(q, m, S, b);
    if b != q {
      if IsRootPosition(q, m, S) { RootPath(q, m, S); }
      ParentPath(q, m, S);
      Climb(q, m, S);
      ShrStep(n, RowOf(q, S));
      NewAbove(Parent(q, S), b, n, m, S);
    }
  }

  /** The part of a grown path that existed is the old path. */
  lemma {:induction false} RegrownPathBack(p: nat, b: nat, n: nat, R: nat, m: nat, S: nat) returns (a: nat)
    requires Grows(n, R, m, S) && Valid(p, n, R) && Valid(Regrown(p, n, R, S), m, S)
    requires b in PathOf(Regrown(p, n, R, S), m, S) && Valid(b, m, S) && Existed(b, n, m, S)
    ensures a in PathOf(p, n, R) && Valid(a, n, R) && Regrown(a, n, R, S) == b
    decreases Level(p, n, R)
  {
    hide RowOf, OffOf, Parent, Sibling, IsRootPosition, Level, Regrown, Valid, PathOf, Existed;
    SelfPath(p, n, R);
    var q := Regrown(p, n, R, S);
    if b == q {
      a := p;
    } else {
      if IsRootPosition(q, m, S) { RootPath(q, m, S); }
      ParentPath(q, m, S);
      if IsRootPosition(p, n, R) {
        OldRootAbove(p, n, R, m, S);
        NewAbove(Parent(q, S), b, n, m, S);
      }
      Climb(p, n, R);
      RegrownUp(p, n, R, m, S);
      ParentPath(p, n, R);
      a := RegrownPathBack(Parent(p, R), b, n, R, m, S);
    }
  }

  lemma OldRootAbove(p: nat, n: nat, R: nat, m: nat, S: nat)
    requires Grows(n, R, m, S) && Valid(p, n, R) && IsRootPosition(p, n, R)
    requires Valid(Regrown(p, n, R, S), m, S) && !IsRootPosition(Regrown(p, n, R, S), m, S)
    ensures var up := Parent(Regrown(p, n, R, S), S); Valid(up, m, S) && !Existed(up, n, m, S)
  {
    hide RowOf, OffOf, Parent, Sibling, IsRootPosition, Level, Regrown, Shr;
    Climb(p, n, R);
    RegrownSlot(p, n, R, m, S);
    Climb(Regrown(p, n, R, S), m, S);
    ShrStep(n, RowOf(p, R));
  }

  // ----- new positions -----

  /** A position that is not new existed and is no root merged over. */
  lemma NotNew(q: nat, n: nat, R: nat, m: nat, S: nat) returns (p: nat)
    requires Grows(n, R, m, S) && Valid(q, m, S) && !IsNew(q, n, m, S) && !IsRootPosition(q, m, S)
    ensures Valid(p, n, R) && Regrown(p, n, R, S) == q && !IsRootPosition(p, n, R)
  {
    hide RowOf, OffOf, IsRootPosition, Regrown, Parent, Sibling, Level;
    Climb(q, m, S);
    p := Before(q, n, R, m, S);
    RegrownSlot(p, n, R, m, S);
    Climb(p, n, R);
  }

  lemma OldInner(p: nat, n: nat, R: nat, m: nat, S: nat)
    requires Grows(n, R, m, S) && Valid(p, n, R) && !IsRootPosition(p, n, R)
    ensures !IsNew(Regrown(p, n, R, S), n, m, S)
  {
    hide RowOf, OffOf, IsRootPosition, Regrown, Parent, Sibling, Level;
    RegrownSlot(p, n, R, m, S);
    Climb(p, n, R);
  }

  // ----- what a proof needs after the growth -----

  /** The targets of the grown forest: the old ones, and new leaves. */
  ghost predicate GrownTargets(targets: seq<nat>, grown: seq<nat>, n: nat, R: nat, m: nat, S: nat)
    requires Grows(n, R, m, S)
  {
    && AllValid(targets, n, R) && AllValid(grown, m, S)
    && (forall i :: 0 <= i < |targets| ==> Regrown(targets[i], n, R, S) in grown)
    && (forall i :: 0 <= i < |grown| ==>
          !Existed(grown[i], n, m, S) || exists j :: 0 <= j < |targets| && grown[i] == Regrown(targets[j], n, R, S))
  }

  lemma GrownTargetAt(targets: seq<nat>, grown: seq<nat>, n: nat, R: nat, m: nat, S: nat, i: nat) returns (j: nat)
    requires Grows(n, R, m, S) && GrownTargets(targets, grown, n, R, m, S) && i < |targets|
    ensures Valid(targets[i], n, R) && j < |grown| && grown[j] == Regrown(targets[i], n, R, S)
  {
    hide Valid, Regrown, Existed;
    var q := Regrown(targets[i], n, R, S);
    assert q in grown;
    j :| 0 <= j < |grown| && grown[j] == q;
  }

  lemma GrownTargetFrom(targets: seq<nat>, grown: seq<nat>, n: nat, R: nat, m: nat, S: nat, i: nat) returns (j: nat)
    requires Grows(n, R, m, S) && GrownTargets(targets, grown, n, R, m, S) && i < |grown|
    requires Valid(grown[i], m, S) && Existed(grown[i], n, m, S)
    ensures j < |targets| && Valid(targets[j], n, R) && grown[i] == Regrown(targets[j], n, R, S)
  {
    hide Valid, Regrown, Existed;
    var q := grown[i];
    assert exists j :: 0 <= j < |targets| && q == Regrown(targets[j], n, R, S);
    j :| 0 <= j < |targets| && q == Regrown(targets[j], n, R, S);
  }

  lemma PathGrown(targets: seq<nat>, grown: seq<nat>, n: nat, R: nat, m: nat, S: nat, a: nat)
    requires Grows(n, R, m, S) && GrownTargets(targets, grown, n, R, m, S)
    requires AllValid(targets, n, R) && AllValid(grown, m, S) && a in Path(targets, n, R)
    ensures Valid(a, n, R) && Regrown(a, n, R, S) in Path(grown, m, S)
  {
    hide Valid, Regrown, Path, PathOf, GrownTargets;
    PathFacts(targets, n, R, a);
    PathMember(targets, n, R, a);
    var i :| 0 <= i < |targets| && a in PathOf(targets[i], n, R);
    var j := GrownTargetAt(targets, grown, n, R, m, S, i);
    RegrownPath(targets[i], a, n, R, m, S);
    PathMember(grown, m, S, Regrown(a, n, R, S));
  }

  lemma PathGrownBack(targets: seq<nat>, grown: seq<nat>, n: nat, R: nat, m: nat, S: nat, a: nat)
    requires Grows(n, R, m, S) && GrownTargets(targets, grown, n, R, m, S)
    requires AllValid(targets, n, R) && AllValid(grown, m, S) && Valid(a, n, R)
    requires Regrown(a, n, R, S) in Path(grown, m, S)
    ensures a in Path(targets, n, R)
  {
    hide Valid, Regrown, Path, PathOf, GrownTargets, Existed;
    var b := Regrown(a, n, R, S);
    RegrownExisted(a, n, R, m, S);
    PathMember(grown, m, S, b);
    var i :| 0 <= i < |grown| && b in PathOf(grown[i], m, S);
    if !Existed(grown[i], n, m, S) { NewAbove(grown[i], b, n, m, S); }
    var j := GrownTargetFrom(targets, grown, n, R, m, S, i);
    var a' := RegrownPathBack(targets[j], b, n, R, m, S);
    RegrownInjective(a, a', n, R, m, S);
    PathMember(targets, n, R, a);
  }

  /** What was needed is still needed, and is not new. */
  lemma StillNeeded(targets: seq<nat>, grown: seq<nat>, n: nat, R: nat, m: nat, S: nat, q: nat)
    requires Grows(n, R, m, S) && GrownTargets(targets, grown, n, R, m, S)
    requires AllValid(targets, n, R) && AllValid(grown, m, S) && q in ProofSet(targets, n, R)
    ensures Valid(q, n, R) && Regrown(q, n, R, S) in ProofSet(grown, m, S) && !IsNew(Regrown(q, n, R, S), n, m, S)
  {
    hide Valid, Regrown, Path, PathOf, GrownTargets, Existed, ProofSet, IsNew, Sibling, IsRootPosition, Parent, Level,
      RowOf, OffOf;
    ProofSetMember(targets, n, R, q);
    ProofSetValid(targets, n, R, q);
    var p := Sibling(q);
    SiblingInvolution(q);
    Climb(q, n, R);
    PathGrown(targets, grown, n, R, m, S, p);
    RegrownUp(q, n, R, m, S);
    RegrownUp(p, n, R, m, S);
    if Regrown(q, n, R, S) in Path(grown, m, S) { PathGrownBack(targets, grown, n, R, m, S, q); }
    ProofSetMember(grown, m, S, Regrown(q, n, R, S));
    OldInner(q, n, R, m, S);
  }

  /** What is needed and not new was needed before. */
  lemma NeededBefore(targets: seq<nat>, grown: seq<nat>, n: nat, R: nat, m: nat, S: nat, b: nat) returns (q: nat)
    requires Grows(n, R, m, S) && GrownTargets(targets, grown, n, R, m, S)
    requires AllValid(targets, n, R) && AllValid(grown, m, S) && b in ProofSet(grown, m, S) && !IsNew(b, n, m, S)
    ensures q in ProofSet(targets, n, R) && Valid(q, n, R) && Regrown(q, n, R, S) == b
  {
    hide Valid, Regrown, Path, PathOf, GrownTargets, Existed, ProofSet, IsNew, Sibling, IsRootPosition, Parent, Level,
      RowOf, OffOf;
    ProofSetMember(grown, m, S, b);
    ProofSetValid(grown, m, S, b);
    SiblingInvolution(b);
    q := NotNew(b, n, R, m, S);
    Climb(q, n, R);
    RegrownUp(q, n, R, m, S);
    SiblingInvolution(q);
    PathGrownBack(targets, grown, n, R, m, S, Sibling(q));
    if q in Path(targets, n, R) { PathGrown(targets, grown, n, R, m, S, q); }
    ProofSetMember(targets, n, R, q);
  }

  // ----- subtrees -----

  lemma AtGrown(trees: seq<Tree>, n: nat, R: nat, ids: seq<nat>, S: nat, p: nat)
    requires Grows(n, R, n + |ids|, S) && |trees| == PopCount(n) && NoHoles(trees) && Valid(p, n, R)
    ensures Valid(Regrown(p, n, R, S), n + |ids|, S) && |AddAll(trees, n, ids)| == PopCount(n + |ids|)
    ensures At(AddAll(trees, n, ids), n + |ids|, S, Regrown(p, n, R, S)) == At(trees, n, R, p)
  {
    hide RowOf, OffOf, NodeAt, Regrown, AddAll;
    RegrownSlot(p, n, R, n + |ids|, S);
    AddStable(trees, n, ids, RowOf(p, R), OffOf(p, R));
  }

  lemma NewLeafAt(trees: seq<Tree>, n: nat, ids: seq<nat>, S: nat, k: nat)
    requires Fits(n + |ids|, S) && |trees| == PopCount(n) && NoHoles(trees) && k < |ids|
    ensures |AddAll(trees, n, ids)| == PopCount(n + |ids|)
    ensures Valid(n + k, n + |ids|, S) && RowOf(n + k, S) == 0 && OffOf(n + k, S) == n + k
    ensures At(AddAll(trees, n, ids), n + |ids|, S, n + k) == Tip(ids[k])
    ensures Appeared(n + k, n, n + |ids|, S) && IsNew(n + k, n, n + |ids|, S)
  {
    hide NodeAt, AddAll, RowOf, OffOf;
    NewLeafNode(trees, n, ids, k);
    ValidEncode(0, n + k, n + |ids|, S);
    RowStartZero(S);
    ShrZero(n);
  }
}
