/** Which hashes a proof has to carry (`get_proof_positions`, src/util/mod.rs). */
module ProofPositions {
  import opened Bits
  import opened Positions

  // ----- sorted sequences of positions -----

  predicate Ascending(s: seq<nat>) {
    forall i, j :: 0 <= i < j < |s| ==> s[i] < s[j]
  }

  function Elements(s: seq<nat>): set<nat> {
    set x | x in s
  }

  lemma {:induction false} HasMinimum(s: set<nat>)
    requires s != {}
    ensures exists m :: m in s && forall x :: x in s ==> m <= x
  {
    var y :| y in s;
    if s == {y} {
      assert forall x :: x in s ==> y <= x;
    } else {
      HasMinimum(s - {y});
      var m :| m in s - {y} && forall x :: x in s - {y} ==> m <= x;
      LesserOf(s, y, m);
    }
  }

  lemma LesserOf(s: set<nat>, y: nat, m: nat)
    requires y in s && m in s && forall x :: x in s - {y} ==> m <= x
    ensures exists k :: k in s && forall x :: x in s ==> k <= x
  {
    var k := if m <= y then m else y;
    forall x | x in s ensures k <= x {
      if x != y { assert x in s - {y}; }
    }
  }

  function Least(s: set<nat>): (m: nat)
    requires s != {}
    ensures m in s && forall x :: x in s ==> m <= x
  {
    HasMinimum(s);
    var m :| m in s && forall x :: x in s ==> m <= x;
    m
  }

  /** The iteration order of a `BTreeSet`. */
  function Sorted(s: set<nat>): (r: seq<nat>)
    ensures Ascending(r) && Elements(r) == s
  {
    if s == {} then []
    else
      var m := Least(s);
      var rest := Sorted(s - {m});
      ConsAscending(m, rest, s);
      [m] + rest
  }

  lemma SortedIs(s: set<nat>)
    ensures Elements(Sorted(s)) == s
  {
  }

  lemma ElementsAt(s: seq<nat>, i: nat)
    requires i < |s|
    ensures s[i] in Elements(s)
  {
  }

  lemma InElements(s: seq<nat>, x: nat)
    ensures x in s <==> x in Elements(s)
  {
  }

  lemma EmptyElements(s: seq<nat>)
    requires Elements(s) == {}
    ensures s == []
  {
    if s != [] { ElementsAt(s, 0); }
  }

  lemma ConsAscending(m: nat, rest: seq<nat>, s: set<nat>)
    requires m in s && Elements(rest) == s - {m} && Ascending(rest)
    requires forall x :: x in s ==> m <= x
    ensures Ascending([m] + rest) && Elements([m] + rest) == s
  {
    forall i | 0 <= i < |rest| ensures m < rest[i] {
      ElementsAt(rest, i);
    }
    forall x ensures x in Elements([m] + rest) <==> x in s {
      assert x in [m] + rest <==> x == m || x in rest;
      assert x in rest <==> x in Elements(rest);
    }
  }

  /** A strictly ascending sequence is determined by its elements. */
  lemma {:induction false} AscendingUnique(a: seq<nat>, b: seq<nat>)
    requires Ascending(a) && Ascending(b) && Elements(a) == Elements(b)
    ensures a == b
    decreases |a|
  {
    if a == [] {
      EmptyElements(b);
    } else {
      assert a[0] in Elements(b) && b != [];
      assert b[0] in Elements(a);
      assert a[0] == b[0];
      forall x ensures x in Elements(a[1..]) <==> x in Elements(b[1..]) {
        assert x in Elements(a[1..]) <==> x in Elements(a) && x != a[0] by { TailElements(a, x); }
        assert x in Elements(b[1..]) <==> x in Elements(b) && x != b[0] by { TailElements(b, x); }
      }
      AscendingUnique(a[1..], b[1..]);
      assert a == [a[0]] + a[1..] && b == [b[0]] + b[1..];
    }
  }

  lemma TailElements(a: seq<nat>, x: nat)
    requires Ascending(a) && a != []
    ensures x in Elements(a[1..]) <==> x in Elements(a) && x != a[0]
  {
    if x in a && x != a[0] {
      var i :| 0 <= i < |a| && a[i] == x;
      assert a[1..][i - 1] == x;
    }
    if x in a[1..] {
      var i :| 0 <= i < |a[1..]| && a[1..][i] == x;
      assert a[i + 1] == x;
    }
  }

  // ----- root paths -----

  predicate AllValid(targets: seq<nat>, n: nat, rows: nat) {
    forall i :: 0 <= i < |targets| ==> Valid(targets[i], n, rows)
  }

  /** The slot itself and its ancestors up to the root of its tree. */
  function PathOf(pos: nat, n: nat, rows: nat): set<nat>
    requires Fits(n, rows) && Valid(pos, n, rows)
    decreases Level(pos, n, rows)
  {
    Climb(pos, n, rows);
    {pos} + if IsRootPosition(pos, n, rows) then {} else PathOf(Parent(pos, rows), n, rows)
  }

  function Path(targets: seq<nat>, n: nat, rows: nat): set<nat>
    requires Fits(n, rows) && AllValid(targets, n, rows)
  {
    if targets == [] then {} else PathOf(targets[0], n, rows) + Path(targets[1..], n, rows)
  }

  /** What a proof for the targets has to provide: every sibling of a path node that is not
      itself on a path. */
  function ProofSet(targets: seq<nat>, n: nat, rows: nat): set<nat>
    requires Fits(n, rows) && AllValid(targets, n, rows)
  {
    var path := Path(targets, n, rows);
    set p | p in path && !IsRootPosition(p, n, rows) && Sibling(p) !in path :: Sibling(p)
  }

  lemma {:induction false} PathOfFacts(pos: nat, n: nat, rows: nat, p: nat)
    requires Fits(n, rows) && Valid(pos, n, rows) && p in PathOf(pos, n, rows)
    ensures Valid(p, n, rows) && RowOf(pos, rows) <= RowOf(p, rows)
    ensures RowOf(pos, rows) == RowOf(p, rows) ==> p == pos
    ensures !IsRootPosition(p, n, rows) ==> Parent(p, rows) in PathOf(pos, n, rows)
    decreases Level(pos, n, rows)
  {
    hide RowOf, OffOf, IsRootPosition, Parent, Valid, Sibling, Level;
    Climb(pos, n, rows);
    if p != pos {
      PathOfFacts(Parent(pos, rows), n, rows, p);
    }
  }

  lemma {:induction false} PathMember(targets: seq<nat>, n: nat, rows: nat, p: nat)
    requires Fits(n, rows) && AllValid(targets, n, rows)
    ensures p in Path(targets, n, rows) <==>
            exists i :: 0 <= i < |targets| && p in PathOf(targets[i], n, rows)
  {
    hide PathOf;
    if targets != [] {
      PathMember(targets[1..], n, rows, p);
      if p in Path(targets[1..], n, rows) {
        var i :| 0 <= i < |targets[1..]| && p in PathOf(targets[1..][i], n, rows);
        assert targets[i + 1] == targets[1..][i];
      }
      if i :| 0 <= i < |targets| && p in PathOf(targets[i], n, rows) {
        if i > 0 { assert targets[1..][i - 1] == targets[i]; }
      }
    }
  }

  lemma PathFacts(targets: seq<nat>, n: nat, rows: nat, p: nat)
    requires Fits(n, rows) && AllValid(targets, n, rows) && p in Path(targets, n, rows)
    ensures Valid(p, n, rows)
    ensures !IsRootPosition(p, n, rows) ==> Parent(p, rows) in Path(targets, n, rows)
  {
    PathMember(targets, n, rows, p);
    var i :| 0 <= i < |targets| && p in PathOf(targets[i], n, rows);
    PathOfFacts(targets[i], n, rows, p);
    if !IsRootPosition(p, n, rows) {
      PathMember(targets, n, rows, Parent(p, rows));
    }
  }

  lemma TargetOnPath(targets: seq<nat>, n: nat, rows: nat, i: nat)
    requires Fits(n, rows) && AllValid(targets, n, rows) && i < |targets|
    ensures targets[i] in Path(targets, n, rows)
  {
    PathMember(targets, n, rows, targets[i]);
    assert targets[i] in PathOf(targets[i], n, rows);
  }

  /** The paths are the least set that holds the targets and is closed under `parent`. */
  lemma {:induction false} PathLeast(pos: nat, n: nat, rows: nat, s: set<nat>)
    requires Fits(n, rows) && Valid(pos, n, rows) && pos in s
    requires forall p :: p in s && Valid(p, n, rows) && !IsRootPosition(p, n, rows) ==> Parent(p, rows) in s
    ensures PathOf(pos, n, rows) <= s
    decreases Level(pos, n, rows)
  {
    hide RowOf, OffOf, IsRootPosition, Parent, Valid, Sibling, Level;
    Climb(pos, n, rows);
    if !IsRootPosition(pos, n, rows) {
      PathLeast(Parent(pos, rows), n, rows, s);
    }
  }

  lemma SiblingInvolution(p: nat)
    ensures Sibling(Sibling(p)) == p
    ensures Sibling(p) != p
    ensures p < WORD ==> Sibling(p) < WORD
  {
    LowBit(p);
    LowBit(Xor(p, 1));
  }

  lemma ProofSetMember(targets: seq<nat>, n: nat, rows: nat, q: nat)
    requires Fits(n, rows) && AllValid(targets, n, rows)
    ensures q in ProofSet(targets, n, rows) <==>
            && Sibling(q) in Path(targets, n, rows)
            && !IsRootPosition(Sibling(q), n, rows)
            && q !in Path(targets, n, rows)
  {
    hide Path, IsRootPosition, Sibling;
    SiblingInvolution(q);
    var path := Path(targets, n, rows);
    if q in ProofSet(targets, n, rows) {
      var p :| p in path && !IsRootPosition(p, n, rows) && Sibling(p) !in path && q == Sibling(p);
      SiblingInvolution(p);
    }
  }

  lemma ParentWord(p: nat, rows: nat)
    requires p < WORD && rows < 64
    ensures Parent(p, rows) < WORD
  {
    hide Or, Shr, ShiftLeft;
    ShiftLeftOne(rows);
    WordIsPow2();
    assert Shr(p, 1) <= p;
    OrBound(Shr(p, 1), ShiftLeft(1, rows), 64);
  }

  // ----- the worklist -----

  /** What the worklist knows when the slots in `done` have been processed. */
  ghost predicate WorklistInv(proof: set<nat>, known: set<nat>, done: set<nat>, n: nat, rows: nat)
    requires rows < 63
  {
    && done <= known
    && (forall p :: p in done && !IsRootPosition(p, n, rows) ==> Parent(p, rows) in known)
    && (forall p :: p in done && !IsRootPosition(p, n, rows) ==> Sibling(p) in known + proof)
    && (forall q :: q in proof ==>
          Sibling(q) in done && !IsRootPosition(Sibling(q), n, rows) && q !in done)
  }

  /** One round of the worklist keeps its invariant, and stays on the paths. */
  lemma WorklistStep(proof: set<nat>, known: set<nat>, done: set<nat>, pos: nat, n: nat, rows: nat)
    requires Fits(n, rows) && WorklistInv(proof, known, done, n, rows)
    requires pos in known && Valid(pos, n, rows)
    requires forall p :: p in known ==> Valid(p, n, rows)
    ensures IsRootPosition(pos, n, rows) ==> WorklistInv(proof, known, done + {pos}, n, rows)
    ensures !IsRootPosition(pos, n, rows) ==>
              var proof' := if Sibling(pos) in known then proof - {pos} else proof + {Sibling(pos)};
              WorklistInv(proof', known + {Parent(pos, rows)}, done + {pos}, n, rows)
  {
    hide RowOf, OffOf, IsRootPosition, Parent, Valid, Sibling, Level;
    SiblingInvolution(pos);
    Climb(pos, n, rows);
    if IsRootPosition(pos, n, rows) {
      if pos in proof {
        Climb(Sibling(pos), n, rows);
      }
    } else if Sibling(pos) !in known {
      SiblingInvolution(Sibling(pos));
    } else {
      var proof' := proof - {pos};
      forall p | p in done + {pos} && !IsRootPosition(p, n, rows)
        ensures Sibling(p) in known + proof'
      {
      }
    }
  }

  ghost predicate WorklistHonest(targets: seq<nat>, proof: set<nat>, known: set<nat>, done: set<nat>, n: nat, rows: nat)
    requires Fits(n, rows) && AllValid(targets, n, rows)
  {
    && WorklistInv(proof, known, done, n, rows)
    && known <= Path(targets, n, rows)
    && (forall i :: 0 <= i < |targets| ==> targets[i] in known)
  }

  lemma WorklistInit(targets: seq<nat>, n: nat, rows: nat)
    requires Fits(n, rows) && AllValid(targets, n, rows)
    ensures WorklistHonest(targets, {}, Elements(targets), {}, n, rows)
  {
    hide Path, IsRootPosition, Parent, Sibling;
    forall p | p in Elements(targets) ensures p in Path(targets, n, rows) {
      var i :| 0 <= i < |targets| && targets[i] == p;
      TargetOnPath(targets, n, rows, i);
    }
  }

  lemma WorklistNext(targets: seq<nat>, proof: set<nat>, known: set<nat>, done: set<nat>, pos: nat, n: nat, rows: nat)
    requires Fits(n, rows) && AllValid(targets, n, rows)
    requires WorklistHonest(targets, proof, known, done, n, rows) && pos in known
    ensures IsRootPosition(pos, n, rows) ==> WorklistHonest(targets, proof, known, done + {pos}, n, rows)
    ensures !IsRootPosition(pos, n, rows) ==>
              var proof' := if Sibling(pos) in known then proof - {pos} else proof + {Sibling(pos)};
              WorklistHonest(targets, proof', known + {Parent(pos, rows)}, done + {pos}, n, rows)
  {
    hide Fits, AllValid, RowOf, OffOf, IsRootPosition, Parent, Valid, Sibling, Level, Path, WorklistInv;
    forall p | p in known ensures Valid(p, n, rows) {
      PathFacts(targets, n, rows, p);
    }
    PathFacts(targets, n, rows, pos);
    WorklistStep(proof, known, done, pos, n, rows);
  }

  lemma WorklistDone(targets: seq<nat>, proof: set<nat>, known: set<nat>, n: nat, rows: nat)
    requires Fits(n, rows) && AllValid(targets, n, rows)
    requires WorklistHonest(targets, proof, known, known, n, rows)
    ensures proof == ProofSet(targets, n, rows)
  {
    hide RowOf, OffOf, IsRootPosition, Parent, Valid, Sibling, Level, Path, PathOf;
    forall p | p in Path(targets, n, rows) ensures p in known {
      PathMember(targets, n, rows, p);
      var i :| 0 <= i < |targets| && p in PathOf(targets[i], n, rows);
      PathLeast(targets[i], n, rows, known);
    }
    forall q ensures q in proof <==> q in ProofSet(targets, n, rows) {
      SiblingInvolution(q);
      ProofSetMember(targets, n, rows, q);
    }
  }

  predicate IsWord(x: nat) {
    x < WORD
  }

  lemma ElementsAppend(s: seq<nat>, x: nat)
    ensures Elements(s + [x]) == Elements(s) + {x}
  {
  }

  method GetProofPositions(targets: seq<U64>, n: nat, rows: nat) returns (positions: seq<nat>)
    requires rows < 62
    ensures Ascending(positions)
    ensures Fits(n, rows) && AllValid(targets, n, rows) ==> positions == Sorted(ProofSet(targets, n, rows))
  {
    hide RowOf, IsRootPosition, Parent, Sibling, WorklistHonest, Fits, AllValid;
    ghost var words := set x: nat | x < WORD && IsWord(x);
    ghost var honest := Fits(n, rows) && AllValid(targets, n, rows);
    var proofPositions: set<nat> := {};
    var known: set<nat> := Elements(targets);
    var computed: seq<nat> := targets;
    ghost var done: set<nat> := {};
    var i := 0;
    if honest { WorklistInit(targets, n, rows); }
    while i < |computed|
      invariant i <= |computed|
      invariant known == Elements(computed) && done == Elements(computed[..i])
      invariant known <= words
      invariant honest ==> WorklistHonest(targets, proofPositions, known, done, n, rows)
      decreases words - known, |computed| - i
    {
      var pos := computed[i];
      assert computed[..i + 1] == computed[..i] + [pos];
      if honest { WorklistNext(targets, proofPositions, known, done, pos, n, rows); }
      done := done + {pos};
      assert pos in known;
      if IsRootPosition(pos, n, rows) {
        i := i + 1;
        continue;
      }
      var sibling := Sibling(pos);
      if sibling !in known {
        proofPositions := proofPositions + {sibling};
      }
      if sibling in known {
        proofPositions := proofPositions - {pos};
      }
      var parent := Parent(pos, rows);
      ParentWord(pos, rows);
      if parent !in known {
        assert parent in words - known;
        assert (computed + [parent])[..i + 1] == computed[..i + 1];
        computed := computed + [parent];
        known := known + {parent};
      } else {
        assert known + {parent} == known;
      }
      i := i + 1;
    }
    if honest {
      assert computed[..i] == computed;
      WorklistDone(targets, proofPositions, known, n, rows);
    }
    positions := Sorted(proofPositions);
  }
}
