/** Runs of the hashing loop that need not be honest: what a run does depends on the positions
    only, and it gets stuck when a proof hash is missing. */
module MergeRuns {
  import opened Bits
  import opened Positions
  import opened ProofPositions
  import opened MergeLoop

  // ----- the same run with other values -----

  function MapSeq<T, U>(s: seq<T>, f: T -> U): (r: seq<U>)
    ensures |r| == |s| && forall i :: 0 <= i < |s| ==> r[i] == f(s[i])
  {
    seq(|s|, i requires 0 <= i < |s| => f(s[i]))
  }

  function MapNodes<T, U>(nodes: seq<Node<T>>, f: T -> U): (r: seq<Node<U>>)
    ensures |r| == |nodes| && forall i :: 0 <= i < |nodes| ==> r[i] == (nodes[i].0, f(nodes[i].1))
  {
    MapSeq(nodes, (x: Node<T>) => (x.0, f(x.1)))
  }

  lemma MapConcat<T, U>(a: seq<T>, b: seq<T>, f: T -> U)
    ensures MapSeq(a + b, f) == MapSeq(a, f) + MapSeq(b, f)
  {
  }

  lemma MapOne<T, U>(x: T, f: T -> U)
    ensures MapSeq([x], f) == [f(x)]
  {
  }

  /** Taking one element out, before or after the mapping. */
  lemma MapWithout<T, U>(s: seq<T>, k: nat, f: T -> U)
    requires k < |s|
    ensures multiset(s[..k] + s[k + 1..]) == multiset(s) - multiset{s[k]}
    ensures multiset(MapSeq(s, f)) == multiset{f(s[k])} + multiset(MapSeq(s[..k] + s[k + 1..], f))
  {
    hide MapSeq;
    assert s == s[..k] + ([s[k]] + s[k + 1..]);
    MapConcat(s[..k], [s[k]] + s[k + 1..], f);
    MapConcat([s[k]], s[k + 1..], f);
    MapConcat(s[..k], s[k + 1..], f);
    MapOne(s[k], f);
  }

  lemma {:induction false} MapPermuted<T, U>(a: seq<T>, b: seq<T>, f: T -> U)
    requires multiset(a) == multiset(b)
    ensures multiset(MapSeq(a, f)) == multiset(MapSeq(b, f))
    decreases |a|
  {
    hide MapSeq;
    if a == [] {
      assert |b| == |multiset(b)| == 0;
    } else {
      var k := SameElement(a, b);
      MapWithout(a, 0, f);
      MapWithout(b, k, f);
      MapPermuted(a[..0] + a[0 + 1..], b[..k] + b[k + 1..], f);
    }
  }

  lemma SameElement<T>(a: seq<T>, b: seq<T>) returns (k: nat)
    requires multiset(a) == multiset(b) && a != []
    ensures k < |b| && b[k] == a[0]
  {
    assert a[0] in multiset(b);
    k :| 0 <= k < |b| && b[k] == a[0];
  }

  /** The values can be mapped before or after two of them are combined. */
  ghost predicate Homomorphic<T(!new), U>(f: T -> U, combine: (T, T) -> T, combine': (U, U) -> U) {
    forall a: T, b: T :: f(combine(a, b)) == combine'(f(a), f(b))
  }

  lemma NextMapped<T, U>(computed: seq<Node<T>>, provided: seq<Node<T>>, ci: nat, pi: nat, f: T -> U)
    requires ci <= |computed| && pi <= |provided|
    ensures var r := GetNext(computed, provided, ci, pi);
            var r' := GetNext(MapNodes(computed, f), MapNodes(provided, f), ci, pi);
            if r.Exhausted? then r'.Exhausted?
            else r' == Popped((r.node.0, f(r.node.1)), r.computedIndex, r.providedIndex)
  {
  }

  lemma {:induction false} MergeMapped<T(!new), U>(
      nodes: seq<Node<T>>, computed: seq<Node<T>>, ci: nat, pi: nat, roots: seq<T>, n: nat, rows: nat,
      combine: (T, T) -> T, combine': (U, U) -> U, f: T -> U)
    requires ci <= |computed| && pi <= |nodes| && rows < 63 && Homomorphic(f, combine, combine')
    ensures var out := Merge(nodes, computed, ci, pi, roots, n, rows, combine);
            var out' := Merge(MapNodes(nodes, f), MapNodes(computed, f), ci, pi, MapSeq(roots, f), n, rows, combine');
            if out.Stuck? then out' == Stuck(out.pos)
            else out'.Finished? && out'.roots == MapSeq(out.roots, f)
    decreases |nodes| - pi + |computed| - ci
  {
    hide IsRootPosition, Or, Parent, GetNext, Merge;
    MergeUnfold(nodes, computed, ci, pi, roots, n, rows, combine);
    MergeUnfold(MapNodes(nodes, f), MapNodes(computed, f), ci, pi, MapSeq(roots, f), n, rows, combine');
    NextMapped(computed, nodes, ci, pi, f);
    var r1 := GetNext(computed, nodes, ci, pi);
    if r1.Popped? {
      if IsRootPosition(r1.node.0, n, rows) {
        assert MapSeq(roots + [r1.node.1], f) == MapSeq(roots, f) + [f(r1.node.1)];
        MergeMapped(nodes, computed, r1.computedIndex, r1.providedIndex, roots + [r1.node.1],
                    n, rows, combine, combine', f);
      } else {
        NextMapped(computed, nodes, r1.computedIndex, r1.providedIndex, f);
        var r2 := GetNext(computed, nodes, r1.computedIndex, r1.providedIndex);
        if r2.Popped? && r2.node.0 == Or(r1.node.0, 1) {
          var parent := (Parent(r1.node.0, rows), combine(r1.node.1, r2.node.1));
          assert MapNodes(computed + [parent], f) == MapNodes(computed, f) + [(parent.0, f(parent.1))];
          MergeMapped(nodes, computed + [parent], r2.computedIndex, r2.providedIndex, roots,
                      n, rows, combine, combine', f);
        }
      }
    }
  }

  // ----- a run with proof hashes missing -----

  /** The slots `missing` are needed and not provided; none of them has been reached. */
  ghost predicate Lacking(missing: set<nat>, cur: int, prov: set<nat>, n: nat, rows: nat)
    requires rows < 62
  {
    && missing <= prov && missing != {}
    && forall q :: q in missing ==> q > cur && !IsRootPosition(q, n, rows) && Sibling(q) !in missing
  }

  /** The state of a run on the nodes that are left. */
  lemma ShortProgress<T>(nodes: seq<Node<T>>, short: seq<Node<T>>, computed: seq<Node<T>>, ci: nat, pi: nat, si: nat,
                         cur: int, prov: set<nat>, inner: set<nat>, missing: set<nat>, n: nat, rows: nat, val: nat -> T)
    requires rows < 62 && Progress(nodes, computed, ci, pi, cur, cur, prov, inner, n, rows, val)
    requires Lacking(missing, cur, prov, n, rows) && Queue(short, si, cur, val)
    requires forall p :: p in prov - missing <==> Holds(short, p)
    ensures Progress(short, computed, ci, si, cur, cur, prov - missing, inner, n, rows, val)
  {
    hide IsRootPosition, Parent, Queue, Sibling;
    forall c | RightChildUpTo(c, cur, prov - missing, inner, n, rows) ensures Holds(computed, Parent(c, rows)) {
      assert RightChildUpTo(c, cur, prov, inner, n, rows);
    }
    forall j | 0 <= j < |computed|
      ensures computed[j].0 in inner && HasPair(computed[j].0, cur, prov - missing, inner, n, rows)
    {
      var c := FoldedAt(computed, cur, prov, inner, n, rows, j);
      PairOf(c, computed[j].0, cur, prov - missing, inner, n, rows);
    }
  }

  /** What comes after slot m lies above it. */
  lemma NextAbove<T>(computed: seq<Node<T>>, nodes: seq<Node<T>>, ci: nat, pi: nat, m: nat, folded: int,
                     prov: set<nat>, inner: set<nat>, n: nat, rows: nat, val: nat -> T)
    requires rows < 62 && Progress(nodes, computed, ci, pi, m, folded, prov, inner, n, rows, val)
    ensures var r := GetNext(computed, nodes, ci, pi);
            r.Popped? ==> r.node.0 > m && r.node.0 in prov + inner
  {
    hide IsRootPosition, Parent, HasPair;
    var r := GetNext(computed, nodes, ci, pi);
    if r.Popped? && r.providedIndex == pi + 1 { assert Holds(nodes, nodes[pi].0); }
  }

  /** One of the next two slots is missing: the run is stuck. */
  lemma ShortPair<T>(short: seq<Node<T>>, computed: seq<Node<T>>, ci: nat, si: nat, roots: seq<T>, cur: int,
                     prov: set<nat>, inner: set<nat>, missing: set<nat>, n: nat, rows: nat, val: nat -> T,
                     combine: (T, T) -> T, m: nat)
    requires Fits(n, rows) && Closed(prov, inner, n, rows) && Boundary(cur, prov, inner, n, rows)
    requires Progress(short, computed, ci, si, cur, cur, prov - missing, inner, n, rows, val)
    requires Lacking(missing, cur, prov, n, rows) && si <= |short| && ci <= |computed|
    requires m in prov + inner && m > cur && !IsRootPosition(m, n, rows) && (m in missing || m + 1 in missing)
    requires forall v :: v in prov + inner && v > cur ==> m <= v
    requires forall v :: v in inner && (v == m || v == m + 1) ==> Holds(computed, v)
    ensures Merge(short, computed, ci, si, roots, n, rows, combine).Stuck?
  {
    hide IsRootPosition, Parent, Valid, Sibling, Or, Progress, Boundary, GetNext, Merge, Closed;
    PairAtMinimum(cur, prov, inner, n, rows, m);
    ClosedAt(m, prov, inner, n, rows);
    MergeUnfold(short, computed, ci, si, roots, n, rows, combine);
    var first := if m in missing then m + 1 else m;
    if m in missing { OddOr(m); }
    PopNext(short, computed, ci, si, cur, cur, prov - missing, inner, n, rows, val, first);
    var r1 := GetNext(computed, short, ci, si);
    NextAbove(computed, short, r1.computedIndex, r1.providedIndex, first, cur, prov - missing, inner, n, rows, val);
  }

  lemma OddOr(m: nat)
    requires m % 2 == 0
    ensures Or(m + 1, 1) == m + 1
  {
    hide Or;
    LowBit(m + 1);
  }

  lemma SplitUnique<T>(nodes: seq<Node<T>>, i: nat, j: nat, cur: int)
    requires SplitAt(nodes, i, cur) && SplitAt(nodes, j, cur)
    ensures i == j
  {
    var k := if i < j then i else j;
    if k < |nodes| { assert k < i <==> nodes[k].0 <= cur; }
  }

  /** Both runs have popped the same. */
  lemma SamePopped<T>(nodes: seq<Node<T>>, short: seq<Node<T>>, computed: seq<Node<T>>, ci: nat, pi: nat, ci': nat,
                      si: nat, cur: int, folded: int, prov: set<nat>, prov': set<nat>, inner: set<nat>, n: nat,
                      rows: nat, val: nat -> T)
    requires rows < 62 && Progress(nodes, computed, ci, pi, cur, folded, prov, inner, n, rows, val)
    requires Progress(short, computed, ci', si, cur, folded, prov', inner, n, rows, val)
    ensures ci == ci' && Queue(short, si, cur, val) && forall p :: p in prov' <==> Holds(short, p)
  {
    hide Folded, Holds, StrictlyOrdered, Carries;
    SplitUnique(computed, ci, ci', cur);
  }

  /** The missing slots are still to come. */
  lemma StillLacking(missing: set<nat>, cur: int, prov: set<nat>, inner: set<nat>, n: nat, rows: nat, m: nat, next: nat)
    requires rows < 62 && Lacking(missing, cur, prov, n, rows) && m > cur
    requires forall v :: v in prov + inner && v > cur ==> m <= v
    requires next == m || next == m + 1
    requires m !in missing && (next == m + 1 ==> m + 1 !in missing)
    ensures Lacking(missing, next, prov, n, rows)
  {
    hide IsRootPosition, Sibling;
    forall q | q in missing ensures q > next { assert q in prov + inner; }
  }

  /** A run that lacks some of the needed nodes gets stuck. */
  lemma {:induction false} MergeShort<T>(nodes: seq<Node<T>>, short: seq<Node<T>>, computed: seq<Node<T>>, ci: nat,
                                         pi: nat, si: nat, roots: seq<T>, cur: int, prov: set<nat>, inner: set<nat>,
                                         missing: set<nat>, n: nat, rows: nat, val: nat -> T, combine: (T, T) -> T,
                                         rs: seq<nat>)
    requires Fits(n, rows) && Closed(prov, inner, n, rows) && Consistent(prov, inner, n, rows, val, combine)
    requires Progress(nodes, computed, ci, pi, cur, cur, prov, inner, n, rows, val)
    requires Boundary(cur, prov, inner, n, rows) && RootsUpTo(rs, cur, prov, inner, n, rows)
    requires Lacking(missing, cur, prov, n, rows) && si <= |short| && ci <= |computed|
    requires Progress(short, computed, ci, si, cur, cur, prov - missing, inner, n, rows, val)
    ensures Merge(short, computed, ci, si, roots, n, rows, combine).Stuck?
    decreases |nodes| - pi + |computed| - ci
  {
    hide IsRootPosition, Parent, Valid, Sibling, Or, Closed, Progress, RootsUpTo, Boundary, GetNext, Merge, Consistent,
      Queue, Holds, Lacking;
    var m := NextSlot(missing, cur, prov, inner, n, rows);
    ClosedAt(m, prov, inner, n, rows);
    InnerHeld(nodes, computed, ci, pi, cur, cur, prov, inner, n, rows, val, m);
    var r1 := PopMinimum(nodes, computed, ci, pi, cur, cur, prov, inner, n, rows, val, m);
    MergeUnfold(short, computed, ci, si, roots, n, rows, combine);
    if IsRootPosition(m, n, rows) {
      NotMissing(missing, cur, prov, n, rows, m);
      PopNext(short, computed, ci, si, cur, cur, prov - missing, inner, n, rows, val, m);
      var s1 := GetNext(computed, short, ci, si);
      SamePopped(nodes, short, computed, r1.computedIndex, r1.providedIndex, s1.computedIndex, s1.providedIndex, m, cur,
                 prov, prov - missing, inner, n, rows, val);
      PopRoot(nodes, computed, r1.computedIndex, r1.providedIndex, cur, prov, inner, n, rows, val, m, rs);
      StillLacking(missing, cur, prov, inner, n, rows, m, m);
      ShortProgress(nodes, short, computed, r1.computedIndex, r1.providedIndex, s1.providedIndex, m,
                    prov, inner, missing, n, rows, val);
      MergeShort(nodes, short, computed, r1.computedIndex, r1.providedIndex, s1.providedIndex, roots + [val(m)], m,
                 prov, inner, missing, n, rows, val, combine, rs + [m]);
      return;
    }
    PairAtMinimum(cur, prov, inner, n, rows, m);
    var r2 := PopMinimum(nodes, computed, r1.computedIndex, r1.providedIndex, m, cur, prov, inner, n, rows, val, m + 1);
    InnerHeld(nodes, computed, r1.computedIndex, r1.providedIndex, m, cur, prov, inner, n, rows, val, m + 1);
    if m in missing || m + 1 in missing {
      ShortPair(short, computed, ci, si, roots, cur, prov, inner, missing, n, rows, val, combine, m);
      return;
    }
    PopNext(short, computed, ci, si, cur, cur, prov - missing, inner, n, rows, val, m);
    var s1 := GetNext(computed, short, ci, si);
    PopNext(short, computed, s1.computedIndex, s1.providedIndex, m, cur, prov - missing, inner, n, rows, val, m + 1);
    var s2 := GetNext(computed, short, s1.computedIndex, s1.providedIndex);
    SamePopped(nodes, short, computed, r2.computedIndex, r2.providedIndex, s2.computedIndex, s2.providedIndex,
               m + 1, cur, prov, prov - missing, inner, n, rows, val);
    PopPair(nodes, computed, r2.computedIndex, r2.providedIndex, cur, prov, inner, n, rows, val, m, rs);
    StillLacking(missing, cur, prov, inner, n, rows, m, m + 1);
    ConsistentAt(prov, inner, n, rows, val, combine, m);
    var computed' := computed + [(Parent(m, rows), val(Parent(m, rows)))];
    ShortProgress(nodes, short, computed', r2.computedIndex, r2.providedIndex, s2.providedIndex,
                  m + 1, prov, inner, missing, n, rows, val);
    MergeShort(nodes, short, computed', r2.computedIndex, r2.providedIndex, s2.providedIndex, roots, m + 1,
               prov, inner, missing, n, rows, val, combine, rs);
  }

  lemma NextSlot(missing: set<nat>, cur: int, prov: set<nat>, inner: set<nat>, n: nat, rows: nat) returns (m: nat)
    requires rows < 62 && Lacking(missing, cur, prov, n, rows)
    ensures m in prov + inner && m > cur && forall v :: v in prov + inner && v > cur ==> m <= v
  {
    hide IsRootPosition, Sibling;
    var left := set v | v in prov + inner && v > cur;
    var q :| q in missing;
    assert q in left;
    HasMinimum(left);
    m :| m in left && forall x :: x in left ==> m <= x;
    forall v | v in prov + inner && v > cur ensures m <= v { assert v in left; }
  }

  lemma NotMissing(missing: set<nat>, cur: int, prov: set<nat>, n: nat, rows: nat, m: nat)
    requires rows < 62 && Lacking(missing, cur, prov, n, rows) && IsRootPosition(m, n, rows)
    ensures m !in missing
  {
    hide IsRootPosition, Sibling;
  }

  lemma ConsistentAt<T>(prov: set<nat>, inner: set<nat>, n: nat, rows: nat, val: nat -> T, combine: (T, T) -> T, m: nat)
    requires Fits(n, rows) && Consistent(prov, inner, n, rows, val, combine)
    requires m in prov + inner && m % 2 == 0 && !IsRootPosition(m, n, rows)
    ensures val(Parent(m, rows)) == combine(val(m), val(m + 1))
  {
    hide IsRootPosition, Parent;
  }
}
