/** The hashing loop shared by `calculate_hashes` and `calculate_hashes_delete`
    (src/proof/mod.rs): a merge of two ascending queues of (position, value) nodes, the ones
    the caller provides and the parents computed so far.  Siblings are popped together and
    their parent is pushed; a root position goes to the list of results.

    `Merge` is that loop as a function of its state, with the combination of two siblings as a
    parameter.  Completeness is proved here once for both uses.
  */
module MergeLoop {
  import opened Bits
  import opened Positions
  import opened ProofPositions

  type Node<T> = (nat, T)

  datatype Next<T> = Exhausted | Popped(node: Node<T>, computedIndex: nat, providedIndex: nat)

  /** `get_next`: the smaller head; the provided queue wins a tie. */
  function GetNext<T>(computed: seq<Node<T>>, provided: seq<Node<T>>, ci: nat, pi: nat): (r: Next<T>)
    requires ci <= |computed| && pi <= |provided|
    ensures r.Exhausted? ==> ci == |computed| && pi == |provided|
    ensures r.Popped? ==>
              && r.computedIndex <= |computed| && r.providedIndex <= |provided|
              && ((r.computedIndex == ci + 1 && r.providedIndex == pi && r.node == computed[ci])
                  || (r.computedIndex == ci && r.providedIndex == pi + 1 && r.node == provided[pi]))
  {
    if ci < |computed| && pi < |provided| then
      if computed[ci].0 < provided[pi].0 then Popped(computed[ci], ci + 1, pi)
      else Popped(provided[pi], ci, pi + 1)
    else if ci < |computed| then Popped(computed[ci], ci + 1, pi)
    else if pi < |provided| then Popped(provided[pi], ci, pi + 1)
    else Exhausted
  }

  /** The least position comes first, and a provided node before a computed one. */
  lemma NextLeast<T>(computed: seq<Node<T>>, provided: seq<Node<T>>, ci: nat, pi: nat)
    requires ci <= |computed| && pi <= |provided|
    ensures var r := GetNext(computed, provided, ci, pi);
            && (r.Exhausted? <==> ci == |computed| && pi == |provided|)
            && (r.Popped? && ci < |computed| ==> r.node.0 <= computed[ci].0)
            && (r.Popped? && pi < |provided| ==> r.node.0 <= provided[pi].0)
            && (r.Popped? && pi < |provided| && r.node.0 == provided[pi].0 ==>
                  r.node == provided[pi] && r.providedIndex == pi + 1)
  {
  }

  datatype Outcome<T> = Finished(computed: seq<Node<T>>, roots: seq<T>) | Stuck(pos: nat)

  function Merge<T>(nodes: seq<Node<T>>, computed: seq<Node<T>>, ci: nat, pi: nat, roots: seq<T>,
                    n: nat, rows: nat, combine: (T, T) -> T): Outcome<T>
    requires ci <= |computed| && pi <= |nodes| && rows < 63
    decreases |nodes| - pi + |computed| - ci
  {
    match GetNext(computed, nodes, ci, pi)
    case Exhausted => Finished(computed, roots)
    case Popped(next, ci1, pi1) =>
      if IsRootPosition(next.0, n, rows) then
        Merge(nodes, computed, ci1, pi1, roots + [next.1], n, rows, combine)
      else
        match GetNext(computed, nodes, ci1, pi1)
        case Exhausted => Stuck(next.0)
        case Popped(sibling, ci2, pi2) =>
          if sibling.0 != Or(next.0, 1) then Stuck(next.0)
          else
            Merge(nodes, computed + [(Parent(next.0, rows), combine(next.1, sibling.1))], ci2, pi2, roots,
                  n, rows, combine)
  }

  /** One iteration of the loop. */
  lemma MergeUnfold<T>(nodes: seq<Node<T>>, computed: seq<Node<T>>, ci: nat, pi: nat, roots: seq<T>,
                       n: nat, rows: nat, combine: (T, T) -> T)
    requires ci <= |computed| && pi <= |nodes| && rows < 63
    ensures var r1 := GetNext(computed, nodes, ci, pi);
            var out := Merge(nodes, computed, ci, pi, roots, n, rows, combine);
            if r1.Exhausted? then out == Finished(computed, roots)
            else if IsRootPosition(r1.node.0, n, rows) then
              out == Merge(nodes, computed, r1.computedIndex, r1.providedIndex, roots + [r1.node.1], n, rows, combine)
            else
              var r2 := GetNext(computed, nodes, r1.computedIndex, r1.providedIndex);
              if r2.Exhausted? || r2.node.0 != Or(r1.node.0, 1) then out == Stuck(r1.node.0)
              else
                out == Merge(nodes, computed + [(Parent(r1.node.0, rows), combine(r1.node.1, r2.node.1))],
                             r2.computedIndex, r2.providedIndex, roots, n, rows, combine)
  {
    hide IsRootPosition, Or, Parent;
  }

  predicate Ordered<T>(nodes: seq<Node<T>>) {
    forall i, j :: 0 <= i < j < |nodes| ==> nodes[i].0 <= nodes[j].0
  }

  predicate StrictlyOrdered<T>(nodes: seq<Node<T>>) {
    forall i, j :: 0 <= i < j < |nodes| ==> nodes[i].0 < nodes[j].0
  }

  ghost predicate Carries<T>(nodes: seq<Node<T>>, val: nat -> T) {
    forall i :: 0 <= i < |nodes| ==> nodes[i].1 == val(nodes[i].0)
  }

  predicate Holds<T>(nodes: seq<Node<T>>, p: nat) {
    exists i :: 0 <= i < |nodes| && nodes[i].0 == p
  }

  // ----- the nodes a complete input makes the loop visit -----

  /** `prov` is provided, `inner` is to be computed: every slot that is no root comes with its
      sibling, and exactly the parents of the slots are computed. */
  ghost predicate Closed(prov: set<nat>, inner: set<nat>, n: nat, rows: nat)
    requires Fits(n, rows)
  {
    && prov !! inner
    && (forall p :: p in prov + inner ==> Valid(p, n, rows))
    && (forall p :: p in prov + inner && !IsRootPosition(p, n, rows) ==>
          Sibling(p) in prov + inner && Parent(p, rows) in inner)
    && (forall p :: p in inner ==>
          exists c :: c in prov + inner && !IsRootPosition(c, n, rows) && Parent(c, rows) == p)
  }

  lemma ClosedAt(p: nat, prov: set<nat>, inner: set<nat>, n: nat, rows: nat)
    requires Fits(n, rows) && Closed(prov, inner, n, rows) && p in prov + inner
    ensures prov !! inner && Valid(p, n, rows)
    ensures !IsRootPosition(p, n, rows) ==> Sibling(p) in prov + inner && Parent(p, rows) in inner
  {
    hide IsRootPosition, Parent, Valid, Sibling;
  }

  lemma ClosedChild(p: nat, prov: set<nat>, inner: set<nat>, n: nat, rows: nat) returns (c: nat)
    requires Fits(n, rows) && Closed(prov, inner, n, rows) && p in inner
    ensures c in prov + inner && !IsRootPosition(c, n, rows) && Parent(c, rows) == p
  {
    hide IsRootPosition, Parent, Valid, Sibling;
    c :| c in prov + inner && !IsRootPosition(c, n, rows) && Parent(c, rows) == p;
  }

  /** The values obey the loop's combination at every computed slot. */
  ghost predicate Consistent<T>(prov: set<nat>, inner: set<nat>, n: nat, rows: nat, val: nat -> T, combine: (T, T) -> T)
    requires Fits(n, rows)
  {
    forall p :: p in prov + inner && p % 2 == 0 && !IsRootPosition(p, n, rows) ==>
      val(Parent(p, rows)) == combine(val(p), val(p + 1))
  }

  /** `index` separates the nodes at or before position `cur` from the rest. */
  predicate SplitAt<T>(nodes: seq<Node<T>>, index: nat, cur: int) {
    index <= |nodes| && forall j :: 0 <= j < |nodes| ==> (j < index <==> nodes[j].0 <= cur)
  }

  /** A queue in strictly ascending order, popped up to position `cur`. */
  ghost predicate Queue<T>(nodes: seq<Node<T>>, index: nat, cur: int, val: nat -> T) {
    StrictlyOrdered(nodes) && Carries(nodes, val) && SplitAt(nodes, index, cur)
  }

  ghost predicate RightChildUpTo(c: nat, folded: int, prov: set<nat>, inner: set<nat>, n: nat, rows: nat)
    requires rows < 62
  {
    c in prov + inner && c % 2 == 1 && !IsRootPosition(c, n, rows) && c <= folded
  }

  /** The computed nodes are exactly the parents of the pairs that end at or before `folded`. */
  ghost predicate Folded<T>(computed: seq<Node<T>>, folded: int, prov: set<nat>, inner: set<nat>, n: nat, rows: nat)
    requires rows < 62
  {
    && (forall c :: RightChildUpTo(c, folded, prov, inner, n, rows) ==> Holds(computed, Parent(c, rows)))
    && (forall j :: 0 <= j < |computed| ==>
        computed[j].0 in inner && HasPair(computed[j].0, folded, prov, inner, n, rows))
  }

  ghost predicate HasPair(p: nat, folded: int, prov: set<nat>, inner: set<nat>, n: nat, rows: nat)
    requires rows < 62
  {
    exists c :: RightChildUpTo(c, folded, prov, inner, n, rows) && Parent(c, rows) == p
  }

  lemma PairOf(c: nat, p: nat, folded: int, prov: set<nat>, inner: set<nat>, n: nat, rows: nat)
    requires rows < 62 && RightChildUpTo(c, folded, prov, inner, n, rows) && Parent(c, rows) == p
    ensures HasPair(p, folded, prov, inner, n, rows)
  {
    hide IsRootPosition, Parent, RightChildUpTo;
  }

  lemma FoldedAt<T>(computed: seq<Node<T>>, folded: int, prov: set<nat>, inner: set<nat>, n: nat, rows: nat, j: nat)
    returns (c: nat)
    requires rows < 62 && Folded(computed, folded, prov, inner, n, rows) && j < |computed|
    ensures computed[j].0 in inner
    ensures RightChildUpTo(c, folded, prov, inner, n, rows) && Parent(c, rows) == computed[j].0
  {
    hide IsRootPosition, Parent, RightChildUpTo;
    assert computed[j].0 in inner && HasPair(computed[j].0, folded, prov, inner, n, rows);
    c :| RightChildUpTo(c, folded, prov, inner, n, rows) && Parent(c, rows) == computed[j].0;
  }

  /** Everything up to `cur` has been popped; the parents of all pairs up to `folded` are pushed. */
  ghost predicate Progress<T>(nodes: seq<Node<T>>, computed: seq<Node<T>>, ci: nat, pi: nat, cur: int, folded: int,
                              prov: set<nat>, inner: set<nat>, n: nat, rows: nat, val: nat -> T)
    requires rows < 62
  {
    && Queue(nodes, pi, cur, val)
    && (forall p :: p in prov <==> Holds(nodes, p))
    && Queue(computed, ci, cur, val)
    && Folded(computed, folded, prov, inner, n, rows)
  }

  /** The next slot in ascending order is at the head of one of the queues. */
  lemma PopNext<T>(nodes: seq<Node<T>>, computed: seq<Node<T>>, ci: nat, pi: nat, cur: int, folded: int,
                   prov: set<nat>, inner: set<nat>, n: nat, rows: nat, val: nat -> T, m: nat)
    requires Fits(n, rows) && prov !! inner
    requires Progress(nodes, computed, ci, pi, cur, folded, prov, inner, n, rows, val)
    requires m in prov + inner && m > cur
    requires forall v :: v in prov + inner && v > cur ==> m <= v
    requires m in inner ==> Holds(computed, m)
    ensures var r := GetNext(computed, nodes, ci, pi);
            && r.Popped? && r.node == (m, val(m))
            && Progress(nodes, computed, r.computedIndex, r.providedIndex, m, folded, prov, inner, n, rows, val)
  {
    hide IsRootPosition, Parent, Fits, RightChildUpTo;
    if ci < |computed| {
      assert computed[ci].0 in inner && computed[ci].0 > cur;
    }
    if pi < |nodes| {
      assert Holds(nodes, nodes[pi].0);
      assert nodes[pi].0 in prov && nodes[pi].0 > cur;
    }
    if m in prov {
      var j :| 0 <= j < |nodes| && nodes[j].0 == m;
      assert pi <= j && nodes[pi].0 <= m;
    } else {
      var j :| 0 <= j < |computed| && computed[j].0 == m;
      assert ci <= j && computed[ci].0 <= m;
    }
    var r := GetNext(computed, nodes, ci, pi);
    assert r.Popped? && r.node.0 == m;
    assert SplitAt(nodes, r.providedIndex, m);
    assert SplitAt(computed, r.computedIndex, m);
  }

  // ----- completeness: from complete input the loop visits every slot, in order -----

  /** Siblings are popped together. */
  ghost predicate Boundary(cur: int, prov: set<nat>, inner: set<nat>, n: nat, rows: nat)
    requires rows < 62
  {
    forall v :: v in prov + inner && !IsRootPosition(v, n, rows) ==> (v <= cur <==> Sibling(v) <= cur)
  }

  function Vals<T>(ps: seq<nat>, val: nat -> T): (r: seq<T>)
    ensures |r| == |ps| && forall i :: 0 <= i < |ps| ==> r[i] == val(ps[i])
  {
    seq(|ps|, i requires 0 <= i < |ps| => val(ps[i]))
  }

  ghost predicate RootsUpTo(rs: seq<nat>, cur: int, prov: set<nat>, inner: set<nat>, n: nat, rows: nat)
    requires rows < 62
  {
    && Ascending(rs)
    && forall p :: p in rs <==> p in prov + inner && IsRootPosition(p, n, rows) && p <= cur
  }

  lemma FoldedHolds<T>(computed: seq<Node<T>>, folded: int, prov: set<nat>, inner: set<nat>, n: nat, rows: nat, c: nat)
    requires rows < 62 && Folded(computed, folded, prov, inner, n, rows)
    requires RightChildUpTo(c, folded, prov, inner, n, rows)
    ensures Holds(computed, Parent(c, rows))
  {
    hide IsRootPosition, Parent, RightChildUpTo;
  }

  lemma FoldedSame<T>(computed: seq<Node<T>>, cur: int, m: nat, prov: set<nat>, inner: set<nat>, n: nat, rows: nat)
    requires rows < 62 && Folded(computed, cur, prov, inner, n, rows)
    requires m > cur && IsRootPosition(m, n, rows)
    requires forall v :: v in prov + inner && v > cur ==> m <= v
    ensures Folded(computed, m, prov, inner, n, rows)
  {
    hide IsRootPosition, Parent, RightChildUpTo, HasPair;
    forall c | RightChildUpTo(c, m, prov, inner, n, rows) ensures Holds(computed, Parent(c, rows)) {
      RightChildSame(c, cur, m, prov, inner, n, rows);
      FoldedHolds(computed, cur, prov, inner, n, rows, c);
    }
    forall j | 0 <= j < |computed|
      ensures computed[j].0 in inner && HasPair(computed[j].0, m, prov, inner, n, rows)
    {
      var c := FoldedAt(computed, cur, prov, inner, n, rows, j);
      RightChildSame(c, cur, m, prov, inner, n, rows);
      PairOf(c, computed[j].0, m, prov, inner, n, rows);
    }
  }

  lemma RightChildSame(c: nat, cur: int, m: nat, prov: set<nat>, inner: set<nat>, n: nat, rows: nat)
    requires rows < 62 && m > cur && IsRootPosition(m, n, rows)
    requires forall v :: v in prov + inner && v > cur ==> m <= v
    ensures RightChildUpTo(c, m, prov, inner, n, rows) <==> RightChildUpTo(c, cur, prov, inner, n, rows)
  {
    hide IsRootPosition;
  }

  lemma RootsNext(rs: seq<nat>, cur: int, prov: set<nat>, inner: set<nat>, n: nat, rows: nat, m: nat)
    requires rows < 62 && RootsUpTo(rs, cur, prov, inner, n, rows)
    requires m in prov + inner && m > cur && IsRootPosition(m, n, rows)
    requires forall v :: v in prov + inner && v > cur ==> m <= v
    ensures RootsUpTo(rs + [m], m, prov, inner, n, rows)
  {
    hide IsRootPosition;
    var next := rs + [m];
    forall i | 0 <= i < |rs| ensures rs[i] < m { assert rs[i] in rs; }
    forall i, j | 0 <= i < j < |next| ensures next[i] < next[j] {
      assert next[i] == rs[i] && (j < |rs| ==> next[j] == rs[j]);
    }
    forall p: nat ensures p in next <==> p in prov + inner && IsRootPosition(p, n, rows) && p <= m {
      assert p in next <==> p in rs || p == m;
    }
  }

  /** Popping a root. */
  lemma PopRoot<T>(nodes: seq<Node<T>>, computed: seq<Node<T>>, ci: nat, pi: nat, cur: int,
                   prov: set<nat>, inner: set<nat>, n: nat, rows: nat, val: nat -> T, m: nat, rs: seq<nat>)
    requires Fits(n, rows) && Closed(prov, inner, n, rows)
    requires Progress(nodes, computed, ci, pi, m, cur, prov, inner, n, rows, val)
    requires Boundary(cur, prov, inner, n, rows) && RootsUpTo(rs, cur, prov, inner, n, rows)
    requires m in prov + inner && m > cur && IsRootPosition(m, n, rows)
    requires forall v :: v in prov + inner && v > cur ==> m <= v
    ensures Progress(nodes, computed, ci, pi, m, m, prov, inner, n, rows, val)
    ensures Boundary(m, prov, inner, n, rows) && RootsUpTo(rs + [m], m, prov, inner, n, rows)
  {
    hide IsRootPosition, Parent, Valid, Sibling, Queue, Closed, Folded, RootsUpTo, Boundary;
    FoldedSame(computed, cur, m, prov, inner, n, rows);
    RootsNext(rs, cur, prov, inner, n, rows, m);
    BoundaryNext(cur, m, prov, inner, n, rows);
  }

  lemma BoundaryNext(cur: int, m: int, prov: set<nat>, inner: set<nat>, n: nat, rows: nat)
    requires Fits(n, rows) && Closed(prov, inner, n, rows) && Boundary(cur, prov, inner, n, rows) && cur <= m
    requires forall v :: v in prov + inner && cur < v <= m && !IsRootPosition(v, n, rows) ==> Sibling(v) <= m
    ensures Boundary(m, prov, inner, n, rows)
  {
    hide IsRootPosition, Parent, Valid, Sibling, Closed;
    forall v | v in prov + inner && !IsRootPosition(v, n, rows) ensures v <= m <==> Sibling(v) <= m {
      ClosedAt(v, prov, inner, n, rows);
      Climb(v, n, rows);
      SiblingInvolution(v);
    }
  }

  /** The slot below the smallest unpopped one is no root's sibling: it is even, and its
      sibling comes right after it. */
  lemma PairAtMinimum(cur: int, prov: set<nat>, inner: set<nat>, n: nat, rows: nat, m: nat)
    requires Fits(n, rows) && Closed(prov, inner, n, rows) && Boundary(cur, prov, inner, n, rows)
    requires m in prov + inner && m > cur && !IsRootPosition(m, n, rows)
    requires forall v :: v in prov + inner && v > cur ==> m <= v
    ensures m % 2 == 0 && Or(m, 1) == m + 1 == Sibling(m) && m + 1 in prov + inner
    ensures Valid(m, n, rows) && Valid(m + 1, n, rows)
    ensures !IsRootPosition(m + 1, n, rows)
    ensures Parent(m + 1, rows) == Parent(m, rows) && Parent(m, rows) in inner
    ensures Parent(m, rows) > m + 1
  {
    hide IsRootPosition, Parent, Valid, Closed, Sibling, Or;
    ClosedAt(m, prov, inner, n, rows);
    PairEncode(m, n, rows);
    Climb(m, n, rows);
    ParentAbove(Sibling(m), n, rows);
  }

  /** Popping a pair and pushing its parent. */
  lemma PopPair<T>(nodes: seq<Node<T>>, computed: seq<Node<T>>, ci: nat, pi: nat, cur: int,
                   prov: set<nat>, inner: set<nat>, n: nat, rows: nat, val: nat -> T, m: nat, rs: seq<nat>)
    requires Fits(n, rows) && Closed(prov, inner, n, rows)
    requires Progress(nodes, computed, ci, pi, m + 1, cur, prov, inner, n, rows, val)
    requires Boundary(cur, prov, inner, n, rows) && RootsUpTo(rs, cur, prov, inner, n, rows)
    requires m in prov + inner && m > cur && !IsRootPosition(m, n, rows)
    requires forall v :: v in prov + inner && v > cur ==> m <= v
    ensures Progress(nodes, computed + [(Parent(m, rows), val(Parent(m, rows)))], ci, pi, m + 1, m + 1,
                     prov, inner, n, rows, val)
    ensures Boundary(m + 1, prov, inner, n, rows) && RootsUpTo(rs, m + 1, prov, inner, n, rows)
  {
    hide IsRootPosition, Parent, Valid, Sibling, Closed, Folded, Boundary, Or;
    PairAtMinimum(cur, prov, inner, n, rows, m);
    var parent := Parent(m, rows);
    var computed' := computed + [(parent, val(parent))];
    PushAscending(computed, cur, prov, inner, n, rows, m, val);
    assert computed'[|computed|].0 == parent;
    PushFolded(computed, cur, prov, inner, n, rows, m, val(parent));
    SiblingInvolution(m);
    BoundaryNext(cur, m + 1, prov, inner, n, rows);
  }

  lemma PushFolded<T>(computed: seq<Node<T>>, cur: int, prov: set<nat>, inner: set<nat>, n: nat, rows: nat, m: nat,
                      v: T)
    requires rows < 62 && Folded(computed, cur, prov, inner, n, rows)
    requires m > cur && m % 2 == 0 && m + 1 in prov + inner && !IsRootPosition(m + 1, n, rows)
    requires Parent(m + 1, rows) == Parent(m, rows) && Parent(m, rows) in inner
    requires forall v :: v in prov + inner && v > cur ==> m <= v
    ensures Folded(computed + [(Parent(m, rows), v)], m + 1, prov, inner, n, rows)
  {
    hide IsRootPosition, Parent;
    var computed' := computed + [(Parent(m, rows), v)];
    assert computed'[|computed|].0 == Parent(m, rows);
    forall c: nat | RightChildUpTo(c, m + 1, prov, inner, n, rows) ensures Holds(computed', Parent(c, rows)) {
      if c <= cur {
        assert RightChildUpTo(c, cur, prov, inner, n, rows);
        var j :| 0 <= j < |computed| && computed[j].0 == Parent(c, rows);
        assert computed'[j].0 == Parent(c, rows);
      }
    }
    forall j | 0 <= j < |computed'|
      ensures computed'[j].0 in inner && HasPair(computed'[j].0, m + 1, prov, inner, n, rows)
    {
      var c := m + 1;
      if j < |computed| { c := FoldedAt(computed, cur, prov, inner, n, rows, j); }
      PairOf(c, computed'[j].0, m + 1, prov, inner, n, rows);
    }
  }

  /** The pushed parent lies above every node computed before. */
  lemma PushAscending<T>(computed: seq<Node<T>>, cur: int, prov: set<nat>, inner: set<nat>, n: nat, rows: nat,
                         m: nat, val: nat -> T)
    requires Fits(n, rows) && Closed(prov, inner, n, rows)
    requires StrictlyOrdered(computed) && Carries(computed, val) && Folded(computed, cur, prov, inner, n, rows)
    requires m > cur && m + 1 in prov + inner && !IsRootPosition(m + 1, n, rows) && m % 2 == 0
    ensures StrictlyOrdered(computed + [(Parent(m + 1, rows), val(Parent(m + 1, rows)))])
    ensures Carries(computed + [(Parent(m + 1, rows), val(Parent(m + 1, rows)))], val)
  {
    hide IsRootPosition, Parent, Valid, Sibling, Closed;
    ClosedAt(m + 1, prov, inner, n, rows);
    forall j | 0 <= j < |computed| ensures computed[j].0 < Parent(m + 1, rows) {
      var c := FoldedAt(computed, cur, prov, inner, n, rows, j);
      ClosedAt(c, prov, inner, n, rows);
      ParentOrder(c, m + 1, n, rows);
    }
  }

  lemma {:induction false} MergeCompletes<T>(
      nodes: seq<Node<T>>, computed: seq<Node<T>>, ci: nat, pi: nat, roots: seq<T>, cur: int,
      prov: set<nat>, inner: set<nat>, n: nat, rows: nat, val: nat -> T, combine: (T, T) -> T, rs: seq<nat>)
    returns (final: seq<Node<T>>, rs': seq<nat>)
    requires Fits(n, rows) && Closed(prov, inner, n, rows) && Consistent(prov, inner, n, rows, val, combine)
    requires Progress(nodes, computed, ci, pi, cur, cur, prov, inner, n, rows, val)
    requires Boundary(cur, prov, inner, n, rows) && RootsUpTo(rs, cur, prov, inner, n, rows)
    requires roots == Vals(rs, val)
    ensures Merge(nodes, computed, ci, pi, roots, n, rows, combine) == Finished(final, Vals(rs', val))
    ensures StrictlyOrdered(final) && Carries(final, val)
    ensures forall p :: p in inner <==> Holds(final, p)
    ensures Ascending(rs') && forall p :: p in rs' <==> p in prov + inner && IsRootPosition(p, n, rows)
    decreases |nodes| - pi + |computed| - ci
  {
    hide IsRootPosition, Parent, Valid, Sibling, Or, Closed, Progress, RootsUpTo, Boundary;
    var left := set v | v in prov + inner && v > cur;
    if left == {} {
      final, rs' := computed, rs;
      forall v | v in prov + inner ensures v <= cur {
        assert v > cur ==> v in left;
      }
      AllPopped(nodes, computed, ci, pi, cur, prov, inner, n, rows, val, rs);
      return;
    }
    HasMinimum(left);
    var m :| m in left && forall x :: x in left ==> m <= x;
    forall v | v in prov + inner && v > cur ensures m <= v {
      assert v in left;
    }
    var r1 := PopMinimum(nodes, computed, ci, pi, cur, cur, prov, inner, n, rows, val, m);
    if IsRootPosition(m, n, rows) {
      PopRoot(nodes, computed, r1.computedIndex, r1.providedIndex, cur, prov, inner, n, rows, val, m, rs);
      assert Vals(rs + [m], val) == roots + [val(m)];
      final, rs' := MergeCompletes(nodes, computed, r1.computedIndex, r1.providedIndex, roots + [val(m)], m,
                                   prov, inner, n, rows, val, combine, rs + [m]);
    } else {
      PairAtMinimum(cur, prov, inner, n, rows, m);
      var r2 := PopMinimum(nodes, computed, r1.computedIndex, r1.providedIndex, m, cur, prov, inner, n, rows, val,
                           m + 1);
      PopPair(nodes, computed, r2.computedIndex, r2.providedIndex, cur, prov, inner, n, rows, val, m, rs);
      final, rs' := MergeCompletes(nodes, computed + [(Parent(m, rows), val(Parent(m, rows)))],
                                   r2.computedIndex, r2.providedIndex, roots, m + 1,
                                   prov, inner, n, rows, val, combine, rs);
    }
  }

  /** A computed slot has its right child among the slots. */
  lemma InnerRightChild(p: nat, prov: set<nat>, inner: set<nat>, n: nat, rows: nat) returns (c: nat)
    requires Fits(n, rows) && Closed(prov, inner, n, rows) && p in inner
    ensures c in prov + inner && c % 2 == 1 && !IsRootPosition(c, n, rows) && Parent(c, rows) == p && c < p
  {
    hide IsRootPosition, Parent, Valid, Sibling, Or, LeftSibling, Closed, RowOf, OffOf, Level, RootCoord;
    c := ClosedChild(p, prov, inner, n, rows);
    ClosedAt(c, prov, inner, n, rows);
    PairEncode(c, n, rows);
    Climb(c, n, rows);
    if c % 2 == 0 { c := Sibling(c); }
    ParentAbove(c, n, rows);
  }

  lemma ProgressHolds<T>(nodes: seq<Node<T>>, computed: seq<Node<T>>, ci: nat, pi: nat, cur: int, folded: int,
                         prov: set<nat>, inner: set<nat>, n: nat, rows: nat, val: nat -> T, c: nat)
    requires Fits(n, rows) && Progress(nodes, computed, ci, pi, cur, folded, prov, inner, n, rows, val)
    requires c in prov + inner && c % 2 == 1 && !IsRootPosition(c, n, rows) && c <= folded
    ensures Holds(computed, Parent(c, rows))
  {
    hide IsRootPosition, Parent, Queue;
    assert RightChildUpTo(c, folded, prov, inner, n, rows);
  }

  /** The next slot has been computed, if it is not provided. */
  lemma InnerHeld<T>(nodes: seq<Node<T>>, computed: seq<Node<T>>, ci: nat, pi: nat, cur: int, folded: int,
                     prov: set<nat>, inner: set<nat>, n: nat, rows: nat, val: nat -> T, m: nat)
    requires Fits(n, rows) && Closed(prov, inner, n, rows)
    requires Progress(nodes, computed, ci, pi, cur, folded, prov, inner, n, rows, val)
    requires forall v :: v in prov + inner && v > cur ==> m <= v
    requires cur == folded || (cur + 1 == m && forall v :: v in prov + inner && v > folded ==> cur <= v)
    requires cur != folded ==> 0 <= cur && cur % 2 == 0
    ensures m in inner ==> Holds(computed, m)
  {
    hide IsRootPosition, Parent, Valid, Sibling, Closed, Progress;
    if m in inner {
      var c := InnerRightChild(m, prov, inner, n, rows);
      ProgressHolds(nodes, computed, ci, pi, cur, folded, prov, inner, n, rows, val, c);
    }
  }

  lemma PopMinimum<T>(nodes: seq<Node<T>>, computed: seq<Node<T>>, ci: nat, pi: nat, cur: int, folded: int,
                      prov: set<nat>, inner: set<nat>, n: nat, rows: nat, val: nat -> T, m: nat)
    returns (r: Next<T>)
    requires Fits(n, rows) && Closed(prov, inner, n, rows)
    requires Progress(nodes, computed, ci, pi, cur, folded, prov, inner, n, rows, val)
    requires m in prov + inner && m > cur
    requires forall v :: v in prov + inner && v > cur ==> m <= v
    requires cur == folded || (cur + 1 == m && forall v :: v in prov + inner && v > folded ==> cur <= v)
    requires cur != folded ==> 0 <= cur && cur % 2 == 0
    ensures r == GetNext(computed, nodes, ci, pi) && r.Popped? && r.node == (m, val(m))
    ensures Progress(nodes, computed, r.computedIndex, r.providedIndex, m, folded, prov, inner, n, rows, val)
  {
    hide IsRootPosition, Parent, Valid, Sibling, Closed, Progress, GetNext;
    ClosedAt(m, prov, inner, n, rows);
    InnerHeld(nodes, computed, ci, pi, cur, folded, prov, inner, n, rows, val, m);
    PopNext(nodes, computed, ci, pi, cur, folded, prov, inner, n, rows, val, m);
    r := GetNext(computed, nodes, ci, pi);
  }

  lemma AllPopped<T>(nodes: seq<Node<T>>, computed: seq<Node<T>>, ci: nat, pi: nat, cur: int,
                     prov: set<nat>, inner: set<nat>, n: nat, rows: nat, val: nat -> T, rs: seq<nat>)
    requires Fits(n, rows) && Closed(prov, inner, n, rows)
    requires Progress(nodes, computed, ci, pi, cur, cur, prov, inner, n, rows, val)
    requires RootsUpTo(rs, cur, prov, inner, n, rows)
    requires forall v :: v in prov + inner ==> v <= cur
    ensures GetNext(computed, nodes, ci, pi).Exhausted?
    ensures StrictlyOrdered(computed) && Carries(computed, val)
    ensures forall p :: p in inner <==> Holds(computed, p)
    ensures Ascending(rs) && forall p :: p in rs <==> p in prov + inner && IsRootPosition(p, n, rows)
  {
    hide IsRootPosition, Parent, Valid, Sibling;
    forall j | 0 <= j < |nodes| ensures nodes[j].0 <= cur {
      assert Holds(nodes, nodes[j].0);
    }
    forall p | p in inner ensures Holds(computed, p) {
      var c := InnerRightChild(p, prov, inner, n, rows);
      assert RightChildUpTo(c, cur, prov, inner, n, rows);
    }
  }
}
