/** Replacing pairs of deleted siblings by their parents (`detwin`, src/util/mod.rs). */
module Detwins {
  import opened Positions
  import opened ProofPositions
  import opened Slots
  import opened Paths

  /** Some slot of the set is above or at slot x. */
  ghost predicate Covers(s: set<nat>, x: nat, n: nat, rows: nat)
    requires Fits(n, rows) && Valid(x, n, rows)
  {
    exists p :: p in s && p in PathOf(x, n, rows)
  }

  /** The slots of the bottom row that lie below the set. */
  ghost predicate SameCover(a: set<nat>, b: set<nat>, n: nat, rows: nat)
    requires Fits(n, rows)
  {
    forall x: nat :: Valid(x, n, rows) && RowOf(x, rows) == 0 ==> (Covers(a, x, n, rows) <==> Covers(b, x, n, rows))
  }

  /** Two siblings cover what their parent covers. */
  lemma PairCovers(p: nat, x: nat, n: nat, rows: nat)
    requires Fits(n, rows) && Valid(p, n, rows) && !IsRootPosition(p, n, rows) && Valid(x, n, rows)
    requires RowOf(x, rows) == 0
    ensures Parent(p, rows) in PathOf(x, n, rows) <==> p in PathOf(x, n, rows) || Sibling(p) in PathOf(x, n, rows)
  {
    hide RowOf, OffOf, IsRootPosition, Parent, Valid, Level, Sibling, PathOf;
    Climb(p, n, rows);
    if Parent(p, rows) in PathOf(x, n, rows) {
      var c := PathChild(x, n, rows, Parent(p, rows));
      SameParent(p, c, n, rows);
    }
    if p in PathOf(x, n, rows) { PathOfFacts(x, n, rows, p); }
    if Sibling(p) in PathOf(x, n, rows) { PathOfFacts(x, n, rows, Sibling(p)); }
  }

  lemma PairSameCover(s: set<nat>, p: nat, n: nat, rows: nat)
    requires Fits(n, rows) && Valid(p, n, rows) && !IsRootPosition(p, n, rows)
    ensures SameCover(s + {p, Sibling(p)}, s + {Parent(p, rows)}, n, rows)
  {
    hide RowOf, OffOf, IsRootPosition, Parent, Valid, Level, Sibling, PathOf;
    forall x: nat | Valid(x, n, rows) && RowOf(x, rows) == 0
      ensures Covers(s + {p, Sibling(p)}, x, n, rows) <==> Covers(s + {Parent(p, rows)}, x, n, rows)
    {
      PairCovers(p, x, n, rows);
      if q :| q in s + {p, Sibling(p)} && q in PathOf(x, n, rows) {
        assert if q in s then q in s + {Parent(p, rows)} else Parent(p, rows) in s + {Parent(p, rows)};
      }
    }
  }

  /** Different slots, none above another. */
  ghost predicate Apart(s: seq<nat>, n: nat, rows: nat)
    requires Fits(n, rows) && AllValid(s, n, rows)
  {
    forall i, j :: 0 <= i < |s| && 0 <= j < |s| && i != j ==> s[j] !in PathOf(s[i], n, rows)
  }

  // ----- the loop -----

  /** What the loop makes of a queue in which it finds parents whenever they are there. */
  function Twins(computed: seq<nat>, rows: nat): seq<nat>
    decreases |computed|
  {
    if computed == [] then []
    else
      var node, rest := computed[0], computed[1..];
      if rest != [] && rest[0] == Sibling(node) then
        Twins(if Parent(node, rows) in rest then rest[1..] else rest[1..] + [Parent(node, rows)], rows)
      else
        [node] + Twins(rest, rows)
  }

  method BinarySearch(s: seq<nat>, x: nat) returns (found: bool)
    ensures found ==> x in s
    ensures Ascending(s) ==> (found <==> x in s)
  {
    var lo, hi := 0, |s|;
    while lo < hi
      invariant lo <= hi <= |s|
      invariant Ascending(s) ==> forall i :: 0 <= i < |s| && s[i] == x ==> lo <= i < hi
    {
      var mid := (lo + hi) / 2;
      if s[mid] == x { return true; }
      if s[mid] < x { lo := mid + 1; } else { hi := mid; }
    }
    return false;
  }

  /** State of the loop for any list of slots. */
  ghost predicate Twinning(nodes: seq<nat>, computed: seq<nat>, detwinned: seq<nat>, n: nat, rows: nat)
    requires Fits(n, rows)
  {
    && AllValid(computed, n, rows) && AllValid(detwinned, n, rows)
    && SameCover(Elements(nodes), Elements(computed) + Elements(detwinned), n, rows)
  }

  lemma ElementsCons(x: nat, s: seq<nat>)
    ensures Elements([x] + s) == {x} + Elements(s)
  {
  }

  lemma TwinningKeep(nodes: seq<nat>, node: nat, rest: seq<nat>, detwinned: seq<nat>, n: nat, rows: nat)
    requires Fits(n, rows) && Twinning(nodes, [node] + rest, detwinned, n, rows)
    ensures Twinning(nodes, rest, detwinned + [node], n, rows)
  {
    hide Valid, SameCover, Elements;
    ElementsCons(node, rest);
    ElementsAppend(detwinned, node);
    assert {node} + Elements(rest) + Elements(detwinned) == Elements(rest) + (Elements(detwinned) + {node});
    assert forall i :: 0 <= i < |rest| ==> rest[i] == ([node] + rest)[i + 1];
    assert ([node] + rest)[0] == node;
  }

  lemma TwinningPair(nodes: seq<nat>, node: nat, rest: seq<nat>, detwinned: seq<nat>, n: nat, rows: nat,
                     computed: seq<nat>)
    requires Fits(n, rows) && Twinning(nodes, [node, Sibling(node)] + rest, detwinned, n, rows)
    requires computed == rest + [Parent(node, rows)] || (computed == rest && Parent(node, rows) in rest)
    ensures Valid(node, n, rows) && Valid(Sibling(node), n, rows) && !IsRootPosition(node, n, rows)
    ensures Twinning(nodes, computed, detwinned, n, rows)
  {
    hide Valid, Elements, IsRootPosition, Parent, Sibling, RowOf, PathOf, SameCover;
    var all := [node, Sibling(node)] + rest;
    assert all[0] == node && all[1] == Sibling(node);
    RootAlone(node, n, rows);
    Climb(node, n, rows);
    assert forall i :: 0 <= i < |rest| ==> rest[i] == all[i + 2];
    assert all == [node] + ([Sibling(node)] + rest);
    ElementsCons(Sibling(node), rest);
    ElementsCons(node, [Sibling(node)] + rest);
    ElementsAppend(rest, Parent(node, rows));
    var s := Elements(rest) + Elements(detwinned);
    PairSameCover(s, node, n, rows);
    assert Elements(all) + Elements(detwinned) == s + {node, Sibling(node)};
    if computed == rest { InElements(rest, Parent(node, rows)); }
    assert Elements(computed) + Elements(detwinned) == s + {Parent(node, rows)};
    SameCoverTrans(Elements(nodes), s + {node, Sibling(node)}, s + {Parent(node, rows)}, n, rows);
  }

  lemma SameCoverTrans(a: set<nat>, b: set<nat>, c: set<nat>, n: nat, rows: nat)
    requires Fits(n, rows) && SameCover(a, b, n, rows) && SameCover(b, c, n, rows)
    ensures SameCover(a, c, n, rows)
  {
    hide Valid, RowOf, Covers;
  }

  /** Replacing two siblings by their parent keeps the queue apart, and the parent is new. */
  lemma PairApart(done: seq<nat>, node: nat, rest: seq<nat>, n: nat, rows: nat)
    requires Fits(n, rows) && AllValid(done + ([node, Sibling(node)] + rest), n, rows)
    requires Apart(done + ([node, Sibling(node)] + rest), n, rows)
    requires Valid(node, n, rows) && !IsRootPosition(node, n, rows)
    ensures Parent(node, rows) !in [Sibling(node)] + rest && AllValid(done + (rest + [Parent(node, rows)]), n, rows)
    ensures Apart(done + (rest + [Parent(node, rows)]), n, rows)
  {
    hide Valid, IsRootPosition, Parent, Sibling, RowOf, PathOf, OffOf, Level;
    var all, parent := done + ([node, Sibling(node)] + rest), Parent(node, rows);
    var next := done + (rest + [parent]);
    var k := |done|;
    Climb(node, n, rows);
    assert all[k] == node && all[k + 1] == Sibling(node);
    forall i | 0 <= i < |next| - 1
      ensures Valid(next[i], n, rows) && parent !in PathOf(next[i], n, rows) && next[i] !in PathOf(parent, n, rows)
      ensures next[i] == all[if i < k then i else i + 2]
    {
      var o := if i < k then i else i + 2;
      assert next[i] == all[o];
      ApartParent(all, k, o, n, rows);
    }
    SelfPath(parent, n, rows);
    assert next[|next| - 1] == parent;
    forall i | 0 <= i < |rest| ensures rest[i] != parent {
      assert next[k + i] == rest[i];
    }
    assert RowOf(Sibling(node), rows) != RowOf(parent, rows);
  }

  lemma ApartParent(all: seq<nat>, k: nat, o: nat, n: nat, rows: nat)
    requires Fits(n, rows) && AllValid(all, n, rows) && Apart(all, n, rows)
    requires k + 1 < |all| && o < |all| && o != k && o != k + 1
    requires !IsRootPosition(all[k], n, rows) && all[k + 1] == Sibling(all[k])
    requires Valid(Parent(all[k], rows), n, rows)
    ensures Parent(all[k], rows) !in PathOf(all[o], n, rows) && all[o] !in PathOf(Parent(all[k], rows), n, rows)
  {
    hide Valid, IsRootPosition, Parent, Sibling, RowOf, PathOf;
    var node, x := all[k], all[o];
    ParentPath(node, n, rows);
    SelfPath(x, n, rows);
    if Parent(node, rows) in PathOf(x, n, rows) {
      if x != Parent(node, rows) {
        var c := PathChild(x, n, rows, Parent(node, rows));
        SameParent(node, c, n, rows);
      }
    }
  }

  // ----- `detwin` -----

  /** `detwin`: for any slots the covered leaves stay the same; if none of them is above another one,
      so it is for the result, which is that of `Twins`. */
  method Detwin(nodes: seq<nat>, rows: nat, ghost n: nat) returns (detwinned: seq<nat>)
    requires Fits(n, rows) && AllValid(nodes, n, rows)
    ensures AllValid(detwinned, n, rows)
    ensures SameCover(Elements(nodes), Elements(detwinned), n, rows)
    ensures Apart(nodes, n, rows) ==> Apart(detwinned, n, rows) && detwinned == Twins(nodes, rows)
  {
    hide Valid, Twinning, SameCover, Elements, Parent, Sibling, RowOf, IsRootPosition, Apart, AllValid, Twins;
    ghost var apart := Apart(nodes, n, rows);
    var computed := nodes;
    detwinned := [];
    TwinningStart(nodes, n, rows);
    assert [] + nodes == nodes && [] + Twins(nodes, rows) == Twins(nodes, rows);
    while computed != []
      invariant Twinning(nodes, computed, detwinned, n, rows)
      invariant AllValid(detwinned + computed, n, rows)
      invariant apart ==> Apart(detwinned + computed, n, rows)
      invariant apart ==> Twins(nodes, rows) == detwinned + Twins(computed, rows)
      decreases |computed|
    {
      var node := computed[0];
      var rest := computed[1..];
      assert computed == [node] + rest;
      TwinningKeep(nodes, node, rest, detwinned, n, rows);
      TwinningHead(nodes, node, rest, detwinned, n, rows);
      if rest != [] && rest[0] == Sibling(node) {
        var parent := Parent(node, rows);
        var tail := rest[1..];
        assert computed == [node, Sibling(node)] + tail;
        var found := BinarySearch(rest, parent);
        TwinningPair(nodes, node, tail, detwinned, n, rows, tail + [parent]);
        ParentFound(node, rest, tail, n, rows);
        if found {
          TwinningPair(nodes, node, tail, detwinned, n, rows, tail);
        }
        if apart {
          PairApart(detwinned, node, tail, n, rows);
          TwinsPair(node, tail, rows);
        }
        computed := if found then rest else rest + [parent];
        assert computed[1..] == if found then tail else tail + [parent];
        computed := computed[1..];
        BothValid(nodes, computed, detwinned, n, rows);
      } else {
        assert detwinned + ([node] + rest) == (detwinned + [node]) + rest;
        TwinsKeep(detwinned, node, rest, rows);
        detwinned := detwinned + [node];
        computed := rest;
      }
    }
    TwinsNone(detwinned, rows);
    TwinningEnd(nodes, detwinned, n, rows);
  }

  lemma TwinsPair(node: nat, tail: seq<nat>, rows: nat)
    requires Parent(node, rows) !in [Sibling(node)] + tail
    ensures Twins([node, Sibling(node)] + tail, rows) == Twins(tail + [Parent(node, rows)], rows)
  {
    hide Parent, Sibling;
    var all := [node, Sibling(node)] + tail;
    assert all[1..] == [Sibling(node)] + tail && all[1..][1..] == tail;
  }

  lemma TwinsKeep(done: seq<nat>, node: nat, rest: seq<nat>, rows: nat)
    requires rest == [] || rest[0] != Sibling(node)
    ensures done + Twins([node] + rest, rows) == (done + [node]) + Twins(rest, rows)
  {
    hide Parent, Sibling;
    assert ([node] + rest)[1..] == rest;
  }

  lemma TwinsNone(done: seq<nat>, rows: nat)
    ensures done + Twins([], rows) == done && done + [] == done
  {
  }

  lemma BothValid(nodes: seq<nat>, computed: seq<nat>, detwinned: seq<nat>, n: nat, rows: nat)
    requires Fits(n, rows) && Twinning(nodes, computed, detwinned, n, rows)
    ensures AllValid(detwinned + computed, n, rows)
  {
    hide Valid, SameCover;
  }

  lemma TwinningStart(nodes: seq<nat>, n: nat, rows: nat)
    requires Fits(n, rows) && AllValid(nodes, n, rows)
    ensures Twinning(nodes, nodes, [], n, rows)
  {
    hide Valid, Covers;
    assert Elements(nodes) + Elements([]) == Elements(nodes);
  }

  lemma TwinningHead(nodes: seq<nat>, node: nat, rest: seq<nat>, detwinned: seq<nat>, n: nat, rows: nat)
    requires Fits(n, rows) && Twinning(nodes, [node] + rest, detwinned, n, rows)
    ensures AllValid([node] + rest, n, rows) && AllValid(detwinned, n, rows) && Valid(node, n, rows)
  {
    hide Valid, SameCover;
    assert ([node] + rest)[0] == node;
  }

  lemma TwinningEnd(nodes: seq<nat>, detwinned: seq<nat>, n: nat, rows: nat)
    requires Fits(n, rows) && Twinning(nodes, [], detwinned, n, rows)
    ensures AllValid(detwinned, n, rows) && SameCover(Elements(nodes), Elements(detwinned), n, rows)
  {
    hide Valid, SameCover;
    assert Elements([]) + Elements(detwinned) == Elements(detwinned);
  }

  /** The parent is no sibling, so it is found among the other nodes. */
  lemma ParentFound(node: nat, rest: seq<nat>, tail: seq<nat>, n: nat, rows: nat)
    requires Fits(n, rows) && Valid(node, n, rows) && !IsRootPosition(node, n, rows) && rest == [Sibling(node)] + tail
    ensures Parent(node, rows) in rest <==> Parent(node, rows) in tail
  {
    hide Valid, IsRootPosition, Parent, Sibling, RowOf, OffOf, Level;
    Climb(node, n, rows);
  }

  /** The same of `Twins` itself. */
  lemma {:induction false} TwinsKept(nodes: seq<nat>, done: seq<nat>, computed: seq<nat>, n: nat, rows: nat)
    requires Fits(n, rows) && Twinning(nodes, computed, done, n, rows)
    requires AllValid(done + computed, n, rows) && Apart(done + computed, n, rows)
    ensures var ds := done + Twins(computed, rows);
            AllValid(ds, n, rows) && SameCover(Elements(nodes), Elements(ds), n, rows) && Apart(ds, n, rows)
    decreases |computed|
  {
    hide Valid, Twinning, SameCover, Elements, Parent, Sibling, RowOf, IsRootPosition, Apart, AllValid, Twins;
    if computed == [] {
      TwinsNone(done, rows);
      TwinningEnd(nodes, done, n, rows);
    } else {
      var node, rest := computed[0], computed[1..];
      assert computed == [node] + rest;
      TwinningKeep(nodes, node, rest, done, n, rows);
      TwinningHead(nodes, node, rest, done, n, rows);
      if rest != [] && rest[0] == Sibling(node) {
        var tail := rest[1..];
        assert computed == [node, Sibling(node)] + tail;
        TwinningPair(nodes, node, tail, done, n, rows, tail + [Parent(node, rows)]);
        PairApart(done, node, tail, n, rows);
        TwinsPair(node, tail, rows);
        TwinsKept(nodes, done, tail + [Parent(node, rows)], n, rows);
      } else {
        assert done + ([node] + rest) == (done + [node]) + rest;
        TwinsKeep(done, node, rest, rows);
        TwinsKept(nodes, done + [node], rest, n, rows);
      }
    }
  }

  // ----- when the result is sorted -----

  /** No slot of the set has its sibling in `all`. */
  ghost predicate Twinless(s: set<nat>, all: set<nat>, n: nat, rows: nat)
    requires Fits(n, rows)
  {
    forall d :: d in s && !IsRootPosition(d, n, rows) ==> Sibling(d) !in all
  }

  /** The parents still to come lie above everything in the queue. */
  ghost predicate BelowParents(computed: seq<nat>, n: nat, rows: nat)
    requires Fits(n, rows)
  {
    forall a, c :: a in computed && c in computed && !IsRootPosition(a, n, rows) && Sibling(a) in computed ==>
      c < Parent(a, rows)
  }

  /** An increasing list in which no slot lies beyond the parent of two siblings that are both listed,
      such as every increasing list of the bottom row, or one without siblings. */
  ghost predicate TwinsLast(nodes: seq<nat>, n: nat, rows: nat)
    requires Fits(n, rows)
  {
    AllValid(nodes, n, rows) && Ascending(nodes) && BelowParents(nodes, n, rows)
  }

  lemma BottomTwinsLast(nodes: seq<nat>, n: nat, rows: nat)
    requires Fits(n, rows) && AllValid(nodes, n, rows) && Ascending(nodes)
    requires forall i :: 0 <= i < |nodes| ==> RowOf(nodes[i], rows) == 0
    ensures TwinsLast(nodes, n, rows)
  {
    hide Valid, RowOf, OffOf, IsRootPosition, Parent, Sibling, Level;
    forall a, c | a in nodes && c in nodes && !IsRootPosition(a, n, rows) ensures c < Parent(a, rows) {
      Climb(a, n, rows);
      Order(c, Parent(a, rows), n, rows);
    }
  }

  /** State of the loop for such a list. */
  ghost predicate Sorting(computed: seq<nat>, detwinned: seq<nat>, n: nat, rows: nat)
    requires Fits(n, rows)
  {
    && AllValid(computed, n, rows) && AllValid(detwinned, n, rows)
    && Ascending(detwinned + computed)
    && BelowParents(computed, n, rows)
    && Twinless(Elements(detwinned), Elements(detwinned) + Elements(computed), n, rows)
  }

  lemma SortingKeep(node: nat, rest: seq<nat>, detwinned: seq<nat>, n: nat, rows: nat)
    requires Fits(n, rows) && Sorting([node] + rest, detwinned, n, rows)
    requires rest == [] || rest[0] != Sibling(node)
    ensures Sorting(rest, detwinned + [node], n, rows)
  {
    hide Valid, IsRootPosition, Parent, Sibling, RowOf, Elements;
    var all := [node] + rest;
    assert all[0] == node && forall i :: 0 <= i < |rest| ==> rest[i] == all[i + 1];
    assert (detwinned + [node]) + rest == detwinned + all;
    ElementsCons(node, rest);
    ElementsAppend(detwinned, node);
    forall d | d in Elements(detwinned + [node]) && !IsRootPosition(d, n, rows)
      ensures Sibling(d) !in Elements(detwinned + [node]) + Elements(rest)
    {
      if d == node {
        SiblingInvolution(node);
        PairEncode(node, n, rows);
        KeptAlone(node, rest, detwinned);
        if Sibling(node) in Elements(detwinned) {
          Climb(node, n, rows);
        }
      }
    }
    assert forall x :: x in rest ==> x in all;
  }

  /** In an ascending list a sibling after the node comes right after it. */
  lemma KeptAlone(node: nat, rest: seq<nat>, detwinned: seq<nat>)
    requires Ascending(detwinned + ([node] + rest)) && (rest == [] || rest[0] != Sibling(node))
    requires Sibling(node) == if node % 2 == 0 then node + 1 else node - 1
    ensures Sibling(node) !in Elements(rest)
  {
    hide Sibling;
    var all := detwinned + ([node] + rest);
    var k := |detwinned|;
    assert all[k] == node;
    assert forall i :: 0 <= i < |rest| ==> all[k + 1 + i] == rest[i];
    forall i | 0 <= i < |rest| ensures node < rest[0] <= rest[i] {
      assert all[k + 1] == rest[0] && all[k + 1 + i] == rest[i];
    }
  }

  lemma SortingPair(node: nat, rest: seq<nat>, detwinned: seq<nat>, n: nat, rows: nat)
    requires Fits(n, rows) && Sorting([node, Sibling(node)] + rest, detwinned, n, rows)
    ensures Parent(node, rows) !in [Sibling(node)] + rest
    ensures Sorting(rest + [Parent(node, rows)], detwinned, n, rows)
  {
    hide Valid, IsRootPosition, Parent, Sibling, RowOf, OffOf, Elements, Level, Twinless;
    var all := [node, Sibling(node)] + rest;
    var parent := Parent(node, rows);
    assert all[0] == node && all[1] == Sibling(node);
    assert forall i :: 0 <= i < |rest| ==> all[i + 2] == rest[i];
    RootAlone(node, n, rows);
    Climb(node, n, rows);
    PairEncode(node, n, rows);
    PairAhead(node, rest, detwinned);
    ParentAbove(node, n, rows);
    assert node in all && Sibling(node) in all;
    forall i | 0 <= i < |rest| ensures rest[i] < parent {
      assert rest[i] in all;
    }
    PairAscending(node, rest, detwinned, parent);
    PairTwinless(node, rest, detwinned, n, rows);
    PairBelow(node, rest, n, rows);
  }

  lemma PairAhead(node: nat, rest: seq<nat>, detwinned: seq<nat>)
    requires Ascending(detwinned + ([node, Sibling(node)] + rest))
    ensures Ascending(rest) && node < Sibling(node)
    ensures forall i :: 0 <= i < |rest| ==> Sibling(node) < rest[i]
    ensures forall i :: 0 <= i < |detwinned| ==> detwinned[i] < node
  {
    hide Sibling;
    var all := detwinned + ([node, Sibling(node)] + rest);
    var k := |detwinned|;
    assert all[k] == node && all[k + 1] == Sibling(node);
    assert forall i :: 0 <= i < |rest| ==> all[k + 2 + i] == rest[i];
    assert forall i :: 0 <= i < k ==> all[i] == detwinned[i];
  }

  lemma PairAscending(node: nat, rest: seq<nat>, detwinned: seq<nat>, parent: nat)
    requires Ascending(detwinned + ([node, Sibling(node)] + rest)) && node < parent
    requires forall i :: 0 <= i < |rest| ==> rest[i] < parent
    ensures Ascending(detwinned + (rest + [parent]))
  {
    hide Sibling;
    PairAhead(node, rest, detwinned);
    var all := detwinned + ([node, Sibling(node)] + rest);
    var next := detwinned + (rest + [parent]);
    var k := |detwinned|;
    forall i, j | 0 <= i < j < |next| ensures next[i] < next[j] {
      if j < k {
        assert all[i] == next[i] && all[j] == next[j];
      } else if i < k {
        assert next[i] == detwinned[i] < node;
        if j < |next| - 1 { assert next[j] == rest[j - k]; }
      } else {
        assert next[i] == rest[i - k];
        if j < |next| - 1 { assert next[j] == rest[j - k]; }
      }
    }
  }

  lemma PairTwinless(node: nat, rest: seq<nat>, detwinned: seq<nat>, n: nat, rows: nat)
    requires Fits(n, rows) && Sorting([node, Sibling(node)] + rest, detwinned, n, rows)
    requires Valid(node, n, rows) && AllValid(detwinned, n, rows) && !IsRootPosition(node, n, rows)
    ensures Twinless(Elements(detwinned), Elements(detwinned) + Elements(rest + [Parent(node, rows)]), n, rows)
  {
    hide Valid, IsRootPosition, Parent, Sibling, RowOf, OffOf, Level;
    PairAhead(node, rest, detwinned);
    Climb(node, n, rows);
    forall d | d in Elements(detwinned) && !IsRootPosition(d, n, rows)
      ensures Sibling(d) !in Elements(detwinned) + Elements(rest + [Parent(node, rows)])
    {
      var i :| 0 <= i < |detwinned| && detwinned[i] == d;
      Climb(d, n, rows);
      Order(d, node, n, rows);
      assert Sibling(d) != Parent(node, rows);
    }
  }

  lemma PairBelow(node: nat, rest: seq<nat>, n: nat, rows: nat)
    requires Fits(n, rows) && BelowParents([node, Sibling(node)] + rest, n, rows)
    requires AllValid([node, Sibling(node)] + rest, n, rows) && !IsRootPosition(node, n, rows)
    requires forall i :: 0 <= i < |rest| ==> Sibling(node) < rest[i] < Parent(node, rows)
    requires node < Sibling(node)
    ensures BelowParents(rest + [Parent(node, rows)], n, rows)
  {
    hide Valid, IsRootPosition, Parent, Sibling, RowOf, OffOf, Level;
    var all := [node, Sibling(node)] + rest;
    var parent := Parent(node, rows);
    assert all[0] == node;
    Climb(node, n, rows);
    PairEncode(node, n, rows);
    if !IsRootPosition(parent, n, rows) {
      ParentAbove(parent, n, rows);
      Climb(parent, n, rows);
      SiblingInvolution(parent);
    }
    forall a, c | a in rest + [parent] && c in rest + [parent] && !IsRootPosition(a, n, rows)
                  && Sibling(a) in rest + [parent]
      ensures c < Parent(a, rows)
    {
      assert c in rest ==> c in all && c < parent;
      if a in rest {
        assert a in all;
        var i :| 0 <= i < |rest| && rest[i] == a;
        assert all[i + 2] == a;
        ParentOrder(node, a, n, rows);
      }
    }
  }

  /** Such a list comes out increasing and without siblings. */
  lemma {:induction false} TwinsSorted(computed: seq<nat>, done: seq<nat>, n: nat, rows: nat)
    requires Fits(n, rows) && Sorting(computed, done, n, rows)
    ensures Sorting([], done + Twins(computed, rows), n, rows)
    decreases |computed|
  {
    hide Valid, IsRootPosition, Parent, Sibling, Sorting;
    if computed == [] {
      assert done + [] == done;
    } else {
      var node, rest := computed[0], computed[1..];
      assert computed == [node] + rest;
      if rest != [] && rest[0] == Sibling(node) {
        assert computed == [node, Sibling(node)] + rest[1..] && rest == [Sibling(node)] + rest[1..];
        SortingPair(node, rest[1..], done, n, rows);
        TwinsPair(node, rest[1..], rows);
        TwinsSorted(rest[1..] + [Parent(node, rows)], done, n, rows);
      } else {
        SortingKeep(node, rest, done, n, rows);
        TwinsSorted(rest, done + [node], n, rows);
        TwinsKeep(done, node, rest, rows);
      }
    }
  }

  lemma TwinsLastSorted(nodes: seq<nat>, n: nat, rows: nat)
    requires Fits(n, rows) && TwinsLast(nodes, n, rows)
    ensures var ds := Twins(nodes, rows);
            AllValid(ds, n, rows) && Ascending(ds) && Twinless(Elements(ds), Elements(ds), n, rows)
  {
    hide Valid, IsRootPosition, Parent, Sibling;
    assert [] + nodes == nodes && [] + Twins(nodes, rows) == Twins(nodes, rows);
    TwinsSorted(nodes, [], n, rows);
    var ds := Twins(nodes, rows);
    assert ds + [] == ds;
    assert Elements(ds) + Elements([]) == Elements(ds);
  }
}
