/** Forests with empty roots, seen as forests in which a leaf stands at each empty root and is then
    deleted: what additions write over, and where they put everything. */
module HolesFilled {
  import opened Bits
  import opened Positions
  import opened Forest
  import opened ProofPositions
  import opened Slots
  import opened Walks
  import opened Moves
  import opened Detwins
  import opened TopSlots
  import opened MoveOrders
  import opened Survivors
  import opened Growth

  // ----- filling -----

  /** A leaf of its own for every empty root. */
  function Fill(trees: seq<Tree>, base: nat): (r: seq<Tree>)
    ensures |r| == |trees|
    ensures forall i :: 0 <= i < |trees| ==> r[i] == if trees[i].Nil? then Tip(base + i) else trees[i]
  {
    seq(|trees|, i requires 0 <= i < |trees| => if trees[i].Nil? then Tip(base + i) else trees[i])
  }

  /** The leaves that fill. */
  function Fillers(trees: seq<Tree>, base: nat): set<nat> {
    set i | 0 <= i < |trees| && trees[i].Nil? :: base + i
  }

  /** `full` is `trees` with the leaves of `gone` at its empty roots. */
  ghost predicate Filled(full: seq<Tree>, trees: seq<Tree>, n: nat, ids: seq<nat>, gone: set<nat>) {
    && WellFormed(full, n) && NoHoles(full) && |full| == |trees| && Fresh(full, ids)
    && (forall i :: 0 <= i < |ids| ==> ids[i] !in gone)
    && (forall i :: 0 <= i < |trees| ==>
          if trees[i].Nil? then full[i].Tip? && full[i].id in gone
          else full[i] == trees[i] && forall x :: x in gone ==> x !in Ids(trees[i]))
    && (forall x :: x in gone ==> exists i :: 0 <= i < |trees| && trees[i].Nil? && full[i] == Tip(x))
  }

  lemma {:induction false} FillShape(trees: seq<Tree>, n: nat, row: nat, base: nat)
    requires Shape(trees, n, row)
    ensures Shape(Fill(trees, base), n, row)
    decreases n
  {
    if n == 0 {
    } else if n % 2 == 0 {
      FillShape(trees, n / 2, row + 1, base);
    } else {
      var k := |trees| - 1;
      FillShape(trees[..k], n / 2, row + 1, base);
      assert Fill(trees, base)[..k] == Fill(trees[..k], base);
    }
  }

  lemma {:induction false} FillIds(trees: seq<Tree>, base: nat, bound: nat)
    requires Distinct(AllIds(trees)) && bound <= base && forall x :: x in AllIds(trees) ==> x < bound
    ensures Distinct(AllIds(Fill(trees, base)))
    ensures forall x :: x in AllIds(Fill(trees, base)) ==> x in AllIds(trees) || base <= x < base + |trees|
    decreases |trees|
  {
    hide Fill, AllIds, Distinct;
    if trees == [] {
      NoIds(trees, base);
    } else {
      var t, rest := trees[0], trees[1..];
      FillRest(trees, base);
      DistinctParts(Ids(t), AllIds(rest));
      forall x | x in AllIds(rest) ensures x < bound { assert x in AllIds(trees); }
      forall x | x in Ids(t) ensures x < bound { assert x in AllIds(trees); }
      FillIds(rest, base + 1, bound);
      var a, b := Ids(Fill(trees, base)[0]), AllIds(Fill(rest, base + 1));
      if t.Nil? { OneDistinct(base); }
      DistinctJoin(a, b);
    }
  }

  lemma NoIds(trees: seq<Tree>, base: nat)
    requires trees == []
    ensures AllIds(Fill(trees, base)) == multiset{} && Distinct(multiset{})
  {
  }

  lemma OneDistinct(x: nat)
    ensures Ids(Tip(x)) == multiset{x} && Distinct(multiset{x})
  {
  }

  lemma DistinctJoin(a: multiset<nat>, b: multiset<nat>)
    requires Distinct(a) && Distinct(b) && forall x :: x in a ==> x !in b
    ensures Distinct(a + b)
  {
    forall x | x in a + b ensures (a + b)[x] == 1 { assert (a + b)[x] == a[x] + b[x]; }
  }

  lemma FillRest(trees: seq<Tree>, base: nat)
    requires trees != []
    ensures Fill(trees, base)[1..] == Fill(trees[1..], base + 1)
    ensures AllIds(Fill(trees, base)) == Ids(Fill(trees, base)[0]) + AllIds(Fill(trees[1..], base + 1))
    ensures AllIds(trees) == Ids(trees[0]) + AllIds(trees[1..])
    ensures Fill(trees, base)[0] == if trees[0].Nil? then Tip(base) else trees[0]
  {
    assert Fill(trees, base)[1..] == Fill(trees[1..], base + 1);
  }

  lemma {:induction false} Bound(m: multiset<nat>) returns (b: nat)
    ensures forall x :: x in m ==> x < b
    decreases |m|
  {
    if m == multiset{} {
      b := 0;
    } else {
      var x :| x in m;
      b := Bound(m - multiset{x});
      if b <= x { b := x + 1; }
      forall y | y in m ensures y < b {
        if y != x { assert y in m - multiset{x}; }
      }
    }
  }

  /** Every forest can be filled. */
  lemma FillExists(trees: seq<Tree>, n: nat, ids: seq<nat>) returns (full: seq<Tree>, gone: set<nat>)
    requires WellFormed(trees, n) && Fresh(trees, ids)
    ensures Filled(full, trees, n, ids, gone)
  {
    hide Shape, AllIds, Ids;
    var base := Bound(AllIds(trees) + multiset(ids));
    full, gone := Fill(trees, base), Fillers(trees, base);
    forall x | x in AllIds(trees) ensures x < base { assert x in AllIds(trees) + multiset(ids); }
    forall i | 0 <= i < |ids| ensures ids[i] < base { assert ids[i] in AllIds(trees) + multiset(ids); }
    FillShape(trees, n, 0, base);
    FillIds(trees, base, base);
    forall i | 0 <= i < |trees| && !trees[i].Nil? ensures forall x :: x in gone ==> x !in Ids(trees[i]) {
      AllIdsMember(trees, i);
      forall x | x in Ids(trees[i]) ensures x < base { assert x in AllIds(trees); }
    }
    FillersPlaced(trees, base);
  }

  lemma FillersPlaced(trees: seq<Tree>, base: nat)
    ensures forall x :: x in Fillers(trees, base) ==>
              exists i :: 0 <= i < |trees| && trees[i].Nil? && Fill(trees, base)[i] == Tip(x)
  {
    forall x | x in Fillers(trees, base)
      ensures exists i :: 0 <= i < |trees| && trees[i].Nil? && Fill(trees, base)[i] == Tip(x)
    {
      var i :| 0 <= i < |trees| && trees[i].Nil? && base + i == x;
      assert Fill(trees, base)[i] == Tip(x);
    }
  }

  lemma FilledPruned(full: seq<Tree>, trees: seq<Tree>, n: nat, ids: seq<nat>, gone: set<nat>)
    requires Filled(full, trees, n, ids, gone)
    ensures PruneAll(full, gone) == trees
  {
    hide Shape, AllIds, Ids;
    forall i | 0 <= i < |trees| ensures Prune(full[i], gone) == trees[i] {
      ShapeEach(full, n, 0, i);
      if !trees[i].Nil? { PruneNothing(trees[i], gone); }
    }
  }

  // ----- additions -----

  lemma {:induction false} PruneCarry(full: seq<Tree>, n: nat, t: Tree, gone: set<nat>)
    requires |full| == PopCount(n) && NoHoles(full) && t != Nil && Prune(t, gone) != Nil
    ensures PruneAll(Carry(full, n, t), gone) == Carry(PruneAll(full, gone), n, Prune(t, gone))
    decreases n
  {
    hide Prune, PruneAll;
    if n % 2 == 0 {
      PruneAppend(full, t, gone);
    } else {
      var k := |full| - 1;
      PruneFork(full[k], t, gone);
      PruneCarry(full[..k], n / 2, Fork(full[k], t), gone);
      PrunePrefix(full, k, gone);
    }
  }

  lemma PrunePrefix(trees: seq<Tree>, k: nat, gone: set<nat>)
    requires k <= |trees|
    ensures PruneAll(trees, gone)[..k] == PruneAll(trees[..k], gone)
  {
  }

  /** The carry joins what the deletion leaves. */
  lemma PruneFork(l: Tree, t: Tree, gone: set<nat>)
    requires t != Nil && Prune(t, gone) != Nil
    ensures Prune(Fork(l, t), gone) == Join(Prune(l, gone), Prune(t, gone)) != Nil
  {
  }

  lemma PruneAppend(trees: seq<Tree>, t: Tree, gone: set<nat>)
    ensures PruneAll(trees + [t], gone) == PruneAll(trees, gone) + [Prune(t, gone)]
  {
  }

  /** Adding to the forest with holes is adding to the filled forest and taking the fillers out. */
  lemma {:induction false} PruneAdd(full: seq<Tree>, n: nat, ids: seq<nat>, gone: set<nat>)
    requires |full| == PopCount(n) && NoHoles(full) && forall i :: 0 <= i < |ids| ==> ids[i] !in gone
    ensures PruneAll(AddAll(full, n, ids), gone) == AddAll(PruneAll(full, gone), n, ids)
    decreases |ids|
  {
    hide Carry;
    if ids != [] {
      var t := Tip(ids[0]);
      PruneCarry(full, n, t, gone);
      CarryNew(full, n, t);
      CarryLength(PruneAll(full, gone), n, t);
      PruneAdd(Carry(full, n, t), n + 1, ids[1..], gone);
    }
  }

  // ----- the holes in the grown forest -----

  /** Position p held an empty root of the forest with n leaves. */
  predicate HoleAt(trees: seq<Tree>, n: nat, S: nat, p: nat)
    requires |trees| == PopCount(n)
  {
    && OffOf(p, S) >= 0 && RootCoord(RowOf(p, S), OffOf(p, S), n)
    && (RootIndexBound(n, RowOf(p, S)); trees[RootIndex(n, RowOf(p, S))] == Nil)
  }

  /** The empty roots that an addition up to m leaves writes over. */
  predicate WrittenOver(trees: seq<Tree>, n: nat, m: nat, S: nat, p: nat)
    requires |trees| == PopCount(n) && Fits(m, S)
  {
    Valid(p, m, S) && HoleAt(trees, n, S, p) && !IsRootPosition(p, m, S)
  }

  function Overwritten(trees: seq<Tree>, n: nat, m: nat, S: nat): set<nat>
    requires |trees| == PopCount(n) && Fits(m, S)
  {
    set p: nat | p < WORD && WrittenOver(trees, n, m, S, p)
  }

  lemma OverwrittenIs(trees: seq<Tree>, n: nat, m: nat, S: nat, p: nat)
    requires |trees| == PopCount(n) && Fits(m, S)
    ensures p in Overwritten(trees, n, m, S) <==> WrittenOver(trees, n, m, S, p)
  {
    hide RowOf, OffOf, IsRootPosition, PopCount;
    if WrittenOver(trees, n, m, S, p) { PositionWord(p, m, S); }
  }

  /** A filled forest grown to m leaves: `grown` with the fillers, `result` without. */
  ghost predicate FilledGrowth(trees: seq<Tree>, n: nat, ids: seq<nat>, full: seq<Tree>, gone: set<nat>,
                               grown: seq<Tree>, m: nat, S: nat) {
    && Filled(full, trees, n, ids, gone) && |trees| == PopCount(n)
    && m == n + |ids| && Fits(m, S) && |grown| == PopCount(m) && grown == AddAll(full, n, ids)
  }

  lemma {:induction false} RowOfRoot(n: nat, i: nat) returns (row: nat)
    requires i < PopCount(n)
    ensures Shr(n, row) % 2 == 1 && RootIndex(n, row) == i
    decreases n
  {
    if n % 2 == 1 && i == PopCount(n) - 1 {
      row := 0;
      ShrZero(n);
      ShrStep(n, 0);
    } else {
      row := RowOfRoot(n / 2, i);
      assert Shr(n, row + 1) == Shr(n / 2, row) && Shr(n, row + 2) == Shr(n / 2, row + 1);
      row := row + 1;
    }
  }

  /** At a hole stands a filler. */
  lemma HoleFilled(trees: seq<Tree>, n: nat, ids: seq<nat>, full: seq<Tree>, gone: set<nat>, grown: seq<Tree>,
                   m: nat, S: nat, p: nat)
    requires FilledGrowth(trees, n, ids, full, gone, grown, m, S) && Valid(p, m, S) && HoleAt(trees, n, S, p)
    ensures Sound(grown, m, S) && At(grown, m, S, p).Tip? && At(grown, m, S, p).id in gone
  {
    hide RowOf, OffOf, Shr, NodeAt, AddAll, PopCount, Shape, AllIds;
    AddWellFormed(full, n, ids);
    ShapeLength(grown, m, 0);
    var row, off := RowOf(p, S), OffOf(p, S);
    RootIndexBound(n, row);
    ShrMonotone(n, m, row);
    AddStable(full, n, ids, row, off);
    NodeAtRoot(full, n, row, off);
  }

  /** Every filler stands at a hole. */
  lemma FillerHole(trees: seq<Tree>, n: nat, ids: seq<nat>, full: seq<Tree>, gone: set<nat>, grown: seq<Tree>,
                   m: nat, S: nat, x: nat) returns (p: nat)
    requires FilledGrowth(trees, n, ids, full, gone, grown, m, S) && x in gone
    ensures Valid(p, m, S) && HoleAt(trees, n, S, p) && At(grown, m, S, p) == Tip(x)
  {
    hide RowOf, OffOf, Shr, NodeAt, AddAll, PopCount, WellFormed, Encode;
    var i :| 0 <= i < |trees| && trees[i].Nil? && full[i] == Tip(x);
    var row := RowOfRoot(n, i);
    var off := Shr(n, row) - 1;
    ShrMonotone(n, m, row);
    ValidEncode(row, off, m, S);
    p := Encode(row, off, S);
    AddStable(full, n, ids, row, off);
    NodeAtRoot(full, n, row, off);
  }

  ghost function HoleSet(trees: seq<Tree>, n: nat, m: nat, S: nat): set<nat>
    requires |trees| == PopCount(n)
  {
    set p: nat | p < WORD && Valid(p, m, S) && HoleAt(trees, n, S, p)
  }

  lemma HoleSetIs(trees: seq<Tree>, n: nat, m: nat, S: nat, p: nat)
    requires |trees| == PopCount(n) && Fits(m, S)
    ensures p in HoleSet(trees, n, m, S) <==> Valid(p, m, S) && HoleAt(trees, n, S, p)
  {
    hide RowOf, OffOf, PopCount;
    if Valid(p, m, S) && HoleAt(trees, n, S, p) { PositionWord(p, m, S); }
  }

  /** Taking the fillers out is the deletion of the leaves at the holes. */
  lemma HolesDeleted(trees: seq<Tree>, n: nat, ids: seq<nat>, full: seq<Tree>, gone: set<nat>, grown: seq<Tree>,
                     m: nat, S: nat) returns (block: seq<nat>, tops: seq<nat>)
    requires FilledGrowth(trees, n, ids, full, gone, grown, m, S)
    ensures Deletion(grown, m, S, block, tops, gone)
    ensures Elements(block) == HoleSet(trees, n, m, S)
    ensures PruneAll(grown, gone) == AddAll(trees, n, ids)
  {
    hide Valid, HoleAt, AddAll, PopCount, WellFormed, At, IsRootPosition, AllBelow, NoHoles, Fresh;
    block := Sorted(HoleSet(trees, n, m, S));
    GrownSound(trees, n, ids, full, gone, grown, m, S);
    forall i | 0 <= i < |block|
      ensures Valid(block[i], m, S) && At(grown, m, S, block[i]).Tip? && At(grown, m, S, block[i]).id in gone
    {
      ElementsAt(block, i);
      HoleSetIs(trees, n, m, S, block[i]);
      HoleFilled(trees, n, ids, full, gone, grown, m, S, block[i]);
    }
    var at := TargetIds(grown, m, S, block);
    forall x ensures x in gone <==> x in Elements(at) {
      if x in gone {
        var p := FillerHole(trees, n, ids, full, gone, grown, m, S, x);
        HoleSetIs(trees, n, m, S, p);
        var i :| 0 <= i < |block| && block[i] == p;
        ElementsAt(at, i);
      }
    }
    tops := TopsExist(block, m, S);
    FilledPruned(full, trees, n, ids, gone);
    PruneAdd(full, n, ids, gone);
  }

  lemma GrownSound(trees: seq<Tree>, n: nat, ids: seq<nat>, full: seq<Tree>, gone: set<nat>, grown: seq<Tree>,
                   m: nat, S: nat)
    requires FilledGrowth(trees, n, ids, full, gone, grown, m, S)
    ensures Sound(grown, m, S)
  {
    hide AddAll, Shape, AllIds;
    AddWellFormed(full, n, ids);
    ShapeLength(grown, m, 0);
  }

  // ----- the new leaf beside the holes -----

  /** The first new leaf is below the sibling of every hole that is written over, and below no hole. */
  lemma BesideHole(trees: seq<Tree>, n: nat, m: nat, S: nat, p: nat)
    requires |trees| == PopCount(n) && n < m && Fits(m, S) && Valid(p, m, S) && HoleAt(trees, n, S, p)
    ensures Valid(n, m, S) && RowOf(n, S) == 0 && OffOf(n, S) == n && p !in PathOf(n, m, S)
    ensures !IsRootPosition(p, m, S) ==> Valid(Parent(p, S), m, S) && Parent(p, S) in PathOf(n, m, S)
  {
    hide RowOf, OffOf, Shr, IsRootPosition, Parent, Sibling, Level, PathOf, PopCount, RootIndex;
    FirstLeaf(n, m, S);
    var row := RowOf(p, S);
    if p in PathOf(n, m, S) { PathShift(n, m, S, p); }
    if !IsRootPosition(p, m, S) {
      Climb(p, m, S);
      ShrStep(n, row);
      AbovePath(Parent(p, S), n, m, S);
    }
  }

  lemma FirstLeaf(n: nat, m: nat, S: nat)
    requires n < m && Fits(m, S)
    ensures Valid(n, m, S) && RowOf(n, S) == 0 && OffOf(n, S) == n
  {
    hide RowOf, OffOf, RowStart;
    ShrZero(m);
    ValidEncode(0, n, m, S);
    RowStartZero(S);
  }

  /** The offset of a path slot above a bottom slot. */
  lemma {:induction false} PathShift(x: nat, m: nat, S: nat, a: nat)
    requires Fits(m, S) && Valid(x, m, S) && a in PathOf(x, m, S)
    ensures RowOf(x, S) <= RowOf(a, S) && OffOf(x, S) >= 0
    ensures OffOf(a, S) == Shr(OffOf(x, S), RowOf(a, S) - RowOf(x, S))
    decreases Level(x, m, S)
  {
    hide RowOf, OffOf, Shr, IsRootPosition, Parent, Sibling, Level;
    PathOfFacts(x, m, S, a);
    ShrZero(OffOf(x, S));
    if a != x {
      Climb(x, m, S);
      Halve(OffOf(x, S));
      PathShift(Parent(x, S), m, S, a);
      ShrCompose(OffOf(x, S), 1, RowOf(a, S) - RowOf(x, S) - 1);
    }
  }

  /** The tops are the holes, as far as they are no roots. */
  lemma HoleTops(trees: seq<Tree>, n: nat, m: nat, S: nat, block: seq<nat>, d: nat)
    requires |trees| == PopCount(n) && n <= m && Fits(m, S) && Elements(block) == HoleSet(trees, n, m, S)
    requires Valid(d, m, S) && !IsRootPosition(d, m, S)
    ensures IsTop(d, block, m, S) <==> d in Overwritten(trees, n, m, S)
  {
    hide RowOf, OffOf, IsRootPosition, Parent, Level, PathOf, PopCount, HoleAt, AllBelow, Valid;
    OverwrittenIs(trees, n, m, S, d);
    if d in Overwritten(trees, n, m, S) {
      HoleSetIs(trees, n, m, S, d);
      ListedBelow(d, block, m, S);
      BesideUncovered(trees, n, m, S, block, d);
    }
    if IsTop(d, block, m, S) {
      var t := TopListed(d, block, m, S);
      HoleSetIs(trees, n, m, S, t);
      if d != t {
        if IsRootPosition(t, m, S) { RootPath(t, m, S); }
        BesideUncovered(trees, n, m, S, block, t);
        ParentPath(t, m, S);
        BelowCovered(Parent(t, S), d, block, m, S);
      }
    }
  }

  lemma HoleGrows(trees: seq<Tree>, n: nat, m: nat, S: nat, p: nat)
    requires |trees| == PopCount(n) && n <= m && Fits(m, S)
    requires Valid(p, m, S) && HoleAt(trees, n, S, p) && !IsRootPosition(p, m, S)
    ensures n < m
  {
    hide OffOf, IsRootPosition, PopCount, RowOf, Parent, Sibling, Level;
    Climb(p, m, S);
  }

  lemma NoneOver(trees: seq<Tree>, n: nat, S: nat)
    requires |trees| == PopCount(n) && Fits(n, S)
    ensures Overwritten(trees, n, n, S) == {} == Elements([])
  {
    hide RowOf, OffOf, PopCount, IsRootPosition;
    forall p: nat ensures p !in Overwritten(trees, n, n, S) {
      OverwrittenIs(trees, n, n, S, p);
      if WrittenOver(trees, n, n, S, p) { HoleGrows(trees, n, n, S, p); }
    }
  }

  lemma BesideUncovered(trees: seq<Tree>, n: nat, m: nat, S: nat, block: seq<nat>, p: nat)
    requires |trees| == PopCount(n) && n <= m && Fits(m, S) && Elements(block) == HoleSet(trees, n, m, S)
    requires Valid(p, m, S) && HoleAt(trees, n, S, p) && !IsRootPosition(p, m, S)
    ensures Valid(Parent(p, S), m, S) && !AllBelow(Parent(p, S), block, m, S)
  {
    hide OffOf, IsRootPosition, Parent, PathOf, PopCount, HoleAt, RowOf, Valid;
    HoleGrows(trees, n, m, S, p);
    BesideHole(trees, n, m, S, p);
    if AllBelow(Parent(p, S), block, m, S) {
      assert Covers(Elements(block), n, m, S);
      var t :| t in Elements(block) && t in PathOf(n, m, S);
      HoleSetIs(trees, n, m, S, t);
      BesideHole(trees, n, m, S, t);
    }
  }

  /** Where the nodes go when the fillers are taken out. */
  lemma MovedOverHoles(trees: seq<Tree>, n: nat, m: nat, S: nat, block: seq<nat>, tops: seq<nat>, p: nat)
    requires |trees| == PopCount(n) && n <= m && Fits(m, S) && Elements(block) == HoleSet(trees, n, m, S)
    requires Tops(block, tops, m, S) && Valid(p, m, S)
    ensures Moved(p, Elements(tops), m, S) == Moved(p, Overwritten(trees, n, m, S), m, S)
  {
    hide RowOf, OffOf, IsRootPosition, Parent, Level, PathOf, PopCount, Sibling, Moved, Valid, Overwritten, IsTop;
    forall q | q in PathOf(p, m, S) && !IsRootPosition(q, m, S)
      ensures Sibling(q) in Elements(tops) <==> Sibling(q) in Overwritten(trees, n, m, S)
    {
      PathOfFacts(p, m, S, q);
      Climb(q, m, S);
      HoleTops(trees, n, m, S, block, Sibling(q));
    }
    MovedAgree(p, Elements(tops), Overwritten(trees, n, m, S), m, S);
  }
}
