/** What `roots_to_destroy` (src/util/mod.rs) lists, and for which roots that is right. */
module ListedRoots {
  import opened Bits
  import opened Positions
  import opened Forest
  import opened ProofUpdates
  import opened HolesFilled
  import opened DestroyedRoots
  import opened Stages

  /** The root of the row is empty. */
  predicate EmptyRow(roots: seq<Hash>, n: nat, row: nat)
    requires |roots| == PopCount(n)
  {
    Shr(n, row) % 2 == 1 && RootEmpty(roots, n, row)
  }

  /** p is where the root of the row stands. */
  predicate IsRootSlot(p: nat, n: nat, row: nat, rows: nat) {
    row <= rows && Shr(n, row) > 0 && p == Encode(row, Shr(n, row) - 1, rows)
  }

  /** The root of the row is empty, and no root any more with m leaves. */
  predicate OverRow(roots: seq<Hash>, n: nat, m: nat, row: nat)
    requires |roots| == PopCount(n)
  {
    EmptyRow(roots, n, row) && Shr(n, row) < Shr(m, row)
  }

  // ----- one run of pops -----

  /** What popping L entries lists. */
  function RunList(stack: seq<Hash>, leaves: nat, h: nat, rows: nat, L: nat): seq<nat>
    requires L <= |stack| && rows < 62 && h + L <= rows + 1
    decreases L
  {
    if L == 0 then []
    else
      var k := |stack| - 1;
      (if stack[k].Empty? then [RootPosition(leaves, h, rows)] else [])
          + RunList(stack[..k], leaves, h + 1, rows, L - 1)
  }

  lemma Concat(a: seq<nat>, b: seq<nat>, c: seq<nat>)
    ensures a + (b + c) == (a + b) + c
  {
  }

  lemma RunListNext(stack: seq<Hash>, leaves: nat, h: nat, rows: nat, L: nat)
    requires 0 < L <= |stack| && rows < 62 && h + L <= rows + 1
    ensures RunList(stack, leaves, h, rows, L) ==
            (if stack[|stack| - 1].Empty? then [RootPosition(leaves, h, rows)] else [])
            + RunList(stack[..|stack| - 1], leaves, h + 1, rows, L - 1)
  {
    hide RootPosition;
  }

  /** One addition. */
  lemma {:induction false} OneRound(stack: seq<Hash>, leaves: nat, h: nat, adds: nat, rows: nat, L: nat)
    requires leaves < Pow2(rows) && h <= rows < 62 && adds > 0 && L == Ones(Shr(leaves, h)) && L <= |stack|
    ensures h + L <= rows
    ensures Destroys(stack, leaves, h, adds, rows) ==
            RunList(stack, leaves, h, rows, L)
            + Destroys(stack[..|stack| - L] + [Placeholder], leaves + 1, h + L, adds - 1, rows)
    decreases L
  {
    hide Shr, Pow2, RootPosition, Destroys, RunList;
    OnesStep(leaves, h);
    if L == 0 {
      NoRun(stack, leaves, h, rows);
      DestroysPush(stack, leaves, h, adds, rows);
      assert stack[..|stack|] == stack;
    } else {
      RootBelowTop(leaves, h, rows);
      DestroysPop(stack, leaves, h, adds, rows, []);
      var rest := stack[..|stack| - 1];
      OneRound(rest, leaves, h + 1, adds, rows, L - 1);
      RunListNext(stack, leaves, h, rows, L);
      assert stack[..|stack| - L] == rest[..|rest| - (L - 1)];
      var first := if stack[|rest|].Empty? then [RootPosition(leaves, h, rows)] else [];
      assert [] + Destroys(stack, leaves, h, adds, rows) == first + Destroys(rest, leaves, h + 1, adds, rows);
      Concat(first, RunList(rest, leaves, h + 1, rows, L - 1),
             Destroys(stack[..|stack| - L] + [Placeholder], leaves + 1, h + L, adds - 1, rows));
    }
  }

  lemma NoRun(stack: seq<Hash>, leaves: nat, h: nat, rows: nat)
    requires rows < 62 && h <= rows + 1
    ensures RunList(stack, leaves, h, rows, 0) == []
  {
  }

  /** As long as the row has a zero nothing is listed. */
  lemma {:induction false} Waiting(stack: seq<Hash>, leaves: nat, h: nat, adds: nat, rows: nat, k: nat)
    requires rows < 62 && k <= adds && forall x: nat :: leaves <= x < leaves + k ==> Shr(x, h) % 2 == 0
    ensures Destroys(stack, leaves, h, adds, rows) == Destroys(stack + Placeholders(k), leaves + k, h, adds - k, rows)
    decreases k
  {
    hide Shr, Destroys;
    if k == 0 {
      assert stack + Placeholders(0) == stack;
    } else {
      DestroysPush(stack, leaves, h, adds, rows);
      Waiting(stack + [Placeholder], leaves + 1, h, adds - 1, rows, k - 1);
      assert stack + [Placeholder] + Placeholders(k - 1) == stack + Placeholders(k);
    }
  }

  function Placeholders(k: nat): (r: seq<Hash>)
    ensures |r| == k && forall i :: 0 <= i < k ==> r[i] == Placeholder
  {
    seq(k, i => Placeholder)
  }

  /** The entry popped at distance j is listed at row h + j if it is empty. */
  ghost predicate PopListed(stack: seq<Hash>, leaves: nat, h: nat, rows: nat, j: nat, p: nat)
    requires rows < 62 && h + j <= rows
  {
    j < |stack| && stack[|stack| - 1 - j].Empty? && p == RootPosition(leaves, h + j, rows)
  }

  ghost predicate SomeListed(stack: seq<Hash>, leaves: nat, h: nat, rows: nat, L: nat, p: nat)
    requires rows < 62 && h + L <= rows + 1
  {
    exists j: nat :: j < L && PopListed(stack, leaves, h, rows, j, p)
  }

  lemma {:induction false} RunMember(stack: seq<Hash>, leaves: nat, h: nat, rows: nat, L: nat, p: nat)
    requires L <= |stack| && rows < 62 && h + L <= rows + 1
    ensures p in RunList(stack, leaves, h, rows, L) <==> SomeListed(stack, leaves, h, rows, L, p)
    decreases L
  {
    hide RootPosition, RunList;
    if L == 0 {
      NoRun(stack, leaves, h, rows);
    } else {
      RunListNext(stack, leaves, h, rows, L);
      RunMember(stack[..|stack| - 1], leaves, h + 1, rows, L - 1, p);
      PopFirst(stack, leaves, h, rows, L, p);
    }
  }

  lemma PopFirst(stack: seq<Hash>, leaves: nat, h: nat, rows: nat, L: nat, p: nat)
    requires 0 < L <= |stack| && rows < 62 && h + L <= rows + 1
    ensures SomeListed(stack, leaves, h, rows, L, p) <==>
            || (stack[|stack| - 1].Empty? && p == RootPosition(leaves, h, rows))
            || SomeListed(stack[..|stack| - 1], leaves, h + 1, rows, L - 1, p)
  {
    hide RootPosition;
    var rest := stack[..|stack| - 1];
    if SomeListed(stack, leaves, h, rows, L, p) {
      var j: nat :| j < L && PopListed(stack, leaves, h, rows, j, p);
      if j > 0 { assert PopListed(rest, leaves, h + 1, rows, j - 1, p); }
    }
    if SomeListed(rest, leaves, h + 1, rows, L - 1, p) {
      var j: nat :| j < L - 1 && PopListed(rest, leaves, h + 1, rows, j, p);
      assert PopListed(stack, leaves, h, rows, j + 1, p);
    }
    if stack[|stack| - 1].Empty? && p == RootPosition(leaves, h, rows) {
      assert PopListed(stack, leaves, h, rows, 0, p);
    }
  }

  // ----- stages -----

  /** The stack of the loop: the first r roots, and the leaves added since. */
  function Stack(roots: seq<Hash>, r: nat, c: nat): (s: seq<Hash>)
    requires r <= |roots|
    ensures |s| == r + c
  {
    roots[..r] + Placeholders(c)
  }

  /** From row z on, the root popped at row h is empty. */
  predicate ListsRow(roots: seq<Hash>, n: nat, z: nat, time: nat, c: nat, r: nat, adds: nat, h: nat) {
    var i := PulledAt(n, z, time, c, r, adds, h);
    0 <= i < |roots| && roots[i].Empty?
  }

  ghost predicate ListsAt(roots: seq<Hash>, n: nat, z: nat, time: nat, c: nat, r: nat, adds: nat, rows: nat, p: nat) {
    exists h: nat :: ListsRow(roots, n, z, time, c, r, adds, h) && IsRootSlot(p, n, h, rows)
  }

  /** The run of a stage, entry by entry. */
  lemma StageRun(roots: seq<Hash>, n: nat, z: nat, time: nat, c: nat, r: nat, adds: nat, rows: nat, p: nat)
    requires Stage(n, z, time) && c >= 1 && PopCount(Shr(n, z + 1)) <= r <= |roots| && time < adds
    requires n + adds <= Pow2(rows) && rows < 62 && NextZero(n, z) <= rows
    ensures SomeListed(Stack(roots, r, c), n + time, z, rows, 1 + Ones(Shr(n, z + 1)), p) <==>
            exists h: nat ::
              h < NextZero(n, z) && ListsRow(roots, n, z, time, c, r, adds, h) && IsRootSlot(p, n, h, rows)
  {
    hide Shr, Pow2, PopCount, RootPosition, Stage, Ones, Encode, Stack, ListsRow;
    var L := Ones(Shr(n, z + 1));
    if SomeListed(Stack(roots, r, c), n + time, z, rows, 1 + L, p) {
      var j: nat :| j < 1 + L && PopListed(Stack(roots, r, c), n + time, z, rows, j, p);
      EntryListed(roots, n, z, time, c, r, adds, rows, p, j);
      assert z + j < NextZero(n, z);
    }
    if h: nat :| h < NextZero(n, z) && ListsRow(roots, n, z, time, c, r, adds, h) && IsRootSlot(p, n, h, rows) {
      NothingBelow(roots, n, z, time, c, r, adds, h);
      EntryListed(roots, n, z, time, c, r, adds, rows, p, h - z);
    }
  }

  lemma NothingBelow(roots: seq<Hash>, n: nat, z: nat, time: nat, c: nat, r: nat, adds: nat, h: nat)
    requires ListsRow(roots, n, z, time, c, r, adds, h)
    ensures h > z
  {
  }

  lemma EntryListed(roots: seq<Hash>, n: nat, z: nat, time: nat, c: nat, r: nat, adds: nat, rows: nat, p: nat, j: nat)
    requires Stage(n, z, time) && c >= 1 && PopCount(Shr(n, z + 1)) <= r <= |roots| && time < adds
    requires n + adds <= Pow2(rows) && rows < 62 && NextZero(n, z) <= rows && j <= Ones(Shr(n, z + 1))
    ensures PopListed(Stack(roots, r, c), n + time, z, rows, j, p) <==>
            ListsRow(roots, n, z, time, c, r, adds, z + j) && IsRootSlot(p, n, z + j, rows)
  {
    hide Shr, Pow2, PopCount, RootPosition, Stage, Ones, Encode;
    OnesCount(Shr(n, z + 1));
    StackTop(roots, r, c, j);
    if j > 0 {
      StageDigits(n, z, time);
      RunDigits(n, z, z + j);
      BitIsShrParity(n + time, z + j);
      RootPositionEncode(n + time, z + j, rows);
    }
  }

  lemma StackTop(roots: seq<Hash>, r: nat, c: nat, j: nat)
    requires r <= |roots| && j < r + c
    ensures Stack(roots, r, c)[r + c - 1 - j] == if j < c then Placeholder else roots[r - 1 - (j - c)]
  {
  }

  /** What is left of the stack after a run of L ones. */
  lemma StackNext(roots: seq<Hash>, r: nat, c: nat, L: nat)
    requires L <= r <= |roots| && c >= 1
    ensures 1 + L <= r + c && RootsTaken(c, L) <= r
    ensures Stack(roots, r, c)[..r + c - (1 + L)] + [Placeholder] == Stack(roots, r - RootsTaken(c, L), Left(c, L) + 1)
  {
  }

  lemma StackPush(roots: seq<Hash>, r: nat, c: nat, k: nat)
    requires r <= |roots|
    ensures Stack(roots, r, c) + Placeholders(k) == Stack(roots, r, c + k)
  {
  }

  lemma StageRest(roots: seq<Hash>, n: nat, z: nat, time: nat, c: nat, r: nat, adds: nat, rows: nat, z': nat,
                  time': nat)
    requires Stage(n, z, time) && r <= |roots| && time < adds && rows < 62 && c >= 1
    requires z' == NextZero(n, z) && time' == time + Pow2(z)
    ensures if adds < time' then Destroys(Stack(roots, r, c), n + time + 1, z', adds - time - 1, rows) == []
            else Destroys(Stack(roots, r, c), n + time + 1, z', adds - time - 1, rows) ==
                 Destroys(Stack(roots, r, c - 1 + Pow2(z)), n + time', z', adds - time', rows)
  {
    hide Shr, Pow2, Stage, Ones, Stack, Destroys, NextZero;
    StageNext(n, z, time);
    var k := (if adds < time' then adds else time') - time - 1;
    forall x: nat | n + time + 1 <= x < n + time + 1 + k ensures Shr(x, z') % 2 == 0 {
      StageWaits(n, z', time', x);
      StageEven(n, z', time');
    }
    Waiting(Stack(roots, r, c), n + time + 1, z', adds - time - 1, rows, k);
    StackPush(roots, r, c, k);
    if adds < time' { DestroysEnd(Stack(roots, r, c) + Placeholders(k), n + time + 1 + k, z', rows); }
  }

  lemma StageEven(n: nat, z: nat, time: nat)
    requires Stage(n, z, time)
    ensures Shr(n, z) % 2 == 0
  {
  }

  lemma NothingAt(roots: seq<Hash>, n: nat, z: nat, time: nat, c: nat, r: nat, adds: nat, rows: nat, p: nat)
    requires adds <= time
    ensures !ListsAt(roots, n, z, time, c, r, adds, rows, p)
  {
  }

  /** The rows of a run, and those above. */
  lemma RowNext(roots: seq<Hash>, n: nat, z: nat, time: nat, c: nat, r: nat, adds: nat, h: nat)
    requires time < adds && RootsTaken(c, Ones(Shr(n, z + 1))) <= r
    ensures var L := Ones(Shr(n, z + 1));
            ListsRow(roots, n, z, time, c, r, adds, h) <==>
            || (h < NextZero(n, z) && ListsRow(roots, n, z, time, c, r, adds, h))
            || ListsRow(roots, n, NextZero(n, z), time + Pow2(z), Left(c, L) + Pow2(z), r - RootsTaken(c, L), adds, h)
  {
    hide Shr, Pow2, Ones;
  }

  lemma SplitRows(roots: seq<Hash>, n: nat, z: nat, time: nat, c: nat, r: nat, adds: nat, rows: nat, p: nat)
    requires time < adds && RootsTaken(c, Ones(Shr(n, z + 1))) <= r
    ensures var L := Ones(Shr(n, z + 1));
            ListsAt(roots, n, z, time, c, r, adds, rows, p) <==>
            || (exists h: nat ::
                  h < NextZero(n, z) && ListsRow(roots, n, z, time, c, r, adds, h) && IsRootSlot(p, n, h, rows))
            || ListsAt(roots, n, NextZero(n, z), time + Pow2(z), Left(c, L) + Pow2(z), r - RootsTaken(c, L), adds, rows,
                       p)
  {
    hide Shr, Pow2, Ones, ListsRow, IsRootSlot, NextZero;
    forall h: nat
      ensures var L := Ones(Shr(n, z + 1));
              ListsRow(roots, n, z, time, c, r, adds, h) <==>
              || (h < NextZero(n, z) && ListsRow(roots, n, z, time, c, r, adds, h))
              || ListsRow(roots, n, NextZero(n, z), time + Pow2(z), Left(c, L) + Pow2(z), r - RootsTaken(c, L), adds, h)
    {
      RowNext(roots, n, z, time, c, r, adds, h);
    }
  }

  lemma NextZeroIs(n: nat, z: nat)
    ensures NextZero(n, z) == z + (1 + Ones(Shr(n, z + 1)))
  {
  }

  /** All that is listed from a stage on. */
  lemma {:induction false} StageList(roots: seq<Hash>, n: nat, z: nat, time: nat, c: nat, r: nat, adds: nat, rows: nat,
                                     p: nat)
    requires Stage(n, z, time) && c >= 1 && PopCount(Shr(n, z + 1)) <= r <= |roots| && time <= adds
    requires n + adds <= Pow2(rows) && rows < 62 && z <= rows
    ensures p in Destroys(Stack(roots, r, c), n + time, z, adds - time, rows) <==>
            ListsAt(roots, n, z, time, c, r, adds, rows, p)
    decreases adds - time
  {
    hide Shr, Pow2, PopCount, RootPosition, Stage, Ones, Encode, Stack, Destroys, RunList, SomeListed, ListsAt,
      NextZero;
    if time == adds {
      DestroysEnd(Stack(roots, r, c), n + time, z, rows);
      NothingAt(roots, n, z, time, c, r, adds, rows, p);
    } else {
      var L, z' := Ones(Shr(n, z + 1)), NextZero(n, z);
      StageDigits(n, z, time);
      RunCount(n, z);
      StackNext(roots, r, c, L);
      OneRound(Stack(roots, r, c), n + time, z, adds - time, rows, 1 + L);
      assert z' == z + (1 + L) by { NextZeroIs(n, z); }
      RunMember(Stack(roots, r, c), n + time, z, rows, 1 + L, p);
      StageRun(roots, n, z, time, c, r, adds, rows, p);
      StageRest(roots, n, z, time, Left(c, L) + 1, r - RootsTaken(c, L), adds, rows, z', time + Pow2(z));
      if time + Pow2(z) <= adds {
        StageNext(n, z, time);
        StageList(roots, n, z', time + Pow2(z), Left(c, L) + Pow2(z), r - RootsTaken(c, L), adds, rows, p);
      } else {
        NothingAt(roots, n, z', time + Pow2(z), Left(c, L) + Pow2(z), r - RootsTaken(c, L), adds, rows, p);
      }
      SplitRows(roots, n, z, time, c, r, adds, rows, p);
    }
  }

  // ----- the whole list -----

  /** The index of the root that is popped at row h, or -1. */
  function PoppedAt(n: nat, adds: nat, h: nat): int {
    if adds == 0 then -1
    else if h < Ones(n) then RootIndex(n, h)
    else PulledAt(n, Ones(n), 1, 1, PopCount(Shr(n, Ones(n) + 1)), adds, h)
  }

  /** The position of row h is listed. */
  predicate Lists(roots: seq<Hash>, n: nat, adds: nat, h: nat) {
    var i := PoppedAt(n, adds, h);
    0 <= i < |roots| && roots[i].Empty?
  }

  /** What `roots_to_destroy` lists, row by row. */
  lemma ListIs(roots: seq<Hash>, n: nat, adds: nat, rows: nat, p: nat)
    requires |roots| == PopCount(n) && n + adds <= Pow2(rows) && rows < 62
    ensures p in Destroys(roots, n, 0, adds, rows) <==>
            exists h: nat :: Lists(roots, n, adds, h) && IsRootSlot(p, n, h, rows)
  {
    hide Shr, Pow2, PopCount, Stage, Ones, Encode, Stack, Destroys, RunList, IsRootSlot, RootIndex, PulledAt, ListsAt;
    if adds == 0 {
      DestroysEnd(roots, n, 0, rows);
    } else {
      var z := Ones(n);
      var r := PopCount(Shr(n, z + 1));
      ShrZero(n);
      OnesCount(n);
      OnesEnd(n);
      ShrStep(n, z);
      EvenCount(Shr(n, z));
      FirstStage(n);
      OneRound(roots, n, 0, adds, rows, z);
      assert roots[..|roots| - z] + [Placeholder] == Stack(roots, r, 1) by { StackOne(roots, r); }
      StageList(roots, n, z, 1, 1, r, adds, rows, p);
      RunMember(roots, n, 0, rows, z, p);
      FirstRun(roots, n, adds, rows, p);
      FirstSplit(roots, n, adds, rows, p);
    }
  }

  lemma StackOne(roots: seq<Hash>, r: nat)
    requires r <= |roots|
    ensures Stack(roots, r, 1) == roots[..r] + [Placeholder]
  {
  }

  lemma FirstRun(roots: seq<Hash>, n: nat, adds: nat, rows: nat, p: nat)
    requires |roots| == PopCount(n) && n < Pow2(rows) && rows < 62 && Ones(n) <= rows && adds > 0
    ensures SomeListed(roots, n, 0, rows, Ones(n), p) <==>
            exists h: nat :: h < Ones(n) && Lists(roots, n, adds, h) && IsRootSlot(p, n, h, rows)
  {
    hide Shr, Pow2, PopCount, RootPosition, Ones, Encode, RootIndex, Lists;
    if SomeListed(roots, n, 0, rows, Ones(n), p) {
      var j: nat :| j < Ones(n) && PopListed(roots, n, 0, rows, j, p);
      FirstEntry(roots, n, adds, rows, p, j);
    }
    if h: nat :| h < Ones(n) && Lists(roots, n, adds, h) && IsRootSlot(p, n, h, rows) {
      FirstEntry(roots, n, adds, rows, p, h);
    }
  }

  lemma FirstEntry(roots: seq<Hash>, n: nat, adds: nat, rows: nat, p: nat, h: nat)
    requires |roots| == PopCount(n) && n < Pow2(rows) && rows < 62 && h < Ones(n) <= rows && adds > 0
    ensures PopListed(roots, n, 0, rows, h, p) <==> Lists(roots, n, adds, h) && IsRootSlot(p, n, h, rows)
  {
    hide Shr, Pow2, PopCount, RootPosition, Ones, Encode;
    OnesBelow(n, h);
    OnesPrefix(n, h + 1);
    BitIsShrParity(n, h);
    RootPositionEncode(n, h, rows);
  }

  lemma FirstSplit(roots: seq<Hash>, n: nat, adds: nat, rows: nat, p: nat)
    requires adds > 0
    ensures (exists h: nat :: Lists(roots, n, adds, h) && IsRootSlot(p, n, h, rows)) <==>
            || (exists h: nat :: h < Ones(n) && Lists(roots, n, adds, h) && IsRootSlot(p, n, h, rows))
            || ListsAt(roots, n, Ones(n), 1, 1, PopCount(Shr(n, Ones(n) + 1)), adds, rows, p)
  {
    hide Shr, PopCount, Ones, IsRootSlot, RootIndex, PulledAt;
    if ListsAt(roots, n, Ones(n), 1, 1, PopCount(Shr(n, Ones(n) + 1)), adds, rows, p) {
      var h: nat :| ListsRow(roots, n, Ones(n), 1, 1, PopCount(Shr(n, Ones(n) + 1)), adds, h)
        && IsRootSlot(p, n, h, rows);
      NothingBelow(roots, n, Ones(n), 1, 1, PopCount(Shr(n, Ones(n) + 1)), adds, h);
      assert Lists(roots, n, adds, h);
    }
  }

  // ----- rows that are treated right -----

  /** The additions neither write the root of the row over nor pop it; with c placeholders on top of the
      roots above row z when its time comes. */
  predicate Spared(n: nat, z: nat, time: nat, c: nat, adds: nat, row: nat) {
    Shr(n + adds, row) == Shr(n, row) && RootIndex(n, row) + Pulled(n, z, time, c, adds) < PopCount(Shr(n, z + 1))
  }

  /** What `roots_to_destroy` does with an empty root of the row is right.  Below the lowest zero z of n it
      always is; in the run above z if there is one addition at most, or enough to write the run over; in
      the next run likewise if z is 0.  Further up it is right only as long as nothing happens to it. */
  predicate TreatedRight(n: nat, adds: nat, row: nat) {
    var z := Ones(n);
    var y := NextZero(n, z);
    if row < z then true
    else if row < y then adds <= 1 || adds >= 1 + Pow2(z)
    else if z > 0 then Spared(n, y, 1 + Pow2(z), Pow2(z), adds, row)
    else if row < NextZero(n, y) then adds <= 2 || adds >= 2 + Pow2(y)
    else Spared(n, NextZero(n, y), 2 + Pow2(y), Pow2(y), adds, row)
  }

  /** The list is right about the row. */
  predicate RowRight(roots: seq<Hash>, n: nat, adds: nat, row: nat)
    requires |roots| == PopCount(n)
  {
    Lists(roots, n, adds, row) <==> OverRow(roots, n, n + adds, row)
  }

  lemma EmptyIndex(roots: seq<Hash>, n: nat, row: nat)
    requires |roots| == PopCount(n) && Shr(n, row) % 2 == 1
    ensures 0 <= RootIndex(n, row) < |roots| && (EmptyRow(roots, n, row) <==> roots[RootIndex(n, row)].Empty?)
  {
    hide Shr, PopCount;
    RootIndexBound(n, row);
  }

  lemma FirstRight(roots: seq<Hash>, n: nat, adds: nat, row: nat)
    requires |roots| == PopCount(n) && row < Ones(n)
    ensures RowRight(roots, n, adds, row)
  {
    hide Shr, PopCount, Ones, RootEmpty, RootIndex;
    OnesBelow(n, row);
    EmptyIndex(roots, n, row);
    if adds > 0 { ShrMonotone(n + 1, n + adds, row); }
  }

  /** A run that is reached with one placeholder on top. */
  lemma EarlyRight(roots: seq<Hash>, n: nat, z: nat, time: nat, adds: nat, row: nat)
    requires |roots| == PopCount(n) && Stage(n, z, time) && InRun(n, z, row)
    requires PoppedAt(n, adds, row) == PulledAt(n, z, time, 1, PopCount(Shr(n, z + 1)), adds, row)
    ensures RowRight(roots, n, adds, row) <==>
            (EmptyRow(roots, n, row) ==> adds <= time || adds >= time + Pow2(z))
  {
    hide Shr, PopCount, Ones, RootEmpty, RootIndex, PulledAt, PoppedAt, Pow2, Stage;
    RunDigits(n, z, row);
    EmptyIndex(roots, n, row);
    EarlyRun(n, z, time, adds, row);
    RunWritten(n, z, time, adds, row);
  }

  /** From row z on the list is right about all rows. */
  ghost predicate AllRight(roots: seq<Hash>, n: nat, adds: nat, z: nat)
    requires |roots| == PopCount(n)
  {
    forall row: nat :: row > z ==> RowRight(roots, n, adds, row)
  }

  /** If the list is right further up nothing is listed there: the lowest listed row would hold a root that is
      written over, and the root popped there comes from a lower row. */
  lemma {:induction false} NothingListed(roots: seq<Hash>, n: nat, z: nat, time: nat, c: nat, adds: nat, h: nat)
    requires |roots| == PopCount(n) && Stage(n, z, time) && z >= 1 && c >= 2 && h > z
    requires forall row: nat :: row > z ==>
             PoppedAt(n, adds, row) == PulledAt(n, z, time, c, PopCount(Shr(n, z + 1)), adds, row)
    requires AllRight(roots, n, adds, z)
    ensures !Lists(roots, n, adds, h)
    decreases h
  {
    hide Shr, PopCount, Ones, RootEmpty, PulledAt, PoppedAt, Pow2, Stage, Pulled;
    if Lists(roots, n, adds, h) {
      var i := PoppedAt(n, adds, h);
      LateRow(n, z, time, c, PopCount(Shr(n, z + 1)), adds, h);
      var row := RowOfRoot(n, i);
      RowsOrdered(n, row, h);
      StageEven(n, z, time);
      RowsAbove(n, z, row);
      EmptyIndex(roots, n, row);
      assert RowRight(roots, n, adds, h);
      OverBelow(n, n + adds, row, h);
      assert RowRight(roots, n, adds, row);
      NothingListed(roots, n, z, time, c, adds, row);
    }
  }

  lemma RowsOrdered(n: nat, row: nat, h: nat)
    requires Shr(n, h) % 2 == 1 && Shr(n, row) % 2 == 1 && RootIndex(n, h) < RootIndex(n, row)
    ensures row < h
  {
    hide Shr, RootIndex;
    if h < row { RootIndexInjective(n, h, row); }
  }

  lemma RowsAbove(n: nat, z: nat, row: nat)
    requires Shr(n, row) % 2 == 1 && Shr(n, z) % 2 == 0
    ensures RootIndex(n, row) < PopCount(Shr(n, z + 1)) <==> row > z
  {
    hide Shr, PopCount;
    if row > z {
      ShrCompose(n, z + 1, row - z - 1);
      ShrCompose(n, z + 1, row - z);
      RootIndexBound(Shr(n, z + 1), row - z - 1);
    } else {
      ShrCompose(n, row + 1, z - row);
      RootIndexBound(Shr(n, row + 1), z - row - 1);
      ShrCompose(n, row + 1, z - row - 1);
    }
  }

  lemma OverBelow(n: nat, m: nat, row: nat, h: nat)
    requires n <= m && row <= h && Shr(n, h) < Shr(m, h)
    ensures Shr(n, row) < Shr(m, row)
  {
    hide Shr;
    ShrMonotone(n, m, row);
    ShrCompose(n, row, h - row);
    ShrCompose(m, row, h - row);
  }

  lemma StaysSpared(roots: seq<Hash>, n: nat, z: nat, time: nat, c: nat, adds: nat, row: nat)
    requires |roots| == PopCount(n) && Stage(n, z, time) && z >= 1 && c >= 2 && row > z && EmptyRow(roots, n, row)
    requires forall h: nat :: h > z ==>
             PoppedAt(n, adds, h) == PulledAt(n, z, time, c, PopCount(Shr(n, z + 1)), adds, h)
    requires AllRight(roots, n, adds, z)
    ensures Spared(n, z, time, c, adds, row)
  {
    hide Shr, PopCount, Ones, RootEmpty, PulledAt, PoppedAt, Pow2, Stage, Pulled, RootIndex;
    var r := PopCount(Shr(n, z + 1));
    EmptyIndex(roots, n, row);
    StageEven(n, z, time);
    RowsAbove(n, z, row);
    assert RowRight(roots, n, adds, row);
    NothingListed(roots, n, z, time, c, adds, row);
    ShrMonotone(n, n + adds, row);
    if RootIndex(n, row) + Pulled(n, z, time, c, adds) >= r {
      var h := PulledRow(n, z, time, c, r, adds, RootIndex(n, row));
      NothingListed(roots, n, z, time, c, adds, h);
    }
  }

  lemma SparedUnlisted(roots: seq<Hash>, n: nat, z: nat, time: nat, c: nat, adds: nat, h: nat)
    requires |roots| == PopCount(n) && Stage(n, z, time) && z >= 1 && c >= 2 && h > z
    requires PoppedAt(n, adds, h) == PulledAt(n, z, time, c, PopCount(Shr(n, z + 1)), adds, h)
    requires forall row: nat :: row > z && EmptyRow(roots, n, row) ==> Spared(n, z, time, c, adds, row)
    ensures RowRight(roots, n, adds, h)
  {
    hide Shr, PopCount, Ones, RootEmpty, PulledAt, PoppedAt, Pow2, Stage, Pulled, RootIndex, EmptyRow;
    if Lists(roots, n, adds, h) {
      var i := PoppedAt(n, adds, h);
      LateRow(n, z, time, c, PopCount(Shr(n, z + 1)), adds, h);
      var row := RowOfRoot(n, i);
      StageEven(n, z, time);
      RowsAbove(n, z, row);
      EmptyIndex(roots, n, row);
    }
  }

  /** Above a zero that is reached with several placeholders on top. */
  lemma LateRight(roots: seq<Hash>, n: nat, z: nat, time: nat, c: nat, adds: nat)
    requires |roots| == PopCount(n) && Stage(n, z, time) && z >= 1 && c >= 2
    requires forall row: nat :: row > z ==>
             PoppedAt(n, adds, row) == PulledAt(n, z, time, c, PopCount(Shr(n, z + 1)), adds, row)
    ensures AllRight(roots, n, adds, z) <==>
            forall row: nat :: row > z && EmptyRow(roots, n, row) ==> Spared(n, z, time, c, adds, row)
  {
    hide Shr, PopCount, Ones, RootEmpty, PulledAt, PoppedAt, Pow2, Stage, Pulled, Lists, RootIndex, EmptyRow;
    if AllRight(roots, n, adds, z) {
      forall row: nat | row > z && EmptyRow(roots, n, row) ensures Spared(n, z, time, c, adds, row) {
        StaysSpared(roots, n, z, time, c, adds, row);
      }
    }
    if forall row: nat :: row > z && EmptyRow(roots, n, row) ==> Spared(n, z, time, c, adds, row) {
      forall h: nat | h > z ensures RowRight(roots, n, adds, h) {
        SparedUnlisted(roots, n, z, time, c, adds, h);
      }
    }
  }

  lemma ZeroRight(roots: seq<Hash>, n: nat, adds: nat, row: nat)
    requires |roots| == PopCount(n) && Shr(n, row) % 2 == 0 && PoppedAt(n, adds, row) == -1
    ensures RowRight(roots, n, adds, row)
  {
    hide Shr, PopCount, PoppedAt, RootEmpty;
  }

  /** The rows from the lowest zero on, in terms of the first stage. */
  lemma PoppedFirst(n: nat, adds: nat, row: nat)
    requires row >= Ones(n)
    ensures PoppedAt(n, adds, row) == PulledAt(n, Ones(n), 1, 1, PopCount(Shr(n, Ones(n) + 1)), adds, row)
    ensures row == Ones(n) ==> PoppedAt(n, adds, row) == -1
  {
    hide Shr, PopCount, Ones;
  }

  /** From the second zero on, in terms of the second stage. */
  lemma PoppedSecond(n: nat, adds: nat, row: nat)
    requires row >= NextZero(n, Ones(n))
    ensures var z := Ones(n);
            var y := NextZero(n, z);
            && PoppedAt(n, adds, row) == PulledAt(n, y, 1 + Pow2(z), Pow2(z), PopCount(Shr(n, y + 1)), adds, row)
            && (row == y ==> PoppedAt(n, adds, row) == -1)
  {
    hide Shr, PopCount, Ones, Pow2;
    PoppedFirst(n, adds, row);
    EarlyNext(n, Ones(n), 1, adds, row);
  }

  /** From the third zero on, if the lowest digit is zero. */
  lemma PoppedThird(n: nat, adds: nat, row: nat)
    requires Ones(n) == 0 && row >= NextZero(n, NextZero(n, 0))
    ensures var y := NextZero(n, 0);
            var x := NextZero(n, y);
            && PoppedAt(n, adds, row) == PulledAt(n, x, 2 + Pow2(y), Pow2(y), PopCount(Shr(n, x + 1)), adds, row)
            && (row == x ==> PoppedAt(n, adds, row) == -1)
  {
    hide Shr, PopCount, Ones, Pow2;
    assert Pow2(0) == 1 by { PowZero(); }
    PoppedSecond(n, adds, row);
    EarlyNext(n, NextZero(n, 0), 2, adds, row);
  }

  lemma PowZero()
    ensures Pow2(0) == 1
  {
  }

  lemma LowRow(roots: seq<Hash>, n: nat, adds: nat, row: nat)
    requires |roots| == PopCount(n) && row <= NextZero(n, Ones(n))
    ensures RowRight(roots, n, adds, row) <==> (EmptyRow(roots, n, row) ==> TreatedRight(n, adds, row))
  {
    hide Shr, PopCount, Ones, RowRight, RootEmpty, Spared, PulledAt, PoppedAt, Pow2, Stage, NextZero;
    var z := Ones(n);
    OnesEnd(n);
    if row < z {
      FirstRight(roots, n, adds, row);
    } else if row == z {
      PoppedFirst(n, adds, row);
      ZeroRight(roots, n, adds, row);
    } else if row < NextZero(n, z) {
      FirstStage(n);
      PoppedFirst(n, adds, row);
      EarlyRight(roots, n, z, 1, adds, row);
    } else {
      PoppedSecond(n, adds, row);
      RunCount(n, z);
      ZeroRight(roots, n, adds, row);
    }
  }

  lemma MiddleRow(roots: seq<Hash>, n: nat, adds: nat, row: nat)
    requires |roots| == PopCount(n) && Ones(n) == 0 && NextZero(n, 0) < row <= NextZero(n, NextZero(n, 0))
    ensures RowRight(roots, n, adds, row) <==> (EmptyRow(roots, n, row) ==> TreatedRight(n, adds, row))
  {
    hide Shr, PopCount, Ones, RowRight, RootEmpty, Spared, PulledAt, PoppedAt, Pow2, Stage, NextZero;
    var y := NextZero(n, 0);
    PowZero();
    if row < NextZero(n, y) {
      FirstStage(n);
      StageNext(n, 0, 1);
      PoppedSecond(n, adds, row);
      EarlyRight(roots, n, y, 2, adds, row);
    } else {
      PoppedThird(n, adds, row);
      RunCount(n, y);
      ZeroRight(roots, n, adds, row);
    }
    assert NextZero(n, y) > y by { NextZeroIs(n, y); }
  }

  /** Without a zero at the low end everything above the second zero is late. */
  lemma HighRows(roots: seq<Hash>, n: nat, adds: nat, y: nat)
    requires |roots| == PopCount(n) && Ones(n) > 0 && y == NextZero(n, Ones(n))
    ensures AllRight(roots, n, adds, y) <==>
            forall row: nat :: row > y && EmptyRow(roots, n, row) ==> TreatedRight(n, adds, row)
  {
    hide Shr, PopCount, Ones, RowRight, EmptyRow, Spared, PulledAt, PoppedAt, Pow2, Stage, NextZero;
    var z := Ones(n);
    FirstStage(n);
    StageNext(n, z, 1);
    PowTwo(z);
    NextZeroIs(n, z);
    forall row: nat | row > y
      ensures PoppedAt(n, adds, row) == PulledAt(n, y, 1 + Pow2(z), Pow2(z), PopCount(Shr(n, y + 1)), adds, row)
      ensures TreatedRight(n, adds, row) == Spared(n, y, 1 + Pow2(z), Pow2(z), adds, row)
    {
      PoppedSecond(n, adds, row);
    }
    LateRight(roots, n, y, 1 + Pow2(z), Pow2(z), adds);
  }

  lemma TopRows(roots: seq<Hash>, n: nat, adds: nat, y: nat, x: nat)
    requires |roots| == PopCount(n) && Ones(n) == 0 && y == NextZero(n, 0) && x == NextZero(n, y)
    ensures AllRight(roots, n, adds, x) <==>
            forall row: nat :: row > x && EmptyRow(roots, n, row) ==> TreatedRight(n, adds, row)
  {
    hide Shr, PopCount, Ones, RowRight, EmptyRow, Spared, PulledAt, PoppedAt, Pow2, Stage, NextZero;
    PowZero();
    FirstStage(n);
    StageNext(n, 0, 1);
    StageNext(n, y, 2);
    NextZeroIs(n, 0);
    NextZeroIs(n, y);
    PowTwo(y);
    forall row: nat | row > x
      ensures PoppedAt(n, adds, row) == PulledAt(n, x, 2 + Pow2(y), Pow2(y), PopCount(Shr(n, x + 1)), adds, row)
      ensures TreatedRight(n, adds, row) == Spared(n, x, 2 + Pow2(y), Pow2(y), adds, row)
    {
      PoppedThird(n, adds, row);
    }
    LateRight(roots, n, x, 2 + Pow2(y), Pow2(y), adds);
  }

  /** The list is right if and only if each empty root is treated right. */
  lemma RightExact(roots: seq<Hash>, n: nat, adds: nat)
    requires |roots| == PopCount(n)
    ensures (forall row: nat :: RowRight(roots, n, adds, row)) <==>
            forall row: nat :: EmptyRow(roots, n, row) ==> TreatedRight(n, adds, row)
  {
    hide Shr, PopCount, Ones, RowRight, EmptyRow, TreatedRight, NextZero;
    var y := NextZero(n, Ones(n));
    var top := if Ones(n) > 0 then y else NextZero(n, y);
    forall row: nat | row <= top
      ensures RowRight(roots, n, adds, row) <==> (EmptyRow(roots, n, row) ==> TreatedRight(n, adds, row))
    {
      if row <= y { LowRow(roots, n, adds, row); } else { MiddleRow(roots, n, adds, row); }
    }
    if Ones(n) > 0 { HighRows(roots, n, adds, y); } else { TopRows(roots, n, adds, y, top); }
    assert AllRight(roots, n, adds, top) <==>
           forall row: nat :: row > top && EmptyRow(roots, n, row) ==> TreatedRight(n, adds, row);
  }

  lemma SlotRow(p: nat, n: nat, row: nat, m: nat, S: nat)
    requires IsRootSlot(p, n, row, S) && n <= m && Fits(m, S)
    ensures RowOf(p, S) == row && OffOf(p, S) + 1 == Shr(n, row)
  {
    hide RowOf, OffOf, Shr, Encode, Pow2;
    ShrMonotone(n, m, row);
    ValidEncode(row, Shr(n, row) - 1, m, S);
  }

  lemma RootStands(n: nat, row: nat, m: nat, S: nat) returns (p: nat)
    requires Shr(n, row) % 2 == 1 && n <= m && Fits(m, S)
    ensures IsRootSlot(p, n, row, S)
  {
    hide Shr, Pow2, Encode;
    ShrMonotone(n, m, row);
    CoordBound(row, Shr(n, row) - 1, m, S);
    p := Encode(row, Shr(n, row) - 1, S);
  }

  lemma ListsOdd(roots: seq<Hash>, n: nat, adds: nat, h: nat)
    requires Lists(roots, n, adds, h)
    ensures Shr(n, h) % 2 == 1
  {
    hide Shr, Ones, PopCount, PulledAt, RootIndex;
    if h < Ones(n) {
      OnesBelow(n, h);
    } else {
      PulledOdd(n, Ones(n), 1, 1, PopCount(Shr(n, Ones(n) + 1)), adds, h);
    }
  }

  // ----- the order of the list -----

  predicate RowsRise(ds: seq<nat>, S: nat) {
    forall i, j :: 0 <= i < j < |ds| ==> RowOf(ds[i], S) < RowOf(ds[j], S)
  }

  predicate RowsFrom(ds: seq<nat>, h: nat, S: nat) {
    forall i :: 0 <= i < |ds| ==> RowOf(ds[i], S) >= h
  }

  lemma RowsRiseCons(a: seq<nat>, b: seq<nat>, h: nat, S: nat)
    requires |a| <= 1 && RowsRise(b, S) && RowsFrom(b, h + 1, S) && (forall i :: 0 <= i < |a| ==> RowOf(a[i], S) == h)
    ensures RowsRise(a + b, S) && RowsFrom(a + b, h, S)
  {
    hide RowOf;
  }

  /** The list goes upwards. */
  lemma {:induction false} ListRises(roots: seq<Hash>, leaves: nat, h: nat, adds: nat, rows: nat)
    requires leaves + adds <= Pow2(rows) && rows < 62
    ensures var ds := Destroys(roots, leaves, h, adds, rows); RowsRise(ds, rows) && RowsFrom(ds, h, rows)
    decreases adds, Shr(leaves, h)
  {
    hide RootPosition, Shr, RowOf, Encode, Pow2;
    if adds > 0 {
      if Shr(leaves, h) % 2 == 1 && roots != [] && h <= rows {
        ShrStep(leaves, h);
        var k := |roots| - 1;
        ListRises(roots[..k], leaves, h + 1, adds, rows);
        BitIsShrParity(leaves, h);
        RootPositionEncode(leaves, h, rows);
        RowOfEncode(h, Shr(leaves, h) - 1, rows);
        var first := if roots[k].Empty? then [RootPosition(leaves, h, rows)] else [];
        RowsRiseCons(first, Destroys(roots[..k], leaves, h + 1, adds, rows), h, rows);
      } else {
        ListRises(roots + [Placeholder], leaves + 1, h, adds - 1, rows);
      }
    }
  }

  // ----- additions whose data are right -----

  /** In every round, with l leaves then, each root that is still empty is treated right. */
  ghost predicate RoundsRight(roots: seq<Hash>, n: nat, m: nat)
    requires |roots| == PopCount(n)
  {
    forall l: nat, row: nat ::
      n <= l < m && EmptyRow(roots, n, row) && Shr(l, row) == Shr(n, row) ==> RightAt(l, m, row)
  }

  predicate RightAt(l: nat, m: nat, row: nat)
    requires l <= m
  {
    TreatedRight(l, m - l, row)
  }

  /** The masks of `remove_bit` reach for the roots that are written over. */
  ghost predicate MasksHold(roots: seq<Hash>, n: nat, m: nat)
    requires |roots| == PopCount(n)
  {
    forall row: nat :: OverRow(roots, n, m, row) ==> row <= 30 || (row == 31 && Shr(n, row) <= 2)
  }

  /** What is listed in the first round. */
  lemma ListedOver(roots: seq<Hash>, n: nat, m: nat, S: nat, p: nat)
    requires |roots| == PopCount(n) && n < m && Fits(m, S) && RoundsRight(roots, n, m)
    ensures p in Destroys(roots, n, 0, m - n, S) <==>
            exists row: nat :: OverRow(roots, n, m, row) && IsRootSlot(p, n, row, S)
  {
    hide Shr, PopCount, EmptyRow, OverRow, IsRootSlot, TreatedRight, Lists, Pow2, Destroys;
    forall row: nat | EmptyRow(roots, n, row) ensures TreatedRight(n, m - n, row) { assert RightAt(n, m, row); }
    RightExact(roots, n, m - n);
    ListIs(roots, n, m - n, S, p);
    forall row: nat ensures Lists(roots, n, m - n, row) <==> OverRow(roots, n, m, row) {
      assert RowRight(roots, n, m - n, row);
    }
  }

  /** All of it is within reach. */
  lemma ListedReach(roots: seq<Hash>, n: nat, m: nat, S: nat)
    requires |roots| == PopCount(n) && n < m && Fits(m, S) && RoundsRight(roots, n, m) && MasksHold(roots, n, m)
    ensures Reachable(Destroys(roots, n, 0, m - n, S), m, S)
  {
    hide Shr, PopCount, EmptyRow, RoundsRight, Pow2, Destroys, RowOf, OffOf, Encode, IsRootPosition, Valid;
    var ds := Destroys(roots, n, 0, m - n, S);
    forall i | 0 <= i < |ds| ensures Valid(ds[i], m, S) && !IsRootPosition(ds[i], m, S) && MasksReach(ds[i], S) {
      ListedOver(roots, n, m, S, ds[i]);
      var row: nat :| OverRow(roots, n, m, row) && IsRootSlot(ds[i], n, row, S);
      ValidEncode(row, Shr(n, row) - 1, m, S);
      IsRootEncode(row, Shr(n, row) - 1, m, S);
    }
  }
}
