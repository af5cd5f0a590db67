/** Small leaf counts for which `roots_to_destroy` is wrong. */
module DestroyExamples {
  import opened Bits
  import opened Positions
  import opened Forest
  import opened HolesFilled
  import opened DestroyedRoots
  import opened Stages
  import opened ListedRoots
  import opened Landings

  lemma SmallPowers()
    ensures Pow2(0) == 1 && Pow2(1) == 2 && Pow2(2) == 4 && Pow2(3) == 8 && Pow2(4) == 16 && Pow2(5) == 32
  {
    assert Pow2(2) == 4 && Pow2(3) == 8;
    assert Pow2(4) == 2 * Pow2(3) && Pow2(5) == 2 * Pow2(4);
  }

  /** A lone one in row 2, or above a one in row 0. */
  lemma RowTwo(n: nat, m: nat, S: nat)
    requires (n == 4 || n == 5) && m == 7 && S == 3
    ensures Shr(n, 0) == n && Shr(n, 1) == 2 && Shr(n, 2) == 1 && Shr(n, 3) == 0 && Shr(m, 2) == 1 && TreeRows(m) == S
    ensures Ones(n) == n - 4 && Ones(2) == 0 && Ones(1) == 1 && PopCount(n) == n - 3 && RootIndex(n, 2) == 0
  {
    ShrZero(n);
    ShrStep(n, 0);
    ShrStep(n, 1);
    ShrStep(n, 2);
    ShrZero(m);
    ShrStep(m, 0);
    ShrStep(m, 1);
    assert BitLength(m - 1) == 1 + BitLength(3) && BitLength(3) == 1 + BitLength(1);
    assert PopCount(2) == PopCount(1) == 1 && Ones(0) == 0;
  }

  /** Position 12, the root of row 2 in forests of four to seven leaves. */
  lemma SlotTwelve(roots: seq<Hash>, trees: seq<Tree>, n: nat, adds: nat, m: nat, S: nat, p: nat)
    requires (n == 4 || n == 5) && m == n + adds == 7 && S == 3 && p == 12 && |trees| == PopCount(n)
    requires roots == Hashes(trees)
    requires Lists(roots, n, adds, 2)
    ensures TreeRows(m) == S && Fits(m, S) && Valid(p, m, S) && IsRootPosition(p, m, S)
    ensures p in Destroys(roots, n, 0, adds, S) && p !in Overwritten(trees, n, m, S)
  {
    hide RowOf, OffOf, Shr, PopCount, TreeRows, Destroys, Overwritten, Ones, Pow2, IsRootPosition, RootIndex, Valid,
      Lists;
    RowTwo(n, m, S);
    SmallPowers();
    TreeRowsFit(m);
    ValidEncode(2, 0, m, S);
    IsRootEncode(2, 0, m, S);
    assert IsRootSlot(p, n, 2, S);
    ListIs(roots, n, adds, S, p);
    OverwrittenIs(trees, n, m, S, p);
  }

  /** Of five leaves the first four are deleted, and two are added: position 12 is listed, which is the root
      of row 2 before and after. */
  lemma ListedOfFive(trees: seq<Tree>, n: nat, m: nat, S: nat, c: nat)
    requires n == 5 && m == 7 && S == 3 && trees == [Nil, Tip(c)]
    ensures |trees| == PopCount(n) && TreeRows(m) == S && Fits(m, S) && Valid(12, m, S) && IsRootPosition(12, m, S)
    ensures 12 in Destroys(Hashes(trees), n, 0, 2, S) && 12 !in Overwritten(trees, n, m, S)
  {
    hide RowOf, OffOf, Shr, PopCount, TreeRows, Destroys, Overwritten, Ones, Pow2, IsRootPosition, RootIndex, Valid,
      PoppedAt, PulledAt;
    RowTwo(n, m, S);
    PoppedFirst(n, 2, 2);
    EarlyRun(n, 1, 1, 2, 2);
    SlotTwelve(Hashes(trees), trees, n, 2, m, S, 12);
  }

  /** Four leaves are deleted and three are added: the same. */
  lemma ListedOfFour(trees: seq<Tree>, n: nat, m: nat, S: nat)
    requires n == 4 && m == 7 && S == 3 && trees == [Nil]
    ensures |trees| == PopCount(n) && TreeRows(m) == S && Fits(m, S) && Valid(12, m, S) && IsRootPosition(12, m, S)
    ensures 12 in Destroys(Hashes(trees), n, 0, 3, S) && 12 !in Overwritten(trees, n, m, S)
  {
    hide RowOf, OffOf, Shr, PopCount, TreeRows, Destroys, Overwritten, Ones, Pow2, IsRootPosition, RootIndex, Valid,
      PoppedAt, PulledAt;
    RowTwo(n, m, S);
    SmallPowers();
    PoppedSecond(n, 3, 2);
    EarlyRun(n, 1, 2, 3, 2);
    SlotTwelve(Hashes(trees), trees, n, 3, m, S, 12);
  }

  lemma EightDigits(n: nat, m: nat, S: nat)
    requires n == 8 && m == 16 && S == 4
    ensures Shr(n, 0) == 8 && Shr(n, 1) == 4 && Shr(n, 2) == 2 && Shr(n, 3) == 1 && Shr(n, 4) == 0 && Shr(n, 5) == 0
    ensures Shr(m, 3) == 2 && TreeRows(m) == S && PopCount(n) == 1 && PopCount(1) == 1 && RootIndex(n, 3) == 0
    ensures Ones(8) == Ones(4) == Ones(2) == Ones(0) == 0 && Ones(1) == 1
  {
    ShrZero(n);
    ShrStep(n, 0);
    ShrStep(n, 1);
    ShrStep(n, 2);
    ShrStep(n, 3);
    ShrStep(n, 4);
    ShrZero(m);
    ShrStep(m, 0);
    ShrStep(m, 1);
    ShrStep(m, 2);
    assert BitLength(m - 1) == 1 + BitLength(7) && BitLength(7) == 1 + BitLength(3) && BitLength(3) == 1 + BitLength(1);
    assert PopCount(4) == PopCount(2) == PopCount(1) == 1;
  }

  /** Row 3 waits until the placeholders of two leaves are on top: only these are popped. */
  lemma NothingOfEight(n: nat, h: nat)
    requires n == 8
    ensures PoppedAt(n, 8, h) == -1
  {
    hide Shr, PopCount, Ones, Pow2, PulledAt, PoppedAt, RootIndex;
    EightDigits(n, 16, 4);
    SmallPowers();
    assert NextZero(n, 0) == 1 && NextZero(n, 1) == 2 && NextZero(n, 2) == 4;
    if h == 0 {
      PoppedFirst(n, 8, h);
    } else if h == 1 {
      PoppedSecond(n, 8, h);
    } else {
      PoppedThird(n, 8, h);
      LatePops(n, h);
    }
  }

  lemma LatePops(n: nat, h: nat)
    requires n == 8 && h >= 2
    ensures PulledAt(n, 2, 4, 2, 1, 8, h) == -1
  {
    hide Shr, PopCount, Ones, Pow2, RootIndex;
    EightDigits(n, 16, 4);
    SmallPowers();
  }

  /** Eight leaves are deleted and eight are added: nothing is listed, although the root of row 3, at
      position 28, is written over. */
  lemma MissedOfEight(trees: seq<Tree>, n: nat, m: nat, S: nat)
    requires n == 8 && m == 16 && S == 4 && trees == [Nil]
    ensures |trees| == PopCount(n) && TreeRows(m) == S && Fits(m, S)
    ensures Destroys(Hashes(trees), n, 0, 8, S) == [] && 28 in Overwritten(trees, n, m, S)
  {
    hide RowOf, OffOf, Shr, PopCount, TreeRows, Destroys, Overwritten, Ones, Pow2, RootIndex, PoppedAt;
    EightDigits(n, m, S);
    SmallPowers();
    TreeRowsFit(m);
    var roots := Hashes(trees);
    var listed := Destroys(roots, n, 0, 8, S);
    forall h: nat ensures !Lists(roots, n, 8, h) { NothingOfEight(n, h); }
    if listed != [] { ListIs(roots, n, 8, S, listed[0]); }
    assert OverRow(roots, n, m, 3) by { RootIndexBound(n, 3); }
    assert IsRootSlot(28, n, 3, S);
    OverwrittenRow(trees, n, m, S, 28);
  }
}
