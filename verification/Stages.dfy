/** The rounds of `roots_to_destroy` (src/util/mod.rs), as far as they do not depend on which roots are
    empty.  The row `h` is not reset between additions, so after the first addition the loop waits at a
    zero digit of the leaf count until the additions carry into it, pops one root for it and one for each
    of the ones above, and waits at the next zero.  What it pops first are the placeholders of the leaves
    added since, and what it records is the row that it has reached. */
module Stages {
  import opened Bits
  import opened Positions

  // ----- digits -----

  /** The ones at the low end of n: so many roots one addition writes over. */
  function Ones(n: nat): nat {
    if n % 2 == 0 then 0 else 1 + Ones(n / 2)
  }

  /** The lowest zero digit above row z. */
  function NextZero(n: nat, z: nat): nat {
    z + 1 + Ones(Shr(n, z + 1))
  }

  /** A row of the run of ones above row z. */
  predicate InRun(n: nat, z: nat, row: nat) {
    z < row < NextZero(n, z)
  }

  lemma {:induction false} OnesEnd(n: nat)
    ensures Shr(n, Ones(n)) % 2 == 0 && Shr(n + 1, Ones(n)) == Shr(n, Ones(n)) + 1
  {
    if n % 2 == 1 {
      OnesEnd(n / 2);
      assert (n + 1) / 2 == n / 2 + 1;
    }
  }

  lemma {:induction false} OnesBelow(n: nat, row: nat)
    requires row < Ones(n)
    ensures Shr(n, row) % 2 == 1 && Shr(n + 1, row) == Shr(n, row) + 1
  {
    if row > 0 {
      OnesBelow(n / 2, row - 1);
      assert (n + 1) / 2 == n / 2 + 1;
    }
  }

  lemma OnesStep(n: nat, h: nat)
    ensures Shr(n, h + 1) == Shr(n, h) / 2
    ensures Ones(Shr(n, h)) == if Shr(n, h) % 2 == 0 then 0 else 1 + Ones(Shr(n, h + 1))
  {
    hide Shr;
    ShrStep(n, h);
  }

  lemma {:induction false} OnesCount(n: nat)
    ensures PopCount(n) == Ones(n) + PopCount(Shr(n, Ones(n)))
  {
    if n % 2 == 0 { ShrZero(n); } else { OnesCount(n / 2); }
  }

  /** Adding one turns the low ones into zeros. */
  lemma {:induction false} OnesShl(n: nat)
    ensures n + 1 == Shl(Shr(n, Ones(n)) + 1, Ones(n))
  {
    if n % 2 == 1 { OnesShl(n / 2); } else { ShrZero(n); }
  }

  lemma {:induction false} ShlBound(y: nat, b: nat, z: nat)
    ensures y < Shl(b, z) <==> Shr(y, z) < b
    decreases z
  {
    if z > 0 { ShlBound(y / 2, b, z - 1); }
  }

  lemma {:induction false} ShlAdd(a: nat, z: nat)
    ensures Shl(a, z) + Pow2(z) == Shl(a + 1, z)
  {
    if z > 0 { ShlAdd(a, z - 1); }
  }

  lemma {:induction false} ShlCompose(a: nat, j: nat, k: nat)
    ensures Shl(Shl(a, j), k) == Shl(a, j + k)
    decreases k
  {
    if k > 0 { ShlCompose(a, j, k - 1); }
  }

  lemma {:induction false} ShlShr(a: nat, z: nat)
    ensures Shr(Shl(a, z), z) == a
    decreases z
  {
    if z > 0 {
      ShlShr(a, z - 1);
      assert Shl(a, z) / 2 == Shl(a, z - 1);
    }
  }

  // ----- stages -----

  /** Row z of n is zero, and it takes `time` additions until they carry into it. */
  predicate Stage(n: nat, z: nat, time: nat) {
    Shr(n, z) % 2 == 0 && n + time == Shl(Shr(n, z) + 1, z)
  }

  lemma FirstStage(n: nat)
    ensures Stage(n, Ones(n), 1)
  {
    hide Shr, Ones, Shl;
    OnesEnd(n);
    OnesShl(n);
  }

  lemma StageNext(n: nat, z: nat, time: nat)
    requires Stage(n, z, time)
    ensures Stage(n, NextZero(n, z), time + Pow2(z))
  {
    hide Shr, Ones, Shl;
    var a, k := Shr(n, z), Shr(n, z + 1);
    ShrStep(n, z);
    ShlAdd(a + 1, z);
    assert a + 2 == 2 * (k + 1) == Shl(k + 1, 1) by { ShlOnce(k + 1); }
    ShlCompose(k + 1, 1, z);
    OnesEnd(k);
    OnesShl(k);
    ShlCompose(Shr(k, Ones(k)) + 1, Ones(k), z + 1);
    ShrCompose(n, z + 1, Ones(k));
  }

  lemma ShlOnce(a: nat)
    ensures Shl(a, 1) == 2 * a
  {
    assert Shl(a, 0) == a;
  }

  /** Before its time the row keeps its zero. */
  lemma StageWaits(n: nat, z: nat, time: nat, x: nat)
    requires Stage(n, z, time) && n <= x < n + time
    ensures Shr(x, z) == Shr(n, z)
  {
    hide Shr, Shl;
    ShlBound(x, Shr(n, z) + 1, z);
    ShrMonotone(n, x, z);
  }

  /** At its time the row has a one, and above it nothing has changed. */
  lemma StageDigits(n: nat, z: nat, time: nat)
    requires Stage(n, z, time)
    ensures Shr(n + time, z) == Shr(n, z) + 1 && Shr(n + time, z) % 2 == 1
    ensures Ones(Shr(n + time, z)) == 1 + Ones(Shr(n, z + 1))
    ensures forall row :: row > z ==> Shr(n + time, row) == Shr(n, row)
  {
    hide Shr, Shl, Ones;
    ShlShr(Shr(n, z) + 1, z);
    OnesStep(n + time, z);
    ShrStep(n, z);
    forall row | row > z ensures Shr(n + time, row) == Shr(n, row) {
      ShrCompose(n, z + 1, row - z - 1);
      ShrCompose(n + time, z + 1, row - z - 1);
    }
  }

  lemma RunDigits(n: nat, z: nat, row: nat)
    requires InRun(n, z, row)
    ensures Shr(n, row) % 2 == 1
  {
    hide Shr, Ones;
    OnesBelow(Shr(n, z + 1), row - z - 1);
    ShrCompose(n, z + 1, row - z - 1);
  }

  /** The roots of the run are written over by the additions that carry past it. */
  lemma RunWritten(n: nat, z: nat, time: nat, adds: nat, row: nat)
    requires Stage(n, z, time) && InRun(n, z, row)
    ensures Shr(n, row) < Shr(n + adds, row) <==> adds >= time + Pow2(z)
  {
    hide Shr, Shl, Ones, Pow2;
    var k, j := Shr(n, z + 1), row - z - 1;
    ShrCompose(n, z + 1, j);
    ShrCompose(n + adds, z + 1, j);
    OnesBelow(k, j);
    CarriedPast(n, z, time, adds);
    if adds >= time + Pow2(z) { ShrMonotone(k + 1, Shr(n + adds, z + 1), j); }
  }

  lemma CarriedPast(n: nat, z: nat, time: nat, adds: nat)
    requires Stage(n, z, time)
    ensures if adds >= time + Pow2(z) then Shr(n + adds, z + 1) >= Shr(n, z + 1) + 1
            else Shr(n + adds, z + 1) == Shr(n, z + 1)
  {
    hide Shr, Shl, Pow2;
    var a, k := Shr(n, z), Shr(n, z + 1);
    ShrStep(n, z);
    ShlAdd(a + 1, z);
    ShlBound(n + adds, a + 2, z);
    ShrStep(n + adds, z);
    ShrMonotone(n, n + adds, z + 1);
  }

  // ----- pops -----

  /** Of c placeholders, those that a run of L ones leaves. */
  function Left(c: nat, L: nat): nat {
    if c > 1 + L then c - 1 - L else 0
  }

  /** The roots that a run of L ones pops after c placeholders. */
  function RootsTaken(c: nat, L: nat): nat {
    if 1 + L > c then 1 + L - c else 0
  }

  /** The number of roots that are popped from row z on, if c placeholders are on top when its time comes. */
  function Pulled(n: nat, z: nat, time: nat, c: nat, adds: nat): nat
    decreases if adds > time then adds - time else 0
  {
    if adds <= time then 0
    else
      var L := Ones(Shr(n, z + 1));
      RootsTaken(c, L) + Pulled(n, NextZero(n, z), time + Pow2(z), Left(c, L) + Pow2(z), adds)
  }

  /** The index of the root that is popped at row h, or -1, if r roots are left. */
  function PulledAt(n: nat, z: nat, time: nat, c: nat, r: nat, adds: nat, h: nat): int
    decreases if adds > time then adds - time else 0
  {
    if adds <= time || h <= z then -1
    else
      var L := Ones(Shr(n, z + 1));
      if h <= z + L then (if h >= z + c then r - 1 - (h - z - c) else -1)
      else if r < RootsTaken(c, L) then -1
      else PulledAt(n, NextZero(n, z), time + Pow2(z), Left(c, L) + Pow2(z), r - RootsTaken(c, L), adds, h)
  }

  lemma RunCount(n: nat, z: nat)
    ensures PopCount(Shr(n, z + 1)) == Ones(Shr(n, z + 1)) + PopCount(Shr(n, NextZero(n, z)))
    ensures PopCount(Shr(n, NextZero(n, z))) == PopCount(Shr(n, NextZero(n, z) + 1))
    ensures Shr(n, NextZero(n, z)) % 2 == 0
  {
    hide Shr, Ones, PopCount;
    var k := Shr(n, z + 1);
    OnesCount(k);
    OnesEnd(k);
    ShrCompose(n, z + 1, Ones(k));
    ShrStep(n, NextZero(n, z));
    EvenCount(Shr(n, NextZero(n, z)));
  }

  /** The roots above a row of the run. */
  lemma RunIndex(n: nat, z: nat, row: nat)
    requires InRun(n, z, row)
    ensures RootIndex(n, row) + (row - z) == PopCount(Shr(n, z + 1))
  {
    hide Shr, Ones, PopCount;
    OnesPrefix(Shr(n, z + 1), row - z);
    ShrCompose(n, z + 1, row - z);
  }

  lemma {:induction false} OnesPrefix(n: nat, j: nat)
    requires j <= Ones(n)
    ensures PopCount(n) == j + PopCount(Shr(n, j))
  {
    if j > 0 { OnesPrefix(n / 2, j - 1); }
  }

  /** With one placeholder on top the roots of the run are popped at their own rows. */
  lemma EarlyRun(n: nat, z: nat, time: nat, adds: nat, row: nat)
    requires InRun(n, z, row)
    ensures PulledAt(n, z, time, 1, PopCount(Shr(n, z + 1)), adds, row) ==
            if adds <= time then -1 else RootIndex(n, row)
  {
    hide Shr, Ones, PopCount;
    RunIndex(n, z, row);
  }

  /** The following rows, after a run with one placeholder on top. */
  lemma EarlyNext(n: nat, z: nat, time: nat, adds: nat, row: nat)
    requires row >= NextZero(n, z)
    ensures var r, r' := PopCount(Shr(n, z + 1)), PopCount(Shr(n, NextZero(n, z) + 1));
            PulledAt(n, z, time, 1, r, adds, row) ==
            if adds <= time then -1 else PulledAt(n, NextZero(n, z), time + Pow2(z), Pow2(z), r', adds, row)
  {
    hide Shr, Ones, PopCount;
    RunCount(n, z);
  }

  /** With more placeholders every root is popped at a row above its own. */
  lemma {:induction false} LateRow(n: nat, z: nat, time: nat, c: nat, r: nat, adds: nat, h: nat)
    requires Stage(n, z, time) && z >= 1 && c >= 2 && r >= PopCount(Shr(n, z + 1))
    requires PulledAt(n, z, time, c, r, adds, h) >= 0
    ensures h > z && Shr(n, h) % 2 == 1
    ensures RootIndex(n, h) < PulledAt(n, z, time, c, r, adds, h) < r
    ensures PulledAt(n, z, time, c, r, adds, h) + Pulled(n, z, time, c, adds) >= r
    decreases if adds > time then adds - time else 0
  {
    hide Shr, Ones, PopCount, Stage;
    var L := Ones(Shr(n, z + 1));
    RunCount(n, z);
    if h <= z + L {
      RunDigits(n, z, h);
      RunIndex(n, z, h);
    } else {
      StageNext(n, z, time);
      PowTwo(z);
      LateRow(n, NextZero(n, z), time + Pow2(z), Left(c, L) + Pow2(z), r - RootsTaken(c, L), adds, h);
    }
  }

  lemma PowTwo(z: nat)
    requires z >= 1
    ensures Pow2(z) >= 2
  {
  }

  /** Every popped root is popped at some row. */
  lemma {:induction false} PulledRow(n: nat, z: nat, time: nat, c: nat, r: nat, adds: nat, i: nat) returns (h: nat)
    requires c >= 1 && r >= PopCount(Shr(n, z + 1)) && i < r <= i + Pulled(n, z, time, c, adds)
    ensures PulledAt(n, z, time, c, r, adds, h) == i && h > z
    decreases if adds > time then adds - time else 0
  {
    hide Shr, Ones, PopCount;
    var L := Ones(Shr(n, z + 1));
    RunCount(n, z);
    if i >= r - RootsTaken(c, L) {
      h := z + c + (r - 1 - i);
    } else {
      h := PulledRow(n, NextZero(n, z), time + Pow2(z), Left(c, L) + Pow2(z), r - RootsTaken(c, L), adds, i);
    }
  }

  /** Roots are recorded at rows of ones only. */
  lemma {:induction false} PulledOdd(n: nat, z: nat, time: nat, c: nat, r: nat, adds: nat, h: nat)
    requires c >= 1 && PulledAt(n, z, time, c, r, adds, h) >= 0
    ensures Shr(n, h) % 2 == 1
    decreases if adds > time then adds - time else 0
  {
    hide Shr, Ones;
    var L := Ones(Shr(n, z + 1));
    if h <= z + L {
      RunDigits(n, z, h);
    } else {
      PulledOdd(n, NextZero(n, z), time + Pow2(z), Left(c, L) + Pow2(z), r - RootsTaken(c, L), adds, h);
    }
  }
}
