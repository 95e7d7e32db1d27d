/** Round-robin printing on one monitor: a thread prints when the shared counter, modulo the number of
    threads, is its own number, and waits otherwise. The counter and the threads' totals are 32-bit ints. */
module PrintABCWaitNotify {
  import opened Runs
  import opened JavaInt
  import opened Rotations

  const TWO_31: int := 0x8000_0000

  datatype Monitor = Monitor(value: int, total: seq<int>, waiting: set<nat>, done: set<nat>, out: seq<nat>)

  ghost predicate MonitorInit(c: Config, s: Monitor) {
    s == Monitor(0, seq(c.k, i => 0), {}, {}, [])
  }

  /** One pass of thread f through its synchronized block, up to releasing the monitor. */
  ghost predicate MonitorStep(c: Config, s: Monitor, t: Monitor, f: nat)
    requires ValidConfig(c) && |s.total| == c.k
  {
    && f < c.k && f !in s.waiting && f !in s.done
    && if Remainder(s.value, c.k) == f then
         var total := Wrap(s.total[f] + 1);
         t == Monitor(Wrap(s.value + 1), s.total[f := total], {},
                      if total == c.count then s.done + {f} else s.done, s.out + [f])
       else t == s.(waiting := s.waiting + {f})
  }

  ghost predicate SpuriousWakeup(s: Monitor, t: Monitor) {
    exists w :: w in s.waiting && t == s.(waiting := s.waiting - {w})
  }

  ghost predicate MonitorNext(c: Config, s: Monitor, t: Monitor)
    requires ValidConfig(c)
  {
    |s.total| == c.k && exists f :: MonitorStep(c, s, t, f)
  }

  ghost function MonitorSystem(c: Config, spurious: bool): System<Monitor>
    requires ValidConfig(c)
  {
    System(s => MonitorInit(c, s), (s, t) => MonitorNext(c, s, t) || (spurious && SpuriousWakeup(s, t)))
  }

  // ----- how far the printing goes

  /** After how many prints a thread stops: the test comes after the print, so a count below 1 is met
      only once the total has wrapped around. */
  function Goal(c: Config): (g: nat)
    requires ValidConfig(c)
    ensures 1 <= g <= TWO_32 && Wrap(g) == c.count
  {
    if c.count >= 1 then c.count else c.count + TWO_32
  }

  /** After how many letters, among two threads or more, the counter's remainder is negative. */
  function Limit(k: nat): nat
    requires k >= 1
  {
    if TWO_31 % k == 0 then TWO_31 + 1 else TWO_31
  }

  /** How many letters come out in the end. */
  function End(c: Config): nat
    requires ValidConfig(c)
  {
    if c.k == 1 || c.k * Goal(c) <= Limit(c.k) then c.k * Goal(c) else Limit(c.k)
  }

  lemma EndBounds(c: Config)
    requires ValidConfig(c)
    ensures 0 < End(c) <= c.k * Goal(c) && (c.k >= 2 ==> End(c) <= Limit(c.k))
  {
    MulMonotone(c.k, 1, Goal(c));
  }

  /** A caller's condition for the whole output. */
  predicate Fits(c: Config) {
    c.count >= 1 && (c.k == 1 || c.k * c.count <= TWO_31)
  }

  /** No multiple of k is one more than another. */
  lemma NotBothMultiples(k: nat, a: nat, b: nat)
    requires k >= 2
    ensures k * a != k * b + 1
  {
    if a > b { MulAtLeast(k, a - b); assert k * (a - b) == k * a - k * b; }
    else { MulMonotone(k, a, b); }
  }

  lemma FitsIff(c: Config)
    requires ValidConfig(c)
    ensures Fits(c) <==> c.count >= 1 && End(c) == c.k * c.count
  {
    if c.count >= 1 && c.k >= 2 && c.k * c.count == TWO_31 + 1 && TWO_31 % c.k == 0 {
      assert TWO_31 == c.k * (TWO_31 / c.k);
      NotBothMultiples(c.k, c.count, TWO_31 / c.k);
    }
  }

  /** The remainder the threads test: the next letter of the rotation, until it turns negative at the limit. */
  lemma TurnAt(k: nat, v: nat)
    requires 1 <= k <= MAX_INT && (k == 1 || v <= Limit(k))
    ensures k == 1 || v < Limit(k) ==> Remainder(Wrap(v), k) == v % k
    ensures k >= 2 && v == Limit(k) ==> Remainder(Wrap(v), k) < 0
  {
    if k == 1 {
    } else if v < TWO_31 {
      assert Wrap(v) == v;
    } else if v == TWO_31 {
      assert Wrap(v) == -TWO_31;
      ModBound(TWO_31, k);
    } else {
      assert Wrap(v) == -(TWO_31 - 1);
      BeforeMultiple(k);
    }
  }

  lemma BeforeMultiple(k: nat)
    requires k >= 2 && TWO_31 % k == 0
    ensures (TWO_31 - 1) % k == k - 1
  {
    var q := TWO_31 / k;
    assert TWO_31 == k * q;
    assert k * (q - 1) == k * q - k;
    DivModUnique(k, TWO_31 - 1, q - 1, k - 1);
  }

  // ----- what every schedule keeps

  ghost predicate MonitorInv(c: Config, s: Monitor)
    requires ValidConfig(c)
  {
    && |s.total| == c.k && |s.out| <= End(c) && s.out == Rotation(c.k, |s.out|)
    && s.value == Wrap(|s.out|)
    && (forall f :: 0 <= f < c.k ==> s.total[f] == Wrap(Turns(c.k, |s.out|, f)))
    && (forall f :: f in s.done <==> 0 <= f < c.k && Turns(c.k, |s.out|, f) == Goal(c))
    && (forall f :: f in s.waiting ==> f < c.k && f !in s.done && f != Remainder(s.value, c.k))
  }

  lemma MonitorInitInv(c: Config, s: Monitor)
    requires ValidConfig(c) && MonitorInit(c, s)
    ensures MonitorInv(c, s)
  {
    EndBounds(c);
    assert s.out == Rotation(c.k, 0);
  }

  /** A thread that finds its turn prints the next letter of the rotation, and has not reached its goal. */
  lemma TurnIsNext(c: Config, s: Monitor, f: nat)
    requires ValidConfig(c) && MonitorInv(c, s)
    requires f < c.k && f !in s.done && Remainder(s.value, c.k) == f
    ensures f == |s.out| % c.k && |s.out| < End(c) && Turns(c.k, |s.out|, f) < Goal(c)
  {
    EndBounds(c);
    TurnAt(c.k, |s.out|);
    TurnsLeft(c.k, Goal(c), |s.out|, f);
  }

  lemma TotalNext(c: Config, turns: nat)
    requires ValidConfig(c) && turns < Goal(c)
    ensures Wrap(Wrap(turns) + 1) == Wrap(turns + 1)
    ensures Wrap(turns + 1) == c.count <==> turns + 1 == Goal(c)
  {
    WrapNext(turns);
    WrapNear(turns + 1, Goal(c));
  }

  lemma MonitorPrint(c: Config, s: Monitor, t: Monitor, f: nat)
    requires ValidConfig(c) && MonitorInv(c, s) && MonitorStep(c, s, t, f) && Remainder(s.value, c.k) == f
    ensures MonitorInv(c, t) && Prints(c.k, End(c), s.out, t.out)
  {
    TurnIsNext(c, s, f);
    TotalNext(c, Turns(c.k, |s.out|, f));
    WrapNext(|s.out|);
    assert t.out == Rotation(c.k, |t.out|);
    TurnsNext(c.k, |s.out|, f);
  }

  /** The letter printed is one more turn for its thread and none for the others. */
  lemma TurnsNext(k: nat, v: nat, f: nat)
    requires k >= 1 && f == v % k
    ensures forall g: nat :: Turns(k, v + 1, g) == Turns(k, v, g) + if g == f then 1 else 0
  {}

  lemma MonitorInvStep(c: Config, s: Monitor, t: Monitor)
    requires ValidConfig(c) && MonitorInv(c, s) && MonitorNext(c, s, t)
    ensures MonitorInv(c, t)
    ensures t.out == s.out || Prints(c.k, End(c), s.out, t.out)
  {
    var f: nat :| MonitorStep(c, s, t, f);
    if Remainder(s.value, c.k) == f { MonitorPrint(c, s, t, f); }
  }

  /** Under any schedule, spurious wake-ups included: the output is a prefix of the rotation, each step
      prints the next letter or nothing, and until `End` letters are out the thread in turn can print. */
  lemma MonitorRefinesPrinter(c: Config, s: Monitor)
    requires ValidConfig(c) && Reachable(MonitorSystem(c, true), s)
    ensures s.out == Rotation(c.k, |s.out|) && |s.out| <= End(c)
    ensures forall t :: MonitorSystem(c, true).next(s, t) ==> t.out == s.out || Prints(c.k, End(c), s.out, t.out)
    ensures |s.out| < End(c) ==> exists t :: MonitorNext(c, s, t) && Prints(c.k, End(c), s.out, t.out)
  {
    var inv := (x: Monitor) => MonitorInv(c, x);
    forall x | MonitorSystem(c, true).init(x) ensures inv(x) { MonitorInitInv(c, x); }
    forall x, y | inv(x) && MonitorSystem(c, true).next(x, y) ensures inv(y) {
      if MonitorNext(c, x, y) { MonitorInvStep(c, x, y); }
    }
    InvariantReachable(MonitorSystem(c, true), inv, s);
    forall t | MonitorSystem(c, true).next(s, t) ensures t.out == s.out || Prints(c.k, End(c), s.out, t.out) {
      if MonitorNext(c, s, t) { MonitorInvStep(c, s, t); }
    }
    if |s.out| < End(c) { var t := MonitorInTurn(c, s); }
  }

  lemma MonitorInTurn(c: Config, s: Monitor) returns (t: Monitor)
    requires ValidConfig(c) && MonitorInv(c, s) && |s.out| < End(c)
    ensures MonitorNext(c, s, t) && Prints(c.k, End(c), s.out, t.out)
  {
    var f := |s.out| % c.k;
    EndBounds(c);
    ModBound(|s.out|, c.k);
    TurnAt(c.k, |s.out|);
    TurnsLeft(c.k, Goal(c), |s.out|, f);
    var total := Wrap(s.total[f] + 1);
    t := Monitor(Wrap(s.value + 1), s.total[f := total], {},
                 if total == c.count then s.done + {f} else s.done, s.out + [f]);
    assert MonitorStep(c, s, t, f);
  }

  // ----- every run ends

  ghost function MonitorRank(c: Config, s: Monitor): nat
    requires ValidConfig(c)
  {
    Weight(if |s.out| <= End(c) then End(c) - |s.out| else 0, c.k + 1,
           if |s.waiting| <= c.k then c.k - |s.waiting| else 0)
  }

  ghost function Weight(left: nat, weight: nat, rest: nat): nat {
    left * weight + rest
  }

  lemma PrintOutweighsWaits(left: nat, weight: nat, rest: nat, rest': nat)
    requires left >= 1 && rest' < weight
    ensures Weight(left - 1, weight, rest') < Weight(left, weight, rest)
  {
    assert left * weight == (left - 1) * weight + weight;
  }

  lemma {:induction false} ThreadsBelow(k: nat, a: set<nat>)
    requires forall f :: f in a ==> f < k
    ensures |a| <= k
  {
    if k > 0 {
      var b := a - {k - 1};
      ThreadsBelow(k - 1, b);
      assert |a| <= |b| + 1 by { if k - 1 in a { assert a == b + {k - 1}; } else { assert a == b; } }
    } else {
      assert a == {};
    }
  }

  lemma PrintingRankFalls(c: Config, s: Monitor, t: Monitor)
    requires ValidConfig(c) && Prints(c.k, End(c), s.out, t.out) && t.waiting == {}
    ensures MonitorRank(c, t) < MonitorRank(c, s)
  {
    PrintOutweighsWaits(End(c) - |s.out|, c.k + 1, if |s.waiting| <= c.k then c.k - |s.waiting| else 0, c.k);
  }

  lemma WaitingRankFalls(c: Config, s: Monitor, f: nat)
    requires ValidConfig(c) && MonitorInv(c, s) && f < c.k && f !in s.waiting
    ensures MonitorRank(c, s.(waiting := s.waiting + {f})) < MonitorRank(c, s)
  {
    ThreadsBelow(c.k, s.waiting + {f});
    assert |s.waiting + {f}| == |s.waiting| + 1;
  }

  lemma MonitorRankFalls(c: Config, s: Monitor, t: Monitor)
    requires ValidConfig(c) && MonitorInv(c, s) && MonitorNext(c, s, t)
    ensures MonitorRank(c, t) < MonitorRank(c, s)
  {
    var f: nat :| MonitorStep(c, s, t, f);
    if Remainder(s.value, c.k) == f {
      MonitorPrint(c, s, t, f);
      PrintingRankFalls(c, s, t);
    } else {
      WaitingRankFalls(c, s, f);
    }
  }

  /** The promised end: every thread has printed `count` times, in rotation, and finished. */
  ghost predicate Complete(c: Config, s: Monitor)
    requires ValidConfig(c)
  {
    c.count >= 0 && s.out == Rotation(c.k, c.k * c.count) && forall f :: 0 <= f < c.k ==> f in s.done
  }

  lemma StuckMonitor(c: Config, s: Monitor)
    requires ValidConfig(c) && MonitorInv(c, s) && forall t :: !MonitorNext(c, s, t)
    ensures |s.out| == End(c) && forall f :: 0 <= f < c.k ==> f in s.waiting || f in s.done
    ensures Complete(c, s) <==> Fits(c)
    ensures !Fits(c) && c.k >= 2 ==> c.k - 1 in s.waiting
  {
    if |s.out| < End(c) { var t := MonitorInTurn(c, s); }
    forall f | 0 <= f < c.k ensures f in s.waiting || f in s.done {
      if f !in s.waiting && f !in s.done { var t := RunnerMoves(c, s, f); }
    }
    FitsIff(c);
    EndBounds(c);
    if Fits(c) {
      forall f | 0 <= f < c.k ensures f in s.done { TurnsLeft(c.k, Goal(c), |s.out|, f); }
    }
    if Complete(c, s) { assert |s.out| == c.k * c.count; }
    if !Fits(c) && c.k >= 2 { GoalIsBeyond(c); LastHasTurnsLeft(c.k, Goal(c), |s.out|); }
  }

  lemma RunnerMoves(c: Config, s: Monitor, f: nat) returns (t: Monitor)
    requires ValidConfig(c) && MonitorInv(c, s) && f < c.k && f !in s.waiting && f !in s.done
    ensures MonitorNext(c, s, t)
  {
    var total := Wrap(s.total[f] + 1);
    t := if Remainder(s.value, c.k) != f then s.(waiting := s.waiting + {f})
         else Monitor(Wrap(s.value + 1), s.total[f := total], {},
                      if total == c.count then s.done + {f} else s.done, s.out + [f]);
    assert MonitorStep(c, s, t, f);
  }

  lemma NoNextStep(c: Config, s: Monitor)
    requires ValidConfig(c) && Stuck(MonitorSystem(c, false), s)
    ensures forall t :: !MonitorNext(c, s, t)
  {
    forall t ensures !MonitorNext(c, s, t) { assert !MonitorSystem(c, false).next(s, t); }
  }

  /** Where the output does not fit, the printing ends before the threads reach their goals. */
  lemma GoalIsBeyond(c: Config)
    requires ValidConfig(c) && c.k >= 2 && !Fits(c)
    ensures End(c) < c.k * Goal(c)
  {
    FitsIff(c);
    EndBounds(c);
    if c.count < 1 { MulMonotone(c.k, TWO_31, Goal(c)); }
  }

  /** Without spurious wake-ups every run of the monitor program is finite, and one that cannot be
      extended has printed `End` letters; it is complete if and only if `Fits` holds: the count is at
      least 1 and, with two threads or more, there are at most 2^31 letters. Where it does not hold
      the last thread of the rotation waits forever. */
  lemma MonitorPrintsAll(c: Config, run: seq<Monitor>)
    requires ValidConfig(c) && IsRun(MonitorSystem(c, false), run)
    ensures |run| <= End(c) * (c.k + 1) + c.k + 1
    ensures Stuck(MonitorSystem(c, false), Last(run)) ==>
              && Last(run).out == Rotation(c.k, End(c))
              && (Complete(c, Last(run)) <==> Fits(c))
              && (!Fits(c) && c.k >= 2 ==> c.k - 1 in Last(run).waiting)
  {
    MonitorBounded(c, run);
    if Stuck(MonitorSystem(c, false), Last(run)) {
      NoNextStep(c, Last(run));
      StuckMonitor(c, Last(run));
    }
  }

  lemma MonitorBounded(c: Config, run: seq<Monitor>)
    requires ValidConfig(c) && IsRun(MonitorSystem(c, false), run)
    ensures |run| <= End(c) * (c.k + 1) + c.k + 1 && MonitorInv(c, Last(run))
  {
    var sys := MonitorSystem(c, false);
    var inv := (x: Monitor) => MonitorInv(c, x);
    var rank := (x: Monitor) => MonitorRank(c, x);
    MonitorRanked(c);
    BoundedRuns(sys, inv, rank, run);
    Invariance(sys, inv, run);
    assert inv(Last(run));
    RankAtStart(c, run[0]);
  }

  lemma RankAtStart(c: Config, s: Monitor)
    requires ValidConfig(c) && MonitorInit(c, s)
    ensures MonitorRank(c, s) == End(c) * (c.k + 1) + c.k
  {}

  lemma MonitorRanked(c: Config)
    requires ValidConfig(c)
    ensures Inductive(MonitorSystem(c, false), (x: Monitor) => MonitorInv(c, x))
    ensures forall x, y :: MonitorInv(c, x) && MonitorSystem(c, false).next(x, y) ==>
              MonitorRank(c, y) < MonitorRank(c, x)
  {
    var sys := MonitorSystem(c, false);
    forall x | sys.init(x) ensures MonitorInv(c, x) { MonitorInitInv(c, x); }
    forall x, y | MonitorInv(c, x) && sys.next(x, y) ensures MonitorInv(c, y) && MonitorRank(c, y) < MonitorRank(c, x) {
      MonitorInvStep(c, x, y);
      MonitorRankFalls(c, x, y);
    }
  }

  /** There is a run to the end, whatever the configuration. */
  lemma SomeRunEnds(c: Config) returns (run: seq<Monitor>)
    requires ValidConfig(c)
    ensures IsRun(MonitorSystem(c, false), run) && Stuck(MonitorSystem(c, false), Last(run))
  {
    var sys := MonitorSystem(c, false);
    MonitorRanked(c);
    var start := [Monitor(0, seq(c.k, i => 0), {}, {}, [])];
    assert IsRun(sys, start);
    run := MaximalRun(sys, (x: Monitor) => MonitorInv(c, x), (x: Monitor) => MonitorRank(c, x), start);
  }

  /** For every number of threads and every int count: all runs to the end are complete exactly when the
      output fits. */
  lemma CompleteIffFits(c: Config)
    requires ValidConfig(c)
    ensures (forall run :: IsRun(MonitorSystem(c, false), run) && Stuck(MonitorSystem(c, false), Last(run)) ==>
               Complete(c, Last(run)))
       <==> Fits(c)
  {
    forall run | IsRun(MonitorSystem(c, false), run) && Stuck(MonitorSystem(c, false), Last(run))
      ensures Complete(c, Last(run)) <==> Fits(c)
    {
      MonitorPrintsAll(c, run);
    }
    var run := SomeRunEnds(c);
  }

  /** The program's three threads with one round more than fits: A and B finish, C is left waiting with
      one letter missing. With a count of 0, 2^31 letters come out and all three are left waiting. */
  lemma ThreeThreadsTooFar(count: int, run: seq<Monitor>)
    requires count == 715_827_883 || count == 0
    requires IsRun(MonitorSystem(Config(3, count), false), run)
    requires Stuck(MonitorSystem(Config(3, count), false), Last(run))
    ensures |Last(run).out| == TWO_31 && !Complete(Config(3, count), Last(run))
    ensures Last(run).waiting == (if count == 0 then {0, 1, 2} else {2})
    ensures Last(run).done == (if count == 0 then {} else {0, 1})
  {
    var c := Config(3, count);
    MonitorRanked(c);
    Invariance(MonitorSystem(c, false), (x: Monitor) => MonitorInv(c, x), run);
    var s := Last(run);
    NoNextStep(c, s);
    StuckMonitor(c, s);
    ThreeTurns();
    assert forall f :: 0 <= f < 3 ==> (f in s.done <==> Turns(3, TWO_31, f) == Goal(c));
    assert 0 < 3 && 1 < 3 && 2 < 3;
  }

  lemma ThreeTurns()
    ensures Turns(3, TWO_31, 0) == Turns(3, TWO_31, 1) == 715_827_883 && Turns(3, TWO_31, 2) == 715_827_882
  {
    TurnsFormula(3, TWO_31, 0);
    TurnsFormula(3, TWO_31, 1);
    TurnsFormula(3, TWO_31, 2);
  }
}
