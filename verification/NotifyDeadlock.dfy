/** One monitor with `notify`: exactly which numbers of threads and which capacities let every
    thread end up waiting. Threads of a kind are interchangeable, so the question is settled on the
    counts (items queued, producers waiting, consumers waiting), and carried over both ways. */
module NotifyDeadlock {
  import opened Runs
  import opened BoundedBuffer

  datatype Counts = Counts(q: nat, wp: nat, wc: nat)

  /** One `notify`: it wakes a waiter of either kind, and none only if nobody waits. */
  ghost predicate CountNotify(a: Counts, b: Counts) {
    || (a.wp > 0 && b.wp == a.wp - 1 && b.wc == a.wc)
    || (a.wc > 0 && b.wc == a.wc - 1 && b.wp == a.wp)
    || (a.wp == a.wc == b.wp == b.wc == 0)
  }

  ghost predicate CountNext(P: nat, C: nat, N: nat, a: Counts, b: Counts) {
    || (a.wp < P && a.q != N && b.q == a.q + 1 && CountNotify(a, b))
    || (a.wc < C && a.q != 0 && b.q == a.q - 1 && CountNotify(a, b))
    || (a.wp < P && a.q == N && b == a.(wp := a.wp + 1))
    || (a.wc < C && a.q == 0 && b == a.(wc := a.wc + 1))
  }

  ghost predicate CountSpurious(a: Counts, b: Counts) {
    || (a.wp > 0 && b == a.(wp := a.wp - 1))
    || (a.wc > 0 && b == a.(wc := a.wc - 1))
  }

  ghost function Counting(P: nat, C: nat, N: nat): System<Counts> {
    System(a => a == Counts(0, 0, 0), (a, b) => CountNext(P, C, N, a, b))
  }

  // ----- few threads: P + C <= 2N keeps someone running

  /** Inductive when P <= N and P + C <= 2N. */
  ghost predicate ProducersFit(P: nat, C: nat, N: nat, a: Counts) {
    && a.q <= N && a.wp <= P && a.wc <= C
    && (a.wp == 0 && a.wc > 0 ==> a.q + a.wc <= C)
    && (a.wp > 0 ==> a.wp + a.wc <= a.q && (a.wc > 0 ==> a.wc + N <= C))
  }

  /** The mirror image, seen from the free slots; inductive when C <= N and P + C <= 2N. */
  ghost predicate ConsumersFit(P: nat, C: nat, N: nat, a: Counts) {
    && a.q <= N && a.wp <= P && a.wc <= C
    && (a.wc == 0 && a.wp > 0 ==> N - a.q + a.wp <= P)
    && (a.wc > 0 ==> a.wp + a.wc <= N - a.q && (a.wp > 0 ==> a.wp + N <= P))
  }

  lemma ProducersFitStep(P: nat, C: nat, N: nat, a: Counts, b: Counts)
    requires P <= N && P + C <= 2 * N
    requires ProducersFit(P, C, N, a) && (CountNext(P, C, N, a, b) || CountSpurious(a, b))
    ensures ProducersFit(P, C, N, b)
  {}

  lemma ConsumersFitStep(P: nat, C: nat, N: nat, a: Counts, b: Counts)
    requires C <= N && P + C <= 2 * N
    requires ConsumersFit(P, C, N, a) && (CountNext(P, C, N, a, b) || CountSpurious(a, b))
    ensures ConsumersFit(P, C, N, b)
  {}

  // ----- many threads: phases of a run that ends with everyone waiting

  lemma {:induction false} ConsumersWait(P: nat, C: nat, N: nat, a: Counts, k: nat)
    requires a.q == 0 && a.wc + k <= C
    ensures Reaches(Counting(P, C, N), a, a.(wc := a.wc + k))
  {
    if k == 0 { ReachesSelf(Counting(P, C, N), a); }
    else {
      ConsumersWait(P, C, N, a, k - 1);
      ReachesStep(Counting(P, C, N), a, a.(wc := a.wc + k - 1), a.(wc := a.wc + k));
    }
  }

  lemma {:induction false} ProducersWait(P: nat, C: nat, N: nat, a: Counts, k: nat)
    requires a.q == N && a.wp + k <= P
    ensures Reaches(Counting(P, C, N), a, a.(wp := a.wp + k))
  {
    if k == 0 { ReachesSelf(Counting(P, C, N), a); }
    else {
      ProducersWait(P, C, N, a, k - 1);
      ReachesStep(Counting(P, C, N), a, a.(wp := a.wp + k - 1), a.(wp := a.wp + k));
    }
  }

  /** k puts that wake kp producers and kc consumers in total, producers first; or, when nobody waits, nobody. */
  lemma {:induction false} Puts(P: nat, C: nat, N: nat, a: Counts, kp: nat, kc: nat)
    requires a.wp < P && a.q + kp + kc <= N && kp <= a.wp && kc <= a.wc
    ensures Reaches(Counting(P, C, N), a, Counts(a.q + kp + kc, a.wp - kp, a.wc - kc))
  {
    if kp == 0 && kc == 0 { ReachesSelf(Counting(P, C, N), a); }
    else if kc > 0 {
      Puts(P, C, N, a, kp, kc - 1);
      ReachesStep(Counting(P, C, N), a, Counts(a.q + kp + kc - 1, a.wp - kp, a.wc - (kc - 1)),
                  Counts(a.q + kp + kc, a.wp - kp, a.wc - kc));
    } else {
      Puts(P, C, N, a, kp - 1, 0);
      ReachesStep(Counting(P, C, N), a, Counts(a.q + kp - 1, a.wp - (kp - 1), a.wc), Counts(a.q + kp, a.wp - kp, a.wc));
    }
  }

  lemma {:induction false} QuietPuts(P: nat, C: nat, N: nat, k: nat)
    requires 0 < P && k <= N
    ensures Reaches(Counting(P, C, N), Counts(0, 0, 0), Counts(k, 0, 0))
  {
    if k == 0 { ReachesSelf(Counting(P, C, N), Counts(0, 0, 0)); }
    else {
      QuietPuts(P, C, N, k - 1);
      ReachesStep(Counting(P, C, N), Counts(0, 0, 0), Counts(k - 1, 0, 0), Counts(k, 0, 0));
    }
  }

  /** Takes that wake kc consumers, then kp producers. */
  lemma {:induction false} Takes(P: nat, C: nat, N: nat, a: Counts, kc: nat, kp: nat)
    requires a.wc < C && kp + kc <= a.q && kp <= a.wp && kc <= a.wc
    ensures Reaches(Counting(P, C, N), a, Counts(a.q - kc - kp, a.wp - kp, a.wc - kc))
  {
    if kp == 0 && kc == 0 { ReachesSelf(Counting(P, C, N), a); }
    else if kp > 0 {
      Takes(P, C, N, a, kc, kp - 1);
      ReachesStep(Counting(P, C, N), a, Counts(a.q - kc - (kp - 1), a.wp - (kp - 1), a.wc - kc),
                  Counts(a.q - kc - kp, a.wp - kp, a.wc - kc));
    } else {
      Takes(P, C, N, a, kc - 1, 0);
      ReachesStep(Counting(P, C, N), a, Counts(a.q - (kc - 1), a.wp, a.wc - (kc - 1)),
                  Counts(a.q - kc, a.wp, a.wc - kc));
    }
  }

  ghost predicate CanAllWait(P: nat, C: nat, N: nat, a: Counts) {
    exists q :: 0 <= q <= N && Reaches(Counting(P, C, N), a, Counts(q, P, C))
  }

  lemma CanAllWaitFrom(P: nat, C: nat, N: nat, a: Counts, b: Counts)
    requires Reaches(Counting(P, C, N), a, b) && CanAllWait(P, C, N, b)
    ensures CanAllWait(P, C, N, a)
  {
    var q :| 0 <= q <= N && Reaches(Counting(P, C, N), b, Counts(q, P, C));
    ReachesTrans(Counting(P, C, N), a, b, Counts(q, P, C));
  }

  /** From a full queue with all producers and w consumers waiting, drain and refill the queue; each
      round leaves P + C - 2N more consumers waiting, until there are enough to absorb every signal. */
  lemma {:induction false} Climb(P: nat, C: nat, N: nat, w: nat)
    requires N >= 1 && P >= 1 && P + C > 2 * N && w < C && P + w > N
    ensures CanAllWait(P, C, N, Counts(N, P, w))
    decreases C - w
  {
    var sys := Counting(P, C, N);
    var full := Counts(N, P, w);
    if w >= N {
      Takes(P, C, N, full, N, 0);
      ConsumersWait(P, C, N, Counts(0, P, w - N), C - (w - N));
      ReachesTrans(sys, full, Counts(0, P, w - N), Counts(0, P, C));
    } else {
      var spare := P - (N - w);
      Takes(P, C, N, full, w, N - w);
      ConsumersWait(P, C, N, Counts(0, spare, 0), C);
      ReachesTrans(sys, full, Counts(0, spare, 0), Counts(0, spare, C));
      if spare >= N {
        Puts(P, C, N, Counts(0, spare, C), N, 0);
        ReachesTrans(sys, full, Counts(0, spare, C), Counts(N, spare - N, C));
        ProducersWait(P, C, N, Counts(N, spare - N, C), P - (spare - N));
        ReachesTrans(sys, full, Counts(N, spare - N, C), Counts(N, P, C));
      } else {
        var w' := C - (N - spare);
        Puts(P, C, N, Counts(0, spare, C), spare, N - spare);
        ReachesTrans(sys, full, Counts(0, spare, C), Counts(N, 0, w'));
        ProducersWait(P, C, N, Counts(N, 0, w'), P);
        ReachesTrans(sys, full, Counts(N, 0, w'), Counts(N, P, w'));
        Climb(P, C, N, w');
        CanAllWaitFrom(P, C, N, full, Counts(N, P, w'));
      }
    }
  }

  lemma ManyThreadsCanAllWait(P: nat, C: nat, N: nat)
    requires N >= 1 && P >= 1 && C >= 1 && P + C > 2 * N
    ensures CanAllWait(P, C, N, Counts(0, 0, 0))
  {
    var sys := Counting(P, C, N);
    var start := Counts(0, 0, 0);
    var w := if C > N then C - N else 0;
    if C > N {
      ConsumersWait(P, C, N, start, C);
      Puts(P, C, N, Counts(0, 0, C), 0, N);
      ReachesTrans(sys, start, Counts(0, 0, C), Counts(N, 0, w));
    } else {
      QuietPuts(P, C, N, N);
    }
    ProducersWait(P, C, N, Counts(N, 0, w), P);
    ReachesTrans(sys, start, Counts(N, 0, w), Counts(N, P, w));
    Climb(P, C, N, w);
    CanAllWaitFrom(P, C, N, start, Counts(N, P, w));
  }

  // ----- threads and counts simulate each other

  ghost function Abs(s: State): Counts {
    Counts(|s.queue|, |s.waitP|, |s.waitC|)
  }

  lemma SignalCounts(before: set<nat>, after: set<nat>)
    requires Signal(before, after)
    ensures before == {} ==> |after| == |before| == 0
    ensures before != {} ==> |after| == |before| - 1
  {}

  lemma SubsetSizes<T>(a: set<T>, b: set<T>)
    requires a <= b
    ensures |a| <= |b| && (|a| == |b| ==> a == b)
  {
    assert b == a + (b - a);
    assert |b| == |a| + |b - a|;
  }

  lemma NotifyProjects(s: State, t: State, byProducer: bool)
    requires Wakes(NotifyOne, byProducer, s.waitP, s.waitC, t.waitP, t.waitC)
    ensures CountNotify(Abs(s), Abs(t))
  {
    if Signal(s.waitP, t.waitP) { SignalCounts(s.waitP, t.waitP); }
    if Signal(s.waitC, t.waitC) { SignalCounts(s.waitC, t.waitC); }
  }

  lemma RunnerCounts(all: set<nat>, waiting: set<nat>, r: nat)
    requires waiting <= all && r in all - waiting
    ensures |waiting| < |all| && |waiting + {r}| == |waiting| + 1
  {
    SubsetSizes(waiting, all);
  }

  lemma StepProjects(c: Config, s: State, t: State)
    requires ValidConfig(c) && c.policy.NotifyOne? && Consistent(c, s) && Next(c, true, s, t)
    ensures CountNext(|c.producers|, |c.consumers|, c.capacity, Abs(s), Abs(t)) || CountSpurious(Abs(s), Abs(t))
  {
    var e :| Step(c, s, t, e);
    match e
    case Put(p, x) =>
      NotifyProjects(s, t, true);
      RunnerCounts(c.producers, s.waitP, p);
    case Take(k) =>
      NotifyProjects(s, t, false);
      RunnerCounts(c.consumers, s.waitC, k);
    case AwaitRoom(p) => RunnerCounts(c.producers, s.waitP, p);
    case AwaitItem(k) => RunnerCounts(c.consumers, s.waitC, k);
    case Spurious(w) =>
  }

  lemma PickRunner(all: set<nat>, waiting: set<nat>) returns (r: nat)
    requires waiting <= all && |waiting| < |all|
    ensures r in all - waiting
  {
    if forall x :: x in all ==> x in waiting { SubsetSizes(all, waiting); }
    assert exists x :: x in all && x !in waiting;
    r :| r in all && r !in waiting;
  }

  /** The wait sets after one `notify` that changes the counts as wanted. */
  lemma PickWoken(s: State, b: Counts) returns (waitP: set<nat>, waitC: set<nat>)
    requires CountNotify(Abs(s), b)
    ensures |waitP| == b.wp && |waitC| == b.wc
    ensures Wakes(NotifyOne, true, s.waitP, s.waitC, waitP, waitC)
    ensures Wakes(NotifyOne, false, s.waitP, s.waitC, waitP, waitC)
  {
    waitP, waitC := s.waitP, s.waitC;
    if |s.waitP| > 0 && b.wp == |s.waitP| - 1 && b.wc == |s.waitC| {
      var w :| w in s.waitP;
      waitP := s.waitP - {w};
    } else if |s.waitC| > 0 {
      var w :| w in s.waitC;
      waitC := s.waitC - {w};
    }
  }

  lemma PutLifts(c: Config, s: State, b: Counts) returns (t: State)
    requires ValidConfig(c) && c.policy.NotifyOne? && Consistent(c, s)
    requires |s.waitP| < |c.producers| && |s.queue| != c.capacity && b.q == |s.queue| + 1 && CountNotify(Abs(s), b)
    ensures Next(c, false, s, t) && Abs(t) == b
  {
    var p := PickRunner(c.producers, s.waitP);
    var waitP, waitC := PickWoken(s, b);
    var x: Item :| true;
    t := State(s.queue + [x], s.count + 1, s.put + [x], s.taken, waitP, waitC,
               (s.signalledP - {p}) + (s.waitP - waitP), s.signalledC + (s.waitC - waitC));
    var e := Put(p, x);
    assert Step(c, s, t, e);
  }

  lemma TakeLifts(c: Config, s: State, b: Counts) returns (t: State)
    requires ValidConfig(c) && c.policy.NotifyOne? && Consistent(c, s)
    requires |s.waitC| < |c.consumers| && s.queue != [] && b.q == |s.queue| - 1 && CountNotify(Abs(s), b)
    ensures Next(c, false, s, t) && Abs(t) == b
  {
    var k := PickRunner(c.consumers, s.waitC);
    var waitP, waitC := PickWoken(s, b);
    t := State(s.queue[1..], s.count - 1, s.put, s.taken + [s.queue[0]], waitP, waitC,
               s.signalledP + (s.waitP - waitP), (s.signalledC - {k}) + (s.waitC - waitC));
    assert Step(c, s, t, Take(k));
  }

  lemma WaitLifts(c: Config, s: State, byProducer: bool) returns (t: State)
    requires ValidConfig(c) && Consistent(c, s)
    requires byProducer ==> |s.waitP| < |c.producers| && |s.queue| == c.capacity
    requires !byProducer ==> |s.waitC| < |c.consumers| && |s.queue| == 0
    ensures Next(c, false, s, t)
    ensures byProducer ==> Abs(t) == Abs(s).(wp := |s.waitP| + 1)
    ensures !byProducer ==> Abs(t) == Abs(s).(wc := |s.waitC| + 1)
  {
    if byProducer {
      var p := PickRunner(c.producers, s.waitP);
      t := s.(waitP := s.waitP + {p}, signalledP := s.signalledP - {p});
      assert Step(c, s, t, AwaitRoom(p));
    } else {
      var k := PickRunner(c.consumers, s.waitC);
      t := s.(waitC := s.waitC + {k}, signalledC := s.signalledC - {k});
      assert Step(c, s, t, AwaitItem(k));
    }
  }

  lemma StepLifts(c: Config, s: State, b: Counts) returns (t: State)
    requires ValidConfig(c) && c.policy.NotifyOne? && Consistent(c, s)
    requires CountNext(|c.producers|, |c.consumers|, c.capacity, Abs(s), b)
    ensures Next(c, false, s, t) && Abs(t) == b
  {
    var a := Abs(s);
    if b.q == a.q + 1 {
      t := PutLifts(c, s, b);
    } else if b.q == a.q - 1 {
      t := TakeLifts(c, s, b);
    } else if b.wp == a.wp + 1 {
      t := WaitLifts(c, s, true);
    } else {
      t := WaitLifts(c, s, false);
    }
  }

  lemma {:induction false} PathLifts(c: Config, spurious: bool, s: State, path: seq<Counts>) returns (t: State)
    requires ValidConfig(c) && c.policy.NotifyOne? && Consistent(c, s)
    requires |path| > 0 && path[0] == Abs(s)
    requires IsPath(Counting(|c.producers|, |c.consumers|, c.capacity), path)
    ensures Reaches(Buffer(c, spurious), s, t) && Abs(t) == Last(path) && Consistent(c, t)
    decreases |path|
  {
    if |path| == 1 {
      ReachesSelf(Buffer(c, spurious), s);
      t := s;
    } else {
      var front := path[..|path| - 1];
      var mid := PathLifts(c, spurious, s, front);
      assert Counting(|c.producers|, |c.consumers|, c.capacity).next(path[|path| - 2], path[|path| - 2 + 1]);
      t := StepLifts(c, mid, Last(path));
      ReachesStep(Buffer(c, spurious), s, mid, t);
      ConsistentStep(c, mid, t);
    }
  }

  ghost predicate Safe(c: Config, s: State) {
    var P, C, N := |c.producers|, |c.consumers|, c.capacity;
    Consistent(c, s) && (if P <= N then ProducersFit(P, C, N, Abs(s)) else ConsumersFit(P, C, N, Abs(s)))
  }

  lemma FewThreadsNeverAllWait(c: Config, spurious: bool, s: State)
    requires ValidConfig(c) && c.policy.NotifyOne? && c.producers != {} && c.consumers != {}
    requires |c.producers| + |c.consumers| <= 2 * c.capacity
    requires Reachable(Buffer(c, spurious), s)
    ensures !AllWaiting(c, s)
  {
    var P, C, N := |c.producers|, |c.consumers|, c.capacity;
    var inv := (x: State) => Safe(c, x);
    forall x, y | inv(x) && Buffer(c, spurious).next(x, y) ensures inv(y) {
      assert Next(c, true, x, y);
      ConsistentStep(c, x, y);
      StepProjects(c, x, y);
      if P <= N { ProducersFitStep(P, C, N, Abs(x), Abs(y)); } else { ConsumersFitStep(P, C, N, Abs(x), Abs(y)); }
    }
    InvariantReachable(Buffer(c, spurious), inv, s);
    assert P >= 1 && C >= 1;
  }

  /** With `notify` on one monitor, a state in which every thread waits is reachable exactly when there
      are more than twice as many threads as the queue has slots, and that is so whether or not there are
      spurious wake-ups: the unsafe runs need none and the safe ones tolerate them. In particular one producer and
      one consumer are always safe, and two of each with capacity 1 are not. */
  lemma NotifyDeadlockIff(c: Config, spurious: bool)
    requires ValidConfig(c) && c.policy.NotifyOne? && c.producers != {} && c.consumers != {}
    ensures (exists s :: Reachable(Buffer(c, spurious), s) && AllWaiting(c, s))
       <==> |c.producers| + |c.consumers| > 2 * c.capacity
  {
    var P, C, N := |c.producers|, |c.consumers|, c.capacity;
    if P + C > 2 * N {
      assert P >= 1 && C >= 1;
      ManyThreadsCanAllWait(P, C, N);
      var q :| 0 <= q <= N && Reaches(Counting(P, C, N), Counts(0, 0, 0), Counts(q, P, C));
      var path :| |path| > 0 && path[0] == Counts(0, 0, 0) && Last(path) == Counts(q, P, C)
                  && IsPath(Counting(P, C, N), path);
      var s0 := State([], 0, [], [], {}, {}, {}, {});
      var s := PathLifts(c, spurious, s0, path);
      ReachableFrom(Buffer(c, spurious), s0, s);
      SubsetSizes(s.waitP, c.producers);
      SubsetSizes(s.waitC, c.consumers);
      assert AllWaiting(c, s);
    } else {
      forall s | Reachable(Buffer(c, spurious), s) ensures !AllWaiting(c, s) { FewThreadsNeverAllWait(c, spurious, s); }
    }
  }
}
