/** The three bounded buffers of the repository as one step relation over any set of looping
    producers and consumers. They differ only in whom a finished operation wakes.

    Shared fields are touched only while the lock is held, so the code from taking the lock to
    releasing it (or to waiting, which releases it) is one step. A woken thread re-runs its loop
    test only once it gets the lock, and any other thread may get the lock before it. */
module BoundedBuffer {
  import opened Runs

  type Item(==, 0, !new)

  /** Whom an operation wakes: one waiter of any kind, every waiter, or one waiter of the other kind. */
  datatype Policy = NotifyOne | NotifyAll | TwoConditions

  datatype Config = Config(policy: Policy, producers: set<nat>, consumers: set<nat>, capacity: nat)

  /** `signalledP` and `signalledC` are the threads that an operation woke and that have not yet got the
      lock back; a spuriously woken thread is in neither. */
  datatype State = State(
    queue: seq<Item>, count: int, put: seq<Item>, taken: seq<Item>,
    waitP: set<nat>, waitC: set<nat>, signalledP: set<nat>, signalledC: set<nat>)

  ghost predicate ValidConfig(c: Config) {
    c.producers !! c.consumers && c.capacity >= 1
  }

  ghost predicate Init(s: State) {
    s == State([], 0, [], [], {}, {}, {}, {})
  }

  /** One arbitrary waiter leaves the wait set; nothing happens when it is empty. */
  ghost predicate Signal(before: set<nat>, after: set<nat>) {
    if before == {} then after == {} else exists w :: w in before && after == before - {w}
  }

  ghost predicate Wakes(policy: Policy, byProducer: bool,
                        waitP: set<nat>, waitC: set<nat>, waitP': set<nat>, waitC': set<nat>) {
    match policy
    case NotifyAll => waitP' == {} && waitC' == {}
    case NotifyOne =>
      || (Signal(waitP, waitP') && waitC' == waitC && (waitP == {} ==> waitC == {}))
      || (Signal(waitC, waitC') && waitP' == waitP && (waitC == {} ==> waitP == {}))
    case TwoConditions =>
      if byProducer then Signal(waitC, waitC') && waitP' == waitP
      else Signal(waitP, waitP') && waitC' == waitC
  }

  datatype Event =
    | Put(thread: nat, item: Item)
    | Take(thread: nat)
    | AwaitRoom(thread: nat)
    | AwaitItem(thread: nat)
    | Spurious(thread: nat)

  ghost predicate Step(c: Config, s: State, t: State, e: Event) {
    match e
    case Put(p, x) =>
      && p in c.producers - s.waitP && s.count != c.capacity
      && t.queue == s.queue + [x] && t.count == s.count + 1
      && t.put == s.put + [x] && t.taken == s.taken
      && Wakes(c.policy, true, s.waitP, s.waitC, t.waitP, t.waitC)
      && t.signalledP == (s.signalledP - {p}) + (s.waitP - t.waitP)
      && t.signalledC == s.signalledC + (s.waitC - t.waitC)
    case Take(k) =>
      && k in c.consumers - s.waitC && s.count != 0 && s.queue != []
      && t.queue == s.queue[1..] && t.count == s.count - 1
      && t.put == s.put && t.taken == s.taken + [s.queue[0]]
      && Wakes(c.policy, false, s.waitP, s.waitC, t.waitP, t.waitC)
      && t.signalledP == s.signalledP + (s.waitP - t.waitP)
      && t.signalledC == (s.signalledC - {k}) + (s.waitC - t.waitC)
    case AwaitRoom(p) =>
      && p in c.producers - s.waitP && s.count == c.capacity
      && t == s.(waitP := s.waitP + {p}, signalledP := s.signalledP - {p})
    case AwaitItem(k) =>
      && k in c.consumers - s.waitC && s.count == 0
      && t == s.(waitC := s.waitC + {k}, signalledC := s.signalledC - {k})
    case Spurious(w) =>
      if w in s.waitP then t == s.(waitP := s.waitP - {w})
      else w in s.waitC && t == s.(waitC := s.waitC - {w})
  }

  /** One step of some thread; spurious wake-ups count only if they are admitted. */
  ghost predicate Next(c: Config, spurious: bool, s: State, t: State) {
    exists e :: Step(c, s, t, e) && (e.Spurious? ==> spurious)
  }

  ghost function Buffer(c: Config, spurious: bool): System<State> {
    System(s => Init(s), (s, t) => Next(c, spurious, s, t))
  }

  // ----- what every policy keeps

  ghost predicate Consistent(c: Config, s: State) {
    && s.put == s.taken + s.queue
    && s.count == |s.queue| <= c.capacity
    && s.waitP <= c.producers && s.waitC <= c.consumers
    && s.signalledP <= c.producers - s.waitP && s.signalledC <= c.consumers - s.waitC
  }

  lemma ConsistentStep(c: Config, s: State, t: State)
    requires ValidConfig(c) && Consistent(c, s) && Next(c, true, s, t)
    ensures Consistent(c, t)
  {
    var e :| Step(c, s, t, e);
    if e.Take? { assert s.taken + s.queue == s.taken + [s.queue[0]] + s.queue[1..]; }
  }

  /** Under every policy and schedule items come out in the order they went in, none lost or
      duplicated, the separate counter is the queue's length, and the capacity is respected. */
  lemma FifoWithinCapacity(c: Config, s: State)
    requires ValidConfig(c) && Reachable(Buffer(c, true), s)
    ensures s.put == s.taken + s.queue && s.count == |s.queue| <= c.capacity
    ensures Consistent(c, s)
  {
    var inv := (x: State) => Consistent(c, x);
    forall x, y | inv(x) && Buffer(c, true).next(x, y) ensures inv(y) { ConsistentStep(c, x, y); }
    InvariantReachable(Buffer(c, true), inv, s);
  }

  ghost predicate AllWaiting(c: Config, s: State) {
    s.waitP == c.producers && s.waitC == c.consumers
  }

  // ----- who can move

  lemma SomeWake(policy: Policy, byProducer: bool, waitP: set<nat>, waitC: set<nat>)
      returns (waitP': set<nat>, waitC': set<nat>)
    ensures Wakes(policy, byProducer, waitP, waitC, waitP', waitC')
  {
    waitP', waitC' := waitP, waitC;
    match policy
    case NotifyAll => waitP', waitC' := {}, {};
    case NotifyOne =>
      if w :| w in waitP { waitP' := waitP - {w}; }
      else if w :| w in waitC { waitC' := waitC - {w}; }
    case TwoConditions =>
      if byProducer { if w :| w in waitC { waitC' := waitC - {w}; } }
      else { if w :| w in waitP { waitP' := waitP - {w}; } }
  }

  /** Under every policy a producer that is not waiting can put any item while there is room, and otherwise waits. */
  lemma ProducerMoves(c: Config, s: State, p: nat, x: Item) returns (t: State)
    requires Consistent(c, s) && p in c.producers && p !in s.waitP
    ensures Next(c, false, s, t)
    ensures |s.queue| < c.capacity ==> t.queue == s.queue + [x] && t.put == s.put + [x]
    ensures |s.queue| == c.capacity ==> t.queue == s.queue && t.waitP == s.waitP + {p}
  {
    if |s.queue| < c.capacity {
      var waitP, waitC := SomeWake(c.policy, true, s.waitP, s.waitC);
      t := State(s.queue + [x], s.count + 1, s.put + [x], s.taken, waitP, waitC,
                 (s.signalledP - {p}) + (s.waitP - waitP), s.signalledC + (s.waitC - waitC));
      var e := Put(p, x);
      assert Step(c, s, t, e);
    } else {
      t := s.(waitP := s.waitP + {p}, signalledP := s.signalledP - {p});
      assert Step(c, s, t, AwaitRoom(p));
    }
  }

  /** A consumer that is not waiting can take the oldest item while there is one, and otherwise waits. */
  lemma ConsumerMoves(c: Config, s: State, k: nat) returns (t: State)
    requires Consistent(c, s) && k in c.consumers && k !in s.waitC
    ensures Next(c, false, s, t)
    ensures s.queue != [] ==> t.queue == s.queue[1..] && t.taken == s.taken + [s.queue[0]]
    ensures s.queue == [] ==> t.queue == [] && t.waitC == s.waitC + {k}
  {
    if s.queue != [] {
      var waitP, waitC := SomeWake(c.policy, false, s.waitP, s.waitC);
      t := State(s.queue[1..], s.count - 1, s.put, s.taken + [s.queue[0]], waitP, waitC,
                 s.signalledP + (s.waitP - waitP), (s.signalledC - {k}) + (s.waitC - waitC));
      assert Step(c, s, t, Take(k));
    } else {
      t := s.(waitC := s.waitC + {k}, signalledC := s.signalledC - {k});
      assert Step(c, s, t, AwaitItem(k));
    }
  }

  /** The program can no longer move exactly when every thread waits. */
  lemma StuckIffAllWaiting(c: Config, s: State)
    requires Consistent(c, s)
    ensures (forall t :: !Next(c, false, s, t)) <==> AllWaiting(c, s)
  {
    if p :| p in c.producers && p !in s.waitP {
      var x: Item :| true;
      var t := ProducerMoves(c, s, p, x);
    } else if k :| k in c.consumers && k !in s.waitC {
      var t := ConsumerMoves(c, s, k);
    } else {
      assert AllWaiting(c, s);
    }
  }

  // ----- two conditions, single signal

  /** No wake-up is lost: waiting consumers mean that every queued item has a signalled consumer
      under way, and waiting producers that every free slot has a signalled producer under way. */
  ghost predicate Covered(c: Config, s: State) {
    && Consistent(c, s)
    && (s.waitC != {} ==> |s.queue| <= |s.signalledC|)
    && (s.waitP != {} ==> c.capacity - |s.queue| <= |s.signalledP|)
  }

  lemma SignalMoves(before: set<nat>, after: set<nat>, signalled: set<nat>)
    requires Signal(before, after) && signalled !! before
    ensures before == {} ==> after == {}
    ensures before != {} ==> |signalled + (before - after)| == |signalled| + 1
  {
    if before != {} {
      var w :| w in before && after == before - {w};
      assert signalled + (before - after) == signalled + {w};
    }
  }

  lemma RunnerLeaves(signalled: set<nat>, runner: nat)
    ensures |signalled - {runner}| >= |signalled| - 1
  {
    if runner in signalled { assert |signalled - {runner}| == |signalled| - 1; }
    else { assert signalled - {runner} == signalled; }
  }

  lemma CoveredPut(c: Config, s: State, t: State, p: nat, x: Item)
    requires c.policy.TwoConditions? && Covered(c, s) && Consistent(c, t) && Step(c, s, t, Put(p, x))
    ensures Covered(c, t)
  {
    assert s.signalledC !! s.waitC;
    SignalMoves(s.waitC, t.waitC, s.signalledC);
    RunnerLeaves(s.signalledP, p);
    assert t.signalledP == s.signalledP - {p};
  }

  lemma CoveredTake(c: Config, s: State, t: State, k: nat)
    requires c.policy.TwoConditions? && Covered(c, s) && Consistent(c, t) && Step(c, s, t, Take(k))
    ensures Covered(c, t)
  {
    assert s.signalledP !! s.waitP;
    SignalMoves(s.waitP, t.waitP, s.signalledP);
    RunnerLeaves(s.signalledC, k);
    assert t.signalledC == s.signalledC - {k};
  }

  lemma CoveredStep(c: Config, s: State, t: State)
    requires ValidConfig(c) && c.policy.TwoConditions? && Covered(c, s) && Next(c, true, s, t)
    ensures Covered(c, t)
  {
    ConsistentStep(c, s, t);
    var e :| Step(c, s, t, e);
    match e
    case Put(p, x) => CoveredPut(c, s, t, p, x);
    case Take(k) => CoveredTake(c, s, t, k);
    case AwaitRoom(p) => CoveredWait(c, s, t, e);
    case AwaitItem(k) => CoveredWait(c, s, t, e);
    case Spurious(w) => CoveredWait(c, s, t, e);
  }

  lemma CoveredWait(c: Config, s: State, t: State, e: Event)
    requires c.policy.TwoConditions? && Covered(c, s) && Consistent(c, t) && Step(c, s, t, e)
    requires e.AwaitRoom? || e.AwaitItem? || e.Spurious?
    ensures Covered(c, t)
  {}

  /** With two conditions and a single signal, in every reachable state: if the queue holds an item,
      some consumer is not waiting, and if it has room, some producer is not waiting; so the threads
      are never all waiting. */
  lemma SignalSuffices(c: Config, s: State)
    requires ValidConfig(c) && c.policy.TwoConditions? && Reachable(Buffer(c, true), s)
    requires c.producers != {} && c.consumers != {}
    ensures s.waitC != {} ==> |s.queue| <= |s.signalledC|
    ensures s.waitP != {} ==> c.capacity - |s.queue| <= |s.signalledP|
    ensures s.queue != [] ==> exists k :: k in c.consumers - s.waitC
    ensures |s.queue| < c.capacity ==> exists p :: p in c.producers - s.waitP
    ensures !AllWaiting(c, s)
  {
    var inv := (x: State) => Covered(c, x);
    forall x, y | inv(x) && Buffer(c, true).next(x, y) ensures inv(y) { CoveredStep(c, x, y); }
    InvariantReachable(Buffer(c, true), inv, s);
    if s.queue != [] {
      if s.waitC == {} { var k :| k in c.consumers; assert k in c.consumers - s.waitC; }
      else { assert s.signalledC != {}; var k :| k in s.signalledC; assert k in c.consumers - s.waitC; }
    }
    if |s.queue| < c.capacity {
      if s.waitP == {} { var p :| p in c.producers; assert p in c.producers - s.waitP; }
      else { assert s.signalledP != {}; var p :| p in s.signalledP; assert p in c.producers - s.waitP; }
    }
  }

  // ----- one monitor, notifyAll

  ghost predicate OneKindWaits(c: Config, s: State) {
    && Consistent(c, s)
    && (s.waitP != {} ==> |s.queue| == c.capacity)
    && (s.waitC != {} ==> |s.queue| == 0)
  }

  /** With notifyAll a producer waits only while the queue is full and a consumer only while it is
      empty; hence the waiters are all of one kind and the threads are never all waiting. */
  lemma NotifyAllSuffices(c: Config, s: State)
    requires ValidConfig(c) && c.policy.NotifyAll? && Reachable(Buffer(c, true), s)
    requires c.producers != {} && c.consumers != {}
    ensures s.waitP != {} ==> |s.queue| == c.capacity
    ensures s.waitC != {} ==> |s.queue| == 0
    ensures s.waitP == {} || s.waitC == {}
    ensures !AllWaiting(c, s)
  {
    var inv := (x: State) => OneKindWaits(c, x);
    forall x, y | inv(x) && Buffer(c, true).next(x, y) ensures inv(y) { ConsistentStep(c, x, y); }
    InvariantReachable(Buffer(c, true), inv, s);
  }
}
