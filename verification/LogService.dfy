/** The stoppable log service: any number of concurrent `log` and `stop` calls and one logger thread.
    A call reserves a slot under the lock and enqueues its message later; the logger may leave only
    when shutdown was requested and no reservation is open. The reservation counter is a 32-bit int and
    the queue holds at most MAX_INT messages. */
module LogService {
  import opened Runs
  import opened JavaInt

  type Message(==, 0, !new)

  /** Where the logger thread is in its loop. */
  datatype Logger = Check | Take | Taken(msg: Message) | Counted(msg: Message) | Exited

  /** The callers' side. `pending`: messages of calls between their reservation and their `queue.put`;
      `stopping`: stop calls between setting the flag and interrupting; `accepted`: every message whose
      call was not refused. */
  datatype Calls = Calls(pending: multiset<Message>, stopping: nat, accepted: multiset<Message>)

  /** `interrupt` is the logger thread's interrupt status; `enqueued` and `written` record the history. */
  datatype State = State(
    isShutdown: bool, reservations: int, queue: seq<Message>, calls: Calls,
    interrupt: bool, logger: Logger, enqueued: seq<Message>, written: seq<Message>)

  ghost predicate Init(s: State) {
    s == State(false, 0, [], Calls(multiset{}, 0, multiset{}), false, Check, [], [])
  }

  datatype Event =
    | Reserve(msg: Message)
    | Refuse
    | RequestStop
    | Enqueue(msg: Message)
    | Interrupt
    | LoggerStep

  ghost predicate LoggerMoves(s: State, t: State) {
    match s.logger
    case Check => t == s.(logger := if s.isShutdown && s.reservations == 0 then Exited else Take)
    case Take =>
      || (s.interrupt && t == s.(interrupt := false, logger := Check))
      || (s.queue != [] && t == s.(queue := s.queue[1..], logger := Taken(s.queue[0])))
    case Taken(m) => t == s.(reservations := Wrap(s.reservations - 1), logger := Counted(m))
    case Counted(m) => t == s.(written := s.written + [m], logger := Check)
    case Exited => false
  }

  /** `callers` is how many threads may be inside `log` at a time. */
  ghost predicate Step(callers: nat, s: State, t: State, e: Event) {
    var k := s.calls;
    match e
    case Reserve(m) =>
      && !s.isShutdown && |k.pending| < callers
      && t == s.(reservations := Wrap(s.reservations + 1),
                 calls := k.(pending := k.pending + multiset{m}, accepted := k.accepted + multiset{m}))
    case Refuse => s.isShutdown && t == s
    case RequestStop => t == s.(isShutdown := true, calls := k.(stopping := k.stopping + 1))
    case Enqueue(m) =>
      && m in k.pending && |s.queue| < MAX_INT
      && t == s.(calls := k.(pending := k.pending - multiset{m}),
                 queue := s.queue + [m], enqueued := s.enqueued + [m])
    case Interrupt => k.stopping > 0 && t == s.(calls := k.(stopping := k.stopping - 1), interrupt := true)
    case LoggerStep => LoggerMoves(s, t)
  }

  ghost predicate Next(callers: nat, s: State, t: State) {
    exists e :: Step(callers, s, t, e)
  }

  predicate UnderWay(e: Event) {
    e.Enqueue? || e.Interrupt? || e.LoggerStep?
  }

  /** Steps of calls and threads already under way: no new `log` or `stop` call. */
  ghost predicate Finishing(callers: nat, s: State, t: State) {
    exists e :: Step(callers, s, t, e) && UnderWay(e)
  }

  ghost function Service(callers: nat): System<State> {
    System(s => Init(s), (s, t) => Next(callers, s, t))
  }

  function InHand(l: Logger): seq<Message> {
    if l.Taken? || l.Counted? then [l.msg] else []
  }

  /** The open reservations: reserved and not queued, queued, or taken and not counted. */
  ghost function Open(s: State): nat {
    |s.calls.pending| + |s.queue| + if s.logger.Taken? then 1 else 0
  }

  ghost predicate Inv(callers: nat, s: State) {
    && |s.calls.pending| <= callers && |s.queue| <= MAX_INT && s.reservations == Wrap(Open(s))
    && s.enqueued == s.written + InHand(s.logger) + s.queue
    && s.calls.accepted == s.calls.pending + multiset(s.enqueued)
    && (s.logger.Exited? ==> s.isShutdown && s.reservations == 0)
    && (s.logger.Take? && s.isShutdown && s.reservations == 0 ==> s.interrupt || s.calls.stopping > 0)
  }

  lemma InvEnqueue(callers: nat, s: State, t: State, m: Message)
    requires Inv(callers, s) && Step(callers, s, t, Enqueue(m))
    ensures Inv(callers, t) && |t.calls.pending| == |s.calls.pending| - 1
  {
    MovePending(s.calls.pending, s.enqueued, m);
    assert t.enqueued == t.written + InHand(t.logger) + t.queue;
  }

  lemma MovePending(pending: multiset<Message>, enqueued: seq<Message>, m: Message)
    requires m in pending
    ensures pending + multiset(enqueued) == (pending - multiset{m}) + multiset(enqueued + [m])
    ensures |pending - multiset{m}| == |pending| - 1
  {
    assert pending == (pending - multiset{m}) + multiset{m};
  }

  lemma InvReserve(callers: nat, s: State, t: State, m: Message)
    requires Inv(callers, s) && Step(callers, s, t, Reserve(m))
    ensures Inv(callers, t)
  {
    assert |t.calls.pending| == |s.calls.pending| + 1;
    WrapAdd(Open(s), 1);
    assert t.calls.accepted == t.calls.pending + multiset(t.enqueued);
  }

  /** Taking from the queue, or noticing an interrupt. */
  lemma InvTake(callers: nat, s: State, t: State)
    requires Inv(callers, s) && LoggerMoves(s, t) && s.logger.Take?
    ensures Inv(callers, t)
  {
    if t.logger.Taken? {
      assert s.queue == [s.queue[0]] + s.queue[1..];
      PassOn(s.written, s.queue[0], s.queue[1..]);
    }
  }

  /** Counting a message down, then writing it. */
  lemma InvCountAndWrite(callers: nat, s: State, t: State)
    requires Inv(callers, s) && LoggerMoves(s, t) && (s.logger.Taken? || s.logger.Counted?)
    ensures Inv(callers, t)
  {
    if s.logger.Taken? { WrapAdd(Open(s), -1); } else { PassOn(s.written, s.logger.msg, s.queue); }
  }

  lemma InvLogger(callers: nat, s: State, t: State)
    requires Inv(callers, s) && LoggerMoves(s, t)
    ensures Inv(callers, t)
  {
    match s.logger
    case Take => InvTake(callers, s, t);
    case Taken(_) => InvCountAndWrite(callers, s, t);
    case Counted(_) => InvCountAndWrite(callers, s, t);
    case Check =>
    case Exited =>
  }

  /** From the queue to the hand, and from the hand to the output. */
  lemma PassOn(written: seq<Message>, m: Message, queue: seq<Message>)
    ensures written + [] + ([m] + queue) == written + [m] + queue == (written + [m]) + [] + queue
  {}

  lemma InvStep(callers: nat, s: State, t: State)
    requires Inv(callers, s) && Next(callers, s, t)
    ensures Inv(callers, t)
  {
    var e :| Step(callers, s, t, e);
    match e
    case Reserve(m) => InvReserve(callers, s, t, m);
    case Enqueue(m) => InvEnqueue(callers, s, t, m);
    case LoggerStep => InvLogger(callers, s, t);
    case Refuse =>
    case RequestStop =>
    case Interrupt =>
  }

  lemma InvReachable(callers: nat, s: State)
    requires Reachable(Service(callers), s)
    ensures Inv(callers, s)
  {
    forall x, y | Inv(callers, x) && Service(callers).next(x, y) ensures Inv(callers, y) { InvStep(callers, x, y); }
    InvariantReachable(Service(callers), x => Inv(callers, x), s);
  }

  /** More callers at a time than this, and the counter can wrap around to 0 with reservations open. */
  const MOST_CALLERS: nat := 0x8000_0000

  lemma OpenIsZero(callers: nat, s: State)
    requires callers <= MOST_CALLERS && Inv(callers, s) && !s.logger.Taken?
    ensures s.reservations == 0 <==> Open(s) == 0
  {
    WrapNear(Open(s), 0);
  }

  /** In every interleaving: open reservations are the reserved, the queued and the taken-but-uncounted
      messages, which the counter counts modulo 2^32; and, with at most 2^31 callers at a time, once the
      logger has exited what it wrote is exactly the accepted messages, each once, in the order they
      entered the queue. Nothing accepted is left behind, then or later. */
  lemma NothingLost(callers: nat, s: State)
    requires Reachable(Service(callers), s)
    ensures s.reservations == Wrap(Open(s))
    ensures s.written <= s.enqueued
    ensures s.logger.Exited? && callers <= MOST_CALLERS ==>
              s.written == s.enqueued && multiset(s.written) == s.calls.accepted
  {
    InvReachable(callers, s);
    if s.logger.Exited? && callers <= MOST_CALLERS {
      OpenIsZero(callers, s);
      assert s.calls.pending == multiset{};
    }
  }

  // ----- what a stop request changes

  /** After a stop request nothing more is accepted. */
  lemma NoneAcceptedAfterStop(callers: nat, s: State, t: State)
    requires s.isShutdown && Next(callers, s, t)
    ensures t.isShutdown && t.calls.accepted == s.calls.accepted
  {}

  /** Before it, every call that a free caller makes can be accepted, and none is refused; after it, every call
      is refused; and a stop can be requested at any time. */
  lemma AcceptedUntilStop(callers: nat, s: State, m: Message)
    ensures !s.isShutdown ==> !exists t :: Step(callers, s, t, Refuse)
    ensures s.isShutdown ==> Step(callers, s, s, Refuse) && !exists t :: Step(callers, s, t, Reserve(m))
    ensures !s.isShutdown && |s.calls.pending| < callers ==>
              exists t :: Step(callers, s, t, Reserve(m)) && Accepts(s, t, m)
    ensures exists t :: Step(callers, s, t, RequestStop) && t.isShutdown && t.calls.stopping == s.calls.stopping + 1
  {
    if !s.isShutdown && |s.calls.pending| < callers {
      var k := s.calls;
      var t := s.(reservations := Wrap(s.reservations + 1),
                  calls := k.(pending := k.pending + multiset{m}, accepted := k.accepted + multiset{m}));
      assert Step(callers, s, t, Reserve(m)) && Accepts(s, t, m);
    }
    var t := s.(isShutdown := true, calls := s.calls.(stopping := s.calls.stopping + 1));
    assert Step(callers, s, t, RequestStop);
  }

  /** m is accepted, and its call is on its way to the queue. */
  ghost predicate Accepts(s: State, t: State, m: Message) {
    && t.calls.accepted == s.calls.accepted + multiset{m} && t.calls.pending == s.calls.pending + multiset{m}
    && t.queue == s.queue && t.written == s.written && !t.isShutdown
  }

  /** Along any run from a state in which a stop was requested, what had been accepted by then is what is
      written when the logger has exited. */
  lemma WritesWhatWasAccepted(callers: nat, s: State, path: seq<State>)
    requires Reachable(Service(callers), s) && s.isShutdown && callers <= MOST_CALLERS
    requires |path| > 0 && path[0] == s && IsPath(Service(callers), path)
    ensures Last(path).isShutdown && Last(path).calls.accepted == s.calls.accepted
    ensures Last(path).logger.Exited? ==> multiset(Last(path).written) == s.calls.accepted
  {
    InvReachable(callers, s);
    var after := System((x: State) => x == s, (x, y) => Next(callers, x, y));
    var inv := (x: State) => Inv(callers, x) && x.isShutdown && x.calls.accepted == s.calls.accepted;
    forall x, y | inv(x) && after.next(x, y) ensures inv(y) {
      InvStep(callers, x, y);
      NoneAcceptedAfterStop(callers, x, y);
    }
    forall i | 0 <= i < |path| - 1 ensures after.next(path[i], path[i + 1]) {
      assert Service(callers).next(path[i], path[i + 1]);
    }
    assert IsRun(after, path);
    Invariance(after, inv, path);
    var t := Last(path);
    assert inv(t);
    if t.logger.Exited? {
      OpenIsZero(callers, t);
      assert t.calls.pending == multiset{};
    }
  }

  // ----- one caller too many

  /** q messages queued and p reserved, nothing taken. */
  ghost function Loaded(m: Message, q: nat, p: nat): State {
    State(false, Wrap(q + p), seq(q, i => m), Calls(multiset{}[m := p], 0, multiset{}[m := q + p]),
          false, Check, seq(q, i => m), [])
  }

  lemma {:induction false} Fill(callers: nat, m: Message, q: nat)
    requires callers >= 1 && q <= MAX_INT
    ensures Reaches(Service(callers), Loaded(m, 0, 0), Loaded(m, q, 0))
  {
    if q == 0 {
      ReachesSelf(Service(callers), Loaded(m, 0, 0));
    } else {
      Fill(callers, m, q - 1);
      ReserveOne(callers, m, q - 1, 0);
      EnqueueOne(callers, m, q - 1);
      ReachesStep(Service(callers), Loaded(m, 0, 0), Loaded(m, q - 1, 0), Loaded(m, q - 1, 1));
      ReachesStep(Service(callers), Loaded(m, 0, 0), Loaded(m, q - 1, 1), Loaded(m, q, 0));
    }
  }

  lemma {:induction false} Crowd(callers: nat, m: Message, q: nat, p: nat)
    requires p <= callers
    ensures Reaches(Service(callers), Loaded(m, q, 0), Loaded(m, q, p))
  {
    if p == 0 {
      ReachesSelf(Service(callers), Loaded(m, q, 0));
    } else {
      Crowd(callers, m, q, p - 1);
      ReserveOne(callers, m, q, p - 1);
      ReachesStep(Service(callers), Loaded(m, q, 0), Loaded(m, q, p - 1), Loaded(m, q, p));
    }
  }

  lemma ReserveOne(callers: nat, m: Message, q: nat, p: nat)
    requires p < callers
    ensures Next(callers, Loaded(m, q, p), Loaded(m, q, p + 1))
  {
    WrapAdd(q + p, 1);
    assert multiset{}[m := p] + multiset{m} == multiset{}[m := p + 1];
    assert multiset{}[m := q + p] + multiset{m} == multiset{}[m := q + p + 1];
    assert Step(callers, Loaded(m, q, p), Loaded(m, q, p + 1), Reserve(m));
  }

  lemma EnqueueOne(callers: nat, m: Message, q: nat)
    requires q < MAX_INT
    ensures Next(callers, Loaded(m, q, 1), Loaded(m, q + 1, 0))
  {
    assert seq(q, i => m) + [m] == seq(q + 1, i => m);
    assert multiset{}[m := 1] - multiset{m} == multiset{}[m := 0];
    assert Step(callers, Loaded(m, q, 1), Loaded(m, q + 1, 0), Enqueue(m));
  }

  /** With a full queue and 2^31 + 1 calls waiting to enqueue, the counter is 0 again: the logger leaves. */
  lemma WrapsToZero(callers: nat) returns (s: State)
    requires callers > MOST_CALLERS
    ensures Reachable(Service(callers), s) && s.logger.Exited? && multiset(s.written) != s.calls.accepted
  {
    var m: Message :| true;
    var p := MOST_CALLERS + 1;
    Fill(callers, m, MAX_INT);
    Crowd(callers, m, MAX_INT, p);
    var a, b := Loaded(m, 0, 0), Loaded(m, MAX_INT, p);
    ReachesTrans(Service(callers), a, Loaded(m, MAX_INT, 0), b);
    var stopped := b.(isShutdown := true, calls := b.calls.(stopping := 1));
    assert Step(callers, b, stopped, RequestStop);
    ReachesStep(Service(callers), a, b, stopped);
    assert Wrap(MAX_INT + p) == 0;
    s := stopped.(logger := Exited);
    assert Step(callers, stopped, s, LoggerStep);
    ReachesStep(Service(callers), a, stopped, s);
    assert multiset{}[m := 0] == multiset{} && seq(0, i => m) == [];
    ReachableFrom(Service(callers), a, s);
    assert s.calls.accepted[m] > 0;
  }

  /** For any bound on the callers at a time: the logger always leaves with every accepted message written if
      and only if the bound is at most 2^31. */
  lemma NothingLostIff(callers: nat)
    ensures (forall s :: Reachable(Service(callers), s) && s.logger.Exited? ==> multiset(s.written) == s.calls.accepted)
       <==> callers <= MOST_CALLERS
  {
    if callers <= MOST_CALLERS {
      forall s | Reachable(Service(callers), s) && s.logger.Exited? ensures multiset(s.written) == s.calls.accepted {
        NothingLost(callers, s);
      }
    } else {
      var s := WrapsToZero(callers);
    }
  }

  // ----- shutdown completes

  function LoggerRank(l: Logger): nat {
    match l
    case Taken(_) => 3
    case Counted(_) => 2
    case Check => 1
    case Take => 0
    case Exited => 0
  }

  /** An upper bound on the steps still to come once no new call arrives. */
  ghost function Rank(s: State): nat {
    5 * |s.calls.pending| + 4 * |s.queue| + 3 * s.calls.stopping + (if s.interrupt then 2 else 0) + LoggerRank(s.logger)
  }

  lemma LoggerRankFalls(s: State, t: State)
    requires LoggerMoves(s, t)
    ensures Rank(t) < Rank(s)
  {}

  lemma RankFalls(callers: nat, s: State, t: State)
    requires Inv(callers, s) && Finishing(callers, s, t)
    ensures Rank(t) < Rank(s)
  {
    var e :| Step(callers, s, t, e) && UnderWay(e);
    match e
    case Enqueue(m) => InvEnqueue(callers, s, t, m);
    case Interrupt =>
    case LoggerStep => LoggerRankFalls(s, t);
  }

  /** After a stop request the logger is never blocked for good: until it exits, it can move, or a call
      under way can enqueue its message or deliver its interrupt. */
  lemma NeverBlocked(callers: nat, s: State) returns (t: State)
    requires Inv(callers, s) && s.isShutdown && !s.logger.Exited?
    ensures Finishing(callers, s, t)
  {
    var e: Event;
    if s.logger.Take? && !s.interrupt && s.queue == [] {
      if s.reservations == 0 {
        e, t := Interrupt, s.(calls := s.calls.(stopping := s.calls.stopping - 1), interrupt := true);
      } else {
        assert |s.calls.pending| > 0;
        var m :| m in s.calls.pending;
        e := Enqueue(m);
        t := s.(calls := s.calls.(pending := s.calls.pending - multiset{m}),
                queue := s.queue + [m], enqueued := s.enqueued + [m]);
      }
    } else {
      e := LoggerStep;
      t := LoggerCanMove(s);
    }
    assert Step(callers, s, t, e) && UnderWay(e);
  }

  lemma LoggerCanMove(s: State) returns (t: State)
    requires !s.logger.Exited? && (s.logger.Take? ==> s.interrupt || s.queue != [])
    ensures LoggerMoves(s, t)
  {
    match s.logger
    case Check => t := s.(logger := if s.isShutdown && s.reservations == 0 then Exited else Take);
    case Taken(m) => t := s.(reservations := Wrap(s.reservations - 1), logger := Counted(m));
    case Counted(m) => t := s.(written := s.written + [m], logger := Check);
    case Take =>
      if s.interrupt { t := s.(interrupt := false, logger := Check); }
      else { t := s.(queue := s.queue[1..], logger := Taken(s.queue[0])); }
  }

  ghost function Draining(callers: nat, s: State): System<State> {
    System(x => x == s, (x, y) => Finishing(callers, x, y))
  }

  lemma UnderWayKeeps(callers: nat, s: State, t: State, e: Event)
    requires Step(callers, s, t, e) && UnderWay(e)
    ensures t.isShutdown == s.isShutdown && t.calls.accepted == s.calls.accepted
  {}

  /** From any reachable state in which a stop was requested, letting the calls under way finish takes
      at most `Rank` steps in any order, and when no step is left the logger has exited, with every
      accepted message written if there were at most 2^31 callers at a time. */
  lemma StopDrains(callers: nat, s: State, run: seq<State>)
    requires Reachable(Service(callers), s) && s.isShutdown && IsRun(Draining(callers, s), run)
    ensures |run| <= Rank(s) + 1
    ensures (forall t :: !Finishing(callers, Last(run), t)) ==>
              && Last(run).logger.Exited?
              && (callers <= MOST_CALLERS ==> Last(run).written == Last(run).enqueued)
              && (callers <= MOST_CALLERS ==> multiset(Last(run).written) == s.calls.accepted)
  {
    InvReachable(callers, s);
    var inv := (x: State) => Inv(callers, x) && x.isShutdown && x.calls.accepted == s.calls.accepted;
    var rank := (x: State) => Rank(x);
    forall x, y | inv(x) && Draining(callers, s).next(x, y) ensures inv(y) && rank(y) < rank(x) {
      var e :| Step(callers, x, y, e) && UnderWay(e);
      InvStep(callers, x, y);
      UnderWayKeeps(callers, x, y, e);
      RankFalls(callers, x, y);
    }
    BoundedRuns(Draining(callers, s), inv, rank, run);
    Invariance(Draining(callers, s), inv, run);
    var last := Last(run);
    assert inv(last);
    if !last.logger.Exited? {
      var t := NeverBlocked(callers, last);
    } else if callers <= MOST_CALLERS {
      OpenIsZero(callers, last);
      assert last.calls.pending == multiset{};
    }
  }
}
