/** Producers put their numbers and then their share of poison pills into one bounded queue; a
    consumer runs until it takes a pill. Any number of producers and consumers, any capacity. */
module PoisonPill {
  import opened Runs

  /** The pill, `Integer.MAX_VALUE`. */
  const PILL: int := 0x7fff_ffff

  /** `data[p]` are the numbers producer p generates. */
  datatype Config = Config(data: seq<seq<int>>, consumers: set<nat>, capacity: nat)

  ghost predicate ValidConfig(c: Config) {
    && |c.data| >= 1 && c.consumers != {} && c.capacity >= 1
    && forall p :: 0 <= p < |c.data| ==> PILL !in c.data[p]
  }

  /** Pills per producer. */
  function Quota(c: Config): nat
    requires |c.data| >= 1
  {
    |c.consumers| / |c.data|
  }

  /** What producer p puts, in order: its numbers, then its pills. */
  function Program(c: Config, p: nat): seq<int>
    requires p < |c.data|
  {
    c.data[p] + seq(Quota(c), i => PILL)
  }

  /** `sent[p]` counts producer p's puts; `running` are the consumers that have not met a pill;
      `put`, `taken` and `delivered` record the history. */
  datatype State = State(
    queue: seq<int>, sent: seq<nat>, running: set<nat>, put: seq<int>, taken: seq<int>, delivered: seq<int>)

  ghost predicate Init(c: Config, s: State) {
    s == State([], seq(|c.data|, p => 0), c.consumers, [], [], [])
  }

  ghost predicate PutStep(c: Config, s: State, t: State, p: nat) {
    && p < |c.data| == |s.sent| && s.sent[p] < |Program(c, p)| && |s.queue| < c.capacity
    && var x := Program(c, p)[s.sent[p]];
       t == s.(queue := s.queue + [x], sent := s.sent[p := s.sent[p] + 1], put := s.put + [x])
  }

  ghost predicate TakeStep(s: State, t: State, k: nat) {
    && k in s.running && s.queue != []
    && var x := s.queue[0];
       var u := s.(queue := s.queue[1..], taken := s.taken + [x]);
       t == if x == PILL then u.(running := s.running - {k}) else u.(delivered := s.delivered + [x])
  }

  ghost predicate Next(c: Config, s: State, t: State) {
    || (exists p :: PutStep(c, s, t, p))
    || (exists k :: TakeStep(s, t, k))
  }

  ghost function Pipeline(c: Config): System<State> {
    System(s => Init(c, s), (s, t) => Next(c, s, t))
  }

  // ----- what has been sent

  /** The items put by producers 0..m-1. */
  ghost function Sent(c: Config, sent: seq<nat>, m: nat): multiset<int>
    requires m <= |c.data| == |sent|
    requires forall p :: 0 <= p < |sent| ==> sent[p] <= |Program(c, p)|
  {
    if m == 0 then multiset{} else Sent(c, sent, m - 1) + multiset(Program(c, m - 1)[..sent[m - 1]])
  }

  /** All the numbers of producers 0..m-1. */
  ghost function Numbers(data: seq<seq<int>>, m: nat): multiset<int>
    requires m <= |data|
  {
    if m == 0 then multiset{} else Numbers(data, m - 1) + multiset(data[m - 1])
  }

  ghost predicate Progress(c: Config, sent: seq<nat>) {
    |c.data| == |sent| && forall p :: 0 <= p < |sent| ==> sent[p] <= |Program(c, p)|
  }

  lemma {:induction false} SentFrame(c: Config, sent: seq<nat>, sent': seq<nat>, m: nat)
    requires Progress(c, sent) && Progress(c, sent') && m <= |sent| && sent[..m] == sent'[..m]
    ensures Sent(c, sent, m) == Sent(c, sent', m)
  {
    if m > 0 {
      assert sent[..m - 1] == sent[..m][..m - 1] && sent'[..m - 1] == sent'[..m][..m - 1];
      assert sent[m - 1] == sent[..m][m - 1] && sent'[m - 1] == sent'[..m][m - 1];
      SentFrame(c, sent, sent', m - 1);
    }
  }

  lemma {:induction false} SentUpdate(c: Config, sent: seq<nat>, sent': seq<nat>, p: nat, m: nat)
    requires Progress(c, sent) && p < m <= |sent| && sent[p] < |Program(c, p)| && sent' == sent[p := sent[p] + 1]
    ensures Progress(c, sent') && Sent(c, sent', m) == Sent(c, sent, m) + multiset{Program(c, p)[sent[p]]}
  {
    var prog := Program(c, m - 1);
    if p == m - 1 {
      SentFrame(c, sent, sent', p);
      PrefixNext(prog, sent[p]);
    } else {
      SentUpdate(c, sent, sent', p, m - 1);
    }
  }

  lemma PrefixNext(prog: seq<int>, k: nat)
    requires k < |prog|
    ensures multiset(prog[..k + 1]) == multiset(prog[..k]) + multiset{prog[k]}
  {
    assert prog[..k + 1] == prog[..k] + [prog[k]];
  }

  lemma {:induction false} AllPills(n: nat)
    ensures multiset(seq(n, i => PILL)) == multiset{}[PILL := n]
  {
    if n > 0 {
      AllPills(n - 1);
      assert seq(n, i => PILL) == seq(n - 1, i => PILL) + [PILL];
    }
  }

  /** Pills among the first k items of a program. */
  lemma PillsInPrefix(c: Config, p: nat, k: nat)
    requires ValidConfig(c) && p < |c.data| && k <= |Program(c, p)|
    ensures k < |Program(c, p)| && Quota(c) >= 1 ==> multiset(Program(c, p)[..k])[PILL] < Quota(c)
    ensures multiset(Program(c, p)[..k])[PILL] <= Quota(c)
    ensures k == |Program(c, p)| ==> multiset(Program(c, p)[..k]) == multiset(c.data[p])[PILL := Quota(c)]
  {
    var d := c.data[p];
    assert multiset(d)[PILL] == 0;
    if k <= |d| {
      assert Program(c, p)[..k] == d[..k];
      assert d == d[..k] + d[k..];
      assert multiset(d) == multiset(d[..k]) + multiset(d[k..]);
    } else {
      assert Program(c, p)[..k] == d + seq(k - |d|, i => PILL);
      AllPills(k - |d|);
    }
    if k == |Program(c, p)| {
      assert Program(c, p)[..k] == d + seq(Quota(c), i => PILL);
      AllPills(Quota(c));
    }
  }

  ghost predicate AllSent(c: Config, sent: seq<nat>, m: nat)
    requires Progress(c, sent) && m <= |sent|
  {
    forall p :: 0 <= p < m ==> sent[p] == |Program(c, p)|
  }

  lemma OneMore(m: nat, q: nat)
    requires m >= 1
    ensures m * q == (m - 1) * q + q
  {}

  lemma {:induction false} PillsBounded(c: Config, sent: seq<nat>, m: nat)
    requires ValidConfig(c) && Progress(c, sent) && m <= |sent|
    ensures Sent(c, sent, m)[PILL] <= m * Quota(c)
    ensures Quota(c) >= 1 && !AllSent(c, sent, m) ==> Sent(c, sent, m)[PILL] < m * Quota(c)
  {
    if m > 0 {
      PillsBounded(c, sent, m - 1);
      PillsInPrefix(c, m - 1, sent[m - 1]);
      OneMore(m, Quota(c));
    }
  }

  /** Numbers a beside i pills and numbers b beside j pills. */
  lemma AddPills(a: multiset<int>, a': multiset<int>, i: nat, b: multiset<int>, b': multiset<int>, j: nat, k: nat)
    requires a[PILL] == 0 && b[PILL] == 0 && k == i + j && a' == a[PILL := i] && b' == b[PILL := j]
    ensures a' + b' == (a + b)[PILL := k] && (a + b)[PILL] == 0
  {}

  lemma ProgramSent(c: Config, p: nat, k: nat)
    requires ValidConfig(c) && p < |c.data| && k == |Program(c, p)|
    ensures multiset(Program(c, p)[..k]) == multiset(c.data[p])[PILL := Quota(c)] && multiset(c.data[p])[PILL] == 0
  {
    PillsInPrefix(c, p, k);
    assert PILL !in c.data[p];
  }

  lemma {:induction false} EverythingSent(c: Config, sent: seq<nat>, m: nat)
    requires ValidConfig(c) && Progress(c, sent) && m <= |sent| && AllSent(c, sent, m)
    ensures Sent(c, sent, m) == Numbers(c.data, m)[PILL := m * Quota(c)] && Numbers(c.data, m)[PILL] == 0
  {
    if m > 0 {
      EverythingSent(c, sent, m - 1);
      var q := Quota(c);
      ProgramSent(c, m - 1, sent[m - 1]);
      OneMore(m, q);
      AddPills(Numbers(c.data, m - 1), Sent(c, sent, m - 1), (m - 1) * q,
               multiset(c.data[m - 1]), multiset(Program(c, m - 1)[..sent[m - 1]]), q, m * q);
    }
  }

  /** Total pills sent: never above the quota, below it while somebody still owes one, and when all
      is sent, exactly the quota beside exactly the numbers. */
  lemma PillsSent(c: Config, sent: seq<nat>, m: nat)
    requires ValidConfig(c) && Progress(c, sent) && m <= |sent|
    ensures Sent(c, sent, m)[PILL] <= m * Quota(c)
    ensures Quota(c) >= 1 && !AllSent(c, sent, m) ==> Sent(c, sent, m)[PILL] < m * Quota(c)
    ensures AllSent(c, sent, m) ==>
              Sent(c, sent, m) == Numbers(c.data, m)[PILL := m * Quota(c)] && Numbers(c.data, m)[PILL] == 0
  {
    PillsBounded(c, sent, m);
    if AllSent(c, sent, m) { EverythingSent(c, sent, m); }
  }

  // ----- what every schedule keeps

  ghost predicate Unfinished(c: Config, s: State) {
    Progress(c, s.sent) && exists p :: 0 <= p < |s.sent| && s.sent[p] < |Program(c, p)|
  }

  ghost predicate Inv(c: Config, s: State) {
    && Progress(c, s.sent)
    && s.put == s.taken + s.queue && |s.queue| <= c.capacity
    && multiset(s.put) == Sent(c, s.sent, |c.data|)
    && multiset(s.delivered) == multiset(s.taken)[PILL := 0]
    && |s.running| + multiset(s.taken)[PILL] == |c.consumers|
    && (s.put != [] && Last(s.put) != PILL && Quota(c) >= 1 ==> Unfinished(c, s))
  }

  lemma {:induction false} NothingSent(c: Config, sent: seq<nat>, m: nat)
    requires m <= |c.data| == |sent| && forall p :: 0 <= p < |sent| ==> sent[p] == 0
    ensures Sent(c, sent, m) == multiset{}
  {
    if m > 0 { NothingSent(c, sent, m - 1); }
  }

  lemma InvInit(c: Config, s: State)
    requires ValidConfig(c) && Init(c, s)
    ensures Inv(c, s)
  {
    NothingSent(c, s.sent, |c.data|);
  }

  lemma InvPut(c: Config, s: State, t: State, p: nat)
    requires ValidConfig(c) && Inv(c, s) && PutStep(c, s, t, p)
    ensures Inv(c, t)
  {
    SentUpdate(c, s.sent, t.sent, p, |c.data|);
    var x := Program(c, p)[s.sent[p]];
    assert t.put == t.taken + t.queue;
    if x != PILL && Quota(c) >= 1 {
      assert s.sent[p] < |c.data[p]|;
      assert t.sent[p] < |Program(c, p)|;
    }
  }

  lemma InvTake(c: Config, s: State, t: State, k: nat)
    requires ValidConfig(c) && Inv(c, s) && TakeStep(s, t, k)
    ensures Inv(c, t)
  {
    var x := s.queue[0];
    assert s.queue == [x] + s.queue[1..];
    assert t.put == t.taken + t.queue;
    assert multiset(t.taken) == multiset(s.taken) + multiset{x};
    if x == PILL {
      assert multiset(t.taken)[PILL := 0] == multiset(s.taken)[PILL := 0];
    } else {
      assert multiset(t.taken)[PILL := 0] == multiset(s.taken)[PILL := 0] + multiset{x};
    }
  }

  // ----- every run ends

  function PutsLeft(c: Config, sent: seq<nat>, m: nat): nat
    requires m <= |c.data| && m <= |sent|
  {
    if m == 0 then 0
    else PutsLeft(c, sent, m - 1) + if sent[m - 1] <= |Program(c, m - 1)| then |Program(c, m - 1)| - sent[m - 1] else 0
  }

  lemma {:induction false} PutsLeftUpdate(c: Config, sent: seq<nat>, p: nat, m: nat)
    requires m <= |c.data| == |sent| && p < |sent| && sent[p] < |Program(c, p)|
    ensures PutsLeft(c, sent[p := sent[p] + 1], m) == PutsLeft(c, sent, m) - if p < m then 1 else 0
  {
    if m > 0 { PutsLeftUpdate(c, sent, p, m - 1); }
  }

  ghost function Rank(c: Config, s: State): nat {
    if |s.sent| == |c.data| then 2 * PutsLeft(c, s.sent, |c.data|) + |s.queue| else 0
  }

  lemma RankFalls(c: Config, s: State, t: State)
    requires Progress(c, s.sent) && Next(c, s, t)
    ensures Rank(c, t) < Rank(c, s)
  {
    if p: nat :| PutStep(c, s, t, p) {
      PutsLeftUpdate(c, s.sent, p, |c.data|);
    }
  }

  // ----- where every run ends

  lemma PutEnabled(c: Config, s: State, p: nat) returns (t: State)
    requires Inv(c, s) && p < |s.sent| && s.sent[p] < |Program(c, p)| && |s.queue| < c.capacity
    ensures Next(c, s, t)
  {
    var x := Program(c, p)[s.sent[p]];
    t := s.(queue := s.queue + [x], sent := s.sent[p := s.sent[p] + 1], put := s.put + [x]);
    assert PutStep(c, s, t, p);
  }

  lemma TakeEnabled(c: Config, s: State) returns (t: State)
    requires s.running != {} && s.queue != []
    ensures Next(c, s, t)
  {
    var k :| k in s.running;
    var x := s.queue[0];
    var u := s.(queue := s.queue[1..], taken := s.taken + [x]);
    t := if x == PILL then u.(running := s.running - {k}) else u.(delivered := s.delivered + [x]);
    assert TakeStep(s, t, k);
  }

  lemma QuotaSplit(c: Config)
    requires |c.data| >= 1
    ensures |c.data| * Quota(c) + |c.consumers| % |c.data| == |c.consumers| && |c.consumers| % |c.data| >= 0
  {}

  /** While a producer still has items to put, some consumer is running. */
  lemma ProducersAreServed(c: Config, s: State)
    requires ValidConfig(c) && Inv(c, s) && Unfinished(c, s)
    ensures s.running != {}
  {
    var P := |c.data|;
    PillsSent(c, s.sent, P);
    QuotaSplit(c);
    assert multiset(s.put) == multiset(s.taken) + multiset(s.queue);
    assert multiset(s.taken)[PILL] <= Sent(c, s.sent, P)[PILL];
    if Quota(c) == 0 { assert P * Quota(c) == 0; }
  }

  /** A state without a next step: everything sent, nothing queued. */
  lemma StuckIsDrained(c: Config, s: State)
    requires ValidConfig(c) && Inv(c, s) && forall t :: !Next(c, s, t)
    ensures s.queue == [] && !Unfinished(c, s)
  {
    if Unfinished(c, s) {
      ProducersAreServed(c, s);
      if s.queue == [] {
        var p :| 0 <= p < |s.sent| && s.sent[p] < |Program(c, p)|;
        var t := PutEnabled(c, s, p);
      } else {
        var t := TakeEnabled(c, s);
      }
    }
    if s.queue != [] {
      if s.running != {} { var t := TakeEnabled(c, s); }
      LastPillTaken(c, s);
    }
  }

  /** If all consumers have stopped and all producers are done, no item can be left behind the last pill. */
  lemma LastPillTaken(c: Config, s: State)
    requires ValidConfig(c) && Inv(c, s) && !Unfinished(c, s) && s.running == {}
    ensures s.queue == []
  {
    var P := |c.data|;
    assert s.queue != [] ==> Last(s.queue) in multiset(s.queue) && Last(s.put) == Last(s.queue);
    assert Quota(c) == 0 ==> P * Quota(c) == 0;
    assert multiset(s.put) == multiset(s.taken) + multiset(s.queue);
    PillsSent(c, s.sent, P);
    QuotaSplit(c);
    assert |c.consumers| >= 1;
  }

  lemma InvStep(c: Config, s: State, t: State)
    requires ValidConfig(c) && Inv(c, s) && Next(c, s, t)
    ensures Inv(c, t) && Rank(c, t) < Rank(c, s)
  {
    RankFalls(c, s, t);
    if p: nat :| PutStep(c, s, t, p) { InvPut(c, s, t, p); }
    else if k: nat :| TakeStep(s, t, k) { InvTake(c, s, t, k); }
  }

  /** Every number delivered once, the pills all used, the surplus consumers blocked on an empty queue. */
  ghost predicate Concluded(c: Config, s: State)
    requires |c.data| >= 1
  {
    && s.queue == []
    && multiset(s.delivered) == Numbers(c.data, |c.data|)
    && |c.consumers| - |s.running| == |c.data| * (|c.consumers| / |c.data|)
    && |s.running| == |c.consumers| % |c.data|
  }

  lemma StuckIsConcluded(c: Config, s: State)
    requires ValidConfig(c) && Inv(c, s) && forall t :: !Next(c, s, t)
    ensures Concluded(c, s)
  {
    StuckIsDrained(c, s);
    PillsSent(c, s.sent, |c.data|);
    QuotaSplit(c);
    assert s.put == s.taken;
    assert Numbers(c.data, |c.data|)[PILL := |c.data| * Quota(c)][PILL := 0] == Numbers(c.data, |c.data|);
  }

  /** Every run is finite, and one that cannot be extended has delivered every number exactly once,
      stopped exactly P * (C / P) consumers, and left the other C mod P blocked on an empty queue;
      so all consumers stop exactly when P divides C. */
  lemma DeliversAndStops(c: Config, run: seq<State>)
    requires ValidConfig(c) && IsRun(Pipeline(c), run)
    ensures |run| <= 2 * PutsLeft(c, seq(|c.data|, p => 0), |c.data|) + 1
    ensures forall i :: 0 <= i < |run| ==> run[i].put == run[i].taken + run[i].queue && |run[i].queue| <= c.capacity
    ensures (forall t :: !Next(c, Last(run), t)) ==>
              Concluded(c, Last(run)) && (Last(run).running == {} <==> |c.consumers| % |c.data| == 0)
  {
    var sys := Pipeline(c);
    var inv := (x: State) => Inv(c, x);
    var rank := (x: State) => Rank(c, x);
    forall x | sys.init(x) ensures inv(x) { InvInit(c, x); }
    forall x, y | inv(x) && sys.next(x, y) ensures inv(y) && rank(y) < rank(x) { InvStep(c, x, y); }
    BoundedRuns(sys, inv, rank, run);
    Invariance(sys, inv, run);
    var s := Last(run);
    assert inv(s);
    if forall t :: !Next(c, s, t) { StuckIsConcluded(c, s); }
  }
}
