/** Compare-and-set retry loops under any interleaving of any number of callers. */
module CasNumberRange {
  import opened Runs

  datatype Pair = Pair(lower: int, upper: int)

  datatype Op = SetLower(i: int) | SetUpper(i: int)

  // ----- the calls as if each ran alone

  predicate Refused(op: Op, v: Pair) {
    match op
    case SetLower(i) => i > v.upper
    case SetUpper(i) => i < v.lower
  }

  function Apply(op: Op, v: Pair): Pair {
    match op
    case SetLower(i) => Pair(i, v.upper)
    case SetUpper(i) => Pair(v.lower, i)
  }

  /** One finished call: it returned, or it threw. */
  datatype Outcome = Returned(op: Op) | Threw(op: Op)

  /** The value after running the finished calls one after the other, from the initial (0, 0). */
  function Replay(log: seq<Outcome>): Pair {
    if log == [] then Pair(0, 0)
    else
      var v := Replay(log[..|log| - 1]);
      match Last(log)
      case Returned(op) => Apply(op, v)
      case Threw(op) => v
  }

  /** Run one after the other, each call would have ended the way it did. */
  predicate Sequential(log: seq<Outcome>) {
    log == [] ||
    (var front := log[..|log| - 1];
     Sequential(front) && (Refused(Last(log).op, Replay(front)) <==> Last(log).Threw?))
  }

  // ----- the loops

  /** Where a caller is: outside, about to read `values`, or about to compare-and-set against the
      reference it read (`seen` is how many calls had succeeded by then). */
  datatype Caller = Idle | Looping(op: Op) | Holding(op: Op, ref: nat, seen: nat)

  /** `pairs` are the published pair objects, a reference being an index, so a new pair is never the
      same object as an old one; `current` is the reference held by `values`. */
  datatype State = State(pairs: seq<Pair>, current: nat, callers: seq<Caller>, log: seq<Outcome>)

  ghost predicate Init(s: State) {
    && s.pairs == [Pair(0, 0)] && s.current == 0 && s.log == []
    && forall k :: 0 <= k < |s.callers| ==> s.callers[k] == Idle
  }

  function Succeeded(log: seq<Outcome>): nat {
    if log == [] then 0 else Succeeded(log[..|log| - 1]) + if Last(log).Returned? then 1 else 0
  }

  ghost predicate CallStep(s: State, t: State, k: nat, op: Op) {
    k < |s.callers| && s.callers[k] == Idle && t == s.(callers := s.callers[k := Looping(op)])
  }

  ghost predicate ReadStep(s: State, t: State, k: nat) {
    && k < |s.callers| && s.callers[k].Looping? && s.current < |s.pairs|
    && var op := s.callers[k].op;
       if Refused(op, s.pairs[s.current])
       then t == s.(callers := s.callers[k := Idle], log := s.log + [Threw(op)])
       else t == s.(callers := s.callers[k := Holding(op, s.current, Succeeded(s.log))])
  }

  ghost predicate CasStep(s: State, t: State, k: nat) {
    && k < |s.callers| && s.callers[k].Holding? && s.callers[k].ref < |s.pairs|
    && var Holding(op, ref, _) := s.callers[k];
       if s.current == ref
       then t == State(s.pairs + [Apply(op, s.pairs[ref])], |s.pairs|, s.callers[k := Idle], s.log + [Returned(op)])
       else t == s.(callers := s.callers[k := Looping(op)])
  }

  ghost predicate Next(s: State, t: State) {
    || (exists k, op :: CallStep(s, t, k, op))
    || (exists k :: ReadStep(s, t, k))
    || (exists k :: CasStep(s, t, k))
  }

  ghost function Range(): System<State> {
    System(s => Init(s), (s, t) => Next(s, t))
  }

  ghost predicate Inv(s: State) {
    && s.current == |s.pairs| - 1 == Succeeded(s.log)
    && s.pairs[s.current] == Replay(s.log) && Sequential(s.log)
    && (forall r :: 0 <= r < |s.pairs| ==> s.pairs[r].lower <= s.pairs[r].upper)
    && (forall k :: 0 <= k < |s.callers| && s.callers[k].Holding? ==>
          && s.callers[k].ref == s.callers[k].seen < |s.pairs|
          && !Refused(s.callers[k].op, s.pairs[s.callers[k].ref]))
  }

  lemma LogStep(log: seq<Outcome>, o: Outcome)
    requires Sequential(log) && (Refused(o.op, Replay(log)) <==> o.Threw?)
    ensures Sequential(log + [o])
    ensures Succeeded(log + [o]) == Succeeded(log) + if o.Returned? then 1 else 0
    ensures Replay(log + [o]) == if o.Returned? then Apply(o.op, Replay(log)) else Replay(log)
  {
    assert (log + [o])[..|log|] == log;
  }

  lemma InvRead(s: State, t: State, k: nat)
    requires Inv(s) && ReadStep(s, t, k)
    ensures Inv(t)
  {
    if Refused(s.callers[k].op, s.pairs[s.current]) { LogStep(s.log, Threw(s.callers[k].op)); }
  }

  lemma InvCas(s: State, t: State, k: nat)
    requires Inv(s) && CasStep(s, t, k)
    ensures Inv(t)
  {
    if s.current == s.callers[k].ref { LogStep(s.log, Returned(s.callers[k].op)); }
  }

  lemma InvStep(s: State, t: State)
    requires Inv(s) && Next(s, t)
    ensures Inv(t)
  {
    if k: nat :| ReadStep(s, t, k) { InvRead(s, t, k); }
    else if k: nat :| CasStep(s, t, k) { InvCas(s, t, k); }
  }

  /** Every published range is well formed; the finished calls, in the order of their successful
      compare-and-set or rejecting read, explain the current value one after the other; and a
      compare-and-set fails exactly when another call has succeeded since the caller's read. */
  lemma Linearizable(s: State)
    requires Reachable(Range(), s)
    ensures forall r :: 0 <= r < |s.pairs| ==> s.pairs[r].lower <= s.pairs[r].upper
    ensures s.current < |s.pairs| && Sequential(s.log) && Replay(s.log) == s.pairs[s.current]
    ensures forall k :: 0 <= k < |s.callers| && s.callers[k].Holding? ==>
              (s.current != s.callers[k].ref <==> Succeeded(s.log) > s.callers[k].seen)
  {
    forall x, y | Inv(x) && Range().next(x, y) ensures Inv(y) { InvStep(x, y); }
    InvariantReachable(Range(), x => Inv(x), s);
  }

  // ----- what each call does, said on the published pairs alone

  /** A finished call against the pair that was current, number r: a setter that returned published the next
      pair, with its own bound replaced and the range well formed; one that threw would have inverted the range. */
  ghost predicate TookEffect(pairs: seq<Pair>, r: nat, o: Outcome) {
    && r < |pairs|
    && match o
       case Returned(SetLower(i)) =>
         i <= pairs[r].upper && r + 1 < |pairs| && pairs[r + 1].lower == i && pairs[r + 1].upper == pairs[r].upper
       case Returned(SetUpper(i)) =>
         i >= pairs[r].lower && r + 1 < |pairs| && pairs[r + 1].lower == pairs[r].lower && pairs[r + 1].upper == i
       case Threw(SetLower(i)) => i > pairs[r].upper
       case Threw(SetUpper(i)) => i < pairs[r].lower
  }

  ghost predicate Published(pairs: seq<Pair>, log: seq<Outcome>) {
    && |pairs| == Succeeded(log) + 1 && pairs[0].lower == pairs[0].upper == 0
    && forall p :: 0 <= p < |log| ==> TookEffect(pairs, Succeeded(log[..p]), log[p])
  }

  lemma PublishedNext(pairs: seq<Pair>, pairs': seq<Pair>, log: seq<Outcome>, o: Outcome)
    requires Published(pairs, log) && pairs <= pairs' && |pairs'| == |pairs| + if o.Returned? then 1 else 0
    requires TookEffect(pairs', |pairs| - 1, o)
    ensures Published(pairs', log + [o])
  {
    var log' := log + [o];
    assert log'[..|log|] == log;
    assert log'[..|log'| - 1] == log && Last(log') == o;
    forall p | 0 <= p < |log'| ensures TookEffect(pairs', Succeeded(log'[..p]), log'[p]) {
      assert p < |log| ==> log'[..p] == log[..p] && TookEffect(pairs, Succeeded(log[..p]), log[p]);
    }
  }

  lemma PublishedRefusal(pairs: seq<Pair>, log: seq<Outcome>, op: Op)
    requires Published(pairs, log) && Refused(op, Last(pairs))
    ensures Published(pairs, log + [Threw(op)])
  {
    PublishedNext(pairs, pairs, log, Threw(op));
  }

  lemma PublishedSuccess(pairs: seq<Pair>, log: seq<Outcome>, op: Op)
    requires Published(pairs, log) && !Refused(op, Last(pairs))
    ensures Published(pairs + [Apply(op, Last(pairs))], log + [Returned(op)])
  {
    PublishedNext(pairs, pairs + [Apply(op, Last(pairs))], log, Returned(op));
  }

  lemma PublishedRead(s: State, t: State, k: nat)
    requires Inv(s) && Published(s.pairs, s.log) && ReadStep(s, t, k)
    ensures Published(t.pairs, t.log)
  {
    var op := s.callers[k].op;
    if Refused(op, s.pairs[s.current]) { PublishedRefusal(s.pairs, s.log, op); }
  }

  lemma PublishedCas(s: State, t: State, k: nat)
    requires Inv(s) && Published(s.pairs, s.log) && CasStep(s, t, k)
    ensures Published(t.pairs, t.log)
  {
    if s.current == s.callers[k].ref { PublishedSuccess(s.pairs, s.log, s.callers[k].op); }
  }

  lemma PublishedStep(s: State, t: State)
    requires Inv(s) && Published(s.pairs, s.log) && Next(s, t)
    ensures Published(t.pairs, t.log)
  {
    if k: nat :| ReadStep(s, t, k) { PublishedRead(s, t, k); }
    else if k: nat :| CasStep(s, t, k) { PublishedCas(s, t, k); }
  }

  /** In every interleaving: the r-th successful setter published the pair before it with only its own bound
      replaced, and a call threw exactly when, against the pair it read, the range would have been inverted. */
  lemma EachCallTakesEffect(s: State)
    requires Reachable(Range(), s)
    ensures Published(s.pairs, s.log) && s.current == |s.pairs| - 1
  {
    var inv := (x: State) => Inv(x) && Published(x.pairs, x.log);
    forall x, y | inv(x) && Range().next(x, y) ensures inv(y) {
      InvStep(x, y);
      PublishedStep(x, y);
    }
    InvariantReachable(Range(), inv, s);
  }

  /** A call ends with exactly one outcome of its own. */
  lemma EndsWithOutcome(s: State, t: State, k: nat)
    requires Next(s, t) && k < |s.callers| && k < |t.callers| && s.callers[k] != Idle && t.callers[k] == Idle
    ensures |t.log| == |s.log| + 1 && s.log <= t.log && Last(t.log).op == s.callers[k].op
  {}

  /** Left alone, a call ends at once: it throws if the range would be inverted and else returns. */
  lemma EndsAlone(s: State, k: nat, op: Op) returns (t: State)
    requires Inv(s) && k < |s.callers| && s.callers[k] == Idle
    ensures Reaches(Range(), s, t) && t.callers == s.callers
    ensures var v := s.pairs[s.current];
            t.log == s.log + [if (match op case SetLower(i) => i > v.upper case SetUpper(i) => i < v.lower)
                              then Threw(op) else Returned(op)]
  {
    var v := s.pairs[s.current];
    var called := s.(callers := s.callers[k := Looping(op)]);
    assert CallStep(s, called, k, op);
    ReachesSelf(Range(), s);
    ReachesStep(Range(), s, s, called);
    if Refused(op, v) {
      t := called.(callers := called.callers[k := Idle], log := s.log + [Threw(op)]);
      assert ReadStep(called, t, k);
      ReachesStep(Range(), s, called, t);
    } else {
      var read := called.(callers := called.callers[k := Holding(op, s.current, Succeeded(s.log))]);
      assert ReadStep(called, read, k);
      ReachesStep(Range(), s, called, read);
      t := State(s.pairs + [Apply(op, v)], |s.pairs|, read.callers[k := Idle], s.log + [Returned(op)]);
      assert CasStep(read, t, k);
      ReachesStep(Range(), s, read, t);
    }
    assert t.callers == s.callers;
  }
}
