/** The lock-free counter; the cell is a 32-bit int compared by value. */
module CasCounter {
  import opened Runs
  import opened JavaInt

  /** `seen` is how many increments had completed when the caller read `value`. */
  datatype Caller = Idle | Looping | Holding(value: int, seen: nat)

  datatype State = State(counter: int, callers: seq<Caller>, completed: nat)

  ghost predicate Init(s: State) {
    s.counter == 0 && s.completed == 0 && forall k :: 0 <= k < |s.callers| ==> s.callers[k] == Idle
  }

  ghost predicate Step(s: State, t: State, k: nat) {
    k < |s.callers| &&
    match s.callers[k]
    case Idle => t == s.(callers := s.callers[k := Looping])
    case Looping => t == s.(callers := s.callers[k := Holding(s.counter, s.completed)])
    case Holding(value, _) =>
      if s.counter == value
      then t == State(Wrap(value + 1), s.callers[k := Idle], s.completed + 1)
      else t == s.(callers := s.callers[k := Looping])
  }

  ghost predicate Next(s: State, t: State) {
    exists k :: Step(s, t, k)
  }

  ghost function Counter(): System<State> {
    System(s => Init(s), (s, t) => Next(s, t))
  }

  ghost predicate Inv(s: State) {
    && s.counter == Wrap(s.completed)
    && forall k :: 0 <= k < |s.callers| && s.callers[k].Holding? ==>
         s.callers[k].seen <= s.completed && s.callers[k].value == Wrap(s.callers[k].seen)
  }

  lemma InvStep(s: State, t: State)
    requires Inv(s) && Next(s, t)
    ensures Inv(t)
  {
    WrapNext(s.completed);
  }

  /** The counter moves only when a call returns, by one and once for each return. */
  lemma ReturnsByCounting(s: State, t: State, k: nat)
    requires Inv(s) && Next(s, t) && k < |s.callers|
    ensures |t.callers| == |s.callers|
    ensures s.callers[k] != Idle && t.callers[k] == Idle ==> t.completed == s.completed + 1
    ensures t.completed != s.completed ==> t.completed == s.completed + 1 && t.counter == Wrap(s.counter + 1)
    ensures t.completed == s.completed ==> t.counter == s.counter
  {}

  /** Left alone, a call counts once and returns. */
  lemma CountsAlone(s: State, k: nat) returns (t: State)
    requires k < |s.callers| && s.callers[k] == Idle
    ensures Reaches(Counter(), s, t)
    ensures t == State(Wrap(s.counter + 1), s.callers, s.completed + 1)
  {
    var called := s.(callers := s.callers[k := Looping]);
    var read := called.(callers := called.callers[k := Holding(s.counter, s.completed)]);
    t := State(Wrap(s.counter + 1), read.callers[k := Idle], s.completed + 1);
    assert Step(s, called, k) && Step(called, read, k) && Step(read, t, k);
    ReachesSelf(Counter(), s);
    ReachesStep(Counter(), s, s, called);
    ReachesStep(Counter(), s, called, read);
    ReachesStep(Counter(), s, read, t);
    assert t.callers == s.callers;
  }

  /** In every interleaving the counter is the number of completed increments, modulo 2^32; and a
      compare-and-set fails exactly when the increments completed since the caller's read are not a
      multiple of 2^32, in particular only if another caller succeeded meanwhile. */
  lemma CountsIncrements(s: State)
    requires Reachable(Counter(), s)
    ensures s.counter == Wrap(s.completed)
    ensures forall k :: 0 <= k < |s.callers| && s.callers[k].Holding? ==>
              && s.callers[k].seen <= s.completed
              && (s.counter != s.callers[k].value <==> (s.completed - s.callers[k].seen) % TWO_32 != 0)
  {
    forall x, y | Inv(x) && Counter().next(x, y) ensures Inv(y) { InvStep(x, y); }
    InvariantReachable(Counter(), x => Inv(x), s);
    forall k | 0 <= k < |s.callers| && s.callers[k].Holding?
      ensures s.counter != s.callers[k].value <==> (s.completed - s.callers[k].seen) % TWO_32 != 0
    {
      WrapEqual(s.completed, s.callers[k].seen);
    }
  }
}
