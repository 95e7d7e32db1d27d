/** Dining philosophers: n philosophers and n forks, each philosopher locks one adjacent fork, then
    the other, eats once, releases in reverse order and exits. `reversed[i]` says that philosopher i
    was given his forks the other way round; the program reverses exactly the last one. */
module Philosophers {
  import opened Runs

  datatype Table = Table(n: nat, reversed: seq<bool>)

  ghost predicate ValidTable(c: Table) {
    c.n >= 2 && |c.reversed| == c.n
  }

  /** The fork locked first (the constructor's `left`). */
  function First(c: Table, i: nat): nat
    requires i < c.n == |c.reversed|
  {
    if c.reversed[i] then (i + 1) % c.n else i
  }

  function Second(c: Table, i: nat): nat
    requires i < c.n == |c.reversed|
  {
    if c.reversed[i] then i else (i + 1) % c.n
  }

  lemma RightNeighbour(n: nat, i: nat)
    requires i < n
    ensures (i + 1) % n == if i + 1 == n then 0 else i + 1
  {}

  datatype Phase = Thinking | HoldsFirst | Eating | PutDownSecond | Exited

  datatype Owner = Nobody | By(philosopher: nat)

  datatype State = State(phase: seq<Phase>, owner: seq<Owner>, meals: seq<nat>)

  ghost predicate Init(c: Table, s: State) {
    && s.phase == seq(c.n, i => Thinking)
    && s.owner == seq(c.n, f => Nobody)
    && s.meals == seq(c.n, i => 0)
  }

  ghost predicate Shaped(c: Table, s: State) {
    |s.phase| == |s.owner| == |s.meals| == c.n
  }

  /** One action of philosopher i: enter or leave one `synchronized` block. */
  ghost predicate Act(c: Table, s: State, t: State, i: nat)
    requires ValidTable(c) && Shaped(c, s)
  {
    i < c.n &&
    match s.phase[i]
    case Thinking =>
      && s.owner[First(c, i)] == Nobody
      && t == State(s.phase[i := HoldsFirst], s.owner[First(c, i) := By(i)], s.meals)
    case HoldsFirst =>
      && s.owner[Second(c, i)] == Nobody
      && t == State(s.phase[i := Eating], s.owner[Second(c, i) := By(i)], s.meals[i := s.meals[i] + 1])
    case Eating =>
      t == State(s.phase[i := PutDownSecond], s.owner[Second(c, i) := Nobody], s.meals)
    case PutDownSecond =>
      t == State(s.phase[i := Exited], s.owner[First(c, i) := Nobody], s.meals)
    case Exited => false
  }

  ghost predicate Next(c: Table, s: State, t: State)
    requires ValidTable(c)
  {
    Shaped(c, s) && exists i :: Act(c, s, t, i)
  }

  ghost function Dinner(c: Table): System<State>
    requires ValidTable(c)
  {
    System(s => Init(c, s), (s, t) => Next(c, s, t))
  }

  // ----- what every schedule keeps

  ghost predicate Holds(c: Table, s: State, i: nat, f: nat)
    requires ValidTable(c) && Shaped(c, s) && i < c.n
  {
    match s.phase[i]
    case Thinking => false
    case HoldsFirst => f == First(c, i)
    case Eating => f == First(c, i) || f == Second(c, i)
    case PutDownSecond => f == First(c, i)
    case Exited => false
  }

  predicate HasEaten(p: Phase) {
    p.Eating? || p.PutDownSecond? || p.Exited?
  }

  ghost predicate Inv(c: Table, s: State)
    requires ValidTable(c)
  {
    && Shaped(c, s)
    && (forall i, f :: 0 <= i < c.n && 0 <= f < c.n ==> (s.owner[f] == By(i) <==> Holds(c, s, i, f)))
    && (forall f :: 0 <= f < c.n && s.owner[f].By? ==> s.owner[f].philosopher < c.n)
    && (forall i :: 0 <= i < c.n ==> s.meals[i] == if HasEaten(s.phase[i]) then 1 else 0)
  }

  lemma OwnershipStep(c: Table, s: State, t: State, i: nat, k: nat, f: nat)
    requires ValidTable(c) && Inv(c, s) && Act(c, s, t, i) && k < c.n && f < c.n
    ensures Shaped(c, t) && (t.owner[f] == By(k) <==> Holds(c, t, k, f))
  {
    RightNeighbour(c.n, i);
    assert First(c, i) != Second(c, i);
    assert Holds(c, s, k, f) <==> s.owner[f] == By(k);
    assert Holds(c, s, i, First(c, i)) <==> s.owner[First(c, i)] == By(i);
    assert Holds(c, s, i, Second(c, i)) <==> s.owner[Second(c, i)] == By(i);
  }

  lemma InvStep(c: Table, s: State, t: State)
    requires ValidTable(c) && Inv(c, s) && Next(c, s, t)
    ensures Inv(c, t)
  {
    var i: nat :| Act(c, s, t, i);
    forall k, f | 0 <= k < c.n && 0 <= f < c.n ensures Shaped(c, t) && (t.owner[f] == By(k) <==> Holds(c, t, k, f)) {
      OwnershipStep(c, s, t, i, k, f);
    }
  }

  lemma InvReachable(c: Table, s: State)
    requires ValidTable(c) && Reachable(Dinner(c), s)
    ensures Inv(c, s)
  {
    var inv := (x: State) => Inv(c, x);
    forall x, y | inv(x) && Dinner(c).next(x, y) ensures inv(y) { InvStep(c, x, y); }
    InvariantReachable(Dinner(c), inv, s);
  }

  /** Whatever the fork order, neighbours never eat at the same time. */
  lemma NeighboursNeverEatTogether(c: Table, s: State, i: nat)
    requires ValidTable(c) && Reachable(Dinner(c), s) && i < c.n
    ensures Inv(c, s) && !(s.phase[i].Eating? && s.phase[(i + 1) % c.n].Eating?)
  {
    InvReachable(c, s);
    RightNeighbour(c.n, i);
    var j := (i + 1) % c.n;
    if s.phase[i].Eating? && s.phase[j].Eating? {
      assert Holds(c, s, i, j) && Holds(c, s, j, j);
    }
  }

  // ----- every run is finite

  function Left(p: Phase): nat {
    match p
    case Thinking => 4
    case HoldsFirst => 3
    case Eating => 2
    case PutDownSecond => 1
    case Exited => 0
  }

  function ActionsLeft(phase: seq<Phase>): nat {
    if phase == [] then 0 else Left(phase[0]) + ActionsLeft(phase[1..])
  }

  lemma {:induction false} ActionsLeftUpdate(phase: seq<Phase>, i: nat, p: Phase)
    requires i < |phase|
    ensures ActionsLeft(phase[i := p]) == ActionsLeft(phase) - Left(phase[i]) + Left(p)
  {
    if i == 0 {
      assert phase[i := p][1..] == phase[1..];
    } else {
      assert phase[i := p][1..] == phase[1..][i - 1 := p];
      ActionsLeftUpdate(phase[1..], i - 1, p);
    }
  }

  lemma ActionsLeftFalls(c: Table, s: State, t: State)
    requires ValidTable(c) && Next(c, s, t)
    ensures ActionsLeft(t.phase) < ActionsLeft(s.phase)
  {
    var i: nat :| Act(c, s, t, i);
    ActionsLeftUpdate(s.phase, i, t.phase[i]);
    assert t.phase == s.phase[i := t.phase[i]];
  }

  lemma {:induction false} ActionsLeftInitially(phase: seq<Phase>)
    requires forall i :: 0 <= i < |phase| ==> phase[i] == Thinking
    ensures ActionsLeft(phase) == 4 * |phase|
  {
    if phase != [] { ActionsLeftInitially(phase[1..]); }
  }

  // ----- deadlock

  ghost predicate CanStep(c: Table, s: State)
    requires ValidTable(c)
  {
    exists t :: Next(c, s, t)
  }

  ghost predicate AllExited(c: Table, s: State) {
    Shaped(c, s) && forall i :: 0 <= i < c.n ==> s.phase[i].Exited?
  }

  ghost predicate Deadlocked(c: Table, s: State)
    requires ValidTable(c)
  {
    !CanStep(c, s) && !AllExited(c, s)
  }

  /** All philosophers reach for their forks in the same rotational direction. */
  ghost predicate SameDirection(c: Table)
    requires ValidTable(c)
  {
    forall i :: 0 <= i < c.n ==> c.reversed[i] == c.reversed[0]
  }

  lemma ActEnables(c: Table, s: State, i: nat)
    requires ValidTable(c) && Shaped(c, s) && i < c.n && !CanStep(c, s)
    ensures s.phase[i].Thinking? ==> s.owner[First(c, i)] != Nobody
    ensures s.phase[i].HoldsFirst? ==> s.owner[Second(c, i)] != Nobody
    ensures !s.phase[i].Eating? && !s.phase[i].PutDownSecond?
  {
    var t :=
      match s.phase[i]
      case Thinking => State(s.phase[i := HoldsFirst], s.owner[First(c, i) := By(i)], s.meals)
      case HoldsFirst => State(s.phase[i := Eating], s.owner[Second(c, i) := By(i)], s.meals[i := s.meals[i] + 1])
      case Eating => State(s.phase[i := PutDownSecond], s.owner[Second(c, i) := Nobody], s.meals)
      case PutDownSecond => State(s.phase[i := Exited], s.owner[First(c, i) := Nobody], s.meals)
      case Exited => s;
    if Act(c, s, t, i) { assert Next(c, s, t); }
  }

  /** In a stuck state, whoever owns a fork holds just his first fork. */
  lemma StuckOwner(c: Table, s: State, f: nat) returns (k: nat)
    requires ValidTable(c) && Inv(c, s) && !CanStep(c, s) && f < c.n && s.owner[f] != Nobody
    ensures k < c.n && s.phase[k].HoldsFirst? && First(c, k) == f
  {
    k := s.owner[f].philosopher;
    assert Holds(c, s, k, f);
    ActEnables(c, s, k);
  }

  /** A stuck holder's other fork belongs to his neighbour, who is stuck in the same direction. */
  lemma StuckNeighbour(c: Table, s: State, j: nat, k: nat)
    requires ValidTable(c) && Inv(c, s) && !CanStep(c, s) && j < c.n && k < c.n && s.phase[j].HoldsFirst?
    requires k == if c.reversed[j] then (if j == 0 then c.n - 1 else j - 1) else (j + 1) % c.n
    ensures s.phase[k].HoldsFirst? && c.reversed[k] == c.reversed[j]
  {
    ActEnables(c, s, j);
    RightNeighbour(c.n, j);
    var m := StuckOwner(c, s, Second(c, j));
    RightNeighbour(c.n, m);
  }

  lemma {:induction false} StuckUpwards(c: Table, s: State, j: nat, k: nat)
    requires ValidTable(c) && Inv(c, s) && !CanStep(c, s)
    requires j <= k < c.n && s.phase[j].HoldsFirst? && !c.reversed[j]
    ensures s.phase[k].HoldsFirst? && !c.reversed[k]
  {
    if j < k {
      StuckUpwards(c, s, j, k - 1);
      StuckNeighbour(c, s, k - 1, k);
    }
  }

  lemma {:induction false} StuckDownwards(c: Table, s: State, j: nat, k: nat)
    requires ValidTable(c) && Inv(c, s) && !CanStep(c, s)
    requires k <= j < c.n && s.phase[j].HoldsFirst? && c.reversed[j]
    ensures s.phase[k].HoldsFirst? && c.reversed[k]
    decreases j - k
  {
    if k < j {
      StuckDownwards(c, s, j, k + 1);
      StuckNeighbour(c, s, k + 1, k);
    }
  }

  /** A deadlock closes the whole ring, so it needs everyone to reach in the same direction. */
  lemma DeadlockNeedsSameDirection(c: Table, s: State)
    requires ValidTable(c) && Inv(c, s) && Deadlocked(c, s)
    ensures SameDirection(c)
  {
    var i :| 0 <= i < c.n && !s.phase[i].Exited?;
    ActEnables(c, s, i);
    var j := i;
    if s.phase[i].Thinking? { j := StuckOwner(c, s, First(c, i)); }
    if c.reversed[j] {
      StuckDownwards(c, s, j, 0);
      StuckNeighbour(c, s, 0, c.n - 1);
      forall k | 0 <= k < c.n ensures c.reversed[k] { StuckDownwards(c, s, c.n - 1, k); }
    } else {
      StuckUpwards(c, s, j, c.n - 1);
      RightNeighbour(c.n, c.n - 1);
      StuckNeighbour(c, s, c.n - 1, 0);
      forall k | 0 <= k < c.n ensures !c.reversed[k] { StuckUpwards(c, s, 0, k); }
    }
  }

  /** The philosopher whose first fork is f, when all reach in the same direction. */
  function FirstUser(c: Table, f: nat): nat
    requires ValidTable(c) && f < c.n
  {
    if c.reversed[0] then (if f == 0 then c.n - 1 else f - 1) else f
  }

  /** Philosophers 0..k-1 have each picked up one fork. */
  ghost function Grabbed(c: Table, k: nat): State
    requires ValidTable(c) && k <= c.n
  {
    State(seq(c.n, i => if i < k then HoldsFirst else Thinking),
          seq(c.n, f requires 0 <= f < c.n => if FirstUser(c, f) < k then By(FirstUser(c, f)) else Nobody),
          seq(c.n, i => 0))
  }

  lemma {:induction false} GrabbingRun(c: Table, k: nat)
    requires ValidTable(c) && SameDirection(c) && k <= c.n
    ensures Reachable(Dinner(c), Grabbed(c, k))
  {
    if k == 0 {
      var run := [Grabbed(c, 0)];
      assert IsRun(Dinner(c), run);
    } else {
      GrabbingRun(c, k - 1);
      var s, t := Grabbed(c, k - 1), Grabbed(c, k);
      var run :| IsRun(Dinner(c), run) && Last(run) == s;
      RightNeighbour(c.n, k - 1);
      assert c.reversed[k - 1] == c.reversed[0];
      assert t.phase == s.phase[k - 1 := HoldsFirst];
      assert t.owner == s.owner[First(c, k - 1) := By(k - 1)];
      assert Act(c, s, t, k - 1);
      var longer := run + [t];
      assert IsRun(Dinner(c), longer) && Last(longer) == t;
    }
  }

  lemma GrabbedAllIsDeadlocked(c: Table)
    requires ValidTable(c) && SameDirection(c)
    ensures Deadlocked(c, Grabbed(c, c.n))
  {
    var s := Grabbed(c, c.n);
    assert s.phase[0] == HoldsFirst;
    forall t ensures !Next(c, s, t) {
      forall i: nat ensures !Act(c, s, t, i) { GrabbedAllBlocks(c, t, i); }
    }
  }

  lemma GrabbedAllBlocks(c: Table, t: State, i: nat)
    requires ValidTable(c) && SameDirection(c)
    ensures !Act(c, Grabbed(c, c.n), t, i)
  {
    if i < c.n {
      RightNeighbour(c.n, i);
      assert Grabbed(c, c.n).owner[Second(c, i)] != Nobody;
    }
  }

  /** For every n >= 2 and every way of handing out the forks, a deadlock is reachable exactly when
      all philosophers reach in the same direction. */
  lemma DeadlockIffSameDirection(c: Table)
    requires ValidTable(c)
    ensures (exists s :: Reachable(Dinner(c), s) && Deadlocked(c, s)) <==> SameDirection(c)
  {
    if SameDirection(c) {
      GrabbingRun(c, c.n);
      GrabbedAllIsDeadlocked(c);
    }
    forall s | Reachable(Dinner(c), s) && Deadlocked(c, s) ensures SameDirection(c) {
      InvReachable(c, s);
      DeadlockNeedsSameDirection(c, s);
    }
  }

  /** Unless all reach in the same direction, under every schedule: no run takes more than 4n steps, and
      a run that cannot be extended has everyone gone home having eaten exactly once. */
  lemma EveryoneEatsOnce(c: Table, run: seq<State>)
    requires ValidTable(c) && !SameDirection(c) && IsRun(Dinner(c), run)
    ensures |run| <= 4 * c.n + 1
    ensures !CanStep(c, Last(run)) ==>
              AllExited(c, Last(run)) && forall i :: 0 <= i < c.n ==> Last(run).meals[i] == 1
  {
    var inv := (x: State) => Inv(c, x);
    var rank := (x: State) => ActionsLeft(x.phase);
    forall x, y | inv(x) && Dinner(c).next(x, y) ensures inv(y) && rank(y) < rank(x) {
      InvStep(c, x, y);
      ActionsLeftFalls(c, x, y);
    }
    BoundedRuns(Dinner(c), inv, rank, run);
    ActionsLeftInitially(run[0].phase);
    Invariance(Dinner(c), inv, run);
    assert inv(Last(run));
    if !CanStep(c, Last(run)) && !AllExited(c, Last(run)) {
      DeadlockNeedsSameDirection(c, Last(run));
    }
  }

  // ----- the program's table

  /** Exactly the last philosopher is reversed. */
  function ProgramTable(n: nat): Table {
    Table(n, seq(n, i => i == n - 1))
  }

  /** So the program's own table never deadlocks. */
  lemma ProgramEatsOnce(n: nat, run: seq<State>)
    requires n >= 2 && IsRun(Dinner(ProgramTable(n)), run)
    ensures |run| <= 4 * n + 1
    ensures !CanStep(ProgramTable(n), Last(run)) ==>
              AllExited(ProgramTable(n), Last(run)) && forall i :: 0 <= i < n ==> Last(run).meals[i] == 1
  {
    var c := ProgramTable(n);
    assert c.reversed[n - 1] != c.reversed[0];
    EveryoneEatsOnce(c, run);
  }

  /** The set-up loop gives philosopher i the forks of `ProgramTable`, in locking order. */
  method LayTable(n: nat) returns (left: array<nat>, right: array<nat>)
    requires n >= 2
    ensures left.Length == right.Length == n
    ensures forall i :: 0 <= i < n ==> left[i] == First(ProgramTable(n), i) && right[i] == Second(ProgramTable(n), i)
    ensures forall i :: 0 <= i < n - 1 ==> left[i] == i && right[i] == i + 1
    ensures left[n - 1] == 0 && right[n - 1] == n - 1
  {
    left := new nat[n];
    right := new nat[n];
    for i := 0 to n
      invariant forall k :: 0 <= k < i ==>
                  left[k] == First(ProgramTable(n), k) && right[k] == Second(ProgramTable(n), k)
    {
      var leftFork := i;
      var rightFork := (i + 1) % n;
      if i == n - 1 {
        left[i], right[i] := rightFork, leftFork;
      } else {
        left[i], right[i] := leftFork, rightFork;
      }
    }
  }
}
