/** Runs of a step relation: the vocabulary shared by every concurrent protocol of the project. */
module Runs {

  /** A transition system: where a run may start, and which steps it may take. */
  datatype System<!S(!new)> = System(init: S -> bool, next: (S, S) -> bool)

  /** Consecutive states of `path` are related by a step. */
  ghost predicate IsPath<S(!new)>(sys: System<S>, path: seq<S>) {
    forall i :: 0 <= i < |path| - 1 ==> sys.next(path[i], path[i + 1])
  }

  /** A run: a nonempty path from an initial state. */
  ghost predicate IsRun<S(!new)>(sys: System<S>, run: seq<S>) {
    |run| > 0 && sys.init(run[0]) && IsPath(sys, run)
  }

  function Last<S>(run: seq<S>): S
    requires |run| > 0
  {
    run[|run| - 1]
  }

  ghost predicate Reaches<S(!new)>(sys: System<S>, a: S, b: S) {
    exists path :: |path| > 0 && path[0] == a && Last(path) == b && IsPath(sys, path)
  }

  ghost predicate Reachable<S(!new)>(sys: System<S>, s: S) {
    exists run :: IsRun(sys, run) && Last(run) == s
  }

  ghost predicate Inductive<S(!new)>(sys: System<S>, inv: S -> bool) {
    && (forall s :: sys.init(s) ==> inv(s))
    && (forall s, t :: inv(s) && sys.next(s, t) ==> inv(t))
  }

  /** An inductive predicate holds in every state of every run. */
  lemma {:induction false} Invariance<S(!new)>(sys: System<S>, inv: S -> bool, run: seq<S>)
    requires Inductive(sys, inv) && IsRun(sys, run)
    ensures forall i :: 0 <= i < |run| ==> inv(run[i])
  {
    if |run| > 1 {
      var prefix := run[..|run| - 1];
      Invariance(sys, inv, prefix);
      assert inv(prefix[|run| - 2]);
      assert sys.next(run[|run| - 2], run[|run| - 2 + 1]);
      forall i | 0 <= i < |run| ensures inv(run[i]) {
        if i < |run| - 1 { assert run[i] == prefix[i]; }
      }
    }
  }

  /** When every step from an invariant state lowers a natural number, no run is longer than that number allows. */
  lemma {:induction false} BoundedRuns<S(!new)>(sys: System<S>, inv: S -> bool, rank: S -> nat, run: seq<S>)
    requires Inductive(sys, inv) && IsRun(sys, run)
    requires forall s, t :: inv(s) && sys.next(s, t) ==> rank(t) < rank(s)
    ensures |run| + rank(Last(run)) <= rank(run[0]) + 1
  {
    if |run| > 1 {
      var prefix := run[..|run| - 1];
      BoundedRuns(sys, inv, rank, prefix);
      Invariance(sys, inv, prefix);
      assert inv(prefix[|run| - 2]);
      assert sys.next(run[|run| - 2], run[|run| - 2 + 1]);
    }
  }

  ghost predicate Stuck<S(!new)>(sys: System<S>, s: S) {
    forall t :: !sys.next(s, t)
  }

  /** When runs are bounded, every run can be continued until no step is left. */
  lemma {:induction false} MaximalRun<S(!new)>(sys: System<S>, inv: S -> bool, rank: S -> nat, run: seq<S>)
      returns (longest: seq<S>)
    requires Inductive(sys, inv) && IsRun(sys, run)
    requires forall s, t :: inv(s) && sys.next(s, t) ==> rank(t) < rank(s)
    ensures IsRun(sys, longest) && Stuck(sys, Last(longest))
    decreases rank(Last(run))
  {
    longest := run;
    if t :| sys.next(Last(run), t) {
      Invariance(sys, inv, run);
      assert inv(run[|run| - 1]);
      var longer := run + [t];
      assert IsRun(sys, longer) && Last(longer) == t;
      longest := MaximalRun(sys, inv, rank, longer);
    }
  }

  lemma ReachesSelf<S(!new)>(sys: System<S>, a: S)
    ensures Reaches(sys, a, a)
  {
    var path := [a];
    assert path[0] == a && Last(path) == a && IsPath(sys, path);
  }

  lemma ReachesStep<S(!new)>(sys: System<S>, a: S, b: S, c: S)
    requires Reaches(sys, a, b) && sys.next(b, c)
    ensures Reaches(sys, a, c)
  {
    var p :| |p| > 0 && p[0] == a && Last(p) == b && IsPath(sys, p);
    var path := p + [c];
    assert path[0] == a && Last(path) == c && IsPath(sys, path);
  }

  lemma ReachesTrans<S(!new)>(sys: System<S>, a: S, b: S, c: S)
    requires Reaches(sys, a, b) && Reaches(sys, b, c)
    ensures Reaches(sys, a, c)
  {
    var p :| |p| > 0 && p[0] == a && Last(p) == b && IsPath(sys, p);
    var q :| |q| > 0 && q[0] == b && Last(q) == c && IsPath(sys, q);
    var path := p + q[1..];
    forall i | 0 <= i < |path| - 1 ensures sys.next(path[i], path[i + 1]) {
      if i >= |p| - 1 { assert path[i] == q[i + 1 - |p|] && path[i + 1] == q[i + 2 - |p|]; }
    }
    assert path[0] == a && Last(path) == c && IsPath(sys, path);
  }

  lemma ReachableFrom<S(!new)>(sys: System<S>, a: S, b: S)
    requires sys.init(a) && Reaches(sys, a, b)
    ensures Reachable(sys, b)
  {
    var p :| |p| > 0 && p[0] == a && Last(p) == b && IsPath(sys, p);
    assert IsRun(sys, p);
  }

  lemma InvariantReachable<S(!new)>(sys: System<S>, inv: S -> bool, s: S)
    requires Inductive(sys, inv) && Reachable(sys, s)
    ensures inv(s)
  {
    var run :| IsRun(sys, run) && Last(run) == s;
    Invariance(sys, inv, run);
  }
}
