/** Round-robin printing with semaphores in a ring: each thread acquires its own semaphore, prints, and
    releases the next one's, `count` times. */
module PrintABCSemaphore {
  import opened Runs
  import opened Rotations

  /** How often the counted loop runs: not at all for a count below 1. */
  function Rounds(c: Config): nat {
    if c.count > 0 then c.count else 0
  }

  function Total(c: Config): nat {
    c.k * Rounds(c)
  }

  datatype Phase = Acquiring | Printing | Releasing | Finished

  datatype Ring = Ring(permits: seq<nat>, rounds: seq<nat>, phase: seq<Phase>, out: seq<nat>)

  ghost predicate RingInit(c: Config, s: Ring) {
    s == Ring(seq(c.k, i => if i == 0 then 1 else 0), seq(c.k, i => 0),
              seq(c.k, i => if Rounds(c) == 0 then Finished else Acquiring), [])
  }

  ghost predicate RingShaped(c: Config, s: Ring) {
    |s.permits| == |s.rounds| == |s.phase| == c.k
  }

  /** Acquire one's own semaphore, print, release the next one's. */
  ghost predicate RingStep(c: Config, s: Ring, t: Ring, f: nat)
    requires ValidConfig(c) && RingShaped(c, s)
  {
    f < c.k &&
    match s.phase[f]
    case Acquiring =>
      s.permits[f] > 0 && t == s.(permits := s.permits[f := s.permits[f] - 1], phase := s.phase[f := Printing])
    case Printing =>
      t == s.(out := s.out + [f], phase := s.phase[f := Releasing])
    case Releasing =>
      var next := (f + 1) % c.k;
      t == s.(permits := s.permits[next := s.permits[next] + 1],
              rounds := s.rounds[f := s.rounds[f] + 1],
              phase := s.phase[f := if s.rounds[f] + 1 == Rounds(c) then Finished else Acquiring])
    case Finished => false
  }

  ghost predicate RingNext(c: Config, s: Ring, t: Ring)
    requires ValidConfig(c)
  {
    RingShaped(c, s) && exists f :: RingStep(c, s, t, f)
  }

  ghost function RingSystem(c: Config): System<Ring>
    requires ValidConfig(c)
  {
    System(s => RingInit(c, s), (s, t) => RingNext(c, s, t))
  }

  /** Where the single permit is: free at the next thread, or with a thread that is printing, or with
      one that has printed and not yet passed it on. */
  ghost predicate Token(c: Config, s: Ring, holder: int)
    requires ValidConfig(c) && RingShaped(c, s)
  {
    var v := |s.out|;
    if holder < 0 then
      forall f :: 0 <= f < c.k ==>
        && s.permits[f] == (if f == v % c.k then 1 else 0)
        && s.rounds[f] == Turns(c.k, v, f)
        && s.phase[f] == (if s.rounds[f] == Rounds(c) then Finished else Acquiring)
    else
      && holder < c.k && v + (if s.phase[holder].Releasing? then 0 else 1) <= Total(c)
      && (s.phase[holder].Printing? ==> holder == v % c.k)
      && (s.phase[holder].Releasing? ==> v >= 1 && holder == (v - 1) % c.k)
      && (s.phase[holder].Printing? || s.phase[holder].Releasing?)
      && forall f :: 0 <= f < c.k ==>
        && s.permits[f] == 0
        && s.rounds[f] == Turns(c.k, if s.phase[holder].Releasing? then v - 1 else v, f)
        && (f != holder ==> s.phase[f] == if s.rounds[f] == Rounds(c) then Finished else Acquiring)
  }

  ghost predicate RingInv(c: Config, s: Ring)
    requires ValidConfig(c)
  {
    && RingShaped(c, s) && |s.out| <= Total(c) && s.out == Rotation(c.k, |s.out|)
    && exists holder :: Token(c, s, holder)
  }

  lemma RingAcquire(c: Config, s: Ring, t: Ring, f: nat)
    requires ValidConfig(c) && RingShaped(c, s) && |s.out| <= Total(c)
    requires Token(c, s, -1) && RingStep(c, s, t, f)
    ensures RingShaped(c, t) && Token(c, t, f) && t.out == s.out && t.phase[f].Printing?
  {
    TurnsLeft(c.k, Rounds(c), |s.out|, f);
    assert s.permits[f] == 1 && f == |s.out| % c.k;
  }

  lemma RingPass(c: Config, s: Ring, t: Ring, f: nat)
    requires ValidConfig(c) && RingShaped(c, s) && |s.out| <= Total(c)
    requires f < c.k && Token(c, s, f) && s.phase[f].Releasing? && RingStep(c, s, t, f)
    ensures RingShaped(c, t) && Token(c, t, -1) && t.out == s.out
  {
    var v := |s.out|;
    DivModStep(c.k, v - 1);
    DivModStep(c.k, f);
    DivModUnique(c.k, f, 0, f);
    assert (f + 1) % c.k == v % c.k;
    TurnsLeft(c.k, Rounds(c), v - 1, f);
    forall g | 0 <= g < c.k
      ensures t.permits[g] == (if g == v % c.k then 1 else 0)
      ensures t.rounds[g] == Turns(c.k, v, g)
      ensures t.phase[g] == (if t.rounds[g] == Rounds(c) then Finished else Acquiring)
    {}
  }

  lemma RingPrint(c: Config, s: Ring, t: Ring, f: nat)
    requires ValidConfig(c) && RingShaped(c, s) && |s.out| <= Total(c) && s.out == Rotation(c.k, |s.out|)
    requires f < c.k && Token(c, s, f) && s.phase[f].Printing? && RingStep(c, s, t, f)
    ensures RingInv(c, t) && Token(c, t, f) && Prints(c.k, Total(c), s.out, t.out) && t.phase[f].Releasing?
  {
    assert t.out == Rotation(c.k, |s.out| + 1);
    assert t.phase[f].Releasing?;
    assert Token(c, t, f);
  }

  /** Steps left over: three per letter, less what the token's holder has done. */
  ghost function RingRank(c: Config, s: Ring): nat {
    var left := if |s.out| < Total(c) then 3 * (Total(c) - |s.out|) else 0;
    if exists f :: 0 <= f < |s.phase| && s.phase[f].Printing? then (if left > 0 then left - 1 else 0)
    else if exists f :: 0 <= f < |s.phase| && s.phase[f].Releasing? then left + 1
    else left
  }

  /** What the measure is, by what the token's holder is doing. */
  lemma RingRankOf(c: Config, s: Ring, holder: int)
    requires ValidConfig(c) && RingShaped(c, s) && |s.out| <= Total(c) && Token(c, s, holder)
    ensures RingRank(c, s) == 3 * (Total(c) - |s.out|)
                              + if holder < 0 then 0 else if s.phase[holder].Printing? then -1 else 1
  {}

  lemma RingInvStep(c: Config, s: Ring, t: Ring)
    requires ValidConfig(c) && RingInv(c, s) && RingNext(c, s, t)
    ensures RingInv(c, t) && RingRank(c, t) < RingRank(c, s)
    ensures t.out == s.out || Prints(c.k, Total(c), s.out, t.out)
  {
    var f: nat :| RingStep(c, s, t, f);
    var holder :| Token(c, s, holder);
    if holder < 0 {
      assert Token(c, s, -1);
      RingAcquire(c, s, t, f);
      RingRankOf(c, s, -1);
      RingRankOf(c, t, f);
    } else {
      assert f == holder;
      RingRankOf(c, s, f);
      if s.phase[f].Printing? {
        RingPrint(c, s, t, f);
        RingRankOf(c, t, f);
      } else {
        RingPass(c, s, t, f);
        RingRankOf(c, t, -1);
      }
    }
  }

  lemma RingInTurn(c: Config, s: Ring) returns (t: Ring)
    requires ValidConfig(c) && RingInv(c, s)
    requires |s.out| < Total(c) || exists f :: 0 <= f < c.k && !s.phase[f].Finished?
    ensures RingNext(c, s, t)
  {
    var holder :| Token(c, s, holder);
    var f: nat := if holder < 0 then |s.out| % c.k else holder;
    ModBound(|s.out|, c.k);
    if holder < 0 {
      if |s.out| == Total(c) {
        forall g | 0 <= g < c.k ensures s.phase[g].Finished? { TurnsLeft(c.k, Rounds(c), |s.out|, g); }
      }
      TurnsLeft(c.k, Rounds(c), |s.out|, f);
      t := s.(permits := s.permits[f := s.permits[f] - 1], phase := s.phase[f := Printing]);
    } else if s.phase[f].Printing? {
      t := s.(out := s.out + [f], phase := s.phase[f := Releasing]);
    } else {
      var next := (f + 1) % c.k;
      t := s.(permits := s.permits[next := s.permits[next] + 1],
              rounds := s.rounds[f := s.rounds[f] + 1],
              phase := s.phase[f := if s.rounds[f] + 1 == Rounds(c) then Finished else Acquiring]);
    }
    assert RingStep(c, s, t, f);
  }

  lemma RingInitInv(c: Config, s: Ring)
    requires ValidConfig(c) && RingInit(c, s)
    ensures RingInv(c, s)
  {
    DivModUnique(c.k, 0, 0, 0);
    assert Token(c, s, -1);
  }

  /** The semaphore program under any schedule: the output is always a prefix of the rotation, each
      step prints the next letter or nothing, every run is finite, and a run that cannot be extended
      has printed the whole rotation and finished every thread. */
  lemma SemaphoresPrintAll(c: Config, run: seq<Ring>)
    requires ValidConfig(c) && IsRun(RingSystem(c), run)
    ensures |run| <= 3 * Total(c) + 1
    ensures forall i :: 0 <= i < |run| ==> run[i].out == Rotation(c.k, |run[i].out|) && |run[i].out| <= Total(c)
    ensures forall i :: 0 <= i < |run| - 1 ==>
              run[i + 1].out == run[i].out || Prints(c.k, Total(c), run[i].out, run[i + 1].out)
    ensures (forall t :: !RingNext(c, Last(run), t)) ==>
              && Last(run).out == Rotation(c.k, Total(c))
              && forall f :: 0 <= f < |Last(run).phase| ==> Last(run).phase[f].Finished?
  {
    var sys := RingSystem(c);
    var inv := (x: Ring) => RingInv(c, x);
    var rank := (x: Ring) => RingRank(c, x);
    forall x | sys.init(x) ensures inv(x) { RingInitInv(c, x); }
    forall x, y | inv(x) && sys.next(x, y) ensures inv(y) && rank(y) < rank(x) { RingInvStep(c, x, y); }
    BoundedRuns(sys, inv, rank, run);
    Invariance(sys, inv, run);
    forall i | 0 <= i < |run| - 1
      ensures run[i + 1].out == run[i].out || Prints(c.k, Total(c), run[i].out, run[i + 1].out)
    {
      assert inv(run[i]) && sys.next(run[i], run[i + 1]);
      RingInvStep(c, run[i], run[i + 1]);
    }
    assert inv(Last(run));
    if |Last(run).out| < Total(c) || exists f :: 0 <= f < c.k && !Last(run).phase[f].Finished? {
      var t := RingInTurn(c, Last(run));
    }
  }
}
