/** Master/worker: workers poll a shared queue of tasks submitted before they start, and publish one
    result per task id; the master sums the results once every worker thread has terminated. */
module MasterWorker {
  import opened Runs
  import opened JavaInt

  /** `result` is what `doWork` computes from the task's content. */
  datatype Task = Task(id: int, result: int)

  datatype Worker = Polling | Busy(task: Task) | Terminated

  /** `published` records the tasks whose result was written, once per write. */
  datatype State = State(queue: seq<Task>, workers: seq<Worker>, results: map<int, int>, published: multiset<Task>)

  ghost predicate DistinctIds(tasks: seq<Task>) {
    forall i, j :: 0 <= i < j < |tasks| ==> tasks[i].id != tasks[j].id
  }

  ghost predicate Init(tasks: seq<Task>, n: nat, s: State) {
    s == State(tasks, seq(n, i => Polling), map[], multiset{})
  }

  ghost predicate Step(s: State, t: State, w: nat) {
    w < |s.workers| &&
    match s.workers[w]
    case Polling =>
      if s.queue == [] then t == s.(workers := s.workers[w := Terminated])
      else t == s.(queue := s.queue[1..], workers := s.workers[w := Busy(s.queue[0])])
    case Busy(task) =>
      t == s.(workers := s.workers[w := Polling], results := s.results[task.id := task.result],
              published := s.published + multiset{task})
    case Terminated => false
  }

  ghost predicate Next(s: State, t: State) {
    exists w :: Step(s, t, w)
  }

  ghost function Job(tasks: seq<Task>, n: nat): System<State> {
    System(s => Init(tasks, n, s), (s, t) => Next(s, t))
  }

  /** `isComplete`: every worker thread has terminated. */
  predicate IsComplete(s: State) {
    forall w :: 0 <= w < |s.workers| ==> s.workers[w].Terminated?
  }

  // ----- conservation

  ghost function TaskOf(w: Worker): multiset<Task> {
    if w.Busy? then multiset{w.task} else multiset{}
  }

  ghost function InProgress(workers: seq<Worker>): multiset<Task> {
    if workers == [] then multiset{} else TaskOf(workers[0]) + InProgress(workers[1..])
  }

  lemma UpdateTail(workers: seq<Worker>, w: nat, v: Worker)
    requires w < |workers|
    ensures workers[w := v][1..] == if w == 0 then workers[1..] else workers[1..][w - 1 := v]
  {}

  /** The first worker's task, and the others'. */
  lemma InProgressSplit(workers: seq<Worker>)
    requires workers != []
    ensures InProgress(workers) == TaskOf(workers[0]) + InProgress(workers[1..])
  {}

  lemma {:induction false} InProgressUpdate(workers: seq<Worker>, w: nat, v: Worker)
    requires w < |workers|
    ensures InProgress(workers[w := v]) + TaskOf(workers[w]) == InProgress(workers) + TaskOf(v)
  {
    var rest, workers' := workers[1..], workers[w := v];
    UpdateTail(workers, w, v);
    InProgressSplit(workers);
    InProgressSplit(workers');
    if w == 0 {
      Exchange(InProgress(workers'), InProgress(workers), TaskOf(v), TaskOf(workers[0]), InProgress(rest));
    } else {
      InProgressUpdate(rest, w - 1, v);
      AddBefore(InProgress(workers'), InProgress(workers), TaskOf(workers[0]),
                InProgress(rest[w - 1 := v]), TaskOf(workers[w]), InProgress(rest), TaskOf(v));
    }
  }

  lemma Exchange(x: multiset<Task>, y: multiset<Task>, a: multiset<Task>, b: multiset<Task>, r: multiset<Task>)
    requires x == a + r && y == b + r
    ensures x + b == y + a
  {}

  lemma AddBefore(x: multiset<Task>, y: multiset<Task>, a: multiset<Task>,
                  p: multiset<Task>, u: multiset<Task>, q: multiset<Task>, v: multiset<Task>)
    requires x == a + p && y == a + q && p + u == q + v
    ensures x + u == y + v
  {
    assert x + u == a + (p + u) && y + v == a + (q + v);
  }

  lemma InProgressChanges(workers: seq<Worker>, w: nat, v: Worker)
    requires w < |workers|
    ensures !workers[w].Busy? && !v.Busy? ==> InProgress(workers[w := v]) == InProgress(workers)
    ensures !workers[w].Busy? && v.Busy? ==> InProgress(workers[w := v]) == InProgress(workers) + multiset{v.task}
    ensures workers[w].Busy? && !v.Busy? ==>
              InProgress(workers[w := v]) + multiset{workers[w].task} == InProgress(workers)
  {
    InProgressUpdate(workers, w, v);
    var before, after := InProgress(workers), InProgress(workers[w := v]);
    assert before + multiset{} == before && after + multiset{} == after;
  }

  function StepsLeft(w: Worker): nat {
    match w
    case Busy(_) => 2
    case Polling => 1
    case Terminated => 0
  }

  function Rank(workers: seq<Worker>): nat {
    if workers == [] then 0 else StepsLeft(workers[0]) + Rank(workers[1..])
  }

  lemma {:induction false} RankOfPolling(workers: seq<Worker>)
    requires forall w :: 0 <= w < |workers| ==> workers[w].Polling?
    ensures Rank(workers) == |workers|
  {
    if workers != [] { RankOfPolling(workers[1..]); }
  }

  lemma {:induction false} RankUpdate(workers: seq<Worker>, w: nat, v: Worker)
    requires w < |workers|
    ensures Rank(workers[w := v]) == Rank(workers) - StepsLeft(workers[w]) + StepsLeft(v)
  {
    if w == 0 {
      assert workers[w := v][1..] == workers[1..];
    } else {
      assert workers[w := v][1..] == workers[1..][w - 1 := v];
      RankUpdate(workers[1..], w - 1, v);
    }
  }

  ghost predicate Inv(tasks: seq<Task>, n: nat, s: State) {
    && |s.workers| == n
    && multiset(tasks) == multiset(s.queue) + InProgress(s.workers) + s.published
    && (forall id :: id in s.results ==> Task(id, s.results[id]) in s.published)
    && (forall task :: task in s.published ==> task.id in s.results)
    && ((exists w :: 0 <= w < n && s.workers[w].Terminated?) ==> s.queue == [])
  }

  lemma {:induction false} AllPolling(workers: seq<Worker>)
    requires forall w :: 0 <= w < |workers| ==> !workers[w].Busy?
    ensures InProgress(workers) == multiset{}
  {
    if workers != [] { AllPolling(workers[1..]); }
  }

  lemma MoveTask(x: Task, a: multiset<Task>, b: multiset<Task>, c: multiset<Task>)
    ensures (multiset{x} + a) + b + c == a + (b + multiset{x}) + c
    ensures a + (b + multiset{x}) + c == a + b + (c + multiset{x})
  {}

  lemma HeadAndRest(q: seq<Task>)
    requires q != []
    ensures multiset(q) == multiset{q[0]} + multiset(q[1..])
  {
    assert q == [q[0]] + q[1..];
  }

  lemma Regroup(x: Task, q: multiset<Task>, q': multiset<Task>, p: multiset<Task>, p': multiset<Task>,
                u: multiset<Task>)
    requires q == multiset{x} + q' && p' == p + multiset{x}
    ensures q' + p' + u == q + p + u
  {
    MoveTask(x, q', p, u);
  }

  /** Polling moves the head of the queue into progress, if there is one. */
  lemma PollConserves(s: State, t: State, w: nat)
    requires Step(s, t, w) && s.workers[w].Polling?
    ensures multiset(t.queue) + InProgress(t.workers) + t.published
         == multiset(s.queue) + InProgress(s.workers) + s.published
  {
    if s.queue == [] {
      InProgressChanges(s.workers, w, Terminated);
    } else {
      var x := s.queue[0];
      var workers' := s.workers[w := Busy(x)];
      HeadAndRest(s.queue);
      InProgressChanges(s.workers, w, Busy(x));
      Regroup(x, multiset(s.queue), multiset(s.queue[1..]), InProgress(s.workers), InProgress(workers'), s.published);
    }
  }

  lemma InvPoll(tasks: seq<Task>, n: nat, s: State, t: State, w: nat)
    requires Inv(tasks, n, s) && Step(s, t, w) && s.workers[w].Polling?
    ensures Inv(tasks, n, t)
  {
    PollConserves(s, t, w);
  }

  lemma InvPublish(tasks: seq<Task>, n: nat, s: State, t: State, w: nat)
    requires Inv(tasks, n, s) && Step(s, t, w) && s.workers[w].Busy?
    ensures Inv(tasks, n, t)
  {
    var task := s.workers[w].task;
    InProgressChanges(s.workers, w, Polling);
    assert InProgress(t.workers) + multiset{task} == InProgress(s.workers);
    MoveTask(task, multiset(s.queue), InProgress(t.workers), s.published);
    forall id | id in t.results ensures Task(id, t.results[id]) in t.published {
      if id == task.id { assert Task(id, t.results[id]) == task; }
    }
  }

  lemma RankFalls(s: State, t: State)
    requires Next(s, t)
    ensures 3 * |t.queue| + Rank(t.workers) < 3 * |s.queue| + Rank(s.workers)
  {
    var w: nat :| Step(s, t, w);
    RankUpdate(s.workers, w, t.workers[w]);
    assert t.workers == s.workers[w := t.workers[w]];
  }

  lemma InvStep(tasks: seq<Task>, n: nat, s: State, t: State)
    requires Inv(tasks, n, s) && Next(s, t)
    ensures Inv(tasks, n, t)
  {
    var w: nat :| Step(s, t, w);
    if s.workers[w].Polling? { InvPoll(tasks, n, s, t, w); } else { InvPublish(tasks, n, s, t, w); }
  }

  // ----- summing up

  ghost function SumOver(m: map<int, int>, keys: set<int>): int
    requires keys <= m.Keys
  {
    if exists k :: k in keys then var k :| k in keys; m[k] + SumOver(m, keys - {k}) else 0
  }

  ghost function MapSum(m: map<int, int>): int {
    SumOver(m, m.Keys)
  }

  /** The sum does not depend on the order of the entries. */
  lemma {:induction false} SumOverRemove(m: map<int, int>, keys: set<int>, k: int)
    requires keys <= m.Keys && k in keys
    ensures SumOver(m, keys) == m[k] + SumOver(m, keys - {k})
  {
    var j :| j in keys && SumOver(m, keys) == m[j] + SumOver(m, keys - {j});
    if j != k {
      SumOverRemove(m, keys - {j}, k);
      SumOverRemove(m, keys - {k}, j);
      assert keys - {j} - {k} == keys - {k} - {j};
    }
  }

  function Total(tasks: seq<Task>): int {
    if tasks == [] then 0 else tasks[0].result + Total(tasks[1..])
  }

  /** One entry per task: then the entries' sum is the tasks' sum. */
  lemma {:induction false} SumOverIsTotal(tasks: seq<Task>, m: map<int, int>, keys: set<int>)
    requires DistinctIds(tasks) && keys <= m.Keys
    requires forall i :: 0 <= i < |tasks| ==> tasks[i].id in keys && m[tasks[i].id] == tasks[i].result
    requires forall id :: id in keys ==> exists i :: 0 <= i < |tasks| && tasks[i].id == id
    ensures SumOver(m, keys) == Total(tasks)
  {
    if tasks != [] {
      var k, rest := tasks[0].id, tasks[1..];
      var keys' := keys - {k};
      forall i | 0 <= i < |rest| ensures rest[i].id in keys' && m[rest[i].id] == rest[i].result {
        assert rest[i] == tasks[i + 1];
      }
      forall id | id in keys' ensures exists i :: 0 <= i < |rest| && rest[i].id == id {
        var i :| 0 <= i < |tasks| && tasks[i].id == id;
        assert rest[i - 1] == tasks[i];
      }
      SumOverRemove(m, keys, k);
      SumOverIsTotal(rest, m, keys');
    }
  }

  ghost predicate Ints(s: set<int>) {
    forall x :: x in s ==> MIN_INT <= x <= MAX_INT
  }

  lemma {:induction false} RangeSize(s: set<int>, low: int, n: nat)
    requires forall x :: x in s ==> low <= x < low + n
    ensures |s| <= n
  {
    if n == 0 {
      assert forall x :: x !in s;
    } else {
      var rest := s - {low + n - 1};
      RangeSize(rest, low, n - 1);
      assert s == rest || s == rest + {low + n - 1};
    }
  }

  lemma {:induction false} SumBound(m: map<int, int>, keys: set<int>)
    requires keys <= m.Keys && Ints(m.Values)
    ensures MIN_INT * |keys| <= SumOver(m, keys) <= MAX_INT * |keys|
  {
    if k :| k in keys {
      SumOverRemove(m, keys, k);
      assert m[k] in m.Values;
      SumBound(m, keys - {k});
    }
  }

  /** With int keys and int values no sum of entries leaves the range of a long. */
  lemma SumFitsLong(m: map<int, int>, keys: set<int>)
    requires keys <= m.Keys && Ints(m.Keys) && Ints(m.Values)
    ensures WrapLong(SumOver(m, keys)) == SumOver(m, keys)
  {
    RangeSize(keys, MIN_INT, TWO_32);
    SumBound(m, keys);
  }

  /** `getResult`: the loop over the result map adds up every entry once, in whatever order, and the long
      sum never overflows. */
  method GetResult(results: map<int, int>) returns (result: int)
    requires Ints(results.Keys) && Ints(results.Values)
    ensures result == MapSum(results)
  {
    result := 0;
    var left := results.Keys;
    ghost var added := {};
    while exists k :: k in left
      invariant left + added == results.Keys && left !! added
      invariant result == SumOver(results, added)
      decreases left
    {
      var k :| k in left;
      SumOverRemove(results, added + {k}, k);
      assert added + {k} - {k} == added;
      SumFitsLong(results, added + {k});
      result := WrapLong(result + results[k]);
      left, added := left - {k}, added + {k};
    }
    assert added == results.Keys;
  }

  lemma CompleteIsTotal(tasks: seq<Task>, n: nat, s: State)
    requires DistinctIds(tasks) && n >= 1 && Inv(tasks, n, s) && IsComplete(s)
    ensures s.published == multiset(tasks) && MapSum(s.results) == Total(tasks)
  {
    assert s.workers[0].Terminated?;
    AllPolling(s.workers);
    assert s.published == multiset(tasks);
    forall i | 0 <= i < |tasks| ensures tasks[i].id in s.results && s.results[tasks[i].id] == tasks[i].result {
      assert tasks[i] in multiset(tasks);
      var id := tasks[i].id;
      var other := Task(id, s.results[id]);
      assert other in multiset(tasks) && other in tasks;
      var j :| 0 <= j < |tasks| && tasks[j] == other;
      assert j == i;
    }
    forall id | id in s.results ensures exists i :: 0 <= i < |tasks| && tasks[i].id == id {
      assert Task(id, s.results[id]) in multiset(tasks);
    }
    SumOverIsTotal(tasks, s.results, s.results.Keys);
  }

  lemma UnfinishedCanStep(s: State) returns (t: State)
    requires !IsComplete(s)
    ensures Next(s, t)
  {
    var w :| 0 <= w < |s.workers| && !s.workers[w].Terminated?;
    match s.workers[w]
    case Polling =>
      t := if s.queue == [] then s.(workers := s.workers[w := Terminated])
           else s.(queue := s.queue[1..], workers := s.workers[w := Busy(s.queue[0])]);
      assert Step(s, t, w);
    case Busy(task) =>
      t := s.(workers := s.workers[w := Polling], results := s.results[task.id := task.result],
              published := s.published + multiset{task});
      assert Step(s, t, w);
  }

  lemma InvRun(tasks: seq<Task>, n: nat, run: seq<State>)
    requires IsRun(Job(tasks, n), run)
    ensures forall i :: 0 <= i < |run| ==> Inv(tasks, n, run[i])
    ensures |run| <= 3 * |tasks| + n + 1
  {
    var sys := Job(tasks, n);
    var inv := (x: State) => Inv(tasks, n, x);
    var rank := (x: State) => 3 * |x.queue| + Rank(x.workers);
    forall x | sys.init(x) ensures inv(x) { AllPolling(x.workers); }
    forall x, y | inv(x) && sys.next(x, y) ensures inv(y) && rank(y) < rank(x) {
      InvStep(tasks, n, x, y);
      RankFalls(x, y);
    }
    BoundedRuns(sys, inv, rank, run);
    RankOfPolling(run[0].workers);
    Invariance(sys, inv, run);
    forall i | 0 <= i < |run| ensures Inv(tasks, n, run[i]) { assert inv(run[i]); }
  }

  /** For at least one worker, distinct ids and every schedule: at every step each submitted task is
      queued, in progress or published, exactly once; whenever `isComplete` holds the published sum is
      the sum over all tasks; runs are finite, and one that cannot be extended is complete. */
  lemma SumsAllTasks(tasks: seq<Task>, n: nat, run: seq<State>)
    requires DistinctIds(tasks) && n >= 1 && IsRun(Job(tasks, n), run)
    ensures forall i :: 0 <= i < |run| ==>
              multiset(tasks) == multiset(run[i].queue) + InProgress(run[i].workers) + run[i].published
    ensures forall i :: 0 <= i < |run| && IsComplete(run[i]) ==> MapSum(run[i].results) == Total(tasks)
    ensures |run| <= 3 * |tasks| + n + 1
    ensures (forall t :: !Next(Last(run), t)) ==> IsComplete(Last(run))
  {
    InvRun(tasks, n, run);
    forall i | 0 <= i < |run| && IsComplete(run[i]) ensures MapSum(run[i].results) == Total(tasks) {
      CompleteIsTotal(tasks, n, run[i]);
    }
    if !IsComplete(Last(run)) { var t := UnfinishedCanStep(Last(run)); }
  }
}
