/** The indexing service: a crawler walks a file tree and queues accepted files; on completion or
    interruption it queues one poison pill; the indexer works until it meets the pill. */
module Indexing {
  import opened Runs

  /** `accepted` is the caller's filter; an unreadable directory lists as null. */
  datatype Node = File(id: int, accepted: bool) | Directory(entries: seq<Node>, readable: bool)

  datatype Item = Entry(id: int) | Poison

  // ----- the depth-first listing, as the recursive `crawl` visits it

  function Crawl(n: Node): seq<int>
    decreases n, 0
  {
    if n.Directory? && n.readable then CrawlEach(n.entries) else []
  }

  function CrawlEach(entries: seq<Node>): seq<int>
    decreases entries, 1
  {
    if entries == [] then []
    else
      var head := entries[0];
      (if head.Directory? then Crawl(head) else if head.accepted then [head.id] else []) + CrawlEach(entries[1..])
  }

  /** `listFiles(fileFilter)`: directories and accepted files, nothing for null. */
  function Accepted(entries: seq<Node>): seq<Node> {
    if entries == [] then []
    else (if entries[0].Directory? || entries[0].accepted then [entries[0]] else []) + Accepted(entries[1..])
  }

  function ListFiles(n: Node): seq<Node> {
    if n.Directory? && n.readable then Accepted(n.entries) else []
  }

  function Size(n: Node): nat
    decreases n, 0
  {
    if n.File? then 1 else 1 + SizeEach(n.entries)
  }

  function SizeEach(entries: seq<Node>): nat
    decreases entries, 1
  {
    if entries == [] then 0 else Size(entries[0]) + SizeEach(entries[1..])
  }

  lemma {:induction false} CrawlConcat(a: seq<Node>, b: seq<Node>)
    ensures CrawlEach(a + b) == CrawlEach(a) + CrawlEach(b) && SizeEach(a + b) == SizeEach(a) + SizeEach(b)
    decreases |a|
  {
    if a == [] {
      assert a + b == b;
    } else {
      assert (a + b)[1..] == a[1..] + b;
      CrawlConcat(a[1..], b);
    }
  }

  lemma CrawlPrepend(n: Node, rest: seq<Node>)
    ensures CrawlEach([n] + rest) == CrawlEach([n]) + CrawlEach(rest)
    ensures SizeEach([n] + rest) == Size(n) + SizeEach(rest)
    ensures n.File? && !n.accepted ==> CrawlEach([n]) == []
  {
    CrawlConcat([n], rest);
    assert [n][1..] == [];
    assert ([n] + rest)[1..] == rest;
  }

  lemma {:induction false} CrawlAccepted(entries: seq<Node>)
    ensures CrawlEach(Accepted(entries)) == CrawlEach(entries) && SizeEach(Accepted(entries)) <= SizeEach(entries)
    decreases |entries|
  {
    if entries != [] {
      var n, rest := entries[0], entries[1..];
      assert entries == [n] + rest;
      CrawlAccepted(rest);
      CrawlPrepend(n, rest);
      CrawlPrepend(n, Accepted(rest));
      assert Accepted(entries) == if n.Directory? || n.accepted then [n] + Accepted(rest) else Accepted(rest);
    }
  }

  // ----- what the listing holds, said by places in the tree

  /** A path of entry indices from a node down through readable directories to an accepted file. */
  predicate LeadsTo(n: Node, path: seq<nat>, id: int)
    decreases |path|
  {
    if path == [] then n.File? && n.accepted && n.id == id
    else n.Directory? && n.readable && path[0] < |n.entries| && LeadsTo(n.entries[path[0]], path[1..], id)
  }

  /** An accepted file below the root. */
  predicate PlaceOf(root: Node, path: seq<nat>, id: int) {
    path != [] && LeadsTo(root, path, id)
  }

  /** Lexicographic order of paths. */
  predicate Before(p: seq<nat>, q: seq<nat>)
    decreases |p|
  {
    q != [] && (p == [] || p[0] < q[0] || (p[0] == q[0] && Before(p[1..], q[1..])))
  }

  function Below(k: nat, paths: seq<seq<nat>>): (below: seq<seq<nat>>)
    ensures |below| == |paths| && forall i :: 0 <= i < |paths| ==> below[i] == [k] + paths[i]
  {
    seq(|paths|, i requires 0 <= i < |paths| => [k] + paths[i])
  }

  /** ids lists the accepted files that `leads` knows of: each at its path, paths ascending, none left out. */
  ghost predicate Lists(ids: seq<int>, paths: seq<seq<nat>>, leads: (seq<nat>, int) -> bool) {
    && |paths| == |ids|
    && (forall i :: 0 <= i < |ids| ==> leads(paths[i], ids[i]))
    && (forall i, j :: 0 <= i < j < |paths| ==> Before(paths[i], paths[j]))
    && (forall path, id :: leads(path, id) ==> path in paths)
  }

  /** The places under the entries from the k-th on. */
  predicate PlaceFrom(entries: seq<Node>, k: nat, path: seq<nat>, id: int) {
    path != [] && k <= path[0] < |entries| && LeadsTo(entries[path[0]], path[1..], id)
  }

  predicate PlaceAt(entries: seq<Node>, k: nat, path: seq<nat>, id: int) {
    path != [] && path[0] == k < |entries| && LeadsTo(entries[k], path[1..], id)
  }

  lemma {:induction false} PlacesUnder(n: Node) returns (paths: seq<seq<nat>>)
    ensures Lists(Crawl(n), paths, (path: seq<nat>, id: int) => PlaceOf(n, path, id))
    decreases n, 2, 0
  {
    paths := [];
    if n.Directory? && n.readable {
      assert n.entries[0..] == n.entries;
      paths := PlacesAmong(n, n.entries, 0);
      var from := (path: seq<nat>, id: int) => PlaceFrom(n.entries, 0, path, id);
      assert Lists(Crawl(n), paths, from);
      forall path, id | PlaceOf(n, path, id) ensures path in paths { assert from(path, id); }
      forall i | 0 <= i < |paths| ensures PlaceOf(n, paths[i], Crawl(n)[i]) { assert from(paths[i], Crawl(n)[i]); }
    } else {
      forall path, id ensures !PlaceOf(n, path, id) {}
    }
  }

  lemma {:induction false} PlacesAmong(n: Node, entries: seq<Node>, k: nat) returns (paths: seq<seq<nat>>)
    requires n.Directory? && n.entries == entries && k <= |entries|
    ensures Lists(CrawlEach(entries[k..]), paths, (path: seq<nat>, id: int) => PlaceFrom(entries, k, path, id))
    decreases n, 1, |entries| - k
  {
    paths := [];
    if k < |entries| {
      assert entries[k..][0] == entries[k] && entries[k..][1..] == entries[k + 1..];
      var here := PlacesOfEntry(n, entries, k);
      var rest := PlacesAmong(n, entries, k + 1);
      paths := here + rest;
      var ids := if entries[k].Directory? then Crawl(entries[k])
                 else if entries[k].accepted then [entries[k].id] else [];
      JoinPlaces(entries, k, ids, here, CrawlEach(entries[k + 1..]), rest);
    }
  }

  lemma {:induction false} PlacesOfEntry(n: Node, entries: seq<Node>, k: nat) returns (here: seq<seq<nat>>)
    requires n.Directory? && n.entries == entries && k < |entries|
    ensures var ids := if entries[k].Directory? then Crawl(entries[k])
                       else if entries[k].accepted then [entries[k].id] else [];
            Lists(ids, here, (path: seq<nat>, id: int) => PlaceAt(entries, k, path, id))
    decreases n, 0, 0
  {
    var e := entries[k];
    if e.Directory? {
      var inner := PlacesUnder(e);
      here := Below(k, inner);
      var leads := (path: seq<nat>, id: int) => PlaceOf(e, path, id);
      assert Lists(Crawl(e), inner, leads);
      forall path, id | PlaceAt(entries, k, path, id) ensures path in here {
        assert leads(path[1..], id);
        var i :| 0 <= i < |inner| && inner[i] == path[1..];
        assert here[i] == [k] + path[1..] == path;
      }
    } else if e.accepted {
      here := [[k]];
      forall path, id | PlaceAt(entries, k, path, id) ensures path in here {
        assert path[1..] == [] && path == [k] + path[1..] == here[0];
      }
    } else {
      here := [];
    }
  }

  lemma JoinPlaces(entries: seq<Node>, k: nat, ids: seq<int>, here: seq<seq<nat>>, ids': seq<int>, rest: seq<seq<nat>>)
    requires Lists(ids, here, (path: seq<nat>, id: int) => PlaceAt(entries, k, path, id))
    requires Lists(ids', rest, (path: seq<nat>, id: int) => PlaceFrom(entries, k + 1, path, id))
    ensures Lists(ids + ids', here + rest, (path: seq<nat>, id: int) => PlaceFrom(entries, k, path, id))
  {
    var at := (path: seq<nat>, id: int) => PlaceAt(entries, k, path, id);
    var from := (path: seq<nat>, id: int) => PlaceFrom(entries, k + 1, path, id);
    assert Lists(ids, here, at) && Lists(ids', rest, from);
    forall path, id | PlaceFrom(entries, k, path, id) ensures path in here + rest {
      assert at(path, id) || from(path, id);
    }
    forall i, j | 0 <= i < j < |here + rest| ensures Before((here + rest)[i], (here + rest)[j]) {
      if i < |here| <= j {
        assert at(here[i], ids[i]) && from(rest[j - |here|], ids'[j - |here|]);
      }
    }
  }

  /** The listing of a tree holds the ids of exactly the accepted files that are reached through readable
      directories, once for each place, in lexicographic order of the places. */
  lemma CrawlListsPlaces(root: Node) returns (places: seq<seq<nat>>)
    ensures |places| == |Crawl(root)|
    ensures forall i :: 0 <= i < |places| ==> PlaceOf(root, places[i], Crawl(root)[i])
    ensures forall i, j :: 0 <= i < j < |places| ==> Before(places[i], places[j])
    ensures forall path, id :: PlaceOf(root, path, id) ==> path in places
  {
    places := PlacesUnder(root);
    var leads := (path: seq<nat>, id: int) => PlaceOf(root, path, id);
    assert Lists(Crawl(root), places, leads);
    forall path, id | PlaceOf(root, path, id) ensures path in places { assert leads(path, id); }
    forall i | 0 <= i < |places| ensures PlaceOf(root, places[i], Crawl(root)[i]) {
      assert leads(places[i], Crawl(root)[i]);
    }
  }

  // ----- the two threads

  /** `work` is what the recursion has still to visit, innermost frame first. */
  datatype Crawler = Crawling(work: seq<Node>) | Poisoning | Finished

  /** `cut`: an interrupt ended the crawl early. `put`, `sent` and `indexed` record the history. */
  datatype State = State(
    crawler: Crawler, interrupt: bool, cut: bool, queue: seq<Item>, exited: bool,
    put: seq<Item>, sent: seq<int>, indexed: seq<int>)

  ghost predicate Init(root: Node, s: State) {
    s == State(Crawling(if root.Directory? then [root] else []), false, false, [], false, [], [], [])
  }

  ghost predicate CrawlerStep(capacity: nat, s: State, t: State) {
    match s.crawler
    case Crawling(work) =>
      if work == [] then t == s.(crawler := Poisoning)
      else if work[0].Directory? then t == s.(crawler := Crawling(ListFiles(work[0]) + work[1..]))
      else if s.interrupt then t == s.(crawler := Poisoning, interrupt := false, cut := true)
      else
        && |s.queue| < capacity
        && t == s.(crawler := Crawling(work[1..]), queue := s.queue + [Entry(work[0].id)],
                   put := s.put + [Entry(work[0].id)], sent := s.sent + [work[0].id])
    case Poisoning =>
      if s.interrupt then t == s.(interrupt := false)
      else |s.queue| < capacity && t == s.(crawler := Finished, queue := s.queue + [Poison], put := s.put + [Poison])
    case Finished => false
  }

  ghost predicate IndexerStep(s: State, t: State) {
    && !s.exited && s.queue != []
    && match s.queue[0]
       case Poison => t == s.(queue := s.queue[1..], exited := true)
       case Entry(id) => t == s.(queue := s.queue[1..], indexed := s.indexed + [id])
  }

  ghost predicate Threads(capacity: nat, s: State, t: State) {
    CrawlerStep(capacity, s, t) || IndexerStep(s, t)
  }

  /** `stop()` interrupts the crawler, at any time and any number of times. */
  ghost predicate StopStep(s: State, t: State) {
    t == s.(interrupt := true)
  }

  ghost function Service(root: Node, capacity: nat): System<State> {
    System(s => Init(root, s), (s, t) => Threads(capacity, s, t) || StopStep(s, t))
  }

  // ----- what every schedule keeps

  function Entries(ids: seq<int>): seq<Item> {
    seq(|ids|, i requires 0 <= i < |ids| => Entry(ids[i]))
  }

  ghost predicate Inv(root: Node, s: State) {
    && s.put == Entries(s.sent) + (if s.crawler.Finished? then [Poison] else [])
    && |s.indexed| <= |s.sent| && s.indexed == s.sent[..|s.indexed|]
    && s.queue == (if s.exited then [] else s.put[|s.indexed|..])
    && (s.exited ==> s.crawler.Finished? && s.indexed == s.sent)
    && (s.crawler.Crawling? ==> !s.cut && s.sent + CrawlEach(s.crawler.work) == Crawl(root))
    && s.sent <= Crawl(root)
    && (!s.crawler.Crawling? && !s.cut ==> s.sent == Crawl(root))
    && (s.crawler.Crawling? ==> forall n :: n in s.crawler.work ==> n.Directory? || n.accepted)
  }

  lemma InvInit(root: Node, s: State)
    requires Init(root, s)
    ensures Inv(root, s)
  {
    if root.Directory? { assert [root][1..] == []; }
  }

  lemma {:induction false} AcceptedMembers(entries: seq<Node>)
    ensures forall n :: n in Accepted(entries) ==> n.Directory? || n.accepted
  {
    if entries != [] { AcceptedMembers(entries[1..]); }
  }

  lemma InvDescend(root: Node, capacity: nat, s: State, t: State)
    requires Inv(root, s) && s.crawler.Crawling? && s.crawler.work != [] && s.crawler.work[0].Directory?
    requires CrawlerStep(capacity, s, t)
    ensures Inv(root, t) && SizeEach(t.crawler.work) < SizeEach(s.crawler.work)
  {
    var work := s.crawler.work;
    var listed := ListFiles(work[0]);
    CrawlConcat(listed, work[1..]);
    CrawlAccepted(work[0].entries);
    AcceptedMembers(work[0].entries);
    assert CrawlEach(work) == Crawl(work[0]) + CrawlEach(work[1..]);
    assert CrawlEach(listed) == Crawl(work[0]);
  }

  lemma EntriesNext(ids: seq<int>, id: int)
    ensures Entries(ids + [id]) == Entries(ids) + [Entry(id)]
  {}

  lemma QueueNext(put: seq<Item>, k: nat, x: Item)
    requires k <= |put|
    ensures (put + [x])[k..] == put[k..] + [x]
  {}

  lemma InvPut(root: Node, capacity: nat, s: State, t: State)
    requires Inv(root, s) && s.crawler.Crawling? && s.crawler.work != [] && s.crawler.work[0].File? && !s.interrupt
    requires CrawlerStep(capacity, s, t)
    ensures Inv(root, t) && SizeEach(t.crawler.work) < SizeEach(s.crawler.work)
  {
    var work := s.crawler.work;
    assert work[0] in work;
    assert CrawlEach(work) == [work[0].id] + CrawlEach(work[1..]);
    assert s.sent + CrawlEach(work) == t.sent + CrawlEach(work[1..]);
    EntriesNext(s.sent, work[0].id);
    QueueNext(s.put, |s.indexed|, Entry(work[0].id));
  }

  lemma InvCrawler(root: Node, capacity: nat, s: State, t: State)
    requires Inv(root, s) && CrawlerStep(capacity, s, t)
    ensures Inv(root, t)
  {
    if s.crawler.Crawling? && s.crawler.work != [] {
      if s.crawler.work[0].Directory? { InvDescend(root, capacity, s, t); }
      else if !s.interrupt { InvPut(root, capacity, s, t); }
    }
  }

  /** The head of the queue is the next file sent, or the pill after all of them. */
  lemma QueueHead(root: Node, s: State)
    requires Inv(root, s) && s.queue != []
    ensures s.queue[1..] == s.put[|s.indexed| + 1..]
    ensures if |s.indexed| < |s.sent| then s.queue[0] == Entry(s.sent[|s.indexed|])
            else s.crawler.Finished? && s.queue == [Poison]
  {
    assert s.queue[0] == s.put[|s.indexed|];
  }

  lemma InvIndexFile(root: Node, s: State, t: State)
    requires Inv(root, s) && IndexerStep(s, t) && s.queue[0].Entry?
    ensures Inv(root, t)
  {
    QueueHead(root, s);
    var k := |s.indexed|;
    assert s.sent[..k + 1] == s.sent[..k] + [s.sent[k]];
  }

  lemma InvIndexer(root: Node, s: State, t: State)
    requires Inv(root, s) && IndexerStep(s, t)
    ensures Inv(root, t)
  {
    if s.queue[0].Entry? { InvIndexFile(root, s, t); } else { QueueHead(root, s); }
  }

  lemma InvStep(root: Node, capacity: nat, s: State, t: State)
    requires Inv(root, s) && (Threads(capacity, s, t) || StopStep(s, t))
    ensures Inv(root, t)
  {
    if CrawlerStep(capacity, s, t) { InvCrawler(root, capacity, s, t); }
    else if IndexerStep(s, t) { InvIndexer(root, s, t); }
  }

  lemma InvReachable(root: Node, capacity: nat, s: State)
    requires Reachable(Service(root, capacity), s)
    ensures Inv(root, s)
  {
    var inv := (x: State) => Inv(root, x);
    var sys := Service(root, capacity);
    forall x | sys.init(x) ensures inv(x) { InvInit(root, x); }
    forall x, y | inv(x) && sys.next(x, y) ensures inv(y) { InvStep(root, capacity, x, y); }
    InvariantReachable(sys, inv, s);
  }

  /** For every finite tree and every placement of stop calls: the pill is enqueued at most once, after
      everything else, and exactly when the crawler ends; the indexer follows the depth-first listing in
      order; and when it exits it has indexed all that was queued, which is a prefix of the listing and
      the whole of it unless an interrupt cut the crawl short. */
  lemma PoisonComesLast(root: Node, capacity: nat, s: State)
    requires Reachable(Service(root, capacity), s)
    ensures forall i :: 0 <= i < |s.put| && s.put[i] == Poison ==> i == |s.put| - 1
    ensures s.crawler.Finished? <==> Poison in s.put
    ensures s.indexed <= Crawl(root)
    ensures s.exited ==> s.queue == [] && Entries(s.indexed) + [Poison] == s.put
    ensures s.exited && !s.cut ==> s.indexed == Crawl(root)
  {
    InvReachable(root, capacity, s);
    if s.crawler.Finished? { assert s.put[|s.sent|] == Poison; }
  }

  // ----- both threads end

  function CrawlerRank(k: Crawler): nat {
    match k
    case Crawling(work) => 4 + 2 * SizeEach(work)
    case Poisoning => 2
    case Finished => 0
  }

  ghost function Rank(s: State): nat {
    CrawlerRank(s.crawler) + |s.queue| + (if s.interrupt then 1 else 0)
  }

  lemma RankFalls(root: Node, capacity: nat, s: State, t: State)
    requires Inv(root, s) && Threads(capacity, s, t)
    ensures Rank(t) < Rank(s)
  {
    if CrawlerStep(capacity, s, t) {
      if s.crawler.Crawling? && s.crawler.work != [] {
        if s.crawler.work[0].Directory? { InvDescend(root, capacity, s, t); }
        else if !s.interrupt { InvPut(root, capacity, s, t); }
      }
    }
  }

  lemma CanMove(root: Node, capacity: nat, s: State) returns (t: State)
    requires Inv(root, s) && capacity >= 1 && !(s.crawler.Finished? && s.exited)
    ensures Threads(capacity, s, t)
  {
    if s.queue != [] {
      t := if s.queue[0].Poison? then s.(queue := s.queue[1..], exited := true)
           else s.(queue := s.queue[1..], indexed := s.indexed + [s.queue[0].id]);
      assert IndexerStep(s, t);
    } else {
      assert s.crawler.Finished? ==> |s.put| == |s.sent| + 1;
      t := CrawlerCanMove(capacity, s);
    }
  }

  lemma CrawlerCanMove(capacity: nat, s: State) returns (t: State)
    requires capacity >= 1 && s.queue == [] && !s.crawler.Finished?
    ensures CrawlerStep(capacity, s, t)
  {
    match s.crawler {
      case Crawling(work) =>
        t := if work == [] then s.(crawler := Poisoning)
             else if work[0].Directory? then s.(crawler := Crawling(ListFiles(work[0]) + work[1..]))
             else if s.interrupt then s.(crawler := Poisoning, interrupt := false, cut := true)
             else s.(crawler := Crawling(work[1..]), queue := s.queue + [Entry(work[0].id)],
                     put := s.put + [Entry(work[0].id)], sent := s.sent + [work[0].id]);
      case Poisoning =>
        t := if s.interrupt then s.(interrupt := false)
             else s.(crawler := Finished, queue := s.queue + [Poison], put := s.put + [Poison]);
    }
  }

  ghost function Undisturbed(s: State, capacity: nat): System<State> {
    System(x => x == s, (x, y) => Threads(capacity, x, y))
  }

  /** From any reachable state, once no further stop call arrives, the threads take at most `Rank`
      steps in any order, and when neither can move both have ended and everything queued is indexed. */
  lemma BothThreadsEnd(root: Node, capacity: nat, s: State, run: seq<State>)
    requires capacity >= 1 && Reachable(Service(root, capacity), s) && IsRun(Undisturbed(s, capacity), run)
    ensures |run| <= Rank(s) + 1
    ensures (forall t :: !Threads(capacity, Last(run), t)) ==>
              Last(run).exited && Last(run).crawler.Finished? && Last(run).indexed == Last(run).sent
  {
    InvReachable(root, capacity, s);
    var sys := Undisturbed(s, capacity);
    var inv := (x: State) => Inv(root, x);
    var rank := (x: State) => Rank(x);
    forall x, y | inv(x) && sys.next(x, y) ensures inv(y) && rank(y) < rank(x) {
      InvStep(root, capacity, x, y);
      RankFalls(root, capacity, x, y);
    }
    BoundedRuns(sys, inv, rank, run);
    Invariance(sys, inv, run);
    assert inv(Last(run));
    if !(Last(run).crawler.Finished? && Last(run).exited) { var t := CanMove(root, capacity, Last(run)); }
  }

  // ----- what a stop call does, and that nothing else does it

  /** Nothing was sent beyond this, and nothing can be. */
  ghost predicate CutAt(sent: seq<int>, s: State) {
    s.sent == sent && (s.crawler.Crawling? ==> s.interrupt)
  }

  lemma StaysCut(capacity: nat, sent: seq<int>, s: State, t: State)
    requires CutAt(sent, s) && (Threads(capacity, s, t) || StopStep(s, t))
    ensures CutAt(sent, t)
  {}

  /** A stop call while the crawl is under way: from then on no further file is queued, whatever happens. */
  lemma StopCutsCrawl(root: Node, capacity: nat, s: State, path: seq<State>)
    requires Inv(root, s) && s.crawler.Crawling? && s.interrupt
    requires |path| > 0 && path[0] == s && IsPath(Service(root, capacity), path)
    ensures Last(path).sent == s.sent
  {
    var after := System((x: State) => x == s, (x, y) => Threads(capacity, x, y) || StopStep(x, y));
    var inv := (x: State) => CutAt(s.sent, x);
    forall x, y | inv(x) && after.next(x, y) ensures inv(y) { StaysCut(capacity, s.sent, x, y); }
    forall i | 0 <= i < |path| - 1 ensures after.next(path[i], path[i + 1]) {
      assert Service(root, capacity).next(path[i], path[i + 1]);
    }
    assert IsRun(after, path);
    Invariance(after, inv, path);
    assert inv(Last(path));
  }

  /** A stop call can be made at any time, and is heard. */
  lemma StopIsHeard(root: Node, capacity: nat, s: State)
    ensures exists t :: StopStep(s, t) && Service(root, capacity).next(s, t) && t.interrupt && t.crawler == s.crawler
  {
    var t := s.(interrupt := true);
    assert StopStep(s, t) && Service(root, capacity).next(s, t);
  }

  lemma QueueWithinCapacity(root: Node, capacity: nat, s: State)
    requires Reachable(Service(root, capacity), s)
    ensures |s.queue| <= capacity
  {
    InvariantReachable(Service(root, capacity), (x: State) => |x.queue| <= capacity, s);
  }

  ghost function Unstopped(root: Node, capacity: nat): System<State> {
    System(s => Init(root, s), (s, t) => Threads(capacity, s, t))
  }

  /** Without a stop call the crawl is never cut: every run is finite, and one that cannot be extended has
      indexed the whole listing. */
  lemma UnstoppedIndexesAll(root: Node, capacity: nat, run: seq<State>)
    requires capacity >= 1 && IsRun(Unstopped(root, capacity), run)
    ensures |run| <= Rank(run[0]) + 1 && !Last(run).cut
    ensures (forall t :: !Threads(capacity, Last(run), t)) ==> Last(run).exited && Last(run).indexed == Crawl(root)
  {
    var sys := Unstopped(root, capacity);
    var inv := (x: State) => Inv(root, x) && !x.interrupt && !x.cut;
    var rank := (x: State) => Rank(x);
    forall x | sys.init(x) ensures inv(x) { InvInit(root, x); }
    forall x, y | inv(x) && sys.next(x, y) ensures inv(y) && rank(y) < rank(x) {
      InvStep(root, capacity, x, y);
      RankFalls(root, capacity, x, y);
    }
    BoundedRuns(sys, inv, rank, run);
    Invariance(sys, inv, run);
    assert inv(Last(run));
    if !(Last(run).crawler.Finished? && Last(run).exited) { var t := CanMove(root, capacity, Last(run)); }
  }
}
