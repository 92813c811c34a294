/** Safety of the crawl session over whole runs. */
module CrawlTheorems {
  import opened Peers
  import opened CrawlProtocol
  import opened CrawlInvariants

  ghost predicate CompletedNaturally(s: State) {
    s.pc.Finished? && s.pc.outcome.Natural?
  }

  // ---- Helpers ----

  lemma AllDone(c: Config, s: State, i: nat)
    requires Accounted(c, s) && s.active == 0 && i < |s.tasks|
    ensures s.tasks[i].phase == Done && s.done == []
  {
    SumAtLeast(s.tasks, i, Live);
  }

  lemma TestedIsSpawned(seed: Peer, c: Config, s: State, p: Peer) returns (i: nat)
    requires Inv(c, seed, s) && CompletedNaturally(s) && p in s.tested - c.known
    ensures i < |s.tasks| && s.tasks[i].peer == p && s.tasks[i].phase == Done
  {
    assert Spawned(s, p);
    i :| 0 <= i < |s.tasks| && s.tasks[i].peer == p;
    AllDone(c, s, i);
  }

  /** At natural completion a lesson of a peer this crawl tested is tested or in an unread batch. */
  lemma LessonsNoted(c: Config, seed: Peer, s: State, p: Peer, q: Peer)
    requires Inv(c, seed, s) && CompletedNaturally(s) && s.listening
    requires p in s.tested - c.known && c.Taught(p, q)
    ensures q in s.tested || (s.discovery != [] && q in s.discovery[0].peers)
  {
    var i := TestedIsSpawned(seed, c, s, p);
    assert TaskCovers(c, s, s.tasks[i]);
    assert Noted(s, q);
  }

  /** What `tested` peers teach, other than those known before, is tested too or is in `unread`. */
  ghost predicate ClosedExcept(c: Config, tested: set<Peer>, unread: seq<Peer>) {
    forall p, q :: p in tested - c.known && c.Taught(p, q) ==> q in tested || q in unread
  }

  /** A walk that starts tested and ends untested leaves the tested set through an unread peer. */
  lemma {:induction false} WalkLeavesThroughUnread(c: Config, tested: set<Peer>, unread: seq<Peer>, path: seq<Peer>)
    requires ClosedExcept(c, tested, unread)
    requires IsPath(c, path) && path[0] in tested && path[|path| - 1] !in tested
    ensures exists q :: q in unread && q !in tested && Reachable(c, q, path[|path| - 1])
  {
    var tail := path[1..];
    assert c.Taught(path[0], path[1]);
    assert IsPath(c, tail) && tail[|tail| - 1] == path[|path| - 1];
    if path[1] in tested {
      WalkLeavesThroughUnread(c, tested, unread, tail);
    } else {
      assert PathBetween(c, tail, path[1], path[|path| - 1]);
      assert Reachable(c, path[1], path[|path| - 1]);
    }
  }

  function Unread(s: State): seq<Peer> {
    if s.discovery == [] then [] else s.discovery[0].peers
  }

  lemma MissingIsBehindUnread(c: Config, seed: Peer, s: State, p: Peer)
    requires Inv(c, seed, s) && CompletedNaturally(s) && s.listening
    requires Reachable(c, seed, p) && p !in s.tested
    ensures exists q :: q in Unread(s) && q !in s.tested && Reachable(c, q, p)
  {
    forall r, q | r in s.tested - c.known && c.Taught(r, q) ensures q in s.tested || q in Unread(s) {
      LessonsNoted(c, seed, s, r, q);
    }
    assert seed in s.tested;
    var path :| PathBetween(c, path, seed, p);
    WalkLeavesThroughUnread(c, s.tested, Unread(s), path);
  }

  // ---- Exact reachability ----

  lemma ExactAtNaturalEnd(c: Config, seed: Peer, s: State, p: Peer)
    requires c.atomicPoll && Inv(c, seed, s) && CompletedNaturally(s) && s.listening
    ensures p in s.tested <==> p in c.known || Reachable(c, seed, p)
  {
    if Reachable(c, seed, p) && p !in s.tested {
      MissingIsBehindUnread(c, seed, s, p);
    }
  }

  /**
   A crawl that ends by itself while the caller listens has tested exactly the peers the seed leads
   to, besides those tested before it, when discovery and completion are polled as one step; nothing
   is left queued. In a new session nothing was tested before, and the paths are all paths.
   */
  lemma ExactReachability(c: Config, seed: Peer, run: seq<State>, p: Peer)
    requires c.Valid() && seed !in c.known && c.atomicPoll && IsRun(c, seed, run)
    requires var s := run[|run| - 1]; CompletedNaturally(s) && s.listening
    ensures var s := run[|run| - 1]; (p in s.tested <==> p in c.known || Reachable(c, seed, p)) && s.discovery == []
  {
    RunKeepsInv(c, seed, run, |run| - 1);
    ExactAtNaturalEnd(c, seed, run[|run| - 1], p);
  }

  ghost predicate ClosedUnderLessons(c: Config, S: iset<Peer>) {
    forall p, q :: p in S && p !in c.known && c.Taught(p, q) ==> q in S
  }

  lemma {:induction false} PathStaysInClosedSet(c: Config, S: iset<Peer>, path: seq<Peer>)
    requires ClosedUnderLessons(c, S) && IsPath(c, path) && path[0] in S
    ensures path[|path| - 1] in S
  {
    if |path| > 1 {
      assert c.Taught(path[0], path[1]);
      assert IsPath(c, path[1..]);
      PathStaysInClosedSet(c, S, path[1..]);
    }
  }

  /** The same result as a least fixed point: the final tested set is closed, and every closed set has it. */
  lemma TestedIsLeastClosedSet(c: Config, seed: Peer, run: seq<State>, S: iset<Peer>)
    requires c.Valid() && seed !in c.known && c.atomicPoll && IsRun(c, seed, run)
    requires var s := run[|run| - 1]; CompletedNaturally(s) && s.listening
    requires seed in S && ClosedUnderLessons(c, S) && forall p :: p in c.known ==> p in S
    ensures var s := run[|run| - 1];
      && seed in s.tested && c.known <= s.tested
      && ClosedUnderLessons(c, iset p | p in s.tested)
      && forall p :: p in s.tested ==> p in S
  {
    var s := run[|run| - 1];
    RunKeepsInv(c, seed, run, |run| - 1);
    forall p, q | p in s.tested - c.known && c.Taught(p, q) ensures q in s.tested { LessonsNoted(c, seed, s, p, q); }
    forall p | p in s.tested - c.known ensures p in S {
      var path :| PathBetween(c, path, seed, p);
      PathStaysInClosedSet(c, S, path);
    }
  }

  // ---- The split poll ----

  /**
   With the two branches polled as separate steps, natural completion leaves at most one batch
   unread, sent by the task whose completion ended the crawl.
   */
  lemma SplitPollLeavesOneBatch(c: Config, seed: Peer, run: seq<State>)
    requires c.Valid() && seed !in c.known && !c.atomicPoll && IsRun(c, seed, run)
    requires CompletedNaturally(run[|run| - 1])
    ensures var s := run[|run| - 1];
      && |s.discovery| <= 1
      && (s.discovery != [] ==> s.discovery[0].SentBy? && s.discovery[0].task == s.pc.outcome.last)
  {
    RunKeepsInv(c, seed, run, |run| - 1);
  }

  /** What is missing from the tested set is only reachable through an untested peer of the unread batch. */
  lemma SplitPollBound(c: Config, seed: Peer, run: seq<State>, p: Peer)
    requires c.Valid() && seed !in c.known && !c.atomicPoll && IsRun(c, seed, run)
    requires var s := run[|run| - 1]; CompletedNaturally(s) && s.listening
    ensures var s := run[|run| - 1];
      && (p in s.tested ==> p in c.known || Reachable(c, seed, p))
      && (Reachable(c, seed, p) && p !in s.tested ==>
            exists q :: q in Unread(s) && q !in s.tested && Reachable(c, q, p))
  {
    var s := run[|run| - 1];
    RunKeepsInv(c, seed, run, |run| - 1);
    if Reachable(c, seed, p) && p !in s.tested {
      MissingIsBehindUnread(c, seed, s, p);
    }
  }

  /** In a given run of the split poll the crawl is complete exactly when the unread batch holds no untested peer. */
  lemma SplitPollCompleteIff(c: Config, seed: Peer, run: seq<State>)
    requires c.Valid() && seed !in c.known && !c.atomicPoll && IsRun(c, seed, run)
    requires var s := run[|run| - 1]; CompletedNaturally(s) && s.listening
    ensures var s := run[|run| - 1];
      (forall p :: Reachable(c, seed, p) ==> p in s.tested) <==> (forall q :: q in Unread(s) ==> q in s.tested)
  {
    var s := run[|run| - 1];
    forall p | Reachable(c, seed, p) && p !in s.tested
      ensures exists q :: q in Unread(s) && q !in s.tested
    {
      SplitPollBound(c, seed, run, p);
    }
    assert c.known <= s.tested && forall q :: q in Unread(s) ==> q in c.known || Reachable(c, seed, q) by {
      RunKeepsInv(c, seed, run, |run| - 1);
    }
  }

  // ---- Accounting ----

  lemma {:induction false} LiveIsCardinality(ts: seq<Task>)
    ensures Sum(ts, Live) == |set i | 0 <= i < |ts| && ts[i].phase != Done|
  {
    var live := set i | 0 <= i < |ts| && ts[i].phase != Done;
    if ts == [] {
      assert live == {};
    } else {
      var n := |ts| - 1;
      var front := ts[..n];
      LiveIsCardinality(front);
      SumAppend(front, ts[n], Live);
      assert ts == front + [ts[n]];
      var before := set i | 0 <= i < |front| && front[i].phase != Done;
      assert live == before + if ts[n].phase != Done then {n} else {};
    }
  }

  /**
   In every reachable state the counter equals the tasks that have not sent their completion plus
   the completions queued, and respects the limit. A task that has returned can send its completion
   at once; the channel is gone only after the coordinator left because the caller hung up.
   */
  lemma TaskAccounting(c: Config, seed: Peer, run: seq<State>, n: nat)
    requires c.Valid() && seed !in c.known && IsRun(c, seed, run) && n < |run|
    ensures var s := run[n];
      && s.active == |set i | 0 <= i < |s.tasks| && s.tasks[i].phase != Done| + |s.done|
      && 0 <= s.active <= c.maxTasks
      && (forall i :: 0 <= i < |s.tasks| && s.tasks[i].phase.Finishing? ==>
            && |s.done| < c.maxTasks
            && (s.pc.Finished? ==> s.pc.outcome == HungUp && !s.listening))
      && (forall i :: 0 <= i < |s.tasks| && s.tasks[i].phase == Panicked ==> !s.listening)
  {
    var s := run[n];
    RunKeepsInv(c, seed, run, n);
    LiveIsCardinality(s.tasks);
    forall i | 0 <= i < |s.tasks| && s.tasks[i].phase.Finishing? ensures Sum(s.tasks, Live) >= 1 {
      SumAtLeast(s.tasks, i, Live);
    }
  }

  // ---- The messages the select acts on ----

  /** The select takes a message: a batch, or a completion. */
  ghost predicate Acts(s: State, t: State) {
    || (s.pc.AtSelect? && t.pc.InBatch?)
    || ((s.pc.AtSelect? || s.pc.Polled?) && (t.pc.LoopHead? || t.pc.Finished?))
  }

  /** How many messages the select has taken in the first `n` steps. */
  ghost function Acted(run: seq<State>, n: nat): nat
    requires n < |run|
  {
    if n == 0 then 0
    else if Acts(run[n - 1], run[n]) then Acted(run, n - 1) + 1
    else Acted(run, n - 1)
  }

  lemma {:induction false} HandledIsActed(c: Config, seed: Peer, run: seq<State>, n: nat)
    requires IsRun(c, seed, run) && n < |run|
    ensures run[n].handled == Acted(run, n)
  {
    if n > 0 {
      HandledIsActed(c, seed, run, n - 1);
      assert Step(c, run[n - 1], run[n - 1 + 1]);
      HandledStep(c, run[n - 1], run[n]);
    }
  }

  lemma HandledStep(c: Config, s: State, t: State)
    requires Step(c, s, t)
    ensures t.handled == if Acts(s, t) then s.handled + 1 else s.handled
  {
  }

  // ---- The filter is only an optimisation ----

  lemma SameNetSameReach(c: Config, d: Config, p: Peer, q: Peer)
    requires c.known == d.known && forall r :: c.net(r) == d.net(r)
    requires Reachable(c, p, q)
    ensures Reachable(d, p, q)
  {
    var path :| PathBetween(c, path, p, q);
    forall i | 0 <= i < |path| - 1 ensures d.Taught(path[i], path[i + 1]) {
      assert c.Taught(path[i], path[i + 1]);
    }
    assert PathBetween(d, path, p, q);
  }

  /**
   Two crawls over the same network end with the same tested set, whatever their schedules and
   limits, and whether or not their tasks filter out tested peers before reporting them.
   */
  lemma FilterIsOptimisation(c: Config, d: Config, seed: Peer, run1: seq<State>, run2: seq<State>)
    requires c.Valid() && c.atomicPoll && IsRun(c, seed, run1) && seed !in c.known
    requires d.Valid() && d.atomicPoll && IsRun(d, seed, run2) && c.known == d.known
    requires c.filtering && !d.filtering && forall p :: c.net(p) == d.net(p)
    requires var s := run1[|run1| - 1]; CompletedNaturally(s) && s.listening
    requires var s := run2[|run2| - 1]; CompletedNaturally(s) && s.listening
    ensures run1[|run1| - 1].tested == run2[|run2| - 1].tested
  {
    var t1, t2 := run1[|run1| - 1].tested, run2[|run2| - 1].tested;
    forall p: Peer ensures p in t1 <==> p in t2 {
      ExactReachability(c, seed, run1, p);
      ExactReachability(d, seed, run2, p);
      if Reachable(c, seed, p) { SameNetSameReach(c, d, seed, p); }
      if Reachable(d, seed, p) { SameNetSameReach(d, c, seed, p); }
    }
  }

  // ---- One task and one report per peer ----

  /** No peer is ever spawned twice, in any run. */
  lemma SpawnedOnce(c: Config, seed: Peer, run: seq<State>, n: nat, i: nat, j: nat)
    requires c.Valid() && seed !in c.known && IsRun(c, seed, run) && n < |run|
    requires i < j < |run[n].tasks|
    ensures run[n].tasks[i].peer != run[n].tasks[j].peer
  {
    RunKeepsInv(c, seed, run, n);
  }

  /** The peer the k-th report is about. */
  function Subject(s: State, k: nat): Peer
    requires k < |s.reports| && s.reports[k].task < |s.tasks|
  {
    s.tasks[s.reports[k].task].peer
  }

  /** The reports correspond one to one with the peers this crawl tested, and each describes its peer. */
  ghost predicate ReportsMatchTested(c: Config, s: State) {
    && (forall k :: 0 <= k < |s.reports| ==>
         && s.reports[k].task < |s.tasks|
         && Subject(s, k) in s.tested - c.known
         && c.Describes(Subject(s, k), s.reports[k].message))
    && (forall k, l :: 0 <= k < l < |s.reports| ==> Subject(s, k) != Subject(s, l))
    && (forall p :: p in s.tested - c.known ==> exists k :: 0 <= k < |s.reports| && Subject(s, k) == p)
  }

  lemma OneReportPerPeer(c: Config, seed: Peer, run: seq<State>)
    requires c.Valid() && seed !in c.known && IsRun(c, seed, run)
    requires var s := run[|run| - 1]; CompletedNaturally(s) && s.listening
    ensures ReportsMatchTested(c, run[|run| - 1])
  {
    var s := run[|run| - 1];
    RunKeepsInv(c, seed, run, |run| - 1);
    FinalReportsMatch(c, seed, s);
  }

  lemma FinalReportsMatch(c: Config, seed: Peer, s: State)
    requires Inv(c, seed, s) && CompletedNaturally(s) && s.listening
    ensures ReportsMatchTested(c, s)
  {
    forall k, l | 0 <= k < l < |s.reports| ensures Subject(s, k) != Subject(s, l) {
      assert s.reports[k].task != s.reports[l].task;
    }
    forall p | p in s.tested - c.known ensures exists k :: 0 <= k < |s.reports| && Subject(s, k) == p {
      var i := TestedIsSpawned(seed, c, s, p);
      assert Reported(s, i);
      var k :| 0 <= k < |s.reports| && s.reports[k].task == i;
      assert Subject(s, k) == p;
    }
  }
}
