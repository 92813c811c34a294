/** Progress, termination and total correctness of the crawl session. */
module CrawlTermination {
  import opened Peers
  import opened CrawlProtocol
  import opened CrawlInvariants
  import opened CrawlTheorems

  // ---- No stuck coordinator ----

  lemma LiveTaskCanMove(c: Config, seed: Peer, s: State) returns (a: Action)
    requires c.Valid() && Inv(c, seed, s) && !s.pc.Finished?
    requires Sum(s.tasks, Live) > 0
    ensures Enabled(c, s, a) && (a.Move? || (a.CallerReceives? && |s.reports| >= s.received + c.reportCapacity))
  {
    SumPositive(s.tasks, Live);
    var i :| 0 <= i < |s.tasks| && Live(s.tasks[i].phase) > 0;
    SumAtLeast(s.tasks, i, Live);
    a := if MoveEnabled(c, s, i) then Move(i) else CallerReceives;
  }

  /**
   If the seed was not tested before, the coordinator is never stuck: until it leaves, the coordinator or a task
   can take a step, unless the tasks wait only for a caller that has stopped taking reports.
   */
  lemma NeverStuck(c: Config, seed: Peer, s: State)
    requires c.Valid() && Inv(c, seed, s) && !s.pc.Finished?
    ensures exists a :: Enabled(c, s, a) && a != HangUp
                     && (a == CallerReceives ==> |s.reports| >= s.received + c.reportCapacity)
  {
    match s.pc
    case LoopHead => assert Enabled(c, s, CheckCaller);
    case InBatch(_) => assert Enabled(c, s, NextPeer);
    case AtSelect =>
      if s.discovery != [] { assert Enabled(c, s, TakeBatch); }
      else if !c.atomicPoll { assert Enabled(c, s, MissDiscovery); }
      else if s.done != [] { assert Enabled(c, s, TakeDone); }
      else { var a := LiveTaskCanMove(c, seed, s); }
    case Polled =>
      if s.done == [] { assert Enabled(c, s, Park); } else { assert Enabled(c, s, TakeDone); }
    case Parked =>
      if s.discovery != [] || s.done != [] { assert Enabled(c, s, Wake); }
      else { var a := LiveTaskCanMove(c, seed, s); }
    case AtCapacity(_, _) =>
      if s.active < c.maxTasks { assert Enabled(c, s, Spawn); }
      else if s.done != [] { assert Enabled(c, s, DrainDone); }
      else { var a := LiveTaskCanMove(c, seed, s); }
  }

  lemma NeverStuckInRun(c: Config, seed: Peer, run: seq<State>, n: nat)
    requires c.Valid() && seed !in c.known && IsRun(c, seed, run) && n < |run| && !run[n].pc.Finished?
    ensures exists a :: Enabled(c, run[n], a) && a != HangUp
                     && (a == CallerReceives ==> |run[n].reports| >= run[n].received + c.reportCapacity)
  {
    RunKeepsInv(c, seed, run, n);
    NeverStuck(c, seed, run[n]);
  }

  // ---- The termination measure ----

  /** A finite universe of peers that contains the seed and all that its peers teach. */
  ghost predicate Universe(c: Config, seed: Peer, U: set<Peer>) {
    seed in U && forall p, q :: p in U && c.Taught(p, q) ==> q in U
  }

  lemma TestedInUniverse(c: Config, seed: Peer, U: set<Peer>, s: State)
    requires Inv(c, seed, s) && Universe(c, seed, U)
    ensures s.tested <= U + c.known
  {
    forall p | p in s.tested - c.known ensures p in U {
      var path :| PathBetween(c, path, seed, p);
      PathStaysInClosedSet(c, (iset q | q in U), path);
    }
  }

  lemma {:induction false} DistinctPeersFit(ts: seq<Task>, S: set<Peer>)
    requires forall i, j :: 0 <= i < j < |ts| ==> ts[i].peer != ts[j].peer
    requires forall i :: 0 <= i < |ts| ==> ts[i].peer in S
    ensures |ts| <= |S|
  {
    if ts != [] {
      var n := |ts| - 1;
      DistinctPeersFit(ts[..n], S - {ts[n].peer});
    }
  }

  /** Steps a task still has to take. */
  function Remaining(ph: Phase): nat {
    match ph
    case Connecting => 6
    case Reporting => 5
    case Asking => 4
    case Filtering(_) => 3
    case Sending(_) => 2
    case Finishing(_) => 1
    case Done => 0
    case Panicked => 0
  }

  function Queued(s: State): int {
    |s.discovery| + |s.done| + (|s.reports| - s.received) + if s.listening then 1 else 0
  }

  function PcRank(s: State): nat {
    match s.pc
    case InBatch(rest) => 10 + 2 * |rest|
    case AtCapacity(_, rest) => 11 + 2 * |rest|
    case LoopHead => 5
    case Polled => if s.done == [] && s.discovery != [] then 4 else 1
    case Parked => if s.discovery != [] || s.done != [] then 3 else 0
    case AtSelect => 2
    case Finished(_) => 0
  }

  /** Lexicographically smaller in (peers not spawned, task steps left, queued messages, position). */
  predicate Below(s': State, s: State) {
    var r', r := Sum(s'.tasks, Remaining), Sum(s.tasks, Remaining);
    || |s'.tasks| > |s.tasks|
    || (|s'.tasks| == |s.tasks| &&
        (r' < r || (r' == r && (Queued(s') < Queued(s) || (Queued(s') == Queued(s) && PcRank(s') < PcRank(s))))))
  }

  /** Every step, of whoever takes it, descends. */
  lemma StepDescends(c: Config, s: State, a: Action)
    requires Enabled(c, s, a)
    ensures Below(Next(c, s, a), s)
  {
    if a.Move? {
      MovedTasks(c, s, a.task);
      SumUpdate(s.tasks, a.task, Task(s.tasks[a.task].peer, NextPhase(c, s, s.tasks[a.task])), Remaining);
    }
  }

  lemma TasksFitUniverse(c: Config, seed: Peer, U: set<Peer>, s: State)
    requires Inv(c, seed, s) && Universe(c, seed, U)
    ensures |s.tasks| <= |U| && 0 <= Queued(s)
  {
    TestedInUniverse(c, seed, U, s);
    DistinctPeersFit(s.tasks, U);
  }

  // ---- Maximal runs ----

  /** Only a hang-up can still happen. */
  ghost predicate Quiescent(c: Config, s: State) {
    forall a :: Enabled(c, s, a) ==> a == HangUp
  }

  ghost predicate Proceeds(c: Config, run: nat -> State, i: nat) {
    Step(c, run(i), run(i + 1)) || (Quiescent(c, run(i)) && run(i + 1) == run(i))
  }

  /** A run that never stops while anything but a hang-up can happen. The choice of steps is arbitrary. */
  ghost predicate MaximalRun(c: Config, seed: Peer, run: nat -> State) {
    run(0) == Init(c, seed) && forall i: nat :: Proceeds(c, run, i)
  }

  lemma {:induction false} MaximalRunKeepsInv(c: Config, seed: Peer, run: nat -> State, n: nat)
    requires c.Valid() && seed !in c.known && MaximalRun(c, seed, run)
    ensures Inv(c, seed, run(n))
  {
    if n == 0 {
      InitInv(c, seed);
    } else {
      MaximalRunKeepsInv(c, seed, run, n - 1);
      assert Proceeds(c, run, n - 1);
      ProceedingKeepsInv(c, seed, run(n - 1), run(n));
    }
  }

  lemma ProceedingKeepsInv(c: Config, seed: Peer, s: State, t: State)
    requires c.Valid() && Inv(c, seed, s) && (Step(c, s, t) || t == s)
    ensures Inv(c, seed, t)
  {
    if t != s {
      var a :| Enabled(c, s, a) && t == Next(c, s, a);
      StepKeepsInv(c, seed, s, a);
    }
  }

  lemma {:induction false} ReachesQuiescence(c: Config, seed: Peer, U: set<Peer>, run: nat -> State, n: nat) returns (m: nat)
    requires c.Valid() && seed !in c.known && MaximalRun(c, seed, run) && Universe(c, seed, U)
    ensures m >= n && Quiescent(c, run(m))
    decreases |U| - |run(n).tasks|, Sum(run(n).tasks, Remaining), Queued(run(n)), PcRank(run(n))
  {
    m := n;
    if !Quiescent(c, run(n)) {
      MaximalRunKeepsInv(c, seed, run, n);
      assert Proceeds(c, run, n);
      var a :| Enabled(c, run(n), a) && run(n + 1) == Next(c, run(n), a);
      StepDescends(c, run(n), a);
      TasksFitUniverse(c, seed, U, run(n));
      MaximalRunKeepsInv(c, seed, run, n + 1);
      TasksFitUniverse(c, seed, U, run(n + 1));
      m := ReachesQuiescence(c, seed, U, run, n + 1);
    }
  }

  /** Over a finite universe every run ends, and the coordinator has left when it does. */
  lemma EveryRunEnds(c: Config, seed: Peer, U: set<Peer>, run: nat -> State)
    requires c.Valid() && seed !in c.known && MaximalRun(c, seed, run) && Universe(c, seed, U)
    ensures exists n: nat :: Quiescent(c, run(n)) && run(n).pc.Finished?
  {
    var n := ReachesQuiescence(c, seed, U, run, 0);
    MaximalRunKeepsInv(c, seed, run, n);
    if !run(n).pc.Finished? {
      NeverStuck(c, seed, run(n));
    }
  }

  lemma {:induction false} PrefixIsRun(c: Config, seed: Peer, run: nat -> State, n: nat) returns (prefix: seq<State>)
    requires c.Valid() && seed !in c.known && MaximalRun(c, seed, run)
    ensures IsRun(c, seed, prefix) && prefix[|prefix| - 1] == run(n)
  {
    if n == 0 {
      prefix := [run(0)];
    } else {
      var front := PrefixIsRun(c, seed, run, n - 1);
      assert Proceeds(c, run, n - 1);
      prefix := if run(n) == run(n - 1) then front else front + [run(n)];
    }
  }

  /**
   Total correctness. Over a finite universe, if the caller keeps listening and the biased poll is
   one step, every schedule brings the crawl to its natural end with exactly the reachable peers
   tested and reported.
   */
  lemma TotalCorrectness(c: Config, seed: Peer, U: set<Peer>, run: nat -> State)
    requires c.Valid() && seed !in c.known && c.atomicPoll && MaximalRun(c, seed, run) && Universe(c, seed, U)
    requires forall n: nat :: run(n).listening
    ensures exists n: nat ::
      && CompletedNaturally(run(n))
      && (forall p :: p in run(n).tested <==> p in c.known || Reachable(c, seed, p))
      && ReportsMatchTested(c, run(n))
      && run(n).received == |run(n).reports|
  {
    EveryRunEnds(c, seed, U, run);
    var n: nat :| Quiescent(c, run(n)) && run(n).pc.Finished?;
    MaximalRunKeepsInv(c, seed, run, n);
    var prefix := PrefixIsRun(c, seed, run, n);
    assert CompletedNaturally(run(n));
    forall p ensures p in run(n).tested <==> p in c.known || Reachable(c, seed, p) { ExactReachability(c, seed, prefix, p); }
    OneReportPerPeer(c, seed, prefix);
    assert !Enabled(c, run(n), CallerReceives);
  }

  // ---- The select loop's bound ----

  lemma {:induction false} ProducedAtMostTwo(ts: seq<Task>)
    ensures Sum(ts, Produced) <= 2 * |ts|
  {
    if ts != [] { ProducedAtMostTwo(ts[1..]); }
  }

  /** The select acts on at most one message more than twice the number of peers this crawl tested. */
  lemma SelectBound(c: Config, seed: Peer, run: seq<State>, n: nat)
    requires c.Valid() && seed !in c.known && IsRun(c, seed, run) && n < |run|
    ensures Acted(run, n) <= 1 + 2 * |run[n].tested - c.known|
  {
    HandledIsActed(c, seed, run, n);
    RunKeepsInv(c, seed, run, n);
    ProducedAtMostTwo(run[n].tasks);
    DistinctPeersFit(run[n].tasks, run[n].tested - c.known);
  }
}
