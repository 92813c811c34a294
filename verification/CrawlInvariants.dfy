/** What every step of the crawl session keeps. */
module CrawlInvariants {
  import opened Peers
  import opened CrawlProtocol

  // ---- Counting over the spawned tasks ----

  function Sum(ts: seq<Task>, w: Phase -> nat): nat {
    if ts == [] then 0 else w(ts[0].phase) + Sum(ts[1..], w)
  }

  lemma {:induction false} SumAppend(ts: seq<Task>, t: Task, w: Phase -> nat)
    ensures Sum(ts + [t], w) == Sum(ts, w) + w(t.phase)
  {
    if ts == [] {
      assert Sum([t], w) == w(t.phase) + Sum([], w);
      assert ts + [t] == [t];
    } else {
      SumAppend(ts[1..], t, w);
      assert (ts + [t])[1..] == ts[1..] + [t];
    }
  }

  lemma {:induction false} SumUpdate(ts: seq<Task>, i: nat, t: Task, w: Phase -> nat)
    requires i < |ts|
    ensures Sum(ts[i := t], w) + w(ts[i].phase) == Sum(ts, w) + w(t.phase)
  {
    if i == 0 {
      assert ts[0 := t][1..] == ts[1..];
    } else {
      SumUpdate(ts[1..], i - 1, t, w);
      assert ts[i := t][1..] == ts[1..][i - 1 := t];
    }
  }

  lemma {:induction false} SumPositive(ts: seq<Task>, w: Phase -> nat)
    requires Sum(ts, w) > 0
    ensures exists i :: 0 <= i < |ts| && w(ts[i].phase) > 0
  {
    if w(ts[0].phase) == 0 {
      SumPositive(ts[1..], w);
      var i :| 0 <= i < |ts[1..]| && w(ts[1..][i].phase) > 0;
      assert ts[i + 1] == ts[1..][i];
    }
  }

  lemma {:induction false} SumAtLeast(ts: seq<Task>, i: nat, w: Phase -> nat)
    requires i < |ts|
    ensures Sum(ts, w) >= w(ts[i].phase)
  {
    if i > 0 {
      SumAtLeast(ts[1..], i - 1, w);
    }
  }

  /** 1 for a task whose completion is still to be sent. */
  function Live(ph: Phase): nat { if ph == Done then 0 else 1 }

  /** How many messages for the select a task has produced at most. */
  function Produced(ph: Phase): nat {
    match ph
    case Finishing(_) => 1
    case Panicked => 1
    case Done => 2
    case _ => 0
  }

  predicate Returned(ph: Phase) { ph.Finishing? || ph.Done? || ph.Panicked? }

  // ---- The invariant ----

  ghost predicate Spawned(s: State, p: Peer) {
    exists i :: 0 <= i < |s.tasks| && s.tasks[i].peer == p
  }

  /** Every peer tested in this crawl has exactly one task, or is the one waiting for capacity. */
  ghost predicate OneTaskPerPeer(c: Config, s: State) {
    && (forall i, j :: 0 <= i < j < |s.tasks| ==> s.tasks[i].peer != s.tasks[j].peer)
    && c.known <= s.tested
    && (forall i :: 0 <= i < |s.tasks| ==> s.tasks[i].peer in s.tested - c.known)
    && (forall p :: p in s.tested - c.known ==> Spawned(s, p) || (s.pc.AtCapacity? && s.pc.peer == p))
    && (s.pc.AtCapacity? ==> s.pc.peer in s.tested - c.known && !Spawned(s, s.pc.peer))
  }

  /** The counter is exact and the completion channel never overflows. */
  ghost predicate Accounted(c: Config, s: State) {
    && s.active == Sum(s.tasks, Live) + |s.done|
    && s.active <= c.maxTasks
  }

  ghost predicate CompletionsFromDoneTasks(s: State) {
    && (forall k :: 0 <= k < |s.done| ==> s.done[k].task < |s.tasks| && s.tasks[s.done[k].task].phase == Done)
    && (forall k, l :: 0 <= k < l < |s.done| ==> s.done[k].task != s.done[l].task)
  }

  ghost predicate BatchesFromReturnedTasks(s: State) {
    && (forall k :: 0 <= k < |s.discovery| && s.discovery[k].SentBy? ==>
         s.discovery[k].task < |s.tasks| && Returned(s.tasks[s.discovery[k].task].phase))
    && (forall k, l :: 0 <= k < l < |s.discovery| && s.discovery[k].SentBy? && s.discovery[l].SentBy? ==>
         s.discovery[k].task != s.discovery[l].task)
  }

  ghost predicate Fresh(c: Config, s: State) { s.tasks == [] && s.tested == c.known }

  /** At the select some work is in flight, or the seed is still queued. */
  ghost predicate WorkInFlight(c: Config, seed: Peer, s: State) {
    match s.pc
    case LoopHead => s.active > 0 || (Fresh(c, s) && s.discovery == [Seed([seed])])
    case AtSelect => s.active > 0 || (Fresh(c, s) && s.discovery == [Seed([seed])])
    case Polled => s.active > 0
    case Parked => s.active > 0
    case InBatch(rest) => s.active > 0 || (Fresh(c, s) && rest == [seed])
    case AtCapacity(_, _) => true
    case Finished(Natural(last)) => s.active == 0 && last < |s.tasks|
    case Finished(HungUp) => !s.listening
  }

  ghost predicate CompletionQueued(s: State, task: nat) {
    exists k :: 0 <= k < |s.done| && s.done[k].task == task
  }

  /** A batch that arrived after the discovery poll still has its completion ahead of the coordinator. */
  ghost predicate PollRace(c: Config, s: State) {
    && (s.pc.Polled? || s.pc.Parked? ==> !c.atomicPoll)
    && (s.pc.Polled? ==>
         forall k :: 0 <= k < |s.discovery| ==>
           && s.discovery[k].SentBy?
           && s.discovery[k].task < |s.tasks|
           && (s.tasks[s.discovery[k].task].phase.Finishing? || CompletionQueued(s, s.discovery[k].task)))
    && (s.pc.Finished? && s.pc.outcome.Natural? ==>
         if c.atomicPoll then s.discovery == []
         else s.discovery == [] || (|s.discovery| == 1 && s.discovery[0].SentBy? && s.discovery[0].task == s.pc.outcome.last))
    && (forall i :: 0 <= i < |s.tasks| && s.tasks[i].phase == Panicked ==> s.pc == Finished(HungUp))
  }

  /** `q` is tested, or the coordinator has not looked at it yet. */
  ghost predicate Noted(s: State, q: Peer) {
    || q in s.tested
    || q in s.pc.Rest()
    || exists k :: 0 <= k < |s.discovery| && q in s.discovery[k].peers
  }

  ghost predicate TaskCovers(c: Config, s: State, t: Task) {
    match t.phase
    case Connecting => true
    case Reporting => true
    case Asking => true
    case Filtering(found) => found == c.Teaches(t.peer)
    case Sending(batch) => forall q :: c.Taught(t.peer, q) ==> q in s.tested || q in batch
    case Finishing(_) => forall q :: c.Taught(t.peer, q) ==> Noted(s, q)
    case Done => forall q :: c.Taught(t.peer, q) ==> Noted(s, q)
    case Panicked => forall q :: c.Taught(t.peer, q) ==> Noted(s, q)
  }

  /** While the caller listens nothing a task learned is lost. */
  ghost predicate NothingLost(c: Config, seed: Peer, s: State) {
    && (seed in s.tested || Fresh(c, s))
    && (s.listening ==> forall i :: 0 <= i < |s.tasks| ==> TaskCovers(c, s, s.tasks[i]))
  }

  ghost predicate AllReachable(c: Config, seed: Peer, ps: seq<Peer>) {
    forall q :: q in ps ==> q in c.known || Reachable(c, seed, q)
  }

  /** Nothing new is tested, queued or carried by a task that the seed does not lead to. */
  ghost predicate NothingInvented(c: Config, seed: Peer, s: State) {
    && (forall q :: q in s.tested ==> q in c.known || Reachable(c, seed, q))
    && AllReachable(c, seed, s.pc.Rest())
    && (forall k :: 0 <= k < |s.discovery| ==> AllReachable(c, seed, s.discovery[k].peers))
    && (forall i :: 0 <= i < |s.tasks| && s.tasks[i].phase.Filtering? ==> AllReachable(c, seed, s.tasks[i].phase.found))
    && (forall i :: 0 <= i < |s.tasks| && s.tasks[i].phase.Sending? ==> AllReachable(c, seed, s.tasks[i].phase.batch))
  }

  predicate BeforeReport(ph: Phase) { ph.Connecting? || ph.Reporting? }

  ghost predicate Reported(s: State, i: nat) {
    exists k :: 0 <= k < |s.reports| && s.reports[k].task == i
  }

  /** Each task reports its own peer, once. */
  ghost predicate OneReportPerTask(c: Config, s: State) {
    && s.received <= |s.reports|
    && (forall k, l :: 0 <= k < l < |s.reports| ==> s.reports[k].task != s.reports[l].task)
    && (forall k :: 0 <= k < |s.reports| ==>
         && s.reports[k].task < |s.tasks|
         && !BeforeReport(s.tasks[s.reports[k].task].phase)
         && c.Describes(s.tasks[s.reports[k].task].peer, s.reports[k].message))
    && (s.listening ==> forall i :: 0 <= i < |s.tasks| && !BeforeReport(s.tasks[i].phase) ==> Reported(s, i))
  }

  ghost predicate EventsBounded(s: State) {
    s.handled + |s.discovery| + |s.done| <= 1 + Sum(s.tasks, Produced)
  }

  ghost predicate Inv(c: Config, seed: Peer, s: State) {
    && seed !in c.known
    && OneTaskPerPeer(c, s)
    && Accounted(c, s)
    && CompletionsFromDoneTasks(s)
    && BatchesFromReturnedTasks(s)
    && WorkInFlight(c, seed, s)
    && PollRace(c, s)
    && NothingLost(c, seed, s)
    && NothingInvented(c, seed, s)
    && OneReportPerTask(c, s)
    && EventsBounded(s)
  }

  lemma InitInv(c: Config, seed: Peer)
    requires c.Valid() && seed !in c.known
    ensures Inv(c, seed, Init(c, seed))
  {
    ReachableSelf(c, seed);
    var s := Init(c, seed);
    assert seed in s.discovery[0].peers;
  }

  // ---- Preservation, one clause at a time ----

  lemma MovedTasks(c: Config, s: State, i: nat)
    requires i < |s.tasks| && MoveEnabled(c, s, i)
    ensures var s' := Moved(c, s, i);
      && s'.tasks == s.tasks[i := Task(s.tasks[i].peer, NextPhase(c, s, s.tasks[i]))]
      && s'.pc == s.pc && s'.active == s.active && s'.tested == s.tested
      && s'.listening == s.listening && s'.handled == s.handled && s'.received == s.received
  {
  }

  lemma KeepsOneTaskPerPeer(c: Config, s: State, a: Action)
    requires OneTaskPerPeer(c, s) && Enabled(c, s, a)
    ensures OneTaskPerPeer(c, Next(c, s, a))
  {
    if a.Move? {
      MoveKeepsOneTaskPerPeer(c, s, a.task);
    } else if a.Spawn? {
      SpawnKeepsOneTaskPerPeer(c, s);
    } else {
      var s' := Next(c, s, a);
      assert s'.tasks == s.tasks;
      assert forall p :: Spawned(s, p) <==> Spawned(s', p);
    }
  }

  lemma MoveKeepsOneTaskPerPeer(c: Config, s: State, i: nat)
    requires OneTaskPerPeer(c, s) && Enabled(c, s, Move(i))
    ensures OneTaskPerPeer(c, Moved(c, s, i))
  {
    var s' := Moved(c, s, i);
    MovedTasks(c, s, i);
    assert forall j :: 0 <= j < |s.tasks| ==> s'.tasks[j].peer == s.tasks[j].peer;
    forall p ensures Spawned(s, p) <==> Spawned(s', p) {
      if Spawned(s, p) { var j :| 0 <= j < |s.tasks| && s.tasks[j].peer == p; assert s'.tasks[j].peer == p; }
    }
  }

  lemma SpawnKeepsOneTaskPerPeer(c: Config, s: State)
    requires OneTaskPerPeer(c, s) && Enabled(c, s, Spawn)
    ensures OneTaskPerPeer(c, Next(c, s, Spawn))
  {
    var s' := Next(c, s, Spawn);
    var n := |s.tasks|;
    forall p ensures Spawned(s', p) <==> Spawned(s, p) || p == s.pc.peer {
      if Spawned(s, p) { var j :| 0 <= j < n && s.tasks[j].peer == p; assert s'.tasks[j].peer == p; }
      assert s'.tasks[n].peer == s.pc.peer;
    }
    forall j | 0 <= j < n ensures s.tasks[j].peer != s.pc.peer { assert !Spawned(s, s.pc.peer); }
  }

  lemma KeepsAccounted(c: Config, s: State, a: Action)
    requires Accounted(c, s) && Enabled(c, s, a) && c.Valid()
    ensures Accounted(c, Next(c, s, a))
  {
    match a
    case Move(i) =>
      MovedTasks(c, s, i);
      SumUpdate(s.tasks, i, Task(s.tasks[i].peer, NextPhase(c, s, s.tasks[i])), Live);
    case Spawn => SumAppend(s.tasks, Task(s.pc.peer, Connecting), Live);
    case _ =>
  }

  lemma KeepsCompletions(c: Config, s: State, a: Action)
    requires CompletionsFromDoneTasks(s) && Enabled(c, s, a)
    ensures CompletionsFromDoneTasks(Next(c, s, a))
  {
    match a
    case Move(i) => MoveKeepsQueues(c, s, i);
    case _ =>
  }

  lemma KeepsBatches(c: Config, s: State, a: Action)
    requires BatchesFromReturnedTasks(s) && Enabled(c, s, a)
    ensures BatchesFromReturnedTasks(Next(c, s, a))
  {
    match a
    case Move(i) => MoveKeepsQueues(c, s, i);
    case TakeBatch =>
      var s' := Next(c, s, a);
      assert forall k :: 0 <= k < |s'.discovery| ==> s'.discovery[k] == s.discovery[k + 1];
    case _ =>
  }

  lemma MoveKeepsQueues(c: Config, s: State, i: nat)
    requires Enabled(c, s, Move(i))
    ensures CompletionsFromDoneTasks(s) ==> CompletionsFromDoneTasks(Moved(c, s, i))
    ensures BatchesFromReturnedTasks(s) ==> BatchesFromReturnedTasks(Moved(c, s, i))
  {
    var s' := Moved(c, s, i);
    MovedTasks(c, s, i);
    assert forall k :: 0 <= k < |s.done| ==> s'.done[k] == s.done[k];
    assert forall k :: 0 <= k < |s.discovery| ==> s'.discovery[k] == s.discovery[k];
    assert |s'.done| > |s.done| ==> s.tasks[i].phase.Finishing? && s'.tasks[i].phase.Done?;
    assert |s'.discovery| > |s.discovery| ==> s.tasks[i].phase.Sending? && s'.tasks[i].phase.Finishing?;
  }

  lemma KeepsWorkInFlight(c: Config, seed: Peer, s: State, a: Action)
    requires seed !in c.known
    requires Accounted(c, s) && CompletionsFromDoneTasks(s) && WorkInFlight(c, seed, s) && Enabled(c, s, a)
    ensures WorkInFlight(c, seed, Next(c, s, a))
  {
    match a
    case Move(i) => MovedTasks(c, s, i); SumAtLeast(s.tasks, i, Live);
    case _ =>
  }

  /** What the poll race depends on, apart from itself. */
  ghost predicate RaceContext(c: Config, seed: Peer, s: State) {
    Accounted(c, s) && CompletionsFromDoneTasks(s) && BatchesFromReturnedTasks(s) && WorkInFlight(c, seed, s)
  }

  lemma KeepsPollRace(c: Config, seed: Peer, s: State, a: Action)
    requires RaceContext(c, seed, s) && PollRace(c, s) && Enabled(c, s, a) && c.Valid()
    ensures PollRace(c, Next(c, s, a))
  {
    match a
    case Move(i) => MovePollRace(c, seed, s, i);
    case TakeDone => TakeDonePollRace(c, seed, s);
    case _ =>
      var s' := Next(c, s, a);
      assert s'.pc.Polled? ==> s'.discovery == [] || s'.pc == s.pc;
      assert s'.pc.Polled? ==> s'.done == s.done && s'.tasks == s.tasks;
      assert s'.done == s.done ==> forall j :: CompletionQueued(s, j) ==> CompletionQueued(s', j);
  }

  lemma TakeDonePollRace(c: Config, seed: Peer, s: State)
    requires RaceContext(c, seed, s) && PollRace(c, s) && Enabled(c, s, TakeDone)
    ensures PollRace(c, Next(c, s, TakeDone))
  {
    if s.active == 1 && !c.atomicPoll {
      assert |s.discovery| > 1 ==> s.discovery[0].task != s.discovery[1].task;
      // The only completion queued is the one taken, and no task is live.
      forall k | 0 <= k < |s.discovery| ensures s.discovery[k].task == s.done[0].task {
        SumAtLeast(s.tasks, s.discovery[k].task, Live);
      }
    }
  }

  lemma MovePollRace(c: Config, seed: Peer, s: State, i: nat)
    requires RaceContext(c, seed, s) && PollRace(c, s) && Enabled(c, s, Move(i))
    ensures PollRace(c, Moved(c, s, i))
  {
    var s' := Moved(c, s, i);
    MovedTasks(c, s, i);
    SumAtLeast(s.tasks, i, Live);
    assert s.pc.Finished? ==> s.pc.outcome == HungUp;
    if s.pc.Polled? {
      forall k | 0 <= k < |s'.discovery|
        ensures s'.discovery[k].SentBy? && s'.discovery[k].task < |s'.tasks|
        ensures s'.tasks[s'.discovery[k].task].phase.Finishing? || CompletionQueued(s', s'.discovery[k].task)
      {
        MoveKeepsRacer(c, s, i, k);
      }
    }
  }

  lemma MoveKeepsRacer(c: Config, s: State, i: nat, k: nat)
    requires PollRace(c, s) && Enabled(c, s, Move(i)) && s.pc.Polled?
    requires k < |Moved(c, s, i).discovery|
    ensures var s' := Moved(c, s, i);
      && s'.discovery[k].SentBy? && s'.discovery[k].task < |s'.tasks|
      && (s'.tasks[s'.discovery[k].task].phase.Finishing? || CompletionQueued(s', s'.discovery[k].task))
  {
    var s' := Moved(c, s, i);
    if k < |s.discovery| {
      assert s'.discovery[k] == s.discovery[k];
      var j := s.discovery[k].task;
      if CompletionQueued(s, j) {
        var l :| 0 <= l < |s.done| && s.done[l].task == j;
        assert s'.done[l].task == j;
      } else if j == i {
        assert s'.done[|s.done|].task == i;
      }
    }
  }

  lemma NotedStays(c: Config, s: State, a: Action, q: Peer)
    requires Enabled(c, s, a) && Noted(s, q)
    requires s.pc.Finished? ==> !a.TakeBatch?
    ensures Noted(Next(c, s, a), q)
  {
    var s' := Next(c, s, a);
    if q in s.tested || q in s.pc.Rest() {
    } else {
      var k :| 0 <= k < |s.discovery| && q in s.discovery[k].peers;
      if a.TakeBatch? {
        if k > 0 { assert s'.discovery[k - 1] == s.discovery[k]; }
      } else {
        assert s'.discovery[k] == s.discovery[k];
      }
    }
  }

  lemma KeepsSeed(c: Config, seed: Peer, s: State, a: Action)
    requires OneTaskPerPeer(c, s) && Accounted(c, s) && CompletionsFromDoneTasks(s) && WorkInFlight(c, seed, s)
    requires (seed in s.tested || Fresh(c, s)) && Enabled(c, s, a)
    ensures var s' := Next(c, s, a); seed in s'.tested || Fresh(c, s')
  {
    assert s.done != [] ==> s.done[0].task < |s.tasks|;
  }

  lemma KeepsNothingLost(c: Config, seed: Peer, s: State, a: Action)
    requires OneTaskPerPeer(c, s) && Accounted(c, s) && CompletionsFromDoneTasks(s) && WorkInFlight(c, seed, s)
    requires NothingLost(c, seed, s) && Enabled(c, s, a)
    ensures NothingLost(c, seed, Next(c, s, a))
  {
    var s' := Next(c, s, a);
    KeepsSeed(c, seed, s, a);
    if s'.listening {
      forall j | 0 <= j < |s'.tasks| ensures TaskCovers(c, s', s'.tasks[j]) {
        if j < |s.tasks| && s'.tasks[j] == s.tasks[j] {
          assert TaskCovers(c, s, s.tasks[j]);
          forall q | c.Taught(s.tasks[j].peer, q) && Noted(s, q) ensures Noted(s', q) { NotedStays(c, s, a, q); }
        } else if a.Move? {
          MovedTasks(c, s, a.task);
          MoveCovers(c, seed, s, a.task);
        }
      }
    }
  }

  lemma MoveCovers(c: Config, seed: Peer, s: State, i: nat)
    requires Accounted(c, s) && WorkInFlight(c, seed, s) && NothingLost(c, seed, s)
    requires Enabled(c, s, Move(i)) && s.listening
    ensures TaskCovers(c, Moved(c, s, i), Moved(c, s, i).tasks[i])
  {
    var s' := Moved(c, s, i);
    var t := s.tasks[i];
    MovedTasks(c, s, i);
    assert TaskCovers(c, s, t);
    match t.phase
    case Filtering(found) => UntestedContents(found, s.tested);
    case Sending(batch) =>
      if !s.pc.Finished? { assert s'.discovery[|s.discovery|].peers == batch; }
      else { SumAtLeast(s.tasks, i, Live); }
    case Finishing(_) =>
      forall q | c.Taught(t.peer, q) ensures Noted(s', q) { NotedStays(c, s, Move(i), q); }
    case _ =>
  }

  lemma KeepsNothingInvented(c: Config, seed: Peer, s: State, a: Action)
    requires OneTaskPerPeer(c, s) && NothingInvented(c, seed, s) && Enabled(c, s, a)
    ensures NothingInvented(c, seed, Next(c, s, a))
  {
    if a.Move? {
      MoveKeepsNothingInvented(c, seed, s, a.task);
    } else {
      CoordinatorInventsNothing(c, seed, s, Next(c, s, a));
    }
  }

  /** A step that only moves peers forward, from the queue to the batch in hand to the tested set. */
  lemma CoordinatorInventsNothing(c: Config, seed: Peer, s: State, s': State)
    requires NothingInvented(c, seed, s)
    requires s'.discovery == s.discovery || (s.discovery != [] && s'.discovery == s.discovery[1..])
    requires forall q :: q in s'.pc.Rest() ==> q in s.pc.Rest() || (s.discovery != [] && q in s.discovery[0].peers)
    requires forall q :: q in s'.tested ==> q in s.tested || q in s.pc.Rest()
    requires s'.tasks == s.tasks || exists p :: s'.tasks == s.tasks + [Task(p, Connecting)]
    ensures NothingInvented(c, seed, s')
  {
    assert forall k :: 0 <= k < |s'.discovery| ==> s'.discovery[k] in s.discovery;
    assert forall i :: 0 <= i < |s'.tasks| ==> (i < |s.tasks| && s'.tasks[i] == s.tasks[i]) || s'.tasks[i].phase.Connecting?;
  }

  lemma MoveKeepsNothingInvented(c: Config, seed: Peer, s: State, i: nat)
    requires OneTaskPerPeer(c, s) && NothingInvented(c, seed, s) && Enabled(c, s, Move(i))
    ensures NothingInvented(c, seed, Moved(c, s, i))
  {
    MovedTasks(c, s, i);
    var t := s.tasks[i];
    forall q | c.Taught(t.peer, q) && q !in c.known ensures Reachable(c, seed, q) {
      ReachableExtend(c, seed, t.peer, q);
    }
    if t.phase.Filtering? { UntestedContents(t.phase.found, s.tested); }
  }

  lemma KeepsOneReport(c: Config, s: State, a: Action)
    requires OneReportPerTask(c, s) && Enabled(c, s, a)
    ensures OneReportPerTask(c, Next(c, s, a))
  {
    if a.Move? {
      MoveKeepsOneReport(c, s, a.task);
    } else {
      QuietStepKeepsOneReport(c, s, Next(c, s, a));
    }
  }

  /** A step that sends no report and moves no task. */
  lemma QuietStepKeepsOneReport(c: Config, s: State, s': State)
    requires OneReportPerTask(c, s)
    requires s'.reports == s.reports && s'.received <= |s.reports| && (s'.listening ==> s.listening)
    requires s'.tasks == s.tasks || exists p :: s'.tasks == s.tasks + [Task(p, Connecting)]
    ensures OneReportPerTask(c, s')
  {
    assert forall i :: Reported(s, i) ==> Reported(s', i);
    assert forall i :: 0 <= i < |s'.tasks| ==> (i < |s.tasks| && s'.tasks[i] == s.tasks[i]) || s'.tasks[i].phase.Connecting?;
  }

  lemma MoveKeepsOneReport(c: Config, s: State, i: nat)
    requires OneReportPerTask(c, s) && Enabled(c, s, Move(i))
    ensures OneReportPerTask(c, Moved(c, s, i))
  {
    var s' := Moved(c, s, i);
    var n := |s.reports|;
    MovedTasks(c, s, i);
    assert forall k :: 0 <= k < n ==> s'.reports[k] == s.reports[k];
    assert |s'.reports| > n ==> BeforeReport(s.tasks[i].phase) && s'.reports[n] == Report(i, c.ReportFor(s.tasks[i].peer));
    forall j | s.listening && 0 <= j < |s.tasks| && !BeforeReport(s'.tasks[j].phase) ensures Reported(s', j) {
      if j == i && s.tasks[i].phase.Reporting? {
        assert s'.reports[n].task == i;
      } else {
        var k :| 0 <= k < n && s.reports[k].task == j;
        assert s'.reports[k].task == j;
      }
    }
  }

  lemma KeepsEventsBounded(c: Config, s: State, a: Action)
    requires EventsBounded(s) && Enabled(c, s, a)
    ensures EventsBounded(Next(c, s, a))
  {
    match a
    case Move(i) =>
      MovedTasks(c, s, i);
      SumUpdate(s.tasks, i, Task(s.tasks[i].peer, NextPhase(c, s, s.tasks[i])), Produced);
    case Spawn => SumAppend(s.tasks, Task(s.pc.peer, Connecting), Produced);
    case _ =>
  }

  lemma StepKeepsInv(c: Config, seed: Peer, s: State, a: Action)
    requires c.Valid() && Inv(c, seed, s) && Enabled(c, s, a)
    ensures Inv(c, seed, Next(c, s, a))
  {
    KeepsOneTaskPerPeer(c, s, a);
    KeepsAccounted(c, s, a);
    KeepsCompletions(c, s, a);
    KeepsBatches(c, s, a);
    KeepsWorkInFlight(c, seed, s, a);
    KeepsPollRace(c, seed, s, a);
    KeepsNothingLost(c, seed, s, a);
    KeepsNothingInvented(c, seed, s, a);
    KeepsOneReport(c, s, a);
    KeepsEventsBounded(c, s, a);
  }

  lemma {:induction false} RunKeepsInv(c: Config, seed: Peer, run: seq<State>, n: nat)
    requires c.Valid() && seed !in c.known && IsRun(c, seed, run) && n < |run|
    ensures Inv(c, seed, run[n])
  {
    if n == 0 {
      InitInv(c, seed);
    } else {
      RunKeepsInv(c, seed, run, n - 1);
      assert Step(c, run[n - 1], run[n - 1 + 1]);
      var a :| Enabled(c, run[n - 1], a) && run[n] == Next(c, run[n - 1], a);
      StepKeepsInv(c, seed, run[n - 1], a);
    }
  }
}
