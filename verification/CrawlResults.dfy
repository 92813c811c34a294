/** What the results of the tasks say, and that the channels keep to their capacities, in every state of every run. */
module CrawlResults {
  import opened Peers
  import opened CrawlProtocol
  import opened CrawlInvariants

  /** A result tells truly how testing `p` went, as of state `s`. */
  ghost predicate Truthful(c: Config, s: State, p: Peer, result: TaskResult) {
    match result
    case ConnectionFailed => c.net(p).Refused?
    case NoPeersFound => c.net(p).Accepted? && forall q :: c.Taught(p, q) ==> q in s.tested
    case FoundPeers => c.net(p).Accepted? && exists q :: c.Taught(p, q)
    case ChannelClosed => !s.listening || s.pc.Finished?
  }

  ghost predicate OnTrack(c: Config, s: State, t: Task) {
    match t.phase
    case Asking => c.net(t.peer).Accepted?
    case Filtering(found) => c.net(t.peer).Accepted? && found != [] && forall q :: q in found <==> c.Taught(t.peer, q)
    case Sending(batch) => c.net(t.peer).Accepted? && batch != [] && forall q :: q in batch ==> c.Taught(t.peer, q)
    case Finishing(result) => Truthful(c, s, t.peer, result)
    case _ => true
  }

  ghost predicate Kept(c: Config, s: State) {
    && |s.reports| <= s.received + c.reportCapacity
    && (forall i :: 0 <= i < |s.tasks| ==> OnTrack(c, s, s.tasks[i]))
    && (forall k :: 0 <= k < |s.done| ==>
          s.done[k].task < |s.tasks| && Truthful(c, s, s.tasks[s.done[k].task].peer, s.done[k].result))
  }

  /** Tested peers stay tested, and a caller or coordinator that left stays away. */
  ghost predicate Later(s: State, t: State) {
    s.tested <= t.tested && (t.listening ==> s.listening) && (s.pc.Finished? ==> t.pc.Finished?)
  }

  lemma StaysTruthful(c: Config, s: State, t: State, p: Peer, result: TaskResult)
    requires Truthful(c, s, p, result) && Later(s, t)
    ensures Truthful(c, t, p, result)
  {
  }

  lemma StaysOnTrack(c: Config, s: State, t: State, task: Task)
    requires OnTrack(c, s, task) && Later(s, t)
    ensures OnTrack(c, t, task)
  {
  }

  lemma MoveStaysOnTrack(c: Config, s: State, i: nat)
    requires Kept(c, s) && Enabled(c, s, Move(i))
    ensures OnTrack(c, Moved(c, s, i), Moved(c, s, i).tasks[i])
    ensures s.tasks[i].phase.Finishing? ==> Truthful(c, s, s.tasks[i].peer, s.tasks[i].phase.result)
  {
    var t := s.tasks[i];
    assert OnTrack(c, s, t);
    if t.phase.Filtering? {
      UntestedContents(t.phase.found, s.tested);
      assert t.phase.found[0] in t.phase.found;
    } else if t.phase.Sending? {
      assert t.phase.batch[0] in t.phase.batch;
    } else if t.phase.Asking? && c.Teaches(t.peer) == [] {
      assert forall q :: !c.Taught(t.peer, q);
    }
  }

  lemma StepKeeps(c: Config, s: State, a: Action)
    requires Kept(c, s) && Enabled(c, s, a)
    ensures Kept(c, Next(c, s, a))
  {
    var s' := Next(c, s, a);
    assert Later(s, s');
    if a.Move? {
      MovedTasks(c, s, a.task);
      MoveStaysOnTrack(c, s, a.task);
    }
    forall i | 0 <= i < |s'.tasks| ensures OnTrack(c, s', s'.tasks[i]) {
      if i < |s.tasks| && s'.tasks[i] == s.tasks[i] {
        StaysOnTrack(c, s, s', s.tasks[i]);
      }
    }
    forall k | 0 <= k < |s'.done|
      ensures s'.done[k].task < |s'.tasks| && Truthful(c, s', s'.tasks[s'.done[k].task].peer, s'.done[k].result)
    {
      var d := s'.done[k];
      assert d in s.done || (a.Move? && d.task == a.task && s.tasks[a.task].phase == Finishing(d.result));
      StaysTruthful(c, s, s', s.tasks[d.task].peer, d.result);
    }
  }

  /**
   In every state of every run, every result a task has returned and every completion the coordinator
   has yet to take is truthful, and the channel of reports never holds more than its capacity.
   */
  lemma {:induction false} ResultsAreTruthful(c: Config, seed: Peer, run: seq<State>, n: nat)
    requires IsRun(c, seed, run) && n < |run|
    ensures Kept(c, run[n])
  {
    if n > 0 {
      ResultsAreTruthful(c, seed, run, n - 1);
      assert Step(c, run[n - 1], run[n - 1 + 1]);
      var a :| Enabled(c, run[n - 1], a) && run[n] == Next(c, run[n - 1], a);
      StepKeeps(c, run[n - 1], a);
    }
  }
}
