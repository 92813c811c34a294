/**
 The session as the program writes it: shared fields updated in place, the coordinator a loop.

 Wherever the program awaits or another thread may run, the methods below let any number of steps of
 the tasks and of the caller happen, chosen arbitrarily. Each update of the fields is shown to be a step of
 `CrawlProtocol`, so the loop inherits its invariant, its termination measure and its result.
 */
module CrawlSessions {
  import opened Options
  import opened Peers
  import opened Selections
  import opened CrawlProtocol
  import opened CrawlInvariants
  import opened CrawlTheorems
  import opened CrawlTermination

  lemma {:induction false} UntestedAppend(ps: seq<Peer>, p: Peer, tested: set<Peer>)
    ensures Untested(ps + [p], tested) == Untested(ps, tested) + if p in tested then [] else [p]
  {
    if ps == [] {
      assert ps + [p] == [p];
    } else {
      UntestedAppend(ps[1..], p, tested);
      assert (ps + [p])[1..] == ps[1..] + [p];
    }
  }

  lemma {:induction false} UntestedSelects(ps: seq<Peer>, tested: set<Peer>)
    ensures Selects(ps, (set i: nat | i < |ps| && ps[i] !in tested), Untested(ps, tested))
  {
    var positions := set i: nat | i < |ps| && ps[i] !in tested;
    if ps == [] {
      SelectsNothing(ps);
      assert positions == {};
    } else {
      var n := |ps| - 1;
      var front, last := ps[..n], ps[n];
      UntestedSelects(front, tested);
      UntestedAppend(front, last, tested);
      var before := set i: nat | i < |front| && front[i] !in tested;
      SelectsLast(front, before, Untested(front, tested), last);
      assert ps == front + [last];
      assert positions == if last in tested then before else before + {n};
    }
  }

  /** `t` comes after `s`: the same state, or one further down the termination measure. */
  ghost predicate After(t: State, s: State) { t == s || Below(t, s) }

  /** `s` is the last state of a run of the protocol from a fresh session. */
  ghost predicate Reached(c: Config, seed: Peer, s: State) {
    exists run :: IsRun(c, seed, run) && run[|run| - 1] == s
  }

  lemma ReachedInit(c: Config, seed: Peer)
    ensures Reached(c, seed, Init(c, seed))
  {
    var run := [Init(c, seed)];
    assert IsRun(c, seed, run) && run[|run| - 1] == Init(c, seed);
  }

  lemma ReachedInv(c: Config, seed: Peer, s: State)
    requires c.Valid() && seed !in c.known && Reached(c, seed, s)
    ensures Inv(c, seed, s)
  {
    var run :| IsRun(c, seed, run) && run[|run| - 1] == s;
    RunKeepsInv(c, seed, run, |run| - 1);
  }

  lemma ReachedBounds(c: Config, seed: Peer, U: set<Peer>, s: State)
    requires c.Valid() && seed !in c.known && Universe(c, seed, U) && Reached(c, seed, s)
    ensures |s.tasks| <= |U| && 0 <= Queued(s)
  {
    ReachedInv(c, seed, s);
    TasksFitUniverse(c, seed, U, s);
  }

  lemma ReachedStep(c: Config, seed: Peer, U: set<Peer>, s: State, a: Action)
    requires c.Valid() && seed !in c.known && Universe(c, seed, U) && Reached(c, seed, s) && Enabled(c, s, a)
    ensures var t := Next(c, s, a);
      Reached(c, seed, t) && Below(t, s) && |s.tasks| <= |U| && |t.tasks| <= |U| && 0 <= Queued(t)
  {
    var t := Next(c, s, a);
    var run :| IsRun(c, seed, run) && run[|run| - 1] == s;
    assert Step(c, s, t);
    assert IsRun(c, seed, run + [t]) && (run + [t])[|run + [t]| - 1] == t;
    StepDescends(c, s, a);
    ReachedBounds(c, seed, U, s);
    ReachedBounds(c, seed, U, t);
  }

  /** Whenever the coordinator waits, somebody else can take a step. */
  lemma WaitIsNotInVain(c: Config, seed: Peer, s: State) returns (a: Action)
    requires c.Valid() && seed !in c.known && Reached(c, seed, s) && s.done == []
    requires ((s.pc.AtSelect? || s.pc.Parked?) && s.discovery == []) || (s.pc.AtCapacity? && s.active >= c.maxTasks)
    ensures Enabled(c, s, a) && (a.Move? || a.CallerReceives?)
  {
    ReachedInv(c, seed, s);
    a := LiveTaskCanMove(c, seed, s);
  }

  class CrawlSession {
    const config: Config
    var tested: set<Peer>
    var discovery: seq<Batch>
    var done: seq<Completion>
    var tasks: seq<Task>
    var reports: seq<Report>
    var received: nat
    var listening: bool
    var receiving: bool           // the coordinator still holds the receiving ends of its channels

    /** A session as it stands before a crawl, with what it has tested so far: nothing if it is new. */
    constructor (config: Config)
      ensures this.config == config && Untouched() && listening
    {
      this.config := config;
      tested, discovery, done, tasks := config.known, [], [], [];
      reports, received, listening, receiving := [], 0, true, true;
    }

    ghost predicate Untouched()
      reads this
    {
      && tested == config.known && discovery == [] && done == [] && tasks == []
      && reports == [] && received == 0 && receiving
    }

    ghost function At(pc: Pc, active: int, handled: nat): State
      reads this
    {
      State(pc, active, tested, discovery, done, tasks, reports, received, listening, handled)
    }

    // ---- The tasks and the caller ----

    /** The filter of a task: the discovered peers that are not tested yet, in order. */
    method FilterUntested(found: seq<Peer>) returns (kept: seq<Peer>)
      ensures kept == Untested(found, tested)
      ensures forall q :: q in kept <==> q in found && q !in tested
      ensures Selects(found, (set i: nat | i < |found| && found[i] !in tested), kept)
    {
      kept := [];
      for k := 0 to |found|
        invariant kept == Untested(found[..k], tested)
      {
        assert found[..k + 1] == found[..k] + [found[k]];
        UntestedAppend(found[..k], found[k], tested);
        if found[k] !in tested {
          kept := kept + [found[k]];
        }
      }
      assert found[..|found|] == found;
      UntestedContents(found, tested);
      UntestedSelects(found, tested);
    }

    predicate CanMove(i: nat)
      requires i < |tasks|
      reads this
    {
      match tasks[i].phase
      case Reporting => !listening || |reports| < received + config.reportCapacity
      case Finishing(_) => !receiving || |done| < config.maxTasks
      case Done => false
      case Panicked => false
      case _ => true
    }

    /** Tells the caller how connecting to `peer` went. */
    method SendReport(i: nat, peer: Peer) returns (phase: Phase)
      modifies this`reports
      ensures reports == old(reports) + [Report(i, config.ReportFor(peer))]
      ensures config.Describes(peer, reports[|old(reports)|].message)
      ensures phase == if config.net(peer).Refused? then Finishing(ConnectionFailed) else Asking
    {
      match config.net(peer) {
        case Refused =>
          reports := reports + [Report(i, NonListening(peer))];
          phase := Finishing(ConnectionFailed);
        case Accepted(flags, version, _) =>
          reports := reports + [Report(i, Listening(peer.(services := KnownServices(flags), version := KnownVersion(version))))];
          phase := Asking;
      }
    }

    /** Asks `peer` for addresses; a failed request counts as an empty answer. */
    method AskForPeers(peer: Peer) returns (phase: Phase)
      ensures phase == if config.Teaches(peer) == [] then Finishing(NoPeersFound) else Filtering(config.Teaches(peer))
      ensures forall q :: config.Taught(peer, q) <==> phase.Filtering? && q in phase.found
    {
      match config.net(peer) {
        case Accepted(_, _, Learned(found)) => phase := if found == [] then Finishing(NoPeersFound) else Filtering(found);
        case _ => phase := Finishing(NoPeersFound);
      }
    }

    /** One step of `process`, and of the send of its result. */
    method RunTask(i: nat, ghost pc: Pc, ghost active: int, ghost handled: nat)
      requires i < |tasks| && CanMove(i) && (pc.Finished? <==> !receiving)
      modifies this`tasks, this`discovery, this`done, this`reports
      ensures Enabled(config, old(At(pc, active, handled)), Move(i))
      ensures At(pc, active, handled) == Next(config, old(At(pc, active, handled)), Move(i))
      ensures old(tasks[i].phase).Reporting? && listening ==>
        && |reports| == |old(reports)| + 1 && old(reports) <= reports
        && reports[|old(reports)|].task == i && config.Describes(old(tasks[i].peer), reports[|old(reports)|].message)
      ensures old(tasks[i].phase).Asking? ==>
        |tasks| == |old(tasks)| && forall q :: config.Taught(old(tasks[i].peer), q) <==> tasks[i].phase.Filtering? && q in tasks[i].phase.found
      ensures old(tasks[i].phase).Filtering? && config.filtering ==>
        |tasks| == |old(tasks)| && (tasks[i].phase.Sending? ==> forall q :: q in tasks[i].phase.batch ==> q !in tested)
    {
      ghost var s := At(pc, active, handled);
      var peer := tasks[i].peer;
      var phase: Phase;
      match tasks[i].phase {
        case Connecting =>
          phase := Reporting;
        case Reporting =>
          if !listening {
            phase := Finishing(ChannelClosed);
          } else {
            phase := SendReport(i, peer);
          }
        case Asking =>
          phase := AskForPeers(peer);
        case Filtering(found) =>
          var kept := found;
          if config.filtering {
            kept := FilterUntested(found);
          }
          phase := if kept == [] then Finishing(NoPeersFound) else Sending(kept);
        case Sending(batch) =>
          if receiving {
            discovery := discovery + [SentBy(i, batch)];
            phase := Finishing(FoundPeers);
          } else {
            phase := Finishing(ChannelClosed);
          }
        case Finishing(result) =>
          if receiving {
            done := done + [Completion(i, result)];
            phase := Done;
          } else {
            phase := Panicked;
          }
      }
      assert phase == NextPhase(config, s, s.tasks[i]);
      tasks := tasks[i := Task(peer, phase)];
    }

    predicate OtherEnabled(a: Action)
      reads this
    {
      match a
      case Move(i) => i < |tasks| && CanMove(i)
      case CallerReceives => listening && received < |reports|
      case HangUp => listening
      case _ => false
    }

    /** A task or the caller takes a step. */
    method OtherStep(a: Action, ghost pc: Pc, ghost active: int, ghost handled: nat)
      requires OtherEnabled(a) && (pc.Finished? <==> !receiving)
      modifies this`tasks, this`discovery, this`done, this`reports, this`received, this`listening
      ensures Enabled(config, old(At(pc, active, handled)), a)
      ensures At(pc, active, handled) == Next(config, old(At(pc, active, handled)), a)
    {
      match a {
        case Move(i) => RunTask(i, pc, active, handled);
        case CallerReceives => received := received + 1;
        case HangUp => listening := false;
      }
    }

    // ---- The coordinator ----

    /** What holds wherever the coordinator can be interrupted. */
    ghost predicate Good(seed: Peer, U: set<Peer>, pc: Pc, active: int, handled: nat)
      reads this
    {
      && config.Valid() && seed !in config.known && Universe(config, seed, U)
      && receiving && !pc.Finished?
      && Reached(config, seed, At(pc, active, handled))
    }

    /** Any number of steps of the others. */
    method Interleave(ghost seed: Peer, ghost U: set<Peer>, ghost pc: Pc, ghost active: int, ghost handled: nat)
      requires Good(seed, U, pc, active, handled)
      modifies this`tasks, this`discovery, this`done, this`reports, this`received, this`listening
      ensures Good(seed, U, pc, active, handled)
      ensures After(At(pc, active, handled), old(At(pc, active, handled)))
    {
      var more: bool := *;
      while more
        invariant Good(seed, U, pc, active, handled)
        invariant After(At(pc, active, handled), old(At(pc, active, handled)))
        decreases more, |U| - |tasks|, Sum(tasks, Remaining), Queued(At(pc, active, handled))
      {
        var a: Action := *;
        if OtherEnabled(a) {
          ghost var s := At(pc, active, handled);
          OtherStep(a, pc, active, handled);
          ReachedStep(config, seed, U, s, a);
          more := *;
        } else {
          more := false;
        }
      }
    }

    /** Where the coordinator stands when the select has found a completion and no batch. */
    ghost function DonePc(): Pc { if config.atomicPoll then AtSelect else Polled }

    /**
     Polls the branches of the select, discovery first, until one is ready; `batch` says which. With
     the split poll others may run between the two polls.
     */
    method PollBranches(active: int, ghost seed: Peer, ghost U: set<Peer>, ghost handled: nat) returns (batch: bool)
      requires Good(seed, U, AtSelect, active, handled)
      modifies this`tasks, this`discovery, this`done, this`reports, this`received, this`listening
      ensures batch ==> discovery != []
      ensures !batch ==> done != [] && (config.atomicPoll ==> discovery == [])
      ensures var pc := if batch then AtSelect else DonePc();
        && Good(seed, U, pc, active, handled)
        && After(At(pc, active, handled), old(At(AtSelect, active, handled)))
    {
      while true
        invariant Good(seed, U, AtSelect, active, handled)
        invariant After(At(AtSelect, active, handled), old(At(AtSelect, active, handled)))
        decreases |U| - |tasks|, Sum(tasks, Remaining), Queued(At(AtSelect, active, handled)), PcRank(At(AtSelect, active, handled))
      {
        ReachedBounds(config, seed, U, At(AtSelect, active, handled));
        Interleave(seed, U, AtSelect, active, handled);
        if discovery != [] { return true; }
        if config.atomicPoll {
          if done != [] { return false; }
          SomeoneElseMoves(seed, U, AtSelect, active, handled);
        } else {
          var ready := PollCompletion(active, seed, U, handled);
          if ready { return false; }
        }
        ReachedBounds(config, seed, U, At(AtSelect, active, handled));
      }
    }

    /** The second half of a split poll, after discovery was found empty; parks if there is no completion either. */
    method PollCompletion(active: int, ghost seed: Peer, ghost U: set<Peer>, ghost handled: nat) returns (ready: bool)
      requires Good(seed, U, AtSelect, active, handled) && !config.atomicPoll && discovery == []
      modifies this`tasks, this`discovery, this`done, this`reports, this`received, this`listening
      ensures ready ==> done != []
      ensures var pc := if ready then Polled else AtSelect;
        && Good(seed, U, pc, active, handled)
        && Below(At(pc, active, handled), old(At(AtSelect, active, handled)))
    {
      ghost var s := At(AtSelect, active, handled);
      ReachedStep(config, seed, U, s, MissDiscovery);
      assert At(Polled, active, handled) == Next(config, s, MissDiscovery);
      Interleave(seed, U, Polled, active, handled);
      ready := done != [];
      if !ready {
        Sleep(active, seed, U, handled);
      }
    }

    method Sleep(active: int, ghost seed: Peer, ghost U: set<Peer>, ghost handled: nat)
      requires Good(seed, U, Polled, active, handled) && done == []
      modifies this`tasks, this`discovery, this`done, this`reports, this`received, this`listening
      ensures Good(seed, U, AtSelect, active, handled)
      ensures Below(At(AtSelect, active, handled), old(At(Polled, active, handled)))
    {
      ghost var s := At(Polled, active, handled);
      ReachedStep(config, seed, U, s, CrawlProtocol.Park);
      assert At(Parked, active, handled) == Next(config, s, CrawlProtocol.Park);
      while discovery == [] && done == []
        invariant Good(seed, U, Parked, active, handled)
        invariant Below(At(Parked, active, handled), s)
        decreases |U| - |tasks|, Sum(tasks, Remaining), Queued(At(Parked, active, handled))
      {
        SomeoneElseMoves(seed, U, Parked, active, handled);
      }
      ghost var t := At(Parked, active, handled);
      ReachedStep(config, seed, U, t, Wake);
      assert At(AtSelect, active, handled) == Next(config, t, Wake);
    }

    /** Waits at full capacity until a completion is queued. */
    method AwaitCompletion(ghost seed: Peer, ghost U: set<Peer>, ghost pc: Pc, active: int, ghost handled: nat)
      requires Good(seed, U, pc, active, handled) && pc.AtCapacity? && active >= config.maxTasks
      modifies this`tasks, this`discovery, this`done, this`reports, this`received, this`listening
      ensures Good(seed, U, pc, active, handled)
      ensures After(At(pc, active, handled), old(At(pc, active, handled)))
      ensures done != []
    {
      Interleave(seed, U, pc, active, handled);
      while done == []
        invariant Good(seed, U, pc, active, handled)
        invariant After(At(pc, active, handled), old(At(pc, active, handled)))
        decreases |U| - |tasks|, Sum(tasks, Remaining), Queued(At(pc, active, handled))
      {
        SomeoneElseMoves(seed, U, pc, active, handled);
      }
    }

    /** With work in flight and nothing for the coordinator to take, a task or the caller moves. */
    method SomeoneElseMoves(ghost seed: Peer, ghost U: set<Peer>, ghost pc: Pc, active: int, ghost handled: nat)
      requires Good(seed, U, pc, active, handled) && done == []
      requires ((pc.AtSelect? || pc.Parked?) && discovery == []) || (pc.AtCapacity? && active >= config.maxTasks)
      modifies this`tasks, this`discovery, this`done, this`reports, this`received, this`listening
      ensures Good(seed, U, pc, active, handled)
      ensures Below(At(pc, active, handled), old(At(pc, active, handled)))
      ensures old(|tasks|) <= |U| && |tasks| <= |U| && 0 <= Queued(At(pc, active, handled))
      ensures |tasks| == old(|tasks|)
    {
      ghost var s := At(pc, active, handled);
      ghost var b := WaitIsNotInVain(config, seed, s);
      assert OtherEnabled(b);
      var a :| OtherEnabled(a);
      OtherStep(a, pc, active, handled);
      ReachedStep(config, seed, U, s, a);
    }

    /** Receives completions while the session is at its limit of concurrent tasks. */
    method WaitForCapacity(active0: int, ghost pc: Pc, ghost seed: Peer, ghost U: set<Peer>, ghost handled: nat)
      returns (active: int)
      requires Good(seed, U, pc, active0, handled) && pc.AtCapacity?
      modifies this`tasks, this`discovery, this`done, this`reports, this`received, this`listening
      ensures Good(seed, U, pc, active, handled) && active < config.maxTasks
      ensures After(At(pc, active, handled), old(At(pc, active0, handled)))
    {
      active := active0;
      while active >= config.maxTasks
        invariant Good(seed, U, pc, active, handled)
        invariant After(At(pc, active, handled), old(At(pc, active0, handled)))
        decreases |U| - |tasks|, Sum(tasks, Remaining), Queued(At(pc, active, handled))
      {
        ReachedBounds(config, seed, U, At(pc, active, handled));
        AwaitCompletion(seed, U, pc, active, handled);
        ghost var s := At(pc, active, handled);
        done := done[1..];
        active := active - 1;
        ReachedStep(config, seed, U, s, DrainDone);
        assert At(pc, active, handled) == Next(config, s, DrainDone);
      }
    }

    /** Marks one peer of a batch tested; returns whether it was new. */
    method MarkTested(peer: Peer, ghost rest: seq<Peer>, ghost active: int,
                      ghost seed: Peer, ghost U: set<Peer>, ghost handled: nat) returns (inserted: bool)
      requires Good(seed, U, InBatch([peer] + rest), active, handled)
      modifies this
      ensures inserted <==> peer !in old(tested)
      ensures tested == old(tested) + {peer}
      ensures var pc := if inserted then AtCapacity(peer, rest) else InBatch(rest);
        && Good(seed, U, pc, active, handled)
        && Below(At(pc, active, handled), old(At(InBatch([peer] + rest), active, handled)))
    {
      ghost var batch := [peer] + rest;
      assert batch[1..] == rest;
      Interleave(seed, U, InBatch(batch), active, handled);
      ghost var s := At(InBatch(batch), active, handled);
      ReachedStep(config, seed, U, s, NextPeer);
      inserted := peer !in tested;
      tested := tested + {peer};
      assert !inserted ==> tested == s.tested;
      assert At(if inserted then AtCapacity(peer, rest) else InBatch(rest), active, handled) == Next(config, s, NextPeer);
    }

    method SpawnTask(peer: Peer, ghost rest: seq<Peer>, active0: int,
                     ghost seed: Peer, ghost U: set<Peer>, ghost handled: nat) returns (active: int)
      requires Good(seed, U, AtCapacity(peer, rest), active0, handled) && active0 < config.maxTasks
      modifies this`tasks
      ensures active == active0 + 1 && tasks == old(tasks) + [Task(peer, Connecting)]
      ensures Good(seed, U, InBatch(rest), active, handled)
      ensures Below(At(InBatch(rest), active, handled), old(At(AtCapacity(peer, rest), active0, handled)))
    {
      ghost var s := At(AtCapacity(peer, rest), active0, handled);
      active := active0 + 1;
      tasks := tasks + [Task(peer, Connecting)];
      ReachedStep(config, seed, U, s, Spawn);
      assert At(InBatch(rest), active, handled) == Next(config, s, Spawn);
    }

    /** The body of the loop over a batch. */
    method HandlePeer(peer: Peer, ghost rest: seq<Peer>, active0: int,
                      ghost seed: Peer, ghost U: set<Peer>, ghost handled: nat) returns (active: int)
      requires Good(seed, U, InBatch([peer] + rest), active0, handled)
      modifies this
      ensures Good(seed, U, InBatch(rest), active, handled)
      ensures Below(At(InBatch(rest), active, handled), old(At(InBatch([peer] + rest), active0, handled)))
    {
      active := active0;
      var inserted := MarkTested(peer, rest, active, seed, U, handled);
      if inserted {
        active := WaitForCapacity(active, AtCapacity(peer, rest), seed, U, handled);
        Interleave(seed, U, AtCapacity(peer, rest), active, handled);
        active := SpawnTask(peer, rest, active, seed, U, handled);
      }
    }

    method HandleBatch(peers: seq<Peer>, active0: int,
                       ghost seed: Peer, ghost U: set<Peer>, ghost handled: nat) returns (active: int)
      requires Good(seed, U, InBatch(peers), active0, handled)
      modifies this
      ensures Good(seed, U, LoopHead, active, handled)
      ensures Below(At(LoopHead, active, handled), old(At(InBatch(peers), active0, handled)))
    {
      active := active0;
      assert peers[0..] == peers;
      for k := 0 to |peers|
        invariant Good(seed, U, InBatch(peers[k..]), active, handled)
        invariant After(At(InBatch(peers[k..]), active, handled), old(At(InBatch(peers), active0, handled)))
      {
        assert peers[k..] == [peers[k]] + peers[k + 1..];
        active := HandlePeer(peers[k], peers[k + 1..], active, seed, U, handled);
      }
      assert peers[|peers|..] == [];
      ghost var s := At(InBatch([]), active, handled);
      ReachedStep(config, seed, U, s, NextPeer);
      assert At(LoopHead, active, handled) == Next(config, s, NextPeer);
    }

    /** One pass of the select: a batch if there is one, else a completion. */
    method Select(active0: int, ghost seed: Peer, ghost U: set<Peer>, ghost handled0: nat)
      returns (active: int, ghost handled: nat, ended: Option<nat>)
      requires Good(seed, U, AtSelect, active0, handled0)
      modifies this
      ensures ended.None? ==>
        Good(seed, U, LoopHead, active, handled) && Below(At(LoopHead, active, handled), old(At(AtSelect, active0, handled0)))
      ensures ended.Some? ==> Reached(config, seed, At(Finished(Natural(ended.value)), active, handled))
    {
      active, ended := active0, None;
      var batch := PollBranches(active, seed, U, handled0);
      handled := handled0 + 1;
      if batch {
        ghost var s := At(AtSelect, active, handled0);
        var peers := discovery[0].peers;
        discovery := discovery[1..];
        ReachedStep(config, seed, U, s, TakeBatch);
        assert At(InBatch(peers), active, handled) == Next(config, s, TakeBatch);
        active := HandleBatch(peers, active, seed, U, handled);
      } else {
        active, ended := TakeCompletion(active, seed, U, handled0);
      }
    }

    /** The completion branch of the select. */
    method TakeCompletion(active0: int, ghost seed: Peer, ghost U: set<Peer>, ghost handled: nat)
      returns (active: int, ended: Option<nat>)
      requires Good(seed, U, DonePc(), active0, handled) && done != [] && (config.atomicPoll ==> discovery == [])
      modifies this`done
      ensures ended.None? ==>
        && Good(seed, U, LoopHead, active, handled + 1)
        && Below(At(LoopHead, active, handled + 1), old(At(DonePc(), active0, handled)))
      ensures ended.Some? ==> Reached(config, seed, At(Finished(Natural(ended.value)), active, handled + 1))
    {
      ghost var s := At(DonePc(), active0, handled);
      var last := done[0].task;
      done := done[1..];
      active := active0 - 1;
      ReachedStep(config, seed, U, s, TakeDone);
      assert At(if active == 0 then Finished(Natural(last)) else LoopHead, active, handled + 1) == Next(config, s, TakeDone);
      ended := if active == 0 then Some(last) else None;
    }

    /** The body of the coordinator's loop: leave if the caller hung up, else one select. */
    method Iterate(active0: int, ghost seed: Peer, ghost U: set<Peer>, ghost handled0: nat)
      returns (active: int, ghost handled: nat, ended: Option<Outcome>)
      requires Good(seed, U, LoopHead, active0, handled0)
      modifies this
      ensures ended.None? ==>
        && Good(seed, U, LoopHead, active, handled)
        && Below(At(LoopHead, active, handled), old(At(LoopHead, active0, handled0)))
      ensures ended == Some(HungUp) ==> !listening
      ensures ended.Some? && ended.value.Natural? ==> Reached(config, seed, At(Finished(ended.value), active, handled))
    {
      active, handled := active0, handled0;
      Interleave(seed, U, LoopHead, active, handled);
      ghost var s := At(LoopHead, active, handled);
      ReachedStep(config, seed, U, s, CheckCaller);
      if !listening {
        return active, handled, Some(HungUp);
      }
      assert At(AtSelect, active, handled) == Next(config, s, CheckCaller);
      var last;
      active, handled, last := Select(active, seed, U, handled);
      ended := if last.Some? then Some(Natural(last.value)) else None;
    }

    /**
     The coordinator's loop. It ends on every schedule. If it ends by itself with the caller
     listening, every newly tested peer is one the seed leads to, with one task and one report each, and a peer
     the seed leads to is missing only behind an untested peer of the one batch that may be
     unread; with the one-step poll no batch is unread and none is missing. Otherwise the loop
     was left because the caller hung up.
     */
    method Coordinate(seed: Peer, ghost U: set<Peer>) returns (outcome: Outcome)
      requires config.Valid() && seed !in config.known && Untouched() && Universe(config, seed, U)
      modifies this
      ensures outcome.HungUp? ==> !listening
      ensures outcome.Natural? ==> done == [] && forall i :: 0 <= i < |tasks| ==> tasks[i].phase == Done
      ensures outcome.Natural? ==> |discovery| <= if config.atomicPoll then 0 else 1
      ensures outcome.Natural? && listening ==> forall p :: p in tested ==> p in config.known || Reachable(config, seed, p)
      ensures outcome.Natural? && listening ==> forall p :: Reachable(config, seed, p) && p !in tested ==>
        discovery != [] && exists q :: q in discovery[0].peers && q !in tested && Reachable(config, q, p)
      ensures outcome.Natural? && listening && config.atomicPoll ==>
        forall p :: p in tested <==> p in config.known || Reachable(config, seed, p)
      ensures outcome.Natural? && listening ==> |tasks| == |reports| == |tested - config.known|
      ensures outcome.Natural? && listening ==> ReportsMatchTested(config, At(Finished(outcome), 0, 0))
    {
      ghost var handled := 0;
      var active := 0;
      Prime(seed, U);
      var ended: Option<Outcome> := None;
      while ended.None?
        invariant ended.None? ==> Good(seed, U, LoopHead, active, handled)
        invariant ended == Some(HungUp) ==> !listening
        invariant ended.Some? && ended.value.Natural? ==> Reached(config, seed, At(Finished(ended.value), active, handled))
        decreases ended.None?, |U| - |tasks|, Sum(tasks, Remaining), Queued(At(LoopHead, active, handled)), PcRank(At(LoopHead, active, handled))
      {
        ReachedBounds(config, seed, U, At(LoopHead, active, handled));
        active, handled, ended := Iterate(active, seed, U, handled);
        if ended.None? {
          ReachedBounds(config, seed, U, At(LoopHead, active, handled));
        }
      }
      outcome := ended.value;
      receiving := false;
      if outcome.Natural? {
        ghost var s := At(Finished(outcome), active, handled);
        NaturalEnd(seed, s);
        if listening { OnlyReportsMatter(config, s, At(Finished(outcome), 0, 0)); }
      }
    }

    /** Queues the seed. */
    method Prime(seed: Peer, ghost U: set<Peer>)
      requires config.Valid() && seed !in config.known && Untouched() && Universe(config, seed, U)
      modifies this`discovery
      ensures discovery == [Seed([seed])]
      ensures Good(seed, U, LoopHead, 0, 0)
    {
      discovery := discovery + [Seed([seed])];
      ReachedInit(config, seed);
      if !listening { ReachedStep(config, seed, U, Init(config, seed), HangUp); }
      assert At(LoopHead, 0, 0) == if listening then Init(config, seed) else Next(config, Init(config, seed), HangUp);
    }

    lemma NaturalEnd(seed: Peer, s: State)
      requires config.Valid() && seed !in config.known && Reached(config, seed, s) && CompletedNaturally(s)
      ensures s.done == [] && forall i :: 0 <= i < |s.tasks| ==> s.tasks[i].phase == Done
      ensures |s.discovery| <= if config.atomicPoll then 0 else 1
      ensures config.known <= s.tested
      ensures s.listening ==> forall p :: p in s.tested ==> p in config.known || Reachable(config, seed, p)
      ensures s.listening ==> forall p :: Reachable(config, seed, p) && p !in s.tested ==>
        s.discovery != [] && exists q :: q in s.discovery[0].peers && q !in s.tested && Reachable(config, q, p)
      ensures s.listening ==> |s.tasks| == |s.reports| == |s.tested - config.known|
      ensures s.listening ==> ReportsMatchTested(config, s)
    {
      ReachedInv(config, seed, s);
      forall i | 0 <= i < |s.tasks| ensures s.tasks[i].phase == Done { AllDone(config, s, i); }
      if s.listening {
        forall p | Reachable(config, seed, p) && p !in s.tested
          ensures s.discovery != [] && exists q :: q in s.discovery[0].peers && q !in s.tested && Reachable(config, q, p)
        {
          MissingIsBehindUnread(config, seed, s, p);
        }
        FinalReportsMatch(config, seed, s);
        Cardinalities(config, s);
      }
    }
  }

  lemma OnlyReportsMatter(c: Config, s: State, t: State)
    requires ReportsMatchTested(c, s) && t.reports == s.reports && t.tasks == s.tasks && t.tested == s.tested
    ensures ReportsMatchTested(c, t)
  {
    assert forall k :: 0 <= k < |s.reports| ==> Subject(t, k) == Subject(s, k);
  }

  lemma Cardinalities(c: Config, s: State)
    requires OneTaskPerPeer(c, s) && ReportsMatchTested(c, s) && !s.pc.AtCapacity?
    ensures |s.tasks| == |s.reports| == |s.tested - c.known|
  {
    OneTaskEach(c, s);
    OneReportEach(c, s);
  }

  lemma OneTaskEach(c: Config, s: State)
    requires OneTaskPerPeer(c, s) && !s.pc.AtCapacity?
    ensures |s.tasks| == |s.tested - c.known|
  {
    var spawned := seq(|s.tasks|, i requires 0 <= i < |s.tasks| => s.tasks[i].peer);
    forall p | p in s.tested - c.known ensures p in spawned {
      assert Spawned(s, p);
      var i :| 0 <= i < |s.tasks| && s.tasks[i].peer == p;
      assert spawned[i] == p;
    }
    PeersInBijection(spawned, s.tested - c.known);
  }

  lemma OneReportEach(c: Config, s: State)
    requires ReportsMatchTested(c, s)
    ensures |s.reports| == |s.tested - c.known|
  {
    var reported := seq(|s.reports|, k requires 0 <= k < |s.reports| => Subject(s, k));
    forall p | p in s.tested - c.known ensures p in reported {
      var k :| 0 <= k < |s.reports| && Subject(s, k) == p;
      assert reported[k] == p;
    }
    PeersInBijection(reported, s.tested - c.known);
  }

  lemma {:induction false} PeersInBijection(ps: seq<Peer>, S: set<Peer>)
    requires forall i, j :: 0 <= i < j < |ps| ==> ps[i] != ps[j]
    requires forall p :: p in S <==> p in ps
    ensures |ps| == |S|
  {
    if ps == [] {
      assert S == {};
    } else {
      var n := |ps| - 1;
      PeersInBijection(ps[..n], S - {ps[n]});
    }
  }
}
