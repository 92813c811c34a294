/** Crawls that do not end by themselves: a seed tested before, and a caller that hangs up. */
module CrawlEndings {
  import opened Peers
  import opened CrawlProtocol
  import opened CrawlInvariants
  import opened CrawlTheorems
  import opened CrawlTermination
  import opened CrawlSplitPoll

  // ---- A session that has tested the seed before ----

  /** The coordinator waits and nothing but a hang-up, which it will not notice, can happen. */
  ghost predicate StuckForEver(c: Config, s: State) {
    !s.pc.Finished? && Quiescent(c, s) && Quiescent(c, s.(listening := false))
  }

  /** With the seed already tested the coordinator spawns nothing and waits for ever. */
  lemma StaleSeedHangs(c: Config, seed: Peer) returns (run: seq<State>)
    requires seed in c.known
    ensures IsRun(c, seed, run) && StuckForEver(c, run[|run| - 1])
  {
    run := [Init(c, seed)];
    run := Extend(c, seed, run, CheckCaller);
    run := Extend(c, seed, run, TakeBatch);
    run := Extend(c, seed, run, NextPeer);
    run := Extend(c, seed, run, NextPeer);
    run := Extend(c, seed, run, CheckCaller);
    if !c.atomicPoll {
      run := Extend(c, seed, run, MissDiscovery);
      run := Extend(c, seed, run, CrawlProtocol.Park);
    }
  }

  /** Under either poll, a crawl can be left waiting for ever exactly when its seed was tested before it. */
  lemma HangsIffSeedKnown(c: Config, seed: Peer)
    requires c.Valid()
    ensures (exists run: seq<State> :: IsRun(c, seed, run) && StuckForEver(c, run[|run| - 1])) <==> seed in c.known
  {
    if seed in c.known {
      var run := StaleSeedHangs(c, seed);
    } else {
      forall run: seq<State> | IsRun(c, seed, run) ensures !StuckForEver(c, run[|run| - 1]) {
        if !run[|run| - 1].pc.Finished? {
          NeverStuckInRun(c, seed, run, |run| - 1);
        }
      }
    }
  }

  /** What a crawl from a known seed looks like, in every state. */
  ghost predicate Idle(c: Config, seed: Peer, s: State) {
    && s.tasks == [] && s.done == [] && s.active == 0 && s.tested == c.known && s.reports == []
    && (s.discovery == [] || s.discovery == [Seed([seed])])
    && (forall q :: q in s.pc.Rest() ==> q == seed)
    && !s.pc.AtCapacity? && !CompletedNaturally(s)
  }

  lemma IdleStep(c: Config, seed: Peer, s: State, a: Action)
    requires seed in c.known && Idle(c, seed, s) && Enabled(c, s, a)
    ensures Idle(c, seed, Next(c, s, a))
  {
    if a.NextPeer? && s.pc.rest != [] {
      assert s.pc.rest[0] in s.pc.Rest();
      assert forall q :: q in s.pc.rest[1..] ==> q in s.pc.rest;
    }
  }

  /** A crawl from a known seed tests and reports nothing and never completes, on any schedule. */
  lemma {:induction false} StaleSeedDoesNothing(c: Config, seed: Peer, run: seq<State>, n: nat)
    requires seed in c.known && IsRun(c, seed, run) && n < |run|
    ensures Idle(c, seed, run[n])
  {
    if n > 0 {
      StaleSeedDoesNothing(c, seed, run, n - 1);
      assert Step(c, run[n - 1], run[n - 1 + 1]);
      var a :| Enabled(c, run[n - 1], a) && run[n] == Next(c, run[n - 1], a);
      IdleStep(c, seed, run[n - 1], a);
    }
  }

  // ---- After a hang-up ----

  /** What the select may still act on: the message it is about to take, if it is polling. */
  function Committed(s: State): nat {
    s.handled + if s.pc.AtSelect? || s.pc.Polled? || s.pc.Parked? then 1 else 0
  }

  lemma HungUpStep(c: Config, s: State, t: State)
    requires Step(c, s, t) && !s.listening
    ensures !t.listening && s.handled <= t.handled && Committed(t) <= Committed(s)
  {
  }

  lemma {:induction false} HungUpSteps(c: Config, seed: Peer, run: seq<State>, m: nat, n: nat)
    requires IsRun(c, seed, run) && m <= n < |run| && !run[m].listening
    ensures !run[n].listening && run[m].handled <= run[n].handled && Committed(run[n]) <= Committed(run[m])
  {
    if m < n {
      HungUpSteps(c, seed, run, m, n - 1);
      assert Step(c, run[n - 1], run[n - 1 + 1]);
      HungUpStep(c, run[n - 1], run[n]);
    }
  }

  /** From the moment the caller hangs up the select acts on at most one more message. */
  lemma AtMostOneMoreMessage(c: Config, seed: Peer, run: seq<State>, m: nat, n: nat)
    requires IsRun(c, seed, run) && m <= n < |run| && !run[m].listening
    ensures Acted(run, m) <= Acted(run, n) <= Acted(run, m) + 1
  {
    HungUpSteps(c, seed, run, m, n);
    HandledIsActed(c, seed, run, m);
    HandledIsActed(c, seed, run, n);
  }

  lemma DoneIsFrozenStep(c: Config, s: State, t: State)
    requires Step(c, s, t) && s.pc.Finished?
    ensures t.pc == s.pc && |t.tasks| == |s.tasks|
    ensures forall i :: 0 <= i < |s.tasks| ==> (t.tasks[i].phase == Done <==> s.tasks[i].phase == Done)
  {
    var a :| Enabled(c, s, a) && t == Next(c, s, a);
    if a.Move? { MovedTasks(c, s, a.task); }
  }

  /** Once the coordinator has left, no task completes any more. */
  lemma {:induction false} DoneIsFrozen(c: Config, seed: Peer, run: seq<State>, m: nat, n: nat)
    requires IsRun(c, seed, run) && m <= n < |run| && run[m].pc.Finished?
    ensures run[n].pc == run[m].pc && |run[n].tasks| == |run[m].tasks|
    ensures forall i :: 0 <= i < |run[m].tasks| ==> (run[n].tasks[i].phase == Done <==> run[m].tasks[i].phase == Done)
  {
    if m < n {
      DoneIsFrozen(c, seed, run, m, n - 1);
      assert Step(c, run[n - 1], run[n - 1 + 1]);
      DoneIsFrozenStep(c, run[n - 1], run[n]);
    }
  }

  /**
   When everything has come to rest after the coordinator left because of a hang-up, the tasks that
   panicked are exactly those that had not sent their completion when it left.
   */
  lemma PanickedExactly(c: Config, seed: Peer, run: seq<State>, m: nat, n: nat, i: nat)
    requires c.Valid() && seed !in c.known && IsRun(c, seed, run) && m <= n < |run|
    requires run[m].pc == Finished(HungUp) && Quiescent(c, run[n]) && i < |run[m].tasks|
    ensures i < |run[n].tasks|
    ensures run[n].tasks[i].phase == Panicked <==> run[m].tasks[i].phase != Done
    ensures run[n].tasks[i].phase == Done <==> run[m].tasks[i].phase == Done
  {
    DoneIsFrozen(c, seed, run, m, n);
    RunKeepsInv(c, seed, run, n);
    assert !Enabled(c, run[n], Move(i));
  }

  /** A run, for every valid configuration, in which a hang-up makes the seed's task panic. */
  lemma HangUpCanPanic(c: Config, seed: Peer) returns (run: seq<State>)
    requires c.Valid() && seed !in c.known
    ensures IsRun(c, seed, run)
    ensures var s := run[|run| - 1]; s.pc == Finished(HungUp) && |s.tasks| == 1 && s.tasks[0].phase == Panicked
  {
    run := SpawnSeed(c, seed);
    run := Extend(c, seed, run, HangUp);
    run := Extend(c, seed, run, CheckCaller);
    run := Extend(c, seed, run, Move(0));
    assert run[|run| - 1].tasks == [Task(seed, Reporting)];
    run := Extend(c, seed, run, Move(0));
    assert run[|run| - 1].tasks == [Task(seed, Finishing(ChannelClosed))];
    run := Extend(c, seed, run, Move(0));
  }
}
