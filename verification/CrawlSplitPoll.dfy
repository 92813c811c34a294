/** When the split poll can end a crawl too early, as a condition on the network and the seed. */
module CrawlSplitPoll {
  import opened Peers
  import opened CrawlProtocol
  import opened CrawlInvariants
  import opened CrawlTheorems

  lemma Extend(c: Config, seed: Peer, run: seq<State>, a: Action) returns (run': seq<State>)
    requires IsRun(c, seed, run) && Enabled(c, run[|run| - 1], a)
    ensures IsRun(c, seed, run') && run'[|run'| - 1] == Next(c, run[|run| - 1], a)
  {
    run' := run + [Next(c, run[|run| - 1], a)];
  }

  /** The seed is spawned and the coordinator is back at its loop. */
  lemma SpawnSeed(c: Config, seed: Peer) returns (run: seq<State>)
    requires c.Valid() && seed !in c.known
    ensures IsRun(c, seed, run)
    ensures run[|run| - 1] == State(LoopHead, 1, c.known + {seed}, [], [], [Task(seed, Connecting)], [], 0, true, 1)
  {
    run := [Init(c, seed)];
    run := Extend(c, seed, run, CheckCaller);
    run := Extend(c, seed, run, TakeBatch);
    run := Extend(c, seed, run, NextPeer);
    run := Extend(c, seed, run, Spawn);
    run := Extend(c, seed, run, NextPeer);
  }

  /** The seed's task holds a batch with every new peer the seed teaches, and has not sent it. */
  lemma ReadyToSend(c: Config, seed: Peer, q: Peer) returns (run: seq<State>, batch: seq<Peer>)
    requires c.Valid() && seed !in c.known && c.Taught(seed, q) && q != seed && q !in c.known
    ensures IsRun(c, seed, run)
    ensures run[|run| - 1] == State(AtSelect, 1, c.known + {seed}, [], [], [Task(seed, Sending(batch))],
                                    [Report(0, c.ReportFor(seed))], 0, true, 1)
  {
    var found := c.Teaches(seed);
    run := SpawnSeed(c, seed);
    run := Extend(c, seed, run, CheckCaller);
    run := Extend(c, seed, run, Move(0));
    assert run[|run| - 1].tasks == [Task(seed, Reporting)];
    run := Extend(c, seed, run, Move(0));
    assert run[|run| - 1].tasks == [Task(seed, Asking)];
    run := Extend(c, seed, run, Move(0));
    assert run[|run| - 1].tasks == [Task(seed, Filtering(found))];
    UntestedContents(found, c.known + {seed});
    batch := if c.filtering then Untested(found, c.known + {seed}) else found;
    assert q in batch;
    run := Extend(c, seed, run, Move(0));
  }

  /**
   The race, for every limit, network and filter setting: discovery is found empty, then the seed's
   task sends its batch and its completion, then the completion ends the crawl. The caller is
   listening, and a new peer that the seed teaches is never tested.
   */
  lemma SplitPollCanLosePeer(c: Config, seed: Peer, q: Peer) returns (run: seq<State>)
    requires c.Valid() && !c.atomicPoll && seed !in c.known
    requires c.Taught(seed, q) && q != seed && q !in c.known
    ensures IsRun(c, seed, run)
    ensures var s := run[|run| - 1];
      CompletedNaturally(s) && s.listening && Reachable(c, seed, q) && q !in s.tested
  {
    var batch;
    run, batch := ReadyToSend(c, seed, q);
    run := Extend(c, seed, run, MissDiscovery);
    run := Extend(c, seed, run, Move(0));
    assert run[|run| - 1].tasks == [Task(seed, Finishing(FoundPeers))];
    run := Extend(c, seed, run, Move(0));
    run := Extend(c, seed, run, TakeDone);
    ReachableSelf(c, seed);
    ReachableExtend(c, seed, seed, q);
  }

  /** The crawl of this run tested every peer the seed leads to. */
  ghost predicate Complete(c: Config, seed: Peer, run: seq<State>)
    requires run != []
  {
    forall p :: Reachable(c, seed, p) ==> p in run[|run| - 1].tested
  }

  ghost predicate EndsNaturally(c: Config, seed: Peer, run: seq<State>) {
    IsRun(c, seed, run) && CompletedNaturally(run[|run| - 1]) && run[|run| - 1].listening
  }

  /**
   With the split poll, every crawl that ends naturally is complete exactly when the seed teaches no
   new peer but itself. The condition is on the network and the seed, before any crawl.
   */
  lemma SplitPollCompleteForAllRunsIff(c: Config, seed: Peer)
    requires c.Valid() && !c.atomicPoll && seed !in c.known
    ensures (forall run :: EndsNaturally(c, seed, run) ==> Complete(c, seed, run))
       <==> (forall q :: c.Taught(seed, q) ==> q == seed || q in c.known)
  {
    if q :| c.Taught(seed, q) && q != seed && q !in c.known {
      var run := SplitPollCanLosePeer(c, seed, q);
      assert EndsNaturally(c, seed, run) && !Complete(c, seed, run);
    } else {
      forall run | EndsNaturally(c, seed, run) ensures Complete(c, seed, run) {
        OnlySeedReachable(c, seed, run);
      }
    }
  }

  lemma OnlySeedReachable(c: Config, seed: Peer, run: seq<State>)
    requires c.Valid() && seed !in c.known && EndsNaturally(c, seed, run)
    requires forall q :: c.Taught(seed, q) ==> q == seed || q in c.known
    ensures Complete(c, seed, run)
  {
    var s := run[|run| - 1];
    RunKeepsInv(c, seed, run, |run| - 1);
    forall p | Reachable(c, seed, p) ensures p in s.tested {
      var path :| PathBetween(c, path, seed, p);
      PathStaysInClosedSet(c, (iset x | x == seed || x in c.known), path);
    }
  }
}
