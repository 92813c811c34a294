/**
 The crawl session (`crawler/src/session.rs`) as a step system.

 One coordinator, any number of spawned tasks and the caller share a discovery channel, a
 completion channel, the set of tested peers and the channel of reports. A step is what one of
 them does between two points where another may run, and the scheduler is adversarial: a run may
 take any enabled step. Entries of the channels carry the task they came from, which the program
 does not send; nothing in a step depends on it.
 */
module CrawlProtocol {
  import opened Peers

  /** How a peer behaves when it is tested. Each peer is tested once, so one answer per peer is general. */
  datatype Answer =
    | Refused                                             // connect failed or timed out
    | Accepted(flags: nat, version: nat, reply: Reply)

  datatype Reply = ReadFailed | Learned(peers: seq<Peer>)  // the result of get_peers

  datatype Config = Config(
    net: Peer -> Answer,
    maxTasks: nat,
    reportCapacity: nat,      // capacity of the channel to the caller
    known: set<Peer>,         // what the session has tested when the crawl starts; a new session has tested nothing
    filtering: bool,          // false removes the tested-peer filter of a task
    atomicPoll: bool)         // false polls the two branches of the select as two steps
  {
    ghost predicate Valid() { maxTasks >= 1 && reportCapacity >= 1 }

    /** `p` accepts a connection and answers the request for addresses, with `q` among them. */
    ghost predicate Taught(p: Peer, q: Peer) {
      net(p).Accepted? && net(p).reply.Learned? && q in net(p).reply.peers
    }

    /**
     The message `m` to the caller is right about `p`: whether it listens, and its record as it was, with the
     services and version it gave if it accepted.
     */
    ghost predicate Describes(p: Peer, m: CrawlerMessage) {
      && (m.Listening? <==> net(p).Accepted?)
      && m.peer.address == p.address && m.peer.port == p.port
      && (net(p).Accepted? ==> m.peer.services == KnownServices(net(p).flags) && m.peer.version == KnownVersion(net(p).version))
      && (net(p).Refused? ==> m.peer == p)
    }

    /** The result of get_peers as a task sees it: nothing if it failed. */
    function Teaches(p: Peer): seq<Peer> {
      match net(p)
      case Accepted(_, _, Learned(ps)) => ps
      case _ => []
    }

    /** What a task sends to the caller. */
    function ReportFor(p: Peer): CrawlerMessage {
      match net(p)
      case Refused => NonListening(p)
      case Accepted(flags, version, _) => Listening(p.Introduced(flags, version))
    }
  }

  datatype CrawlerMessage = Listening(peer: Peer) | NonListening(peer: Peer)

  datatype TaskResult = FoundPeers | NoPeersFound | ConnectionFailed | ChannelClosed

  datatype Phase =
    | Connecting
    | Reporting
    | Asking
    | Filtering(found: seq<Peer>)
    | Sending(batch: seq<Peer>)
    | Finishing(result: TaskResult)   // process() returned; its completion is still to be sent
    | Done
    | Panicked                        // the completion channel was gone

  datatype Task = Task(peer: Peer, phase: Phase)

  datatype Batch = Seed(peers: seq<Peer>) | SentBy(task: nat, peers: seq<Peer>)
  datatype Completion = Completion(task: nat, result: TaskResult)
  datatype Report = Report(task: nat, message: CrawlerMessage)

  datatype Outcome = Natural(last: nat) | HungUp

  datatype Pc =
    | LoopHead
    | AtSelect
    | Polled                                      // split poll: discovery was found empty
    | Parked                                      // split poll: both branches were found empty
    | InBatch(rest: seq<Peer>)
    | AtCapacity(peer: Peer, rest: seq<Peer>)     // `peer` is marked tested and not yet spawned
    | Finished(outcome: Outcome)
  {
    function Rest(): seq<Peer> {
      match this
      case InBatch(rest) => rest
      case AtCapacity(_, rest) => rest
      case _ => []
    }
  }

  datatype State = State(
    pc: Pc,
    active: int,
    tested: set<Peer>,
    discovery: seq<Batch>,
    done: seq<Completion>,
    tasks: seq<Task>,
    reports: seq<Report>,       // everything ever sent to the caller
    received: nat,              // how many of them the caller has taken
    listening: bool,
    handled: nat)               // messages the select has acted on

  function Init(c: Config, seed: Peer): State {
    State(LoopHead, 0, c.known, [Seed([seed])], [], [], [], 0, true, 0)
  }

  datatype Action =
    | CheckCaller
    | TakeBatch
    | TakeDone
    | MissDiscovery
    | Park
    | Wake
    | NextPeer
    | DrainDone
    | Spawn
    | Move(task: nat)
    | CallerReceives
    | HangUp

  predicate MoveEnabled(c: Config, s: State, i: nat)
    requires i < |s.tasks|
  {
    match s.tasks[i].phase
    case Reporting => !s.listening || |s.reports| < s.received + c.reportCapacity
    case Finishing(_) => s.pc.Finished? || |s.done| < c.maxTasks
    case Done => false
    case Panicked => false
    case _ => true
  }

  predicate Enabled(c: Config, s: State, a: Action) {
    match a
    case CheckCaller => s.pc.LoopHead?
    case TakeBatch => s.pc.AtSelect? && s.discovery != []
    case TakeDone => s.done != [] && if c.atomicPoll then s.pc.AtSelect? && s.discovery == [] else s.pc.Polled?
    case MissDiscovery => !c.atomicPoll && s.pc.AtSelect? && s.discovery == []
    case Park => s.pc.Polled? && s.done == []
    case Wake => s.pc.Parked? && (s.discovery != [] || s.done != [])
    case NextPeer => s.pc.InBatch?
    case DrainDone => s.pc.AtCapacity? && s.active >= c.maxTasks && s.done != []
    case Spawn => s.pc.AtCapacity? && s.active < c.maxTasks
    case Move(i) => i < |s.tasks| && MoveEnabled(c, s, i)
    case CallerReceives => s.listening && s.received < |s.reports|
    case HangUp => s.listening
  }

  /** The peers a task passes on: the ones not yet tested, in order. */
  function Untested(ps: seq<Peer>, tested: set<Peer>): seq<Peer> {
    if ps == [] then []
    else (if ps[0] in tested then [] else [ps[0]]) + Untested(ps[1..], tested)
  }

  function NextPhase(c: Config, s: State, t: Task): Phase
    requires t.phase != Done && t.phase != Panicked
  {
    match t.phase
    case Connecting => Reporting
    case Reporting =>
      if !s.listening then Finishing(ChannelClosed)
      else if c.net(t.peer).Refused? then Finishing(ConnectionFailed) else Asking
    case Asking =>
      if c.Teaches(t.peer) == [] then Finishing(NoPeersFound) else Filtering(c.Teaches(t.peer))
    case Filtering(found) =>
      var kept := if c.filtering then Untested(found, s.tested) else found;
      if kept == [] then Finishing(NoPeersFound) else Sending(kept)
    case Sending(_) => Finishing(if s.pc.Finished? then ChannelClosed else FoundPeers)
    case Finishing(_) => if s.pc.Finished? then Panicked else Done
  }

  function Moved(c: Config, s: State, i: nat): State
    requires i < |s.tasks| && MoveEnabled(c, s, i)
  {
    var t := s.tasks[i];
    var s' := s.(tasks := s.tasks[i := t.(phase := NextPhase(c, s, t))]);
    match t.phase
    case Reporting =>
      if s.listening then s'.(reports := s.reports + [Report(i, c.ReportFor(t.peer))]) else s'
    case Sending(batch) =>
      if s.pc.Finished? then s' else s'.(discovery := s.discovery + [SentBy(i, batch)])
    case Finishing(result) =>
      if s.pc.Finished? then s' else s'.(done := s.done + [Completion(i, result)])
    case _ => s'
  }

  function Next(c: Config, s: State, a: Action): State
    requires Enabled(c, s, a)
  {
    match a
    case CheckCaller => s.(pc := if s.listening then AtSelect else Finished(HungUp))
    case TakeBatch =>
      s.(pc := InBatch(s.discovery[0].peers), discovery := s.discovery[1..], handled := s.handled + 1)
    case TakeDone =>
      s.(pc := if s.active == 1 then Finished(Natural(s.done[0].task)) else LoopHead,
         active := s.active - 1, done := s.done[1..], handled := s.handled + 1)
    case MissDiscovery => s.(pc := Polled)
    case Park => s.(pc := Parked)
    case Wake => s.(pc := AtSelect)
    case NextPeer =>
      var rest := s.pc.rest;
      if rest == [] then s.(pc := LoopHead)
      else if rest[0] in s.tested then s.(pc := InBatch(rest[1..]))
      else s.(tested := s.tested + {rest[0]}, pc := AtCapacity(rest[0], rest[1..]))
    case DrainDone => s.(active := s.active - 1, done := s.done[1..])
    case Spawn =>
      s.(active := s.active + 1, tasks := s.tasks + [Task(s.pc.peer, Connecting)], pc := InBatch(s.pc.rest))
    case Move(i) => Moved(c, s, i)
    case CallerReceives => s.(received := s.received + 1)
    case HangUp => s.(listening := false)
  }

  ghost predicate Step(c: Config, s: State, t: State) {
    exists a :: Enabled(c, s, a) && t == Next(c, s, a)
  }

  /** A finite run: consecutive states of the system from the start of a crawl. */
  ghost predicate IsRun(c: Config, seed: Peer, run: seq<State>) {
    && run != []
    && run[0] == Init(c, seed)
    && forall i :: 0 <= i < |run| - 1 ==> Step(c, run[i], run[i + 1])
  }

  // ---- Reference meaning: reachability through what the peers teach ----

  /** A path through what peers teach. It avoids the peers known from before, which a crawl does not ask again. */
  ghost predicate IsPath(c: Config, path: seq<Peer>) {
    && path != []
    && (forall i :: 0 <= i < |path| ==> path[i] !in c.known)
    && forall i :: 0 <= i < |path| - 1 ==> c.Taught(path[i], path[i + 1])
  }

  ghost predicate PathBetween(c: Config, path: seq<Peer>, p: Peer, q: Peer) {
    IsPath(c, path) && path[0] == p && path[|path| - 1] == q
  }

  ghost predicate Reachable(c: Config, p: Peer, q: Peer) {
    exists path :: PathBetween(c, path, p, q)
  }

  lemma ReachableSelf(c: Config, p: Peer)
    requires p !in c.known
    ensures Reachable(c, p, p)
  {
    assert PathBetween(c, [p], p, p);
  }

  lemma ReachableExtend(c: Config, p: Peer, q: Peer, r: Peer)
    requires Reachable(c, p, q) && c.Taught(q, r) && r !in c.known
    ensures Reachable(c, p, r)
  {
    var path :| PathBetween(c, path, p, q);
    assert PathBetween(c, path + [r], p, r);
  }

  lemma UntestedContents(ps: seq<Peer>, tested: set<Peer>)
    ensures forall q :: q in Untested(ps, tested) <==> q in ps && q !in tested
  {
  }
}
