/**
 Asking a peer for addresses (`crawler/src/connection.rs`). Time is counted in nanoseconds from the
 request. The environment decides how long each step takes and how each wait for a message ends; the
 program decides how long a timer it arms, and a timer that fires does so after that duration.
 */
module AddressCollection {
  import opened Options
  import opened Peers
  import opened Messages
  import opened Selections

  const WAIT_LIMIT: nat := 5_000_000_000

  /** How a wait ended, and how long after the timer was armed, or after the timer was due, that was. */
  datatype WaitEnd =
    | Arrived(message: NetworkMessage, delay: nat, writable: bool)   // writable: a Pong could be written
    | ReadFailed(delay: nat)
    | TimedOut(delay: nat)

  /** One pass of the loop: the time until its condition is evaluated, the time from there until the timer is armed, and the wait. */
  datatype Wait = Wait(before: nat, arming: nat, end: WaitEnd)

  datatype Collected = Peers(peers: seq<Peer>) | Failed

  // ---- The clock, given the durations of the timers armed so far ----

  function Ends(armed: nat, duration: nat, end: WaitEnd): nat {
    armed + end.delay + if end.TimedOut? then duration else 0
  }

  /** When the wait of the last timer ended. */
  function Clock(waits: nat -> Wait, timers: seq<nat>): nat {
    if timers == [] then 0
    else
      var n := |timers| - 1;
      Ends(Clock(waits, timers[..n]) + waits(n).before + waits(n).arming, timers[n], waits(n).end)
  }

  /** When the loop condition is evaluated next. */
  function Checked(waits: nat -> Wait, timers: seq<nat>): nat { Clock(waits, timers) + waits(|timers|).before }

  /** When the next timer is armed. */
  function Armed(waits: nat -> Wait, timers: seq<nat>): nat { Checked(waits, timers) + waits(|timers|).arming }

  /** The policy: a timer runs for five seconds, but not past the time allowed. */
  ghost predicate RightTimer(timeout: nat, armed: nat, duration: nat) {
    if armed + 5_000_000_000 <= timeout then duration == 5_000_000_000
    else if armed <= timeout then armed + duration == timeout
    else duration == 0
  }

  /** Every pass started in time, and armed its timer by the policy. */
  ghost predicate Paced(timeout: nat, waits: nat -> Wait, timers: seq<nat>) {
    forall i :: 0 <= i < |timers| ==>
      Checked(waits, timers[..i]) < timeout && RightTimer(timeout, Armed(waits, timers[..i]), timers[i])
  }

  /** The time the first `k` passes take if a timer that fires runs for five seconds. */
  function Nominal(waits: nat -> Wait, k: nat): nat {
    if k == 0 then 0
    else
      var w := waits(k - 1);
      Nominal(waits, k - 1) + w.before + w.arming + Ends(0, WAIT_LIMIT, w.end)
  }

  // ---- What the result means ----

  function SocketPeer(s: SocketAddr, services: nat): Peer {
    match s
    case V4(ip, port) => PeerWithServices(Ipv4(ip), port, services)
    case V6(ip, port) => PeerWithServices(Ipv6(ip), port, services)
  }

  function LegacyPeers(es: seq<AddrEntry>): seq<Peer> {
    if es == [] then []
    else
      var before, last := LegacyPeers(es[..|es| - 1]), es[|es| - 1];
      if last.socket.Some? then before + [SocketPeer(last.socket.value, last.services)] else before
  }

  function ModernPeers(es: seq<AddrV2Entry>): seq<Peer> {
    if es == [] then []
    else
      var last := es[|es| - 1];
      ModernPeers(es[..|es| - 1]) + [PeerWithServices(last.address, last.port, last.services)]
  }

  /** The addresses a message brings, in order. */
  function PeersIn(m: NetworkMessage): seq<Peer> {
    match m
    case Addr(es) => LegacyPeers(es)
    case AddrV2List(es) => ModernPeers(es)
    case _ => []
  }

  /** The answer a message calls for. */
  function PongFor(m: NetworkMessage): seq<NetworkMessage> {
    if m.Ping? then [Pong(m.nonce)] else []
  }

  /** The messages read in the first `k` waits, in order. */
  function Read(waits: nat -> Wait, k: nat): seq<NetworkMessage> {
    if k == 0 then []
    else if waits(k - 1).end.Arrived? then Read(waits, k - 1) + [waits(k - 1).end.message]
    else Read(waits, k - 1)
  }

  function AllPeers(ms: seq<NetworkMessage>): seq<Peer> {
    if ms == [] then [] else AllPeers(ms[..|ms| - 1]) + PeersIn(ms[|ms| - 1])
  }

  function Pongs(ms: seq<NetworkMessage>): seq<NetworkMessage> {
    if ms == [] then [] else Pongs(ms[..|ms| - 1]) + PongFor(ms[|ms| - 1])
  }

  lemma OneMoreMessage(ms: seq<NetworkMessage>, m: NetworkMessage)
    ensures AllPeers(ms + [m]) == AllPeers(ms) + PeersIn(m) && Pongs(ms + [m]) == Pongs(ms) + PongFor(m)
  {
    assert (ms + [m])[..|ms|] == ms;
  }

  /** How many of the first `k` waits timed out. */
  function Timeouts(waits: nat -> Wait, k: nat): nat {
    if k == 0 then 0 else Timeouts(waits, k - 1) + if waits(k - 1).end.TimedOut? then 1 else 0
  }

  // ---- The same from the fields of the messages alone ----

  /** The record made from a legacy entry that has an IP socket address. */
  ghost predicate FromSocket(e: AddrEntry, p: Peer) {
    && e.socket.Some?
    && p.address == (if e.socket.value.V4? then Ipv4(e.socket.value.ip) else Ipv6(e.socket.value.ip))
    && p.port == e.socket.value.port && p.services == KnownServices(e.services) && p.version == UnknownVersion
  }

  ghost predicate FromEntry(e: AddrV2Entry, p: Peer) {
    p.address == e.address && p.port == e.port && p.services == KnownServices(e.services) && p.version == UnknownVersion
  }

  /** The peers of the entries that have a socket address, each once and in order. */
  ghost predicate KeepsSockets(es: seq<AddrEntry>, ps: seq<Peer>) {
    exists kept :: Selects(es, Sockets(es), kept) && Matches(kept, ps)
  }

  ghost function Sockets(es: seq<AddrEntry>): set<nat> { set i: nat | i < |es| && es[i].socket.Some? }

  ghost predicate Matches(kept: seq<AddrEntry>, ps: seq<Peer>) {
    |kept| == |ps| && forall k :: 0 <= k < |ps| ==> FromSocket(kept[k], ps[k])
  }

  ghost predicate KeepsEntries(es: seq<AddrV2Entry>, ps: seq<Peer>) {
    |ps| == |es| && forall i :: 0 <= i < |es| ==> FromEntry(es[i], ps[i])
  }

  /** The peers one message brings. */
  ghost predicate BatchOf(m: NetworkMessage, ps: seq<Peer>) {
    match m
    case Addr(es) => KeepsSockets(es, ps)
    case AddrV2List(es) => KeepsEntries(es, ps)
    case _ => ps == []
  }

  /** `ps` is what the messages bring, message by message. */
  ghost predicate Brings(ms: seq<NetworkMessage>, ps: seq<Peer>) {
    if ms == [] then ps == []
    else exists k :: 0 <= k <= |ps| && Brings(ms[..|ms| - 1], ps[..k]) && BatchOf(ms[|ms| - 1], ps[k..])
  }

  /** One Pong with the same nonce for every Ping, in order. */
  ghost predicate AnswersPings(ms: seq<NetworkMessage>, out: seq<NetworkMessage>) {
    exists pings :: Selects(ms, Pings(ms), pings) && Answered(pings, out)
  }

  ghost function Pings(ms: seq<NetworkMessage>): set<nat> { set i: nat | i < |ms| && ms[i].Ping? }

  ghost predicate Answered(pings: seq<NetworkMessage>, out: seq<NetworkMessage>) {
    |pings| == |out| && forall k :: 0 <= k < |out| ==> pings[k].Ping? && out[k] == Pong(pings[k].nonce)
  }

  lemma SocketsLast(es: seq<AddrEntry>, e: AddrEntry)
    ensures Sockets(es + [e]) == if e.socket.Some? then Sockets(es) + {|es|} else Sockets(es)
  {
  }

  lemma SkipsLast(es: seq<AddrEntry>, ps: seq<Peer>, e: AddrEntry)
    requires KeepsSockets(es, ps) && e.socket.None?
    ensures KeepsSockets(es + [e], ps)
  {
    var kept :| Selects(es, Sockets(es), kept) && Matches(kept, ps);
    SelectsLast(es, Sockets(es), kept, e);
    SocketsLast(es, e);
  }

  lemma KeepsLast(es: seq<AddrEntry>, ps: seq<Peer>, e: AddrEntry, p: Peer)
    requires KeepsSockets(es, ps) && FromSocket(e, p)
    ensures KeepsSockets(es + [e], ps + [p])
  {
    var kept :| Selects(es, Sockets(es), kept) && Matches(kept, ps);
    SelectsLast(es, Sockets(es), kept, e);
    SocketsLast(es, e);
    assert Matches(kept + [e], ps + [p]);
  }

  /** Of a legacy message exactly the convertible entries are kept, in order. */
  lemma {:induction false} LegacyPeersContents(es: seq<AddrEntry>)
    ensures KeepsSockets(es, LegacyPeers(es))
  {
    if es == [] {
      SelectsNothing(es);
      assert Sockets(es) == {} && Matches([], []);
    } else {
      var n := |es| - 1;
      LegacyPeersContents(es[..n]);
      assert es == es[..n] + [es[n]];
      if es[n].socket.Some? {
        KeepsLast(es[..n], LegacyPeers(es[..n]), es[n], SocketPeer(es[n].socket.value, es[n].services));
      } else {
        SkipsLast(es[..n], LegacyPeers(es[..n]), es[n]);
      }
    }
  }

  /** Of a modern message every entry is kept, in order. */
  lemma {:induction false} ModernPeersContents(es: seq<AddrV2Entry>)
    ensures KeepsEntries(es, ModernPeers(es))
  {
    if es != [] {
      ModernPeersContents(es[..|es| - 1]);
    }
  }

  lemma PeersInContents(m: NetworkMessage)
    ensures BatchOf(m, PeersIn(m))
  {
    match m
    case Addr(es) => LegacyPeersContents(es);
    case AddrV2List(es) => ModernPeersContents(es);
    case _ =>
  }

  lemma {:induction false} AllPeersContents(ms: seq<NetworkMessage>)
    ensures Brings(ms, AllPeers(ms))
  {
    if ms != [] {
      var n := |ms| - 1;
      AllPeersContents(ms[..n]);
      PeersInContents(ms[n]);
      var k := |AllPeers(ms[..n])|;
      assert AllPeers(ms)[..k] == AllPeers(ms[..n]) && AllPeers(ms)[k..] == PeersIn(ms[n]);
    }
  }

  lemma PingsLast(ms: seq<NetworkMessage>, m: NetworkMessage)
    ensures Pings(ms + [m]) == if m.Ping? then Pings(ms) + {|ms|} else Pings(ms)
  {
  }

  lemma AnswersPingsLast(ms: seq<NetworkMessage>, out: seq<NetworkMessage>, m: NetworkMessage)
    requires AnswersPings(ms, out)
    ensures AnswersPings(ms + [m], out + PongFor(m))
  {
    var pings :| Selects(ms, Pings(ms), pings) && Answered(pings, out);
    SelectsLast(ms, Pings(ms), pings, m);
    PingsLast(ms, m);
    if m.Ping? {
      assert Answered(pings + [m], out + PongFor(m));
    } else {
      assert out + PongFor(m) == out;
    }
  }

  lemma NoPings()
    ensures AnswersPings([], [])
  {
    var none: seq<NetworkMessage> := [];
    SelectsNothing(none);
    assert Pings(none) == {} && Answered(none, none);
  }

  lemma {:induction false} PongsContents(ms: seq<NetworkMessage>)
    ensures AnswersPings(ms, Pongs(ms))
  {
    if ms == [] {
      NoPings();
    } else {
      var n := |ms| - 1;
      PongsContents(ms[..n]);
      AnswersPingsLast(ms[..n], Pongs(ms[..n]), ms[n]);
      assert ms == ms[..n] + [ms[n]];
    }
  }

  // ---- The program ----

  /** The peers of one message, collected entry by entry. */
  method CollectBatch(m: NetworkMessage) returns (batch: seq<Peer>)
    ensures batch == PeersIn(m) && BatchOf(m, batch)
  {
    batch := [];
    match m {
      case Addr(es) =>
        for i := 0 to |es|
          invariant batch == LegacyPeers(es[..i])
        {
          assert es[..i + 1][..i] == es[..i];
          match es[i].socket {
            case Some(V4(ip, port)) => batch := batch + [PeerWithServices(Ipv4(ip), port, es[i].services)];
            case Some(V6(ip, port)) => batch := batch + [PeerWithServices(Ipv6(ip), port, es[i].services)];
            case None =>
          }
        }
        assert es[..|es|] == es;
      case AddrV2List(es) =>
        for i := 0 to |es|
          invariant batch == ModernPeers(es[..i])
        {
          assert es[..i + 1][..i] == es[..i];
          batch := batch + [PeerWithServices(es[i].address, es[i].port, es[i].services)];
        }
        assert es[..|es|] == es;
      case _ =>
    }
    PeersInContents(m);
  }

  predicate Breaks(end: WaitEnd) {
    end.ReadFailed? || (end.Arrived? && end.message.Ping? && !end.writable)
  }

  /** Whether a wait ends the loop: a broken connection, or a timeout with addresses in hand. */
  function Verdict(end: WaitEnd, all: seq<Peer>): Option<Collected> {
    if Breaks(end) then Some(Failed) else if end.TimedOut? && all != [] then Some(Peers(all)) else None
  }

  /** What has been read, collected and written. */
  datatype Log = Log(heard: seq<NetworkMessage>, all: seq<Peer>, pongs: seq<NetworkMessage>)

  ghost predicate Faithful(log: Log) {
    log.all == AllPeers(log.heard) && log.pongs == Pongs(log.heard)
  }

  /** The body of the loop: the wait's message is acted on unless the connection breaks. */
  method HandleWait(end: WaitEnd, log: Log) returns (verdict: Option<Collected>, log': Log)
    requires Faithful(log)
    ensures Faithful(log')
    ensures log'.heard == if end.Arrived? && !Breaks(end) then log.heard + [end.message] else log.heard
    ensures verdict == Verdict(end, log'.all)
  {
    log' := log;
    match end {
      case ReadFailed(_) => verdict := Some(Failed);
      case TimedOut(_) =>
        verdict := if log.all != [] then Some(Peers(log.all)) else None;
      case Arrived(message, _, writable) =>
        if message.Ping? && !writable {
          return Some(Failed), log;
        }
        log' := Answer(message, log);
        verdict := None;
    }
  }

  /** Acts on a message: collects its peers, answers a ping. */
  method Answer(message: NetworkMessage, log: Log) returns (log': Log)
    requires Faithful(log)
    ensures Faithful(log') && log'.heard == log.heard + [message]
  {
    var batch := CollectBatch(message);
    var pongs := log.pongs;
    if message.Ping? {
      pongs := pongs + [Pong(message.nonce)];
    }
    OneMoreMessage(log.heard, message);
    log' := Log(log.heard + [message], log.all + batch, pongs);
  }

  /** What the first `k` waits make the loop return: the verdict of the last one, or else all the peers. */
  ghost function Result(waits: nat -> Wait, k: nat): Option<Collected> {
    if k == 0 then None else Verdict(waits(k - 1).end, AllPeers(Read(waits, k)))
  }

  /** After `k` passes the time allowed is up, a timer that fires counting five seconds, or the last wait ends the loop. */
  ghost predicate Settles(timeout: nat, waits: nat -> Wait, k: nat) {
    Nominal(waits, k) >= timeout || Result(waits, k).Some?
  }

  /** None of the first `k` waits ended the loop. */
  ghost predicate Undecided(waits: nat -> Wait, k: nat) {
    forall i :: 0 <= i <= k ==> Result(waits, i).None?
  }

  /** The loop left after these passes, and not before: the last wait ended it, or the time allowed had passed. */
  ghost predicate Outcome(timeout: nat, waits: nat -> Wait, timers: seq<nat>, r: Collected) {
    var k := |timers|;
    && Paced(timeout, waits, timers)
    && (k > 0 ==> Undecided(waits, k - 1))
    && match Result(waits, k)
       case Some(end) => r == end
       case None => Checked(waits, timers) >= timeout && r == Peers(AllPeers(Read(waits, k)))
  }

  /**
   The loop ended rightly: every wait before the last kept the connection and, if it timed out, found no
   address read so far; it failed because the last wait broke the connection; and it succeeded with
   what the messages bring, at a timeout with some address or when the time allowed had passed.
   */
  ghost predicate EndsRightly(timeout: nat, waits: nat -> Wait, timers: seq<nat>, r: Collected) {
    var k := |timers|;
    && (forall i :: 0 <= i < k - 1 ==> GoesOn(waits, i))
    && (r.Failed? <==> k > 0 && var end := waits(k - 1).end;
         end.ReadFailed? || (end.Arrived? && end.message.Ping? && !end.writable))
    && (r.Peers? ==>
         && Brings(Read(waits, k), r.peers)
         && (Checked(waits, timers) >= timeout || (k > 0 && waits(k - 1).end.TimedOut? && r.peers != [])))
  }

  ghost predicate GoesOn(waits: nat -> Wait, i: nat) {
    var end := waits(i).end;
    && !end.ReadFailed?
    && (end.Arrived? && end.message.Ping? ==> end.writable)
    && (end.TimedOut? ==> Brings(Read(waits, i), []))
  }

  lemma OutcomeEndsRightly(timeout: nat, waits: nat -> Wait, timers: seq<nat>, r: Collected)
    requires Outcome(timeout, waits, timers, r)
    ensures EndsRightly(timeout, waits, timers, r)
  {
    var k := |timers|;
    AllPeersContents(Read(waits, k));
    forall i | 0 <= i < k - 1 ensures GoesOn(waits, i) {
      assert Result(waits, i + 1).None?;
      AllPeersContents(Read(waits, i));
    }
  }

  /** The loop condition is evaluated at time `elapsed`, and the timers so far follow the policy. */
  ghost predicate InStep(timeout: nat, waits: nat -> Wait, timers: seq<nat>, elapsed: nat) {
    elapsed == Checked(waits, timers) && Paced(timeout, waits, timers)
  }

  /** Arms a timer for the next wait, and waits; `elapsed'` is when the loop condition is evaluated after it. */
  method ArmTimer(timeout: nat, waits: nat -> Wait, timers: seq<nat>, elapsed: nat) returns (timers': seq<nat>, elapsed': nat)
    requires InStep(timeout, waits, timers, elapsed) && elapsed < timeout
    ensures InStep(timeout, waits, timers', elapsed') && timers <= timers' && |timers'| == |timers| + 1
  {
    var w := waits(|timers|);
    var armed := elapsed + w.arming;
    var left := if armed >= timeout then 0 else timeout - armed;
    var duration := if WAIT_LIMIT <= left then WAIT_LIMIT else left;
    timers' := timers + [duration];
    elapsed' := Ends(armed, duration, w.end) + waits(|timers'|).before;
    PacedOnce(timeout, waits, timers, duration);
  }

  /** The verdict on a wait is the loop's result, and the log follows what was read unless the connection broke. */
  lemma VerdictIsResult(waits: nat -> Wait, k: nat, log: Log)
    requires k > 0 && Faithful(log)
    requires var end := waits(k - 1).end;
      log.heard == if end.Arrived? && !Breaks(end) then Read(waits, k - 1) + [end.message] else Read(waits, k - 1)
    ensures Result(waits, k) == Verdict(waits(k - 1).end, log.all)
    ensures !Breaks(waits(k - 1).end) ==> log.heard == Read(waits, k)
  {
  }

  /** Where the loop stands when its condition is evaluated. */
  ghost predicate Looping(timeout: nat, waits: nat -> Wait, timers: seq<nat>, elapsed: nat, log: Log) {
    && InStep(timeout, waits, timers, elapsed) && Undecided(waits, |timers|)
    && Faithful(log) && log.heard == Read(waits, |timers|)
  }

  /** One pass of the loop; a verdict ends it. */
  method Pass(timeout: nat, waits: nat -> Wait, timers: seq<nat>, elapsed: nat, log: Log)
    returns (verdict: Option<Collected>, timers': seq<nat>, elapsed': nat, log': Log)
    requires Looping(timeout, waits, timers, elapsed, log) && elapsed < timeout
    ensures |timers'| == |timers| + 1 && Faithful(log')
    ensures verdict.None? ==> Looping(timeout, waits, timers', elapsed', log')
    ensures verdict.Some? ==> Outcome(timeout, waits, timers', verdict.value)
    ensures log'.heard == Read(waits, if verdict == Some(Failed) then |timers| else |timers'|)
  {
    timers', elapsed' := ArmTimer(timeout, waits, timers, elapsed);
    verdict, log' := HandleWait(waits(|timers|).end, log);
    VerdictIsResult(waits, |timers'|, log');
  }

  /** The loop, after GetAddr was written. All waits but a failed one had their message acted on. */
  method Collect(timeout: nat, waits: nat -> Wait, ghost horizon: nat) returns (r: Collected, log: Log, timers: seq<nat>)
    requires Settles(timeout, waits, horizon)
    ensures |timers| <= horizon && Outcome(timeout, waits, timers, r)
    ensures r.Failed? ==> timers != []
    ensures Faithful(log) && log.heard == Read(waits, if r.Failed? then |timers| - 1 else |timers|)
  {
    log, timers := Log([], [], []), [];
    var elapsed: nat := waits(0).before;
    while elapsed < timeout
      invariant |timers| <= horizon && Looping(timeout, waits, timers, elapsed, log)
      decreases horizon - |timers|
    {
      NotSettledYet(timeout, waits, timers, elapsed, log, horizon);
      var verdict;
      verdict, timers, elapsed, log := Pass(timeout, waits, timers, elapsed, log);
      if verdict.Some? { return verdict.value, log, timers; }
    }
    r := Peers(log.all);
  }

  /**
   The whole request. Its outcome is that of the first wait that ends the loop, or all the addresses
   once the time allowed has passed; what is written is GetAddr and then one Pong per Ping, in order.
   Timers are armed by the policy, so at most the time allowed divided by five seconds, rounded up,
   of them fire, and the request ends in the time allowed but for what its last pass itself took.
   It ends on every schedule that some number of passes settles, and on any other the
   peer sends messages without end within the time allowed.
   */
  method GetPeers(timeout: nat, greetable: bool, waits: nat -> Wait, ghost horizon: nat)
    returns (r: Collected, sent: seq<NetworkMessage>, timers: seq<nat>)
    requires greetable ==> Settles(timeout, waits, horizon)
    ensures !greetable ==> r.Failed? && sent == [] && timers == []
    ensures greetable ==> |timers| <= horizon && sent != [] && sent[0] == GetAddr
    ensures greetable ==> Served(timeout, waits, timers, r, sent[1..])
    ensures Timeouts(waits, |timers|) > 0 ==> 5_000_000_000 * (Timeouts(waits, |timers|) - 1) < timeout
    ensures timers != [] ==> var w := waits(|timers| - 1); Clock(waits, timers) <= timeout + w.arming + w.end.delay
  {
    if !greetable {
      return Failed, [], [];
    }
    var log;
    r, log, timers := Collect(timeout, waits, horizon);
    sent := [GetAddr] + log.pongs;
    assert sent[1..] == log.pongs;
    Achieved(timeout, waits, timers, r, log);
  }

  /** The timers follow the policy, the loop ended rightly, and every ping of a message acted on was answered. */
  ghost predicate Served(timeout: nat, waits: nat -> Wait, timers: seq<nat>, r: Collected, pongs: seq<NetworkMessage>) {
    && Paced(timeout, waits, timers) && EndsRightly(timeout, waits, timers, r)
    && (r.Failed? ==> timers != [] && AnswersPings(Read(waits, |timers| - 1), pongs))
    && (r.Peers? ==> AnswersPings(Read(waits, |timers|), pongs))
  }

  /** What the loop's own result amounts to. */
  lemma Achieved(timeout: nat, waits: nat -> Wait, timers: seq<nat>, r: Collected, log: Log)
    requires Outcome(timeout, waits, timers, r) && Faithful(log)
    requires r.Failed? ==> timers != []
    requires log.heard == Read(waits, if r.Failed? then |timers| - 1 else |timers|)
    ensures Served(timeout, waits, timers, r, log.pongs)
    ensures Timeouts(waits, |timers|) > 0 ==> 5_000_000_000 * (Timeouts(waits, |timers|) - 1) < timeout
    ensures timers != [] ==> var w := waits(|timers| - 1); Clock(waits, timers) <= timeout + w.arming + w.end.delay
  {
    OutcomeEndsRightly(timeout, waits, timers, r);
    PongsContents(log.heard);
    FewTimeouts(timeout, waits, timers);
    EndsInTime(timeout, waits, timers);
  }

  // ---- What the policy achieves ----

  lemma PacedOnce(timeout: nat, waits: nat -> Wait, timers: seq<nat>, duration: nat)
    requires Paced(timeout, waits, timers) && Checked(waits, timers) < timeout
    requires RightTimer(timeout, Armed(waits, timers), duration)
    ensures Paced(timeout, waits, timers + [duration])
    ensures Clock(waits, timers + [duration]) == Ends(Armed(waits, timers), duration, waits(|timers|).end)
  {
    var more := timers + [duration];
    assert more[..|timers|] == timers;
    forall i | 0 <= i < |timers|
      ensures Checked(waits, more[..i]) < timeout && RightTimer(timeout, Armed(waits, more[..i]), more[i])
    {
      assert more[..i] == timers[..i] && more[i] == timers[i];
    }
  }

  lemma PacedPrefix(timeout: nat, waits: nat -> Wait, timers: seq<nat>, n: nat)
    requires Paced(timeout, waits, timers) && n <= |timers|
    ensures Paced(timeout, waits, timers[..n])
  {
    assert forall i :: 0 <= i < n ==> timers[..n][..i] == timers[..i];
  }

  /** The clock never falls behind the nominal time before the time allowed has passed. */
  lemma {:induction false} KeepsPace(timeout: nat, waits: nat -> Wait, timers: seq<nat>)
    requires Paced(timeout, waits, timers)
    ensures Clock(waits, timers) >= timeout || Clock(waits, timers) >= Nominal(waits, |timers|)
  {
    if timers != [] {
      var n := |timers| - 1;
      PacedPrefix(timeout, waits, timers, n);
      KeepsPace(timeout, waits, timers[..n]);
    }
  }

  lemma {:induction false} TimeoutsTakeTime(waits: nat -> Wait, k: nat)
    ensures Nominal(waits, k) >= WAIT_LIMIT * Timeouts(waits, k)
  {
    if k > 0 {
      TimeoutsTakeTime(waits, k - 1);
    }
  }

  lemma NotSettledYet(timeout: nat, waits: nat -> Wait, timers: seq<nat>, elapsed: nat, log: Log, horizon: nat)
    requires Looping(timeout, waits, timers, elapsed, log) && elapsed < timeout && Settles(timeout, waits, horizon)
    ensures |timers| != horizon
  {
    KeepsPace(timeout, waits, timers);
  }

  /** The clock is never ahead of the nominal time either. */
  lemma {:induction false} WithinNominal(timeout: nat, waits: nat -> Wait, timers: seq<nat>)
    requires Paced(timeout, waits, timers)
    ensures Clock(waits, timers) <= Nominal(waits, |timers|)
  {
    if timers != [] {
      var n := |timers| - 1;
      PacedPrefix(timeout, waits, timers, n);
      WithinNominal(timeout, waits, timers[..n]);
    }
  }

  /** The loop returns only on waits that settle the request; by `Collect` it returns on all of those. */
  lemma ReturnsOnlyIfSettled(timeout: nat, waits: nat -> Wait, timers: seq<nat>, r: Collected)
    requires Outcome(timeout, waits, timers, r)
    ensures exists k :: Settles(timeout, waits, k)
  {
    WithinNominal(timeout, waits, timers);
    assert Settles(timeout, waits, |timers|) || Settles(timeout, waits, |timers| + 1);
  }

  lemma FewTimeouts(timeout: nat, waits: nat -> Wait, timers: seq<nat>)
    requires Paced(timeout, waits, timers)
    ensures Timeouts(waits, |timers|) > 0 ==> WAIT_LIMIT * (Timeouts(waits, |timers|) - 1) < timeout
  {
    if timers != [] {
      var n := |timers| - 1;
      PacedPrefix(timeout, waits, timers, n);
      KeepsPace(timeout, waits, timers[..n]);
      TimeoutsTakeTime(waits, n);
      assert Checked(waits, timers[..n]) < timeout;
    }
  }

  lemma EndsInTime(timeout: nat, waits: nat -> Wait, timers: seq<nat>)
    requires Paced(timeout, waits, timers)
    ensures timers != [] ==> var w := waits(|timers| - 1); Clock(waits, timers) <= timeout + w.arming + w.end.delay
  {
    if timers != [] {
      var n := |timers| - 1;
      assert Checked(waits, timers[..n]) < timeout && RightTimer(timeout, Armed(waits, timers[..n]), timers[n]);
    }
  }
}
