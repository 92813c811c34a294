/**
 The version handshake of one endpoint (`connection/src/connection/futures.rs`) as a function of the
 messages it reads, and what that function means.
 */
module Handshake {
  import opened Peers
  import opened Messages
  import opened Features

  datatype Local = Local(version: PeerProtocolVersion, services: nat, wants: Preferences, nonce: nat)
  {
    /** The version number we speak: the configured one, or 70001. */
    function Number(): (n: nat)
      ensures version == KnownVersion(n) || (version == UnknownVersion && n == 70001)
    {
      version.UnwrapOr(MIN_PROTOCOL_VERSION)
    }

    function Greeting(): NetworkMessage { Version(VersionMessage(Number(), services, nonce)) }
  }

  datatype HandshakeState = VersionSent | VersionReceived | VerackReceived | Complete

  /** `out` is everything written; `looped` records a failure with ConnectionLoop. */
  datatype Endpoint = Endpoint(
    phase: HandshakeState,
    looped: bool,
    peer: Peer,
    conn: ConnectionState,
    out: seq<NetworkMessage>)

  function Min(a: nat, b: nat): (m: nat)
    ensures m <= a && m <= b && (m == a || m == b)
  {
    if a <= b then a else b
  }

  function Start(l: Local, peer: Peer): Endpoint {
    Endpoint(VersionSent, false, peer, FRESH, [l.Greeting()])
  }

  function OnVerack(phase: HandshakeState): HandshakeState {
    match phase
    case VersionSent => VerackReceived
    case VersionReceived => Complete
    case _ => phase
  }

  predicate Announces(l: Local, f: Feature, effective: nat) {
    l.wants.Wants(f) && effective >= f.Threshold()
  }

  /** The negotiation messages, in the order they are written. */
  function Negotiation(l: Local, effective: nat): seq<NetworkMessage> {
      (if Announces(l, AddrV2Support, effective) then [SendAddrV2] else [])
    + (if Announces(l, HeaderAnnouncements, effective) then [SendHeaders] else [])
    + (if Announces(l, WtxidAnnouncements, effective) then [WtxidRelay] else [])
  }

  function OnVersion(l: Local, e: Endpoint, v: VersionMessage): Endpoint {
    if v.nonce == l.nonce then e.(looped := true)
    else if e.phase == VersionSent || e.phase == VerackReceived then
      var effective := Min(l.Number(), v.version);
      e.(peer := e.peer.Introduced(v.services, v.version),
         conn := e.conn.(effective := KnownVersion(effective)).Announced(Negotiation(l, effective)),
         out := e.out + Negotiation(l, effective) + [Verack],
         phase := if e.phase == VerackReceived then Complete else VersionReceived)
    else e
  }

  /** Reading one message. After completion, or once the handshake failed, only the feature state follows. */
  function Receive(l: Local, e: Endpoint, m: NetworkMessage): Endpoint {
    var e' := e.(conn := e.conn.OnRead(m));
    if e.phase == Complete || e.looped then e'
    else match m
      case Version(v) => OnVersion(l, e', v)
      case Verack => e'.(phase := OnVerack(e.phase))
      case _ => e'
  }

  /** The endpoint after reading `ms`. */
  function Run(l: Local, peer: Peer, ms: seq<NetworkMessage>): Endpoint {
    if ms == [] then Start(l, peer)
    else Receive(l, Run(l, peer, ms[..|ms| - 1]), ms[|ms| - 1])
  }

  // ---- Reference meaning ----

  ghost predicate HasVersion(ms: seq<NetworkMessage>) { exists m :: m in ms && m.Version? }
  ghost predicate Both(ms: seq<NetworkMessage>) { HasVersion(ms) && Verack in ms }

  /** Position `j` holds the first version message. */
  ghost predicate FirstVersionAt(ms: seq<NetworkMessage>, j: nat) {
    j < |ms| && ms[j].Version? && forall i :: 0 <= i < j ==> !ms[i].Version?
  }

  /** A version message with our own nonce arrives at `j`, before the handshake could complete. */
  ghost predicate LoopAt(l: Local, ms: seq<NetworkMessage>, j: nat) {
    j < |ms| && ms[j].Version? && ms[j].payload.nonce == l.nonce && !Both(ms[..j])
  }

  ghost predicate Loops(l: Local, ms: seq<NetworkMessage>) { exists j: nat :: LoopAt(l, ms, j) }

  /** `version` is the smaller of two version numbers. */
  ghost predicate Smaller(version: PeerProtocolVersion, ours: nat, theirs: nat) {
    && version.KnownVersion?
    && version.number <= ours && version.number <= theirs
    && (version.number == ours || version.number == theirs)
  }

  /** The record of a peer after it gave its services and version number. */
  ghost predicate TakesOver(before: Peer, after: Peer, services: nat, number: nat) {
    && after.address == before.address && after.port == before.port
    && after.services == KnownServices(services) && after.version == KnownVersion(number)
  }

  /** The features announced to a peer with version number `theirs`: BIP-155 and BIP-339 need 70016, BIP-130 needs 70012. */
  ghost predicate AnnouncesExactly(l: Local, theirs: nat, out: seq<NetworkMessage>) {
    && (SendAddrV2 in out <==> l.wants.addrV2 && l.Number() >= 70016 && theirs >= 70016)
    && (SendHeaders in out <==> l.wants.sendHeaders && l.Number() >= 70012 && theirs >= 70012)
    && (WtxidRelay in out <==> l.wants.wtxidRelay && l.Number() >= 70016 && theirs >= 70016)
  }

  /** The features enabled: those we prefer and the peer announced, if both version numbers allow. */
  ghost predicate EnablesExactly(conn: ConnectionState, l: Local, theirs: nat, announced: Preferences) {
    && (conn.addrV2 == Enabled <==> l.wants.addrV2 && announced.addrV2 && l.Number() >= 70016 && theirs >= 70016)
    && (conn.sendHeaders == Enabled <==> l.wants.sendHeaders && announced.sendHeaders && l.Number() >= 70012 && theirs >= 70012)
    && (conn.wtxidRelay == Enabled <==> l.wants.wtxidRelay && announced.wtxidRelay && l.Number() >= 70016 && theirs >= 70016)
  }

  /** What an endpoint that met first version `v` must look like. */
  ghost predicate Greeted(l: Local, peer: Peer, e: Endpoint, v: VersionMessage) {
    && Smaller(e.conn.effective, l.Number(), v.version)
    && TakesOver(peer, e.peer, v.services, v.version)
    && e.out == [Version(VersionMessage(l.Number(), l.services, l.nonce))] + Negotiation(l, e.conn.effective.number) + [Verack]
  }

  // ---- The proof, by induction on the messages read ----

  lemma HasVersionAppend(ms: seq<NetworkMessage>, m: NetworkMessage)
    ensures HasVersion(ms + [m]) <==> HasVersion(ms) || m.Version?
    ensures Verack in ms + [m] <==> Verack in ms || m == Verack
  {
    if HasVersion(ms) {
      var x :| x in ms && x.Version?;
      assert x in ms + [m];
    }
    assert m in ms + [m];
  }

  lemma LoopsAppend(l: Local, ms: seq<NetworkMessage>, m: NetworkMessage)
    ensures Loops(l, ms + [m]) <==> Loops(l, ms) || (m.Version? && m.payload.nonce == l.nonce && !Both(ms))
  {
    var all := ms + [m];
    assert all[..|ms|] == ms;
    assert forall j :: 0 <= j < |ms| ==> all[..j] == ms[..j];
    assert forall j: nat :: LoopAt(l, ms, j) ==> LoopAt(l, all, j);
    if m.Version? && m.payload.nonce == l.nonce && !Both(ms) { assert LoopAt(l, all, |ms|); }
    if Loops(l, all) && !Loops(l, ms) {
      var j: nat :| LoopAt(l, all, j);
      assert j >= |ms| || LoopAt(l, ms, j);
    }
  }

  /** The phase is the pair (version read, verack read), and failure is a loop before completion. */
  lemma {:induction false} PhaseMeaning(l: Local, peer: Peer, ms: seq<NetworkMessage>)
    ensures Run(l, peer, ms).looped <==> Loops(l, ms)
    ensures !Loops(l, ms) ==>
      var phase := Run(l, peer, ms).phase;
      && (phase == Complete <==> HasVersion(ms) && Verack in ms)
      && (phase == VersionReceived <==> HasVersion(ms) && Verack !in ms)
      && (phase == VerackReceived <==> !HasVersion(ms) && Verack in ms)
      && (phase == VersionSent <==> !HasVersion(ms) && Verack !in ms)
  {
    if ms == [] {
    } else {
      var n := |ms| - 1;
      var front := ms[..n];
      assert ms == front + [ms[n]];
      PhaseMeaning(l, peer, front);
      HasVersionAppend(front, ms[n]);
      LoopsAppend(l, front, ms[n]);
    }
  }

  lemma NegotiationContents(l: Local, effective: nat, f: Feature)
    ensures f.Message() in Negotiation(l, effective) <==> Announces(l, f, effective)
    ensures Verack !in Negotiation(l, effective) && !HasVersion(Negotiation(l, effective))
    ensures |Negotiation(l, effective)| <= 3
  {
  }

  lemma OutputContents(l: Local, effective: nat, f: Feature)
    ensures f.Message() in [l.Greeting()] + Negotiation(l, effective) + [Verack] <==> Announces(l, f, effective)
  {
    NegotiationContents(l, effective, f);
  }

  lemma GreetedStays(l: Local, peer: Peer, e: Endpoint, m: NetworkMessage, v: VersionMessage)
    requires Greeted(l, peer, e, v) && (e.phase == VersionReceived || e.phase == Complete)
    ensures Greeted(l, peer, Receive(l, e, m), v)
  {
  }

  lemma GreetedNow(l: Local, peer: Peer, e: Endpoint, m: NetworkMessage)
    requires e.out == [l.Greeting()] && e.peer == peer && !e.looped
    requires e.phase == VersionSent || e.phase == VerackReceived
    requires m.Version? && m.payload.nonce != l.nonce
    ensures Greeted(l, peer, Receive(l, e, m), m.payload)
  {
  }

  /** Peer data, effective version and output come from the first version message and from nothing else. */
  lemma {:induction false} GreetingMeaning(l: Local, peer: Peer, ms: seq<NetworkMessage>)
    requires !Loops(l, ms)
    ensures forall j: nat :: FirstVersionAt(ms, j) ==> Greeted(l, peer, Run(l, peer, ms), ms[j].payload)
    ensures !HasVersion(ms) ==>
      var e := Run(l, peer, ms); e.out == [l.Greeting()] && e.peer == peer && e.conn.effective == UnknownVersion
  {
    if ms == [] {
    } else {
      var n := |ms| - 1;
      var front := ms[..n];
      assert ms == front + [ms[n]];
      LoopsAppend(l, front, ms[n]);
      HasVersionAppend(front, ms[n]);
      GreetingMeaning(l, peer, front);
      PhaseMeaning(l, peer, front);
      var e := Run(l, peer, front);
      forall j: nat | FirstVersionAt(ms, j) ensures Greeted(l, peer, Run(l, peer, ms), ms[j].payload) {
        if j < n {
          assert FirstVersionAt(front, j);
          assert front[j] in front;
          GreetedStays(l, peer, e, ms[n], ms[j].payload);
        } else {
          assert !HasVersion(front);
          GreetedNow(l, peer, e, ms[n]);
        }
      }
    }
  }

  /** Each feature's state is the pair (we announced it, we received it). */
  lemma {:induction false} FeatureMeaning(l: Local, peer: Peer, ms: seq<NetworkMessage>)
    ensures Run(l, peer, ms).conn.IsHistory(Run(l, peer, ms).out, ms)
  {
    if ms == [] {
      forall f: Feature ensures f.Message() !in [l.Greeting()] {}
    } else {
      var n := |ms| - 1;
      assert ms == ms[..n] + [ms[n]];
      FeatureMeaning(l, peer, ms[..n]);
      FeatureStep(l, Run(l, peer, ms[..n]), ms[..n], ms[n]);
    }
  }

  /** Answering a version only up to some of the negotiation messages leaves each feature in the state of its history. */
  lemma AnsweredInPart(e: Endpoint, ms: seq<NetworkMessage>, m: NetworkMessage, effective: nat, part: seq<NetworkMessage>)
    requires e.conn.IsHistory(e.out, ms)
    ensures e.conn.OnRead(m).(effective := KnownVersion(effective)).Announced(part).IsHistory(e.out + part, ms + [m])
  {
    var conn := e.conn.OnRead(m).(effective := KnownVersion(effective));
    OnReadIsHistory(e.conn, e.out, ms, m);
    forall f: Feature ensures conn.Get(f) == FromHistory(f.Message() in e.out, f.Message() in ms + [m]) {
      assert conn.Get(f) == e.conn.OnRead(m).Get(f);
    }
    AnnouncedIsHistory(conn, e.out, part, ms + [m]);
  }

  lemma FeatureStep(l: Local, e: Endpoint, ms: seq<NetworkMessage>, m: NetworkMessage)
    requires e.conn.IsHistory(e.out, ms)
    ensures Receive(l, e, m).conn.IsHistory(Receive(l, e, m).out, ms + [m])
  {
    OnReadIsHistory(e.conn, e.out, ms, m);
    if m.Version? {
      var effective := Min(l.Number(), m.payload.version);
      var more := Negotiation(l, effective);
      AnsweredInPart(e, ms, m, effective, more);
      VerackIsNoFeature(e.conn.OnRead(m).(effective := KnownVersion(effective)).Announced(more), e.out + more, ms + [m]);
    }
  }

  lemma VerackIsNoFeature(conn: ConnectionState, out: seq<NetworkMessage>, ms: seq<NetworkMessage>)
    requires conn.IsHistory(out, ms)
    ensures conn.IsHistory(out + [Verack], ms)
  {
    forall f: Feature ensures conn.Get(f) == FromHistory(f.Message() in out + [Verack], f.Message() in ms) {
      assert conn.Get(f) == FromHistory(f.Message() in out, f.Message() in ms);
    }
  }

  // ---- Where the handshake stops ----

  /** The first `k` messages are the shortest prefix with a version and a verack, and no loop. */
  ghost predicate CompletesAt(l: Local, all: seq<NetworkMessage>, k: nat) {
    0 < k <= |all| && Both(all[..k]) && !Both(all[..k - 1]) && !Loops(l, all[..k])
  }

  /** Message `k - 1` is the first version with our nonce, and the handshake had not completed. */
  ghost predicate LoopsFirstAt(l: Local, all: seq<NetworkMessage>, k: nat) {
    0 < k <= |all| && LoopAt(l, all, k - 1) && !Loops(l, all[..k - 1])
  }

  lemma RunStep(l: Local, peer: Peer, all: seq<NetworkMessage>, k: nat)
    requires k < |all|
    requires var e := Run(l, peer, all[..k]); e.phase != Complete && !e.looped
    ensures Run(l, peer, all[..k + 1]) == Receive(l, Run(l, peer, all[..k]), all[k])
    ensures Run(l, peer, all[..k + 1]).looped <==> LoopsFirstAt(l, all, k + 1)
    ensures !Run(l, peer, all[..k + 1]).looped && Run(l, peer, all[..k + 1]).phase == Complete <==> CompletesAt(l, all, k + 1)
  {
    var ms := all[..k + 1];
    assert ms[..k] == all[..k] && ms == all[..k] + [all[k]];
    PhaseMeaning(l, peer, all[..k]);
    PhaseMeaning(l, peer, ms);
    LoopsAppend(l, all[..k], all[k]);
  }

  lemma BothGrows(all: seq<NetworkMessage>, j: nat, k: nat)
    requires j <= k <= |all|
    ensures Both(all[..j]) ==> Both(all[..k])
  {
    assert forall m :: m in all[..j] ==> m in all[..k];
  }

  /** A stream cannot make the handshake both complete and loop. */
  lemma StopsOneWay(l: Local, all: seq<NetworkMessage>, k: nat, j: nat)
    requires CompletesAt(l, all, k)
    ensures !LoopsFirstAt(l, all, j)
  {
    if k < j <= |all| {
      BothGrows(all, k, j - 1);
    } else if 0 < j <= k {
      assert all[..k][..j - 1] == all[..j - 1];
      assert LoopAt(l, all, j - 1) ==> LoopAt(l, all[..k], j - 1);
    }
  }

  /** If the whole stream leaves the handshake waiting, no prefix of it stops the handshake. */
  lemma WaitingNeverStopped(l: Local, peer: Peer, all: seq<NetworkMessage>, k: nat)
    requires var e := Run(l, peer, all); e.phase != Complete && !e.looped
    ensures !CompletesAt(l, all, k) && !LoopsFirstAt(l, all, k)
  {
    PhaseMeaning(l, peer, all);
    assert all[..|all|] == all;
    if k <= |all| { BothGrows(all, k, |all|); }
  }

  lemma {:induction false} OutputGrows(l: Local, peer: Peer, all: seq<NetworkMessage>, j: nat, k: nat)
    requires j <= k <= |all|
    ensures Run(l, peer, all[..j]).out <= Run(l, peer, all[..k]).out
    ensures Run(l, peer, all[..j]).looped ==> Run(l, peer, all[..k]).looped
    decreases k
  {
    if j < k {
      OutputGrows(l, peer, all, j, k - 1);
      assert all[..k][..k - 1] == all[..k - 1];
    }
  }

  /**
   A write the transport refused belongs to the output of the prefix that stops the handshake too,
   so no prefix stops the handshake within the number of writes the transport accepted.
   */
  lemma RefusedNeverStopped(l: Local, peer: Peer, all: seq<NetworkMessage>, read: nat, k: nat)
    requires read <= |all| && !Run(l, peer, all[..read]).looped
    requires CompletesAt(l, all, k) || LoopsFirstAt(l, all, k)
    ensures |Run(l, peer, all[..k]).out| >= |Run(l, peer, all[..read]).out|
  {
    if read <= k {
      OutputGrows(l, peer, all, read, k);
    } else {
      OutputGrows(l, peer, all, k, read);
      assert all[..read] == all[..k] + all[k..read];
      if CompletesAt(l, all, k) {
        CompletionIsFinal(l, peer, all[..k], all[k..read]);
      } else {
        assert LoopAt(l, all[..k], k - 1) by { assert all[..k][..k - 1] == all[..k - 1]; }
        PhaseMeaning(l, peer, all[..k]);
      }
    }
  }

  // ---- What a completed handshake sends and settles on ----

  lemma FirstVersionExists(ms: seq<NetworkMessage>) returns (j: nat)
    requires HasVersion(ms)
    ensures FirstVersionAt(ms, j)
  {
    var m :| m in ms && m.Version?;
    var k :| 0 <= k < |ms| && ms[k] == m;
    j := 0;
    while !ms[j].Version?
      invariant j <= k
      invariant forall i :: 0 <= i < j ==> !ms[i].Version?
      decreases k - j
    {
      j := j + 1;
    }
  }

  /** The fixed order of the messages an endpoint writes. */
  function Order(m: NetworkMessage): nat {
    match m
    case Version(_) => 0
    case SendAddrV2 => 1
    case SendHeaders => 2
    case WtxidRelay => 3
    case Verack => 4
    case _ => 5
  }

  /** One version first, each feature at most once and before the verack, one verack last. */
  ghost predicate Ordered(out: seq<NetworkMessage>) {
    && |out| >= 2 && out[0].Version? && out[|out| - 1] == Verack
    && forall i, j :: 0 <= i < j < |out| ==> Order(out[i]) < Order(out[j]) <= 4
  }

  /** Strictly increasing, and strictly between a version and a verack. */
  ghost predicate Increasing(ms: seq<NetworkMessage>) {
    && (forall i :: 0 <= i < |ms| ==> 0 < Order(ms[i]) < 4)
    && (forall i, j :: 0 <= i < j < |ms| ==> Order(ms[i]) < Order(ms[j]))
  }

  lemma IncreasingLast(ms: seq<NetworkMessage>, m: NetworkMessage, n: nat)
    requires Increasing(ms) && n <= Order(m) < 4 && forall i :: 0 <= i < |ms| ==> Order(ms[i]) < n
    requires n > 0
    ensures Increasing(ms + [m]) && forall i :: 0 <= i < |ms + [m]| ==> Order((ms + [m])[i]) <= Order(m)
  {
  }

  lemma ThreeIncreasing(a: seq<NetworkMessage>, b: seq<NetworkMessage>, c: seq<NetworkMessage>)
    requires a == [] || a == [SendAddrV2]
    requires b == [] || b == [SendHeaders]
    requires c == [] || c == [WtxidRelay]
    ensures Increasing(a + b + c)
  {
    var ms := a + b;
    if b == [] { assert ms == a; } else { IncreasingLast(a, SendHeaders, 2); }
    if c == [] { assert ms + c == ms; } else { IncreasingLast(ms, WtxidRelay, 3); }
  }

  lemma NegotiationIsIncreasing(l: Local, effective: nat)
    ensures Increasing(Negotiation(l, effective))
  {
    ThreeIncreasing(
      if Announces(l, AddrV2Support, effective) then [SendAddrV2] else [],
      if Announces(l, HeaderAnnouncements, effective) then [SendHeaders] else [],
      if Announces(l, WtxidAnnouncements, effective) then [WtxidRelay] else []);
  }

  lemma Enclosed(first: NetworkMessage, ms: seq<NetworkMessage>)
    requires first.Version? && Increasing(ms)
    ensures Ordered([first] + ms + [Verack])
  {
    var out := [first] + ms + [Verack];
    forall i, j | 0 <= i < j < |out| ensures Order(out[i]) < Order(out[j]) <= 4 {
      assert j < |out| - 1 ==> out[j] == ms[j - 1];
      assert i > 0 ==> out[i] == ms[i - 1];
    }
  }

  lemma GreetedIsOrdered(l: Local, peer: Peer, e: Endpoint, v: VersionMessage)
    requires Greeted(l, peer, e, v)
    ensures Ordered(e.out)
  {
    NegotiationIsIncreasing(l, Min(l.Number(), v.version));
    Enclosed(l.Greeting(), Negotiation(l, Min(l.Number(), v.version)));
  }

  /**
   Whatever arrives, in whatever order and however often, a completed handshake has written our
   version, then the announced features in the fixed order, then one verack, as BIP-155 and BIP-339
   ask, and has taken the effective version and the peer's data from the first version message.
   */
  lemma CompletedOutput(l: Local, peer: Peer, ms: seq<NetworkMessage>) returns (j: nat)
    requires !Loops(l, ms) && Both(ms)
    ensures Run(l, peer, ms).phase == Complete
    ensures FirstVersionAt(ms, j) && Greeted(l, peer, Run(l, peer, ms), ms[j].payload)
    ensures Ordered(Run(l, peer, ms).out)
    ensures AnnouncesExactly(l, ms[j].payload.version, Run(l, peer, ms).out)
  {
    PhaseMeaning(l, peer, ms);
    GreetingMeaning(l, peer, ms);
    j := FirstVersionExists(ms);
    GreetedIsOrdered(l, peer, Run(l, peer, ms), ms[j].payload);
    var effective := Min(l.Number(), ms[j].payload.version);
    OutputContents(l, effective, AddrV2Support);
    OutputContents(l, effective, HeaderAnnouncements);
    OutputContents(l, effective, WtxidAnnouncements);
  }

  /** Messages after completion change nothing but the feature states. */
  lemma {:induction false} CompletionIsFinal(l: Local, peer: Peer, ms: seq<NetworkMessage>, more: seq<NetworkMessage>)
    requires !Loops(l, ms) && Both(ms)
    ensures !Loops(l, ms + more) && Both(ms + more)
    ensures var e, e' := Run(l, peer, ms), Run(l, peer, ms + more);
      e' == e.(conn := e'.conn) && e'.conn.effective == e.conn.effective
  {
    if more == [] {
      assert ms + more == ms;
    } else {
      var n := |more| - 1;
      var front := ms + more[..n];
      CompletionIsFinal(l, peer, ms, more[..n]);
      assert ms + more == front + [more[n]];
      assert (ms + more)[..|ms + more| - 1] == front;
      HasVersionAppend(front, more[n]);
      LoopsAppend(l, front, more[n]);
      PhaseMeaning(l, peer, front);
    }
  }

  /** A feature is enabled exactly when we announced it and the peer did: our preference and the version threshold are needed. */
  lemma EnabledExactly(l: Local, peer: Peer, ms: seq<NetworkMessage>, j: nat)
    requires !Loops(l, ms) && FirstVersionAt(ms, j)
    ensures EnablesExactly(Run(l, peer, ms).conn, l, ms[j].payload.version,
                           Preferences(SendAddrV2 in ms, SendHeaders in ms, WtxidRelay in ms))
  {
    FeatureEnabled(l, peer, ms, j, AddrV2Support);
    FeatureEnabled(l, peer, ms, j, HeaderAnnouncements);
    FeatureEnabled(l, peer, ms, j, WtxidAnnouncements);
  }

  lemma FeatureEnabled(l: Local, peer: Peer, ms: seq<NetworkMessage>, j: nat, f: Feature)
    requires !Loops(l, ms) && FirstVersionAt(ms, j)
    ensures Run(l, peer, ms).conn.Get(f) == Enabled <==>
      Announces(l, f, Min(l.Number(), ms[j].payload.version)) && f.Message() in ms
  {
    FeatureMeaning(l, peer, ms);
    GreetingMeaning(l, peer, ms);
    OutputContents(l, Min(l.Number(), ms[j].payload.version), f);
  }
}
