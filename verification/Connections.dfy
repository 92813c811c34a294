/**
 A connection as the program writes it (`connection/src/connection/futures.rs`): the peer record and
 the connection state are fields, the handshake is a loop over reads and writes that may fail.
 */
module Connections {
  import opened Peers
  import opened Messages
  import opened Features
  import opened Handshake

  datatype ConnectionError = TransportFailed | ConnectionLoop
  datatype Result<+T> = Ok(value: T) | Err(error: ConnectionError)

  /** The messages written so far are those of a run, except for what a failed write cut off. */
  ghost predicate CutShort(sent: seq<NetworkMessage>, e: Endpoint) {
    sent <= e.out && |sent| < |e.out|
  }

  lemma OutputCutShort(out: seq<NetworkMessage>, ms: seq<NetworkMessage>, k: nat)
    requires k <= |ms|
    ensures out + ms[..k] <= out + ms + [Verack]
  {
  }

  class Connection {
    const local: Local
    var peer: Peer
    var conn: ConnectionState
    var incoming: seq<NetworkMessage>     // what the transport will deliver before it fails
    var sent: seq<NetworkMessage>
    var writesLeft: nat                   // how many more writes the transport will accept

    constructor (local: Local, peer: Peer, incoming: seq<NetworkMessage>, writesLeft: nat)
      ensures this.local == local && this.peer == peer && this.incoming == incoming && this.writesLeft == writesLeft
      ensures conn == FRESH && sent == []
    {
      this.local, this.peer, this.incoming, this.writesLeft := local, peer, incoming, writesLeft;
      conn, sent := FRESH, [];
    }

    method Write(m: NetworkMessage) returns (ok: bool)
      modifies this`sent, this`writesLeft
      ensures ok <==> old(writesLeft) > 0
      ensures ok ==> sent == old(sent) + [m] && writesLeft == old(writesLeft) - 1
      ensures !ok ==> sent == old(sent) && writesLeft == old(writesLeft)
    {
      ok := writesLeft > 0;
      if ok {
        sent, writesLeft := sent + [m], writesLeft - 1;
      }
    }

    /** Reads a message and lets the feature messages update the negotiation state. */
    method Read() returns (r: Result<NetworkMessage>)
      modifies this`incoming, this`conn
      ensures old(incoming) == [] ==> r == Err(TransportFailed) && incoming == [] && conn == old(conn)
      ensures old(incoming) != [] ==>
        && r == Ok(old(incoming)[0])
        && incoming == old(incoming)[1..]
        && conn == old(conn).OnRead(old(incoming)[0])
    {
      if incoming == [] {
        return Err(TransportFailed);
      }
      var m := incoming[0];
      incoming := incoming[1..];
      match m {
        case SendAddrV2 => conn := conn.(addrV2 := conn.addrV2.OnReceive());
        case SendHeaders => conn := conn.(sendHeaders := conn.sendHeaders.OnReceive());
        case WtxidRelay => conn := conn.(wtxidRelay := conn.wtxidRelay.OnReceive());
        case _ =>
      }
      r := Ok(m);
    }

    /** The negotiation messages `ms` were written up to a refused write; the features follow what was written. */
    ghost predicate Refused(ms: seq<NetworkMessage>, sent0: seq<NetworkMessage>, conn0: ConnectionState)
      reads this
    {
      writesLeft == 0 && exists k :: 0 <= k <= |ms| && sent == sent0 + ms[..k] && conn == conn0.Announced(ms[..k])
    }

    method SendNegotiationMessages(effective: nat) returns (ok: bool)
      modifies this`sent, this`writesLeft, this`conn
      ensures ok <==> old(writesLeft) >= |Negotiation(local, effective)|
      ensures ok ==> sent == old(sent) + Negotiation(local, effective)
      ensures ok ==> conn == old(conn).Announced(Negotiation(local, effective))
      ensures |sent| + writesLeft == old(|sent| + writesLeft)
      ensures !ok ==> Refused(Negotiation(local, effective), old(sent), old(conn))
    {
      var wants := local.wants;
      ghost var done: seq<NetworkMessage> := [];
      ghost var all := Negotiation(local, effective);
      if wants.addrV2 && effective >= ADDRV2_MIN_PROTOCOL_VERSION {
        ok := Write(SendAddrV2);
        if !ok { assert done == all[..|done|]; return; }
        conn := conn.(addrV2 := conn.addrV2.OnSend());
        done := done + [SendAddrV2];
      }
      assert done == all[..|done|];
      assert sent == old(sent) + done && conn == old(conn).Announced(done);
      if wants.sendHeaders && effective >= SENDHEADERS_MIN_PROTOCOL_VERSION {
        ok := Write(SendHeaders);
        if !ok { return; }
        conn := conn.(sendHeaders := conn.sendHeaders.OnSend());
        done := done + [SendHeaders];
      }
      assert done == all[..|done|];
      assert sent == old(sent) + done && conn == old(conn).Announced(done);
      if wants.wtxidRelay && effective >= WTXID_RELAY_MIN_PROTOCOL_VERSION {
        ok := Write(WtxidRelay);
        if !ok { return; }
        conn := conn.(wtxidRelay := conn.wtxidRelay.OnSend());
        done := done + [WtxidRelay];
      }
      assert done == all;
      ok := true;
    }

    ghost function AsEndpoint(phase: HandshakeState): Endpoint
      reads this
    {
      Endpoint(phase, false, peer, conn, sent)
    }

    /** A write was refused while `v` was being answered, from endpoint `e`: peer data and version are taken over already. */
    ghost predicate Interrupted(e: Endpoint, v: VersionMessage)
      reads this
    {
      var effective := Min(local.Number(), v.version);
      && v.nonce != local.nonce
      && (e.phase == VersionSent || e.phase == VerackReceived)
      && TakesOver(e.peer, peer, v.services, v.version)
      && Refused(Negotiation(local, effective), e.out, e.conn.(effective := KnownVersion(effective)))
    }

    /** Handles a version message: loop check, peer data, negotiation, verack. */
    method HandleVersionMessage(v: VersionMessage, state: HandshakeState) returns (r: Result<HandshakeState>)
      modifies this`peer, this`conn, this`sent, this`writesLeft
      ensures r.Ok? ==> AsEndpoint(r.value) == OnVersion(local, old(AsEndpoint(state)), v)
      ensures r.Ok? && (state == VersionSent || state == VerackReceived) ==>
        && Smaller(conn.effective, local.Number(), v.version) && TakesOver(old(peer), peer, v.services, v.version)
        && r.value == if state == VerackReceived then Complete else VersionReceived
      ensures r == Err(ConnectionLoop) <==> v.nonce == local.nonce
      ensures r == Err(ConnectionLoop) ==> AsEndpoint(state) == old(AsEndpoint(state))
      ensures |sent| + writesLeft == old(|sent| + writesLeft)
      ensures r == Err(TransportFailed) ==> Interrupted(old(AsEndpoint(state)), v)
    {
      if v.nonce == local.nonce {
        return Err(ConnectionLoop);
      }
      match state {
        case VersionReceived => return Ok(state);
        case Complete => return Ok(state);
        case _ =>
      }
      peer := peer.(services := KnownServices(v.services), version := KnownVersion(v.version));
      var number := local.version.UnwrapOr(MIN_PROTOCOL_VERSION);
      var effective := Min(number, v.version);
      conn := conn.(effective := KnownVersion(effective));
      ghost var all := Negotiation(local, effective);
      assert all[..|all|] == all;
      var ok := SendNegotiationMessages(effective);
      if !ok { return Err(TransportFailed); }
      ok := Write(Verack);
      if !ok { return Err(TransportFailed); }
      r := Ok(if state == VerackReceived then Complete else VersionReceived);
    }

    /** The transport delivered no more messages while the handshake, now at `e`, was waiting for one. */
    ghost predicate StreamEnded(e: Endpoint)
      reads this
    {
      incoming == [] && e.phase != Complete && AsEndpoint(e.phase) == e
    }

    /**
     The transport refused a write on the way to `e`, reached by reading `ms`: peer data and effective
     version are those of `e`, the output is cut short, and the features follow what was written.
     */
    ghost predicate WriteRefused(e: Endpoint, ms: seq<NetworkMessage>)
      reads this
    {
      && writesLeft == 0 && CutShort(sent, e) && !e.looped
      && peer == e.peer && conn.effective == e.conn.effective && conn.IsHistory(sent, ms)
    }

    lemma InterruptedMeaning(before: Endpoint, ms: seq<NetworkMessage>, m: NetworkMessage)
      requires !before.looped && before.conn.IsHistory(before.out, ms)
      requires m.Version? && Interrupted(before.(conn := before.conn.OnRead(m)), m.payload)
      ensures WriteRefused(Receive(local, before, m), ms + [m])
    {
      var effective := Min(local.Number(), m.payload.version);
      var all := Negotiation(local, effective);
      var conn0 := before.conn.OnRead(m).(effective := KnownVersion(effective));
      var k :| 0 <= k <= |all| && sent == before.out + all[..k] && conn == conn0.Announced(all[..k]);
      AnsweredInPart(before, ms, m, effective, all[..k]);
      OutputCutShort(before.out, all, k);
    }

    /** The body of the handshake loop, after the read. The messages before `m` were `ms`. */
    method HandleMessage(m: NetworkMessage, state: HandshakeState, ghost before: Endpoint, ghost ms: seq<NetworkMessage>)
      returns (r: Result<HandshakeState>)
      requires before.phase == state != Complete && !before.looped && before.conn.IsHistory(before.out, ms)
      requires AsEndpoint(state) == before.(conn := before.conn.OnRead(m))
      modifies this`peer, this`conn, this`sent, this`writesLeft
      ensures r.Ok? ==> AsEndpoint(r.value) == Receive(local, before, m)
      ensures r == Err(ConnectionLoop) <==> m.Version? && m.payload.nonce == local.nonce
      ensures r == Err(ConnectionLoop) ==> AsEndpoint(state).(looped := true) == Receive(local, before, m)
      ensures |sent| + writesLeft == old(|sent| + writesLeft)
      ensures r == Err(TransportFailed) ==> WriteRefused(Receive(local, before, m), ms + [m])
    {
      match m {
        case Version(v) =>
          r := HandleVersionMessage(v, state);
          if r == Err(TransportFailed) { InterruptedMeaning(before, ms, m); }
        case Verack => r := Ok(OnVerack(state));
        case _ => r := Ok(state);
      }
    }

    /** One pass of the handshake loop, after `read` of the messages `all`. */
    method Advance(state: HandshakeState, ghost peer0: Peer, ghost all: seq<NetworkMessage>, ghost read: nat)
      returns (r: Result<HandshakeState>, ghost read': nat)
      requires read <= |all| && incoming == all[read..]
      requires AsEndpoint(state) == Run(local, peer0, all[..read]) && state != Complete
      modifies this
      ensures read' <= |all| && incoming == all[read'..] && |sent| + writesLeft == old(|sent| + writesLeft)
      ensures var e := Run(local, peer0, all[..read']);
        match r
        case Ok(next) => read' == read + 1 && AsEndpoint(next) == e && (next == Complete ==> CompletesAt(local, all, read'))
        case Err(ConnectionLoop) => LoopsFirstAt(local, all, read') && AsEndpoint(e.phase).(looped := true) == e
        case Err(TransportFailed) => StreamEnded(e) || WriteRefused(e, all[..read'])
    {
      ghost var before := Run(local, peer0, all[..read]);
      read' := read;
      var got := Read();
      if got.Err? { return Err(got.error), read'; }
      RunStep(local, peer0, all, read);
      FeatureMeaning(local, peer0, all[..read]);
      r := HandleMessage(got.value, state, before, all[..read]);
      read' := read + 1;
      assert all[..read'] == all[..read] + [all[read]];
    }

    /**
     The handshake loop. It reads exactly the shortest prefix that holds a version and a verack, in
     either order, and fails with ConnectionLoop exactly at the first version in that prefix that
     carries our nonce. Only a transport failure ends it otherwise.
     */
    method PerformHandshake() returns (r: Result<()>, ghost read: nat)
      requires conn == FRESH && sent == []
      modifies this
      ensures read <= |old(incoming)| && incoming == old(incoming)[read..]
      ensures |sent| + writesLeft == old(writesLeft)
      ensures var e := Run(local, old(peer), old(incoming)[..read]);
        match r
        case Ok(_) => CompletesAt(local, old(incoming), read) && AsEndpoint(Complete) == e
        case Err(ConnectionLoop) => LoopsFirstAt(local, old(incoming), read) && AsEndpoint(e.phase).(looped := true) == e
        case Err(TransportFailed) => StreamEnded(e) || WriteRefused(e, old(incoming)[..read])
    {
      ghost var all := incoming;
      ghost var peer0 := peer;
      read := 0;
      assert all[..0] == [];
      var ok := Write(local.Greeting());
      if !ok { return Err(TransportFailed), 0; }
      var state := VersionSent;
      while state != Complete
        invariant read <= |all| && incoming == all[read..]
        invariant |sent| + writesLeft == old(writesLeft)
        invariant AsEndpoint(state) == Run(local, peer0, all[..read])
        invariant state == Complete ==> CompletesAt(local, all, read)
        decreases |incoming|
      {
        var next;
        next, read := Advance(state, peer0, all, read);
        if next.Err? { return Err(next.error), read; }
        state := next.value;
      }
      r := Ok(());
    }

    /**
     Establishing a connection succeeds exactly when some prefix of the incoming messages completes
     the handshake and the transport accepts what the handshake writes for it, and fails with
     ConnectionLoop exactly when our nonce comes back first and the transport accepted the writes up
     to there. On success the first version settles the effective version and the peer's data, and
     the features enabled are those both sides announced.
     */
    method Establish() returns (r: Result<()>, ghost read: nat, ghost first: nat)
      requires conn == FRESH && sent == []
      modifies this
      ensures r.Ok? <==>
        exists k: nat :: CompletesAt(local, old(incoming), k) && |Run(local, old(peer), old(incoming)[..k]).out| <= old(writesLeft)
      ensures r == Err(ConnectionLoop) <==>
        exists k: nat :: LoopsFirstAt(local, old(incoming), k) && |Run(local, old(peer), old(incoming)[..k]).out| <= old(writesLeft)
      ensures r.Ok? ==>
        && CompletesAt(local, old(incoming), read) && incoming == old(incoming)[read..]
        && FirstVersionAt(old(incoming)[..read], first)
        && Greeted(local, old(peer), AsEndpoint(Complete), old(incoming)[first].payload)
        && Ordered(sent) && AnnouncesExactly(local, old(incoming)[first].payload.version, sent)
        && var ms := old(incoming)[..read];
           EnablesExactly(conn, local, ms[first].payload.version,
                          Preferences(SendAddrV2 in ms, SendHeaders in ms, WtxidRelay in ms))
    {
      ghost var all, peer0, writes := incoming, peer, writesLeft;
      first := 0;
      r, read := PerformHandshake();
      match r {
        case Ok(_) =>
          forall k ensures !LoopsFirstAt(local, all, k) { StopsOneWay(local, all, read, k); }
          first := CompletedOutput(local, peer0, all[..read]);
          EnabledExactly(local, peer0, all[..read], first);
        case Err(ConnectionLoop) =>
          forall k ensures !CompletesAt(local, all, k) {
            if CompletesAt(local, all, k) { StopsOneWay(local, all, k, read); }
          }
        case Err(TransportFailed) =>
          forall k: nat | CompletesAt(local, all, k) || LoopsFirstAt(local, all, k)
            ensures |Run(local, peer0, all[..k]).out| > writes
          {
            NotWithin(peer0, all, writes, read, k);
          }
      }
    }

    lemma NotWithin(peer0: Peer, all: seq<NetworkMessage>, writes: nat, read: nat, k: nat)
      requires read <= |all| && incoming == all[read..] && |sent| + writesLeft == writes
      requires var e := Run(local, peer0, all[..read]); StreamEnded(e) || WriteRefused(e, all[..read])
      requires CompletesAt(local, all, k) || LoopsFirstAt(local, all, k)
      ensures |Run(local, peer0, all[..k]).out| > writes
    {
      if StreamEnded(Run(local, peer0, all[..read])) {
        assert all[..read] == all;
        WaitingNeverStopped(local, peer0, all, k);
      } else {
        RefusedNeverStopped(local, peer0, all, read, k);
      }
    }
  }
}
