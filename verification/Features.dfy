/** Feature negotiation state (`connection/src/connection/state.rs`). The three state enums of the program are one type here. */
module Features {
  import opened Peers
  import opened Messages

  datatype FeatureState = NotNegotiated | SentOnly | ReceivedOnly | Enabled
  {
    function OnSend(): FeatureState {
      match this
      case NotNegotiated => SentOnly
      case ReceivedOnly => Enabled
      case _ => this
    }

    function OnReceive(): FeatureState {
      match this
      case NotNegotiated => ReceivedOnly
      case SentOnly => Enabled
      case _ => this
    }
  }

  datatype FeatureEvent = Sent | Received

  /** The state after a history of sends and receives. */
  function Replay(es: seq<FeatureEvent>): FeatureState {
    if es == [] then NotNegotiated
    else
      var before := Replay(es[..|es| - 1]);
      if es[|es| - 1] == Sent then before.OnSend() else before.OnReceive()
  }

  function FromHistory(sent: bool, received: bool): FeatureState {
    if sent && received then Enabled
    else if sent then SentOnly
    else if received then ReceivedOnly
    else NotNegotiated
  }

  /** The state records exactly whether the message was ever sent and ever received. */
  lemma {:induction false} ReplayIsHistory(es: seq<FeatureEvent>)
    ensures Replay(es) == Enabled <==> Sent in es && Received in es
    ensures Replay(es) == SentOnly <==> Sent in es && Received !in es
    ensures Replay(es) == ReceivedOnly <==> Sent !in es && Received in es
    ensures Replay(es) == NotNegotiated <==> Sent !in es && Received !in es
  {
    if es != [] {
      var n := |es| - 1;
      ReplayIsHistory(es[..n]);
      assert es == es[..n] + [es[n]];
    }
  }

  /** So order and repetition do not matter, and a longer history never takes a fact back. */
  lemma ReplayOrderIndependent(es: seq<FeatureEvent>, fs: seq<FeatureEvent>)
    requires forall e :: e in es ==> e in fs
    ensures (forall e :: e in fs ==> e in es) ==> Replay(es) == Replay(fs)
    ensures Replay(es) == Enabled ==> Replay(fs) == Enabled
    ensures Replay(es) == SentOnly ==> Replay(fs) == SentOnly || Replay(fs) == Enabled
    ensures Replay(es) == ReceivedOnly ==> Replay(fs) == ReceivedOnly || Replay(fs) == Enabled
  {
    ReplayIsHistory(es);
    ReplayIsHistory(fs);
  }

  // ---- The three features ----

  datatype Feature = AddrV2Support | HeaderAnnouncements | WtxidAnnouncements
  {
    function Message(): NetworkMessage {
      match this
      case AddrV2Support => SendAddrV2
      case HeaderAnnouncements => SendHeaders
      case WtxidAnnouncements => WtxidRelay
    }

    function Threshold(): nat {
      match this
      case AddrV2Support => ADDRV2_MIN_PROTOCOL_VERSION
      case HeaderAnnouncements => SENDHEADERS_MIN_PROTOCOL_VERSION
      case WtxidAnnouncements => WTXID_RELAY_MIN_PROTOCOL_VERSION
    }
  }

  datatype Preferences = Preferences(addrV2: bool, sendHeaders: bool, wtxidRelay: bool)
  {
    predicate Wants(f: Feature) {
      match f
      case AddrV2Support => addrV2
      case HeaderAnnouncements => sendHeaders
      case WtxidAnnouncements => wtxidRelay
    }
  }

  datatype ConnectionState = ConnectionState(
    effective: PeerProtocolVersion,
    addrV2: FeatureState,
    sendHeaders: FeatureState,
    wtxidRelay: FeatureState)
  {
    function Get(f: Feature): FeatureState {
      match f
      case AddrV2Support => addrV2
      case HeaderAnnouncements => sendHeaders
      case WtxidAnnouncements => wtxidRelay
    }

    /** What reading a message from the transport does to the state. */
    function OnRead(m: NetworkMessage): ConnectionState {
      match m
      case SendAddrV2 => this.(addrV2 := addrV2.OnReceive())
      case SendHeaders => this.(sendHeaders := sendHeaders.OnReceive())
      case WtxidRelay => this.(wtxidRelay := wtxidRelay.OnReceive())
      case _ => this
    }

    /** What writing the negotiation messages `ms` does to the state. */
    function Announced(ms: seq<NetworkMessage>): ConnectionState {
      ConnectionState(
        effective,
        if SendAddrV2 in ms then addrV2.OnSend() else addrV2,
        if SendHeaders in ms then sendHeaders.OnSend() else sendHeaders,
        if WtxidRelay in ms then wtxidRelay.OnSend() else wtxidRelay)
    }

    /** Each feature is in the state of its history: what was written is `out`, what was read is `ms`. */
    ghost predicate IsHistory(out: seq<NetworkMessage>, ms: seq<NetworkMessage>) {
      forall f: Feature :: Get(f) == FromHistory(f.Message() in out, f.Message() in ms)
    }
  }

  lemma AnnouncedIsHistory(conn: ConnectionState, out: seq<NetworkMessage>, more: seq<NetworkMessage>, ms: seq<NetworkMessage>)
    requires conn.IsHistory(out, ms)
    ensures conn.Announced(more).IsHistory(out + more, ms)
  {
    forall f: Feature ensures conn.Announced(more).Get(f) == FromHistory(f.Message() in out + more, f.Message() in ms) {
      assert conn.Get(f) == FromHistory(f.Message() in out, f.Message() in ms);
    }
  }

  lemma OnReadIsHistory(conn: ConnectionState, out: seq<NetworkMessage>, ms: seq<NetworkMessage>, m: NetworkMessage)
    requires conn.IsHistory(out, ms)
    ensures conn.OnRead(m).IsHistory(out, ms + [m])
  {
    forall f: Feature ensures conn.OnRead(m).Get(f) == FromHistory(f.Message() in out, f.Message() in ms + [m]) {
      assert conn.Get(f) == FromHistory(f.Message() in out, f.Message() in ms);
    }
  }

  const FRESH: ConnectionState := ConnectionState(UnknownVersion, NotNegotiated, NotNegotiated, NotNegotiated)
}
