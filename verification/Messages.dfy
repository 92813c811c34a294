/** The network messages the connection and the crawler look at. */
module Messages {
  import opened Options
  import opened Peers

  /** The fields of a version message that the handshake uses. */
  datatype VersionMessage = VersionMessage(version: nat, services: nat, nonce: nat)

  /** An entry of a legacy addr message: `socket` is None when it has no IP socket address. */
  datatype AddrEntry = AddrEntry(socket: Option<SocketAddr>, services: nat)
  datatype SocketAddr = V4(ip: nat, port: nat) | V6(ip: nat, port: nat)

  datatype AddrV2Entry = AddrV2Entry(address: AddrV2, port: nat, services: nat)

  datatype NetworkMessage =
    | Version(payload: VersionMessage)
    | Verack
    | SendAddrV2
    | SendHeaders
    | WtxidRelay
    | GetAddr
    | Addr(entries: seq<AddrEntry>)
    | AddrV2List(entriesV2: seq<AddrV2Entry>)
    | Ping(nonce: nat)
    | Pong(nonce: nat)
    | OtherMessage(kind: nat)
}
