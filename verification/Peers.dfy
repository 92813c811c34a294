module Options {
  datatype Option<+T> = None | Some(value: T)
}

/** Peer records (`connection/src/peer.rs`) shared by the crawler and the connection models. */
module Peers {

  const MIN_PROTOCOL_VERSION: nat := 70001
  const ADDRV2_MIN_PROTOCOL_VERSION: nat := 70016
  const SENDHEADERS_MIN_PROTOCOL_VERSION: nat := 70012
  const WTXID_RELAY_MIN_PROTOCOL_VERSION: nat := 70016

  /** Network addresses. Overlay networks (Tor, I2P, CJDNS, unknown kinds) share one constructor. */
  datatype AddrV2 = Ipv4(bits: nat) | Ipv6(bits: nat) | Overlay(kind: nat, bytes: seq<nat>)

  datatype PeerServices = KnownServices(flags: nat) | UnknownServices

  datatype PeerProtocolVersion = KnownVersion(number: nat) | UnknownVersion
  {
    function UnwrapOr(default: nat): nat {
      match this
      case KnownVersion(n) => n
      case UnknownVersion => default
    }
  }

  /** The crawler deduplicates on the whole record, so one address with two service sets is two peers. */
  datatype Peer = Peer(address: AddrV2, port: nat, services: PeerServices, version: PeerProtocolVersion)
  {
    /** What the version handshake writes into the record of the peer at the other end. */
    function Introduced(flags: nat, number: nat): Peer {
      this.(services := KnownServices(flags), version := KnownVersion(number))
    }
  }

  function PeerWithServices(address: AddrV2, port: nat, flags: nat): Peer {
    Peer(address, port, KnownServices(flags), UnknownVersion)
  }
}
