/**
 The v1 wire format (`connection/src/transport/v1.rs`): a frame is magic(4), command(12), payload
 length(4, little endian), checksum(4) and payload, as in the "Message Headers" section of the
 Bitcoin Developer Reference. Payload encoding, checksum and decoding of a whole frame belong to
 another library and are parameters.
 */
module Frames {

  type Byte = b: int | 0 <= b < 256

  const HEADER_SIZE: nat := 24
  const PAYLOAD_LENGTH_OFFSET: nat := 16

  /** u32::to_le_bytes */
  function Le32(n: nat): seq<Byte>
    requires n < 0x1_0000_0000
  {
    [n % 0x100, n / 0x100 % 0x100, n / 0x1_0000 % 0x100, n / 0x100_0000 % 0x100]
  }

  /** u32::from_le_bytes */
  function FromLe32(b0: Byte, b1: Byte, b2: Byte, b3: Byte): nat {
    b0 + 0x100 * b1 + 0x1_0000 * b2 + 0x100_0000 * b3
  }

  lemma Le32RoundTrip(n: nat)
    requires n < 0x1_0000_0000
    ensures var b := Le32(n); FromLe32(b[0], b[1], b[2], b[3]) == n
    ensures var b := Le32(n); n == b[0] as int + 0x100 * b[1] as int + 0x1_0000 * b[2] as int + 0x100_0000 * b[3] as int
  {
    var q1 := n / 0x100;
    var q2 := q1 / 0x100;
    var q3 := q2 / 0x100;
    assert n / 0x1_0000 == q2 && n / 0x100_0000 == q3;
    assert n == n % 0x100 + 0x100 * q1 && q1 == q1 % 0x100 + 0x100 * q2 && q2 == q2 % 0x100 + 0x100 * q3;
    assert q3 < 0x100;
  }

  function PayloadLength(header: seq<Byte>): nat
    requires |header| >= HEADER_SIZE
  {
    var o := PAYLOAD_LENGTH_OFFSET;
    FromLe32(header[o], header[o + 1], header[o + 2], header[o + 3])
  }

  function FrameSize(header: seq<Byte>): nat
    requires |header| >= HEADER_SIZE
  {
    HEADER_SIZE + PayloadLength(header)
  }

  datatype Decoded<M> = Decoded(magic: seq<Byte>, message: M) | Malformed

  datatype Codec<!M> = Codec(
    command: M -> seq<Byte>,
    payload: M -> seq<Byte>,
    checksum: seq<Byte> -> seq<Byte>,
    decode: seq<Byte> -> Decoded<M>)

  datatype ReadError = EofInHeader | EofInPayload | Undecodable | MagicMismatch

  // ---- The one-shot parser ----

  datatype Frame<M> = Got(message: M, rest: seq<Byte>) | Fails(error: ReadError)

  function ParseFrame<M>(c: Codec<M>, magic: seq<Byte>, bytes: seq<Byte>): (r: Frame<M>)
    ensures r.Got? ==> |r.rest| + HEADER_SIZE <= |bytes|
  {
    if |bytes| < HEADER_SIZE then Fails(EofInHeader)
    else
      var size := FrameSize(bytes);
      if |bytes| < size then Fails(EofInPayload)
      else
        match c.decode(bytes[..size])
        case Malformed => Fails(Undecodable)
        case Decoded(g, m) => if g != magic then Fails(MagicMismatch) else Got(m, bytes[size..])
  }

  /** All messages of a stream up to its first error. */
  function ParseAll<M>(c: Codec<M>, magic: seq<Byte>, bytes: seq<Byte>): (seq<M>, ReadError)
    decreases |bytes|
  {
    match ParseFrame(c, magic, bytes)
    case Fails(e) => ([], e)
    case Got(m, rest) => var (ms, e) := ParseAll(c, magic, rest); ([m] + ms, e)
  }

  // ---- What the parser means, from the length field and the decoder alone ----

  /** The length field of a frame is little endian at bytes 16 to 19, behind a header of 24 bytes. */
  lemma FrameSizeExactly(bytes: seq<Byte>)
    requires |bytes| >= 24
    ensures FrameSize(bytes) ==
      24 + bytes[16] as int + 0x100 * bytes[17] as int + 0x1_0000 * bytes[18] as int + 0x100_0000 * bytes[19] as int
  {
  }

  /** The bytes start with a whole frame. */
  ghost predicate Whole(bytes: seq<Byte>) { |bytes| >= 24 && |bytes| >= FrameSize(bytes) }

  /** What the decoder makes of that frame. */
  ghost function First<M>(c: Codec<M>, bytes: seq<Byte>): Decoded<M>
    requires Whole(bytes)
  {
    c.decode(bytes[..FrameSize(bytes)])
  }

  /** The bytes cannot be read on, for reason `e`. */
  ghost predicate Stops<M>(c: Codec<M>, magic: seq<Byte>, bytes: seq<Byte>, e: ReadError) {
    match e
    case EofInHeader => |bytes| < 24
    case EofInPayload => |bytes| >= 24 && !Whole(bytes)
    case Undecodable => Whole(bytes) && First(c, bytes) == Malformed
    case MagicMismatch => Whole(bytes) && First(c, bytes).Decoded? && First(c, bytes).magic != magic
  }

  /** The bytes are the frames of the messages `ms`, each with our magic, followed by `rest`. */
  ghost predicate Consecutive<M>(c: Codec<M>, magic: seq<Byte>, bytes: seq<Byte>, ms: seq<M>, rest: seq<Byte>) {
    if ms == [] then bytes == rest
    else Whole(bytes) && First(c, bytes) == Decoded(magic, ms[0]) && Consecutive(c, magic, bytes[FrameSize(bytes)..], ms[1..], rest)
  }

  /** The parser yields a message exactly for a whole frame that decodes with our magic, and each failure exactly for its reason. */
  lemma ParseFrameExactly<M>(c: Codec<M>, magic: seq<Byte>, bytes: seq<Byte>)
    ensures forall e :: ParseFrame(c, magic, bytes) == Fails(e) <==> Stops(c, magic, bytes, e)
    ensures forall m, rest :: ParseFrame(c, magic, bytes) == Got(m, rest) <==>
      Whole(bytes) && First(c, bytes) == Decoded(magic, m) && rest == bytes[FrameSize(bytes)..]
  {
  }

  lemma {:induction false} ConsecutiveLast<M>(c: Codec<M>, magic: seq<Byte>, bytes: seq<Byte>, ms: seq<M>, rest: seq<Byte>, m: M)
    requires Consecutive(c, magic, bytes, ms, rest) && Whole(rest) && First(c, rest) == Decoded(magic, m)
    ensures Consecutive(c, magic, bytes, ms + [m], rest[FrameSize(rest)..])
  {
    if ms != [] {
      ConsecutiveLast(c, magic, bytes[FrameSize(bytes)..], ms[1..], rest, m);
      assert (ms + [m])[1..] == ms[1..] + [m];
    }
  }

  /** Parsing frames in a row gives their messages, and then what parsing the rest gives. */
  lemma {:induction false} ConsecutiveParses<M>(c: Codec<M>, magic: seq<Byte>, bytes: seq<Byte>, ms: seq<M>, rest: seq<Byte>)
    requires Consecutive(c, magic, bytes, ms, rest)
    ensures ParseAll(c, magic, bytes) == (ms + ParseAll(c, magic, rest).0, ParseAll(c, magic, rest).1)
    decreases |ms|
  {
    if ms == [] {
      assert ms + ParseAll(c, magic, rest).0 == ParseAll(c, magic, rest).0;
    } else {
      var tail := bytes[FrameSize(bytes)..];
      ConsecutiveParses(c, magic, tail, ms[1..], rest);
      assert ParseFrame(c, magic, bytes) == Got(ms[0], tail);
      assert [ms[0]] + (ms[1..] + ParseAll(c, magic, rest).0) == ms + ParseAll(c, magic, rest).0;
    }
  }

  lemma ParsesToFailure<M>(c: Codec<M>, magic: seq<Byte>, bytes: seq<Byte>, ms: seq<M>, rest: seq<Byte>, e: ReadError)
    requires Consecutive(c, magic, bytes, ms, rest) && Stops(c, magic, rest, e)
    ensures ParseAll(c, magic, bytes) == (ms, e)
  {
    ConsecutiveParses(c, magic, bytes, ms, rest);
    ParseFrameExactly(c, magic, rest);
    assert ms + [] == ms;
  }

  // ---- The writer's encoding ----

  /** What the writer needs of a message, and what the decoder promises for it. */
  ghost predicate Sendable<M>(c: Codec<M>, magic: seq<Byte>, m: M) {
    && |magic| == 4 && |c.command(m)| == 12 && |c.checksum(c.payload(m))| == 4
    && |c.payload(m)| < 0x1_0000_0000
    && c.decode(Encode(c, magic, m)) == Decoded(magic, m)
  }

  function Encode<M>(c: Codec<M>, magic: seq<Byte>, m: M): seq<Byte>
    requires |c.payload(m)| < 0x1_0000_0000
  {
    var p := c.payload(m);
    magic + c.command(m) + Le32(|p|) + c.checksum(p) + p
  }

  /** The layout of a written frame. */
  lemma EncodeLayout<M>(c: Codec<M>, magic: seq<Byte>, m: M)
    requires Sendable(c, magic, m)
    ensures var f, p := Encode(c, magic, m), c.payload(m);
      && |f| == 24 + |p|
      && f[..4] == magic && f[4..16] == c.command(m) && f[20..24] == c.checksum(p) && f[24..] == p
      && |p| == f[16] as int + 0x100 * f[17] as int + 0x1_0000 * f[18] as int + 0x100_0000 * f[19] as int
  {
    var p := c.payload(m);
    var b := Le32(|p|);
    Le32RoundTrip(|p|);
    FivePieces(magic, c.command(m), b, c.checksum(p), p);
  }

  lemma FivePieces(a: seq<Byte>, b: seq<Byte>, c: seq<Byte>, d: seq<Byte>, e: seq<Byte>)
    requires |a| == 4 && |b| == 12 && |c| == 4 && |d| == 4
    ensures var f := a + b + c + d + e;
      && |f| == 24 + |e| && f[..4] == a && f[4..16] == b && f[20..24] == d && f[24..] == e
      && f[16] == c[0] && f[17] == c[1] && f[18] == c[2] && f[19] == c[3]
  {
    var f := a + b + c + d + e;
    assert f == a + (b + (c + (d + e)));
  }

  ghost predicate AllSendable<M>(c: Codec<M>, magic: seq<Byte>, ms: seq<M>) {
    forall i :: 0 <= i < |ms| ==> Sendable(c, magic, ms[i])
  }

  ghost function EncodeAll<M>(c: Codec<M>, magic: seq<Byte>, ms: seq<M>): seq<Byte>
    requires AllSendable(c, magic, ms)
  {
    if ms == [] then [] else Encode(c, magic, ms[0]) + EncodeAll(c, magic, ms[1..])
  }

  lemma EncodedLength<M>(c: Codec<M>, magic: seq<Byte>, m: M, tail: seq<Byte>)
    requires Sendable(c, magic, m)
    ensures var f := Encode(c, magic, m);
      |f| == HEADER_SIZE + |c.payload(m)| && PayloadLength(f + tail) == |c.payload(m)|
  {
    var n := |c.payload(m)|;
    var b := Le32(n);
    Le32RoundTrip(n);
    var front := magic + c.command(m);
    var f := Encode(c, magic, m) + tail;
    assert |front| == 16;
    assert f[..16] == front;
    assert f[16..20] == b;
    assert f[16] == b[0] && f[17] == b[1] && f[18] == b[2] && f[19] == b[3];
  }

  lemma ParseEncoded<M>(c: Codec<M>, magic: seq<Byte>, m: M, tail: seq<Byte>)
    requires Sendable(c, magic, m)
    ensures ParseFrame(c, magic, Encode(c, magic, m) + tail) == Got(m, tail)
  {
    var f := Encode(c, magic, m);
    EncodedLength(c, magic, m, tail);
    assert (f + tail)[..|f|] == f && (f + tail)[|f|..] == tail;
  }

  /** A written stream parses to the same messages and then ends cleanly between two frames. */
  lemma {:induction false} StreamRoundTrip<M>(c: Codec<M>, magic: seq<Byte>, ms: seq<M>)
    requires AllSendable(c, magic, ms)
    ensures ParseAll(c, magic, EncodeAll(c, magic, ms)) == (ms, EofInHeader)
  {
    if ms == [] {
    } else {
      StreamRoundTrip(c, magic, ms[1..]);
      ParseEncoded(c, magic, ms[0], EncodeAll(c, magic, ms[1..]));
      assert ms == [ms[0]] + ms[1..];
    }
  }

  lemma EncodeAllCons<M>(c: Codec<M>, magic: seq<Byte>, m: M, ms: seq<M>)
    requires AllSendable(c, magic, ms) && Sendable(c, magic, m)
    ensures AllSendable(c, magic, [m] + ms)
    ensures EncodeAll(c, magic, [m] + ms) == Encode(c, magic, m) + EncodeAll(c, magic, ms)
  {
    assert ([m] + ms)[1..] == ms;
  }

  /** The last frame of a stream can be split off. */
  lemma {:induction false} EncodeAllAppend<M>(c: Codec<M>, magic: seq<Byte>, ms: seq<M>, m: M)
    requires AllSendable(c, magic, ms) && Sendable(c, magic, m)
    ensures AllSendable(c, magic, ms + [m])
    ensures EncodeAll(c, magic, ms + [m]) == EncodeAll(c, magic, ms) + Encode(c, magic, m)
  {
    var frame := Encode(c, magic, m);
    if ms == [] {
      EncodeAllCons(c, magic, m, []);
      assert ms + [m] == [m] + [];
      assert frame + [] == [] + frame;
    } else {
      var first, rest := ms[0], ms[1..];
      EncodeAllAppend(c, magic, rest, m);
      EncodeAllCons(c, magic, first, rest + [m]);
      EncodeAllCons(c, magic, first, rest);
      assert ms + [m] == [first] + (rest + [m]) && ms == [first] + rest;
      Associative(Encode(c, magic, first), EncodeAll(c, magic, rest), frame);
    }
  }

  lemma Associative(a: seq<Byte>, b: seq<Byte>, c: seq<Byte>)
    ensures a + (b + c) == (a + b) + c
  {
  }
}
