/**
 The v1 transport as the program writes it: a reader that fills buffers in place and keeps its
 progress in a receive state, and a writer.

 The transport below the reader is described by the bytes it will deliver before it ends, and by
 a schedule of what happens at each await of a read: some bytes are ready, the caller drops the
 future, or the transport reports an error. Schedules are arbitrary.
 */
module V1Transport {
  import opened Frames
  import opened Options

  datatype ReceiveState =
    | ReadingHeader(bytes: array<Byte>, bytesRead: nat)
    | ReadingPayload(bytes: array<Byte>, bytesRead: nat)

  datatype Poll = Ready(amount: nat) | Dropped | Fault

  datatype Outcome<M> = Message(message: M) | Failed(error: ReadError) | Cancelled | Faulted

  datatype Stop<M> = Full | Stopped(outcome: Outcome<M>)

  /** How many reads a schedule lets through. */
  function ReadyCount(polls: seq<Poll>): nat {
    if polls == [] then 0 else (if polls[0].Ready? then 1 else 0) + ReadyCount(polls[1..])
  }

  /** `r` is the outcome that the bytes from the start of the current frame call for. */
  ghost predicate Delivered<M>(c: Codec<M>, magic: seq<Byte>, bytes: seq<Byte>, r: Outcome<M>) {
    && (forall e :: r == Failed(e) <==> Stops(c, magic, bytes, e))
    && (r.Message? <==> Whole(bytes) && First(c, bytes).Decoded? && First(c, bytes).magic == magic)
    && (r.Message? ==> First(c, bytes) == Decoded(magic, r.message))
  }

  class V1Reader<M> {
    const codec: Codec<M>
    const magic: seq<Byte>
    var state: ReceiveState
    var stream: seq<Byte>           // what the transport has still to deliver

    ghost predicate Valid()
      reads this, state.bytes
    {
      match state
      case ReadingHeader(b, n) => b.Length == HEADER_SIZE && n <= HEADER_SIZE
      case ReadingPayload(b, n) => HEADER_SIZE <= n <= b.Length && b.Length == FrameSize(b[..])
    }

    /** What holds between calls: a full header never waits for the next call. */
    ghost predicate Resting()
      reads this, state.bytes
    {
      Valid() && (state.ReadingHeader? ==> state.bytesRead < HEADER_SIZE)
    }

    /** The part of the current frame that has been read. */
    ghost function Partial(): seq<Byte>
      requires Valid()
      reads this, state.bytes
    {
      state.bytes[..state.bytesRead]
    }

    /** The bytes from the start of the current frame to the end of the stream. */
    ghost function Ahead(): seq<Byte>
      requires Valid()
      reads this, state.bytes
    {
      Partial() + stream
    }

    /** A whole frame is buffered. */
    ghost predicate FrameBuffered()
      reads this, state.bytes
    {
      state.ReadingPayload? && state.bytesRead == state.bytes.Length
    }

    constructor (codec: Codec<M>, magic: seq<Byte>, stream: seq<Byte>)
      ensures this.codec == codec && this.magic == magic && this.stream == stream
      ensures Resting() && Partial() == [] && fresh(state.bytes)
    {
      this.codec, this.magic, this.stream := codec, magic, stream;
      var header := new Byte[HEADER_SIZE](_ => 0);
      state := ReadingHeader(header, 0);
    }

    /**
     One read of the transport into the unfilled part of the buffer. That part is never empty, so a
     result of zero means the end of the stream.
     */
    method Fill(amount: nat) returns (n: nat)
      requires Valid() && state.bytesRead < state.bytes.Length
      modifies this, state.bytes
      ensures Valid() && state.bytes == old(state.bytes) && (state.ReadingHeader? <==> old(state.ReadingHeader?))
      ensures state.bytesRead == old(state.bytesRead) + n && |stream| == |old(stream)| - n
      ensures n == 0 <==> old(stream) == []
      ensures Ahead() == old(Ahead())
    {
      var buf, from := state.bytes, state.bytesRead;
      n := Clamp(amount, buf.Length - from, |stream|);
      ghost var before := buf[..];
      CopyInto(buf, from, stream[..n]);
      assert buf[..from + n] == before[..from] + stream[..n];
      if state.ReadingPayload? {
        assert buf[..][..HEADER_SIZE] == before[..HEADER_SIZE];
        SameHeader(before, buf[..]);
      }
      stream := stream[n..];
      state := state.(bytesRead := from + n);
    }

    /** The loop that fills the current buffer; `stop` says why it was left before the buffer was full. */
    method FillBuffer(polls: seq<Poll>) returns (stop: Stop<M>, rest: seq<Poll>)
      requires Valid()
      modifies this, state.bytes
      ensures Valid() && state.bytes == old(state.bytes) && (state.ReadingHeader? <==> old(state.ReadingHeader?))
      ensures Ahead() == old(Ahead())
      ensures stop.Full? <==> state.bytesRead == state.bytes.Length
      ensures stop.Stopped? ==> match stop.outcome
        case Message(_) => false
        case Failed(e) => stream == [] && e == if state.ReadingHeader? then EofInHeader else EofInPayload
        case _ => rest == [] || |rest| < |polls|
      ensures |rest| <= |polls| && (old(state.bytesRead) < state.bytes.Length && polls != [] ==> |rest| < |polls|)
      ensures old(state.bytesRead) == state.bytes.Length ==> rest == polls && stream == old(stream)
      ensures !(stop.Stopped? && stop.outcome.Failed?) ==> ReadyCount(polls) - ReadyCount(rest) <= |old(stream)| - |stream|
    {
      rest := polls;
      while state.bytesRead < state.bytes.Length
        invariant Valid() && state.bytes == old(state.bytes) && (state.ReadingHeader? <==> old(state.ReadingHeader?))
        invariant Ahead() == old(Ahead())
        invariant |rest| <= |polls| && (state.bytesRead > old(state.bytesRead) ==> |rest| < |polls|)
        invariant state.bytesRead >= old(state.bytesRead)
        invariant old(state.bytesRead) == state.bytes.Length ==> rest == polls && stream == old(stream)
        invariant ReadyCount(polls) - ReadyCount(rest) <= |old(stream)| - |stream|
        decreases state.bytes.Length - state.bytesRead
      {
        if rest == [] { return Stopped(Cancelled), rest; }
        var poll := rest[0];
        rest := rest[1..];
        match poll {
          case Dropped => return Stopped(Cancelled), rest;
          case Fault => return Stopped(Faulted), rest;
          case Ready(amount) =>
            var n := Fill(amount);
            if n == 0 {
              return Stopped(Failed(if state.ReadingHeader? then EofInHeader else EofInPayload)), rest;
            }
        }
      }
      stop := Full;
    }

    /** Turns a full header into a payload buffer that starts with it. */
    method BeginPayload()
      requires Valid() && state.ReadingHeader? && state.bytesRead == HEADER_SIZE
      modifies this`state
      ensures Valid() && state.ReadingPayload? && fresh(state.bytes) && state.bytesRead == HEADER_SIZE
      ensures Ahead() == old(Ahead())
    {
      var header := state.bytes[..];
      var buffer := PayloadBuffer(header);
      state := ReadingPayload(buffer, HEADER_SIZE);
      assert Partial() == header;
    }

    /** Decodes the buffered frame. On failure the frame stays buffered, so the failure will repeat. */
    method FinishFrame() returns (r: Outcome<M>)
      requires Valid() && FrameBuffered()
      modifies this`state
      ensures Valid() && (state == old(state) || fresh(state.bytes))
      ensures match ParseFrame(codec, magic, old(Ahead()))
        case Got(m, tail) => r == Message(m) && Partial() == [] && tail == stream
        case Fails(e) => r == Failed(e) && e != EofInHeader && e != EofInPayload && state == old(state)
      ensures Delivered(codec, magic, old(Ahead()), r)
    {
      ParseFrameExactly(codec, magic, Ahead());
      var frame := state.bytes[..];
      assert Ahead()[..|frame|] == frame && Ahead()[|frame|..] == stream;
      SameHeader(Ahead(), frame);
      match codec.decode(frame) {
        case Malformed => return Failed(Undecodable);
        case Decoded(g, m) =>
          if g != magic { return Failed(MagicMismatch); }
          var header := new Byte[HEADER_SIZE](_ => 0);
          state := ReadingHeader(header, 0);
          return Message(m);
      }
    }

    /** A stream that ends inside the current frame makes the one-shot parser fail in the same place. */
    lemma EndOfStream()
      requires Valid() && stream == [] && state.bytesRead < state.bytes.Length
      ensures ParseFrame(codec, magic, Ahead()) == Fails(if state.ReadingHeader? then EofInHeader else EofInPayload)
    {
      assert Ahead() == Partial();
      if state.ReadingPayload? { SameHeader(Partial(), state.bytes[..]); }
    }

    /** The first arm of `read`. */
    method ReadHeader(polls: seq<Poll>) returns (stop: Stop<M>, rest: seq<Poll>)
      requires Resting() && state.ReadingHeader?
      modifies this, state.bytes
      ensures Resting() && (state.bytes == old(state.bytes) || fresh(state.bytes))
      ensures Ahead() == old(Ahead())
      ensures match stop
        case Full => state.ReadingPayload? && fresh(state.bytes)
        case Stopped(Message(_)) => false
        case Stopped(Failed(e)) => ParseFrame(codec, magic, Ahead()) == Fails(e) && e == EofInHeader
        case _ => true
      ensures |rest| <= |polls| && (polls != [] ==> |rest| < |polls|)
      ensures !(stop.Stopped? && stop.outcome.Failed?) ==> ReadyCount(polls) - ReadyCount(rest) <= |old(stream)| - |stream|
    {
      stop, rest := FillBuffer(polls);
      if stop.Stopped? {
        if stop.outcome.Failed? { EndOfStream(); }
        return;
      }
      BeginPayload();
    }

    /** The second arm of `read`. */
    method ReadPayload(polls: seq<Poll>) returns (r: Outcome<M>, rest: seq<Poll>)
      requires Valid() && state.ReadingPayload?
      modifies this, state.bytes
      ensures Resting() && (state.bytes == old(state.bytes) || fresh(state.bytes))
      ensures match r
        case Message(m) => ParseFrame(codec, magic, old(Ahead())) == Got(m, stream) && Partial() == [] && state.ReadingHeader?
        case Failed(e) => ParseFrame(codec, magic, old(Ahead())) == Fails(e) && Ahead() == old(Ahead()) && (e == EofInPayload || FrameBuffered())
        case _ => Ahead() == old(Ahead())
      ensures old(FrameBuffered()) ==> rest == polls && stream == old(stream) && (r.Message? || r.Failed?)
      ensures |rest| <= |polls| && (!old(FrameBuffered()) && polls != [] ==> |rest| < |polls|)
      ensures !r.Failed? ==> ReadyCount(polls) - ReadyCount(rest) <= |old(stream)| - |stream|
    {
      var stop: Stop<M>;
      stop, rest := FillBuffer(polls);
      if stop.Stopped? {
        if stop.outcome.Failed? { EndOfStream(); }
        return stop.outcome, rest;
      }
      r := FinishFrame();
    }

    /**
     The reader's `read`, run until it returns or its future is dropped. It returns exactly what the
     one-shot parser finds at the start of the current frame; if it is dropped or the transport
     fails, no byte is lost. It takes nothing from the stream beyond the frame it returns, and
     once a whole frame is buffered it does not touch the stream, so a decode or magic failure repeats.
     */
    method Read(polls: seq<Poll>) returns (r: Outcome<M>, rest: seq<Poll>)
      requires Resting()
      modifies this, state.bytes
      ensures Resting() && (state.bytes == old(state.bytes) || fresh(state.bytes))
      ensures match r
        case Message(m) => ParseFrame(codec, magic, old(Ahead())) == Got(m, stream) && Partial() == [] && state.ReadingHeader?
        case Failed(e) => ParseFrame(codec, magic, old(Ahead())) == Fails(e) && Ahead() == old(Ahead())
        case _ => Ahead() == old(Ahead())
      ensures old(FrameBuffered()) ==> rest == polls && stream == old(stream) && (r.Message? || r.Failed?)
      ensures r.Message? || r.Failed? ==> Delivered(codec, magic, old(Ahead()), r)
      ensures r.Message? ==> stream == old(Ahead())[FrameSize(old(Ahead()))..]
      ensures r == Failed(Undecodable) || r == Failed(MagicMismatch) ==> FrameBuffered()
      ensures |rest| <= |polls| && (!old(FrameBuffered()) && polls != [] ==> |rest| < |polls|)
      ensures !r.Failed? ==> ReadyCount(polls) - ReadyCount(rest) <= |old(stream)| - |stream|
    {
      ParseFrameExactly(codec, magic, Ahead());
      rest := polls;
      if state.ReadingHeader? {
        var stop: Stop<M>;
        stop, rest := ReadHeader(rest);
        if stop.Stopped? { return stop.outcome, rest; }
      }
      r, rest := ReadPayload(rest);
    }

    /** With a whole frame buffered, what the transport has still to deliver is what follows that frame. */
    lemma BufferedFrame()
      requires Valid() && FrameBuffered()
      ensures |Ahead()| >= HEADER_SIZE && FrameSize(Ahead()) <= |Ahead()| && stream == Ahead()[FrameSize(Ahead())..]
    {
      assert Partial() == state.bytes[..];
      SameHeader(state.bytes[..], Ahead());
    }

    /**
     A decode or magic failure is sticky: every later call, under whatever schedule, returns it again
     at once, and nothing after the failing frame is ever taken from the stream. After the end of the
     stream a later call can only report that end again, or be dropped or fail in the transport.
     */
    method ReadAfterFailure(polls: seq<Poll>, later: seq<seq<Poll>>) returns (r: Outcome<M>, again: seq<Outcome<M>>)
      requires Resting()
      modifies this, state.bytes
      ensures Resting() && |again| == |later|
      ensures r == Failed(Undecodable) || r == Failed(MagicMismatch) ==>
        && (forall i :: 0 <= i < |again| ==> again[i] == r)
        && |old(Ahead())| >= HEADER_SIZE && FrameSize(old(Ahead())) <= |old(Ahead())|
        && stream == old(Ahead())[FrameSize(old(Ahead()))..]
      ensures r.Failed? ==> Ahead() == old(Ahead())
      ensures r.Failed? ==> forall i :: 0 <= i < |again| ==> again[i] == r || again[i].Cancelled? || again[i].Faulted?
    {
      var rest;
      r, rest := Read(polls);
      again := [];
      for i := 0 to |later|
        invariant Resting() && (state.bytes == old(state.bytes) || fresh(state.bytes)) && |again| == i
        invariant r.Failed? ==> Ahead() == old(Ahead()) && ParseFrame(codec, magic, Ahead()) == Fails(r.error)
        invariant r == Failed(Undecodable) || r == Failed(MagicMismatch) ==>
          FrameBuffered() && forall j :: 0 <= j < i ==> again[j] == r
        invariant r.Failed? ==> forall j :: 0 <= j < i ==> again[j] == r || again[j].Cancelled? || again[j].Faulted?
      {
        var next;
        next, rest := Read(later[i]);
        again := again + [next];
      }
      if r == Failed(Undecodable) || r == Failed(MagicMismatch) { BufferedFrame(); }
    }

    /**
     Calls `read` again and again, resuming after every dropped call and transport error, until it
     reports a failure or the schedule is used up. The messages are those of consecutive frames from the
     start, each of which decodes with our magic, what is left follows them, and the failure is the one the
     bytes left call for, so that all is as the one-shot parser finds on the whole stream, whatever
     the schedule. A schedule that lets more reads through than there are bytes left gets to the failure.
     */
    method ReadAll(polls: seq<Poll>) returns (messages: seq<M>, failure: Option<ReadError>)
      requires Resting()
      modifies this, state.bytes
      ensures Resting()
      ensures Consecutive(codec, magic, old(Ahead()), messages, Ahead())
      ensures failure.Some? ==> Stops(codec, magic, Ahead(), failure.value)
      ensures failure.Some? ==> ParseAll(codec, magic, old(Ahead())) == (messages, failure.value)
      ensures ReadyCount(polls) > |old(stream)| ==> failure.Some?
    {
      messages := [];
      var rest := polls;
      ghost var all := Ahead();
      while rest != []
        invariant Resting() && (state.bytes == old(state.bytes) || fresh(state.bytes))
        invariant Consecutive(codec, magic, all, messages, Ahead())
        invariant ReadyCount(polls) - ReadyCount(rest) <= |old(stream)| - |stream|
        decreases |rest|, FrameBuffered()
      {
        ghost var ahead := Ahead();
        var r;
        r, rest := Read(rest);
        match r {
          case Message(m) =>
            ConsecutiveLast(codec, magic, all, messages, ahead, m);
            assert Ahead() == stream;
            messages := messages + [m];
          case Failed(e) =>
            ParsesToFailure(codec, magic, all, messages, ahead, e);
            return messages, Some(e);
          case _ =>
        }
      }
      failure := None;
    }
  }

  class V1Writer<M> {
    const codec: Codec<M>
    const magic: seq<Byte>
    var written: seq<Byte>

    constructor (codec: Codec<M>, magic: seq<Byte>)
      ensures this.codec == codec && this.magic == magic && written == []
    {
      this.codec, this.magic, written := codec, magic, [];
    }

    method Write(m: M)
      requires Sendable(codec, magic, m)
      modifies this
      ensures written == old(written) + Encode(codec, magic, m)
    {
      written := written + Encode(codec, magic, m);
    }
  }

  /**
   Messages written by a writer and read back under any schedule arrive as the same sequence: a
   prefix of it while the schedule lasts, all of it once the reader has met the end of the stream.
   */
  method Transfer<M>(codec: Codec<M>, magic: seq<Byte>, ms: seq<M>, polls: seq<Poll>) returns (got: seq<M>, ended: bool)
    requires AllSendable(codec, magic, ms)
    ensures got <= ms
    ensures ended ==> got == ms
    ensures ReadyCount(polls) > |EncodeAll(codec, magic, ms)| ==> ended
  {
    var writer := new V1Writer(codec, magic);
    for i := 0 to |ms|
      invariant writer.codec == codec && writer.magic == magic && fresh(writer)
      invariant writer.written == EncodeAll(codec, magic, ms[..i])
    {
      writer.Write(ms[i]);
      EncodeAllAppend(codec, magic, ms[..i], ms[i]);
      assert ms[..i + 1] == ms[..i] + [ms[i]];
    }
    assert ms[..|ms|] == ms;
    StreamRoundTrip(codec, magic, ms);
    var reader := new V1Reader(codec, magic, writer.written);
    assert reader.Ahead() == writer.written;
    var failure;
    got, failure := reader.ReadAll(polls);
    ConsecutiveParses(codec, magic, writer.written, got, reader.Ahead());
    ended := failure.Some?;
  }

  /** How many bytes a read yields: at least one if there are any, at most the room and the bytes left. */
  function Clamp(amount: nat, room: nat, available: nat): (n: nat)
    requires room > 0
    ensures n <= room && n <= available && (n == 0 <==> available == 0)
  {
    var wanted := if amount == 0 then 1 else amount;
    var fitting := if wanted > room then room else wanted;
    if fitting > available then available else fitting
  }

  /** A buffer for a whole frame that starts with its header. */
  method PayloadBuffer(header: seq<Byte>) returns (buffer: array<Byte>)
    requires |header| == HEADER_SIZE
    ensures fresh(buffer) && HEADER_SIZE <= buffer.Length == FrameSize(buffer[..])
    ensures buffer[..HEADER_SIZE] == header
  {
    buffer := new Byte[HEADER_SIZE + PayloadLength(header)](_ => 0);
    CopyInto(buffer, 0, header);
    SameHeader(header, buffer[..]);
  }

  method CopyInto(buf: array<Byte>, from: nat, data: seq<Byte>)
    requires from + |data| <= buf.Length
    modifies buf
    ensures buf[..] == old(buf[..from]) + data + old(buf[from + |data|..])
  {
    for i := 0 to |data|
      invariant buf[..from] == old(buf[..from])
      invariant buf[from..from + i] == data[..i]
      invariant buf[from + i..] == old(buf[from + i..])
    {
      buf[from + i] := data[i];
    }
  }

  lemma SameHeader(a: seq<Byte>, b: seq<Byte>)
    requires |a| >= HEADER_SIZE && |b| >= HEADER_SIZE && a[..HEADER_SIZE] == b[..HEADER_SIZE]
    ensures PayloadLength(a) == PayloadLength(b)
  {
    assert forall i :: 0 <= i < HEADER_SIZE ==> a[..HEADER_SIZE][i] == b[..HEADER_SIZE][i];
  }
}
