/**
 * The length-header codec of the chat example: each frame is an 8-byte
 * big-endian unsigned length followed by that many bytes.
 *
 * The connection's input buffer, the connection and the message callback
 * are modelled by the classes Inbox, Connection and Codec: the callback's
 * invocations are recorded in the codec, a shutdown in the connection.
 */
module Codec {
  import opened Keys

  const HeaderLen: nat := 8

  /** reserved_buffer_size: 1 GiB plus 100 bytes. */
  const ReservedBufferSize: nat := 1024 * 1024 * 1024 + 100

  const Uint64Limit: nat := 0x1_0000_0000_0000_0000

  /** The string every frame is reported with. */
  const ReceivedText: string := "Received"

  // ---------------------------------------------------------------------
  // Big-endian integers
  // ---------------------------------------------------------------------

  function Pow256(k: nat): (r: nat)
    ensures r >= 1
  {
    if k == 0 then 1 else 256 * Pow256(k - 1)
  }

  /** The big-endian value of a byte string. */
  function BigEndian(s: seq<byte>): (r: nat)
    ensures r < Pow256(|s|)
  {
    if |s| == 0 then 0 else BigEndian(s[..|s| - 1]) * 256 + s[|s| - 1] as nat
  }

  /** The k-byte big-endian form of n modulo 256^k. */
  function ToBigEndian(n: nat, k: nat): (r: seq<byte>)
    ensures |r| == k
  {
    if k == 0 then [] else ToBigEndian(n / 256, k - 1) + [(n % 256) as byte]
  }

  lemma BigEndianSnoc(a: seq<byte>, b: byte)
    ensures BigEndian(a + [b]) == BigEndian(a) * 256 + b as nat
  {
    assert (a + [b])[..|a|] == a;
  }

  lemma DivBound(n: nat, p: nat)
    requires n < 256 * p
    ensures n / 256 < p
  {
  }

  /** Reading back the k-byte big-endian form of a value below 256^k gives
    * the value. */
  lemma {:induction false} BigEndianRoundTrip(n: nat, k: nat)
    requires n < Pow256(k)
    ensures BigEndian(ToBigEndian(n, k)) == n
  {
    if k > 0 {
      var d := (n % 256) as byte;
      DivBound(n, Pow256(k - 1));
      BigEndianRoundTrip(n / 256, k - 1);
      BigEndianSnoc(ToBigEndian(n / 256, k - 1), d);
      assert ToBigEndian(n, k) == ToBigEndian(n / 256, k - 1) + [d];
    }
  }

  lemma Uint64IsPow()
    ensures Pow256(HeaderLen) == Uint64Limit
  {
  }

  // ---------------------------------------------------------------------
  // Frames
  // ---------------------------------------------------------------------

  /** What the decoder makes of a byte stream: the lengths of the complete
    * frames at its head, the bytes left, and whether it stopped at a
    * length above the reserved size. */
  datatype Decoded = Decoded(frames: seq<nat>, rest: seq<byte>, invalid: bool)

  /** The decoding rule: frames are taken while a whole frame is readable;
    * decoding stops before a short header, before an incomplete body, and
    * before a header whose length is too large. */
  function Split(s: seq<byte>): (r: Decoded)
    ensures |r.rest| <= |s|
    ensures r.frames == [] <==> r.rest == s
    ensures forall i :: 0 <= i < |r.frames| ==> r.frames[i] <= ReservedBufferSize
    decreases |s|
  {
    if |s| < HeaderLen then Decoded([], s, false)
    else
      var len := BigEndian(s[..HeaderLen]);
      if len > ReservedBufferSize then Decoded([], s, true)
      else if |s| >= HeaderLen + len then
        var tail := Split(s[HeaderLen + len..]);
        Decoded([len] + tail.frames, tail.rest, tail.invalid)
      else Decoded([], s, false)
  }

  /** What is left is a suffix of the input. */
  lemma {:induction false} SplitLeavesSuffix(s: seq<byte>)
    ensures |Split(s).rest| <= |s| && Split(s).rest == s[|s| - |Split(s).rest|..]
    decreases |s|
  {
    if |s| >= HeaderLen {
      var len := BigEndian(s[..HeaderLen]);
      if len <= ReservedBufferSize && |s| >= HeaderLen + len {
        var t := s[HeaderLen + len..];
        SplitLeavesSuffix(t);
        assert t[|t| - |Split(t).rest|..] == s[|s| - |Split(t).rest|..];
      }
    }
  }

  /** Decoding stops only where the rule says: at an oversize header, or
    * with too few bytes for the next header or frame. */
  lemma {:induction false} SplitStopsAtBoundary(s: seq<byte>)
    ensures var r := Split(s);
            (r.invalid ==> |r.rest| >= HeaderLen && BigEndian(r.rest[..HeaderLen]) > ReservedBufferSize)
            && (!r.invalid ==> |r.rest| < HeaderLen || |r.rest| < HeaderLen + BigEndian(r.rest[..HeaderLen]))
    decreases |s|
  {
    if |s| >= HeaderLen {
      var len := BigEndian(s[..HeaderLen]);
      if len <= ReservedBufferSize && |s| >= HeaderLen + len {
        SplitStopsAtBoundary(s[HeaderLen + len..]);
      }
    }
  }

  /** A whole frame at the head is taken. */
  lemma SplitDeliver(s: seq<byte>, len: nat)
    requires |s| >= HeaderLen && len == BigEndian(s[..HeaderLen])
    requires len <= ReservedBufferSize && |s| >= HeaderLen + len
    ensures Split(s).frames == [len] + Split(s[HeaderLen + len..]).frames
    ensures Split(s).rest == Split(s[HeaderLen + len..]).rest
    ensures Split(s).invalid == Split(s[HeaderLen + len..]).invalid
  {
    var tail := Split(s[HeaderLen + len..]);
    assert Split(s) == Decoded([len] + tail.frames, tail.rest, tail.invalid);
  }

  /** Decoding stops at an oversize length or an incomplete frame. */
  lemma SplitStop(s: seq<byte>, len: nat)
    requires |s| >= HeaderLen && len == BigEndian(s[..HeaderLen])
    requires len > ReservedBufferSize || |s| < HeaderLen + len
    ensures Split(s).frames == [] && Split(s).rest == s
    ensures Split(s).invalid <==> len > ReservedBufferSize
  {
    assert Split(s) == Decoded([], s, len > ReservedBufferSize);
  }

  /** The frame send(conn, message) emits. */
  function Frame(message: seq<byte>): (r: seq<byte>)
    requires |message| < Uint64Limit
    ensures |r| == HeaderLen + |message|
    ensures r[HeaderLen..] == message
  {
    ToBigEndian(|message|, HeaderLen) + message
  }

  function Frames(ms: seq<seq<byte>>): seq<byte>
    requires forall i :: 0 <= i < |ms| ==> |ms[i]| < Uint64Limit
  {
    if |ms| == 0 then [] else Frame(ms[0]) + Frames(ms[1..])
  }

  function Lengths(ms: seq<seq<byte>>): (r: seq<nat>)
    ensures |r| == |ms| && forall i :: 0 <= i < |ms| ==> r[i] == |ms[i]|
  {
    if |ms| == 0 then [] else [|ms[0]|] + Lengths(ms[1..])
  }

  /** Decoding the frames of messages within the reserved size gives back
    * their lengths, with nothing left over. */
  lemma {:induction false} SplitFrames(ms: seq<seq<byte>>, rest: seq<byte>)
    requires forall i :: 0 <= i < |ms| ==> |ms[i]| <= ReservedBufferSize
    requires |rest| < HeaderLen
    ensures Split(Frames(ms) + rest) == Decoded(Lengths(ms), rest, false)
  {
    if |ms| > 0 {
      var f := Frame(ms[0]);
      var s := Frames(ms) + rest;
      assert s == f + (Frames(ms[1..]) + rest);
      assert s[..HeaderLen] == ToBigEndian(|ms[0]|, HeaderLen);
      Uint64IsPow();
      BigEndianRoundTrip(|ms[0]|, HeaderLen);
      assert s[HeaderLen + |ms[0]|..] == Frames(ms[1..]) + rest;
      SplitFrames(ms[1..], rest);
    }
  }

  /** One frame's length and payload come back out of the decoder. */
  lemma FrameRoundTrip(message: seq<byte>)
    requires |message| <= ReservedBufferSize
    ensures Split(Frame(message)) == Decoded([|message|], [], false)
  {
    SplitFrames([message], []);
    assert Frames([message]) + [] == Frame(message);
  }

  // ---------------------------------------------------------------------
  // The stateful parts
  // ---------------------------------------------------------------------

  /** The readable bytes of the connection's input buffer. */
  class Inbox {
    var readable: seq<byte>

    constructor (bytes: seq<byte>)
      ensures readable == bytes
    {
      readable := bytes;
    }

    /** retrieve(len). */
    method Retrieve(len: nat)
      requires len <= |readable|
      modifies this
      ensures readable == old(readable)[len..]
    {
      readable := readable[len..];
    }
  }

  /** The connection: bytes sent on it and shutdown requests. */
  class Connection {
    var sent: seq<byte>
    var shutdowns: nat

    constructor ()
      ensures sent == [] && shutdowns == 0
    {
      sent := [];
      shutdowns := 0;
    }

    method Shutdown()
      modifies this`shutdowns
      ensures shutdowns == old(shutdowns) + 1
    {
      shutdowns := shutdowns + 1;
    }

    method Send(bytes: seq<byte>)
      modifies this`sent
      ensures sent == old(sent) + bytes
    {
      sent := sent + bytes;
    }
  }

  /** One step of the frame loop on the readable bytes. */
  datatype Step = NeedMore | Deliver(len: nat) | Invalid(len: nat)

  function StepOf(s: seq<byte>): (r: Step)
    ensures r.NeedMore? <==> |s| < HeaderLen || (BigEndian(s[..HeaderLen]) <= ReservedBufferSize && |s| < HeaderLen + BigEndian(s[..HeaderLen]))
    ensures r.Deliver? ==> r.len == BigEndian(s[..HeaderLen]) && HeaderLen + r.len <= |s|
    ensures r.Invalid? ==> r.len == BigEndian(s[..HeaderLen]) > ReservedBufferSize
  {
    if |s| < HeaderLen then NeedMore
    else
      var len := BigEndian(s[..HeaderLen]);
      if len > ReservedBufferSize then Invalid(len)
      else if |s| >= HeaderLen + len then Deliver(len)
      else NeedMore
  }

  /** The readable bytes after one pass of the loop body as written: an
    * invalid length shuts the connection down but neither consumes bytes
    * nor leaves the loop, so the loop runs the same pass again forever. */
  function NextAsWritten(s: seq<byte>): (r: seq<byte>)
    requires StepOf(s).Deliver? || StepOf(s).Invalid?
    ensures r == s <==> StepOf(s).Invalid?
    ensures StepOf(s).Deliver? ==> |r| == |s| - HeaderLen - StepOf(s).len
  {
    match StepOf(s)
    case Deliver(len) => s[HeaderLen + len..]
    case Invalid(_) => s
  }

  /** A header announcing more than the reserved size leaves the loop's
    * state unchanged while the loop condition still holds. */
  lemma OversizeLoopsForever()
    ensures var s := ToBigEndian(ReservedBufferSize + 1, HeaderLen);
            |s| >= HeaderLen && StepOf(s).Invalid? && NextAsWritten(s) == s
  {
    var s := ToBigEndian(ReservedBufferSize + 1, HeaderLen);
    Uint64IsPow();
    BigEndianRoundTrip(ReservedBufferSize + 1, HeaderLen);
    assert s[..HeaderLen] == s;
  }

  /** The callback invocations for n frames: each gets "Received". */
  function Reports(n: nat): (r: seq<string>)
    ensures |r| == n && forall i :: 0 <= i < n ==> r[i] == ReceivedText
  {
    seq(n, _ => ReceivedText)
  }

  lemma ReportsSnoc(n: nat)
    ensures Reports(n + 1) == Reports(n) + [ReceivedText]
  {
  }

  /** The codec: its message callback's invocations are recorded. */
  class Codec {
    var received: seq<string>

    constructor ()
      ensures received == []
    {
      received := [];
    }

    /** onMessage(conn, buf), with the oversize branch leaving the loop
      * after the shutdown: every complete frame at the head of the buffer
      * is consumed and reported; the bytes of an incomplete or oversize
      * frame stay in the buffer. */
    method OnMessage(conn: Connection, buf: Inbox)
      modifies this`received, conn`shutdowns, buf
      ensures buf.readable == Split(old(buf.readable)).rest
      ensures received == old(received) + Reports(|Split(old(buf.readable)).frames|)
      ensures conn.shutdowns == old(conn.shutdowns) + (if Split(old(buf.readable)).invalid then 1 else 0)
    {
      ghost var delivered: seq<nat> := [];
      ghost var whole := Split(buf.readable);
      while |buf.readable| >= HeaderLen
        invariant whole.frames == delivered + Split(buf.readable).frames
        invariant whole.rest == Split(buf.readable).rest
        invariant whole.invalid == Split(buf.readable).invalid
        invariant received == old(received) + Reports(|delivered|)
        invariant conn.shutdowns == old(conn.shutdowns)
        decreases |buf.readable|
      {
        ghost var before := buf.readable;
        var len := BigEndian(buf.readable[..HeaderLen]);
        if len > ReservedBufferSize {
          SplitStop(before, len);
          conn.Shutdown();
          break;
        } else if |buf.readable| >= len + HeaderLen {
          SplitDeliver(before, len);
          buf.Retrieve(HeaderLen);
          buf.Retrieve(len);
          assert buf.readable == before[HeaderLen + len..];
          ReportsSnoc(|delivered|);
          assert whole.frames == (delivered + [len]) + Split(buf.readable).frames;
          delivered := delivered + [len];
          received := received + [ReceivedText];
        } else {
          SplitStop(before, len);
          break;
        }
      }
    }

    /** send(conn, message): the 8-byte big-endian size, then the message. */
    method Send(conn: Connection, message: seq<byte>)
      requires |message| < Uint64Limit
      modifies conn`sent
      ensures conn.sent == old(conn.sent) + Frame(message)
    {
      var header := ToBigEndian(|message|, HeaderLen);
      conn.Send(header + message);
    }
  }
}
