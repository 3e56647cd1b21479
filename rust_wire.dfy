/** The Rust worker's side of the wire (src/lib.rs): `send_str`, `receive_str`
    and `check_for_stop` over a TCP stream, and the frames they write and read.

    The stream is a `TcpStream` object holding the bytes written so far and
    the bytes of the peer not read yet: everything the peer sends before it
    closes its end, so a read that runs out of them meets end of file. A panic (`unwrap` or
    `expect` failing) is an `Err`. `receive_str` reads the payload with one
    `read` call, not `read_exact`; the model assumes that call delivers
    as many of the announced bytes as the stream still holds, and the rest of
    the zero-filled buffer stays zero. */
module RustWire {
  import opened Wrappers
  import opened Endian
  import Utf8
  import Framing

  datatype Panic = UnexpectedEof | InvalidUtf8

  /** The bytes `send_str` writes: the length header, then the UTF-8 bytes.
      The length is the byte length cut to 16 bits by `as u16`. */
  function SendFrame(message: string): (r: seq<u8>)
    ensures |r| == 2 + |Utf8.Encode(message)| && r[2..] == Utf8.Encode(message)
    ensures U8ArrayToU16(r[..2]) as int == |Utf8.Encode(message)| % 0x1_0000
  {
    var bytes := Utf8.Encode(message);
    var header := U16ToArrayOfU8((|bytes| % 0x1_0000) as u16);
    assert (header + bytes)[..2] == header;
    header + bytes
  }

  function Zeros(n: nat): (z: seq<u8>)
    ensures |z| == n && forall i :: 0 <= i < n ==> z[i] == 0
  {
    seq(n, _ => 0)
  }

  /** What `receive_str` returns for a stream and what it leaves unread. */
  function ReceiveFrame(stream: seq<u8>): (r: Result<(string, seq<u8>), Panic>)
    ensures r == Err(UnexpectedEof) <==> |stream| < 2
    ensures r.Ok? ==> |r.value.1| <= |stream| - 2
  {
    if |stream| < 2 then Err(UnexpectedEof)
    else
      var size := U8ArrayToU16(stream[..2]) as nat;
      var avail := stream[2..];
      var k := if size <= |avail| then size else |avail|;
      match Utf8.Decode(avail[..k] + Zeros(size - k))
      case None => Err(InvalidUtf8)
      case Some(s) => Ok((s, avail[k..]))
  }

  /** The concatenated frames `send_str` writes for a list of messages; every
      message writes at least its header, so the stream is empty exactly when
      there are no messages. */
  function SendFrames(ms: seq<string>): (r: seq<u8>)
    ensures r == [] <==> ms == []
  {
    if ms == [] then [] else SendFrame(ms[0]) + SendFrames(ms[1..])
  }

  predicate Fits(m: string) {
    |Utf8.Encode(m)| <= Framing.MaxPayload
  }

  // ---------------------------------------------------------------------------
  // The stream and the three operations

  class TcpStream {
    var incoming: seq<u8>
    var outgoing: seq<u8>

    constructor (incoming: seq<u8>)
      ensures this.incoming == incoming && outgoing == []
    {
      this.incoming := incoming;
      outgoing := [];
    }
  }

  method SendStr(stream: TcpStream, message: string)
    modifies stream
    ensures stream.outgoing == old(stream.outgoing) + SendFrame(message)
    ensures stream.incoming == old(stream.incoming)
  {
    var bytesArr := Utf8.Encode(message);
    var len := (|bytesArr| % 0x1_0000) as u16;
    var size := U16ToArrayOfU8(len);
    stream.outgoing := stream.outgoing + size;
    stream.outgoing := stream.outgoing + bytesArr;
  }

  method ReceiveStr(stream: TcpStream) returns (r: Result<string, Panic>)
    modifies stream
    ensures stream.outgoing == old(stream.outgoing)
    ensures match ReceiveFrame(old(stream.incoming))
      case Ok((s, rest)) => r == Ok(s) && stream.incoming == rest
      case Err(p) => r == Err(p)
  {
    if |stream.incoming| < 2 {
      stream.incoming := [];
      return Err(UnexpectedEof);
    }
    var sizeBuffer := new u8[2](_ => 0);
    sizeBuffer[0], sizeBuffer[1] := stream.incoming[0], stream.incoming[1];
    assert sizeBuffer[..] == old(stream.incoming)[..2];
    stream.incoming := stream.incoming[2..];
    var size := U8ArrayToU16(sizeBuffer[..]) as nat;
    var messageBuffer := new u8[size](_ => 0);
    var avail := stream.incoming;
    var bytesRead := if size <= |avail| then size else |avail|;
    forall i | 0 <= i < bytesRead {
      messageBuffer[i] := avail[i];
    }
    assert messageBuffer[..] == avail[..bytesRead] + Zeros(size - bytesRead);
    stream.incoming := avail[bytesRead..];
    var text := Utf8.Decode(messageBuffer[..]);
    if text.None? {
      return Err(InvalidUtf8);
    }
    return Ok(text.value);
  }

  method CheckForStop(stream: TcpStream) returns (r: Result<bool, Panic>)
    modifies stream
    ensures stream.outgoing == old(stream.outgoing)
    ensures match ReceiveFrame(old(stream.incoming))
      case Ok((s, rest)) => r == Ok(s == "stop") && stream.incoming == rest
      case Err(p) => r == Err(p)
  {
    var received := ReceiveStr(stream);
    match received
    case Err(p) => return Err(p);
    case Ok(s) => return Ok(s == "stop");
  }

  // ---------------------------------------------------------------------------
  // Properties

  /** For a message of at most 65535 bytes the frame `send_str` writes is the
      reference frame. */
  lemma SendFrameAgrees(m: string)
    requires Fits(m)
    ensures Framing.EncodeStr(m) == Ok(SendFrame(m))
  {
    var f := SendFrame(m);
    assert f == f[..2] + f[2..];
    EncodeDecodeLength(f[..2]);
  }

  /** When the stream holds the whole announced payload, `receive_str` is the
      reference decoder followed by UTF-8 validation, and it panics exactly
      when the payload is not valid UTF-8. */
  lemma ReceiveFrameExact(stream: seq<u8>)
    requires Framing.Decode(stream).Ok?
    ensures var (payload, rest) := Framing.Decode(stream).value;
      ReceiveFrame(stream) ==
        if Utf8.IsValid(payload) then Ok((Utf8.Decode(payload).value, rest)) else Err(InvalidUtf8)
  {
    var size := Framing.Announced(stream);
    assert stream[2..][..size] + Zeros(0) == stream[2..2 + size];
  }

  /** `receive_str` after `send_str` of a message of at most 65535 bytes gives
      the message back and consumes exactly its frame. */
  lemma ReceiveSendFrame(m: string, rest: seq<u8>)
    requires Fits(m)
    ensures ReceiveFrame(SendFrame(m) + rest) == Ok((m, rest))
  {
    SendFrameAgrees(m);
    Framing.DecodeEncodeStr(m, rest);
    ReceiveFrameExact(SendFrame(m) + rest);
  }

  /** A stream of frames is read back message by message: the first
      `receive_str` returns the first message and leaves the other frames. */
  lemma ReceiveSendFrames(ms: seq<string>, rest: seq<u8>)
    requires ms != [] && forall i :: 0 <= i < |ms| ==> Fits(ms[i])
    ensures ReceiveFrame(SendFrames(ms) + rest) == Ok((ms[0], SendFrames(ms[1..]) + rest))
  {
    assert SendFrames(ms) + rest == SendFrame(ms[0]) + (SendFrames(ms[1..]) + rest);
    ReceiveSendFrame(ms[0], SendFrames(ms[1..]) + rest);
  }

  /** A message longer than 65535 bytes gets a header announcing its length
      modulo 65536, the reference encoder refuses it, and `receive_str` does
      not read it back: whatever it returns is a shorter string. */
  lemma OversizedFrameMisread(m: string, rest: seq<u8>)
    requires !Fits(m)
    ensures Framing.EncodeStr(m).Err?
    ensures Framing.Announced(SendFrame(m)) < |Utf8.Encode(m)|
    ensures ReceiveFrame(SendFrame(m) + rest) != Ok((m, rest))
  {
    var f := SendFrame(m) + rest;
    assert f[..2] == SendFrame(m)[..2];
    var size := Framing.Announced(f);
    var r := ReceiveFrame(f);
    if r.Ok? {
      var avail := f[2..];
      assert size <= |avail|;
      var buffer := avail[..size] + Zeros(0);
      assert Utf8.Decode(buffer) == Some(r.value.0);
      Utf8.EncodeDecode(buffer);
      assert |Utf8.Encode(r.value.0)| == size;
    }
  }

  /** The unit test of `send_str` / `receive_str`. */
  lemma SendReceiveTest()
    ensures ReceiveFrame(SendFrame("Test String 123!@#/}^%")) == Ok(("Test String 123!@#/}^%", []))
  {
    var m := "Test String 123!@#/}^%";
    Utf8.EncodeLength(m);
    ReceiveSendFrame(m, []);
    assert SendFrame(m) + [] == SendFrame(m);
  }

  /** The unit test of `check_for_stop`: a "stop" frame reads as stop, a
      "not stop" frame does not. */
  lemma CheckForStopTest(rest: seq<u8>)
    ensures ReceiveFrame(SendFrame("stop") + rest) == Ok(("stop", rest))
    ensures ReceiveFrame(SendFrame("not stop") + rest) == Ok(("not stop", rest))
  {
    Utf8.EncodeLength("stop");
    Utf8.EncodeLength("not stop");
    ReceiveSendFrame("stop", rest);
    ReceiveSendFrame("not stop", rest);
  }
}
