/** The Python bridge's side of the wire (python/watchfs/pywatchfs.py):
    `send_str` writes `len(s)` as a 2-byte big-endian header and then
    `s.encode()`, and `receive_str` reads with `readexactly`. `len(s)` counts
    characters while the payload is UTF-8 bytes, so the header equals the
    payload length only for ASCII strings.

    The reader holds the bytes received so far and whether the worker closed
    its end (end of file). `readexactly(n)` either takes n bytes, fails with
    IncompleteReadError at end of file (and then empties the buffer), or waits
    for more. A receive that would wait is where a surrounding `wait_for`
    timeout fires. */
module PyWire {
  import opened Wrappers
  import opened Endian
  import Utf8
  import Framing
  import RustWire

  datatype SendError = OverflowError

  /** The bytes `send_str(s)` writes; `int.to_bytes(2, "big")` raises
      OverflowError for a length above 65535. */
  function SendFrame(s: string): (r: Result<seq<u8>, SendError>)
    ensures r.Ok? <==> |s| <= Framing.MaxPayload
    ensures r.Ok? ==> |r.value| == 2 + |Utf8.Encode(s)| && r.value[2..] == Utf8.Encode(s)
    ensures r.Ok? ==> U8ArrayToU16(r.value[..2]) as int == |s|
  {
    if |s| > Framing.MaxPayload then Err(OverflowError)
    else
      var commandLen := U16ToArrayOfU8(|s| as u16);
      assert (commandLen + Utf8.Encode(s))[..2] == commandLen;
      Ok(commandLen + Utf8.Encode(s))
  }

  /** How one `receive_str` ends on the reader's current bytes:
      - Message: both reads completed and the payload is valid UTF-8;
      - NoHeader: fewer than 2 bytes and no end of file, so the header read
        waits and nothing is consumed;
      - PartialPayload: the header was consumed and the payload read waits;
      - Incomplete: end of file first, IncompleteReadError;
      - BadUtf8: `decode()` raises UnicodeDecodeError. */
  datatype Received = Message(s: string) | NoHeader | PartialPayload | Incomplete | BadUtf8

  /** The outcome of `receive_str` and the bytes the reader still holds. */
  function Receive(buf: seq<u8>, eof: bool): (r: (Received, seq<u8>))
    ensures r.0.Message? || r.0.BadUtf8? ==> |r.1| <= |buf| - 2
    ensures r.0 == NoHeader <==> |buf| < 2 && !eof
    ensures r.0 == NoHeader ==> r.1 == buf
  {
    if |buf| < 2 then
      if eof then (Incomplete, []) else (NoHeader, buf)
    else
      var size := U8ArrayToU16(buf[..2]) as nat;
      var body := buf[2..];
      if |body| < size then
        if eof then (Incomplete, []) else (PartialPayload, body)
      else match Utf8.Decode(body[..size])
        case None => (BadUtf8, body[size..])
        case Some(s) => (Message(s), body[size..])
  }

  /** The messages successive receives take from a buffer, up to the first
      receive that does not return one. */
  function ReceiveMessages(buf: seq<u8>, eof: bool): (r: seq<string>)
    ensures 2 * |r| <= |buf|
    decreases |buf|
  {
    match Receive(buf, eof)
    case (Message(s), rest) => [s] + ReceiveMessages(rest, eof)
    case _ => []
  }

  // ---------------------------------------------------------------------------
  // Properties

  /** `receive_str` is the reference decoder plus strict UTF-8: it returns a
      message exactly when the buffer starts with a whole frame whose payload
      is valid UTF-8, and then it returns that payload's string and the rest. */
  lemma ReceiveExact(buf: seq<u8>, eof: bool)
    ensures Receive(buf, eof).0.Message? <==>
      Framing.Decode(buf).Ok? && Utf8.IsValid(Framing.Decode(buf).value.0)
    ensures Receive(buf, eof).0.Message? ==>
      var (payload, rest) := Framing.Decode(buf).value;
      Receive(buf, eof) == (Message(Utf8.Decode(payload).value), rest)
  {
    if |buf| >= 2 && 2 + Framing.Announced(buf) <= |buf| {
      var size := Framing.Announced(buf);
      assert buf[2..][..size] == buf[2..2 + size];
    }
  }

  /** The ways `receive_str` fails, in terms of the reference decoder:
      IncompleteReadError exactly when the socket is closed before a whole
      frame arrived, and then the buffer is emptied; a payload read that waits
      exactly when the header is there, the payload is not complete and the
      socket is open, and then the header has been consumed; and
      UnicodeDecodeError exactly when a whole frame arrived whose payload is
      not UTF-8, and then the frame has been consumed. */
  lemma ReceiveErrors(buf: seq<u8>, eof: bool)
    ensures Receive(buf, eof).0 == Incomplete <==> eof && Framing.Decode(buf).Err?
    ensures Receive(buf, eof).0 == Incomplete ==> Receive(buf, eof).1 == []
    ensures Receive(buf, eof).0 == PartialPayload <==> !eof && |buf| >= 2 && Framing.Decode(buf).Err?
    ensures Receive(buf, eof).0 == PartialPayload ==> Receive(buf, eof).1 == buf[2..]
    ensures Receive(buf, eof).0 == BadUtf8 <==>
      Framing.Decode(buf).Ok? && !Utf8.IsValid(Framing.Decode(buf).value.0)
    ensures Receive(buf, eof).0 == BadUtf8 ==> Receive(buf, eof).1 == Framing.Decode(buf).value.1
  {
    ReceiveExact(buf, eof);
    if |buf| >= 2 && 2 + Framing.Announced(buf) <= |buf| {
      var size := Framing.Announced(buf);
      assert buf[2..][..size] == buf[2..2 + size];
    }
  }

  /** The Python reader reads every frame the Rust worker writes: any message
      of at most 65535 bytes comes back whole, ASCII or not. */
  lemma ReceiveRustFrame(s: string, rest: seq<u8>, eof: bool)
    requires RustWire.Fits(s)
    ensures Receive(RustWire.SendFrame(s) + rest, eof) == (Message(s), rest)
  {
    RustWire.SendFrameAgrees(s);
    Framing.DecodeEncodeStr(s, rest);
    ReceiveExact(RustWire.SendFrame(s) + rest, eof);
  }

  /** Frames written back to back by the worker are received in the order they
      were written, none dropped and none repeated. */
  lemma {:induction false} ReceiveRustFrames(ms: seq<string>, eof: bool)
    requires forall i :: 0 <= i < |ms| ==> RustWire.Fits(ms[i])
    ensures ReceiveMessages(RustWire.SendFrames(ms), eof) == ms
  {
    if ms == [] {
    } else {
      assert RustWire.SendFrames(ms) == RustWire.SendFrame(ms[0]) + RustWire.SendFrames(ms[1..]);
      ReceiveRustFrame(ms[0], RustWire.SendFrames(ms[1..]), eof);
      ReceiveRustFrames(ms[1..], eof);
      assert [ms[0]] + ms[1..] == ms;
    }
  }

  /** For ASCII strings `send_str` writes the reference frame, which is also
      what the Rust `send_str` writes. */
  lemma AsciiFrameAgrees(s: string)
    requires Utf8.IsAscii(s) && |s| <= Framing.MaxPayload
    ensures SendFrame(s) == Ok(RustWire.SendFrame(s))
    ensures Framing.EncodeStr(s) == Ok(RustWire.SendFrame(s))
  {
    Utf8.EncodeLength(s);
    RustWire.SendFrameAgrees(s);
    var f := SendFrame(s).value;
    assert f == f[..2] + f[2..];
    EncodeDecodeLength(f[..2]);
  }

  /** For a string with a non-ASCII character the header announces fewer bytes
      than follow, so the Rust `receive_str` does not read the string back. */
  lemma NonAsciiFrameMisread(s: string, rest: seq<u8>)
    requires !Utf8.IsAscii(s) && |s| <= Framing.MaxPayload
    ensures SendFrame(s).Ok?
    ensures Framing.Announced(SendFrame(s).value) < |Utf8.Encode(s)|
    ensures Framing.EncodeStr(s).Ok? ==> Framing.EncodeStr(s).value != SendFrame(s).value
    ensures RustWire.ReceiveFrame(SendFrame(s).value + rest) != Ok((s, rest))
  {
    Utf8.EncodeLength(s);
    var f := SendFrame(s).value + rest;
    assert f[..2] == SendFrame(s).value[..2];
    var size := Framing.Announced(f);
    assert size == |s|;
    var r := RustWire.ReceiveFrame(f);
    if r.Ok? {
      var avail := f[2..];
      var buffer := avail[..size] + RustWire.Zeros(0);
      assert Utf8.Decode(buffer) == Some(r.value.0);
      Utf8.EncodeDecode(buffer);
    }
  }

  /** "é" (U+00E9) is one character and two bytes: `send_str` announces one
      byte, and the Rust reader takes the lone lead byte 0xC3 and panics on
      invalid UTF-8. */
  lemma EAcuteFrame()
    ensures SendFrame("\U{E9}") == Ok([0, 1, 0xC3, 0xA9])
    ensures RustWire.ReceiveFrame([0, 1, 0xC3, 0xA9]) == Err(RustWire.InvalidUtf8)
  {
    var e: string := "\U{E9}";
    var bytes: seq<u8> := [0xC3, 0xA9];
    assert |e| == 1 && e[0] == '\U{E9}';
    assert Utf8.EncodeChar(e[0]) == bytes;
    assert Utf8.Encode(e) == Utf8.EncodeChar(e[0]) + Utf8.Encode(e[1..]);
    assert Utf8.Encode(e) == bytes;
    assert U16ToArrayOfU8(1) == [0, 1];
    assert SendFrame(e).Ok?;
    assert SendFrame(e).value == [0, 1] + bytes;
    assert [0, 1] + bytes == [0, 1, 0xC3, 0xA9];
    var buffer: seq<u8> := [0, 1, 0xC3, 0xA9][2..][..1] + RustWire.Zeros(0);
    assert buffer == [0xC3];
    assert Utf8.DecodeFirst(buffer) == None;
  }

  /** A receive that times out before the header is complete consumes
      nothing; one that times out after reading the header has dropped those
      two bytes, and the frame's payload is then misread as a new frame. */
  lemma TimeoutAfterHeaderLosesFrame(s: string, rest: seq<u8>, eof: bool)
    requires RustWire.Fits(s) && Utf8.Encode(s) != []
    ensures var f := RustWire.SendFrame(s);
      Receive(f[..1], false) == (NoHeader, f[..1]) &&
      Receive(f[..2], false) == (PartialPayload, []) &&
      Receive(f[2..] + rest, eof) != (Message(s), rest)
  {
    var f := RustWire.SendFrame(s);
    assert f[..2][2..] == [];
    var g := f[2..] + rest;
    var r := Receive(g, eof);
    if r == (Message(s), rest) {
      var size := U8ArrayToU16(g[..2]) as nat;
      var body := g[2..];
      assert |g| == |Utf8.Encode(s)| + |rest|;
      assert |body[size..]| == |rest|;
      assert Utf8.Decode(body[..size]) == Some(s);
      Utf8.EncodeDecode(body[..size]);
    }
  }
}
