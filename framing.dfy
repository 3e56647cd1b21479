/** The frame format both sides of the bridge intend: a 2-byte big-endian
    payload length followed by exactly that many payload bytes. This is the
    reference the two as-written senders (RustWire.SendFrame and
    PyWire.SendFrame) are compared against: it refuses payloads whose length
    does not fit in the length field, and its decoder reads exactly the
    announced number of bytes, reporting a stream that ends early as a closed
    connection. */
module Framing {
  import opened Wrappers
  import opened Endian
  import Utf8

  const MaxPayload: nat := 0xFFFF

  datatype EncodeError = LengthOverflow(length: nat)
  datatype DecodeError = ConnectionClosed

  function Encode(payload: seq<u8>): (r: Result<seq<u8>, EncodeError>)
    ensures r.Ok? <==> |payload| <= MaxPayload
    ensures r.Err? ==> r.error == LengthOverflow(|payload|)
    ensures r.Ok? ==> |r.value| == 2 + |payload| && r.value[2..] == payload
    ensures r.Ok? ==> U8ArrayToU16(r.value[..2]) as int == |payload|
  {
    if |payload| > MaxPayload then Err(LengthOverflow(|payload|))
    else
      var header := U16ToArrayOfU8(|payload| as u16);
      assert (header + payload)[..2] == header;
      Ok(header + payload)
  }

  /** The frame carrying the UTF-8 bytes of a string. It exists exactly when
      those bytes fit the length field, and decoding it gives the string
      back. */
  function EncodeStr(s: string): (r: Result<seq<u8>, EncodeError>)
    ensures r.Ok? <==> |Utf8.Encode(s)| <= MaxPayload
    ensures r.Ok? ==> Decode(r.value) == Ok((Utf8.Encode(s), []))
    ensures r.Ok? ==> Utf8.Decode(Utf8.Encode(s)) == Some(s)
  {
    if |Utf8.Encode(s)| <= MaxPayload then
      DecodeEncode(Utf8.Encode(s), []);
      Utf8.DecodeEncode(s);
      assert Encode(Utf8.Encode(s)).value + [] == Encode(Utf8.Encode(s)).value;
      Encode(Utf8.Encode(s))
    else
      Encode(Utf8.Encode(s))
  }

  /** The payload length announced by a stream's first two bytes. */
  function Announced(stream: seq<u8>): nat
    requires |stream| >= 2
  {
    U8ArrayToU16(stream[..2]) as nat
  }

  /** The payload of the first frame of `stream` and what follows it. */
  function Decode(stream: seq<u8>): (r: Result<(seq<u8>, seq<u8>), DecodeError>)
    ensures r.Ok? <==> |stream| >= 2 && |stream| >= 2 + Announced(stream)
    ensures r.Ok? ==> |r.value.1| < |stream|
  {
    if |stream| < 2 || |stream| < 2 + Announced(stream) then Err(ConnectionClosed)
    else
      var size := Announced(stream);
      Ok((stream[2..2 + size], stream[2 + size..]))
  }

  /** Decoding a frame followed by anything gives back its payload and the
      bytes after it. */
  lemma DecodeEncode(payload: seq<u8>, rest: seq<u8>)
    requires |payload| <= MaxPayload
    ensures Decode(Encode(payload).value + rest) == Ok((payload, rest))
  {
    var f := Encode(payload).value;
    assert (f + rest)[..2] == f[..2];
    assert (f + rest)[2..2 + |payload|] == payload;
    assert (f + rest)[2 + |payload|..] == rest;
  }

  /** Conversely, whatever Decode accepts is a frame followed by the rest: the
      stream is exactly `Encode(payload) + rest`. */
  lemma EncodeDecode(stream: seq<u8>)
    requires Decode(stream).Ok?
    ensures var (payload, rest) := Decode(stream).value;
      Encode(payload).Ok? && stream == Encode(payload).value + rest
  {
    var (payload, rest) := Decode(stream).value;
    var f := Encode(payload).value;
    EncodeDecodeLength(stream[..2]);
    assert f[..2] == stream[..2];
    assert stream == stream[..2] + payload + rest;
    assert f == f[..2] + f[2..];
  }

  /** The concatenation of the frames of a list of payloads. */
  function EncodeAll(ps: seq<seq<u8>>): (r: seq<u8>)
    requires forall i :: 0 <= i < |ps| ==> |ps[i]| <= MaxPayload
    ensures |r| >= 2 * |ps|
  {
    if ps == [] then [] else Encode(ps[0]).value + EncodeAll(ps[1..])
  }

  /** Splits a whole stream into payloads; fails unless it ends on a frame
      boundary. */
  function DecodeAll(stream: seq<u8>): (r: Result<seq<seq<u8>>, DecodeError>)
    ensures r.Ok? ==> 2 * |r.value| <= |stream|
    decreases |stream|
  {
    if stream == [] then Ok([])
    else match Decode(stream)
      case Err(e) => Err(e)
      case Ok((p, rest)) =>
        match DecodeAll(rest)
        case Err(e) => Err(e)
        case Ok(ps) => Ok([p] + ps)
  }

  /** A stream of frames decodes to the payloads in the order they were sent,
      none dropped and none repeated. */
  lemma {:induction false} DecodeAllEncodeAll(ps: seq<seq<u8>>)
    requires forall i :: 0 <= i < |ps| ==> |ps[i]| <= MaxPayload
    ensures DecodeAll(EncodeAll(ps)) == Ok(ps)
  {
    if ps != [] {
      DecodeEncode(ps[0], EncodeAll(ps[1..]));
      assert Encode(ps[0]).value != [];
      DecodeAllEncodeAll(ps[1..]);
      assert [ps[0]] + ps[1..] == ps;
    }
  }

  /** String frames: decoding the payload of an encoded string gives the
      string back. */
  lemma DecodeEncodeStr(s: string, rest: seq<u8>)
    requires EncodeStr(s).Ok?
    ensures Decode(EncodeStr(s).value + rest).Ok?
    ensures Decode(EncodeStr(s).value + rest).value.1 == rest
    ensures Utf8.Decode(Decode(EncodeStr(s).value + rest).value.0) == Some(s)
  {
    DecodeEncode(Utf8.Encode(s), rest);
    Utf8.DecodeEncode(s);
  }
}
