/** UTF-8 as RFC 3629 defines it. Rust's `str::as_bytes` and Python's
    `str.encode()` produce `Encode`; Rust's `String::from_utf8` and Python's
    `bytes.decode()` accept exactly the byte sequences `Decode` accepts (no
    overlong forms, no encoded surrogates, nothing above U+10FFFF). A Dafny
    `char` is a Unicode scalar value, the same set of values a Rust `char` holds. */
module Utf8 {
  import opened Wrappers
  import opened Endian

  predicate IsAscii(s: string) {
    forall i :: 0 <= i < |s| ==> s[i] as int < 0x80
  }

  predicate IsContinuation(b: u8) {
    0x80 <= b < 0xC0
  }

  /** The bytes of one scalar value (table in section 3 of RFC 3629). */
  function EncodeChar(c: char): (r: seq<u8>)
    ensures 1 <= |r| <= 4
    ensures |r| == 1 <==> c as int < 0x80
  {
    var n := c as int;
    if n < 0x80 then
      [n as u8]
    else if n < 0x800 then
      [(0xC0 + n / 0x40) as u8, (0x80 + n % 0x40) as u8]
    else if n < 0x1_0000 then
      [(0xE0 + n / 0x1000) as u8, (0x80 + n / 0x40 % 0x40) as u8, (0x80 + n % 0x40) as u8]
    else
      [(0xF0 + n / 0x4_0000) as u8, (0x80 + n / 0x1000 % 0x40) as u8,
       (0x80 + n / 0x40 % 0x40) as u8, (0x80 + n % 0x40) as u8]
  }

  /** The UTF-8 bytes of a string, as Rust's `as_bytes` and Python's
      `str.encode` give them: 1 to 4 bytes per character. */
  function Encode(s: string): (r: seq<u8>)
    ensures |s| <= |r| <= 4 * |s|
  {
    if s == [] then [] else EncodeChar(s[0]) + Encode(s[1..])
  }

  /** The scalar value at the start of `b` and the number of bytes it spans,
      or None when `b` does not start with a well-formed sequence (the syntax
      of section 4 of RFC 3629). */
  function DecodeFirst(b: seq<u8>): (r: Option<(char, nat)>)
    requires |b| > 0
    ensures r.Some? ==> 1 <= r.value.1 <= |b| && r.value.1 <= 4
  {
    var b0 := b[0] as int;
    if b0 < 0x80 then
      Some((b0 as char, 1))
    else if 0xC2 <= b0 <= 0xDF then
      if |b| >= 2 && IsContinuation(b[1]) then
        Some((((b0 - 0xC0) * 0x40 + (b[1] as int - 0x80)) as char, 2))
      else None
    else if 0xE0 <= b0 <= 0xEF then
      var lo := if b0 == 0xE0 then 0xA0 else 0x80;
      var hi := if b0 == 0xED then 0xA0 else 0xC0;
      if |b| >= 3 && lo <= b[1] as int < hi && IsContinuation(b[2]) then
        Some((((b0 - 0xE0) * 0x1000 + (b[1] as int - 0x80) * 0x40 + (b[2] as int - 0x80)) as char, 3))
      else None
    else if 0xF0 <= b0 <= 0xF4 then
      var lo := if b0 == 0xF0 then 0x90 else 0x80;
      var hi := if b0 == 0xF4 then 0x90 else 0xC0;
      if |b| >= 4 && lo <= b[1] as int < hi && IsContinuation(b[2]) && IsContinuation(b[3]) then
        Some((((b0 - 0xF0) * 0x4_0000 + (b[1] as int - 0x80) * 0x1000
               + (b[2] as int - 0x80) * 0x40 + (b[3] as int - 0x80)) as char, 4))
      else None
    else
      None
  }

  /** Strict decoding of a whole byte string, as `String::from_utf8` and
      `bytes.decode` do it: None unless every byte belongs to a well-formed
      sequence. A decoded string has between a quarter of the bytes and all of
      them as characters. */
  function Decode(b: seq<u8>): (r: Option<string>)
    ensures r.Some? ==> |r.value| <= |b| <= 4 * |r.value|
    decreases |b|
  {
    if b == [] then Some([])
    else match DecodeFirst(b)
      case None => None
      case Some((c, k)) =>
        match Decode(b[k..])
        case None => None
        case Some(s) => Some([c] + s)
  }

  predicate IsValid(b: seq<u8>) {
    Decode(b).Some?
  }

  // ---------------------------------------------------------------------------
  // One scalar value

  lemma DivMod64(n: int)
    requires 0 <= n
    ensures n == n / 0x40 * 0x40 + n % 0x40 && 0 <= n % 0x40 < 0x40
    ensures n / 0x40 == n / 0x1000 * 0x40 + n / 0x40 % 0x40
    ensures n / 0x1000 == n / 0x4_0000 * 0x40 + n / 0x1000 % 0x40
  {
  }

  /** Decoding the encoding of a scalar value, followed by anything, yields that
      value and consumes exactly its bytes. */
  lemma DecodeFirstEncodeChar(c: char, rest: seq<u8>)
    ensures DecodeFirst(EncodeChar(c) + rest) == Some((c, |EncodeChar(c)|))
  {
    var n := c as int;
    DivMod64(n);
    var e := EncodeChar(c);
    var b := e + rest;
    assert b[..|e|] == e;
    if n < 0x80 {
    } else if n < 0x800 {
      assert b[0] as int == 0xC0 + n / 0x40 && b[1] as int == 0x80 + n % 0x40;
    } else if n < 0x1_0000 {
      assert b[0] as int == 0xE0 + n / 0x1000;
      assert b[1] as int == 0x80 + n / 0x40 % 0x40 && b[2] as int == 0x80 + n % 0x40;
    } else {
      assert b[0] as int == 0xF0 + n / 0x4_0000;
      assert b[1] as int == 0x80 + n / 0x1000 % 0x40;
      assert b[2] as int == 0x80 + n / 0x40 % 0x40 && b[3] as int == 0x80 + n % 0x40;
    }
  }

  lemma Digits2(x: int, z: int)
    requires 0 <= x && 0 <= z < 0x40
    ensures (x * 0x40 + z) / 0x40 == x && (x * 0x40 + z) % 0x40 == z
  {
  }

  lemma Digits3(x: int, y: int, z: int)
    requires 0 <= x && 0 <= y < 0x40 && 0 <= z < 0x40
    ensures var n := x * 0x1000 + y * 0x40 + z;
      n / 0x1000 == x && n / 0x40 % 0x40 == y && n % 0x40 == z
  {
    var n := x * 0x1000 + y * 0x40 + z;
    assert n == (x * 0x40 + y) * 0x40 + z;
    Digits2(x * 0x40 + y, z);
    Digits2(x, y);
    assert n / 0x1000 == n / 0x40 / 0x40;
  }

  lemma Digits4(w: int, x: int, y: int, z: int)
    requires 0 <= w && 0 <= x < 0x40 && 0 <= y < 0x40 && 0 <= z < 0x40
    ensures var n := w * 0x4_0000 + x * 0x1000 + y * 0x40 + z;
      n / 0x4_0000 == w && n / 0x1000 % 0x40 == x && n / 0x40 % 0x40 == y && n % 0x40 == z
  {
    var n := w * 0x4_0000 + x * 0x1000 + y * 0x40 + z;
    var m := w * 0x40 + x;
    assert n == m * 0x1000 + y * 0x40 + z;
    Digits3(m, y, z);
    Digits2(w, x);
    assert n / 0x4_0000 == n / 0x1000 / 0x40;
  }

  /** The encoding is canonical: whatever scalar value `DecodeFirst` reads, its
      encoding is exactly the bytes it consumed. */
  lemma EncodeCharOfDecodeFirst(b: seq<u8>)
    requires |b| > 0 && DecodeFirst(b).Some?
    ensures EncodeChar(DecodeFirst(b).value.0) == b[..DecodeFirst(b).value.1]
  {
    var (c, k) := DecodeFirst(b).value;
    var n := c as int;
    var b0 := b[0] as int;
    if k == 2 {
      Digits2(b0 - 0xC0, b[1] as int - 0x80);
    } else if k == 3 {
      Digits3(b0 - 0xE0, b[1] as int - 0x80, b[2] as int - 0x80);
    } else if k == 4 {
      Digits4(b0 - 0xF0, b[1] as int - 0x80, b[2] as int - 0x80, b[3] as int - 0x80);
    }
  }

  // ---------------------------------------------------------------------------
  // Whole strings

  /** Every string survives an encode-decode round trip. */
  lemma {:induction false} DecodeEncode(s: string)
    ensures Decode(Encode(s)) == Some(s)
  {
    if s != [] {
      var e := EncodeChar(s[0]);
      DecodeFirstEncodeChar(s[0], Encode(s[1..]));
      assert (e + Encode(s[1..]))[|e|..] == Encode(s[1..]);
      DecodeEncode(s[1..]);
      assert [s[0]] + s[1..] == s;
    }
  }

  /** Every byte sequence `Decode` accepts is the encoding of what it decodes to,
      so the decoding of a valid sequence is unique. */
  lemma {:induction false} EncodeDecode(b: seq<u8>)
    requires Decode(b).Some?
    ensures Encode(Decode(b).value) == b
    decreases |b|
  {
    if b != [] {
      var (c, k) := DecodeFirst(b).value;
      EncodeCharOfDecodeFirst(b);
      EncodeDecode(b[k..]);
      var s := Decode(b[k..]).value;
      assert Decode(b) == Some([c] + s);
      assert ([c] + s)[0] == c && ([c] + s)[1..] == s;
      assert Encode([c] + s) == EncodeChar(c) + Encode(s);
      assert b == b[..k] + b[k..];
    }
  }

  /** A string has at least as many bytes as characters and at most four
      times as many; the two counts agree exactly for ASCII strings. */
  lemma {:induction false} EncodeLength(s: string)
    ensures |s| <= |Encode(s)| <= 4 * |s|
    ensures |Encode(s)| == |s| <==> IsAscii(s)
  {
    if s != [] {
      EncodeLength(s[1..]);
      assert IsAscii(s) <==> s[0] as int < 0x80 && IsAscii(s[1..]) by {
        if s[0] as int < 0x80 && IsAscii(s[1..]) {
          forall i | 0 <= i < |s| ensures s[i] as int < 0x80 {
            if i > 0 { assert s[i] == s[1..][i - 1]; }
          }
        }
        if IsAscii(s) {
          forall i | 0 <= i < |s[1..]| ensures s[1..][i] as int < 0x80 {
            assert s[1..][i] == s[i + 1];
          }
        }
      }
    }
  }
}
