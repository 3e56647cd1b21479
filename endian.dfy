/** Machine integers and the 2-byte big-endian length field of the bridge wire
    protocol: `u16_to_array_of_u8` and `u8_array_to_u16` of the Rust worker
    (src/lib.rs). Python's `int.to_bytes(2, "big")` and `int.from_bytes(_, "big")`
    compute the same conversions for values in range, so both sides use these. */
module Endian {

  newtype u8 = x: int | 0 <= x < 0x100
  newtype u16 = x: int | 0 <= x < 0x1_0000

  /** Rust's `[u8; 2]`. */
  type Array2 = s: seq<u8> | |s| == 2 witness [0, 0]

  /** `[((n >> 8) & 0xff) as u8, (n & 0xff) as u8]`: on a u16, `>> 8` is
      division by 256 and `& 0xff` is the remainder modulo 256. */
  function U16ToArrayOfU8(n: u16): (r: Array2)
    ensures r[0] as int * 0x100 + r[1] as int == n as int
  {
    [((n / 0x100) % 0x100) as u8, (n % 0x100) as u8]
  }

  /** `((array[0] as u16) << 8) + (array[1] as u16)`. The shift is computed in
      16 bits (bits shifted out are lost) and the addition is checked: the
      conversion back to u16 is the proof that it never overflows. */
  function U8ArrayToU16(a: Array2): (r: u16)
    ensures r as int == a[0] as int * 0x100 + a[1] as int
  {
    var shifted := (a[0] as int * 0x100) % 0x1_0000;
    (shifted + a[1] as int) as u16
  }

  /** Encoding then decoding a length gives it back. */
  lemma DecodeEncodeLength(n: u16)
    ensures U8ArrayToU16(U16ToArrayOfU8(n)) == n
  {
  }

  /** Decoding then encoding any pair of bytes gives it back: the header is a
      bijection between u16 and 2-byte arrays. */
  lemma EncodeDecodeLength(a: Array2)
    ensures U16ToArrayOfU8(U8ArrayToU16(a)) == a
  {
    var r := U16ToArrayOfU8(U8ArrayToU16(a));
    assert r[0] as int * 0x100 + r[1] as int == a[0] as int * 0x100 + a[1] as int;
    assert r[0] == a[0] && r[1] == a[1];
  }

  /** The first byte of the array is the high byte. */
  lemma BigEndian(n: u16)
    ensures U16ToArrayOfU8(n)[0] as int == n as int / 0x100
    ensures U16ToArrayOfU8(n)[1] as int == n as int % 0x100
  {
  }

  /** The unit-test vectors 5 <-> [0, 5], 256 <-> [1, 0] and 525 <-> [2, 13]. */
  lemma TestVectors()
    ensures U16ToArrayOfU8(5) == [0, 5] && U8ArrayToU16([0, 5]) == 5
    ensures U16ToArrayOfU8(256) == [1, 0] && U8ArrayToU16([1, 0]) == 256
    ensures U16ToArrayOfU8(525) == [2, 13] && U8ArrayToU16([2, 13]) == 525
  {
  }
}
