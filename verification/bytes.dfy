/** Unsigned byte and 32-bit quantities and the little-endian field encodings
    used by the gzip container (section 2.1 of RFC 1952: multi-byte numbers
    are stored least significant byte first). */
module Bytes {

  type byte = x: int | 0 <= x < 0x100
  type uint16 = x: int | 0 <= x < 0x1_0000
  type uint32 = x: int | 0 <= x < 0x1_0000_0000

  const TWO_32: int := 0x1_0000_0000

  /** Value of a 2-byte little-endian field. */
  function LE16(lo: byte, hi: byte): uint16 {
    lo as int + 0x100 * (hi as int)
  }

  /** Value of a 4-byte little-endian field. */
  function LE32(s: seq<byte>): uint32
    requires |s| == 4
  {
    s[0] as int + 0x100 * (s[1] as int) + 0x1_0000 * (s[2] as int) + 0x100_0000 * (s[3] as int)
  }

  /** The 2-byte little-endian encoding of `v`. */
  function EncodeLE16(v: uint16): (s: seq<byte>)
    ensures |s| == 2 && LE16(s[0], s[1]) == v
  {
    [v % 0x100, v / 0x100]
  }

  /** The 4-byte little-endian encoding of `v`. */
  function EncodeLE32(v: uint32): (s: seq<byte>)
    ensures |s| == 4 && LE32(s) == v
  {
    var b0 := v % 0x100;
    var r0 := v / 0x100;
    var b1 := r0 % 0x100;
    var r1 := r0 / 0x100;
    var b2 := r1 % 0x100;
    var b3 := r1 / 0x100;
    assert r0 == b1 + 0x100 * r1;
    assert r1 == b2 + 0x100 * b3;
    [b0, b1, b2, b3]
  }
}
