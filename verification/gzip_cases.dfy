/** The corruption cases the gzip decoder's tests exercise, with the exact
    messages they expect. Each holds under every chunking of the input. */
module GzipCases {
  import opened Bytes
  import opened Wrappers
  import opened Inflate
  import opened Streams
  import opened Text
  import opened GzipDecoder
  import opened GzipMember

  lemma HexMagic()
    ensures Format0x(0x8b1f) == "0x8b1f"
  {
    assert Hex(0x8) == "8";
    assert Hex(0x8b) == Hex(0x8) + [HEX_DIGITS[0xb]];
    assert Hex(0x8b1) == Hex(0x8b) + [HEX_DIGITS[0x1]];
    assert Hex(0x8b1f) == Hex(0x8b1) + [HEX_DIGITS[0xf]];
  }

  lemma HexAbcd()
    ensures Format0x(0xabcd) == "0xabcd"
  {
    assert Hex(0xa) == "a";
    assert Hex(0xab) == Hex(0xa) + [HEX_DIGITS[0xb]];
    assert Hex(0xabc) == Hex(0xab) + [HEX_DIGITS[0xc]];
    assert Hex(0xabcd) == Hex(0xabc) + [HEX_DIGITS[0xd]];
  }

  lemma HexSmall()
    ensures Format0x(8) == "0x8" && Format0x(7) == "0x7"
    ensures Format0x(0xe0) == "0xe0"
  {
    assert Hex(8) == "8" && Hex(7) == "7";
    assert Hex(0xe) == "e";
    assert Hex(0xe0) == Hex(0xe) + [HEX_DIGITS[0]];
  }

  lemma MagicMessage()
    ensures MagicError(0xabcd) == Error(ZipException, "not in gzip format; expected: 0x8b1f, found: 0xabcd")
  {
    HexMagic();
    HexAbcd();
    var a := "not in gzip format; expected: " + Format0x(GZIP_MAGIC);
    assert a == "not in gzip format; expected: 0x8b1f";
    var b := a + ", found: ";
    assert b == "not in gzip format; expected: 0x8b1f, found: ";
    assert b + Format0x(0xabcd) == "not in gzip format; expected: 0x8b1f, found: 0xabcd";
  }

  lemma MethodMessage()
    ensures MethodError(7) == Error(ZipException, "unsupported compression method; expected: 0x8, found: 0x7")
  {
    HexSmall();
    assert Format0x(CM_DEFLATE) == "0x8";
    assert Format0x(7) == "0x7";
    assert "unsupported compression method; expected: " + "0x8" + ", found: " + "0x7"
        == "unsupported compression method; expected: 0x8, found: 0x7";
  }

  /** A header whose magic reads 0xabcd fails with the magic message. */
  lemma MagicHeader(h: seq<byte>)
    requires |h| >= 4 && h[0] == 0xcd && h[1] == 0xab
    ensures CheckHeader(h) == Failed(Error(ZipException, "not in gzip format; expected: 0x8b1f, found: 0xabcd"))
  {
    assert LE16(h[0], h[1]) == 0xabcd;
    MagicMessage();
  }

  /** A header with the magic and method byte 7 fails with the method message. */
  lemma MethodHeader(h: seq<byte>)
    requires |h| >= 4 && h[0] == ID1 && h[1] == ID2 && h[2] == 7
    ensures CheckHeader(h) == Failed(Error(ZipException, "unsupported compression method; expected: 0x8, found: 0x7"))
  {
    assert LE16(h[0], h[1]) == GZIP_MAGIC;
    MethodMessage();
  }

  /** A header with the magic, deflate and FLG byte 0xe0 fails with the flags message. */
  lemma FlagsHeader(h: seq<byte>)
    requires |h| >= 4 && h[0] == ID1 && h[1] == ID2 && h[2] == CM_DEFLATE && h[3] == 0xe0
    ensures CheckHeader(h) == Failed(Error(ZipException, "unsupported flags: 0xe0"))
  {
    assert LE16(h[0], h[1]) == GZIP_MAGIC;
    HexSmall();
  }

  /** A member whose magic was replaced by the little-endian value 0xabcd. */
  lemma CorruptMagic(m: Member, crc: uint32, size: uint32, chunks: seq<seq<byte>>, prims: Primitives)
    requires m.extra.Some? ==> |m.extra.value| < 0x1_0000
    requires Flatten(chunks) == [0xcd, 0xab] + EncodeWith(m, crc, size)[2..]
    ensures DecodeStream(Init, chunks, prims)
            == Err(Error(ZipException, "not in gzip format; expected: 0x8b1f, found: 0xabcd"))
  {
    var input := Flatten(chunks);
    EncodeWithStart(m, crc, size);
    var h := input[..HEADER_SIZE];
    assert h[0] == 0xcd && h[1] == 0xab;
    MagicHeader(h);
    BadHeader(chunks, prims);
  }

  /** A member whose compression method byte was replaced by the reserved value 7. */
  lemma CorruptMethod(m: Member, crc: uint32, size: uint32, chunks: seq<seq<byte>>, prims: Primitives)
    requires m.extra.Some? ==> |m.extra.value| < 0x1_0000
    requires Flatten(chunks) == [ID1, ID2, 7] + EncodeWith(m, crc, size)[3..]
    ensures DecodeStream(Init, chunks, prims)
            == Err(Error(ZipException, "unsupported compression method; expected: 0x8, found: 0x7"))
  {
    var input := Flatten(chunks);
    EncodeWithStart(m, crc, size);
    var h := input[..HEADER_SIZE];
    assert h[0] == ID1 && h[1] == ID2 && h[2] == 7;
    MethodHeader(h);
    BadHeader(chunks, prims);
  }

  /** A member whose FLG byte was replaced by the reserved bits 0xe0. */
  lemma CorruptFlags(m: Member, crc: uint32, size: uint32, chunks: seq<seq<byte>>, prims: Primitives)
    requires m.extra.Some? ==> |m.extra.value| < 0x1_0000
    requires Flatten(chunks) == [ID1, ID2, 8, 0xe0] + EncodeWith(m, crc, size)[4..]
    ensures DecodeStream(Init, chunks, prims) == Err(Error(ZipException, "unsupported flags: 0xe0"))
  {
    var input := Flatten(chunks);
    EncodeWithStart(m, crc, size);
    var h := input[..HEADER_SIZE];
    assert h[0] == ID1 && h[1] == ID2 && h[2] == CM_DEFLATE && h[3] == 0xe0;
    FlagsHeader(h);
    BadHeader(chunks, prims);
  }

  /** Ten or thirty zero bytes (or any other positive number) after complete
      members are rejected as trailing garbage. */
  lemma TrailingZeros(ms: seq<Member>, n: nat, chunks: seq<seq<byte>>, prims: Primitives)
    requires |ms| > 0 && AllWellFormed(ms, prims.inflate) && n > 0
    requires Flatten(chunks) == EncodeAll(ms, prims) + seq(n, _ => 0)
    ensures DecodeStream(Init, chunks, prims) == Err(Error(IOException, "gzip stream finished prematurely"))
  {
    TrailingGarbage(ms, seq(n, _ => 0), chunks, prims);
  }

  /** A member with an empty plaintext decodes to nothing, without error. */
  lemma EmptyMember(m: Member, chunks: seq<seq<byte>>, prims: Primitives)
    requires WellFormed(m, prims.inflate) && Plain(m, prims.inflate) == []
    requires Flatten(chunks) == Encode(m, prims)
    ensures DecodeStream(Init, chunks, prims) == Ok([])
  {
    assert EncodeAll([m], prims) == Encode(m, prims) + EncodeAll([], prims);
    assert AllWellFormed([m], prims.inflate);
    RoundTrip([m], chunks, prims);
    assert PlainAll([m], prims.inflate) == Plain(m, prims.inflate) + PlainAll([], prims.inflate);
  }
}
