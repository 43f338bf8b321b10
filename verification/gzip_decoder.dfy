/** The gzip container decoder: the member format of section 2.3 of RFC 1952
    read as a byte-at-a-time state machine around the raw inflater. A decode
    call feeds every available byte through `Step`; state carries over between
    calls, so a header or field split across calls resumes where it stopped. */
module GzipDecoder {
  import opened Bytes
  import opened Wrappers
  import opened Inflate
  import opened Streams
  import opened Text

  const GZIP_MAGIC: int := 0x8b1f     // ID1 = 0x1f, ID2 = 0x8b read as a little-endian 16-bit value
  const ID1: byte := 0x1f
  const ID2: byte := 0x8b
  const CM_DEFLATE: int := 8
  const HEADER_SIZE: int := 10        // ID1 ID2 CM FLG MTIME(4) XFL OS
  const TRAILER_SIZE: int := 8        // CRC32(4) ISIZE(4)

  // FLG bits (section 2.3.1 of RFC 1952); bits 5 to 7 are reserved
  const FTEXT: int := 1
  const FHCRC: int := 2
  const FEXTRA: int := 4
  const FNAME: int := 8
  const FCOMMENT: int := 16
  const RESERVED_FLAGS: int := 0xe0

  const PREMATURE: string := "gzip stream finished prematurely"
  const TRUNCATED: string := "unexpected end of gzip stream"

  /** The foreign capabilities the decoder uses: the raw inflater and CRC-32. */
  datatype Primitives = Primitives(inflate: Inflater, crc32: seq<byte> -> uint32)

  predicate HasFlag(flags: byte, bit: int)
    requires bit > 0
  {
    (flags / bit) % 2 == 1
  }

  /** Some reserved FLG bit (bits 5 to 7) is set. */
  predicate ReservedFlagsSet(flags: byte) {
    (flags as bv8) & (RESERVED_FLAGS as bv8) != 0
  }

  /** The reserved bits are exactly the values from 0x20 up. */
  lemma ReservedFlagsIff(flags: byte)
    ensures ReservedFlagsSet(flags) <==> flags >= 0x20
  {
  }

  /** Where the decoder is within the current member. */
  datatype Phase =
    | Header(buf: seq<byte>)                 // fixed 10-byte header, bytes read so far
    | ExtraLen(flags: byte, buf: seq<byte>)  // FEXTRA: 2-byte length, bytes read so far
    | ExtraData(flags: byte, left: nat)      // FEXTRA: field bytes still to skip
    | Name(flags: byte)                      // FNAME: skipping up to the zero byte
    | Comment(flags: byte)                   // FCOMMENT: skipping up to the zero byte
    | Hcrc(flags: byte, left: nat)           // FHCRC: CRC16 bytes still to skip
    | Body(compressed: seq<byte>)            // deflate data fed to the inflater so far
    | Trailer(plain: seq<byte>, buf: seq<byte>)  // member plaintext, trailer bytes read so far
    | Boundary(buf: seq<byte>)               // after a member; bytes of a possible next magic
    | Failed(error: Error)

  /** Decoder state: the phase and the plaintext written to the sink so far. */
  datatype Decoder = Decoder(phase: Phase, out: seq<byte>)

  const Init: Decoder := Decoder(Header([]), [])

  /** The phase that follows the optional fields before `stage`
      (0 extra, 1 name, 2 comment, 3 header CRC), in the order RFC 1952 lays them out. */
  function Fields(flags: byte, stage: nat): Phase {
    if stage <= 0 && HasFlag(flags, FEXTRA) then ExtraLen(flags, [])
    else if stage <= 1 && HasFlag(flags, FNAME) then Name(flags)
    else if stage <= 2 && HasFlag(flags, FCOMMENT) then Comment(flags)
    else if stage <= 3 && HasFlag(flags, FHCRC) then Hcrc(flags, 2)
    else Body([])
  }

  function MagicError(magic: int): Error
    requires magic >= 0
  {
    Error(ZipException, "not in gzip format; expected: " + Format0x(GZIP_MAGIC) + ", found: " + Format0x(magic))
  }

  function MethodError(cm: byte): Error {
    Error(ZipException, "unsupported compression method; expected: " + Format0x(CM_DEFLATE) + ", found: " + Format0x(cm))
  }

  function FlagsError(flags: byte): Error {
    Error(ZipException, "unsupported flags: " + Format0x(flags))
  }

  function CrcError(expected: uint32, found: uint32): Error {
    Error(ZipException, "corrupt gzip stream (CRC32); expected: " + Format0x(expected) + ", found: " + Format0x(found))
  }

  function SizeError(expected: uint32, found: uint32): Error {
    Error(ZipException, "corrupt gzip stream (ISIZE); expected: " + Format0x(expected) + ", found: " + Format0x(found))
  }

  /** The magic error names the value it found: two different magics never
      give the same message. */
  lemma MagicErrorIdentifies(a: nat, b: nat)
    requires MagicError(a) == MagicError(b)
    ensures a == b
  {
    var q := "not in gzip format; expected: " + Format0x(GZIP_MAGIC) + ", found: ";
    SuffixInjective(q, Format0x(a), Format0x(b));
    SuffixInjective("0x", Hex(a), Hex(b));
    HexInjective(a, b);
  }

  lemma SuffixInjective(p: string, x: string, y: string)
    requires p + x == p + y
    ensures x == y
  {
    assert x == (p + x)[|p|..];
  }

  /** Validation of the fixed header: magic, then method, then flags; MTIME,
      XFL and OS are not checked. */
  function CheckHeader(h: seq<byte>): (p: Phase)
    requires |h| >= 4
    ensures p.Failed? <==> LE16(h[0], h[1]) != GZIP_MAGIC || h[2] != CM_DEFLATE || ReservedFlagsSet(h[3])
    ensures LE16(h[0], h[1]) != GZIP_MAGIC ==> p == Failed(MagicError(LE16(h[0], h[1])))
    ensures LE16(h[0], h[1]) == GZIP_MAGIC && h[2] != CM_DEFLATE ==> p == Failed(MethodError(h[2]))
    ensures LE16(h[0], h[1]) == GZIP_MAGIC && h[2] == CM_DEFLATE && ReservedFlagsSet(h[3]) ==> p == Failed(FlagsError(h[3]))
    ensures !p.Failed? ==> p == Fields(h[3], 0)
  {
    var magic := LE16(h[0], h[1]);
    if magic != GZIP_MAGIC then Failed(MagicError(magic))
    else if h[2] != CM_DEFLATE then Failed(MethodError(h[2]))
    else if ReservedFlagsSet(h[3]) then Failed(FlagsError(h[3]))
    else Fields(h[3], 0)
  }

  /** Validation of the trailer against the member's plaintext: CRC32 first, then ISIZE. */
  function CheckTrailer(plain: seq<byte>, t: seq<byte>, crc32: seq<byte> -> uint32): (p: Phase)
    requires |t| == TRAILER_SIZE
    ensures p == Boundary([]) <==> LE32(t[..4]) == crc32(plain) && LE32(t[4..]) == |plain| % TWO_32
    ensures LE32(t[..4]) != crc32(plain) ==> p == Failed(CrcError(crc32(plain), LE32(t[..4])))
    ensures LE32(t[..4]) == crc32(plain) && LE32(t[4..]) != |plain| % TWO_32
            ==> p == Failed(SizeError(|plain| % TWO_32, LE32(t[4..])))
  {
    var expectedCrc := crc32(plain);
    var foundCrc := LE32(t[..4]);
    var expectedSize := |plain| % TWO_32;
    var foundSize := LE32(t[4..]);
    if foundCrc != expectedCrc then Failed(CrcError(expectedCrc, foundCrc))
    else if foundSize != expectedSize then Failed(SizeError(expectedSize, foundSize))
    else Boundary([])
  }

  /** Consumes one input byte. Plaintext already written is never taken
      back, and new plaintext appears only when the inflater finishes a
      member's body: all of that body's plaintext at once, with the trailer
      to follow. A failed decoder stays as it is. */
  function Step(d: Decoder, b: byte, prims: Primitives): (r: Decoder)
    ensures d.out <= r.out
    ensures r.out != d.out ==> d.phase.Body? && r.phase == Trailer(r.out[|d.out|..], [])
    ensures d.phase.Failed? ==> r == d
  {
    match d.phase
    case Failed(_) => d
    case Header(buf) =>
      var h := buf + [b];
      d.(phase := if |h| < HEADER_SIZE then Header(h) else CheckHeader(h))
    case ExtraLen(flags, buf) =>
      var x := buf + [b];
      if |x| < 2 then d.(phase := ExtraLen(flags, x))
      else
        var len := LE16(x[0], x[1]);
        d.(phase := if len == 0 then Fields(flags, 1) else ExtraData(flags, len))
    case ExtraData(flags, left) =>
      d.(phase := if left <= 1 then Fields(flags, 1) else ExtraData(flags, left - 1))
    case Name(flags) =>
      d.(phase := if b == 0 then Fields(flags, 2) else Name(flags))
    case Comment(flags) =>
      d.(phase := if b == 0 then Fields(flags, 3) else Comment(flags))
    case Hcrc(flags, left) =>
      d.(phase := if left <= 1 then Body([]) else Hcrc(flags, left - 1))
    case Body(compressed) =>
      var c := compressed + [b];
      (match prims.inflate(c)
       case NeedsInput => d.(phase := Body(c))
       case Finished(plain) => Decoder(Trailer(plain, []), d.out + plain)
       case Corrupt(message) => d.(phase := Failed(Error(ZipException, message))))
    case Trailer(plain, buf) =>
      var t := buf + [b];
      d.(phase := if |t| < TRAILER_SIZE then Trailer(plain, t) else CheckTrailer(plain, t[..TRAILER_SIZE], prims.crc32))
    case Boundary(buf) =>
      var t := buf + [b];
      d.(phase :=
        if |t| < 2 then Boundary(t)
        else if t[0] == ID1 && t[1] == ID2 then Header(t)
        else Failed(Error(IOException, PREMATURE)))
  }

  /** Consumes a run of input bytes. The sink only grows, and once the
      decoder has failed, further input changes nothing, so the first error
      is the one reported. */
  function Feed(d: Decoder, s: seq<byte>, prims: Primitives): (r: Decoder)
    ensures d.out <= r.out
    ensures d.phase.Failed? ==> r == d
    decreases |s|
  {
    if |s| == 0 then d else Feed(Step(d, s[0], prims), s[1..], prims)
  }

  /** The verdict when the source is final and fully consumed. */
  function Finish(d: Decoder): (r: Result<seq<byte>>)
    ensures r.Ok? <==> d.phase == Boundary([])
    ensures r.Ok? ==> r.value == d.out
    ensures d.phase.Failed? ==> r == Err(d.phase.error)
    ensures d.phase.Boundary? && d.phase.buf != [] ==> FailsWith(r, IOException, PREMATURE)
    ensures !d.phase.Boundary? && !d.phase.Failed? ==> FailsWith(r, EOFException, TRUNCATED)
  {
    match d.phase
    case Failed(e) => Err(e)
    case Boundary(buf) => if buf == [] then Ok(d.out) else Err(Error(IOException, PREMATURE))
    case _ => Err(Error(EOFException, TRUNCATED))
  }

  /** One decode call: all available bytes are consumed. */
  function Decode(d: Decoder, source: Source, prims: Primitives): (r: Result<Decoder>)
    ensures r.Ok? ==> !r.value.phase.Failed?
    ensures r.Ok? && source.finalSource ==> r.value.phase == Boundary([])
  {
    var d' := Feed(d, source.bytes, prims);
    if d'.phase.Failed? then Err(d'.phase.error)
    else if source.finalSource then
      var _ :- Finish(d');
      Ok(d')
    else Ok(d')
  }

  /** Decodes a whole stream delivered as `chunks`, followed by an empty
      final source. What was written before is kept at the front of the
      result, and a decoder that already failed reports its error whatever
      follows. */
  function DecodeStream(d: Decoder, chunks: seq<seq<byte>>, prims: Primitives): (r: Result<seq<byte>>)
    ensures r.Ok? ==> d.out <= r.value
    ensures d.phase.Failed? ==> r == Err(d.phase.error)
    decreases |chunks|
  {
    if |chunks| == 0 then
      var done :- Decode(d, Source([], true), prims);
      Ok(done.out)
    else
      var d' :- Decode(d, Source(chunks[0], false), prims);
      DecodeStream(d', chunks[1..], prims)
  }

  // ---------------------------------------------------------------------
  // Chunking independence
  // ---------------------------------------------------------------------

  lemma {:induction false} FeedAppend(d: Decoder, a: seq<byte>, b: seq<byte>, prims: Primitives)
    ensures Feed(d, a + b, prims) == Feed(Feed(d, a, prims), b, prims)
    decreases |a|
  {
    if |a| == 0 {
      assert a + b == b;
    } else {
      assert (a + b)[0] == a[0] && (a + b)[1..] == a[1..] + b;
      FeedAppend(Step(d, a[0], prims), a[1..], b, prims);
    }
  }

  lemma FeedCons(d: Decoder, s: seq<byte>, prims: Primitives)
    requires |s| > 0
    ensures Feed(d, s, prims) == Feed(Step(d, s[0], prims), s[1..], prims)
  {
  }

  /** Feeding `a` then `b` through known intermediate states. */
  lemma FeedChain(d0: Decoder, a: seq<byte>, b: seq<byte>, d1: Decoder, d2: Decoder, prims: Primitives)
    requires Feed(d0, a, prims) == d1 && Feed(d1, b, prims) == d2
    ensures Feed(d0, a + b, prims) == d2
  {
    FeedAppend(d0, a, b, prims);
  }

  lemma FeedTwo(d: Decoder, a: byte, b: byte, prims: Primitives)
    ensures Feed(d, [a, b], prims) == Step(Step(d, a, prims), b, prims)
  {
    assert [a, b][1..] == [b];
    assert Feed(d, [a, b], prims) == Feed(Step(d, a, prims), [b], prims);
    assert [b][1..] == [];
    assert Feed(Step(d, a, prims), [b], prims) == Feed(Step(Step(d, a, prims), b, prims), [], prims);
  }

  /** Two consecutive non-final calls do what one call over the joined bytes does. */
  lemma DecodeAppend(d: Decoder, a: seq<byte>, b: seq<byte>, prims: Primitives)
    ensures Decode(d, Source(a + b, false), prims)
            == (var r := Decode(d, Source(a, false), prims);
                if r.Err? then r else Decode(r.value, Source(b, false), prims))
  {
    FeedAppend(d, a, b, prims);
    var d1 := Feed(d, a, prims);
    if d1.phase.Failed? {
      assert Feed(d1, b, prims) == d1;
    }
  }

  /** The result does not depend on how the input is split into chunks. */
  lemma {:induction false} ChunkingIndependent(d: Decoder, chunks: seq<seq<byte>>, prims: Primitives)
    ensures DecodeStream(d, chunks, prims) == DecodeStream(d, [Flatten(chunks)], prims)
    decreases |chunks|
  {
    if |chunks| == 0 {
      assert Decode(d, Source([], false), prims).Ok? ==> Decode(d, Source([], false), prims).value == d;
    } else {
      DecodeAppend(d, chunks[0], Flatten(chunks[1..]), prims);
      var r := Decode(d, Source(chunks[0], false), prims);
      if r.Ok? {
        ChunkingIndependent(r.value, chunks[1..], prims);
      }
    }
  }

  /** Marking the last chunk final is the same as a non-final call followed
      by an empty final call. */
  lemma FinalFlagPlacement(d: Decoder, a: seq<byte>, prims: Primitives)
    ensures Decode(d, Source(a, true), prims)
            == (var r := Decode(d, Source(a, false), prims);
                if r.Err? then r else Decode(r.value, Source([], true), prims))
  {
  }

  /** The whole-stream result is the verdict on the state reached after all input. */
  lemma DecodeStreamIsFinish(chunks: seq<seq<byte>>, prims: Primitives)
    ensures DecodeStream(Init, chunks, prims) == Finish(Feed(Init, Flatten(chunks), prims))
  {
    ChunkingIndependent(Init, chunks, prims);
    var d := Feed(Init, Flatten(chunks), prims);
    assert Feed(d, [], prims) == d;
  }
}
