/** Gzip members as written by an encoder following section 2.3 of RFC 1952,
    and what the decoder does with them: a member decodes to its plaintext
    whatever optional header fields it carries, concatenated members decode to
    the concatenation of their plaintexts, and corrupt trailers and trailing
    garbage fail with the decoder's messages. Every result holds for every
    chunking of the input (`GzipDecoder.DecodeStreamIsFinish`). */
module GzipMember {
  import opened Bytes
  import opened Wrappers
  import opened Inflate
  import opened Streams
  import opened GzipDecoder

  /** One member: the FLG-controlled optional fields, MTIME/XFL/OS, and the
      compressed body. */
  datatype Member = Member(
    text: bool,                      // FTEXT
    extra: Option<seq<byte>>,        // FEXTRA field data
    name: Option<seq<byte>>,         // FNAME, without its terminating zero
    comment: Option<seq<byte>>,      // FCOMMENT, without its terminating zero
    hcrc: Option<uint16>,            // FHCRC value (skipped, never checked)
    mtime: uint32,
    xfl: byte,
    os: byte,
    body: seq<byte>)                 // the deflate stream

  function Bit(on: bool, bit: int): int {
    if on then bit else 0
  }

  function MemberFlags(m: Member): byte {
    Bit(m.text, FTEXT) + Bit(m.hcrc.Some?, FHCRC) + Bit(m.extra.Some?, FEXTRA)
      + Bit(m.name.Some?, FNAME) + Bit(m.comment.Some?, FCOMMENT)
  }

  /** The FLG byte of a member announces exactly the fields it carries. */
  lemma MemberFlagsBits(m: Member)
    ensures var f := MemberFlags(m);
            && (HasFlag(f, FEXTRA) <==> m.extra.Some?)
            && (HasFlag(f, FNAME) <==> m.name.Some?)
            && (HasFlag(f, FCOMMENT) <==> m.comment.Some?)
            && (HasFlag(f, FHCRC) <==> m.hcrc.Some?)
            && (HasFlag(f, FTEXT) <==> m.text)
            && !ReservedFlagsSet(f)
  {
    var f := MemberFlags(m);
    assert f < 32;
    ReservedFlagsIff(f);
  }

  /** A member an encoder can write: fields fit their framing and the body is
      one complete deflate stream. */
  predicate WellFormed(m: Member, inflate: Inflater) {
    && (m.extra.Some? ==> |m.extra.value| < 0x1_0000)
    && (m.name.Some? ==> 0 !in m.name.value)
    && (m.comment.Some? ==> 0 !in m.comment.value)
    && IsStream(inflate, m.body)
  }

  function Plain(m: Member, inflate: Inflater): seq<byte>
    requires IsStream(inflate, m.body)
  {
    inflate(m.body).plain
  }

  function HeaderBytes(m: Member): seq<byte> {
    [ID1, ID2, CM_DEFLATE, MemberFlags(m)] + EncodeLE32(m.mtime) + [m.xfl, m.os]
  }

  function ZeroTerminated(f: Option<seq<byte>>): seq<byte> {
    if f.Some? then f.value + [0] else []
  }

  /** The optional fields from `stage` on (0 extra, 1 name, 2 comment, 3 header CRC). */
  function FieldBytes(m: Member, stage: nat): seq<byte>
    requires m.extra.Some? ==> |m.extra.value| < 0x1_0000
    decreases 4 - stage
  {
    if stage == 0 then
      (if m.extra.Some? then EncodeLE16(|m.extra.value|) + m.extra.value else []) + FieldBytes(m, 1)
    else if stage == 1 then ZeroTerminated(m.name) + FieldBytes(m, 2)
    else if stage == 2 then ZeroTerminated(m.comment) + FieldBytes(m, 3)
    else if stage == 3 then (if m.hcrc.Some? then EncodeLE16(m.hcrc.value) else [])
    else []
  }

  /** A member with the given trailer fields. */
  function EncodeWith(m: Member, crc: uint32, size: uint32): seq<byte>
    requires m.extra.Some? ==> |m.extra.value| < 0x1_0000
  {
    HeaderBytes(m) + FieldBytes(m, 0) + m.body + EncodeLE32(crc) + EncodeLE32(size)
  }

  /** A member with its correct trailer. */
  function Encode(m: Member, prims: Primitives): seq<byte>
    requires WellFormed(m, prims.inflate)
  {
    var plain := Plain(m, prims.inflate);
    EncodeWith(m, prims.crc32(plain), |plain| % TWO_32)
  }

  predicate AllWellFormed(ms: seq<Member>, inflate: Inflater) {
    forall i :: 0 <= i < |ms| ==> WellFormed(ms[i], inflate)
  }

  function EncodeAll(ms: seq<Member>, prims: Primitives): seq<byte>
    requires AllWellFormed(ms, prims.inflate)
    decreases |ms|
  {
    if |ms| == 0 then [] else Encode(ms[0], prims) + EncodeAll(ms[1..], prims)
  }

  function PlainAll(ms: seq<Member>, inflate: Inflater): seq<byte>
    requires AllWellFormed(ms, inflate)
    decreases |ms|
  {
    if |ms| == 0 then [] else Plain(ms[0], inflate) + PlainAll(ms[1..], inflate)
  }

  // ---------------------------------------------------------------------
  // Phase by phase
  // ---------------------------------------------------------------------

  lemma {:induction false} HeaderFeed(buf: seq<byte>, rest: seq<byte>, out: seq<byte>, prims: Primitives)
    requires |buf| < HEADER_SIZE && |buf| + |rest| == HEADER_SIZE
    ensures Feed(Decoder(Header(buf), out), rest, prims) == Decoder(CheckHeader(buf + rest), out)
    decreases |rest|
  {
    var h := buf + [rest[0]];
    assert buf + rest == h + rest[1..];
    if |h| < HEADER_SIZE {
      HeaderFeed(h, rest[1..], out, prims);
    }
  }

  lemma {:induction false} ExtraDataFeed(flags: byte, x: seq<byte>, out: seq<byte>, prims: Primitives)
    requires |x| > 0
    ensures Feed(Decoder(ExtraData(flags, |x|), out), x, prims) == Decoder(Fields(flags, 1), out)
    decreases |x|
  {
    if |x| > 1 {
      ExtraDataFeed(flags, x[1..], out, prims);
    }
  }

  /** The two-byte XLEN field. */
  lemma ExtraLenFeed(flags: byte, n: uint16, out: seq<byte>, prims: Primitives)
    ensures Feed(Decoder(ExtraLen(flags, []), out), EncodeLE16(n), prims)
            == Decoder(if n == 0 then Fields(flags, 1) else ExtraData(flags, n), out)
  {
    var len := EncodeLE16(n);
    var start := Decoder(ExtraLen(flags, []), out);
    FeedTwo(start, len[0], len[1], prims);
    assert [len[0], len[1]] == len;
    var mid := Step(start, len[0], prims);
    assert mid == Decoder(ExtraLen(flags, [len[0]]), out);
    assert [len[0]] + [len[1]] == [len[0], len[1]];
  }

  lemma ExtraFeed(flags: byte, x: seq<byte>, out: seq<byte>, prims: Primitives)
    requires |x| < 0x1_0000
    ensures Feed(Decoder(ExtraLen(flags, []), out), EncodeLE16(|x|) + x, prims) == Decoder(Fields(flags, 1), out)
  {
    var len := EncodeLE16(|x|);
    var start := Decoder(ExtraLen(flags, []), out);
    ExtraLenFeed(flags, |x|, out, prims);
    if |x| > 0 {
      ExtraDataFeed(flags, x, out, prims);
      FeedChain(start, len, x, Decoder(ExtraData(flags, |x|), out), Decoder(Fields(flags, 1), out), prims);
    } else {
      FeedChain(start, len, x, Decoder(Fields(flags, 1), out), Decoder(Fields(flags, 1), out), prims);
    }
  }

  lemma {:induction false} NameFeed(flags: byte, s: seq<byte>, out: seq<byte>, prims: Primitives)
    requires 0 !in s
    ensures Feed(Decoder(Name(flags), out), s + [0], prims) == Decoder(Fields(flags, 2), out)
    decreases |s|
  {
    if |s| > 0 {
      assert (s + [0])[1..] == s[1..] + [0];
      NameFeed(flags, s[1..], out, prims);
    }
  }

  lemma {:induction false} CommentFeed(flags: byte, s: seq<byte>, out: seq<byte>, prims: Primitives)
    requires 0 !in s
    ensures Feed(Decoder(Comment(flags), out), s + [0], prims) == Decoder(Fields(flags, 3), out)
    decreases |s|
  {
    if |s| > 0 {
      assert (s + [0])[1..] == s[1..] + [0];
      CommentFeed(flags, s[1..], out, prims);
    }
  }

  /** The optional fields announced by the member's flags are skipped, in
      order, ending at the start of the body. */
  lemma {:induction false} FieldsFeed(m: Member, stage: nat, out: seq<byte>, prims: Primitives)
    requires stage <= 4
    requires m.extra.Some? ==> |m.extra.value| < 0x1_0000
    requires m.name.Some? ==> 0 !in m.name.value
    requires m.comment.Some? ==> 0 !in m.comment.value
    ensures Feed(Decoder(Fields(MemberFlags(m), stage), out), FieldBytes(m, stage), prims) == Decoder(Body([]), out)
    decreases 4 - stage
  {
    var f := MemberFlags(m);
    MemberFlagsBits(m);
    var start := Decoder(Fields(f, stage), out);
    if stage == 0 {
      FieldsFeed(m, 1, out, prims);
      if m.extra.Some? {
        FeedAppend(start, EncodeLE16(|m.extra.value|) + m.extra.value, FieldBytes(m, 1), prims);
        ExtraFeed(f, m.extra.value, out, prims);
      } else {
        assert Fields(f, 0) == Fields(f, 1);
        assert FieldBytes(m, 0) == FieldBytes(m, 1);
      }
    } else if stage == 1 {
      FieldsFeed(m, 2, out, prims);
      if m.name.Some? {
        FeedAppend(start, m.name.value + [0], FieldBytes(m, 2), prims);
        NameFeed(f, m.name.value, out, prims);
      } else {
        assert Fields(f, 1) == Fields(f, 2);
        assert FieldBytes(m, 1) == FieldBytes(m, 2);
      }
    } else if stage == 2 {
      FieldsFeed(m, 3, out, prims);
      if m.comment.Some? {
        FeedAppend(start, m.comment.value + [0], FieldBytes(m, 3), prims);
        CommentFeed(f, m.comment.value, out, prims);
      } else {
        assert Fields(f, 2) == Fields(f, 3);
        assert FieldBytes(m, 2) == FieldBytes(m, 3);
      }
    } else if stage == 3 {
      if m.hcrc.Some? {
        var v := EncodeLE16(m.hcrc.value);
        FeedTwo(start, v[0], v[1], prims);
        assert [v[0], v[1]] == v;
      } else {
        assert Fields(f, 3) == Body([]);
        assert FieldBytes(m, 3) == [];
      }
    }
  }

  /** The body is handed to the inflater byte by byte; its plaintext reaches
      the sink when the inflater finishes, exactly at the body's last byte. */
  lemma {:induction false} BodyFeed(body: seq<byte>, k: nat, out: seq<byte>, prims: Primitives)
    requires IsStream(prims.inflate, body) && k < |body|
    ensures Feed(Decoder(Body(body[..k]), out), body[k..], prims)
            == Decoder(Trailer(prims.inflate(body).plain, []), out + prims.inflate(body).plain)
    decreases |body| - k
  {
    assert body[..k] + [body[k]] == body[..k + 1];
    assert body[k..][1..] == body[k + 1..];
    if k + 1 < |body| {
      PendingPrefix(prims.inflate, body, |body| - 1, k + 1);
      BodyFeed(body, k + 1, out, prims);
    } else {
      assert body[..k + 1] == body;
    }
  }

  lemma {:induction false} TrailerFeed(plain: seq<byte>, buf: seq<byte>, rest: seq<byte>, out: seq<byte>, prims: Primitives)
    requires |buf| < TRAILER_SIZE && |buf| + |rest| == TRAILER_SIZE
    ensures Feed(Decoder(Trailer(plain, buf), out), rest, prims)
            == Decoder(CheckTrailer(plain, buf + rest, prims.crc32), out)
    decreases |rest|
  {
    var d := Decoder(Trailer(plain, buf), out);
    var t := buf + [rest[0]];
    assert buf + rest == t + rest[1..];
    FeedCons(d, rest, prims);
    if |t| < TRAILER_SIZE {
      assert Step(d, rest[0], prims) == Decoder(Trailer(plain, t), out);
      TrailerFeed(plain, t, rest[1..], out, prims);
    } else {
      assert t[..TRAILER_SIZE] == t;
      assert Step(d, rest[0], prims) == Decoder(CheckTrailer(plain, t, prims.crc32), out);
      assert rest[1..] == [] && buf + rest == t;
    }
  }

  /** The verdict on a trailer written with the given CRC32 and ISIZE fields. */
  function TrailerVerdict(plain: seq<byte>, crc: uint32, size: uint32, prims: Primitives): Phase {
    CheckTrailer(plain, EncodeLE32(crc) + EncodeLE32(size), prims.crc32)
  }

  /** The body and trailer of a member. */
  lemma BodyTrailerFeed(body: seq<byte>, crc: uint32, size: uint32, out: seq<byte>, prims: Primitives)
    requires IsStream(prims.inflate, body)
    ensures var plain := prims.inflate(body).plain;
            Feed(Decoder(Body([]), out), body + (EncodeLE32(crc) + EncodeLE32(size)), prims)
            == Decoder(TrailerVerdict(plain, crc, size, prims), out + plain)
  {
    var plain := prims.inflate(body).plain;
    var trailer := EncodeLE32(crc) + EncodeLE32(size);
    assert body[..0] == [] && body[0..] == body;
    BodyFeed(body, 0, out, prims);
    TrailerFeed(plain, [], trailer, out + plain, prims);
    assert [] + trailer == trailer;
    FeedChain(Decoder(Body([]), out), body, trailer, Decoder(Trailer(plain, []), out + plain),
              Decoder(TrailerVerdict(plain, crc, size, prims), out + plain), prims);
  }

  /** Everything of a member after its fixed header. */
  lemma AfterHeaderFeed(m: Member, crc: uint32, size: uint32, out: seq<byte>, prims: Primitives)
    requires WellFormed(m, prims.inflate)
    ensures var plain := Plain(m, prims.inflate);
            Feed(Decoder(Fields(MemberFlags(m), 0), out), FieldBytes(m, 0) + (m.body + (EncodeLE32(crc) + EncodeLE32(size))), prims)
            == Decoder(TrailerVerdict(plain, crc, size, prims), out + plain)
  {
    var plain := Plain(m, prims.inflate);
    FieldsFeed(m, 0, out, prims);
    BodyTrailerFeed(m.body, crc, size, out, prims);
    FeedChain(Decoder(Fields(MemberFlags(m), 0), out), FieldBytes(m, 0), m.body + (EncodeLE32(crc) + EncodeLE32(size)),
              Decoder(Body([]), out), Decoder(TrailerVerdict(plain, crc, size, prims), out + plain), prims);
  }

  /** The fixed header of a well-formed member passes the header checks. */
  lemma HeaderPasses(m: Member)
    ensures CheckHeader(HeaderBytes(m)) == Fields(MemberFlags(m), 0)
  {
    MemberFlagsBits(m);
  }

  /** An encoded member is its fixed header followed by everything after it. */
  lemma EncodeWithSplit(m: Member, crc: uint32, size: uint32, k: nat)
    requires m.extra.Some? ==> |m.extra.value| < 0x1_0000
    requires k < HEADER_SIZE
    ensures var e := EncodeWith(m, crc, size);
            var h := HeaderBytes(m);
            && |h| == HEADER_SIZE
            && e[..k] == h[..k]
            && e[k..] == h[k..] + (FieldBytes(m, 0) + (m.body + (EncodeLE32(crc) + EncodeLE32(size))))
  {
    var h := HeaderBytes(m);
    var rest := FieldBytes(m, 0) + (m.body + (EncodeLE32(crc) + EncodeLE32(size)));
    assert EncodeWith(m, crc, size) == h + rest;
    SplitWithin(h, rest, k);
  }

  lemma SplitWithin(h: seq<byte>, rest: seq<byte>, k: nat)
    requires k <= |h|
    ensures (h + rest)[..k] == h[..k] && (h + rest)[k..] == h[k..] + rest
  {
  }

  /** The rest of the fixed header, after `k` of its bytes. */
  lemma HeaderRestFeed(m: Member, k: nat, out: seq<byte>, prims: Primitives)
    requires k < HEADER_SIZE
    ensures var h := HeaderBytes(m);
            Feed(Decoder(Header(h[..k]), out), h[k..], prims) == Decoder(Fields(MemberFlags(m), 0), out)
  {
    var h := HeaderBytes(m);
    HeaderFeed(h[..k], h[k..], out, prims);
    assert h[..k] + h[k..] == h;
    HeaderPasses(m);
  }

  /** A whole member, from a header phase that has already read `k` of its
      bytes (0 at the start of the stream, 2 after a member boundary). */
  lemma MemberFeed(m: Member, crc: uint32, size: uint32, k: nat, out: seq<byte>, prims: Primitives)
    requires WellFormed(m, prims.inflate) && k < HEADER_SIZE
    ensures var e := EncodeWith(m, crc, size);
            Feed(Decoder(Header(e[..k]), out), e[k..], prims)
            == Decoder(TrailerVerdict(Plain(m, prims.inflate), crc, size, prims), out + Plain(m, prims.inflate))
  {
    var h := HeaderBytes(m);
    var rest := FieldBytes(m, 0) + (m.body + (EncodeLE32(crc) + EncodeLE32(size)));
    var plain := Plain(m, prims.inflate);
    EncodeWithSplit(m, crc, size, k);
    HeaderRestFeed(m, k, out, prims);
    AfterHeaderFeed(m, crc, size, out, prims);
    FeedChain(Decoder(Header(h[..k]), out), h[k..], rest, Decoder(Fields(MemberFlags(m), 0), out),
              Decoder(TrailerVerdict(plain, crc, size, prims), out + plain), prims);
  }

  /** A member with its correct trailer reaches a clean member boundary. */
  lemma CorrectTrailer(plain: seq<byte>, prims: Primitives)
    ensures TrailerVerdict(plain, prims.crc32(plain), |plain| % TWO_32, prims) == Boundary([])
  {
    var t := EncodeLE32(prims.crc32(plain)) + EncodeLE32(|plain| % TWO_32);
    assert t[..4] == EncodeLE32(prims.crc32(plain)) && t[4..] == EncodeLE32(|plain| % TWO_32);
  }

  lemma AllWellFormedTail(ms: seq<Member>, inflate: Inflater)
    requires |ms| > 0 && AllWellFormed(ms, inflate)
    ensures WellFormed(ms[0], inflate) && AllWellFormed(ms[1..], inflate)
  {
    forall i | 0 <= i < |ms[1..]| ensures WellFormed(ms[1..][i], inflate) {
      assert ms[1..][i] == ms[i + 1];
    }
  }

  /** An encoded member starts with its fixed header, hence with the magic. */
  lemma EncodeWithStart(m: Member, crc: uint32, size: uint32)
    requires m.extra.Some? ==> |m.extra.value| < 0x1_0000
    ensures var e := EncodeWith(m, crc, size);
            |e| >= HEADER_SIZE && e[..HEADER_SIZE] == HeaderBytes(m) && e[0] == ID1 && e[1] == ID2
  {
  }

  /** A member with its correct trailer, from the start of the stream. */
  lemma FirstMemberFeed(m: Member, out: seq<byte>, prims: Primitives)
    requires WellFormed(m, prims.inflate)
    ensures Feed(Decoder(Header([]), out), Encode(m, prims), prims)
            == Decoder(Boundary([]), out + Plain(m, prims.inflate))
  {
    var plain := Plain(m, prims.inflate);
    var e := Encode(m, prims);
    assert e[..0] == [] && e[0..] == e;
    MemberFeed(m, prims.crc32(plain), |plain| % TWO_32, 0, out, prims);
    CorrectTrailer(plain, prims);
  }

  /** A member with its correct trailer, after a member boundary: the
      boundary reads the two magic bytes and hands them to a new header. */
  lemma NextMemberFeed(m: Member, out: seq<byte>, prims: Primitives)
    requires WellFormed(m, prims.inflate)
    ensures Feed(Decoder(Boundary([]), out), Encode(m, prims), prims)
            == Decoder(Boundary([]), out + Plain(m, prims.inflate))
  {
    var plain := Plain(m, prims.inflate);
    var e := Encode(m, prims);
    var start := Decoder(Boundary([]), out);
    EncodeWithStart(m, prims.crc32(plain), |plain| % TWO_32);
    assert e[..2] == [ID1, ID2];
    FeedTwo(start, ID1, ID2, prims);
    MemberFeed(m, prims.crc32(plain), |plain| % TWO_32, 2, out, prims);
    CorrectTrailer(plain, prims);
    assert e[..2] + e[2..] == e;
    FeedChain(start, e[..2], e[2..], Decoder(Header(e[..2]), out), Decoder(Boundary([]), out + plain), prims);
  }

  /** From a member boundary, more members decode to their plaintexts. */
  lemma {:induction false} MembersFeed(ms: seq<Member>, out: seq<byte>, prims: Primitives)
    requires AllWellFormed(ms, prims.inflate)
    ensures Feed(Decoder(Boundary([]), out), EncodeAll(ms, prims), prims)
            == Decoder(Boundary([]), out + PlainAll(ms, prims.inflate))
    decreases |ms|
  {
    if |ms| > 0 {
      AllWellFormedTail(ms, prims.inflate);
      var plain := Plain(ms[0], prims.inflate);
      var restPlain := PlainAll(ms[1..], prims.inflate);
      NextMemberFeed(ms[0], out, prims);
      MembersFeed(ms[1..], out + plain, prims);
      ConcatAssoc(out, plain, restPlain);
      FeedChain(Decoder(Boundary([]), out), Encode(ms[0], prims), EncodeAll(ms[1..], prims),
                Decoder(Boundary([]), out + plain), Decoder(Boundary([]), out + PlainAll(ms, prims.inflate)), prims);
    }
  }

  lemma ConcatAssoc(a: seq<byte>, b: seq<byte>, c: seq<byte>)
    ensures a + b + c == a + (b + c)
  {
  }

  /** A nonempty run of members, from the start of the stream. */
  lemma AllMembersFeed(ms: seq<Member>, prims: Primitives)
    requires |ms| > 0 && AllWellFormed(ms, prims.inflate)
    ensures Feed(Init, EncodeAll(ms, prims), prims) == Decoder(Boundary([]), PlainAll(ms, prims.inflate))
  {
    AllWellFormedTail(ms, prims.inflate);
    var plain := Plain(ms[0], prims.inflate);
    FirstMemberFeed(ms[0], [], prims);
    MembersFeed(ms[1..], plain, prims);
    assert [] + plain == plain;
    FeedChain(Init, Encode(ms[0], prims), EncodeAll(ms[1..], prims),
              Decoder(Boundary([]), plain), Decoder(Boundary([]), plain + PlainAll(ms[1..], prims.inflate)), prims);
  }

  // ---------------------------------------------------------------------
  // What a decoded stream yields
  // ---------------------------------------------------------------------

  /** Concatenated members decode to the concatenation of their plaintexts,
      under every chunking of the input. */
  lemma RoundTrip(ms: seq<Member>, chunks: seq<seq<byte>>, prims: Primitives)
    requires |ms| > 0 && AllWellFormed(ms, prims.inflate)
    requires Flatten(chunks) == EncodeAll(ms, prims)
    ensures DecodeStream(Init, chunks, prims) == Ok(PlainAll(ms, prims.inflate))
  {
    DecodeStreamIsFinish(chunks, prims);
    AllMembersFeed(ms, prims);
  }

  /** A single member decodes to its plaintext whatever optional fields it
      carries: the same member stripped of every optional field decodes alike. */
  lemma OptionalFieldsIgnored(m: Member, chunks: seq<seq<byte>>, bare: seq<seq<byte>>, prims: Primitives)
    requires WellFormed(m, prims.inflate)
    requires Flatten(chunks) == Encode(m, prims)
    requires var s := m.(text := false, extra := None, name := None, comment := None, hcrc := None);
             Flatten(bare) == Encode(s, prims)
    ensures DecodeStream(Init, chunks, prims) == DecodeStream(Init, bare, prims) == Ok(Plain(m, prims.inflate))
  {
    var s := m.(text := false, extra := None, name := None, comment := None, hcrc := None);
    assert WellFormed(s, prims.inflate);
    assert AllWellFormed([m], prims.inflate) && AllWellFormed([s], prims.inflate);
    assert EncodeAll([m], prims) == Encode(m, prims) + EncodeAll([], prims);
    assert EncodeAll([s], prims) == Encode(s, prims) + EncodeAll([], prims);
    RoundTrip([m], chunks, prims);
    RoundTrip([s], bare, prims);
    assert PlainAll([m], prims.inflate) == Plain(m, prims.inflate) + PlainAll([], prims.inflate);
    assert PlainAll([s], prims.inflate) == Plain(s, prims.inflate) + PlainAll([], prims.inflate);
    assert Plain(m, prims.inflate) + [] == Plain(m, prims.inflate);
    assert Plain(s, prims.inflate) == Plain(m, prims.inflate);
  }

  /** A member whose trailer disagrees with its plaintext fails: a CRC32
      mismatch is reported first, then an ISIZE mismatch, each with the
      computed value as "expected" and the trailer's as "found". */
  lemma CorruptTrailer(m: Member, crc: uint32, size: uint32, chunks: seq<seq<byte>>, prims: Primitives)
    requires WellFormed(m, prims.inflate)
    requires Flatten(chunks) == EncodeWith(m, crc, size)
    ensures var plain := Plain(m, prims.inflate);
            var r := DecodeStream(Init, chunks, prims);
            && (crc != prims.crc32(plain) ==> r == Err(CrcError(prims.crc32(plain), crc)))
            && (crc == prims.crc32(plain) && size != |plain| % TWO_32 ==> r == Err(SizeError(|plain| % TWO_32, size)))
            && (crc == prims.crc32(plain) && size == |plain| % TWO_32 ==> r == Ok(plain))
  {
    DecodeStreamIsFinish(chunks, prims);
    var e := EncodeWith(m, crc, size);
    assert e[..0] == [] && e[0..] == e;
    MemberFeed(m, crc, size, 0, [], prims);
    var t := EncodeLE32(crc) + EncodeLE32(size);
    assert t[..4] == EncodeLE32(crc) && t[4..] == EncodeLE32(size);
    assert [] + Plain(m, prims.inflate) == Plain(m, prims.inflate);
  }

  /** Bytes after the last member that do not start another member fail the
      stream with "gzip stream finished prematurely", under every chunking. */
  lemma TrailingGarbage(ms: seq<Member>, garbage: seq<byte>, chunks: seq<seq<byte>>, prims: Primitives)
    requires |ms| > 0 && AllWellFormed(ms, prims.inflate)
    requires |garbage| > 0
    requires |garbage| == 1 || garbage[0] != ID1 || garbage[1] != ID2
    requires Flatten(chunks) == EncodeAll(ms, prims) + garbage
    ensures FailsWith(DecodeStream(Init, chunks, prims), IOException, PREMATURE)
  {
    DecodeStreamIsFinish(chunks, prims);
    var whole := EncodeAll(ms, prims);
    AllMembersFeed(ms, prims);
    var d := Decoder(Boundary([]), PlainAll(ms, prims.inflate));
    FeedAppend(Init, whole, garbage, prims);
    if |garbage| > 1 {
      FeedTwo(d, garbage[0], garbage[1], prims);
      assert garbage[..2] == [garbage[0], garbage[1]];
      var d2 := Decoder(Failed(Error(IOException, PREMATURE)), PlainAll(ms, prims.inflate));
      assert Feed(d2, garbage[2..], prims) == d2;
      assert garbage[..2] + garbage[2..] == garbage;
      FeedChain(d, garbage[..2], garbage[2..], d2, d2, prims);
    } else {
      assert Feed(d, garbage, prims) == Feed(Step(d, garbage[0], prims), [], prims);
    }
  }

  /** The stream fails with the header's own error when its first ten bytes
      do not pass the header checks. */
  lemma BadHeader(chunks: seq<seq<byte>>, prims: Primitives)
    requires |Flatten(chunks)| >= HEADER_SIZE
    requires CheckHeader(Flatten(chunks)[..HEADER_SIZE]).Failed?
    ensures DecodeStream(Init, chunks, prims) == Err(CheckHeader(Flatten(chunks)[..HEADER_SIZE]).error)
  {
    var input := Flatten(chunks);
    DecodeStreamIsFinish(chunks, prims);
    FeedAppend(Init, input[..HEADER_SIZE], input[HEADER_SIZE..], prims);
    assert input[..HEADER_SIZE] + input[HEADER_SIZE..] == input;
    HeaderFeed([], input[..HEADER_SIZE], [], prims);
    assert [] + input[..HEADER_SIZE] == input[..HEADER_SIZE];
    assert Feed(Decoder(CheckHeader(input[..HEADER_SIZE]), []), input[HEADER_SIZE..], prims) == Decoder(CheckHeader(input[..HEADER_SIZE]), []);
  }
}
