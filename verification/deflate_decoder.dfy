/** `DeflateDecoder`: the decoder for the `deflate` content coding. Each
    decode call feeds the available input to the inflater and then checks how
    the inflater ended up against what is left of the input and whether more
    input can come. */
module DeflateDecoder {
  import opened Bytes
  import opened Wrappers
  import opened Inflate
  import opened Streams

  const PREMATURE: string := "deflate stream finished prematurely"
  const TRUNCATED: string := "unexpected end of deflate stream"

  /** The inflater's state across calls: the compressed bytes it has consumed. */
  datatype Decoder = Decoder(consumed: seq<byte>)

  const Init: Decoder := Decoder([])

  function Status(d: Decoder, inflate: Inflater): Inflated {
    if |d.consumed| == 0 then NeedsInput else inflate(d.consumed)
  }

  /** Invariant of a live decoder: the inflater never settled before its last byte. */
  predicate Valid(d: Decoder, inflate: Inflater) {
    forall k :: 0 < k < |d.consumed| ==> inflate(d.consumed[..k]).NeedsInput?
  }

  /** A valid decoder that still needs input has been pending throughout, and
      stays valid when fed one more byte. */
  lemma ValidGrow(d: Decoder, b: byte, inflate: Inflater)
    requires Valid(d, inflate) && Status(d, inflate).NeedsInput?
    ensures Pending(inflate, d.consumed)
    ensures Valid(Decoder(d.consumed + [b]), inflate)
  {
    assert d.consumed[..|d.consumed|] == d.consumed;
    var c := d.consumed + [b];
    forall k | 0 < k < |c|
      ensures inflate(c[..k]).NeedsInput?
    {
      assert c[..k] == d.consumed[..k];
    }
  }

  /** On a valid decoder, the inflater settles at the last consumed byte
      exactly when its status is not `NeedsInput`. */
  lemma ValidSettles(d: Decoder, inflate: Inflater)
    requires Valid(d, inflate) && |d.consumed| > 0
    ensures SettlesAt(inflate, d.consumed, |d.consumed|) <==> !inflate(d.consumed).NeedsInput?
    ensures inflate(d.consumed).NeedsInput? ==> Pending(inflate, d.consumed)
  {
    var c := d.consumed;
    assert c[..|c|] == c;
    var p := c[..|c| - 1];
    forall k | 0 < k <= |p|
      ensures inflate(p[..k]).NeedsInput?
    {
      assert p[..k] == c[..k];
    }
  }

  /** The plaintext the decoder has delivered to its sink. */
  function Output(d: Decoder, inflate: Inflater): seq<byte> {
    if Status(d, inflate).Finished? then Status(d, inflate).plain else []
  }

  /** Feeds `chunk` to the inflater byte by byte while it asks for input.
      Returns the new state and how many bytes of `chunk` were consumed. */
  function InflateSource(d: Decoder, chunk: seq<byte>, inflate: Inflater): (r: (Decoder, nat))
    requires Valid(d, inflate)
    ensures r.1 <= |chunk|
    ensures r.0.consumed == d.consumed + chunk[..r.1]
    ensures Valid(r.0, inflate)
    ensures !Status(d, inflate).NeedsInput? ==> r.1 == 0
    // bytes are left over only when the inflater stopped asking for input
    ensures Status(r.0, inflate).NeedsInput? ==> r.1 == |chunk|
    decreases |chunk|
  {
    if |chunk| == 0 || !Status(d, inflate).NeedsInput? then (d, 0)
    else
      ValidGrow(d, chunk[0], inflate);
      var r := InflateSource(Decoder(d.consumed + [chunk[0]]), chunk[1..], inflate);
      assert chunk[..r.1 + 1] == [chunk[0]] + chunk[1..][..r.1];
      (r.0, r.1 + 1)
  }

  /** The decision taken after the inflater has been fed. */
  function Decide(finished: bool, hasRemaining: bool, finalSource: bool): (r: Result<()>)
    ensures FailsWith(r, IOException, PREMATURE) <==> finished && hasRemaining
    ensures FailsWith(r, EOFException, TRUNCATED) <==> !finished && finalSource
    ensures r.Ok? <==> (finished && !hasRemaining) || (!finished && !finalSource)
  {
    if finished then
      if hasRemaining then Err(Error(IOException, PREMATURE)) else Ok(())
    else if finalSource then Err(Error(EOFException, TRUNCATED))
    else Ok(())
  }

  /** One decode call. Corrupt data surfaces as the inflater's `ZipException`. */
  function Decode(d: Decoder, source: Source, inflate: Inflater): (r: Result<Decoder>)
    requires Valid(d, inflate)
    ensures r.Ok? ==> Valid(r.value, inflate)
    ensures r.Ok? ==> exists n :: 0 <= n <= |source.bytes| && r.value.consumed == d.consumed + source.bytes[..n]
    // a call that returns normally on a final source leaves a finished inflater
    ensures r.Ok? && source.finalSource ==> Status(r.value, inflate).Finished?
  {
    var (d', n) := InflateSource(d, source.bytes, inflate);
    match Status(d', inflate)
    case Corrupt(message) => Err(Error(ZipException, message))
    case _ =>
      var verdict := Decide(Status(d', inflate).Finished?, n < |source.bytes|, source.finalSource);
      if verdict.Err? then Err(verdict.error) else Ok(d')
  }

  /** Decodes a whole body delivered as `chunks`, followed by an empty final
      source; the result is the plaintext or the first exception. An inflater
      that already reported corruption fails with its message; one that
      already finished accepts no further byte. */
  function DecodeStream(d: Decoder, chunks: seq<seq<byte>>, inflate: Inflater): (r: Result<seq<byte>>)
    requires Valid(d, inflate)
    ensures Status(d, inflate).Corrupt? ==> r == Err(Error(ZipException, Status(d, inflate).message))
    ensures Status(d, inflate).Finished? ==>
              r == if |Flatten(chunks)| == 0 then Ok(Status(d, inflate).plain) else Err(Error(IOException, PREMATURE))
    decreases |chunks|
  {
    if |chunks| == 0 then
      var done :- Decode(d, Source([], true), inflate);
      Ok(Output(done, inflate))
    else
      var d' :- Decode(d, Source(chunks[0], false), inflate);
      DecodeStream(d', chunks[1..], inflate)
  }

  // ---------------------------------------------------------------------
  // Properties
  // ---------------------------------------------------------------------

  /** `InflateSource` over `a + b` is `InflateSource` over `a` and then, only
      if all of `a` was consumed, over `b`. */
  lemma {:induction false} InflateSourceAppend(d: Decoder, a: seq<byte>, b: seq<byte>, inflate: Inflater)
    requires Valid(d, inflate)
    ensures var r1 := InflateSource(d, a, inflate);
            InflateSource(d, a + b, inflate)
            == if r1.1 < |a| then r1 else (var r2 := InflateSource(r1.0, b, inflate); (r2.0, r1.1 + r2.1))
    decreases |a|
  {
    if |a| > 0 && Status(d, inflate).NeedsInput? {
      ValidGrow(d, a[0], inflate);
      var next := Decoder(d.consumed + [a[0]]);
      assert (a + b)[0] == a[0] && (a + b)[1..] == a[1..] + b;
      var r := InflateSource(next, a[1..], inflate);
      var rab := InflateSource(next, a[1..] + b, inflate);
      assert InflateSource(d, a, inflate) == (r.0, r.1 + 1);
      assert InflateSource(d, a + b, inflate) == (rab.0, rab.1 + 1);
      InflateSourceAppend(next, a[1..], b, inflate);
    } else if |a| == 0 {
      assert a + b == b;
    }
  }

  /** Two consecutive non-final calls do what one call over the joined bytes does. */
  lemma DecodeAppend(d: Decoder, a: seq<byte>, b: seq<byte>, inflate: Inflater)
    requires Valid(d, inflate)
    ensures Decode(d, Source(a + b, false), inflate)
            == (var r := Decode(d, Source(a, false), inflate);
                if r.Err? then r else Decode(r.value, Source(b, false), inflate))
  {
    InflateSourceAppend(d, a, b, inflate);
  }

  /** Marking the last chunk final is the same as a non-final call followed
      by an empty final call. */
  lemma FinalFlagPlacement(d: Decoder, a: seq<byte>, inflate: Inflater)
    requires Valid(d, inflate)
    ensures Decode(d, Source(a, true), inflate)
            == (var r := Decode(d, Source(a, false), inflate);
                if r.Err? then r else Decode(r.value, Source([], true), inflate))
  {
  }

  /** How the body is split into chunks does not change the result. */
  lemma {:induction false} ChunkingIndependent(d: Decoder, chunks: seq<seq<byte>>, inflate: Inflater)
    requires Valid(d, inflate)
    ensures DecodeStream(d, chunks, inflate) == DecodeStream(d, [Flatten(chunks)], inflate)
    decreases |chunks|
  {
    if |chunks| == 0 {
      assert Decode(d, Source([], false), inflate).Ok? ==> Decode(d, Source([], false), inflate).value == d;
    } else {
      var r := Decode(d, Source(chunks[0], false), inflate);
      DecodeAppend(d, chunks[0], Flatten(chunks[1..]), inflate);
      if r.Ok? {
        ChunkingIndependent(r.value, chunks[1..], inflate);
      }
    }
  }

  /** Decoding a whole body in one final call, characterised by where the
      inflater settles on it. */
  lemma DecodeWhole(input: seq<byte>, inflate: Inflater)
    ensures var r := Decode(Init, Source(input, true), inflate);
            && (r.Ok? <==> IsStream(inflate, input))
            && (r.Ok? ==> Output(r.value, inflate) == inflate(input).plain)
            && (FailsWith(r, IOException, PREMATURE) <==> exists j :: 0 < j < |input| && IsStream(inflate, input[..j]))
            && (FailsWith(r, EOFException, TRUNCATED) <==> Pending(inflate, input))
            && (forall m :: FailsWith(r, ZipException, m) <==> exists j :: 0 < j <= |input| && CorruptAt(inflate, input[..j], m))
  {
    var (d', n) := InflateSource(Init, input, inflate);
    assert d'.consumed == input[..n];
    if n == 0 {
      assert |input| == 0 && Pending(inflate, input);
    } else {
      ValidSettles(d', inflate);
      if !inflate(input[..n]).NeedsInput? {
        SettlesAtPrefix(inflate, input, n, n);
        forall j | 0 < j <= |input| && SettlesAt(inflate, input[..j], j)
          ensures j == n
        {
          SettlesAtPrefix(inflate, input, j, j);
          SettlesAtUnique(inflate, input, n, j);
        }
        SettlesAtUnique(inflate, input, n, n);
        assert input[..|input|] == input;
      } else {
        assert n == |input| && input[..n] == input;
        forall j | 0 < j <= |input|
          ensures !SettlesAt(inflate, input[..j], j)
        {
          assert input[..j][..j] == input[..j];
        }
      }
    }
  }

  /** The whole-stream result, for every chunking, agrees with the
      characterisation of `DecodeWhole`: a body decodes exactly when it is one
      complete deflate stream; bytes after the end are "finished prematurely";
      a body the inflater still waits on is "unexpected end". */
  lemma DecodeStreamSpec(chunks: seq<seq<byte>>, inflate: Inflater)
    ensures var input := Flatten(chunks);
            var r := DecodeStream(Init, chunks, inflate);
            && (r.Ok? <==> IsStream(inflate, input))
            && (r.Ok? ==> r.value == inflate(input).plain)
            && (FailsWith(r, IOException, PREMATURE) <==> exists j :: 0 < j < |input| && IsStream(inflate, input[..j]))
            && (FailsWith(r, EOFException, TRUNCATED) <==> Pending(inflate, input))
  {
    var input := Flatten(chunks);
    ChunkingIndependent(Init, chunks, inflate);
    FinalFlagPlacement(Init, input, inflate);
    DecodeWhole(input, inflate);
  }
}
