/** The incremental decoder contract shared by the container decoders: each
    decode call sees the bytes currently available and whether the stream
    ends with them. */
module Streams {
  import opened Bytes

  /** The bytes available to one decode call, and whether no more will follow. */
  datatype Source = Source(bytes: seq<byte>, finalSource: bool)

  /** The bytes of a stream delivered as consecutive chunks. */
  function Flatten(chunks: seq<seq<byte>>): (r: seq<byte>)
    ensures |chunks| == 1 ==> r == chunks[0]
    decreases |chunks|
  {
    if |chunks| == 0 then [] else chunks[0] + Flatten(chunks[1..])
  }

  /** Appending a chunk appends its bytes. */
  lemma {:induction false} FlattenSnoc(chunks: seq<seq<byte>>, c: seq<byte>)
    ensures Flatten(chunks + [c]) == Flatten(chunks) + c
    decreases |chunks|
  {
    if |chunks| == 0 {
      assert chunks + [c] == [c];
    } else {
      assert (chunks + [c])[1..] == chunks[1..] + [c];
      FlattenSnoc(chunks[1..], c);
    }
  }

  /** The bytes of the first chunks are a prefix of all the bytes. */
  lemma {:induction false} FlattenPrefix(chunks: seq<seq<byte>>, i: nat)
    requires i <= |chunks|
    ensures |Flatten(chunks[..i])| <= |Flatten(chunks)|
    ensures Flatten(chunks[..i]) == Flatten(chunks)[..|Flatten(chunks[..i])|]
    decreases |chunks| - i
  {
    if i == |chunks| {
      assert chunks[..i] == chunks;
    } else {
      FlattenPrefix(chunks, i + 1);
      assert chunks[..i + 1] == chunks[..i] + [chunks[i]];
      FlattenSnoc(chunks[..i], chunks[i]);
    }
  }
}
