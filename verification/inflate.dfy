/** The inflater both decoders wrap: for `deflate` it reads zlib-wrapped
    data (RFC 1950), for gzip the raw deflate body (RFC 1951). Its decoding is
    not modelled: an `Inflater` is any function telling what the inflater
    reports after it has been fed a given compressed prefix. The predicates
    below say where, along an input, the inflater settles. */
module Inflate {
  import opened Bytes

  /** What the inflater reports after consuming a compressed prefix. */
  datatype Inflated =
    | NeedsInput                   // no end of stream seen yet
    | Finished(plain: seq<byte>)   // the final block ended at the last byte fed
    | Corrupt(message: string)     // the data is not a deflate stream

  type Inflater = seq<byte> -> Inflated

  /** The inflater asks for more input after every nonempty prefix of `s`. */
  predicate Pending(inflate: Inflater, s: seq<byte>) {
    forall k :: 0 < k <= |s| ==> inflate(s[..k]).NeedsInput?
  }

  /** The inflater first stops asking for input after exactly `j` bytes of `s`. */
  predicate SettlesAt(inflate: Inflater, s: seq<byte>, j: int) {
    0 < j <= |s| && Pending(inflate, s[..j - 1]) && !inflate(s[..j]).NeedsInput?
  }

  /** `body` is exactly one complete deflate stream. */
  predicate IsStream(inflate: Inflater, body: seq<byte>) {
    SettlesAt(inflate, body, |body|) && inflate(body).Finished?
  }

  /** The first `|body|` bytes are where the inflater detects corrupt data. */
  predicate CorruptAt(inflate: Inflater, body: seq<byte>, message: string) {
    SettlesAt(inflate, body, |body|) && inflate(body) == Corrupt(message)
  }

  /** The point where the inflater settles is unique, and an input on which
      it is still pending has no such point. */
  lemma SettlesAtUnique(inflate: Inflater, s: seq<byte>, i: int, j: int)
    requires SettlesAt(inflate, s, i)
    ensures SettlesAt(inflate, s, j) ==> i == j
    ensures !Pending(inflate, s)
  {
    if SettlesAt(inflate, s, j) {
      if i < j {
        PendingPrefix(inflate, s, j - 1, i);
      } else if j < i {
        PendingPrefix(inflate, s, i - 1, j);
      }
    }
    if Pending(inflate, s) {
      PendingPrefix(inflate, s, |s|, i);
    }
  }

  /** A pending input is pending on each of its prefixes. */
  lemma PendingPrefix(inflate: Inflater, s: seq<byte>, n: int, k: int)
    requires 0 < k <= n <= |s|
    requires Pending(inflate, s[..n])
    ensures inflate(s[..k]).NeedsInput?
  {
    assert s[..n][..k] == s[..k];
  }

  /** Settling within a prefix is settling within the whole input. */
  lemma SettlesAtPrefix(inflate: Inflater, s: seq<byte>, j: int, n: int)
    requires 0 < j <= n <= |s|
    ensures SettlesAt(inflate, s[..n], j) <==> SettlesAt(inflate, s, j)
  {
    assert s[..n][..j] == s[..j];
    assert s[..n][..j - 1] == s[..j - 1];
  }
}
