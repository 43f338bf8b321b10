/** `MoreBodyHandlers.decoding`: a body handler that looks at the response's
    `Content-Encoding`, picks the decoder factory registered for it, and
    hands the downstream handler a copy of the response info without the
    headers that describe the encoded body. */
module MoreBodyHandlers {
  import opened Wrappers
  import opened Text

  const CONTENT_ENCODING: string := "Content-Encoding"
  const CONTENT_LENGTH: string := "Content-Length"

  /** One header line group: a name and its values, in order. */
  datatype Header = Header(name: string, values: seq<string>)

  type Headers = seq<Header>

  datatype Version = HTTP_1_1 | HTTP_2

  /** The parts of a response the handler sees. */
  datatype ResponseInfo = ResponseInfo(statusCode: int, headers: Headers, version: Version)

  /** `HttpHeaders.allValues`: the values of every header whose name matches
      `name` ignoring case, in order. */
  function AllValues(h: Headers, name: string): seq<string>
    decreases |h|
  {
    if |h| == 0 then []
    else (if EqualsIgnoreCase(h[0].name, name) then h[0].values else []) + AllValues(h[1..], name)
  }

  /** `HttpHeaders.firstValue`. */
  function FirstValue(h: Headers, name: string): Option<string> {
    var all := AllValues(h, name);
    if |all| == 0 then None else Some(all[0])
  }

  /** The header names the copy handed downstream leaves out. */
  predicate Stripped(name: string) {
    EqualsIgnoreCase(CONTENT_ENCODING, name) || EqualsIgnoreCase(CONTENT_LENGTH, name)
  }

  /** The header copy made with the filter of `decodingInternal`. */
  function StripEncodingHeaders(h: Headers): (r: Headers)
    ensures |r| <= |h|
    ensures forall i :: 0 <= i < |r| ==> !Stripped(r[i].name)
    ensures forall e :: e in r ==> e in h
    ensures forall e :: e in h && !Stripped(e.name) ==> e in r
    decreases |h|
  {
    if |h| == 0 then []
    else if Stripped(h[0].name) then StripEncodingHeaders(h[1..])
    else [h[0]] + StripEncodingHeaders(h[1..])
  }

  /** What the returned handler does with a response. */
  datatype Handled<F> =
    | Direct(info: ResponseInfo)   // the downstream handler applied to the response as it is
    | Decoded(factory: F, downstreamInfo: ResponseInfo, withExecutor: bool)
      // the downstream handler applied to `downstreamInfo`, its subscriber
      // wrapped by `factory`, through the executor variant when `withExecutor`

  /** The handler built by `decodingInternal`. `getFactory` is the registry
      lookup of `BodyDecoder.Factory.getFactory`; `hasExecutor` tells which
      `decoding` overload built the handler. */
  function Decoding<F>(info: ResponseInfo, getFactory: string -> Option<F>, hasExecutor: bool): (r: Result<Handled<F>>)
    // no Content-Encoding: the original info goes downstream, untouched
    ensures r == Ok(Direct(info)) <==> AllValues(info.headers, CONTENT_ENCODING) == []
    // otherwise only the first value selects the factory
    ensures var all := AllValues(info.headers, CONTENT_ENCODING);
            |all| > 0 && getFactory(all[0]).None?
            ==> r == Err(Error(UnsupportedOperationException, "Unsupported encoding: " + all[0]))
    ensures var all := AllValues(info.headers, CONTENT_ENCODING);
            |all| > 0 && getFactory(all[0]).Some?
            ==> r.Ok? && r.value.Decoded? && r.value.factory == getFactory(all[0]).value
    ensures r.Ok? && r.value.Decoded? ==>
            && r.value.withExecutor == hasExecutor
            && r.value.downstreamInfo.statusCode == info.statusCode
            && r.value.downstreamInfo.version == info.version
    ensures r.Err? ==> r.error.kind == UnsupportedOperationException
  {
    match FirstValue(info.headers, CONTENT_ENCODING)
    case None => Ok(Direct(info))
    case Some(enc) =>
      match getFactory(enc)
      case None => Err(Error(UnsupportedOperationException, "Unsupported encoding: " + enc))
      case Some(factory) =>
        var copy := ResponseInfo(info.statusCode, StripEncodingHeaders(info.headers), info.version);
        Ok(Decoded(factory, copy, hasExecutor))
  }

  // ---------------------------------------------------------------------
  // Properties
  // ---------------------------------------------------------------------

  /** A name that matches a stripped name is itself stripped, and a name that
      matches a kept name is itself kept. */
  lemma StrippedRespectsCase(a: string, b: string)
    requires EqualsIgnoreCase(a, b)
    ensures Stripped(a) <==> Stripped(b)
  {
    EqualsIgnoreCaseEquivalence(CONTENT_ENCODING, a, b);
    EqualsIgnoreCaseEquivalence(CONTENT_ENCODING, b, a);
    EqualsIgnoreCaseEquivalence(CONTENT_LENGTH, a, b);
    EqualsIgnoreCaseEquivalence(CONTENT_LENGTH, b, a);
    EqualsIgnoreCaseEquivalence(a, b, a);
  }

  /** Seen through `allValues`, the copy has no value under the stripped
      names and every value, in order, under every other name. */
  lemma {:induction false} StripAllValues(h: Headers, name: string)
    ensures AllValues(StripEncodingHeaders(h), name) == if Stripped(name) then [] else AllValues(h, name)
    decreases |h|
  {
    if |h| > 0 {
      StripAllValues(h[1..], name);
      if EqualsIgnoreCase(h[0].name, name) {
        StrippedRespectsCase(h[0].name, name);
      }
      if !Stripped(h[0].name) {
        assert ([h[0]] + StripEncodingHeaders(h[1..]))[1..] == StripEncodingHeaders(h[1..]);
      }
    }
  }

  /** The copy is made header by header: stripping a concatenation strips
      each part, so the kept headers stay in their original order. */
  lemma {:induction false} StripConcat(a: Headers, b: Headers)
    ensures StripEncodingHeaders(a + b) == StripEncodingHeaders(a) + StripEncodingHeaders(b)
    decreases |a|
  {
    if |a| == 0 {
      assert a + b == b;
    } else {
      assert (a + b)[0] == a[0] && (a + b)[1..] == a[1..] + b;
      StripConcat(a[1..], b);
    }
  }

  /** Stripping twice is stripping once. */
  lemma {:induction false} StripIdempotent(h: Headers)
    ensures StripEncodingHeaders(StripEncodingHeaders(h)) == StripEncodingHeaders(h)
    decreases |h|
  {
    if |h| > 0 {
      StripIdempotent(h[1..]);
      if !Stripped(h[0].name) {
        var t := StripEncodingHeaders(h[1..]);
        assert ([h[0]] + t)[1..] == t;
      }
    }
  }

  /** What the downstream handler sees when a decoder is installed: the same
      status and version, no `Content-Encoding` or `Content-Length` in any
      spelling, and every other header with all its values. */
  lemma DownstreamView<F>(info: ResponseInfo, getFactory: string -> Option<F>, hasExecutor: bool, name: string)
    requires Decoding(info, getFactory, hasExecutor).Ok?
    requires Decoding(info, getFactory, hasExecutor).value.Decoded?
    ensures var d := Decoding(info, getFactory, hasExecutor).value.downstreamInfo;
            && d.statusCode == info.statusCode && d.version == info.version
            && AllValues(d.headers, name) == if Stripped(name) then [] else AllValues(info.headers, name)
  {
    StripAllValues(info.headers, name);
  }

  /** The downstream handler never decodes again: applied to the copy, the
      same handler passes it through unchanged. */
  lemma NoRecursiveDecoding<F>(info: ResponseInfo, getFactory: string -> Option<F>, hasExecutor: bool)
    requires Decoding(info, getFactory, hasExecutor).Ok?
    requires Decoding(info, getFactory, hasExecutor).value.Decoded?
    ensures var d := Decoding(info, getFactory, hasExecutor).value.downstreamInfo;
            Decoding(d, getFactory, hasExecutor) == Ok(Direct(d))
  {
    StripAllValues(info.headers, CONTENT_ENCODING);
    EqualsIgnoreCaseIffSameLower(CONTENT_ENCODING, CONTENT_ENCODING);
  }
}
