# Methanol decompression core, in Dafny

A model of the parts of the Methanol HTTP client that decide what happens to
an encoded response body, with proofs about them:

- **Deflate decoding** (`DeflateDecoder`): after each `decode` call feeds the
  available input to the inflater, the decoder accepts, waits for more input,
  fails with "deflate stream finished prematurely" when the deflate stream
  ended before the input did, or fails with "unexpected end of deflate
  stream" when the final source ended inside the stream. The inflater
  (zlib-wrapped data for `deflate`, raw deflate for gzip) is a function
  parameter (`Inflate.Inflater`) queried on the compressed prefix.
- **Gzip framing** (`GzipDecoder`, `GzipMember`, `GzipCases`): the member
  format of section 2.3 of RFC 1952 read as a byte-at-a-time state machine
  around the inflater. It checks the magic, method and flags, skips FEXTRA,
  FNAME, FCOMMENT and FHCRC, and checks the CRC32 and ISIZE trailer. It
  accepts concatenated members and rejects trailing garbage, with the
  messages the decoder tests expect. Every result holds for every split of
  the input into chunks.
- **Response header rewriting** (`MoreBodyHandlers`): the body handler built
  by `decoding` passes a response without `Content-Encoding` straight
  through, rejects an encoding without a registered decoder, and otherwise
  hands downstream a copy of the response info without `Content-Encoding`
  and `Content-Length`, matched ignoring case.
- **Service cache** (`ServiceCache`): `getProviders` loads the providers at
  most once, keeps them forever after, guards against recursive loading and
  leaves the cache empty when loading throws.
- **Test helpers** (`TestUtils`): the byte copy between two `ByteBuffer`s and
  the header map built from name/value pairs.
- **Extension registry** (`RegistryFileTypeDetector`): the extension is what
  follows the first dot of the file name, and lookups ignore case.
- **Brotli native loading** (`BrotliLoader`): how `os.name` and `os.arch`
  select the bundled library's resource path, and the size and digest checks
  on the bundled dictionary.

Supporting modules: `Wrappers` (`Option`, `Result`, the Java exception kinds),
`Bytes` (bytes and little-endian fields), `Text` (ASCII case folding, substring
search, `%#x` and decimal rendering), `Inflate` (where an inflater settles
along its input) and `Streams` (chunked sources).

Modelling decisions:

- Every source path below is relative to the repository root.
  `GzipDecoder.java` itself is not part of this model. The gzip decoder is
  modelled from section 2.3 of RFC 1952 and from the behaviour and messages
  that `GzipDecoderTest.java` asserts.
- At a member boundary, the next two bytes decide what follows. The magic
  `1f 8b` starts another member. Anything else, including one lone byte at
  the end, is "gzip stream finished prematurely". This agrees with the 10-
  and 30-byte trailing-zero tests and with the concatenation test.
- The trailer is checked CRC32 first, then ISIZE. Each message reports the
  computed value as "expected" and the trailer's value as "found", as the
  tests build their messages.
- Input that ends inside a gzip member fails with the `EOFException`
  "unexpected end of gzip stream", by analogy with the deflate decoder. No
  test asserts this message.
- Plaintext reaches the sink when the member's inflater reports its stream
  finished.

## Model

| member | source | states |
|---|---|---|
| DeflateDecoder.Decide | methanol/src/main/java/com/github/mizosoft/methanol/internal/dec/DeflateDecoder.java:40-47 | The decoder fails with the IOException "deflate stream finished prematurely" exactly when the inflater finished and input remains, even on the final source. It fails with the EOFException "unexpected end of deflate stream" exactly when the inflater is unfinished and the source is final. It returns normally in the two remaining cases. |
| DeflateDecoder.InflateSource | methanol/src/main/java/com/github/mizosoft/methanol/internal/dec/DeflateDecoder.java:39 | Feeding the source consumes a prefix of it, and the inflater never settles before its last consumed byte. Bytes are left over only when the inflater stopped asking for input. An inflater that had already settled consumes nothing. |
| DeflateDecoder.Decode | methanol/src/main/java/com/github/mizosoft/methanol/internal/dec/DeflateDecoder.java:38-48 | A call that returns normally consumed a prefix of the source and keeps the decoder's invariant. A normal return on a final source leaves a finished inflater, so a truncated stream never passes. |
| DeflateDecoder.InflateSourceAppend | methanol/src/main/java/com/github/mizosoft/methanol/internal/dec/DeflateDecoder.java:39 | Feeding `a + b` equals feeding `a` and then feeding `b`, but only when all of `a` was consumed. |
| DeflateDecoder.DecodeAppend | methanol/src/main/java/com/github/mizosoft/methanol/internal/dec/DeflateDecoder.java:38-48 | Two consecutive non-final calls give the same result as one call over the joined bytes. |
| DeflateDecoder.FinalFlagPlacement | methanol/src/main/java/com/github/mizosoft/methanol/internal/dec/DeflateDecoder.java:44-46 | A final call over `a` equals a non-final call over `a` followed by an empty final call. |
| DeflateDecoder.ChunkingIndependent | methanol/src/main/java/com/github/mizosoft/methanol/internal/dec/DeflateDecoder.java:38-48 | Decoding a body split into any chunks gives the same result as decoding it in one chunk. |
| DeflateDecoder.DecodeWhole | methanol/src/main/java/com/github/mizosoft/methanol/internal/dec/DeflateDecoder.java:38-48 | A single final call succeeds iff the input is exactly one complete deflate stream, and then yields its plaintext. It fails "finished prematurely" iff a proper prefix is a complete stream. It fails "unexpected end" iff the inflater still waits for input after the whole input. It fails with a ZipException iff the inflater reports corruption on some prefix. |
| DeflateDecoder.DecodeStream | methanol/src/main/java/com/github/mizosoft/methanol/internal/dec/DeflateDecoder.java:38-48 | Decoding chunks followed by an empty final source fails with a ZipException carrying the inflater's message once the inflater has reported corruption. Once the inflater has finished, it returns that plaintext when no byte follows, and "deflate stream finished prematurely" when any does. `DeflateDecoder.DecodeStreamSpec` gives the result from a fresh decoder. |
| DeflateDecoder.DecodeStreamSpec | methanol/src/main/java/com/github/mizosoft/methanol/internal/dec/DeflateDecoder.java:38-48 | For every chunking of the body, the stream decodes iff it is one complete deflate stream, and then to its plaintext. It fails "finished prematurely" iff a proper prefix is complete. It fails "unexpected end" iff the inflater is still pending. |
| GzipDecoder.CheckHeader | methanol/src/test/java/com/github/mizosoft/methanol/internal/dec/GzipDecoderTest.java:159-190 | The header fails iff its little-endian magic is not 0x8b1f, CM is not 8, or a reserved FLG bit is set. Each fault is reported in that order with its own "not in gzip format", "unsupported compression method" or "unsupported flags" message. A passing header continues with the first optional field its flags announce. |
| GzipDecoder.MagicErrorIdentifies | methanol/src/test/java/com/github/mizosoft/methanol/internal/dec/GzipDecoderTest.java:159-168 | The magic error message names the value found: two different magics never give the same message. |
| GzipDecoder.CheckTrailer | methanol/src/test/java/com/github/mizosoft/methanol/internal/dec/GzipDecoderTest.java:192-220 | The trailer passes iff its CRC32 equals the CRC of the member's plaintext and its ISIZE equals the plaintext length mod 2^32. A CRC mismatch is reported with the computed value as "expected" and the trailer's as "found", and so is a size mismatch with a correct CRC. |
| GzipDecoder.Finish | methanol/src/test/java/com/github/mizosoft/methanol/internal/dec/GzipDecoderTest.java:117-135 | At the end of input, the stream succeeds iff it stands at a clean member boundary, and then yields all plaintext written. Stray bytes after a member are "gzip stream finished prematurely". A stream stopped inside a member is the EOFException "unexpected end of gzip stream". An earlier failure is reported as it was. |
| GzipDecoder.Decode | methanol/src/test/java/com/github/mizosoft/methanol/internal/dec/GzipDecoderTest.java:55-59 | A call that returns normally leaves the decoder in a non-failed state. On a final source it leaves the decoder at a clean member boundary. |
| GzipDecoder.DecodeAppend | methanol/src/test/java/com/github/mizosoft/methanol/internal/dec/GzipDecoderTest.java:151-154 | Two consecutive non-final calls give the same result as one call over the joined bytes. |
| GzipDecoder.Step | methanol/src/test/java/com/github/mizosoft/methanol/internal/dec/GzipDecoderTest.java:55-59 | One input byte never takes back plaintext already written. New plaintext appears only when the inflater finishes a member body, all of it at once, and the decoder then waits for that member's trailer. A failed decoder stays as it is. The per-phase behaviour is stated by `GzipMember.FieldsFeed`, `GzipMember.BodyFeed` and `GzipMember.MemberFeed`. |
| GzipDecoder.Feed | methanol/src/test/java/com/github/mizosoft/methanol/internal/dec/GzipDecoderTest.java:151-154 | A run of bytes only grows the sink. Once the decoder has failed, further input changes nothing, so the first error is the one reported, as the corruption tests at lines 164-167 expect for every buffer size. |
| GzipDecoder.ChunkingIndependent | methanol/src/test/java/com/github/mizosoft/methanol/internal/dec/GzipDecoderTest.java:151-154 | Decoding a stream split into any chunks gives the same result as decoding it in one chunk. |
| GzipDecoder.FinalFlagPlacement | methanol/src/test/java/com/github/mizosoft/methanol/internal/dec/GzipDecoderTest.java:151-154 | A final call over `a` equals a non-final call followed by an empty final call. |
| GzipDecoder.DecodeStream | methanol/src/test/java/com/github/mizosoft/methanol/internal/dec/GzipDecoderTest.java:151-154 | Decoding chunks followed by an empty final source keeps what was written before at the front of the result. A decoder that already failed reports its error whatever follows. `GzipDecoder.DecodeStreamIsFinish` gives the result itself. |
| GzipDecoder.DecodeStreamIsFinish | methanol/src/test/java/com/github/mizosoft/methanol/internal/dec/GzipDecoderTest.java:151-154 | For every chunking, the result is the end-of-input verdict on the state reached after all bytes. |
| GzipMember.MemberFlagsBits | methanol/src/test/java/com/github/mizosoft/methanol/internal/dec/GzipDecoderTest.java:222-229 | The FLG byte of a member has FEXTRA, FNAME, FCOMMENT, FHCRC and FTEXT set exactly for the fields it carries, and no reserved bit. |
| GzipMember.FieldsFeed | methanol/src/test/java/com/github/mizosoft/methanol/internal/dec/GzipDecoderTest.java:61-99 | Whatever subset of extra field, file name, comment and header CRC a member carries, the decoder skips exactly those bytes and arrives at the start of the compressed body. |
| GzipMember.BodyFeed | methanol/src/test/java/com/github/mizosoft/methanol/internal/dec/GzipDecoderTest.java:55-59 | Feeding the rest of a complete deflate body writes its plaintext to the sink and moves on to the trailer. |
| GzipMember.MemberFeed | methanol/src/test/java/com/github/mizosoft/methanol/internal/dec/GzipDecoderTest.java:55-59 | An encoded member, from any point inside its fixed header, writes its plaintext and ends with the trailer's verdict. |
| GzipMember.RoundTrip | methanol/src/test/java/com/github/mizosoft/methanol/internal/dec/GzipDecoderTest.java:137-155 | Concatenated well-formed members decode to the concatenation of their plaintexts, under every chunking of the input. |
| GzipMember.OptionalFieldsIgnored | methanol/src/test/java/com/github/mizosoft/methanol/internal/dec/GzipDecoderTest.java:61-115 | A member with any combination of FTEXT, FEXTRA, FNAME, FCOMMENT and FHCRC decodes to its plaintext, as the same member without them does. |
| GzipMember.CorruptTrailer | methanol/src/test/java/com/github/mizosoft/methanol/internal/dec/GzipDecoderTest.java:192-220 | A member with a wrong CRC32 fails with the CRC message. With a right CRC and a wrong ISIZE it fails with the ISIZE message. With both right it decodes to its plaintext. |
| GzipMember.TrailingGarbage | methanol/src/test/java/com/github/mizosoft/methanol/internal/dec/GzipDecoderTest.java:117-135 | Bytes after the last member that do not begin with the gzip magic fail with the IOException "gzip stream finished prematurely", under every chunking. |
| GzipMember.BadHeader | methanol/src/test/java/com/github/mizosoft/methanol/internal/dec/GzipDecoderTest.java:159-190 | A stream whose first ten bytes fail the header checks fails with that header error, whatever follows. |
| GzipCases.CorruptMagic | methanol/src/test/java/com/github/mizosoft/methanol/internal/dec/GzipDecoderTest.java:159-168 | A member whose magic is replaced by 0xabcd fails with "not in gzip format; expected: 0x8b1f, found: 0xabcd". |
| GzipCases.CorruptMethod | methanol/src/test/java/com/github/mizosoft/methanol/internal/dec/GzipDecoderTest.java:170-179 | A member with CM 7 fails with "unsupported compression method; expected: 0x8, found: 0x7". |
| GzipCases.CorruptFlags | methanol/src/test/java/com/github/mizosoft/methanol/internal/dec/GzipDecoderTest.java:181-190 | A member with FLG 0xE0 fails with "unsupported flags: 0xe0". |
| GzipCases.TrailingZeros | methanol/src/test/java/com/github/mizosoft/methanol/internal/dec/GzipDecoderTest.java:117-135 | Any positive number of zero bytes after complete members, ten and thirty included, fails with "gzip stream finished prematurely". |
| GzipCases.EmptyMember | methanol/src/test/java/com/github/mizosoft/methanol/internal/dec/GzipDecoderTest.java:143-146 | A member with an empty plaintext decodes to nothing, without error. |
| MoreBodyHandlers.StripEncodingHeaders | methanol/src/main/java/com/github/mizosoft/methanol/MoreBodyHandlers.java:93-95 | The copy has no header named Content-Encoding or Content-Length in any case. Every header in it comes from the original. Every other header of the original, with its values, is kept. |
| MoreBodyHandlers.Decoding | methanol/src/main/java/com/github/mizosoft/methanol/MoreBodyHandlers.java:83-100 | Without a Content-Encoding value, the original info goes downstream unchanged, and only then. Only the first value selects the factory, and a value without a factory fails with the UnsupportedOperationException "Unsupported encoding: " + value. Otherwise that factory wraps the downstream. The executor variant is used exactly when the handler was built with an executor. Status code and version are kept. |
| MoreBodyHandlers.StrippedRespectsCase | methanol/src/main/java/com/github/mizosoft/methanol/MoreBodyHandlers.java:94-95 | Two names equal ignoring case are either both stripped or both kept. |
| MoreBodyHandlers.StripAllValues | methanol/src/main/java/com/github/mizosoft/methanol/MoreBodyHandlers.java:93-95 | Through `allValues`, the copy has no value under a stripped name. Under every other name it has exactly the original's values, in order. |
| MoreBodyHandlers.StripConcat | methanol/src/main/java/com/github/mizosoft/methanol/MoreBodyHandlers.java:93-95 | The filter works header by header, so kept headers keep their relative order. |
| MoreBodyHandlers.StripIdempotent | methanol/src/main/java/com/github/mizosoft/methanol/MoreBodyHandlers.java:93-95 | Filtering the copy again changes nothing. |
| MoreBodyHandlers.DownstreamView | methanol/src/main/java/com/github/mizosoft/methanol/MoreBodyHandlers.java:93-97 | When a decoder is installed, the downstream info has the same status and version. It has no Content-Encoding or Content-Length values, and every other header's values are unchanged. |
| MoreBodyHandlers.NoRecursiveDecoding | methanol/src/main/java/com/github/mizosoft/methanol/MoreBodyHandlers.java:70-71 | The handler applied to the downstream copy passes it through without decoding again. |
| ServiceCache.GetProviders | methanol/src/main/java/com/github/mizosoft/methanol/internal/spi/ServiceCache.java:47-66 | A filled cache is returned as it is, without loading. A call made while this thread loads fails with "recursive loading of providers". A list another thread stored before the lock is taken without loading. The call loads iff the cache is empty, no load is in progress and nothing was stored meanwhile. A failed load leaves the cache empty and rethrows; a successful one stores the list. The lock is released on every exit, and what is returned is what is cached. |
| ServiceCache.Run | methanol/src/main/java/com/github/mizosoft/methanol/internal/spi/ServiceCache.java:47-66 | A run of calls gives one result per call and leaves the lock as it found it. |
| ServiceCache.RunFromFilled | methanol/src/main/java/com/github/mizosoft/methanol/internal/spi/ServiceCache.java:47-49 | Once filled, the cache never changes, nothing is loaded again, and every call returns the cached list. |
| ServiceCache.StoresAtMostOnce | methanol/src/main/java/com/github/mizosoft/methanol/internal/spi/ServiceCache.java:54-60 | Across any run of calls, at most one loaded list is stored, and none once the cache is filled. |
| ServiceCache.ResultsAgree | methanol/src/main/java/com/github/mizosoft/methanol/internal/spi/ServiceCache.java:56-65 | Every call of a run that returns normally returns the list the cache holds at the end. |
| ServiceCache.RetryAfterFailure | methanol/src/main/java/com/github/mizosoft/methanol/internal/spi/ServiceCache.java:54-63 | A load that throws leaves the cache empty and unlocked, so the next call loads again and can succeed. |
| TestUtils.CopyRemaining | methanol-testutils/src/main/java/com/github/mizosoft/methanol/testutils/TestUtils.java:102-109 | The count is the minimum of the two remaining counts, and afterwards one of the buffers has nothing remaining. Both positions advance by the count, and the source's limit and content are restored. The destination receives the next `count` source bytes at its position, and nothing else in it changes. |
| TestUtils.Put | methanol-testutils/src/main/java/com/github/mizosoft/methanol/testutils/TestUtils.java:97 | After a put, the name maps to the new values, every other name maps as before, and names stay unique. The map grows only for a new name. |
| TestUtils.HeadersOf | methanol-testutils/src/main/java/com/github/mizosoft/methanol/testutils/TestUtils.java:94-100 | An odd number of arguments fails with the ArrayIndexOutOfBoundsException "Index N out of bounds for length N" for reading one past the end, and only then. Otherwise each name maps to the one-element list of the value paired with it last. |
| RegistryFileTypeDetector.GetExtension | methanol/src/test/java/com/github/mizosoft/methanol/testing/RegistryFileTypeDetector.java:54-65 | The extension is "" for a path without a file name or a file name without '.'. Otherwise it is everything after the first '.' of the file name. |
| RegistryFileTypeDetector.Register | methanol/src/test/java/com/github/mizosoft/methanol/testing/RegistryFileTypeDetector.java:48-52 | After `register`, the lower-cased extension maps to the new type, whatever was registered under any spelling of it before. Every other entry stays, and the keys stay lower-case. `ProbeAfterRegister` states what probes see. |
| RegistryFileTypeDetector.ProbeContentType | methanol/src/test/java/com/github/mizosoft/methanol/testing/RegistryFileTypeDetector.java:43-46 | On a registry with lower-case keys, a path probes to some type iff a key equals its extension ignoring case, and then to that key's type. `ProbeRegistered` states the result after a sequence of registrations. |
| RegistryFileTypeDetector.ProbeAfterRegister | methanol/src/test/java/com/github/mizosoft/methanol/testing/RegistryFileTypeDetector.java:43-52 | After registering an extension, a path probes to the new type iff its extension equals the registered one ignoring case. Every other path probes as before, so a re-registration overwrites. |
| RegistryFileTypeDetector.ProbeRegistered | methanol/src/test/java/com/github/mizosoft/methanol/testing/RegistryFileTypeDetector.java:43-52 | After any sequence of registrations, a path probes to the type registered last under any spelling of its extension, or to nothing if none matches. |
| RegistryFileTypeDetector.CompoundExtension | methanol/src/test/java/com/github/mizosoft/methanol/testing/RegistryFileTypeDetector.java:58-62 | "a.tar.gz" has the extension "tar.gz". |
| BrotliLoader.NormalizeOs | methanol-brotli/src/main/java/com/github/mizosoft/methanol/brotli/internal/BrotliLoader.java:158-167 | A name containing "linux" gives linux. Failing that, one containing "windows" gives windows. Failing both, one containing "mac os x", "darwin" or "osx" gives macos. Anything else gives nothing. Each outcome holds iff its condition does. |
| BrotliLoader.FindFirst | methanol-brotli/src/main/java/com/github/mizosoft/methanol/brotli/internal/BrotliLoader.java:169-175 | The result is nothing iff no entry's alias set holds the architecture. Otherwise it is the key of an entry whose aliases hold it. |
| BrotliLoader.FindFirstUnique | methanol-brotli/src/main/java/com/github/mizosoft/methanol/brotli/internal/BrotliLoader.java:169-175 | With disjoint alias sets, the first match is the only match. |
| BrotliLoader.ArchPathsDisjoint | methanol-brotli/src/main/java/com/github/mizosoft/methanol/brotli/internal/BrotliLoader.java:52-55 | The x86 and x86-64 alias sets share no alias. |
| BrotliLoader.NormalizeArch | methanol-brotli/src/main/java/com/github/mizosoft/methanol/brotli/internal/BrotliLoader.java:169-175 | A lower-cased architecture gives x86 iff it is x86, i386, i486, i586 or i686. It gives x86-64 iff it is x86_64 or amd64, and nothing otherwise. `ArchOrderIrrelevant` shows the map's iteration order does not change this. |
| BrotliLoader.ArchOrderIrrelevant | methanol-brotli/src/main/java/com/github/mizosoft/methanol/brotli/internal/BrotliLoader.java:169-175 | Every iteration order of the map gives the same answer. The result is x86 iff the architecture is x86, i386, i486, i586 or i686, and x86-64 iff it is x86_64 or amd64. |
| BrotliLoader.FindLibPath | methanol-brotli/src/main/java/com/github/mizosoft/methanol/brotli/internal/BrotliLoader.java:144-156 | An unrecognised OS fails with "unrecognized OS: " + the property as given. A recognised OS with an unrecognised architecture fails with "unrecognized architecture: " + the property as given. Otherwise the path is "/native/<os>/<arch>/<libName>", built from the values the lower-cased properties normalise to. |
| BrotliLoader.LibPathIgnoresCase | methanol-brotli/src/main/java/com/github/mizosoft/methanol/brotli/internal/BrotliLoader.java:146-151 | Properties that differ only in case resolve to the same library path, or both fail. |
| BrotliLoader.CommonPlatforms | methanol-brotli/src/main/java/com/github/mizosoft/methanol/brotli/internal/BrotliLoader.java:158-175 | "Mac OS X" normalises to macos, "Linux" to linux and "amd64" to x86-64. |
| BrotliLoader.LoadBrotliDict | methanol-brotli/src/main/java/com/github/mizosoft/methanol/brotli/internal/BrotliLoader.java:177-208 | A missing resource is the FileNotFoundException "couldn't find brotli dictionary: /data/dictionary.bin". More than 122784 bytes is "too large dictionary", and fewer is "incomplete dictionary", both decided before the digest. A dictionary of the right size with the wrong SHA-256 is "dictionary is corrupt". Otherwise the result is the dictionary's bytes. |

## Left out

- The inflate algorithm of `java.util.zip.Inflater` (zlib-wrapped data of RFC 1950 for `deflate`, raw deflate of RFC 1951 inside gzip) and the CRC-32 computation are foreign library code. They are function parameters, `Inflate.Inflater` and `Primitives.crc32`. The inflater is queried on the growing compressed prefix.
- Output buffering and sink capacity are not modelled. The plaintext of a member or deflate stream counts as delivered once the inflater reports the stream finished.
- The FHCRC header CRC16 is skipped, not validated.
- The Unicode behaviour of `toLowerCase`/`equalsIgnoreCase` is not modelled. Case folding is ASCII only.
- `HttpHeaders.of` normalisation is JDK code and is left out. This covers sorting by name ignoring case, trimming, dropping empty value lists, and rejecting duplicate names. `MoreBodyHandlers` works on the header list as given.
- TestUtils.HeadersOf: returns the insertion-ordered map that the `LinkedHashMap` builds, with names compared exactly. It does not model the final `HttpHeaders.of` step, which is the normalisation above. So two names that differ only in case stay two entries here, and the `IllegalArgumentException` that `HttpHeaders.of` raises for them is not modelled.
- `BodyDecoder.Factory.getFactory` is a function parameter, and `factory.create` is the opaque `Decoded` outcome. The decoder subscriber it builds is not part of this model.
- The lock, the volatile field and thread interleavings in `ServiceCache` are not modelled. The model is sequential: `loading` stands for "the lock is held by this thread", and another thread's store is the `racer` of a call. `ServiceLoader` discovery is left out; how a load ends is the call's `load` parameter.
- `System.getProperty` is not read: `FindLibPath` takes `os.name` and `os.arch` as arguments.
- In `LoadBrotliDict`, the resource stream is the sequence of chunks its reads return, and the SHA-256 digest is a function parameter.
- `LoadBrotliDict` leaves out the `NoSuchAlgorithmException` path ("cannot digest brotli dictionary"). Every Java platform provides SHA-256.
- Extracting the native library to a temporary directory, lock files, stale-entry cleanup, shutdown hooks, `System.load` and JNI dictionary registration are file-system and native I/O, and are left out.
- DeflateDecoder.Decode: a corrupt stream ending in a `ZipException` that carries the inflater's message is assumed. That mapping happens in the inherited `inflateSource` loop of `ZLibDecoder`, which is not part of this model. The same assumption underlies `DeflateDecoder.DecodeWhole` and `DeflateDecoder.DecodeStream`.
- `GzipDecoder.java` is not part of this model. Its behaviour is taken from section 2.3 of RFC 1952 and from the assertions of `GzipDecoderTest.java`. The end-of-input message "unexpected end of gzip stream" is this model's choice.
- RegistryFileTypeDetector.ProbeAfterRegister: `register` and `probeContentType` call `toLowerCase()` in the default locale. The model assumes that locale folds ASCII letters as `Locale.ROOT` does. Under a Turkish or Azerbaijani default locale, "GIF" lower-cases to "gıf" with a dotless ı, so a registered "GIF" no longer matches a probed "gif" and the "iff equal ignoring case" promise does not hold.
- RegistryFileTypeDetector.ProbeRegistered: rests on the same default-locale assumption as `ProbeAfterRegister`. Outside it, the type found need not be the one registered last under a spelling that is equal ignoring case.
- TestUtils.CopyRemaining: the two buffers are assumed distinct, writable and not sharing storage. The `IllegalArgumentException` that `put` throws when `src == dst`, the `ReadOnlyBufferException` for a read-only destination, and the change to the source's content when both are views of one backing array are not modelled.
