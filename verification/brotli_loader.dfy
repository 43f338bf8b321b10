/** `BrotliLoader`: where the bundled native library is looked up for the
    running platform, and how the bundled dictionary is read and checked. */
module BrotliLoader {
  import opened Bytes
  import opened Wrappers
  import opened Text
  import opened Streams

  const LINUX: string := "linux"
  const WINDOWS: string := "windows"
  const MAC_OS: string := "macos"
  const LIB_ROOT: string := "native"
  const DICT_PATH: string := "/data/dictionary.bin"
  const BROTLI_DICT_SIZE: nat := 122784

  /** SHA-256 of the bundled dictionary (Java's signed bytes, read unsigned). */
  const BROTLI_DICT_SHA_256: seq<byte> :=
    [ 32, 228,  46, 177, 181,  17, 194,  24,   6, 212, 210,  39, 208, 126,  93, 208,
     104, 119, 216, 206, 123,  58, 129, 127,  55, 143,  49,  54,  83, 243,  92, 112]

  // ---------------------------------------------------------------------
  // Platform names
  // ---------------------------------------------------------------------

  /** `normalizeOs`, on an already lower-cased `os.name`: substring tests in
      a fixed order. */
  function NormalizeOs(os: string): (r: Option<string>)
    ensures r == Some(LINUX) <==> Contains(os, "linux")
    ensures r == Some(WINDOWS) <==> !Contains(os, "linux") && Contains(os, "windows")
    ensures r == Some(MAC_OS) <==> !Contains(os, "linux") && !Contains(os, "windows")
                                   && (Contains(os, "mac os x") || Contains(os, "darwin") || Contains(os, "osx"))
    ensures r.None? || r.value in {LINUX, WINDOWS, MAC_OS}
  {
    if Contains(os, "linux") then Some(LINUX)
    else if Contains(os, "windows") then Some(WINDOWS)
    else if Contains(os, "mac os x") || Contains(os, "darwin") || Contains(os, "osx") then Some(MAC_OS)
    else None
  }

  /** `ARCH_PATHS`: each directory name under the library root with the
      `os.arch` values it serves. */
  const ARCH_PATHS: seq<(string, set<string>)> := [
    ("x86", {"x86", "i386", "i486", "i586", "i686"}),
    ("x86-64", {"x86_64", "amd64"})
  ]

  /** No two entries serve a common alias. */
  predicate Disjoint(entries: seq<(string, set<string>)>) {
    forall i, j :: 0 <= i < j < |entries| ==> entries[i].1 !! entries[j].1
  }

  /** `stream().filter(...).findFirst()` over the map's entries in the order given. */
  function FindFirst(entries: seq<(string, set<string>)>, arch: string): (r: Option<string>)
    ensures r.None? <==> forall i :: 0 <= i < |entries| ==> arch !in entries[i].1
    ensures r.Some? ==> exists i :: 0 <= i < |entries| && entries[i].0 == r.value && arch in entries[i].1
    decreases |entries|
  {
    if |entries| == 0 then None
    else if arch in entries[0].1 then Some(entries[0].0)
    else
      var r := FindFirst(entries[1..], arch);
      assert forall i :: 1 <= i < |entries| ==> entries[i] == entries[1..][i - 1];
      r
  }

  /** `normalizeArch`, on an already lower-cased `os.arch`: the directory
      whose alias set holds it, or nothing. */
  function NormalizeArch(arch: string): (r: Option<string>)
    ensures r == Some("x86") <==> arch in {"x86", "i386", "i486", "i586", "i686"}
    ensures r == Some("x86-64") <==> arch in {"x86_64", "amd64"}
    ensures r.None? <==> arch !in {"x86", "i386", "i486", "i586", "i686", "x86_64", "amd64"}
  {
    ArchPathsDisjoint();
    if arch in ARCH_PATHS[0].1 then
      FindFirstUnique(ARCH_PATHS, arch, 0);
      FindFirst(ARCH_PATHS, arch)
    else if arch in ARCH_PATHS[1].1 then
      FindFirstUnique(ARCH_PATHS, arch, 1);
      FindFirst(ARCH_PATHS, arch)
    else FindFirst(ARCH_PATHS, arch)
  }

  /** With disjoint alias sets, the first match is the only match. */
  lemma {:induction false} FindFirstUnique(entries: seq<(string, set<string>)>, arch: string, i: nat)
    requires Disjoint(entries) && i < |entries| && arch in entries[i].1
    ensures FindFirst(entries, arch) == Some(entries[i].0)
    decreases |entries|
  {
    if i > 0 {
      assert arch !in entries[0].1;
      var t := entries[1..];
      assert t[i - 1] == entries[i];
      assert Disjoint(t) by {
        forall a, b | 0 <= a < b < |t|
          ensures t[a].1 !! t[b].1
        {
          assert t[a] == entries[a + 1] && t[b] == entries[b + 1];
        }
      }
      FindFirstUnique(t, arch, i - 1);
    }
  }

  lemma ArchPathsDisjoint()
    ensures Disjoint(ARCH_PATHS)
  {
    var x86 := ARCH_PATHS[0].1;
    var x64 := ARCH_PATHS[1].1;
    assert x86 !! x64;
  }

  /** The map's iteration order is unspecified; it does not matter: every
      order of its entries gives the same answer, the key whose aliases
      hold `arch`. */
  lemma ArchOrderIrrelevant(order: seq<(string, set<string>)>, arch: string)
    requires |order| == |ARCH_PATHS|
    requires forall e :: e in ARCH_PATHS ==> e in order
    ensures FindFirst(order, arch) == NormalizeArch(arch)
    ensures NormalizeArch(arch) == Some("x86") <==> arch in {"x86", "i386", "i486", "i586", "i686"}
    ensures NormalizeArch(arch) == Some("x86-64") <==> arch in {"x86_64", "amd64"}
  {
    ArchPathsDisjoint();
    var a := ARCH_PATHS[0];
    var b := ARCH_PATHS[1];
    assert a in order && b in order && a != b;
    assert order == [a, b] || order == [b, a];
    assert Disjoint(order);
    if arch in a.1 {
      FindFirstUnique(order, arch, if order[0] == a then 0 else 1);
      FindFirstUnique(ARCH_PATHS, arch, 0);
    } else if arch in b.1 {
      FindFirstUnique(order, arch, if order[0] == b then 0 else 1);
      FindFirstUnique(ARCH_PATHS, arch, 1);
    }
  }

  /** `findLibPath`: the resource path of the native library for `os.name`
      and `os.arch`; the messages quote the properties as they were. */
  function FindLibPath(os: string, arch: string, libName: string): (r: Result<string>)
    ensures NormalizeOs(ToLower(os)).None? ==> r == Err(Error(UnsupportedOperationException, "unrecognized OS: " + os))
    ensures NormalizeOs(ToLower(os)).Some? && NormalizeArch(ToLower(arch)).None?
            ==> r == Err(Error(UnsupportedOperationException, "unrecognized architecture: " + arch))
    ensures r.Ok? <==> NormalizeOs(ToLower(os)).Some? && NormalizeArch(ToLower(arch)).Some?
    ensures r.Ok? ==> r.value == "/" + LIB_ROOT + "/" + NormalizeOs(ToLower(os)).value
                                 + "/" + NormalizeArch(ToLower(arch)).value + "/" + libName
  {
    var normalizedOs := NormalizeOs(ToLower(os));
    if normalizedOs.None? then Err(Error(UnsupportedOperationException, "unrecognized OS: " + os))
    else
      var normalizedArch := NormalizeArch(ToLower(arch));
      if normalizedArch.None? then Err(Error(UnsupportedOperationException, "unrecognized architecture: " + arch))
      else Ok("/" + LIB_ROOT + "/" + normalizedOs.value + "/" + normalizedArch.value + "/" + libName)
  }

  /** Case does not matter: properties that differ only in case resolve to
      the same library path (or both fail the same way). */
  lemma LibPathIgnoresCase(os: string, os2: string, arch: string, arch2: string, libName: string)
    requires EqualsIgnoreCase(os, os2) && EqualsIgnoreCase(arch, arch2)
    ensures FindLibPath(os, arch, libName).Ok? == FindLibPath(os2, arch2, libName).Ok?
    ensures FindLibPath(os, arch, libName).Ok? ==> FindLibPath(os, arch, libName) == FindLibPath(os2, arch2, libName)
  {
    EqualsIgnoreCaseIffSameLower(os, os2);
    EqualsIgnoreCaseIffSameLower(arch, arch2);
  }

  lemma {:induction false} ContainsFirstChar(s: string, sub: string)
    requires |sub| > 0 && sub[0] !in s
    ensures !Contains(s, sub)
    decreases |s|
  {
    if |s| > 0 {
      assert s[0] != sub[0];
      ContainsFirstChar(s[1..], sub);
    }
  }

  /** "Mac OS X" is a Mac, "Linux" is Linux, "amd64" is x86-64. */
  lemma CommonPlatforms()
    ensures NormalizeOs(ToLower("Mac OS X")) == Some(MAC_OS)
    ensures NormalizeOs(ToLower("Linux")) == Some(LINUX)
    ensures NormalizeArch(ToLower("amd64")) == Some("x86-64")
  {
    assert ToLower("Mac OS X") == "mac os x";
    assert ToLower("Linux") == "linux";
    assert ToLower("amd64") == "amd64";
    assert IsPrefix("linux", "linux");
    assert IsPrefix("mac os x", "mac os x");
    assert 'l' !in "mac os x" && 'w' !in "mac os x";
    ContainsFirstChar("mac os x", "linux");
    ContainsFirstChar("mac os x", "windows");
    ArchOrderIrrelevant(ARCH_PATHS, "amd64");
  }

  // ---------------------------------------------------------------------
  // The dictionary
  // ---------------------------------------------------------------------

  /** `loadBrotliDict`. `resource` is the dictionary resource as the chunks
      of `InputStream.read` return it (absent when the resource is missing);
      `sha256` is the digest. Bytes go into a buffer of exactly
      `BROTLI_DICT_SIZE`; a read that does not fit overflows it. */
  method LoadBrotliDict(resource: Option<seq<seq<byte>>>, sha256: seq<byte> -> seq<byte>) returns (r: Result<seq<byte>>)
    ensures resource.None? ==> r == Err(Error(FileNotFoundException, "couldn't find brotli dictionary: " + DICT_PATH))
    ensures resource.Some? ==>
              var data := Flatten(resource.value);
              && (|data| > BROTLI_DICT_SIZE ==> r == Err(Error(IOException, "too large dictionary")))
              && (|data| < BROTLI_DICT_SIZE ==> r == Err(Error(IOException, "incomplete dictionary")))
              && (|data| == BROTLI_DICT_SIZE && sha256(data) != BROTLI_DICT_SHA_256
                  ==> r == Err(Error(IOException, "dictionary is corrupt")))
              && (|data| == BROTLI_DICT_SIZE && sha256(data) == BROTLI_DICT_SHA_256 ==> r == Ok(data))
  {
    if resource.None? {
      return Err(Error(FileNotFoundException, "couldn't find brotli dictionary: " + DICT_PATH));
    }
    var chunks := resource.value;
    var dictData: seq<byte> := [];
    var i := 0;
    while i < |chunks|
      invariant 0 <= i <= |chunks|
      invariant dictData == Flatten(chunks[..i])
      invariant |dictData| <= BROTLI_DICT_SIZE
      decreases |chunks| - i
    {
      var read := chunks[i];
      assert chunks[..i + 1] == chunks[..i] + [read];
      FlattenSnoc(chunks[..i], read);
      if |read| > BROTLI_DICT_SIZE - |dictData| {
        // BufferOverflowException from put
        FlattenPrefix(chunks, i + 1);
        return Err(Error(IOException, "too large dictionary"));
      }
      dictData := dictData + read;
      i := i + 1;
    }
    assert chunks[..i] == chunks;
    if |dictData| < BROTLI_DICT_SIZE {
      return Err(Error(IOException, "incomplete dictionary"));
    }
    if sha256(dictData) != BROTLI_DICT_SHA_256 {
      return Err(Error(IOException, "dictionary is corrupt"));
    }
    return Ok(dictData);
  }
}
