/** `RegistryFileTypeDetector`: a test file-type detector that answers from
    a registry of media types keyed by file extension, ignoring case. */
module RegistryFileTypeDetector {
  import opened Wrappers
  import opened Text

  /** A file-system path as its name elements; the root path has none. */
  datatype Path = Path(names: seq<string>)

  /** `Path.getFileName`: the last name element, absent for the root. */
  function FileName(p: Path): Option<string> {
    if |p.names| == 0 then None else Some(p.names[|p.names| - 1])
  }

  /** `getExtension`: what follows the first '.' of the file name; "" when
      there is no file name or no '.' in it. */
  function GetExtension(p: Path): (ext: string)
    ensures FileName(p).None? ==> ext == ""
    ensures FileName(p).Some? && '.' !in FileName(p).value ==> ext == ""
    ensures FileName(p).Some? && '.' in FileName(p).value ==>
              var f := FileName(p).value;
              var dot := |f| - |ext| - 1;
              && 0 <= dot && f[dot] == '.' && '.' !in f[..dot] && f[dot + 1..] == ext
  {
    match FileName(p)
    case None => ""
    case Some(filename) =>
      var dot := IndexOf(filename, '.');
      if dot != -1 then filename[dot + 1..] else ""
  }

  /** The registry: media types keyed by lower-cased extension. */
  type Registry<M> = map<string, M>

  /** Every key is already in lower case, as `register` leaves them. */
  predicate LowerKeys<M>(reg: Registry<M>) {
    forall k :: k in reg ==> ToLower(k) == k
  }

  /** `register`: maps the lower-cased extension to `t`, replacing what was
      registered under any spelling of it; every other entry stays. */
  function Register<M>(reg: Registry<M>, ext: string, t: M): (r: Registry<M>)
    ensures ToLower(ext) in r && r[ToLower(ext)] == t
    ensures r.Keys == reg.Keys + {ToLower(ext)}
    ensures forall k :: k in reg && k != ToLower(ext) ==> r[k] == reg[k]
    ensures LowerKeys(reg) ==> LowerKeys(r)
  {
    ToLowerIdempotent(ext);
    reg[ToLower(ext) := t]
  }

  /** `probeContentType`: the type registered for the path's extension. On a
      registry with lower-case keys, that is the entry whose key equals the
      extension ignoring case, and nothing when no key does. */
  function ProbeContentType<M>(reg: Registry<M>, p: Path): (r: Option<M>)
    ensures LowerKeys(reg) ==>
              (r.Some? <==> exists k :: k in reg && EqualsIgnoreCase(k, GetExtension(p)))
    ensures LowerKeys(reg) ==>
              forall k :: k in reg && EqualsIgnoreCase(k, GetExtension(p)) ==> r == Some(reg[k])
  {
    var key := ToLower(GetExtension(p));
    KeysMatchIgnoringCase(reg, GetExtension(p));
    if key in reg then Some(reg[key]) else None
  }

  /** In a registry with lower-case keys, the one key equal to `e` ignoring
      case is `e` lower-cased. */
  lemma KeysMatchIgnoringCase<M>(reg: Registry<M>, e: string)
    ensures LowerKeys(reg) ==> forall k :: k in reg ==> (EqualsIgnoreCase(k, e) <==> k == ToLower(e))
  {
    if LowerKeys(reg) {
      forall k | k in reg
        ensures EqualsIgnoreCase(k, e) <==> k == ToLower(e)
      {
        EqualsIgnoreCaseIffSameLower(k, e);
      }
    }
  }

  lemma ToLowerIdempotent(s: string)
    ensures ToLower(ToLower(s)) == ToLower(s)
  {
    var l := ToLower(s);
    assert forall i :: 0 <= i < |l| ==> ToLower(l)[i] == l[i];
  }

  // ---------------------------------------------------------------------
  // Properties
  // ---------------------------------------------------------------------

  /** After registering `ext`, a path probes to the new type exactly when
      its extension matches `ext` ignoring case; other paths probe as before. */
  lemma ProbeAfterRegister<M>(reg: Registry<M>, ext: string, t: M, p: Path)
    ensures ProbeContentType(Register(reg, ext, t), p)
            == if EqualsIgnoreCase(GetExtension(p), ext) then Some(t) else ProbeContentType(reg, p)
  {
    EqualsIgnoreCaseIffSameLower(GetExtension(p), ext);
  }

  /** Registrations applied in order. */
  function RegisterAll<M>(reg: Registry<M>, entries: seq<(string, M)>): (r: Registry<M>)
    ensures LowerKeys(reg) ==> LowerKeys(r)
    decreases |entries|
  {
    if |entries| == 0 then reg
    else RegisterAll(Register(reg, entries[0].0, entries[0].1), entries[1..])
  }

  /** The type of the last entry whose extension matches `ext` ignoring case. */
  function LastMatch<M>(entries: seq<(string, M)>, ext: string): Option<M>
    decreases |entries|
  {
    if |entries| == 0 then None
    else if EqualsIgnoreCase(ext, entries[|entries| - 1].0) then Some(entries[|entries| - 1].1)
    else LastMatch(entries[..|entries| - 1], ext)
  }

  /** On a registry built from nothing, a path probes to the type registered
      last under any spelling of its extension, and to nothing when no
      registration matches it. */
  lemma {:induction false} ProbeRegistered<M>(entries: seq<(string, M)>, p: Path)
    ensures ProbeContentType(RegisterAll(map[], entries), p) == LastMatch(entries, GetExtension(p))
    decreases |entries|
  {
    if |entries| > 0 {
      var init := entries[..|entries| - 1];
      var last := entries[|entries| - 1];
      RegisterAllSnoc(map[], init, last);
      assert init + [last] == entries;
      ProbeRegistered(init, p);
      ProbeAfterRegister(RegisterAll(map[], init), last.0, last.1, p);
    }
  }

  lemma {:induction false} RegisterAllSnoc<M>(reg: Registry<M>, entries: seq<(string, M)>, e: (string, M))
    ensures RegisterAll(reg, entries + [e]) == Register(RegisterAll(reg, entries), e.0, e.1)
    decreases |entries|
  {
    if |entries| == 0 {
      assert entries + [e] == [e];
    } else {
      assert (entries + [e])[1..] == entries[1..] + [e];
      RegisterAllSnoc(Register(reg, entries[0].0, entries[0].1), entries[1..], e);
    }
  }

  /** "a.tar.gz" has the extension "tar.gz": everything after the first dot. */
  lemma CompoundExtension(dir: seq<string>)
    ensures GetExtension(Path(dir + ["a.tar.gz"])) == "tar.gz"
  {
    var f := "a.tar.gz";
    assert FileName(Path(dir + [f])) == Some(f);
    assert f[1] == '.';
  }
}
