/** The two `TestUtils` helpers the decoder tests lean on: `copyRemaining`,
    which moves bytes between buffers, and `headers`, which builds response
    headers from name/value pairs. */
module TestUtils {
  import opened Bytes
  import opened Wrappers
  import opened Text
  import opened MoreBodyHandlers

  // ---------------------------------------------------------------------
  // Buffers
  // ---------------------------------------------------------------------

  /** A `ByteBuffer`: its backing bytes (the capacity is their count), the
      position of the next byte, and the limit. */
  datatype Buffer = Buffer(content: seq<byte>, position: nat, limit: nat)

  predicate Valid(b: Buffer) {
    b.position <= b.limit <= |b.content|
  }

  function Remaining(b: Buffer): nat
    requires Valid(b)
  {
    b.limit - b.position
  }

  function Min(a: int, b: int): int {
    if a <= b then a else b
  }

  /** `copyRemaining`: copies as many bytes as both buffers allow from `src`
      to `dst`, by narrowing `src`'s limit, a bulk `put`, and restoring the
      limit. */
  method CopyRemaining(src: Buffer, dst: Buffer) returns (n: int, src': Buffer, dst': Buffer)
    requires Valid(src) && Valid(dst)
    ensures n == Min(Remaining(src), Remaining(dst))
    ensures Valid(src') && Valid(dst')
    // one of the two buffers is exhausted afterwards
    ensures Remaining(src') == 0 || Remaining(dst') == 0
    // both positions advance by the count; the source is otherwise untouched
    ensures src' == src.(position := src.position + n)
    ensures dst'.position == dst.position + n && dst'.limit == dst.limit
    // the destination receives the next `n` source bytes in place, nothing else changes
    ensures |dst'.content| == |dst.content|
    ensures dst'.content[dst.position..dst.position + n] == src.content[src.position..src.position + n]
    ensures dst'.content[..dst.position] == dst.content[..dst.position]
    ensures dst'.content[dst.position + n..] == dst.content[dst.position + n..]
  {
    var toCopy := Min(Remaining(src), Remaining(dst));
    var srcLimit := src.limit;
    var s := src.(limit := src.position + toCopy);
    var d := dst;
    // dst.put(s): byte by byte until s has nothing remaining
    while s.position < s.limit
      invariant Valid(s) && s.limit == src.position + toCopy && s.content == src.content
      invariant src.position <= s.position
      invariant d.position == dst.position + (s.position - src.position)
      invariant d.limit == dst.limit && |d.content| == |dst.content| && d.position <= d.limit
      invariant forall k :: dst.position <= k < d.position ==> d.content[k] == src.content[src.position + (k - dst.position)]
      invariant forall k :: 0 <= k < |d.content| && !(dst.position <= k < d.position) ==> d.content[k] == dst.content[k]
      decreases s.limit - s.position
    {
      d := d.(content := d.content[d.position := s.content[s.position]], position := d.position + 1);
      s := s.(position := s.position + 1);
    }
    src' := s.(limit := srcLimit);
    dst' := d;
    n := toCopy;
    Spliced(dst.content, d.content, src.content, dst.position, src.position, n);
  }

  /** The element-wise description of a copy, read as slices. */
  lemma Spliced(before: seq<byte>, after: seq<byte>, from: seq<byte>, at: nat, start: nat, n: nat)
    requires |after| == |before| && at + n <= |before| && start + n <= |from|
    requires forall k :: at <= k < at + n ==> after[k] == from[start + (k - at)]
    requires forall k :: 0 <= k < |after| && !(at <= k < at + n) ==> after[k] == before[k]
    ensures after[at..at + n] == from[start..start + n]
    ensures after[..at] == before[..at]
    ensures after[at + n..] == before[at + n..]
  {
    var piece := after[at..at + n];
    assert forall k :: 0 <= k < n ==> piece[k] == after[at + k];
  }

  // ---------------------------------------------------------------------
  // Header maps
  // ---------------------------------------------------------------------

  /** No two entries share a name: the entries form a map. */
  predicate UniqueNames(m: Headers) {
    forall i, j :: 0 <= i < j < |m| ==> m[i].name != m[j].name
  }

  /** `Map.get` on an insertion-ordered map (names compared exactly). */
  function Get(m: Headers, name: string): (r: Option<seq<string>>)
    ensures r.Some? <==> exists i :: 0 <= i < |m| && m[i].name == name
    ensures r.Some? ==> Header(name, r.value) in m
    decreases |m|
  {
    if |m| == 0 then None
    else if m[0].name == name then Some(m[0].values)
    else
      var r := Get(m[1..], name);
      if r.None? then
        assert forall i :: 1 <= i < |m| ==> m[i] == m[1..][i - 1];
        None
      else
        assert exists i :: 0 <= i < |m| && m[i].name == name by {
          var k :| 0 <= k < |m[1..]| && m[1..][k].name == name;
          assert m[k + 1].name == name;
        }
        r
  }

  /** `LinkedHashMap.put`: replaces the values of an existing name in place,
      or appends a new entry. */
  function Put(m: Headers, name: string, values: seq<string>): (r: Headers)
    requires UniqueNames(m)
    ensures UniqueNames(r)
    ensures Get(r, name) == Some(values)
    ensures forall n :: n != name ==> Get(r, n) == Get(m, n)
    ensures |r| == if Get(m, name).Some? then |m| else |m| + 1
    decreases |m|
  {
    if |m| == 0 then [Header(name, values)]
    else if m[0].name == name then
      var r := [Header(name, values)] + m[1..];
      assert forall i :: 0 < i < |r| ==> r[i] == m[i];
      assert r[1..] == m[1..];
      forall n | n != name
        ensures Get(r, n) == Get(m, n)
      {
        assert Get(r, n) == Get(r[1..], n);
      }
      r
    else
      var t := Put(m[1..], name, values);
      var r := [m[0]] + t;
      assert forall i :: 0 < i < |r| ==> r[i] == t[i - 1];
      assert r[1..] == t;
      forall n | n != name
        ensures Get(r, n) == Get(m, n)
      {
        if m[0].name != n {
          assert Get(r, n) == Get(t, n);
        }
      }
      forall i | 0 <= i < |t|
        ensures t[i].name != m[0].name
      {
        if t[i].name != name {
          assert Get(t, t[i].name).Some?;
          var k :| 0 <= k < |m[1..]| && m[1..][k].name == t[i].name;
          assert m[k + 1].name == t[i].name;
        }
      }
      r
  }

  /** The value paired with `name` last in `pairs`, if any. */
  function LastValue(pairs: seq<string>, name: string): Option<string>
    requires |pairs| % 2 == 0
    decreases |pairs|
  {
    if |pairs| == 0 then None
    else if pairs[|pairs| - 2] == name then Some(pairs[|pairs| - 1])
    else LastValue(pairs[..|pairs| - 2], name)
  }

  function Singleton(v: Option<string>): Option<seq<string>> {
    if v.Some? then Some([v.value]) else None
  }

  /** `m` is the map the pairs describe. */
  ghost predicate Represents(m: Headers, pairs: seq<string>)
    requires |pairs| % 2 == 0
  {
    UniqueNames(m) && forall name :: Get(m, name) == Singleton(LastValue(pairs, name))
  }

  /** Putting the next pair keeps the map in step with the pairs read. */
  lemma PutNext(m: Headers, pairs: seq<string>, i: nat)
    requires i + 2 <= |pairs| && i % 2 == 0
    requires Represents(m, pairs[..i])
    ensures Represents(Put(m, pairs[i], [pairs[i + 1]]), pairs[..i + 2])
  {
    var p := pairs[..i + 2];
    assert p[..|p| - 2] == pairs[..i];
    var m' := Put(m, pairs[i], [pairs[i + 1]]);
    forall name
      ensures Get(m', name) == Singleton(LastValue(p, name))
    {
      if name != pairs[i] {
        assert LastValue(p, name) == LastValue(pairs[..i], name);
      }
    }
  }

  /** `headers(pairs...)`: each even-index name maps to the one-element list
      of the value after it, a later pair for the same name overwriting an
      earlier one. An odd count fails reading past the last name. */
  method HeadersOf(pairs: seq<string>) returns (r: Result<Headers>)
    ensures r.Err? <==> |pairs| % 2 == 1
    // the JVM's message for reading `pairs[len]`
    ensures r.Err? ==> r.error == Error(ArrayIndexOutOfBoundsException,
                                        "Index " + Decimal(|pairs|) + " out of bounds for length " + Decimal(|pairs|))
    ensures r.Ok? ==> UniqueNames(r.value)
    ensures r.Ok? ==> forall name :: Get(r.value, name) == Singleton(LastValue(pairs, name))
  {
    var m: Headers := [];
    var i := 0;
    while i < |pairs|
      invariant 0 <= i <= |pairs| && i % 2 == 0
      invariant Represents(m, pairs[..i])
      decreases |pairs| - i
    {
      if i + 1 >= |pairs| {
        assert |pairs| == i + 1 && |pairs| % 2 == 1;
        return Err(Error(ArrayIndexOutOfBoundsException,
                         "Index " + Decimal(i + 1) + " out of bounds for length " + Decimal(|pairs|)));
      }
      PutNext(m, pairs, i);
      m := Put(m, pairs[i], [pairs[i + 1]]);
      i := i + 2;
    }
    assert i == |pairs| && pairs[..i] == pairs;
    return Ok(m);
  }
}
