/** `ServiceCache.getProviders`: a cache that loads a service's providers
    the first time they are asked for and returns the same list afterwards.
    Modelled sequentially: `loading` stands for "the lock is held by the
    current thread", and what other threads do is reduced to the value they
    may have stored between the unlocked read and the locked re-read. */
module ServiceCache {
  import opened Wrappers

  const RECURSIVE_LOADING: string := "recursive loading of providers"

  /** The `providers` field and whether the current thread holds the lock. */
  datatype Cache<S> = Cache(providers: Option<seq<S>>, loading: bool)

  /** How a call of `loadProviders` ends. */
  datatype Outcome<S> = Loaded(list: seq<S>) | Threw(error: Error)

  /** The environment of one `getProviders` call: what another thread stored
      in the field before the lock was taken, and how loading would end. */
  datatype Call<S> = Call(racer: Option<seq<S>>, load: Outcome<S>)

  /** The cache after the call, what the call returned or threw, and whether
      it ran `loadProviders`. */
  datatype Return<S> = Return(cache: Cache<S>, result: Result<seq<S>>, loaded: bool)

  function GetProviders<S>(c: Cache<S>, call: Call<S>): (r: Return<S>)
    // the lock is released on every exit, normal or exceptional
    ensures r.cache.loading == c.loading
    // a filled cache is returned as it is, without loading
    ensures c.providers.Some? ==> r == Return(c, Ok(c.providers.value), false)
    // the recursion guard: a call made while this thread loads fails
    ensures c.providers.None? && c.loading
            ==> r == Return(c, Err(Error(ServiceConfigurationError, RECURSIVE_LOADING)), false)
    // the re-read under the lock: a list stored meanwhile is taken, not reloaded
    ensures c.providers.None? && !c.loading && call.racer.Some?
            ==> r == Return(c.(providers := call.racer), Ok(call.racer.value), false)
    // loading happens only on an empty cache, outside a load, with nothing stored meanwhile
    ensures r.loaded <==> c.providers.None? && !c.loading && call.racer.None?
    // a failed load leaves the cache empty; a successful one stores the list
    ensures r.loaded ==> match call.load
                         case Loaded(list) => r.cache.providers == Some(list) && r.result == Ok(list)
                         case Threw(e) => r.cache.providers.None? && r.result == Err(e)
    // what is returned is what is cached
    ensures r.result.Ok? ==> r.cache.providers == Some(r.result.value)
  {
    match c.providers
    case Some(cached) => Return(c, Ok(cached), false)
    case None =>
      if c.loading then Return(c, Err(Error(ServiceConfigurationError, RECURSIVE_LOADING)), false)
      else
        match call.racer
        case Some(cached) => Return(c.(providers := Some(cached)), Ok(cached), false)
        case None =>
          match call.load
          case Loaded(list) => Return(Cache(Some(list), false), Ok(list), true)
          case Threw(e) => Return(Cache(None, false), Err(e), true)
  }

  /** A run of calls: the final cache, each call's result, and how many
      calls stored a freshly loaded list. */
  datatype Trace<S> = Trace(cache: Cache<S>, results: seq<Result<seq<S>>>, stores: nat)

  function Run<S>(c: Cache<S>, calls: seq<Call<S>>): (t: Trace<S>)
    ensures |t.results| == |calls|
    ensures t.cache.loading == c.loading
    decreases |calls|
  {
    if |calls| == 0 then Trace(c, [], 0)
    else
      var r := GetProviders(c, calls[0]);
      var rest := Run(r.cache, calls[1..]);
      Trace(rest.cache, [r.result] + rest.results, rest.stores + if r.loaded && r.result.Ok? then 1 else 0)
  }

  // ---------------------------------------------------------------------
  // Properties of runs
  // ---------------------------------------------------------------------

  /** Once filled, the cache never changes and every call returns its list. */
  lemma {:induction false} RunFromFilled<S>(c: Cache<S>, calls: seq<Call<S>>)
    requires c.providers.Some?
    ensures var t := Run(c, calls);
            && t.cache == c && t.stores == 0
            && forall i :: 0 <= i < |calls| ==> t.results[i] == Ok(c.providers.value)
    decreases |calls|
  {
    if |calls| > 0 {
      RunFromFilled(c, calls[1..]);
    }
  }

  /** However the calls interleave with loads that fail and with other
      threads, at most one call stores a loaded list, and none does once
      the cache is filled. */
  lemma {:induction false} StoresAtMostOnce<S>(c: Cache<S>, calls: seq<Call<S>>)
    ensures Run(c, calls).stores <= 1
    ensures c.providers.Some? ==> Run(c, calls).stores == 0
    decreases |calls|
  {
    if |calls| > 0 {
      var r := GetProviders(c, calls[0]);
      StoresAtMostOnce(r.cache, calls[1..]);
      if r.loaded && r.result.Ok? {
        RunFromFilled(r.cache, calls[1..]);
      }
    }
  }

  /** Every call of a run that returns normally returns the same list, and
      that list is what the cache holds at the end. */
  lemma {:induction false} ResultsAgree<S>(c: Cache<S>, calls: seq<Call<S>>, i: nat)
    requires i < |calls| && Run(c, calls).results[i].Ok?
    ensures Run(c, calls).cache.providers == Some(Run(c, calls).results[i].value)
    decreases |calls|
  {
    var r := GetProviders(c, calls[0]);
    var rest := Run(r.cache, calls[1..]);
    assert Run(c, calls).cache == rest.cache && Run(c, calls).results == [r.result] + rest.results;
    if i == 0 {
      RunFromFilled(r.cache, calls[1..]);
    } else {
      assert Run(c, calls).results[i] == rest.results[i - 1];
      ResultsAgree(r.cache, calls[1..], i - 1);
    }
  }

  /** A failed load leaves the cache as it found it, so the next call loads
      again, and can succeed. */
  lemma RetryAfterFailure<S>(e: Error, list: seq<S>)
    ensures var first := GetProviders(Cache(None, false), Call(None, Threw(e)));
            var second := GetProviders(first.cache, Call(None, Loaded(list)));
            && first.result == Err(e) && first.cache == Cache(None, false)
            && second.loaded && second.result == Ok(list) && second.cache == Cache(Some(list), false)
  {
  }
}
