/** The AssetImageRequestCoordinator class over the fields it updates in place. Callbacks are appends to
    a log, in the order they are made, and do not call back into the coordinator. */
module ImageRequestCoordinator {
  import opened Text
  import opened MemoryKeys
  import opened ImageScaling
  import opened Wrappers
  import opened CacheOperations
  import opened CacheCoherence
  import opened NegativeCache
  import opened RequestFlights
  import opened FlightDecodes
  import opened ImageRequests
  import AssetCache

  class ImageRequestCoordinator {
    const ttl: int
    const maxNegative: int
    const cache: AssetCache.AssetCache

    var flights: map<Url, Flight>
    var requestKeys: map<nat, Url>
    var negativeCache: Expiries
    var nextRequestId: nat

    /** The callbacks made. */
    var log: seq<Completion>

    /** The fetcher's side: the id it gives the next fetch, and the fetches it was told to cancel. */
    var nextFetchId: nat
    var cancelledFetches: set<nat>

    ghost var cancelled: set<nat>

    ghost function TableState(): Table
      reads this
    {
      Table(flights, requestKeys, nextRequestId, nextFetchId, log, cancelled, cancelledFetches)
    }

    ghost function StateOf(): State
      reads this, cache
    {
      State(TableState(), negativeCache, cache.State(), cache.stored, cache.trusted)
    }

    ghost function SettingsOf(): Settings {
      Settings(cache.config, ttl, maxNegative)
    }

    ghost predicate Valid()
      reads this, cache
    {
      Inv(TableState()) && cache.Valid()
    }

    constructor (cache: AssetCache.AssetCache, ttl: int, maxNegative: int)
      requires cache.Valid()
      ensures Valid() && this.cache == cache
      ensures StateOf() == State(NO_REQUESTS, map[], cache.State(), cache.stored, cache.trusted)
      ensures SettingsOf() == Settings(cache.config, ttl, maxNegative)
    {
      this.cache, this.ttl, this.maxNegative := cache, ttl, maxNegative;
      flights, requestKeys, negativeCache, nextRequestId := map[], map[], map[], 1;
      log, nextFetchId, cancelledFetches, cancelled := [], 1, {}, {};
    }

    // ---- Requests ----

    method RequestCardImage(target: Option<Url>, size: Size, c: Conditions, at: Readings) returns (id: nat)
      requires Valid()
      modifies this, cache
      ensures Valid() && id == old(nextRequestId)
      ensures StateOf() == Requested(SettingsOf(), old(StateOf()), target, size, c, at)
    {
      RequestedKeepsTable(SettingsOf(), StateOf(), target, size, c, at,
                          Requested(SettingsOf(), StateOf(), target, size, c, at).table);
      id := nextRequestId;
      Serve(target, size, c, at);
    }

    method Serve(target: Option<Url>, size: Size, c: Conditions, at: Readings)
      requires cache.Valid()
      modifies this, cache
      ensures cache.Valid()
      ensures StateOf() == Requested(SettingsOf(), old(StateOf()), target, size, c, at)
    {
      match target
      case None => CompleteNow(Refused(NoUrl));
      case Some(url) =>
        var bound := NormalizedBound(size);
        var known := IsNegativeCached(url, at.now, at.later);
        if known {
          CompleteNow(Refused(NotFound));
        } else {
          var cached := cache.Lookup(url, bound, c);
          if cached.Hit? {
            CompleteNow(Delivered(cached.image));
          } else {
            Join(url, bound);
          }
        }
    }

    method CompleteNow(result: Result)
      modifies this`nextRequestId, this`log
      ensures TableState() == Answered(old(TableState()), result)
    {
      log := log + [Completion(nextRequestId, result)];
      nextRequestId := nextRequestId + 1;
    }

    method Join(url: Url, bound: Size)
      modifies this`flights, this`requestKeys, this`nextRequestId, this`nextFetchId
      ensures TableState() == Joined(old(TableState()), url, bound)
    {
      var waiter := Waiter(nextRequestId, bound);
      requestKeys := requestKeys[nextRequestId := url];
      nextRequestId := nextRequestId + 1;
      if url in flights {
        flights := flights[url := flights[url].(waiters := flights[url].waiters + [waiter])];
      } else {
        flights := flights[url := Flight(nextFetchId, [waiter])];
        nextFetchId := nextFetchId + 1;
      }
    }

    // ---- Cancellation ----

    method Cancel(id: nat)
      requires Valid()
      modifies this`flights, this`requestKeys, this`cancelledFetches, this`cancelled
      ensures Valid()
      ensures TableState() == Cancelled(old(TableState()), id)
    {
      CancelledKeeps(TableState(), id);
      Detach(id);
    }

    method Detach(id: nat)
      modifies this`flights, this`requestKeys, this`cancelledFetches, this`cancelled
      ensures TableState() == Cancelled(old(TableState()), id)
    {
      if id in requestKeys {
        var key := requestKeys[id];
        requestKeys := requestKeys - {id};
        cancelled := cancelled + {id};
        if key in flights {
          var rest := EraseWaiter(flights[key].waiters, id);
          if rest == [] {
            cancelledFetches := cancelledFetches + {flights[key].fetchId};
            flights := flights - {key};
          } else {
            flights := flights[key := flights[key].(waiters := rest)];
          }
        }
      }
    }

    method CancelAll()
      requires Valid()
      modifies this`flights, this`requestKeys, this`cancelledFetches, this`cancelled
      ensures Valid()
      ensures TableState() == CancelledAll(old(TableState()))
    {
      CancelledAllKeeps(TableState());
      DetachAll();
    }

    method DetachAll()
      modifies this`flights, this`requestKeys, this`cancelledFetches, this`cancelled
      ensures TableState() == CancelledAll(old(TableState()))
    {
      var keys := flights.Keys;
      while keys != {}
        invariant keys <= flights.Keys
        invariant flights == old(flights) && requestKeys == old(requestKeys) && cancelled == old(cancelled)
        invariant cancelledFetches ==
                  old(cancelledFetches) + set key | key in flights && key !in keys :: flights[key].fetchId
        decreases keys
      {
        var key :| key in keys;
        cancelledFetches := cancelledFetches + {flights[key].fetchId};
        keys := keys - {key};
      }
      assert cancelledFetches == old(cancelledFetches) + FetchIds(flights);
      cancelled := cancelled + requestKeys.Keys;
      requestKeys := map[];
      flights := map[];
    }

    // ---- Results ----

    method HandleFetchFinished(key: Url, fetchId: nat, result: FetchResult, each: Each, at: Readings)
      requires Valid() && MayHappen(cache.apart, Finish(key, fetchId, result, each, at))
      modifies this, cache
      ensures Valid()
      ensures StateOf() == Finished(SettingsOf(), old(StateOf()), key, fetchId, result, each, at)
    {
      FinishedKeepsTable(SettingsOf(), StateOf(), key, fetchId, result, each, at);
      if key in flights && flights[key].fetchId == fetchId {
        FinishFlight(key, result, each, at);
      }
    }

    method FinishFlight(key: Url, result: FetchResult, each: Each, at: Readings)
      requires key in flights && cache.Valid()
      requires MayHappen(cache.apart, Finish(key, flights[key].fetchId, result, each, at))
      modifies this, cache
      ensures cache.Valid()
      ensures StateOf() == Finished(SettingsOf(), old(StateOf()), key, old(flights[key].fetchId), result, each, at)
    {
      var waiters := flights[key].waiters;
      flights := flights - {key};
      match result
      case FetchFailed(notFound) => RefuseWaiters(key, waiters, notFound, at);
      case Fetched(bytes, contentType) =>
        var bounds, images, failed := DecodeFor(Payload(key, bytes, contentType), waiters, each);
        CompleteWaiters(waiters, Results(waiters, bounds, images, failed));
    }

    method RefuseWaiters(key: Url, waiters: seq<Waiter>, notFound: bool, at: Readings)
      modifies this`requestKeys, this`log, this`negativeCache
      ensures requestKeys == old(requestKeys) - IdsOf(waiters)
      ensures log == old(log) +
                     Completions(waiters, SameFor(waiters, Refused(if notFound then NotFound else FetchError)))
      ensures negativeCache ==
              if notFound then NotFoundRemembered(old(negativeCache), maxNegative, ttl, key, at.now, at.later, at.last)
              else old(negativeCache)
    {
      if notFound {
        RememberNotFound(key, at);
      }
      CompleteWaiters(waiters, SameFor(waiters, Refused(if notFound then NotFound else FetchError)));
    }

    /** The first bound goes through store(), which writes; further ones only add memory entries. */
    method DecodeOne(p: Payload, bound: Size, c: Conditions, first: bool) returns (outcome: Outcome)
      requires cache.Valid() && c.now <= MAX_INT64 && p.url in cache.apart && p.bytes in cache.apart
      requires first || (p.url in cache.stored && cache.stored[p.url] == p.bytes)
      modifies cache
      ensures cache.Valid()
      ensures cache.stored == if first then Renewed(old(cache.stored), p.url, p.bytes, outcome) else old(cache.stored)
      ensures cache.ScopeOf() == if first then Widened(old(cache.ScopeOf()), p.url, outcome) else old(cache.ScopeOf())
      ensures (cache.State(), outcome) ==
              if first then Store(cache.config, old(cache.State()), p.url, p.bytes, p.contentType, bound, c)
              else StoreMemoryOnly(cache.config, old(cache.State()), p.url, p.bytes, bound, c)
    {
      if first {
        outcome := cache.Store(p.url, p.bytes, p.contentType, bound, c);
      } else {
        outcome := cache.StoreMemoryOnly(p.url, p.bytes, bound, c);
      }
    }

    /** One attempt, and what it adds. */
    method DecodeNext(p: Payload, bound: Size, c: Conditions, bounds: seq<Size>, images: seq<Image>, ghost d: Decodes)
      returns (bounds': seq<Size>, images': seq<Image>, failed: bool)
      requires cache.Valid() && c.now <= MAX_INT64 && p.url in cache.apart && p.bytes in cache.apart
      requires bounds != [] ==> p.url in cache.stored && cache.stored[p.url] == p.bytes
      requires d == Decodes(cache.State(), bounds, images, false, d.attempts)
      modifies cache
      ensures cache.Valid()
      ensures Decodes(cache.State(), bounds', images', failed, d.attempts + 1) == Attempt(cache.config, p, bound, c, d)
      ensures cache.stored == if bounds' == bounds then old(cache.stored) else old(cache.stored)[p.url := p.bytes]
      ensures cache.ScopeOf() ==
              if bounds' == bounds || bounds != [] then old(cache.ScopeOf()) else Covering(old(cache.ScopeOf()), p.url)
      ensures (failed && bounds' == bounds && images' == images) ||
              (!failed && |bounds'| == |bounds| + 1 && |images'| == |images| + 1)
    {
      bounds', images', failed := bounds, images, false;
      var outcome := DecodeOne(p, bound, c, bounds == []);
      match outcome {
        case Failed(_) => failed := true;
        case Decoded(image) => bounds', images' := bounds + [bound], images + [image];
      }
    }

    /** The decode loop: ends at the first failure. */
    method DecodeFor(p: Payload, waiters: seq<Waiter>, each: Each)
      returns (bounds: seq<Size>, images: seq<Image>, failed: bool)
      requires cache.Valid() && (forall k :: each(k).now <= MAX_INT64)
      requires p.url in cache.apart && p.bytes in cache.apart
      modifies cache
      ensures cache.Valid()
      ensures var d := DecodedFor(cache.config, p, waiters, each, old(cache.State()), |waiters|);
              && (cache.State(), bounds, images, failed) == (d.cache, d.bounds, d.images, d.failed)
              && |bounds| == |images|
              && cache.stored == StoredBy(old(cache.stored), p, d)
              && cache.ScopeOf() == ScopeBy(old(cache.ScopeOf()), p, d)
    {
      bounds, images, failed := [], [], false;
      var i, attempts := 0, 0;
      ghost var before, stored, scope := cache.State(), cache.stored, cache.ScopeOf();
      ghost var d := Decodes(before, [], [], false, 0);
      while i < |waiters| && !failed
        invariant i <= |waiters| && |bounds| == |images| && cache.Valid()
        invariant d == Decodes(cache.State(), bounds, images, failed, attempts)
        invariant IsDecoded(cache.config, p, waiters, each, before, i, d)
        invariant cache.stored == if bounds == [] then stored else stored[p.url := p.bytes]
        invariant cache.ScopeOf() == if bounds == [] then scope else Covering(scope, p.url)
      {
        var bound := waiters[i].bound;
        ghost var was := d;
        if bound !in bounds {
          bounds, images, failed := DecodeNext(p, bound, each(attempts), bounds, images, d);
          attempts := attempts + 1;
          d := Decodes(cache.State(), bounds, images, failed, attempts);
        }
        OneMoreDecoded(cache.config, p, waiters, each, before, i, was, d);
        i := i + 1;
      }
      DecodesEnd(cache.config, p, waiters, each, before, i, d);
    }

    method CompleteWaiters(waiters: seq<Waiter>, results: seq<Result>)
      requires |results| == |waiters|
      modifies this`requestKeys, this`log
      ensures requestKeys == old(requestKeys) - IdsOf(waiters)
      ensures log == old(log) + Completions(waiters, results)
    {
      var i := 0;
      ghost var keys, called := requestKeys - IdsOf(waiters), log + Completions(waiters, results);
      CompleteStart(requestKeys, log, waiters, results);
      while i < |waiters|
        invariant i <= |waiters| && Completes(requestKeys, log, waiters, results, i, keys, called)
      {
        CompleteNext(requestKeys, log, waiters, results, i, keys, called);
        requestKeys := requestKeys - {waiters[i].id};
        log := log + [Completion(waiters[i].id, results[i])];
        i := i + 1;
      }
      CompleteEnd(requestKeys, log, waiters, results, keys, called);
    }

    // ---- The negative cache ----

    method PruneNegativeCache(now: int)
      modifies this`negativeCache
      ensures negativeCache == Pruned(old(negativeCache), maxNegative, now)
    {
      ghost var before := negativeCache;
      var keys := negativeCache.Keys;
      while keys != {}
        invariant keys <= negativeCache.Keys <= before.Keys
        invariant forall key | key in negativeCache :: negativeCache[key] == before[key]
        invariant forall key | key in before :: key in negativeCache <==> key in keys || before[key] > now
        decreases keys
      {
        var key :| key in keys;
        if negativeCache[key] <= now {
          negativeCache := negativeCache - {key};
        }
        keys := keys - {key};
      }
      assert negativeCache == Unexpired(before, now);
      while maxNegative >= 0 && |negativeCache| > maxNegative
        invariant Capped(negativeCache, maxNegative) == Pruned(before, maxNegative, now)
        decreases |negativeCache|
      {
        var oldest := FindOldest(negativeCache);
        OldestIsUnique(negativeCache, oldest, Oldest(negativeCache));
        RemovalShrinks(negativeCache, oldest);
        negativeCache := negativeCache - {oldest};
      }
    }

    method IsNegativeCached(key: Url, now: int, later: int) returns (known: bool)
      modifies this`negativeCache
      ensures (negativeCache, known) == Asked(old(negativeCache), maxNegative, key, now, later)
    {
      PruneNegativeCache(now);
      known := key in negativeCache && later < negativeCache[key];
      if key in negativeCache && !known {
        negativeCache := negativeCache - {key};
      }
    }

    method RememberNotFound(key: Url, at: Readings)
      modifies this`negativeCache
      ensures negativeCache == NotFoundRemembered(old(negativeCache), maxNegative, ttl, key, at.now, at.later, at.last)
    {
      if ttl > 0 && maxNegative > 0 {
        PruneNegativeCache(at.now);
        negativeCache := negativeCache[key := at.later + ttl];
        PruneNegativeCache(at.last);
      }
    }
  }

  predicate DecodedAt(config: Config, p: Payload, waiters: seq<Waiter>, each: Each, cache: Cache, n: nat, d: Decodes) {
    n <= |waiters| && d == DecodedFor(config, p, waiters, each, cache, n)
  }

  /** The decodes after the first `i` waiters are `d`. The quantifier keeps them folded in the loop. */
  ghost predicate IsDecoded(config: Config, p: Payload, waiters: seq<Waiter>, each: Each, cache: Cache, i: nat,
                            d: Decodes)
  {
    forall n | n == i :: DecodedAt(config, p, waiters, each, cache, n, d)
  }

  lemma OneMoreDecoded(config: Config, p: Payload, waiters: seq<Waiter>, each: Each, cache: Cache, i: nat, d: Decodes,
                       after: Decodes)
    requires i < |waiters| && IsDecoded(config, p, waiters, each, cache, i, d) && !d.failed
    requires var bound := waiters[i].bound;
             after == if bound in d.bounds then d else Attempt(config, p, bound, each(d.attempts), d)
    ensures IsDecoded(config, p, waiters, each, cache, i + 1, after)
  {
    assert DecodedAt(config, p, waiters, each, cache, i, d);
  }

  lemma DecodesEnd(config: Config, p: Payload, waiters: seq<Waiter>, each: Each, cache: Cache, i: nat, d: Decodes)
    requires i <= |waiters| && IsDecoded(config, p, waiters, each, cache, i, d) && (i == |waiters| || d.failed)
    ensures d == DecodedFor(config, p, waiters, each, cache, |waiters|)
  {
    assert DecodedAt(config, p, waiters, each, cache, i, d);
    FailureStays(config, p, waiters, each, cache, i, |waiters|, d);
  }

  /** What is still to be done about the waiters from the i-th on, to end with `keys'` and `log'`. */
  predicate Completes(keys: map<nat, Url>, log: seq<Completion>, waiters: seq<Waiter>, results: seq<Result>, i: nat,
                      keys': map<nat, Url>, log': seq<Completion>)
    requires i <= |waiters| == |results|
  {
    keys - IdsOf(waiters[i..]) == keys' && log + Completions(waiters[i..], results[i..]) == log'
  }

  lemma CompleteStart(keys: map<nat, Url>, log: seq<Completion>, waiters: seq<Waiter>, results: seq<Result>)
    requires |waiters| == |results|
    ensures Completes(keys, log, waiters, results, 0, keys - IdsOf(waiters), log + Completions(waiters, results))
  {
    assert waiters[0..] == waiters && results[0..] == results;
  }

  lemma CompleteNext(keys: map<nat, Url>, log: seq<Completion>, waiters: seq<Waiter>, results: seq<Result>, i: nat,
                     keys': map<nat, Url>, log': seq<Completion>)
    requires i < |waiters| == |results| && Completes(keys, log, waiters, results, i, keys', log')
    ensures Completes(keys - {waiters[i].id}, log + [Completion(waiters[i].id, results[i])], waiters, results, i + 1,
                      keys', log')
  {
    assert waiters[i..][1..] == waiters[i + 1..] && results[i..][1..] == results[i + 1..];
    assert IdsOf(waiters[i..]) == {waiters[i].id} + IdsOf(waiters[i + 1..]);
  }

  lemma CompleteEnd(keys: map<nat, Url>, log: seq<Completion>, waiters: seq<Waiter>, results: seq<Result>,
                    keys': map<nat, Url>, log': seq<Completion>)
    requires |waiters| == |results| && Completes(keys, log, waiters, results, |waiters|, keys', log')
    ensures keys == keys' && log == log'
  {
    assert IdsOf(waiters[|waiters|..]) == {} && Completions(waiters[|waiters|..], results[|waiters|..]) == [];
  }

  lemma RemovalShrinks(m: Expiries, key: Url)
    requires key in m
    ensures |m - {key}| == |m| - 1
  {
    assert m.Keys == (m - {key}).Keys + {key};
    assert |m.Keys| == |m| && |(m - {key}).Keys| == |m - {key}|;
  }

  /** The search for the waiter to erase. */
  method EraseWaiter(waiters: seq<Waiter>, id: nat) returns (rest: seq<Waiter>)
    ensures rest == WithoutWaiter(waiters, id)
  {
    var i := 0;
    while i < |waiters| && waiters[i].id != id
      invariant i <= |waiters|
      invariant waiters[..i] + WithoutWaiter(waiters[i..], id) == WithoutWaiter(waiters, id)
    {
      SearchOn(waiters, id, i);
      i := i + 1;
    }
    rest := waiters[..i];
    if i < |waiters| {
      assert waiters[i..][1..] == waiters[i + 1..];
      rest := rest + waiters[i + 1..];
    }
  }

  lemma SearchOn(waiters: seq<Waiter>, id: nat, i: nat)
    requires i < |waiters| && waiters[i].id != id
    ensures waiters[..i + 1] + WithoutWaiter(waiters[i + 1..], id) == waiters[..i] + WithoutWaiter(waiters[i..], id)
  {
    assert waiters[i..][1..] == waiters[i + 1..] && waiters[..i + 1] == waiters[..i] + [waiters[i]];
  }

  lemma SkippedOnFailure(config: CacheOperations.Config, p: Payload, waiters: seq<Waiter>, each: Each, cache: Cache,
                         n: nat, d: Decodes)
    requires 0 < n <= |waiters| && d == DecodedFor(config, p, waiters, each, cache, n - 1) && d.failed
    ensures DecodedFor(config, p, waiters, each, cache, n) == d
  {
  }

  lemma {:induction false} FailureStays(config: CacheOperations.Config, p: Payload, waiters: seq<Waiter>, each: Each,
                                        cache: Cache, i: nat, n: nat, d: Decodes)
    requires i <= n <= |waiters| && d == DecodedFor(config, p, waiters, each, cache, i) && (i == n || d.failed)
    ensures DecodedFor(config, p, waiters, each, cache, n) == d
    decreases n
  {
    if i == n {
    } else {
      FailureStays(config, p, waiters, each, cache, i, n - 1, d);
      SkippedOnFailure(config, p, waiters, each, cache, n, d);
    }
  }
}
