/** AssetImageRequestCoordinator as a state machine: requests, cancellations and fetch results in any
    order, over the books, the negative cache and the asset cache. */
module ImageRequests {
  import opened Text
  import opened EntryFormat
  import opened MemoryKeys
  import opened ImageScaling
  import opened Wrappers
  import opened CacheOperations
  import opened CacheCoherence
  import opened NegativeCache
  import opened RequestFlights
  import opened FlightDecodes

  datatype Settings = Settings(cache: Config, ttl: int, maxNegative: int)

  datatype FetchResult = Fetched(bytes: Bytes, contentType: Bytes) | FetchFailed(notFound: bool)

  /** Three successive readings of the clock. */
  datatype Readings = Readings(now: int, later: int, last: int)

  /** `stored` and `trusted` are history: the bytes last stored for each URL, and the URLs the cache
      answers for. */
  datatype State = State(table: Table, negative: Expiries, cache: Cache, stored: Stored, trusted: set<Url>)

  const START := State(NO_REQUESTS, map[], FRESH, map[], {})

  datatype Event =
    | Request(target: Option<Url>, size: Size, c: Conditions, at: Readings)
    | Cancel(id: nat)
    | CancelAll
    | Finish(key: Url, fetchId: nat, result: FetchResult, each: Each, at: Readings)

  // ---- Steps ----

  /** requestCardImage: answered at once from the negative cache or the cache, or made to wait. */
  ghost function Requested(settings: Settings, s: State, target: Option<Url>, size: Size, c: Conditions,
                           at: Readings): State {
    match target
    case None => s.(table := Answered(s.table, Refused(NoUrl)))
    case Some(url) =>
      var bound := NormalizedBound(size);
      var (negative, known) := Asked(s.negative, settings.maxNegative, url, at.now, at.later);
      if known then s.(negative := negative, table := Answered(s.table, Refused(NotFound)))
      else
        var (cache, r) := Lookup(settings.cache, s.cache, url, bound, c);
        s.(negative := negative, cache := cache,
           table := if r.Hit? then Answered(s.table, Delivered(r.image)) else Joined(s.table, url, bound))
  }

  function SameFor(waiters: seq<Waiter>, result: Result): (results: seq<Result>)
    ensures |results| == |waiters| && forall i | 0 <= i < |results| :: results[i] == result
  {
    seq(|waiters|, i => result)
  }

  /** handleFetchFinished. */
  ghost function Finished(settings: Settings, s: State, key: Url, fetchId: nat, result: FetchResult, each: Each,
                          at: Readings): State {
    if !IsCurrent(s.table, key, fetchId) then s
    else
      var waiters := s.table.flights[key].waiters;
      match result
      case FetchFailed(notFound) =>
        s.(negative :=
             if notFound
             then NotFoundRemembered(s.negative, settings.maxNegative, settings.ttl, key, at.now, at.later, at.last)
             else s.negative,
           table := Settled(s.table, key, SameFor(waiters, Refused(if notFound then NotFound else FetchError))))
      case Fetched(bytes, contentType) =>
        var p := Payload(key, bytes, contentType);
        var d := DecodedFor(settings.cache, p, waiters, each, s.cache, |waiters|);
        SameLength(settings.cache, p, waiters, each, s.cache);
        s.(cache := d.cache, stored := StoredBy(s.stored, p, d),
           trusted := ScopeBy(Scope({}, s.trusted), p, d).trusted,
           table := Settled(s.table, key, Results(waiters, d.bounds, d.images, d.failed)))
  }

  lemma SameLength(config: Config, p: Payload, waiters: seq<Waiter>, each: Each, cache: Cache)
    ensures var d := DecodedFor(config, p, waiters, each, cache, |waiters|); |d.bounds| == |d.images|
  {
    EachWaiterItsBound(config, p, waiters, each, cache);
  }

  ghost function Step(settings: Settings, s: State, event: Event): State {
    match event
    case Request(target, size, c, at) => Requested(settings, s, target, size, c, at)
    case Cancel(id) => s.(table := Cancelled(s.table, id))
    case CancelAll => s.(table := CancelledAll(s.table))
    case Finish(key, fetchId, result, each, at) => Finished(settings, s, key, fetchId, result, each, at)
  }

  ghost function After(settings: Settings, start: State, events: seq<Event>): State {
    if events == [] then start else Step(settings, After(settings, start, events[..|events| - 1]), events[|events| - 1])
  }

  // ---- The books over every run, whatever the cache does ----

  lemma StepKeepsTable(settings: Settings, s: State, event: Event)
    requires Inv(s.table)
    ensures Inv(Step(settings, s, event).table)
  {
    var after := Step(settings, s, event);
    match event
    case Request(target, size, c, at) => RequestedKeepsTable(settings, s, target, size, c, at, after.table);
    case Cancel(id) => CancelledKeeps(s.table, id);
    case CancelAll => CancelledAllKeeps(s.table);
    case Finish(key, fetchId, result, each, at) => FinishedKeepsTable(settings, s, key, fetchId, result, each, at);
  }

  /** A request is answered at once or waits. */
  lemma RequestedTable(settings: Settings, s: State, target: Option<Url>, size: Size, c: Conditions, at: Readings,
                       after: Table)
    returns (answer: Option<Result>)
    requires after == Requested(settings, s, target, size, c, at).table
    ensures match answer
            case Some(result) => after == Answered(s.table, result)
            case None => target.Some? && after == Joined(s.table, target.value, NormalizedBound(size))
  {
    if target.None? {
      answer := Some(Refused(NoUrl));
    } else if Asked(s.negative, settings.maxNegative, target.value, at.now, at.later).1 {
      answer := Some(Refused(NotFound));
    } else {
      var r := Lookup(settings.cache, s.cache, target.value, NormalizedBound(size), c).1;
      answer := if r.Hit? then Some(Delivered(r.image)) else None;
    }
  }

  lemma RequestedKeepsTable(settings: Settings, s: State, target: Option<Url>, size: Size, c: Conditions,
                            at: Readings, after: Table)
    requires Inv(s.table) && after == Requested(settings, s, target, size, c, at).table
    ensures Inv(after)
  {
    var answer := RequestedTable(settings, s, target, size, c, at, after);
    match answer
    case Some(result) => AnsweredKeeps(s.table, result);
    case None => JoinedKeeps(s.table, target.value, NormalizedBound(size));
  }

  lemma FinishedKeepsTable(settings: Settings, s: State, key: Url, fetchId: nat, result: FetchResult, each: Each,
                           at: Readings)
    requires Inv(s.table)
    ensures Inv(Finished(settings, s, key, fetchId, result, each, at).table)
  {
    if IsCurrent(s.table, key, fetchId) {
      var waiters := s.table.flights[key].waiters;
      var after := Finished(settings, s, key, fetchId, result, each, at).table;
      var results :| |results| == |waiters| && after == Settled(s.table, key, results);
      SettledKeeps(s.table, key, results);
    }
  }

  lemma StartKeepsBooks()
    ensures Inv(NO_REQUESTS)
  {
  }

  /** In every state of every run of requests, cancellations and fetch results, late and repeated ones
      included: each issued request is waiting, cancelled or completed once; its key is that of the one
      flight it waits in; no flight is empty; and flights have distinct fetches, none of them cancelled. */
  lemma {:induction false} RunKeepsBooks(settings: Settings, start: State, events: seq<Event>)
    requires Inv(start.table)
    ensures forall t | t == After(settings, start, events).table :: Inv(t)
  {
    if events == [] {
    } else {
      var before := events[..|events| - 1];
      RunKeepsBooks(settings, start, before);
      assert Inv(After(settings, start, before).table);
      StepKeepsTable(settings, After(settings, start, before), events[|events| - 1]);
    }
  }

  lemma StepKeepsLine(settings: Settings, s: State, event: Event, after: Table)
    requires Inv(s.table) && InLine(s.table.flights) && after == Step(settings, s, event).table
    ensures InLine(after.flights)
  {
    match event
    case Request(target, size, c, at) =>
      var answer := RequestedTable(settings, s, target, size, c, at, after);
      if answer.None? {
        JoinedInLine(s.table, target.value, NormalizedBound(size));
      }
    case Cancel(id) => CancelledInLine(s.table, id);
    case CancelAll =>
    case Finish(key, fetchId, result, each, at) => SettledTable(settings, s, event, after);
  }

  /** In every state of every run the waiters of each flight stand in the order of their requests, so
      the order in which a result calls them back is that order. */
  lemma {:induction false} WaitersInLine(settings: Settings, start: State, events: seq<Event>)
    requires Inv(start.table) && InLine(start.table.flights)
    ensures InLine(After(settings, start, events).table.flights)
  {
    if events == [] {
    } else {
      var before := events[..|events| - 1];
      WaitersInLine(settings, start, before);
      RunKeepsBooks(settings, start, before);
      assert Inv(After(settings, start, before).table);
      StepKeepsLine(settings, After(settings, start, before), events[|events| - 1],
          After(settings, start, events).table);
    }
  }

  /** The fetch is over: its flight was settled or dropped. */
  predicate FetchIsOver(t: Table, fetchId: nat) {
    fetchId < t.nextFetch && forall key | key in t.flights :: t.flights[key].fetchId != fetchId
  }

  lemma SettledTable(settings: Settings, s: State, event: Event, after: Table)
    requires event.Finish? && after == Step(settings, s, event).table
    ensures after == s.table ||
            (&& event.key in s.table.flights && after.flights == s.table.flights - {event.key}
             && after.cancelled == s.table.cancelled && after.nextFetch == s.table.nextFetch
             && after.nextRequest == s.table.nextRequest && s.table.log <= after.log)
  {
  }

  /** What no step takes back: completions, cancellations, and the end of a fetch. */
  predicate NoLess(t: Table, u: Table) {
    t.log <= u.log && t.cancelled <= u.cancelled && t.nextRequest <= u.nextRequest && t.nextFetch <= u.nextFetch
  }

  lemma StepLosesNothing(settings: Settings, s: State, event: Event, after: Table, fetchId: nat)
    requires after == Step(settings, s, event).table
    ensures NoLess(s.table, after)
    ensures FetchIsOver(s.table, fetchId) ==> FetchIsOver(after, fetchId)
  {
    if event.Finish? {
      SettledTable(settings, s, event, after);
    } else if event.Request? {
      var answer := RequestedTable(settings, s, event.target, event.size, event.c, event.at, after);
    }
  }

  lemma {:induction false} RunLosesNothing(settings: Settings, start: State, events: seq<Event>, fetchId: nat)
    ensures NoLess(start.table, After(settings, start, events).table)
    ensures FetchIsOver(start.table, fetchId) ==> FetchIsOver(After(settings, start, events).table, fetchId)
  {
    if events == [] {
    } else {
      var before := events[..|events| - 1];
      RunLosesNothing(settings, start, before, fetchId);
      StepLosesNothing(settings, After(settings, start, before), events[|events| - 1],
                       After(settings, start, events).table, fetchId);
    }
  }

  /** Once a fetch is over, whatever happens next, another result under its id changes nothing: it never
      completes a newer flight for the same URL. */
  lemma LateResultIgnored(settings: Settings, start: State, events: seq<Event>, s: State, late: Event, next: State)
    requires late.Finish? && FetchIsOver(start.table, late.fetchId)
    requires s == After(settings, start, events) && next == Step(settings, s, late)
    ensures next == s
  {
    RunLosesNothing(settings, start, events, late.fetchId);
  }

  /** A result ends its fetch, and so does cancelling the last waiter of a flight. */
  lemma ResultEndsFetch(settings: Settings, s: State, key: Url, fetchId: nat, result: FetchResult, each: Each,
                        at: Readings)
    requires Inv(s.table) && IsCurrent(s.table, key, fetchId)
    ensures FetchIsOver(Step(settings, s, Finish(key, fetchId, result, each, at)).table, fetchId)
  {
    SettledTable(settings, s, Finish(key, fetchId, result, each, at),
        Step(settings, s, Finish(key, fetchId, result, each, at)).table);
  }

  lemma LastCancelEndsFetch(settings: Settings, s: State, id: nat)
    requires Inv(s.table) && id in s.table.requestKeys
    ensures var (flight, after) := (s.table.flights[s.table.requestKeys[id]], Step(settings, s, Cancel(id)).table);
            IdsOf(flight.waiters) == {id} <==>
                flight.fetchId in after.cancelledFetches && FetchIsOver(after, flight.fetchId)
  {
    var key := s.table.requestKeys[id];
    var waiters := s.table.flights[key].waiters;
    assert FlightOk(key, s.table.flights[key], s.table.requestKeys);
    WithoutWaiterIds(waiters, id);
    var rest := WithoutWaiter(waiters, id);
    assert rest == [] <==> IdsOf(rest) == {};
    assert IdsOf(waiters) == {id} <==> IdsOf(waiters) - {id} == {};
  }

  ghost predicate KeepsOutcome(t: Table, u: Table, id: nat) {
    && (id in t.cancelled ==> id in u.cancelled && Count(u.log, id) == 0)
    && (Count(t.log, id) > 0 ==> Count(u.log, id) == 1 && id !in u.cancelled && id !in u.requestKeys)
  }

  /** A cancelled request is never completed, and a completed one never again nor cancelled. */
  lemma OutcomeIsFinal(settings: Settings, start: State, events: seq<Event>, s: State, id: nat)
    requires Inv(start.table) && s == After(settings, start, events)
    ensures KeepsOutcome(start.table, s.table, id)
  {
    var (before, after) := (start.table, s.table);
    RunKeepsBooks(settings, start, events);
    assert Inv(s.table);
    RunLosesNothing(settings, start, events, 0);
    assert Places(after.requestKeys, after.cancelled, after.log, id) == if 0 < id < after.nextRequest then 1 else 0;
    assert after.log == before.log + after.log[|before.log|..];
    CountAppended(before.log, after.log[|before.log|..], id);
  }

  // ---- The cache over every run ----

  /** Clock readings fit the header's field, and the digest of what is stored differs from others'. */
  ghost predicate MayHappen(apart: set<Bytes>, event: Event) {
    event.Finish? ==>
      && (forall k :: event.each(k).now <= MAX_INT64)
      && (event.result.Fetched? ==> event.key in apart && event.result.bytes in apart)
  }

  ghost predicate CacheOk(settings: Settings, apart: set<Bytes>, s: State) {
    && IsConfig(settings.cache, Scope(apart, s.trusted))
    && Coherent(settings.cache, Scope(apart, s.trusted), s.cache, s.stored)
  }

  lemma RequestedCache(settings: Settings, s: State, target: Option<Url>, size: Size, c: Conditions, at: Readings)
    ensures var after := Requested(settings, s, target, size, c, at);
            && after.stored == s.stored && after.trusted == s.trusted
            && (after.cache == s.cache ||
                  (target.Some? &&
                   after.cache == Lookup(settings.cache, s.cache, target.value, NormalizedBound(size), c).0))
  {
  }

  lemma FinishedCache(settings: Settings, s: State, key: Url, fetchId: nat, result: FetchResult, each: Each,
                      at: Readings)
    ensures var after := Finished(settings, s, key, fetchId, result, each, at);
            if IsCurrent(s.table, key, fetchId) && result.Fetched?
            then
              var (p, waiters) := (Payload(key, result.bytes, result.contentType), s.table.flights[key].waiters);
              var d := DecodedFor(settings.cache, p, waiters, each, s.cache, |waiters|);
              && after.cache == d.cache && after.stored == StoredBy(s.stored, p, d)
              && forall apart :: Scope(apart, after.trusted) == ScopeBy(Scope(apart, s.trusted), p, d)
            else after.cache == s.cache && after.stored == s.stored && after.trusted == s.trusted
  {
  }

  lemma RequestKeepsCache(settings: Settings, apart: set<Bytes>, s: State, event: Event, after: State)
    requires CacheOk(settings, apart, s) && event.Request? && after == Step(settings, s, event)
    ensures CacheOk(settings, apart, after)
  {
    var Request(target, size, c, at) := event;
    RequestedCache(settings, s, target, size, c, at);
    if after.cache != s.cache {
      LookupKeeps(settings.cache, Scope(apart, s.trusted), s.cache, s.stored, target.value, NormalizedBound(size), c);
    }
  }

  lemma FinishKeepsCache(settings: Settings, apart: set<Bytes>, s: State, event: Event, after: State)
    requires CacheOk(settings, apart, s) && MayHappen(apart, event)
    requires event.Finish? && after == Step(settings, s, event)
    ensures CacheOk(settings, apart, after)
  {
    var Finish(key, fetchId, result, each, at) := event;
    FinishedCache(settings, s, key, fetchId, result, each, at);
    if IsCurrent(s.table, key, fetchId) && result.Fetched? {
      var (p, waiters) := (Payload(key, result.bytes, result.contentType), s.table.flights[key].waiters);
      var scope := Scope(apart, s.trusted);
      DecodesKeepCoherence(settings.cache, scope, p, waiters, each, s.cache, s.stored, |waiters|);
      var d := DecodedFor(settings.cache, p, waiters, each, s.cache, |waiters|);
      assert Agrees(settings.cache, scope, p, s.stored, d);
      assert Scope(apart, after.trusted) == ScopeBy(scope, p, d);
    }
  }

  ghost predicate Safe(settings: Settings, apart: set<Bytes>, s: State) {
    Inv(s.table) && CacheOk(settings, apart, s)
  }

  lemma StepKeeps(settings: Settings, apart: set<Bytes>, s: State, event: Event, after: State)
    requires Safe(settings, apart, s) && MayHappen(apart, event) && after == Step(settings, s, event)
    ensures Safe(settings, apart, after)
  {
    StepKeepsTable(settings, s, event);
    if event.Request? {
      RequestKeepsCache(settings, apart, s, event, after);
    } else if event.Finish? {
      FinishKeepsCache(settings, apart, s, event, after);
    }
  }

  /** A new coordinator over a new cache is safe, for any byte strings whose digests differ. */
  lemma StartIsSafe(settings: Settings, apart: set<Bytes>)
    requires IsDigest(settings.cache.sha) && CollisionFree(settings.cache.sha, apart)
    ensures Safe(settings, apart, START)
  {
    StartKeepsBooks();
  }

  /** In every state of every run of requests, cancellations and fetch results, late and repeated ones
      included, the cache agrees with the bytes last stored about every URL it answers for, and the
      books are kept. */
  lemma {:induction false} RunIsSafe(settings: Settings, apart: set<Bytes>, start: State, events: seq<Event>)
    requires Safe(settings, apart, start) && forall i | 0 <= i < |events| :: MayHappen(apart, events[i])
    ensures forall s | s == After(settings, start, events) :: Safe(settings, apart, s)
  {
    if events == [] {
    } else {
      var before := events[..|events| - 1];
      RunIsSafe(settings, apart, start, before);
      StepKeeps(settings, apart, After(settings, start, before), events[|events| - 1], After(settings, start, events));
    }
  }

  // ---- What the callbacks are given ----

  /** An image delivered at once, for a URL the cache answers for, is the decode at the bound asked for
      of the bytes last stored. */
  lemma AnsweredFromCache(settings: Settings, scope: Scope, s: State, url: Url, size: Size, c: Conditions,
                          at: Readings, after: Table, image: Image)
    requires Coherent(settings.cache, scope, s.cache, s.stored)
    ensures after == Requested(settings, s, Some(url), size, c, at).table ==>
              after == Answered(s.table, Delivered(image)) && url in scope.trusted ==>
                IsLastDecode(settings.cache, s.stored, url, size, image)
  {
    var r := Lookup(settings.cache, s.cache, url, NormalizedBound(size), c).1;
    if after == Requested(settings, s, Some(url), size, c, at).table && after == Answered(s.table, Delivered(image)) {
      assert after.log[|s.table.log|] == Completion(s.table.nextRequest, Delivered(image));
      assert r == Hit(r.fromDisk, image);
      if url in scope.trusted {
        HitIsLastStored(settings.cache, scope, s.cache, s.stored, url, NormalizedBound(size), c);
        NormalizedTwice(size);
      }
    }
  }

  lemma NormalizedTwice(size: Size)
    ensures NormalizedBound(NormalizedBound(size)) == NormalizedBound(size)
  {
  }

  /** A successful fetch calls back every waiter of its flight, each once, in the order they came: with
      the decode at its own bound if every distinct bound decodes, with a decode error otherwise. */
  lemma FetchServesWaiters(settings: Settings, s: State, key: Url, fetchId: nat, bytes: Bytes, contentType: Bytes,
                           each: Each, at: Readings)
    returns (calls: seq<Completion>)
    requires IsCurrent(s.table, key, fetchId)
    ensures Finished(settings, s, key, fetchId, Fetched(bytes, contentType), each, at).table.log == s.table.log + calls
    ensures var waiters := s.table.flights[key].waiters;
            |calls| == |waiters| && forall i | 0 <= i < |waiters| ::
              Serves(settings.cache, Payload(key, bytes, contentType), waiters, each, waiters[i], calls[i])
  {
    var (p, waiters) := (Payload(key, bytes, contentType), s.table.flights[key].waiters);
    var d := DecodedFor(settings.cache, p, waiters, each, s.cache, |waiters|);
    EachWaiterItsBound(settings.cache, p, waiters, each, s.cache);
    calls := Completions(waiters, Results(waiters, d.bounds, d.images, d.failed));
    CompletionsServe(settings.cache, p, waiters, each, s.cache);
  }

  // ---- What is behind an entry of the negative cache ----

  /** The event is the not-found result of the URL's own fetch. */
  ghost predicate IsReport(settings: Settings, events: seq<Event>, i: nat, url: Url)
    requires i < |events|
  {
    && events[i].Finish? && events[i].key == url && events[i].result == FetchFailed(true)
    && IsCurrent(After(settings, START, events[..i]).table, url, events[i].fetchId)
  }

  lemma StepKeepsEntry(settings: Settings, s: State, event: Event, url: Url)
    requires url in Step(settings, s, event).negative
    ensures var after := Step(settings, s, event).negative;
            || (url in s.negative && after[url] == s.negative[url])
            || (&& event.Finish? && event.key == url && event.result == FetchFailed(true)
                && IsCurrent(s.table, url, event.fetchId) && after[url] == event.at.later + settings.ttl)
  {
    match event
    case Request(target, _, _, at) =>
      if target.Some? {
        EntriesKept(s.negative, settings.maxNegative, settings.ttl, url, target.value, at.now, at.later, at.last);
      }
    case Cancel(_) =>
    case CancelAll =>
    case Finish(key, _, _, _, at) =>
      EntriesKept(s.negative, settings.maxNegative, settings.ttl, url, key, at.now, at.later, at.last);
  }

  /** Every entry of every run comes from such a result and expires the time to live after it. */
  lemma {:induction false} EntryHasReport(settings: Settings, events: seq<Event>, url: Url) returns (i: nat)
    requires url in After(settings, START, events).negative
    ensures i < |events| && IsReport(settings, events, i, url)
    ensures After(settings, START, events).negative[url] == events[i].at.later + settings.ttl
  {
    var (before, last) := (events[..|events| - 1], events[|events| - 1]);
    var s := After(settings, START, before);
    StepKeepsEntry(settings, s, last, url);
    if url in s.negative && After(settings, START, events).negative[url] == s.negative[url] {
      i := EntryHasReport(settings, before, url);
      assert before[..i] == events[..i];
    } else {
      i := |events| - 1;
    }
  }

  /** A request answered at once that its asset is missing has such a result behind it, for that very URL
      and less than the time to live ago. */
  lemma NotFoundHasReport(settings: Settings, events: seq<Event>, url: Url, size: Size, c: Conditions, at: Readings,
                          after: Table) returns (i: nat)
    requires var s := After(settings, START, events);
             && after == Requested(settings, s, Some(url), size, c, at).table
             && after.log == s.table.log + [Completion(s.table.nextRequest, Refused(NotFound))]
    ensures i < |events| && IsReport(settings, events, i, url) && at.later < events[i].at.later + settings.ttl
  {
    var s := After(settings, START, events);
    var pruned := Pruned(s.negative, settings.maxNegative, at.now);
    OnlyTheTableRefuses(settings, s, url, size, c, at, after);
    PrunedIsNewestUnexpired(s.negative, settings.maxNegative, at.now);
    assert url in pruned && at.later < pruned[url] == s.negative[url];
    i := EntryHasReport(settings, events, url);
  }

  lemma OnlyTheTableRefuses(settings: Settings, s: State, url: Url, size: Size, c: Conditions, at: Readings,
                            after: Table)
    requires after == Requested(settings, s, Some(url), size, c, at).table
    requires after.log == s.table.log + [Completion(s.table.nextRequest, Refused(NotFound))]
    ensures Asked(s.negative, settings.maxNegative, url, at.now, at.later).1
  {
    assert after.log[|s.table.log|].result == Refused(NotFound);
  }
}
