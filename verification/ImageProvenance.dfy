/** Where every delivered image comes from: through waiters, flights, cache and fetcher back to the body of
    a reply. */
module ImageProvenance {
  import opened Text
  import opened EntryFormat
  import opened MemoryKeys
  import opened ImageScaling
  import opened CacheOperations
  import opened CacheCoherence
  import opened RequestFlights
  import opened FlightDecodes
  import R = ImageRequests
  import N = NetworkFetches
  import P = AssetPipeline

  // ---- Every run of the pipeline is a run of the fetcher ----

  function CancelEvents(order: seq<nat>): seq<N.Event> {
    if order == [] then [] else CancelEvents(order[..|order| - 1]) + [N.Cancel(order[|order| - 1])]
  }

  /** What a step asks of the fetcher, or does to it. */
  function FetcherEvents(p: P.Pipeline, event: P.Event, after: P.Pipeline): seq<N.Event> {
    match event
    case Request(target, address, _, _, _, now, later) =>
      if after.s.table.nextFetch == p.s.table.nextFetch || target.None? then [] else [N.Fetch(address, now, later)]
    case Cancel(_, order) => CancelEvents(order)
    case CancelAll(order) => CancelEvents(order)
    case Network(e) => [e]
    case Dispatch(_, _, _) => [N.Dispatch]
  }

  function FetcherRun(events: seq<P.Event>, states: seq<P.Pipeline>, n: nat): seq<N.Event>
    requires n <= |events| < |states|
  {
    if n == 0 then [] else FetcherRun(events, states, n - 1) + FetcherEvents(states[n - 1], events[n - 1], states[n])
  }

  lemma OneMore(limits: N.Limits, run: seq<N.Event>, e: N.Event)
    ensures N.After(limits, run + [e]) == N.Step(limits, N.After(limits, run), e)
  {
    assert (run + [e])[..|run|] == run;
  }

  lemma {:induction false} CancelEachIsRun(limits: N.Limits, run: seq<N.Event>, order: seq<nat>)
    ensures P.CancelEach(N.After(limits, run), order) == N.After(limits, run + CancelEvents(order))
  {
    if order == [] {
      assert run + [] == run;
    } else {
      var (front, last) := (order[..|order| - 1], order[|order| - 1]);
      CancelEachIsRun(limits, run, front);
      OneMore(limits, run + CancelEvents(front), N.Cancel(last));
      assert run + CancelEvents(order) == run + CancelEvents(front) + [N.Cancel(last)];
    }
  }

  lemma StepIsRun(settings: R.Settings, limits: N.Limits, p: P.Pipeline, event: P.Event, after: P.Pipeline,
                  run: seq<N.Event>)
    requires after == P.Step(settings, limits, p, event) && p.f == N.After(limits, run)
    ensures after.f == N.After(limits, run + FetcherEvents(p, event, after))
  {
    assert run + [] == run;
    match event
    case Request(_, address, _, _, _, now, later) => OneMore(limits, run, N.Fetch(address, now, later));
    case Cancel(_, order) => CancelEachIsRun(limits, run, order);
    case CancelAll(order) => CancelEachIsRun(limits, run, order);
    case Network(e) => OneMore(limits, run, e);
    case Dispatch(_, _, _) => OneMore(limits, run, N.Dispatch);
  }

  /** So whatever holds over every run of the fetcher alone holds of it under the coordinator. */
  lemma {:induction false} PipelineIsFetcherRun(settings: R.Settings, limits: N.Limits, events: seq<P.Event>,
                                                states: seq<P.Pipeline>, n: nat)
    requires P.IsRun(settings, limits, events, states) && n <= |events|
    ensures states[n].f == N.After(limits, FetcherRun(events, states, n))
  {
    if n == 0 {
    } else {
      PipelineIsFetcherRun(settings, limits, events, states, n - 1);
      StepIsRun(settings, limits, states[n - 1], events[n - 1], states[n], FetcherRun(events, states, n - 1));
    }
  }

  // ---- What was asked for, and what came ----

  /** What each request asked for: the URL and the bound. */
  type Asked = map<nat, (Url, Size)>

  function AskedIn(asked: Asked, p: P.Pipeline, event: P.Event): Asked {
    if event.Request? && event.target.Some?
    then asked[p.s.table.nextRequest := (event.target.value, NormalizedBound(event.size))]
    else asked
  }

  function AskedAfter(events: seq<P.Event>, states: seq<P.Pipeline>, n: nat): Asked
    requires n <= |events| < |states|
  {
    if n == 0 then map[] else AskedIn(AskedAfter(events, states, n - 1), states[n - 1], events[n - 1])
  }

  /** The results of the fetches, and the URL each fetch was for. */
  datatype Came = Came(calls: seq<N.Call>, keys: map<nat, Url>)

  function CameTo(p: P.Pipeline): Came { Came(p.f.calls, p.keys) }

  /** The i-th result is a body fetched for the URL. */
  predicate IsBody(came: Came, i: nat, url: Url)
    requires i < |came.calls|
  {
    came.calls[i].outcome.Success? && came.calls[i].id in came.keys && came.keys[came.calls[i].id] == url
  }

  predicate CameFor(came: Came, url: Url, bytes: Bytes) {
    exists i | 0 <= i < |came.calls| :: IsBody(came, i, url) && came.calls[i].outcome.bytes == bytes
  }

  /** The image is the decode, at the bound, of a body fetched for the URL. */
  predicate CameAs(config: Config, came: Came, url: Url, bound: Size, image: Image) {
    exists i | 0 <= i < |came.calls| ::
      IsBody(came, i, url) && config.decoder(came.calls[i].outcome.bytes, NormalizedBound(bound)) == Decoded(image)
  }

  predicate Grows(came: Came, more: Came) {
    && came.calls <= more.calls
    && forall id | id in came.keys :: id in more.keys && more.keys[id] == came.keys[id]
  }

  lemma StillCame(config: Config, came: Came, more: Came, url: Url)
    requires Grows(came, more)
    ensures forall bytes | CameFor(came, url, bytes) :: CameFor(more, url, bytes)
    ensures forall bound, image | CameAs(config, came, url, bound, image) :: CameAs(config, more, url, bound, image)
  {
    forall i | 0 <= i < |came.calls| && IsBody(came, i, url)
      ensures IsBody(more, i, url) && more.calls[i] == came.calls[i]
    {
    }
  }

  // ---- The invariant ----

  predicate StoredCame(came: Came, stored: Stored) {
    forall url | url in stored :: CameFor(came, url, stored[url])
  }

  predicate WaitersAsked(flights: map<Url, Flight>, asked: Asked) {
    forall key, w | key in flights && w in flights[key].waiters :: w.id in asked && asked[w.id] == (key, w.bound)
  }

  /** A delivered image came for what its request asked. */
  predicate IsDecodeOfReply(config: Config, came: Came, asked: Asked, c: Completion) {
    c.result.Delivered? ==> c.id in asked && CameAs(config, came, asked[c.id].0, asked[c.id].1, c.result.image)
  }

  predicate LogCame(config: Config, came: Came, asked: Asked, log: seq<Completion>) {
    forall i | 0 <= i < |log| :: IsDecodeOfReply(config, came, asked, log[i])
  }

  predicate Issued(p: P.Pipeline, asked: Asked) {
    (forall id | id in p.keys :: id < p.s.table.nextFetch) && (forall id | id in asked :: id < p.s.table.nextRequest)
  }

  ghost predicate CacheAgrees(settings: R.Settings, apart: set<Bytes>, s: R.State) {
    Coherent(settings.cache, Scope(apart, apart), s.cache, s.stored)
  }

  ghost predicate Traced(settings: R.Settings, apart: set<Bytes>, p: P.Pipeline, asked: Asked) {
    && CacheAgrees(settings, apart, p.s)
    && StoredCame(CameTo(p), p.s.stored)
    && WaitersAsked(p.s.table.flights, asked)
    && LogCame(settings.cache, CameTo(p), asked, p.s.table.log)
    && Issued(p, asked)
  }

  /** The next call to make is one of the coordinator's. */
  predicate IsAnswered(p: P.Pipeline) {
    p.f.delivered < |p.f.calls| && p.f.calls[p.f.delivered].id in p.keys
  }

  /** The URLs asked for and the bodies that arrive are among the strings whose digests differ. */
  ghost predicate StepApart(apart: set<Bytes>, p: P.Pipeline, event: P.Event) {
    && (event.Request? && event.target.Some? ==> event.target.value in apart)
    && (event.Dispatch? && IsAnswered(p) ==> R.MayHappen(apart, P.FinishOf(p, event)))
  }

  // ---- Step by step ----

  lemma LogStillCame(config: Config, came: Came, asked: Asked, log: seq<Completion>, more: Came, asked': Asked)
    requires LogCame(config, came, asked, log) && Grows(came, more)
    requires forall id | id in asked :: id in asked' && asked'[id] == asked[id]
    ensures LogCame(config, more, asked', log)
  {
    forall i | 0 <= i < |log| ensures IsDecodeOfReply(config, more, asked', log[i]) {
      assert IsDecodeOfReply(config, came, asked, log[i]);
      if log[i].result.Delivered? {
        StillCame(config, came, more, asked[log[i].id].0);
      }
    }
  }

  lemma StoredStillCame(config: Config, came: Came, stored: Stored, more: Came)
    requires StoredCame(came, stored) && Grows(came, more)
    ensures StoredCame(more, stored)
  {
    forall url | url in stored ensures CameFor(more, url, stored[url]) {
      StillCame(config, came, more, url);
    }
  }

  lemma LogAppended(config: Config, came: Came, asked: Asked, log: seq<Completion>, calls: seq<Completion>)
    requires LogCame(config, came, asked, log) && LogCame(config, came, asked, calls)
    ensures LogCame(config, came, asked, log + calls)
  {
    forall i | 0 <= i < |log + calls| ensures IsDecodeOfReply(config, came, asked, (log + calls)[i]) {
      if i >= |log| {
        assert (log + calls)[i] == calls[i - |log|];
      }
    }
  }

  /** An image answered at once came earlier, for the same URL. */
  lemma AnswerCame(settings: R.Settings, apart: set<Bytes>, p: P.Pipeline, event: P.Event, asked: Asked, result: Result)
    requires Traced(settings, apart, p, asked) && event.Request? && StepApart(apart, p, event)
    requires R.Step(settings, p.s, R.Request(event.target, event.size, event.c, event.at)).table
             == Answered(p.s.table, result)
    ensures IsDecodeOfReply(settings.cache, CameTo(p), AskedIn(asked, p, event),
                            Completion(p.s.table.nextRequest, result))
  {
    var after := Answered(p.s.table, result);
    if result.Delivered? {
      assert after.log[|p.s.table.log|].result == result;
      assert event.target.Some?;
      var (url, image) := (event.target.value, result.image);
      R.AnsweredFromCache(settings, Scope(apart, apart), p.s, url, event.size, event.c, event.at, after, image);
      assert CameFor(CameTo(p), url, p.s.stored[url]);
      R.NormalizedTwice(event.size);
    }
  }

  // Requests

  lemma RequestGrows(settings: R.Settings, limits: N.Limits, p: P.Pipeline, event: P.Event, after: P.Pipeline,
                     asked: Asked)
    requires event.Request? && after == P.Step(settings, limits, p, event) && Issued(p, asked)
    ensures Grows(CameTo(p), CameTo(after)) && Issued(after, AskedIn(asked, p, event))
    ensures after.s.table.nextRequest == p.s.table.nextRequest + 1
  {
    var e := R.Request(event.target, event.size, event.c, event.at);
    var table := R.Step(settings, p.s, e).table;
    var answer := R.RequestedTable(settings, p.s, event.target, event.size, event.c, event.at, table);
    P.RequestFetches(settings, p.s, e, table);
    P.FetchAnswers(limits, p.f, event.address, event.now, event.later);
  }

  lemma RequestCacheAgrees(settings: R.Settings, apart: set<Bytes>, s: R.State, e: R.Event, after: R.State)
    requires CacheAgrees(settings, apart, s) && e.Request? && after == R.Step(settings, s, e)
    ensures CacheAgrees(settings, apart, after) && after.stored == s.stored
  {
    R.RequestedCache(settings, s, e.target, e.size, e.c, e.at);
    if after.cache != s.cache {
      LookupKeeps(settings.cache, Scope(apart, apart), s.cache, s.stored, e.target.value, NormalizedBound(e.size), e.c);
    }
  }

  lemma JoinedAsked(t: Table, url: Url, bound: Size, asked: Asked)
    requires WaitersAsked(t.flights, asked) && forall id | id in asked :: id < t.nextRequest
    ensures WaitersAsked(Joined(t, url, bound).flights, asked[t.nextRequest := (url, bound)])
  {
    var (after, more) := (Joined(t, url, bound), asked[t.nextRequest := (url, bound)]);
    forall key, w | key in after.flights && w in after.flights[key].waiters
      ensures w.id in more && more[w.id] == (key, w.bound)
    {
      if w == Waiter(t.nextRequest, bound) {
        assert key == url;
      } else {
        assert key in t.flights && w in t.flights[key].waiters;
      }
    }
  }

  lemma StillAsked(flights: map<Url, Flight>, asked: Asked, more: Asked)
    requires WaitersAsked(flights, asked) && forall id | id in asked :: id in more && more[id] == asked[id]
    ensures WaitersAsked(flights, more)
  {
  }

  /** The table after a request that is answered at once. */
  lemma AnsweredTable(settings: R.Settings, apart: set<Bytes>, p: P.Pipeline, event: P.Event, after: Table,
                      asked: Asked, result: Result)
    requires Traced(settings, apart, p, asked) && event.Request? && StepApart(apart, p, event)
    requires after == R.Step(settings, p.s, R.Request(event.target, event.size, event.c, event.at)).table
    requires after == Answered(p.s.table, result)
    requires LogCame(settings.cache, CameTo(p), AskedIn(asked, p, event), p.s.table.log)
    ensures LogCame(settings.cache, CameTo(p), AskedIn(asked, p, event), after.log)
  {
    AnswerCame(settings, apart, p, event, asked, result);
    LogAppended(settings.cache, CameTo(p), AskedIn(asked, p, event), p.s.table.log,
                [Completion(p.s.table.nextRequest, result)]);
  }

  /** The table after a request: its waiters and its log. */
  lemma RequestTable(settings: R.Settings, apart: set<Bytes>, p: P.Pipeline, event: P.Event, after: Table, asked: Asked)
    requires Traced(settings, apart, p, asked) && event.Request? && StepApart(apart, p, event)
    requires after == R.Step(settings, p.s, R.Request(event.target, event.size, event.c, event.at)).table
    ensures WaitersAsked(after.flights, AskedIn(asked, p, event))
    ensures LogCame(settings.cache, CameTo(p), AskedIn(asked, p, event), after.log)
  {
    var more := AskedIn(asked, p, event);
    var answer := R.RequestedTable(settings, p.s, event.target, event.size, event.c, event.at, after);
    LogStillCame(settings.cache, CameTo(p), asked, p.s.table.log, CameTo(p), more);
    match answer
    case None => JoinedAsked(p.s.table, event.target.value, NormalizedBound(event.size), asked);
    case Some(result) =>
      StillAsked(p.s.table.flights, asked, more);
      AnsweredTable(settings, apart, p, event, after, asked, result);
  }

  lemma RequestTraced(settings: R.Settings, limits: N.Limits, apart: set<Bytes>, p: P.Pipeline, event: P.Event,
                      after: P.Pipeline, asked: Asked)
    requires Traced(settings, apart, p, asked) && event.Request? && StepApart(apart, p, event)
    requires after == P.Step(settings, limits, p, event)
    ensures Traced(settings, apart, after, AskedIn(asked, p, event))
  {
    var e := R.Request(event.target, event.size, event.c, event.at);
    RequestGrows(settings, limits, p, event, after, asked);
    RequestCacheAgrees(settings, apart, p.s, e, after.s);
    RequestTable(settings, apart, p, event, after.s.table, asked);
    StoredStillCame(settings.cache, CameTo(p), p.s.stored, CameTo(after));
    LogStillCame(settings.cache, CameTo(p), AskedIn(asked, p, event), after.s.table.log, CameTo(after),
                 AskedIn(asked, p, event));
  }

  // Cancellation and the network

  lemma {:induction false} WithoutWaiterOnly(waiters: seq<Waiter>, id: nat)
    ensures forall w | w in WithoutWaiter(waiters, id) :: w in waiters
  {
    if waiters == [] || waiters[0].id == id {
    } else {
      WithoutWaiterOnly(waiters[1..], id);
    }
  }

  lemma CancelledAsked(t: Table, id: nat, asked: Asked)
    requires WaitersAsked(t.flights, asked)
    ensures WaitersAsked(Cancelled(t, id).flights, asked)
  {
    if id in t.requestKeys && t.requestKeys[id] in t.flights {
      WithoutWaiterOnly(t.flights[t.requestKeys[id]].waiters, id);
    }
  }

  lemma CancelTable(t: Table, event: P.Event, after: Table, asked: Asked)
    requires WaitersAsked(t.flights, asked) && (event.Cancel? || event.CancelAll?)
    requires after == if event.Cancel? then Cancelled(t, event.id) else CancelledAll(t)
    ensures WaitersAsked(after.flights, asked) && after.log == t.log
    ensures after.nextFetch == t.nextFetch && after.nextRequest == t.nextRequest
  {
    if event.Cancel? {
      CancelledAsked(t, event.id, asked);
      P.CancelledFlights(t, event.id);
    }
  }

  lemma CancelParts(settings: R.Settings, limits: N.Limits, p: P.Pipeline, event: P.Event, after: P.Pipeline)
    requires (event.Cancel? || event.CancelAll?) && after == P.Step(settings, limits, p, event)
    ensures CameTo(after) == CameTo(p) && after.s == p.s.(table := after.s.table)
    ensures after.s.table == if event.Cancel? then Cancelled(p.s.table, event.id) else CancelledAll(p.s.table)
  {
    P.CancelEachEffect(p.f, event.order);
  }

  lemma CancelTraced(settings: R.Settings, apart: set<Bytes>, p: P.Pipeline, event: P.Event, after: P.Pipeline,
                     asked: Asked)
    requires Traced(settings, apart, p, asked) && (event.Cancel? || event.CancelAll?)
    requires CameTo(after) == CameTo(p) && after.s == p.s.(table := after.s.table)
    requires after.s.table == if event.Cancel? then Cancelled(p.s.table, event.id) else CancelledAll(p.s.table)
    ensures Traced(settings, apart, after, asked)
  {
    CancelTable(p.s.table, event, after.s.table, asked);
  }

  lemma NetworkTraced(settings: R.Settings, limits: N.Limits, apart: set<Bytes>, p: P.Pipeline, e: N.Event,
                      asked: Asked)
    requires Traced(settings, apart, p, asked) && N.Inv(limits, p.f) && !e.Fetch? && !e.Cancel? && !e.Dispatch?
    ensures Traced(settings, apart, p.(f := N.Step(limits, p.f, e)), asked)
  {
    var after := p.(f := N.Step(limits, p.f, e));
    P.NetworkAnswers(limits, p.f, e);
    StoredStillCame(settings.cache, CameTo(p), p.s.stored, CameTo(after));
    LogStillCame(settings.cache, CameTo(p), asked, p.s.table.log, CameTo(after), asked);
  }

  // Delivery

  lemma AgreesWithin(config: Config, apart: set<Bytes>, q: Payload, stored: Stored, d: Decodes, scope: Scope)
    requires q.url in apart && scope == Scope(apart, apart) && Agrees(config, scope, q, stored, d)
    ensures Coherent(config, scope, d.cache, StoredBy(stored, q, d))
  {
    assert apart + {q.url} == apart;
  }

  lemma DecodesAgree(config: Config, scope: Scope, q: Payload, waiters: seq<Waiter>, each: Each, cache: Cache,
                     stored: Stored, d: Decodes)
    requires MayStore(config, scope, q, each) && Coherent(config, scope, cache, stored)
    requires d == DecodedFor(config, q, waiters, each, cache, |waiters|)
    ensures Agrees(config, scope, q, stored, d)
  {
    DecodesKeepCoherence(config, scope, q, waiters, each, cache, stored, |waiters|);
  }

  lemma DecodesCoherent(config: Config, apart: set<Bytes>, q: Payload, waiters: seq<Waiter>, each: Each, cache: Cache,
                        stored: Stored, d: Decodes)
    requires MayStore(config, Scope(apart, apart), q, each) && Coherent(config, Scope(apart, apart), cache, stored)
    requires d == DecodedFor(config, q, waiters, each, cache, |waiters|)
    ensures Coherent(config, Scope(apart, apart), d.cache, StoredBy(stored, q, d))
  {
    DecodesAgree(config, Scope(apart, apart), q, waiters, each, cache, stored, d);
    AgreesWithin(config, apart, q, stored, d, Scope(apart, apart));
  }

  lemma MayStoreResult(settings: R.Settings, apart: set<Bytes>, e: R.Event, q: Payload)
    requires IsDigest(settings.cache.sha) && CollisionFree(settings.cache.sha, apart)
    requires e.Finish? && e.result.Fetched? && R.MayHappen(apart, e)
    requires q == Payload(e.key, e.result.bytes, e.result.contentType)
    ensures MayStore(settings.cache, Scope(apart, apart), q, e.each)
  {
  }

  lemma FinishCacheAgrees(settings: R.Settings, apart: set<Bytes>, s: R.State, e: R.Event, after: R.State)
    requires IsDigest(settings.cache.sha) && CollisionFree(settings.cache.sha, apart)
    requires CacheAgrees(settings, apart, s) && R.MayHappen(apart, e) && e.Finish? && after == R.Step(settings, s, e)
    ensures CacheAgrees(settings, apart, after)
    ensures after.stored == s.stored ||
            (&& IsCurrent(s.table, e.key, e.fetchId) && e.result.Fetched?
             && after.stored == s.stored[e.key := e.result.bytes])
  {
    R.FinishedCache(settings, s, e.key, e.fetchId, e.result, e.each, e.at);
    if IsCurrent(s.table, e.key, e.fetchId) && e.result.Fetched? {
      var (q, waiters) := (Payload(e.key, e.result.bytes, e.result.contentType), s.table.flights[e.key].waiters);
      var d := DecodedFor(settings.cache, q, waiters, e.each, s.cache, |waiters|);
      MayStoreResult(settings, apart, e, q);
      DecodesCoherent(settings.cache, apart, q, waiters, e.each, s.cache, s.stored, d);
    }
  }

  /** The calls a result makes: images of its own body, if any. */
  lemma FinishCalls(settings: R.Settings, s: R.State, e: R.Event, came: Came, asked: Asked, i: nat)
    returns (calls: seq<Completion>)
    requires e.Finish? && WaitersAsked(s.table.flights, asked) && i < |came.calls|
    requires e.result.Fetched? ==> IsBody(came, i, e.key) && came.calls[i].outcome.bytes == e.result.bytes
    ensures R.Step(settings, s, e).table.log == s.table.log + calls
    ensures LogCame(settings.cache, came, asked, calls)
  {
    if !IsCurrent(s.table, e.key, e.fetchId) {
      calls := [];
    } else if e.result.Fetched? {
      var waiters := s.table.flights[e.key].waiters;
      calls := R.FetchServesWaiters(settings, s, e.key, e.fetchId, e.result.bytes, e.result.contentType, e.each, e.at);
      forall j | 0 <= j < |calls| ensures IsDecodeOfReply(settings.cache, came, asked, calls[j]) {
        var q := Payload(e.key, e.result.bytes, e.result.contentType);
        assert Serves(settings.cache, q, waiters, e.each, waiters[j], calls[j]);
        assert waiters[j] in waiters;
      }
    } else {
      var waiters := s.table.flights[e.key].waiters;
      var results := R.SameFor(waiters, Refused(if e.result.notFound then NotFound else FetchError));
      calls := Completions(waiters, results);
    }
  }

  lemma DeliveredBody(p: P.Pipeline, event: P.Event)
    requires event.Dispatch? && IsAnswered(p)
    ensures var e := P.FinishOf(p, event);
            e.result.Fetched? ==>
              IsBody(CameTo(p), p.f.delivered, e.key) && p.f.calls[p.f.delivered].outcome.bytes == e.result.bytes
  {
  }

  lemma DeliveryCache(settings: R.Settings, apart: set<Bytes>, s: R.State, e: R.Event, after: R.State, came: Came)
    requires IsDigest(settings.cache.sha) && CollisionFree(settings.cache.sha, apart)
    requires CacheAgrees(settings, apart, s) && R.MayHappen(apart, e) && e.Finish? && after == R.Step(settings, s, e)
    requires StoredCame(came, s.stored) && (e.result.Fetched? ==> CameFor(came, e.key, e.result.bytes))
    ensures CacheAgrees(settings, apart, after) && StoredCame(came, after.stored)
  {
    FinishCacheAgrees(settings, apart, s, e, after);
    forall url | url in after.stored ensures CameFor(came, url, after.stored[url]) {
    }
  }

  lemma DeliveryTable(settings: R.Settings, s: R.State, e: R.Event, after: Table, came: Came, asked: Asked, i: nat)
    requires e.Finish? && after == R.Step(settings, s, e).table && i < |came.calls|
    requires e.result.Fetched? ==> IsBody(came, i, e.key) && came.calls[i].outcome.bytes == e.result.bytes
    requires WaitersAsked(s.table.flights, asked) && LogCame(settings.cache, came, asked, s.table.log)
    ensures WaitersAsked(after.flights, asked) && LogCame(settings.cache, came, asked, after.log)
    ensures after.nextFetch == s.table.nextFetch && after.nextRequest == s.table.nextRequest
  {
    R.SettledTable(settings, s, e, after);
    var calls := FinishCalls(settings, s, e, came, asked, i);
    LogAppended(settings.cache, came, asked, s.table.log, calls);
  }

  /** What the coordinator has after the oldest call. */
  ghost predicate IsCalled(settings: R.Settings, p: P.Pipeline, event: P.Event, after: R.State)
    requires event.Dispatch?
  {
    after == if IsAnswered(p) then R.Step(settings, p.s, P.FinishOf(p, event)) else p.s
  }

  lemma DispatchParts(settings: R.Settings, limits: N.Limits, p: P.Pipeline, event: P.Event, after: P.Pipeline)
    requires event.Dispatch? && after == P.Step(settings, limits, p, event)
    ensures IsCalled(settings, p, event, after.s) && CameTo(after) == CameTo(p)
  {
    if p.f.delivered < |p.f.calls| {
      P.DeliveredParts(settings, limits, p, event, after);
    }
  }

  lemma DispatchTraced(settings: R.Settings, apart: set<Bytes>, p: P.Pipeline, event: P.Event, after: P.Pipeline,
                       asked: Asked)
    requires IsDigest(settings.cache.sha) && CollisionFree(settings.cache.sha, apart)
    requires Traced(settings, apart, p, asked) && event.Dispatch? && StepApart(apart, p, event)
    requires IsCalled(settings, p, event, after.s) && CameTo(after) == CameTo(p)
    ensures Traced(settings, apart, after, asked)
  {
    if IsAnswered(p) {
      var e := P.FinishOf(p, event);
      DeliveredBody(p, event);
      DeliveryCache(settings, apart, p.s, e, after.s, CameTo(p));
      DeliveryTable(settings, p.s, e, after.s.table, CameTo(p), asked, p.f.delivered);
    }
  }

  // ---- Every run ----

  lemma StepTraced(settings: R.Settings, limits: N.Limits, apart: set<Bytes>, p: P.Pipeline, event: P.Event,
                   after: P.Pipeline, asked: Asked)
    requires IsDigest(settings.cache.sha) && CollisionFree(settings.cache.sha, apart)
    requires P.Inv(limits, p) && P.Allowed(p, event) && StepApart(apart, p, event)
    requires Traced(settings, apart, p, asked) && after == P.Step(settings, limits, p, event)
    ensures Traced(settings, apart, after, AskedIn(asked, p, event))
  {
    match event
    case Request(_, _, _, _, _, _, _) => RequestTraced(settings, limits, apart, p, event, after, asked);
    case Cancel(_, _) =>
      CancelParts(settings, limits, p, event, after);
      CancelTraced(settings, apart, p, event, after, asked);
    case CancelAll(_) =>
      CancelParts(settings, limits, p, event, after);
      CancelTraced(settings, apart, p, event, after, asked);
    case Network(e) => NetworkTraced(settings, limits, apart, p, e, asked);
    case Dispatch(_, _, _) =>
      DispatchParts(settings, limits, p, event, after);
      DispatchTraced(settings, apart, p, event, after, asked);
  }

  ghost predicate IsApartRun(settings: R.Settings, limits: N.Limits, apart: set<Bytes>, events: seq<P.Event>,
                             states: seq<P.Pipeline>)
  {
    && IsDigest(settings.cache.sha) && CollisionFree(settings.cache.sha, apart)
    && P.IsRun(settings, limits, events, states)
    && forall i | 0 <= i < |events| :: StepApart(apart, states[i], events[i])
  }

  lemma StartTraced(settings: R.Settings, apart: set<Bytes>)
    ensures Traced(settings, apart, P.START, map[])
  {
  }

  lemma RunTraced(settings: R.Settings, limits: N.Limits, apart: set<Bytes>, events: seq<P.Event>,
                  states: seq<P.Pipeline>)
    requires IsApartRun(settings, limits, apart, events, states)
    ensures forall n | 0 <= n < |states| :: Traced(settings, apart, states[n], AskedAfter(events, states, n))
  {
    P.RunKeeps(settings, limits, events, states);
    StartTraced(settings, apart);
    var n := 0;
    while n < |events|
      invariant 0 <= n <= |events|
      invariant forall m | 0 <= m <= n :: Traced(settings, apart, states[m], AskedAfter(events, states, m))
    {
      assert P.Inv(limits, states[n]) && StepApart(apart, states[n], events[n]);
      StepTraced(settings, limits, apart, states[n], events[n], states[n + 1], AskedAfter(events, states, n));
      n := n + 1;
    }
  }

  /** Every image ever delivered, whether at once or by a fetch, is the decode, at the bound its request
      asked for, of the whole body of a 200 reply to a fetch for the URL the request asked for. */
  lemma EveryImageHasItsReply(settings: R.Settings, limits: N.Limits, apart: set<Bytes>, events: seq<P.Event>,
                              states: seq<P.Pipeline>, n: nat, i: nat) returns (j: nat, k: nat)
    requires IsApartRun(settings, limits, apart, events, states) && n < |states|
    requires i < |states[n].s.table.log| && states[n].s.table.log[i].result.Delivered?
    ensures states[n].s.table.log[i].id in AskedAfter(events, states, n)
    ensures j < |states[n].f.calls| && k < |FetcherRun(events, states, n)|
    ensures var (p, c) := (states[n], states[n].s.table.log[i]);
            var (url, bound) := AskedAfter(events, states, n)[c.id];
            && IsBody(CameTo(p), j, url)
            && settings.cache.decoder(p.f.calls[j].outcome.bytes, NormalizedBound(bound)) == Decoded(c.result.image)
            && N.IsReplyOf(limits, FetcherRun(events, states, n), k, p.f.calls[j])
  {
    var (p, asked) := (states[n], AskedAfter(events, states, n));
    RunTraced(settings, limits, apart, events, states);
    assert Traced(settings, apart, p, asked);
    var c := p.s.table.log[i];
    assert IsDecodeOfReply(settings.cache, CameTo(p), asked, c);
    var (url, bound) := asked[c.id];
    j :| 0 <= j < |p.f.calls| && IsBody(CameTo(p), j, url)
         && settings.cache.decoder(p.f.calls[j].outcome.bytes, NormalizedBound(bound)) == Decoded(c.result.image);
    PipelineIsFetcherRun(settings, limits, events, states, n);
    k := N.SuccessHasReply(limits, FetcherRun(events, states, n), j);
  }
}
