/** The coordinator and its fetcher together: what one asks of the other and what the other answers, with
    the network doing to the replies what it likes. */
module AssetPipeline {
  import opened Wrappers
  import opened Text
  import opened MemoryKeys
  import opened ImageScaling
  import opened CacheOperations
  import opened FetchPolicy
  import opened RequestFlights
  import opened FlightDecodes
  import R = ImageRequests
  import N = NetworkFetches

  /** `keys` is what the fetch callbacks captured: the request key of each fetch. A request names its URL
      twice, as the canonical key and as what the fetcher's rules see of it. */
  datatype Pipeline = Pipeline(s: R.State, f: N.Fetcher, keys: map<nat, Url>)

  const START := Pipeline(R.START, N.IDLE, map[])

  datatype Event =
    | Request(target: Option<Url>, address: Address, size: Size, c: Conditions, at: R.Readings, now: int, later: int)
    | Cancel(id: nat, order: seq<nat>)
    | CancelAll(order: seq<nat>)
    | Network(e: N.Event)
    | Dispatch(contentType: Bytes, each: Each, at: R.Readings)

  // ---- Steps ----

  /** The fetches the flights wait for. */
  function Fetches(t: Table): map<Url, nat> {
    map key | key in t.flights :: t.flights[key].fetchId
  }

  /** A request that starts a flight starts its fetch. */
  ghost function Requested(settings: R.Settings, limits: N.Limits, p: Pipeline, e: Event): Pipeline
    requires e.Request?
  {
    var s := R.Step(settings, p.s, R.Request(e.target, e.size, e.c, e.at));
    if s.table.nextFetch == p.s.table.nextFetch || e.target.None? then p.(s := s)
    else
      Pipeline(s, N.Step(limits, p.f, N.Fetch(e.address, e.now, e.later)),
               p.keys[p.s.table.nextFetch := e.target.value])
  }

  /** fetcher->cancel for each id. */
  function CancelEach(f: N.Fetcher, order: seq<nat>): N.Fetcher {
    if order == [] then f else N.Cancelled(CancelEach(f, order[..|order| - 1]), order[|order| - 1])
  }

  function ResultOf(outcome: N.Outcome, contentType: Bytes): R.FetchResult {
    match outcome
    case Success(bytes, _) => R.Fetched(bytes, contentType)
    case Failed(failure) => R.FetchFailed(failure.NotFound?)
  }

  /** What the coordinator hears of the oldest queued call. */
  function FinishOf(p: Pipeline, e: Event): R.Event
    requires e.Dispatch? && p.f.delivered < |p.f.calls| && p.f.calls[p.f.delivered].id in p.keys
  {
    var call := p.f.calls[p.f.delivered];
    R.Finish(p.keys[call.id], call.id, ResultOf(call.outcome, e.contentType), e.each, e.at)
  }

  /** The event loop makes the oldest queued call. */
  ghost function Dispatched(settings: R.Settings, limits: N.Limits, p: Pipeline, e: Event): Pipeline
    requires e.Dispatch?
  {
    if p.f.delivered >= |p.f.calls| || p.f.calls[p.f.delivered].id !in p.keys then
      p.(f := N.Step(limits, p.f, N.Dispatch))
    else
      Pipeline(R.Step(settings, p.s, FinishOf(p, e)), N.Step(limits, p.f, N.Dispatch), p.keys)
  }

  ghost function Step(settings: R.Settings, limits: N.Limits, p: Pipeline, event: Event): Pipeline {
    match event
    case Request(_, _, _, _, _, _, _) => Requested(settings, limits, p, event)
    case Cancel(id, order) => p.(s := R.Step(settings, p.s, R.Cancel(id)), f := CancelEach(p.f, order))
    case CancelAll(order) => p.(s := R.Step(settings, p.s, R.CancelAll), f := CancelEach(p.f, order))
    case Network(e) => p.(f := N.Step(limits, p.f, e))
    case Dispatch(_, _, _) => Dispatched(settings, limits, p, event)
  }

  /** The ids given to the fetcher are those of the flights that went. */
  ghost predicate Lists(order: seq<nat>, before: Table, after: Table) {
    forall id :: id in order <==> id in Fetches(before).Values - Fetches(after).Values
  }

  ghost predicate Allowed(p: Pipeline, event: Event) {
    match event
    case Cancel(id, order) => Lists(order, p.s.table, Cancelled(p.s.table, id))
    case CancelAll(order) => Lists(order, p.s.table, CancelledAll(p.s.table))
    case Network(e) => !e.Fetch? && !e.Cancel? && !e.Dispatch?
    case _ => true
  }

  ghost predicate IsRun(settings: R.Settings, limits: N.Limits, events: seq<Event>, states: seq<Pipeline>) {
    && |states| == |events| + 1 && states[0] == START
    && forall i | 0 <= i < |events| ::
         Allowed(states[i], events[i]) && states[i + 1] == Step(settings, limits, states[i], events[i])
  }

  // ---- The invariant ----

  /** The fetch is still to answer: not cancelled, its result not delivered. */
  predicate Live(f: N.Fetcher, id: nat)
    requires f.delivered <= |f.calls|
  {
    0 < id < f.nextId && id !in f.cancelled && N.CountCalls(f.calls[..f.delivered], id) == 0
  }

  /** Every flight waits for a fetch that is still to answer, and every request under way has a flight. */
  predicate Joint(fetches: map<Url, nat>, cancelledFetches: set<nat>, f: N.Fetcher, keys: map<nat, Url>) {
    && f.delivered <= |f.calls|
    && (forall key | key in fetches :: Live(f, fetches[key]) && fetches[key] in keys && keys[fetches[key]] == key)
    && (forall id | id in f.replies :: id in fetches.Values)
    && f.cancelled <= cancelledFetches
    && forall id | id in cancelledFetches :: id !in f.replies
  }

  ghost predicate Inv(limits: N.Limits, p: Pipeline) {
    && RequestFlights.Inv(p.s.table) && N.Inv(limits, p.f)
    && p.s.table.nextFetch == p.f.nextId
    && Joint(Fetches(p.s.table), p.s.table.cancelledFetches, p.f, p.keys)
  }

  // ---- What the coordinator's steps do to its fetches ----

  lemma RequestFetches(settings: R.Settings, s: R.State, e: R.Event, after: Table)
    requires e.Request? && after == R.Step(settings, s, e).table
    ensures after.cancelledFetches == s.table.cancelledFetches
    ensures || (after.nextFetch == s.table.nextFetch && Fetches(after) == Fetches(s.table))
            || (e.target.Some? && after.nextFetch == s.table.nextFetch + 1 && e.target.value !in Fetches(s.table)
                && Fetches(after) == Fetches(s.table)[e.target.value := s.table.nextFetch])
  {
    var answer := R.RequestedTable(settings, s, e.target, e.size, e.c, e.at, after);
    if answer.None? && e.target.value in s.table.flights {
      assert Fetches(after) == Fetches(s.table);
    }
  }

  lemma OneFetchGone(fetches: map<Url, nat>, key: Url)
    requires key in fetches && forall j, k | j in fetches && k in fetches && fetches[j] == fetches[k] :: j == k
    ensures fetches.Values - (fetches - {key}).Values == {fetches[key]}
  {
    var fewer := fetches - {key};
    forall id | id in fetches.Values && id != fetches[key] ensures id in fewer.Values {
      var other :| other in fetches && fetches[other] == id;
      assert other in fewer && fewer[other] == id;
    }
  }

  lemma CancelledFlights(t: Table, id: nat)
    ensures var after := Cancelled(t, id);
            && after.nextFetch == t.nextFetch
            && ((Fetches(after) == Fetches(t) && after.cancelledFetches == t.cancelledFetches)
                || (id in t.requestKeys && t.requestKeys[id] in t.flights
                    && Fetches(after) == Fetches(t) - {t.requestKeys[id]}
                    && after.cancelledFetches == t.cancelledFetches + {Fetches(t)[t.requestKeys[id]]}))
  {
  }

  lemma CancelledFetchIds(t: Table, id: nat)
    requires FetchesAgree(t.flights, t.nextFetch, t.cancelledFetches)
    ensures var after := Cancelled(t, id);
            && after.nextFetch == t.nextFetch
            && Fetches(after).Keys <= Fetches(t).Keys
            && (forall key | key in Fetches(after) :: Fetches(after)[key] == Fetches(t)[key])
            && after.cancelledFetches == t.cancelledFetches + (Fetches(t).Values - Fetches(after).Values)
  {
    CancelledFlights(t, id);
    if Fetches(Cancelled(t, id)) != Fetches(t) {
      OneFetchGone(Fetches(t), t.requestKeys[id]);
    }
  }

  lemma AllCancelledFetchIds(t: Table)
    ensures var after := CancelledAll(t);
            && after.nextFetch == t.nextFetch && Fetches(after) == map[]
            && after.cancelledFetches == t.cancelledFetches + (Fetches(t).Values - Fetches(after).Values)
  {
    assert Fetches(CancelledAll(t)) == map[];
    assert Fetches(t).Values == FetchIds(t.flights) by {
      forall id | id in FetchIds(t.flights) ensures id in Fetches(t).Values {
        var key :| key in t.flights && t.flights[key].fetchId == id;
        assert Fetches(t)[key] == id;
      }
    }
  }

  lemma FinishFetches(settings: R.Settings, s: R.State, e: R.Event, after: Table)
    requires e.Finish? && after == R.Step(settings, s, e).table
    ensures after.nextFetch == s.table.nextFetch && after.cancelledFetches == s.table.cancelledFetches
    ensures Fetches(after) ==
            if IsCurrent(s.table, e.key, e.fetchId) then Fetches(s.table) - {e.key} else Fetches(s.table)
  {
    if IsCurrent(s.table, e.key, e.fetchId) {
      assert after.flights == s.table.flights - {e.key};
    }
  }

  // ---- What the fetcher's steps do to what is live ----

  /** What the network does neither cancels, nor delivers, nor starts a fetch. */
  predicate OnlyAnswers(f: N.Fetcher, g: N.Fetcher) {
    && g.nextId == f.nextId && g.cancelled == f.cancelled && g.delivered == f.delivered && f.calls <= g.calls
    && g.replies.Keys <= f.replies.Keys
  }

  lemma {:induction false} AllFailedAnswers(f: N.Fetcher, order: seq<nat>)
    ensures OnlyAnswers(f, N.AllFailed(f, order))
  {
    if order == [] {
    } else {
      AllFailedAnswers(f, order[..|order| - 1]);
    }
  }

  lemma ReadAnswers(limits: N.Limits, f: N.Fetcher, reply: nat, chunk: Bytes)
    ensures var read := N.Read(limits, f, reply, chunk);
            && OnlyAnswers(f, read)
            && (reply in read.pending ==>
                  reply in f.pending && read.pending[reply].id == f.pending[reply].id && read.replies == f.replies)
  {
  }

  lemma SettledAnswers(limits: N.Limits, f: N.Fetcher, p: N.Pending, r: N.Response, now: int)
    ensures var g := N.Settled(limits, f, p, r, now);
            && g.nextId == f.nextId && g.cancelled == f.cancelled && g.delivered == f.delivered && f.calls <= g.calls
            && g.replies.Keys <= f.replies.Keys + {p.id}
  {
  }

  lemma FinishAnswers(limits: N.Limits, f: N.Fetcher, reply: nat, chunk: Bytes, r: N.Response, now: int)
    requires N.Linked(f.pending, f.replies, f.nextReply)
    ensures OnlyAnswers(f, N.Finished(limits, f, reply, chunk, r, now))
  {
    var read := N.Read(limits, f, reply, chunk);
    ReadAnswers(limits, f, reply, chunk);
    if reply in read.pending {
      SettledAnswers(limits, N.Released(read, reply), read.pending[reply], r, now);
    }
  }

  lemma NetworkAnswers(limits: N.Limits, f: N.Fetcher, e: N.Event)
    requires N.Inv(limits, f) && !e.Fetch? && !e.Cancel? && !e.Dispatch?
    ensures OnlyAnswers(f, N.Step(limits, f, e))
  {
    match e
    case ManagerDestroyed(order) => AllFailedAnswers(f, order);
    case Length(_, _) =>
    case Ready(reply, chunk) => ReadAnswers(limits, f, reply, chunk);
    case Finish(reply, chunk, r, now) => FinishAnswers(limits, f, reply, chunk, r, now);
    case TimedOut(_) =>
    case Destroyed(_) =>
  }

  lemma NetworkKeeps(limits: N.Limits, p: Pipeline, e: N.Event, g: N.Fetcher)
    requires Inv(limits, p) && N.Inv(limits, g) && OnlyAnswers(p.f, g)
    ensures Inv(limits, p.(f := g))
  {
    assert g.calls[..g.delivered] == p.f.calls[..p.f.delivered];
  }

  lemma FetchAnswers(limits: N.Limits, f: N.Fetcher, url: Address, now: int, later: int)
    ensures var g := N.Fetched(limits, f, url, now, later);
            && g.nextId == f.nextId + 1 && g.cancelled == f.cancelled && g.delivered == f.delivered
            && f.calls <= g.calls
            && g.replies.Keys <= f.replies.Keys + {f.nextId}
  {
  }

  /** A new fetch is live, and the others stay so. */
  lemma FetchKeeps(limits: N.Limits, fetches: map<Url, nat>, cancelledFetches: set<nat>, f: N.Fetcher, g: N.Fetcher,
                   keys: map<nat, Url>, key: Url)
    requires N.Inv(limits, f) && Joint(fetches, cancelledFetches, f, keys) && key !in fetches
    requires forall id | id in cancelledFetches :: id < f.nextId
    requires g.nextId == f.nextId + 1 && g.cancelled == f.cancelled && g.delivered == f.delivered && f.calls <= g.calls
    requires g.replies.Keys <= f.replies.Keys + {f.nextId}
    ensures Joint(fetches[key := f.nextId], cancelledFetches, g, keys[f.nextId := key])
  {
    var more := fetches[key := f.nextId];
    assert g.calls[..g.delivered] == f.calls[..f.delivered];
    assert N.Places(f.replies, f.cancelled, f.calls, f.nextId) == 0;
    NotDelivered(f, f.nextId);
    forall id | id in g.replies ensures id in more.Values {
      if id == f.nextId {
        assert more[key] == id;
      } else {
        var other :| other in fetches && fetches[other] == id;
        assert more[other] == id;
      }
    }
    forall other | other in more ensures Live(g, more[other]) && more[other] in keys[f.nextId := key] {
      if other != key {
        assert Live(f, fetches[other]);
      }
    }
  }

  lemma {:induction false} CallsSplit(calls: seq<N.Call>, n: nat, id: nat)
    requires n <= |calls|
    ensures N.CountCalls(calls, id) == N.CountCalls(calls[..n], id) + N.CountCalls(calls[n..], id)
    decreases |calls|
  {
    if n == |calls| {
      assert calls[..n] == calls && calls[n..] == [];
    } else {
      var front := calls[..|calls| - 1];
      CallsSplit(front, n, id);
      assert front[..n] == calls[..n] && front[n..] == calls[n..][..|calls[n..]| - 1];
    }
  }

  lemma NotDelivered(f: N.Fetcher, id: nat)
    requires f.delivered <= |f.calls| && N.CountCalls(f.calls, id) == 0
    ensures N.CountCalls(f.calls[..f.delivered], id) == 0
  {
    CallsSplit(f.calls, f.delivered, id);
  }

  // ---- Cancellation ----

  lemma {:induction false} CancelEachKeeps(limits: N.Limits, f: N.Fetcher, order: seq<nat>)
    requires N.Inv(limits, f)
    ensures N.Inv(limits, CancelEach(f, order))
  {
    if order == [] {
    } else {
      CancelEachKeeps(limits, f, order[..|order| - 1]);
      N.CancelledKeeps(limits, CancelEach(f, order[..|order| - 1]), order[|order| - 1]);
    }
  }

  lemma {:induction false} CancelEachEffect(f: N.Fetcher, order: seq<nat>)
    ensures var (g, listed) := (CancelEach(f, order), set id | id in order);
            && g.nextId == f.nextId && g.calls == f.calls && g.delivered == f.delivered
            && g.replies.Keys == f.replies.Keys - listed
            && g.cancelled == f.cancelled + (f.replies.Keys * listed)
  {
    if order == [] {
    } else {
      var (front, last) := (order[..|order| - 1], order[|order| - 1]);
      CancelEachEffect(f, front);
      assert order == front + [last];
      assert (set id | id in order) == (set id | id in front) + {last};
    }
  }

  /** The fetches of the flights that went are cancelled, the others stay live. */
  lemma DropKeeps(limits: N.Limits, fetches: map<Url, nat>, cancelledFetches: set<nat>, f: N.Fetcher,
                  keys: map<nat, Url>,
                  fewer: map<Url, nat>, order: seq<nat>)
    requires N.Inv(limits, f) && Joint(fetches, cancelledFetches, f, keys)
    requires fewer.Keys <= fetches.Keys && forall key | key in fewer :: fewer[key] == fetches[key]
    requires forall id :: id in order <==> id in fetches.Values - fewer.Values
    ensures Joint(fewer, cancelledFetches + (fetches.Values - fewer.Values), CancelEach(f, order), keys)
  {
    CancelEachEffect(f, order);
    var g := CancelEach(f, order);
    assert (set id | id in order) == fetches.Values - fewer.Values;
    forall key | key in fewer ensures Live(g, fewer[key]) {
      assert Live(f, fetches[key]) && fewer[key] in fewer.Values;
    }
    forall id | id in g.replies ensures id in fewer.Values {
      assert id in fetches.Values;
    }
  }

  // ---- Delivery ----

  /** The flight whose fetch the delivered call answers, if any, is gone. */
  function FetchesAfterCall(fetches: map<Url, nat>, keys: map<nat, Url>, id: nat): map<Url, nat> {
    if id in keys && keys[id] in fetches && fetches[keys[id]] == id then fetches - {keys[id]} else fetches
  }

  lemma DispatchKeeps(fetches: map<Url, nat>, cancelledFetches: set<nat>, f: N.Fetcher, keys: map<nat, Url>)
    requires Joint(fetches, cancelledFetches, f, keys) && f.delivered < |f.calls|
    requires N.EachInOnePlace(f.replies, f.cancelled, f.calls, f.nextId)
    ensures Joint(FetchesAfterCall(fetches, keys, f.calls[f.delivered].id), cancelledFetches,
                  f.(delivered := f.delivered + 1), keys)
  {
    var fewer := FetchesAfterCall(fetches, keys, f.calls[f.delivered].id);
    var (g, made) := (f.(delivered := f.delivered + 1), f.calls[f.delivered].id);
    assert g.calls[..g.delivered] == f.calls[..f.delivered] + [f.calls[f.delivered]];
    forall key | key in fewer ensures Live(g, fewer[key]) {
      assert Live(f, fetches[key]);
      N.CountOneCall(f.calls[..f.delivered], f.calls[f.delivered], fewer[key]);
    }
    CallsSplit(f.calls, g.delivered, made);
    N.CountOneCall(f.calls[..f.delivered], f.calls[f.delivered], made);
    assert N.Places(f.replies, f.cancelled, f.calls, made) <= 1;
    forall id | id in g.replies ensures id in fewer.Values {
      assert id != made;
      var key :| key in fetches && fetches[key] == id;
      assert key in fewer && fewer[key] == id;
    }
  }

  // ---- Every run ----

  lemma RequestKeeps(settings: R.Settings, limits: N.Limits, p: Pipeline, event: Event, after: Pipeline)
    requires Inv(limits, p) && event.Request? && after == Step(settings, limits, p, event)
    ensures Inv(limits, after)
  {
    var e := R.Request(event.target, event.size, event.c, event.at);
    R.StepKeepsTable(settings, p.s, e);
    RequestFetches(settings, p.s, e, R.Step(settings, p.s, e).table);
    if after.f != p.f || after.s.table.nextFetch != p.s.table.nextFetch {
      N.FetchedKeeps(limits, p.f, event.address, event.now, event.later);
      FetchAnswers(limits, p.f, event.address, event.now, event.later);
      FetchKeeps(limits, Fetches(p.s.table), p.s.table.cancelledFetches, p.f, after.f, p.keys, event.target.value);
    }
  }

  lemma CancelKeeps(settings: R.Settings, limits: N.Limits, p: Pipeline, event: Event, after: Pipeline)
    requires Inv(limits, p) && (event.Cancel? || event.CancelAll?)
    requires Allowed(p, event) && after == Step(settings, limits, p, event)
    ensures Inv(limits, after)
  {
    var (before, table) := (p.s.table, after.s.table);
    if event.Cancel? {
      R.StepKeepsTable(settings, p.s, R.Cancel(event.id));
      CancelledFetchIds(before, event.id);
    } else {
      R.StepKeepsTable(settings, p.s, R.CancelAll);
      AllCancelledFetchIds(before);
    }
    CancelEachKeeps(limits, p.f, event.order);
    CancelEachEffect(p.f, event.order);
    DropKeeps(limits, Fetches(before), before.cancelledFetches, p.f, p.keys, Fetches(table), event.order);
  }

  lemma DeliveredParts(settings: R.Settings, limits: N.Limits, p: Pipeline, event: Event, after: Pipeline)
    requires p.f.delivered < |p.f.calls| && event.Dispatch? && after == Step(settings, limits, p, event)
    ensures after.f == p.f.(delivered := p.f.delivered + 1) && after.keys == p.keys
    ensures after.s ==
            if p.f.calls[p.f.delivered].id in p.keys then R.Step(settings, p.s, FinishOf(p, event)) else p.s
  {
  }

  lemma FinishTable(settings: R.Settings, s: R.State, e: R.Event, after: Table)
    requires RequestFlights.Inv(s.table) && e.Finish? && after == R.Step(settings, s, e).table
    ensures RequestFlights.Inv(after)
  {
    R.StepKeepsTable(settings, s, e);
  }

  lemma DeliveryTable(settings: R.Settings, limits: N.Limits, p: Pipeline, event: Event, after: Pipeline)
    requires RequestFlights.Inv(p.s.table) && p.f.delivered < |p.f.calls|
    requires event.Dispatch? && after == Step(settings, limits, p, event)
    ensures RequestFlights.Inv(after.s.table) && after.f == p.f.(delivered := p.f.delivered + 1) && after.keys == p.keys
    ensures after.s.table.nextFetch == p.s.table.nextFetch
    ensures after.s.table.cancelledFetches == p.s.table.cancelledFetches
    ensures Fetches(after.s.table) == FetchesAfterCall(Fetches(p.s.table), p.keys, p.f.calls[p.f.delivered].id)
  {
    DeliveredParts(settings, limits, p, event, after);
    if p.f.calls[p.f.delivered].id in p.keys {
      FinishTable(settings, p.s, FinishOf(p, event), after.s.table);
      FinishFetches(settings, p.s, FinishOf(p, event), after.s.table);
    }
  }

  lemma DeliveryKeeps(settings: R.Settings, limits: N.Limits, p: Pipeline, event: Event, after: Pipeline)
    requires Inv(limits, p) && event.Dispatch? && after == Step(settings, limits, p, event)
    ensures Inv(limits, after)
  {
    if p.f.delivered < |p.f.calls| {
      N.StepKeeps(limits, p.f, N.Dispatch, N.Step(limits, p.f, N.Dispatch));
      DeliveryTable(settings, limits, p, event, after);
      DispatchKeeps(Fetches(p.s.table), p.s.table.cancelledFetches, p.f, p.keys);
    }
  }

  lemma StepKeeps(settings: R.Settings, limits: N.Limits, p: Pipeline, event: Event, after: Pipeline)
    requires Inv(limits, p) && Allowed(p, event) && after == Step(settings, limits, p, event)
    ensures Inv(limits, after)
  {
    match event
    case Request(_, _, _, _, _, _, _) => RequestKeeps(settings, limits, p, event, after);
    case Cancel(_, _) => CancelKeeps(settings, limits, p, event, after);
    case CancelAll(_) => CancelKeeps(settings, limits, p, event, after);
    case Network(e) =>
      N.StepKeeps(limits, p.f, e, after.f);
      NetworkAnswers(limits, p.f, e);
      NetworkKeeps(limits, p, e, after.f);
    case Dispatch(_, _, _) => DeliveryKeeps(settings, limits, p, event, after);
  }

  /** In every state of every run of coordinator and fetcher the invariant holds. */
  lemma RunKeeps(settings: R.Settings, limits: N.Limits, events: seq<Event>, states: seq<Pipeline>)
    requires IsRun(settings, limits, events, states)
    ensures forall i | 0 <= i < |states| :: Inv(limits, states[i])
  {
    R.StartKeepsBooks();
    N.RunKeeps(limits, []);
    var i := 0;
    while i < |events|
      invariant 0 <= i <= |events|
      invariant forall j | 0 <= j <= i :: Inv(limits, states[j])
    {
      StepKeeps(settings, limits, states[i], events[i], states[i + 1]);
      i := i + 1;
    }
  }

  /** No waiter hangs on a dead fetch: the fetch of every flight is in flight itself, or its one result is
      queued and not yet delivered. And no fetch runs that nobody waits for. */
  lemma FlightsAreServed(settings: R.Settings, limits: N.Limits, events: seq<Event>, states: seq<Pipeline>, n: nat,
                         id: nat)
    requires IsRun(settings, limits, events, states) && n < |states|
    ensures var (f, fetches) := (states[n].f, Fetches(states[n].s.table));
            && f.delivered <= |f.calls|
            && (id in f.replies ==> id in fetches.Values)
            && (id in fetches.Values ==>
                  (id in f.replies <==> N.CountCalls(f.calls[f.delivered..], id) == 0)
                  && (id !in f.replies ==> N.CountCalls(f.calls[f.delivered..], id) == 1))
  {
    RunKeeps(settings, limits, events, states);
    var (p, f) := (states[n], states[n].f);
    assert Inv(limits, p);
    if id in Fetches(p.s.table).Values {
      assert Live(f, id);
      CallsSplit(f.calls, f.delivered, id);
      assert N.Places(f.replies, f.cancelled, f.calls, id) == if 0 < id < f.nextId then 1 else 0;
    }
  }

  /** So when the network is done and the queue delivered, no request is left waiting. */
  lemma NobodyWaitsForever(settings: R.Settings, limits: N.Limits, events: seq<Event>, states: seq<Pipeline>, n: nat)
    requires IsRun(settings, limits, events, states) && n < |states|
    requires states[n].f.replies == map[] && states[n].f.delivered == |states[n].f.calls|
    ensures states[n].s.table.requestKeys == map[]
  {
    RunKeeps(settings, limits, events, states);
    var p := states[n];
    assert Inv(limits, p);
    assert p.f.calls[p.f.delivered..] == [];
    forall id ensures id !in Fetches(p.s.table).Values {
      FlightsAreServed(settings, limits, events, states, n, id);
    }
    SomeFetchHasId(Fetches(p.s.table));
    assert Fetches(p.s.table).Keys == p.s.table.flights.Keys;
  }

  lemma SomeFetchHasId(fetches: map<Url, nat>)
    ensures fetches.Values == {} ==> fetches == map[]
  {
    if fetches != map[] {
      var key :| key in fetches;
      assert fetches[key] in fetches.Values;
    }
  }

  /** What the coordinator cancelled, the fetcher cancelled too, or had its result already; and the
      fetcher cancels nothing else. */
  lemma CancelledTogether(settings: R.Settings, limits: N.Limits, events: seq<Event>, states: seq<Pipeline>, n: nat)
    requires IsRun(settings, limits, events, states) && n < |states|
    ensures var (f, cancelledFetches) := (states[n].f, states[n].s.table.cancelledFetches);
            && f.cancelled <= cancelledFetches
            && forall id | id in cancelledFetches - f.cancelled && 0 < id :: N.CountCalls(f.calls, id) == 1
  {
    RunKeeps(settings, limits, events, states);
    var (p, f) := (states[n], states[n].f);
    assert Inv(limits, p);
    forall id | id in p.s.table.cancelledFetches - f.cancelled && 0 < id ensures N.CountCalls(f.calls, id) == 1 {
      assert N.Places(f.replies, f.cancelled, f.calls, id) == if 0 < id < f.nextId then 1 else 0;
    }
  }
}
