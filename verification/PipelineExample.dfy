/** The classes of the card-image pipeline used together, from an empty cache directory. */
module PipelineExample {
  import opened MemoryKeys
  import opened ImageScaling
  import opened Wrappers
  import opened DiskIndex
  import opened CacheOperations
  import opened CacheCoherence
  import opened CacheExamples
  import opened NegativeCache
  import opened RequestFlights
  import opened ImageRequests
  import AssetCache
  import ImageRequestCoordinator
  import FetchPolicy
  import N = NetworkFetches
  import P = AssetPipeline
  import ImageProvenance

  method NewCache() returns (cache: AssetCache.AssetCache)
    ensures fresh(cache) && cache.Valid() && cache.config == EXAMPLE && cache.apart == {"u", "v", "w"}
    ensures cache.State() == FRESH
  {
    ExampleDigestApart();
    cache := new AssetCache.AssetCache(EXAMPLE, map[], [], {}, map[], Scope({"u", "v", "w"}, {}));
    assert Evicted(EMPTY, EXAMPLE.diskMaxBytes) == EMPTY;
  }

  /** Bytes stored are served from disk once the memory is cleared. */
  method StoreClearLookUp() returns (r: LookupResult)
    ensures r == Hit(true, "v")
  {
    var cache := NewCache();
    ExampleReadable("v");
    StoredIsServed(EXAMPLE, cache.State(), "u", "v", "", FULL_SIZE, CALM, FULL_SIZE, CALM);
    var outcome := cache.Store("u", "v", "", FULL_SIZE, CALM);
    cache.ClearMemory();
    r := cache.Lookup("u", FULL_SIZE, CALM);
  }

  const AT_ONCE := Readings(0, 0, 0)

  lemma NothingRemembered()
    ensures Asked(map[], 256, "u", 0, 0) == (map[], false)
  {
    assert Unexpired(map[], 0) == map[];
  }

  lemma FirstWaits(settings: Settings, cache: Cache, stored: Stored, trusted: set<Url>, size: Size)
    requires settings == Settings(EXAMPLE, 30, 256) && cache == FRESH
    ensures Requested(settings, State(NO_REQUESTS, map[], cache, stored, trusted), Some("u"), size, CALM, AT_ONCE)
            == State(Joined(NO_REQUESTS, "u", NormalizedBound(size)), map[], cache, stored, trusted)
  {
    NothingRemembered();
  }

  /** A request waits for its fetch, and the fetch's bytes call it back with their decode. */
  method RequestAndFetch(size: Size) returns (log: seq<Completion>)
    ensures log == [Completion(1, Delivered("v"))]
  {
    var cache := NewCache();
    var coordinator := new ImageRequestCoordinator.ImageRequestCoordinator(cache, 30, 256);
    FirstWaits(coordinator.SettingsOf(), cache.State(), cache.stored, cache.trusted, size);
    var id := coordinator.RequestCardImage(Some("u"), size, CALM, AT_ONCE);
    assert coordinator.TableState() == Joined(NO_REQUESTS, "u", NormalizedBound(size));
    ghost var s := coordinator.StateOf();
    ghost var calls := FetchServesWaiters(coordinator.SettingsOf(), s, "u", 1, "v", "", k => CALM, AT_ONCE);
    coordinator.HandleFetchFinished("u", 1, Fetched("v", ""), k => CALM, AT_ONCE);
    log := coordinator.log;
  }

  // ---- A run of coordinator and fetcher that delivers an image ----

  const SETTINGS := Settings(EXAMPLE, 30, 256)
  const LIMITS := N.Limits(100, 5, 10, host => false)
  const EACH: nat -> Conditions := k => CALM
  const ADDRESS := FetchPolicy.Address(true, "https", "host", None, "/u", false, false)

  const ASKED := P.Request(Some("u"), ADDRESS, FULL_SIZE, CALM, AT_ONCE, 0, 0)
  const REPLIED := P.Network(N.Finish(0, "v", N.Response(Some(200), None, false, true), 1))
  const CALLED := P.Dispatch("", EACH, AT_ONCE)

  const WAITING: State := State(Joined(NO_REQUESTS, "u", FULL_SIZE), map[], FRESH, map[], {})
  const CALL := N.Call(1, N.Success("v", ADDRESS))

  /** The step is taken, and is one the laws speak of. */
  ghost predicate IsStep(p: P.Pipeline, event: P.Event, after: P.Pipeline) {
    && P.Allowed(p, event) && ImageProvenance.StepApart({"u", "v", "w"}, p, event)
    && after == P.Step(SETTINGS, LIMITS, p, event)
  }

  lemma Asks(asked: P.Pipeline)
    requires asked == P.Step(SETTINGS, LIMITS, P.START, ASKED)
    ensures IsStep(P.START, ASKED, asked)
    ensures asked.s == WAITING && asked.keys == map[1 := "u"]
    ensures asked.f == N.Step(LIMITS, N.IDLE, N.Fetch(ADDRESS, 0, 0))
  {
    FirstWaits(SETTINGS, FRESH, map[], {}, FULL_SIZE);
  }

  lemma Replies(asked: P.Pipeline, replied: P.Pipeline)
    requires asked.f == N.Step(LIMITS, N.IDLE, N.Fetch(ADDRESS, 0, 0))
    requires replied == P.Step(SETTINGS, LIMITS, asked, REPLIED)
    ensures IsStep(asked, REPLIED, replied)
    ensures replied.s == asked.s && replied.keys == asked.keys
    ensures replied.f.calls == [CALL] && replied.f.delivered == 0
  {
    assert asked.f.pending[0] == N.Pending(1, [], 0, ADDRESS, ADDRESS, 10);
    assert [] + "v" == "v";
  }

  lemma IsCalledBack(called: State)
    requires called == Step(SETTINGS, WAITING, Finish("u", 1, Fetched("v", ""), EACH, AT_ONCE))
    ensures called.table.log == [Completion(1, Delivered("v"))]
  {
    var calls := FetchServesWaiters(SETTINGS, WAITING, "u", 1, "v", "", EACH, AT_ONCE);
  }

  lemma Calls(replied: P.Pipeline, called: P.Pipeline)
    requires replied.s == WAITING && replied.keys == map[1 := "u"]
    requires replied.f.calls == [CALL] && replied.f.delivered == 0
    requires called == P.Step(SETTINGS, LIMITS, replied, CALLED)
    ensures IsStep(replied, CALLED, called)
    ensures called.s.table.log == [Completion(1, Delivered("v"))]
  {
    assert P.FinishOf(replied, CALLED) == Finish("u", 1, Fetched("v", ""), EACH, AT_ONCE);
    P.DeliveredParts(SETTINGS, LIMITS, replied, CALLED, called);
    IsCalledBack(called.s);
  }

  ghost predicate AreSteps(events: seq<P.Event>, states: seq<P.Pipeline>) {
    && |states| == |events| + 1 && states[0] == P.START
    && forall i | 0 <= i < |events| :: IsStep(states[i], events[i], states[i + 1])
  }

  lemma StepsAreRun(events: seq<P.Event>, states: seq<P.Pipeline>)
    requires AreSteps(events, states)
    ensures ImageProvenance.IsApartRun(SETTINGS, LIMITS, {"u", "v", "w"}, events, states)
  {
    ExampleDigestApart();
    forall i | 0 <= i < |events|
      ensures P.Allowed(states[i], events[i]) && states[i + 1] == P.Step(SETTINGS, LIMITS, states[i], events[i])
      ensures ImageProvenance.StepApart({"u", "v", "w"}, states[i], events[i])
    {
      assert IsStep(states[i], events[i], states[i + 1]);
    }
  }

  lemma ThreeSteps(events: seq<P.Event>, states: seq<P.Pipeline>)
    requires |events| == 3 && |states| == 4 && states[0] == P.START
    requires IsStep(states[0], events[0], states[1]) && IsStep(states[1], events[1], states[2])
    requires IsStep(states[2], events[2], states[3])
    ensures AreSteps(events, states)
  {
  }

  /** A run as the laws of ImageProvenance want it can deliver an image. */
  lemma SomeRunDelivers() returns (events: seq<P.Event>, states: seq<P.Pipeline>)
    ensures ImageProvenance.IsApartRun(SETTINGS, LIMITS, {"u", "v", "w"}, events, states)
    ensures states[|events|].s.table.log == [Completion(1, Delivered("v"))]
  {
    var asked := P.Step(SETTINGS, LIMITS, P.START, ASKED);
    var replied := P.Step(SETTINGS, LIMITS, asked, REPLIED);
    var called := P.Step(SETTINGS, LIMITS, replied, CALLED);
    Asks(asked);
    Replies(asked, replied);
    Calls(replied, called);
    events, states := [ASKED, REPLIED, CALLED], [P.START, asked, replied, called];
    ThreeSteps(events, states);
    StepsAreRun(events, states);
  }
}
