/** The books AssetImageRequestCoordinator keeps on its requests: flights of waiters that share a fetch,
    the key of each waiting request, and, as history, what was delivered and what was cancelled. */
module RequestFlights {
  import opened MemoryKeys
  import opened ImageScaling
  import opened CacheOperations

  datatype Error = NoUrl | NotFound | DecodeError | FetchError

  datatype Result = Delivered(image: Image) | Refused(error: Error)

  datatype Waiter = Waiter(id: nat, bound: Size)

  datatype Flight = Flight(fetchId: nat, waiters: seq<Waiter>)

  /** One call of a request's callback. */
  datatype Completion = Completion(id: nat, result: Result)

  datatype Table = Table(
    flights: map<Url, Flight>, requestKeys: map<nat, Url>, nextRequest: nat, nextFetch: nat,
    log: seq<Completion>, cancelled: set<nat>, cancelledFetches: set<nat>)

  const NO_REQUESTS := Table(map[], map[], 1, 1, [], {}, {})

  function IdsOf(waiters: seq<Waiter>): set<nat> {
    if waiters == [] then {} else {waiters[0].id} + IdsOf(waiters[1..])
  }

  predicate DistinctIds(waiters: seq<Waiter>) {
    waiters != [] ==> waiters[0].id !in IdsOf(waiters[1..]) && DistinctIds(waiters[1..])
  }

  /** The first waiter with the id taken out. */
  function WithoutWaiter(waiters: seq<Waiter>, id: nat): seq<Waiter> {
    if waiters == [] then []
    else if waiters[0].id == id then waiters[1..]
    else [waiters[0]] + WithoutWaiter(waiters[1..], id)
  }

  function Completions(waiters: seq<Waiter>, results: seq<Result>): (completions: seq<Completion>)
    requires |waiters| == |results|
    ensures |completions| == |waiters|
    ensures forall i | 0 <= i < |waiters| :: completions[i] == Completion(waiters[i].id, results[i])
  {
    if waiters == [] then [] else [Completion(waiters[0].id, results[0])] + Completions(waiters[1..], results[1..])
  }

  function FetchIds(flights: map<Url, Flight>): set<nat> {
    set key | key in flights :: flights[key].fetchId
  }

  // ---- Operations ----

  /** A request answered before it waits. */
  function Answered(t: Table, result: Result): Table {
    t.(nextRequest := t.nextRequest + 1, log := t.log + [Completion(t.nextRequest, result)])
  }

  /** A request that joins the flight for its URL, or starts one. */
  function Joined(t: Table, url: Url, bound: Size): Table {
    var waiter := Waiter(t.nextRequest, bound);
    var waiting := t.(nextRequest := t.nextRequest + 1, requestKeys := t.requestKeys[t.nextRequest := url]);
    if url in t.flights then
      waiting.(flights := t.flights[url := t.flights[url].(waiters := t.flights[url].waiters + [waiter])])
    else
      waiting.(flights := t.flights[url := Flight(t.nextFetch, [waiter])], nextFetch := t.nextFetch + 1)
  }

  function Cancelled(t: Table, id: nat): Table {
    if id !in t.requestKeys then t
    else
      var key := t.requestKeys[id];
      var gone := t.(requestKeys := t.requestKeys - {id}, cancelled := t.cancelled + {id});
      if key !in t.flights then gone
      else
        var flight := t.flights[key];
        var rest := WithoutWaiter(flight.waiters, id);
        if rest == [] then
          gone.(flights := t.flights - {key}, cancelledFetches := t.cancelledFetches + {flight.fetchId})
        else gone.(flights := t.flights[key := flight.(waiters := rest)])
  }

  function CancelledAll(t: Table): Table {
    t.(flights := map[], requestKeys := map[],
       cancelled := t.cancelled + t.requestKeys.Keys, cancelledFetches := t.cancelledFetches + FetchIds(t.flights))
  }

  /** Is this the result of the flight's own fetch? */
  predicate IsCurrent(t: Table, key: Url, fetchId: nat) {
    key in t.flights && t.flights[key].fetchId == fetchId
  }

  /** The flight's waiters completed, in order. */
  function Settled(t: Table, key: Url, results: seq<Result>): Table
    requires key in t.flights && |results| == |t.flights[key].waiters|
  {
    var waiters := t.flights[key].waiters;
    t.(flights := t.flights - {key}, requestKeys := t.requestKeys - IdsOf(waiters),
       log := t.log + Completions(waiters, results))
  }

  // ---- The invariant ----

  predicate FlightOk(key: Url, flight: Flight, requestKeys: map<nat, Url>) {
    && flight.waiters != [] && DistinctIds(flight.waiters)
    && forall id | id in IdsOf(flight.waiters) :: id in requestKeys && requestKeys[id] == key
  }

  /** A request's key is `key` exactly when one waiter with its id sits in the flight for `key`; no
      flight is empty. */
  predicate KeysAgree(flights: map<Url, Flight>, requestKeys: map<nat, Url>) {
    && (forall key | key in flights :: FlightOk(key, flights[key], requestKeys))
    && forall id | id in requestKeys :: requestKeys[id] in flights && id in IdsOf(flights[requestKeys[id]].waiters)
  }

  predicate FetchesAgree(flights: map<Url, Flight>, nextFetch: nat, cancelledFetches: set<nat>) {
    && nextFetch > 0
    && (forall key | key in flights ::
         0 < flights[key].fetchId < nextFetch && flights[key].fetchId !in cancelledFetches)
    && (forall j, k | j in flights && k in flights && flights[j].fetchId == flights[k].fetchId :: j == k)
    && forall id | id in cancelledFetches :: id < nextFetch
  }

  /** How often the request was completed. */
  function Count(log: seq<Completion>, id: nat): nat {
    if log == [] then 0
    else (if log[|log| - 1].id == id then 1 else 0) + Count(log[..|log| - 1], id)
  }

  /** In how many places a request is: waiting, cancelled, and each of its completions. */
  function Places(requestKeys: map<nat, Url>, cancelled: set<nat>, log: seq<Completion>, id: nat): nat {
    (if id in requestKeys then 1 else 0) + (if id in cancelled then 1 else 0) + Count(log, id)
  }

  /** Every issued request is in exactly one place: waiting, cancelled, or completed once. */
  ghost predicate EachInOnePlace(t: Table) {
    && t.nextRequest > 0
    && forall id: nat :: Places(t.requestKeys, t.cancelled, t.log, id) == if 0 < id < t.nextRequest then 1 else 0
  }

  ghost predicate Inv(t: Table) {
    && KeysAgree(t.flights, t.requestKeys)
    && FetchesAgree(t.flights, t.nextFetch, t.cancelledFetches)
    && EachInOnePlace(t)
  }

  // ---- Helpers ----

  lemma {:induction false} CountAppended(a: seq<Completion>, b: seq<Completion>, id: nat)
    ensures Count(a + b, id) == Count(a, id) + Count(b, id)
  {
    if b == [] {
      assert a + b == a;
    } else {
      CountAppended(a, b[..|b| - 1], id);
      assert (a + b)[..|a + b| - 1] == a + b[..|b| - 1];
    }
  }

  lemma {:induction false} CountOfCompletions(waiters: seq<Waiter>, results: seq<Result>, id: nat)
    requires |waiters| == |results| && DistinctIds(waiters)
    ensures Count(Completions(waiters, results), id) == if id in IdsOf(waiters) then 1 else 0
  {
    if waiters == [] {
    } else {
      var first := Completion(waiters[0].id, results[0]);
      CountOfCompletions(waiters[1..], results[1..], id);
      CountAppended([first], Completions(waiters[1..], results[1..]), id);
      assert [first][..0] == [];
    }
  }

  lemma {:induction false} WithoutWaiterIds(waiters: seq<Waiter>, id: nat)
    requires DistinctIds(waiters)
    ensures DistinctIds(WithoutWaiter(waiters, id))
    ensures IdsOf(WithoutWaiter(waiters, id)) == IdsOf(waiters) - {id}
  {
    if waiters == [] || waiters[0].id == id {
    } else {
      WithoutWaiterIds(waiters[1..], id);
      var (rest, after) := (WithoutWaiter(waiters[1..], id), WithoutWaiter(waiters, id));
      assert after[1..] == rest;
    }
  }

  lemma {:induction false} Appended(waiters: seq<Waiter>, w: Waiter)
    requires DistinctIds(waiters) && w.id !in IdsOf(waiters)
    ensures DistinctIds(waiters + [w]) && IdsOf(waiters + [w]) == IdsOf(waiters) + {w.id}
  {
    var after := waiters + [w];
    if waiters == [] {
      assert after[1..] == [];
    } else {
      Appended(waiters[1..], w);
      assert after[1..] == waiters[1..] + [w];
    }
  }

  // ---- What every operation keeps ----

  lemma AnsweredKeeps(t: Table, result: Result)
    requires Inv(t)
    ensures Inv(Answered(t, result))
  {
    var after := Answered(t, result);
    forall id: nat
      ensures Places(after.requestKeys, after.cancelled, after.log, id) == if 0 < id < after.nextRequest then 1 else 0
    {
      CountOne(t.log, Completion(t.nextRequest, result), id);
      assert Places(t.requestKeys, t.cancelled, t.log, id) == if 0 < id < t.nextRequest then 1 else 0;
    }
  }

  lemma CountOne(log: seq<Completion>, c: Completion, id: nat)
    ensures Count(log + [c], id) == Count(log, id) + if c.id == id then 1 else 0
  {
    assert (log + [c])[..|log|] == log;
  }

  /** One flight replaced by one whose ids differ from the old flight's only in `id`. */
  lemma OneFlightChanged(flights: map<Url, Flight>, requestKeys: map<nat, Url>, key: Url, flight: Flight,
                         keys: map<nat, Url>)
    requires KeysAgree(flights, requestKeys) && FlightOk(key, flight, keys)
    requires forall id | id in requestKeys && requestKeys[id] != key :: id in keys && keys[id] == requestKeys[id]
    requires forall id | id in keys ::
      id in IdsOf(flight.waiters) || (id in requestKeys && requestKeys[id] == keys[id] != key)
    ensures KeysAgree(flights[key := flight], keys)
  {
    var after := flights[key := flight];
    forall other | other in after ensures FlightOk(other, after[other], keys) {
      if other != key {
        assert FlightOk(other, flights[other], requestKeys);
      }
    }
  }

  lemma OneFlightGone(flights: map<Url, Flight>, requestKeys: map<nat, Url>, key: Url, keys: map<nat, Url>)
    requires KeysAgree(flights, requestKeys)
    requires forall id | id in requestKeys && requestKeys[id] != key :: id in keys && keys[id] == requestKeys[id]
    requires forall id | id in keys :: id in requestKeys && requestKeys[id] == keys[id] != key
    ensures KeysAgree(flights - {key}, keys)
  {
    forall other | other in flights - {key} ensures FlightOk(other, (flights - {key})[other], keys) {
      assert FlightOk(other, flights[other], requestKeys);
    }
  }

  /** The keys of a flight are exactly its waiters'. */
  lemma KeysOfFlight(flights: map<Url, Flight>, requestKeys: map<nat, Url>, key: Url, id: nat)
    requires KeysAgree(flights, requestKeys) && key in flights
    ensures id in IdsOf(flights[key].waiters) <==> id in requestKeys && requestKeys[id] == key
  {
    assert FlightOk(key, flights[key], requestKeys);
  }

  lemma JoinedKeys(t: Table, url: Url, bound: Size)
    requires KeysAgree(t.flights, t.requestKeys) && t.nextRequest !in t.requestKeys
    ensures KeysAgree(Joined(t, url, bound).flights, Joined(t, url, bound).requestKeys)
  {
    var waiter := Waiter(t.nextRequest, bound);
    var waiters := if url in t.flights then t.flights[url].waiters else [];
    var flight := Flight(if url in t.flights then t.flights[url].fetchId else t.nextFetch, waiters + [waiter]);
    var keys := t.requestKeys[t.nextRequest := url];
    if url in t.flights {
      assert FlightOk(url, t.flights[url], t.requestKeys);
    }
    Appended(waiters, waiter);
    assert FlightOk(url, flight, keys);
    OneFlightChanged(t.flights, t.requestKeys, url, flight, keys);
    assert url !in t.flights ==> waiters + [waiter] == [waiter];
    assert Joined(t, url, bound).flights == t.flights[url := flight] && Joined(t, url, bound).requestKeys == keys;
  }

  lemma JoinedKeeps(t: Table, url: Url, bound: Size)
    requires Inv(t)
    ensures Inv(Joined(t, url, bound))
  {
    var after := Joined(t, url, bound);
    assert Places(t.requestKeys, t.cancelled, t.log, t.nextRequest) == 0;
    JoinedKeys(t, url, bound);
    JoinedFetches(t, url, bound);
    forall id: nat
      ensures Places(after.requestKeys, after.cancelled, after.log, id) == if 0 < id < after.nextRequest then 1 else 0
    {
      assert Places(t.requestKeys, t.cancelled, t.log, id) == if 0 < id < t.nextRequest then 1 else 0;
    }
  }

  lemma JoinedFetches(t: Table, url: Url, bound: Size)
    requires FetchesAgree(t.flights, t.nextFetch, t.cancelledFetches)
    ensures var after := Joined(t, url, bound); FetchesAgree(after.flights, after.nextFetch, after.cancelledFetches)
  {
  }

  lemma CancelledKeys(t: Table, id: nat)
    requires KeysAgree(t.flights, t.requestKeys)
    ensures KeysAgree(Cancelled(t, id).flights, Cancelled(t, id).requestKeys)
  {
    if id in t.requestKeys {
      var key := t.requestKeys[id];
      var (flight, keys) := (t.flights[key], t.requestKeys - {id});
      var rest := WithoutWaiter(flight.waiters, id);
      assert FlightOk(key, flight, t.requestKeys);
      WithoutWaiterIds(flight.waiters, id);
      if rest == [] {
        OneFlightGone(t.flights, t.requestKeys, key, keys);
      } else {
        OneFlightChanged(t.flights, t.requestKeys, key, flight.(waiters := rest), keys);
      }
    }
  }

  lemma CancelledFetches(t: Table, id: nat)
    requires FetchesAgree(t.flights, t.nextFetch, t.cancelledFetches)
    ensures var after := Cancelled(t, id); FetchesAgree(after.flights, after.nextFetch, after.cancelledFetches)
  {
  }

  lemma CancelledMoves(t: Table, id: nat)
    ensures var after := Cancelled(t, id);
            && after.requestKeys == t.requestKeys - {id} && after.log == t.log && after.nextRequest == t.nextRequest
            && after.cancelled == t.cancelled + if id in t.requestKeys then {id} else {}
  {
  }

  lemma CancelledKeeps(t: Table, id: nat)
    requires Inv(t)
    ensures Inv(Cancelled(t, id))
  {
    var after := Cancelled(t, id);
    CancelledKeys(t, id);
    CancelledFetches(t, id);
    CancelledMoves(t, id);
    forall other: nat
      ensures Places(after.requestKeys, after.cancelled, after.log, other) ==
              if 0 < other < after.nextRequest then 1 else 0
    {
      assert Places(t.requestKeys, t.cancelled, t.log, other) == if 0 < other < t.nextRequest then 1 else 0;
    }
  }

  lemma CancelledAllKeeps(t: Table)
    requires Inv(t)
    ensures Inv(CancelledAll(t))
  {
    var after := CancelledAll(t);
    forall id: nat
      ensures Places(after.requestKeys, after.cancelled, after.log, id) == if 0 < id < after.nextRequest then 1 else 0
    {
      assert Places(t.requestKeys, t.cancelled, t.log, id) == if 0 < id < t.nextRequest then 1 else 0;
    }
  }

  lemma SettledKeys(t: Table, key: Url, results: seq<Result>)
    requires KeysAgree(t.flights, t.requestKeys) && key in t.flights && |results| == |t.flights[key].waiters|
    ensures KeysAgree(Settled(t, key, results).flights, Settled(t, key, results).requestKeys)
    ensures forall id | id in IdsOf(t.flights[key].waiters) :: id in t.requestKeys
    ensures DistinctIds(t.flights[key].waiters)
  {
    assert FlightOk(key, t.flights[key], t.requestKeys);
    OneFlightGone(t.flights, t.requestKeys, key, t.requestKeys - IdsOf(t.flights[key].waiters));
  }

  lemma SettledKeeps(t: Table, key: Url, results: seq<Result>)
    requires Inv(t) && key in t.flights && |results| == |t.flights[key].waiters|
    ensures Inv(Settled(t, key, results))
  {
    var (after, waiters) := (Settled(t, key, results), t.flights[key].waiters);
    SettledKeys(t, key, results);
    forall id: nat
      ensures Places(after.requestKeys, after.cancelled, after.log, id) == if 0 < id < after.nextRequest then 1 else 0
    {
      assert Places(t.requestKeys, t.cancelled, t.log, id) == if 0 < id < t.nextRequest then 1 else 0;
      CountAppended(t.log, Completions(waiters, results), id);
      CountOfCompletions(waiters, results, id);
    }
  }

  // ---- The order of the waiters ----

  /** First come, first in line: ids are given in order. */
  predicate Ascending(waiters: seq<Waiter>) {
    waiters != [] ==> (forall id | id in IdsOf(waiters[1..]) :: waiters[0].id < id) && Ascending(waiters[1..])
  }

  predicate InLine(flights: map<Url, Flight>) {
    forall key | key in flights :: Ascending(flights[key].waiters)
  }

  lemma {:induction false} AscendingAppended(waiters: seq<Waiter>, w: Waiter)
    requires Ascending(waiters) && DistinctIds(waiters) && forall id | id in IdsOf(waiters) :: id < w.id
    ensures Ascending(waiters + [w])
  {
    var after := waiters + [w];
    if waiters == [] {
      assert after[1..] == [];
    } else {
      assert IdsOf(waiters) == {waiters[0].id} + IdsOf(waiters[1..]);
      AscendingAppended(waiters[1..], w);
      Appended(waiters[1..], w);
      assert after[1..] == waiters[1..] + [w];
    }
  }

  lemma {:induction false} AscendingWithout(waiters: seq<Waiter>, id: nat)
    requires Ascending(waiters) && DistinctIds(waiters)
    ensures Ascending(WithoutWaiter(waiters, id))
  {
    if waiters == [] || waiters[0].id == id {
    } else {
      AscendingWithout(waiters[1..], id);
      WithoutWaiterIds(waiters[1..], id);
      assert WithoutWaiter(waiters, id)[1..] == WithoutWaiter(waiters[1..], id);
    }
  }

  lemma JoinedInLine(t: Table, url: Url, bound: Size)
    requires Inv(t) && InLine(t.flights)
    ensures InLine(Joined(t, url, bound).flights)
  {
    var waiters := if url in t.flights then t.flights[url].waiters else [];
    if url in t.flights {
      assert FlightOk(url, t.flights[url], t.requestKeys);
    }
    forall id | id in IdsOf(waiters) ensures id < t.nextRequest {
      assert Places(t.requestKeys, t.cancelled, t.log, id) == if 0 < id < t.nextRequest then 1 else 0;
    }
    AscendingAppended(waiters, Waiter(t.nextRequest, bound));
    assert [] + [Waiter(t.nextRequest, bound)] == [Waiter(t.nextRequest, bound)];
  }

  lemma CancelledInLine(t: Table, id: nat)
    requires Inv(t) && InLine(t.flights)
    ensures InLine(Cancelled(t, id).flights)
  {
    if id in t.requestKeys {
      var key := t.requestKeys[id];
      assert FlightOk(key, t.flights[key], t.requestKeys);
      AscendingWithout(t.flights[key].waiters, id);
    }
  }
}
