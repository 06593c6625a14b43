/** AssetNetworkFetcher as a state machine: fetches, cancellations and what the network does to the
    replies, in any order. Results are queued, then delivered one by one. */
module NetworkFetches {
  import opened Text
  import opened Wrappers
  import opened FetchPolicy

  datatype Failure =
    | BadUrl(fault: UrlFault) | Timeout | NetworkError | ResponseTooLarge | NotModified | MissingLocation
    | TooManyRedirects | RedirectRejected | NotFound | HttpError | UnsupportedContentType

  datatype Outcome = Success(bytes: Bytes, url: Address) | Failed(failure: Failure)

  /** One result handed to a callback. */
  datatype Call = Call(id: nat, outcome: Outcome)

  datatype Pending = Pending(id: nat, bytes: Bytes, redirects: nat, original: Address, url: Address, deadline: int)

  datatype Get = Get(id: nat, url: Address)

  datatype Limits = Limits(maxResponseBytes: nat, maxRedirects: nat, timeout: int, loopback: Loopback)

  /** `pending` is keyed by reply. The first `delivered` of `calls` were made, the others are queued.
      `gets`, `originals` and `cancelled` are history: the requests made, what each fetch was asked for,
      and the fetches cancelled in time. */
  datatype Fetcher = Fetcher(
    pending: map<nat, Pending>, replies: map<nat, nat>, nextId: nat, nextReply: nat, managerAlive: bool,
    calls: seq<Call>, delivered: nat, gets: seq<Get>, originals: map<nat, Address>, cancelled: set<nat>)

  const IDLE := Fetcher(map[], map[], 1, 0, true, [], 0, [], map[], {})

  /** The end of a reply. `location` is the redirection target, resolved. */
  datatype Response = Response(status: Option<int>, location: Option<Address>, broken: bool, imageType: bool)

  // ---- Steps ----

  function Queued(f: Fetcher, id: nat, outcome: Outcome): Fetcher {
    f.(calls := f.calls + [Call(id, outcome)])
  }

  /** startRequest; `now` is when it looks at the clock. */
  function Started(f: Fetcher, p: Pending, now: int): Fetcher {
    if p.deadline <= now then Queued(f, p.id, Failed(Timeout))
    else if !f.managerAlive then Queued(f, p.id, Failed(NetworkError))
    else
      f.(pending := f.pending[f.nextReply := p],
         replies := f.replies[p.id := f.nextReply],
         nextReply := f.nextReply + 1,
         gets := f.gets + [Get(p.id, p.url)])
  }

  /** fetch. */
  function Fetched(limits: Limits, f: Fetcher, url: Address, now: int, later: int): Fetcher {
    Begun(limits, f.(nextId := f.nextId + 1, originals := f.originals[f.nextId := url]), f.nextId, url, now, later)
  }

  /** Why no request is made, if none is. */
  function Refusal(limits: Limits, f: Fetcher, url: Address): Option<Failure> {
    var error := UrlError(limits.loopback, url);
    if !f.managerAlive then Some(NetworkError)
    else if error.Some? then Some(BadUrl(error.value))
    else None
  }

  function Begun(limits: Limits, f: Fetcher, id: nat, url: Address, now: int, later: int): Fetcher {
    var refusal := Refusal(limits, f, url);
    if refusal.Some? then Queued(f, id, Failed(refusal.value))
    else Started(f, Pending(id, [], 0, url, url, now + limits.timeout), later)
  }

  /** A reply out of both tables. */
  function Released(f: Fetcher, reply: nat): Fetcher
    requires reply in f.pending
  {
    f.(pending := f.pending - {reply}, replies := f.replies - {f.pending[reply].id})
  }

  /** failReply, and what else ends a reply early: its timeout or its destruction. */
  function ReplyFailed(f: Fetcher, reply: nat, failure: Failure): Fetcher {
    if reply !in f.pending then f else Queued(Released(f, reply), f.pending[reply].id, Failed(failure))
  }

  /** handleReadyRead. */
  function Read(limits: Limits, f: Fetcher, reply: nat, chunk: Bytes): Fetcher {
    if reply !in f.pending then f
    else
      var p := f.pending[reply];
      if |p.bytes| + |chunk| > limits.maxResponseBytes then ReplyFailed(f, reply, ResponseTooLarge)
      else f.(pending := f.pending[reply := p.(bytes := p.bytes + chunk)])
  }

  /** checkContentLength, given what the header parsed to. */
  function LengthDeclared(limits: Limits, f: Fetcher, reply: nat, length: Option<int>): Fetcher {
    if length.Some? && length.value > limits.maxResponseBytes then ReplyFailed(f, reply, ResponseTooLarge) else f
  }

  datatype Verdict = Deliver(outcome: Outcome) | Follow(url: Address)

  /** What handleFinished decides about a finished reply. */
  function Judge(limits: Limits, p: Pending, r: Response): Verdict {
    if r.status.None? then Deliver(Failed(NetworkError))
    else if r.status.value == 304 then Deliver(Failed(NotModified))
    else if 300 <= r.status.value < 400 then
      if r.location.None? then Deliver(Failed(MissingLocation))
      else if p.redirects >= limits.maxRedirects then Deliver(Failed(TooManyRedirects))
      else
        var to := r.location.value;
        if UrlError(limits.loopback, to).Some? || !RedirectAllowed(limits.loopback, p.original, p.url, to)
        then Deliver(Failed(RedirectRejected))
        else Follow(to)
    else if r.status.value == 404 then Deliver(Failed(NotFound))
    else if r.status.value != 200 then Deliver(Failed(HttpError))
    else if r.broken then Deliver(Failed(NetworkError))
    else if !r.imageType then Deliver(Failed(UnsupportedContentType))
    else Deliver(Success(p.bytes, p.url))
  }

  /** handleFinished; `chunk` is what was left to read. */
  function Finished(limits: Limits, f: Fetcher, reply: nat, chunk: Bytes, r: Response, now: int): Fetcher {
    var read := Read(limits, f, reply, chunk);
    if reply !in read.pending then read
    else Settled(limits, Released(read, reply), read.pending[reply], r, now)
  }

  function Settled(limits: Limits, f: Fetcher, p: Pending, r: Response, now: int): Fetcher {
    match Judge(limits, p, r)
    case Deliver(outcome) => Queued(f, p.id, outcome)
    case Follow(url) => Started(f, p.(bytes := [], redirects := p.redirects + 1, url := url), now)
  }

  function Cancelled(f: Fetcher, id: nat): Fetcher {
    if id !in f.replies then f
    else
      f.(pending := f.pending - {f.replies[id]}, replies := f.replies - {id}, cancelled := f.cancelled + {id})
  }

  /** handleNetworkManagerDestroyed, over the replies in the order the table yields them. */
  function AllFailed(f: Fetcher, order: seq<nat>): Fetcher {
    if order == [] then f else ReplyFailed(AllFailed(f, order[..|order| - 1]), order[|order| - 1], NetworkError)
  }

  datatype Event =
    | Fetch(url: Address, now: int, later: int)
    | Cancel(id: nat)
    | Length(reply: nat, length: Option<int>)
    | Ready(reply: nat, chunk: Bytes)
    | Finish(reply: nat, chunk: Bytes, response: Response, now: int)
    | TimedOut(reply: nat)
    | Destroyed(reply: nat)
    | ManagerDestroyed(order: seq<nat>)
    | Dispatch

  function Step(limits: Limits, f: Fetcher, event: Event): Fetcher {
    match event
    case Fetch(url, now, later) => Fetched(limits, f, url, now, later)
    case Cancel(id) => Cancelled(f, id)
    case Length(reply, length) => LengthDeclared(limits, f, reply, length)
    case Ready(reply, chunk) => Read(limits, f, reply, chunk)
    case Finish(reply, chunk, response, now) => Finished(limits, f, reply, chunk, response, now)
    case TimedOut(reply) => ReplyFailed(f, reply, Timeout)
    case Destroyed(reply) => ReplyFailed(f, reply, NetworkError)
    case ManagerDestroyed(order) => AllFailed(f, order).(managerAlive := false)
    case Dispatch => if f.delivered < |f.calls| then f.(delivered := f.delivered + 1) else f
  }

  function After(limits: Limits, events: seq<Event>): Fetcher {
    if events == [] then IDLE else Step(limits, After(limits, events[..|events| - 1]), events[|events| - 1])
  }

  // ---- The invariant ----

  /** The two tables mirror each other. */
  predicate Linked(pending: map<nat, Pending>, replies: map<nat, nat>, nextReply: nat) {
    && (forall reply | reply in pending ::
         reply < nextReply && pending[reply].id in replies && replies[pending[reply].id] == reply)
    && forall id | id in replies :: replies[id] in pending && pending[replies[id]].id == id
  }

  function CountCalls(calls: seq<Call>, id: nat): nat {
    if calls == [] then 0 else (if calls[|calls| - 1].id == id then 1 else 0) + CountCalls(calls[..|calls| - 1], id)
  }

  function Places(replies: map<nat, nat>, cancelled: set<nat>, calls: seq<Call>, id: nat): nat {
    (if id in replies then 1 else 0) + (if id in cancelled then 1 else 0) + CountCalls(calls, id)
  }

  /** Every fetch is in flight, cancelled, or has one result. */
  ghost predicate EachInOnePlace(replies: map<nat, nat>, cancelled: set<nat>, calls: seq<Call>, nextId: nat) {
    nextId > 0 && forall id: nat :: Places(replies, cancelled, calls, id) == if 0 < id < nextId then 1 else 0
  }

  predicate WithinCap(limits: Limits, outcome: Outcome) {
    outcome.Success? ==> |outcome.bytes| <= limits.maxResponseBytes
  }

  predicate CallsWithinCap(limits: Limits, calls: seq<Call>) {
    forall i | 0 <= i < |calls| :: WithinCap(limits, calls[i].outcome)
  }

  predicate PendingOk(limits: Limits, originals: map<nat, Address>, p: Pending) {
    && |p.bytes| <= limits.maxResponseBytes && p.redirects <= limits.maxRedirects
    && p.id in originals && p.original == originals[p.id]
    && Permitted(limits.loopback, p.original, p.url)
  }

  predicate AllPendingOk(limits: Limits, originals: map<nat, Address>, pending: map<nat, Pending>) {
    forall reply | reply in pending :: PendingOk(limits, originals, pending[reply])
  }

  predicate GetOk(limits: Limits, originals: map<nat, Address>, get: Get) {
    get.id in originals && Permitted(limits.loopback, originals[get.id], get.url)
  }

  predicate GetsOk(limits: Limits, originals: map<nat, Address>, gets: seq<Get>) {
    forall i | 0 <= i < |gets| :: GetOk(limits, originals, gets[i])
  }

  function CountGets(gets: seq<Get>, id: nat): nat {
    if gets == [] then 0 else (if gets[|gets| - 1].id == id then 1 else 0) + CountGets(gets[..|gets| - 1], id)
  }

  /** A reply in flight is the last request of as many as its redirects and one. */
  predicate CountsAgree(pending: map<nat, Pending>, gets: seq<Get>) {
    forall reply | reply in pending :: CountGets(gets, pending[reply].id) == pending[reply].redirects + 1
  }

  ghost predicate CountsBounded(limits: Limits, gets: seq<Get>, nextId: nat) {
    forall id: nat :: CountGets(gets, id) <= if id < nextId then limits.maxRedirects + 1 else 0
  }

  /** All but where each fetch is. */
  ghost predicate Sound(limits: Limits, f: Fetcher) {
    && Linked(f.pending, f.replies, f.nextReply)
    && CallsWithinCap(limits, f.calls) && f.delivered <= |f.calls|
    && AllPendingOk(limits, f.originals, f.pending)
    && GetsOk(limits, f.originals, f.gets)
    && CountsAgree(f.pending, f.gets) && CountsBounded(limits, f.gets, f.nextId)
    && forall id | id in f.originals :: id < f.nextId
  }

  ghost predicate Inv(limits: Limits, f: Fetcher) {
    Sound(limits, f) && EachInOnePlace(f.replies, f.cancelled, f.calls, f.nextId)
  }

  /** Between the end of one reply and what becomes of its fetch, `hole` is nowhere. */
  ghost predicate EachButOne(replies: map<nat, nat>, cancelled: set<nat>, calls: seq<Call>, nextId: nat, hole: nat) {
    && 0 < hole < nextId
    && forall id: nat :: Places(replies, cancelled, calls, id) == if 0 < id < nextId && id != hole then 1 else 0
  }

  ghost predicate Held(limits: Limits, f: Fetcher, hole: nat) {
    Sound(limits, f) && EachButOne(f.replies, f.cancelled, f.calls, f.nextId, hole)
  }

  // ---- What every step keeps ----

  lemma CountOneCall(calls: seq<Call>, call: Call, id: nat)
    ensures CountCalls(calls + [call], id) == CountCalls(calls, id) + if call.id == id then 1 else 0
  {
    assert (calls + [call])[..|calls|] == calls;
  }

  lemma CountOneGet(gets: seq<Get>, get: Get, id: nat)
    ensures CountGets(gets + [get], id) == CountGets(gets, id) + if get.id == id then 1 else 0
  {
    assert (gets + [get])[..|gets|] == gets;
  }

  /** The hole filled: the fetch moves to one place. */
  lemma HoleFilled(replies: map<nat, nat>, cancelled: set<nat>, calls: seq<Call>, nextId: nat, hole: nat,
                   replies': map<nat, nat>, cancelled': set<nat>, calls': seq<Call>)
    requires EachButOne(replies, cancelled, calls, nextId, hole)
    requires || (cancelled' == cancelled && calls' == calls && replies'.Keys == replies.Keys + {hole})
             || (replies' == replies && calls' == calls && cancelled' == cancelled + {hole})
             || (&& replies' == replies && cancelled' == cancelled
                 && exists outcome :: calls' == calls + [Call(hole, outcome)])
    ensures EachInOnePlace(replies', cancelled', calls', nextId)
  {
    forall id: nat ensures Places(replies', cancelled', calls', id) == if 0 < id < nextId then 1 else 0 {
      assert Places(replies, cancelled, calls, id) == if 0 < id < nextId && id != hole then 1 else 0;
      if calls' != calls {
        var outcome :| calls' == calls + [Call(hole, outcome)];
        CountOneCall(calls, Call(hole, outcome), id);
      }
    }
  }

  lemma QueuedKeeps(limits: Limits, f: Fetcher, id: nat, outcome: Outcome)
    requires Held(limits, f, id) && WithinCap(limits, outcome)
    ensures Inv(limits, Queued(f, id, outcome))
  {
    HoleFilled(f.replies, f.cancelled, f.calls, f.nextId, id, f.replies, f.cancelled, f.calls + [Call(id, outcome)]);
  }

  /** A reply taken out of the tables leaves a hole. */
  lemma ReleasedKeeps(limits: Limits, f: Fetcher, reply: nat)
    requires Inv(limits, f) && reply in f.pending
    ensures Held(limits, Released(f, reply), f.pending[reply].id)
  {
    var (after, hole) := (Released(f, reply), f.pending[reply].id);
    assert Places(f.replies, f.cancelled, f.calls, hole) == 1;
    forall id: nat
      ensures Places(after.replies, after.cancelled, after.calls, id) ==
              if 0 < id < f.nextId && id != hole then 1 else 0
    {
      assert Places(f.replies, f.cancelled, f.calls, id) == if 0 < id < f.nextId then 1 else 0;
    }
  }

  lemma ReplyFailedKeeps(limits: Limits, f: Fetcher, reply: nat, failure: Failure)
    requires Inv(limits, f)
    ensures Inv(limits, ReplyFailed(f, reply, failure))
  {
    if reply in f.pending {
      ReleasedKeeps(limits, f, reply);
      QueuedKeeps(limits, Released(f, reply), f.pending[reply].id, Failed(failure));
    }
  }

  lemma StartedCounts(limits: Limits, f: Fetcher, get: Get)
    requires CountsAgree(f.pending, f.gets) && CountsBounded(limits, f.gets, f.nextId)
    requires get.id < f.nextId && CountGets(f.gets, get.id) <= limits.maxRedirects
    requires forall reply | reply in f.pending :: f.pending[reply].id != get.id
    ensures CountsAgree(f.pending, f.gets + [get]) && CountsBounded(limits, f.gets + [get], f.nextId)
    ensures CountGets(f.gets + [get], get.id) == CountGets(f.gets, get.id) + 1
  {
    forall reply | reply in f.pending
      ensures CountGets(f.gets + [get], f.pending[reply].id) == f.pending[reply].redirects + 1
    {
      CountOneGet(f.gets, get, f.pending[reply].id);
    }
    forall id: nat ensures CountGets(f.gets + [get], id) <= if id < f.nextId then limits.maxRedirects + 1 else 0 {
      CountOneGet(f.gets, get, id);
      assert CountGets(f.gets, id) <= if id < f.nextId then limits.maxRedirects + 1 else 0;
    }
    CountOneGet(f.gets, get, get.id);
  }

  lemma StartedLinked(f: Fetcher, p: Pending)
    requires Linked(f.pending, f.replies, f.nextReply) && p.id !in f.replies
    ensures Linked(f.pending[f.nextReply := p], f.replies[p.id := f.nextReply], f.nextReply + 1)
    ensures forall reply | reply in f.pending :: f.pending[reply].id != p.id && reply != f.nextReply
  {
  }

  lemma StartedSound(limits: Limits, f: Fetcher, p: Pending)
    requires Sound(limits, f) && p.id !in f.replies && p.id < f.nextId
    requires PendingOk(limits, f.originals, p) && CountGets(f.gets, p.id) == p.redirects
    ensures Sound(limits, f.(pending := f.pending[f.nextReply := p], replies := f.replies[p.id := f.nextReply],
                             nextReply := f.nextReply + 1, gets := f.gets + [Get(p.id, p.url)]))
  {
    StartedLinked(f, p);
    StartedCounts(limits, f, Get(p.id, p.url));
    CountsWith(f.pending, f.nextReply, p, f.gets + [Get(p.id, p.url)]);
    StartedOk(limits, f.originals, f.pending, f.gets, f.nextReply, p, Get(p.id, p.url));
  }

  lemma StartedOk(limits: Limits, originals: map<nat, Address>, pending: map<nat, Pending>, gets: seq<Get>,
                  reply: nat, p: Pending, get: Get)
    requires AllPendingOk(limits, originals, pending) && GetsOk(limits, originals, gets)
    requires PendingOk(limits, originals, p) && get == Get(p.id, p.url)
    ensures AllPendingOk(limits, originals, pending[reply := p]) && GetsOk(limits, originals, gets + [get])
  {
    assert GetOk(limits, originals, get);
  }

  lemma CountsWith(pending: map<nat, Pending>, reply: nat, p: Pending, gets: seq<Get>)
    requires CountsAgree(pending, gets) && CountGets(gets, p.id) == p.redirects + 1
    ensures CountsAgree(pending[reply := p], gets)
  {
  }

  lemma StartedKeeps(limits: Limits, f: Fetcher, p: Pending, now: int)
    requires Held(limits, f, p.id) && PendingOk(limits, f.originals, p) && CountGets(f.gets, p.id) == p.redirects
    ensures Inv(limits, Started(f, p, now))
  {
    assert Places(f.replies, f.cancelled, f.calls, p.id) == 0;
    if p.deadline <= now || !f.managerAlive {
      QueuedKeeps(limits, f, p.id, if p.deadline <= now then Failed(Timeout) else Failed(NetworkError));
    } else {
      StartedSound(limits, f, p);
      HoleFilled(f.replies, f.cancelled, f.calls, f.nextId, p.id, f.replies[p.id := f.nextReply], f.cancelled, f.calls);
    }
  }

  /** A new fetch is a hole until its first request or its error. */
  lemma Opened(limits: Limits, f: Fetcher, url: Address)
    requires Inv(limits, f)
    ensures Held(limits, f.(nextId := f.nextId + 1, originals := f.originals[f.nextId := url]), f.nextId)
    ensures CountGets(f.gets, f.nextId) == 0
  {
    var after := f.(nextId := f.nextId + 1, originals := f.originals[f.nextId := url]);
    assert CountGets(f.gets, f.nextId) <= 0;
    forall id: nat ensures CountGets(f.gets, id) <= if id < f.nextId + 1 then limits.maxRedirects + 1 else 0 {
      assert CountGets(f.gets, id) <= if id < f.nextId then limits.maxRedirects + 1 else 0;
    }
    forall id: nat
      ensures Places(f.replies, f.cancelled, f.calls, id) == if 0 < id < f.nextId + 1 && id != f.nextId then 1 else 0
    {
      assert Places(f.replies, f.cancelled, f.calls, id) == if 0 < id < f.nextId then 1 else 0;
    }
    assert AllPendingOk(limits, after.originals, after.pending) by {
      forall reply | reply in f.pending ensures PendingOk(limits, after.originals, f.pending[reply]) {
        assert PendingOk(limits, f.originals, f.pending[reply]);
      }
    }
    assert GetsOk(limits, after.originals, after.gets) by {
      forall i | 0 <= i < |f.gets| ensures GetOk(limits, after.originals, f.gets[i]) {
        assert GetOk(limits, f.originals, f.gets[i]);
      }
    }
  }

  lemma FirstIsOk(limits: Limits, f: Fetcher, id: nat, url: Address, deadline: int)
    requires id in f.originals && f.originals[id] == url && UrlError(limits.loopback, url).None?
    ensures PendingOk(limits, f.originals, Pending(id, [], 0, url, url, deadline))
  {
  }

  lemma RefusedKeeps(limits: Limits, f: Fetcher, id: nat, url: Address, now: int, later: int)
    requires Held(limits, f, id) && Refusal(limits, f, url).Some?
    ensures Inv(limits, Begun(limits, f, id, url, now, later))
  {
    QueuedKeeps(limits, f, id, Failed(Refusal(limits, f, url).value));
  }

  lemma FetchedKeeps(limits: Limits, f: Fetcher, url: Address, now: int, later: int)
    requires Inv(limits, f)
    ensures Inv(limits, Fetched(limits, f, url, now, later))
  {
    var begun := f.(nextId := f.nextId + 1, originals := f.originals[f.nextId := url]);
    Opened(limits, f, url);
    if Refusal(limits, begun, url).Some? {
      RefusedKeeps(limits, begun, f.nextId, url, now, later);
    } else {
      var first := Pending(f.nextId, [], 0, url, url, now + limits.timeout);
      FirstIsOk(limits, begun, f.nextId, url, now + limits.timeout);
      StartedKeeps(limits, begun, first, later);
      assert Fetched(limits, f, url, now, later) == Started(begun, first, later);
    }
  }

  lemma ReadKeeps(limits: Limits, f: Fetcher, reply: nat, chunk: Bytes)
    requires Inv(limits, f)
    ensures Inv(limits, Read(limits, f, reply, chunk))
    ensures var read := Read(limits, f, reply, chunk);
            reply in read.pending ==>
                reply in f.pending && read.pending[reply] == f.pending[reply].(bytes := f.pending[reply].bytes + chunk)
  {
    ReplyFailedKeeps(limits, f, reply, ResponseTooLarge);
    if reply in f.pending {
      assert PendingOk(limits, f.originals, f.pending[reply]);
    }
  }

  lemma SettledKeeps(limits: Limits, f: Fetcher, p: Pending, r: Response, now: int)
    requires Held(limits, f, p.id) && PendingOk(limits, f.originals, p) && CountGets(f.gets, p.id) == p.redirects + 1
    ensures Inv(limits, Settled(limits, f, p, r, now))
  {
    match Judge(limits, p, r)
    case Deliver(outcome) => QueuedKeeps(limits, f, p.id, outcome);
    case Follow(url) =>
      HopIsPermitted(limits.loopback, p.original, p.url, url);
      StartedKeeps(limits, f, p.(bytes := [], redirects := p.redirects + 1, url := url), now);
  }

  lemma FinishedKeeps(limits: Limits, f: Fetcher, reply: nat, chunk: Bytes, r: Response, now: int)
    requires Inv(limits, f)
    ensures Inv(limits, Finished(limits, f, reply, chunk, r, now))
  {
    var read := Read(limits, f, reply, chunk);
    ReadKeeps(limits, f, reply, chunk);
    if reply in read.pending {
      ReleasedKeeps(limits, read, reply);
      assert PendingOk(limits, read.originals, read.pending[reply]);
      SettledKeeps(limits, Released(read, reply), read.pending[reply], r, now);
    }
  }

  lemma CancelledKeeps(limits: Limits, f: Fetcher, id: nat)
    requires Inv(limits, f)
    ensures Inv(limits, Cancelled(f, id))
  {
    if id in f.replies {
      var released := Released(f, f.replies[id]);
      ReleasedKeeps(limits, f, f.replies[id]);
      HoleFilled(released.replies, f.cancelled, f.calls, f.nextId, id, released.replies, f.cancelled + {id}, f.calls);
    }
  }

  lemma {:induction false} AllFailedKeeps(limits: Limits, f: Fetcher, order: seq<nat>)
    requires Inv(limits, f)
    ensures Inv(limits, AllFailed(f, order))
  {
    if order == [] {
    } else {
      AllFailedKeeps(limits, f, order[..|order| - 1]);
      ReplyFailedKeeps(limits, AllFailed(f, order[..|order| - 1]), order[|order| - 1], NetworkError);
    }
  }

  lemma StepKeeps(limits: Limits, f: Fetcher, event: Event, after: Fetcher)
    requires Inv(limits, f) && after == Step(limits, f, event)
    ensures Inv(limits, after)
  {
    match event
    case Fetch(url, now, later) => FetchedKeeps(limits, f, url, now, later);
    case Cancel(id) => CancelledKeeps(limits, f, id);
    case Length(reply, length) => ReplyFailedKeeps(limits, f, reply, ResponseTooLarge);
    case Ready(reply, chunk) => ReadKeeps(limits, f, reply, chunk);
    case Finish(reply, chunk, response, now) => FinishedKeeps(limits, f, reply, chunk, response, now);
    case TimedOut(reply) => ReplyFailedKeeps(limits, f, reply, Timeout);
    case Destroyed(reply) => ReplyFailedKeeps(limits, f, reply, NetworkError);
    case ManagerDestroyed(order) => AllFailedKeeps(limits, f, order);
    case Dispatch =>
  }

  lemma {:induction false} RunKeeps(limits: Limits, events: seq<Event>)
    ensures forall f | f == After(limits, events) :: Inv(limits, f)
  {
    if events == [] {
    } else {
      RunKeeps(limits, events[..|events| - 1]);
      StepKeeps(limits, After(limits, events[..|events| - 1]), events[|events| - 1], After(limits, events));
    }
  }

  // ---- What follows for every run ----

  /** At most one request and `maxRedirects` more are made for a fetch. */
  lemma RedirectsAreBounded(limits: Limits, events: seq<Event>, id: nat)
    ensures CountGets(After(limits, events).gets, id) <= limits.maxRedirects + 1
  {
    RunKeeps(limits, events);
    assert Inv(limits, After(limits, events));
  }

  /** Every request over plain http is to a loopback host, on behalf of a fetch that began at one. */
  lemma PlainHttpStaysLocal(limits: Limits, events: seq<Event>, i: nat)
    requires i < |After(limits, events).gets| && After(limits, events).gets[i].url.scheme != "https"
    ensures var (f, get) := (After(limits, events), After(limits, events).gets[i]);
            && get.url.scheme == "http" && limits.loopback(get.url.host)
            && get.id in f.originals && limits.loopback(f.originals[get.id].host)
  {
    RunKeeps(limits, events);
    assert Inv(limits, After(limits, events));
    assert GetOk(limits, After(limits, events).originals, After(limits, events).gets[i]);
  }

  /** Neither a buffer nor a delivered body exceeds the cap. */
  lemma BodiesWithinCap(limits: Limits, events: seq<Event>)
    ensures var f := After(limits, events);
            && (forall reply | reply in f.pending :: |f.pending[reply].bytes| <= limits.maxResponseBytes)
            && (forall i | 0 <= i < |f.calls| && f.calls[i].outcome.Success? ::
                 |f.calls[i].outcome.bytes| <= limits.maxResponseBytes)
  {
    RunKeeps(limits, events);
    var f := After(limits, events);
    assert Inv(limits, f);
    forall reply | reply in f.pending ensures |f.pending[reply].bytes| <= limits.maxResponseBytes {
      assert PendingOk(limits, f.originals, f.pending[reply]);
    }
    forall i | 0 <= i < |f.calls| && f.calls[i].outcome.Success?
      ensures |f.calls[i].outcome.bytes| <= limits.maxResponseBytes
    {
      assert WithinCap(limits, f.calls[i].outcome);
    }
  }

  /** Every fetch has exactly one result, unless it is still in flight or was cancelled in time. */
  lemma OneResultEach(limits: Limits, events: seq<Event>, id: nat)
    ensures var f := After(limits, events);
            CountCalls(f.calls, id) == if 0 < id < f.nextId && id !in f.replies && id !in f.cancelled then 1 else 0
  {
    RunKeeps(limits, events);
    var f := After(limits, events);
    assert Inv(limits, f);
    assert Places(f.replies, f.cancelled, f.calls, id) == if 0 < id < f.nextId then 1 else 0;
  }

  /** Cancelling comes too late exactly for a fetch whose result is queued already: nothing changes, and
      the result is still delivered. */
  lemma CancelTooLate(limits: Limits, events: seq<Event>, id: nat)
    requires 0 < id < After(limits, events).nextId && id !in After(limits, events).cancelled
    ensures var f := After(limits, events);
            CountCalls(f.calls, id) == 1 <==> Step(limits, f, Cancel(id)) == f
  {
    OneResultEach(limits, events, id);
    var f := After(limits, events);
    if id in f.replies {
      assert id in Cancelled(f, id).cancelled;
    }
  }

  // ---- The body ----

  /** The chunks a reply announced while it was pending, in order. */
  function Received(limits: Limits, events: seq<Event>, reply: nat): Bytes {
    if events == [] then []
    else
      var (before, last) := (events[..|events| - 1], events[|events| - 1]);
      Received(limits, before, reply)
      + if last.Ready? && last.reply == reply && reply in After(limits, before).pending then last.chunk else []
  }

  /** No reply is gained but the next one, empty. */
  predicate GainsAtMostOne(pending: map<nat, Pending>, next: nat, pending': map<nat, Pending>, next': nat) {
    && next <= next'
    && forall reply | reply in pending' ::
         (reply in pending && pending'[reply] == pending[reply]) || (reply == next && pending'[reply].bytes == [])
  }

  predicate Gains(f: Fetcher, after: Fetcher) {
    GainsAtMostOne(f.pending, f.nextReply, after.pending, after.nextReply)
  }

  lemma {:induction false} AllFailedGains(f: Fetcher, order: seq<nat>)
    ensures Gains(f, AllFailed(f, order)) && AllFailed(f, order).nextReply == f.nextReply
    ensures AllFailed(f, order).pending.Keys <= f.pending.Keys
  {
    if order == [] {
    } else {
      AllFailedGains(f, order[..|order| - 1]);
    }
  }

  lemma FinishedGains(limits: Limits, f: Fetcher, reply: nat, chunk: Bytes, r: Response, now: int)
    ensures Gains(f, Finished(limits, f, reply, chunk, r, now))
  {
    var read := Read(limits, f, reply, chunk);
    if reply in read.pending {
      assert Released(read, reply).pending == f.pending - {reply};
    }
  }

  lemma OtherStepsGain(limits: Limits, f: Fetcher, event: Event)
    requires !event.Ready?
    ensures Gains(f, Step(limits, f, event))
  {
    match event
    case ManagerDestroyed(order) => AllFailedGains(f, order);
    case Finish(reply, chunk, r, now) => FinishedGains(limits, f, reply, chunk, r, now);
    case Fetch(_, _, _) =>
    case Cancel(_) =>
    case Length(_, _) =>
    case TimedOut(_) =>
    case Destroyed(_) =>
    case Dispatch =>
  }

  /** What one step does to a buffer. */
  predicate BufferStep(f: Fetcher, event: Event, after: Fetcher, reply: nat) {
    && f.nextReply <= after.nextReply
    && (reply in after.pending ==>
          || (reply in f.pending && after.pending[reply].bytes ==
                f.pending[reply].bytes + if event.Ready? && event.reply == reply then event.chunk else [])
          || (reply == f.nextReply && after.pending[reply].bytes == []))
  }

  lemma StepBuffers(limits: Limits, f: Fetcher, event: Event, after: Fetcher, reply: nat)
    requires after == Step(limits, f, event)
    ensures BufferStep(f, event, after, reply)
  {
    if !event.Ready? {
      OtherStepsGain(limits, f, event);
    }
  }

  /** A pending reply has buffered exactly what it announced, nothing lost, repeated or reordered. */
  lemma {:induction false} BufferIsReceived(limits: Limits, events: seq<Event>, reply: nat)
    ensures var f := After(limits, events);
            && (reply in f.pending ==> f.pending[reply].bytes == Received(limits, events, reply))
            && (reply >= f.nextReply ==> Received(limits, events, reply) == [])
  {
    if events == [] {
    } else {
      var before := events[..|events| - 1];
      RunKeeps(limits, before);
      BufferIsReceived(limits, before, reply);
      assert Inv(limits, After(limits, before));
      StepBuffers(limits, After(limits, before), events[|events| - 1], After(limits, events), reply);
    }
  }

  lemma OnlyOkDelivers(limits: Limits, f: Fetcher, p: Pending, r: Response, now: int, outcome: Outcome)
    requires outcome.Success? && Settled(limits, f, p, r, now).calls == f.calls + [Call(p.id, outcome)]
    ensures outcome == Success(p.bytes, p.url) && r.status == Some(200) && !r.broken && r.imageType
  {
    assert Settled(limits, f, p, r, now).calls[|f.calls|] == Call(p.id, outcome);
  }

  /** A fetch succeeds only with a whole body: everything the final reply announced and what was left
      of it at its end, from a 200 response of an image type. */
  lemma SuccessIsWholeBody(limits: Limits, events: seq<Event>, f: Fetcher, reply: nat, chunk: Bytes, r: Response,
                           now: int, outcome: Outcome)
    requires f == After(limits, events) && reply in f.pending && outcome.Success?
    requires Finished(limits, f, reply, chunk, r, now).calls == f.calls + [Call(f.pending[reply].id, outcome)]
    ensures outcome.bytes == Received(limits, events, reply) + chunk && outcome.url == f.pending[reply].url
    ensures r.status == Some(200) && !r.broken && r.imageType
  {
    BufferIsReceived(limits, events, reply);
    assert Finished(limits, f, reply, chunk, r, now).calls[|f.calls|].outcome == outcome;
    var read := Read(limits, f, reply, chunk);
    if reply in read.pending {
      OnlyOkDelivers(limits, Released(read, reply), read.pending[reply], r, now, outcome);
    }
  }

  // ---- What is behind a success ----

  /** The k-th event is the end of the reply the call's body came from: a 200 response of an image type to
      the last request of the call's fetch, whose whole body the call carries. */
  predicate IsReplyOf(limits: Limits, events: seq<Event>, k: nat, call: Call)
    requires k < |events|
  {
    && events[k].Finish? && call.outcome.Success?
    && var (f, Finish(reply, chunk, r, _)) := (After(limits, events[..k]), events[k]);
    && reply in f.pending && f.pending[reply].id == call.id && call.outcome.url == f.pending[reply].url
    && r.status == Some(200) && !r.broken && r.imageType
    && call.outcome.bytes == Received(limits, events[..k], reply) + chunk
  }

  /** Results are only added, and only by the end of a reply do they succeed. */
  predicate AddsFailures(f: Fetcher, after: Fetcher) {
    f.calls <= after.calls && forall i | |f.calls| <= i < |after.calls| :: after.calls[i].outcome.Failed?
  }

  lemma {:induction false} AllFailedAdds(f: Fetcher, order: seq<nat>)
    ensures AddsFailures(f, AllFailed(f, order))
  {
    if order == [] {
    } else {
      AllFailedAdds(f, order[..|order| - 1]);
    }
  }

  lemma OtherStepsAddFailures(limits: Limits, f: Fetcher, event: Event)
    requires !event.Finish?
    ensures AddsFailures(f, Step(limits, f, event))
  {
    match event
    case ManagerDestroyed(order) => AllFailedAdds(f, order);
    case Fetch(_, _, _) =>
    case Cancel(_) =>
    case Length(_, _) =>
    case Ready(_, _) =>
    case TimedOut(_) =>
    case Destroyed(_) =>
    case Dispatch =>
  }

  lemma FinishAddsOne(limits: Limits, f: Fetcher, reply: nat, chunk: Bytes, r: Response, now: int)
    ensures var after := Finished(limits, f, reply, chunk, r, now);
            || after.calls == f.calls
            || (reply in f.pending && exists outcome :: after.calls == f.calls + [Call(f.pending[reply].id, outcome)])
  {
    var read := Read(limits, f, reply, chunk);
    if reply in read.pending {
      SettledAddsOne(limits, Released(read, reply), read.pending[reply], r, now);
    }
  }

  lemma SettledAddsOne(limits: Limits, f: Fetcher, p: Pending, r: Response, now: int)
    ensures var after := Settled(limits, f, p, r, now);
            after.calls == f.calls || exists outcome :: after.calls == f.calls + [Call(p.id, outcome)]
  {
  }

  lemma NewSuccess(limits: Limits, before: seq<Event>, event: Event, i: nat)
    requires var after := Step(limits, After(limits, before), event);
             |After(limits, before).calls| <= i < |after.calls| && after.calls[i].outcome.Success?
    ensures IsReplyOf(limits, before + [event], |before|, Step(limits, After(limits, before), event).calls[i])
  {
    var f := After(limits, before);
    if event.Finish? {
      var Finish(reply, chunk, r, now) := event;
      FinishAddsOne(limits, f, reply, chunk, r, now);
      var outcome := Finished(limits, f, reply, chunk, r, now).calls[i].outcome;
      SuccessIsWholeBody(limits, before, f, reply, chunk, r, now, outcome);
      assert (before + [event])[..|before|] == before;
    } else {
      OtherStepsAddFailures(limits, f, event);
    }
  }

  lemma StepAddsCalls(limits: Limits, f: Fetcher, event: Event)
    ensures f.calls <= Step(limits, f, event).calls
  {
    if event.Finish? {
      FinishAddsOne(limits, f, event.reply, event.chunk, event.response, event.now);
    } else {
      OtherStepsAddFailures(limits, f, event);
    }
  }

  /** Every success of every run carries the whole body of such a reply. */
  lemma {:induction false} SuccessHasReply(limits: Limits, events: seq<Event>, i: nat) returns (k: nat)
    requires i < |After(limits, events).calls| && After(limits, events).calls[i].outcome.Success?
    ensures k < |events| && IsReplyOf(limits, events, k, After(limits, events).calls[i])
  {
    var (before, last) := (events[..|events| - 1], events[|events| - 1]);
    StepAddsCalls(limits, After(limits, before), last);
    if i < |After(limits, before).calls| {
      k := SuccessHasReply(limits, before, i);
      assert before[..k] == events[..k];
    } else {
      NewSuccess(limits, before, last, i);
      assert before + [last] == events;
      k := |before|;
    }
  }
}
