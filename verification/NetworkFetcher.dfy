/** The AssetNetworkFetcher class over the fields it updates in place. The network manager's replies are
    numbered; results are appended to a queue that the event loop delivers later. */
module NetworkFetcher {
  import opened Text
  import opened Wrappers
  import opened FetchPolicy
  import opened NetworkFetches

  class NetworkFetcher {
    const limits: Limits

    var pendingRequests: map<nat, Pending>
    var repliesByRequestId: map<nat, nat>
    var nextRequestId: nat

    /** The network manager: its next reply, whether it still exists, and the requests it was given. */
    var nextReply: nat
    var managerAlive: bool
    var gets: seq<Get>

    /** The queued calls of deliver() and how many of them were made. */
    var calls: seq<Call>
    var delivered: nat

    ghost var originals: map<nat, Address>
    ghost var cancelled: set<nat>

    ghost function State(): Fetcher
      reads this
    {
      Fetcher(pendingRequests, repliesByRequestId, nextRequestId, nextReply, managerAlive, calls, delivered, gets,
              originals, cancelled)
    }

    ghost predicate Valid()
      reads this
    {
      forall f | f == State() :: Inv(limits, f)
    }

    constructor (limits: Limits)
      ensures Valid() && this.limits == limits && State() == IDLE
    {
      this.limits := limits;
      pendingRequests, repliesByRequestId, nextRequestId := map[], map[], 1;
      nextReply, managerAlive, gets, calls, delivered := 0, true, [], [], 0;
      originals, cancelled := map[], {};
      new;
      RunKeeps(limits, []);
    }

    method Fetch(url: Address, now: int, later: int) returns (id: nat)
      requires Valid()
      modifies this
      ensures Valid() && id == old(nextRequestId)
      ensures State() == Step(limits, old(State()), Event.Fetch(url, now, later))
    {
      StepKeeps(limits, State(), Event.Fetch(url, now, later), Step(limits, State(), Event.Fetch(url, now, later)));
      id := Begin(url, now, later);
    }

    method Begin(url: Address, now: int, later: int) returns (id: nat)
      modifies this`pendingRequests, this`repliesByRequestId, this`nextRequestId, this`nextReply, this`gets,
        this`calls, this`originals
      ensures id == old(nextRequestId)
      ensures State() == Fetched(limits, old(State()), url, now, later)
    {
      id := nextRequestId;
      nextRequestId := nextRequestId + 1;
      originals := originals[id := url];
      var error := UrlError(limits.loopback, url);
      if !managerAlive {
        Deliver(id, Failed(NetworkError));
      } else if error.Some? {
        Deliver(id, Failed(BadUrl(error.value)));
      } else {
        StartRequest(id, url, url, 0, now + limits.timeout, later);
      }
    }

    method StartRequest(id: nat, url: Address, original: Address, redirects: nat, deadline: int, now: int)
      modifies this`pendingRequests, this`repliesByRequestId, this`nextReply, this`gets, this`calls
      ensures State() == Started(old(State()), Pending(id, [], redirects, original, url, deadline), now)
    {
      if deadline <= now {
        Deliver(id, Failed(Timeout));
      } else if !managerAlive {
        Deliver(id, Failed(NetworkError));
      } else {
        var reply := nextReply;
        nextReply := nextReply + 1;
        gets := gets + [Get(id, url)];
        pendingRequests := pendingRequests[reply := Pending(id, [], redirects, original, url, deadline)];
        repliesByRequestId := repliesByRequestId[id := reply];
      }
    }

    method Deliver(id: nat, outcome: Outcome)
      modifies this`calls
      ensures calls == old(calls) + [Call(id, outcome)]
    {
      calls := calls + [Call(id, outcome)];
    }

    method Cancel(id: nat)
      requires Valid()
      modifies this`pendingRequests, this`repliesByRequestId, this`cancelled
      ensures Valid()
      ensures State() == Step(limits, old(State()), Event.Cancel(id))
    {
      StepKeeps(limits, State(), Event.Cancel(id), Step(limits, State(), Event.Cancel(id)));
      Withdraw(id);
    }

    method Withdraw(id: nat)
      modifies this`pendingRequests, this`repliesByRequestId, this`cancelled
      ensures State() == Cancelled(old(State()), id)
    {
      if id in repliesByRequestId {
        var reply := repliesByRequestId[id];
        repliesByRequestId := repliesByRequestId - {id};
        pendingRequests := pendingRequests - {reply};
        cancelled := cancelled + {id};
      }
    }

    // ---- What the network does ----

    /** metaDataChanged, with the reply's Content-Length header. */
    method CheckContentLength(reply: nat, header: Bytes)
      requires Valid()
      modifies this`pendingRequests, this`repliesByRequestId, this`calls
      ensures Valid()
      ensures var (digits, f) := (Trimmed(header), old(State()));
              State() == if header != [] && AllDigits(digits) && limits.maxResponseBytes < Value(digits) <= MAX_INT64
                         then ReplyFailed(f, reply, ResponseTooLarge) else f
    {
      ReplyFailedKeeps(limits, State(), reply, ResponseTooLarge);
      var length := ParseContentLength(header);
      if length.Some? && length.value as int > limits.maxResponseBytes {
        FailReply(reply, ResponseTooLarge);
      }
    }

    method ReadyRead(reply: nat, chunk: Bytes)
      requires Valid()
      modifies this`pendingRequests, this`repliesByRequestId, this`calls
      ensures Valid()
      ensures State() == Step(limits, old(State()), Ready(reply, chunk))
    {
      StepKeeps(limits, State(), Ready(reply, chunk), Step(limits, State(), Ready(reply, chunk)));
      HandleReadyRead(reply, chunk);
    }

    method HandleReadyRead(reply: nat, chunk: Bytes)
      modifies this`pendingRequests, this`repliesByRequestId, this`calls
      ensures State() == Read(limits, old(State()), reply, chunk)
    {
      if reply in pendingRequests {
        var p := pendingRequests[reply];
        if |p.bytes| + |chunk| > limits.maxResponseBytes {
          FailReply(reply, ResponseTooLarge);
        } else {
          pendingRequests := pendingRequests[reply := p.(bytes := p.bytes + chunk)];
        }
      }
    }

    method ReplyFinished(reply: nat, chunk: Bytes, response: Response, now: int)
      requires Valid()
      modifies this
      ensures Valid()
      ensures State() == Step(limits, old(State()), Finish(reply, chunk, response, now))
    {
      StepKeeps(limits, State(), Finish(reply, chunk, response, now),
                Step(limits, State(), Finish(reply, chunk, response, now)));
      HandleFinished(reply, chunk, response, now);
    }

    method HandleFinished(reply: nat, chunk: Bytes, response: Response, now: int)
      modifies this`pendingRequests, this`repliesByRequestId, this`nextReply, this`gets, this`calls
      ensures State() == Finished(limits, old(State()), reply, chunk, response, now)
    {
      HandleReadyRead(reply, chunk);
      if reply !in pendingRequests {
        return;
      }
      var pending := pendingRequests[reply];
      repliesByRequestId := repliesByRequestId - {pending.id};
      pendingRequests := pendingRequests - {reply};
      match Judge(limits, pending, response)
      case Deliver(outcome) => Deliver(pending.id, outcome);
      case Follow(url) =>
        StartRequest(pending.id, url, pending.original, pending.redirects + 1, pending.deadline, now);
    }

    method FailReply(reply: nat, failure: Failure)
      modifies this`pendingRequests, this`repliesByRequestId, this`calls
      ensures State() == ReplyFailed(old(State()), reply, failure)
    {
      if reply in pendingRequests {
        var id := pendingRequests[reply].id;
        repliesByRequestId := repliesByRequestId - {id};
        pendingRequests := pendingRequests - {reply};
        Deliver(id, Failed(failure));
      }
    }

    method HandleNetworkManagerDestroyed(order: seq<nat>)
      requires Valid() && forall reply | reply in pendingRequests :: reply in order
      modifies this`pendingRequests, this`repliesByRequestId, this`managerAlive, this`calls
      ensures Valid()
      ensures State() == Step(limits, old(State()), ManagerDestroyed(order))
      ensures pendingRequests == map[] && repliesByRequestId == map[]
    {
      ghost var start := State();
      StepKeeps(limits, start, ManagerDestroyed(order), Step(limits, start, ManagerDestroyed(order)));
      FailAll(order);
      managerAlive := false;
      NothingPending(limits, State());
    }

    method FailAll(order: seq<nat>)
      modifies this`pendingRequests, this`repliesByRequestId, this`calls
      ensures State() == AllFailed(old(State()), order)
      ensures forall reply | reply in pendingRequests :: reply in old(pendingRequests) && reply !in order
    {
      ghost var start := State();
      var i := 0;
      while i < |order|
        invariant 0 <= i <= |order|
        invariant State() == AllFailed(start, order[..i])
        invariant forall reply | reply in pendingRequests :: reply in start.pending && reply !in order[..i]
      {
        assert order[..i + 1][..i] == order[..i];
        FailReply(order[i], NetworkError);
        i := i + 1;
      }
      assert order[..i] == order;
    }

    method Dispatch() returns (made: Option<Call>)
      requires Valid()
      modifies this`delivered
      ensures Valid()
      ensures State() == Step(limits, old(State()), Event.Dispatch)
      ensures made == if old(delivered) < |calls| then Some(calls[old(delivered)]) else None
    {
      StepKeeps(limits, State(), Event.Dispatch, Step(limits, State(), Event.Dispatch));
      made := None;
      if delivered < |calls| {
        made := Some(calls[delivered]);
        delivered := delivered + 1;
      }
    }
  }

  lemma NothingPending(limits: Limits, f: Fetcher)
    requires Inv(limits, f) && forall reply :: reply !in f.pending
    ensures f.pending == map[] && f.replies == map[]
  {
  }
}
