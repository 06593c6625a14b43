/** How a finished fetch is decoded for its waiters: once per distinct bound, in waiter order, the first
    through store() and the rest through storeMemoryOnly(). */
module FlightDecodes {
  import opened Text
  import opened MemoryKeys
  import opened ImageScaling
  import opened CacheOperations
  import opened CacheCoherence
  import opened RequestFlights

  datatype Payload = Payload(url: Url, bytes: Bytes, contentType: Bytes)

  /** What the k-th decode meets. */
  type Each = nat -> Conditions

  datatype Decodes = Decodes(cache: Cache, bounds: seq<Size>, images: seq<Image>, failed: bool, attempts: nat)

  function Attempt(config: Config, p: Payload, bound: Size, c: Conditions, d: Decodes): Decodes {
    var (cache, outcome) :=
      if d.bounds == [] then Store(config, d.cache, p.url, p.bytes, p.contentType, bound, c)
      else StoreMemoryOnly(config, d.cache, p.url, p.bytes, bound, c);
    match outcome
    case Failed(_) => d.(cache := cache, failed := true, attempts := d.attempts + 1)
    case Decoded(image) =>
      d.(cache := cache, bounds := d.bounds + [bound], images := d.images + [image], attempts := d.attempts + 1)
  }

  /** The decodes after the first `n` waiters. */
  function DecodedFor(config: Config, p: Payload, waiters: seq<Waiter>, each: Each, cache: Cache, n: nat): Decodes
    requires n <= |waiters|
  {
    if n == 0 then Decodes(cache, [], [], false, 0)
    else
      var d := DecodedFor(config, p, waiters, each, cache, n - 1);
      var bound := waiters[n - 1].bound;
      if d.failed || bound in d.bounds then d else Attempt(config, p, bound, each(d.attempts), d)
  }

  /** The image of the first decode at the bound. */
  function ImageFor(bounds: seq<Size>, images: seq<Image>, bound: Size): Image
    requires |bounds| == |images|
  {
    if bounds == [] then [] else if bounds[0] == bound then images[0] else ImageFor(bounds[1..], images[1..], bound)
  }

  function Results(waiters: seq<Waiter>, bounds: seq<Size>, images: seq<Image>, failed: bool): (results: seq<Result>)
    requires |bounds| == |images|
    ensures |results| == |waiters|
    ensures forall i | 0 <= i < |waiters| ::
              results[i] ==
              if failed then Refused(DecodeError) else Delivered(ImageFor(bounds, images, waiters[i].bound))
  {
    if waiters == [] then []
    else
      [if failed then Refused(DecodeError) else Delivered(ImageFor(bounds, images, waiters[0].bound))]
      + Results(waiters[1..], bounds, images, failed)
  }

  // ---- What should happen, said without the cache ----

  /** The bounds of the first `n` waiters, each at its first occurrence. */
  function DistinctBounds(waiters: seq<Waiter>, n: nat): (bounds: seq<Size>)
    requires n <= |waiters|
    ensures forall i | 0 <= i < n :: waiters[i].bound in bounds
    ensures forall i, j | 0 <= i < j < |bounds| :: bounds[i] != bounds[j]
  {
    if n == 0 then []
    else
      var before := DistinctBounds(waiters, n - 1);
      if waiters[n - 1].bound in before then before else before + [waiters[n - 1].bound]
  }

  /** The outcome of decoding the bytes at the k-th distinct bound. */
  function OutcomeAt(config: Config, p: Payload, bounds: seq<Size>, each: Each, k: nat): Outcome
    requires k < |bounds|
  {
    Decode(config, p.bytes, bounds[k], each(k).pressure)
  }

  predicate AllDecoded(config: Config, p: Payload, bounds: seq<Size>, each: Each, d: Decodes) {
    && |d.images| == |d.bounds| <= |bounds| && d.bounds == bounds[..|d.bounds|]
    && forall k | 0 <= k < |d.bounds| :: OutcomeAt(config, p, bounds, each, k) == Decoded(d.images[k])
  }

  /** The decodes made are those of the distinct bounds in order, up to the first that fails. */
  predicate IsDecodePrefix(config: Config, p: Payload, bounds: seq<Size>, each: Each, d: Decodes) {
    && AllDecoded(config, p, bounds, each, d)
    && (if d.failed
        then
          && |d.bounds| < |bounds| && OutcomeAt(config, p, bounds, each, |d.bounds|).Failed?
          && d.attempts == |d.bounds| + 1
        else |d.bounds| == |bounds| && d.attempts == |bounds|)
  }

  lemma AttemptExtends(config: Config, p: Payload, bounds: seq<Size>, bound: Size, each: Each, d: Decodes)
    requires IsDecodePrefix(config, p, bounds, each, d) && !d.failed
    ensures IsDecodePrefix(config, p, bounds + [bound], each, Attempt(config, p, bound, each(d.attempts), d))
  {
    var (after, more) := (Attempt(config, p, bound, each(d.attempts), d), bounds + [bound]);
    assert d.bounds == bounds;
    assert OutcomeAt(config, p, more, each, |bounds|) == Decode(config, p.bytes, bound, each(d.attempts).pressure);
    forall k | 0 <= k < |d.bounds| ensures OutcomeAt(config, p, more, each, k) == Decoded(after.images[k]) {
      assert OutcomeAt(config, p, bounds, each, k) == Decoded(d.images[k]);
    }
  }

  lemma LongerBounds(config: Config, p: Payload, bounds: seq<Size>, bound: Size, each: Each, d: Decodes)
    requires IsDecodePrefix(config, p, bounds, each, d) && d.failed
    ensures IsDecodePrefix(config, p, bounds + [bound], each, d)
  {
    var more := bounds + [bound];
    assert OutcomeAt(config, p, more, each, |d.bounds|) == OutcomeAt(config, p, bounds, each, |d.bounds|);
    forall k | 0 <= k < |d.bounds| ensures OutcomeAt(config, p, more, each, k) == Decoded(d.images[k]) {
      assert OutcomeAt(config, p, bounds, each, k) == Decoded(d.images[k]);
    }
  }

  lemma {:induction false} DecodesArePrefix(config: Config, p: Payload, waiters: seq<Waiter>, each: Each,
                                            cache: Cache, n: nat)
    requires n <= |waiters|
    ensures IsDecodePrefix(config, p, DistinctBounds(waiters, n), each, DecodedFor(config, p, waiters, each, cache, n))
  {
    if n == 0 {
    } else {
      DecodesArePrefix(config, p, waiters, each, cache, n - 1);
      var d := DecodedFor(config, p, waiters, each, cache, n - 1);
      var (before, bound) := (DistinctBounds(waiters, n - 1), waiters[n - 1].bound);
      if bound !in before {
        if d.failed {
          LongerBounds(config, p, before, bound, each, d);
        } else {
          AttemptExtends(config, p, before, bound, each, d);
        }
      }
    }
  }

  lemma {:induction false} ImageForBound(bounds: seq<Size>, images: seq<Image>, bound: Size) returns (k: nat)
    requires |bounds| == |images| && bound in bounds
    ensures k < |bounds| && bounds[k] == bound && ImageFor(bounds, images, bound) == images[k]
  {
    if bounds[0] == bound {
      k := 0;
    } else {
      k := ImageForBound(bounds[1..], images[1..], bound);
      k := k + 1;
    }
  }

  predicate SomeBoundFails(config: Config, p: Payload, waiters: seq<Waiter>, each: Each) {
    var bounds := DistinctBounds(waiters, |waiters|);
    exists k | 0 <= k < |bounds| :: OutcomeAt(config, p, bounds, each, k).Failed?
  }

  /** The call a waiter should get. */
  predicate Serves(config: Config, p: Payload, waiters: seq<Waiter>, each: Each, w: Waiter, call: Completion) {
    && call.id == w.id
    && if SomeBoundFails(config, p, waiters, each) then call.result == Refused(DecodeError)
       else call.result.Delivered? && config.decoder(p.bytes, NormalizedBound(w.bound)) == Decoded(call.result.image)
  }

  /** The number of decodes is the number of distinct bounds, and each waiter has the decode at its own
      bound; but if the decode at any bound fails, decoding stops there. */
  lemma EachWaiterItsBound(config: Config, p: Payload, waiters: seq<Waiter>, each: Each, cache: Cache)
    ensures var d := DecodedFor(config, p, waiters, each, cache, |waiters|);
            && |d.images| == |d.bounds|
            && (d.failed <==> SomeBoundFails(config, p, waiters, each))
            && (!d.failed ==>
                  && d.attempts == |DistinctBounds(waiters, |waiters|)|
                  && forall i | 0 <= i < |waiters| ::
                       config.decoder(p.bytes, NormalizedBound(waiters[i].bound)) ==
                           Decoded(ImageFor(d.bounds, d.images, waiters[i].bound)))
  {
    var bounds := DistinctBounds(waiters, |waiters|);
    var d := DecodedFor(config, p, waiters, each, cache, |waiters|);
    DecodesArePrefix(config, p, waiters, each, cache, |waiters|);
    if !d.failed {
      assert d.bounds == bounds;
      forall i | 0 <= i < |waiters|
        ensures config.decoder(p.bytes, NormalizedBound(waiters[i].bound)) ==
          Decoded(ImageFor(d.bounds, d.images, waiters[i].bound))
      {
        var k := ImageForBound(d.bounds, d.images, waiters[i].bound);
        assert OutcomeAt(config, p, bounds, each, k) == Decoded(d.images[k]);
      }
    } else {
      assert OutcomeAt(config, p, bounds, each, |d.bounds|).Failed?;
    }
  }

  /** So every waiter gets its call, each the image at its own bound, or all the same error. */
  lemma CompletionsServe(config: Config, p: Payload, waiters: seq<Waiter>, each: Each, cache: Cache)
    requires var d := DecodedFor(config, p, waiters, each, cache, |waiters|); |d.images| == |d.bounds|
    ensures var d := DecodedFor(config, p, waiters, each, cache, |waiters|);
            var calls := Completions(waiters, Results(waiters, d.bounds, d.images, d.failed));
            forall i | 0 <= i < |waiters| :: Serves(config, p, waiters, each, waiters[i], calls[i])
  {
    EachWaiterItsBound(config, p, waiters, each, cache);
  }

  // ---- The cache under it ----

  /** What the cache last stored once `d` is made: the payload, as soon as its first decode succeeded. */
  function StoredBy(stored: Stored, p: Payload, d: Decodes): Stored {
    if d.bounds == [] then stored else stored[p.url := p.bytes]
  }

  /** And the URLs it answers for. */
  function ScopeBy(scope: Scope, p: Payload, d: Decodes): Scope {
    if d.bounds == [] then scope else Covering(scope, p.url)
  }

  ghost predicate Agrees(config: Config, scope: Scope, p: Payload, stored: Stored, d: Decodes) {
    Coherent(config, ScopeBy(scope, p, d), d.cache, StoredBy(stored, p, d))
  }

  /** The digests of the URL and the payload differ from those of whatever else comes up. */
  ghost predicate MayStore(config: Config, scope: Scope, p: Payload, each: Each) {
    && IsConfig(config, scope) && p.url in scope.apart && p.bytes in scope.apart
    && forall k :: each(k).now <= MAX_INT64
  }

  lemma AttemptKeeps(config: Config, scope: Scope, p: Payload, bound: Size, each: Each, d: Decodes, stored: Stored,
                     after: Decodes)
    requires MayStore(config, scope, p, each) && Agrees(config, scope, p, stored, d)
    requires after == Attempt(config, p, bound, each(d.attempts), d)
    ensures Agrees(config, scope, p, stored, after)
  {
    var c := each(d.attempts);
    if d.bounds == [] {
      StoreKeeps(config, scope, d.cache, stored, p.url, p.bytes, p.contentType, bound, c);
    } else {
      StoreMemoryOnlyKeeps(config, ScopeBy(scope, p, d), d.cache, StoredBy(stored, p, d), p.url, p.bytes, bound, c);
    }
  }

  ghost predicate AgreesAfter(config: Config, scope: Scope, p: Payload, waiters: seq<Waiter>, each: Each, cache: Cache,
                              stored: Stored, n: nat)
    requires n <= |waiters|
  {
    forall d | d == DecodedFor(config, p, waiters, each, cache, n) :: Agrees(config, scope, p, stored, d)
  }

  lemma WaiterKeeps(config: Config, scope: Scope, p: Payload, waiters: seq<Waiter>, each: Each, cache: Cache,
                    stored: Stored, n: nat)
    requires MayStore(config, scope, p, each) && n < |waiters|
    requires AgreesAfter(config, scope, p, waiters, each, cache, stored, n)
    ensures AgreesAfter(config, scope, p, waiters, each, cache, stored, n + 1)
  {
    var d := DecodedFor(config, p, waiters, each, cache, n);
    assert Agrees(config, scope, p, stored, d);
    if !d.failed && waiters[n].bound !in d.bounds {
      AttemptKeeps(config, scope, p, waiters[n].bound, each, d, stored,
                   DecodedFor(config, p, waiters, each, cache, n + 1));
    }
  }

  lemma NothingDecodedAgrees(config: Config, scope: Scope, p: Payload, waiters: seq<Waiter>, each: Each, cache: Cache,
                             stored: Stored)
    requires Coherent(config, scope, cache, stored)
    ensures AgreesAfter(config, scope, p, waiters, each, cache, stored, 0)
  {
    assert Agrees(config, scope, p, stored, Decodes(cache, [], [], false, 0));
  }

  lemma {:induction false} AllWaitersKeep(config: Config, scope: Scope, p: Payload, waiters: seq<Waiter>, each: Each,
                                          cache: Cache, stored: Stored, n: nat)
    requires MayStore(config, scope, p, each) && n <= |waiters|
    requires AgreesAfter(config, scope, p, waiters, each, cache, stored, 0)
    ensures AgreesAfter(config, scope, p, waiters, each, cache, stored, n)
  {
    if n == 0 {
    } else {
      AllWaitersKeep(config, scope, p, waiters, each, cache, stored, n - 1);
      WaiterKeeps(config, scope, p, waiters, each, cache, stored, n - 1);
    }
  }

  /** storeMemoryOnly is only ever given the bytes the preceding store accepted, so the cache stays
      coherent. */
  lemma DecodesKeepCoherence(config: Config, scope: Scope, p: Payload, waiters: seq<Waiter>, each: Each, cache: Cache,
                             stored: Stored, n: nat)
    requires MayStore(config, scope, p, each) && Coherent(config, scope, cache, stored) && n <= |waiters|
    ensures AgreesAfter(config, scope, p, waiters, each, cache, stored, n)
  {
    NothingDecodedAgrees(config, scope, p, waiters, each, cache, stored);
    AllWaitersKeep(config, scope, p, waiters, each, cache, stored, n);
  }
}
