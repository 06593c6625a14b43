/** AssetImageProvider.cpp: the two-thread life of one card image response. The consumer may cancel or
    destroy it at any moment while the worker requests the image; every lock section is one step, and
    the steps of both threads interleave freely. */
module CardImageResponse {
  import opened Wrappers

  /** What the coordinator answers a request with. */
  datatype Answer = Image(pixels: int) | Error(code: int)

  /** AssetCardImageResponseState. The response pointer is kept as whether it is set. */
  datatype Record = Record(
    alive: bool, cancelled: bool, finished: bool, drainPosted: bool, hasResponse: bool,
    result: Option<Answer>, hasCancelCallback: bool, requestId: Option<nat>)

  const NEW_RECORD := Record(true, false, false, false, true, None, false, None)

  // ---- Lock sections ----

  /** cancel(): the new record and whether the cancel callback is to be run. */
  function CancelSection(r: Record): (Record, bool) {
    if !r.alive || r.finished || r.cancelled then (r, false)
    else (r.(alive := false, cancelled := true, hasResponse := false, hasCancelCallback := false), r.hasCancelCallback)
  }

  /** setCancelCallback(): the new record and whether the callback is to be run at once. */
  function SetCallbackSection(r: Record): (Record, bool) {
    if r.cancelled && !r.finished then (r, true) else (r.(hasCancelCallback := true), false)
  }

  /** completeState(): the new record and whether a drain is posted to the response. */
  function CompleteSection(r: Record, answer: Answer): (Record, bool) {
    if !r.alive || r.cancelled || r.finished || r.result.Some? then (r, false)
    else
      var post := r.hasResponse && !r.drainPosted;
      (r.(result := Some(answer), drainPosted := r.drainPosted || post), post)
  }

  /** drainCompletion(): the new record and the answer finished() is emitted with, if any. */
  function DrainSection(r: Record): (Record, Option<Answer>) {
    if !r.alive || r.cancelled || r.finished || r.result.None? then (r.(drainPosted := false), None)
    else
      (r.(result := None, finished := true, alive := false, hasResponse := false, hasCancelCallback := false), r.result)
  }

  /** The posted job's own section: the new record and whether the request is to be cancelled at once. */
  function RegisterSection(r: Record, id: nat): (Record, bool) {
    if !r.alive || r.cancelled then (r, true) else (r.(requestId := Some(id)), false)
  }

  /** The second half of the destructor, after its call of cancel(). */
  function DestroySection(r: Record): Record {
    r.(alive := false, hasResponse := false)
  }

  /** A record is alive until it is cancelled or finished, never both; a stored answer of a live one has
      its drain on the way. */
  predicate RecordOk(r: Record) {
    && !(r.finished && r.cancelled)
    && (r.alive ==> !r.finished && !r.cancelled && r.hasResponse)
    && (r.alive && r.result.Some? ==> r.drainPosted)
  }

  /** The shared record, with every answer its response was finished with. */
  class ResponseState {
    var alive: bool
    var cancelled: bool
    var finished: bool
    var drainPosted: bool
    var hasResponse: bool
    var result: Option<Answer>
    var hasCancelCallback: bool
    var requestId: Option<nat>

    ghost var emissions: seq<Answer>

    ghost function Value(): Record
      reads this
    {
      Record(alive, cancelled, finished, drainPosted, hasResponse, result, hasCancelCallback, requestId)
    }

    ghost predicate Valid()
      reads this
    {
      RecordOk(Value()) && |emissions| == (if finished then 1 else 0)
    }

    constructor ()
      ensures Valid() && Value() == NEW_RECORD && emissions == []
    {
      alive, cancelled, finished, drainPosted, hasResponse := true, false, false, false, true;
      result, hasCancelCallback, requestId := None, false, None;
      emissions := [];
    }

    /** A live response is cancelled for good and hands out its cancel callback, which no later call does
        again; any other is left as it is. */
    method Cancel() returns (runCallback: bool)
      requires Valid()
      modifies this
      ensures (Value(), runCallback) == CancelSection(old(Value()))
      ensures Valid() && emissions == old(emissions)
      ensures !alive
      ensures old(alive) ==> cancelled && !hasCancelCallback && runCallback == old(hasCancelCallback)
      ensures !old(alive) ==> !runCallback && Value() == old(Value())
    {
      if !alive || finished || cancelled {
        return false;
      }
      alive := false;
      cancelled := true;
      hasResponse := false;
      runCallback := hasCancelCallback;
      hasCancelCallback := false;
    }

    /** The callback runs exactly once: now if the cancel came first, else with the cancel. */
    method SetCancelCallback() returns (callImmediately: bool)
      requires Valid()
      modifies this`hasCancelCallback
      ensures (Value(), callImmediately) == SetCallbackSection(old(Value()))
      ensures Valid() && callImmediately == cancelled
      ensures !callImmediately ==> hasCancelCallback
    {
      if cancelled && !finished {
        return true;
      }
      hasCancelCallback := true;
      return false;
    }

    /** Only the first answer of a live response is kept, and it asks for its drain. */
    method CompleteState(answer: Answer) returns (postDrain: bool)
      requires Valid()
      modifies this`result, this`drainPosted
      ensures (Value(), postDrain) == CompleteSection(old(Value()), answer)
      ensures Valid() && (alive ==> result.Some? && drainPosted)
      ensures result == if alive && old(result).None? then Some(answer) else old(result)
    {
      if !alive || cancelled || finished || result.Some? {
        return false;
      }
      result := Some(answer);
      if hasResponse && !drainPosted {
        drainPosted := true;
        return true;
      }
      return false;
    }

    /** finished() is emitted with the stored answer of a live response, and never again. */
    method DrainCompletion() returns (emitted: Option<Answer>)
      requires Valid()
      modifies this
      ensures (Value(), emitted) == DrainSection(old(Value()))
      ensures Valid() && emitted == if old(alive) then old(result) else None
      ensures emissions == old(emissions) + if emitted.Some? then [emitted.value] else []
      ensures emitted.Some? ==> finished && !alive && emissions == [emitted.value]
      ensures cancelled == old(cancelled)
    {
      if !alive || cancelled || finished || result.None? {
        drainPosted := false;
        return None;
      }
      emitted := result;
      result := None;
      finished := true;
      alive := false;
      hasResponse := false;
      hasCancelCallback := false;
      emissions := emissions + [emitted.value];
    }

    /** The id is known to whoever cancels later; if the cancel came first, the job must do it. */
    method RegisterRequest(id: nat) returns (cancelImmediately: bool)
      requires Valid()
      modifies this`requestId
      ensures (Value(), cancelImmediately) == RegisterSection(old(Value()), id)
      ensures Valid() && (cancelImmediately <==> !alive)
      ensures !cancelImmediately ==> requestId == Some(id)
    {
      if !alive || cancelled {
        return true;
      }
      requestId := Some(id);
      return false;
    }

    method Destroy()
      requires Valid()
      modifies this`alive, this`hasResponse
      ensures Value() == DestroySection(old(Value())) && Valid()
    {
      alive := false;
      hasResponse := false;
    }
  }

  /** Of two answers the first is emitted, by the first of two drains; a cancel after it does nothing. */
  method AnsweredTwice(a: Answer, b: Answer) returns (first: Option<Answer>, second: Option<Answer>, callback: bool)
    ensures first == Some(a) && second == None && !callback
  {
    var response := new ResponseState();
    var now := response.SetCancelCallback();
    var post := response.CompleteState(a);
    post := response.CompleteState(b);
    first := response.DrainCompletion();
    second := response.DrainCompletion();
    callback := response.Cancel();
  }

  /** After a cancel no answer is emitted, and of two cancels only the first runs the callback. */
  method CancelledTwice(a: Answer) returns (emitted: Option<Answer>, once: bool, again: bool)
    ensures emitted == None && once && !again
  {
    var response := new ResponseState();
    var now := response.SetCancelCallback();
    once := response.Cancel();
    again := response.Cancel();
    var post := response.CompleteState(a);
    emitted := response.DrainCompletion();
  }

  // ---- The two threads ----

  datatype Job = RequestJob | CancelJob(id: nat) | CancelAllJob

  /** Where the worker is inside a job: before the coordinator request, between the request and the
      record section, or about to cancel a request. */
  datatype Worker = Idle | Requesting | Registering(id: nat) | Cancelling(id: nat)

  /** Where the consumer is inside the cancel callback. */
  datatype Callback = NoCallback | AboutToRead | AboutToPost(id: nat)

  /** How far requestImageResponse has got. */
  datatype Setup = Created | CallbackSet | Posted

  /** The provider: alive, its handle cleared by the destructor, or its cancelAll posted as well. */
  datatype Provider = Serving | Closing | Closed

  /** `waiters` are the coordinator's waiters of this response; `answered` and `delivered` record every
      answer given to the response and every answer finished() was emitted with. */
  datatype World = World(
    record: Record, setup: Setup, callback: Callback, drains: nat,
    provider: Provider, queue: seq<Job>, worker: Worker, waiters: set<nat>,
    answered: seq<Answer>, delivered: seq<Answer>)

  const START := World(NEW_RECORD, Created, NoCallback, 0, Serving, [], Idle, {}, [], [])

  datatype Step =
    | SetCallback
    | PostRequest
    | Cancel
    | CallbackRead
    | CallbackPost
    | Drain
    | Destroy
    | CloseHandle
    | PostCancelAll
    | WorkerTakes
    | WorkerRequests(id: nat, hit: Option<Answer>)
    | WorkerRegisters
    | WorkerCancels
    | FetchFinishes(id: nat, answer: Answer)

  predicate Enabled(w: World, step: Step) {
    match step
    case SetCallback => w.setup.Created? && w.callback.NoCallback?
    case PostRequest => w.setup.CallbackSet?
    case Cancel => w.callback.NoCallback?
    case CallbackRead => w.callback.AboutToRead?
    case CallbackPost => w.callback.AboutToPost?
    case Drain => w.drains > 0
    case Destroy => w.callback.NoCallback? && !w.record.alive
    case CloseHandle => w.provider.Serving?
    case PostCancelAll => w.provider.Closing?
    case WorkerTakes => w.worker.Idle? && w.queue != []
    case WorkerRequests(_, _) => w.worker.Requesting?
    case WorkerRegisters => w.worker.Registering?
    case WorkerCancels => w.worker.Cancelling?
    case FetchFinishes(id, _) => w.worker.Idle? && id in w.waiters
  }

  /** An answer reaches the record, as the request's callback. */
  function Answered(w: World, answer: Answer): World {
    var (record, post) := CompleteSection(w.record, answer);
    w.(record := record, drains := if post then w.drains + 1 else w.drains, answered := w.answered + [answer])
  }

  const UNAVAILABLE := Error(0)

  function Next(w: World, step: Step): World
    requires Enabled(w, step)
  {
    match step
    case SetCallback =>
      var (record, now) := SetCallbackSection(w.record);
      w.(record := record, setup := CallbackSet, callback := if now then AboutToRead else NoCallback)
    case PostRequest =>
      if w.provider.Serving? then w.(setup := Posted, queue := w.queue + [RequestJob])
      else
        // complete(): the drain that complete() itself runs, beside the posted one.
        var answered := Answered(w, UNAVAILABLE);
        answered.(setup := Posted, drains := answered.drains + 1)
    case Cancel =>
      var (record, run) := CancelSection(w.record);
      w.(record := record, callback := if run then AboutToRead else NoCallback)
    case CallbackRead =>
      w.(callback := if w.record.requestId.Some? then AboutToPost(w.record.requestId.value) else NoCallback)
    case CallbackPost =>
      w.(callback := NoCallback,
         queue := if w.provider.Serving? then w.queue + [CancelJob(w.callback.id)] else w.queue)
    case Drain =>
      var (record, emitted) := DrainSection(w.record);
      w.(record := record, drains := w.drains - 1,
         delivered := if emitted.Some? then w.delivered + [emitted.value] else w.delivered)
    case Destroy => w.(record := DestroySection(w.record), drains := 0)
    case CloseHandle => w.(provider := Closing)
    case PostCancelAll => w.(provider := Closed, queue := w.queue + [CancelAllJob])
    case WorkerTakes =>
      var rest := w.(queue := w.queue[1..]);
      match w.queue[0] {
        case CancelAllJob => rest.(waiters := {})
        case RequestJob => if w.provider.Serving? then rest.(worker := Requesting) else rest
        case CancelJob(id) => if w.provider.Serving? then rest.(worker := Cancelling(id)) else rest
      }
    case WorkerRequests(id, hit) =>
      if hit.Some? then Answered(w, hit.value).(worker := Registering(id))
      else w.(waiters := w.waiters + {id}, worker := Registering(id))
    case WorkerRegisters =>
      var (record, now) := RegisterSection(w.record, w.worker.id);
      w.(record := record, worker := if now then Cancelling(w.worker.id) else Idle)
    case WorkerCancels => w.(waiters := w.waiters - {w.worker.id}, worker := Idle)
    case FetchFinishes(id, answer) => Answered(w.(waiters := w.waiters - {id}), answer)
  }

  ghost predicate IsRun(steps: seq<Step>, worlds: seq<World>) {
    && |worlds| == |steps| + 1 && worlds[0] == START
    && forall i | 0 <= i < |steps| :: Enabled(worlds[i], steps[i]) && worlds[i + 1] == Next(worlds[i], steps[i])
  }

  // ---- What every interleaving keeps ----

  /** The three outcomes exclude each other, and finished() goes with exactly one delivery, of the one
      answer given. */
  predicate OutcomeInv(w: World) {
    && RecordOk(w.record)
    && |w.answered| <= 1
    && w.delivered == (if w.record.finished then w.answered else [])
    && (w.record.finished ==> |w.answered| == 1)
    && (w.record.result.Some? ==> w.answered == [w.record.result.value])
  }

  predicate AtMostOneRequestJob(queue: seq<Job>) {
    forall i, j | 0 <= i < j < |queue| :: !(queue[i].RequestJob? && queue[j].RequestJob?)
  }

  predicate NotYetRequested(w: World) {
    w.setup != Posted || RequestJob in w.queue || w.worker.Requesting?
  }

  /** The request is made once. Before that nothing has been answered, nobody waits, and no id is known
      to anyone. */
  predicate RequestInv(w: World) {
    && (NotYetRequested(w) ==>
          && w.answered == [] && w.waiters == {} && w.record.requestId.None?
          && (w.worker.Idle? || w.worker.Requesting?) && !w.callback.AboutToPost?
          && forall job | job in w.queue :: !job.CancelJob?)
    && (w.setup != Posted ==> RequestJob !in w.queue && w.worker.Idle?)
    && (w.worker.Requesting? ==> RequestJob !in w.queue)
    && AtMostOneRequestJob(w.queue)
    && (w.answered != [] ==> w.waiters == {})
    && (forall id | id in w.waiters :: w.waiters == {id})
    && (w.worker.Registering? ==> w.waiters <= {w.worker.id})
  }

  /** Something is under way that will take the waiter `id` off the coordinator. */
  predicate IsDoomed(w: World, id: nat) {
    || w.worker == Registering(id) || w.worker == Cancelling(id)
    || CancelJob(id) in w.queue || w.callback == AboutToPost(id)
    || (w.callback.AboutToRead? && w.record.requestId == Some(id))
  }

  /** A waiter of a response that is no longer alive is doomed, or the provider is going down and
      cancels everything. */
  predicate CleanupInv(w: World) {
    && (w.record.alive && w.setup != Created ==> w.record.hasCancelCallback)
    && (w.record.alive ==>
          w.callback.NoCallback? && !w.worker.Cancelling? && forall job | job in w.queue :: !job.CancelJob?)
    && (forall id | id in w.waiters ::
          w.worker == Registering(id) || w.worker == Cancelling(id) || w.record.requestId == Some(id))
    && (forall id | id in w.waiters && !w.record.alive && w.provider.Serving? :: IsDoomed(w, id))
    && (CancelAllJob in w.queue ==> w.provider.Closed?)
    && (w.provider.Closed? ==> CancelAllJob in w.queue || (w.waiters == {} && w.worker.Idle?))
  }

  /** While the provider serves, a live posted response is still to be requested, is waited for, or has
      an answer with a drain on its way. */
  predicate ProgressInv(w: World) {
    && (!w.record.alive ==> w.record.finished || w.record.cancelled)
    && (w.record.alive && (w.record.result.Some? || w.record.drainPosted) ==> w.drains > 0)
    && (w.record.alive && w.setup.Posted? && w.provider.Serving? ==>
          RequestJob in w.queue || w.worker.Requesting? || w.waiters != {} || w.record.result.Some?)
  }

  ghost predicate Inv(w: World) {
    OutcomeInv(w) && RequestInv(w) && CleanupInv(w) && ProgressInv(w)
  }

  lemma QueueAppend(queue: seq<Job>, job: Job)
    ensures forall j :: j in queue + [job] <==> j in queue || j == job
    ensures AtMostOneRequestJob(queue) && (job.RequestJob? ==> RequestJob !in queue) ==>
      AtMostOneRequestJob(queue + [job])
  {
  }

  lemma QueueTake(queue: seq<Job>)
    requires queue != [] && AtMostOneRequestJob(queue)
    ensures forall j :: j in queue <==> j == queue[0] || j in queue[1..]
    ensures AtMostOneRequestJob(queue[1..])
    ensures queue[0].RequestJob? ==> RequestJob !in queue[1..]
  {
    assert queue == [queue[0]] + queue[1..];
  }

  lemma NextKeepsOutcome(w: World, step: Step)
    requires Inv(w) && Enabled(w, step)
    ensures OutcomeInv(Next(w, step))
  {
  }

  lemma NextKeepsRequest(w: World, step: Step)
    requires Inv(w) && Enabled(w, step)
    ensures RequestInv(Next(w, step))
  {
    if step.WorkerTakes? {
      QueueTake(w.queue);
    } else {
      QueueAppend(w.queue, RequestJob);
      QueueAppend(w.queue, CancelAllJob);
      if step.CallbackPost? {
        QueueAppend(w.queue, CancelJob(w.callback.id));
      }
    }
  }

  lemma NextKeepsCleanup(w: World, step: Step)
    requires Inv(w) && Enabled(w, step)
    ensures CleanupInv(Next(w, step))
  {
    if step.WorkerTakes? {
      QueueTake(w.queue);
    } else {
      QueueAppend(w.queue, RequestJob);
      QueueAppend(w.queue, CancelAllJob);
      if step.CallbackPost? {
        QueueAppend(w.queue, CancelJob(w.callback.id));
      }
    }
  }

  lemma NextKeepsProgress(w: World, step: Step)
    requires Inv(w) && Enabled(w, step)
    ensures ProgressInv(Next(w, step))
  {
    if step.WorkerTakes? {
      QueueTake(w.queue);
    } else {
      QueueAppend(w.queue, RequestJob);
      QueueAppend(w.queue, CancelAllJob);
      if step.CallbackPost? {
        QueueAppend(w.queue, CancelJob(w.callback.id));
      }
    }
  }

  lemma RunKeepsInv(steps: seq<Step>, worlds: seq<World>)
    requires IsRun(steps, worlds)
    ensures forall i | 0 <= i < |worlds| :: Inv(worlds[i])
  {
    var i := 0;
    while i < |steps|
      invariant 0 <= i <= |steps|
      invariant forall j | 0 <= j <= i :: Inv(worlds[j])
    {
      NextKeepsOutcome(worlds[i], steps[i]);
      NextKeepsRequest(worlds[i], steps[i]);
      NextKeepsCleanup(worlds[i], steps[i]);
      NextKeepsProgress(worlds[i], steps[i]);
      i := i + 1;
    }
  }

  // ---- What every interleaving comes to ----

  /** Nothing is left to do on either thread but to wait for fetches and drains. */
  predicate QueuesDrained(w: World) {
    w.callback.NoCallback? && w.worker.Idle? && w.queue == [] && !w.provider.Closing?
  }

  /** In every interleaving finished() is emitted at most once, never after a cancel, and only with the
      answer the coordinator gave. */
  lemma FinishedOrCancelled(steps: seq<Step>, worlds: seq<World>, n: nat)
    requires IsRun(steps, worlds) && n < |worlds|
    ensures !(worlds[n].record.finished && worlds[n].record.cancelled)
    ensures |worlds[n].delivered| == if worlds[n].record.finished then 1 else 0
    ensures worlds[n].delivered <= worlds[n].answered
  {
    RunKeepsInv(steps, worlds);
    assert Inv(worlds[n]);
  }

  /** Outcomes are final: what has been delivered stays, and a cancelled response never delivers. */
  lemma OutcomeIsFinal(steps: seq<Step>, worlds: seq<World>, n: nat, m: nat)
    requires IsRun(steps, worlds) && n <= m < |worlds|
    ensures worlds[n].record.cancelled ==> worlds[m].record.cancelled && worlds[m].delivered == []
    ensures worlds[n].record.finished ==> worlds[m].record.finished && worlds[m].delivered == worlds[n].delivered
  {
    RunKeepsInv(steps, worlds);
    var i: nat := n;
    while i < m
      invariant n <= i <= m
      invariant worlds[n].record.cancelled ==> worlds[i].record.cancelled
      invariant worlds[n].record.finished ==> worlds[i].record.finished && worlds[i].answered == worlds[n].answered
    {
      assert Inv(worlds[i]);
      StaysDecided(worlds[i], steps[i]);
      i := i + 1;
    }
    assert Inv(worlds[n]) && Inv(worlds[m]);
  }

  lemma StaysDecided(w: World, step: Step)
    requires Inv(w) && Enabled(w, step)
    ensures w.record.cancelled ==> Next(w, step).record.cancelled
    ensures w.record.finished ==> Next(w, step).record.finished && Next(w, step).answered == w.answered
  {
  }

  /** No waiter is leaked: once the queues have drained, a response that has been cancelled (or
      destroyed, or finished) has no waiter left at the coordinator, whoever cancelled it. */
  lemma NoWaiterLeaked(steps: seq<Step>, worlds: seq<World>, n: nat)
    requires IsRun(steps, worlds) && n < |worlds|
    requires QueuesDrained(worlds[n]) && !worlds[n].record.alive
    ensures worlds[n].waiters == {}
  {
    RunKeepsInv(steps, worlds);
    assert Inv(worlds[n]);
    if id :| id in worlds[n].waiters {
      assert worlds[n].provider.Serving? ==> IsDoomed(worlds[n], id);
    }
  }

  // ---- Which responses hang ----

  /** The worker takes the request when the provider is gone, or cancels everything while the response
      still waits. */
  predicate Loses(w: World, step: Step) {
    step.WorkerTakes? && w.queue != [] &&
    match w.queue[0]
    case RequestJob => !w.provider.Serving?
    case CancelAllJob => w.waiters != {}
    case CancelJob(_) => false
  }

  ghost predicate IsLost(steps: seq<Step>, worlds: seq<World>, n: nat)
    requires n <= |steps| <= |worlds|
  {
    exists i | 0 <= i < n :: Loses(worlds[i], steps[i])
  }

  /** A lost request is over without an answer; a live response whose request is over without an answer
      or a waiter has been lost. */
  predicate LossInv(w: World, lost: bool) {
    && (lost ==> !NotYetRequested(w) && w.answered == [] && w.waiters == {} && !w.worker.Registering?)
    && (w.record.alive && w.answered != [] ==> w.record.result.Some?)
    && (w.record.alive && !NotYetRequested(w) && w.answered == [] && w.waiters == {} ==> lost)
  }

  lemma NextKeepsLoss(w: World, step: Step, lost: bool)
    requires Inv(w) && Enabled(w, step) && LossInv(w, lost)
    ensures LossInv(Next(w, step), lost || Loses(w, step))
  {
    if step.WorkerTakes? {
      QueueTake(w.queue);
    } else {
      QueueAppend(w.queue, RequestJob);
      QueueAppend(w.queue, CancelAllJob);
      if step.CallbackPost? {
        QueueAppend(w.queue, CancelJob(w.callback.id));
      }
    }
  }

  lemma RunKeepsLoss(steps: seq<Step>, worlds: seq<World>, n: nat)
    requires IsRun(steps, worlds) && n < |worlds|
    ensures LossInv(worlds[n], IsLost(steps, worlds, n))
  {
    RunKeepsInv(steps, worlds);
    var i := 0;
    while i < n
      invariant 0 <= i <= n
      invariant LossInv(worlds[i], IsLost(steps, worlds, i))
    {
      assert Inv(worlds[i]);
      NextKeepsLoss(worlds[i], steps[i], IsLost(steps, worlds, i));
      assert IsLost(steps, worlds, i + 1) <==> IsLost(steps, worlds, i) || Loses(worlds[i], steps[i]);
      i := i + 1;
    }
  }

  /** When nothing is under way any more, a posted response has finished once, or been cancelled, or it
      hangs; and it hangs exactly when it was never cancelled and its request was lost: the job was taken
      with the provider gone, or everything was cancelled while it still waited. */
  lemma EveryResponseSettles(steps: seq<Step>, worlds: seq<World>, n: nat)
    requires IsRun(steps, worlds) && n < |worlds|
    requires QueuesDrained(worlds[n]) && worlds[n].setup.Posted? && worlds[n].waiters == {} && worlds[n].drains == 0
    ensures !worlds[n].record.finished && !worlds[n].record.cancelled
            <==> !worlds[n].record.cancelled && IsLost(steps, worlds, n)
    ensures worlds[n].record.alive <==> !worlds[n].record.finished && !worlds[n].record.cancelled
  {
    RunKeepsInv(steps, worlds);
    assert Inv(worlds[n]);
    RunKeepsLoss(steps, worlds, n);
  }

  lemma ServingStep(w: World, step: Step)
    requires Inv(w) && Enabled(w, step)
    ensures Next(w, step).provider.Serving? ==> w.provider.Serving?
    ensures w.provider.Serving? ==> !Loses(w, step)
  {
  }

  /** While the provider serves no request is lost. */
  lemma ServingLosesNothing(steps: seq<Step>, worlds: seq<World>, n: nat)
    requires IsRun(steps, worlds) && n < |worlds| && worlds[n].provider.Serving?
    ensures !IsLost(steps, worlds, n)
  {
    RunKeepsInv(steps, worlds);
    var i := n;
    while i > 0
      invariant 0 <= i <= n && worlds[i].provider.Serving?
      invariant forall j | i <= j < n :: !Loses(worlds[j], steps[j])
    {
      i := i - 1;
      assert Inv(worlds[i]);
      ServingStep(worlds[i], steps[i]);
    }
  }

  /** Such a response: a provider destroyed under a posted request drops the job, and the response is
      neither finished nor cancelled. */
  lemma ShutdownLeavesResponseHanging() returns (steps: seq<Step>, worlds: seq<World>)
    ensures IsRun(steps, worlds)
    ensures var w := worlds[|worlds| - 1];
            && QueuesDrained(w) && w.setup.Posted? && w.waiters == {} && w.drains == 0
            && !w.record.finished && !w.record.cancelled
  {
    steps, worlds := [], [START];
    steps, worlds := Extended(steps, worlds, SetCallback);
    steps, worlds := Extended(steps, worlds, PostRequest);
    steps, worlds := Extended(steps, worlds, CloseHandle);
    steps, worlds := Extended(steps, worlds, PostCancelAll);
    steps, worlds := Extended(steps, worlds, WorkerTakes);
    steps, worlds := Extended(steps, worlds, WorkerTakes);
  }

  lemma Extended(steps: seq<Step>, worlds: seq<World>, step: Step) returns (steps': seq<Step>, worlds': seq<World>)
    requires IsRun(steps, worlds) && Enabled(worlds[|worlds| - 1], step)
    ensures IsRun(steps', worlds')
    ensures worlds'[|worlds'| - 1] == Next(worlds[|worlds| - 1], step)
  {
    steps', worlds' := steps + [step], worlds + [Next(worlds[|worlds| - 1], step)];
  }
}
