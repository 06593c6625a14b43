/** InputRouter.cpp: which key events of the installed target are consumed, and what they dispatch. */
module InputRouter {
  import opened Wrappers
  import IM = InputMapper

  /** The identity of an object the router may be installed on. */
  type Target = nat

  /** An event as the filter sees it; modifiers still include the keypad bit. */
  datatype QEvent =
    | KeyTransition(pk: IM.PhysicalKey, press: bool, repeat: bool)
    | FocusOrActivationLost
    | OtherEvent

  datatype Router = Router(
    mapper: IM.Mapper, installed: Option<Target>,
    explicitlySuspended: bool, automaticDetection: bool, effectiveSuspended: bool)

  /** `textFocus` is what the query for a focused text-entry control would answer at that moment. */
  datatype Op =
    | Deliver(watched: Target, event: QEvent, textFocus: bool)
    | Install(target: Target, sameThread: bool)
    | Uninstall
    | TargetDestroyed
    | SetSuspended(suspended: bool, textFocus: bool)
    | SetAutomaticDetection(enabled: bool, textFocus: bool)
    | Rebind(change: IM.Event)

  /** Whether the filter consumes the event, and the command it dispatches. */
  datatype Outcome = Outcome(consumed: bool, dispatched: Option<IM.Dispatched>)

  const IGNORED := Outcome(false, None)

  function Cleared(m: IM.Mapper): IM.Mapper { m.(held := map[]) }

  function IsSuspended(r: Router, textFocus: bool): bool {
    r.explicitlySuspended || (r.automaticDetection && r.installed.Some? && textFocus)
  }

  /** refreshTextEntrySuspension. */
  function Refresh(r: Router, textFocus: bool): Router {
    if IsSuspended(r, textFocus) == r.effectiveSuspended then r
    else r.(effectiveSuspended := !r.effectiveSuspended, mapper := Cleared(r.mapper))
  }

  function WithoutKeypad(pk: IM.PhysicalKey): IM.PhysicalKey {
    pk.(modifiers := pk.modifiers - {IM.Keypad})
  }

  /** A key is the router's own if its hold is armed, or if it is up and bound. */
  predicate IsOwned(m: IM.Mapper, pk: IM.PhysicalKey) {
    if pk.key in m.held then m.held[pk.key].Some? else pk in m.bindings
  }

  function HandleKey(r: Router, raw: IM.PhysicalKey, press: bool, repeat: bool): (Router, Outcome) {
    if r.effectiveSuspended then (r, IGNORED)
    else
      var pk := WithoutKeypad(raw);
      var (mapper, dispatched) := IM.Process(r.mapper, pk, press, repeat);
      (r.(mapper := mapper), Outcome(dispatched.Some? || IsOwned(r.mapper, pk), dispatched))
  }

  predicate IsHandled(r: Router, op: Op) {
    op.Deliver? && r.installed == Some(op.watched) && op.event.KeyTransition?
  }

  function Apply(r: Router, op: Op): (Router, Outcome) {
    match op
    case Deliver(watched, event, textFocus) =>
      if r.installed != Some(watched) || event.OtherEvent? then (r, IGNORED)
      else if event.FocusOrActivationLost? then (r.(mapper := Cleared(r.mapper)), IGNORED)
      else HandleKey(Refresh(r, textFocus), event.pk, event.press, event.repeat)
    case Install(target, sameThread) =>
      (if !sameThread || r.installed == Some(target) then r
       else r.(mapper := Cleared(r.mapper), installed := Some(target)), IGNORED)
    case Uninstall => (r.(mapper := Cleared(r.mapper), installed := None), IGNORED)
    case TargetDestroyed => (r.(installed := None), IGNORED)
    case SetSuspended(suspended, textFocus) => (Refresh(r.(explicitlySuspended := suspended), textFocus), IGNORED)
    case SetAutomaticDetection(enabled, textFocus) => (Refresh(r.(automaticDetection := enabled), textFocus), IGNORED)
    case Rebind(change) => (if change.KeyEvent? then r else r.(mapper := IM.Apply(r.mapper, change).0), IGNORED)
  }

  const INITIAL := Router(IM.Run([]), None, false, true, false)

  function RunFrom(r: Router, ops: seq<Op>): Router {
    if ops == [] then r else Apply(RunFrom(r, ops[..|ops| - 1]), ops[|ops| - 1]).0
  }

  // ---- Suspension ----

  /** While suspended the router holds no key. */
  predicate Valid(r: Router) { r.effectiveSuspended ==> r.mapper.held == map[] }

  lemma ApplyKeeps(r: Router, op: Op)
    requires Valid(r)
    ensures Valid(Apply(r, op).0)
  {
  }

  lemma {:induction false} RunKeeps(ops: seq<Op>)
    ensures Valid(RunFrom(INITIAL, ops))
  {
    if ops == [] {
    } else {
      RunKeeps(ops[..|ops| - 1]);
      ApplyKeeps(RunFrom(INITIAL, ops[..|ops| - 1]), ops[|ops| - 1]);
    }
  }

  /** A handled key event under suspension is neither consumed nor dispatched and touches no binding:
      it is as if the router were not there. */
  lemma SuspendedIsTransparent(r: Router, op: Op)
    requires Valid(r) && IsHandled(r, op) && IsSuspended(r, op.textFocus)
    ensures Apply(r, op).1 == IGNORED
    ensures Apply(r, op).0.mapper == Cleared(r.mapper)
  {
  }

  lemma QuietStep(r: Router, op: Op)
    requires Valid(r) && !IsHandled(r, op)
    ensures var t := Apply(r, op).0;
            && Valid(t) && (t.effectiveSuspended == r.effectiveSuspended || t.mapper.held == map[])
            && (r.mapper.held == map[] ==> t.mapper.held == map[])
  {
    match op
    case Rebind(change) =>
      if !change.KeyEvent? {
        IM.OnlyKeysHold(r.mapper, change);
      }
    case Deliver(_, _, _) =>
    case Install(_, _) =>
    case Uninstall =>
    case TargetDestroyed =>
    case SetSuspended(_, _) =>
    case SetAutomaticDetection(_, _) =>
  }

  /** Between two handled key events, either the effective suspension is still what it was or every
      hold has been forgotten. */
  lemma {:induction false} QuietRun(r: Router, ops: seq<Op>)
    requires Valid(r)
    requires forall n | 0 <= n < |ops| :: !IsHandled(RunFrom(r, ops[..n]), ops[n])
    ensures var t := RunFrom(r, ops); t.effectiveSuspended == r.effectiveSuspended || t.mapper.held == map[]
    ensures Valid(RunFrom(r, ops))
  {
    if ops == [] {
    } else {
      var front := ops[..|ops| - 1];
      assert forall n | 0 <= n < |front| :: front[..n] == ops[..n] && front[n] == ops[n];
      QuietRun(r, front);
      QuietStep(RunFrom(r, front), ops[|front|]);
    }
  }

  /** So if suspension differs between two successive handled key events, the second one meets an empty
      held table: no hold spans a suspension change. */
  lemma NoHoldSpansSuspension(r: Router, ops: seq<Op>, second: Op)
    requires Valid(r)
    requires forall n | 0 <= n < |ops| :: !IsHandled(RunFrom(r, ops[..n]), ops[n])
    requires IsHandled(RunFrom(r, ops), second)
    requires IsSuspended(RunFrom(r, ops), second.textFocus) != r.effectiveSuspended
    ensures Refresh(RunFrom(r, ops), second.textFocus).mapper.held == map[]
  {
    QuietRun(r, ops);
  }

  /** Nor does any hold survive into a newly installed target. */
  lemma FreshTargetHoldsNothing(r: Router, target: Target)
    requires r.installed != Some(target)
    ensures var t := Apply(r, Install(target, true)).0; t.installed == Some(target) && t.mapper.held == map[]
  {
  }

  // ---- Consumption ----

  /** `op` is a key event for `k` that the router decides while not suspended. */
  predicate Decides(r: Router, op: Op, k: IM.Key) {
    IsHandled(r, op) && op.event.pk.key == k && !IsSuspended(r, op.textFocus)
  }

  lemma HeldVerdict(r: Router, op: Op, k: IM.Key)
    requires Decides(r, op, k) && k in r.mapper.held && Valid(r)
    ensures Apply(r, op).1.consumed <==> r.mapper.held[k].Some?
  {
  }

  lemma HeldStays(r: Router, op: Op, k: IM.Key)
    requires Valid(r) && k in r.mapper.held && k in Apply(r, op).0.mapper.held
    ensures Apply(r, op).0.mapper.held[k] == r.mapper.held[k]
  {
  }

  /** All events of one physical hold get the same verdict. After a fresh press of `k`, whatever happens
      while the hold lasts (remaps of its own key included), its next event is consumed exactly if the
      press was, which is exactly if the key was bound at that press. */
  lemma {:induction false} HoldVerdict(r: Router, press: Op, ops: seq<Op>, later: Op, k: IM.Key)
    requires Valid(r) && Decides(r, press, k) && press.event.press && !press.event.repeat
    requires k !in Refresh(r, press.textFocus).mapper.held
    requires forall n | 0 <= n <= |ops| :: k in RunFrom(Apply(r, press).0, ops[..n]).mapper.held
    requires Decides(RunFrom(Apply(r, press).0, ops), later, k)
    ensures Apply(r, press).1.consumed <==> WithoutKeypad(press.event.pk) in r.mapper.bindings
    ensures Apply(RunFrom(Apply(r, press).0, ops), later).1.consumed <==> Apply(r, press).1.consumed
  {
    ApplyKeeps(r, press);
    HeldThroughout(Apply(r, press).0, ops, k);
    assert ops[..|ops|] == ops;
    HeldVerdict(RunFrom(Apply(r, press).0, ops), later, k);
  }

  lemma {:induction false} HeldThroughout(r: Router, ops: seq<Op>, k: IM.Key)
    requires Valid(r)
    requires forall n | 0 <= n <= |ops| :: k in RunFrom(r, ops[..n]).mapper.held
    ensures k in r.mapper.held && k in RunFrom(r, ops).mapper.held
    ensures RunFrom(r, ops).mapper.held[k] == r.mapper.held[k]
    ensures Valid(RunFrom(r, ops))
  {
    assert ops[..|ops|] == ops && RunFrom(r, ops[..0]) == r;
    if ops == [] {
    } else {
      var front := ops[..|ops| - 1];
      assert forall n | 0 <= n <= |front| :: front[..n] == ops[..n];
      HeldThroughout(r, front, k);
      HeldStays(RunFrom(r, front), ops[|front|], k);
      ApplyKeeps(RunFrom(r, front), ops[|front|]);
    }
  }

  // ---- Where the verdict is not that of the present binding ----

  const ON_TARGET := Apply(INITIAL, Op.Install(0, true)).0

  function KeyOp(pk: IM.PhysicalKey, press: bool): Op { Deliver(0, KeyTransition(pk, press, false), false) }

  /** The key pressed, then the bindings changed. */
  function Changed(pk: IM.PhysicalKey, change: IM.Event): Router {
    Apply(Apply(ON_TARGET, KeyOp(pk, true)).0, Rebind(change)).0
  }

  const KEY_F := IM.Plain(0x46)
  const KEY_X := IM.Plain(IM.KEY_X)

  /** F, pressed unbound and bound while held: its release is not consumed though F is bound by then. */
  lemma BoundWhileHeld()
    ensures var r := Changed(KEY_F, IM.Remap(KEY_F, IM.Inspect));
            KEY_F in r.mapper.bindings && Apply(r, KeyOp(KEY_F, false)).1 == IGNORED
  {
    assert WithoutKeypad(KEY_F) == KEY_F && KEY_F !in ON_TARGET.mapper.bindings;
  }

  /** X, pressed bound and unbound while held: its release is consumed, and dispatched, though X is
      unbound by then. */
  lemma UnboundWhileHeld()
    ensures var r := Changed(KEY_X, IM.Unbind(KEY_X));
            && KEY_X !in r.mapper.bindings
            && Apply(r, KeyOp(KEY_X, false)).1 == Outcome(true, Some(IM.Dispatched(IM.Inspect, IM.Released)))
  {
    assert WithoutKeypad(KEY_X) == KEY_X;
  }

  // ---- Dispatch ----

  /** The mapper's own events that an operation amounts to. */
  function MapperEvents(r: Router, op: Op): seq<IM.Event> {
    match op
    case Deliver(watched, event, textFocus) =>
      if r.installed != Some(watched) || event.OtherEvent? then []
      else if event.FocusOrActivationLost? then [IM.ClearHeldKeys]
      else
        RefreshEvents(r, textFocus)
        + if IsSuspended(r, textFocus) then [] else [IM.KeyEvent(WithoutKeypad(event.pk), event.press, event.repeat)]
    case Install(target, sameThread) =>
      if !sameThread || r.installed == Some(target) then [] else [IM.ClearHeldKeys]
    case Uninstall => [IM.ClearHeldKeys]
    case TargetDestroyed => []
    case SetSuspended(suspended, textFocus) => RefreshEvents(r.(explicitlySuspended := suspended), textFocus)
    case SetAutomaticDetection(enabled, textFocus) => RefreshEvents(r.(automaticDetection := enabled), textFocus)
    case Rebind(change) => if change.KeyEvent? then [] else [change]
  }

  function RefreshEvents(r: Router, textFocus: bool): seq<IM.Event> {
    if IsSuspended(r, textFocus) == r.effectiveSuspended then [] else [IM.ClearHeldKeys]
  }

  function EventsOf(ops: seq<Op>): seq<IM.Event> {
    if ops == [] then []
    else EventsOf(ops[..|ops| - 1]) + MapperEvents(RunFrom(INITIAL, ops[..|ops| - 1]), ops[|ops| - 1])
  }

  lemma OneMore(events: seq<IM.Event>, e: IM.Event)
    ensures IM.Run(events + [e]) == IM.Apply(IM.Run(events), e).0
    ensures IM.OutputAt(events + [e], |events|) == IM.Apply(IM.Run(events), e).1
  {
    assert (events + [e])[..|events|] == events;
  }

  lemma RefreshIsEvents(r: Router, textFocus: bool, events: seq<IM.Event>)
    requires r.mapper == IM.Run(events)
    ensures Refresh(r, textFocus).mapper == IM.Run(events + RefreshEvents(r, textFocus))
  {
    OneMore(events, IM.ClearHeldKeys);
    assert events + [] == events;
  }

  lemma KeyIsEvents(r: Router, watched: Target, event: QEvent, textFocus: bool, events: seq<IM.Event>)
    requires r.mapper == IM.Run(events) && r.installed == Some(watched) && event.KeyTransition?
    ensures var op := Deliver(watched, event, textFocus);
            var all := events + MapperEvents(r, op);
            && Apply(r, op).0.mapper == IM.Run(all)
            && (Apply(r, op).1.dispatched.Some? ==>
                  |all| > 0 && IM.OutputAt(all, |all| - 1) == Apply(r, op).1.dispatched)
  {
    RefreshIsEvents(r, textFocus, events);
    var refreshed := events + RefreshEvents(r, textFocus);
    if IsSuspended(r, textFocus) {
      assert events + (RefreshEvents(r, textFocus) + []) == refreshed;
    } else {
      var key := IM.KeyEvent(WithoutKeypad(event.pk), event.press, event.repeat);
      OneMore(refreshed, key);
      assert events + (RefreshEvents(r, textFocus) + [key]) == refreshed + [key];
      assert |refreshed + [key]| - 1 == |refreshed|;
    }
  }

  lemma OtherOpIsEvents(r: Router, op: Op, events: seq<IM.Event>)
    requires r.mapper == IM.Run(events) && !IsHandled(r, op)
    ensures Apply(r, op).0.mapper == IM.Run(events + MapperEvents(r, op)) && Apply(r, op).1.dispatched.None?
  {
    assert events + [] == events;
    match op
    case Rebind(change) => OneMore(events, change);
    case SetSuspended(suspended, textFocus) =>
      RefreshIsEvents(r.(explicitlySuspended := suspended), textFocus, events);
    case SetAutomaticDetection(enabled, textFocus) =>
      RefreshIsEvents(r.(automaticDetection := enabled), textFocus, events);
    case _ => OneMore(events, IM.ClearHeldKeys);
  }

  /** What one operation does to the mapper and dispatches is what its mapper events do. */
  lemma StepIsEvents(r: Router, op: Op, events: seq<IM.Event>)
    requires r.mapper == IM.Run(events)
    ensures Apply(r, op).0.mapper == IM.Run(events + MapperEvents(r, op))
    ensures Apply(r, op).1.dispatched.Some? ==>
              var all := events + MapperEvents(r, op);
              |all| > 0 && IM.OutputAt(all, |all| - 1) == Apply(r, op).1.dispatched
  {
    if IsHandled(r, op) {
      KeyIsEvents(r, op.watched, op.event, op.textFocus, events);
    } else {
      OtherOpIsEvents(r, op, events);
    }
  }

  /** Every run of the router is a run of the mapper ... */
  lemma {:induction false} RunIsMapperRun(ops: seq<Op>)
    ensures RunFrom(INITIAL, ops).mapper == IM.Run(EventsOf(ops))
  {
    if ops == [] {
    } else {
      RunIsMapperRun(ops[..|ops| - 1]);
      StepIsEvents(RunFrom(INITIAL, ops[..|ops| - 1]), ops[|ops| - 1], EventsOf(ops[..|ops| - 1]));
    }
  }

  /** ... and every command it dispatches is the output of that run's last event; so the hold laws of
      InputMapper hold of what the router dispatches. */
  lemma DispatchIsMapperOutput(ops: seq<Op>, op: Op)
    requires Apply(RunFrom(INITIAL, ops), op).1.dispatched.Some?
    ensures var events := EventsOf(ops) + MapperEvents(RunFrom(INITIAL, ops), op);
            |events| > 0 && IM.OutputAt(events, |events| - 1) == Apply(RunFrom(INITIAL, ops), op).1.dispatched
  {
    RunIsMapperRun(ops);
    StepIsEvents(RunFrom(INITIAL, ops), op, EventsOf(ops));
  }

  // ---- The object ----

  class InputRouter {
    const mapper: IM.InputMapper
    var installedTarget: Option<Target>
    var explicitlySuspended: bool
    var automaticDetectionEnabled: bool
    var effectiveSuspended: bool

    ghost function State(): Router
      reads this, mapper
    {
      Router(mapper.State(), installedTarget, explicitlySuspended, automaticDetectionEnabled, effectiveSuspended)
    }

    /** While suspended no key is held, and the mapper's reserved keys are bound. */
    ghost predicate IsValid()
      reads this, mapper
    {
      Valid(State()) && mapper.Valid()
    }

    /** The mapper is borrowed. */
    constructor (mapper: IM.InputMapper)
      requires mapper.Valid()
      ensures this.mapper == mapper && IsValid()
      ensures State() == INITIAL.(mapper := mapper.State())
    {
      this.mapper := mapper;
      installedTarget, explicitlySuspended, automaticDetectionEnabled, effectiveSuspended := None, false, true, false;
    }

    method Install(target: Target, sameThread: bool) returns (ok: bool)
      requires IsValid()
      modifies this, mapper
      ensures IsValid()
      ensures State() == Apply(old(State()), Op.Install(target, sameThread)).0
      ensures ok <==> sameThread
    {
      if !sameThread {
        return false;
      }
      if installedTarget == Some(target) {
        return true;
      }
      Uninstall();
      installedTarget := Some(target);
      return true;
    }

    method Uninstall()
      requires IsValid()
      modifies this, mapper
      ensures IsValid()
      ensures State() == Apply(old(State()), Op.Uninstall).0
    {
      installedTarget := None;
      mapper.ClearHeldKeys();
    }

    method IsTextEntrySuspended(textFocus: bool) returns (suspended: bool)
      ensures suspended == IsSuspended(State(), textFocus)
    {
      suspended := explicitlySuspended || (automaticDetectionEnabled && installedTarget.Some? && textFocus);
    }

    method SetSemanticInputSuspended(suspended: bool, textFocus: bool)
      requires IsValid()
      modifies this, mapper
      ensures IsValid()
      ensures State() == Apply(old(State()), SetSuspended(suspended, textFocus)).0
    {
      explicitlySuspended := suspended;
      RefreshTextEntrySuspension(textFocus);
    }

    method SetAutomaticTextEntryDetectionEnabled(enabled: bool, textFocus: bool)
      requires IsValid()
      modifies this, mapper
      ensures IsValid()
      ensures State() == Apply(old(State()), SetAutomaticDetection(enabled, textFocus)).0
    {
      automaticDetectionEnabled := enabled;
      RefreshTextEntrySuspension(textFocus);
    }

    /** Held keys are forgotten exactly when the effective suspension changes. */
    method RefreshTextEntrySuspension(textFocus: bool)
      requires IsValid()
      modifies this`effectiveSuspended, mapper
      ensures State() == Refresh(old(State()), textFocus) && IsValid()
      ensures effectiveSuspended == IsSuspended(State(), textFocus)
      ensures mapper.heldKeys == if effectiveSuspended == old(effectiveSuspended) then old(mapper.heldKeys) else map[]
    {
      var newSuspended := IsTextEntrySuspended(textFocus);
      if newSuspended == effectiveSuspended {
        return;
      }
      effectiveSuspended := newSuspended;
      mapper.ClearHeldKeys();
    }

    method EventFilter(watched: Target, event: QEvent, textFocus: bool) returns (outcome: Outcome)
      requires IsValid()
      modifies this, mapper
      ensures IsValid()
      ensures (State(), outcome) == Apply(old(State()), Deliver(watched, event, textFocus))
      ensures installedTarget == Some(watched) && event.KeyTransition? && effectiveSuspended ==> outcome == IGNORED
    {
      if installedTarget != Some(watched) {
        return IGNORED;
      }
      if event.FocusOrActivationLost? {
        mapper.ClearHeldKeys();
        return IGNORED;
      }
      if event.OtherEvent? {
        return IGNORED;
      }
      RefreshTextEntrySuspension(textFocus);
      outcome := FilterKey(event.pk, event.press, event.repeat);
    }

    method FilterKey(raw: IM.PhysicalKey, press: bool, repeat: bool) returns (outcome: Outcome)
      requires IsValid()
      modifies mapper
      ensures (State(), outcome) == HandleKey(old(State()), raw, press, repeat) && IsValid()
    {
      if effectiveSuspended {
        return IGNORED;
      }
      var pk := IM.PhysicalKey(raw.key, raw.modifiers - {IM.Keypad});
      var isArmed := pk.key in mapper.heldKeys && mapper.heldKeys[pk.key].Some?;
      var isOwnedKey := isArmed || (pk.key !in mapper.heldKeys && IM.CommandFor(mapper.bindings, pk).Some?);
      var dispatched := mapper.ProcessKey(pk, press, repeat);
      if dispatched == None {
        return Outcome(isOwnedKey, None);
      }
      return Outcome(true, dispatched);
    }
  }
}
