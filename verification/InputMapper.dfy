/** InputMapper.cpp: physical key transitions turned into semantic commands under bindings that may
    change while keys are held. */
module InputMapper {
  import opened Wrappers

  /** A Qt::Key. */
  type Key = int

  const KEY_UP: Key := 0x1000013
  const KEY_DOWN: Key := 0x1000015
  const KEY_LEFT: Key := 0x1000012
  const KEY_RIGHT: Key := 0x1000014
  const KEY_W: Key := 0x57
  const KEY_A: Key := 0x41
  const KEY_S: Key := 0x53
  const KEY_D: Key := 0x44
  const KEY_RETURN: Key := 0x1000004
  const KEY_ENTER: Key := 0x1000005
  const KEY_SPACE: Key := 0x20
  const KEY_ESCAPE: Key := 0x1000000
  const KEY_BACK: Key := 0x1000061
  const KEY_MENU: Key := 0x1000055
  const KEY_X: Key := 0x58
  const KEY_H: Key := 0x48
  const KEY_PAGE_UP: Key := 0x1000016
  const KEY_PAGE_DOWN: Key := 0x1000017
  const KEY_P: Key := 0x50
  const KEY_I: Key := 0x49
  const KEY_L: Key := 0x4C
  const KEY_Q: Key := 0x51
  const KEY_EQUAL: Key := 0x3D
  const KEY_E: Key := 0x45
  const KEY_J: Key := 0x4A
  const KEY_MINUS: Key := 0x2D
  const KEY_BRACKET_LEFT: Key := 0x5B
  const KEY_BRACKET_RIGHT: Key := 0x5D
  const KEY_0: Key := 0x30
  const KEY_Y: Key := 0x59
  const KEY_C: Key := 0x43
  const KEY_Z: Key := 0x5A
  const KEY_R: Key := 0x52

  datatype Modifier = Shift | Control | Alt | Meta | Keypad | GroupSwitch

  datatype PhysicalKey = PhysicalKey(key: Key, modifiers: set<Modifier>)

  datatype Command =
    | FocusUp | FocusDown | FocusLeft | FocusRight | PrimaryAction | SecondaryAction | Inspect
    | OpenHand | OpenPrompt | OpenInvestigator | OpenLog | OpenMenu
    | CycleNextPlayer | CyclePreviousPlayer | CycleNextZone | CyclePreviousZone | JumpToPrompt
    | CameraZoomIn | CameraZoomOut | CameraRotateLeft | CameraRotateRight | CameraReset
    | MultiSelectConfirm | MultiSelectCancel | Undo | ToggleArrangeMode

  datatype Phase = Pressed | Repeated | Released
  datatype Dispatched = Dispatched(command: Command, phase: Phase)
  datatype RemapError = ReservedKey | KeyAlreadyBound

  type Bindings = map<PhysicalKey, Command>

  predicate IsReserved(pk: PhysicalKey) {
    pk.modifiers == {} && pk.key in {KEY_ESCAPE, KEY_BACK, KEY_MENU}
  }

  ghost predicate ReservedBound(bindings: Bindings) {
    && PhysicalKey(KEY_ESCAPE, {}) in bindings && bindings[PhysicalKey(KEY_ESCAPE, {})] == SecondaryAction
    && PhysicalKey(KEY_BACK, {}) in bindings && bindings[PhysicalKey(KEY_BACK, {})] == SecondaryAction
    && PhysicalKey(KEY_MENU, {}) in bindings && bindings[PhysicalKey(KEY_MENU, {})] == OpenMenu
  }

  function Plain(key: Key): PhysicalKey { PhysicalKey(key, {}) }

  /** The built-in bindings. */
  function DefaultBindings(): (bindings: Bindings)
    ensures ReservedBound(bindings)
  {
    map[
      Plain(KEY_UP) := FocusUp, Plain(KEY_W) := FocusUp, Plain(KEY_DOWN) := FocusDown, Plain(KEY_S) := FocusDown,
      Plain(KEY_LEFT) := FocusLeft, Plain(KEY_A) := FocusLeft, Plain(KEY_RIGHT) := FocusRight,
      Plain(KEY_D) := FocusRight, Plain(KEY_RETURN) := PrimaryAction, Plain(KEY_ENTER) := PrimaryAction,
      Plain(KEY_SPACE) := PrimaryAction, Plain(KEY_ESCAPE) := SecondaryAction,
      Plain(KEY_BACK) := SecondaryAction, Plain(KEY_MENU) := OpenMenu, Plain(KEY_X) := Inspect,
      Plain(KEY_H) := OpenHand, Plain(KEY_P) := OpenPrompt, Plain(KEY_I) := OpenInvestigator,
      Plain(KEY_L) := OpenLog, Plain(KEY_Q) := CyclePreviousPlayer, Plain(KEY_E) := CycleNextPlayer,
      Plain(KEY_PAGE_UP) := CyclePreviousZone, Plain(KEY_PAGE_DOWN) := CycleNextZone,
      Plain(KEY_J) := JumpToPrompt, Plain(KEY_EQUAL) := CameraZoomIn, Plain(KEY_MINUS) := CameraZoomOut,
      Plain(KEY_BRACKET_LEFT) := CameraRotateLeft, Plain(KEY_BRACKET_RIGHT) := CameraRotateRight,
      Plain(KEY_0) := CameraReset, Plain(KEY_Y) := MultiSelectConfirm, Plain(KEY_C) := MultiSelectCancel,
      Plain(KEY_R) := ToggleArrangeMode, PhysicalKey(KEY_Z, {Control}) := Undo
    ]
  }

  // ---- The mapper as a value ----

  /** `held` maps each key that is down to the command its hold was armed with, if any. */
  datatype Mapper = Mapper(bindings: Bindings, held: map<Key, Option<Command>>)

  function CommandFor(bindings: Bindings, pk: PhysicalKey): Option<Command> {
    if pk in bindings then Some(bindings[pk]) else None
  }

  function RemapResult(m: Mapper, pk: PhysicalKey, command: Command): Option<RemapError> {
    if IsReserved(pk) then Some(ReservedKey)
    else if pk in m.bindings && m.bindings[pk] != command then Some(KeyAlreadyBound)
    else None
  }

  function Process(m: Mapper, pk: PhysicalKey, press: bool, repeat: bool): (Mapper, Option<Dispatched>) {
    var down := pk.key in m.held;
    if press && repeat then
      (m, if down && m.held[pk.key].Some? then Some(Dispatched(m.held[pk.key].value, Repeated)) else None)
    else if press then
      if down then (m, None)
      else
        var command := CommandFor(m.bindings, pk);
        (m.(held := m.held[pk.key := command]),
         if command.Some? then Some(Dispatched(command.value, Pressed)) else None)
    else if !down then (m, None)
    else (m.(held := m.held - {pk.key}),
          if m.held[pk.key].Some? then Some(Dispatched(m.held[pk.key].value, Released)) else None)
  }

  // ---- Runs ----

  datatype Event =
    | KeyEvent(pk: PhysicalKey, press: bool, repeat: bool)
    | Remap(target: PhysicalKey, command: Command)
    | Unbind(target: PhysicalKey)
    | ResetToDefaults
    | ClearHeldKeys

  function Apply(m: Mapper, e: Event): (Mapper, Option<Dispatched>) {
    match e
    case KeyEvent(pk, press, repeat) => Process(m, pk, press, repeat)
    case Remap(pk, command) =>
      (if RemapResult(m, pk, command) == None then m.(bindings := m.bindings[pk := command]) else m, None)
    case Unbind(pk) => (if IsReserved(pk) then m else m.(bindings := m.bindings - {pk}), None)
    case ResetToDefaults => (Mapper(DefaultBindings(), map[]), None)
    case ClearHeldKeys => (m.(held := map[]), None)
  }

  lemma OnlyKeysHold(m: Mapper, e: Event)
    requires !e.KeyEvent?
    ensures Apply(m, e).0.held == m.held || Apply(m, e).0.held == map[]
  {
  }

  function Run(events: seq<Event>): Mapper {
    if events == [] then Mapper(DefaultBindings(), map[])
    else Apply(Run(events[..|events| - 1]), events[|events| - 1]).0
  }

  /** What event n of a run dispatches. */
  function OutputAt(events: seq<Event>, n: nat): Option<Dispatched>
    requires n < |events|
  {
    Apply(Run(events[..n]), events[n]).1
  }

  lemma ApplyKeepsReserved(m: Mapper, e: Event)
    requires ReservedBound(m.bindings)
    ensures ReservedBound(Apply(m, e).0.bindings)
  {
  }

  /** Escape, Back and Menu keep their commands over every run. */
  lemma {:induction false} ReservedNeverChange(events: seq<Event>)
    ensures ReservedBound(Run(events).bindings)
  {
    if events == [] {
    } else {
      ReservedNeverChange(events[..|events| - 1]);
      ApplyKeepsReserved(Run(events[..|events| - 1]), events[|events| - 1]);
    }
  }

  // ---- Holds, told from the history of key events alone ----

  predicate IsPress(e: Event, k: Key) { e.KeyEvent? && e.pk.key == k && e.press && !e.repeat }

  /** Ends whatever hold `k` is in: its release, or anything that forgets held keys. */
  predicate EndsHold(e: Event, k: Key) {
    (e.KeyEvent? && e.pk.key == k && !e.press) || e.ResetToDefaults? || e.ClearHeldKeys?
  }

  /** No event strictly between i and n ends a hold of `k`. */
  ghost predicate Unended(events: seq<Event>, k: Key, i: int, n: int)
    requires 0 <= i && n <= |events|
  {
    forall j | i < j < n :: !EndsHold(events[j], k)
  }

  /** Event i is the press that opened the hold `k` is still in after all these events. */
  ghost predicate Opens(events: seq<Event>, k: Key, i: int) {
    && 0 <= i < |events| && IsPress(events[i], k) && Unended(events, k, i, |events|)
    && forall h | 0 <= h < i && IsPress(events[h], k) :: !Unended(events, k, h, i)
  }

  ghost predicate IsOpen(events: seq<Event>, k: Key) {
    exists i :: Opens(events, k, i)
  }

  lemma UnendedInPrefix(events: seq<Event>, k: Key, i: int, n: int, m: int)
    requires 0 <= i && n <= m <= |events| && 0 <= m
    ensures Unended(events[..m], k, i, n) <==> Unended(events, k, i, n)
  {
    assert forall j | 0 <= j < m :: events[..m][j] == events[j];
  }

  /** A press that nothing has ended since belongs to a hold that some press opened. */
  lemma {:induction false} OpeningExists(events: seq<Event>, k: Key, h: nat)
    requires h < |events| && IsPress(events[h], k) && Unended(events, k, h, |events|)
    ensures IsOpen(events, k)
  {
    if Opens(events, k, h) {
    } else {
      var g :| 0 <= g < h && IsPress(events[g], k) && Unended(events, k, g, h);
      assert !EndsHold(events[h], k);
      assert Unended(events, k, g, |events|);
      OpeningExists(events, k, g);
    }
  }

  lemma OpensStays(events: seq<Event>, k: Key, i: int)
    requires 0 <= i < |events| - 1
    ensures Opens(events, k, i) <==> Opens(events[..|events| - 1], k, i) && !EndsHold(events[|events| - 1], k)
  {
    var m := |events| - 1;
    UnendedInPrefix(events, k, i, m, m);
    forall h | 0 <= h < i ensures Unended(events[..m], k, h, i) <==> Unended(events, k, h, i) {
      UnendedInPrefix(events, k, h, i, m);
    }
    assert Unended(events, k, i, |events|) <==> Unended(events, k, i, m) && !EndsHold(events[m], k);
  }

  lemma OpensLast(events: seq<Event>, k: Key)
    requires |events| > 0
    ensures Opens(events, k, |events| - 1) <==>
            IsPress(events[|events| - 1], k) && !IsOpen(events[..|events| - 1], k)
  {
    var m := |events| - 1;
    var front := events[..m];
    if h :| 0 <= h < m && IsPress(events[h], k) && Unended(events, k, h, m) {
      UnendedInPrefix(events, k, h, m, m);
      OpeningExists(front, k, h);
    }
    if i :| Opens(front, k, i) {
      UnendedInPrefix(events, k, i, m, m);
      assert IsPress(events[i], k);
    }
  }

  /** The held table is exactly that history: a key is down iff a press opened a hold that nothing has
      ended ... */
  lemma {:induction false} HeldIsOpen(events: seq<Event>, k: Key)
    ensures k in Run(events).held <==> IsOpen(events, k)
  {
    if events == [] {
    } else {
      var (front, e) := (events[..|events| - 1], events[|events| - 1]);
      HeldIsOpen(front, k);
      OpensLast(events, k);
      HeldStep(Run(front), e, k);
      if i :| Opens(events, k, i) {
        if i < |front| {
          OpensStays(events, k, i);
        }
      }
      if i :| Opens(front, k, i) {
        OpensStays(events, k, i);
      }
    }
  }

  lemma ProcessHeldStep(m: Mapper, pk: PhysicalKey, press: bool, repeat: bool, k: Key)
    ensures var held := Process(m, pk, press, repeat).0.held;
            && (k in held <==> (k in m.held && (k != pk.key || press)) || (k == pk.key && press && !repeat))
            && (k in m.held && k in held ==> held[k] == m.held[k])
            && (k !in m.held && k in held ==> held[k] == CommandFor(m.bindings, pk))
  {
    var held := Process(m, pk, press, repeat).0.held;
    if press && !repeat && pk.key !in m.held {
      assert held == m.held[pk.key := CommandFor(m.bindings, pk)];
    } else if !press && pk.key in m.held {
      assert held == m.held - {pk.key};
      assert k in held <==> k in m.held && k != pk.key;
    } else {
      assert held == m.held;
    }
  }

  lemma HeldStep(m: Mapper, e: Event, k: Key)
    ensures k in Apply(m, e).0.held <==> IsPress(e, k) || (k in m.held && !EndsHold(e, k))
    ensures k in m.held && k in Apply(m, e).0.held ==> Apply(m, e).0.held[k] == m.held[k]
    ensures k !in m.held && k in Apply(m, e).0.held ==> Apply(m, e).0.held[k] == CommandFor(m.bindings, e.pk)
  {
    match e
    case KeyEvent(pk, press, repeat) => ProcessHeldStep(m, pk, press, repeat, k);
    case Remap(_, _) =>
    case Unbind(_) =>
    case ResetToDefaults =>
    case ClearHeldKeys =>
  }

  /** ... and it is armed with what its key meant at that press. */
  lemma {:induction false} HeldIsArmedAtPress(events: seq<Event>, k: Key, i: int)
    requires Opens(events, k, i)
    ensures k in Run(events).held && Run(events).held[k] == CommandFor(Run(events[..i]).bindings, events[i].pk)
  {
    HeldIsOpen(events, k);
    var (front, e) := (events[..|events| - 1], events[|events| - 1]);
    HeldStep(Run(front), e, k);
    if i < |front| {
      OpensStays(events, k, i);
      HeldIsArmedAtPress(front, k, i);
      assert events[..i] == front[..i];
    } else {
      FreshAtOpening(events, k, i);
      assert events[..i] == front;
    }
  }

  /** A prefix that still reaches past the opening press is held open by the same press. */
  lemma OpensInPrefix(events: seq<Event>, k: Key, i: int, n: nat)
    requires Opens(events, k, i) && i < n <= |events|
    ensures Opens(events[..n], k, i)
  {
    UnendedInPrefix(events, k, i, n, n);
    forall h | 0 <= h < i ensures Unended(events[..n], k, h, i) <==> Unended(events, k, h, i) {
      UnendedInPrefix(events, k, h, i, n);
    }
  }

  /** Just before the opening press the key was up. */
  lemma FreshAtOpening(events: seq<Event>, k: Key, i: int)
    requires Opens(events, k, i)
    ensures k !in Run(events[..i]).held
  {
    HeldIsOpen(events[..i], k);
    forall h ensures !Opens(events[..i], k, h) {
      if 0 <= h < i && IsPress(events[h], k) {
        UnendedInPrefix(events, k, h, i, i);
      }
    }
  }

  ghost predicate Dispatches(events: seq<Event>, n: int, k: Key, command: Command, phase: Phase) {
    && 0 <= n < |events| && events[n].KeyEvent? && events[n].pk.key == k
    && OutputAt(events, n) == Some(Dispatched(command, phase))
  }

  /** Between i and n, key `k` does nothing but repeat `command`, and no event forgets held keys. */
  ghost predicate OnlyRepeats(events: seq<Event>, k: Key, command: Command, i: int, n: int)
    requires 0 <= i <= n <= |events|
  {
    && Unended(events, k, i, n)
    && forall j | i < j < n && events[j].KeyEvent? && events[j].pk.key == k ::
         OutputAt(events, j) == None || OutputAt(events, j) == Some(Dispatched(command, Repeated))
  }

  /** The trace of every key is a series of holds. A Repeated or Released always continues a Pressed of
      the same command, with nothing but repeats of it in between; that command is what the key meant
      when it was pressed, whatever was remapped since. */
  lemma ContinuationHasPress(events: seq<Event>, n: nat, k: Key, command: Command, phase: Phase)
    requires Dispatches(events, n, k, command, phase) && phase != Pressed
    ensures exists i | 0 <= i < n ::
              && Dispatches(events, i, k, command, Pressed)
              && CommandFor(Run(events[..i]).bindings, events[i].pk) == Some(command)
              && OnlyRepeats(events, k, command, i, n)
  {
    var before := events[..n];
    HeldIsOpen(before, k);
    var i :| Opens(before, k, i);
    HeldIsArmedAtPress(before, k, i);
    FreshAtOpening(before, k, i);
    assert before[..i] == events[..i];
    UnendedInPrefix(events, k, i, n, n);
    forall j | i < j < n && events[j].KeyEvent? && events[j].pk.key == k
      ensures OutputAt(events, j) == None || OutputAt(events, j) == Some(Dispatched(command, Repeated))
    {
      RepeatsWithinHold(events, k, i, j, n);
    }
    assert Dispatches(events, i, k, command, Pressed);
  }

  lemma RepeatsWithinHold(events: seq<Event>, k: Key, i: nat, j: nat, n: nat)
    requires n <= |events| && Opens(events[..n], k, i) && i < j < n
    requires events[j].KeyEvent? && events[j].pk.key == k
    ensures var armed := CommandFor(Run(events[..i]).bindings, events[i].pk);
            || OutputAt(events, j) == None
            || (armed.Some? && OutputAt(events, j) == Some(Dispatched(armed.value, Repeated)))
  {
    OpensInPrefix(events[..n], k, i, j);
    assert events[..n][..j] == events[..j];
    HeldIsArmedAtPress(events[..j], k, i);
    assert events[..j][..i] == events[..i];
    UnendedInPrefix(events, k, i, n, n);
    assert !EndsHold(events[j], k);
  }

  /** Two presses of one key are never dispatched without its release, or an event that forgets held
      keys, in between. */
  lemma PressesAreSeparated(events: seq<Event>, i: nat, n: nat, k: Key, first: Command, second: Command)
    requires i < n && Dispatches(events, i, k, first, Pressed) && Dispatches(events, n, k, second, Pressed)
    ensures !Unended(events, k, i, n)
  {
    if Unended(events, k, i, n) {
      UnendedInPrefix(events, k, i, n, n);
      OpeningExists(events[..n], k, i);
      HeldIsOpen(events[..n], k);
    }
  }

  /** A hold pressed while its key meant nothing stays silent to its end, even if the key is bound in
      the meantime. */
  lemma UnboundHoldIsSilent(events: seq<Event>, i: nat, n: nat, k: Key)
    requires i < n < |events| && Opens(events[..n], k, i)
    requires CommandFor(Run(events[..i]).bindings, events[i].pk) == None
    requires events[n].KeyEvent? && events[n].pk.key == k
    ensures OutputAt(events, i) == None && OutputAt(events, n) == None
  {
    HeldIsArmedAtPress(events[..n], k, i);
    FreshAtOpening(events[..n], k, i);
    assert events[..n][..i] == events[..i];
  }

  /** A hold pressed while its key meant a command dispatches exactly one Pressed, one Repeated for each
      auto-repeat and, when the key is released, one Released, all of that command. */
  lemma BoundHoldIsHeard(events: seq<Event>, i: nat, n: nat, k: Key, command: Command)
    requires i < n < |events| && Opens(events[..n], k, i)
    requires CommandFor(Run(events[..i]).bindings, events[i].pk) == Some(command)
    requires events[n].KeyEvent? && events[n].pk.key == k
    ensures OutputAt(events, i) == Some(Dispatched(command, Pressed))
    ensures OutputAt(events, n) ==
            if !events[n].press then Some(Dispatched(command, Released))
            else if events[n].repeat then Some(Dispatched(command, Repeated)) else None
  {
    HeldIsArmedAtPress(events[..n], k, i);
    FreshAtOpening(events[..n], k, i);
    assert events[..n][..i] == events[..i];
  }

  // ---- The object ----

  class InputMapper {
    var bindings: Bindings
    var heldKeys: map<Key, Option<Command>>

    ghost function State(): Mapper
      reads this
    {
      Mapper(bindings, heldKeys)
    }

    /** The reserved keys have their commands. */
    ghost predicate Valid()
      reads this
    {
      ReservedBound(bindings)
    }

    constructor ()
      ensures State() == Run([]) && Valid()
    {
      bindings, heldKeys := DefaultBindings(), map[];
    }

    method Remap(pk: PhysicalKey, command: Command) returns (error: Option<RemapError>)
      requires Valid()
      modifies this
      ensures Valid()
      ensures error == RemapResult(old(State()), pk, command)
      ensures State() == Apply(old(State()), Event.Remap(pk, command)).0
    {
      if IsReserved(pk) {
        return Some(ReservedKey);
      }
      ApplyKeepsReserved(State(), Event.Remap(pk, command));
      if pk in bindings && bindings[pk] != command {
        return Some(KeyAlreadyBound);
      }
      bindings := bindings[pk := command];
      return None;
    }

    method Unbind(pk: PhysicalKey) returns (removed: bool)
      requires Valid()
      modifies this
      ensures Valid()
      ensures removed <==> !IsReserved(pk) && pk in old(bindings)
      ensures State() == Apply(old(State()), Event.Unbind(pk)).0
    {
      if IsReserved(pk) {
        return false;
      }
      removed := pk in bindings;
      bindings := bindings - {pk};
    }

    method ResetToDefaults()
      requires Valid()
      modifies this
      ensures Valid()
      ensures State() == Apply(old(State()), Event.ResetToDefaults).0
    {
      bindings := DefaultBindings();
      heldKeys := map[];
    }

    method ProcessKey(pk: PhysicalKey, press: bool, repeat: bool) returns (dispatched: Option<Dispatched>)
      requires Valid()
      modifies this
      ensures Valid()
      ensures (State(), dispatched) == Process(old(State()), pk, press, repeat)
    {
      var currentlyHeld := pk.key in heldKeys;
      if press {
        if repeat {
          if !currentlyHeld || heldKeys[pk.key] == None {
            return None;
          }
          return Some(Dispatched(heldKeys[pk.key].value, Repeated));
        }
        if currentlyHeld {
          return None;
        }
        var command := CommandFor(bindings, pk);
        heldKeys := heldKeys[pk.key := command];
        if command == None {
          return None;
        }
        return Some(Dispatched(command.value, Pressed));
      }
      if !currentlyHeld {
        return None;
      }
      var armed := heldKeys[pk.key];
      heldKeys := heldKeys - {pk.key};
      if armed == None {
        return None;
      }
      return Some(Dispatched(armed.value, Released));
    }

    method ClearHeldKeys()
      requires Valid()
      modifies this
      ensures Valid()
      ensures State() == Apply(old(State()), Event.ClearHeldKeys).0
    {
      heldKeys := map[];
    }
  }
}
