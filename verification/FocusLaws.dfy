/** Laws of the focus graph: snapshots, zone cycling, wrap-around moves and modal nesting. */
module FocusLaws {
  import opened Wrappers
  import opened FocusGraph
  import opened FocusInvariant

  // ---- Snapshots ----

  /** A restored focus, modal stack and zone memory depend on the snapshot and the node table only,
      never on the state restored over. */
  lemma RestoreDetermined(s: State, t: State, snap: Snapshot)
    requires s.nodes == t.nodes
    ensures TakeSnapshot(Restore(s, snap)) == TakeSnapshot(Restore(t, snap))
    ensures Restore(s, snap).nodes == s.nodes
  {
  }

  lemma RestoreIdempotent(s: State, snap: Snapshot)
    ensures Restore(Restore(s, snap), snap) == Restore(s, snap)
  {
    RestoreDetermined(s, Restore(s, snap), snap);
  }

  lemma {:induction false} RestoredModalsLength(nodes: Nodes, modals: seq<Modal>)
    ensures |RestoredModals(nodes, modals)| <= |modals|
    ensures |RestoredModals(nodes, modals)| == |modals| <==> forall m | m in modals :: m.entry in nodes
  {
    if modals == [] {
    } else {
      var (front, last) := (modals[..|modals| - 1], modals[|modals| - 1]);
      assert modals == front + [last];
      RestoredModalsLength(nodes, front);
    }
  }

  lemma {:induction false} RestoredModalsSame(nodes: Nodes, modals: seq<Modal>)
    requires ModalsValid(nodes, modals) && forall m | m in modals :: m.entry in nodes
    ensures RestoredModals(nodes, modals) == modals
  {
    if modals == [] {
    } else {
      var (front, last) := (modals[..|modals| - 1], modals[|modals| - 1]);
      assert modals == front + [last];
      RestoredModalsSame(nodes, front);
    }
  }

  /** Nothing a snapshot of `s` holds is out of date: no modal's own entry node has been removed, and
      something is focused (or there is nothing to focus). */
  ghost predicate SnapshotIsCurrent(s: State) {
    (forall m | m in s.modals :: m.entry in s.nodes) && (s.focus != NONE || s.nodes == map[])
  }

  lemma RestoredMemorySame(nodes: Nodes, memory: map<Zone, Id>, focus: Id)
    requires MemoryValid(nodes, memory) && FocusValid(nodes, memory, focus)
    ensures RestoredMemory(nodes, memory) == memory
    ensures focus != NONE ==> memory[nodes[focus].zone := focus] == memory
  {
  }

  lemma CurrentSnapshotRestores(s: State)
    requires Valid(s) && SnapshotIsCurrent(s)
    ensures Restore(s, TakeSnapshot(s)) == s
  {
    assert s.modals == [] || s.modals[0] in s.modals;
    RestoredModalsSame(s.nodes, s.modals);
    RestoredMemorySame(s.nodes, s.memory, s.focus);
  }

  /** Restoring the snapshot just taken changes nothing exactly when the snapshot is current. */
  lemma RestoreOwnSnapshot(s: State)
    requires Valid(s)
    ensures Restore(s, TakeSnapshot(s)) == s <==> SnapshotIsCurrent(s)
  {
    RestoredModalsLength(s.nodes, s.modals);
    if SnapshotIsCurrent(s) {
      CurrentSnapshotRestores(s);
    }
  }

  /** So whatever has been restored is restored again by its own snapshot. */
  lemma RestoredIsStable(s: State, snap: Snapshot)
    requires Valid(s)
    ensures var t := Restore(s, snap); Restore(t, TakeSnapshot(t)) == t
  {
    RestoreKeeps(s, snap);
    RestoreOwnSnapshot(Restore(s, snap));
  }

  // ---- Positions on a ring ----

  /** Position i moved n places forward on a ring of k, for n at most k. */
  function Rotate(i: int, n: nat, k: nat): int {
    if i + n < k then i + n else i + n - k
  }

  lemma {:induction false} IndexIn<T(!new)>(list: seq<T>, i: int)
    requires NoDuplicates(list) && 0 <= i < |list|
    ensures IndexOf(list, list[i]) == i
  {
    var j := IndexOf(list, list[i]);
    assert list[j] == list[i];
  }

  // ---- Zone cycling ----

  /** The zone one step along the zone order. */
  function NeighborZone(order: seq<Zone>, zone: Zone, forward: bool): Zone
    requires zone in order
  {
    order[StepIndex(IndexOf(order, zone), |order|, forward)]
  }

  /** From `s` to `t` by entering the neighbouring zone at the node it remembers, if any. */
  ghost predicate IsCycleStep(s: State, t: State, forward: bool)
    requires s.focus in s.nodes && s.nodes[s.focus].zone in s.zoneOrder
  {
    var zone := NeighborZone(s.zoneOrder, s.nodes[s.focus].zone, forward);
    && t == s.(focus := t.focus, memory := s.memory[zone := t.focus])
    && t.focus in s.nodes && s.nodes[t.focus].zone == zone
    && (zone in s.memory ==> t.focus == s.memory[zone])
  }

  /** Cycling goes to the node the neighbouring zone is entered at. */
  lemma CycleGoesToEntry(s: State, forward: bool)
    requires Valid(s) && s.focus != NONE && |s.zoneOrder| >= 2
    ensures var zone := NeighborZone(s.zoneOrder, s.nodes[s.focus].zone, forward);
            CycleTarget(s, forward) == Some(EntryOf(s, zone)) && EntryOf(s, zone) in Members(s.nodes, zone)
  {
    assert ActiveZones(s.nodes, s.zoneOrder) == s.zoneOrder;
  }

  lemma CycleStep(s: State, forward: bool)
    requires Valid(s) && s.focus != NONE && |s.zoneOrder| >= 2
    ensures IsCycleStep(s, CycleZone(s, forward), forward)
    ensures Valid(CycleZone(s, forward)) && CycleZone(s, forward).focus != NONE
  {
    var (target, zone) := (CycleTarget(s, forward), NeighborZone(s.zoneOrder, s.nodes[s.focus].zone, forward));
    CycleGoesToEntry(s, forward);
    NavigationKeeps(s, target);
    assert s.focus == target.value ==> s.memory[zone := s.focus] == s.memory;
  }

  lemma NeighborZoneBack(order: seq<Zone>, zone: Zone, forward: bool)
    requires NoDuplicates(order) && zone in order && |order| >= 2
    ensures var there := NeighborZone(order, zone, forward);
            there in order && there != zone && NeighborZone(order, there, !forward) == zone
  {
    IndexIn(order, StepIndex(IndexOf(order, zone), |order|, forward));
  }

  /** With at least two zones, cycling one way and then the other returns to the same node. */
  lemma CycleThereAndBack(s: State, forward: bool)
    requires Valid(s) && s.focus != NONE && |s.zoneOrder| >= 2
    ensures CycleZone(CycleZone(s, forward), !forward).focus == s.focus
    ensures CycleZone(s, forward).focus != s.focus
  {
    CycleStep(s, forward);
    CycleStep(CycleZone(s, forward), !forward);
    ThereAndBack(s, CycleZone(s, forward), CycleZone(CycleZone(s, forward), !forward), forward);
  }

  lemma ThereAndBack(s: State, there: State, back: State, forward: bool)
    requires s.focus in s.nodes && s.nodes[s.focus].zone in s.zoneOrder
    requires NoDuplicates(s.zoneOrder) && |s.zoneOrder| >= 2
    requires FocusValid(s.nodes, s.memory, s.focus) && s.focus != NONE
    requires IsCycleStep(s, there, forward) && there.nodes[there.focus].zone in there.zoneOrder
    requires IsCycleStep(there, back, !forward)
    ensures back.focus == s.focus && there.focus != s.focus
  {
    NeighborZoneBack(s.zoneOrder, s.nodes[s.focus].zone, forward);
  }

  /** The states that repeated forward cycling goes through. */
  ghost predicate IsCycleTrace(trace: seq<State>) {
    && |trace| > 0
    && forall i | 0 <= i < |trace| - 1 :: trace[i + 1] == CycleZone(trace[i], true)
  }

  /** Where n forward cycles from `s` have got to. */
  ghost predicate OnOrbit(s: State, t: State, n: nat)
    requires s.focus in s.nodes && s.nodes[s.focus].zone in s.zoneOrder && n <= |s.zoneOrder|
  {
    var home := s.nodes[s.focus].zone;
    && t.nodes == s.nodes && t.zoneOrder == s.zoneOrder && t.focus in s.nodes
    && s.nodes[t.focus].zone == s.zoneOrder[Rotate(IndexOf(s.zoneOrder, home), n, |s.zoneOrder|)]
    && home in t.memory && t.memory[home] == s.focus
  }

  lemma OrbitStep(s: State, t: State, u: State, n: nat)
    requires s.focus in s.nodes && s.nodes[s.focus].zone in s.zoneOrder && n < |s.zoneOrder|
    requires NoDuplicates(s.zoneOrder) && OnOrbit(s, t, n) && IsCycleStep(t, u, true)
    ensures OnOrbit(s, u, n + 1)
  {
    IndexIn(s.zoneOrder, Rotate(IndexOf(s.zoneOrder, s.nodes[s.focus].zone), n, |s.zoneOrder|));
  }

  ghost predicate IsCycling(s: State) {
    Valid(s) && s.focus != NONE && |s.zoneOrder| >= 2
  }

  ghost predicate CyclesOnOrbit(s: State, t: State, n: nat)
    requires s.focus in s.nodes && s.nodes[s.focus].zone in s.zoneOrder && n <= |s.zoneOrder|
  {
    IsCycling(t) && OnOrbit(s, t, n)
  }

  lemma CycleOrbitStep(s: State, t: State, u: State, n: nat)
    requires s.focus in s.nodes && s.nodes[s.focus].zone in s.zoneOrder && n < |s.zoneOrder|
    requires IsCycling(t) && OnOrbit(s, t, n) && u == CycleZone(t, true)
    ensures IsCycling(u) && OnOrbit(s, u, n + 1)
  {
    CycleStep(t, true);
    OrbitStep(s, t, u, n);
  }

  /** Cycling forward visits the zones in order; all the way round, the zone it started in keeps
      remembering the node it started at. */
  lemma CycleOrbit(trace: seq<State>)
    requires IsCycleTrace(trace) && IsCycling(trace[0]) && |trace| <= |trace[0].zoneOrder| + 1
    ensures forall n | 0 <= n < |trace| :: CyclesOnOrbit(trace[0], trace[n], n)
  {
    var n := 0;
    while n < |trace| - 1
      invariant 0 <= n < |trace|
      invariant forall m | 0 <= m <= n :: CyclesOnOrbit(trace[0], trace[m], m)
    {
      assert CyclesOnOrbit(trace[0], trace[n], n);
      CycleOrbitStep(trace[0], trace[n], trace[n + 1], n);
      n := n + 1;
    }
  }

  /** With k zones, k forward cycles are the identity on the focus, and no fewer are. */
  lemma CycleAllTheWay(trace: seq<State>)
    requires IsCycleTrace(trace) && IsCycling(trace[0]) && |trace| == |trace[0].zoneOrder| + 1
    ensures trace[|trace| - 1].focus == trace[0].focus
    ensures forall n | 0 < n < |trace| - 1 :: trace[n].focus != trace[0].focus
  {
    CycleOrbit(trace);
    var (s, last) := (trace[0], trace[|trace| - 1]);
    assert CyclesOnOrbit(s, last, |trace| - 1);
    forall n | 0 < n < |trace| - 1 ensures trace[n].focus != s.focus {
      assert CyclesOnOrbit(s, trace[n], n);
      var i := IndexOf(s.zoneOrder, s.nodes[s.focus].zone);
      assert s.zoneOrder[Rotate(i, n, |s.zoneOrder|)] != s.zoneOrder[i];
    }
  }

  // ---- Wrap-around moves ----

  /** Moves in the focused node's zone never leave it: no explicit neighbour is there to follow, and
      the zone wraps. */
  ghost predicate WrapsFreely(s: State) {
    && Valid(s) && s.focus != NONE && s.wrap.WrapWithinZone?
    && |NodesInZone(s.nodes, s.nodes[s.focus].zone)| > 1
    && forall id, d | id in Members(s.nodes, s.nodes[s.focus].zone) :: !HasLiveNeighbor(s.nodes, id, d)
  }

  lemma ListingNoDuplicates(nodes: Nodes, ids: set<Id>)
    requires ids <= nodes.Keys && OrdersDistinct(nodes)
    ensures NoDuplicates(Listing(nodes, ids))
  {
    ListingInOrder(nodes, ids);
  }

  /** From `s` to `t` by stepping along the listing of the focused node's zone. */
  ghost predicate IsRingStep(s: State, t: State, list: seq<Id>, d: Direction)
    requires s.focus in s.nodes && s.focus in list
  {
    && t.focus == WrapTarget(list, s.focus, d)
    && t == s.(focus := t.focus, memory := s.memory[s.nodes[s.focus].zone := t.focus])
  }

  lemma WrapStep(s: State, d: Direction)
    requires WrapsFreely(s)
    ensures var (list, t) := (NodesInZone(s.nodes, s.nodes[s.focus].zone), MoveFocus(s, d));
            && NoDuplicates(list) && IsRingStep(s, t, list, d)
            && t.focus in s.nodes && s.nodes[t.focus].zone == s.nodes[s.focus].zone
            && WrapsFreely(t)
  {
    var list := NodesInZone(s.nodes, s.nodes[s.focus].zone);
    WrapLeaves(s, d);
    var target := WrapTarget(list, s.focus, d);
    assert MoveTarget(s, d) == Some(target);
    NavigationKeeps(s, Some(target));
    assert target in Members(s.nodes, s.nodes[s.focus].zone);
  }

  function Opposite(d: Direction): Direction {
    match d case Up => Down case Down => Up case Left => Right case Right => Left
  }

  /** In a wrapping zone without neighbours, a move and its opposite restore the whole state. */
  lemma OppositeMoveUndoes(s: State, d: Direction)
    requires WrapsFreely(s)
    ensures MoveFocus(MoveFocus(s, d), Opposite(d)) == s
  {
    WrapStep(s, d);
    WrapStep(MoveFocus(s, d), Opposite(d));
    RingThereAndBack(s, MoveFocus(s, d), MoveFocus(MoveFocus(s, d), Opposite(d)),
                     NodesInZone(s.nodes, s.nodes[s.focus].zone), d);
  }

  lemma RingThereAndBack(s: State, there: State, back: State, list: seq<Id>, d: Direction)
    requires s.focus in s.nodes && s.focus in list && NoDuplicates(list)
    requires FocusValid(s.nodes, s.memory, s.focus) && s.focus != NONE
    requires IsRingStep(s, there, list, d)
    requires there.focus in s.nodes && s.nodes[there.focus].zone == s.nodes[s.focus].zone
    requires IsRingStep(there, back, list, Opposite(d))
    ensures back == s
  {
    IndexIn(list, StepIndex(IndexOf(list, s.focus), |list|, d.Right? || d.Down?));
    assert back.focus == s.focus;
    assert back.memory == s.memory;
  }

  /** The states that repeated moves in one direction go through. */
  ghost predicate IsMoveTrace(trace: seq<State>, d: Direction) {
    && |trace| > 0
    && forall i | 0 <= i < |trace| - 1 :: trace[i + 1] == MoveFocus(trace[i], d)
  }

  /** Where n moves from `s` along the listing of its zone have got to. */
  ghost predicate OnZoneRing(s: State, t: State, list: seq<Id>, n: nat)
    requires s.focus in s.nodes && s.focus in list && n <= |list|
  {
    && t == s.(focus := t.focus, memory := s.memory[s.nodes[s.focus].zone := t.focus])
    && t.focus in s.nodes && s.nodes[t.focus].zone == s.nodes[s.focus].zone
    && t.focus == list[Rotate(IndexOf(list, s.focus), n, |list|)]
  }

  lemma ZoneRingStep(s: State, t: State, u: State, list: seq<Id>, d: Direction, n: nat)
    requires s.focus in s.nodes && s.focus in list && n < |list| && NoDuplicates(list)
    requires OnZoneRing(s, t, list, n) && IsRingStep(t, u, list, d) && (d.Right? || d.Down?)
    requires u.focus in s.nodes && s.nodes[u.focus].zone == s.nodes[s.focus].zone
    ensures OnZoneRing(s, u, list, n + 1)
  {
    IndexIn(list, Rotate(IndexOf(list, s.focus), n, |list|));
  }

  lemma WrapOrbitStep(s: State, t: State, u: State, list: seq<Id>, d: Direction, n: nat)
    requires s.focus in s.nodes && s.focus in list && n < |list| && (d.Right? || d.Down?)
    requires list == NodesInZone(s.nodes, s.nodes[s.focus].zone)
    requires WrapsFreely(t) && OnZoneRing(s, t, list, n) && u == MoveFocus(t, d)
    ensures WrapsFreely(u) && OnZoneRing(s, u, list, n + 1)
  {
    WrapStep(t, d);
    ZoneRingStep(s, t, u, list, d, n);
  }

  /** Moves right (or down) visit the nodes of the zone in registration order ... */
  lemma WrapOrbit(trace: seq<State>, list: seq<Id>, d: Direction)
    requires IsMoveTrace(trace, d) && WrapsFreely(trace[0]) && (d.Right? || d.Down?)
    requires list == NodesInZone(trace[0].nodes, trace[0].nodes[trace[0].focus].zone) && |trace| <= |list| + 1
    ensures forall n | 0 <= n < |trace| :: WrapsFreely(trace[n]) && OnZoneRing(trace[0], trace[n], list, n)
  {
    var s := trace[0];
    assert s.memory[s.nodes[s.focus].zone := s.focus] == s.memory;
    var n := 0;
    while n < |trace| - 1
      invariant 0 <= n < |trace|
      invariant forall m | 0 <= m <= n :: WrapsFreely(trace[m]) && OnZoneRing(s, trace[m], list, m)
    {
      WrapOrbitStep(s, trace[n], trace[n + 1], list, d, n);
      n := n + 1;
    }
  }

  /** ... one cycle through all of them: after as many moves as the zone has nodes the whole state is
      back. */
  lemma WrapCycle(trace: seq<State>, d: Direction)
    requires IsMoveTrace(trace, d) && WrapsFreely(trace[0]) && (d.Right? || d.Down?)
    requires |trace| == |NodesInZone(trace[0].nodes, trace[0].nodes[trace[0].focus].zone)| + 1
    ensures trace[|trace| - 1] == trace[0]
  {
    var s := trace[0];
    WrapOrbit(trace, NodesInZone(s.nodes, s.nodes[s.focus].zone), d);
    assert s.memory[s.nodes[s.focus].zone := s.focus] == s.memory;
  }

  /** Nothing but the focused node itself is there to move to: it names itself as its live neighbour,
      or it has no live neighbour, no wrap-around applies and the geometry fallback returns it. */
  ghost predicate MovesToItself(s: State, d: Direction)
    requires s.focus in s.nodes
  {
    if HasLiveNeighbor(s.nodes, s.focus, d) then s.nodes[s.focus].neighbors[d] == s.focus
    else
      var list := NodesInZone(s.nodes, s.nodes[s.focus].zone);
      && (s.wrap.NoWrap? || |list| == 1)
      && s.geometry.Some?
      && s.geometry.value(s.focus, d, RemoveAll(list, s.focus)) == Some(s.focus)
  }

  lemma WrapLeaves(s: State, d: Direction)
    requires OrdersDistinct(s.nodes) && s.focus in s.nodes
    ensures var list := NodesInZone(s.nodes, s.nodes[s.focus].zone);
            NoDuplicates(list) && |list| >= 1 && (|list| > 1 ==> WrapTarget(list, s.focus, d) != s.focus)
  {
    var list := NodesInZone(s.nodes, s.nodes[s.focus].zone);
    ListingNoDuplicates(s.nodes, Members(s.nodes, s.nodes[s.focus].zone));
    assert s.focus in list;
    var i := IndexOf(list, s.focus);
    assert |list| > 1 ==> list[StepIndex(i, |list|, d.Right? || d.Down?)] != list[i];
  }

  /** moveFocus is documented to report true only if focus changed. It also reports true with the
      focus unchanged, exactly when the move goes to the focused node itself. */
  lemma MoveReportsNoChange(s: State, d: Direction)
    requires OrdersDistinct(s.nodes) && s.focus in s.nodes && s.focus != NONE
    ensures MoveTarget(s, d).Some? && MoveFocus(s, d).focus == s.focus <==> MovesToItself(s, d)
  {
    WrapLeaves(s, d);
    assert MoveTarget(s, d).Some? ==> MoveFocus(s, d).focus == MoveTarget(s, d).value;
  }

  /** Such a graph: one node that is its own right neighbour. */
  lemma SelfNeighborExample()
    ensures var nodes := map["a" := Node("z", map[Right := "a"], 0)];
            var s := State(nodes, ["z"], map["z" := "a"], [], "a", NoWrap, None, 1);
            Valid(s) && MoveTarget(s, Right) == Some("a") && MoveFocus(s, Right) == s
  {
    assert "a" in Members(map["a" := Node("z", map[Right := "a"], 0)], "z");
  }

  // ---- Modal nesting ----

  /** An operation that leaves the outer modals and the return target `f` alone: no restore, and no
      node that one of them returns to is removed. */
  predicate Undisturbing(op: Op, base: seq<Modal>, f: Id) {
    && Admissible(op) && !op.RestoreOp?
    && (op.RemoveOp? ==> op.id != f && forall m | m in base :: m.returnTo != op.id)
  }

  /** What an operation does to the modal stack and to the set of nodes. */
  ghost predicate StackEffect(t: State, u: State, op: Op) {
    match op
    case PopModalOp =>
      && u.nodes == t.nodes
      && if t.modals == [] then u.modals == []
         else u.modals == t.modals[..|t.modals| - 1] && u.focus == t.modals[|t.modals| - 1].returnTo
    case PushModalOp(entry) =>
      u.nodes == t.nodes && (u.modals == t.modals || u.modals == t.modals + [Modal(entry, t.focus)])
    case RemoveOp(id, _) =>
      && u.nodes.Keys == t.nodes.Keys - {id} && |u.modals| == |t.modals|
      && forall i | 0 <= i < |t.modals| && t.modals[i].returnTo != id :: u.modals[i] == t.modals[i]
    case RestoreOp(_) => true
    case _ => t.nodes.Keys <= u.nodes.Keys && u.modals == t.modals
  }

  lemma RemoveStackEffect(t: State, id: Id, explicit: Id)
    ensures StackEffect(t, Remove(t, id, explicit), RemoveOp(id, explicit))
  {
    if id in t.nodes {
      var redirected := Redirect(t.modals, id, RemovalFallback(t.nodes - {id}, t.nodes[id], explicit));
      assert Remove(t, id, explicit).modals == redirected;
    }
  }

  lemma StackEffectOf(t: State, op: Op)
    requires ModalsValid(t.nodes, t.modals)
    ensures StackEffect(t, Apply(t, op), op)
  {
    match op
    case RegisterOp(_, _, _) =>
    case RemoveOp(id, explicit) => RemoveStackEffect(t, id, explicit);
    case SetInitialFocusOp(_) =>
    case MoveFocusOp(_) =>
    case CycleZoneOp(_) =>
    case PushModalOp(_) =>
    case PopModalOp =>
      if t.modals != [] {
        PopReturnsToRemembered(t);
      }
    case RestoreOp(_) =>
    case SetWrapPolicyOp(_) =>
    case SetGeometryOp(_) =>
  }

  /** The stack still starts with `base` and, on it, a modal returning to `f`. */
  ghost predicate NestedOver(t: State, base: seq<Modal>, f: Id) {
    && |t.modals| > |base| && t.modals[|base|].returnTo == f
    && (forall i | 0 <= i < |base| :: t.modals[i] == base[i])
    && (f == NONE || f in t.nodes)
  }

  /** No undisturbing operation short of the matching pop reaches the modal; that pop restores both
      the stack and the focus. */
  lemma NestedStep(t: State, u: State, op: Op, base: seq<Modal>, f: Id)
    requires NestedOver(t, base, f) && StackEffect(t, u, op) && Undisturbing(op, base, f)
    ensures |u.modals| > |base| ==> NestedOver(u, base, f)
    ensures |u.modals| <= |base| ==> u.modals == base && u.focus == f
  {
  }

  lemma {:induction false} NestedRun(t: State, ops: seq<Op>, base: seq<Modal>, f: Id)
    requires Valid(t) && NestedOver(t, base, f)
    requires forall op | op in ops :: Undisturbing(op, base, f)
    requires forall n | 0 <= n < |ops| :: |Run(t, ops[..n]).modals| > |base|
    ensures Valid(Run(t, ops))
    ensures |Run(t, ops).modals| > |base| ==> NestedOver(Run(t, ops), base, f)
    ensures |Run(t, ops).modals| <= |base| ==> Run(t, ops).modals == base && Run(t, ops).focus == f
  {
    if ops == [] {
    } else {
      var (front, op) := (ops[..|ops| - 1], ops[|ops| - 1]);
      assert forall n | 0 <= n < |front| :: front[..n] == ops[..n];
      assert op in ops && Undisturbing(op, base, f);
      NestedRun(t, front, base, f);
      var u := Run(t, front);
      ApplyKeeps(u, op);
      StackEffectOf(u, op);
      NestedStep(u, Apply(u, op), op, base, f);
    }
  }

  /** Whatever happens while a modal is open (moves, zone cycling, nested modals, registrations,
      removals of nodes that no open modal returns to), popping it restores exactly the focus and the
      modal stack from before it was pushed. */
  lemma ModalNesting(s: State, entry: Id, ops: seq<Op>)
    requires Valid(s) && entry in s.nodes
    requires forall op | op in ops :: Undisturbing(op, s.modals, s.focus)
    requires forall n | 0 <= n < |ops| :: |Run(PushModal(s, entry), ops[..n]).modals| > |s.modals|
    requires |Run(PushModal(s, entry), ops).modals| == |s.modals|
    ensures Run(PushModal(s, entry), ops).focus == s.focus
    ensures Run(PushModal(s, entry), ops).modals == s.modals
  {
    PushKeeps(s, entry);
    NestedRun(PushModal(s, entry), ops, s.modals, s.focus);
  }
}
