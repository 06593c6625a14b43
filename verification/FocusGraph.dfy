/** The focus graph of FocusController.cpp as a value, and what each operation does to it. */
module FocusGraph {
  import opened Wrappers

  type Id = string
  type Zone = string

  datatype Direction = Up | Down | Left | Right
  datatype WrapPolicy = NoWrap | WrapWithinZone

  datatype Node = Node(zone: Zone, neighbors: map<Direction, Id>, order: nat)
  type Nodes = map<Id, Node>

  datatype Modal = Modal(entry: Id, returnTo: Id)

  /** (current node, direction, other nodes of its zone) to a target, if any. */
  type Geometry = (Id, Direction, seq<Id>) -> Option<Id>

  /** The empty string stands for "no node", as in the source. */
  const NONE: Id := ""

  datatype State = State(
    nodes: Nodes,
    zoneOrder: seq<Zone>,
    memory: map<Zone, Id>,
    modals: seq<Modal>,
    focus: Id,
    wrap: WrapPolicy,
    geometry: Option<Geometry>,
    nextOrder: nat)

  datatype Snapshot = Snapshot(focus: Id, modals: seq<Modal>, memory: map<Zone, Id>)

  // ---- Order of registration ----

  ghost predicate IsEarliest(nodes: Nodes, ids: set<Id>, id: Id)
    requires ids <= nodes.Keys
  {
    id in ids && forall x | x in ids :: nodes[id].order <= nodes[x].order
  }

  lemma EarliestExists(nodes: Nodes, ids: set<Id>)
    requires ids <= nodes.Keys && ids != {}
    ensures exists id :: IsEarliest(nodes, ids, id)
  {
    var id :| id in ids;
    if ids == {id} {
      assert IsEarliest(nodes, ids, id);
    } else {
      EarliestExists(nodes, ids - {id});
      var other :| IsEarliest(nodes, ids - {id}, other);
      var best := if nodes[id].order <= nodes[other].order then id else other;
      assert IsEarliest(nodes, ids, best);
    }
  }

  ghost function Earliest(nodes: Nodes, ids: set<Id>): (id: Id)
    requires ids <= nodes.Keys && ids != {}
    ensures IsEarliest(nodes, ids, id)
  {
    EarliestExists(nodes, ids);
    var id :| IsEarliest(nodes, ids, id);
    id
  }

  /** Some nodes in registration order. */
  ghost function Listing(nodes: Nodes, ids: set<Id>): (list: seq<Id>)
    requires ids <= nodes.Keys
    ensures forall x :: x in list <==> x in ids
  {
    if ids == {} then []
    else
      var first := Earliest(nodes, ids);
      [first] + Listing(nodes, ids - {first})
  }

  ghost predicate OrdersDistinct(nodes: Nodes) {
    forall a, b | a in nodes && b in nodes && a != b :: nodes[a].order != nodes[b].order
  }

  ghost predicate InOrder(nodes: Nodes, list: seq<Id>) {
    && (forall x | x in list :: x in nodes)
    && forall i, j | 0 <= i < j < |list| :: nodes[list[i]].order < nodes[list[j]].order
  }

  lemma {:induction false} ListingInOrder(nodes: Nodes, ids: set<Id>)
    requires ids <= nodes.Keys && OrdersDistinct(nodes)
    ensures InOrder(nodes, Listing(nodes, ids))
  {
    if ids == {} {
    } else {
      var first := Earliest(nodes, ids);
      ListingInOrder(nodes, ids - {first});
      var rest := Listing(nodes, ids - {first});
      forall i | 0 <= i < |rest| ensures nodes[first].order < nodes[rest[i]].order {
        assert rest[i] in ids - {first};
      }
    }
  }

  lemma TailMembers(nodes: Nodes, list: seq<Id>, ids: set<Id>)
    requires |list| > 0 && InOrder(nodes, list) && forall x :: x in list <==> x in ids
    ensures forall x :: x in list[1..] <==> x in ids - {list[0]}
    ensures InOrder(nodes, list[1..])
  {
    assert list == [list[0]] + list[1..];
    forall x | x in list[1..] ensures x != list[0] {
      var j :| 0 <= j < |list| - 1 && list[1..][j] == x;
      assert list[j + 1] == x;
    }
  }

  /** Distinct registration orders leave one listing only. */
  lemma {:induction false} ListingUnique(nodes: Nodes, ids: set<Id>, list: seq<Id>)
    requires ids <= nodes.Keys && OrdersDistinct(nodes)
    requires InOrder(nodes, list) && forall x :: x in list <==> x in ids
    ensures list == Listing(nodes, ids)
  {
    if list == [] {
      assert ids == {};
    } else {
      assert list[0] in ids;
      var first := Earliest(nodes, ids);
      assert list[0] == first by {
        var i :| 0 <= i < |list| && list[i] == first;
      }
      TailMembers(nodes, list, ids);
      ListingUnique(nodes, ids - {first}, list[1..]);
      assert list == [first] + list[1..];
    }
  }

  ghost function Members(nodes: Nodes, zone: Zone): set<Id> {
    set id | id in nodes && nodes[id].zone == zone
  }

  ghost function NodesInZone(nodes: Nodes, zone: Zone): (list: seq<Id>)
    ensures forall x :: x in list <==> x in Members(nodes, zone)
    ensures Members(nodes, zone) != {} ==> |list| > 0 && list[0] in Members(nodes, zone)
  {
    Listing(nodes, Members(nodes, zone))
  }

  ghost function FirstRegistered(nodes: Nodes): (id: Id)
    ensures id in nodes || (id == NONE && nodes == map[])
  {
    if nodes.Keys == {} then NONE else Earliest(nodes, nodes.Keys)
  }

  function ZoneOf(nodes: Nodes, id: Id): Zone {
    if id in nodes then nodes[id].zone else ""
  }

  function IndexOf<T(==)>(list: seq<T>, x: T): (i: int)
    ensures -1 <= i < |list|
    ensures i == -1 <==> x !in list
    ensures i >= 0 ==> list[i] == x && x !in list[..i]
  {
    if list == [] then -1
    else if list[0] == x then 0
    else
      var i := IndexOf(list[1..], x);
      if i == -1 then -1
      else
        assert list[..i + 1] == [list[0]] + list[1..][..i];
        i + 1
  }

  // ---- Operations ----

  function SetFocus(s: State, id: Id): State {
    if s.focus == id then s
    else
      var zone := ZoneOf(s.nodes, id);
      s.(focus := id, memory := if id != NONE && zone != "" then s.memory[zone := id] else s.memory)
  }

  /** pruneZoneIfEmpty: a zone without nodes leaves the zone order and forgets its last focus. */
  ghost function PrunedOrder(nodes: Nodes, order: seq<Zone>, zone: Zone): seq<Zone> {
    if Members(nodes, zone) != {} then order else RemoveAll(order, zone)
  }

  ghost function PrunedMemory(nodes: Nodes, memory: map<Zone, Id>, zone: Zone): map<Zone, Id> {
    if Members(nodes, zone) != {} then memory else memory - {zone}
  }

  function RemoveAll<T(==,!new)>(list: seq<T>, x: T): (rest: seq<T>)
    ensures forall y :: y in rest <==> y in list && y != x
    ensures x !in list ==> rest == list
    ensures NoDuplicates(list) ==> NoDuplicates(rest)
  {
    if list == [] then []
    else if list[0] == x then RemoveAll(list[1..], x)
    else
      var rest := RemoveAll(list[1..], x);
      assert NoDuplicates(list) ==> NoDuplicates(list[1..]) && list[0] !in list[1..];
      [list[0]] + rest
  }

  predicate NoDuplicates<T(==)>(list: seq<T>) {
    forall i, j | 0 <= i < j < |list| :: list[i] != list[j]
  }

  function WithZone(order: seq<Zone>, zone: Zone): seq<Zone> {
    if zone in order then order else order + [zone]
  }

  /** What the zones remember once `id` has moved from one zone to another. */
  ghost function MovedMemory(nodes: Nodes, memory: map<Zone, Id>, id: Id, from: Zone, to: Zone,
                             focused: bool): map<Zone, Id> {
    var forgotten := if from in memory && memory[from] == id then memory - {from} else memory;
    var pruned := PrunedMemory(nodes, forgotten, from);
    if focused then pruned[to := id] else pruned
  }

  ghost function Register(s: State, id: Id, zone: Zone, neighbors: map<Direction, Id>): State {
    if id !in s.nodes then
      s.(nodes := s.nodes[id := Node(zone, neighbors, s.nextOrder)],
         nextOrder := s.nextOrder + 1,
         zoneOrder := WithZone(s.zoneOrder, zone))
    else
      var nodes := s.nodes[id := Node(zone, neighbors, s.nodes[id].order)];
      var from := s.nodes[id].zone;
      if from == zone then s.(nodes := nodes, zoneOrder := WithZone(s.zoneOrder, zone))
      else
        s.(nodes := nodes,
           zoneOrder := PrunedOrder(nodes, WithZone(s.zoneOrder, zone), from),
           memory := MovedMemory(nodes, s.memory, id, from, zone, s.focus == id))
  }

  /** The first of some directions in which a node has a neighbour that is still there. */
  function FirstLiveNeighbor(nodes: Nodes, neighbors: map<Direction, Id>, directions: seq<Direction>): (id: Option<Id>)
    ensures id.Some? ==> id.value in nodes
  {
    if directions == [] then None
    else if directions[0] in neighbors && neighbors[directions[0]] in nodes then Some(neighbors[directions[0]])
    else FirstLiveNeighbor(nodes, neighbors, directions[1..])
  }

  /** Where focus and modal return targets go when `removed` is gone from `nodes`. */
  ghost function RemovalFallback(nodes: Nodes, removed: Node, explicit: Id): (id: Id)
    ensures id == NONE || id in nodes
  {
    var neighbor := FirstLiveNeighbor(nodes, removed.neighbors, [Up, Down, Left, Right]);
    if explicit != NONE && explicit in nodes then explicit
    else if neighbor.Some? then neighbor.value
    else if Members(nodes, removed.zone) != {} then NodesInZone(nodes, removed.zone)[0]
    else NONE
  }

  function ForgetNode(memory: map<Zone, Id>, id: Id): map<Zone, Id> {
    map zone | zone in memory && memory[zone] != id :: memory[zone]
  }

  function Redirect(modals: seq<Modal>, id: Id, target: Id): (redirected: seq<Modal>)
    ensures |redirected| == |modals|
  {
    seq(|modals|, i requires 0 <= i < |modals| =>
      if modals[i].returnTo == id then modals[i].(returnTo := target) else modals[i])
  }

  ghost function Remove(s: State, id: Id, explicit: Id): State {
    if id !in s.nodes then s
    else
      var removed := s.nodes[id];
      var nodes := s.nodes - {id};
      var fallback := RemovalFallback(nodes, removed, explicit);
      var detached := s.(
        nodes := nodes,
        zoneOrder := PrunedOrder(nodes, s.zoneOrder, removed.zone),
        memory := ForgetNode(PrunedMemory(nodes, s.memory, removed.zone), id),
        modals := Redirect(s.modals, id, fallback));
      if s.focus == id then SetFocus(detached, fallback) else detached
  }

  function SetInitialFocus(s: State, id: Id): State {
    if s.modals != [] || id !in s.nodes then s else SetFocus(s, id)
  }

  predicate HasLiveNeighbor(nodes: Nodes, id: Id, d: Direction)
    requires id in nodes
  {
    d in nodes[id].neighbors && nodes[id].neighbors[d] in nodes
  }

  /** One step around a ring of k positions, or onto it from just before its first (-1) or just after
      its last (k). */
  function StepIndex(i: int, k: nat, forward: bool): (j: int)
    requires -1 <= i <= k && k > 0 && (i == -1 ==> forward) && (i == k ==> !forward)
    ensures 0 <= j < k
  {
    if forward then (if i + 1 == k then 0 else i + 1)
    else if i == 0 then k - 1 else i - 1
  }

  /** The step as the source computes it. */
  lemma StepIndexByRemainder(i: int, k: nat)
    requires 0 < k
    ensures -1 <= i < k ==> (i + 1) % k == StepIndex(i, k, true)
    ensures 0 <= i <= k ==> (i - 1 + k) % k == StepIndex(i, k, false)
  {
    if -1 <= i < k {
      RemainderForward(i, k);
    }
    if 0 <= i <= k {
      RemainderBackward(i, k);
    }
  }

  lemma RemainderForward(i: int, k: nat)
    requires -1 <= i < k && 0 < k
    ensures (i + 1) % k == if i + 1 == k then 0 else i + 1
  {
    if i + 1 == k {
      RemainderOver(0, k);
    } else {
      RemainderBelow(i + 1, k);
    }
  }

  lemma RemainderBackward(i: int, k: nat)
    requires 0 <= i <= k && 0 < k
    ensures (i - 1 + k) % k == if i == 0 then k - 1 else i - 1
  {
    if i == 0 {
      RemainderBelow(k - 1, k);
    } else {
      RemainderOver(i - 1, k);
    }
  }

  lemma RemainderBelow(r: int, k: int)
    requires 0 <= r < k
    ensures r % k == r
  {
  }

  lemma RemainderOver(r: int, k: int)
    requires 0 <= r < k
    ensures (r + k) % k == r
  {
    assert (r + k) / k == 1;
  }

  /** The node one step along the zone, wrapping around at its ends. */
  function WrapTarget(list: seq<Id>, id: Id, d: Direction): (target: Id)
    requires id in list
    ensures target in list
  {
    list[StepIndex(IndexOf(list, id), |list|, d.Right? || d.Down?)]
  }

  /** Where a move goes, if anywhere: moveFocus reports true exactly when there is a target. */
  ghost function MoveTarget(s: State, d: Direction): (target: Option<Id>)
    ensures target.Some? ==> target.value in s.nodes
  {
    if s.focus == NONE || s.focus !in s.nodes then None
    else if HasLiveNeighbor(s.nodes, s.focus, d) then Some(s.nodes[s.focus].neighbors[d])
    else
      var list := NodesInZone(s.nodes, s.nodes[s.focus].zone);
      if s.wrap.WrapWithinZone? && |list| > 1 && WrapTarget(list, s.focus, d) != s.focus then
        Some(WrapTarget(list, s.focus, d))
      else FallbackTarget(s, list, d)
  }

  /** The node the geometry fallback names among the others of the zone, if it is registered. */
  ghost function FallbackTarget(s: State, list: seq<Id>, d: Direction): (target: Option<Id>)
    ensures target.Some? ==> target.value in s.nodes
  {
    if s.geometry.Some? then
      var target := s.geometry.value(s.focus, d, RemoveAll(list, s.focus));
      if target.Some? && target.value in s.nodes then target else None
    else None
  }

  ghost function MoveFocus(s: State, d: Direction): State {
    var target := MoveTarget(s, d);
    if target.Some? then SetFocus(s, target.value) else s
  }

  ghost function ActiveZones(nodes: Nodes, order: seq<Zone>): (active: seq<Zone>)
    ensures forall z :: z in active <==> z in order && Members(nodes, z) != {}
    ensures (forall z | z in order :: Members(nodes, z) != {}) ==> active == order
  {
    if order == [] then []
    else
      var rest := ActiveZones(nodes, order[1..]);
      if Members(nodes, order[0]) != {} then [order[0]] + rest else rest
  }

  /** The node a zone is entered at: the remembered one if it is still there, else its first. */
  ghost function EntryOf(s: State, zone: Zone): (id: Id)
    requires Members(s.nodes, zone) != {}
    ensures id in Members(s.nodes, zone)
  {
    if zone in s.memory && s.memory[zone] != NONE && s.memory[zone] in s.nodes
       && ZoneOf(s.nodes, s.memory[zone]) == zone
    then s.memory[zone]
    else NodesInZone(s.nodes, zone)[0]
  }

  /** Where cycleZone goes; it reports true exactly when there is a target. */
  ghost function CycleTarget(s: State, forward: bool): (target: Option<Id>)
    ensures target.Some? ==> target.value in s.nodes
  {
    var active := ActiveZones(s.nodes, s.zoneOrder);
    if |active| < 2 then None
    else
      var here := IndexOf(active, ZoneOf(s.nodes, s.focus));
      var i := if here >= 0 then here else if forward then -1 else |active|;
      Some(EntryOf(s, active[StepIndex(i, |active|, forward)]))
  }

  ghost function CycleZone(s: State, forward: bool): State {
    var target := CycleTarget(s, forward);
    if target.Some? then SetFocus(s, target.value) else s
  }

  /** pushModal reports true exactly when the entry node is registered. */
  function PushModal(s: State, entry: Id): State {
    if entry !in s.nodes then s
    else SetFocus(s.(modals := s.modals + [Modal(entry, s.focus)]), entry)
  }

  /** popModal reports true exactly when a modal is active. */
  ghost function PopModal(s: State): State {
    if s.modals == [] then s
    else
      var top := s.modals[|s.modals| - 1];
      var popped := s.(modals := s.modals[..|s.modals| - 1]);
      var target :=
        if top.returnTo == NONE then NONE
        else if top.returnTo in s.nodes then top.returnTo
        else FirstRegistered(s.nodes);
      SetFocus(popped, target)
  }

  function TakeSnapshot(s: State): Snapshot {
    Snapshot(s.focus, s.modals, s.memory)
  }

  ghost function RestoredModals(nodes: Nodes, modals: seq<Modal>): (restored: seq<Modal>)
    ensures forall m | m in restored :: m.entry in nodes && (m.returnTo == NONE || m.returnTo in nodes)
  {
    if modals == [] then []
    else
      var rest := RestoredModals(nodes, modals[..|modals| - 1]);
      var last := modals[|modals| - 1];
      if last.entry !in nodes then rest
      else
        rest + [Modal(last.entry,
                      if last.returnTo == NONE || last.returnTo in nodes then last.returnTo
                      else FirstRegistered(nodes))]
  }

  function RestoredMemory(nodes: Nodes, memory: map<Zone, Id>): map<Zone, Id> {
    map zone | zone in memory && memory[zone] in nodes && ZoneOf(nodes, memory[zone]) == zone :: memory[zone]
  }

  /** Where a snapshot puts the focus: a function of the snapshot and the node table alone. */
  ghost function RestoredFocus(nodes: Nodes, snap: Snapshot): (id: Id)
    ensures id == NONE || id in nodes
  {
    var modals := RestoredModals(nodes, snap.modals);
    if snap.focus != NONE && snap.focus in nodes then snap.focus
    else if modals != [] then modals[|modals| - 1].entry
    else FirstRegistered(nodes)
  }

  ghost function Restore(s: State, snap: Snapshot): State {
    var target := RestoredFocus(s.nodes, snap);
    var zone := ZoneOf(s.nodes, target);
    var memory := RestoredMemory(s.nodes, snap.memory);
    SetFocus(s.(
      modals := RestoredModals(s.nodes, snap.modals),
      memory := if target != NONE && zone != "" then memory[zone := target] else memory),
      target)
  }
}
