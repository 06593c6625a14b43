/** What every FocusController operation keeps. */
module FocusInvariant {
  import opened Wrappers
  import opened FocusGraph

  ghost predicate NodesValid(nodes: Nodes, nextOrder: nat) {
    && OrdersDistinct(nodes)
    && forall id | id in nodes :: id != NONE && nodes[id].zone != "" && nodes[id].order < nextOrder
  }

  /** The zone order lists exactly the zones that have a node, once each. */
  ghost predicate ZonesValid(nodes: Nodes, order: seq<Zone>) {
    && NoDuplicates(order)
    && (forall id | id in nodes :: nodes[id].zone in order)
    && forall z | z in order :: Members(nodes, z) != {}
  }

  /** Each remembering zone remembers one of its own nodes. */
  ghost predicate MemoryValid(nodes: Nodes, memory: map<Zone, Id>) {
    forall z | z in memory :: memory[z] in nodes && nodes[memory[z]].zone == z
  }

  /** The focused node is registered and is what its own zone remembers. */
  ghost predicate FocusValid(nodes: Nodes, memory: map<Zone, Id>, focus: Id) {
    focus == NONE || (focus in nodes && nodes[focus].zone in memory && memory[nodes[focus].zone] == focus)
  }

  /** Every modal has a return target that is still there, or returns to no focus at all. */
  ghost predicate ModalsValid(nodes: Nodes, modals: seq<Modal>) {
    forall m | m in modals :: m.returnTo == NONE || m.returnTo in nodes
  }

  ghost predicate Valid(s: State) {
    && NodesValid(s.nodes, s.nextOrder)
    && ZonesValid(s.nodes, s.zoneOrder)
    && MemoryValid(s.nodes, s.memory)
    && FocusValid(s.nodes, s.memory, s.focus)
    && ModalsValid(s.nodes, s.modals)
  }

  function Initial(wrap: WrapPolicy): State {
    State(map[], [], map[], [], NONE, wrap, None, 0)
  }

  datatype Op =
    | RegisterOp(id: Id, zone: Zone, neighbors: map<Direction, Id>)
    | RemoveOp(id: Id, fallback: Id)
    | SetInitialFocusOp(id: Id)
    | MoveFocusOp(d: Direction)
    | CycleZoneOp(forward: bool)
    | PushModalOp(entry: Id)
    | PopModalOp
    | RestoreOp(snap: Snapshot)
    | SetWrapPolicyOp(policy: WrapPolicy)
    | SetGeometryOp(geometry: Option<Geometry>)

  /** Node and zone ids are non-empty. */
  predicate Admissible(op: Op) {
    op.RegisterOp? ==> op.id != NONE && op.zone != ""
  }

  ghost function Apply(s: State, op: Op): State {
    match op
    case RegisterOp(id, zone, neighbors) => Register(s, id, zone, neighbors)
    case RemoveOp(id, fallback) => Remove(s, id, fallback)
    case SetInitialFocusOp(id) => SetInitialFocus(s, id)
    case MoveFocusOp(d) => MoveFocus(s, d)
    case CycleZoneOp(forward) => CycleZone(s, forward)
    case PushModalOp(entry) => PushModal(s, entry)
    case PopModalOp => PopModal(s)
    case RestoreOp(snap) => Restore(s, snap)
    case SetWrapPolicyOp(policy) => s.(wrap := policy)
    case SetGeometryOp(geometry) => s.(geometry := geometry)
  }

  ghost function Run(s: State, ops: seq<Op>): State {
    if ops == [] then s else Apply(Run(s, ops[..|ops| - 1]), ops[|ops| - 1])
  }

  // ---- Each operation keeps the invariant ----

  lemma SetFocusKeeps(s: State, id: Id)
    requires Valid(s.(focus := NONE)) && (id == NONE || id in s.nodes)
    requires s.focus == id ==> FocusValid(s.nodes, s.memory, id)
    ensures Valid(SetFocus(s, id))
    ensures SetFocus(s, id).focus == id
  {
  }

  lemma MembersAfterRewrite(nodes: Nodes, id: Id, node: Node, z: Zone)
    ensures var rest := Members(nodes, z) - {id};
            Members(nodes[id := node], z) == if node.zone == z then rest + {id} else rest
  {
  }

  lemma ZonesAfterRewrite(nodes: Nodes, order: seq<Zone>, id: Id, node: Node)
    requires ZonesValid(nodes, order)
    requires id !in nodes || nodes[id].zone == node.zone
    ensures ZonesValid(nodes[id := node], WithZone(order, node.zone))
  {
    forall z | z in WithZone(order, node.zone) ensures Members(nodes[id := node], z) != {} {
      MembersAfterRewrite(nodes, id, node, z);
      assert id in Members(nodes, z) ==> z == node.zone;
    }
  }

  lemma ZonesAfterMove(nodes: Nodes, order: seq<Zone>, id: Id, node: Node)
    requires ZonesValid(nodes, order) && id in nodes && nodes[id].zone != node.zone
    ensures ZonesValid(nodes[id := node], PrunedOrder(nodes[id := node], WithZone(order, node.zone), nodes[id].zone))
  {
    var after := nodes[id := node];
    forall z | z in WithZone(order, node.zone) && z != nodes[id].zone ensures Members(after, z) != {} {
      MembersAfterRewrite(nodes, id, node, z);
      assert id !in Members(nodes, z);
    }
    if Members(after, nodes[id].zone) == {} {
      forall x | x in after ensures after[x].zone != nodes[id].zone {
        assert x !in Members(after, nodes[id].zone);
      }
    }
  }

  lemma MemoryAfterMove(nodes: Nodes, memory: map<Zone, Id>, id: Id, node: Node, focus: Id)
    requires MemoryValid(nodes, memory) && FocusValid(nodes, memory, focus) && id != NONE
    requires id in nodes && nodes[id].zone != node.zone
    ensures var moved := MovedMemory(nodes[id := node], memory, id, nodes[id].zone, node.zone, focus == id);
            MemoryValid(nodes[id := node], moved) && FocusValid(nodes[id := node], moved, focus)
  {
    var after := nodes[id := node];
    if focus in nodes && focus != id && nodes[focus].zone == nodes[id].zone {
      assert focus in Members(after, nodes[id].zone);
    }
  }

  lemma NodesAfterRewrite(nodes: Nodes, nextOrder: nat, id: Id, zone: Zone, neighbors: map<Direction, Id>)
    requires NodesValid(nodes, nextOrder) && id != NONE && zone != ""
    ensures id in nodes ==> NodesValid(nodes[id := Node(zone, neighbors, nodes[id].order)], nextOrder)
    ensures id !in nodes ==> NodesValid(nodes[id := Node(zone, neighbors, nextOrder)], nextOrder + 1)
  {
  }

  lemma RestOfRegister(nodes: Nodes, memory: map<Zone, Id>, focus: Id, modals: seq<Modal>, id: Id, node: Node)
    requires MemoryValid(nodes, memory) && FocusValid(nodes, memory, focus) && ModalsValid(nodes, modals)
    ensures ModalsValid(nodes[id := node], modals)
    ensures id !in nodes || nodes[id].zone == node.zone ==>
              MemoryValid(nodes[id := node], memory) && FocusValid(nodes[id := node], memory, focus)
  {
  }

  lemma RegisterKeeps(s: State, id: Id, zone: Zone, neighbors: map<Direction, Id>)
    requires Valid(s) && id != NONE && zone != ""
    ensures Valid(Register(s, id, zone, neighbors))
  {
    var node := Node(zone, neighbors, if id in s.nodes then s.nodes[id].order else s.nextOrder);
    NodesAfterRewrite(s.nodes, s.nextOrder, id, zone, neighbors);
    RestOfRegister(s.nodes, s.memory, s.focus, s.modals, id, node);
    if id in s.nodes && s.nodes[id].zone != zone {
      ZonesAfterMove(s.nodes, s.zoneOrder, id, node);
      MemoryAfterMove(s.nodes, s.memory, id, node, s.focus);
    } else {
      ZonesAfterRewrite(s.nodes, s.zoneOrder, id, node);
    }
  }

  lemma ZonesAfterRemoval(nodes: Nodes, order: seq<Zone>, id: Id)
    requires ZonesValid(nodes, order) && id in nodes
    ensures ZonesValid(nodes - {id}, PrunedOrder(nodes - {id}, order, nodes[id].zone))
  {
    var after := nodes - {id};
    forall z | z in order && z != nodes[id].zone ensures Members(after, z) != {} {
      assert Members(after, z) == Members(nodes, z);
    }
    if Members(after, nodes[id].zone) == {} {
      forall x | x in after ensures after[x].zone != nodes[id].zone {
        assert x !in Members(after, nodes[id].zone);
      }
    }
  }

  lemma MemoryAfterRemoval(nodes: Nodes, memory: map<Zone, Id>, id: Id, focus: Id)
    requires MemoryValid(nodes, memory) && FocusValid(nodes, memory, focus) && id in nodes
    ensures var kept := ForgetNode(PrunedMemory(nodes - {id}, memory, nodes[id].zone), id);
            MemoryValid(nodes - {id}, kept) && (focus != id ==> FocusValid(nodes - {id}, kept, focus))
  {
    if focus in nodes && focus != id && nodes[focus].zone == nodes[id].zone {
      assert focus in Members(nodes - {id}, nodes[id].zone);
    }
  }

  lemma ModalsAfterRemoval(nodes: Nodes, modals: seq<Modal>, id: Id, fallback: Id)
    requires ModalsValid(nodes, modals) && (fallback == NONE || fallback in nodes - {id})
    ensures ModalsValid(nodes - {id}, Redirect(modals, id, fallback))
  {
  }

  /** The state without the node, before focus moves on. */
  ghost function Detached(s: State, id: Id, explicit: Id): State
    requires id in s.nodes
  {
    var (nodes, zone) := (s.nodes - {id}, s.nodes[id].zone);
    s.(nodes := nodes, focus := if s.focus == id then NONE else s.focus,
       zoneOrder := PrunedOrder(nodes, s.zoneOrder, zone),
       memory := ForgetNode(PrunedMemory(nodes, s.memory, zone), id),
       modals := Redirect(s.modals, id, RemovalFallback(nodes, s.nodes[id], explicit)))
  }

  lemma DetachedKeeps(s: State, id: Id, explicit: Id, detached: State)
    requires Valid(s) && id in s.nodes && detached == Detached(s, id, explicit)
    ensures Valid(detached)
  {
    ZonesAfterRemoval(s.nodes, s.zoneOrder, id);
    MemoryAfterRemoval(s.nodes, s.memory, id, s.focus);
    ModalsAfterRemoval(s.nodes, s.modals, id, RemovalFallback(s.nodes - {id}, s.nodes[id], explicit));
  }

  lemma RemoveIsDetach(s: State, id: Id, explicit: Id, detached: State)
    requires id != NONE && id in s.nodes && detached == Detached(s, id, explicit)
    ensures Remove(s, id, explicit) ==
            if s.focus == id then SetFocus(detached, RemovalFallback(s.nodes - {id}, s.nodes[id], explicit))
            else detached
  {
  }

  lemma RemoveKeeps(s: State, id: Id, explicit: Id)
    requires Valid(s)
    ensures Valid(Remove(s, id, explicit))
  {
    if id in s.nodes {
      var detached := Detached(s, id, explicit);
      DetachedKeeps(s, id, explicit, detached);
      RemoveIsDetach(s, id, explicit, detached);
      SetFocusKeeps(detached, RemovalFallback(s.nodes - {id}, s.nodes[id], explicit));
    }
  }

  lemma NavigationKeeps(s: State, target: Option<Id>)
    requires Valid(s) && (target.Some? ==> target.value in s.nodes)
    ensures Valid(if target.Some? then SetFocus(s, target.value) else s)
  {
    if target.Some? {
      SetFocusKeeps(s, target.value);
    }
  }

  lemma PushKeeps(s: State, entry: Id)
    requires Valid(s)
    ensures Valid(PushModal(s, entry))
  {
    if entry in s.nodes {
      SetFocusKeeps(s.(modals := s.modals + [Modal(entry, s.focus)]), entry);
    }
  }

  lemma PopKeeps(s: State)
    requires Valid(s)
    ensures Valid(PopModal(s))
  {
    if s.modals != [] {
      assert s.modals[|s.modals| - 1] in s.modals;
    }
  }

  lemma RestoredMemoryValid(nodes: Nodes, memory: map<Zone, Id>, target: Id, zone: Zone)
    requires MemoryValid(nodes, memory) && zone == ZoneOf(nodes, target)
    requires target != NONE ==> target in nodes
    ensures MemoryValid(nodes, if target != NONE && zone != "" then memory[zone := target] else memory)
  {
  }

  lemma RestoredValid(s: State, modals: seq<Modal>, memory: map<Zone, Id>, target: Id)
    requires Valid(s) && ModalsValid(s.nodes, modals) && MemoryValid(s.nodes, memory)
    requires FocusValid(s.nodes, memory, target)
    ensures Valid(SetFocus(s.(modals := modals, memory := memory), target))
  {
  }

  lemma RestoreKeeps(s: State, snap: Snapshot)
    requires Valid(s)
    ensures Valid(Restore(s, snap))
  {
    var (target, memory) := (RestoredFocus(s.nodes, snap), RestoredMemory(s.nodes, snap.memory));
    var zone := ZoneOf(s.nodes, target);
    RestoredMemoryValid(s.nodes, memory, target, zone);
    var remembered := if target != NONE && zone != "" then memory[zone := target] else memory;
    RestoredValid(s, RestoredModals(s.nodes, snap.modals), remembered, target);
  }

  /** Every operation keeps the invariant, so it holds over every run. */
  lemma {:induction false} ApplyKeeps(s: State, op: Op)
    requires Valid(s) && Admissible(op)
    ensures Valid(Apply(s, op))
  {
    match op
    case RegisterOp(id, zone, neighbors) => RegisterKeeps(s, id, zone, neighbors);
    case RemoveOp(id, fallback) => RemoveKeeps(s, id, fallback);
    case SetInitialFocusOp(id) => NavigationKeeps(s, if id in s.nodes then Some(id) else None);
    case MoveFocusOp(d) => NavigationKeeps(s, MoveTarget(s, d));
    case CycleZoneOp(forward) => NavigationKeeps(s, CycleTarget(s, forward));
    case PushModalOp(entry) => PushKeeps(s, entry);
    case PopModalOp => PopKeeps(s);
    case RestoreOp(snap) => RestoreKeeps(s, snap);
    case SetWrapPolicyOp(_) =>
    case SetGeometryOp(_) =>
  }

  lemma {:induction false} RunKeeps(wrap: WrapPolicy, ops: seq<Op>)
    requires forall op | op in ops :: Admissible(op)
    ensures Valid(Run(Initial(wrap), ops))
  {
    if ops == [] {
    } else {
      RunKeeps(wrap, ops[..|ops| - 1]);
      ApplyKeeps(Run(Initial(wrap), ops[..|ops| - 1]), ops[|ops| - 1]);
    }
  }

  /** popModal always returns to the remembered focus: its fallback to the first registered node is
      never taken. */
  lemma PopReturnsToRemembered(s: State)
    requires ModalsValid(s.nodes, s.modals) && s.modals != []
    ensures PopModal(s).focus == s.modals[|s.modals| - 1].returnTo
  {
    assert s.modals[|s.modals| - 1] in s.modals;
  }

  /** A removed node is forgotten everywhere but as the entry of a modal pushed earlier. */
  lemma RemoveForgets(s: State, id: Id, explicit: Id)
    requires Valid(s) && id != NONE
    ensures var t := Remove(s, id, explicit);
            && id !in t.nodes && t.focus != id && id !in t.memory.Values
            && forall m | m in t.modals :: m.returnTo != id
  {
    RemoveKeeps(s, id, explicit);
  }
}
