/** FocusController.cpp: the object whose operations update the focus graph in place. Each operation
    is proved to take the abstract state exactly where FocusGraph says. */
module FocusController {
  import opened Wrappers
  import opened FocusGraph
  import opened FocusInvariant

  /** One step around a ring, in the source's modular arithmetic. */
  method NextIndex(i: int, k: nat, forward: bool) returns (next: int)
    requires -1 <= i <= k && k > 0 && (i == -1 ==> forward) && (i == k ==> !forward)
    ensures next == StepIndex(i, k, forward)
  {
    StepIndexByRemainder(i, k);
    next := if forward then (i + 1) % k else (i - 1 + k) % k;
  }

  lemma InsertedMembers(ordered: seq<Id>, id: Id, i: nat)
    requires i <= |ordered|
    ensures forall x :: x in ordered[..i] + [id] + ordered[i..] <==> x in ordered || x == id
  {
    assert ordered == ordered[..i] + ordered[i..];
  }

  /** Where an element of the longer list comes from. */
  lemma InsertedAt(ordered: seq<Id>, id: Id, i: nat, j: nat)
    requires i <= |ordered| && j <= |ordered|
    ensures (ordered[..i] + [id] + ordered[i..])[j]
            == if j < i then ordered[j] else if j == i then id else ordered[j - 1]
  {
  }

  lemma InsertedInOrder(nodes: Nodes, ordered: seq<Id>, id: Id, i: nat)
    requires InOrder(nodes, ordered) && id in nodes && i <= |ordered|
    requires forall j | 0 <= j < i :: nodes[ordered[j]].order < nodes[id].order
    requires i < |ordered| ==> nodes[id].order < nodes[ordered[i]].order
    ensures InOrder(nodes, ordered[..i] + [id] + ordered[i..])
  {
    InsertedMembers(ordered, id, i);
    var inserted := ordered[..i] + [id] + ordered[i..];
    forall j, k | 0 <= j < k < |inserted| ensures nodes[inserted[j]].order < nodes[inserted[k]].order {
      InsertedAt(ordered, id, i, j);
      InsertedAt(ordered, id, i, k);
    }
  }

  class FocusController {
    var nodes: Nodes
    var zoneOrder: seq<Zone>
    var zoneLastFocused: map<Zone, Id>
    var modalStack: seq<Modal>
    var currentFocusId: Id
    var wrapPolicy: WrapPolicy
    var geometryFallback: Option<Geometry>
    var nextRegistrationOrder: nat

    ghost function State(): FocusGraph.State
      reads this
    {
      FocusGraph.State(nodes, zoneOrder, zoneLastFocused, modalStack, currentFocusId, wrapPolicy,
                       geometryFallback, nextRegistrationOrder)
    }

    constructor (wrap: WrapPolicy)
      ensures State() == Initial(wrap) && Valid(State())
    {
      nodes, zoneOrder, zoneLastFocused, modalStack := map[], [], map[], [];
      currentFocusId, wrapPolicy, geometryFallback, nextRegistrationOrder := NONE, wrap, None, 0;
    }

    method SetWrapPolicy(policy: WrapPolicy)
      modifies this
      ensures State() == old(State()).(wrap := policy)
    {
      wrapPolicy := policy;
    }

    method SetGeometryFallback(fallback: Option<Geometry>)
      modifies this
      ensures State() == old(State()).(geometry := fallback)
    {
      geometryFallback := fallback;
    }

    method SetCurrentFocus(id: Id)
      modifies this
      ensures State() == SetFocus(old(State()), id)
    {
      if currentFocusId == id {
        return;
      }
      currentFocusId := id;
      if id != NONE {
        var zone := ZoneOf(nodes, id);
        if zone != "" {
          zoneLastFocused := zoneLastFocused[zone := id];
        }
      }
    }

    /** One node put in its place in a list sorted by registration order. */
    method InsertByOrder(ordered: seq<Id>, id: Id) returns (inserted: seq<Id>)
      requires InOrder(nodes, ordered) && id in nodes && id !in ordered && OrdersDistinct(nodes)
      ensures InOrder(nodes, inserted)
      ensures forall x :: x in inserted <==> x in ordered || x == id
    {
      var i := 0;
      while i < |ordered| && nodes[ordered[i]].order < nodes[id].order
        invariant 0 <= i <= |ordered|
        invariant forall j | 0 <= j < i :: nodes[ordered[j]].order < nodes[id].order
      {
        i := i + 1;
      }
      assert i < |ordered| ==> ordered[i] in ordered && nodes[ordered[i]].order != nodes[id].order;
      inserted := ordered[..i] + [id] + ordered[i..];
      InsertedMembers(ordered, id, i);
      InsertedInOrder(nodes, ordered, id, i);
    }

    /** nodesInZone: the scan of all nodes in whatever order the table yields them, then the sort. */
    method SortedNodesInZone(zone: Zone) returns (ids: seq<Id>)
      requires OrdersDistinct(nodes)
      ensures ids == NodesInZone(nodes, zone)
    {
      ids := [];
      var rest := nodes.Keys;
      while rest != {}
        invariant rest <= nodes.Keys && InOrder(nodes, ids)
        invariant forall x :: x in ids <==> x in Members(nodes, zone) - rest
        decreases rest
      {
        var id :| id in rest;
        if nodes[id].zone == zone {
          ids := InsertByOrder(ids, id);
        }
        rest := rest - {id};
      }
      ListingUnique(nodes, Members(nodes, zone), ids);
    }

    method FirstRegisteredNodeId() returns (best: Id)
      requires OrdersDistinct(nodes)
      ensures best == FirstRegistered(nodes)
    {
      best := NONE;
      var rest := nodes.Keys;
      ghost var found := false;
      while rest != {}
        invariant rest <= nodes.Keys
        invariant !found ==> rest == nodes.Keys && best == NONE
        invariant found ==> IsEarliest(nodes, nodes.Keys - rest, best)
        decreases rest
      {
        var id :| id in rest;
        if rest == nodes.Keys || nodes[id].order < nodes[best].order {
          best := id;
        }
        found := true;
        rest := rest - {id};
      }
      assert found ==> nodes.Keys - rest == nodes.Keys;
    }

    method PruneZoneIfEmpty(zone: Zone)
      modifies this`zoneOrder, this`zoneLastFocused
      ensures zoneOrder == PrunedOrder(nodes, old(zoneOrder), zone)
      ensures zoneLastFocused == PrunedMemory(nodes, old(zoneLastFocused), zone)
    {
      var zoneStillHasNodes := false;
      var rest := nodes.Keys;
      while rest != {} && !zoneStillHasNodes
        invariant rest <= nodes.Keys
        invariant zoneStillHasNodes ==> Members(nodes, zone) != {}
        invariant !zoneStillHasNodes ==> Members(nodes, zone) <= rest
        decreases rest, !zoneStillHasNodes
      {
        var id :| id in rest;
        if nodes[id].zone == zone {
          assert id in Members(nodes, zone);
          zoneStillHasNodes := true;
        } else {
          rest := rest - {id};
        }
      }
      if !zoneStillHasNodes {
        zoneOrder := RemoveAll(zoneOrder, zone);
        zoneLastFocused := zoneLastFocused - {zone};
      }
    }

    method RegisterNode(id: Id, zone: Zone, neighbors: map<Direction, Id>)
      requires id != NONE && zone != "" && Valid(State())
      modifies this
      ensures State() == Register(old(State()), id, zone, neighbors)
      ensures Valid(State())
    {
      RegisterKeeps(State(), id, zone, neighbors);
      var wasRegistered := id in nodes;
      var previousZone := ZoneOf(nodes, id);
      var order := if wasRegistered then nodes[id].order else nextRegistrationOrder;
      if !wasRegistered {
        nextRegistrationOrder := nextRegistrationOrder + 1;
      }
      nodes := nodes[id := Node(zone, neighbors, order)];
      if zone !in zoneOrder {
        zoneOrder := zoneOrder + [zone];
      }
      if wasRegistered && previousZone != zone {
        LeaveZone(id, previousZone, zone);
      }
    }

    /** A registered node moved to another zone. */
    method LeaveZone(id: Id, previousZone: Zone, zone: Zone)
      modifies this
      ensures State() == old(State()).(
                zoneOrder := PrunedOrder(nodes, old(zoneOrder), previousZone),
                memory := MovedMemory(nodes, old(zoneLastFocused), id, previousZone, zone, currentFocusId == id))
    {
      if previousZone in zoneLastFocused && zoneLastFocused[previousZone] == id {
        zoneLastFocused := zoneLastFocused - {previousZone};
      }
      PruneZoneIfEmpty(previousZone);
      if currentFocusId == id {
        zoneLastFocused := zoneLastFocused[zone := id];
      }
    }

    method ResolveRemovalFallback(removed: Node, explicit: Id) returns (fallback: Id)
      requires OrdersDistinct(nodes)
      ensures fallback == RemovalFallback(nodes, removed, explicit)
    {
      if explicit != NONE && explicit in nodes {
        return explicit;
      }
      var priorityOrder := [Up, Down, Left, Right];
      for i := 0 to |priorityOrder|
        invariant FirstLiveNeighbor(nodes, removed.neighbors, priorityOrder[i..]) ==
                  FirstLiveNeighbor(nodes, removed.neighbors, [Up, Down, Left, Right])
      {
        var d := priorityOrder[i];
        if d in removed.neighbors && removed.neighbors[d] in nodes {
          return removed.neighbors[d];
        }
      }
      var remaining := SortedNodesInZone(removed.zone);
      fallback := if |remaining| > 0 then remaining[0] else NONE;
      assert |remaining| > 0 ==> remaining[0] in Members(nodes, removed.zone);
    }

    /** Erases every zone's memory of `id`. */
    method ForgetRemembered(id: Id)
      modifies this`zoneLastFocused
      ensures zoneLastFocused == ForgetNode(old(zoneLastFocused), id)
    {
      var zones := zoneLastFocused.Keys;
      while zones != {}
        invariant zones <= zoneLastFocused.Keys <= old(zoneLastFocused).Keys
        invariant forall z | z in zoneLastFocused :: zoneLastFocused[z] == old(zoneLastFocused)[z]
        invariant forall z | z in old(zoneLastFocused) && z !in zones ::
                    z in zoneLastFocused <==> old(zoneLastFocused)[z] != id
        decreases zones
      {
        var zone :| zone in zones;
        if zoneLastFocused[zone] == id {
          zoneLastFocused := zoneLastFocused - {zone};
        }
        zones := zones - {zone};
      }
    }

    /** Points every modal that returned to the removed node at its fallback. */
    method RedirectModals(id: Id, removed: Node, explicit: Id)
      requires OrdersDistinct(nodes)
      modifies this`modalStack
      ensures modalStack == Redirect(old(modalStack), id, RemovalFallback(nodes, removed, explicit))
    {
      for i := 0 to |modalStack|
        invariant |modalStack| == |old(modalStack)|
        invariant forall j | 0 <= j < i ::
                    modalStack[j] == Redirect(old(modalStack), id, RemovalFallback(nodes, removed, explicit))[j]
        invariant forall j | i <= j < |modalStack| :: modalStack[j] == old(modalStack)[j]
      {
        if modalStack[i].returnTo == id {
          var fallback := ResolveRemovalFallback(removed, explicit);
          modalStack := modalStack[i := modalStack[i].(returnTo := fallback)];
        }
      }
    }

    method RemoveNode(id: Id, explicit: Id)
      requires Valid(State())
      modifies this
      ensures State() == Remove(old(State()), id, explicit)
      ensures Valid(State())
    {
      RemoveKeeps(State(), id, explicit);
      if id !in nodes {
        return;
      }
      var removed := nodes[id];
      nodes := nodes - {id};
      PruneZoneIfEmpty(removed.zone);
      ForgetRemembered(id);
      RedirectModals(id, removed, explicit);
      assert State() == old(State()).(
        nodes := nodes, zoneOrder := zoneOrder, memory := zoneLastFocused, modals := modalStack);
      LeaveRemoved(id, removed, explicit);
    }

    /** The focus moves on from the removed node. */
    method LeaveRemoved(id: Id, removed: Node, explicit: Id)
      requires OrdersDistinct(nodes)
      modifies this
      ensures State() == if old(currentFocusId) == id
                         then SetFocus(old(State()), RemovalFallback(old(nodes), removed, explicit)) else old(State())
    {
      if currentFocusId == id {
        var fallback := ResolveRemovalFallback(removed, explicit);
        SetCurrentFocus(fallback);
      }
    }

    method SetInitialFocus(id: Id) returns (ok: bool)
      requires Valid(State())
      modifies this
      ensures State() == FocusGraph.SetInitialFocus(old(State()), id) && Valid(State())
      ensures ok <==> old(modalStack) == [] && id in old(nodes)
    {
      if modalStack != [] || id !in nodes {
        return false;
      }
      SetFocusKeeps(State(), id);
      SetCurrentFocus(id);
      ok := true;
    }

    /** Where moveFocus goes from the focused node, if anywhere. */
    method FindMoveTarget(d: Direction) returns (target: Option<Id>)
      requires OrdersDistinct(nodes)
      ensures target == MoveTarget(State(), d)
    {
      if currentFocusId == NONE || currentFocusId !in nodes {
        return None;
      }
      var current := nodes[currentFocusId];
      if d in current.neighbors && current.neighbors[d] in nodes {
        return Some(current.neighbors[d]);
      }
      var needsZoneNodes := wrapPolicy == WrapWithinZone || geometryFallback.Some?;
      var zoneNodes: seq<Id> := [];
      if needsZoneNodes {
        zoneNodes := SortedNodesInZone(current.zone);
      }
      if wrapPolicy == WrapWithinZone && |zoneNodes| > 1 {
        var next := FindWrapTarget(zoneNodes, d);
        if next != currentFocusId {
          return Some(next);
        }
      }
      target := FindFallbackTarget(zoneNodes, d);
    }

    method FindWrapTarget(zoneNodes: seq<Id>, d: Direction) returns (target: Id)
      requires currentFocusId in zoneNodes
      ensures target == WrapTarget(zoneNodes, currentFocusId, d)
    {
      var i := IndexOf(zoneNodes, currentFocusId);
      var next := NextIndex(i, |zoneNodes|, d == Right || d == Down);
      target := zoneNodes[next];
    }

    method FindFallbackTarget(zoneNodes: seq<Id>, d: Direction) returns (target: Option<Id>)
      ensures target == FallbackTarget(State(), zoneNodes, d)
    {
      target := None;
      if geometryFallback.Some? {
        var candidates := RemoveAll(zoneNodes, currentFocusId);
        var found := geometryFallback.value(currentFocusId, d, candidates);
        if found.Some? && found.value in nodes {
          target := found;
        }
      }
    }

    method MoveFocus(d: Direction) returns (moved: bool)
      requires Valid(State())
      modifies this
      ensures State() == FocusGraph.MoveFocus(old(State()), d) && Valid(State())
      ensures moved <==> MoveTarget(old(State()), d).Some?
    {
      NavigationKeeps(State(), MoveTarget(State(), d));
      var target := FindMoveTarget(d);
      if target.Some? {
        SetCurrentFocus(target.value);
      }
      moved := target.Some?;
    }

    /** The zones of the cycle order that have a node, from one scan over all nodes. */
    method FindActiveZones() returns (active: seq<Zone>)
      ensures active == ActiveZones(nodes, zoneOrder)
    {
      var zonesWithNodes: set<Zone> := {};
      var rest := nodes.Keys;
      while rest != {}
        invariant rest <= nodes.Keys
        invariant forall z :: z in zonesWithNodes <==> exists id :: id in nodes.Keys - rest && nodes[id].zone == z
        decreases rest
      {
        var id :| id in rest;
        zonesWithNodes := zonesWithNodes + {nodes[id].zone};
        rest := rest - {id};
      }
      forall z ensures z in zonesWithNodes <==> Members(nodes, z) != {} {
        if z in zonesWithNodes {
          var id :| id in nodes && nodes[id].zone == z;
          assert id in Members(nodes, z);
        }
        if Members(nodes, z) != {} {
          var id :| id in Members(nodes, z);
          assert id in nodes.Keys - rest && nodes[id].zone == z;
        }
      }
      active := [];
      for i := |zoneOrder| downto 0
        invariant active == ActiveZones(nodes, zoneOrder[i..])
      {
        if zoneOrder[i] in zonesWithNodes {
          active := [zoneOrder[i]] + active;
        }
      }
      assert zoneOrder[0..] == zoneOrder;
    }

    /** Where cycleZone goes, if there are two zones to cycle between. */
    method FindCycleTarget(forward: bool) returns (target: Option<Id>)
      requires OrdersDistinct(nodes) && NONE !in nodes && forall id | id in nodes :: nodes[id].zone != ""
      ensures target == CycleTarget(State(), forward)
    {
      var activeZones := FindActiveZones();
      if |activeZones| < 2 {
        return None;
      }
      var i := IndexOf(activeZones, if currentFocusId == NONE then "" else ZoneOf(nodes, currentFocusId));
      if i < 0 {
        i := if forward then -1 else |activeZones|;
      }
      var next := NextIndex(i, |activeZones|, forward);
      var targetZone := activeZones[next];
      if && targetZone in zoneLastFocused && zoneLastFocused[targetZone] != NONE
         && zoneLastFocused[targetZone] in nodes && ZoneOf(nodes, zoneLastFocused[targetZone]) == targetZone {
        return Some(zoneLastFocused[targetZone]);
      }
      assert targetZone in activeZones;
      var zoneNodes := SortedNodesInZone(targetZone);
      return Some(zoneNodes[0]);
    }

    method CycleZone(forward: bool) returns (moved: bool)
      requires Valid(State())
      modifies this
      ensures State() == FocusGraph.CycleZone(old(State()), forward) && Valid(State())
      ensures moved <==> CycleTarget(old(State()), forward).Some?
    {
      NavigationKeeps(State(), CycleTarget(State(), forward));
      var target := FindCycleTarget(forward);
      if target.Some? {
        SetCurrentFocus(target.value);
      }
      moved := target.Some?;
    }

    method PushModal(entry: Id) returns (ok: bool)
      requires Valid(State())
      modifies this
      ensures State() == FocusGraph.PushModal(old(State()), entry) && Valid(State())
      ensures ok <==> entry in old(nodes)
    {
      PushKeeps(State(), entry);
      if entry !in nodes {
        return false;
      }
      modalStack := modalStack + [Modal(entry, currentFocusId)];
      SetCurrentFocus(entry);
      return true;
    }

    /** In a valid state the last branch is never taken: focus returns to where it was. */
    method PopModal() returns (ok: bool)
      requires OrdersDistinct(nodes)
      modifies this
      ensures State() == FocusGraph.PopModal(old(State()))
      ensures old(Valid(State())) ==> Valid(State())
      ensures ok <==> old(modalStack) != []
      ensures old(Valid(State())) && ok ==> currentFocusId == old(modalStack)[|old(modalStack)| - 1].returnTo
    {
      if Valid(State()) {
        PopKeeps(State());
      }
      if modalStack == [] {
        return false;
      }
      if Valid(State()) {
        PopReturnsToRemembered(State());
      }
      var top := modalStack[|modalStack| - 1];
      modalStack := modalStack[..|modalStack| - 1];
      if top.returnTo == NONE {
        SetCurrentFocus(NONE);
      } else if top.returnTo in nodes {
        SetCurrentFocus(top.returnTo);
      } else {
        var first := FirstRegisteredNodeId();
        SetCurrentFocus(first);
      }
      return true;
    }

    method TakeSnapshot() returns (snap: Snapshot)
      ensures snap == FocusGraph.TakeSnapshot(State())
    {
      snap := Snapshot(currentFocusId, modalStack, zoneLastFocused);
    }

    /** The levels of a snapshot's modal stack that still exist. */
    method RestoreModals(modals: seq<Modal>)
      requires OrdersDistinct(nodes)
      modifies this`modalStack
      ensures modalStack == RestoredModals(nodes, modals)
    {
      modalStack := [];
      for i := 0 to |modals|
        invariant modalStack == RestoredModals(nodes, modals[..i])
      {
        assert modals[..i + 1][..i] == modals[..i];
        if modals[i].entry !in nodes {
          continue;
        }
        var returnTo := modals[i].returnTo;
        if returnTo != NONE && returnTo !in nodes {
          returnTo := FirstRegisteredNodeId();
        }
        modalStack := modalStack + [Modal(modals[i].entry, returnTo)];
      }
      assert modals[..|modals|] == modals;
    }

    /** A snapshot's zone memory, as far as it still describes the graph. */
    method RestoreMemory(memory: map<Zone, Id>)
      modifies this`zoneLastFocused
      ensures zoneLastFocused == RestoredMemory(nodes, memory)
    {
      zoneLastFocused := map[];
      var zones := memory.Keys;
      while zones != {}
        invariant zones <= memory.Keys
        invariant forall z :: z in zoneLastFocused <==> z in RestoredMemory(nodes, memory) && z !in zones
        invariant forall z | z in zoneLastFocused :: zoneLastFocused[z] == memory[z]
        decreases zones
      {
        var zone :| zone in zones;
        if memory[zone] in nodes && ZoneOf(nodes, memory[zone]) == zone {
          zoneLastFocused := zoneLastFocused[zone := memory[zone]];
        }
        zones := zones - {zone};
      }
    }

    method RestoreSnapshot(snap: Snapshot)
      requires Valid(State())
      modifies this
      ensures State() == Restore(old(State()), snap) && Valid(State())
    {
      RestoreKeeps(State(), snap);
      RestoreModals(snap.modals);
      RestoreMemory(snap.memory);
      var target := FindRestoredFocus(snap);
      if target != NONE {
        var targetZone := ZoneOf(nodes, target);
        if targetZone != "" {
          zoneLastFocused := zoneLastFocused[targetZone := target];
        }
      }
      SetCurrentFocus(target);
    }

    /** The snapshot's focus if it is still there, else the innermost restored modal, else the first
        node. */
    method FindRestoredFocus(snap: Snapshot) returns (target: Id)
      requires OrdersDistinct(nodes) && modalStack == RestoredModals(nodes, snap.modals)
      ensures target == RestoredFocus(nodes, snap)
    {
      target := snap.focus;
      if target == NONE || target !in nodes {
        assert modalStack != [] ==> modalStack[|modalStack| - 1] in modalStack;
        if modalStack != [] && modalStack[|modalStack| - 1].entry in nodes {
          target := modalStack[|modalStack| - 1].entry;
        } else {
          target := FirstRegisteredNodeId();
        }
      }
    }
  }
}
