/** The disk index of AssetCache.cpp with its least-recently-used queue: three structures and a byte
    count that must describe the same entries. */
module DiskIndex {
  import opened EntryFormat

  type Name = string

  datatype Entry = Entry(size: nat, access: nat)

  /** An element of the queue, a multimap from access stamps to names. */
  datatype Stamp = Stamp(access: nat, name: Name)

  /** `positions` holds, for each name, the key of its queue element: what the iterator points at. */
  datatype Index = Index(
    entries: map<Name, Entry>, queue: seq<Stamp>, positions: map<Name, nat>, bytes: int, next: nat)

  const EMPTY := Index(map[], [], map[], 0, 1)

  // ---- The queue ----

  /** Oldest first, each name once. */
  predicate Ordered(queue: seq<Stamp>) {
    forall i, j | 0 <= i < j < |queue| :: Before(queue[i], queue[j])
  }

  predicate Before(s: Stamp, t: Stamp) { s.access <= t.access && s.name != t.name }

  /** multimap::emplace: after every element that is not greater. */
  function Insert(queue: seq<Stamp>, stamp: Stamp): (inserted: seq<Stamp>)
    ensures forall x :: x in inserted <==> x in queue || x == stamp
    ensures |inserted| == |queue| + 1
  {
    if queue == [] || stamp.access < queue[0].access then [stamp] + queue
    else [queue[0]] + Insert(queue[1..], stamp)
  }

  function Erase(queue: seq<Stamp>, stamp: Stamp): (rest: seq<Stamp>)
    ensures forall x | x in rest :: x in queue
    ensures forall x | x in queue && x != stamp :: x in rest
    ensures stamp in queue ==> |rest| == |queue| - 1
  {
    if queue == [] then []
    else if queue[0] == stamp then queue[1..]
    else [queue[0]] + Erase(queue[1..], stamp)
  }

  lemma HeadIsBefore(queue: seq<Stamp>)
    requires Ordered(queue) && queue != []
    ensures Ordered(queue[1..])
    ensures forall s | s in queue[1..] :: Before(queue[0], s)
  {
    forall i, j | 0 <= i < j < |queue| - 1 ensures Before(queue[1..][i], queue[1..][j]) {
      assert Before(queue[i + 1], queue[j + 1]);
    }
    forall j | 0 <= j < |queue| - 1 ensures Before(queue[0], queue[1..][j]) {
      assert queue[1..][j] == queue[j + 1];
    }
  }

  lemma OrderedFrom(head: Stamp, tail: seq<Stamp>)
    requires Ordered(tail)
    requires forall s | s in tail :: Before(head, s)
    ensures Ordered([head] + tail)
  {
    var queue := [head] + tail;
    forall i, j | 0 <= i < j < |queue| ensures Before(queue[i], queue[j]) {
      assert queue[j] == tail[j - 1];
      if i > 0 {
        assert queue[i] == tail[i - 1];
      }
    }
  }

  lemma {:induction false} InsertKeepsOrder(queue: seq<Stamp>, stamp: Stamp)
    requires Ordered(queue) && forall s | s in queue :: s.name != stamp.name
    ensures Ordered(Insert(queue, stamp))
  {
    if queue == [] || stamp.access < queue[0].access {
      assert forall i | 0 < i < |queue| :: Before(queue[0], queue[i]);
      OrderedFrom(stamp, queue);
    } else {
      HeadIsBefore(queue);
      InsertKeepsOrder(queue[1..], stamp);
      OrderedFrom(queue[0], Insert(queue[1..], stamp));
    }
  }

  lemma {:induction false} InsertAtEnd(queue: seq<Stamp>, stamp: Stamp)
    requires forall s | s in queue :: s.access <= stamp.access
    ensures Insert(queue, stamp) == queue + [stamp]
  {
    if queue == [] {
    } else {
      assert queue[0] in queue;
      InsertAtEnd(queue[1..], stamp);
      assert queue == [queue[0]] + queue[1..];
    }
  }

  lemma {:induction false} EraseKeepsOrder(queue: seq<Stamp>, stamp: Stamp)
    requires Ordered(queue)
    ensures Ordered(Erase(queue, stamp))
    ensures stamp in queue ==> forall s | s in Erase(queue, stamp) :: s.name != stamp.name
  {
    if queue == [] {
    } else {
      HeadIsBefore(queue);
      if queue[0] != stamp {
        EraseKeepsOrder(queue[1..], stamp);
        OrderedFrom(queue[0], Erase(queue[1..], stamp));
      }
    }
  }

  // ---- The sum of the indexed sizes ----

  ghost function Total(entries: map<Name, Entry>): nat {
    if entries == map[] then 0
    else
      var name :| name in entries;
      entries[name].size + Total(entries - {name})
  }

  lemma {:induction false} TotalWithout(entries: map<Name, Entry>, name: Name)
    requires name in entries
    ensures Total(entries) == entries[name].size + Total(entries - {name})
    decreases |entries|
  {
    var picked :| picked in entries && Total(entries) == entries[picked].size + Total(entries - {picked});
    if picked == name {
    } else {
      TotalWithout(entries - {picked}, name);
      TotalWithout(entries - {name}, picked);
      assert entries - {picked} - {name} == entries - {name} - {picked};
    }
  }

  lemma TotalWith(entries: map<Name, Entry>, name: Name, entry: Entry)
    ensures Total(entries[name := entry]) == Total(entries - {name}) + entry.size
  {
    TotalWithout(entries[name := entry], name);
    assert entries[name := entry] - {name} == entries - {name};
  }

  function SizeOf(entries: map<Name, Entry>, name: Name): nat {
    if name in entries then entries[name].size else 0
  }

  lemma TotalSplit(entries: map<Name, Entry>, name: Name)
    ensures Total(entries) == SizeOf(entries, name) + Total(entries - {name})
  {
    if name in entries {
      TotalWithout(entries, name);
    } else {
      assert entries - {name} == entries;
    }
  }

  // ---- Operations ----

  /** The queue without the element of `name`, found through its position. */
  function Unqueued(queue: seq<Stamp>, positions: map<Name, nat>, name: Name): seq<Stamp> {
    if name in positions then Erase(queue, Stamp(positions[name], name)) else queue
  }

  /** setDiskEntryAccess. */
  function SetAccess(x: Index, name: Name, access: nat): Index {
    if name !in x.entries then x
    else
      x.(entries := x.entries[name := x.entries[name].(access := access)],
         queue := Insert(Unqueued(x.queue, x.positions, name), Stamp(access, name)),
         positions := x.positions[name := access])
  }

  /** touchDiskEntry: a fresh stamp from nextAccess(). */
  function Touch(x: Index, name: Name): Index {
    if name !in x.entries then x else SetAccess(x.(next := x.next + 1), name, x.next)
  }

  /** A file of `size` bytes entered, or its size renewed, with a fresh stamp. */
  function Enter(x: Index, name: Name, size: nat): Index {
    Touch(x.(bytes := x.bytes + size - SizeOf(x.entries, name),
             entries := x.entries[name := Entry(size, 0)]), name)
  }

  /** removeDiskEntry, without the file. */
  function Drop(x: Index, name: Name): Index {
    var rest := x.bytes - SizeOf(x.entries, name);
    x.(queue := Unqueued(x.queue, x.positions, name), positions := x.positions - {name}, entries := x.entries - {name},
       bytes := if rest < 0 then 0 else rest)
  }

  /** evictIfNeeded: the index when the loop ends. */
  function Evicted(x: Index, limit: int): Index
    decreases |x.queue|
  {
    if x.bytes <= limit || x.queue == [] then x
    else
      var rest := Drop(x, x.queue[0].name);
      if |rest.queue| < |x.queue| then Evicted(rest, limit) else rest
  }

  // ---- What they keep ----

  /** Queue, index and positions list the same names with the same stamps, all in the past, oldest
      first. */
  predicate StampsAgree(x: Index) {
    && Ordered(x.queue)
    && Listed(x.queue, x.entries)
    && (forall s | s in x.queue :: s.access < x.next)
    && PositionsOf(x.positions, x.entries)
  }

  predicate Listed(queue: seq<Stamp>, entries: map<Name, Entry>) {
    && (forall s | s in queue :: s.name in entries && entries[s.name].access == s.access)
    && forall name | name in entries :: Stamp(entries[name].access, name) in queue
  }

  predicate PositionsOf(positions: map<Name, nat>, entries: map<Name, Entry>) {
    && positions.Keys == entries.Keys
    && forall name | name in entries :: positions[name] == entries[name].access
  }

  ghost predicate Valid(x: Index) {
    StampsAgree(x) && x.bytes == Total(x.entries)
  }

  lemma UnqueuedIsRest(x: Index, name: Name)
    requires StampsAgree(x)
    ensures Ordered(Unqueued(x.queue, x.positions, name))
    ensures forall s :: s in Unqueued(x.queue, x.positions, name) <==> s in x.queue && s.name != name
    ensures |Unqueued(x.queue, x.positions, name)| == if name in x.entries then |x.queue| - 1 else |x.queue|
  {
    if name in x.positions {
      EraseKeepsOrder(x.queue, Stamp(x.positions[name], name));
    }
  }

  lemma DropKeepsStamps(x: Index, name: Name)
    requires StampsAgree(x)
    ensures StampsAgree(Drop(x, name))
  {
    UnqueuedIsRest(x, name);
  }

  /** The clamp at zero is never needed. */
  lemma DropKeeps(x: Index, name: Name)
    requires Valid(x)
    ensures Valid(Drop(x, name))
    ensures Drop(x, name).bytes == x.bytes - SizeOf(x.entries, name)
    ensures Drop(x, name).entries == x.entries - {name} && Drop(x, name).next == x.next
    ensures name in x.entries ==> |Drop(x, name).queue| == |x.queue| - 1
  {
    UnqueuedIsRest(x, name);
    DropKeepsStamps(x, name);
    TotalSplit(x.entries, name);
  }

  lemma ListedWith(queue: seq<Stamp>, entries: map<Name, Entry>, rest: seq<Stamp>, name: Name, entry: Entry)
    requires Listed(queue, entries)
    requires forall s :: s in rest <==> s in queue && s.name != name
    ensures Listed(rest + [Stamp(entry.access, name)], entries[name := entry])
  {
    var with := entries[name := entry];
    forall other | other in with ensures Stamp(with[other].access, other) in rest + [Stamp(entry.access, name)] {
      if other != name {
        assert Stamp(entries[other].access, other) in queue;
      }
    }
  }

  lemma FreshIsLast(rest: seq<Stamp>, stamp: Stamp)
    requires Ordered(rest) && forall s | s in rest :: s.access < stamp.access && s.name != stamp.name
    ensures Insert(rest, stamp) == rest + [stamp] && Ordered(rest + [stamp])
  {
    InsertKeepsOrder(rest, stamp);
    InsertAtEnd(rest, stamp);
  }

  lemma PositionsWith(positions: map<Name, nat>, entries: map<Name, Entry>, name: Name, entry: Entry)
    requires PositionsOf(positions, entries)
    ensures PositionsOf(positions[name := entry.access], entries[name := entry])
  {
  }

  lemma FreshStamp(x: Index, name: Name, size: nat, y: Index)
    requires StampsAgree(x)
    requires y == Index(x.entries[name := Entry(size, x.next)],
                        Insert(Unqueued(x.queue, x.positions, name), Stamp(x.next, name)),
                        x.positions[name := x.next], y.bytes, x.next + 1)
    ensures StampsAgree(y) && y.queue == Unqueued(x.queue, x.positions, name) + [Stamp(x.next, name)]
  {
    var (rest, stamp) := (Unqueued(x.queue, x.positions, name), Stamp(x.next, name));
    UnqueuedIsRest(x, name);
    FreshIsLast(rest, stamp);
    ListedWith(x.queue, x.entries, rest, name, Entry(size, x.next));
    PositionsWith(x.positions, x.entries, name, Entry(size, x.next));
  }

  lemma TouchKeeps(x: Index, name: Name)
    requires Valid(x)
    ensures Valid(Touch(x, name))
    ensures name in x.entries ==> Touch(x, name).entries == x.entries[name := Entry(x.entries[name].size, x.next)]
    ensures name in x.entries ==> Touch(x, name).queue == Unqueued(x.queue, x.positions, name) + [Stamp(x.next, name)]
  {
    if name in x.entries {
      FreshStamp(x, name, x.entries[name].size, Touch(x, name));
      TotalSplit(x.entries, name);
      TotalWith(x.entries, name, Entry(x.entries[name].size, x.next));
    }
  }

  lemma EnterInOneStep(x: Index, name: Name, size: nat)
    ensures Enter(x, name, size) ==
            Index(x.entries[name := Entry(size, x.next)],
                  Insert(Unqueued(x.queue, x.positions, name), Stamp(x.next, name)),
                  x.positions[name := x.next], x.bytes + size - SizeOf(x.entries, name), x.next + 1)
  {
    assert x.entries[name := Entry(size, 0)][name := Entry(size, x.next)] == x.entries[name := Entry(size, x.next)];
  }

  /** The entered name is the most recently used one. */
  lemma EnterKeeps(x: Index, name: Name, size: nat)
    requires Valid(x)
    ensures Valid(Enter(x, name, size))
    ensures Enter(x, name, size).entries == x.entries[name := Entry(size, x.next)]
    ensures Enter(x, name, size).queue == Unqueued(x.queue, x.positions, name) + [Stamp(x.next, name)]
  {
    EnterInOneStep(x, name, size);
    FreshStamp(x, name, size, Enter(x, name, size));
    TotalSplit(x.entries, name);
    TotalWith(x.entries, name, Entry(size, x.next));
  }

  // ---- Eviction ----

  /** The entries left when the `n` least recently used are gone. */
  function WithoutOldest(x: Index, n: nat): map<Name, Entry>
    requires n <= |x.queue|
  {
    if n == 0 then x.entries else WithoutOldest(x, n - 1) - {x.queue[n - 1].name}
  }

  lemma {:induction false} WithoutOldestOfDrop(x: Index, y: Index, n: nat)
    requires 0 < |x.queue| && n < |x.queue|
    requires y.entries == x.entries - {x.queue[0].name} && y.queue == x.queue[1..]
    ensures WithoutOldest(y, n) == WithoutOldest(x, n + 1)
  {
    if n == 0 {
    } else {
      WithoutOldestOfDrop(x, y, n - 1);
    }
  }

  lemma DropOldest(x: Index)
    requires Valid(x) && x.queue != []
    ensures var y := Drop(x, x.queue[0].name);
            Valid(y) && y.queue == x.queue[1..] && y.entries == x.entries - {x.queue[0].name} && y.next == x.next
  {
    assert x.queue[0] in x.queue;
    DropKeeps(x, x.queue[0].name);
  }

  /** The first `n` of the queue are what has to go. */
  ghost predicate IsShortestPrefix(x: Index, limit: nat, n: nat) {
    && n <= |x.queue|
    && Total(WithoutOldest(x, n)) <= limit
    && forall m: nat | m < n :: Total(WithoutOldest(x, m)) > limit
  }

  lemma OneMoreToGo(x: Index, y: Index, limit: nat, m: nat)
    requires x.queue != [] && Total(x.entries) > limit
    requires y.entries == x.entries - {x.queue[0].name} && y.queue == x.queue[1..]
    requires IsShortestPrefix(y, limit, m)
    ensures IsShortestPrefix(x, limit, m + 1)
    ensures WithoutOldest(x, m + 1) == WithoutOldest(y, m) && x.queue[m + 1..] == y.queue[m..]
  {
    WithoutOldestOfDrop(x, y, m);
    forall k: nat | k < m + 1 ensures Total(WithoutOldest(x, k)) > limit {
      if k > 0 {
        WithoutOldestOfDrop(x, y, k - 1);
      }
    }
  }

  lemma NothingListed(x: Index)
    requires Valid(x) && x.queue == []
    ensures x.entries == map[] && x.bytes == 0
  {
    assert forall name | name in x.entries :: Stamp(x.entries[name].access, name) in x.queue;
    assert x.entries.Keys == {};
    assert x.entries == map[];
  }

  /** Eviction removes the shortest prefix of the least recently used entries that brings the sum of
      the remaining sizes within the limit, and nothing else. */
  lemma {:induction false} EvictionIsShortestPrefix(x: Index, limit: nat) returns (n: nat)
    requires Valid(x)
    ensures Valid(Evicted(x, limit)) && Evicted(x, limit).next == x.next
    ensures IsShortestPrefix(x, limit, n)
    ensures Evicted(x, limit).queue == x.queue[n..] && Evicted(x, limit).entries == WithoutOldest(x, n)
    decreases |x.queue|
  {
    n := 0;
    if x.queue == [] {
      NothingListed(x);
    } else if x.bytes > limit {
      var y := Drop(x, x.queue[0].name);
      DropOldest(x);
      var m := EvictionIsShortestPrefix(y, limit);
      OneMoreToGo(x, y, limit, m);
      n := m + 1;
    }
  }

  /** A name entered with a size within the limit survives the eviction that follows. */
  lemma EnteredSurvives(x: Index, name: Name, size: nat, limit: nat)
    requires Valid(x) && size <= limit
    ensures name in Evicted(Enter(x, name, size), limit).entries
    ensures Evicted(Enter(x, name, size), limit).entries[name] == Entry(size, x.next)
  {
    EnterKeeps(x, name, size);
    var y := Enter(x, name, size);
    LastSurvives(y, limit);
  }

  lemma {:induction false} LastSurvives(x: Index, limit: nat)
    requires Valid(x) && x.queue != []
    requires var last := x.queue[|x.queue| - 1].name; last in x.entries && x.entries[last].size <= limit
    ensures var last := x.queue[|x.queue| - 1].name;
            last in Evicted(x, limit).entries && Evicted(x, limit).entries[last] == x.entries[last]
    decreases |x.queue|
  {
    var last := x.queue[|x.queue| - 1].name;
    if x.bytes <= limit {
    } else {
      if |x.queue| == 1 {
        OnlyOneListed(x);
      } else {
        assert Before(x.queue[0], x.queue[|x.queue| - 1]);
        DropOldest(x);
        LastSurvives(Drop(x, x.queue[0].name), limit);
      }
    }
  }

  lemma OnlyOneListed(x: Index)
    requires Valid(x) && |x.queue| == 1
    ensures x.queue[0].name in x.entries && x.bytes == x.entries[x.queue[0].name].size
  {
    assert x.queue[0] in x.queue;
    DropOldest(x);
    NothingListed(Drop(x, x.queue[0].name));
    TotalSplit(x.entries, x.queue[0].name);
  }

  // ---- Building the index from a directory ----

  /** A file found in the cache directory, with its modification time in milliseconds. */
  datatype Found = Found(name: Name, size: int, modified: int)

  predicate IsEntryFile(found: Found) { IsLowerHex64(found.name) && found.size > 0 }

  function AccessOf(found: Found): nat { if found.modified < 1 then 1 else found.modified }

  /** One file of buildIndex's loop; the file is removed instead when it is not an entry. */
  function Noted(x: Index, found: Found): Index {
    if !IsEntryFile(found) then x
    else
      SetAccess(x.(entries := x.entries[found.name := Entry(found.size, AccessOf(found))],
                   bytes := x.bytes + found.size),
                found.name, AccessOf(found))
  }

  function NotedAll(listing: seq<Found>): Index {
    if listing == [] then EMPTY else Noted(NotedAll(listing[..|listing| - 1]), listing[|listing| - 1])
  }

  function Newest(listing: seq<Found>): nat {
    if listing == [] then 0
    else
      var (newest, last) := (Newest(listing[..|listing| - 1]), listing[|listing| - 1]);
      if IsEntryFile(last) && AccessOf(last) > newest then AccessOf(last) else newest
  }

  /** buildIndex, called with the counter at `next`. */
  function Built(listing: seq<Found>, next: nat): Index {
    NotedAll(listing).(next := if next < Newest(listing) + 1 then Newest(listing) + 1 else next)
  }

  predicate DistinctFiles(listing: seq<Found>) {
    forall i, j | 0 <= i < j < |listing| :: listing[i].name != listing[j].name
  }

  lemma OldStamp(x: Index, name: Name, entry: Entry, y: Index, next: nat)
    requires StampsAgree(x.(next := next)) && name !in x.entries && entry.access < next
    requires y == Index(x.entries[name := entry], Insert(x.queue, Stamp(entry.access, name)),
                        x.positions[name := entry.access], y.bytes, next)
    ensures StampsAgree(y)
  {
    InsertKeepsOrder(x.queue, Stamp(entry.access, name));
    assert forall s :: s in x.queue <==> s in x.queue && s.name != name;
    ListedWith(x.queue, x.entries, x.queue, name, entry);
    ListedSame(x.queue + [Stamp(entry.access, name)], y.queue, y.entries);
  }

  lemma ListedSame(queue: seq<Stamp>, other: seq<Stamp>, entries: map<Name, Entry>)
    requires Listed(queue, entries) && forall s :: s in queue <==> s in other
    ensures Listed(other, entries)
  {
  }

  lemma NotedKeeps(x: Index, last: Found, next: nat)
    requires Valid(x.(next := next)) && IsEntryFile(last) && AccessOf(last) < next && last.name !in x.entries
    ensures Valid(Noted(x, last).(next := next))
  {
    var entry := Entry(last.size, AccessOf(last));
    var y := Noted(x, last);
    assert x.entries[last.name := entry][last.name := entry] == x.entries[last.name := entry];
    OldStamp(x, last.name, entry, y.(next := next), next);
    TotalSplit(x.entries, last.name);
    TotalWith(x.entries, last.name, entry);
  }

  /** What is indexed was found, and is an entry file. */
  lemma {:induction false} OnlyFound(listing: seq<Found>, name: Name) returns (i: nat)
    requires name in NotedAll(listing).entries
    ensures i < |listing| && listing[i].name == name && IsEntryFile(listing[i])
    ensures NotedAll(listing).entries[name].size == listing[i].size
  {
    i := |listing| - 1;
    if IsEntryFile(listing[i]) && listing[i].name == name {
    } else {
      i := OnlyFound(listing[..|listing| - 1], name);
    }
  }

  lemma {:induction false} EveryFound(listing: seq<Found>, i: nat)
    requires i < |listing| && IsEntryFile(listing[i])
    ensures listing[i].name in NotedAll(listing).entries
  {
    if i == |listing| - 1 {
    } else {
      EveryFound(listing[..|listing| - 1], i);
    }
  }

  /** The index built from a directory satisfies the invariant: oldest file first, each file once, the
      byte count their sum. */
  lemma {:induction false} NotedAllIsValid(listing: seq<Found>, next: nat)
    requires DistinctFiles(listing) && next > Newest(listing)
    ensures Valid(NotedAll(listing).(next := next))
  {
    if listing == [] {
    } else {
      var (before, last) := (listing[..|listing| - 1], listing[|listing| - 1]);
      NotedAllIsValid(before, next);
      if IsEntryFile(last) {
        if last.name in NotedAll(before).entries {
          var i := OnlyFound(before, last.name);
          assert false;
        }
        NotedKeeps(NotedAll(before), last, next);
      }
    }
  }
}
