/** The law of the asset cache over whole runs, restarts included. */
module CacheRuns {
  import opened Text
  import opened EntryFormat
  import opened MemoryKeys
  import opened ImageScaling
  import opened DiskIndex
  import opened Wrappers
  import opened CacheOperations
  import opened CacheCoherence

  datatype Op =
    | LookUp(url: Url, bound: Size)
    | Put(url: Url, bytes: Bytes, contentType: Bytes, bound: Size)
    | PutInMemory(url: Url, bytes: Bytes, bound: Size)
    | Clear
    | Restart(listing: seq<Found>)

  datatype Event = Event(op: Op, c: Conditions)

  function Step(config: Config, cache: Cache, event: Event): Cache {
    match event.op
    case LookUp(url, bound) => Lookup(config, cache, url, bound, event.c).0
    case Put(url, bytes, contentType, bound) => Store(config, cache, url, bytes, contentType, bound, event.c).0
    case PutInMemory(url, bytes, bound) => StoreMemoryOnly(config, cache, url, bytes, bound, event.c).0
    case Clear => ClearMemory(cache)
    case Restart(listing) => Restarted(config, cache, listing, event.c.stuck)
  }

  function After(config: Config, events: seq<Event>): Cache {
    if events == [] then FRESH else Step(config, After(config, events[..|events| - 1]), events[|events| - 1])
  }

  // ---- What the history says ----

  /** The bytes of `url` were decoded, hence stored, by this event. */
  predicate Stores(config: Config, event: Event, url: Url) {
    && event.op.Put? && event.op.url == url
    && Decode(config, event.op.bytes, event.op.bound, event.c.pressure).Decoded?
  }

  /** The bytes last successfully stored for `url`. */
  function LastStored(config: Config, events: seq<Event>, url: Url): Option<Bytes> {
    if events == [] then None
    else
      var last := events[|events| - 1];
      if Stores(config, last, url) then Some(last.op.bytes) else LastStored(config, events[..|events| - 1], url)
  }

  /** storeDisk gives up without being able to empty or remove the file that was there. */
  predicate LeavesOldFile(config: Config, name: Name, file: Bytes, c: Conditions) {
    if |file| > config.diskMaxBytes then name in c.stuck else !c.writes && !c.truncates && name in c.stuck
  }

  /** And that file reads back as other bytes than those being stored. */
  predicate LeavesStaleFile(config: Config, files: map<Name, Bytes>, url: Url, bytes: Bytes, contentType: Bytes,
                            c: Conditions)
  {
    var name := config.sha(url);
    && LeavesOldFile(config, name, EntryFile(bytes, config.sha(bytes), contentType, c.now), c)
    && name in files && !Holds(config, files[name], bytes)
  }

  /** The last store of `url` left a stale file behind. */
  predicate Stale(config: Config, events: seq<Event>, url: Url) {
    if events == [] then false
    else
      var (before, last) := (events[..|events| - 1], events[|events| - 1]);
      if Stores(config, last, url) then
        && config.diskEnabled
        && LeavesStaleFile(config, After(config, before).disk.files, url, last.op.bytes, last.op.contentType, last.c)
      else Stale(config, before, url)
  }

  /** No restart since the last store of `url`, if any, found a stale file of it. */
  predicate Trusted(config: Config, events: seq<Event>, url: Url) {
    if events == [] then true
    else
      var (before, last) := (events[..|events| - 1], events[|events| - 1]);
      if Stores(config, last, url) then true
      else Trusted(config, before, url) && (last.op.Restart? ==> !Stale(config, before, url))
  }

  /** The byte strings the run hashes as URLs or payloads of its stores. */
  function Occurring(events: seq<Event>): set<Bytes> {
    if events == [] then {}
    else
      var last := events[|events| - 1];
      Occurring(events[..|events| - 1]) + if last.op.Put? then {last.op.url, last.op.bytes} else {}
  }

  /** storeMemoryOnly is for the bytes last stored; a restart reads the directory as it was left. */
  ghost predicate Allowed(config: Config, before: seq<Event>, event: Event) {
    && event.c.now <= MAX_INT64
    && (event.op.PutInMemory? ==> LastStored(config, before, event.op.url) == Some(event.op.bytes))
    && (event.op.Restart? ==> Lists(event.op.listing, After(config, before).disk.files))
  }

  ghost predicate IsRun(config: Config, events: seq<Event>) {
    forall n | 0 <= n < |events| :: Allowed(config, events[..n], events[n])
  }

  lemma RunPrefix(config: Config, events: seq<Event>)
    requires IsRun(config, events) && events != []
    ensures IsRun(config, events[..|events| - 1])
    ensures Allowed(config, events[..|events| - 1], events[|events| - 1])
  {
    var before := events[..|events| - 1];
    forall n | 0 <= n < |before| ensures Allowed(config, before[..n], before[n]) {
      assert before[..n] == events[..n];
      assert Allowed(config, events[..n], events[n]);
    }
    assert Allowed(config, events[..|events| - 1], events[|events| - 1]);
  }

  lemma RunExtended(config: Config, events: seq<Event>, event: Event)
    requires IsRun(config, events) && Allowed(config, events, event)
    ensures IsRun(config, events + [event])
    ensures After(config, events + [event]) == Step(config, After(config, events), event)
  {
    var more := events + [event];
    assert more[..|events|] == events;
    forall n | 0 <= n < |more| ensures Allowed(config, more[..n], more[n]) {
      if n < |events| {
        assert more[..n] == events[..n];
        assert Allowed(config, events[..n], events[n]);
      }
    }
  }

  // ---- Files ----

  /** No file misleads a later process about these URLs. */
  ghost predicate FilesAgree(config: Config, files: map<Name, Bytes>, stored: Stored, current: set<Url>) {
    forall url | url in current && config.sha(url) in files :: FileAgrees(config, files, stored, url)
  }

  lemma FewerFilesAgree(config: Config, files: map<Name, Bytes>, fewer: map<Name, Bytes>, stored: Stored,
                        current: set<Url>)
    requires FilesAgree(config, files, stored, current)
    requires forall name | name in fewer :: name in files && fewer[name] == files[name]
    ensures FilesAgree(config, fewer, stored, current)
  {
    forall url | url in current && config.sha(url) in fewer ensures FileAgrees(config, fewer, stored, url) {
      assert FileAgrees(config, files, stored, url);
    }
  }

  predicate ShrinksFiles(cache: Cache, after: Cache) {
    forall name | name in after.disk.files ::
      name in cache.disk.files && after.disk.files[name] == cache.disk.files[name]
  }

  /** A lookup only ever removes files. */
  lemma LookupFiles(config: Config, cache: Cache, url: Url, bound: Size, c: Conditions)
    ensures forall after | after == Lookup(config, cache, url, bound, c).0 :: ShrinksFiles(cache, after)
  {
  }

  /** What storeDisk leaves under the URL's own name: the new file, an empty one, none, or, exactly when
      it could do nothing about it, the old one. Other names keep their file or lose it to eviction. */
  lemma StoreDiskFiles(config: Config, disk: Disk, name: Name, bytes: Bytes, contentType: Bytes, c: Conditions)
    ensures var file := EntryFile(bytes, config.sha(bytes), contentType, c.now);
            var after := StoreDisk(config, disk, name, bytes, contentType, c).files;
            && (forall other | other in after && other != name ::
                  other in disk.files && after[other] == disk.files[other])
            && (!LeavesOldFile(config, name, file, c) ==> name in after ==> after[name] == file || after[name] == [])
            && (LeavesOldFile(config, name, file, c) ==> after == disk.files)
  {
  }

  /** After a store the files agree with the stored bytes about the other URLs as before, and about its
      own URL exactly unless it left a stale file. */
  lemma StoreKeepsFiles(config: Config, apart: set<Bytes>, disk: Disk, stored: Stored, url: Url, bytes: Bytes,
                        contentType: Bytes, c: Conditions, current: set<Url>)
    requires IsDigest(config.sha) && CollisionFree(config.sha, apart) && current <= apart && url in apart
    requires c.now <= MAX_INT64 && FilesAgree(config, disk.files, stored, current - {url})
    ensures var after := StoreDisk(config, disk, config.sha(url), bytes, contentType, c).files;
            && FilesAgree(config, after, stored[url := bytes], current - {url})
            && (FilesAgree(config, after, stored[url := bytes], {url}) <==>
                  !LeavesStaleFile(config, disk.files, url, bytes, contentType, c))
  {
    var after := StoreDisk(config, disk, config.sha(url), bytes, contentType, c).files;
    StoreDiskFiles(config, disk, config.sha(url), bytes, contentType, c);
    WrittenFileHolds(config, bytes, contentType, c.now);
    forall u | u in current - {url} && config.sha(u) in after
      ensures FileAgrees(config, after, stored[url := bytes], u)
    {
      assert FileAgrees(config, disk.files, stored, u);
    }
    if LeavesStaleFile(config, disk.files, url, bytes, contentType, c) {
      assert url in {url} && !FileAgrees(config, after, stored[url := bytes], url);
    }
  }

  /** Among URLs and payloads whose digests differ, a store leaves some file that misleads about some
      URL exactly when it leaves a stale one. */
  lemma LeftFileMisleads(config: Config, apart: set<Bytes>, disk: Disk, stored: Stored, url: Url, bytes: Bytes,
                         contentType: Bytes, c: Conditions, current: set<Url>)
    requires IsDigest(config.sha) && CollisionFree(config.sha, apart) && current <= apart && url in current
    requires c.now <= MAX_INT64 && FilesAgree(config, disk.files, stored, current)
    ensures FilesAgree(config, StoreDisk(config, disk, config.sha(url), bytes, contentType, c).files,
                       stored[url := bytes], current)
            <==> !LeavesStaleFile(config, disk.files, url, bytes, contentType, c)
  {
    StoreKeepsFiles(config, apart, disk, stored, url, bytes, contentType, c, current);
    assert current == current - {url} + {url};
  }

  // ---- Restarting ----

  lemma NotStray(listing: seq<Found>, i: nat)
    requires DistinctFiles(listing) && i < |listing| && IsEntryFile(listing[i])
    ensures listing[i].name !in Strays(listing)
  {
    forall found | found in listing && !IsEntryFile(found) ensures found.name != listing[i].name {
      var j :| 0 <= j < |listing| && listing[j] == found;
      assert j < i || i < j;
    }
  }

  /** Opening a directory gives a sound disk cache, coherent about every URL whose file is. */
  lemma OpenedIsSound(config: Config, files: map<Name, Bytes>, stored: Stored, listing: seq<Found>, stuck: set<Name>,
                      scope: Scope)
    requires Lists(listing, files) && FilesAgree(config, files, stored, scope.trusted)
    ensures DiskSound(config, Opened(config, files, listing, stuck))
    ensures IndexedFilesAgree(config, scope, Opened(config, files, listing, stuck), stored)
    ensures FilesAgree(config, Opened(config, files, listing, stuck).files, stored, scope.trusted)
  {
    var disk := Disk(Built(listing, 1), files - (Strays(listing) - stuck));
    NotedAllIsValid(listing, Built(listing, 1).next);
    forall name | name in disk.index.entries
      ensures name in disk.files && |disk.files[name]| == disk.index.entries[name].size
    {
      var i := OnlyFound(listing, name);
      NotStray(listing, i);
    }
    forall url | url in scope.trusted && config.sha(url) in disk.index.entries
      ensures FileAgrees(config, disk.files, stored, url)
    {
      assert FileAgrees(config, files, stored, url);
    }
    EvictKeeps(config, scope, disk, stored, stuck);
    FewerFilesAgree(config, files, Opened(config, files, listing, stuck).files, stored, scope.trusted);
  }

  lemma OpenedFiles(config: Config, files: map<Name, Bytes>, listing: seq<Found>, stuck: set<Name>)
    ensures var after := Opened(config, files, listing, stuck).files;
            forall name | name in after :: name in files && after[name] == files[name]
  {
  }

  lemma EmptyIsSound()
    ensures Valid(EMPTY)
  {
  }

  // ---- Runs ----

  /** The bytes last stored for each URL. */
  function StoredAfter(config: Config, events: seq<Event>): Stored {
    if events == [] then map[]
    else
      var (before, last) := (StoredAfter(config, events[..|events| - 1]), events[|events| - 1]);
      if last.op.Put? && Stores(config, last, last.op.url) then before[last.op.url := last.op.bytes] else before
  }

  lemma {:induction false} StoredIsLast(config: Config, events: seq<Event>, url: Url)
    ensures LastStored(config, events, url) ==
            if url in StoredAfter(config, events) then Some(StoredAfter(config, events)[url]) else None
  {
    if events == [] {
    } else {
      StoredIsLast(config, events[..|events| - 1], url);
    }
  }

  function TrustedOf(config: Config, events: seq<Event>, apart: set<Bytes>): set<Url> {
    set url | url in apart && Trusted(config, events, url)
  }

  function CurrentOf(config: Config, events: seq<Event>, apart: set<Bytes>): set<Url> {
    set url | url in apart && !Stale(config, events, url)
  }

  /** The state of a run: the cache, coherent about the trusted URLs; and, if they are read, the files,
      agreeing about the URLs that are not stale. */
  ghost predicate Agrees(config: Config, cache: Cache, stored: Stored, scope: Scope, current: set<Url>) {
    && Coherent(config, scope, cache, stored)
    && (config.diskEnabled ==> FilesAgree(config, cache.disk.files, stored, current))
  }

  lemma FewerFilesStep(config: Config, cache: Cache, stored: Stored, scope: Scope, current: set<Url>, after: Cache)
    requires Agrees(config, cache, stored, scope, current)
    requires Coherent(config, scope, after, stored) && ShrinksFiles(cache, after)
    ensures Agrees(config, after, stored, scope, current)
  {
    if config.diskEnabled {
      FewerFilesAgree(config, cache.disk.files, after.disk.files, stored, current);
    }
  }

  lemma LookUpStep(config: Config, cache: Cache, stored: Stored, scope: Scope, url: Url, bound: Size, c: Conditions)
    requires Coherent(config, scope, cache, stored)
    ensures forall after | after == Lookup(config, cache, url, bound, c).0 :: Coherent(config, scope, after, stored)
  {
    LookupKeeps(config, scope, cache, stored, url, bound, c);
  }

  lemma InMemoryStep(config: Config, cache: Cache, stored: Stored, scope: Scope, current: set<Url>, url: Url,
                     bound: Size,
                     c: Conditions, after: Cache)
    requires Agrees(config, cache, stored, scope, current)
    requires url in stored && after == StoreMemoryOnly(config, cache, url, stored[url], bound, c).0
    ensures Agrees(config, after, stored, scope, current)
  {
    StoreMemoryOnlyKeeps(config, scope, cache, stored, url, stored[url], bound, c);
  }

  lemma ClearStep(config: Config, cache: Cache, stored: Stored, scope: Scope, current: set<Url>)
    requires Agrees(config, cache, stored, scope, current)
    ensures Agrees(config, ClearMemory(cache), stored, scope, current)
  {
    ClearMemoryKeeps(config, scope, cache, stored);
  }

  /** After a restart the cache answers for the URLs it did before, short of the stale ones. */
  lemma RestartStep(config: Config, cache: Cache, stored: Stored, scope: Scope, current: set<Url>, listing: seq<Found>,
                    stuck: set<Name>, after: Cache)
    requires Agrees(config, cache, stored, scope, current) && Lists(listing, cache.disk.files)
    requires after == Restarted(config, cache, listing, stuck)
    ensures Agrees(config, after, stored, scope.(trusted := scope.trusted * current), current)
  {
    var narrowed := scope.(trusted := scope.trusted * current);
    if config.diskEnabled {
      FewerUrlsAgree(config, cache.disk.files, stored, current, narrowed.trusted);
      OpenedIsSound(config, cache.disk.files, stored, listing, stuck, narrowed);
      OpenedFiles(config, cache.disk.files, listing, stuck);
      FewerFilesAgree(config, cache.disk.files, after.disk.files, stored, current);
    } else {
      EmptyIsSound();
    }
  }

  lemma FewerUrlsAgree(config: Config, files: map<Name, Bytes>, stored: Stored, current: set<Url>, fewer: set<Url>)
    requires FilesAgree(config, files, stored, current) && fewer <= current
    ensures FilesAgree(config, files, stored, fewer)
  {
  }

  /** The current URLs once a store has been decoded. */
  predicate IsCurrentAfter(config: Config, files: map<Name, Bytes>, url: Url, bytes: Bytes, contentType: Bytes,
                           c: Conditions, current: set<Url>, current': set<Url>)
  {
    && current' - {url} == current - {url}
    && (config.diskEnabled && url in current' ==> !LeavesStaleFile(config, files, url, bytes, contentType, c))
  }

  lemma PutStep(config: Config, cache: Cache, stored: Stored, scope: Scope, current: set<Url>, url: Url, bytes: Bytes,
                contentType: Bytes, bound: Size, c: Conditions, after: Cache, current': set<Url>)
    requires IsConfig(config, scope) && url in scope.apart && bytes in scope.apart && c.now <= MAX_INT64
    requires Agrees(config, cache, stored, scope, current) && current' <= scope.apart
    requires Decode(config, bytes, bound, c.pressure).Decoded?
    requires IsCurrentAfter(config, cache.disk.files, url, bytes, contentType, c, current, current')
    requires after == Store(config, cache, url, bytes, contentType, bound, c).0
    ensures Agrees(config, after, stored[url := bytes], Covering(scope, url), current')
  {
    StoreKeeps(config, scope, cache, stored, url, bytes, contentType, bound, c);
    if config.diskEnabled {
      FewerUrlsAgree(config, cache.disk.files, stored, current, current' - {url});
      StoreKeepsFiles(config, scope.apart, cache.disk, stored, url, bytes, contentType, c, current');
      assert current' <= current' - {url} + {url};
    }
  }

  lemma ScopesAfterPut(config: Config, before: seq<Event>, event: Event, apart: set<Bytes>)
    requires event.op.Put? && Stores(config, event, event.op.url) && event.op.url in apart
    ensures var events := before + [event];
            && TrustedOf(config, events, apart) == TrustedOf(config, before, apart) + {event.op.url}
            && IsCurrentAfter(config, After(config, before).disk.files, event.op.url, event.op.bytes,
                              event.op.contentType, event.c,
                              CurrentOf(config, before, apart), CurrentOf(config, events, apart))
  {
    assert (before + [event])[..|before|] == before;
  }

  lemma ScopesAfterOther(config: Config, before: seq<Event>, event: Event, apart: set<Bytes>)
    requires forall url :: !Stores(config, event, url)
    ensures var events := before + [event];
            && CurrentOf(config, events, apart) == CurrentOf(config, before, apart)
            && TrustedOf(config, events, apart) ==
               (if event.op.Restart? then TrustedOf(config, before, apart) * CurrentOf(config, before, apart)
                else TrustedOf(config, before, apart))
  {
    assert (before + [event])[..|before|] == before;
  }

  ghost predicate RunAgrees(config: Config, events: seq<Event>, apart: set<Bytes>) {
    Agrees(config, After(config, events), StoredAfter(config, events),
           Scope(apart, TrustedOf(config, events, apart)), CurrentOf(config, events, apart))
  }

  lemma RunStep(config: Config, before: seq<Event>, event: Event, apart: set<Bytes>, cache: Cache, stored: Stored,
                after: Cache)
    requires IsDigest(config.sha) && CollisionFree(config.sha, apart)
    requires Allowed(config, before, event) && Occurring(before + [event]) <= apart
    requires cache == After(config, before) && stored == StoredAfter(config, before)
    requires RunAgrees(config, before, apart) && after == Step(config, cache, event)
    ensures RunAgrees(config, before + [event], apart)
  {
    assert (before + [event])[..|before|] == before;
    var (scope, current) := (Scope(apart, TrustedOf(config, before, apart)), CurrentOf(config, before, apart));
    if event.op.Put? && Stores(config, event, event.op.url) {
      var Put(url, bytes, contentType, bound) := event.op;
      ScopesAfterPut(config, before, event, apart);
      PutStep(config, cache, stored, scope, current, url, bytes, contentType, bound, event.c, after,
              CurrentOf(config, before + [event], apart));
    } else {
      ScopesAfterOther(config, before, event, apart);
      match event.op
      case Put(_, _, _, _) =>
      case LookUp(url, bound) =>
        LookUpStep(config, cache, stored, scope, url, bound, event.c);
        LookupFiles(config, cache, url, bound, event.c);
        assert Coherent(config, scope, after, stored) && ShrinksFiles(cache, after);
        FewerFilesStep(config, cache, stored, scope, current, after);
      case PutInMemory(url, bytes, bound) =>
        StoredIsLast(config, before, url);
        InMemoryStep(config, cache, stored, scope, current, url, bound, event.c, after);
      case Clear => ClearStep(config, cache, stored, scope, current);
      case Restart(listing) => RestartStep(config, cache, stored, scope, current, listing, event.c.stuck, after);
    }
  }

  /** In every state of every run the memory entries, the digest table and the indexed files agree with
      the last stored bytes about every trusted URL, and every file does about its URL unless stale. */
  lemma {:induction false} RunKeepsCoherence(config: Config, events: seq<Event>, apart: set<Bytes>)
    requires IsDigest(config.sha) && CollisionFree(config.sha, apart)
    requires IsRun(config, events) && Occurring(events) <= apart
    ensures RunAgrees(config, events, apart)
  {
    if events == [] {
      EmptyIsSound();
    } else {
      var (before, event) := (events[..|events| - 1], events[|events| - 1]);
      assert before + [event] == events;
      RunPrefix(config, events);
      RunKeepsCoherence(config, before, apart);
      RunStep(config, before, event, apart, After(config, before), StoredAfter(config, before), After(config, events));
    }
  }

  /** A hit is the decode, at the bound asked for, of the bytes the history stored last for the URL. */
  ghost predicate IsLastOf(config: Config, events: seq<Event>, url: Url, bound: Size, r: LookupResult) {
    r.Hit? ==>
      var last := LastStored(config, events, url);
      last.Some? && config.decoder(last.value, NormalizedBound(bound)) == Decoded(r.image)
  }

  /** The law: after any run of stores, memory-only stores of the same bytes, lookups, clears and
      restarts, under any memory pressure, any drops, evictions, failed reads, writes and removals, a
      lookup that hits returns the decode at its bound of the bytes last stored for its URL, unless a
      restart since found a stale file of that very URL. The digests of what occurs must differ. */
  lemma HitAfterRun(config: Config, events: seq<Event>, cache: Cache, url: Url, bound: Size, c: Conditions,
                    r: LookupResult)
    requires IsDigest(config.sha) && CollisionFree(config.sha, Occurring(events) + {url})
    requires IsRun(config, events) && Trusted(config, events, url)
    requires cache == After(config, events) && r == Lookup(config, cache, url, bound, c).1
    ensures IsLastOf(config, events, url, bound, r)
  {
    var apart := Occurring(events) + {url};
    RunKeepsCoherence(config, events, apart);
    StoredIsLast(config, events, url);
    if r.Hit? {
      var scope := Scope(apart, TrustedOf(config, events, apart));
      HitIsLastStored(config, scope, cache, StoredAfter(config, events), url, bound, c);
    }
  }

  /** Without restarts every URL is trusted. */
  lemma {:induction false} OneProcessIsTrusted(config: Config, events: seq<Event>, url: Url)
    requires forall i | 0 <= i < |events| :: !events[i].op.Restart?
    ensures Trusted(config, events, url)
  {
    if events == [] {
    } else {
      OneProcessIsTrusted(config, events[..|events| - 1], url);
    }
  }

  // ---- The disk limit, whatever the digests ----

  lemma StoreDiskSound(config: Config, disk: Disk, name: Name, bytes: Bytes, contentType: Bytes, c: Conditions)
    requires DiskSound(config, disk)
    ensures DiskSound(config, StoreDisk(config, disk, name, bytes, contentType, c))
  {
    var file := EntryFile(bytes, config.sha(bytes), contentType, c.now);
    if |file| <= config.diskMaxBytes && c.writes {
      EnterKeeps(disk.index, name, |file|);
      EvictSound(config, Disk(Enter(disk.index, name, |file|), disk.files[name := file]), c.stuck);
    } else {
      var emptied := |file| <= config.diskMaxBytes && c.truncates;
      DroppedSound(config, disk, if emptied then disk.files[name := []] else disk.files, name, c.stuck);
      assert disk.(files := disk.files) == disk;
    }
  }

  lemma EvictSound(config: Config, disk: Disk, stuck: set<Name>)
    requires Valid(disk.index) && SizesAgree(disk.index.entries, disk.files)
    ensures DiskSound(config, EvictIfNeeded(disk, config.diskMaxBytes, stuck))
  {
    var nothing := Scope({}, {});
    EvictKeeps(config, nothing, disk, map[], stuck);
  }

  lemma LookupSound(config: Config, cache: Cache, url: Url, bound: Size, c: Conditions)
    requires DiskSound(config, cache.disk)
    ensures DiskSound(config, Lookup(config, cache, url, bound, c).0.disk)
  {
    var (nothing, name) := (Scope({}, {}), config.sha(url));
    TouchSame(config, nothing, cache.disk, map[], name);
    DropEntryKeeps(config, nothing, cache.disk, map[], name, c.stuck);
    if MemoryKey(url, bound) !in cache.memory && config.diskEnabled {
      LookupDiskCases(config, cache, url, bound, c);
      if name in cache.disk.index.entries {
        EnterSame(config, nothing, cache.disk, map[], name);
      }
    }
  }

  lemma StepSound(config: Config, before: seq<Event>, event: Event, cache: Cache, after: Cache)
    requires Allowed(config, before, event) && cache == After(config, before) && after == Step(config, cache, event)
    requires DiskSound(config, cache.disk)
    ensures DiskSound(config, after.disk)
  {
    match event.op
    case LookUp(url, bound) => LookupSound(config, cache, url, bound, event.c);
    case Put(url, bytes, contentType, bound) =>
      StoreDiskSound(config, cache.disk, config.sha(url), bytes, contentType, event.c);
    case PutInMemory(_, _, _) =>
    case Clear =>
    case Restart(listing) =>
      EmptyIsSound();
      OpenedIsSound(config, cache.disk.files, map[], listing, event.c.stuck, Scope({}, {}));
  }

  /** After any run the byte count is the sum of the sizes of the indexed files, within the limit. */
  lemma {:induction false} DiskWithinLimit(config: Config, events: seq<Event>)
    requires IsRun(config, events)
    ensures var disk := After(config, events).disk;
            && disk.index.bytes == Total(disk.index.entries) <= config.diskMaxBytes
            && SizesAgree(disk.index.entries, disk.files)
    ensures DiskSound(config, After(config, events).disk)
  {
    if events == [] {
      EmptyIsSound();
    } else {
      var (before, event) := (events[..|events| - 1], events[|events| - 1]);
      RunPrefix(config, events);
      DiskWithinLimit(config, before);
      StepSound(config, before, event, After(config, before), After(config, events));
    }
  }
}
