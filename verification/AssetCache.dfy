/** The AssetCache class of AssetCache.cpp, over the fields it updates in place; the directory's files
    are one of them. */
module AssetCache {
  import opened Text
  import opened EntryFormat
  import opened MemoryKeys
  import opened ImageScaling
  import opened DiskIndex
  import opened CacheOperations
  import opened CacheCoherence
  import CacheRuns

  class AssetCache {
    const config: Config

    var memoryCache: map<Bytes, Image>
    var payloadDigests: map<Url, Bytes>
    var index: map<Name, Entry>
    var lruQueue: seq<Stamp>
    var lruPositions: map<Name, nat>
    var diskBytes: int
    var nextAccess: nat
    var files: map<Name, Bytes>

    /** The URLs and payloads that come up; their digests differ. */
    ghost const apart: set<Bytes>

    /** The bytes last stored for each URL, in this process or, for the files it found, before; and the
        URLs the cache answers for, all those stored in this process among them. */
    ghost var stored: Stored
    ghost var trusted: set<Url>

    function IndexState(): Index
      reads this
    {
      Index(index, lruQueue, lruPositions, diskBytes, nextAccess)
    }

    function DiskState(): Disk
      reads this
    {
      Disk(IndexState(), files)
    }

    function State(): Cache
      reads this
    {
      Cache(memoryCache, payloadDigests, DiskState())
    }

    ghost function ScopeOf(): Scope
      reads this
    {
      Scope(apart, trusted)
    }

    /** Coherent, with what the class stores (the quantifier keeps the solver from unfolding it). */
    ghost predicate Valid()
      reads this
    {
      && IsConfig(config, ScopeOf())
      && forall cache | cache == State() :: Coherent(config, ScopeOf(), cache, stored)
    }

    /** Opens the directory: `listing` is what it holds. */
    constructor (config: Config, files: map<Name, Bytes>, listing: seq<Found>, stuck: set<Name>,
                 ghost stored: Stored, ghost scope: Scope)
      requires IsConfig(config, scope) && Lists(listing, files)
      requires config.diskEnabled ==> CacheRuns.FilesAgree(config, files, stored, scope.trusted)
      ensures Valid() && this.config == config && this.stored == stored && ScopeOf() == scope
      ensures State() == Restarted(config, FRESH.(disk := Disk(EMPTY, files)), listing, stuck)
    {
      this.config := config;
      this.stored, apart, trusted := stored, scope.apart, scope.trusted;
      memoryCache, payloadDigests := map[], map[];
      index, lruQueue, lruPositions, diskBytes, nextAccess := map[], [], map[], 0, 1;
      this.files := files;
      new;
      if config.diskEnabled {
        OpenDiskCache(listing, stuck);
      }
      assert State() == Restarted(config, FRESH.(disk := Disk(EMPTY, files)), listing, stuck);
      OpenedIsValid(files, listing, stuck);
    }

    lemma OpenedIsValid(files: map<Name, Bytes>, listing: seq<Found>, stuck: set<Name>)
      requires IsConfig(config, ScopeOf()) && Lists(listing, files)
      requires config.diskEnabled ==> CacheRuns.FilesAgree(config, files, stored, trusted)
      requires State() == Restarted(config, FRESH.(disk := Disk(EMPTY, files)), listing, stuck)
      ensures Valid()
    {
      StartIsCoherent(config, ScopeOf(), files, listing, stuck, stored);
    }

    // ---- The public operations ----

    /** A hit for a URL the cache answers for is the decode, at the bound asked for, of the bytes last
        stored for it. */
    method Lookup(url: Url, bound: Size, c: Conditions) returns (r: LookupResult)
      requires Valid()
      modifies this
      ensures Valid() && stored == old(stored) && trusted == old(trusted)
      ensures (State(), r) == CacheOperations.Lookup(config, old(State()), url, bound, c)
      ensures r.Hit? && url in trusted ==> IsLastDecode(config, stored, url, bound, r.image)
    {
      LookupKeeps(config, ScopeOf(), State(), stored, url, bound, c);
      if url in trusted && CacheOperations.Lookup(config, State(), url, bound, c).1.Hit? {
        HitIsLastStored(config, ScopeOf(), State(), stored, url, bound, c);
      }
      r := Find(url, bound, c);
    }

    method Find(url: Url, bound: Size, c: Conditions) returns (r: LookupResult)
      modifies this`memoryCache, this`index, this`lruQueue, this`lruPositions, this`diskBytes, this`nextAccess,
        this`files
      ensures (State(), r) == CacheOperations.Lookup(config, old(State()), url, bound, c)
    {
      var memoryKey, diskKey := MemoryKey(url, bound), config.sha(url);
      if memoryKey in memoryCache {
        r := Hit(false, memoryCache[memoryKey]);
        TouchDiskEntry(diskKey);
      } else if config.diskEnabled {
        r := LookupDisk(url, bound, c);
      } else {
        r := Miss;
      }
    }

    method Store(url: Url, bytes: Bytes, contentType: Bytes, bound: Size, c: Conditions) returns (outcome: Outcome)
      requires Valid() && c.now <= MAX_INT64 && url in apart && bytes in apart
      modifies this
      ensures Valid() && stored == Renewed(old(stored), url, bytes, outcome)
      ensures ScopeOf() == Widened(old(ScopeOf()), url, outcome)
      ensures (State(), outcome) == CacheOperations.Store(config, old(State()), url, bytes, contentType, bound, c)
      ensures outcome == Decode(config, bytes, bound, c.pressure)
    {
      StoreKeeps(config, ScopeOf(), State(), stored, url, bytes, contentType, bound, c);
      outcome := StorePayload(url, bytes, contentType, bound, c);
      stored := Renewed(stored, url, bytes, outcome);
      trusted := Widened(ScopeOf(), url, outcome).trusted;
    }

    method StorePayload(url: Url, bytes: Bytes, contentType: Bytes, bound: Size,
                        c: Conditions) returns (outcome: Outcome)
      requires DiskIndex.Valid(IndexState())
      modifies this`memoryCache, this`payloadDigests, this`index, this`lruQueue, this`lruPositions, this`diskBytes,
        this`nextAccess, this`files
      ensures (State(), outcome) == CacheOperations.Store(config, old(State()), url, bytes, contentType, bound, c)
    {
      outcome := Decode(config, bytes, bound, c.pressure);
      if outcome.Decoded? {
        StoreInMemory(url, bytes, bound, outcome.image, c);
        if config.diskEnabled {
          StoreDisk(config.sha(url), bytes, contentType, c);
        }
      }
    }

    /** For another bound of the bytes last stored. */
    method StoreMemoryOnly(url: Url, bytes: Bytes, bound: Size, c: Conditions) returns (outcome: Outcome)
      requires Valid() && url in stored && stored[url] == bytes
      modifies this
      ensures Valid() && stored == old(stored) && trusted == old(trusted)
      ensures (State(), outcome) == CacheOperations.StoreMemoryOnly(config, old(State()), url, bytes, bound, c)
      ensures outcome == Decode(config, bytes, bound, c.pressure)
    {
      StoreMemoryOnlyKeeps(config, ScopeOf(), State(), stored, url, bytes, bound, c);
      outcome := Decode(config, bytes, bound, c.pressure);
      if outcome.Decoded? {
        PromoteToMemory(MemoryKey(url, bound), outcome.image, c);
      }
    }

    method ClearMemory()
      requires Valid()
      modifies this
      ensures Valid() && stored == old(stored) && trusted == old(trusted)
      ensures State() == CacheOperations.ClearMemory(old(State()))
    {
      ClearMemoryKeeps(config, ScopeOf(), State(), stored);
      memoryCache := map[];
      payloadDigests := map[];
    }

    // ---- Memory ----

    /** Only bytes that differ from the last stored ones make the URL's other entries stale. */
    method StoreInMemory(url: Url, bytes: Bytes, bound: Size, image: Image, c: Conditions)
      modifies this`memoryCache, this`payloadDigests
      ensures State() == CacheOperations.StoreInMemory(config, old(State()), url, bytes, bound, image, c)
    {
      var digest := config.sha(bytes);
      if url !in payloadDigests || payloadDigests[url] != digest {
        RemoveMemoryEntriesForUrl(url);
        if url !in payloadDigests && |payloadDigests| >= config.maxPayloadDigests {
          payloadDigests := map[];
        }
        payloadDigests := payloadDigests[url := digest];
      }
      PromoteToMemory(MemoryKey(url, bound), image, c);
    }

    method PromoteToMemory(key: Bytes, image: Image, c: Conditions)
      modifies this`memoryCache
      ensures memoryCache == Promoted(old(memoryCache), key, image, c)
    {
      if c.kept {
        memoryCache := (memoryCache - c.dropped)[key := image];
      }
    }

    /** Exactly the keys of `url` go. */
    method RemoveMemoryEntriesForUrl(url: Url)
      modifies this`memoryCache
      ensures memoryCache == WithoutUrl(old(memoryCache), url)
    {
      var keys := memoryCache.Keys;
      while keys != {}
        invariant keys <= old(memoryCache).Keys
        invariant memoryCache.Keys <= old(memoryCache).Keys
        invariant forall key | key in old(memoryCache) ::
                    key in memoryCache <==> key in keys || !BelongsTo(key, url)
        invariant forall key | key in memoryCache :: memoryCache[key] == old(memoryCache)[key]
        decreases keys
      {
        var key :| key in keys;
        if BelongsTo(key, url) {
          memoryCache := memoryCache - {key};
        }
        keys := keys - {key};
      }
    }

    // ---- Disk ----

    method TouchDiskEntry(name: Name)
      modifies this`index, this`lruQueue, this`lruPositions, this`nextAccess
      ensures IndexState() == Touch(old(IndexState()), name)
    {
      if name in index {
        nextAccess := nextAccess + 1;
        SetDiskEntryAccess(name, nextAccess - 1);
      }
    }

    method SetDiskEntryAccess(name: Name, access: nat)
      modifies this`index, this`lruQueue, this`lruPositions
      ensures IndexState() == SetAccess(old(IndexState()), name, access)
    {
      if name !in index {
        return;
      }
      if name in lruPositions {
        lruQueue := Erase(lruQueue, Stamp(lruPositions[name], name));
        lruPositions := lruPositions - {name};
      }
      index := index[name := index[name].(access := access)];
      lruQueue := Insert(lruQueue, Stamp(access, name));
      lruPositions := lruPositions[name := access];
      assert lruPositions == old(lruPositions)[name := access];
    }

    method RemoveDiskEntry(name: Name, stuck: set<Name>)
      modifies this`index, this`lruQueue, this`lruPositions, this`diskBytes, this`files
      ensures DiskState() == DropEntry(old(DiskState()), name, stuck)
    {
      var size := if name in index then index[name].size else 0;
      if name in files && name !in stuck {
        files := files - {name};
      }
      if name in lruPositions {
        lruQueue := Erase(lruQueue, Stamp(lruPositions[name], name));
        lruPositions := lruPositions - {name};
      }
      index := index - {name};
      diskBytes := if diskBytes - size < 0 then 0 else diskBytes - size;
    }

    /** The loop ends, and takes the shortest least recently used prefix (EvictionIsShortestPrefix). */
    method EvictIfNeeded(stuck: set<Name>)
      requires DiskIndex.Valid(IndexState())
      modifies this`index, this`lruQueue, this`lruPositions, this`diskBytes, this`files
      ensures DiskState() == CacheOperations.EvictIfNeeded(old(DiskState()), config.diskMaxBytes, stuck)
    {
      ghost var start := DiskState();
      while diskBytes > config.diskMaxBytes && lruQueue != []
        invariant DiskIndex.Valid(IndexState())
        invariant Evicted(IndexState(), config.diskMaxBytes) == Evicted(start.index, config.diskMaxBytes)
        invariant LeftBehind(start, DiskState(), stuck)
        decreases |lruQueue|
      {
        EvictOne(start, DiskState(), config.diskMaxBytes, stuck);
        RemoveDiskEntry(lruQueue[0].name, stuck);
      }
    }

    method LookupDisk(url: Url, bound: Size, c: Conditions) returns (r: LookupResult)
      modifies this`memoryCache, this`index, this`lruQueue, this`lruPositions, this`diskBytes, this`nextAccess,
        this`files
      ensures (State(), r) == CacheOperations.LookupDisk(config, old(State()), url, bound, c)
    {
      r := Miss;
      var name := config.sha(url);
      if name !in index || !config.limitsValid {
        return;
      }
      if BadSize(config, files, name) {
        RemoveDiskEntry(name, c.stuck);
      } else if c.opens {
        var payload := ReadEntry(files[name], config.maxEncodedBytes, config.sha);
        if !c.readsAll || payload.None? {
          RemoveDiskEntry(name, c.stuck);
        } else {
          r := DecodeDiskEntry(url, payload.value, bound, c);
        }
      }
    }

    /** The payload read from the URL's file decoded and served. */
    method DecodeDiskEntry(url: Url, payload: Bytes, bound: Size, c: Conditions) returns (r: LookupResult)
      requires config.sha(url) in files
      modifies this`memoryCache, this`index, this`lruQueue, this`lruPositions, this`diskBytes, this`nextAccess,
        this`files
      ensures var decoded := Decode(config, payload, bound, c.pressure);
              if decoded.Decoded?
              then
                && r == Hit(true, decoded.image)
                && State() == Noticed(config, old(State()), url, bound, decoded.image, c)
              else
                && r == Miss
                && State() == if decoded.failure.Rejected?
                              then old(State()).(disk := DropEntry(old(DiskState()), config.sha(url), c.stuck))
                              else old(State())
    {
      var name := config.sha(url);
      var decoded := Decode(config, payload, bound, c.pressure);
      if decoded.Decoded? {
        EnterIndex(name, |files[name]|);
        PromoteToMemory(MemoryKey(url, bound), decoded.image, c);
        r := Hit(true, decoded.image);
      } else {
        if decoded.failure.Rejected? {
          RemoveDiskEntry(name, c.stuck);
        }
        r := Miss;
      }
    }

    /** An entry's size renewed or a new entry listed, and its stamp. */
    method EnterIndex(name: Name, size: nat)
      modifies this`index, this`lruQueue, this`lruPositions, this`diskBytes, this`nextAccess
      ensures IndexState() == Enter(old(IndexState()), name, size)
    {
      diskBytes := diskBytes + size - (if name in index then index[name].size else 0);
      index := index[name := Entry(size, 0)];
      TouchDiskEntry(name);
    }

    method StoreDisk(name: Name, bytes: Bytes, contentType: Bytes, c: Conditions)
      requires DiskIndex.Valid(IndexState())
      modifies this`index, this`lruQueue, this`lruPositions, this`diskBytes, this`nextAccess, this`files
      ensures DiskState() == CacheOperations.StoreDisk(config, old(DiskState()), name, bytes, contentType, c)
    {
      var file := EntryFile(bytes, config.sha(bytes), contentType, c.now);
      if |file| > config.diskMaxBytes {
        RemoveDiskEntry(name, c.stuck);
        return;
      }
      if !c.writes {
        if c.truncates {
          files := files[name := []];
        }
        RemoveDiskEntry(name, c.stuck);
        return;
      }
      EnterKeeps(IndexState(), name, |file|);
      files := files[name := file];
      EnterIndex(name, |file|);
      EvictIfNeeded(c.stuck);
    }

    method NoteFile(found: Found, stuck: set<Name>)
      modifies this`index, this`lruQueue, this`lruPositions, this`diskBytes, this`files
      ensures IndexState() == Noted(old(IndexState()), found)
      ensures files == old(files) - ((if IsEntryFile(found) then {} else {found.name}) - stuck)
    {
      if IsEntryFile(found) {
        index := index[found.name := Entry(found.size, AccessOf(found))];
        SetDiskEntryAccess(found.name, AccessOf(found));
        diskBytes := diskBytes + found.size;
      } else if found.name !in stuck {
        files := files - {found.name};
      }
    }

    method BuildIndex(listing: seq<Found>, stuck: set<Name>)
      modifies this`index, this`lruQueue, this`lruPositions, this`diskBytes, this`nextAccess, this`files
      ensures IndexState() == Built(listing, old(nextAccess))
      ensures files == old(files) - (Strays(listing) - stuck)
    {
      index, lruQueue, lruPositions, diskBytes := map[], [], map[], 0;
      var newest, i := 0, 0;
      ghost var found, next := files, nextAccess;
      while i < |listing|
        invariant 0 <= i <= |listing|
        invariant IndexState() == NotedAll(listing[..i]).(next := next)
        invariant newest == Newest(listing[..i])
        invariant files == found - (Strays(listing[..i]) - stuck)
      {
        BuildStep(listing, i, next);
        FilesLess(found, Strays(listing[..i]), if IsEntryFile(listing[i]) then {} else {listing[i].name}, stuck);
        NoteFile(listing[i], stuck);
        if IsEntryFile(listing[i]) && AccessOf(listing[i]) > newest {
          newest := AccessOf(listing[i]);
        }
        i := i + 1;
      }
      assert listing[..|listing|] == listing;
      nextAccess := if nextAccess < newest + 1 then newest + 1 else nextAccess;
    }

    method OpenDiskCache(listing: seq<Found>, stuck: set<Name>)
      requires DistinctFiles(listing) && nextAccess == 1
      modifies this`index, this`lruQueue, this`lruPositions, this`diskBytes, this`nextAccess, this`files
      ensures DiskState() == Opened(config, old(files), listing, stuck)
    {
      BuildIndex(listing, stuck);
      NotedAllIsValid(listing, nextAccess);
      EvictIfNeeded(stuck);
    }
  }

  /** Between the start of evictIfNeeded and here, only files of dropped entries went. */
  predicate LeftBehind(start: Disk, disk: Disk, stuck: set<Name>) {
    && disk.index.entries.Keys <= start.index.entries.Keys
    && disk.files == start.files - (start.index.entries.Keys - disk.index.entries.Keys - stuck)
  }

  lemma EvictOne(start: Disk, disk: Disk, limit: nat, stuck: set<Name>)
    requires DiskIndex.Valid(disk.index) && disk.index.bytes > limit && disk.index.queue != []
    requires LeftBehind(start, disk, stuck)
    ensures var rest := DropEntry(disk, disk.index.queue[0].name, stuck);
            && DiskIndex.Valid(rest.index) && |rest.index.queue| < |disk.index.queue|
            && Evicted(rest.index, limit) == Evicted(disk.index, limit)
            && LeftBehind(start, rest, stuck)
  {
    var name := disk.index.queue[0].name;
    assert disk.index.queue[0] in disk.index.queue;
    DropOldest(disk.index);
    FilesWithout(start.files, start.index.entries.Keys, disk.index.entries.Keys, stuck, name);
  }

  lemma FilesWithout(files: map<Name, Bytes>, before: set<Name>, now: set<Name>, stuck: set<Name>, name: Name)
    requires name in now && now <= before
    ensures files - (before - (now - {name}) - stuck) ==
            if name in stuck then files - (before - now - stuck) else files - (before - now - stuck) - {name}
  {
    if name in stuck {
      assert before - (now - {name}) - stuck == before - now - stuck;
    } else {
      assert before - (now - {name}) - stuck == (before - now - stuck) + {name};
    }
  }

  lemma ListingStep(listing: seq<Found>, i: nat)
    requires i < |listing|
    ensures NotedAll(listing[..i + 1]) == Noted(NotedAll(listing[..i]), listing[i])
    ensures Newest(listing[..i + 1]) ==
            var (newest, found) := (Newest(listing[..i]), listing[i]);
            if IsEntryFile(found) && AccessOf(found) > newest then AccessOf(found) else newest
    ensures Strays(listing[..i + 1]) == Strays(listing[..i]) + if IsEntryFile(listing[i]) then {} else {listing[i].name}
  {
    assert listing[..i + 1][..i] == listing[..i];
    assert listing[..i + 1] == listing[..i] + [listing[i]];
    StraysOf(listing[..i], listing[i]);
  }

  lemma FilesLess(files: map<Name, Bytes>, gone: set<Name>, more: set<Name>, stuck: set<Name>)
    ensures files - (gone - stuck) - (more - stuck) == files - (gone + more - stuck)
  {
    assert gone + more - stuck == (gone - stuck) + (more - stuck);
  }

  lemma BuildStep(listing: seq<Found>, i: nat, next: nat)
    requires i < |listing|
    ensures NotedAll(listing[..i + 1]).(next := next) == Noted(NotedAll(listing[..i]).(next := next), listing[i])
    ensures Newest(listing[..i + 1]) ==
            var (newest, found) := (Newest(listing[..i]), listing[i]);
            if IsEntryFile(found) && AccessOf(found) > newest then AccessOf(found) else newest
    ensures Strays(listing[..i + 1]) == Strays(listing[..i]) + if IsEntryFile(listing[i]) then {} else {listing[i].name}
  {
    ListingStep(listing, i);
    NotedAnyNext(NotedAll(listing[..i]), listing[i], next);
  }

  lemma StartIsCoherent(config: Config, scope: Scope, files: map<Name, Bytes>, listing: seq<Found>, stuck: set<Name>,
                        stored: Stored)
    requires IsConfig(config, scope) && Lists(listing, files)
    requires config.diskEnabled ==> CacheRuns.FilesAgree(config, files, stored, scope.trusted)
    ensures forall cache | cache == Restarted(config, FRESH.(disk := Disk(EMPTY, files)), listing, stuck) ::
              Coherent(config, scope, cache, stored)
  {
    if config.diskEnabled {
      CacheRuns.OpenedIsSound(config, files, stored, listing, stuck, scope);
    }
  }

  lemma NotedAnyNext(x: Index, found: Found, next: nat)
    ensures Noted(x.(next := next), found) == Noted(x, found).(next := next)
  {
  }

  lemma StraysOf(listing: seq<Found>, found: Found)
    ensures Strays(listing + [found]) == Strays(listing) + if IsEntryFile(found) then {} else {found.name}
  {
    assert found in listing + [found];
    assert forall f | f in listing :: f in listing + [found];
  }
}
