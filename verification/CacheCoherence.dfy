/** The law of the asset cache: whatever is dropped, evicted, lost or refused on the way, a lookup that
    hits returns the decode, at the bound asked for, of the bytes last stored for that URL. */
module CacheCoherence {
  import opened Text
  import opened EntryFormat
  import opened MemoryKeys
  import opened ImageScaling
  import opened DiskIndex
  import opened CacheOperations

  /** The bytes last stored for each URL. */
  type Stored = map<Url, Bytes>

  /** What the claims are about: `apart` are the URLs and payloads that come up, whose digests differ;
      `trusted` are the URLs the cache answers for. */
  datatype Scope = Scope(apart: set<Bytes>, trusted: set<Url>)

  ghost predicate IsConfig(config: Config, scope: Scope) {
    IsDigest(config.sha) && CollisionFree(config.sha, scope.apart) && scope.trusted <= scope.apart
  }

  /** The image is the decode, at the bound, of the bytes last stored for the URL. */
  predicate IsLastDecode(config: Config, stored: Stored, url: Url, bound: Size, image: Image) {
    url in stored && config.decoder(stored[url], NormalizedBound(bound)) == Decoded(image)
  }

  // ---- The invariant, structure by structure ----

  ghost predicate MemoryAgrees(config: Config, scope: Scope, memory: map<Bytes, Image>, stored: Stored) {
    forall url, bound | url in scope.trusted && MemoryKey(url, bound) in memory ::
      IsLastDecode(config, stored, url, bound, memory[MemoryKey(url, bound)])
  }

  ghost predicate DigestsAgree(config: Config, scope: Scope, digests: map<Url, Bytes>, stored: Stored) {
    forall url | url in digests ::
      && url in scope.trusted && url in stored && stored[url] in scope.apart
      && digests[url] == config.sha(stored[url])
  }

  /** The file reads back as `bytes`, or not at all. */
  predicate Holds(config: Config, file: Bytes, bytes: Bytes) {
    var read := ReadEntry(file, config.maxEncodedBytes, config.sha);
    read.None? || read.value == bytes
  }

  predicate FileAgrees(config: Config, files: map<Name, Bytes>, stored: Stored, url: Url) {
    config.sha(url) in files && url in stored && Holds(config, files[config.sha(url)], stored[url])
  }

  ghost predicate IndexedFilesAgree(config: Config, scope: Scope, disk: Disk, stored: Stored) {
    forall url | url in scope.trusted && config.sha(url) in disk.index.entries ::
      FileAgrees(config, disk.files, stored, url)
  }

  /** The index is exact about the files it lists. */
  predicate SizesAgree(entries: map<Name, Entry>, files: map<Name, Bytes>) {
    forall name | name in entries :: name in files && |files[name]| == entries[name].size
  }

  /** The indexed files take no more room than allowed. */
  ghost predicate DiskSound(config: Config, disk: Disk) {
    && Valid(disk.index)
    && SizesAgree(disk.index.entries, disk.files)
    && disk.index.bytes <= config.diskMaxBytes
  }

  predicate DigestsBounded(config: Config, digests: map<Url, Bytes>) {
    |digests| <= if config.maxPayloadDigests < 1 then 1 else config.maxPayloadDigests
  }

  ghost predicate Coherent(config: Config, scope: Scope, cache: Cache, stored: Stored) {
    && (config.diskEnabled || cache.disk.index == EMPTY)
    && DigestsBounded(config, cache.digests)
    && MemoryAgrees(config, scope, cache.memory, stored)
    && DigestsAgree(config, scope, cache.digests, stored)
    && IndexedFilesAgree(config, scope, cache.disk, stored)
    && DiskSound(config, cache.disk)
  }

  // ---- The law for one lookup ----

  /** A hit for a trusted URL, from memory or from disk, is the decode of the last stored bytes. */
  lemma HitIsLastStored(config: Config, scope: Scope, cache: Cache, stored: Stored, url: Url, bound: Size,
                        c: Conditions)
    requires Coherent(config, scope, cache, stored) && url in scope.trusted
    requires Lookup(config, cache, url, bound, c).1.Hit?
    ensures IsLastDecode(config, stored, url, bound, Lookup(config, cache, url, bound, c).1.image)
  {
    if MemoryKey(url, bound) !in cache.memory {
      LookupDiskCases(config, cache, url, bound, c);
      assert FileAgrees(config, cache.disk.files, stored, url);
    }
  }

  /** The scope once a store has settled what the cache holds of `url`. */
  function Covering(scope: Scope, url: Url): Scope {
    scope.(trusted := scope.trusted + {url})
  }

  // ---- Memory ----

  lemma PromotedAgrees(config: Config, scope: Scope, memory: map<Bytes, Image>, stored: Stored, url: Url, bound: Size,
                       image: Image, c: Conditions)
    requires MemoryAgrees(config, scope, memory, stored)
    requires url in scope.trusted ==> IsLastDecode(config, stored, url, bound, image)
    ensures MemoryAgrees(config, scope, Promoted(memory, MemoryKey(url, bound), image, c), stored)
  {
    var after := Promoted(memory, MemoryKey(url, bound), image, c);
    forall u, b | u in scope.trusted && MemoryKey(u, b) in after
      ensures IsLastDecode(config, stored, u, b, after[MemoryKey(u, b)])
    {
      KeysInjective(u, b, url, bound);
    }
  }

  /** With the URL's keys gone, and only those, the rest agrees with the new bytes. */
  lemma WithoutUrlAgrees(config: Config, scope: Scope, memory: map<Bytes, Image>, stored: Stored, url: Url,
                         bytes: Bytes)
    requires MemoryAgrees(config, scope, memory, stored)
    ensures MemoryAgrees(config, Covering(scope, url), WithoutUrl(memory, url), stored[url := bytes])
  {
    var (after, now) := (WithoutUrl(memory, url), stored[url := bytes]);
    forall u, b | u in Covering(scope, url).trusted && MemoryKey(u, b) in after
      ensures IsLastDecode(config, now, u, b, after[MemoryKey(u, b)])
    {
      KeyBelongs(u, b, url);
    }
  }

  lemma StoreInMemoryAgrees(config: Config, scope: Scope, cache: Cache, stored: Stored, url: Url, bytes: Bytes,
                            bound: Size,
                            image: Image, c: Conditions)
    requires IsConfig(config, scope) && url in scope.apart && bytes in scope.apart
    requires MemoryAgrees(config, scope, cache.memory, stored) && DigestsAgree(config, scope, cache.digests, stored)
    requires config.decoder(bytes, NormalizedBound(bound)) == Decoded(image)
    ensures var (after, covering) := (StoreInMemory(config, cache, url, bytes, bound, image, c), Covering(scope, url));
            && MemoryAgrees(config, covering, after.memory, stored[url := bytes])
            && DigestsAgree(config, covering, after.digests, stored[url := bytes])
  {
    var covering := Covering(scope, url);
    if Known(cache.digests, url, config.sha(bytes)) {
      assert stored[url] == bytes;
      assert stored[url := bytes] == stored && covering == scope;
      PromotedAgrees(config, scope, cache.memory, stored, url, bound, image, c);
    } else {
      WithoutUrlAgrees(config, scope, cache.memory, stored, url, bytes);
      PromotedAgrees(config, covering, WithoutUrl(cache.memory, url), stored[url := bytes], url, bound, image, c);
    }
  }

  /** What a store leaves in memory: its own image if it is kept; of the URL's other bounds, all if the
      bytes are known to be the same and none otherwise; of other URLs everything, short of what is
      dropped to make room. */
  lemma StoreLeavesInMemory(config: Config, scope: Scope, cache: Cache, stored: Stored, url: Url, bytes: Bytes,
                            bound: Size, image: Image, c: Conditions,
                            u: Url, b: Size)
    requires IsConfig(config, scope) && bytes in scope.apart && DigestsAgree(config, scope, cache.digests, stored)
    ensures var (key, after) := (MemoryKey(u, b), StoreInMemory(config, cache, url, bytes, bound, image, c).memory);
            var own := c.kept && u == url && NormalizedBound(b) == NormalizedBound(bound);
            var stays := && key in cache.memory && !(c.kept && key in c.dropped)
                         && (u == url ==> url in cache.digests && stored[url] == bytes);
            && (key in after <==> own || stays) && (own ==> after[key] == image)
            && (!own && stays ==> after[key] == cache.memory[key])
  {
    KeysInjective(u, b, url, bound);
    KeyBelongs(u, b, url);
    if url in cache.digests {
      assert Known(cache.digests, url, config.sha(bytes)) <==> stored[url] == bytes;
    }
  }

  lemma RememberedIsBounded(config: Config, digests: map<Url, Bytes>, url: Url, digest: Bytes)
    requires DigestsBounded(config, digests)
    ensures DigestsBounded(config, Remembered(config, digests, url, digest))
  {
    if url in digests {
      assert digests[url := digest].Keys == digests.Keys;
      assert |digests[url := digest]| == |digests[url := digest].Keys|;
    } else {
      assert digests[url := digest].Keys == digests.Keys + {url};
      assert |digests[url := digest]| == |digests[url := digest].Keys|;
    }
  }

  // ---- Disk ----

  lemma DropEntryKeeps(config: Config, scope: Scope, disk: Disk, stored: Stored, name: Name, stuck: set<Name>)
    requires DiskSound(config, disk) && IndexedFilesAgree(config, scope, disk, stored)
    ensures DiskSound(config, DropEntry(disk, name, stuck))
      && IndexedFilesAgree(config, scope, DropEntry(disk, name, stuck), stored)
  {
    DropKeeps(disk.index, name);
  }

  lemma {:induction false} EvictedIsPart(x: Index, limit: int)
    requires Valid(x)
    ensures forall name | name in Evicted(x, limit).entries ::
      name in x.entries && Evicted(x, limit).entries[name] == x.entries[name]
    decreases |x.queue|
  {
    if x.bytes <= limit || x.queue == [] {
    } else {
      DropOldest(x);
      EvictedIsPart(Drop(x, x.queue[0].name), limit);
    }
  }

  lemma EvictKeeps(config: Config, scope: Scope, disk: Disk, stored: Stored, stuck: set<Name>)
    requires Valid(disk.index) && SizesAgree(disk.index.entries, disk.files)
      && IndexedFilesAgree(config, scope, disk, stored)
    ensures var after := EvictIfNeeded(disk, config.diskMaxBytes, stuck);
            DiskSound(config, after) && IndexedFilesAgree(config, scope, after, stored)
  {
    EvictedIsPart(disk.index, config.diskMaxBytes);
    var n := EvictionIsShortestPrefix(disk.index, config.diskMaxBytes);
    var after := EvictIfNeeded(disk, config.diskMaxBytes, stuck);
    assert after.index.bytes == Total(after.index.entries);
    forall url | url in scope.trusted && config.sha(url) in after.index.entries
      ensures FileAgrees(config, after.files, stored, url)
    {
      assert FileAgrees(config, disk.files, stored, url);
    }
  }

  lemma DroppedSound(config: Config, disk: Disk, files: map<Name, Bytes>, name: Name, stuck: set<Name>)
    requires DiskSound(config, disk)
    requires forall other | other in disk.files && other != name :: other in files && files[other] == disk.files[other]
    ensures DiskSound(config, DropEntry(disk.(files := files), name, stuck))
    ensures DropEntry(disk.(files := files), name, stuck).index.entries == disk.index.entries - {name}
  {
    DropKeeps(disk.index, name);
  }

  /** The entry of one URL gone, the others agree with whatever that URL now stores. */
  lemma DroppedForUrl(config: Config, scope: Scope, disk: Disk, files: map<Name, Bytes>, stored: Stored, url: Url,
                      bytes: Bytes, stuck: set<Name>)
    requires IsConfig(config, scope) && url in scope.apart
    requires DiskSound(config, disk) && IndexedFilesAgree(config, scope, disk, stored)
    requires forall name | name in disk.files && name != config.sha(url) ::
               name in files && files[name] == disk.files[name]
    ensures var after := DropEntry(disk.(files := files), config.sha(url), stuck);
            DiskSound(config, after) && IndexedFilesAgree(config, Covering(scope, url), after, stored[url := bytes])
  {
    DroppedSound(config, disk, files, config.sha(url), stuck);
    var after := DropEntry(disk.(files := files), config.sha(url), stuck);
    forall u | u in Covering(scope, url).trusted && config.sha(u) in after.index.entries
      ensures FileAgrees(config, after.files, stored[url := bytes], u)
    {
      assert FileAgrees(config, disk.files, stored, u);
    }
  }

  lemma WrittenFileHolds(config: Config, bytes: Bytes, contentType: Bytes, now: nat)
    requires IsDigest(config.sha) && now <= MAX_INT64
    ensures Holds(config, EntryFile(bytes, config.sha(bytes), contentType, now), bytes)
  {
    EntryRoundTrip(bytes, contentType, now, config.maxEncodedBytes, config.sha);
  }

  lemma StoreDiskKeeps(config: Config, scope: Scope, disk: Disk, stored: Stored, url: Url, bytes: Bytes,
                       contentType: Bytes, c: Conditions)
    requires IsConfig(config, scope) && url in scope.apart && c.now <= MAX_INT64
    requires DiskSound(config, disk) && IndexedFilesAgree(config, scope, disk, stored)
    ensures var after := StoreDisk(config, disk, config.sha(url), bytes, contentType, c);
            DiskSound(config, after) && IndexedFilesAgree(config, Covering(scope, url), after, stored[url := bytes])
  {
    var (name, file) := (config.sha(url), EntryFile(bytes, config.sha(bytes), contentType, c.now));
    if |file| > config.diskMaxBytes {
      DroppedForUrl(config, scope, disk, disk.files, stored, url, bytes, c.stuck);
    } else if !c.writes {
      var files := if c.truncates then disk.files[name := []] else disk.files;
      DroppedForUrl(config, scope, disk, files, stored, url, bytes, c.stuck);
    } else {
      EnterKeeps(disk.index, name, |file|);
      var entered := Disk(Enter(disk.index, name, |file|), disk.files[name := file]);
      forall u | u in Covering(scope, url).trusted && config.sha(u) in entered.index.entries
        ensures FileAgrees(config, entered.files, stored[url := bytes], u)
      {
        if u == url {
          WrittenFileHolds(config, bytes, contentType, c.now);
        } else {
          assert FileAgrees(config, disk.files, stored, u);
        }
      }
      EvictKeeps(config, Covering(scope, url), entered, stored[url := bytes], c.stuck);
    }
  }

  /** A name touched, or entered again at its own size, leaves the byte count. */
  lemma EnterSame(config: Config, scope: Scope, disk: Disk, stored: Stored, name: Name)
    requires DiskSound(config, disk) && IndexedFilesAgree(config, scope, disk, stored) && name in disk.index.entries
    ensures var after := disk.(index := Enter(disk.index, name, |disk.files[name]|));
            DiskSound(config, after) && IndexedFilesAgree(config, scope, after, stored)
  {
    EnterKeeps(disk.index, name, |disk.files[name]|);
  }

  lemma TouchSame(config: Config, scope: Scope, disk: Disk, stored: Stored, name: Name)
    requires DiskSound(config, disk) && IndexedFilesAgree(config, scope, disk, stored)
    ensures var after := disk.(index := Touch(disk.index, name));
            DiskSound(config, after) && IndexedFilesAgree(config, scope, after, stored)
  {
    TouchKeeps(disk.index, name);
  }

  // ---- What every operation keeps ----

  /** The caches lookupDisk can leave: untouched, without the entry, or with a hit noted. */
  function Noticed(config: Config, cache: Cache, url: Url, bound: Size, image: Image, c: Conditions): Cache
    requires config.sha(url) in cache.disk.files
  {
    var name := config.sha(url);
    cache.(disk := cache.disk.(index := Enter(cache.disk.index, name, |cache.disk.files[name]|)),
           memory := Promoted(cache.memory, MemoryKey(url, bound), image, c))
  }

  lemma LookupDiskCases(config: Config, cache: Cache, url: Url, bound: Size, c: Conditions)
    ensures var (after, r) := LookupDisk(config, cache, url, bound, c);
            if r.Hit?
            then
              && config.sha(url) in cache.disk.index.entries && config.sha(url) in cache.disk.files
              && var payload := ReadEntry(cache.disk.files[config.sha(url)], config.maxEncodedBytes, config.sha);
              && payload.Some? && config.decoder(payload.value, NormalizedBound(bound)) == Decoded(r.image)
              && after == Noticed(config, cache, url, bound, r.image, c)
            else after == cache || after == cache.(disk := DropEntry(cache.disk, config.sha(url), c.stuck))
  {
  }

  lemma NoticedKeeps(config: Config, scope: Scope, cache: Cache, stored: Stored, url: Url, bound: Size, image: Image,
                     c: Conditions)
    requires Coherent(config, scope, cache, stored) && config.sha(url) in cache.disk.index.entries
    requires url in scope.trusted ==> IsLastDecode(config, stored, url, bound, image)
    ensures Coherent(config, scope, Noticed(config, cache, url, bound, image, c), stored)
  {
    EnterSame(config, scope, cache.disk, stored, config.sha(url));
    PromotedAgrees(config, scope, cache.memory, stored, url, bound, image, c);
  }

  lemma LookupDiskKeeps(config: Config, scope: Scope, cache: Cache, stored: Stored, url: Url, bound: Size,
                        c: Conditions, after: Cache, r: LookupResult)
    requires Coherent(config, scope, cache, stored) && config.diskEnabled
    requires (after, r) == LookupDisk(config, cache, url, bound, c)
    ensures Coherent(config, scope, after, stored)
  {
    LookupDiskCases(config, cache, url, bound, c);
    if r.Hit? {
      assert url in scope.trusted ==> FileAgrees(config, cache.disk.files, stored, url);
      NoticedKeeps(config, scope, cache, stored, url, bound, r.image, c);
    } else {
      DropEntryKeeps(config, scope, cache.disk, stored, config.sha(url), c.stuck);
    }
  }

  lemma LookupKeeps(config: Config, scope: Scope, cache: Cache, stored: Stored, url: Url, bound: Size, c: Conditions)
    requires Coherent(config, scope, cache, stored)
    ensures Coherent(config, scope, Lookup(config, cache, url, bound, c).0, stored)
  {
    if MemoryKey(url, bound) in cache.memory {
      TouchSame(config, scope, cache.disk, stored, config.sha(url));
    } else if config.diskEnabled {
      var (after, r) := LookupDisk(config, cache, url, bound, c);
      LookupDiskKeeps(config, scope, cache, stored, url, bound, c, after, r);
    }
  }

  /** What the last stored bytes are after an operation whose outcome is `outcome`. */
  function Renewed(stored: Stored, url: Url, bytes: Bytes, outcome: Outcome): Stored {
    if outcome.Decoded? then stored[url := bytes] else stored
  }

  /** And the URLs it answers for. */
  function Widened(scope: Scope, url: Url, outcome: Outcome): Scope {
    if outcome.Decoded? then Covering(scope, url) else scope
  }

  lemma StoreKeeps(config: Config, scope: Scope, cache: Cache, stored: Stored, url: Url, bytes: Bytes,
                   contentType: Bytes,
                   bound: Size, c: Conditions)
    requires IsConfig(config, scope) && url in scope.apart && bytes in scope.apart
    requires c.now <= MAX_INT64 && Coherent(config, scope, cache, stored)
    ensures var r := Store(config, cache, url, bytes, contentType, bound, c);
            Coherent(config, Widened(scope, url, r.1), r.0, Renewed(stored, url, bytes, r.1))
  {
    var (after, outcome) := Store(config, cache, url, bytes, contentType, bound, c);
    if outcome.Decoded? {
      RememberedIsBounded(config, cache.digests, url, config.sha(bytes));
      StoreInMemoryAgrees(config, scope, cache, stored, url, bytes, bound, outcome.image, c);
      var inMemory := StoreInMemory(config, cache, url, bytes, bound, outcome.image, c);
      assert after.memory == inMemory.memory && after.digests == inMemory.digests;
      if config.diskEnabled {
        StoreDiskKeeps(config, scope, cache.disk, stored, url, bytes, contentType, c);
      } else {
        assert after.disk == cache.disk && cache.disk.index == EMPTY;
      }
    }
  }

  lemma StoreMemoryOnlyKeeps(config: Config, scope: Scope, cache: Cache, stored: Stored, url: Url, bytes: Bytes,
                             bound: Size, c: Conditions)
    requires Coherent(config, scope, cache, stored) && url in stored && stored[url] == bytes
    ensures Coherent(config, scope, StoreMemoryOnly(config, cache, url, bytes, bound, c).0, stored)
  {
    var outcome := StoreMemoryOnly(config, cache, url, bytes, bound, c).1;
    if outcome.Decoded? {
      PromotedAgrees(config, scope, cache.memory, stored, url, bound, outcome.image, c);
    }
  }

  lemma ClearMemoryKeeps(config: Config, scope: Scope, cache: Cache, stored: Stored)
    requires Coherent(config, scope, cache, stored)
    ensures Coherent(config, scope, ClearMemory(cache), stored)
  {
  }
}
