/** AssetCache.cpp on values: what each operation of the cache does to its memory, its digest table, its
    disk index and the files. */
module CacheOperations {
  import opened Text
  import opened EntryFormat
  import opened MemoryKeys
  import opened ImageScaling
  import opened DiskIndex

  /** Decoded pixels. */
  type Image = Bytes

  /** Every decode error but the first two is fixed for the bytes. */
  datatype Failure = AllocationFailed | InvalidLimits | Rejected

  datatype Outcome = Decoded(image: Image) | Failed(failure: Failure)

  datatype Config = Config(
    diskEnabled: bool, diskMaxBytes: nat, maxPayloadDigests: int,
    maxEncodedBytes: nat, limitsValid: bool, sha: Digest, decoder: (Bytes, Size) -> Outcome)

  /** What the surroundings do during one operation: memory pressure, whether QCache takes the image
      and what it drops for it, and how each access to the file system ends. */
  datatype Conditions = Conditions(
    pressure: bool, kept: bool, dropped: set<Bytes>,
    opens: bool, readsAll: bool, writes: bool, truncates: bool, stuck: set<Name>, now: nat)

  /** The index and the files of the cache directory. */
  datatype Disk = Disk(index: Index, files: map<Name, Bytes>)

  datatype Cache = Cache(memory: map<Bytes, Image>, digests: map<Url, Bytes>, disk: Disk)

  datatype LookupResult = Miss | Hit(fromDisk: bool, image: Image)

  const FRESH := Cache(map[], map[], Disk(EMPTY, map[]))

  /** The decoder sees the bound normalized. */
  function Decode(config: Config, bytes: Bytes, bound: Size, pressure: bool): Outcome {
    if pressure then Failed(AllocationFailed) else config.decoder(bytes, NormalizedBound(bound))
  }

  // ---- Memory ----

  /** promoteToMemory. */
  function Promoted(memory: map<Bytes, Image>, key: Bytes, image: Image, c: Conditions): map<Bytes, Image> {
    if c.kept then (memory - c.dropped)[key := image] else memory
  }

  /** removeMemoryEntriesForUrl. */
  function WithoutUrl(memory: map<Bytes, Image>, url: Url): map<Bytes, Image> {
    map key | key in memory && !BelongsTo(key, url) :: memory[key]
  }

  predicate Known(digests: map<Url, Bytes>, url: Url, digest: Bytes) {
    url in digests && digests[url] == digest
  }

  /** The digest table once `url` has a new digest; a full table is forgotten first. */
  function Remembered(config: Config, digests: map<Url, Bytes>, url: Url, digest: Bytes): map<Url, Bytes> {
    if url !in digests && |digests| >= config.maxPayloadDigests then map[url := digest]
    else digests[url := digest]
  }

  // ---- Disk ----

  /** removeDiskEntry. */
  function DropEntry(disk: Disk, name: Name, stuck: set<Name>): Disk {
    Disk(Drop(disk.index, name), if name in stuck then disk.files else disk.files - {name})
  }

  /** evictIfNeeded. */
  function EvictIfNeeded(disk: Disk, limit: nat, stuck: set<Name>): Disk {
    var index := Evicted(disk.index, limit);
    Disk(index, disk.files - (disk.index.entries.Keys - index.entries.Keys - stuck))
  }

  /** storeDisk. */
  function StoreDisk(config: Config, disk: Disk, name: Name, bytes: Bytes, contentType: Bytes, c: Conditions): Disk {
    var file := EntryFile(bytes, config.sha(bytes), contentType, c.now);
    if |file| > config.diskMaxBytes then DropEntry(disk, name, c.stuck)
    else if !c.writes then
      DropEntry(disk.(files := if c.truncates then disk.files[name := []] else disk.files), name, c.stuck)
    else
      EvictIfNeeded(Disk(Enter(disk.index, name, |file|), disk.files[name := file]), config.diskMaxBytes, c.stuck)
  }

  // ---- The public operations ----

  predicate BadSize(config: Config, files: map<Name, Bytes>, name: Name) {
    name !in files || |files[name]| == 0 || |files[name]| > config.maxEncodedBytes + MAX_HEADER_BYTES
  }

  function LookupDisk(config: Config, cache: Cache, url: Url, bound: Size, c: Conditions): (Cache, LookupResult) {
    var name := config.sha(url);
    var dropped := cache.(disk := DropEntry(cache.disk, name, c.stuck));
    if name !in cache.disk.index.entries || !config.limitsValid then (cache, Miss)
    else if BadSize(config, cache.disk.files, name) then (dropped, Miss)
    else if !c.opens then (cache, Miss)
    else if !c.readsAll then (dropped, Miss)
    else
      var file := cache.disk.files[name];
      var payload := ReadEntry(file, config.maxEncodedBytes, config.sha);
      if payload.None? then (dropped, Miss)
      else
        match Decode(config, payload.value, bound, c.pressure)
        case Decoded(image) =>
          (cache.(disk := cache.disk.(index := Enter(cache.disk.index, name, |file|)),
                  memory := Promoted(cache.memory, MemoryKey(url, bound), image, c)),
           Hit(true, image))
        case Failed(failure) =>
          (if failure.Rejected? then dropped else cache, Miss)
  }

  function Lookup(config: Config, cache: Cache, url: Url, bound: Size, c: Conditions): (Cache, LookupResult) {
    var key := MemoryKey(url, bound);
    if key in cache.memory then
      (cache.(disk := cache.disk.(index := Touch(cache.disk.index, config.sha(url)))), Hit(false, cache.memory[key]))
    else if config.diskEnabled then LookupDisk(config, cache, url, bound, c)
    else (cache, Miss)
  }

  function StoreInMemory(config: Config, cache: Cache, url: Url, bytes: Bytes, bound: Size, image: Image,
                         c: Conditions): Cache {
    var digest := config.sha(bytes);
    var known := Known(cache.digests, url, digest);
    cache.(
      memory := Promoted(if known then cache.memory else WithoutUrl(cache.memory, url),
                         MemoryKey(url, bound), image, c),
      digests := if known then cache.digests else Remembered(config, cache.digests, url, digest))
  }

  function Store(config: Config, cache: Cache, url: Url, bytes: Bytes, contentType: Bytes, bound: Size, c: Conditions)
    : (Cache, Outcome)
  {
    match Decode(config, bytes, bound, c.pressure)
    case Failed(failure) => (cache, Failed(failure))
    case Decoded(image) =>
      var stored := StoreInMemory(config, cache, url, bytes, bound, image, c);
      (if config.diskEnabled
       then stored.(disk := StoreDisk(config, cache.disk, config.sha(url), bytes, contentType, c))
       else stored,
       Decoded(image))
  }

  function StoreMemoryOnly(config: Config, cache: Cache, url: Url, bytes: Bytes, bound: Size, c: Conditions)
    : (Cache, Outcome)
  {
    match Decode(config, bytes, bound, c.pressure)
    case Failed(failure) => (cache, Failed(failure))
    case Decoded(image) => (cache.(memory := Promoted(cache.memory, MemoryKey(url, bound), image, c)), Decoded(image))
  }

  function ClearMemory(cache: Cache): Cache {
    cache.(memory := map[], digests := map[])
  }

  // ---- Start-up ----

  /** `listing` is what the cache directory holds. */
  ghost predicate Lists(listing: seq<Found>, files: map<Name, Bytes>) {
    && DistinctFiles(listing)
    && (forall i | 0 <= i < |listing| :: listing[i].name in files && |files[listing[i].name]| == listing[i].size)
    && forall name | name in files :: exists i | 0 <= i < |listing| :: listing[i].name == name
  }

  function Strays(listing: seq<Found>): set<Name> {
    set found | found in listing && !IsEntryFile(found) :: found.name
  }

  /** openDiskCache: buildIndex, then evictIfNeeded. */
  function Opened(config: Config, files: map<Name, Bytes>, listing: seq<Found>, stuck: set<Name>): Disk {
    EvictIfNeeded(Disk(Built(listing, 1), files - (Strays(listing) - stuck)), config.diskMaxBytes, stuck)
  }

  /** A new cache over the files the last one left behind. */
  function Restarted(config: Config, cache: Cache, listing: seq<Found>, stuck: set<Name>): Cache {
    Cache(map[], map[], if config.diskEnabled then Opened(config, cache.disk.files, listing, stuck)
                        else Disk(EMPTY, cache.disk.files))
  }
}
