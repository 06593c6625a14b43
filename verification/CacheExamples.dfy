/** What the asset cache's law does not say by itself: that stored bytes are served, that the hypotheses
    of the law are met by runs that hit, and that a stale file does come back. */
module CacheExamples {
  import opened Text
  import opened EntryFormat
  import opened MemoryKeys
  import opened ImageScaling
  import opened DiskIndex
  import opened Wrappers
  import opened CacheOperations
  import opened CacheCoherence
  import opened CacheRuns

  // ---- Stored bytes are served ----

  /** A reader with these limits takes the entry, and the cache has room for it. */
  predicate Readable(config: Config, bytes: Bytes, contentType: Bytes, now: nat) {
    var header := BuildHeader(bytes, config.sha(bytes), contentType, now);
    && |header| - 2 <= MAX_HEADER_BYTES && |bytes| <= config.maxEncodedBytes && |bytes| <= MAX_INT64
    && |header| + |bytes| <= config.maxEncodedBytes + MAX_HEADER_BYTES
    && |header| + |bytes| <= config.diskMaxBytes && now <= MAX_INT64
  }

  predicate ReadsDisk(config: Config) {
    config.diskEnabled && config.limitsValid
  }

  predicate Undisturbed(c: Conditions) {
    c.opens && c.readsAll && !c.pressure
  }

  /** What a lookup that reads the payload from disk should return. */
  function Served(config: Config, payload: Bytes, bound: Size): LookupResult {
    match config.decoder(payload, NormalizedBound(bound))
    case Decoded(image) => Hit(true, image)
    case Failed(_) => Miss
  }

  /** An indexed file that a store wrote is served at any bound. */
  lemma ServedFromDisk(config: Config, cache: Cache, url: Url, payload: Bytes, contentType: Bytes, now: nat,
                       bound: Size, c: Conditions)
    requires IsDigest(config.sha) && Readable(config, payload, contentType, now)
    requires ReadsDisk(config) && Undisturbed(c) && MemoryKey(url, bound) !in cache.memory
    requires config.sha(url) in cache.disk.index.entries && config.sha(url) in cache.disk.files
    requires cache.disk.files[config.sha(url)] == EntryFile(payload, config.sha(payload), contentType, now)
    ensures Lookup(config, cache, url, bound, c).1 == Served(config, payload, bound)
  {
    EntryRoundTrip(payload, contentType, now, config.maxEncodedBytes, config.sha);
  }

  /** A store whose entry is written and can be read serves every bound afterwards, even with the
      memory cleared: eviction never takes the entry just stored. */
  lemma StoredIsServed(config: Config, cache: Cache, url: Url, bytes: Bytes, contentType: Bytes, bound: Size,
                       c: Conditions, other: Size, later: Conditions)
    requires IsDigest(config.sha) && ReadsDisk(config) && DiskSound(config, cache.disk)
    requires c.writes && Readable(config, bytes, contentType, c.now)
    requires Decode(config, bytes, bound, c.pressure).Decoded? && Undisturbed(later)
    ensures var after := ClearMemory(Store(config, cache, url, bytes, contentType, bound, c).0);
            Lookup(config, after, url, other, later).1 == Served(config, bytes, other)
  {
    var (name, file) := (config.sha(url), EntryFile(bytes, config.sha(bytes), contentType, c.now));
    EnteredSurvives(cache.disk.index, name, |file|, config.diskMaxBytes);
    var disk := StoreDisk(config, cache.disk, name, bytes, contentType, c);
    assert name in disk.index.entries && name in disk.files && disk.files[name] == file;
    var after := ClearMemory(Store(config, cache, url, bytes, contentType, bound, c).0);
    ServedFromDisk(config, after, url, bytes, contentType, c.now, other, later);
  }

  /** A directory within the limit is indexed whole. */
  lemma OpenedKeeps(config: Config, files: map<Name, Bytes>, listing: seq<Found>, stuck: set<Name>, name: Name)
    requires Lists(listing, files) && NotedAll(listing).bytes <= config.diskMaxBytes
    requires IsLowerHex64(name) && name in files && files[name] != []
    ensures var disk := Opened(config, files, listing, stuck);
            name in disk.index.entries && name in disk.files && disk.files[name] == files[name]
  {
    var i :| 0 <= i < |listing| && listing[i].name == name;
    EveryFound(listing, i);
    NotStray(listing, i);
  }

  /** A file a store leaves behind is indexed by the next process and served again. */
  lemma OldFileComesBack(config: Config, cache: Cache, url: Url, past: Bytes, pastType: Bytes, pastNow: nat,
                         bytes: Bytes, contentType: Bytes, bound: Size, c: Conditions,
                         listing: seq<Found>, stuck: set<Name>, later: Conditions)
    requires IsDigest(config.sha) && ReadsDisk(config) && Undisturbed(later)
    requires LeavesOldFile(config, config.sha(url), EntryFile(bytes, config.sha(bytes), contentType, c.now), c)
    requires Readable(config, past, pastType, pastNow) && config.sha(url) in cache.disk.files
    requires cache.disk.files[config.sha(url)] == EntryFile(past, config.sha(past), pastType, pastNow)
    requires Lists(listing, cache.disk.files) && NotedAll(listing).bytes <= config.diskMaxBytes
    ensures var after := Store(config, cache, url, bytes, contentType, bound, c).0;
            && after.disk.files == cache.disk.files
            && Lookup(config, Restarted(config, after, listing, stuck), url, bound, later).1 ==
                 Served(config, past, bound)
  {
    var name := config.sha(url);
    StoreDiskFiles(config, cache.disk, name, bytes, contentType, c);
    var after := Store(config, cache, url, bytes, contentType, bound, c).0;
    assert after.disk.files == cache.disk.files;
    OpenedKeeps(config, after.disk.files, listing, stuck, name);
    ServedFromDisk(config, Restarted(config, after, listing, stuck), url, past, pastType, pastNow, bound, later);
  }

  // ---- Runs ----

  /** A first store of a run. */
  predicate IsGoodPut(config: Config, e: Event) {
    && e.op.Put? && e.c.writes && Readable(config, e.op.bytes, e.op.contentType, e.c.now)
    && Stores(config, e, e.op.url)
  }

  lemma FirstFile(config: Config, name: Name, bytes: Bytes, contentType: Bytes, c: Conditions)
    requires c.writes && Readable(config, bytes, contentType, c.now)
    ensures StoreDisk(config, Disk(EMPTY, map[]), name, bytes, contentType, c).files
            == map[name := EntryFile(bytes, config.sha(bytes), contentType, c.now)]
  {
    var file := EntryFile(bytes, config.sha(bytes), contentType, c.now);
    EmptyIsSound();
    EnterKeeps(EMPTY, name, |file|);
    TotalOfOne(name, Entry(|file|, EMPTY.next));
    assert Enter(EMPTY, name, |file|).bytes == |file|;
  }

  /** The file a store writes. */
  function FileOf(config: Config, e: Event): Bytes
    requires e.op.Put?
  {
    EntryFile(e.op.bytes, config.sha(e.op.bytes), e.op.contentType, e.c.now)
  }

  /** The run of one store: its file is all there is. */
  lemma OnePut(config: Config, e: Event)
    requires IsDigest(config.sha) && ReadsDisk(config) && IsGoodPut(config, e)
    ensures IsRun(config, [e]) && After(config, [e]) == Step(config, FRESH, e)
    ensures After(config, [e]).disk.files == map[config.sha(e.op.url) := FileOf(config, e)]
  {
    assert [e][..0] == [] && [] + [e] == [e];
    RunExtended(config, [], e);
    FirstFile(config, config.sha(e.op.url), e.op.bytes, e.op.contentType, e.c);
  }

  lemma OnePutHistory(config: Config, e: Event)
    requires IsGoodPut(config, e)
    ensures Trusted(config, [e], e.op.url) && Occurring([e]) == {e.op.url, e.op.bytes}
    ensures LastStored(config, [e], e.op.url) == Some(e.op.bytes)
  {
    assert [e][..0] == [];
  }

  lemma TotalOfOne(name: Name, entry: Entry)
    ensures Total(map[name := entry]) == entry.size
  {
    var none: map<Name, Entry> := map[];
    TotalWith(none, name, entry);
    assert none[name := entry] == map[name := entry] && none - {name} == none;
  }

  /** Store, clear, look up: a run under all hypotheses of the law, and the lookup hits. */
  lemma RunThatHits(config: Config, e: Event, other: Size, c: Conditions, later: Conditions)
    requires IsDigest(config.sha) && ReadsDisk(config) && IsGoodPut(config, e)
    requires CollisionFree(config.sha, {e.op.url, e.op.bytes}) && c.now <= MAX_INT64 && Undisturbed(later)
    ensures var events := [e, Event(Clear, c)];
            && IsRun(config, events) && Trusted(config, events, e.op.url)
            && CollisionFree(config.sha, Occurring(events) + {e.op.url})
            && LastStored(config, events, e.op.url) == Some(e.op.bytes)
            && Lookup(config, After(config, events), e.op.url, other, later).1 == Served(config, e.op.bytes, other)
  {
    var clear := Event(Clear, c);
    OnePut(config, e);
    OnePutHistory(config, e);
    assert [e] + [clear] == [e, clear] && [e, clear][..1] == [e] && [e][..0] == [];
    RunExtended(config, [e], clear);
    assert Occurring([e, clear]) == Occurring([e]);
    assert Occurring([e, clear]) + {e.op.url} == {e.op.url, e.op.bytes};
    EmptyIsSound();
    StoredIsServed(config, FRESH, e.op.url, e.op.bytes, e.op.contentType, e.op.bound, e.c, other, later);
  }

  /** The directory that holds one file. */
  function ListingOf(name: Name, file: Bytes): seq<Found> {
    [Found(name, |file|, 1)]
  }

  lemma ListsOne(name: Name, file: Bytes)
    ensures Lists(ListingOf(name, file), map[name := file])
    ensures IsLowerHex64(name) && file != [] ==> NotedAll(ListingOf(name, file)).bytes == |file|
  {
    var listing := ListingOf(name, file);
    assert listing[0].name == name;
    assert listing[..0] == [];
  }

  /** A second store of the URL, of other bytes, that can do nothing about the first one's file. */
  predicate IsStuckPut(config: Config, e: Event, f: Event) {
    && e.op.Put? && f.op.Put? && f.op.url == e.op.url && f.op.bytes != e.op.bytes
    && Stores(config, f, f.op.url) && LeavesOldFile(config, config.sha(f.op.url), FileOf(config, f), f.c)
    && f.c.now <= MAX_INT64
  }

  lemma TwoPuts(config: Config, e: Event, f: Event)
    requires IsDigest(config.sha) && ReadsDisk(config) && IsGoodPut(config, e) && IsStuckPut(config, e, f)
    ensures IsRun(config, [e, f]) && After(config, [e, f]) == Step(config, After(config, [e]), f)
    ensures After(config, [e, f]).disk.files == map[config.sha(e.op.url) := FileOf(config, e)]
  {
    OnePut(config, e);
    assert [e] + [f] == [e, f];
    RunExtended(config, [e], f);
    StoreDiskFiles(config, After(config, [e]).disk, config.sha(f.op.url), f.op.bytes, f.op.contentType, f.c);
  }

  lemma TwoPutsHistory(config: Config, e: Event, f: Event)
    requires e.op.Put? && Stores(config, f, e.op.url)
    ensures LastStored(config, [e, f], e.op.url) == Some(f.op.bytes)
  {
  }

  lemma OldFileIsStale(config: Config, e: Event, f: Event, files: map<Name, Bytes>)
    requires IsDigest(config.sha) && ReadsDisk(config) && IsGoodPut(config, e) && IsStuckPut(config, e, f)
    requires files == map[config.sha(e.op.url) := FileOf(config, e)]
    ensures LeavesStaleFile(config, files, e.op.url, f.op.bytes, f.op.contentType, f.c)
  {
    EntryRoundTrip(e.op.bytes, e.op.contentType, e.c.now, config.maxEncodedBytes, config.sha);
  }

  lemma TwoPutsAreStale(config: Config, e: Event, f: Event)
    requires IsDigest(config.sha) && ReadsDisk(config) && IsGoodPut(config, e) && IsStuckPut(config, e, f)
    ensures Stale(config, [e, f], e.op.url)
  {
    assert [e, f][..1] == [e];
    OnePut(config, e);
    OldFileIsStale(config, e, f, After(config, [e]).disk.files);
  }

  /** Why the law is per URL and speaks of stale files: store `e`, store other bytes while the file can be
      neither written, emptied nor removed, restart, look up. The run is allowed, its last stored bytes
      are the new ones, and the lookup returns the old. */
  lemma StaleRun(config: Config, e: Event, f: Event, c: Conditions, later: Conditions)
    requires IsDigest(config.sha) && ReadsDisk(config) && IsGoodPut(config, e) && IsStuckPut(config, e, f)
    requires c.now <= MAX_INT64 && Undisturbed(later)
    ensures var url := e.op.url;
            var events := [e, f, Event(Restart(ListingOf(config.sha(url), FileOf(config, e))), c)];
            && IsRun(config, events) && LastStored(config, events, url) == Some(f.op.bytes)
            && !Trusted(config, events, url)
            && Lookup(config, After(config, events), url, f.op.bound, later).1 == Served(config, e.op.bytes, f.op.bound)
  {
    var (url, listing) := (e.op.url, ListingOf(config.sha(e.op.url), FileOf(config, e)));
    var restart := Event(Restart(listing), c);
    assert [e, f] + [restart] == [e, f, restart] && [e, f, restart][..2] == [e, f];
    OnePut(config, e);
    TwoPuts(config, e, f);
    TwoPutsHistory(config, e, f);
    TwoPutsAreStale(config, e, f);
    ListsOne(config.sha(url), FileOf(config, e));
    RunExtended(config, [e, f], restart);
    OldFileComesBack(config, After(config, [e]), url, e.op.bytes, e.op.contentType, e.c.now, f.op.bytes,
                     f.op.contentType, f.op.bound, f.c, listing, c.stuck, later);
  }

  // ---- A configuration that meets the hypotheses ----

  /** Digests of sixty-four equal digits, apart for the three strings of the example. */
  function ExampleDigest(b: Bytes): Bytes {
    seq(64, i => if b == "u" then '0' else if b == "v" then '1' else if b == "w" then '2' else '3')
  }

  const EXAMPLE := Config(true, 10000, 10, 10000, true, ExampleDigest, (bytes, bound) => Decoded(bytes))
  const CALM := Conditions(false, true, {}, true, true, true, true, {}, 1)
  const BROKEN := CALM.(writes := false, truncates := false, stuck := {ExampleDigest("u")})

  function ExamplePut(bytes: Bytes, c: Conditions): Event {
    Event(Put("u", bytes, "", FULL_SIZE), c)
  }

  lemma ExampleDigestApart()
    ensures IsDigest(ExampleDigest) && CollisionFree(ExampleDigest, {"u", "v", "w"})
  {
    assert ExampleDigest("u")[0] == '0' && ExampleDigest("v")[0] == '1' && ExampleDigest("w")[0] == '2';
  }

  lemma ExampleReadable(bytes: Bytes)
    requires |bytes| == 1
    ensures Readable(EXAMPLE, bytes, "", 1)
  {
    assert |Decimal(1)| == 1;
  }

  /** The hypotheses of the law are met together, by a run whose lookup hits from disk ... */
  lemma SomeRunHits()
    ensures var events := [ExamplePut("v", CALM), Event(Clear, CALM)];
            && IsDigest(EXAMPLE.sha) && CollisionFree(EXAMPLE.sha, Occurring(events) + {"u"})
            && IsRun(EXAMPLE, events) && Trusted(EXAMPLE, events, "u")
            && Lookup(EXAMPLE, After(EXAMPLE, events), "u", FULL_SIZE, CALM).1 == Hit(true, "v")
  {
    ExampleDigestApart();
    ExampleReadable("v");
    RunThatHits(EXAMPLE, ExamplePut("v", CALM), FULL_SIZE, CALM, CALM);
  }

  /** ... and a stale file is met too. */
  lemma SomeRunIsStale()
    ensures var file := EntryFile("v", EXAMPLE.sha("v"), "", 1);
            var restart := Event(Restart(ListingOf(EXAMPLE.sha("u"), file)), CALM);
            var events := [ExamplePut("v", CALM), ExamplePut("w", BROKEN), restart];
            && IsRun(EXAMPLE, events) && LastStored(EXAMPLE, events, "u") == Some("w")
            && Lookup(EXAMPLE, After(EXAMPLE, events), "u", FULL_SIZE, CALM).1 == Hit(true, "v")
  {
    ExampleDigestApart();
    ExampleReadable("v");
    ExampleReadable("w");
    StaleRun(EXAMPLE, ExamplePut("v", CALM), ExamplePut("w", BROKEN), CALM, CALM);
  }
}
