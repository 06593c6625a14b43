# Arkham client: verified models

Dafny models of the stateful parts of the Arkham card-game client, with proofs of what they promise over
whole runs:

- the card-image pipeline: the asset cache (memory entries, payload digests, an indexed and evicted disk
  cache, its file format), the request coordinator (flights of waiters that share a fetch, a negative
  cache), the network fetcher (redirects, size caps, one result per fetch), the two-thread image response,
  and the two-stage JPEG scaling;
- the focus controller: zones, zone memory, modal stack, snapshots;
- the input mapper and the input router: held keys under remapping and suspension;
- the game-board controller and its row model: generation-stamped replies in any order;
- the link-context closure and the dependency audit of the packaging tools.

Each component has its operations as functions on values, on which the properties are proved, and, where
the program updates fields in place, a class with those fields whose methods are proved to do exactly what
the functions say. What surrounds a component (the file system, the network, memory pressure, QCache's
drops, the clock, the thread schedule) is a parameter of each step, so the properties hold whatever it
does. Verify with `dafny verify dfyconfig.toml`.

## Files

- `Wrappers`, `Text`, `Reachability`: options, byte strings and decimal numbers, reachability in graphs.
- `EntryFormat`, `MemoryKeys`, `DiskIndex`, `CacheOperations`, `CacheCoherence`, `CacheRuns`, `CacheExamples`,
  `AssetCache`: the asset cache, from its formats to its law over runs with restarts, runs that show what the
  law is worth, and the class.
- `NegativeCache`, `RequestFlights`, `FlightDecodes`, `ImageRequests`, `ImageRequestCoordinator`: the
  coordinator.
- `FetchPolicy`, `NetworkFetches`, `NetworkFetcher`: the fetcher. `AssetPipeline`: coordinator and fetcher
  together. `ImageProvenance`: where the images of their runs come from. `PipelineExample`: the classes, and both
  components, used from an empty directory.
- `CardImageResponse`: the two-thread response. `ImageScaling`: decode sizes.
- `FocusGraph`, `FocusInvariant`, `FocusLaws`, `FocusController`: focus.
- `InputMapper`, `InputRouter`: input. `GameBoard`, `GameBoardController`, `BoardCards`: the board.
- `LinkClosure`, `DependencyAudit`: the packaging tools.

## Where the code and its documentation differ

The models follow the code.

- `src/FocusController.h` documents `moveFocus` to return true only if focus changed. It also returns true
  when the node found is the focused one, for example a node that is its own neighbour
  (`FocusLaws.MoveReportsNoChange` says exactly when, `FocusLaws.SelfNeighborExample` shows one).
- `src/InputRouter.h` says that events of bound keys are always consumed and those of unbound keys never.
  The verdict is that of the press: the rest of a hold pressed while unbound is not consumed even if its
  key   The verdict is that of the press: the rest of a hold pressed while unbound is not consumed even if its
  key is bound meanwhile, and the rest of a hold pressed while bound is consumed even if its key is
  unbound (`InputRouter.HoldVerdict`; `InputRouter.BoundWhileHeld` and `InputRouter.UnboundWhileHeld` show
  one of each).

- Restoring a snapshot just taken is the identity only when the snapshot is current: every modal's entry
  node still registered, and some node focused unless there is none (`FocusLaws.RestoreOwnSnapshot`, both
  directions).
- A provider destroyed while a request is still posted leaves that response neither finished nor cancelled
  (`CardImageResponse.ShutdownLeavesResponseHanging`). `CardImageResponse.EveryResponseSettles` says exactly
  which responses hang; while the provider serves none does.
- The cache's law has one exception, per URL: a store that can neither write, empty nor remove the URL's older
  file leaves it, as does an oversized one that cannot remove it, and if that file reads back as other bytes
  the next process serves those (`CacheRuns.LeftFileMisleads`, `CacheExamples.StaleRun`). Within one process,
  and for every other URL, the law holds without exception (`CacheRuns.OneProcessIsTrusted`). A URL without
  the exception is called trusted, one the cache answers for.
- `AssetNetworkFetcher::cancel` does not stop a result that is queued already; the coordinator recognises
  it by its fetch id (`NetworkFetches.CancelTooLate`, `ImageRequests.LateResultIgnored`).
- A `Content-Length` header of nothing but white space is taken as zero (`FetchPolicy.ParseContentLength`).
- A URL just reported missing can be absent from a full negative cache: exactly when its time to live is over
  by the last reading of the clock, or as many other entries as the cache holds expire later, or at the same
  instant with greater keys (`NegativeCache.RememberedIsKnown`; `NegativeCache.RivalExample` shows one).

## Model

| member | source | states |
|---|---|---|
| CacheRuns.HitAfterRun | src/AssetCache.cpp:147-210 | After any run of lookups, stores, memory-only stores of the bytes last stored, clears and restarts, under any memory pressure, drops, evictions and failing reads, writes and removals, a lookup that hits returns the decode, at its own bound, of the bytes last successfully stored for its URL, unless a restart since that store found a stale file of that very URL; the digests of the strings that occur are assumed to differ |
| CacheRuns.RunKeepsCoherence | src/AssetCache.cpp:147-210 | In every state of every run memory entries, digest table, indexed files and index agree with the last stored bytes about every URL the cache answers for, and every file does about its URL unless stale |
| CacheRuns.DiskWithinLimit | src/AssetCache.cpp:453-533 | In every state of every run, whatever the digests, the byte count is the sum of the indexed sizes, those sizes are the files' own, and the sum is within the limit |
| CacheRuns.StoredIsLast | src/AssetCache.cpp:161-192 | The stored bytes the invariant speaks of are those of the last store in the history that decoded |
| CacheRuns.StoreDiskFiles | src/AssetCache.cpp:453-489 | What storeDisk leaves under the name: the new file, an empty one or none, or the old one exactly when it could not remove an oversized entry's file or could neither write, truncate nor remove; other files stay or are evicted |
| CacheRuns.LeftFileMisleads | src/AssetCache.cpp:453-489 | After a store some file misleads about some URL if and only if the store could do nothing about an older file of its URL that reads back as other bytes |
| CacheRuns.OpenedIsSound | src/AssetCache.cpp:257-347 | Opening a directory gives a sound disk cache within its limit, coherent about every URL whose file is |
| CacheRuns.StoreKeepsFiles | src/AssetCache.cpp:453-489 | A store leaves the files of other URLs agreeing as they did, and its own exactly unless it left a stale one |
| CacheRuns.RestartStep | src/AssetCache.cpp:302-303 | After a restart the cache answers for the URLs it did before, short of those with a stale file |
| CacheRuns.OneProcessIsTrusted | src/AssetCache.cpp:147-210 | Without restarts no URL is excepted from the law |
| CacheExamples.StoredIsServed | src/AssetCache.cpp:161-192 | Bytes stored with a readable entry are served from disk at every bound afterwards, memory cleared or not |
| CacheExamples.OldFileComesBack | src/AssetCache.cpp:302-303 | A file a store could do nothing about is indexed by the next process and served again |
| CacheExamples.RunThatHits | src/AssetCache.cpp:147-210 | Storing, clearing and looking up is a run under all hypotheses of the law, and the lookup hits, for every configuration |
| CacheExamples.StaleRun | src/AssetCache.cpp:453-489 | Storing, storing other bytes over a stuck file and restarting is a run whose lookup returns the older bytes |
| CacheExamples.SomeRunHits | src/AssetCache.cpp:147-210 | A configuration and a run that meet every hypothesis of the law, with the hit |
| CacheExamples.SomeRunIsStale | src/AssetCache.cpp:453-489 | And a run of it that serves stale bytes |
| PipelineExample.StoreClearLookUp | src/AssetCache.cpp:147-210 | The cache class over an empty directory: a store, a clear and a lookup that hits from disk |
| PipelineExample.RequestAndFetch | src/AssetImageRequestCoordinator.cpp:119-235 | The coordinator class over that cache: a request waits, and the fetch calls it back with the decode |
| CacheCoherence.HitIsLastStored | src/AssetCache.cpp:147-159 | In a coherent cache a hit for a URL it answers for, from memory or disk, is the decode of the last stored bytes |
| CacheCoherence.LookupKeeps | src/AssetCache.cpp:380-451 | A lookup, whatever it drops, keeps the cache coherent |
| CacheCoherence.StoreKeeps | src/AssetCache.cpp:161-192 | A store that decodes makes the cache answer for its URL, with the new bytes, and keeps it coherent; one that does not changes nothing |
| CacheCoherence.StoreMemoryOnlyKeeps | src/AssetCache.cpp:194-205 | A memory-only store of the bytes last stored keeps the cache coherent |
| CacheCoherence.StoreDiskKeeps | src/AssetCache.cpp:453-489 | Oversized, failed or written: the disk cache agrees with the new bytes about the URL and as before about the others |
| CacheCoherence.StoreLeavesInMemory | src/AssetCache.cpp:170-187 | Which memory entries a store leaves, exactly: the URL's other bounds stay if and only if the bytes are known to be those last stored, and other URLs are untouched |
| CacheCoherence.WithoutUrlAgrees | src/AssetCache.cpp:360-372 | Removing the URL's keys makes memory agree with any new bytes of that URL |
| CacheCoherence.RememberedIsBounded | src/AssetCache.cpp:180-185 | The digest table never exceeds its limit (or one) |
| DiskIndex.EvictionIsShortestPrefix | src/AssetCache.cpp:521-531 | Eviction removes exactly the shortest least-recently-used prefix that brings the sum of sizes within the limit |
| DiskIndex.EnteredSurvives | src/AssetCache.cpp:483-488 | The entry just stored is never evicted |
| DiskIndex.DropKeeps | src/AssetCache.cpp:491-504 | Removing an entry keeps index, queue, positions and byte count in step; the clamp at zero never bites |
| DiskIndex.EnterKeeps | src/AssetCache.cpp:483-487 | An entered file is the most recently used, with a fresh stamp, and its size is counted once |
| DiskIndex.TouchKeeps | src/AssetCache.cpp:374-378 | A touched entry becomes the most recently used; nothing else changes |
| DiskIndex.NotedAllIsValid | src/AssetCache.cpp:317-347 | The index built from any directory satisfies the invariant |
| DiskIndex.OnlyFound | src/AssetCache.cpp:328-344 | Only files of a digest's name that are not empty are indexed, at their size |
| DiskIndex.EveryFound | src/AssetCache.cpp:328-344 | And all of them are |
| MemoryKeys.KeysInjective | src/AssetCache.cpp:224-233 | Two memory keys are equal if and only if URL and normalized bound are |
| MemoryKeys.KeyBelongs | src/AssetCache.cpp:360-371 | The last-'@' test matches a key if and only if it is that URL's, even with '@' in URLs |
| EntryFormat.EntryRoundTrip | src/AssetCache.cpp:42-118 | An entry reads back as exactly its payload if and only if header, payload and file are within the reader's limits |
| EntryFormat.TamperedEntryRefused | src/AssetCache.cpp:420-428 | Other bytes after the same header, of another digest, are refused |
| EntryFormat.HeaderParses | src/AssetCache.cpp:79-118 | A written header parses to the length and digest written, for any content type |
| Text.FindBlankAfterLines | src/AssetCache.cpp:414-421 | The first blank line is the header's end even if the payload starts with newlines |
| AssetCache.AssetCache.constructor | src/AssetCache.cpp:257-304 | The class starts coherent over any directory, about the URLs whose files agree with what was stored |
| AssetCache.AssetCache.Lookup | src/AssetCache.cpp:147-159 | In-place lookup: the new state is the one the run theorems speak of, the cache stays coherent, and a hit for a URL it answers for is the decode of the last stored bytes |
| AssetCache.AssetCache.Store | src/AssetCache.cpp:161-192 | In-place store: the cache stays coherent, and answers for the URL with the new bytes if and only if they decode at the bound |
| AssetCache.AssetCache.StoreMemoryOnly | src/AssetCache.cpp:194-205 | The method adds at most the one memory entry |
| AssetCache.AssetCache.ClearMemory | src/AssetCache.cpp:207-210 | Memory and digests go, the disk stays |
| AssetCache.AssetCache.RemoveMemoryEntriesForUrl | src/AssetCache.cpp:360-372 | The loop removes exactly the URL's keys |
| AssetCache.AssetCache.LookupDisk | src/AssetCache.cpp:380-451 | In-place disk lookup: a wrong size, a short read, a refused entry or bytes that never decode drop the entry; a failed open or a shortage of memory leaves it; success renews size and recency and promotes the image |
| AssetCache.AssetCache.StoreDisk | src/AssetCache.cpp:453-489 | In-place disk store: an oversized or failed write drops the entry (and empties or removes the file if it can); otherwise the file is written, entered and the rest evicted |
| AssetCache.AssetCache.RemoveDiskEntry | src/AssetCache.cpp:491-504 | File, queue element, position, entry and size go together |
| AssetCache.AssetCache.SetDiskEntryAccess | src/AssetCache.cpp:506-519 | The entry's stamp, queue element and position are renewed together |
| AssetCache.AssetCache.EvictIfNeeded | src/AssetCache.cpp:521-531 | The loop ends with the model's eviction |
| AssetCache.AssetCache.BuildIndex | src/AssetCache.cpp:317-347 | The loop builds the model's index and removes exactly the stray files it can |
| ImageRequests.RunIsSafe | src/AssetImageRequestCoordinator.cpp:119-235 | In every state of every run the cache under the coordinator agrees with the bytes last stored about every URL it answers for |
| ImageRequests.RunKeepsBooks | src/AssetImageRequestCoordinator.cpp:56-235 | In every state of every run, whatever the cache does, each issued request is waiting, cancelled or completed once; its key is k if and only if one waiter with its id sits in flight k; no flight is empty; flights have distinct uncancelled fetches |
| ImageRequests.StartIsSafe | src/AssetImageRequestCoordinator.cpp:14-23 | A new coordinator over a new cache satisfies both |
| ImageRequests.LateResultIgnored | src/AssetImageRequestCoordinator.cpp:180-184 | A result whose fetch is over never changes anything, whatever flights started since |
| ImageRequests.ResultEndsFetch | src/AssetImageRequestCoordinator.cpp:186-187 | A result, good or bad, ends its own fetch |
| ImageRequests.LastCancelEndsFetch | src/AssetImageRequestCoordinator.cpp:69-81 | A cancellation ends and cancels the fetch if and only if it was the flight's only waiter |
| ImageRequests.OutcomeIsFinal | src/AssetImageRequestCoordinator.cpp:56-94 | A cancelled request is never completed; a completed one is never completed again nor cancelled |
| ImageRequests.FetchServesWaiters | src/AssetImageRequestCoordinator.cpp:197-234 | A fetched payload calls every waiter once, in order, each with the decode at its own bound; or, if any distinct bound fails, all with a decode error |
| ImageRequests.WaitersInLine | src/AssetImageRequestCoordinator.cpp:140-151 | In every state of every run each flight's waiters stand in the order of their requests |
| ImageRequests.AnsweredFromCache | src/AssetImageRequestCoordinator.cpp:134-138 | An image answered at once, for a URL the cache answers for, is the decode of the bytes last stored |
| ImageRequests.EntryHasReport | src/AssetImageRequestCoordinator.cpp:186-195 | In every run each entry of the negative cache comes from a not-found result of the URL's own fetch and expires the time to live after it |
| ImageRequests.NotFoundHasReport | src/AssetImageRequestCoordinator.cpp:260-271 | A request answered at once that its asset is missing has such a result for that very URL behind it, less than the time to live ago |
| AssetPipeline.RunKeeps | src/AssetImageRequestCoordinator.cpp:56-195 | Coordinator and fetcher together, in every state of every run: ids correspond, every flight waits for a fetch still to answer, every reply has its flight, cancellations agree |
| AssetPipeline.FlightsAreServed | src/AssetImageRequestCoordinator.cpp:152-159 | The fetch of every flight is in flight itself or has exactly one result queued and not delivered; no reply is pending that no flight waits for |
| AssetPipeline.NobodyWaitsForever | src/AssetImageRequestCoordinator.cpp:177-235 | When the network is done and the queue delivered no request is left waiting |
| AssetPipeline.CancelledTogether | src/AssetImageRequestCoordinator.cpp:76-94 | A fetch the coordinator cancelled is cancelled at the fetcher or had its one result already; the fetcher cancels no other |
| AssetPipeline.DropKeeps | src/AssetImageRequestCoordinator.cpp:76-94 | Cancelling exactly the fetches of the flights that went keeps the others live |
| AssetPipeline.DispatchKeeps | src/AssetNetworkFetcher.cpp:510-522 | Delivering the oldest result settles at most the one flight it is for and keeps the others live |
| ImageProvenance.PipelineIsFetcherRun | src/AssetImageRequestCoordinator.cpp:56-160 | Every run of coordinator and fetcher is, for the fetcher, one of its own runs, so all its laws hold under the coordinator |
| ImageProvenance.RunTraced | src/AssetImageRequestCoordinator.cpp:119-235 | In every state of every run each stored payload is the body of a result for its URL, each waiter has the URL and bound its request asked for, and each delivered image is the decode at that bound of such a body for that URL |
| ImageProvenance.EveryImageHasItsReply | src/AssetImageRequestCoordinator.cpp:119-235 | Every image ever delivered, at once or by a fetch, joined or not, is the decode, at the bound its request asked for, of the whole body of an unbroken 200 image reply to a fetch made for the URL it asked for; from an empty cache, the digests of the strings that occur assumed to differ |
| PipelineExample.SomeRunDelivers | src/AssetImageRequestCoordinator.cpp:119-235 | A configuration and a run of coordinator and fetcher that meet every hypothesis of the law, with the image delivered |
| FlightDecodes.EachWaiterItsBound | src/AssetImageRequestCoordinator.cpp:204-223 | The number of decodes is the number of distinct bounds; decoding fails if and only if some distinct bound does |
| FlightDecodes.DecodesArePrefix | src/AssetImageRequestCoordinator.cpp:207-223 | Decodes follow the first occurrences of the bounds in waiter order up to the first failure |
| FlightDecodes.DecodesKeepCoherence | src/AssetImageRequestCoordinator.cpp:211-215 | storeMemoryOnly is only called with the bytes the preceding store accepted, so coherence is kept throughout |
| RequestFlights.JoinedKeeps | src/AssetImageRequestCoordinator.cpp:140-159 | Joining or starting a flight keeps the books |
| RequestFlights.CancelledKeeps | src/AssetImageRequestCoordinator.cpp:56-82 | Cancelling keeps the books |
| RequestFlights.CancelledAllKeeps | src/AssetImageRequestCoordinator.cpp:84-94 | Cancelling everything keeps the books |
| RequestFlights.SettledKeeps | src/AssetImageRequestCoordinator.cpp:169-175 | Completing a flight keeps the books |
| RequestFlights.KeysOfFlight | src/AssetImageRequestCoordinator.cpp:140-151 | The request keys that name a flight are exactly its waiters' |
| NegativeCache.PrunedIsNewestUnexpired | src/AssetImageRequestCoordinator.cpp:237-258 | Pruning drops exactly the expired entries and, past the limit, those that expire first |
| NegativeCache.FindOldest | src/AssetImageRequestCoordinator.cpp:249-255 | The scan finds the entry first by expiry and key, in whatever order the table is walked |
| NegativeCache.ForgottenInTime | src/AssetImageRequestCoordinator.cpp:260-282 | Per URL: no question about any URL and no report of another postpones the end of its entry, a report of its own sets it the time to live ahead, and past the end the URL is asked for again |
| NegativeCache.RememberedIsKnown | src/AssetImageRequestCoordinator.cpp:273-282 | A URL just reported missing is remembered if and only if its time to live is not over by the last reading of the clock and fewer of the other entries than the limit expire later, or at the same instant with greater keys, provided an entry it had before does not expire after the new one |
| NegativeCache.RivalExample | src/AssetImageRequestCoordinator.cpp:273-282 | A full table that forgets the URL just reported |
| ImageRequestCoordinator.ImageRequestCoordinator.RequestCardImage | src/AssetImageRequestCoordinator.cpp:30-160 | In-place request: answered from the negative cache or the cache, or added to a flight; the invariant of every run holds again |
| ImageRequestCoordinator.ImageRequestCoordinator.Cancel | src/AssetImageRequestCoordinator.cpp:56-82 | In-place cancellation: the waiter leaves its flight, and the last one takes flight and fetch along; the invariant holds again |
| ImageRequestCoordinator.ImageRequestCoordinator.CancelAll | src/AssetImageRequestCoordinator.cpp:84-94 | Every flight's fetch is cancelled, every waiting request too |
| ImageRequestCoordinator.ImageRequestCoordinator.HandleFetchFinished | src/AssetImageRequestCoordinator.cpp:177-235 | In-place result: ignored unless it is the flight's own fetch; otherwise the flight is settled and the invariant holds again |
| ImageRequestCoordinator.ImageRequestCoordinator.DecodeFor | src/AssetImageRequestCoordinator.cpp:204-223 | The decode loop, with its early end, against the cache class: every call meets the cache's preconditions |
| ImageRequestCoordinator.ImageRequestCoordinator.CompleteWaiters | src/AssetImageRequestCoordinator.cpp:169-175 | The loop drops the waiters' keys and appends their calls in order |
| ImageRequestCoordinator.EraseWaiter | src/AssetImageRequestCoordinator.cpp:69-75 | The search erases the first waiter with the id and no other |
| ImageRequestCoordinator.ImageRequestCoordinator.PruneNegativeCache | src/AssetImageRequestCoordinator.cpp:237-258 | Both loops end with the model's pruning |
| ImageRequestCoordinator.ImageRequestCoordinator.IsNegativeCached | src/AssetImageRequestCoordinator.cpp:260-271 | Known if and only if the entry survives pruning and has not expired meanwhile |
| ImageRequestCoordinator.ImageRequestCoordinator.RememberNotFound | src/AssetImageRequestCoordinator.cpp:273-282 | Pruned, entered, pruned again; nothing at all without time to live or room |
| FetchPolicy.ParseContentLength | src/AssetNetworkFetcher.cpp:25-42 | Accepts exactly non-empty headers whose trimmed text is digits with a value in 63 bits, returns that value, and never leaves the 64-bit range |
| FetchPolicy.ChainIsPermitted | src/AssetNetworkFetcher.cpp:72-119 | Along a chain of redirects of any length, a plain-http hop is to a loopback host and the chain began at one |
| NetworkFetches.RunKeeps | src/AssetNetworkFetcher.cpp:186-508 | The two tables mirror each other, every fetch is in one place, counts and caps hold, in every state of every run |
| NetworkFetches.RedirectsAreBounded | src/AssetNetworkFetcher.cpp:390-411 | At most maxRedirects + 1 requests are made for a fetch |
| NetworkFetches.PlainHttpStaysLocal | src/AssetNetworkFetcher.cpp:397-411 | Every request not over https is over http, to a loopback host, for a fetch asked of a loopback host |
| NetworkFetches.BodiesWithinCap | src/AssetNetworkFetcher.cpp:323-341 | No buffered or delivered body exceeds the cap |
| NetworkFetches.BufferIsReceived | src/AssetNetworkFetcher.cpp:323-341 | A pending reply has buffered exactly the chunks it announced, in order |
| NetworkFetches.SuccessIsWholeBody | src/AssetNetworkFetcher.cpp:343-450 | A fetch succeeds only with the whole body of its final reply, from an unbroken 200 response of an image type |
| NetworkFetches.SuccessHasReply | src/AssetNetworkFetcher.cpp:343-450 | In every run every successful result has the end of such a reply behind it, to the last request of its own fetch |
| NetworkFetches.OneResultEach | src/AssetNetworkFetcher.cpp:343-508 | A fetch has exactly one result once it is neither in flight nor cancelled, and none before |
| NetworkFetches.CancelTooLate | src/AssetNetworkFetcher.cpp:211-231 | Cancelling changes nothing if and only if the fetch has its result already |
| NetworkFetcher.NetworkFetcher.Fetch | src/AssetNetworkFetcher.cpp:186-209 | In-place fetch: a queued error or one request, under a new id; the invariant of every run holds again |
| NetworkFetcher.NetworkFetcher.StartRequest | src/AssetNetworkFetcher.cpp:233-302 | Past its deadline or without a manager a result is queued, otherwise one request is made |
| NetworkFetcher.NetworkFetcher.Cancel | src/AssetNetworkFetcher.cpp:211-231 | In-place cancellation: both tables lose the fetch, and nothing is queued for it |
| NetworkFetcher.NetworkFetcher.CheckContentLength | src/AssetNetworkFetcher.cpp:304-321 | The reply fails if and only if its header declares a number above the cap |
| NetworkFetcher.NetworkFetcher.HandleReadyRead | src/AssetNetworkFetcher.cpp:323-341 | The buffer grows by the chunk or the reply fails |
| NetworkFetcher.NetworkFetcher.HandleFinished | src/AssetNetworkFetcher.cpp:343-450 | In-place end of a reply: the rest of the body is read, then either one result is queued or the next hop is asked with count and deadline carried over |
| NetworkFetcher.NetworkFetcher.FailReply | src/AssetNetworkFetcher.cpp:452-471 | The reply leaves both tables and its fetch gets the error, once |
| NetworkFetcher.NetworkFetcher.HandleNetworkManagerDestroyed | src/AssetNetworkFetcher.cpp:492-508 | Every pending fetch gets an error and both tables are empty |
| CardImageResponse.RunKeepsInv | src/AssetImageProvider.cpp:111-348 | The invariant of record, job queues and coordinator in every interleaving of the two threads |
| CardImageResponse.FinishedOrCancelled | src/AssetImageProvider.cpp:149-196 | finished() is emitted at most once, never after a cancel, and only with the coordinator's answer |
| CardImageResponse.OutcomeIsFinal | src/AssetImageProvider.cpp:111-196 | What was delivered stays, and a cancelled response never delivers |
| CardImageResponse.NoWaiterLeaked | src/AssetImageProvider.cpp:271-344 | Once the queues have drained, a cancelled, destroyed or finished response has no waiter at the coordinator |
| CardImageResponse.EveryResponseSettles | src/AssetImageProvider.cpp:256-348 | A posted response with nothing under way hangs, neither finished nor cancelled, if and only if it was never cancelled and its request was lost: its job was taken with the provider gone, or everything was cancelled while it still waited |
| CardImageResponse.ServingLosesNothing | src/AssetImageProvider.cpp:256-348 | While the provider serves no request is lost |
| CardImageResponse.RunKeepsLoss | src/AssetImageProvider.cpp:216-348 | In every interleaving a live response whose request is over without answer or waiter has been lost, and a lost one is never answered |
| CardImageResponse.ShutdownLeavesResponseHanging | src/AssetImageProvider.cpp:216-231 | A run that ends with a response neither finished nor cancelled, after the provider was destroyed |
| CardImageResponse.ResponseState.Cancel | src/AssetImageProvider.cpp:111-127 | A live response is cancelled for good and hands out its callback, at most once; any other response is left as it is |
| CardImageResponse.ResponseState.SetCancelCallback | src/AssetImageProvider.cpp:129-142 | The callback is to be run now if and only if the cancel came first; otherwise it is kept for the cancel |
| CardImageResponse.ResponseState.CompleteState | src/AssetImageProvider.cpp:149-168 | Only the first answer of a live response is kept, and its drain is on the way |
| CardImageResponse.ResponseState.DrainCompletion | src/AssetImageProvider.cpp:170-196 | finished() is emitted with the stored answer of a live response, once over its whole life, and never after a cancel |
| CardImageResponse.ResponseState.RegisterRequest | src/AssetImageProvider.cpp:331-339 | The id is recorded for a later cancel, or the job must cancel it itself, exactly if the response is no longer alive |
| CardImageResponse.AnsweredTwice | src/AssetImageProvider.cpp:149-196 | Of two answers the first is emitted, by the first of two drains, and a cancel after that runs nothing |
| CardImageResponse.CancelledTwice | src/AssetImageProvider.cpp:111-168 | After a cancel no answer is emitted, and of two cancels only the first runs the callback |
| ImageScaling.NormalizedBoundProperties | src/AssetTypes.cpp:93-98 | An empty or invalid bound, and only such a one, means the full size |
| ImageScaling.FittedInside | src/AssetTypes.cpp:100-109 | The fit is inside bound and source with sides of at least 1 |
| ImageScaling.FittedIsLargest | src/AssetTypes.h:147-149 | Every exact rescaling of the source inside bound and source is inside the fit |
| ImageScaling.JpegScaleDenominator | src/AssetJpegDecoder.cpp:96-112 | The denominator is the largest of 8, 4, 2 and 1 whose reduced image covers the target |
| ImageScaling.DecodeJpegSize | src/AssetTypes.cpp:153-169 | The sizes of both stages |
| ImageScaling.TwoStagesNeverUpscale | src/AssetTypes.h:153-160 | For every source and bound the reduced stage covers the fitted target and the final fit is inside bound and source |
| ImageScaling.BoardBoundDifference | src/AssetTypes.h:155-159 | At 150x210, for every source, the two-stage size differs from the one-stage fit in one side only, by at most 3 (1 in width) |
| ImageScaling.BoardBoundIsTight | src/AssetTypes.h:157-159 | Both limits are reached; the header's example is exact |
| FocusInvariant.ApplyKeeps | src/FocusController.cpp:22-461 | Every operation keeps: cycle order duplicate-free and exactly the non-empty zones; distinct registration orders; focus and modal returns empty or registered; zone memory names a node of its zone; the focused node is its zone's memory |
| FocusInvariant.RunKeeps | src/FocusController.cpp:22-461 | So it holds over every run |
| FocusInvariant.PopReturnsToRemembered | src/FocusController.cpp:272-290 | popModal returns to the remembered focus; its fallback is never taken |
| FocusInvariant.RemoveForgets | src/FocusController.cpp:82-130 | A removed node is forgotten everywhere but as the entry of an open modal |
| FocusLaws.RestoreDetermined | src/FocusController.cpp:304-363 | Restored focus, modals and memory depend on the snapshot and the nodes only |
| FocusLaws.RestoreIdempotent | src/FocusController.cpp:304-363 | Restoring twice is restoring once |
| FocusLaws.RestoreOwnSnapshot | src/FocusController.cpp:296-363 | Restoring the snapshot just taken is the identity if and only if it is current |
| FocusLaws.RestoredIsStable | src/FocusController.cpp:296-363 | After a restore, snapshot and restore is the identity |
| FocusLaws.CycleThereAndBack | src/FocusController.cpp:209-261 | With two zones or more, cycling forward and backward returns to the same node |
| FocusLaws.CycleOrbit | src/FocusController.cpp:209-261 | Forward cycles visit the zones in order, each at its remembered node |
| FocusLaws.CycleAllTheWay | src/FocusController.cpp:209-261 | With k zones, k forward cycles are the identity on the focus, and no fewer are |
| FocusLaws.OppositeMoveUndoes | src/FocusController.cpp:149-207 | In a neighbour-free wrapping zone a move and its opposite restore the whole state |
| FocusLaws.WrapOrbit | src/FocusController.cpp:166-190 | Moves visit the zone's nodes in registration order |
| FocusLaws.WrapCycle | src/FocusController.cpp:166-190 | They form one cycle through all of them |
| FocusLaws.MoveReportsNoChange | src/FocusController.cpp:149-207 | moveFocus reports true without a change exactly when the move goes to the focused node |
| FocusLaws.SelfNeighborExample | src/FocusController.h:154-199 | A graph where it does |
| FocusLaws.ModalNesting | src/FocusController.cpp:263-290 | Any balanced nest of modals with arbitrary navigation, registrations and removals of nodes no open modal returns to restores the focus and the stack |
| FocusGraph.StepIndexByRemainder | src/FocusController.cpp:166-190 | The source's modular step is one step around the ring |
| FocusController.FocusController.RegisterNode | src/FocusController.cpp:22-80 | In-place registration (new, same zone or moved to another): the new state is the model's, and the invariant holds again |
| FocusController.FocusController.RemoveNode | src/FocusController.cpp:82-130 | In-place removal, with its loops over zone memory and modals: the new state is the model's, and the invariant holds again |
| FocusController.FocusController.SetInitialFocus | src/FocusController.cpp:141-147 | True if and only if no modal is open and the node is registered, and then focus moves there; the invariant holds again |
| FocusController.FocusController.MoveFocus | src/FocusController.cpp:149-207 | In-place move by neighbour, wrap or fallback; true exactly if there was a target |
| FocusController.FocusController.CycleZone | src/FocusController.cpp:209-261 | In-place cycling, with its scans over nodes and zones; true exactly if there was a target |
| FocusController.FocusController.PushModal | src/FocusController.cpp:263-270 | The focus to return to is stacked and focus enters the modal; the invariant holds again |
| FocusController.FocusController.PopModal | src/FocusController.cpp:272-290 | Focus returns to what was stacked; under the invariant the last branch is dead |
| FocusController.FocusController.RestoreSnapshot | src/FocusController.cpp:304-363 | The method's loops restore what the model restores |
| FocusController.FocusController.SortedNodesInZone | src/FocusController.cpp:404-421 | The scan and sort yield the one listing of the zone in registration order, whatever the table's order |
| FocusController.FocusController.FirstRegisteredNodeId | src/FocusController.cpp:423-433 | The scan finds the node registered first |
| FocusController.FocusController.PruneZoneIfEmpty | src/FocusController.cpp:387-402 | A zone without nodes leaves the cycle order and the memory |
| FocusController.FocusController.ResolveRemovalFallback | src/FocusController.cpp:435-461 | Where focus goes when a node is removed |
| InputMapper.HeldIsOpen | src/InputMapper.cpp:150-209 | The held table is exactly the history: a key is in it if and only if a press opened a hold that nothing ended |
| InputMapper.HeldIsArmedAtPress | src/InputMapper.cpp:150-207 | It is armed with what its key meant at that press |
| InputMapper.ContinuationHasPress | src/InputMapper.cpp:150-207 | Every Repeated or Released continues a Pressed of the same command with only repeats between, whatever was remapped |
| InputMapper.PressesAreSeparated | src/InputMapper.cpp:150-209 | Between two presses of a key lies its release or an event that forgets held keys |
| InputMapper.UnboundHoldIsSilent | src/InputMapper.cpp:150-207 | A hold pressed while unbound stays silent to its end |
| InputMapper.BoundHoldIsHeard | src/InputMapper.cpp:150-207 | A hold pressed while bound dispatches its Pressed, a Repeated per auto-repeat and its Released, all of that command |
| InputMapper.ReservedNeverChange | src/InputMapper.cpp:48-78 | The three reserved bindings hold over every run |
| InputMapper.InputMapper.Remap | src/InputMapper.cpp:48-71 | In-place remapping: reserved keys and keys bound to another command are refused with the table unchanged; held keys keep their command; the reserved keys stay bound |
| InputMapper.InputMapper.Unbind | src/InputMapper.cpp:73-78 | In-place unbinding: reserved keys stay bound; held keys keep their command; the reserved keys stay bound |
| InputMapper.InputMapper.ResetToDefaults | src/InputMapper.cpp:80-148 | The method restores the built-in table and forgets held keys |
| InputMapper.InputMapper.ProcessKey | src/InputMapper.cpp:150-207 | In-place key step: state and dispatched command are those the hold laws speak of |
| InputRouter.HoldVerdict | src/InputRouter.cpp:165-264 | All events of one physical hold are consumed exactly if the key was bound at its press, remaps included |
| InputRouter.BoundWhileHeld | src/InputRouter.h:61-79 | A key pressed unbound and bound while held, whose release is not consumed |
| InputRouter.UnboundWhileHeld | src/InputRouter.h:61-79 | A key pressed bound and unbound while held, whose release is consumed and dispatched |
| InputRouter.NoHoldSpansSuspension | src/InputRouter.cpp:143-163 | If suspension differs between two handled key events, the held table is empty at the second |
| InputRouter.QuietRun | src/InputRouter.cpp:143-163 | Between two handled key events suspension is unchanged or every hold is forgotten |
| InputRouter.SuspendedIsTransparent | src/InputRouter.cpp:165-264 | Under suspension nothing is consumed or dispatched |
| InputRouter.FreshTargetHoldsNothing | src/InputRouter.cpp:83-113 | No hold survives into a newly installed target |
| InputRouter.RunKeeps | src/InputRouter.cpp:83-264 | While suspended no key is held, over every run |
| InputRouter.RunIsMapperRun | src/InputRouter.cpp:165-264 | Every run of the router is a run of the mapper |
| InputRouter.DispatchIsMapperOutput | src/InputRouter.cpp:165-264 | Every dispatched command is the output of that run's last event, so the hold laws hold of it |
| InputRouter.InputRouter.EventFilter | src/InputRouter.cpp:165-264 | In-place event step on the borrowed mapper: state, verdict and dispatch are those the router's laws speak of; under suspension the event is ignored; no key is held while suspended |
| InputRouter.InputRouter.RefreshTextEntrySuspension | src/InputRouter.cpp:143-163 | Afterwards the cached suspension is the actual one, and held keys were forgotten if and only if it changed |
| InputRouter.InputRouter.SetSemanticInputSuspended | src/InputRouter.cpp:125-128 | The explicit flag changes and the effective suspension with it |
| InputRouter.InputRouter.Install | src/InputRouter.cpp:83-101 | A target of another thread is refused, the same target changes nothing, another one starts without held keys |
| InputRouter.InputRouter.Uninstall | src/InputRouter.cpp:103-113 | The target goes and held keys are forgotten |
| GameBoard.RunKeeps | src/GameBoardController.cpp:122-282 | In every run the selection is -1 or valid, a Loaded board is the selected game's, and a Loading stage has a continuation that settles it |
| GameBoard.ApplyKeeps | src/GameBoardController.cpp:122-282 | Every operation and every delivered reply keeps the invariant |
| GameBoard.ResetDropsInFlight | src/GameBoardController.cpp:257-270 | A reply to anything asked before a reset changes nothing whenever it lands |
| GameBoard.SwitchingDropsBoardReplies | src/GameBoardController.cpp:197-255 | Opening another game or closing one drops every board reply in flight |
| GameBoard.BoardAndCatalogCommute | src/GameBoardController.cpp:167-237 | Board and catalog may arrive in either order: same state, same labels |
| GameBoardController.GameBoardController.LoadGames | src/GameBoardController.cpp:122-165 | In-place: games, rows and selection go and a new list generation asks for a token; the invariant holds again |
| GameBoardController.GameBoardController.OpenGame | src/GameBoardController.cpp:197-202 | In-place: only a valid index of a loaded list is selected, and its board is asked for; the invariant holds again |
| GameBoardController.GameBoardController.FetchBoard | src/GameBoardController.cpp:204-237 | In-place: rows go and a new board generation asks for a token |
| GameBoardController.GameBoardController.OnCatalogReply | src/GameBoardController.cpp:167-195 | In-place continuation: names of the current generation relabel the rows, others are dropped |
| GameBoardController.GameBoardController.Run | src/GameBoardController.cpp:131-236 | Any outstanding continuation run with any reply it can get keeps the invariant: stale ones change nothing |
| GameBoardController.GameBoardController.Retry | src/GameBoardController.cpp:239-244 | In-place: the failed board of a selected game, or else the failed list, is asked for again; the invariant holds again |
| GameBoardController.GameBoardController.CloseGame | src/GameBoardController.cpp:246-255 | In-place: nothing if nothing is open; otherwise selection and rows go; every board reply in flight is stale and the invariant holds again |
| GameBoardController.GameBoardController.Reset | src/GameBoardController.cpp:257-270 | In-place: everything goes, every reply in flight is stale, and the invariant holds again |
| GameBoardController.GameBoardController.SetSignedIn | src/GameBoardController.cpp:272-282 | In-place: signing out resets; signing in only sets the flag; the invariant holds again |
| BoardCards.RelabelledBoard | src/BoardCardsModel.cpp:47-60 | Relabelling a board gives the board the new names alone would have given |
| BoardCards.BoardCardsModel.SetGame | src/BoardCardsModel.cpp:21-45 | The loops build the labelled rows of the game |
| BoardCards.BoardCardsModel.SetCardNames | src/BoardCardsModel.cpp:47-60 | The loop relabels every row and reports exactly the rows whose label changed |
| BoardCards.BoardCardsModel.Clear | src/BoardCardsModel.cpp:71-77 | The rows go, the names stay |
| LinkClosure.TransitiveUsage | packaging/check_encoder_hygiene.py:5075-5088 | The worklist returns exactly what the roots reach, in any order |
| LinkClosure.EffectiveDirectIsLeast | packaging/check_encoder_hygiene.py:5094-5105 | The injection loop's set is the least that holds the links and is closed under injection |
| LinkClosure.EffectiveDirectHasCause | packaging/check_encoder_hygiene.py:5094-5105 | Nothing is injected without a cause |
| LinkClosure.ConsumerLinkClosure | packaging/check_encoder_hygiene.py:5090-5122 | The loop ends; the result is reachability from that set minus exclusions, plus compile-graph reachability |
| Reachability.ReachedIsLeast | packaging/check_encoder_hygiene.py:5075-5088 | Reachability is the least closed set over the roots |
| DependencyAudit.AuditClosure | packaging/audit_dependency_closure.py:118-180 | Returns exactly the bundled names reached and, as missing, exactly the reached names neither bundled nor allowlisted, each with its requesters |
| DependencyAudit.RunAudit | packaging/audit_dependency_closure.py:183-261 | The exit status, and the required bundled names |
| DependencyAudit.RemovingRequiredFails | packaging/audit_dependency_closure.py:38-45 | Removing a listed name makes the closure audit report exactly that name missing, or refuse to go on exactly if a link still reached resolves to it; a removed root is refused before that, by main |
| DependencyAudit.RemovalBreaks | packaging/audit_dependency_closure.py:118-180 | Removing any file from a directory that passes breaks the audit if and only if a link still reached resolves to it |
| DependencyAudit.RemovalFailsExactlyForRequired | packaging/audit_dependency_closure.py:228-235 | When no link of the closure resolves to a file that is not a root, the audit passes without it exactly if it was not listed |

## Left out

- Decoding itself: an arbitrary function of the bytes and the normalized bound, except that memory pressure may make it fail; which code fails for which bytes is not modelled.
- SHA-256 is an arbitrary function to 64 lower-case hex digits. Where it matters, the digests of the finitely many URLs and payloads that come up are assumed to differ; `CacheExamples.SomeRunHits` shows the assumption can be met. Canonical URLs are arbitrary byte strings, and a flight's URL is its canonical key.
- Only the cache writes the files of its directory; the write probe, the choice of the directory, diagnostics and file times other than at start-up are left out. `diskEnabled` does not change between processes that share a directory.
- ImageProvenance.EveryImageHasItsReply: runs start from an empty cache; bytes an earlier process left on disk were fetched in that process, and restarts are in `CacheRuns` only.
- QCache: which entries an insertion drops, and whether it keeps the image at all, is arbitrary; costs are not modelled.
- The process-wide cache counters (request, fetch and access numbers, generations, registration order) are unbounded; wrap-around of 64-bit counters and the registration order at INT_MAX are not modelled.
- Callbacks that call back into the coordinator: `handleFetchFinished` takes its waiters out first, so a cancellation made inside a callback does not reach a later waiter of the same batch.
- Requests without a callback take an id and do nothing else; they are not modelled. Destruction of the coordinator is `CancelAll`.
- AssetNetworkFetcher: sockets, reply and timer lifetimes, headers sent, and results dropped because the fetcher is destroyed. The address grammar is QUrl's and the loopback host grammar is an arbitrary predicate; a reply's URL is the one requested.
- AssetImageProvider: image ids and their parsing, texture factories, threads; the lock sections and posted jobs are the steps.
- FocusController: node and zone ids are assumed non-empty; signals; the geometry fallback is an arbitrary function, absent from the wrap and inverse laws. `std::sort` by registration order is an insertion sort here, which yields the same list because orders are distinct.
- InputRouter: the input-method query is an arbitrary boolean per event; `install(nullptr)` and the destruction of a target are left out.
- GameBoardController: status texts and `bindToSession`; the game shown is a history variable.
- BoardCardsModel: roles and index arithmetic of the Qt model interface.
- DependencyAudit: readelf's text and file-system checks; a link carries the file it finally resolves to, so chains and loops of links and subdirectories are not modelled.
- LinkClosure: the loader that resolves and classifies the edges; every edge leads to a known target.
- SessionCoordinator, the game client, authentication, the key store, profiles and card-art rules are not part of these models.
- JPEG and AVIF decoding buffers, pixel scaling and image formats.
