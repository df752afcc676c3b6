# Proofs about the YASD cache, log, SQL executor and codecs

This project models the parts of YASD that carry its promises and proves them: the undo journal under the
cache, the cache and its optimistic transactions, the durability protocol of snapshot and append-only log, the
cache-aside fence of the production example, SQL statements against their indexes, the RESP2 codec, the
recogniser of torn JSON records, and the JSON byte budget. Verify it with `dafny verify dfyconfig.toml`.

## How it is laid out

Objects the program updates in place are classes with the same fields; each of their methods is proved equal
to a function on values (`State() == Do...(old(State()))`, `Now() == Execute(old(Now()))`), and the hard theorems
are lemmas about those functions, so they hold of the objects too.

- `Decimals`, `ItemLists`, `OrderedMaps`: linked nodes, hash map and nested undo journals. A `Shape` is one moment
  of the map, node objects included; `Rollback` brings the very `Shape` of `Begin` back.
- `CacheModel`, `CacheInvariant`, `CacheRuns`: every cache operation as a function on the whole state; what each
  keeps; runs of any events. `CacheContents`, `CacheBatches`: what each operation means to a reader, of one key and
  of many. `CacheOrder`: the LRU order. `CacheEvents`: frames, expiry events and counters. `CacheChanges`: one whole
  call of atomicChanges. `CacheClocks`: the two clock readings of incr. `PatchLists`, `CachePatches`, `CacheOverflow`:
  the patches of atomicChanges, their replay, and exactly when it is right. `CacheSnapshots`: dump and replace.
  `Cache`, `CacheTransactions`: the objects.
- `AppendLog`, `Durability`: the log file, the log object, and the protocol as a state machine with crashes.
  `PatchRecords`: the text of a log record. `CacheRecovery`: what a restart rebuilds against the live cache.
- `CacheAside`: refreshing and writing processes interleaved over one shared cache.
- `RespModel`, `RespProofs`, `RespReading`: encoder, byte-at-a-time decoder, resumable reader over buffers.
- `Ordering`, `Like`, `Identity`, `StructuralEquality`: top-k heap, LIKE, canonical key text, structural equality.
- `SqlModel` gives statements their meaning on tables without indexes; `SqlIndexes`, `SqlQueries`, `SqlStores`,
  `SqlChanges`, `SqlPrepare` hold the lemmas; `SqlMeaning`, `SqlWrites`, `SqlSizes` say what that meaning is, apart
  from how it is evaluated; `SqlTables` and `SqlExecution` are the objects with indexes.
- `Json`, `JsonBudget`: values, their JSON text, UTF-8 sizes, and the budgeted clone.
- `JsonScanner`, `JsonGrammar`, `JsonCompletion`, `JsonGuard`, `JsonPrefix`, `JsonRecords`: the recogniser, the
  grammar of RFC 8259 (sections 2 to 7) as trees, the nesting guard read off the text, and what the recogniser's
  answer means against the grammar.

## Where the code and its promises differ

- A write that fails exactly before its final newline leaves a whole record that nothing repairs. The append was
  refused, yet the operation is back after a restart: `Durability.RefusedAppendReturns`. When a crash leaves such a
  line, the next append is glued onto it and both become unreadable: `Durability.NewlineCutLosesAnAppend`.
  `Durability.AppendKeptIff` says, for every append and every way its write may end, exactly when the disk still
  gives back what was accepted.
- Rotating a log already empty by the number of an older snapshot numbers later appends below the newest one, and a
  restart skips them: `Durability.OlderRotationLosesAnAppend`. `Durability.RotateKeptIff`: the next acknowledged
  append is recoverable exactly when a record stayed in the log or the number is the last one given out.
- `Durability.CrashSafety` covers the runs of exactly these steps. `Durability.CrashSafetyIff`: after any such run, any
  other step breaks the promise, an append at once, a rotation at the next acknowledged append.
- `incr` reads the clock twice. A counter that expires in between is overwritten without its old size being
  subtracted, and the byte total stays too high for ever: `CacheClocks.IncrKeepsBytesIff` says exactly then.
- A replica with the same limits and the same contents can lose a key when it replays a patch, because writes that
  grow may come before writes that shrink: `CacheOverflow.SameLimitsOverflow`. The documentation speaks of smaller
  limits only (lines 441-442 of the repository README). `CachePatches.PatchReplaysIff`: a replay never throws, and is
  right if and only if every entry a write will evict is due or is written again later, `CachePatches.Spares`, which the
  replica can check beforehand on its keys, sizes and LRU order. Enough for it, in whatever LRU order, is that the limits
  hold after each write in turn; that is so for every call whose body works on one key, `CacheRecovery.SingleKeyFits`.
- The encoder accepts a nil at array depth 32 and the decoder refuses it: `RespProofs.DeepNilBreaks`. Counting
  nil as one more array level, `RespProofs.RoundTrip` says for every accepted reply whether it decodes.
- A `%` in the text is taken as a literal before the pattern's `%` is tried as a wildcard. `Like.LikeExact`:
  the matcher decides the wildcard language of all patterns exactly for the texts without `%`.
- The nesting guard answers before it sees whether an array at the limit is empty, so 257 open brackets are not
  called incomplete although closing brackets complete them: `JsonRecords.OpenBrackets`. `JsonGuard.TooNested`
  reads off the text when the guard answers, and `JsonPrefix.IncompleteIff` is the answer for every text.
- `setAt` and `expireAt` accept any finite deadline, but a restore refuses one beyond the safe integers, so a
  snapshot holding one cannot be loaded: `CacheSnapshots.UnsafeDeadlineSpoilsDump`.
  `CacheSnapshots.ReplaceRestoresDump` says exactly when a dump loads, and that it then loses nothing.
- A restored snapshot that overflows evicts without looking at the clock, so expired entries count as evictions
  there (src/cache.ts:885-899); the model follows the code.

## Assumptions

Each call reads the clock once (`now`; incr twice, `CacheModel.IncrTwice`); numbers are integers; the version
generation is not exhausted; object keys are distinct and strings are UTF-16 code units (bytes in the RESP model);
`localeCompare`, lower-casing and `Number(text)` are parameters, the first an arbitrary total preorder.

## Model

| member | source | states |
|---|---|---|
| OrderedMaps.OrderedMap.Rollback | src/ordered-map.ts:40-45 | the moment of the innermost begin comes back: the same node objects in the same links with the same values, and the journal as long as then |
| OrderedMaps.OrderedMap.Attempt | src/ordered-map.ts:29-89 | begin, any sets, deletes, clears and balanced nested frames, then rollback, restores shape, journal and frames exactly |
| OrderedMaps.OrderedMap.Commit | src/ordered-map.ts:35-39 | the map stays, one frame goes, and with the last frame the journal is emptied; without a frame it is refused |
| OrderedMaps.OrderedMap.Begin | src/ordered-map.ts:32-34 | a frame at the current journal length that will restore the current shape |
| OrderedMaps.OrderedMap.Set | src/ordered-map.ts:65-80 | overwrites in place or appends at the end; old journal records stay |
| OrderedMaps.OrderedMap.Delete | src/ordered-map.ts:81-89 | removes exactly the key, reports whether it was there, keeps the order of the rest |
| OrderedMaps.OrderedMap.Clear | src/ordered-map.ts:90-92 | deletes every key one by one, undoably |
| OrderedMaps.OrderedMap.Keys | src/ordered-map.ts:93-102 | the keys in link order |
| OrderedMaps.OrderedMap.UnlinkNode | src/ordered-map.ts:49-55 | the node leaves both link directions and the hash map; every other link stays |
| OrderedMaps.OrderedMap.LinkNode | src/ordered-map.ts:56-64 | the node enters between its neighbours, with both ends of the list kept right |
| OrderedMaps.OrderedMap.Replay | src/ordered-map.ts:40-45 | running the records from the newest down to a position brings back the moment the journal had that length |
| OrderedMaps.JournalPop | src/ordered-map.ts:40-45 | dropping the innermost frame's records leaves a journal that still undoes every outer frame |
| OrderedMaps.RelinkUndoes | src/ordered-map.ts:81-86 | the record pushed by delete undoes it, wherever in the list the node stood |
| OrderedMaps.AppendUndone | src/ordered-map.ts:74-77 | the record pushed for a new key undoes it |
| CacheInvariant.RunSteps | src/cache.ts:198-1003 | every public call, throwing or not, keeps: bytes the sum of sizes, expiring list exactly the deadlines, both limits, a version for each live key, at most 2*maxEntries+1024 versions; and moves versions, frames, events and change sets only as allowed |
| CacheInvariant.StepTrans | src/cache.ts:331-424 | those movements compose over whole runs |
| CacheInvariant.PruneKeeps | src/cache.ts:413-423 | pruning drops only keys without an entry, and unless none is left it brings the count within the cap |
| CacheInvariant.PruneOldest | src/cache.ts:413-423 | it takes the tombstones of a prefix of the list, the oldest, and stops as soon as the cap is reached |
| CacheInvariant.BumpKeeps | src/cache.ts:406-424 | the bumped key gets the new generation; any other key keeps its version or, if it has none left, reads the new epoch |
| CacheInvariant.BumpMovesOne | src/cache.ts:406-424 | below the cap no version moves but that of the bumped key, so no other watcher is aborted |
| CacheInvariant.EvictShortest | src/cache.ts:549-569 | eviction removes the shortest least-recently-used prefix that restores both limits |
| CacheInvariant.WrittenStays | src/cache.ts:479-508 | the entry just written survives its own eviction, as the most recently used |
| CacheInvariant.StoreSteps | src/cache.ts:497-505 | storing keeps the byte total, expiring list and versions exact and gives the key a new version |
| CacheInvariant.ClearSteps | src/cache.ts:641-645 | clear empties everything after giving every key a new version |
| CacheInvariant.IncrSteps | src/cache.ts:685-720 | incr keeps the byte total and limits, expired or non-numeric entries included |
| CacheInvariant.CasSteps | src/cache.ts:745-804 | cas keeps them in every outcome |
| CacheInvariant.RestoreSteps | src/cache.ts:840-901 | restore keeps them, with its own eviction loop |
| CacheInvariant.RedateSteps | src/cache.ts:933-990 | a new deadline moves neither bytes nor count |
| CacheInvariant.SweepSteps | src/cache.ts:993-1004 | sweep removes due entries one by one and keeps them |
| CacheInvariant.DiscardSteps | src/cache.ts:571-583 | removing an entry frees exactly its size and gives its key a new version |
| CacheRuns.RunsKeepInvariant | src/cache.ts:331-424 | every state any run of calls, frames and rollbacks reaches satisfies the invariant; generations never fall |
| CacheRuns.EqualVersionsEqualEntries | src/cache.ts:362-424 | no ABA: over any run with frames, rollbacks, expiry, eviction and pruning, equal versions mean equal entries, or both absent |
| CacheRuns.RunsConsistent | src/cache.ts:331-424 | the present and every moment an open frame may return to never give one version to two entries |
| CacheRuns.CommitSeesWatchedEntries | src/cache.ts:1224-1232 | when exec's check passes, every watched key holds the very entry it held at watch |
| CacheRuns.CheckKeepsOthers | src/cache.ts:1365-1374 | checking further keys moves no entry already found unexpired |
| CacheRuns.AtomicRestores | src/cache.ts:303-355 | a throwing atomic, whatever ran inside at any depth, restores entries, LRU order, versions, expiring list, bytes, counters and epoch; no event is delivered; the generation does not fall |
| CacheRuns.RunWithin | src/cache.ts:271-355 | inside a frame nothing saved changes and nothing reaches the listener |
| CacheChanges.RefusedRestores | src/cache.ts:375-404 | an atomicChanges that throws, because its body did at whatever operation, a changed value cannot be cloned, or the callback refused, leaves entries, LRU order, versions, counters, frames and deliveries as they were; the generation does not fall and no change set is lost |
| CacheChanges.AnswersIff | src/cache.ts:375-404 | it answers if and only if each operation in turn returns, every changed live value can be cloned and the callback accepts; it then leaves what the operations left |
| CacheChanges.AcceptedDelivers | src/cache.ts:336-349 | outside other frames an accepted call leaves what its operations would have left one by one, and delivers each key whose expiry they noticed, once |
| CacheEvents.AtomicTransparent | src/cache.ts:271-349 | work in frames that all commit, however nested, leaves exactly what it would have left without frames; the outermost commit delivers every key whose expiry was noticed, each once, in the order first noticed |
| CacheEvents.SameQueue | src/cache.ts:331-349 | in a frame at any depth each operation replies and does what it would without |
| CacheEvents.OnceEachMeans | src/cache.ts:271-277 | once each: the same keys, no repetition, in order of first appearance |
| CacheEvents.LookupsTell | src/cache.ts:271-300 | a lookup that finds its entry due tells the key and counts one expiry; a get counts a hit or a miss, a ttl a miss; nothing else is told, counted or evicted |
| CacheEvents.StoresCount | src/cache.ts:479-508 | no store counts a hit; a set whose deadline has come counts a miss |
| CacheEvents.EvictTells | src/cache.ts:549-569 | each entry eviction drops counts once, as an expiry and told if it was due, else as an eviction |
| CacheEvents.SweepTells | src/cache.ts:993-1004 | a sweep tells exactly the keys whose deadline has passed, each once |
| CacheOrder.GetTouches | src/cache.ts:427-444 | a get that finds its key moves it to the recently used end, the order of the rest unchanged, and touches no version, byte, frame or change set |
| CacheOrder.SingleKeyRecency | src/cache.ts:427-990 | which calls put their key last, with what eviction then takes; every other call leaves the list alone or takes its key out |
| CacheOrder.LastUsedStays | src/cache.ts:549-569 | the key used last survives the next call on any other key, unless only that other key is left |
| CacheOrder.GetProtects | src/cache.ts:427-444 | in particular the key a get has just found |
| CachePatches.ChangesCover | src/cache.ts:375-424 | the change set holds every key whose entry moved, eviction victims and rolled-back inner frames included |
| CachePatches.GatherIsPatch | src/cache.ts:385-401 | the loop of atomicChanges gathers, for every changed key once, its final value and absolute deadline, or that it is gone |
| CachePatches.PatchReplaysIff | src/persistence.ts:379-385 | the gathered patch, applied then or later on any replica with the same live contents, never throws, and gives the same live keys, values and absolute deadlines if and only if every entry some write evicts is due or is written again later |
| CachePatches.PatchReplays | src/persistence.ts:379-385 | so it does whenever the limits hold after each write in turn, or one count of entries and bytes leaves room for all of them |
| CachePatches.SetOne | src/cache.ts:464-508 | a write never throws and leaves the list with its key last, less the shortest least-recently-used prefix that restores the limits |
| CachePatches.PatchRuns | src/persistence.ts:379-385 | a patch replays whole, and the entries it leaves are a function of the replica's list |
| PatchLists.SparedIff | src/cache.ts:549-569 | writes with evictions between them leave every written key and every other key as it should show exactly when eviction spares what readers see |
| PatchLists.EachFitsOnPart | src/cache.ts:549-569 | writes that fit on a cache one after the other fit, then or later, on any replica holding no more, in whatever LRU order |
| PatchLists.RoomEachFits | src/cache.ts:549-569 | with room for all of them by the count, each fits in turn |
| CacheOverflow.SameLimitsOverflow | src/persistence.ts:379-385 | a reachable cache, a body within the limits throughout, and its patch: replayed on the same contents under the same limits it loses a key, and the condition says so beforehand |
| CacheOverflow.ShrinkFirst | src/persistence.ts:379-385 | the same writes in the other order fit one after the other, without room by the count |
| CacheOverflow.RewrittenSpared | src/persistence.ts:379-385 | a replay in which a write overflows and yet nothing is lost |
| CacheRecovery.RestartShowsLive | src/persistence.ts:301-331 | end to end: whatever a server does, reads, sweeps, calls of atomicChanges accepted, refused or thrown halfway, restarts, wherever its disk stands, dump loaded and newer patches applied, at any later time, show readers exactly what the live cache shows; of each accepted call only that its writes fitted one after the other when it was logged |
| CacheRecovery.SingleKeyFits | src/cache.ts:375-404 | that is so for every call whose body is single-key operations on one key, evictions included |
| CacheRecovery.OneKeyFits | src/cache.ts:375-404 | and for every call after which all keys but one show what they did, or nothing |
| CacheRecovery.LoggedCallReplays | src/cache.ts:375-404 | one accepted call: its patch brings any replica from what the cache showed before to what it showed after if and only if eviction spares what readers see |
| CacheClocks.IncrKeepsBytesIff | src/cache.ts:685-720 | with two clock readings the byte total stays the sum of entry sizes if and only if the counter does not expire between them; otherwise its old size is counted for ever |
| PatchRecords.AcceptedRecordTorn | src/persistence.ts:473-475 | the record of any accepted patch, cut inside its text, is recognised as torn, and whole it is not |
| CachePatches.DeleteAllRemoves | src/persistence.ts:380-381 | the deletions of a patch remove exactly their keys |
| CachePatches.SetAllStores | src/persistence.ts:382-383 | when each write of a patch fits in turn, all of them stay and nothing else moves |
| CacheContents.OperationsMean | src/cache.ts:362-990 | each single-key call depends, for its reply and for what its key shows afterwards, only on what its key showed before: LRU order, expired leftovers, counters and limits never show; other keys keep what they showed unless evicted; only set, setAt, incr and cas evict, and with room for one more entry none does |
| CacheContents.IncrMeans | src/cache.ts:685-720 | an absent or expired counter starts at zero without a deadline, a live one keeps its deadline, a non-number is refused |
| CacheContents.CasMeans | src/cache.ts:745-804 | succeeds exactly when the visible value, or its absence, is the expected one; without a TTL a live key keeps its deadline |
| CacheContents.RedateMeans | src/cache.ts:933-990 | only the deadline of a visible entry changes; an invisible one stays invisible |
| CacheContents.PlaceShows | src/cache.ts:497-569 | the stored entry shows, others show what they did or are evicted, and none is while there is room |
| CacheContents.SettleShows | src/cache.ts:295-301 | lazy expiry changes nothing any reader sees |
| CacheContents.ClearPrefixMeans | src/cache.ts:590-606 | exactly the namespace becomes invisible |
| CacheContents.SweepMeans | src/cache.ts:993-1004 | a sweep changes nothing any reader sees and leaves no due entry |
| CacheBatches.DeadlinePrecedence | src/cache.ts:247-265 | an explicit TTL comes before that of the namespace, the text before the first colon, and that before the default; each is refused exactly when negative or past the safe integers |
| CacheBatches.MSetMeans | src/cache.ts:660-678 | mset writes the whole batch or throws and writes nothing; of each key its last write counts, and is found unless evicted by a later one; the final write is found; with room for the batch all are, and every other key shows what it did |
| CacheBatches.RestoreMeans | src/cache.ts:840-901 | restore takes the whole list or nothing and reports how many were not past their deadline; those are found unless evicted for lack of room, every other key keeps its entry or is evicted |
| CacheBatches.ClearPrefixCounts | src/cache.ts:590-604 | clearPrefix reports exactly how many entries it took out, and keeps the order of the rest |
| CacheBatches.SweepCounts | src/cache.ts:993-1004 | so does sweep |
| CacheSnapshots.ReplaceRestoresDump | src/cache.ts:810-901 | replacing any cache by a dump taken earlier throws, changing nothing but the generation, exactly when a dumped deadline is beyond the safe integers; otherwise it holds exactly the dumped entries not due by then, in LRU order, none evicted |
| CacheSnapshots.ReplacedShows | src/cache.ts:810-901 | readers of the replaced cache find from then on what readers of the dumped one would |
| CacheSnapshots.UnsafeDeadlineSpoilsDump | src/cache.ts:464-477 | after one accepted deadline beyond the safe integers, no dump of that state can be restored anywhere |
| CacheSnapshots.RestoredInOrder | src/cache.ts:879-891 | restoring dumped entries appends those not due, in order, whatever is already there under other keys |
| CacheSnapshots.RestorableIff | src/cache.ts:840-878 | dumped entries pass restore's checks exactly when their deadlines are safe integers |
| Cache.KVCache.Bump | src/cache.ts:406-424 | the object's versions, epoch, generation and change sets move as the function Bump says |
| Cache.KVCache.PruneTombstones | src/cache.ts:413-423 | the loop over a list it deletes from prunes exactly what Prune says |
| Cache.KVCache.RemoveExpired | src/cache.ts:295-301 | entry, bytes, counter, version and event in one step |
| Cache.KVCache.NotifyExpired | src/cache.ts:271-282 | the event waits in the innermost frame, once, or is delivered |
| Cache.KVCache.EvictIfNeeded | src/cache.ts:549-569 | the eviction loop is Evict, which EvictShortest describes |
| Cache.KVCache.Get | src/cache.ts:427-444 | lazy expiry, LRU touch, counters and the value found, as DoGet, of which CacheOrder.GetTouches and CacheContents.OperationsMean speak |
| Cache.KVCache.Set | src/cache.ts:451-461 | deadline from explicit, namespace or default TTL; refused arguments change nothing |
| Cache.KVCache.StoreOwned | src/cache.ts:479-508 | store and evict, or drop the key when its deadline has passed |
| Cache.KVCache.MSet | src/cache.ts:660-678 | all writes are validated before the first |
| Cache.KVCache.Del | src/cache.ts:571-583 | an expired entry counts as absent |
| Cache.KVCache.ClearPrefix | src/cache.ts:590-606 | exactly the keys of the namespace go, and their number is returned |
| Cache.KVCache.Clear | src/cache.ts:641-645 | new versions first, then everything goes |
| Cache.KVCache.Incr | src/cache.ts:685-720 | the counter, its kept deadline and the byte total, with both clock readings |
| Cache.KVCache.AtomicChanges | src/cache.ts:375-404 | body, patch in the order keys changed, then commit or rollback, as DoAtomicChanges, of which CacheChanges.RefusedRestores and AnswersIff speak |
| Cache.KVCache.GatherPatch | src/cache.ts:385-400 | the loop over the changed keys |
| Cache.KVCache.Cas | src/cache.ts:745-804 | compare by structure, then store, drop or leave alone |
| Cache.KVCache.Restore | src/cache.ts:840-901 | validated as a whole, past deadlines skipped, eviction without a clock |
| Cache.KVCache.ExpireAt | src/cache.ts:933-959 | a deadline already reached expires the entry at once |
| Cache.KVCache.Sweep | src/cache.ts:993-1004 | every due key expires, and their number is returned |
| Cache.KVCache.GetVersion | src/cache.ts:362-368 | settles expiry first, then the version or the absent epoch |
| Cache.KVCache.CommitFrame | src/cache.ts:336-349 | an inner frame hands its events up; the outermost delivers them |
| Cache.KVCache.RollbackFrame | src/cache.ts:350-354 | the three maps and all scalars return to the frame's saved state |
| Cache.KVCache.Dump | src/cache.ts:810-827 | the live entries in LRU order with their absolute deadlines; nothing changes |
| Cache.KVCache.Replace | src/cache.ts:833-838 | clear and restore in one frame, undone as a whole when a write is refused |
| CacheTransactions.ExecAllOrNothing | src/cache.ts:1365-1386 | an aborted exec changes nothing beyond its check, a failing one nothing but the generation |
| CacheTransactions.ExecExact | src/cache.ts:1365-1386 | exec aborts if and only if some watched key is due or no longer has the version recorded, fails if and only if otherwise some queued write throws; a commit answers the replies of the queued writes, one each and in order, and leaves what they leave |
| CacheTransactions.ExecSeesWatched | src/cache.ts:1365-1374 | unless exec aborts, each watched key holds, where the queue starts, the very entry it held at watch, whatever happened since |
| CacheTransactions.ExecDelivers | src/cache.ts:336-349 | a commit outside other frames delivers each key whose expiry the queue noticed, once |
| CacheRuns.CheckStands | src/cache.ts:1365-1374 | the version check passes exactly when every recorded version stands, and then it has changed nothing |
| CacheTransactions.KVTransaction.Commit | src/cache.ts:1365-1386 | exec on the object: once only, and as Exec, of which ExecExact and ExecSeesWatched speak |
| CacheTransactions.KVTransaction.Watch | src/cache.ts:1224-1232 | records the version the key has after lazy expiry |
| AppendLog.AofLog.Append | src/persistence.ts:462-488 | the next number; a failed write marks the log corrupt; a corrupt log, an exhausted sequence and an oversized record refuse and change nothing |
| AppendLog.AofLog.ReadLastSequence | src/persistence.ts:490-527 | the last number of the increasing records before the first bad line; a torn tail is truncated |
| AppendLog.AofLog.Replay | src/persistence.ts:566-618 | only records newer than the snapshot, in order; later numbers start above snapshot and log; an operation that throws marks the log corrupt and stops the replay before it |
| AppendLog.AofLog.RotateAfter | src/persistence.ts:626-693 | the log becomes exactly the newer records, or is left alone when corrupt |
| AppendLog.AofLog.Scan | src/persistence.ts:529-563 | which records are read, when the log is torn or corrupt, and what is cut off |
| AppendLog.IncreasingGood | src/persistence.ts:494-520 | increasing records are all read back, whatever bad line follows |
| AppendLog.RotatedReads | src/persistence.ts:626-693 | a rotated log reads back as the kept records, clean |
| Durability.CrashSafety | src/persistence.ts:301-693 | at every point of every careful run, snapshot plus newer records is the state of all accepted operations, none lost or twice, and the next number exceeds the snapshot's and every record's |
| Durability.NextSafe | src/persistence.ts:462-693 | every careful step of append, failing append, capture, snapshot rename, rotation, crash, loss of a covered log and recovery keeps the disk recoverable, logs with a bad line the snapshot covers included |
| Durability.RecoveredAccepted | src/persistence.ts:301-331 | replaying only newer records onto the snapshot gives exactly what was accepted |
| Durability.AppendKeptIff | src/persistence.ts:462-488 | from any safe state, an append acknowledged, refused or dying anywhere in its write leaves exactly the accepted operations recoverable if and only if nothing was written, or the line was terminated and no refused write stopped just before its newline, or the append was not acknowledged and the snapshot covers the last number |
| Durability.RefusedAppendReturns | src/persistence.ts:476-484 | a concrete run in which a refused append is back after a restart |
| Durability.NewlineCutLosesAnAppend | src/persistence.ts:529-563 | a concrete run in which an acknowledged append is lost |
| Durability.RotateKeptIff | src/persistence.ts:626-693 | after rotating by a committed number, the next acknowledged append and all before it are recoverable if and only if a newer record remained or the number is the last one |
| Durability.RotatedLoses | src/persistence.ts:690-692 | otherwise fewer operations are recoverable than were accepted |
| Durability.OlderRotationLosesAnAppend | src/persistence.ts:626-693 | a concrete run in which an append acknowledged after such a rotation is lost |
| Durability.CrashSafetyIff | src/persistence.ts:301-693 | after any careful run, any further step keeps the promise if and only if it is careful |
| Durability.NewerAreTheRest | src/persistence.ts:566-618 | the records a restart replays are those of the operations the snapshot does not cover |
| Durability.RecoverSafe | src/persistence.ts:566-618 | recovery brings back the accepted operations and a usable process |
| Durability.LoseLogSafe | src/persistence.ts:612-616 | a missing log that the snapshot covers, torn or with a bad line or not, loses nothing, and numbers go on above the snapshot's |
| Durability.RotateNewestCareful | src/persistence.ts:626-693 | rotating by the number of the newest committed snapshot, its normal use, is always careful |
| Durability.DyingAppendSafe | src/persistence.ts:462-488 | a process dying anywhere inside a write on a terminated log leaves a recoverable disk |
| Durability.Restart | src/persistence.ts:435-439 | opening the log object on what a crash left is the protocol's recovery step |
| Durability.LogAppend | src/persistence.ts:462-488 | an append on the log object is the protocol's append step |
| Durability.LogRotate | src/persistence.ts:626-693 | a rotation on the log object is the protocol's rotation step |
| CacheAside.NeverStaleAgain | examples/production-integration.js:177-250 | across all interleavings, once the tombstone for a commit has taken effect the cache never again holds a source read made before that commit |
| CacheAside.ExecMoves | src/cache.ts:1365-1386 | another client's transaction, aborted, rolled back or committed, moves the key's version or leaves it |
| CacheAside.NextFenced | examples/production-integration.js:177-231 | each step keeps: a refresh whose watched version still stands has read a source no older than the fence |
| CacheAside.FillMoves | examples/production-integration.js:196-204 | a fill commits only while the watched version stands |
| CacheAside.TombstoneMoves | examples/production-integration.js:212-231 | the tombstone SET moves the version even when the key was absent |
| CacheAside.DeleteDoesNotFence | examples/production-integration.js:214-215 | DEL of an absent key moves no version, so a watching fill would still commit |
| RespProofs.RoundTrip | src/protocol.ts:97-119 | an accepted reply decodes to itself (null item as null bulk, error line breaks as spaces) with an empty parser, if and only if every nil leaves room for one more level; otherwise it is refused |
| RespProofs.RoundTripWider | src/protocol.ts:32-119 | what round-trips at the encoder's limits does so through every decoder with wider ones |
| RespProofs.FeedReply | src/resp-reader.ts:47-179 | the same at any array depth inside a larger reply |
| RespProofs.ChunkIndependence | src/resp-reader.ts:114-179 | if one push of the bytes succeeds, every splitting succeeds with the same replies and final state |
| RespProofs.DeepNilBreaks | src/protocol.ts:32-33 | a reply the encoder accepts and the decoder refuses |
| RespReading.RespReader.Push | src/resp-reader.ts:114-187 | the buffered reader refines the byte-at-a-time decoder; a refused push leaves an empty parser; the line buffer is never written past its end |
| RespReading.RespReader.TakeBulk | src/resp-reader.ts:124-152 | bodies copied in runs act as bytes taken one by one |
| RespReading.RespReader.HeaderLine | src/resp-reader.ts:61-113 | a complete line delivers, opens a bulk or an array, or is refused |
| RespReading.RespReader.EmitValue | src/resp-reader.ts:47-60 | a value completes every array it is the last item of |
| RespReading.ReplyByteLength | src/protocol.ts:32-74 | the preflight answers exactly the encoded length, and exactly for the replies within the limits |
| RespReading.RequestArgv | src/protocol.ts:150-161 | a request is accepted exactly when it is a non-empty array of non-null bulk strings |
| RespReading.CommandRoundTrip | src/protocol.ts:124-134 | an encoded command decodes to its arguments |
| Ordering.TopK.Add | src/query-utils.ts:21-46 | after any adds the heap is a max-heap of the k least values seen |
| Ordering.TopK.Sorted | src/query-utils.ts:47-49 | the first k of everything added, fully sorted |
| Ordering.SmallestPart | src/query-utils.ts:15-50 | sorting a part that lies below the rest gives the front of sorting all |
| Ordering.SortedUnique | src/query-utils.ts:47-49 | a strictly comparable collection has one sorted arrangement |
| Ordering.SwapUp | src/query-utils.ts:26-31 | one sift-up step keeps the heap but for one place |
| Ordering.SwapDown | src/query-utils.ts:35-43 | one sift-down step keeps the heap but for one place |
| Like.MatchLike | src/query-utils.ts:53-77 | the greedy matcher with one backtracking point decides its language, and answers whenever the step cap cannot be reached |
| Like.Sound | src/query-utils.ts:53-77 | a true answer means the text is in the pattern's language, for every text |
| Like.Complete | src/query-utils.ts:53-77 | for texts without a percent sign a false answer means it is not |
| Like.LikeExact | src/query-utils.ts:62-71 | the matcher is right on all patterns exactly for the texts without a percent sign |
| Like.StarAbsorbs | src/query-utils.ts:64-70 | forgetting earlier stars on meeting a new one loses nothing |
| Identity.IdentityIffSame | src/query-utils.ts:5-12 | two values have the same key text if and only if they are structurally equal, whatever their key order |
| Identity.TextUnique | src/query-utils.ts:5-12 | JSON text determines the value, and where it ends |
| StructuralEquality.StructuralEqual | src/value.ts:6-69 | the worklist with its memo of compared pairs answers structural equality, both ways |
| StructuralEquality.NothingPending | src/value.ts:27-34 | pairs skipped because they were met before are in fact equal once the worklist is empty |
| SqlIndexes.PlanMissesNothing | src/executor.ts:315-376 | every row that makes the WHERE clause TRUE is among the index plan's candidates |
| SqlIndexes.ExactAdd | src/executor.ts:269-284 | an added entry keeps the index the inverse image of its column |
| SqlIndexes.ExactRemove | src/executor.ts:286-297 | a removed entry keeps it so, leaving no empty bucket |
| SqlIndexes.ExactReplace | src/executor.ts:891-894 | replacing a row's entry keeps it so |
| SqlQueries.ScanIsKept | src/executor.ts:725-755 | visiting complete candidates in ascending order is filtering the whole table |
| SqlQueries.RowOrderTotal | src/executor.ts:729-740 | the ORDER BY comparator, nulls last in either direction, is a total preorder |
| SqlQueries.RowOrderStrict | src/executor.ts:729-740 | rows of one table never compare equal |
| SqlMeaning.WhereMeans | src/executor.ts:959-1111 | a WHERE clause is TRUE exactly when it holds and FALSE exactly when it fails in three-valued logic, for every operator, null and list; only TRUE keeps a row |
| SqlMeaning.RowOrderMeans | src/executor.ts:729-740 | one row may stand before another exactly when: numbers by value, texts by collation, false before true, types in the order number, text, boolean, array, object, reversed when descending; nulls last either way; ties by ascending id |
| SqlMeaning.QueryMeans | src/executor.ts:720-759 | SELECT reads the rows that make WHERE true, each once, in that order, less OFFSET and up to LIMIT |
| SqlMeaning.SelectMeans | src/executor.ts:712-801 | and answers exactly the fields asked for of those rows, or refuses an unknown column or too large an answer |
| SqlSizes.AnswerCovers | src/executor.ts:771-783 | the bytes charged for an answer cover its JSON text, by at most two bytes a row and one more |
| SqlSizes.RowTextSize | src/executor.ts:675-681 | the bytes charged for a stored row are those of its JSON text, in whatever order its columns were given |
| SqlStores.FreshIffUnique | src/executor.ts:511-536 | the key check passes exactly when the resulting table has unique keys, swapped keys included |
| SqlStores.TextsUniqueIff | src/executor.ts:511-536 | unique key texts are exactly structurally unique keys |
| SqlChanges.OverlayIsUpdated | src/executor.ts:845-902 | changing rows one by one in any order is updating every kept row at once, bytes included |
| SqlChanges.GoneIsUnmatched | src/executor.ts:908-935 | deleting the kept rows one by one leaves exactly the others |
| SqlPrepare.RowsPrepared | src/executor.ts:622-668 | prepared rows hold only storable values |
| SqlWrites.CoerceMeans | src/executor.ts:466-509 | which values a column takes and as what: kinds unchanged, numbers and booleans read out of texts, null only where nullable and never in the key; otherwise which error |
| SqlWrites.TargetsMean | src/executor.ts:598-620 | the target columns are those named, in the order named, or all; refused exactly for a repeated or unknown name |
| SqlWrites.PreparedRow | src/executor.ts:624-666 | each target column holds its own value, every other column its default or null, and the row has nothing else; refused only for the number of values or a value or default its column cannot store |
| SqlWrites.PreparedRows | src/executor.ts:622-668 | the prepared rows come in the order of the values |
| SqlWrites.InsertMeans | src/executor.ts:587-710 | INSERT puts all its rows after those of the table, in order, under the next ids, or is refused for cause and changes nothing |
| SqlWrites.AssignMeans | src/executor.ts:803-860 | assignments give each assigned column its value and leave every other column alone |
| SqlWrites.UpdateMeans | src/executor.ts:803-904 | UPDATE changes exactly the rows its WHERE makes true, in them exactly the assigned columns, and counts them, or is refused for cause and changes nothing |
| SqlWrites.DeleteMeans | src/executor.ts:905-936 | DELETE takes out exactly the rows its WHERE makes true, keeps the order of the rest, and counts them |
| SqlWrites.StatementMeans | src/executor.ts:205-234 | each statement does so on the table it names and touches no other |
| SqlWrites.TablesMean | src/executor.ts:540-585 | CREATE adds one empty table with the columns and key given, DROP takes out one table, a statement on a missing table is refused |
| SqlTables.SqlTable.Visit | src/executor.ts:313-376 | candidates miss no kept row and repeat none |
| SqlTables.SqlTable.Collect | src/executor.ts:725-758 | early LIMIT, index order and the bounded heap give the same rows in the same order as filter, sort, slice |
| SqlTables.SqlTable.CollectWindow | src/executor.ts:748-755 | stopping when the window is full changes nothing |
| SqlTables.SqlTable.CollectTop | src/executor.ts:741-758 | the bounded heap gives the front of the fully sorted matches |
| SqlTables.SqlTable.ExecuteSelect | src/executor.ts:712-801 | with any indexes, the answer of the naive query or its error, as DoSelect, of which SqlMeaning.SelectMeans speaks |
| SqlTables.SqlTable.AssertPrimaryKeyUnique | src/executor.ts:511-536 | true exactly when the table that would result has structurally unique keys |
| SqlTables.SqlTable.ExecuteInsert | src/executor.ts:587-710 | all rows or none, as InsertInto, of which SqlWrites.InsertMeans speaks; indexes, key index, ids, sizes and totals exact afterwards |
| SqlTables.SqlTable.ExecuteUpdate | src/executor.ts:803-906 | every kept row or none; key swaps allowed; all structures exact afterwards |
| SqlTables.SqlTable.ExecuteDelete | src/executor.ts:908-936 | exactly the kept rows go; all structures exact afterwards |
| SqlTables.SqlTable.ReleaseKeys | src/executor.ts:879-884 | the old keys of all changing rows leave the key index before any new one enters |
| SqlTables.SqlTable.DeleteRow | src/executor.ts:378-387 | row, entries, key and size go together |
| SqlTables.BuildResult | src/executor.ts:767-796 | the result is charged row by row and refused exactly when it does not fit |
| SqlExecution.StatementKeeps | src/executor.ts:215-234 | every statement keeps ids ascending, keys unique, totals exact and all limits; one that fails changes nothing |
| SqlExecution.RunsKeepTotals | src/executor.ts:538-957 | so after any run from an empty executor |
| SqlExecution.ChangeKeeps | src/executor.ts:587-936 | INSERT, UPDATE, DELETE and SELECT, on the table they name |
| SqlExecution.DropKeeps | src/executor.ts:938-957 | dropping a table frees exactly its rows and bytes |
| SqlExecution.SqlExecutor.ExecuteStatement | src/executor.ts:215-234 | whatever columns are indexed, a statement does and answers what it means on bare tables, other tables untouched |
| SqlExecution.SqlExecutor.ExecuteCreateTable | src/executor.ts:540-585 | an empty table with exactly the configured indexes, or the error and no change |
| JsonBudget.CloneJsonValue | src/json.ts:8-135 | a value is cloned exactly when depth and node limits hold and its JSON text's UTF-8 length is within the byte limit |
| JsonBudget.Account.Visit | src/json.ts:41-133 | from any point of the account, exactly the fitting values pass, and the account is then exact |
| JsonBudget.Account.StringBytes | src/json.ts:23-40 | a text passes exactly when its quoted form fits; the early length test refuses none that would |
| JsonBudget.TextBytes | src/json.ts:26-39 | the charges of a text are the UTF-8 bytes of its escaped form, surrogate pairs and lone surrogates included |
| JsonBudget.ObjectText | src/json.ts:107-112 | braces, commas, keys, colons and values add up to the object's text |
| JsonPrefix.IsIncompleteJson | src/json-prefix.ts:3-100 | true exactly when the text is not valid JSON, some suffix makes it valid, and its brackets do not nest beyond the limit |
| JsonPrefix.GivenUpIff | src/json-prefix.ts:36-53 | a text some suffix completes is given up exactly when, outside strings, an array bracket beyond the 256th open one is not closed at once or a colon stands inside more than 256 |
| JsonGuard.ValueGuarded | src/json-prefix.ts:36-65 | from any depth, the scanner's verdict agrees with the count of open brackets |
| JsonPrefix.IncompleteIff | src/json-prefix.ts:3-100 | the same as a theorem about the scanner against the grammar |
| JsonPrefix.ShallowIff | src/json-prefix.ts:36-37 | a text with a completion of nesting below 256 is never given up: it is answered true exactly when not valid itself |
| JsonPrefix.ValueMore | src/json-prefix.ts:36-93 | more text changes no verdict already reached, but for a number still growing |
| JsonPrefix.ValueDeep | src/json-prefix.ts:37 | a text given up as too deep is too deep for a limit one lower, however it goes on |
| JsonGrammar.ValueReads | src/json-prefix.ts:36-93 | every grammatical value is read whole, unless it nests deeper than the limit |
| JsonGrammar.NumberReads | src/json-prefix.ts:79-92 | every number of the grammar is matched whole before what may follow a value |
| JsonCompletion.ValueSpell | src/json-prefix.ts:36-93 | what is read is spaces and a grammatical value |
| JsonCompletion.ValueExtend | src/json-prefix.ts:36-93 | what is called incomplete is completed by the suffix constructed |
| JsonScanner.Recogniser.ReadValue | src/json-prefix.ts:36-93 | the shared cursor moves as the scanner on the remaining text says |
| JsonScanner.Recogniser.ReadChars | src/json-prefix.ts:19-34 | the string loop, escapes and hex digits included |
| JsonRecords.TornRecord | src/persistence.ts:529-551 | every strict prefix of a serialised object nesting less than 256 deep is recognised as torn |
| JsonRecords.TreeText | src/json.ts:137-139 | serialised text is grammatical, with the value's own nesting |
| JsonRecords.ReadsBack | src/json.ts:137-139 | the text written for a value spells, by the grammar, a tree that denotes that very value, escapes and surrogates included |
| JsonRecords.OpenBrackets | src/json-prefix.ts:36-53 | n open brackets are never valid, always completable, and answered true exactly up to 256 |

## Left out

- Sockets, TLS, timers, pooling (`src/client.ts`, `src/transport.ts`, `src/deadline.ts`) and the server.
- The SQL parser: statements start as syntax trees. EXPLAIN, PROFILE, slow logs and statistics.
- Real file I/O and fsync: an append may stop anywhere, a rename is one step. Snapshot file bytes.
- Log records without sequence numbers or with relative TTLs: their promises are weaker.
- The LIKE step cap inside queries: the naive query has no cap, and a scan could hit it on a row an index skips.
- The generation limit of versions.
- Fractional numbers and negative zero: numbers are integers.
- JavaScript object hazards in cloning (accessors, prototypes, symbols, cycles, sparse arrays).
- The background sweeper, its budget, and the batched namespace clear.
- Local first-level cache and pub/sub in the production example, documented there as best effort.
- Cache.KVCache.Bump: the throw when the version generation is exhausted.
- CacheInvariant.IncrSteps: one clock reading; what two readings do is CacheClocks.IncrKeepsBytesIff.
- SqlTables.SqlTable.ExecuteSelect: the LIKE step cap, as said above.
- JsonBudget.CloneJsonValue: texts of fractional numbers.
- CacheAside.NeverStaleAgain: for one key, with every other use of the shared cache as an arbitrary call or transaction that stores nothing under it.
- RespProofs.RoundTrip: texts are well-formed UTF-8; decoders with wider limits are RespProofs.RoundTripWider.
- StructuralEquality.StructuralEqual: values are trees with distinct keys; the memo's shared or cyclic objects have no counterpart.
