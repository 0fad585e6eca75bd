# Models of a Bitcoin-family node's data structures and codecs

Seven components of the node, each a data structure or protocol with a simple meaning and an
intricate implementation, modelled in Dafny and proved to have that meaning.

- **Coin caches** (`Coins`, `CoinsRuns`, `CoinsViewCache`): stacked caches with DIRTY and FRESH
  flags over a database behave like one flat map per layer, in every run.
- **Address manager** (`AddrMan*`): seven mutually redundant indexes stay consistent in every run;
  the test-before-evict protocol evicts only by its rules; the consistency check is characterised
  exactly, for runs and for arbitrary files; saving and loading lose nothing, and restarts may occur
  anywhere in a run.
- **Check queue** (`CheckQueue`): the master/worker protocol as a state machine, one step per
  critical section; `Wait` is exact in every interleaving and always returns.
- **Cuckoo cache** (`Cuckoo`, `CuckooCache`): displacement, lazy collection and two generations.
- **Headers sync** (`HeadersSync*`): the two-phase download with commitments and lookahead buffer.
- **Block index and 256-bit arithmetic** (`Chain`, `ArithUint256`, `BlockTrust`): skip pointers,
  the active chain, limb arithmetic, compact targets and block trust.
- **Address codecs** (`Base58`, `Bech32`, `Bech32Text`, over `Radix` and `BitOps`). Bech32 follows
  the sections "Bech32" of BIP 173 and "Bech32m" of BIP 350.

Each component is written twice where the source updates state: as functions on values, about which
the theorems are proved, and as classes with mutable fields and arrays (or methods with loops) whose
contracts tie the new state to those functions. Hashes, commitment salts and host classifications
are abstract functions; clock readings, random draws and the iteration order of hash maps are
arguments, so every statement holds for all of them. `dafny verify dfyconfig.toml` checks the whole
project.

Where the code and its documentation differ, the model follows the code:

- `src/cuckoocache.h:426-437`: the comment says the first displacement takes `locs[0]`; the
  expression selects `locs[1]`.
- `src/coins.cpp:130-150`: `SpendCoin` also returns true for an entry that is cached as spent.
- `src/coins.cpp:79-83`: `AddCoin` lowers the usage counter before it may throw.
- `src/cuckoocache.h:64-71`: flags for the largest sizes the comments allow wrap around to too few
  bytes; the cache model is constructed for the sizes where they do not.

## Model

| member | source | states |
|---|---|---|
| `Coins.GetKeepsViews` | src/coins.cpp:44-68 | Looking a coin up in a stack of caches of any depth fills caches on the way, keeps the invariant and every layer's answers, and returns exactly what the stack means at that outpoint. |
| `Coins.FetchKeepsViews` | src/coins.cpp:44-59 | FetchCoin changes no answer of any layer; the entry it leaves answers as the stack did. |
| `Coins.AddIsUpdate` | src/coins.cpp:70-109 | AddCoin where overwriting is allowed or the view has no unspent coin: it does not throw, keeps the invariant and changes the view at that outpoint only (not at all for unspendable or skipped zero-value outputs). |
| `Coins.AddKeepsInvExactlyWhen` | src/coins.cpp:70-109 | AddCoin that does not throw keeps the invariant if and only if the coin is ignored, overwriting is allowed, the outpoint is already cached, or the parent has no unspent coin there; otherwise FRESH is wrong. |
| `Coins.AddThrowMiscounts` | src/coins.cpp:79-96 | When AddCoin throws, the view is unchanged, and the usage counter is still right if and only if the entry used no dynamic memory. |
| `Coins.SpendIsRemoval` | src/coins.cpp:130-150 | SpendCoin keeps the invariant, removes the outpoint from the view and changes nothing else, whatever it returns. |
| `Coins.UncacheKeepsView` | src/coins.cpp:282-295 | Uncache drops an entry only where that changes no answer. |
| `Coins.WriteEntryOk` | src/coins.cpp:183-253 | One entry written into the parent: the result is in a legal flag state over what lies below and answers as child over parent did. |
| `Coins.BatchWriteInstallsView` | src/coins.cpp:183-253 | Writing a consistent child into its parent never reaches the "FRESH flag misapplied" exception; the parent keeps its invariant and then answers like child and parent together. |
| `Coins.FlushPushesView` | src/coins.cpp:255-263 | Flush: the cache is empty, its answers are unchanged, and the parent now gives the same ones. |
| `Coins.SyncPushesView` | src/coins.cpp:265-280 | Sync: entries kept are clean, answers are unchanged, and the parent now gives the same ones. |
| `CoinsRuns.StepRefines` | src/coins.cpp:44-295 | Each operation at any layer (lookup, add, spend, uncache, flush, sync, pushing or dropping a cache) does not throw and does to the layers' meanings what one flat map per layer would do. |
| `CoinsRuns.RunRefinesMaps` | src/coins.cpp:44-295 | Every run of permitted operations finishes without exception, keeps the invariant (flag states, FRESH meaning, usage sums), and gives the answers of the flat maps. |
| `CoinsRuns.FlushAllReachesBottom` | src/coins.cpp:255-263 | Flushing all layers from the top down makes the database equal the flat map and leaves the meaning as it was. |
| `CoinsRuns.RunThenFlushAll` | src/coins.cpp:44-295 | From an empty database, any permitted run followed by flushing everything leaves in the database exactly the flat map of the same adds and spends. |
| `CoinsViewCache.CoinsViewDB.BatchWrite` | src/txdb.cpp:115-171 | The database stores dirty unspent coins, erases dirty spent ones and ignores the rest; the child map is emptied when asked. |
| `CoinsViewCache.CoinsViewCache.OverDatabase` | src/coins.cpp:35-42 | A new cache over the database is empty and means what the database means. |
| `CoinsViewCache.CoinsViewCache.OverCache` | src/coins.cpp:35-42 | A new cache over a cache is empty and means what its parent means. |
| `CoinsViewCache.CoinsViewCache.FetchCoin` | src/coins.cpp:44-59 | The new state of the whole stack is that of Fetch, and the result tells whether an entry is cached. |
| `CoinsViewCache.CoinsViewCache.GetCoin` | src/coins.cpp:61-68 | Found coin and new state of the stack are those of Get. |
| `CoinsViewCache.CoinsViewCache.HaveCoin` | src/coins.cpp:163-166 | True exactly when Get finds an unspent coin; same new state. |
| `CoinsViewCache.CoinsViewCache.AddCoin` | src/coins.cpp:70-109 | New state and exception are those of Add and AddThrows, the usage counter included. |
| `CoinsViewCache.CoinsViewCache.SpendCoin` | src/coins.cpp:130-150 | New state is that of Spend; returns whether an entry was cached after fetching (true for one already spent) and the coin moved out. |
| `CoinsViewCache.CoinsViewCache.UncacheCoin` | src/coins.cpp:282-295 | New state is that of Uncache. |
| `CoinsViewCache.CoinsViewCache.WriteOne` | src/coins.cpp:184-249 | One child entry: throws exactly on a misapplied FRESH flag, otherwise rewrites that outpoint only, and the usage counter moves with the sum of usages. |
| `CoinsViewCache.CoinsViewCache.WriteAll` | src/coins.cpp:183-253 | The loop over the child throws if and only if some entry is misapplied; otherwise every outpoint is as written, in whatever order they were visited. |
| `CoinsViewCache.CoinsViewCache.WriteToBase` | src/coins.cpp:255-280 | BatchWrite on the parent, cache or database, does what Coins.BatchWrite says. |
| `CoinsViewCache.CoinsViewCache.Flush` | src/coins.cpp:255-263 | New state is that of Coins.Flush unless a FRESH flag is misapplied, and exactly then it throws. |
| `CoinsViewCache.CoinsViewCache.Sync` | src/coins.cpp:265-280 | New state is that of Coins.Sync unless a FRESH flag is misapplied, and exactly then it throws. |
| `CoinsViewCache.CoinsViewCache.CleanAll` | src/coins.cpp:270-278 | The loop of Sync: spent entries go, the others lose their flags, and the usage counter stays exact. |
| `CoinsViewCache.CoinsViewCache.SanityCheck` | src/coins.cpp:321-336 | True exactly when all flag states are legal and the usage is the sum over the cached coins; so true in every consistent stack. |
| `AddrManSteps.SwapKeeps` | src/addrman.cpp:437-459 | Exchanging two positions of vRandom keeps every index consistent and changes nothing but positions. |
| `AddrManSteps.AdmitKeeps` | src/addrman.cpp:421-435 | A created entry leaves all indexes consistent, itself being without references yet. |
| `AddrManSteps.DeleteKeeps` | src/addrman.cpp:461-476 | Deleting an entry without references keeps all indexes consistent and removes exactly that entry. |
| `AddrManSteps.ClearNewKeeps` | src/addrman.cpp:478-494 | Clearing a slot of the new table keeps all indexes consistent, empties the slot, and deletes at most the entry that was there. |
| `AddrManSteps.UnlinkAllKeeps` | src/addrman.cpp:500-510 | The loop over all new buckets, starting anywhere and stopping early, removes every reference to the entry. |
| `AddrManSteps.EvictKeeps` | src/addrman.cpp:520-545 | The holder of a tried slot is back in the new table with one reference, the slot is free, and all indexes agree. |
| `AddrManSteps.MakeTriedKeeps` | src/addrman.cpp:496-553 | MakeTried keeps all indexes consistent: the entry is tried, at its slot, the previous holder is not, all others stay as they were, and the number of tried entries grows exactly when the slot was empty. |
| `AddrManOps.InsertKeeps` | src/addrman.cpp:603-627 | Placing an entry in its new bucket, overwriting another or giving up and deleting it, keeps all indexes consistent. |
| `AddrManOps.AddSingleKeeps` | src/addrman.cpp:555-629 | AddSingle keeps the invariant; the tried table and the recorded collisions are untouched. |
| `AddrManOps.AddedIsThere` | src/addrman.cpp:555-629 | When AddSingle returns true the address has an entry, and the slot it has for this source refers to it. |
| `AddrManOps.AddKeeps` | src/addrman.cpp:685-695 | Adding any list of announcements keeps the invariant and the tried table. |
| `AddrManOps.GoodKeeps` | src/addrman.cpp:631-683 | A success reported from outside keeps the invariant; tried slots stay filled and tried entries stay tried. |
| `AddrManOps.GoodExactly` | src/addrman.cpp:631-683 | Good returns true if and only if the address has an entry that is not tried and whose tried slot is empty; then it is tried at that slot. With the slot taken both tables stay and the collision is recorded while there is room. |
| `AddrManOps.AttemptKeeps` | src/addrman.cpp:697-715 | Attempt keeps the invariant and the tried table. |
| `AddrManOps.ConnectedKeeps` | src/addrman.cpp:824-841 | Connected keeps the invariant and the tried table. |
| `AddrManOps.SetServicesKeeps` | src/addrman.cpp:843-857 | SetServices keeps the invariant and the tried table. |
| `AddrManCollisions.CollisionIsReal` | src/addrman.cpp:908-911 | A recorded collision whose entry exists has a taken tried slot: the "not a collision anymore" branch is never taken. |
| `AddrManCollisions.ResolveOneKeeps` | src/addrman.cpp:863-918 | One collision: the invariant is kept, no tried entry is deleted, and an entry leaves the tried table only if its last success is at least 4 hours old and it was last tried between 60 seconds and 4 hours ago, or the challenger has waited over 40 minutes. |
| `AddrManCollisions.ResolveExactly` | src/addrman.cpp:863-918 | The challenger takes the slot if and only if those conditions hold for the holder; otherwise at most the record of the collision is dropped. |
| `AddrManCollisions.ResolveCollisionsKeeps` | src/addrman.cpp:859-920 | A whole pass keeps the invariant, and every eviction in it is justified, by those rules, by what was known before the pass. |
| `AddrManCollisions.SelectTriedCollisionKeeps` | src/addrman.cpp:922-948 | What is returned is a tried entry in the slot of a recorded challenger; no entry is ever created for an empty slot. |
| `AddrManRuns.GetAddrKeeps` | src/addrman.cpp:786-822 | GetAddr keeps the invariant and returns at most its limit of addresses, none twice, all of the wanted network and none of low quality; below the limit it misses none. |
| `AddrManRuns.StepKeeps` | src/addrman.cpp:555-948 | Every operation keeps the invariant; filled tried slots stay filled; entries leave the tried table only in a pass over the collisions and by its rules. |
| `AddrManRuns.RunKeeps` | src/addrman.cpp:555-948 | Every run of operations with positive times keeps the invariant, never empties a tried slot and never lowers the number of tried entries. |
| `AddrManRuns.EmptyIsConsistent` | src/addrman.cpp:107-123 | The empty manager satisfies the invariant. |
| `AddrManRuns.RunTheorem` | src/addrman.cpp:555-948 | From an empty manager: consistent after any operations; between any two points of the run tried slots stay filled and nTried does not fall; the next operation lets tried entries leave only by the rules. |
| `AddrManCheck.CheckedExactly` | src/addrman.cpp:1010-1113 | A manager with a non-zero key is consistent if and only if it passes CheckAddrman and three things hold that the check does not look at: no extra address keys, ids below the next id, a count for every network present. |
| `AddrManCheck.ExplainsZero` | src/addrman.cpp:1010-1113 | The part-by-part account of the returned code gives zero exactly when Checked holds. |
| `AddrManCheck.IdleCountMasks` | src/addrman.cpp:1101-1110 | The size comparison can be fooled: drop the count of a network with entries, add a zero count for an idle one, and the check still passes. |
| `AddrManRead.SavedLengths` | src/addrman.cpp:182-205 | The assertions on nNew and nTried while saving never fail: the lists have exactly those lengths. |
| `AddrManRead.ReadTriedIs` | src/addrman.cpp:288-325 | Records of distinct addresses with distinct tried slots are all read, none is lost, and the indexes are consistent up to the references still to come. |
| `AddrManRestore.RestoreIs` | src/addrman.cpp:361-384 | With unchanged bucketing every saved reference goes back to its own slot and the new table is the saved one under the new ids. |
| `AddrManRoundTrip.TotalsFit` | src/addrman.cpp:268-280 | The range checks on nNew and nTried hold for every consistent manager. |
| `AddrManRoundTrip.RoundTrip` | src/addrman.cpp:131-404 | Loading what was saved, with the same hashes and asmap and any order of the entry map, succeeds and gives the same tables slot for slot, the same entries, reference counts and totals under a one-to-one renaming of ids; the final check passes if and only if the key is not zero, and a manager with the full invariant comes back with it. |
| `AddrManLoad.LoadedIsCheckedExactly` | src/addrman.cpp:230-404 | For an arbitrary file that can be read, with damaged references or one address twice: the final check passes if and only if all indexes of the loaded manager agree and the key is not zero, so no accepted file gives an inconsistent manager. |
| `AddrManRestarts.RunPassesCheck` | src/addrman.cpp:1010-1113 | After any run from an empty manager CheckAddrman returns zero, unless the key is zero. |
| `AddrManRestarts.RestartKeeps` | src/addrman.cpp:131-404 | Saving and loading a manager with the invariant never fails, keeps the invariant and loses no slot of either table. |
| `AddrManRestarts.LifeTheorem` | src/addrman.cpp:131-948 | From an empty manager, with any operations and any number of restarts in between: the invariant holds, the check passes unless the key is zero, and between any two points tried slots stay filled and nTried does not fall. |
| `AddrManImpl.AddrManImpl.constructor` | src/addrman.cpp:107-123 | All slots empty: the empty state, which is consistent. |
| `AddrManImpl.AddrManImpl.FindId` | src/addrman.cpp:406-419 | The id for an address, if there is an entry. |
| `AddrManImpl.AddrManImpl.Create` | src/addrman.cpp:421-435 | New state is that of Create; returns the new id. |
| `AddrManImpl.AddrManImpl.SwapRandom` | src/addrman.cpp:437-459 | New state is that of SwapRandom; both ids are found in mapInfo, as asserted. |
| `AddrManImpl.AddrManImpl.Delete` | src/addrman.cpp:461-476 | New state is that of Delete. |
| `AddrManImpl.AddrManImpl.ClearNew` | src/addrman.cpp:478-494 | New state is that of ClearNew; the reference count is positive, as asserted. |
| `AddrManImpl.AddrManImpl.UnlinkAll` | src/addrman.cpp:500-510 | The loop with its early exit gives the state of UnlinkAll. |
| `AddrManImpl.AddrManImpl.Evict` | src/addrman.cpp:520-545 | New state is that of Evict; the place is empty before it is written, as asserted. |
| `AddrManImpl.AddrManImpl.MakeTried` | src/addrman.cpp:496-553 | New state is that of MakeTried; all its assertions hold. |
| `AddrManImpl.AddrManImpl.AddSingle` | src/addrman.cpp:555-629 | Result and new state are those of AddSingle; the invariant is kept. |
| `AddrManImpl.AddrManImpl.Add` | src/addrman.cpp:685-695 | The loop over the announcements; true exactly when one was inserted. |
| `AddrManImpl.AddrManImpl.Good` | src/addrman.cpp:631-683 | Result and new state are those of Good; an entry that is not tried has references, as assumed there. |
| `AddrManImpl.AddrManImpl.Attempt` | src/addrman.cpp:697-715 | New state is that of Attempt; the invariant is kept. |
| `AddrManImpl.AddrManImpl.Connected` | src/addrman.cpp:824-841 | New state is that of Connected; the invariant is kept. |
| `AddrManImpl.AddrManImpl.SetServices` | src/addrman.cpp:843-857 | New state is that of SetServices; the invariant is kept. |
| `AddrManImpl.AddrManImpl.GetAddr` | src/addrman.cpp:786-822 | Result and new state are those of GetAddr; no address twice; the invariant is kept. |
| `AddrManImpl.AddrManImpl.ResolveOne` | src/addrman.cpp:863-918 | New state is that of ResolveOne; the invariant is kept. |
| `AddrManImpl.AddrManImpl.ResolveCollisions` | src/addrman.cpp:859-920 | The loop over the set in ascending order gives the state of ResolveCollisions; the invariant is kept. |
| `AddrManImpl.AddrManImpl.SelectTriedCollision` | src/addrman.cpp:922-948 | Result and new state are those of SelectTriedCollision; the invariant is kept. |
| `AddrManImpl.AddrManImpl.CheckEntries` | src/addrman.cpp:1024-1054 | Zero exactly when every entry passes its checks, and then the sets, sizes and counts gathered are those of all entries. |
| `AddrManImpl.AddrManImpl.CheckTried` | src/addrman.cpp:1061-1077 | No error and nothing left over exactly when tried entries are in exactly their own slots. |
| `AddrManImpl.AddrManImpl.CheckNew` | src/addrman.cpp:1079-1092 | No error and nothing left over exactly when slots hold entries at their positions and every reference count is exact. |
| `AddrManImpl.AddrManImpl.CheckCounts` | src/addrman.cpp:1106-1110 | Zero exactly when no network that has a count has a wrong one. |
| `AddrManImpl.AddrManImpl.CheckAddrman` | src/addrman.cpp:1010-1113 | Zero if and only if the state satisfies the declarative condition Checked; otherwise the code is that of the first violated part, and names the fault of one entry or slot of that part. |
| `AddrManImpl.AddrManImpl.Serialize` | src/addrman.cpp:131-227 | The file written is that of Serialize on the state. |
| `AddrManImpl.AddrManImpl.Unserialize` | src/addrman.cpp:230-404 | On every file: the error of Load, or its state, and then the consistency check returns zero if and only if all indexes agree and the key is not zero. |
| `CheckQueue.BatchFits` | src/checkqueue.h:109-114 | Every batch size chosen lies between 1 and the queue length. |
| `CheckQueue.StepKeepsInv` | src/checkqueue.h:70-182 | Every enabled step of the master or any worker is well defined and keeps the invariant. |
| `CheckQueue.ReachableIsConsistent` | src/checkqueue.h:70-182 | The invariant holds in every state reachable by any interleaving, notifications and spurious wake-ups included. |
| `CheckQueue.TodoIsQueuePlusBatches` | src/checkqueue.h:79-97 | nTodo is the queue length plus all batches in flight; nIdle and nTotal count the threads that wait and that are inside. |
| `CheckQueue.WaitIsExact` | src/checkqueue.h:91-100 | In every reachable state, every Wait so far returned true if and only if all checks added in its session pass. |
| `CheckQueue.SessionsAreSeparate` | src/checkqueue.h:91-100 | A session ends only when the master returns: its result is that of its own checks, and nothing of it is left in the queue or in a batch. |
| `CheckQueue.BlockedMasterHasHelper` | src/checkqueue.h:91-104 | When the master waits without a pending notification, the queue is empty and some worker holds an unfinished batch. |
| `CheckQueue.NeverStuck` | src/checkqueue.h:84-117 | While the master is in Wait some useful step is enabled. |
| `CheckQueue.UsefulStepsRunOut` | src/checkqueue.h:70-127 | Every useful step lowers a measure, so there is no endless shuffling. |
| `CheckQueue.WaitReturns` | src/checkqueue.h:70-127 | Useful steps are bounded in number, and when none is left the master has returned. |
| `Cuckoo.ContainsIsFindable` | src/cuckoocache.h:476-486 | Lookup is true exactly when the element is at one of its eight places, erasable or not. |
| `Cuckoo.EraseKeepsAnswers` | src/cuckoocache.h:449-486 | Marking elements erasable changes no later lookup. |
| `Cuckoo.InsertKeeps` | src/cuckoocache.h:399-447 | After an insertion the new element and all that could be found before can be found, except at most one; and unless the depth limit ran out, nothing that was not erasable is lost. |
| `Cuckoo.EpochCheckMakesRoom` | src/cuckoocache.h:287-319 | After the generation check, live recent elements plus the counter leave room for one more below the bound. |
| `Cuckoo.InsertIsBounded` | src/cuckoocache.h:287-447 | Insertion keeps: live recent elements plus the heuristic counter at most B, live old ones at most B, with B = epoch_size + max(1, epoch_size/16). |
| `Cuckoo.InsertIsPlaced` | src/cuckoocache.h:399-447 | Insertion keeps every non-erasable slot holding an element at one of its places, and adds no element but the one inserted. |
| `Cuckoo.RunTheorem` | src/cuckoocache.h:287-486 | In every run: at most B live recent and 2B live elements, each at one of its places, and only inserted elements (or the default one) are found. |
| `CuckooCache.BytesSuffice` | src/cuckoocache.h:64-71 | The 32-bit rounding up allocates enough bytes if and only if size + 7 does not wrap. |
| `CuckooCache.BitFlags.constructor` | src/cuckoocache.h:64-71 | All flags are set. |
| `CuckooCache.BitFlags.Set` | src/cuckoocache.h:94-97 | Sets that flag and no other. |
| `CuckooCache.BitFlags.Unset` | src/cuckoocache.h:105-108 | Clears that flag and no other. |
| `CuckooCache.BitFlags.IsSet` | src/cuckoocache.h:115-118 | The flag. |
| `CuckooCache.CuckooTable.constructor` | src/cuckoocache.h:325-350 | For every 32-bit size: every slot has a flag, and the state is that of Setup, if and only if size + 7 does not wrap in 32 bits. |
| `CuckooCache.CuckooTable.CountRecent` | src/cuckoocache.h:295-298 | The number of live elements of the current generation. |
| `CuckooCache.CuckooTable.Age` | src/cuckoocache.h:304-308 | Old elements become erasable, current ones old. |
| `CuckooCache.CuckooTable.EpochCheck` | src/cuckoocache.h:287-319 | New state is that of EpochCheck. |
| `CuckooCache.CuckooTable.Push` | src/cuckoocache.h:413-446 | The displacement loop gives the table of Displace. |
| `CuckooCache.CuckooTable.Insert` | src/cuckoocache.h:399-447 | New state is that of Insert. |
| `CuckooCache.CuckooTable.Contains` | src/cuckoocache.h:476-486 | Result and new state are those of Contains. |
| `HeadersSync.Compress` | src/headerssync.h:35-55 | A compressed header and the previous hash give back the header, field for field. |
| `HeadersSyncRuns.PresyncHeaderOk` | src/headerssync.cpp:178-215 | An accepted PRESYNC header extends the recorded chain, with one commitment bit for each commitment height. |
| `HeadersSyncRuns.StoreHeaderOk` | src/headerssync.cpp:217-281 | An accepted redownloaded header is linked, and its commitment, where one is due, is the bit recorded for that same height. |
| `HeadersSyncRuns.PopOk` | src/headerssync.cpp:283-297 | Releasing keeps the buffer and the guard: released headers are the stored ones in order, with REDOWNLOAD_BUFFER_SIZE headers kept above them until the threshold is met. |
| `HeadersSyncRuns.CallKeepsInv` | src/headerssync.cpp:69-138 | Every call, whatever the peer sends, keeps the protocol invariant. |
| `HeadersSyncRuns.ReleasesAreGuarded` | src/headerssync.cpp:69-297 | In every run from the start: all released headers are a prefix of a hash-linked chain from the start, equal to the received ones, every commitment height so far matches the PRESYNC bit, and before the work threshold is met at least REDOWNLOAD_BUFFER_SIZE accepted headers lie above the released ones. |
| `HeadersSyncRuns.ReplayedCall` | src/headerssync.cpp:95-138 | One message of the replayed chain, full or partial, succeeds. More is requested exactly after a full message below the threshold; otherwise the sync ends, a partial message below the threshold included. Once the threshold is met everything up to the end of the message is released. |
| `HeadersSyncRuns.ReplayIsServed` | src/headerssync.cpp:69-297 | Replaying the PRESYNC chain in any messages, each full or partial, never fails; the sync stops at the first message that is partial or meets the threshold and goes on if there is none; what is released is a prefix of what was served, and all of it if the threshold was met. |
| `HeadersSyncRuns.ReplayIsReleased` | src/headerssync.cpp:69-297 | Replaying the PRESYNC chain in messages that are full as long as they stay below the threshold never fails, and after the message that meets the threshold, partial or not, the sync is complete and all headers up to its end have been released. |
| `HeadersSyncRuns.SyncCompletes` | src/headerssync.cpp:69-297 | A peer whose chain passed PRESYNC and that replays it, in messages that are full until the threshold is met, completes the sync: everything up to the end of the last message asked for is released. |
| `HeadersSyncRuns.RunIsBounded` | src/headerssync.cpp:178-297 | In every run the stored commitments and the buffer stay within their bounds. |
| `HeadersSyncState.HeadersSyncState.ProcessNextHeaders` | src/headerssync.cpp:69-138 | Result and new state are those of Process. |
| `HeadersSyncState.HeadersSyncState.ValidateAndStoreHeadersCommitments` | src/headerssync.cpp:140-176 | Result and new state are those of StoreCommitments, which accepts an empty batch without change and refuses one in another phase. |
| `HeadersSyncState.HeadersSyncState.ValidateAndProcessSingleHeader` | src/headerssync.cpp:178-215 | Result and new state are those of PresyncHeader. |
| `HeadersSyncState.HeadersSyncState.ValidateAndStoreRedownloadedHeader` | src/headerssync.cpp:217-281 | Result and new state are those of StoreHeader. |
| `HeadersSyncState.HeadersSyncState.PopHeadersReadyForAcceptance` | src/headerssync.cpp:283-297 | Released headers and new state are those of Pop. |
| `HeadersSyncState.HeadersSyncState.FinalizeSync` | src/headerssync.cpp:52-64 | The state after the sync: final and emptied. |
| `Chain.InvertLowestOneClears` | src/chain.cpp:80-80 | n & (n - 1) takes the lowest 1 bit away: 2^k(2m+1) becomes 2^k(2m). |
| `Chain.GetSkipHeight` | src/chain.cpp:83-91 | The jump goes strictly down from every positive height, and to 0 from heights below 2. |
| `Chain.SkipFromEven` | src/chain.cpp:83-91 | An even height 2^k(2m+1) jumps to 2^k(2m): its lowest 1 bit is cleared. |
| `Chain.SkipFromOdd` | src/chain.cpp:83-91 | An odd height keeps bit 0 and has its next two 1 bits cleared, or the only one there is. |
| `Chain.BlockIndex.GetAncestor` | src/chain.cpp:93-123 | The skip-pointer walk ends at the block the plain pprev walk reaches, or null outside the range. |
| `Chain.BlockIndex.BuildSkip` | src/chain.cpp:125-129 | The skip pointer is the plain ancestor at the skip height, and the whole tree stays consistent. |
| `Chain.CChain.SetTip` | src/chain.cpp:21-29 | After SetTip, despite its early stop, vChain[h] is the tip's ancestor at every height h and the chain ends at the tip. |
| `Chain.CChain.FindFork` | src/chain.cpp:60-69 | The result is in the chain and an ancestor of the block, and above it the two share no block. |
| `Chain.LastCommonAncestor` | src/chain.cpp:165-180 | Null if and only if the two blocks have different genesis blocks; otherwise a common ancestor, and the histories differ at every greater height. The final assertion never fails. |
| `ArithUint256.BaseUint.AddAssign` | src/arith_uint256.h:127-137 | Sum modulo 2^256. |
| `ArithUint256.BaseUint.Complement` | src/arith_uint256.h:61-67 | 2^256 - 1 - x. |
| `ArithUint256.BaseUint.Increment` | src/arith_uint256.h:165-172 | x + 1 modulo 2^256. |
| `ArithUint256.BaseUint.Negate` | src/arith_uint256.h:69-76 | -x modulo 2^256. |
| `ArithUint256.BaseUint.SubAssign` | src/arith_uint256.h:139-143 | Difference modulo 2^256. |
| `ArithUint256.BaseUint.ShiftLeft` | src/arith_uint256.cpp:20-35 | x * 2^shift modulo 2^256, for every shift. |
| `ArithUint256.BaseUint.ShiftRight` | src/arith_uint256.cpp:37-52 | x / 2^shift rounded down, for every shift. |
| `ArithUint256.BaseUint.MulSmall` | src/arith_uint256.cpp:54-64 | Product with a 32-bit number modulo 2^256. |
| `ArithUint256.BaseUint.MulAssign` | src/arith_uint256.cpp:66-80 | Product modulo 2^256. |
| `ArithUint256.BaseUint.DivideRound` | src/arith_uint256.cpp:96-104 | One round of the division keeps quotient * divisor + remainder and halves the bound on the remainder. |
| `ArithUint256.BaseUint.DivAssign` | src/arith_uint256.cpp:82-106 | Throws exactly for a zero divisor; otherwise the quotient rounded down. |
| `ArithUint256.BaseUint.CompareTo` | src/arith_uint256.cpp:108-118 | The order of the numbers. |
| `ArithUint256.BaseUint.Bits` | src/arith_uint256.cpp:178-191 | The number of bits: 2^(n-1) <= x < 2^n, zero for zero. |
| `BlockTrust.OverflowIsExact` | src/arith_uint256.cpp:212-214 | The overflow condition of SetCompact holds exactly when the denoted magnitude is 2^256 or more. |
| `BlockTrust.NegativeIsExact` | src/arith_uint256.cpp:210-211 | The sign condition holds exactly when the denoted number is negative. |
| `BlockTrust.SetCompact` | src/arith_uint256.cpp:198-216 | Value is the denoted magnitude modulo 2^256; both flags are exact. |
| `BlockTrust.CompactRoundsDown` | src/arith_uint256.cpp:218-239 | GetCompact denotes at most the number and less than one unit of its last place below it; small numbers exactly; sign as asked. |
| `BlockTrust.CompactRoundTrip` | src/arith_uint256.cpp:198-239 | A magnitude that came from a compact number survives GetCompact unchanged. |
| `BlockTrust.GetCompact` | src/arith_uint256.cpp:218-239 | The compact form of the value; its two assertions hold for every 256-bit number. |
| `BlockTrust.GetLow64` | src/arith_uint256.h:237-241 | The low 64 bits. |
| `BlockTrust.TrustFormula` | src/chain.cpp:139-143 | (2^256 - 1 - t) / (t + 1) + 1 equals 2^256 / (t + 1). |
| `BlockTrust.GetBlockTrust` | src/chain.cpp:131-144 | Zero for a negative, overflowing or zero target; floor(2^256 / (t + 1)) for a proof-of-stake block, one otherwise, through the limb operations. |
| `Base58.RoomEncode` | src/base58.cpp:97-97 | 138/100 digits per byte and one more suffice for every length. |
| `Base58.RoomDecode` | src/base58.cpp:52-52 | 733/1000 bytes per letter and one more suffice for every length. |
| `Base58.MulAdd` | src/base58.cpp:61-67 | The inner loop multiplies the buffer by the base and adds a digit; the carry is zero at the end, as asserted, when the result fits. |
| `Base58.ToBase58` | src/base58.cpp:96-115 | The buffer holds the base 58 digits of the bytes without leading zero. |
| `Base58.EncodeBase58` | src/base58.cpp:87-125 | The result is Encode of the bytes. |
| `Base58.FromBase58` | src/base58.cpp:50-71 | The loop stops at a space with the base 256 digits of the letters read, and fails only for a bad letter or too many bytes. |
| `Base58.DecodeTrimmed` | src/base58.cpp:43-85 | Succeeds exactly when only spaces follow a text of letters whose bytes fit, and then returns those bytes. |
| `Base58.DecodeBase58` | src/base58.cpp:38-133 | The result is Decode of the string. |
| `Base58.DecodeEncode` | src/base58.cpp:38-125 | Decoding an encoding gives the bytes back, and fails exactly when they are more than the limit. |
| `Base58.EncodeDecode` | src/base58.cpp:38-125 | Encoding what a plain Base58 text decodes to gives the text back. |
| `Base58.DecodeFailsExactly` | src/base58.cpp:38-85 | A plain Base58 text fails to decode exactly when its bytes are more than max_ret_len. |
| `Bech32.StepLinear` | src/bech32.cpp:178-212 | One PolyMod step acts on differences only. |
| `Bech32.StepInjective` | src/bech32.cpp:178-212 | A step with equal symbols keeps different checksums different. |
| `Bech32.BurstChangesChecksum` | src/bech32.cpp:130-216 | Two equally long symbol lists, of any length, that differ only inside six consecutive positions have different PolyMod values. |
| `Bech32.ChecksumIsUnique` | src/bech32.cpp:341-352 | Exactly one choice of six symbols makes PolyMod the constant of the encoding. |
| `Bech32Text.PolyModRound` | src/bech32.cpp:178-212 | The shift, mask and five conditional xors are one step. |
| `Bech32Text.ComputePolyMod` | src/bech32.cpp:130-216 | The loop computes PolyMod. |
| `Bech32Text.CheckCharacters` | src/bech32.cpp:287-309 | The positions, in order, of characters that are not printable or are letters of the other case than the first letter; true exactly when there is none. |
| `Bech32Text.CreateChecksum` | src/bech32.cpp:341-352 | The six symbols that make the checksum right. |
| `Bech32Text.EncodeString` | src/bech32.cpp:357-370 | The result is Encode; a human-readable part with capitals is what the assertion forbids. |
| `Bech32Text.DecodeString` | src/bech32.cpp:373-397 | The result is Decode. |
| `Bech32Text.DecodeEncode` | src/bech32.cpp:357-397 | Decoding an encoding returns encoding, human-readable part and values exactly, for every legal non-empty part and total length up to 90, and nothing otherwise. |
| `Bech32Text.EncodeDecode` | src/bech32.cpp:357-397 | Encoding what a string decodes to gives the string back in lower case. |
| `Bech32Text.BurstIsDetected` | src/bech32.cpp:327-338 | Changing data symbols inside six consecutive positions never leaves a valid checksum of the same encoding. |

## Left out

- Coins.Add, Coins.Sync: the best-block hash, the memory of reallocated maps, script capacity and the upper wrap-around of the usage counter.
- CoinsViewCache.CoinsViewDB.BatchWrite: crash recovery marks and partial batches of the database write; the database is a plain map.
- AddrMan.Good, AddrMan.Attempt and the other operations: ids, attempts and times are unbounded integers, so the wrap-around of the 32-bit id counter is not modelled.
- AddrManDisk.Serialize, AddrManDisk.Load: the file is a list of typed records, so byte encodings, the lossy 32-bit time field and the address formats older than BIP 155 are not modelled.
- AddrManImpl.AddrManImpl.CheckAddrman: among several faulty entries or slots, which one is met first is not part of the statement, since the entry map has no fixed order.
- `Select_` and `GetChance` of the address manager: floating-point chances and a loop that ends only with probability one.
- `FindAddressEntry_` and `Size_` of the address manager: they only read one entry or one counter.
- CheckQueue.StepKeepsInv: stop requests and thread start-up are not steps; one controller at a time, as the control mutex ensures.
- Cuckoo.Setup: the depth limit is the exact rounded-down logarithm, while the source takes it of a `float`, which can be one more for large sizes just below a power of two; concurrent erasure is not modelled.
- HeadersSync.Process: the block height as a 32-bit integer and the clock-derived bound on commitments (a parameter here); the locator of the next request is not modelled. Work sums wrap at 2^256 as in the source.
- Chain.BlockIndex: predecessor and height are fixed when a block is created; locators and `FindEarliestAtLeast` are not modelled.
- ArithUint256.BaseUint: bitwise and/or/xor, hexadecimal text and conversion to floating point are not modelled.
- Base58.DecodeBase58: the checksummed variants are not modelled.
- Bech32Text.DecodeString: locating errors and the finite-field tables behind it, and the guarantee for three or four scattered errors, are not modelled.
