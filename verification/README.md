# Verification of the Syscoin node's core data structures

This project models seven parts of the node in Dafny and proves what their code is for. Each part
has a simple meaning and an implementation that is far from it: bucket tables with five indexes,
write-back caches with two flag bits, a two-pass protocol that remembers single bits, a lock-step
of worker threads, a hash table that forgets, limb arithmetic, and text codecs.

`dafny verify dfyconfig.toml` checks everything.

## How it is built

Where the code updates an object in place there is a class with its fields and methods, and beside
it a layer of values and functions that says what each method does to the state. The methods are
proved equal to the functions; what the code promises over whole runs is proved about the
functions. Hashes, clocks, random draws and the order in which unordered maps are walked are
parameters, so every statement holds for all of them. Table sizes, buffer sizes and periods are
symbolic; the reference limit, time windows and format constants are those of the code.

| files | part |
|---|---|
| `addrman_state`, `addrman_ops`, `addrman_runs` | address manager: the state, its moves and operations, whole runs |
| `addrman_grid`, `addrman`, `addrman_check` | its in-place form and its self-check |
| `addrman_effects` | what its operations achieve: what is stored, moved, decided |
| `addrman_disk`, `addrman_roundtrip`, `addrman_load` | saving and loading it, its own record or any other |
| `coins_model`, `coins` | UTXO cache stack: meaning, in-place form |
| `headerssync` | headers presync and redownload |
| `checkqueue` | script check queue as a state machine over its critical sections |
| `cuckoocache` | cuckoo cache with epochs |
| `bits`, `limbs`, `limb_shifts`, `arith_uint256`, `compact` | 256-bit arithmetic, compact targets, block proof |
| `chain` | block index with skip pointers, active chain, locators |
| `auxpow` | merged-mining check |
| `bech32_checksum`, `bech32` | Bech32 and Bech32m (BIP 173, BIP 350) |
| `radix`, `base58` | Base58 |
| `blockencodings` | compact blocks (BIP 152) |

## What the proofs showed about the code

- `ResolveCollisions_`: in a manager started empty, or loaded from a record of routable addresses,
  the branches for an invalid address and for a slot that is no longer taken cannot be reached; a
  filled tried slot never becomes empty.
- `CheckAddrman`: its last test compares the number of counters with the number of networks that
  have entries, and the values of the counters that are there, so a missing counter can be masked by
  a surplus one of zero (`MaskedCounter`). Accepted counters are right exactly when every network
  with entries has one (`CountersExact`), in particular when none is zero (`NoZeroCounter`). No run
  from an empty manager and no load gets into the masked state: runs keep the counters right
  (`Run`), and so does loading (`LoadTabled`). What else the check does not look at is listed by
  `CheckExact`.
- Loading any record, the final check can, a null key aside, only fail on an impossible time or on an address that was
  read twice, even if one of the two entries is dropped for want of a reference (`LoadExact`).
- `PartiallyDownloadedBlock::FillBlock` called with too few transactions has already moved filled
  slots out when it fails, and stays open: a second call with the list that would have been right is
  then refused exactly when a filled slot came before the first one it could not fill
  (`FillBlock`, `RetryFits`).
- `PartiallyDownloadedBlock::InitData`: a short id that two pool transactions share is emptied again
  and asked for, but only if the scan gets to the second one; it certainly does while some short id
  has no entry in the pool (`AmbiguousRequested`).
- `CAuxPow::getExpectedIndex`: two chains get the same slot exactly when their ids agree modulo the
  size of the tree, whatever the nonce (`SlotsClash`).
- `CCoinsViewCache`: of the five flag states listed in the header, "spent, FRESH, not DIRTY" is
  never reached (`OnlyFourStates`). `AddCoin` without announced overwrite is right exactly when the
  view has no unspent coin there (`AddCoinExact`, `UnannouncedOverwrite`). When it throws, the
  memory count has already been reduced.
- `cuckoocache::insert`: the comment says that the first displacement goes to the first position;
  the code takes the second, because the search returns 8 and (1 + 8) & 7 is 1. The model follows
  the code.
- `LastCommonAncestor`: the comment rests on a common genesis block; the final assertion also holds
  without one, since the two walks run out together.
- `DecodeBase58` with a negative length limit still accepts the empty result, because the limit is
  only tested after a digit or a leading one.


## Model

| member | source | states |
|---|---|---|
| `AddrManCheck.EveryRunPasses` | src/addrman.cpp:1050-1153 | after every run of Add, Good, Attempt, Connected, SetServices, GetAddr, ResolveCollisions and SelectTriedCollision from an empty manager, with positive times, the consistency check passes and `vRandom` is a permutation of the ids |
| `AddrManCheck.ConsistentPasses` | src/addrman.cpp:1050-1153 | a state that meets the invariant never makes the consistency check fire |
| `AddrManCheck.AcceptedPermutation` | src/addrman.cpp:1050-1153 | conversely, whatever state the check accepts, its `vRandom` is a permutation of the ids with `nRandomPos` as inverse |
| `AddrManRuns.Run` | src/addrman.cpp:413-960 | every run keeps the invariant; ids are never reused, an id keeps its service, and a filled tried slot never becomes empty again |
| `AddrManRuns.Apply` | src/addrman.cpp:677-988 | each public operation keeps the invariant of tables, indexes, counters and collision set |
| `AddrManRuns.EmptyConsistent` | src/addrman_impl.h:160-236 | a new manager meets the invariant |
| `AddrManState.CreateKeeps` | src/addrman.cpp:413-426 | creating an entry for a routable address that is not known keeps the invariant with the new id pending a reference |
| `AddrManState.SwapKeeps` | src/addrman.cpp:428-450 | swapping two positions of `vRandom` keeps the invariant, the inverse index included |
| `AddrManState.DeleteKeeps` | src/addrman.cpp:452-468 | deleting an entry without references keeps the invariant, also when it is not last in `vRandom` |
| `AddrManOps.ClearNewKeeps` | src/addrman.cpp:470-486 | clearing a new slot drops one reference, and the entry with its last one, and keeps the invariant in transient states too |
| `AddrManOps.MakeTriedEffect` | src/addrman.cpp:488-545 | the entry ends up tried in its slot with its statistics, no tried entry is forgotten and no other becomes tried; an evicted one has one reference, in the bucket of its own source |
| `AddrManOps.MakeTried` | src/addrman.cpp:488-545 | the invariant holds again after the transient states inside the move, eviction included |
| `AddrManOps.AddSingleKeeps` | src/addrman.cpp:547-621 | adding or refreshing one address keeps the invariant and the collision set |
| `AddrManOps.GoodKeeps` | src/addrman.cpp:623-675 | a successful connection keeps the invariant: the entry is moved, set waiting for its slot, or left |
| `AddrManOps.GoodFree` | src/addrman.cpp:639-665 | with test-before-evict an entry only moves into a free tried slot, so it was not waiting for one |
| `AddrManOps.Waiting` | src/addrman.cpp:899-988 | a waiting id that still exists is in the new table and its tried slot is held by another entry, so no lookup by -1 can happen |
| `AddrManOps.ResolveOneKeeps` | src/addrman.cpp:899-960 | resolving one waiting id keeps the invariant and only takes that id off the set |
| `AddrManEffects.AddUnknownExact` | src/addrman.cpp:547-621 | a routable unknown address is stored exactly when the slot of its source is empty or the entry there is terrible or referenced more than once: indexed under the next id, one reference in that slot, penalised time; otherwise nothing of it is left |
| `AddrManEffects.AddKnownExact` | src/addrman.cpp:565-615 | a known address has its time and services brought up to date, and gets one more reference from the slot of this source exactly when it is new, newer, below the limit and lucky, and the slot is empty or gives way |
| `AddrManEffects.AddUnroutable` | src/addrman.cpp:551-552 | an address that is not routable is ignored |
| `AddrManEffects.AddAllSteps` | src/addrman.cpp:677-687 | adding a list adds its addresses one after another, and the count is that of the ones that got a reference |
| `AddrManEffects.ClearNewExact` | src/addrman.cpp:470-486 | clearing a slot takes one reference from its entry, and the entry with its last one |
| `AddrManEffects.TerribleMeans` | src/addrman.cpp:67-88 | exactly which entries are no good, in minutes, days and attempts |
| `AddrManEffects.GoodExact` | src/addrman.cpp:623-675 | a known entry has its success recorded and moves to tried exactly when it is new and its slot is free or need not be tested; the entry it displaces is back in its own new bucket; otherwise it starts waiting while fewer than ten do |
| `AddrManEffects.ResolveExact` | src/addrman.cpp:899-960 | a waiting entry gives up exactly when the holder of its slot was reached within four hours, takes the slot exactly when the holder has failed its test or nobody tested it in time, and otherwise waits on |
| `AddrManEffects.ResolveVisits` | src/addrman.cpp:899-960 | every waiting id is visited once, in ascending order, and the result is that of the single resolutions in turn |
| `AddrManEffects.SelectExact` | src/addrman.cpp:962-988 | the entry to test is another entry, tried, in the very slot that the waiting one wants |
| `AddrManEffects.LimitMeans` | src/addrman.cpp:806-812 | as many addresses as there are, as the percentage allows and as were asked for, and no fewer |
| `AddrManEffects.StatsExact` | src/addrman.cpp:689-707 | an attempt, a connection and new services change only the statistics of the known entry, each in its own way |
| `AddrManEffects.FailureCountsOnce` | src/addrman.cpp:689-707 | between two successful connections anywhere the failures of an address count once |
| `AddrManRuns.PickSound` | src/addrman.cpp:802-838 | the selection returns distinct wanted entries, at most as many as asked for, and leaves out a wanted one only when it is full |
| `AddrManRuns.SelectTriedCollision` | src/addrman.cpp:962-988 | returns the entry that holds the tried slot of the drawn id, or drops an id that no longer exists; keeps the invariant |
| `AddressManager.AddrManImpl.constructor` | src/addrman.cpp:108-123 | an empty manager with both tables cleared |
| `AddressManager.AddrManImpl.Create` | src/addrman.cpp:413-426 | in-place creation, equal to the specified move |
| `AddressManager.AddrManImpl.SwapRandom` | src/addrman.cpp:428-450 | in-place swap of two positions and their inverse entries |
| `AddressManager.AddrManImpl.Delete` | src/addrman.cpp:452-468 | in-place deletion, equal to the specified move |
| `AddressManager.AddrManImpl.ClearNew` | src/addrman.cpp:470-486 | in-place clearing of one slot of the new table; the assertion that its entry has a reference is what callers owe and prove |
| `AddressManager.AddrManImpl.MakeTried` | src/addrman.cpp:488-545 | the three phases (leave new, evict, enter tried) in place, equal to the specified move |
| `AddressManager.AddrManImpl.AddSingle` | src/addrman.cpp:547-621 | in-place insertion or refresh with the random draw and the two clock readings as parameters; returns whether a reference was added |
| `AddressManager.AddrManImpl.Add` | src/addrman.cpp:677-687 | adds a list of addresses in order, with clock readings and a draw for each; true exactly when one was added |
| `AddressManager.AddrManImpl.MarkGood` | src/addrman.cpp:623-675 | the marking of a good address, with and without test-before-evict |
| `AddressManager.AddrManImpl.Attempt` | src/addrman.cpp:689-707 | updates only the statistics of a known address |
| `AddressManager.AddrManImpl.Connected` | src/addrman.cpp:864-881 | refreshes the time of a known address that is old enough |
| `AddressManager.AddrManImpl.SetServices` | src/addrman.cpp:883-897 | replaces the services of a known address |
| `AddressManager.AddrManImpl.GetAddr` | src/addrman.cpp:802-838 | the shuffling selection in place, returning the addresses of the picked entries; only the order of `vRandom` changes |
| `AddressManager.AddrManImpl.ResolveCollisions` | src/addrman.cpp:899-960 | visits the waiting ids in ascending order and keeps, drops or moves each |
| `AddressManager.AddrManImpl.SelectTriedCollision` | src/addrman.cpp:962-988 | the drawn waiting id gives the entry to test, in place |
| `AddressManager.AddrManImpl.CheckAddrman` | src/addrman.cpp:1050-1153 | returns 0 exactly on the states described by `CheckPasses` with a non-null key |
| `AddrManCheck.CheckExact` | src/addrman.cpp:1050-1153 | the invariant holds exactly when the check passes and four things it does not look at are right: ids below `nIdCount`, routable addresses, no stale key in `mapAddr`, a counter for every network with entries |
| `AddrManCheck.CountersExact` | src/addrman.cpp:1141-1150 | accepted counters are right exactly when every network with entries has one |
| `AddrManCheck.NoZeroCounter` | src/addrman.cpp:1141-1150 | accepted counters of which none is all zero are right |
| `AddrManCheck.MaskedCounter` | src/addrman.cpp:1141-1150 | a concrete state that passes the whole check although the counter of its only network is missing |
| `AddrManCheck.CheckTried` | src/addrman.cpp:1102-1117 | the scan of the tried table returns 0 exactly when every tried entry sits in its own slot and nothing else does |
| `AddrManCheck.CheckNew` | src/addrman.cpp:1119-1132 | the scan of the new table returns 0 exactly when every reference is at its own position and the counts are right |
| `AddrManCheck.CheckEntries` | src/addrman.cpp:1064-1095 | the scan of the id map, in any order, returns 0 exactly when every entry passes, and fills the scratch tables |
| `AddrManCheck.CheckCounters` | src/addrman.cpp:1141-1150 | the comparison of the per-network counters, which accepts surplus counters of zero |
| `AddrManRoundTrip.RoundTrip` | src/addrman.cpp:130-397 | saving a consistent manager and loading it under the same asmap loses nothing: both tables, reference counts, totals and per-network counters are the same up to a renaming of ids, and the loaded state is consistent |
| `AddrManRoundTrip.LoadAccepts` | src/addrman.cpp:266-278 | what is saved is within the bounds checked on loading and passes the final check |
| `AddrManRoundTrip.StageNew` | src/addrman.cpp:280-289 | the entries of the new table come back under their numbers, each still without a reference |
| `AddrManRoundTrip.StageTried` | src/addrman.cpp:291-312 | no tried entry is lost, because saved tried entries had slots of their own |
| `AddrManRoundTrip.StageRefs` | src/addrman.cpp:346-374 | every reference goes back into its own free slot and no entry meets the reference limit early |
| `AddrManRoundTrip.EntriesAre` | src/addrman.cpp:209-222 | what is read from the buckets is the list of filled slots with the numbers of their entries |
| `AddrManRoundTrip.ChosenCounts` | src/addrman.cpp:190-208 | as many entries are written as the counters say, so the assertions on them hold |
| `AddrManRoundTrip.SizesFit` | src/addrman.cpp:266-278 | there are never more new or tried entries than slots of the table |
| `AddrManLoad.LoadExact` | src/addrman.cpp:280-396 | for every disk record the final check passes exactly when the entries that are left have possible success times and no other entry that was read has the address of one of them |
| `AddrManLoad.LoadedConsistent` | src/addrman.cpp:280-396 | a loaded state that passes is consistent exactly when its addresses are routable |
| `AddrManLoad.RoutableLoads` | src/addrman.cpp:280-396 | an accepted record of routable addresses gives a consistent manager |
| `AddrManLoad.RebucketedExactly` | src/addrman.cpp:346-388 | under other buckets or another asmap an entry of the new table survives exactly when its address is valid and the first reference on disk to a valid entry with its home slot is one to it; it then has one reference, from that slot |
| `AddrManLoad.LoadTabled` | src/addrman.cpp:280-388 | whatever the record, both tables, reference counts, totals and network counters come out right and nothing without a reference is left |
| `AddressManager.AddrManImpl.Serialize` | src/addrman.cpp:130-226 | the writing loops produce the specified disk record |
| `AddressManager.AddrManImpl.Unserialize` | src/addrman.cpp:229-397 | the reading loops rebuild the specified state; succeeds exactly when sizes are in bounds and the check passes, and then a record of routable addresses leaves the manager valid |
| `CoinsModel.RunRefines` | src/coins.cpp:44-297 | every run of calls on a stack of caches of any depth shows at every level what the same calls do to plain maps, never throws and leaves only legal flag states |
| `CoinsModel.StepRefines` | src/coins.cpp:44-297 | one call on the top of a stack does to all levels what it does to a stack of plain maps |
| `CoinsModel.GetCoinSound` | src/coins.cpp:61-68 | reading returns the view and changes the view of no layer |
| `CoinsModel.FetchSound` | src/coins.cpp:44-59 | fetching through the layers caches without changing any view; an entry it adds is unspent and unflagged, so the branch that marks a spent one FRESH is never taken |
| `CoinsModel.AddCoinExact` | src/coins.cpp:70-108 | adding sets exactly this outpoint in the view; it returns with a well-formed stack exactly when overwriting was announced or nothing unspent was there |
| `CoinsModel.UnannouncedOverwrite` | src/coins.cpp:70-108 | without that promise a later spend does not remove the coin: a concrete stack |
| `CoinsModel.SpendCoinSound` | src/coins.cpp:129-149 | spending removes exactly this outpoint from the top view |
| `CoinsModel.UncacheSound` | src/coins.cpp:284-297 | uncaching changes no view |
| `CoinsModel.MergeSound` | src/coins.cpp:182-252 | merging a well-formed child never meets a misapplied FRESH flag and gives the view of the child over the parent |
| `CoinsModel.BatchWriteSound` | src/coins.cpp:182-252 | writing a well-formed layer back never throws and hands its view to the layer below |
| `CoinsModel.FlushSound` | src/coins.cpp:254-282 | Flush and Sync keep the view, make the layer below show it and touch no deeper layer |
| `Coins.OnlyFourStates` | src/coins.h:88-132 | of the flag states the header lists, spent, FRESH and not DIRTY never arises on a well-formed stack |
| `Coins.CoinsViewCache.FetchCoin` | src/coins.cpp:44-59 | in-place fetch through caches of any depth, with exact memory accounting |
| `Coins.CoinsViewCache.GetCoin` | src/coins.cpp:61-68 | returns the coin of the view if it is unspent |
| `Coins.CoinsViewCache.HaveCoin` | src/coins.cpp:162-165 | true exactly when the view has an unspent coin there |
| `Coins.CoinsViewCache.AddCoin` | src/coins.cpp:70-108 | in-place insertion with flags and memory as specified; on the throw only the memory count has changed |
| `Coins.CoinsViewCache.SpendCoin` | src/coins.cpp:129-149 | in-place spend with flags and memory as specified |
| `Coins.CoinsViewCache.Uncache` | src/coins.cpp:284-297 | removes only an entry without flags |
| `Coins.CoinsViewCache.BatchWrite` | src/coins.cpp:182-252 | takes the entries of a child in any order; equal to the specified merge |
| `Coins.CoinsViewCache.Flush` | src/coins.cpp:254-265 | pushes the modifications down and empties the cache |
| `Coins.CoinsViewCache.Sync` | src/coins.cpp:267-282 | pushes the modifications down and keeps the unspent coins without flags |
| `Coins.CoinsViewCache.SanityCheck` | src/coins.cpp:325-340 | holds exactly when the memory count is the recomputed one and every entry has legal flags |
| `Coins.CoinsDb.BatchWrite` | src/txdb.cpp:91-150 | the database takes only DIRTY entries: a spent one is erased, an unspent one stored |
| `HeadersSync.RunSync` | src/headerssync.cpp:72-298 | over any sequence of batches the headers handed out are a prefix of the accepted ones, chained from the start block, and the state stays valid |
| `HeadersSync.HeadersSyncState.ProcessNextHeaders` | src/headerssync.cpp:72-141 | success, request for more, released headers and next phase as functions of the histories, error cases included; FINAL is absorbing |
| `HeadersSync.HeadersSyncState.ValidateAndStoreHeadersCommitments` | src/headerssync.cpp:143-179 | a batch of the first pass succeeds exactly when it connects and every header is permitted within the commitment limit |
| `HeadersSync.HeadersSyncState.ValidateAndProcessSingleHeader` | src/headerssync.cpp:181-217 | one header of the first pass: accepted exactly when permitted and within the limit; work, height and bits are those of the history |
| `HeadersSync.HeadersSyncState.ValidateAndStoreRedownloadedHeader` | src/headerssync.cpp:219-282 | one header of the second pass: accepted exactly when it connects, is permitted against its true predecessor and matches its bit |
| `HeadersSync.HeadersSyncState.CheckCommitment` | src/headerssync.cpp:244-273 | the bit compared at a height is the one stored for that height, until enough work is seen |
| `HeadersSync.HeadersSyncState.PopHeadersReadyForAcceptance` | src/headerssync.cpp:284-298 | releases from the front what is buried deep enough, or everything once enough work was seen, with previous hashes restored |
| `HeadersSync.HeadersSyncState.Finalize` | src/headerssync.cpp:55-67 | drops all stored headers and commitments |
| `HeadersSync.WorkIs` | src/headerssync.cpp:184-215 | the work of a history is that of its start plus the proofs of all its headers, modulo 2^256 |
| `HeadersSync.QueueFront` | src/headerssync.cpp:244-273 | at a commitment height the queue is empty exactly when the first pass did not get that far, and otherwise its front is the bit of that height |
| `CheckQueue.WaitReturnsConjunction` | src/checkqueue.h:69-180 | in every execution each return of Wait gives exactly one answer, the conjunction of the checks passed to Add since the return before (read off the actions, not the state), and no other step gives one; `nTodo` is queued plus in-flight |
| `CheckQueue.StepRecords` | src/checkqueue.h:69-180 | a step either answers for all checks recorded so far or adds exactly the checks it was given |
| `CheckQueue.WaitBegins` | src/checkqueue.h:69-160 | a call of Wait starts waiting, only steps of the master end it, and then nothing is queued or in flight |
| `CheckQueue.AddWakes` | src/checkqueue.h:163-180 | after Add a sleeping worker is signalled, and all of them after more than one check |
| `CheckQueue.BatchLargest` | src/checkqueue.h:105-110 | a batch is the largest number up to the limit that leaves as many for every thread at work or idle, and at least one |
| `CheckQueue.NoLostWakeup` | src/checkqueue.h:69-126 | no reachable state has the master asleep, unsignalled, with nothing to do, and while it waits some thread can go on |
| `CheckQueue.WaitTerminates` | src/checkqueue.h:157-160 | however the threads are scheduled, with any number of chance wake-ups in between, a call of Wait sees a number of unprompted steps bounded by the state, and one is possible as long as it lasts |
| `CheckQueue.StepKeeps` | src/checkqueue.h:69-180 | every atomic step keeps the invariant on counters, verdict and the sleeping master |
| `CheckQueue.ReachableOk` | src/checkqueue.h:69-180 | every interleaving from the start keeps that invariant |
| `CheckQueue.StepMeasure` | src/checkqueue.h:69-126 | every step that is not a chance wake-up, an Add or a Notify makes progress |
| `CheckQueue.AddKeeps` | src/checkqueue.h:163-180 | adding checks, with the notification still to come, keeps the invariant |
| `CheckQueue.FinishKeeps` | src/checkqueue.h:78-104 | handing in a batch keeps the verdict and signals a master with nothing left |
| `CuckooCache.RunInv` | src/cuckoocache.h:287-447 | in every reachable state each live entry lies at one of its eight positions and the newest epoch has at most epoch size plus max(1, epoch size / 16) live entries |
| `CuckooCache.NoFalsePositives` | src/cuckoocache.h:476-486 | contains never says yes for an element that was not inserted, the default element aside |
| `CuckooCache.InsertedKeeps` | src/cuckoocache.h:399-447 | insert keeps every entry that survives ageing but at most one, and all of them with the new one when it is already there or has a collectable position |
| `CuckooCache.InsertLoss` | src/cuckoocache.h:287-447 | unless the cache ages, an insert loses one element at most of all that were live and the new one, and one at most of the newest epoch; when it ages, one at most of the newest epoch and the new one; the new element belongs to the newest epoch when it was there or a position was collectable |
| `CuckooCache.AgedExactly` | src/cuckoocache.h:287-319 | entries age exactly when the countdown is over and the newest epoch is full, and then exactly the newest stay live; scans are at least a sixteenth of an epoch apart |
| `CuckooCache.SettleNewest` | src/cuckoocache.h:413-447 | a displacement path loses at most one element of the newest epoch and none if it starts at a free position |
| `CuckooCache.ErasedMarks` | src/cuckoocache.h:476-486 | erasing a held element marks one of its entries for collection and touches nothing else |
| `CuckooCache.FastRangeOnto` | src/util/fastrange.h:19-22 | the reduction of hashes reaches every position of the table |
| `CuckooCache.SettleKeeps` | src/cuckoocache.h:413-447 | the displacement path drops at most the element in hand at its end |
| `CuckooCache.LiveHolds` | src/cuckoocache.h:476-486 | contains finds every live entry |
| `CuckooCache.ErasedStillHeld` | src/cuckoocache.h:449-475 | erasure is lazy: what contains answers does not change until a later insert |
| `CuckooCache.ErasedKeeps` | src/cuckoocache.h:476-486 | erasing makes at most this element collectable |
| `CuckooCache.EpochCheckedKeeps` | src/cuckoocache.h:287-319 | ageing keeps live entries findable and leaves room in the newest epoch for the insert |
| `CuckooCache.FastRange32` | src/util/fastrange.h:19-22 | the reduced hash is the high half of the product, so it is below the table size |
| `CuckooCache.Cache.Setup` | src/cuckoocache.h:337-350 | an empty cache of at least two entries with the specified epoch size |
| `CuckooCache.Cache.Insert` | src/cuckoocache.h:399-447 | in-place insertion, equal to the specified one |
| `CuckooCache.Cache.Displacements` | src/cuckoocache.h:413-447 | the displacement loop, equal to the specified path |
| `CuckooCache.Cache.Contains` | src/cuckoocache.h:476-486 | answers by the table alone and sets at most one collection flag |
| `CuckooCache.Cache.EpochCheck` | src/cuckoocache.h:287-319 | the countdown, the scan and the ageing, in place |
| `CuckooCache.Cache.AgeEntries` | src/cuckoocache.h:303-309 | old entries become collectable and the current epoch becomes the old one |
| `CuckooCache.BitFlags.Set` | src/cuckoocache.h:94-97 | setting one bit of a packed byte changes exactly that flag |
| `CuckooCache.BitFlags.Unset` | src/cuckoocache.h:105-108 | clearing one bit changes exactly that flag |
| `Chain.InvertLowestOneSubtracts` | src/chain.cpp:121-122 | n & (n - 1) is n minus its lowest one bit |
| `Chain.SkipHeightMeans` | src/chain.cpp:121-133 | an even height skips over its lowest one bit, an odd one over the two lowest of what is below it |
| `Chain.GetSkipHeight` | src/chain.cpp:124-133 | a skip goes strictly below its own height |
| `Chain.BlockIndex.GetAncestor` | src/chain.cpp:135-160 | with any mixture of skip and previous pointers the result is the block that walking `pprev` gives, or null out of range; the internal assertion holds |
| `Chain.BlockIndex.BuildSkip` | src/chain.cpp:167-171 | the skip pointer becomes the ancestor of the skip height and the tree stays well formed |
| `Chain.AddToBlockIndex` | src/node/blockstorage.cpp:221-234 | a new leaf keeps the tree well formed |
| `Chain.LastCommonAncestor` | src/chain.cpp:205-222 | the highest common ancestor, or none exactly when the roots differ; the final assertion cannot fail |
| `Chain.ActiveChain.SetTip` | src/chain.cpp:63-71 | leaves exactly the ancestors of the new tip although it stops early |
| `Chain.EarlyStop` | src/chain.cpp:63-71 | two chains that meet at a block agree below it |
| `Chain.ActiveChain.FindFork` | src/chain.cpp:102-111 | the highest ancestor that is in the chain, or null if none is |
| `Chain.ActiveChain.ContainsMeans` | src/chain.h:516-519 | on a valid chain being contained means being an ancestor of the tip |
| `Chain.LocatorShape` | src/chain.cpp:73-91 | a locator descends strictly to the genesis block, by ones at first and then by doubling strides |
| `Chain.LocatorShort` | src/chain.cpp:73-91 | its length is logarithmic: eleven entries and k more reach back past 2^k blocks |
| `Chain.LocatorNamesAncestors` | src/chain.cpp:73-91 | every entry is the hash of the block's own ancestor at the locator height |
| `Chain.LocatorEntries` | src/chain.cpp:73-91 | the loop produces that locator |
| `ArithUint.BaseUint.AddAssign` | src/arith_uint256.h:127-137 | the sum modulo 2^(32 width), also when both operands are the same object |
| `ArithUint.BaseUint.SubAssign` | src/arith_uint256.h:139-143 | the difference modulo 2^(32 width) |
| `ArithUint.BaseUint.Increment` | src/arith_uint256.h:165-172 | plus one, wrapping to zero |
| `ArithUint.BaseUint.Decrement` | src/arith_uint256.h:182-189 | minus one, wrapping to the largest |
| `ArithUint.BaseUint.Complement` | src/arith_uint256.h:61-67 | the largest number minus the value |
| `ArithUint.BaseUint.Negate` | src/arith_uint256.h:69-76 | the additive inverse |
| `ArithUint.BaseUint.Assign` | src/arith_uint256.h:80-87 | the value of a 64-bit integer |
| `ArithUint.BaseUint.MulSmall` | src/arith_uint256.cpp:54-64 | the product with a 32-bit factor, modulo 2^(32 width) |
| `ArithUint.BaseUint.MulAssign` | src/arith_uint256.cpp:66-80 | the product modulo 2^(32 width); no 64-bit intermediate overflows |
| `ArithUint.BaseUint.ShiftLeft` | src/arith_uint256.cpp:20-35 | multiplication by 2^shift modulo 2^(32 width), for every shift |
| `ArithUint.BaseUint.ShiftRight` | src/arith_uint256.cpp:37-52 | division by 2^shift rounded down, for every shift |
| `ArithUint.BaseUint.DivAssign` | src/arith_uint256.cpp:82-106 | the quotient rounded down; fails exactly for a zero divisor and then leaves zero |
| `ArithUint.BaseUint.CompareTo` | src/arith_uint256.cpp:108-118 | the order of the values |
| `ArithUint.BaseUint.EqualTo` | src/arith_uint256.cpp:120-132 | equality with a 64-bit integer |
| `ArithUint.BaseUint.Bits` | src/arith_uint256.cpp:178-191 | the position of the highest one bit plus one, or zero |
| `ArithUint.BaseUint.GetLow64` | src/arith_uint256.h:237-241 | the value modulo 2^64 |
| `LimbShifts.ShlValue` | src/arith_uint256.cpp:20-35 | the limbs written by a left shift have the value times 2^shift modulo the width |
| `LimbShifts.ShrValue` | src/arith_uint256.cpp:37-52 | the limbs written by a right shift have the value divided by 2^shift, rounded down |
| `CompactTargets.OverflowMeans` | src/arith_uint256.cpp:211-214 | the overflow flag is set exactly when mantissa times 256^(size - 3) does not fit 256 bits |
| `CompactTargets.RoundTrip` | src/arith_uint256.cpp:198-239 | decoding an encoding never overflows, keeps the sign of nonzero numbers and zeroes exactly the bytes below the kept mantissa |
| `CompactTargets.Stable` | src/arith_uint256.cpp:218-239 | one more round trip does not change the encoding |
| `CompactTargets.SetCompact` | src/arith_uint256.cpp:198-216 | value and flags of every compact form |
| `CompactTargets.GetCompact` | src/arith_uint256.cpp:218-239 | the encoding of every number; both assertions hold |
| `CompactTargets.TargetRoom` | src/chain.cpp:173-186 | a target that does not overflow is never the largest number, so adding one cannot give zero |
| `CompactTargets.WorkFormula` | src/chain.cpp:181-185 | ~t / (t + 1) + 1 is 2^256 / (t + 1) rounded down |
| `CompactTargets.GetBlockProof` | src/chain.cpp:173-186 | zero for a negative, overflowing or zero target and otherwise 2^256 / (target + 1) rounded down |
| `AuxPow.OneBlockPerCoinbase` | src/auxpow.cpp:38-113 | two proofs with the same coinbase that pass for one chain id prove the same block with the same branch, unless the two branches hash different pairs to one digest at a level that is returned |
| `AuxPow.CheckExact` | src/auxpow.cpp:38-113 | passes exactly when the parent is another chain's, includes the coinbase, and the coinbase commits to the block at its slot |
| `AuxPow.CommitsOnce` | src/auxpow.cpp:69-112 | a script commits to at most one root, tree height and slot |
| `AuxPow.FindCollision` | src/auxpow.cpp:141-158 | two different branches of one length to one root at one slot contain a hash collision |
| `AuxPow.CheckMerkleBranch` | src/auxpow.cpp:141-158 | the loop computes the fold of the branch; index -1 gives the zero digest |
| `AuxPow.DecodeLE32` | src/auxpow.cpp:25-35 | the little-endian value of four bytes |
| `AuxPow.GetExpectedIndex` | src/auxpow.cpp:115-139 | the slot in unbounded integers, also for negative chain ids, below the tree size |
| `AuxPow.SlotsClash` | src/auxpow.cpp:115-139 | two chains share a slot exactly when their ids agree modulo the size of the tree |
| `AuxPow.NoncesClash` | src/auxpow.cpp:115-139 | two nonces give a chain the same slot exactly when they agree modulo the size of the tree |
| `AuxPow.SlotLinear` | src/auxpow.cpp:115-139 | the two rounds of the generator in one formula, linear in nonce and chain id |
| `AuxPow.BranchLeadsToRoot` | src/auxpow.cpp:141-160 | from every leaf of a full tree its branch leads to the root of the tree |
| `AuxPow.HonestAccepted` | src/auxpow.cpp:38-113 | a block in its slot of a tree that the coinbase of another chain announces is accepted |
| `AuxPow.WrapHarmless` | src/auxpow.cpp:128-136 | taking 64-bit remainders on the way does not change a remainder modulo a power of two |
| `Bech32.RoundTrip` | src/bech32.cpp:357-397 | decoding an encoding gives it back exactly when the human-readable part is nonempty and printable and the length is at most 90; otherwise it fails |
| `Bech32.Canonical` | src/bech32.cpp:373-397 | every text that decodes is, up to case, the encoding of what it decodes to |
| `Bech32.KnownTexts` | src/test/bech32_tests.cpp:15-41 | the shortest valid texts of both encodings come out letter by letter, which fixes alphabet, expansion, generator and constants |
| `Bech32.Alphabet` | src/bech32.cpp:22-23 | the characters of the symbols, in order |
| `Bech32.BurstInText` | src/bech32.cpp:372-396 | two texts of one length and with the same last separator that agree, case aside, outside six consecutive characters behind it and both decode under one encoding are the same text up to case |
| `Bech32.BurstRejected` | src/bech32.cpp:327-338 | a nonzero change confined to six consecutive data symbols never verifies under the same encoding, at any length |
| `Bech32.ChecksumExact` | src/bech32.cpp:327-354 | the created checksum verifies and no other six symbols do |
| `Bech32Checksum.BurstDetected` | src/bech32.cpp:130-216 | such a change always changes the remainder |
| `Bech32Checksum.RemainderLinear` | src/bech32.cpp:130-216 | the remainder of a sum is the sum of the remainders |
| `Bech32Checksum.StepIs` | src/bech32.cpp:178-214 | one round of the packed computation is one step of polynomial division over GF(32) by the generator |
| `Bech32Checksum.ConstantsAre` | src/bech32.cpp:208-212 | the five constants are x^6 modulo the generator times 1, 2, 4, 8 and 16 |
| `Bech32Checksum.AdvanceInjective` | src/bech32.cpp:178-214 | multiplying by x loses nothing |
| `Bech32Checksum.PolyMod` | src/bech32.cpp:130-216 | the loop computes the packed remainder |
| `Bech32.CheckCharacters` | src/bech32.cpp:286-309 | lists exactly the unprintable characters and the letters of the other case than the first letter |
| `Bech32.NoErrors` | src/bech32.cpp:286-309 | there are none exactly when the text is printable and in one case |
| `Bech32.ExpandHRP` | src/bech32.cpp:311-324 | high bits, a zero, low bits |
| `Bech32.VerifyChecksum` | src/bech32.cpp:326-338 | tells the encodings apart by the remainder |
| `Bech32.CreateChecksum` | src/bech32.cpp:340-353 | the six symbols that make the remainder the encoding's constant |
| `Bech32.Encode` | src/bech32.cpp:356-370 | the text of a human-readable part, values and checksum |
| `Bech32.Decode` | src/bech32.cpp:372-397 | the loops compute the specified decoding, error cases included |
| `Base58.DecodeEncode` | src/base58.cpp:38-125 | decoding an encoding gives the bytes back exactly when they are within the length limit |
| `Base58.EncodeDecode` | src/base58.cpp:38-125 | encoding what was decoded gives the text between surrounding spaces |
| `Base58.Alphabet` | src/base58.cpp:17-18 | the characters of the digits ascend and are all digits and letters but 0, I, O and l |
| `Base58.MulAdd` | src/base58.cpp:100-113 | the carry loop multiplies and adds in place, the carry always ends at zero and the length is the exact number of digits |
| `Radix.BytesFit58` | src/base58.cpp:97-98 | 138/100 base 58 digits per byte, plus one, are always enough |
| `Radix.DigitsFit256` | src/base58.cpp:51-53 | 733/1000 bytes per base 58 digit, plus one, are always enough |
| `Base58.EncodeBase58` | src/base58.cpp:87-125 | the loops compute the specified text |
| `Base58.DecodeBase58` | src/base58.cpp:38-84 | the loops compute the specified bytes or fail, with the length limit checked on the way |
| `Base58.ToBase58` | src/base58.cpp:96-115 | the buffer ends up holding exactly the base 58 digits |
| `Base58.ReadDigits` | src/base58.cpp:51-72 | reads digits up to a space or the end; fails exactly on another character or a result that is too long |
| `BlockEncodings.Reconstructs` | src/blockencodings.cpp:59-215 | for a compact block that describes the block, with distinct short ids: unless an entry of the pool or the extra list collides with the short id of a different transaction of the block, the slots hold only the block's own transactions, the answer to the request is what is missing, and together they are exactly the block |
| `BlockEncodings.FilledMatches` | src/blockencodings.cpp:59-174 | whatever pool and extra list hold, a filled slot has its prefilled transaction or an entry with the short id of the block's own transaction at that position |
| `BlockEncodings.FoundExactly` | src/blockencodings.cpp:116-174 | with no two pool entries for its short id, a transaction sent by short id is in its slot exactly when the pool or the extra list has an entry for it, the early exit notwithstanding, and otherwise the slot is empty |
| `BlockEncodings.AmbiguousRequested` | src/blockencodings.cpp:116-174 | a short id that two pool entries have is left to the peer, as long as some short id has no entry and so keeps the scan going |
| `BlockEncodings.IdsRight` | src/blockencodings.cpp:92-114 | the slot a short id is mapped to is the one whose transaction in the block has that short id |
| `BlockEncodings.Relayed` | src/blockencodings.cpp:20-215 | from the sender's block through its compact form, the receiver's slots, its request and the answer, the receiver gets the sender's block unless there is a collision |
| `BlockEncodings.SendBlockTransactions` | src/net_processing.cpp:2560-2573 | the transactions at the asked indexes in order, refused on an index out of range |
| `BlockEncodings.AnswerWanted` | src/net_processing.cpp:2560-2573 | asked for the empty slots, a peer sends exactly the transactions that belong there, in order |
| `BlockEncodings.ShortenDescribes` | src/blockencodings.cpp:20-29 | the sender's compact form is accepted and describes the block |
| `BlockEncodings.PlacedFree` | src/blockencodings.cpp:70-86 | accepted prefilled positions are in range and distinct, so exactly as many slots stay free as there are short ids |
| `BlockEncodings.PosIncreases` | src/blockencodings.cpp:70-86 | prefilled positions are strictly increasing |
| `BlockEncodings.IdMapSize` | src/blockencodings.cpp:92-114 | the map of short ids is as large as their list exactly when none is repeated |
| `BlockEncodings.IdMapAt` | src/blockencodings.cpp:92-97 | distinct short ids map one-to-one onto the free slots in order |
| `BlockEncodings.AvailableKeeps` | src/blockencodings.cpp:116-174 | prefilled slots stay as they are and the count is exactly the number of short ids found |
| `BlockEncodings.ScanFrame` | src/blockencodings.cpp:116-174 | a scan leaves a slot alone, empties it or fills it with an entry that matches its short id |
| `BlockEncodings.RebuiltRight` | src/blockencodings.cpp:200-208 | right transactions and the missing ones in order make the block |
| `BlockEncodings.PartiallyDownloadedBlock.InitData` | src/blockencodings.cpp:59-183 | each status exactly when its condition holds, and the slots after both scans |
| `BlockEncodings.PartiallyDownloadedBlock.Prefill` | src/blockencodings.cpp:70-86 | the differential indexes, checked one by one |
| `BlockEncodings.PartiallyDownloadedBlock.MapIds` | src/blockencodings.cpp:92-114 | each short id gets the next free slot and the walk stays in range |
| `BlockEncodings.PartiallyDownloadedBlock.Scanning` | src/blockencodings.cpp:116-174 | the pool and extra loops, with the early exit |
| `BlockEncodings.PartiallyDownloadedBlock.Request` | src/net_processing.cpp:4735-4739 | the indexes asked for are the empty slots, in order |
| `BlockEncodings.PartiallyDownloadedBlock.FillBlock` | src/blockencodings.cpp:193-232 | succeeds only with exactly the missing transactions, gives the rebuilt block to the block check and cannot be repeated; with too few it fails, stays open and has taken out everything before the first slot it could not fill |
| `BlockEncodings.RetryFits` | src/blockencodings.cpp:193-208 | after such a call the list that would have completed the block still has the right length exactly when no slot before the stop was filled |

## Left out

- Address manager: `Select_`, `GetChance` and the size and entry queries, which draw at random or only read.
- AddressManager.AddrManImpl.Serialize: the byte format on disk (version bytes, key, counts before lists) is a record of lists here.
- AddressManager.AddrManImpl.Unserialize: negative counts and truncated files cannot be written down in that record; `nNew` and `nTried` are counted up while loading instead of being read and corrected; unreferenced entries are dropped in ascending order of ids, where the code walks an unordered map.
- AddressManager.AddrManImpl.ResolveCollisions: the clock is a function of the id, so each waiting entry may see its own time; times are positive.
- UTXO caches: the best block hash, `EmplaceCoinInternalDANGER`, the access-by-transaction helpers and the behaviour after a failed write to the database.
- UTXO caches: cache objects form one line; two children of one parent are not modelled.
- Coins.CoinsDb.BatchWrite: batches written in parts, and a crash between them, are not modelled.
- Headers sync: memory limits derived from wall-clock time enter as a parameter; locators are not modelled.
- Check queue: `StopWorkerThreads` and the control mutex, beyond there being one master at a time.
- Cuckoo cache: concurrent calls of contains.
- CuckooCache.Cache.Setup: the depth limit is any positive number instead of the logarithm of the size, which the code takes in floating point.
- 256-bit arithmetic: hexadecimal text, doubles and the bitwise operators; `GetBlockProofEquivalentTime`.
- Chain: `FindEarliestAtLeast`, `Next`, and the step counter of a locator at its machine width.
- Auxpow: building a minimal auxpow; the version fields enter as the two chain ids decoded from them.
- Bech32: locating errors, and detection of scattered errors, which needs the field GF(1024).
- Base58: the variants with a hash check, which add four bytes.
- Compact blocks: the `extra_count` statistic, data moved along with the block, and the contents of the block check; an overfull hash bucket is a parameter.
