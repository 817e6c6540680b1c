# The solfees backend, modelled and verified

The backend reads one Redis stream into which several producers write the blocks and commitment changes
of Solana slots. It removes duplicates, keeps a pruned storage of block hashes and a window of the 150
newest slots, and answers `getLatestBlockhash` (with rollback), `getSlot` and
`getRecentPrioritizationFees` from them. The project models this path and proves:

- **Deduplication.** What the bounded LRU cache forwards is characterised for all streams, with no
  assumption (`Deduplicator.Receive`, `CacheExact`). It never loses a first occurrence (`NeverLosesFirst`);
  its surplus over the ideal first-occurrence filter is one message for each that arrives forgotten
  (`SurplusIsForgotten`), so it is ideal exactly when none does (`IdealIff`), as within the window
  (`RefinesIdeal`). With the cache of the program, any message followed by the blocks of the next 8192 slots
  passes twice (`DuplicatePasses`).
- **Merging producers.** When every producer keeps each slot's order, a forwarded message always comes after
  all earlier kinds of its slot, whatever the cache forgets (`ProducersKeepSequence`), and only once exactly
  when none arrives forgotten (`ProducersMergeInTurn`); within the window each slot comes out as a prefix of
  block, Processed, Confirmed, Finalized (`MergedInOrder`). Forwarded Finalized slots never decrease
  (`FinalizedNonFalling`); they strictly increase exactly when no Finalized arrives forgotten
  (`FinalizedRisingIff`).
- **Blockhash storage.** The counter `finalized_total` exceeds the number of stored Finalized slots by
  exactly the number of messages that concerned a slot already stored as Finalized (`DriftCountsHits`).
  The pruning loop ends for every message sequence whatever, exact counter or not: the counter passes its
  bound only when a Finalized slot has just been stored (`LatestBlockhashStorage.UpdateCommitment`, proved
  with no assumption on the stream). Behind deduplication the counter is exact exactly when no message of a
  slot that is already marked as Finalized gets through (`DriftFreeIff`, for every stream and capacity);
  within the window, exactly when no Processed or Confirmed comes late for a finalized block at the tip
  (`CounterExactIff`, `LateStatusDrifts`). Finality never moves back (`FinalityMonotone`), and in orderly
  streams the three pointers are ordered and stay stored (`PointerSafety`, `PointerSafetyForProducers`).
- **Capacity.** The finalized blocks are a function of the stream alone, and deduplication of any capacity
  does not change them (`SameFinalizedBlocks`, `FinalizedBlocksExact`). Pruning never drops a block above
  every Finalized received so far (`StaysStored`), so its Finalized finds it. An exact counter keeps exactly
  the newest 310 finalized blocks (`NewestRetained`). In any stream, behind deduplication of any capacity, a
  counter that is `d` too high keeps the newest 310 - `d` blocks that were marked (`NewestStored`,
  `NewestAlwaysStored`); in orderly streams these are the finalized blocks (`SettledMarks`).
- **Rollback.** The nested loops find a block exactly when a descending chain of that length exists
  (`WalkSoundAndComplete`). Every rollback up to 300 within the finalized history of the stream succeeds while
  the counter is at most 9 too high (`FinalizedRollback`, `RollbackAnsweredWithDrift`,
  `RollbackAnsweredForProducers`), and gives exactly the finalized block of that depth if no fork rivals it
  (`FinalizedRollbackExact`).
- **Window.** `slots_info` holds exactly the 150 largest slots ever received, with their latest data, agrees
  with the storage, and is contained in it while the counter is at most 160 too high.
- **Fees.** A percentile is characterised as a share of the fees (`PercentileIsShare`). The fee answered for a
  slot and the levels, counts and averages of the scan are characterised from the transactions alone
  (`FeeOverExact`, `ScanLevels`, `ScanAverage`); the precomputed index gives the same answers as a direct scan,
  independently of order.
- **Answers.** For every endpoint and method, what a call gets is stated from its parameters and the messages
  received, without the dispatch and the update loop (`CallServed`, `BlockhashExact`, `SlotAnsweredIff`,
  `FeesExact`, `FilteredExact`), and `OnRequest` ensures it of every call of a batch.
- **Supporting machines.** The geyser transaction buffer conserves transactions and sends what its updates
  say, field by field (`MessagesDescribe`); batched calls get the answers they would get alone, and a
  response conforms to JSON-RPC 2.0 exactly under `ConformsIff`; the leader schedule is inverted correctly,
  fetched by at most one task at a time, and stored exactly when a fetch succeeds (`StoredIff`).

Modules follow the program: `Geyser`, `GeyserBuffer` and `Accounts` for `grpc_geyser.rs`, `Dedup` and
`Producers` for `redis.rs`, `Schedule` for `schedule.rs`, `Storage`, `Rollback`, `Window`, `Fees`,
`UpdateLoop` and `Batch` for `rpc_solana.rs`. `Shares` and `Answers` say what is answered in terms of the
messages; `Pipeline`, `Pointers`, `Capacity`, `Counter` and `Backend` hold the results that span them.
Objects that the program updates in place are classes whose `Valid()` ties their fields to a function of the
messages received; loops of the program are loops here.

Foreign library types are represented by what the program relies on: a `BTreeMap` is a map with its least
key, `sort_unstable` is `Sort`, `slice::binary_search` is `Search`, the LRU cache is its recency order and
entries. A public key is a number, in the order of its bytes. A `HashMap` that is iterated is a sequence
of entries in any order. Parsing outcomes, the transport and the leader found for a block are inputs.

Where the code and its surroundings disagree, the code is followed:

- A response conforms to JSON-RPC 2.0 exactly when there is a call and every call is a method call that names
  version 2.0 (`ConformsIff`). An empty batch is answered with an empty list, where section 6 of JSON-RPC 2.0
  asks for a single Invalid Request (`EmptyBatchDoesNotConform`); a notification with an error, where section
  4.1 of JSON-RPC 2.0 forbids a reply (`NotificationDoesNotConform`); an invalid call and a call without a
  version without the version that section 5 of JSON-RPC 2.0 requires (`InvalidCallDoesNotConform`,
  `VersionlessCallDoesNotConform`).
- The rollback walk decrements slot 0 when slot 0 is stored and no chain is found. This is the outcome
  `Underflow`, with its exact condition (`UnderflowIff`) and an example (`UnderflowExample`). Where the
  arithmetic wraps instead of panicking, the search then hits a block above its start or never ends
  (`UncheckedUnderflow`).
- An epoch whose fetch task panics stays in progress without a fetch for ever (`StuckIff`, `StuckForever`, `StuckExample`).
- A percentile level of 10000 looks at the largest fee exactly when there are at most 10000 fees (`TopLevel`).

## Model

| member | source | states |
|---|---|---|
| Dedup.Deduplicator.Receive | solfees-be/src/redis.rs:73-99 | for every earlier stream: a message is forwarded iff its slot is at or above the largest earlier Finalized slot and the bounded cache does not remember its kind; the tip and the cache are functions of the stream |
| Dedup.CacheOrder | solfees-be/src/redis.rs:33-35 | the cache holds the most recently admitted distinct slots, in order of recency |
| Dedup.CacheHolds | solfees-be/src/redis.rs:33-35 | a slot is cached iff fewer than `capacity` other slots were admitted since its last admission |
| Dedup.CacheExact | solfees-be/src/redis.rs:13-19 | for every stream, a cached flag is set iff that kind was admitted with no gap since then wide enough to evict the slot |
| Dedup.MaxFinalizedIsMax | solfees-be/src/redis.rs:81-86 | the tip is the maximum of all raw Finalized slots, 0 before the first |
| Dedup.NeverLosesFirst | solfees-be/src/redis.rs:81-98 | whatever the stream and the capacity, a first occurrence at or above the tip is forwarded |
| Dedup.RefinesIdeal | solfees-be/src/redis.rs:81-98 | within the LRU window the forwarded stream equals that of the ideal first-occurrence filter |
| Dedup.SurplusIsForgotten | solfees-be/src/redis.rs:81-98 | for every stream and capacity, the number of forwarded messages exceeds that of the ideal filter by one for each message that arrives forgotten |
| Dedup.IdealIff | solfees-be/src/redis.rs:81-98 | for every stream and capacity, the forwarded stream is ideal iff no repeated message at or above the tip arrives after its slot was evicted |
| Dedup.EvictedPassesAgain | solfees-be/src/redis.rs:87-98 | for every capacity, a repeated message at or above the tip passes again once that many other slots were admitted since its slot |
| Dedup.DuplicatePasses | solfees-be/src/redis.rs:33-35 | with the cache of 8192 slots, every message passes again after the blocks of the next 8192 slots |
| Dedup.NoRepeatsIff | solfees-be/src/redis.rs:81-98 | for every stream and capacity, no message is forwarded twice iff none arrives forgotten |
| Dedup.ReceivedWasForwarded | solfees-be/src/redis.rs:81-98 | for every capacity, whatever was received about a slot at or above the tip was forwarded |
| Producers.MergedInOrder | solfees-be/src/redis.rs:37-101 | any interleaving of producers that keep each slot's order, within the LRU window: every slot comes out of the bounded cache as a prefix of block, Processed, Confirmed, Finalized, complete while at or above the tip |
| Pipeline.ProducersKeepSequence | solfees-be/src/redis.rs:74-101 | for such producers and every capacity, a forwarded message comes after all earlier kinds of its slot |
| Pipeline.ProducersMergeInTurn | solfees-be/src/redis.rs:74-101 | for such producers and every capacity, each message is forwarded once and in its turn iff none arrives forgotten |
| Pipeline.ProducersWithinWindow | solfees-be/src/redis.rs:74-101 | within the LRU window each is, and the Finalized slots increase |
| Pipeline.FinalizedNonFalling | solfees-be/src/redis.rs:81-86 | for every stream and capacity, the forwarded Finalized slots never decrease |
| Pipeline.FinalizedRisingIff | solfees-be/src/redis.rs:81-98 | for every stream and capacity, they strictly increase iff no Finalized arrives forgotten |
| Pipeline.FinalizedRepeats | solfees-be/src/redis.rs:81-98 | with the cache of 8192 slots, a Finalized repeated after the blocks of the next 8192 slots is forwarded twice |
| Storage.LatestBlockhashStorage.PushBlock | solfees-be/src/rpc_solana.rs:832-841 | stores the block as Processed, keeps the counter within its invariant |
| Storage.LatestBlockhashStorage.UpdateCommitment | solfees-be/src/rpc_solana.rs:843-864 | ends in every state satisfying the invariant; the popping loop equals dropping everything up to the smallest Finalized slot |
| Storage.LatestBlockhashStorage.Prune | solfees-be/src/rpc_solana.rs:857-863 | the loop of single pops equals one cut above the smallest Finalized slot |
| Storage.DriftStep | solfees-be/src/rpc_solana.rs:843-864 | each message keeps the counter between the number of stored Finalized slots and 310; the excess grows by one exactly when the message concerns a slot stored as Finalized |
| Storage.DriftCountsHits | solfees-be/src/rpc_solana.rs:831-864 | over every run the excess of the counter is the number of messages concerning slots already stored as Finalized |
| Pipeline.CleanNeverHits | solfees-be/src/rpc_solana.rs:843-864 | a stream without repetition and late statuses never touches a slot stored as Finalized |
| Pipeline.LateStatusDrifts | solfees-be/src/rpc_solana.rs:844-855 | a raw stream with a late status that makes the counter too high behind deduplication of any capacity |
| Counter.DriftFreeIff | solfees-be/src/rpc_solana.rs:831-864 | for every stream and capacity, the counter equals the number of stored Finalized slots iff no message is forwarded whose slot is already marked as Finalized |
| Counter.CounterExactIff | solfees-be/src/rpc_solana.rs:831-864 | within the LRU window, it does iff no first Processed or Confirmed at or above the tip arrives for a finalized block; a condition on the raw stream |
| Counter.NewestIsFinalized | solfees-be/src/rpc_solana.rs:843-864 | before the first hit the newest marked block is stored as Finalized |
| Counter.CounterExact | solfees-be/src/redis.rs:73-99 | within the LRU window and without late statuses the counter equals the number of stored Finalized slots, at most 310 |
| Pipeline.ProducersAreNotLate | solfees-be/src/redis.rs:74-101 | producers that keep each slot's order send no first Processed or Confirmed after the Finalized |
| Counter.CounterExactForProducers | solfees-be/src/rpc_solana.rs:831-864 | the counter is exact for any interleaving of such producers |
| Pipeline.FinalityMonotone | solfees-be/src/rpc_solana.rs:847-854 | for every raw stream and capacity the Finalized and Processed pointers never decrease |
| Pipeline.FinalityBounded | solfees-be/src/redis.rs:81-86 | the Finalized pointer never exceeds the deduplication tip |
| Pointers.PointerSafety | solfees-be/src/rpc_solana.rs:843-864 | finalized <= confirmed <= processed in every reachable state, and a pointer once set is a stored slot in spite of pruning |
| Pointers.PointersExact | solfees-be/src/rpc_solana.rs:843-856 | over every run the Processed pointer is the largest slot that a Processed found stored, the Confirmed and Finalized pointers are the last slots that such a status found stored |
| Pointers.ConfirmedRisingIff | solfees-be/src/redis.rs:81-98 | if every producer sends its Confirmed statuses in slot order and skips none that anyone sends, then for every capacity the forwarded Confirmed slots strictly increase iff no Confirmed arrives forgotten |
| Pointers.PointerSafetyForProducers | solfees-be/src/rpc_solana.rs:642-657 | pointer safety behind deduplication of such producers that keep each slot's order, within the window |
| Rollback.Walk | solfees-be/src/rpc_solana.rs:655-677 | the nested loops compute the greedy walk, with at most start - first stored slot + 1 decrements in total |
| Rollback.WalkSoundAndComplete | solfees-be/src/rpc_solana.rs:655-677 | the walk succeeds iff a strictly descending chain of stored slots with consecutive heights exists; the result is exactly `rollback` lower and at or above the end of every such chain |
| Rollback.GreedyDominates | solfees-be/src/rpc_solana.rs:663-677 | the slots visited are pointwise at or above every chain |
| Rollback.UnderflowIff | solfees-be/src/rpc_solana.rs:664-674 | the slot leaves the unsigned range iff slot 0 is stored and no chain exists |
| Rollback.UnderflowExample | solfees-be/src/rpc_solana.rs:664-674 | in the reachable storage that holds just the block of slot 0, every rollback does |
| Rollback.UncheckedUnderflow | solfees-be/src/rpc_solana.rs:663-677 | where decrementing 0 wraps, the search hits the largest stored slot one lower in height, above its start, and never ends if there is none |
| Capacity.SameFinalizedBlocks | solfees-be/src/redis.rs:81-98 | for every stream and capacity, deduplication keeps the list of blocks that came before the first Finalized of their slot, with their heights |
| Capacity.FinalizedBlocksExact | solfees-be/src/redis.rs:74-101 | for orderly producers and every capacity, that list holds exactly the slots whose Finalized is forwarded, with the height of their forwarded block |
| Capacity.StaysStored | solfees-be/src/rpc_solana.rs:857-863 | whatever the stream, pruning never drops a block above every Finalized received so far |
| Capacity.NewestRetained | solfees-be/src/rpc_solana.rs:843-864 | over every clean run with rising Finalized slots the stored Finalized slots are exactly the newest 310 finalized blocks of the stream with their heights |
| Capacity.SettledMarks | solfees-be/src/rpc_solana.rs:847-854 | if the Finalized slots never decrease and each repeated one had its block before its first (so for increasing Finalized slots, and for orderly producers at any capacity), the marked blocks are the finalized blocks |
| Capacity.NewestStored | solfees-be/src/rpc_solana.rs:843-864 | if the Finalized slots never decrease: with an excess of d of the counter, the newest 310 - d blocks that a Finalized followed are stored |
| Capacity.NewestAlwaysStored | solfees-be/src/redis.rs:81-98 | behind deduplication this holds of every stream and capacity, with no assumption |
| Capacity.FinalizedRollback | solfees-be/src/rpc_solana.rs:637-677 | if the Finalized slots never decrease (always so behind deduplication), the marked blocks have gapless heights and no two blocks of a slot differ in height: every rollback within the marked blocks and below 310 less the excess of the counter succeeds, exactly `rollback` blocks lower |
| Capacity.FinalizedRollbackExact | solfees-be/src/rpc_solana.rs:655-677 | under the same conditions and without a stored fork at these heights the slot found is the marked block of that depth |
| UpdateLoop.BlockhashAnsweredIff | solfees-be/src/rpc_solana.rs:637-686 | exactly which requests get a blockhash; it is that of a stored slot exactly `rollback` lower, at or above every chain's end, and valid at least up to the height of the requested commitment |
| UpdateLoop.BlockhashRefusedIff | solfees-be/src/rpc_solana.rs:648-677 | the exact condition of each refusal and of the underflow |
| Answers.BlockhashExact | solfees-be/src/rpc_solana.rs:637-686 | for every state and request: which refusal, no answer, or the block at the largest end of a chain of that length from the pointer of the commitment, with its hash and its height plus 300 |
| Answers.SlotAnsweredIff | solfees-be/src/rpc_solana.rs:698-713 | getSlot fails iff the pointer of its commitment is below the requested slot, else answers that pointer |
| Answers.SlotAnswersOrdered | solfees-be/src/rpc_solana.rs:698-713 | in every orderly run the Finalized answer is at most the Confirmed one, and that at most the Processed one |
| Answers.SlotAnswersNeverFall | solfees-be/src/rpc_solana.rs:698-713 | behind deduplication of every stream and capacity the Finalized and the Processed answers never decrease |
| Answers.FeesExact | solfees-be/src/rpc_solana.rs:687-697 | after any messages: one fee for each of the 150 largest slots, ascending, that of the transactions of its last block and of the requested keys and percentile, where their account lists are sorted |
| Answers.FilteredExact | solfees-be/src/rpc_solana.rs:714-727 | after any messages: one record for each of these slots, with the data of its last block and the counts, average and levels of the transactions that pass the filter, where their account lists are sorted, in the format of the endpoint |
| UpdateLoop.NoSlotOnlyBeforeFirst | solfees-be/src/rpc_solana.rs:642-657 | without rollback "no slot" is never answered once the pointer was set |
| UpdateLoop.FinalizedAlwaysAnswered | solfees-be/src/rpc_solana.rs:637-686 | under the conditions of the capacity theorem the request is answered, with the height of the last marked block minus the rollback plus 300 |
| UpdateLoop.Loop.Receive | solfees-be/src/rpc_solana.rs:590-621 | storage and window are functions of the message log |
| UpdateLoop.Loop.Respond | solfees-be/src/rpc_solana.rs:632-730 | the answer is a function of the message log and the request |
| UpdateLoop.Loop.PushInfo | solfees-be/src/rpc_solana.rs:614-618 | the popping loop of the window drops at most the smallest slot |
| Window.WindowIsTop | solfees-be/src/rpc_solana.rs:602-618 | after any messages the window holds exactly the 150 largest slots received as blocks, all if fewer |
| Window.TopUnique | solfees-be/src/rpc_solana.rs:616-618 | that set of slots is unique |
| Window.WindowContents | solfees-be/src/rpc_solana.rs:591-618 | each window entry is the last block of its slot with the commitment of the last status after it |
| Window.WindowShowsLog | solfees-be/src/rpc_solana.rs:591-618 | each window entry has leader, hash, time, height and transactions of the last block of its slot in the log, and the commitment of the last status after it |
| Window.StorageShowsLog | solfees-be/src/rpc_solana.rs:831-855 | so have the hash, height and commitment of each storage entry |
| Window.WindowAgreesWithStorage | solfees-be/src/rpc_solana.rs:591-618 | on slots in both structures hash, height and commitment agree |
| Window.WindowIsStored | solfees-be/src/rpc_solana.rs:590-621 | every window slot is in the blockhash storage while the counter is at most 160 too high |
| Backend.Server.Ingest | solfees-be/src/bin/solfees-be.rs:72-77 | storage and window are those of the forwarded messages; an undecodable payload ends the backend |
| Backend.WindowIsStoredForProducers | solfees-be/src/rpc_solana.rs:590-621 | end to end: the window is contained in the storage |
| Backend.RollbackAnsweredWithDrift | solfees-be/src/rpc_solana.rs:637-686 | end to end for orderly producers that send gapless finalized heights and no two heights for a slot, for every cache capacity: every rollback up to 300 within the finalized history that the producers sent is answered while the counter is at most 9 too high |
| Backend.RollbackAnsweredForProducers | solfees-be/src/rpc_solana.rs:637-686 | end to end within the LRU window, if the finalized heights are gapless: every rollback up to 300 within that history is answered |
| Backend.RollbackCallAnswered | solfees-be/src/rpc_solana.rs:185-204 | the same for a getLatestBlockhash call with a rollback on the endpoints that know rollbacks |
| Fees.PercentileIsShare | solfees-be/src/rpc_solana.rs:1024-1027 | on a sorted non-empty list, percentile p up to 9999 answers the one value such that at most p/10000 of the fees are below it and more than that are not above it |
| Fees.PercentileEnds | solfees-be/src/rpc_solana.rs:1024-1027 | percentiles from 9999 up answer as 9999 does; an empty list has no level |
| Fees.PercentileMonotone | solfees-be/src/rpc_solana.rs:1024-1027 | a higher level never gives a lower fee |
| Fees.TopLevel | solfees-be/src/rpc_solana.rs:1024-1027 | level 10000 looks at the last fee iff there are at most 10000 |
| Fees.Create | solfees-be/src/rpc_solana.rs:976-1000 | the loops compute, for all fees and per account, the sorted fees of the non-vote transactions |
| Fees.GetFee | solfees-be/src/rpc_solana.rs:1002-1015 | the loop computes the maximum over the slot's level and the keys' levels |
| Fees.FeeOverIsMax | solfees-be/src/rpc_solana.rs:1002-1015 | that value bounds every level and is one of them |
| Fees.GetFiltered | solfees-be/src/rpc_solana.rs:924-948 | count, average and levels of the scan over accepted transactions |
| Shares.FeeOverExact | solfees-be/src/rpc_solana.rs:976-1015 | when the account lists are sorted without repetition, as `AccountsExact` provides: the fee answered for a slot, from its transactions alone: the largest level of the prices of its non-vote transactions and of those that write a requested key, 0 without any; levels are counted over the transactions |
| Shares.ScanLevels | solfees-be/src/rpc_solana.rs:940-948 | for such transactions, each level of the scan is that share of the prices of the accepted transactions |
| Shares.ScanAverage | solfees-be/src/rpc_solana.rs:932-939 | for such transactions, the scan counts the accepted transactions, and its average times their number is the total of their prices |
| Shares.AcceptsIff | solfees-be/src/rpc_solana.rs:926-930 | on sorted account lists a transaction is accepted iff it is no vote, writes all `readWrite` and reads all `readOnly` accounts |
| Fees.IndexAgreesWithScan | solfees-be/src/rpc_solana.rs:924-1015 | the index answers the maximum of the direct scans for all transactions and for each key's writers |
| Fees.MinimumFee | solfees-be/src/rpc_solana.rs:1017-1021 | without a percentile: the largest minimum fee of the written keys, else the slot's minimum |
| Fees.FeeForgetsOrder | solfees-be/src/rpc_solana.rs:976-1015 | the answer depends on neither the order of transactions nor the order or repetition of keys |
| Fees.SearchExact | solfees-be/src/rpc_solana.rs:1115-1120 | binary search on a sorted list is membership |
| Accounts.InRanges | solfees-be/src/grpc_geyser.rs:103-145 | the four ranges of a valid header split the static keys into writable and readonly indices |
| Accounts.AccountsExact | solfees-be/src/grpc_geyser.rs:95-163 | the lists hold exactly the writable, readable and signer keys, sorted and without repetition |
| Accounts.FeePayerListed | solfees-be/src/grpc_geyser.rs:149-161 | the fee payer is a writable signer |
| Accounts.ListsDisjoint | solfees-be/src/grpc_geyser.rs:103-145 | if no key comes twice in a message, none is both writable and readable |
| Accounts.FilterExact | solfees-be/src/rpc_solana.rs:926-930 | a transaction passes a filter iff it is no vote, writes all `readWrite` and reads all `readOnly` accounts |
| GeyserBuffer.TransactionBuffer.Process | solfees-be/src/grpc_geyser.rs:341-406 | one round of the loop; after a Finalized no lower slot is buffered; only an error ends the loop |
| GeyserBuffer.TransactionBuffer.DiscardBelow | solfees-be/src/grpc_geyser.rs:350-359 | the popping loop drops exactly the lower slots |
| GeyserBuffer.Conservation | solfees-be/src/grpc_geyser.rs:341-406 | what arrived for a slot is, in order, what left the buffer followed by what is in it |
| GeyserBuffer.BlocksCarryEmitted | solfees-be/src/grpc_geyser.rs:388-391 | the blocks sent for a slot carry exactly its emitted stretches |
| GeyserBuffer.BlockIsComplete | solfees-be/src/grpc_geyser.rs:368-395 | a slot whose transactions precede its block meta is sent whole, in order of arrival |
| GeyserBuffer.MessagesDescribe | solfees-be/src/grpc_geyser.rs:269-296 | for every stream of updates the messages are, in order, one for each update that sends one: the slot and commitment of a slot update, or a block with leader, hash, time, height, parent slot and parent hash of its block meta |
| GeyserBuffer.SourcesExact | solfees-be/src/grpc_geyser.rs:341-406 | the updates that send a message are, before the first failure, the slot updates and the block metas of slots with pending transactions |
| GeyserBuffer.BufferedIff | solfees-be/src/grpc_geyser.rs:362-391 | a slot is buffered iff a transaction of it arrived and no block meta of it or higher Finalized came since |
| GeyserBuffer.AliveIff | solfees-be/src/grpc_geyser.rs:341-406 | the subscription lives iff no update failed: the stream, a status, a transaction, or the block meta of a slot with pending transactions |
| Schedule.New | solfees-be/src/schedule.rs:95-121 | succeeds iff all keys parse, all indices are in range and there are at most 65536 leaders; else the failure is that of the first failing entry; each index maps to the last entry listing it |
| Schedule.FailureIff | solfees-be/src/schedule.rs:101-118 | building fails for a reason iff some entry is the first that cannot be added, for that reason: a bad key, else one leader too many, else an index outside the epoch |
| Schedule.LookupInverts | solfees-be/src/schedule.rs:34-42 | on a partition of the epoch the lookup of any slot gives the leader that lists it |
| Schedule.OrderIrrelevant | solfees-be/src/schedule.rs:101-118 | the iteration order of the response does not matter |
| Schedule.SingleFlightAlways | solfees-be/src/schedule.rs:34-85 | over every interleaving an epoch in progress has exactly one running fetch, or none if its fetch panicked |
| Schedule.StuckIff | solfees-be/src/schedule.rs:47-65 | over every interleaving an epoch is in progress without a running fetch iff a fetch of it panicked |
| Schedule.StuckExample | solfees-be/src/schedule.rs:101-118 | a response with an index one past the epoch panics, and a run that reaches the stuck state |
| Schedule.StuckForever | solfees-be/src/schedule.rs:47-65 | it then stays so whatever happens later |
| Schedule.StoredForever | solfees-be/src/schedule.rs:37-47 | a stored schedule is never removed, replaced or fetched again |
| Schedule.StoredIff | solfees-be/src/schedule.rs:34-85 | over every interleaving an epoch holds a schedule iff a running fetch of it ended with that schedule |
| Schedule.FailureForgets | solfees-be/src/schedule.rs:53-60 | after a failed fetch the epoch is unknown and its next lookup runs one fetch |
| Schedule.SolanaSchedule.GetLeader | solfees-be/src/schedule.rs:34-65 | spawns a fetch iff the epoch is unknown, and then none is running |
| Schedule.SolanaSchedule.FinishFetch | solfees-be/src/schedule.rs:53-84 | stores the schedule iff it can be built, leaves the epoch in progress iff an index outside the epoch makes building it panic, otherwise forgets the epoch |
| Batch.Place | solfees-be/src/rpc_solana.rs:387-395 | the loop never runs out of open places and leaves none open |
| Batch.OnRequest | solfees-be/src/rpc_solana.rs:125-417 | every call of a batch is answered, in its place, with what its method and parameters ask for; which failure of the transport gives which error; exactly when the response conforms; the internal errors cannot occur |
| Batch.CallServed | solfees-be/src/rpc_solana.rs:139-352 | for every endpoint and method: what the call gets, from its own parameters and the messages received; Finalized without a commitment, no rollback and no percentile on Solana |
| Batch.AnswerCarriesHead | solfees-be/src/rpc_solana.rs:138-352 | the answer to a call has its version and id, Null for a notification, no version for an invalid call |
| Batch.ConformsIff | solfees-be/src/rpc_solana.rs:125-417 | in the number, versions and ids of its outputs a response conforms to JSON-RPC 2.0 iff there is a call and every call is a method call that names version 2.0 |
| Batch.EmptyBatchDoesNotConform | solfees-be/src/rpc_solana.rs:125-417 | an empty batch gets an empty list |
| Batch.NotificationDoesNotConform | solfees-be/src/rpc_solana.rs:141-148 | a notification gets an Invalid Request |
| Batch.InvalidCallDoesNotConform | solfees-be/src/rpc_solana.rs:149-156 | an invalid call gets an Invalid Request without a version |
| Batch.VersionlessCallDoesNotConform | solfees-be/src/rpc_solana.rs:549-566 | a call without a version gets an answer without one |
| Batch.ModesCompatible | solfees-be/src/rpc_solana.rs:159-345 | Solfees answers every method but one as Triton does; that one is all the frontend serves, and its answer reduces to that of Solfees |

## Left out

- The gRPC, Redis, HTTP and WebSocket transports, the tokio channels and the shutdown plumbing: only the messages that reach each state machine are modelled.
- Decoding of payloads, transactions and JSON-RPC parameters: their outcomes are inputs, and the texts of parameter errors are one value.
- Fees.GetFiltered: the average is a real number, so the rounding of floats and an overflow of the 64-bit sum are not modelled.
- The sums of fees and compute units of a slot.
- The compute-budget fold of `GeyserTransaction::from` and the fee formula of `bin/txmon.rs`: short folds.
- Rollback.Walk: heights are unbounded numbers, so the overflow of `height + 1` at a stored height of 2^64 - 1 is not modelled, and after a decrement of slot 0 the walk ends; what a wrapping search does instead is a separate result (`UncheckedUnderflow`).
- Batch.OnRequest: after a decrement of slot 0 the request is dropped, as in a build with overflow checks; the release profile (Cargo.toml:61-63) has none, so there the update loop goes on searching and may answer from above the pointer (`UncheckedUnderflow`). Requests whose body does not parse, and those that get no response, are not judged for conformance.
- UpdateLoop.Loop.Respond: in a build with overflow checks the panic ends the update loop, so every later request fails as well; the model's loop goes on.
- Fees.PercentileIsLevel: the product of the percentile rule is unbounded; it would overflow 64 bits only for lists that no machine holds.
- Whether a rolled-back block is an ancestor: the code walks by height and ignores parents.
- Results of binary search on unsorted lists: the lists of this program are sorted (`AccountsExact`).
- The status updates broadcast to subscribers, and the calls of the WebSocket endpoint.
- Panics of a schedule fetch task other than that of an index outside the epoch, and cancelling it.
- A message header that the Solana sanitizer rejects, on which slicing the static keys can panic.
