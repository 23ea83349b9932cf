# Verified models of the indexer's stateful and numeric cores

A Dafny 4.11 project with models of five parts of the repository that keep state across calls or do
delicate arithmetic, and proofs of what they promise over every input, run and interleaving. It needs
nothing but its own files: `dafny verify dfyconfig.toml` checks it.

| part | modules |
|---|---|
| Q32.32 fixed-point arithmetic on two-word 128-bit integers | `Words`, `FixedPoint` |
| Candle engine: windows, granularities, shards, threads | `Candles`, `CandleWindows`, `CandleRollup`, `CandleShards`, `CandleWorkers`, `CandleShutdown`, `CandleDelivery` |
| Provisional, settled and undone swaps per slot | `SlotProtocol`, `SlotProcessor`, `SlotLedger`, `SlotSending` |
| Backfill range scheduler and its workers | `BackfillSchedule`, `BackfillRun` |
| Raydium accounts, pool fees, swap events; subject mapping | `RaydiumAccounts`, `PoolIndex`, `CanonicalPairs`, `RaydiumSwaps`, `StringOrder`, `SubjectMapping` |

`Wrappers` holds the shared optional value. Integers are Dafny's unbounded ones; every place where the
program's words wrap is written out (`WrapI64`, `WrapU64`, `WrapU32`), so the results below need no
assumption that sums, counts or window ends stay in range. Code that changes things in place is a class or a
loop here too, and its contract ties the new state to a function on values; the theorems are about those
functions and the runs built from them.

## Where the code departs from what is expected of it

- Fixed-point division: the header (state/candle_cpp/include/fixed_point.hpp:123) announces an overflow
  only when the result does not fit. In the code every dividend whose magnitude is 1.0 or more overflows,
  because the high word of the shifted divisor is always zero and quotient bit 63 is set at once; 1.0 / 1.0
  overflows. The least word is refused too. `DivisionMeetsItsHeader` gives the exact inputs on which code
  and header agree.
- Stopping the candle worker drains a shard if and only if no `on_trade` call for one of the shard's pairs
  is between its running check and its push when the flag falls (`StopDrainsExactly`); otherwise that trade
  can stay queued for ever (`StopCanStrandATrade`).
- A resolution that publishes some of its mirrors and then fails is started again from the first swap, so a
  consumer sees a swap settled twice, or settled and undone (`CutShortResolvesTwice`). The published stream
  is a faithful ledger exactly when that never happens (`LedgerFollowsPending`).
- A pool that moves to a configuration whose fee is unknown keeps its old fee
  (`RepointedPoolKeepsAStaleFee`); the index is the join of its two sources exactly while no pool does that
  (`JoinUnlessAFeeIsLost`).
- Rules with one source and different effects make the subject mapper depend on the order an unstable sort
  leaves (`OrderOfRulesDoesNotMatter` is an equivalence).
- Vault changes that do not fit in a signed word show the opposite sign (`ParsesExactlySwaps`): an exchange in
  which both vaults gain is taken for a swap (`GiftIsTakenForASwap`), and a swap can be refused
  (`HugeSwapIsRefused`).

## Model

| member | source | states |
|---|---|---|
| FixedPoint.Multiply64x64To128 | state/candle_cpp/src/fixed_point.cpp:72-113 | For all signed words, the least one and zero with mixed signs included, the two result words are exactly a times b. |
| FixedPoint.ColumnsNeverWrap | state/candle_cpp/src/fixed_point.cpp:86-96 | From the bounds of the four partial products, neither the middle column nor the high word of the schoolbook sum wraps in 64 bits. |
| FixedPoint.MagnitudeProduct | state/candle_cpp/src/fixed_point.cpp:76-100 | The combined words are the exact product of the magnitudes, and the high word leaves the sign bit free. |
| FixedPoint.NegateWords | state/candle_cpp/src/fixed_point.cpp:103-110 | Complementing both words and adding one with carry is arithmetic negation. |
| FixedPoint.OrOfDisjointWordsIsSum | state/candle_cpp/src/fixed_point.cpp:95 | Bitwise or of words without a common bit is their sum, which justifies adding where the code uses or. |
| FixedPoint.ShiftRightIsFloorDivision | state/candle_cpp/src/fixed_point.cpp:198-210 | For every admissible shift the two-word right shift is division by the power of two rounded toward minus infinity. |
| FixedPoint.ShiftLeftIsWrappedProduct | state/candle_cpp/src/fixed_point.cpp:212-223 | The two-word left shift is multiplication by the power of two modulo 2^128 in two's complement. |
| FixedPoint.ShiftRoundTrip | state/candle_cpp/src/fixed_point.cpp:198-223 | Shifting left and then right gives the value back if and only if the shifted value fits in 128 signed bits. |
| FixedPoint.ShiftsOutsideAWordAreRefused | state/candle_cpp/src/fixed_point.cpp:198-215 | Shift amounts below 1 or above 63 are an error in both directions. |
| FixedPoint.ToInt64IsExact | state/candle_cpp/src/fixed_point.cpp:225-243 | The word-wise range check holds exactly for values in the signed word's range, and conversion then keeps the value. |
| FixedPoint.FpProduct | state/candle_cpp/src/fixed_point.cpp:22-36 | A result r satisfies r * 2^32 <= a*b < (r + 1) * 2^32; there is one exactly when a*b lies in [-2^95, 2^95), and the overflow error otherwise. |
| FixedPoint.FpMultiply | state/candle_cpp/src/fixed_point.cpp:22-36 | Returns floor(a*b / 2^32), and throws exactly when that floor is outside a signed word. |
| FixedPoint.LongDivide | state/candle_cpp/src/fixed_point.cpp:155-188 | With a nonzero high word the bit loop always ends with quotient bit 63 set. |
| FixedPoint.TruncDiv | state/candle_cpp/src/fixed_point.cpp:192-195 | The quotient leaves a remainder smaller than the divisor that never points away from the dividend. |
| FixedPoint.Quotient128 | state/candle_cpp/src/fixed_point.cpp:115-196 | Which dividends and divisors give a quotient, a domain error or an overflow, and the remainder bounds of the quotient. |
| FixedPoint.Divide128By64 | state/candle_cpp/src/fixed_point.cpp:115-196 | A zero divisor is a domain error; magnitudes of 2^64 or more, or quotients beyond the largest word, overflow; everything else is divided toward zero for every sign combination. |
| FixedPoint.ExtendAndShift | state/candle_cpp/src/fixed_point.cpp:46-60 | The hand-built dividend is a * 2^32. |
| FixedPoint.FpQuotient | state/candle_cpp/src/fixed_point.cpp:38-64 | A domain error exactly for a zero divisor; a result exactly when abs(a) < 2^32 and abs(a) < 2^31 * abs(b), with remainder bounds; an overflow otherwise. |
| FixedPoint.FpDivide | state/candle_cpp/src/fixed_point.cpp:38-64 | Returns a*2^32 / b toward zero exactly when b is nonzero, abs(a) < 2^32 and abs(a) < 2^31 * abs(b); the error otherwise. |
| FixedPoint.DivisionMeetsItsHeader | state/candle_cpp/include/fixed_point.hpp:116-124 | The exact inputs on which the division's result or error is the one its header announces. |
| FixedPoint.OneOverOneOverflows | state/candle_cpp/include/fixed_point.hpp:116-124 | 1.0 / 1.0 overflows although its documented result is 1.0. |
| FixedPoint.DivideThenMultiply | state/candle_cpp/src/fixed_point.cpp:22-64 | Whenever division returns, multiplying back does not throw and misses the dividend by at most ceil((abs(b) - 1) / 2^32). |
| Candles.WindowStart | state/candle_cpp/src/candle_worker.cpp:66-69 | The window start is the multiple of the size whose window holds the timestamp. |
| Candles.ExtremesBoundEveryPrice | state/candle_cpp/include/candle_types.hpp:26-27 | High and low of the reference candle bound every price of the batch and are prices of the batch. |
| Candles.UpdateExtendsBatch | state/candle_cpp/src/candle_worker.cpp:28-63 | Creating or updating a candle with a trade takes the candle of a batch to the candle of the batch with that trade appended. |
| Candles.MergeOfBatches | state/candle_cpp/include/candle_types.hpp:22-33 | Merging the candles of two consecutive batches gives the candle of their concatenation, in all fields, wrapped totals included. |
| CandleWindows.CandleWindow.constructor | state/candle_cpp/src/candle_worker.cpp:111-124 | A new window has its size, no candles and no trades. |
| CandleWindows.CandleWindow.Update | state/candle_cpp/src/candle_worker.cpp:16-64 | The object's maps move by one update step and stay what the run of its recorded calls says. |
| CandleWindows.CandleWindow.FinalizeOldCandles | state/candle_cpp/src/candle_worker.cpp:71-92 | Erasing while walking the ordered map returns the closing candles in key order, no longer provisional, and removes exactly them. |
| CandleWindows.FragmentsAreBlocks | state/candle_cpp/src/candle_worker.cpp:16-92 | For any interleaving of updates and finalizations a window's emitted candles, then the live one, are the batch candles of consecutive blocks of its trades, and the blocks are all its trades in arrival order. |
| CandleWindows.MergedFragmentsAreBatch | state/candle_cpp/src/candle_worker.cpp:16-92 | Merging a window's fragments gives the batch candle of all its trades; there are fragments exactly when there are trades. |
| CandleWindows.FinalizeIsExact | state/candle_cpp/src/candle_worker.cpp:71-92 | After any history a finalization emits exactly the candles closed by the watermark, in strictly increasing open time, and leaves exactly the later ones unchanged. |
| CandleWindows.EmittedOnceWithoutLateTrades | state/candle_cpp/src/candle_worker.cpp:66-92 | If no trade falls in a window closed at an earlier watermark, each window is emitted at most once, as the candle of all its trades. |
| CandleWindows.LastTradeTimeIsLatest | state/candle_cpp/src/candle_worker.cpp:23-26 | After any history the last trade time bounds every trade's timestamp and is one of them, or zero. |
| CandleWindows.CandlesSpanTheirWindows | state/candle_cpp/src/candle_worker.cpp:16-43 | Every candle, live or emitted, opens on the grid and closes one window size later, wrapping with the clock. |
| CandleRollup.WindowSaysItsTrades | state/candle_cpp/src/candle_worker.cpp:16-92 | What a window shows after any history is determined by the trades in its span, whatever was finalized when. |
| CandleRollup.RollUpTotals | state/candle_cpp/src/candle_worker.cpp:107-139 | Over histories with the same trades, a coarse window's high, low, volumes and trade count are those of all finer windows inside it, for any arrival order and any finalizations of either. |
| CandleRollup.RollUpInTimeOrder | state/candle_cpp/src/candle_worker.cpp:107-139 | If timestamps never decrease, open and close roll up as well. |
| CandleRollup.GranularitiesAreNested | state/candle_cpp/include/candle_types.hpp:11-19 | Each granularity divides every coarser one. |
| CandleShards.Shard.constructor | state/candle_cpp/src/candle_worker.cpp:157-162 | A new shard has no windows. |
| CandleShards.Shard.GetOrCreateWindows | state/candle_cpp/src/candle_worker.cpp:98-128 | A pair's seven windows are created once, fresh and shared with nothing, and returned unchanged afterwards. |
| CandleShards.Shard.ProcessTrade | state/candle_cpp/src/candle_worker.cpp:130-139 | Every window of the pair receives exactly this trade; no window of another pair receives anything. |
| CandleWorkers.InvIsPreserved | state/candle_cpp/src/candle_worker.cpp:183-228 | Every step of producers, workers, finalizer and shutdown keeps the system invariant. |
| CandleWorkers.ReachableInv | state/candle_cpp/src/candle_worker.cpp:164-349 | The invariant holds in every state reachable from the start. |
| CandleWorkers.TradesKeepTheirOrder | state/candle_cpp/src/candle_worker.cpp:212-349 | In every reachable state a pair's absorbed, in-hand and queued trades concatenate to its accepted trades in order, all in the one shard of the pair. |
| CandleWorkers.SystemCandlesAreBatches | state/candle_cpp/src/candle_worker.cpp:285-349 | In every reachable state, also while the finalizer holds candles it has erased and not yet published, a window's published, held and live candles merge to the batch candle of the absorbed trades of its pair. |
| CandleWorkers.ShardingIsInvisible | state/candle_cpp/src/candle_worker.cpp:252-264 | Two systems with any hashes and shard counts that absorbed the same trades of a pair show the same candles for it. |
| CandleWorkers.GranularitiesRollUp | state/candle_cpp/src/candle_worker.cpp:98-139 | In every reachable state without a half-applied trade of the pair, a coarse window's totals are those of the finer windows inside it, for any arrival order and any finalizations. |
| CandleWorkers.GranularitiesRollUpInTimeOrder | state/candle_cpp/src/candle_worker.cpp:98-139 | If in addition the pair's timestamps never decrease, open and close roll up as well. |
| CandleShutdown.ExitLeavesOnlyLateTrades | state/candle_cpp/src/candle_worker.cpp:333-344 | When a worker has exited, its queue holds exactly what was pushed after it exited. |
| CandleShutdown.StopDrainsQueues | state/candle_cpp/src/candle_worker.cpp:183-210 | If no on_trade call for a pair of the shard was under way at the stop, the shard's worker, once exited, has put every accepted trade of its pairs into every one of their windows. |
| CandleShutdown.WorkerCanStep | state/candle_cpp/src/candle_worker.cpp:329-349 | A worker that has not exited, and is not waiting at an empty queue while the flag is up, can always take its next step. |
| CandleShutdown.WorkerCatchesUp | state/candle_cpp/src/candle_worker.cpp:329-349 | From every state a worker empties its queue by its own steps alone, and then every accepted trade of its pairs is in every one of their windows. |
| CandleShutdown.WorkerReachesExit | state/candle_cpp/src/candle_worker.cpp:329-349 | From every stopped state a worker reaches its exit by its own steps alone, in exactly the counted number of steps. |
| CandleShutdown.StopDrainsExactly | state/candle_cpp/src/candle_worker.cpp:183-228 | For every reachable running state and shard: in every continuation of the stop an exited worker's queue is empty, if and only if no on_trade call for a pair of the shard was under way at the stop. |
| CandleShutdown.AnyTradeCanBeUnderWay | state/candle_cpp/src/candle_worker.cpp:212-228 | From every reachable running state any trade can come to be between the running check and the push. |
| CandleShutdown.ExitedForGood | state/candle_cpp/src/candle_worker.cpp:338-340 | A worker that has exited takes nothing more, and its queue only grows. |
| CandleShutdown.StopCanStrandATrade | state/candle_cpp/src/candle_worker.cpp:212-228 | In every reachable running state each trade under way can be pushed after its worker's exit, and no continuation ever takes it. |
| CandleDelivery.AcceptedArePushed | state/candle_cpp/src/candle_worker.cpp:219-226 | Along every run a shard accepts exactly the trades pushed for its pairs, in order. |
| CandleDelivery.EveryPushIsKept | state/candle_cpp/src/candle_worker.cpp:212-349 | In every run from the start, for every window of a pair, its absorbed, in-hand and queued trades are the trades pushed for the pair, in the order of the pushes. |
| CandleDelivery.CallsPushOnce | state/candle_cpp/src/candle_worker.cpp:212-228 | Each on_trade call that passed the running check is under way until its one push. |
| CandleDelivery.FinalizerSkipsUntraded | state/candle_cpp/src/candle_worker.cpp:303-317 | The finalizer, with nothing in hand, may finalize a window if and only if the window has absorbed a trade with a nonzero timestamp. |
| CandleDelivery.FinalizerPublishesClosed | state/candle_cpp/src/candle_worker.cpp:303-323 | A finalization of a traded window and the publishes after it publish exactly its closed candles in increasing open time, nothing for other windows, and leave exactly the later candles. |
| CandleDelivery.LiveCandlesStayUnpublished | state/candle_cpp/src/candle_worker.cpp:183-210 | Once the finalizer has exited nothing more is published, whatever the workers still drain. |
| CandleDelivery.FinalizerReachesExit | state/candle_cpp/src/candle_worker.cpp:288-327 | After the stop the finalizer can always publish what it has in hand and exit. |
| SlotProcessor.Processor.constructor | ingestor/geyser/processor.go:41-50 | A new processor has nothing pending, no block heads, and has published nothing. |
| SlotProcessor.Processor.AppendPending | ingestor/geyser/processor.go:200-206 | The swap goes to the end of its slot's pending list. |
| SlotProcessor.Processor.HandleTransaction | ingestor/geyser/processor.go:71-100 | Metadata first, then swap by swap publish and append, stopping at the first failure with what was done kept. |
| SlotProcessor.Processor.HandleBlockMeta | ingestor/geyser/processor.go:102-118 | The head is recorded as confirmed even if publishing it fails; a missing block time reads as zero. |
| SlotProcessor.Processor.ResolveSlot | ingestor/geyser/processor.go:145-181 | Mirrors of the pending swaps are published in order; the list is discarded only if all of them were accepted. |
| SlotProcessor.Processor.PublishBlockHeadStatus | ingestor/geyser/processor.go:183-198 | A known head is published with the new status and forgotten if that was accepted. |
| SlotProcessor.Processor.HandleSlot | ingestor/geyser/processor.go:124-143 | Finalized settles and dead undoes the slot, then the head follows unless that failed; other statuses do nothing. |
| SlotProcessor.Processor.HandleUpdate | ingestor/geyser/processor.go:53-69 | Each kind of update moves the object by the corresponding step of the protocol. |
| SlotProtocol.HandleInv | ingestor/geyser/processor.go:53-206 | Every update, whatever publishes fail, keeps pending equal to what the published trace leaves unresolved, and every trace entry justified. |
| SlotProtocol.PendingIsUnresolved | ingestor/geyser/processor.go:71-206 | Under arbitrary failures each slot's pending list is its accepted provisionals since its last completed resolution, in order; finals and undos mirror unresolved swaps; a finalized or dead head goes out only when its slot has nothing unresolved. |
| SlotProtocol.CompletedStatusIsFinal | ingestor/geyser/processor.go:124-198 | After a terminal status was handled, and whatever else is handled or fails until a swap or block metadata of the slot comes, a terminal status of that slot publishes nothing and changes nothing. |
| SlotProtocol.HandleAdds | ingestor/geyser/processor.go:53-206 | Whatever publishes fail, an update only adds to the trace, and only what it calls for: provisionals by their transaction, settlements and finalized heads by the slot's finalized status, undos and dead heads by its dead status. |
| SlotProtocol.EveryEntryIsCalledFor | ingestor/geyser/processor.go:53-206 | The same for every update of every run from the start. |
| SlotSending.HandleSendsItsPlan | ingestor/geyser/processor.go:71-198 | Whatever the publisher refuses, an update sends its messages in order up to the first refusal and tries nothing after it: metadata before swaps, final forms of the pending swaps before the head; it fails exactly when something was refused or the transaction does not decode. |
| SlotSending.TransactionKeeps | ingestor/geyser/processor.go:71-100 | Pending gains exactly the accepted swaps, in their slots, in order. |
| SlotSending.BlockMetaKeeps | ingestor/geyser/processor.go:102-118 | The head stays on record even when publishing it is refused. |
| SlotSending.StatusKeeps | ingestor/geyser/processor.go:124-198 | Pending swaps are forgotten exactly when all their final forms were accepted, the head exactly when it was accepted too. |
| SlotSending.FailureFreeMetadata | ingestor/geyser/processor.go:83-87 | Without failures the metadata published is that of the transactions that decode, in order. |
| SlotLedger.LedgerConserves | ingestor/geyser/processor.go:145-181 | In a ledger that is not broken, closed swaps followed by open ones are the published provisionals, each once: none both settled and undone. |
| SlotLedger.ResolveInStep | ingestor/geyser/processor.go:145-181 | Resolving keeps the published ledger in step with pending if and only if it is not cut short after at least one mirror. |
| SlotLedger.HandleInStep | ingestor/geyser/processor.go:53-206 | Any update keeps the ledger in step with pending if and only if it is not a resolution cut short. |
| SlotLedger.LedgerFollowsPending | ingestor/geyser/processor.go:71-206 | All along a run, open swaps of every slot are its pending list in order, if and only if no resolution was cut short. |
| SlotLedger.MirrorsClose | ingestor/geyser/processor.go:145-181 | Whatever publishes fail, a resolution closes the oldest open swaps of its slot in order, as settled or undone by its kind, as many as are accepted in a row. |
| SlotLedger.FailureFreeLedger | ingestor/geyser/processor.go:71-206 | Without failures a fold over the updates gives each slot's whole published history: finalized settles exactly what is open and dead undoes it, open swaps are the pending ones, and every head version published is the one the updates call for. |
| SlotLedger.FailureFreeConservation | ingestor/geyser/processor.go:71-206 | Without failures every published provisional is open or closed exactly once, in order. |
| SlotLedger.CutShortResolvesTwice | ingestor/geyser/processor.go:145-181 | For any slot and two of its swaps, a run in which one failed publish leaves a swap both settled and undone. |
| BackfillSchedule.TurnFollowsPartition | backfill/orchestrator/orchestrator.go:60-95 | For every validated configuration a turn of the loop offers the next range of the partition, or ends with none left; the invalid-range error is unreachable and stopping at saturation loses nothing. |
| BackfillSchedule.AddSaturates | backfill/orchestrator/orchestrator.go:124-132 | The sum is cut at the largest word, and the flag says exactly when it was. |
| BackfillSchedule.Produce | backfill/orchestrator/orchestrator.go:52-96 | The loop terminates having scheduled the whole partition, without the invalid-range error. |
| BackfillSchedule.PartitionOnGrid | backfill/orchestrator/orchestrator.go:69-74 | Range number i starts at start + i * batch and ends one batch later or at the limit. |
| BackfillSchedule.ScheduleTilesTheSpan | backfill/orchestrator/orchestrator.go:56-95 | The ranges are nonempty, contiguous, disjoint, at most a batch wide, and cover exactly the slots from the start up to the limit, or up to the largest word when open-ended. |
| BackfillRun.InvIsPreserved | backfill/orchestrator/orchestrator.go:52-108 | Every step of producer, channel, workers and cancellation keeps the invariant. |
| BackfillRun.ReachableInv | backfill/orchestrator/orchestrator.go:44-117 | The invariant holds in every reachable state. |
| BackfillRun.DispatchedIsPrefix | backfill/orchestrator/orchestrator.go:82-108 | In every interleaving the dispatched ranges are a prefix of the partition, and no two workers process the same one. |
| BackfillRun.NilMeansAllProcessedOnce | backfill/orchestrator/orchestrator.go:98-117 | When every goroutine returned nil, each range of the partition was processed without error exactly once. |
| BackfillRun.ErrorsComeFromCancellation | backfill/orchestrator/orchestrator.go:60-117 | The invalid-range error is unreachable; an error is returned only after a range failed or the context was cancelled from outside; a range that failed has not succeeded, and then nil is never returned. |
| BackfillRun.CancellationStopsDispatch | backfill/orchestrator/orchestrator.go:60-87 | Once the group is cancelled at most one more range is dispatched, the one already on offer. |
| BackfillRun.NeverStuck | backfill/orchestrator/orchestrator.go:52-108 | Until Run returns, some goroutine can take a step without help from outside. |
| BackfillRun.EveryStepUsesUpWork | backfill/orchestrator/orchestrator.go:52-108 | Every step lowers a bound on the steps left, so Run returns in every interleaving if each processor call does. |
| RaydiumAccounts.ClassifyByShape | ingestor/internal/pools/raydium.go:8-58 | Exactly which accounts are ignored, and which are taken for fee configurations, by length and discriminator. |
| RaydiumAccounts.ClassifyReads | ingestor/internal/pools/raydium.go:43-58 | Byte by byte what is read: the configuration address at bytes 9 to 40, or the little-endian rate at bytes 47 to 50 in hundredths, cut to 16 bits. |
| PoolIndex.RaydiumIndex.constructor | ingestor/decoder/decoder.go:187-241 | The index starts with three empty maps. |
| PoolIndex.RaydiumIndex.SetPool | ingestor/decoder/decoder.go:190-194 | Records the pool's configuration, and its fee if known. |
| PoolIndex.RaydiumIndex.SetFee | ingestor/decoder/decoder.go:201-207 | Whatever order the pools are visited in, exactly the pools of this configuration get the fee. |
| PoolIndex.RaydiumIndex.HandleRaydiumAccount | ingestor/decoder/decoder.go:187-241 | The chain of branches applies the one update that the account's classification names. |
| PoolIndex.FeesAreCurrent | ingestor/decoder/decoder.go:187-241 | After any sequence of updates every pool whose configuration is known has that configuration's fee, and other pools have one only while their configuration is unknown. |
| PoolIndex.LatestUpdatesWin | ingestor/decoder/decoder.go:187-241 | After any sequence of updates the configuration of a pool and the fee of a configuration are what was said last of them. |
| PoolIndex.FeesAreTheLastKnown | ingestor/decoder/decoder.go:187-241 | After any sequence of updates the fee on record for a pool is its configuration's fee, now or when last known, and there is none if it never was. |
| PoolIndex.UpdateKeepsJoin | ingestor/decoder/decoder.go:189-207 | An update takes the index out of step with the join if and only if it moves a pool that has a fee to a configuration without one. |
| PoolIndex.JoinUnlessAFeeIsLost | ingestor/decoder/decoder.go:187-241 | The incremental index is the join at every moment if and only if no update does that. |
| PoolIndex.IndexIsJoin | ingestor/decoder/decoder.go:187-241 | While no pool changes its configuration the incremental index is the join, however often fees change. |
| PoolIndex.RepointedPoolKeepsAStaleFee | ingestor/decoder/decoder.go:189-195 | Three updates after which a pool has a fee that the join does not give it. |
| PoolIndex.MapsAreTheUpdates | ingestor/decoder/decoder.go:187-241 | With each account seen once, the two primary maps say exactly what the updates said. |
| PoolIndex.OrderDoesNotMatter | ingestor/decoder/decoder.go:187-241 | With each account seen once, all three maps are independent of the order of the updates. |
| CanonicalPairs.PairIsOrdered | decoder/common/pair.go:46-117 | For any tables the pair holds both mints with the greater, by priority then address, as quote, whatever order they came in; it is inverted exactly when they were exchanged. |
| CanonicalPairs.SymbolsComeFromTheTable | decoder/common/pair.go:100-109 | Known mints go by their registered symbol, others by their first eight characters. |
| CanonicalPairs.HigherPriorityIsQuote | decoder/common/pair.go:43-97 | Of two known tokens the one listed with the higher priority is the quote, whichever comes first. |
| CanonicalPairs.UnlistedTokensRankAsDefault | decoder/common/pair.go:61-117 | An unlisted token ranks as the default, or zero without one, and ties go by address. |
| CanonicalPairs.EmptyMintsHaveNoPair | decoder/common/pair.go:47-49 | An empty mint is an error in either place. |
| StringOrder.LexLessIsLexicographic | decoder/common/pair.go:61-63 | The order used for addresses is lexicographic: first difference, or a proper prefix. |
| RaydiumSwaps.SwapEvent.constructor | decoder/raydium/parser.go:47-60 | The event takes its fields from the context, with both amounts still zero. |
| RaydiumSwaps.SwapEvent.NormalizeToCanonicalPair | decoder/raydium/parser.go:92-109 | The event becomes its twin exactly when the pair is inverted, and is untouched when a mint is empty. |
| RaydiumSwaps.ParseSwapEvent | decoder/raydium/parser.go:39-87 | Whatever the instruction's flag, the event is the one the wrapped vault deltas determine, or an error; the zero-amount errors never arise. |
| RaydiumSwaps.NormalizePreservesFlows | decoder/raydium/parser.go:89-109 | Normalising keeps each side's mint, decimals and signed flow, and puts the canonical base mint first. |
| RaydiumSwaps.NormalizeIsIdempotent | decoder/raydium/parser.go:89-109 | Normalising twice is normalising once. |
| RaydiumSwaps.TwinsNormalizeAlike | decoder/raydium/parser.go:89-109 | An event and its A/B-swapped twin normalise to the same event if and only if they name two different mints, for any tables. |
| RaydiumSwaps.MessageAccountsForVaults | ingestor/decoder/decoder.go:415-442 | In the converted message in minus out of a token is its vault's change of balance if and only if that change fits in a signed word; one leg goes in, the other out. |
| RaydiumSwaps.MessageNamesItsTokens | ingestor/decoder/decoder.go:415-431 | The message of a parsed swap names the vaults' mints and decimals in their own order, with the transaction's data, the given fee, and the provisional mark. |
| RaydiumSwaps.MessageKeepsEachMintsFlow | ingestor/decoder/decoder.go:415-442 | Normalised or not, the message states each mint's true flow through the vaults, and each mint with its own decimals, when both changes fit in a signed word. |
| RaydiumSwaps.ParsesExactlySwaps | decoder/raydium/parser.go:62-76 | The exact balances for which an event is parsed if and only if one vault gained and the other lost. |
| RaydiumSwaps.GiftIsTakenForASwap | decoder/raydium/parser.go:62-69 | Balances with which both vaults gain and the event nevertheless says that token B went out. |
| RaydiumSwaps.HugeSwapIsRefused | decoder/raydium/parser.go:62-76 | Balances of a swap that is refused. |
| RaydiumSwaps.RecordsExactlyFittingSwaps | decoder/raydium/parser.go:62-86 | A message with both true changes of balance results if and only if one vault gained, the other lost, and both changes fit. |
| RaydiumSwaps.VolumeIsTheQuoteLeg | decoder/raydium/parser.go:130-140 | The volume is the size of token B's flow, and the message's legs are the event's. |
| SubjectMapping.Compile | bridge/mapping.go:64-78 | The compiled list holds the same rules, in an order the comparison accepts. |
| SubjectMapping.MapSubject | bridge/mapping.go:80-90 | The first match in any such order is a longest matching source: dropped, rewritten, or unchanged when none matches. |
| SubjectMapping.FirstMatchIsLongest | bridge/mapping.go:73-90 | In a sorted list no later rule matches with a longer source than the first match. |
| SubjectMapping.FirstMatchIsPrescribed | bridge/mapping.go:80-90 | The result over a sorted list is that of a longest match, for every subject. |
| SubjectMapping.PrescriptionIsUnique | bridge/mapping.go:59-91 | If rules with one source agree, the longest matches of a subject all give one result. |
| SubjectMapping.OrderOfRulesDoesNotMatter | bridge/mapping.go:59-91 | The mapper is independent of the order of the rules, and of what the sort leaves, if and only if rules with one source agree. |
| SubjectMapping.LongestSourceDecides | bridge/mapping.go:80-88 | Where no longer source fits, source + rest becomes target + rest, or is dropped. |
| SubjectMapping.UnmatchedPasses | bridge/mapping.go:89 | A subject that no source begins passes unchanged. |
| SubjectMapping.PrefixLeavesARest | bridge/mapping.go:82 | A source fits exactly when the subject is that source followed by something. |

## Left out

- FpDivide: the least word as dividend, whose negation at line 53 is undefined in C++.
- Divide128By64: the least 128-bit dividend, whose negation overflows the signed high word; `fp_divide` never builds it.
- LongDivide: the exact quotient of its broken loop, which is always discarded as an overflow; nor the scan for the divisor's highest bit at lines 158-162, whose result is never used.
- Signed overflow of candle volumes is undefined in C++; it is modelled as the two's complement wrap that the hardware gives.
- The finalizer's clock is any watermark at any time, for any window that has seen a nonzero timestamp: the one-second sleep, the loop order over shards and the shard lock around it are not modelled, so results hold for more schedules than the program has.
- Locks, condition variables and atomics appear only as the granularity of steps; sequential consistency is assumed. Stopping and starting again is not modelled.
- The FNV-1a hash is an arbitrary function. The publishers behind the candle worker are an append-only list.
- Ordered and hash maps are Dafny maps; iteration in key order is by least key, Go's iteration by arbitrary choice.
- A publish attempt either is accepted and visible or fails and is not: an error reported for a message that did arrive is not modelled, nor is deduplication by message id.
- Cloning protobuf messages is copying values, so aliasing between pending and published events is absent; nil updates and events, the zero-effect cases, are absent too.
- The decoder's output for a transaction is an arbitrary list of provisional swaps or an error; `DecodeTransaction` and its Orca and Meteora branches, vault extraction and pool resolution are not modelled.
- NewProcessor, HandleAccount and the slot-time cache beyond what the table names; metrics.
- BackfillRun: a processor is one step that succeeds or fails; its partial effects and its reading of the context are not modelled. Which of several errors Run reports is not modelled.
- SubjectMapping.Compile: the library sort is not modelled; insertion is one order its comparison accepts, and the results hold for every such order.
- Loading and cleaning subject mappings from YAML; `BackfillSchedule` starts from a configuration that passed Validate.
- Account addresses are bytes: base58 is injective and left out. Strings are sequences of characters, not UTF-8 bytes.
- ParseSwapEvent's checks for nil arguments, and the text of all errors.
- RegisterToken and SetQuotePriority: token and priority tables are arbitrary parameters, fixed during one call.
- Prices as floating point, string conversions of fixed-point numbers, and the additive operators of `FixedPoint`.
- NATS, gRPC, Redis, ClickHouse, S3 and HTTP plumbing, failover, replay tools and configuration loading.
