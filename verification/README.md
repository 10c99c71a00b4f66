# Order books and their wire formats, verified

A Dafny 4.11 model of the market data path of a crypto trading system: the order book builder
that follows an exchange's sequence numbers, the fixed-capacity books of the HFT processor with
their ring buffers and batched consumer, the sequence lock of the market cache, the map-backed
book and the circular buffer beside them, the sliding-window histories, the depth-limited sums,
and the two binary packet formats with sender, receiver and aggregator.

`dafny verify dfyconfig.toml` checks everything.

How the files fit together:

| files | what they hold |
|---|---|
| `Levels`, `MarketTypes` | levels, sorted listings, price maps; one definition for bids and asks |
| `FastOrderBook`, `DepthExactness` | the 20-slot arrays shifted in place, and how far they drift from an unbounded book |
| `MergedBook`, `OptimizedOrderBook`, `ThreeBooks` | retain/push/sort, the negated-key map, and the agreement of all three books |
| `BookBuilder`, `LiveMeansTrue` | the synchronisation state machine, and the exchange and channel it runs against |
| `BuilderRuns`, `BuilderTurns` | what runs can lead to, and what single turns do |
| `RingBuffer`, `RingSteps`, `RingRefinement` | the ring as an object, its loads and stores interleaved, and the queue they refine |
| `Pipeline`, `PipelineSteps`, `PipelineProgress` | one batch as the code runs it, the polling loop among producers and readers, and that it reaches everything |
| `Seqlock` | the sequenced writer and any number of readers, one field per step |
| `CircularBuffer`, `History`, `DepthSums` | overwrite-oldest buffer, pruned histories, volume, imbalance and weighted price |
| `Bytes`, `Rescaling`, `BinaryPacket`, `PacketLayout`, `Aggregator`, `EndToEnd` | the 58-byte-header format from flags to delivered books |
| `Utf8`, `HftpPacket`, `HftpLayout` | the variable-length format |
| `Arithmetic`, `Wrapping`, `Wrappers` | remainders, ring indices, optional results |

Conventions. Prices are integer ticks and quantities integers, so equal price means equal key; the
depth sums are over exact reals. Objects the code mutates are classes whose methods are proved
against functions of the old state; what the system promises is proved about those functions, over
all runs. Concurrency is modelled as step machines: a run is any sequence of enabled steps. What a
machine keeps a record of (values pushed, updates taken, books published) is tied to the steps of the
run alone.

Results where the code does less than one might read into it, each with its exact condition and an
input that shows it:

- An accepted increment may declare a range that overlaps what was applied already. The book stays
  right, because writes are absolute; the declared ranges are disjoint exactly if no such increment
  got through (`LiveMeansTrue.DeclaredRangesPartitionIff`). For every such overlap some run accepts
  it, for one the range 3 to 6 after 5 (`BuilderRuns.OverlapIsReached`, `BuilderRuns.OverlapIsAccepted`).
- A snapshot fetch can be left exactly if the oldest buffered update is a snapshot
  (`BuilderRuns.FetchIsLeftIff`); otherwise the builder is stuck, and some run gets there
  (`BuilderRuns.SomeRunGetsStuck`). Seen from the updates received, the first of them decides, or
  the oldest one a full buffer has left (`BuilderRuns.FirstUpdateDecides`).
- An update with an invalid symbol id takes a batch slot without being counted, so a valid update
  behind it is lost (`Pipeline.BatchLosesNothingIff`, `Pipeline.InvalidIdHidesTheNext`).
- After an overwrite, taking single items out of the circular buffer departs from the last items
  of an unbounded queue (`CircularBuffers.InStepIff`, `CircularBuffers.PopAfterOverwriteDiffers`).
- A price whose last quantity is negative is dropped by the builder and kept by the two other books
  (`ThreeBooks.BuilderListsTheBookIff`, `ThreeBooks.NegativeQuantityParts`).
- An item can be lost to a query although it is recent, if it and every item ahead of it are
  outdated by some later item (`History.QueryIsExactIff`, `History.BookAtIsExactIff`,
  `History.OutOfOrderItemIsLost`).
- A packet numbered 0 resets the loss detection without a report
  (`HftpPackets.SilentIffConsecutive`, `HftpPackets.ZeroResetsSilently`).
- The item count of a packet has three bits; the unit test at
  `crates/feeder/src/core/binary_udp_packet.rs:417-425` expects a count of 15 to survive and is
  out of date (`BinaryPackets.CountSurvivesIff`, `BinaryPackets.FifteenBecomesSeven`).

## Model

| member | source | states |
|---|---|---|
| LiveMeansTrue.LiveBookIsTheExchangeBook | crates/matching-engine/src/orderbook_builder.rs:215-320 | in every world reachable over a channel that drops, repeats and reorders, a live builder's sides are the sorted listings of the exchange's book after exactly last_seq events |
| LiveMeansTrue.PublishedBooksAreTrue | crates/matching-engine/src/orderbook_builder.rs:315-320 | every book ever published, and the current one in any state, is the exchange's book at its own last_update_id |
| LiveMeansTrue.AcceptedIntervalsPartition | crates/matching-engine/src/orderbook_builder.rs:278-315 | while live, each event number after the adopted snapshot up to last_seq is advanced over by exactly one accepted increment, and the range that increment declares covers it: no hole |
| LiveMeansTrue.DeclaredRangesPartitionIff | crates/matching-engine/src/orderbook_builder.rs:286-305 | the ranges as declared are disjoint from each other and from the snapshot exactly if no increment was accepted on update_id == last_seq + 1 with a first_update_id already covered |
| LiveMeansTrue.AcceptedRangeOverlapsOnlyAtItsEnd | crates/matching-engine/src/orderbook_builder.rs:286-305 | one accepted increment: its declared range starts elsewhere than at last_seq + 1 exactly in that case |
| BuilderRuns.OverlapIsReached | crates/matching-engine/src/orderbook_builder.rs:286-305 | for every last_seq from 1 on and every first number up to it, some possible run is live at last_seq and accepts the range from first to last_seq + 1 |
| BuilderRuns.OverlapIsAccepted | crates/matching-engine/src/orderbook_builder.rs:286-305 | in particular a run that is live at 5 and accepts the range 3 to 6 |
| LiveMeansTrue.GapTest | crates/matching-engine/src/orderbook_builder.rs:286-305 | on increments with a well-formed range the test passes exactly if the update ends or its range starts at last_seq + 1, and then the range reaches back to it |
| LiveMeansTrue.CatchUp | crates/matching-engine/src/orderbook_builder.rs:504-520 | setting the last writes of events k+1 to m on the book after any event n in between gives the book after m |
| LiveMeansTrue.IncrementKeepsTruth | crates/matching-engine/src/orderbook_builder.rs:491-529 | applying an honest update whose range reaches back to the book's number takes a true book to a true book |
| LiveMeansTrue.EveryReachableWorld | crates/matching-engine/src/orderbook_builder.rs:156-386 | the invariant of builder, channel and exchange holds after every run of events, sends and turns |
| BuilderRuns.AnythingSentMayArrive | crates/matching-engine/src/orderbook_builder.rs:196-213 | the channel in these runs is arbitrary: after every run, whatever was sent may arrive at the next turn, late or again, or nothing, or the channel may close |
| BuilderRuns.ExchangeIsFree | crates/matching-engine/src/orderbook_builder.rs:278-280 | and so is the exchange: any event may follow, and any honest report on the events so far may be sent |
| LiveMeansTrue.BufferingConserves | crates/matching-engine/src/orderbook_builder.rs:389-435 | the buffer never exceeds its maximum and is a suffix of what was received since buffering began; resyncs_triggered is gaps_detected plus snapshot fetches; Initializing and Error are never reached |
| LiveMeansTrue.CountersConserve | crates/matching-engine/src/orderbook_builder.rs:307-327 | over every run the book is the fold of everything adopted and applied, in order; total_updates counts the updates applied live, the book's own counter those and the adopted snapshots, gaps_detected the resyncs entered; a live session publishes exactly one book per 100 updates |
| BuilderRuns.CanGetLiveIff | crates/matching-engine/src/orderbook_builder.rs:176-366 | from every state of every run whose loop still runs, gaps and timeouts included, some continuation is live: exactly unless the builder is in a fetch with no snapshot at the front |
| BuilderRuns.ResyncLeadsBack | crates/matching-engine/src/orderbook_builder.rs:340-366 | a resync ends after one turn, whatever it brings, with an empty buffer |
| BuilderRuns.TimeoutLeadsBack | crates/matching-engine/src/orderbook_builder.rs:189-194 | a buffer that waited too long is given up for a resync and an empty buffer |
| BuilderRuns.FetchIsLeftIff | crates/matching-engine/src/orderbook_builder.rs:215-241 | in every run, a fetch has a non-empty buffer, and some continuation leaves it exactly if the oldest buffered update is a snapshot |
| BuilderRuns.SomeRunGetsStuck | crates/matching-engine/src/orderbook_builder.rs:229-241 | a run whose every continuation stays in the fetch |
| BuilderRuns.FetchWithoutSnapshotIsFinal | crates/matching-engine/src/orderbook_builder.rs:229-241 | any turns on a fetch with a first buffered update that is no snapshot leave the builder as it is |
| BuilderRuns.LiveInTwoTurnsIff | crates/matching-engine/src/orderbook_builder.rs:189-241 | from any buffer, two turns lead to the live state exactly if a snapshot arrives into an empty buffer (or one emptied by dropping), or nothing arrives and the oldest buffered update is a snapshot |
| BuilderRuns.FirstUpdateDecides | crates/matching-engine/src/orderbook_builder.rs:389-419 | updates in a row, then a quiet wait, then anything: the builder gets live exactly if the first update was a snapshot or the oldest one the buffer has left is |
| BuilderTurns.LiveGoesOnIff | crates/matching-engine/src/orderbook_builder.rs:278-315 | a live builder that receives an honest update goes on to its id exactly if it is a snapshot, ends at the next number or starts there; otherwise it resyncs with the number expected and the number got |
| BuilderTurns.EveryResyncIsExplained | crates/matching-engine/src/orderbook_builder.rs:286-305 | in every run, a resync is due to a timeout or to an update that was sent and misses the number after the book's |
| BuilderTurns.PublishedIsCurrent | crates/matching-engine/src/orderbook_builder.rs:315-320 | a book is published exactly with every hundredth update of a live session, and is the current book at exactly the live number |
| BuilderTurns.LoopEndsIff | crates/matching-engine/src/orderbook_builder.rs:196-213 | the loop ends exactly when it finds the channel closed, live or buffering in time |
| BuilderTurns.EndedStaysEnded | crates/matching-engine/src/orderbook_builder.rs:333-337 | nothing changes after that |
| BuilderTurns.NothingReceivedNothingDone | crates/matching-engine/src/orderbook_builder.rs:204-213 | a closed or quiet channel changes nothing, unless a non-empty buffer has waited |
| BuilderTurns.FullBufferLosesAHundred | crates/matching-engine/src/orderbook_builder.rs:389-399 | the buffer holds 10000 updates and loses its oldest 100 to the next one |
| BuilderTurns.StartsOver | crates/matching-engine/src/orderbook_builder.rs:219-227 | past the fifth attempt a fetch or a resync fails, and two turns later the builder buffers from nothing, book untouched |
| BuilderTurns.NoRetryEnds | crates/matching-engine/src/orderbook_builder.rs:368-378 | an error that allows no retry ends the loop |
| BuilderTurns.InitializingKeepsTruth | crates/matching-engine/src/orderbook_builder.rs:243-276 | initializing on a true book with a chain of newer honest updates leads to a live builder with a true book, published once, having applied exactly the newer ones |
| BuilderTurns.NewerIff | crates/matching-engine/src/orderbook_builder.rs:251-258 | the pending updates applied are, each as often as it is pending, those with ids beyond the snapshot |
| BookBuilder.OrderBookBuilder.Run | crates/matching-engine/src/orderbook_builder.rs:156-386 | the loop refines the transition function for any sequence of channel and clock inputs |
| BookBuilder.OrderBookBuilder.TakeTurn | crates/matching-engine/src/orderbook_builder.rs:176-379 | one turn changes state, book, statistics and published books as the transition function says, in all seven states; what that function is good for are the results of the builder's other modules |
| BookBuilder.OrderBookBuilder.HandleBufferingUpdate | crates/matching-engine/src/orderbook_builder.rs:389-419 | a full buffer loses its oldest 100 before the push; a lone snapshot starts the fetch |
| BookBuilder.OrderBookBuilder.FetchSnapshot | crates/matching-engine/src/orderbook_builder.rs:422-435 | attempt 1 with the buffer handed over, one more resync counted, book untouched |
| BookBuilder.OrderBookBuilder.TriggerResync | crates/matching-engine/src/orderbook_builder.rs:532-547 | attempt 1 with the reason, one more gap and one more resync counted, book untouched |
| BookBuilder.OrderBookBuilder.ApplyNewer | crates/matching-engine/src/orderbook_builder.rs:243-262 | applies exactly the pending updates with ids beyond the snapshot, in order, and counts them |
| BookBuilder.OrderBookBuilder.ApplyUpdate | crates/matching-engine/src/orderbook_builder.rs:491-529 | the in-place retain, push and sort of both sides computes the merged book |
| MergedBook.MergeIsSetIff | crates/matching-engine/src/orderbook_builder.rs:504-520 | for any side and any levels, duplicates included, retain-and-push sets the price map level by level exactly if no price's last quantity is negative |
| MergedBook.BookCarriesTheLast | crates/matching-engine/src/orderbook_builder.rs:491-499 | a book carries the last update's id and timestamp and counts the updates |
| MergedBook.SnapshotReplaces | crates/matching-engine/src/orderbook_builder.rs:500-503 | a snapshot leaves nothing of the book before it |
| MergedBook.SortMeaning | crates/matching-engine/src/orderbook_builder.rs:522-525 | the sort puts the best price first and keeps the same levels |
| MergedBook.IncrementMeaning | crates/matching-engine/src/orderbook_builder.rs:500-526 | an increment on a sorted side leaves it sorted with every listed price set |
| FastOrderBooks.FastOrderBook.UpdateBid | crates/matching-engine/src/hft_orderbook.rs:153-187 | the live prefix becomes the first 20 of sorted insert-or-replace |
| FastOrderBooks.FastOrderBook.UpdateAsk | crates/matching-engine/src/hft_orderbook.rs:190-224 | the same on the ask side |
| FastOrderBooks.FastOrderBook.RemoveBid | crates/matching-engine/src/hft_orderbook.rs:227-238 | the live prefix loses exactly that price |
| FastOrderBooks.FastOrderBook.RemoveAsk | crates/matching-engine/src/hft_orderbook.rs:241-252 | the same on the ask side |
| FastOrderBooks.FastOrderBook.Apply | crates/matching-engine/src/hft_orderbook.rs:114-150 | an id that does not advance changes nothing; otherwise all bids then all asks are applied, the id stored and the counter advanced |
| FastOrderBooks.FastOrderBook.constructor | crates/matching-engine/src/hft_orderbook.rs:95-111 | a new book is empty with last id 0 |
| FastOrderBooks.ShiftDown | crates/matching-engine/src/hft_orderbook.rs:167-186 | the backward shift loop moves the slots from the insertion point one place and no other |
| FastOrderBooks.ShiftUp | crates/matching-engine/src/hft_orderbook.rs:227-238 | the forward shift loop closes the gap and touches no other slot |
| FastOrderBooks.RunKeepsSidesGood | crates/matching-engine/src/hft_orderbook.rs:114-252 | over every run each side stays strictly sorted, duplicate-free, without zero quantities and within 20 levels |
| FastOrderBooks.LastIdIsLargest | crates/matching-engine/src/hft_orderbook.rs:114-122 | last_update_id is the largest id delivered, in whatever order |
| FastOrderBooks.StaleUpdatesAreInvisible | crates/matching-engine/src/hft_orderbook.rs:114-150 | book, id and counter equal those from only the updates whose id exceeds 0 and all earlier ids; the counter counts those |
| Levels.UpsertMeaning | crates/matching-engine/src/hft_orderbook.rs:153-187 | insert-or-replace sets exactly one price of the price map |
| Levels.DeleteMeaning | crates/matching-engine/src/hft_orderbook.rs:227-238 | on a sorted side removal takes exactly one price out of the price map |
| Levels.ListingUnique | crates/matching-engine/src/hft_orderbook.rs:153-165 | a price map has only one best-first listing |
| Levels.ApplyLevelsMeaning | crates/matching-engine/src/hft_orderbook.rs:123-147 | a run of levels on an unbounded sorted side keeps it sorted and sets the price map level by level |
| DepthExactness.SideDepthExact | crates/matching-engine/src/hft_orderbook.rs:153-252 | after any run, the first 20 minus (deletes that found their price) levels are the unbounded book's, and every level held carries the unbounded book's quantity |
| DepthExactness.BookDepthExact | crates/matching-engine/src/hft_orderbook.rs:114-252 | the same for whole runs of delivered updates, stale ones included: with k accepted deletes on a side, its first max(0, 20 - k) levels are exact |
| DepthExactness.NoDeletesMeansTopLevels | crates/matching-engine/src/hft_orderbook.rs:153-187 | without deletes a side is exactly the unbounded top 20 |
| DepthExactness.NeverFullMeansExact | crates/matching-engine/src/hft_orderbook.rs:153-252 | if the unbounded side never outgrows 20 levels nothing is lost, whatever is deleted |
| DepthExactness.DepthBoundIsTight | crates/matching-engine/src/hft_orderbook.rs:167-182 | for every k up to 20 some run with k deletes is wrong at level 21 - k, so the bound cannot be improved |
| DepthExactness.HitsAtMostDeletes | crates/matching-engine/src/hft_orderbook.rs:227-252 | deletes that find their price are at most the deletes sent |
| DepthExactness.BookFromAccepted | crates/matching-engine/src/hft_orderbook.rs:114-150 | a side is the fold of the accepted updates' levels laid end to end |
| OptimizedOrderBooks.OptimizedOrderBook.UpdateBid | crates/matching-engine/src/windows_opt.rs:58-66 | sets or removes the negated price in the bid map |
| OptimizedOrderBooks.OptimizedOrderBook.UpdateAsk | crates/matching-engine/src/windows_opt.rs:69-77 | sets or removes the price in the ask map |
| OptimizedOrderBooks.OptimizedOrderBook.BatchUpdate | crates/matching-engine/src/windows_opt.rs:141-157 | all bid updates in order on negated prices, then all ask updates in order, one more batch counted |
| OptimizedOrderBooks.Ascending | crates/matching-engine/src/windows_opt.rs:96-117 | iterating the map yields its entries once each, by ascending key |
| OptimizedOrderBooks.ApplyLevelsMirrors | crates/matching-engine/src/windows_opt.rs:58-77 | the ask side run on negated prices is the mirror image of the bid side |
| OptimizedOrderBooks.IterationListsTheBook | crates/matching-engine/src/windows_opt.rs:96-117 | iterating a fresh book's maps after any levels lists the unbounded book, best first on both sides |
| ThreeBooks.ThreeImplementationsAgree | crates/matching-engine/src/hft_orderbook.rs:406-441 | on any stream without snapshots, with increasing ids, at most 10 levels per update and a side within 20 levels, the array book and the map book after one batch per update hold the same levels in the same best-first order, and the builder's book does exactly if no price's last quantity is negative |
| ThreeBooks.ObjectServesTheBook | crates/matching-engine/src/windows_opt.rs:96-117 | the top n bids and asks asked of such a map book are the first n levels of the unbounded book |
| ThreeBooks.ConversionKeeps | crates/matching-engine/src/hft_orderbook.rs:406-441 | a conversion keeps ids and flag and exactly the first ten levels of either side |
| ThreeBooks.BatchesSetTheStream | crates/matching-engine/src/windows_opt.rs:141-157 | one batch per update of any stream sets all its levels in order, bids on negated keys, and counts the updates |
| ThreeBooks.MapListsTheBook | crates/matching-engine/src/windows_opt.rs:96-117 | after any stream at all the map book serves the first n levels of the unbounded book, for every n and either side |
| ThreeBooks.BuilderListsTheBookIff | crates/matching-engine/src/orderbook_builder.rs:500-526 | after any stream without snapshots the builder's side is the unbounded book exactly if no price's last quantity is negative |
| ThreeBooks.FastListsTheBook | crates/matching-engine/src/hft_orderbook.rs:114-252 | the array book is the unbounded book if the side never outgrows it |
| ThreeBooks.NegativeQuantitySeparates | crates/matching-engine/src/orderbook_builder.rs:504-525 | one increment on any sorted side: the builder's listing is the unbounded book's exactly if no price's last quantity is negative |
| ThreeBooks.NegativeQuantityParts | crates/matching-engine/src/orderbook_builder.rs:507-511 | a single level of quantity -1 is dropped by the builder and held by the two other books |
| RingBuffers.RingBuffer.Push | crates/matching-engine/src/hft_orderbook.rs:299-315 | appends to the queue exactly if fewer than size - 1 values are in it, else changes nothing |
| RingBuffers.RingBuffer.Pop | crates/matching-engine/src/hft_orderbook.rs:318-333 | takes the oldest value, or reports empty exactly if there is none |
| RingSteps.RingIsSafe | crates/matching-engine/src/hft_orderbook.rs:299-333 | in every interleaving of single loads and stores, even with outdated views of the other index: what is pushed are the values handed to push, in order; pops are a prefix of them, one for each store of the head; at most size - 1 values are in the ring; the slot about to be written is never the slot about to be read; no access leaves the buffer; a value about to be returned is the oldest not yet popped |
| RingSteps.PushedIsWhatWasHanded | crates/matching-engine/src/hft_orderbook.rs:299-313 | told from the steps alone: the values pushed are the arguments of push collected at each store of the tail, and a busy producer holds its own argument |
| RingSteps.PushGoesThrough | crates/matching-engine/src/hft_orderbook.rs:299-315 | while the ring has room, a push that sees the newest head completes and adds exactly its value |
| RingSteps.PopGoesThrough | crates/matching-engine/src/hft_orderbook.rs:318-333 | while the ring holds a value, a pop that sees the newest tail completes and takes the oldest |
| RingSteps.NeitherSideWaits | crates/matching-engine/src/hft_orderbook.rs:299-333 | after every run producer and consumer can each take a step, whatever the other does, and at its check each may see any index the other has stored since it last looked |
| RingSteps.RefusalsAreJustified | crates/matching-engine/src/hft_orderbook.rs:303-325 | a push is refused exactly if its view shows a full ring, a pop exactly if its view shows an empty one |
| RingSteps.EveryRunKeepsInvariant | crates/matching-engine/src/hft_orderbook.rs:299-333 | the ring invariant holds after every run of steps |
| RingSteps.RoomCheckMeaning | crates/matching-engine/src/hft_orderbook.rs:303-306 | comparing wrapped indices decides whether the pushes ahead of the view fill the ring |
| RingSteps.ItemCheckMeaning | crates/matching-engine/src/hft_orderbook.rs:321-324 | comparing wrapped indices decides whether the view shows anything not yet popped |
| RingRefinement.RingRefinesQueue | crates/matching-engine/src/hft_orderbook.rs:299-333 | every interleaving has the effect of a run of a queue bounded by size - 1, pushing the argument of push when the tail is stored and popping its front when the head is stored; the queue holds what was pushed and not yet popped |
| RingRefinement.StepRefines | crates/matching-engine/src/hft_orderbook.rs:308-331 | no other step has an effect on the queue |
| Pipeline.CollectBatch | crates/matching-engine/src/hft_orderbook.rs:475-500 | pops up to 16 or until empty, counts the valid ids, and leaves each popped update in its slot, or nothing for an invalid id |
| Pipeline.ApplyBatch | crates/matching-engine/src/hft_orderbook.rs:505-530 | the visited slots amount to the valid updates among the first count popped |
| Pipeline.ProcessRingBatched | crates/matching-engine/src/hft_orderbook.rs:470-534 | one visit: what was popped is a prefix of the ring, full batch or emptied ring, and the books are the fold of what the batch applies |
| Pipeline.BatchLosesNothingIff | crates/matching-engine/src/hft_orderbook.rs:480-530 | a batch applies every valid update it popped exactly if no invalid id precedes a valid one |
| Pipeline.BatchAppliesTheCounted | crates/matching-engine/src/hft_orderbook.rs:480-530 | what a batch applies, then the valid updates popped behind the counted slots, are all the valid updates popped |
| Pipeline.ValidsOfOne | crates/matching-engine/src/hft_orderbook.rs:478 | an update is valid exactly if its symbol id is below 2048 |
| Pipeline.InvalidIdHidesTheNext | crates/matching-engine/src/hft_orderbook.rs:476-485 | an invalid id popped ahead of a valid update: the valid one is popped and not applied |
| PipelineSteps.TraceInterleavesPushes | crates/matching-engine/src/hft_orderbook.rs:565-593 | in every interleaving of producers, the polling loop and readers, the updates applied from each ring are a prefix of its pushes in order; what is popped but not applied is exactly what the current batch still holds |
| PipelineProgress.EverythingGetsApplied | crates/matching-engine/src/hft_orderbook.rs:565-593 | from every reachable state, pops and applies alone lead to a state where all that was pushed into any of the seven rings is applied, in order, once |
| PipelineProgress.VisitsRotate | crates/matching-engine/src/hft_orderbook.rs:569-575 | after a visit to ring r comes ring r + 1, after the last the first, and the ring never changes in between |
| PipelineProgress.PushedIsWhatWasPushed | crates/matching-engine/src/hft_orderbook.rs:299-315 | the pushes of each ring are the arguments of its push steps, in order |
| PipelineProgress.PushIsAlwaysPossible | crates/matching-engine/src/hft_orderbook.rs:299-315 | after every run any update with a registered symbol can be pushed into any ring |
| PipelineProgress.ReadIsCurrent | crates/matching-engine/src/hft_orderbook.rs:598-612 | a reader gets the fold of every update applied so far for the symbol it asked for, while the lock is free |
| PipelineProgress.ReadingsAnswerReads | crates/matching-engine/src/hft_orderbook.rs:598-612 | every reader gets one answer, for its own symbol |
| PipelineProgress.CutsAreFreePoints | crates/matching-engine/src/hft_orderbook.rs:502-532 | the lengths at which readers may cut the trace are lengths it had while the lock was free |
| PipelineSteps.ReadersSeeBatchBoundaries | crates/matching-engine/src/hft_orderbook.rs:598-612 | every book a reader got is the fold of that symbol's updates over the trace cut where the write lock was free |
| PipelineSteps.ReadersSeeTheTopOfTheBook | crates/matching-engine/src/hft_orderbook.rs:598-612 | and is sorted, and exact in its first max(0, 20 - deletes) levels |
| PipelineSteps.EveryRunKeepsInvariant | crates/matching-engine/src/hft_orderbook.rs:470-593 | the invariant of rings, batch, books, trace and readings holds after every run of steps |
| Seqlock.AcceptedReadsAreConsistent | crates/feeder/src/core/market_cache.rs:77-135 | in every interleaving at single-field steps an accepted read holds all six fields of one completed update or of the initial state, the newest one throughout the read, and one reader's accepted reads never go back |
| Seqlock.ReadIsAcceptedIff | crates/feeder/src/core/market_cache.rs:104-135 | told from the steps alone: a read is accepted, and adds a result, exactly if no update was being stored when it began and none began while it lasted |
| Seqlock.ReadGoesThrough | crates/feeder/src/core/market_cache.rs:104-135 | a read that meets no update completes and returns the newest quote |
| Seqlock.UpdateGoesThrough | crates/feeder/src/core/market_cache.rs:77-100 | an idle writer can always complete an update |
| Seqlock.NobodyWaits | crates/feeder/src/core/market_cache.rs:77-135 | after every run the writer and each of the readers can take a step, whatever the others do |
| Seqlock.HistoryIsWhatWasWritten | crates/feeder/src/core/market_cache.rs:77-100 | the completed updates are exactly the quotes handed to the writer, in order, but for the one in flight |
| Seqlock.EveryRunKeepsInvariant | crates/feeder/src/core/market_cache.rs:77-135 | the sequence number is twice the completed updates while stable and odd while storing, after every run of steps |
| CircularBuffers.CircularBuffer.constructor | crates/matching-engine/src/windows_opt.rs:171-179 | a new buffer is empty |
| CircularBuffers.CircularBuffer.Push | crates/matching-engine/src/windows_opt.rs:182-194 | appends, dropping the oldest item if full; slots outside the window stay empty |
| CircularBuffers.CircularBuffer.Pop | crates/matching-engine/src/windows_opt.rs:197-207 | takes the oldest item and empties its slot, or reports none exactly if empty |
| CircularBuffers.CircularBuffer.Clear | crates/matching-engine/src/windows_opt.rs:220-227 | leaves no item and every slot empty |
| CircularBuffers.CircularBuffer.Drain | crates/matching-engine/src/windows_opt.rs:230-242 | returns the first min(n, len) items in order and keeps the rest |
| CircularBuffers.ContentsAreTheLatestPushes | crates/matching-engine/src/windows_opt.rs:182-242 | over every run of push, pop, drain and clear the contents are the most recent pushes, at most capacity of them |
| CircularBuffers.PushesKeepTheLast | crates/matching-engine/src/windows_opt.rs:182-194 | pushing only, the contents are the last capacity items pushed |
| CircularBuffers.WithoutOverflowNothingIsLost | crates/matching-engine/src/windows_opt.rs:182-242 | if the unbounded queue never outgrows the capacity the buffer is that queue |
| CircularBuffers.StaysInStepIff | crates/matching-engine/src/windows_opt.rs:182-242 | one operation on the last capacity items of a queue gives the last capacity items again exactly if nothing was overwritten, or it pushes, clears, or drains nothing or everything |
| CircularBuffers.InStepIff | crates/matching-engine/src/windows_opt.rs:182-242 | over a run, the buffer is the last capacity items of the unbounded queue at every point exactly if every operation was of that kind where it was taken |
| CircularBuffers.PopAfterOverwriteDiffers | crates/matching-engine/src/windows_opt.rs:182-207 | capacity 2, three pushes and a pop: the buffer holds the third item, the last two of the unbounded queue are the second and third |
| History.LookbackHistory.Add | crates/feature-engineering/src/history.rs:18-33 | appends and prunes from the front until the first item recent enough for the new one |
| History.LookbackHistory.Cleanup | crates/feature-engineering/src/history.rs:68-78 | the pop loop drops the longest front of items too old for the newest one, and nothing else |
| History.SinceLookbackPicks | crates/feature-engineering/src/history.rs:81-87 | on any list a query returns exactly the items at or after the newest time minus the lookback, once each and in order |
| History.ItemAtIsLast | crates/feature-engineering/src/history.rs:36-42 | the item at an offset is the last one, in arrival order, at least that much older than the newest |
| History.ItemAtIsNoneIff | crates/feature-engineering/src/history.rs:36-42 | and there is none exactly if no item is that old |
| History.ObjectAnswers | crates/feature-engineering/src/history.rs:81-87 | the queries of a history object answer, in time order, from everything ever added as far as the lookback goes |
| History.KeptIsTheWindow | crates/feature-engineering/src/history.rs:63-78 | in time order, what is kept is exactly what lies within the lookback of the newest item |
| History.PruningIsInvisible | crates/feature-engineering/src/history.rs:81-87 | in time order, trades_since and events_since within the lookback equal the filter over the full history |
| History.BookAtIsTheFullAnswerInTheWindow | crates/feature-engineering/src/history.rs:36-42 | in time order, get_book_at equals the full history's answer if that lies within the lookback, and is None otherwise |
| History.KeptFromFirstCurrent | crates/feature-engineering/src/history.rs:68-78 | in any order, what is kept is everything from the first item on that no later item makes outdated |
| History.QueryIsExactIff | crates/feature-engineering/src/history.rs:131-137 | in any order, a query equals the full answer exactly if every item that is outdated together with all items ahead of it is older than the query's cutoff |
| History.BookAtIsExactIff | crates/feature-engineering/src/history.rs:36-42 | in any order, get_book_at equals the full history's answer exactly if none qualifies or one that qualifies is not so pruned |
| History.OutOfOrderItemIsLost | crates/feature-engineering/src/history.rs:23-42 | a concrete out-of-order history on which pruning shows in both kinds of query |
| DepthSums.Accumulate | crates/market-types/src/orderbook.rs:101-118 | the loop that breaks sums exactly the levels ahead of the first one beyond the threshold |
| DepthSums.VolumeAtDepth | crates/feature-engineering/src/calculator.rs:184-209 | both reach volumes, zeros without a mid price |
| DepthSums.LiquidityImbalance | crates/feature-engineering/src/calculator.rs:100-129 | the normalised difference of the reach volumes, None without a mid price or volume |
| DepthSums.Wap | crates/market-types/src/orderbook.rs:92-125 | the average of both reaches, None without a mid price or volume |
| DepthSums.BreakingLosesNothing | crates/market-types/src/orderbook.rs:101-118 | on a side that moves away from the mid price, breaking early sums all levels within the threshold |
| DepthSums.ReachIsWithin | crates/feature-engineering/src/calculator.rs:184-209 | a strictly sorted uncrossed book has such sides, for every depth |
| DepthSums.ReachEndsAheadOfTheFirstBeyond | crates/market-types/src/orderbook.rs:101-118 | on any book, what is summed ends ahead of the first bid below mid - threshold and the first ask above mid + threshold |
| DepthSums.ReachIsTheBand | crates/market-types/src/orderbook.rs:101-118 | on a strictly sorted uncrossed book a level is summed exactly if its price lies within the threshold, ends included |
| DepthSums.WapLiesInTheBand | crates/market-types/src/orderbook.rs:92-125 | the weighted price exists exactly if some level is near, lies in [mid - threshold, mid + threshold], and times the volume is the value |
| DepthSums.ImbalanceIsNormalised | crates/feature-engineering/src/calculator.rs:100-129 | the imbalance exists exactly if some level is near; times the total near volume it is the difference of the sides; it lies in [-1, 1], at an end exactly if the other side has nothing near |
| DepthSums.MidAndThreshold | crates/market-types/src/orderbook.rs:77-82 | the best bid and the best ask are equally far from the mid price; 10 basis points of 50000 are 50 |
| DepthSums.SampleNumbers | crates/market-types/src/orderbook.rs:92-125 | a book in numbers: mid price, weighted price and imbalance within 10 percent |
| DepthSums.VolumesGrowWithDepth | crates/feature-engineering/src/calculator.rs:184-209 | a wider depth never shows less volume on either side |
| Rescaling.GainIsExactIff | crates/feeder/src/core/binary_udp_packet.rs:148-171 | gaining digits is exact exactly if the product fits 64 bits |
| Rescaling.TwoDigitsEitherWay | crates/feeder/src/core/binary_udp_packet.rs:148-171 | precision 8 is unchanged, 6 multiplied by 100 if that fits, 10 divided by 100 toward zero |
| Rescaling.WrappedKeepsLowBits | crates/feeder/src/core/binary_udp_packet.rs:148-171 | an overflowing product keeps its 64 low bits |
| Rescaling.PowersOfTen | crates/feeder/src/core/binary_udp_packet.rs:148-171 | the scales in numbers, up to the largest that fits 64 bits |
| Rescaling.GainKeepsOrder | crates/feeder/src/core/enhanced_packet.rs:175-193 | and then keeps strict order both ways |
| Rescaling.LossIsMonotone | crates/feeder/src/core/enhanced_packet.rs:40-55 | losing digits keeps order weakly |
| Rescaling.LossErrsByLessThanOneUnit | crates/feeder/src/core/binary_udp_packet.rs:148-171 | losing digits errs by less than one unit and toward zero, for either sign |
| Rescaling.GainThenLossIsIdentity | crates/feeder/src/core/binary_udp_packet.rs:148-171 | up and down again is the identity when up did not overflow |
| Rescaling.LossIsReversibleIff | crates/feeder/src/core/binary_udp_packet.rs:148-171 | down and up again is the identity exactly if nothing was cut off |
| BinaryPackets.Flags | crates/feeder/src/core/binary_udp_packet.rs:93-114 | the packed byte gives back last flag and bid flag, and the low three bits of packet type and count |
| BinaryPackets.CountSurvivesIff | crates/feeder/src/core/binary_udp_packet.rs:88-114 | a count survives exactly if it is at most 7 |
| BinaryPackets.FifteenBecomesSeven | crates/feeder/src/core/binary_udp_packet.rs:93-114 | a count of 15 comes back as 7, with the other fields intact |
| BinaryPackets.NameSurvivesIff | crates/feeder/src/core/binary_udp_packet.rs:117-130 | a name survives its field exactly if it has at most 19 bytes and no zero byte |
| BinaryPackets.FromOrderBook | crates/feeder/src/core/binary_udp_packet.rs:329-389 | the loop builds the packet, byte for byte, with 58 bytes and 16 for each of at most seven levels |
| PacketLayouts.SidePacketLayout | crates/feeder/src/core/binary_udp_packet.rs:329-389 | where every field of a side's packet stands, its flag byte in numbers, and its length |
| PacketLayouts.PayloadLayout | crates/feeder/src/core/binary_udp_packet.rs:343-364 | level i stands at 16 i, price first, eight big-endian bytes each |
| PacketLayouts.CarriedAreFirstLevels | crates/feeder/src/core/binary_udp_packet.rs:341-364 | a packet carries seven levels if the side has more and all of them otherwise, entry i being level i with price and quantity each brought from its own precision to 8: exactly where digits are gained without overflow, with an error below one unit toward zero where they are lost, and in numbers at precisions 6, 8 and 10 |
| PacketLayouts.ReceivedAreFirstLevels | crates/feeder/src/bin/feature_pipeline.rs:263-292 | and that is what a receiver parses from it |
| PacketLayouts.ParsesIff | crates/feeder/src/bin/feature_pipeline.rs:263-292 | any packet: nothing is parsed exactly if it announces no items or is too short for them, else item i from its 16 bytes |
| PacketLayouts.FlagFields | crates/feeder/src/core/binary_udp_packet.rs:73-90 | the four fields of any flag byte, as numbers |
| PacketLayouts.FlagNumbers | crates/feeder/src/core/binary_udp_packet.rs:93-114 | three flag bytes in numbers |
| PacketLayouts.NameFieldHolds | crates/feeder/src/core/binary_udp_packet.rs:117-130 | a name field holds the name's first 19 bytes and zeros behind them |
| PacketLayouts.ParsedName | crates/feeder/src/bin/feature_pipeline.rs:223-226 | a name is read up to its first zero |
| BinaryPackets.ParseOrderBookLevels | crates/feeder/src/bin/feature_pipeline.rs:263-292 | nothing for a packet without items or shorter than it announces, else all announced items |
| BinaryPackets.PacketRoundTrip | crates/feeder/src/bin/feature_pipeline.rs:214-292 | any packet built from a book is parsed back to its header and carried levels, and to nothing exactly if that side was empty |
| BinaryPackets.CarriedStaysSorted | crates/feeder/src/core/binary_udp_packet.rs:329-367 | two levels in strict order are carried in strict order if digits are gained without overflow, in weak order if digits are lost |
| Aggregators.OrderBookAggregator.AddBids | crates/feeder/src/bin/feature_pipeline.rs:311-316 | sets the key's bids, keeps its asks and every other key |
| Aggregators.OrderBookAggregator.AddAsks | crates/feeder/src/bin/feature_pipeline.rs:318-323 | sets the key's asks, keeps its bids and every other key |
| Aggregators.OrderBookAggregator.TakeComplete | crates/feeder/src/bin/feature_pipeline.rs:325-333 | hands out and removes a pair exactly if both sides are there |
| Aggregators.OrderBookAggregator.Handle | crates/feeder/src/bin/feature_pipeline.rs:154-179 | one parsed packet: store, then take only if it was the last |
| Aggregators.EmittedPairIsMostRecent | crates/feeder/src/bin/feature_pipeline.rs:154-179 | over any packet history an emitted pair is the key's most recently received bids and most recently received asks |
| Aggregators.EmissionIsDue | crates/feeder/src/bin/feature_pipeline.rs:154-179 | a packet emits exactly if it is a last packet and both sides arrived since the key's last emission |
| Aggregators.PartialIsNewest | crates/feeder/src/bin/feature_pipeline.rs:304-334 | a key's partial book is the newest bids and asks since its last emission |
| Aggregators.PacketsAreUsedOnce | crates/feeder/src/bin/feature_pipeline.rs:304-334 | no packet is in two emissions |
| Aggregators.KeysAreIndependent | crates/feeder/src/bin/feature_pipeline.rs:304-334 | a key's partial book and emissions are those of its own packets alone |
| EndToEnd.ReceiveDatagram | crates/feeder/src/bin/feature_pipeline.rs:113-189 | the handler refines the receiver function: what it leaves in the aggregator and what it sends on |
| EndToEnd.BookGoesOut | crates/feeder/src/core/binary_udp_sender.rs:174-207 | a book goes out as one packet for each side that has levels, bids first, of at most 170 bytes: the size check stops none |
| EndToEnd.BookArrives | crates/feeder/src/core/binary_udp_sender.rs:174-207 | a two-sided book sent to an idle receiver gives one update, with the book's timestamp in microseconds and of either side the first seven levels at 10^8, and leaves nothing pending |
| EndToEnd.ArrivesIntactIff | crates/feeder/src/bin/feature_pipeline.rs:146-188 | a book arrives as meant exactly if it has both sides and its symbol has at most 19 bytes, none zero |
| EndToEnd.EveryBookArrivesOnce | crates/feeder/src/bin/feature_pipeline.rs:146-188 | any sequence of such books, sent in order without loss, arrives as exactly one update each, the k-th being the k-th book: symbol, timestamp in microseconds, first seven levels of either side, each brought to 10^8 |
| EndToEnd.DeliveredInOrder | crates/feeder/src/bin/feature_pipeline.rs:113-189 | the same for any choice of keys, whatever else arrives in between |
| EndToEnd.MicrosOf | crates/feeder/src/bin/feature_pipeline.rs:152 | seconds, milliseconds, microseconds and nanoseconds sent come to a million, a thousand, one and a thousandth of a microsecond |
| EndToEnd.DatagramFields | crates/feeder/src/bin/feature_pipeline.rs:122-152 | which bytes of a datagram key, time, flags and levels are read from, and which datagrams are used at all |
| EndToEnd.EveryStreamArrives | crates/feeder/src/bin/feature_pipeline.rs:113-189 | for any choice of keys, such as one port's or one symbol's: if what arrives for them is such a stream, interleaved in any way with anything else, what is delivered for them is exactly its books |
| EndToEnd.StreamsFlowApart | crates/feeder/src/bin/feature_pipeline.rs:154-179 | for any choice of keys, deliveries and partial books are those of a receiver that only ever saw their packets |
| HftpLayouts.PacketLayout | crates/udp-protocol/src/codec.rs:40-86 | where every part of an encoded packet stands, and its length |
| HftpLayouts.HeaderLayout | crates/market-types/src/packet.rs:18-28 | the 24 bytes of the header, magic number in numbers |
| HftpLayouts.LevelsLayout | crates/udp-protocol/src/codec.rs:70-83 | level i stands at 16 i, price first, eight little-endian bytes each |
| HftpLayouts.OutcomesAhead | crates/udp-protocol/src/receiver.rs:115-172 | which packets are too small, have the wrong magic number, a symbol beyond the end or not UTF-8, or an unknown type: exactly these fail so |
| HftpLayouts.OutcomesOfPayload | crates/udp-protocol/src/receiver.rs:143-168 | an order book payload panics exactly if its lists do not fit, a trade payload exactly if its id does not |
| HftpLayouts.ListsFitIff | crates/udp-protocol/src/receiver.rs:176-233 | the lists fit exactly if the buffer reaches as far as their two counts say |
| HftpLayouts.CutShortIsNeverParsed | crates/udp-protocol/src/receiver.rs:115-233 | an encoded packet cut anywhere is too small or panics |
| HftpLayouts.TradeLayout | crates/udp-protocol/src/receiver.rs:235-275 | where a trade's price, quantity, side byte, id length and id stand in its payload |
| HftpLayouts.TradeHeaderLayout | crates/udp-protocol/src/receiver.rs:115-156 | and the fields of its header, with type 1 |
| HftpLayouts.TradePacketReadsIff | crates/udp-protocol/src/receiver.rs:157-166 | a whole packet of type 1 reaches the trade parser and is read back exactly if its id is UTF-8 |
| HftpLayouts.RejectedDoNotCount | crates/udp-protocol/src/receiver.rs:115-136 | packets with a rejected header leave no trace in the loss detection |
| Utf8.EncodedIsUtf8 | crates/udp-protocol/src/receiver.rs:140-142 | every text encoded from Unicode scalar values is accepted |
| Utf8.Utf8IsEncoded | crates/udp-protocol/src/receiver.rs:140-142 | and nothing else is |
| Utf8.AsciiIsUtf8 | crates/udp-protocol/src/receiver.rs:140-142 | in particular bytes up to 0x7F are |
| Utf8.PlainSymbol | crates/udp-protocol/src/receiver.rs:140-142 | such as BTCUSDT |
| Utf8.IllFormed | crates/udp-protocol/src/receiver.rs:140-142 | a lone continuation byte, an overlong form, a surrogate and a cut-off character are not |
| HftpPackets.EncodeOrderBook | crates/udp-protocol/src/codec.rs:40-86 | header, symbol, flag and two counted lists, byte for byte |
| HftpPackets.ParseOrderBook | crates/udp-protocol/src/receiver.rs:176-233 | the moving offset parses both lists and stops at the payload's end, or panics exactly if an index would pass the buffer |
| HftpPackets.UdpReceiver.ProcessPacket | crates/udp-protocol/src/receiver.rs:108-174 | header checks, UTF-8 check of the symbol, dispatch and payload give the packet's outcome, panics included; the sequence number is stored whenever the header is accepted, and a loss reported exactly if it is positive and not the next one |
| HftpPackets.ParseTrade | crates/udp-protocol/src/receiver.rs:235-275 | the moving offset parses a trade, fails on an id that is not UTF-8, and panics exactly if an index would pass the buffer |
| HftpPackets.TradeReadsIff | crates/udp-protocol/src/receiver.rs:235-275 | a trade laid out field by field is read back exactly if its id is UTF-8 |
| HftpPackets.SilentIffConsecutive | crates/udp-protocol/src/receiver.rs:130-136 | over any encoded updates, no loss is reported exactly if their numbers count 1, 2, 3 and so on from the start and again after each 0 |
| HftpPackets.ZeroResetsSilently | crates/udp-protocol/src/receiver.rs:130-136 | the numbers 1, 2, 0, 1, 2 are received without a report |
| HftpPackets.SilentIffFromOne | crates/udp-protocol/src/receiver.rs:130-136 | with positive numbers, exactly if they are 1, 2, 3 and so on |
| HftpPackets.PacketRoundTrip | crates/udp-protocol/src/receiver.rs:108-174 | an encoded update is read back with the same sequence, timestamp, symbol, flag, bids and asks |
| HftpPackets.PacketRoundTripIff | crates/udp-protocol/src/codec.rs:40-86 | for fields that fit their widths, exactly if symbol and both lists are shorter than 65536 and the symbol is UTF-8, as every string is |
| HftpPackets.PayloadIsConsumedExactly | crates/udp-protocol/src/receiver.rs:176-233 | and the payload is consumed to its last byte |
| HftpPackets.ParsedLengthsAreShort | crates/udp-protocol/src/receiver.rs:108-145 | whatever is parsed has 16-bit lengths |
| Bytes.BERoundTrip | crates/feeder/src/core/binary_udp_packet.rs:370-389 | n big-endian bytes of x read back as x modulo 256^n |
| Bytes.ByteOrder | crates/feeder/src/core/binary_udp_packet.rs:370-389 | 258 in two bytes is 1, 2 big-endian and 2, 1 little-endian |
| Bytes.BEByte | crates/feeder/src/core/binary_udp_packet.rs:370-389 | byte i of n big-endian bytes counts multiples of 256 to the n - 1 - i |
| Bytes.LEByte | crates/udp-protocol/src/codec.rs:40-86 | byte i of n little-endian bytes counts multiples of 256 to the i |
| Bytes.TwosComplement | crates/feeder/src/core/binary_udp_packet.rs:182-191 | negative numbers in two's complement |
| Bytes.LERoundTrip | crates/udp-protocol/src/codec.rs:40-86 | n little-endian bytes of x read back as x modulo 256^n |

## Left out

- Floating point: tick conversion, the epsilon comparison of prices and f64 rounding are abstracted to equal integer ticks; the depth sums are over exact reals.
- Integer widths of counters: update ids, counters, symbol ids and the sequence lock's number are unbounded naturals; wrap-around after 2^64 steps is not modelled. Prices on the wire are 64-bit.
- Rescaling.GainIsExactIff: an overflowing product wraps, as in a release build; a debug build panics instead, and precisions more than 18 digits apart, whose power of ten overflows, are outside the model.
- BinaryPackets.FromOrderBook: a timestamp whose conversion to nanoseconds overflows is outside the model; the conversion itself is `crates/feeder/src/load_config.rs:22-45`.
- Weak memory: the step machines interleave sequentially consistent steps; the ring additionally allows outdated views of the other side's index.
- Seqlock.AcceptedReadsAreConsistent: says nothing about the unsequenced fast update paths or the last-trade field, which bypass the sequence number; the slot is a step machine and not a class, because its point is the interleaving.
- BuilderRuns.FirstUpdateDecides: the buffer limit is any number above 100; the source's is 10000.
- LiveMeansTrue.LiveBookIsTheExchangeBook: snapshots list the whole book, sorted; an exchange that sends truncated snapshots is outside the model. That the exchange does answer is not claimed, only that every state but the stuck one has a way back; waiting times and backoff are left out, and timeouts happen at any turn. The buffer limit is any number from 100 on; the class uses the source's 10000.
- RingBuffers.RingBuffer.Push: the ring has any positive size; the source's 65536 is one of them.
- PipelineSteps.TraceInterleavesPushes: each ring is the queue that the ring steps refine, and producers push valid symbol ids, as registration guarantees; refused pushes leave no step. Start-up, threads, affinity and metrics are left out.
- History.LookbackHistory.Add: one class stands for the book, trade and event histories, which differ in the item carried and in reading its timestamp.
- OptimizedOrderBooks.OptimizedOrderBook.BatchUpdate: the sorted map is a Dafny map, its iteration a function; best_bid, best_ask and to_orderbook are the top-n functions at fixed n.
- HftpPackets.UdpReceiver.ProcessPacket: prices and quantities are bit patterns, and the host is taken to be little-endian. A closed channel, which makes the send fail, is left out.
- BinaryPackets.ParseOrderBookLevels: conversion of the parsed integers to f64 is left out; symbols are bytes, so the replacement of invalid UTF-8 is not modelled.
- EndToEnd.ReceiveDatagram: the exchange of a port is a number; reading its name, where unknown names stand for one default exchange, is left out.
- The packets' version byte, local timestamp and padding are written and parsed where the layouts say; nothing else is claimed of them.
- Trade packets of the 58-byte format, text and JSON codecs, exchange-specific parsers, checksums, sockets, storage, monitors, the metadata and precision registries and the remaining feature formulas: plumbing, lookups or easy members.
- Memory pools, prefetching, branch hints and cache-line layout: no effect on meaning.
