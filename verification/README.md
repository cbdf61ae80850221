# Market-data feed handler: a model and its laws

This project models the feed handler in Dafny, from the bytes on the wire to the bars: the wire format and parser, the
sequence tracker with gap recovery, the order book, the single-producer single-consumer ring, and the bar aggregator.

What the source changes in place is a class here, with arrays, fields and loops; each of its methods is proved against a
function on values (`BookStates`, `Trackers`, `Handlers`, `Bars`, `SpscQueues`), and the laws are proved about those
functions, over all inputs and all runs.

| file | contents |
|---|---|
| `OrderPool.dfy` | the open-addressed order pool with cyclic backshift deletion |
| `Bits.dfy`, `PriceLevels.dfy`, `LevelTable.dfy` | the occupancy words, one side of a book, all sides |
| `BookState.dfy`, `BookBuilder.dfy` | the message handlers on values and in place |
| `BookLaws.dfy`, `TickLaws.dfy` | whole runs of the book: orders, levels, best prices, ticks |
| `Protocol.dfy`, `Framing.dfy` | the wire format, the parser, concatenations of frames, the server's reply |
| `Tracker.dfy`, `TrackerLaws.dfy` | the 64-slot reorder window and its laws |
| `Handler.dfy`, `HandlerLaws.dfy` | the handler, recovery, and order independence from the wire to the book |
| `SpscQueue.dfy` | the ring and the consumer loop as interleaved atomic steps, and the ring in place |
| `Bars.dfy`, `BarLaws.dfy` | time and volume bars, conservation and partition |
| `Pipeline.dfy` | from the wire to the offered ticks and trades, and through the ring to the bars |
| `Orders.dfy`, `Arithmetic.dfy` | shared types, and facts about multiples |

How the proofs work, in short:

- The pool keeps a ghost `start` slot. Counted cyclically from it, no probe path wraps, so the table is a linear one. Any
  free slot can be the cut; when the pool is full it is the slot after the one filled last. The familiar invariant (no
  free slot between home and position) is not enough, and `FamiliarInvariantIsNotKept` shows why.
- A side of the book is a value of quantities, occupied prices and best price. It is coherent in every reachable state,
  and the quantities are sums over the live orders, exactly as long as no sum leaves the 32-bit range.
- The ring's invariant covers one round of positions: published ones from the consumer's on, free ones after them.
- The tracker's delivered frames are always a prefix of the session, whatever arrives; so the book is a function of how
  far the session has been covered.

Where the code does less than one might expect, the exact condition is proved, and a concrete case is given:

- Level quantities wrap at 2^32: the quantities are exact throughout a run if and only if no level sum reaches 2^32
  (`ExactIffFits`, `OverflowLosesQuantity`).
- Re-adding a live id, or moving an order to another symbol, can change a top of book without a tick, or send a tick
  without a change. `Hides` is the exact condition for a stale subscriber (`StaysShownIffNotHidden`,
  `RunShownIffNothingHidden`), `MisTicks` the exact one for a tick and a change of some top not going together
  (`TickIffTopChanges`). The cases are `ReAddHidesChange`, `ReAddTicksWithoutChange` and `MoveHidesChange`.
- A full pool rejects every addition, also one for an id that it holds (`InsertOrder`).
- A frame more than 64 ahead can displace a held one. The tracker remembers every received number throughout a run if
  and only if no arrival displaces a frame with another number (`RemembersIffNothingOverwritten`,
  `OverwrittenFrameIsMissing`); recovery repairs a displacement (`RecoveryDelivers`).
- Setting `stop` before the last push has returned can leave events in the ring: it is safe if and only if no push is in
  progress, or only the store of `head_` is left and the consumer has, or is about to pop, its item
  (`DrainsIffSettled`). An event pushed later can be lost from any state (`EarlyStopLosesItem`).
- A volume bar size of 0 makes the carry loop endless exactly if there is a quantity to carry (`CarryLoopEnds`).

Assumptions: each atomic access is one sequentially consistent step. The recovery connection appears as the bytes that
arrived, or none. The hash is any function into the slots. Pool size, symbol count, price levels and ring capacity are
arbitrary; the window of 64, the 64-bit words and the frame layouts are those of the source.

## Model

| member | source | states |
|---|---|---|
| OrderPools.OrderPool.constructor | src/book.cpp:21 | An empty pool of any size from 2 up, for any hash into its slots, represents the empty map. |
| OrderPools.OrderPool.FindOrder | src/book.cpp:27-40 | Finds an id exactly if the represented map has it, and returns the slot with its order; holds for wrapped probe chains and for a full pool. |
| OrderPools.OrderPool.InsertOrder | src/book.cpp:42-63 | Returns nothing exactly if the pool is full, even for an id that is present; otherwise the id's record, which is new only for a new id, and no other entry changes. |
| OrderPools.OrderPool.ProbeFree | src/book.cpp:50-61 | A pool that is not full has a free slot on the probe path, the loop stops at the first one, and the fall-through after the loop is unreachable. |
| OrderPools.OrderPool.EraseOrder | src/book.cpp:65-103 | Removes exactly the given id from the represented map; every other id keeps its order and stays findable. |
| OrderPools.OrderPool.Backshift | src/book.cpp:83-99 | The in-place shift loop ends and leaves the table that `Backshifted` describes. |
| OrderPools.OrderPool.Fill | src/book.cpp:246-250 | Writing the fields of a found record changes that id's order and nothing else. |
| OrderPools.ErasedTable | src/book.cpp:65-103 | For any hash and any reachable table, wrapped or full, deletion by backshift leaves every entry on its probe path, ids unique, and the represented map without the deleted id. |
| OrderPools.BackshiftedKeepsEntries | src/book.cpp:83-99 | From every state of the shift loop to its end: no entry is lost or duplicated, and no probe path is interrupted. |
| OrderPools.MoveKeepsShifting | src/book.cpp:88-93 | When the cyclic test allows the move, moving the record into the hole keeps every earlier probe path whole. |
| OrderPools.InsertKeepsPlaced | src/book.cpp:50-59 | Filling the first free slot of a probe path keeps every entry reachable, with the cut of the cyclic order moved behind the filled slot. |
| OrderPools.ProbeReaches | src/book.cpp:28-38 | A probe meets no free slot before it reaches the entry of its id, and recognises it when it does. |
| OrderPools.FullExactlyIfNoFreeSlot | src/book.cpp:43-45 | The number of ids equals the number of slots exactly if no slot is free. |
| OrderPools.PlacedHasNoFreeSlotBefore | src/book.cpp:83-99 | The invariant kept here implies the familiar one: no free slot between an entry's home and its position. |
| OrderPools.FamiliarInvariantIsNotKept | src/book.cpp:83-99 | The familiar invariant alone is not inductive: on a concrete full table of four slots, deletion makes an entry unreachable. |
| Bits.OrSetsBit | src/book.cpp:108-110 | Setting a mask bit sets that position of a 64-bit word and no other. |
| Bits.AndNotClearsBit | src/book.cpp:112 | Clearing a mask bit clears that position and no other. |
| Bits.LowMaskKeeps | src/book.cpp:121-126 | The mask of the bid scan keeps the positions up to and including the best price's bit. |
| Bits.HighMaskKeeps | src/book.cpp:138-141 | The mask of the ask scan keeps the positions from the best price's bit on. |
| Bits.CountLeadingZeros | src/book.cpp:128 | All positions above the counted ones are clear, and for a word other than 0 the next one is set. |
| Bits.CountTrailingZeros | src/book.cpp:144 | All positions below the counted ones are clear, and for a word other than 0 the next one is set. |
| Bits.MaskOfWrapped | include/mdp/spsc_queue.hpp:37 | Masking a counter that has wrapped around at a power of two gives the remainder of the unbounded count. |
| PriceLevels.SideBook.SetOccupied | src/book.cpp:105-114 | The bitmap gains or loses exactly the given price. |
| PriceLevels.SideBook.RecomputeBest | src/book.cpp:116-150 | The cached best price becomes what the linear rescan finds. |
| PriceLevels.SideBook.ScanDown | src/book.cpp:117-133 | The masked word-by-word scan returns the largest occupied price at or below the old best, 0 if there is none, including bit 63 and the last partial word. |
| PriceLevels.SideBook.ScanUp | src/book.cpp:134-149 | The masked word-by-word scan returns the smallest occupied price at or above the old best, 0 if there is none. |
| PriceLevels.SideBook.AddLevel | src/book.cpp:152-169 | The arrays and words stand for the side with the quantity added modulo 2^32, and with its bitmap and best price updated accordingly. |
| PriceLevels.SideBook.RemoveLevel | src/book.cpp:171-183 | The arrays and words stand for the side with the quantity taken out, saturating at 0, and the best price rescanned if its level became empty. |
| PriceLevels.HighestIsMax | src/book.cpp:116-133 | The linear downward scan yields the maximum of the occupied prices not above its start. |
| PriceLevels.LowestIsMin | src/book.cpp:134-149 | The linear upward scan yields the minimum of the occupied prices not below its start. |
| PriceLevels.AddKeepsCoherent | src/book.cpp:152-169 | As long as the level's quantity stays below 2^32, an addition keeps bit set iff quantity positive, and the best price extremal. |
| PriceLevels.RemoveKeepsCoherent | src/book.cpp:171-183 | A removal keeps bit set iff quantity positive, and the best price extremal, also when the best level empties. |
| PriceLevels.AddKeepsMarked | src/book.cpp:152-169 | An addition of any quantity counts the level modulo 2^32, sets its bit, and changes no other level; every positive quantity keeps its bit and the best price stays that of the bits, even when the level wraps around to 0. |
| PriceLevels.RemoveKeepsMarked | src/book.cpp:171-183 | A removal of any quantity takes as much as the level holds, clears its bit exactly if nothing is left, and changes no other level; the best price stays that of the bits. |
| LevelTables.LevelTable.AddLevel | src/book.cpp:253-255 | Adding to one side of one symbol leaves every other side as it was. |
| LevelTables.LevelTable.RemoveLevel | src/book.cpp:242-244 | Removing from one side of one symbol leaves every other side as it was. |
| BookBuilders.BookBuilder.constructor | include/mdp/book.hpp:92-94 | The initial object stands for the book without orders. |
| BookBuilders.BookBuilder.TopOfBook | src/book.cpp:204-217 | Reads the best prices and the quantities there; zeros for an unknown symbol or an empty side. |
| BookBuilders.BookBuilder.Claim | src/book.cpp:237-245 | Rejects exactly when the pool is full; otherwise an order already under the id has left its price level. |
| BookBuilders.BookBuilder.OnAdd | src/book.cpp:233-262 | Object state and tick are those of the value-level handler, error branches included. |
| BookBuilders.BookBuilder.OnModify | src/book.cpp:264-288 | Object state and tick are those of the value-level handler, error branches included. |
| BookBuilders.BookBuilder.OnDelete | src/book.cpp:290-307 | Object state and tick are those of the value-level handler, error branches included. |
| BookBuilders.BookBuilder.OnTrade | src/book.cpp:309-317 | Object state and tick are those of the value-level handler; an accepted trade always makes a tick. |
| BookBuilders.BookBuilder.Handle | src/feed_handler.cpp:127-170 | Dispatch on the message kind; gap messages and heartbeats leave the book alone. |
| BookLaws.LevelSumWithout | src/book.cpp:152-183 | The sum of the live orders at a level does not depend on the order of summation. |
| BookLaws.LevelSumPositive | src/book.cpp:152-183 | A level's sum is positive exactly if a live order rests there. |
| BookLaws.RemoveKeepsAccurate | src/book.cpp:298-300 | Taking out a live order keeps every level equal to the sum of the live orders, every bitmap in step and every best price exact. |
| BookLaws.AddKeepsAccurate | src/book.cpp:246-255 | Adding a new order keeps all of that, if its level's sum stays below 2^32. |
| BookLaws.HandleKeepsAccurate | src/book.cpp:233-317 | Every message keeps all of that, and acts on the orders as on a plain map, if the level sums stay below 2^32. |
| BookLaws.HandleKeepsMarked | src/book.cpp:105-183 | Every message keeps, on every side, 32-bit quantities, a bit for each positive one, and the best price of the bits, whether or not quantities wrap around. |
| BookLaws.RunKeepsOrdersAndSizes | src/book.cpp:233-307 | After any run of messages, overflow or not, the orders are those of the plain map with bounded room, and every side's bits cover its quantities with the best price that of the bits. |
| BookLaws.RunIsAccurate | src/book.cpp:152-183 | After any run from the empty book whose level sums stay below 2^32, every (symbol, side, price) quantity is the sum of the live orders there, and bitmap and best price agree. |
| BookLaws.ExactIffFits | src/book.cpp:154 | The quantities are exact throughout a run if and only if no level sum ever reaches 2^32. |
| BookLaws.OverflowLosesQuantity | src/book.cpp:154 | A concrete run in which 32-bit wrap-around makes a level with two orders show 0. |
| BookLaws.TopIsBestOfLiveOrders | src/book.cpp:204-217 | The top of book is the highest bid and lowest ask among the live orders, 0 for an empty side, with the summed quantities there. |
| TickLaws.RemovalChangesTop | src/book.cpp:297-303 | Taking out a live order changes the top of a symbol exactly if the order rests there at the best price. |
| TickLaws.AdditionChangesTop | src/book.cpp:254-258 | Adding an order changes the top exactly if it does not rest behind the best price of its side. |
| TickLaws.ReplacementAtBestChangesTop | src/book.cpp:241-258 | Replacing an order at the best price within its symbol changes the top exactly if the new order differs in side, price or quantity. |
| TickLaws.StaysShownIffNotHidden | src/book.cpp:241-286 | A message keeps a tick subscriber up to date if and only if it does not satisfy `Hides`, a condition on the book and the message before the call. |
| TickLaws.RunShownIffNothingHidden | src/book.cpp:233-317 | Over any run in range, the last tick of every symbol shows its current top at every point if and only if no message satisfies `Hides`. |
| TickLaws.TickStreamIsFaithful | src/book.cpp:233-317 | If additions use new ids and modifications keep the symbol, the last tick of every symbol carries its current top. |
| TickLaws.TickIffTopChanges | src/book.cpp:233-317 | A message emits a tick exactly when the top of some symbol changes, if and only if it does not satisfy `MisTicks`, a condition on the book and the message before the call; additions of new ids, modifications within a symbol and deletions never satisfy it. |
| TickLaws.RunTicksIffTopChanges | src/book.cpp:233-317 | The same for every message of every run in range from the empty book. |
| TickLaws.RunKeepsLastTrade | src/book.cpp:313-315 | Each symbol's last price and quantity are those of its last accepted trade of the run. |
| TickLaws.TickDescribesOrders | src/book.cpp:185-202 | A tick of a run carries the best bid and ask among the plain map's orders, the summed quantities there, and its symbol's last accepted trade. |
| TickLaws.ReAddHidesChange | src/book.cpp:241-260 | A concrete re-added order that lowers the best bid without any tick. |
| TickLaws.ReAddTicksWithoutChange | src/book.cpp:241-260 | Re-adding the best bid as it was leaves the whole book unchanged, but emits a tick. |
| TickLaws.MoveHidesChange | src/book.cpp:271-286 | Moving a symbol's only order to an empty symbol changes the tops of both, but emits no tick. |
| TickLaws.TwoBidsIsReached | src/book.cpp:233-262 | The book of that example is reached by two additions. |
| TickLaws.BidOfTwoSymbolsIsReached | src/book.cpp:233-262 | The book of that example is reached by one addition. |
| SpscQueues.InitialInv | include/mdp/spsc_queue.hpp:24-30 | The constructed ring satisfies the invariant, for every capacity from 2 up. |
| SpscQueues.StepKeepsInv | include/mdp/spsc_queue.hpp:35-66 | Each atomic step of either side keeps slot sequence numbers, counters, claimed slots and histories consistent. |
| SpscQueues.RingIsSafe | include/mdp/spsc_queue.hpp:35-66 | In every interleaving: popped items are a prefix of pushed ones, at most `capacity` are outstanding, and the two sides never touch one slot's storage at once. |
| SpscQueues.FailuresAreHonest | include/mdp/spsc_queue.hpp:38-42 | In every interleaving, a push gives up exactly if the ring is full at its load, and a pop exactly if nothing is waiting at its load. |
| SpscQueues.WrappedStepAgrees | include/mdp/spsc_queue.hpp:35-66 | Each step with 64-bit counters and masked positions is the step with unbounded ones. |
| SpscQueues.CountersMayWrap | include/mdp/spsc_queue.hpp:19-87 | For every power-of-two capacity, the machine with 64-bit wrapping counters and bit masks takes exactly the runs of the machine with unbounded counters, and publishes, pops and dispatches the same items. |
| SpscQueues.OneSlotOverwrites | include/mdp/spsc_queue.hpp:20 | With capacity 1 a second push would overwrite the first item, so the lower bound on the capacity is needed. |
| SpscQueues.ExitMeansDrained | src/feed_handler.cpp:48-65 | If `stop` is set after the producer's last push returned, then in every interleaving the consumer loop ends within eight steps for each outstanding item and eight more, and only with every published item dispatched, in order. |
| SpscQueues.DrainsIffSettled | src/feed_handler.cpp:48-65 | After any run, setting `stop` while no new push starts is safe in every interleaving if and only if the state is settled: no push in progress, or only its last store left with the consumer past its item or about to pop it. |
| SpscQueues.UnsettledLosesItem | src/feed_handler.cpp:50 | From every state that is not settled, there is an interleaving in which the push in progress succeeds and its item, or an earlier one, is left behind. |
| SpscQueues.EarlyStopLosesItem | src/feed_handler.cpp:50 | After any run with no push in progress, and for any item pushed after `stop`, there is an interleaving in which that push succeeds and its item is left behind. |
| SpscQueues.SpscQueue.TryPush | include/mdp/spsc_queue.hpp:35-47 | Alone, it takes the machine's steps, succeeds exactly below capacity, and appends the item. |
| SpscQueues.SpscQueue.TryPop | include/mdp/spsc_queue.hpp:54-66 | Alone, it takes the machine's steps, succeeds exactly if something is there, and takes the oldest item. |
| SpscQueues.SpscQueue.Empty | include/mdp/spsc_queue.hpp:76-78 | True exactly if nothing is in the queue. |
| Trackers.SequenceTracker.constructor | include/mdp/sequence_tracker.hpp:30 | Starts at number 1 with an empty window and no gap. |
| Trackers.SequenceTracker.Push | src/sequence_tracker.cpp:10-42 | Object state and result are those of the value-level push, with its drop and out-of-order counters. |
| Trackers.SequenceTracker.StoreOutOfOrder | src/sequence_tracker.cpp:49-64 | Stores in slot number mod 64; keeps a frame with the same number, replaces and counts one with another number. |
| Trackers.SequenceTracker.FlushContiguous | src/sequence_tracker.cpp:66-89 | The flush loop ends, and the gap is closed exactly if it has been passed. |
| TrackerLaws.FlushAllReleases | src/sequence_tracker.cpp:66-84 | Flushing releases exactly the contiguous held numbers from the next expected one on, and stops at the first that is not held. |
| TrackerLaws.PushAnswers | src/sequence_tracker.cpp:10-42 | Whatever the state, a push answers false exactly if the frame is shorter than 20 or longer than 44 bytes or its number is below the next expected one. |
| TrackerLaws.RefusedIffDelivered | src/sequence_tracker.cpp:10-42 | After any run, an arrival is refused exactly if its size is wrong, its number is 0, or a frame with its number was already delivered. |
| TrackerLaws.PushKeepsDelivery | src/sequence_tracker.cpp:10-42 | Whatever frame arrives, delivery stays in order, exactly once and byte for byte. |
| TrackerLaws.RunDeliversInOrder | src/sequence_tracker.cpp:10-84 | For any pushes, rejected frames, collisions and dropped gaps: the k-th frame ever delivered carries number k, all bytes are those of a pushed frame, and every held number is above the next expected one, in its own slot. |
| TrackerLaws.PushRemembersIffNoOverwrite | src/sequence_tracker.cpp:49-64 | An arriving frame makes the tracker forget a received number if and only if it replaces a held frame that has another number. |
| TrackerLaws.RemembersIffNothingOverwritten | src/sequence_tracker.cpp:10-84 | Throughout any run, the received numbers are exactly the delivered and the held ones, if and only if no arrival replaces a held frame that has another number. |
| TrackerLaws.NextIsLeastMissing | src/sequence_tracker.cpp:10-84 | If nothing is replaced, the next expected number is the least one not received, and the window holds exactly the received numbers above it. |
| TrackerLaws.FirstFrameWins | src/sequence_tracker.cpp:52-58 | If nothing is replaced, then of several frames with one number it is the first that is held and delivered, byte for byte. |
| TrackerLaws.RunForgetsNothing | src/sequence_tracker.cpp:10-84 | All of that holds if no frame arrives more than 64 ahead of the number expected at that moment. |
| TrackerLaws.RunNeverOverwrites | src/sequence_tracker.cpp:52-59 | If no frame arrives more than 64 ahead, no held frame is replaced by one with another number. |
| TrackerLaws.SameArrivalsSameProgress | src/sequence_tracker.cpp:10-84 | If nothing is replaced, progress depends only on the set of numbers received, not on order or duplicates. |
| TrackerLaws.OverwrittenFrameIsMissing | src/sequence_tracker.cpp:59 | A concrete run outside the window in which a received number is lost again. |
| TrackerLaws.RunKeepsGap | src/sequence_tracker.cpp:33-40 | While nobody drops a gap from outside, a pending gap starts at or before the next expected number, ends at or after it and just before the largest number seen since it opened, and covers everything held; without a gap nothing is held. |
| TrackerLaws.GapStartsWhereOpened | src/sequence_tracker.cpp:33-36 | A pending gap starts at the number that was expected when it was opened, and has been pending since. |
| TrackerLaws.GapStartsAtOrBeforeNext | src/sequence_tracker.cpp:33-36 | A gap never starts after the next expected number, dropped gaps or not, and without one both of its ends are 0. |
| TrackerLaws.FramesAreConserved | src/sequence_tracker.cpp:22-83 | Every early frame was flushed, is held, was a duplicate, or displaced one counted as dropped; the statistics counters say exactly that. |
| Protocol.LoadStore | include/mdp/bytes.hpp:34-52 | Loading a stored big-endian field gives the value back. |
| Protocol.StoreLoad | include/mdp/bytes.hpp:12-32 | Storing a loaded field gives the bytes back. |
| Protocol.ParseEncode | src/parser.cpp:21-152 | For every message kind, parsing an encoding followed by any bytes gives the message and consumes exactly the encoding. |
| Protocol.EncodeParse | include/mdp/protocol.hpp:184-262 | Encoding what was parsed gives the frame back if and only if the frame's padding bytes are zero. |
| Protocol.ParseIgnoresRest | src/parser.cpp:31-50 | A successful parse depends only on the bytes it consumes. |
| Protocol.ParseStatus | src/parser.cpp:21-59 | For any bytes: exactly when each of the five statuses occurs, from their number and the type, length and side bytes, and what is consumed. |
| Protocol.ParseLayout | include/mdp/protocol.hpp:28-96 | A frame is laid out, byte by byte, as the message that it parses to, for all seven kinds; and its sequence number is that message's. |
| Protocol.EncodeLayout | include/mdp/protocol.hpp:184-262 | The encoder writes this layout, most significant byte first, with zero padding. |
| Protocol.CutFrameIsTruncated | src/parser.cpp:23-38 | A frame cut short anywhere is reported as truncated. |
| Framing.SplitConcat | src/feed_handler.cpp:109-117 | Splitting a concatenation of frames, cut at any byte, gives exactly the frames that arrived whole. |
| Framing.WholeFramesIsMaximal | src/feed_handler.cpp:109-117 | Those are as many frames as fit in the cut: one more would not. |
| Framing.ServeGap | src/simulator_lib.cpp:126-138 | The reply to a gap request is the concatenation of the session's frames in the range; numbers outside the session are skipped. |
| Handlers.FeedHandler.Replay | src/feed_handler.cpp:109-117 | The loop pushes exactly the frames that the payload splits into, in order. |
| Handlers.FeedHandler.TryRecover | src/feed_handler.cpp:67-120 | Without a pending gap or a reply nothing happens; otherwise the reply is replayed and the gap dropped. |
| Handlers.FeedHandler.ConsumeReady | src/feed_handler.cpp:185-191 | The ready frames are parsed again, fed to the book in order, and cleared. |
| Handlers.FeedHandler.ProcessDatagram | src/feed_handler.cpp:175-192 | Object state, book and offered events are those of the value-level handler for the datagram and the recovery reply. |
| HandlerLaws.RecoveryDelivers | src/feed_handler.cpp:109-119 | The server's reply for the pending gap, cut at any byte, delivers the session up to the last whole frame even if held frames had been overwritten; the whole reply takes the tracker past the gap. |
| HandlerLaws.RunFeedsPrefix | src/feed_handler.cpp:175-192 | In every run over a session, the book was fed exactly the session's frames before the next expected number, in order, once. |
| HandlerLaws.HandlerRunsTracker | src/feed_handler.cpp:175-192 | The tracker inside the handler goes through a run of the tracker: each datagram's frame arrives, then the frames of the recovery reply if one was needed and came, then the gap is dropped and the ready frames handed over. |
| HandlerLaws.RunsAgree | src/feed_handler.cpp:175-192 | Two runs over one session that received the same contiguous prefix, and in which no held frame was replaced, leave the same book and offered the same events, namely those of feeding this prefix directly. |
| HandlerLaws.SameArrivalsSameBook | src/feed_handler.cpp:175-192 | Two runs within the 64 window that received the same set of numbers leave the same book; the next expected number is the least one missing. |
| HandlerLaws.SameProgressSameBook | src/feed_handler.cpp:175-192 | Two runs over one session that got equally far, with any collisions and recoveries, leave the same book and offered the same events. |
| HandlerLaws.ArrivalReachesFurthest | src/feed_handler.cpp:181-184 | With an answered gap request, an arrival takes the tracker exactly to the furthest number, and nothing stays held. |
| HandlerLaws.RecoveredRunIsComplete | src/feed_handler.cpp:175-192 | If every gap request is answered, loss and reordering leave no trace: the book is the one that the session makes up to the largest number that arrived. |
| HandlerLaws.WireToBook | src/feed_handler.cpp:122-192 | After any run over a session in range, the book holds exactly the live orders of the delivered messages, with every level and best price exact. |
| Bars.BarAggregator.OnTime | src/consumers.cpp:57-76 | Accumulators, bars and counters are those of the value-level step; no other symbol changes. |
| Bars.BarAggregator.OnVolume | src/consumers.cpp:78-106 | Accumulator, bars and counters are those of the value-level step; no other symbol changes. It is defined for every bar size for which the carry loop ends, 0 included. |
| Bars.BarAggregator.CloseBars | src/consumers.cpp:93-105 | The carry loop ends whenever it can, and its accumulator, bars and counters are those of `Carry`. |
| Bars.BarAggregator.OnTrade | src/consumers.cpp:108-114 | A trade of an unknown symbol is ignored; otherwise both aggregations take it. |
| Bars.BarAggregator.FlushAll | src/consumers.cpp:116-128 | Every open bar is written once, and its accumulator cleared; a volume accumulator without quantity is left. |
| BarLaws.SummaryIsOhlc | src/consumers.cpp:59-71 | An accumulator holds first, highest, lowest and last price, first and last time and total quantity of its segment. |
| BarLaws.ElapsedIsDifference | src/consumers.cpp:72 | The elapsed time is the unsigned 64-bit difference: the plain one for a later timestamp, wrapped around for an earlier one. |
| BarLaws.TimeBarsPartition | src/consumers.cpp:57-76 | Time bars are the summaries of consecutive disjoint segments that with the open one cover all trades; each closed segment is the shortest, of two trades or more, whose elapsed time reaches the width. |
| BarLaws.TimeBarsByTheClock | src/consumers.cpp:57-76 | On trades in order of time, a bar closes at the first trade whose timestamp exceeds the segment's first one by the width or more. |
| BarLaws.VolumeBarsPartition | src/consumers.cpp:78-106 | Volume bars are the summaries of consecutive segments of the split trades, each of exactly the bar size; their number is total div size and the remainder total mod size. |
| BarLaws.PiecesOfTrade | src/consumers.cpp:93-105 | Splitting a trade at bar ends changes neither its price, its time nor its total quantity. |
| BarLaws.AllPiecesSplit | src/consumers.cpp:93-105 | The pieces that volume bars summarise are the trades in order, each split into parts of its symbol, price, time and total quantity. |
| BarLaws.CarryLoopEnds | src/consumers.cpp:93-105 | The carry loop ends if and only if the bar size is positive or there is nothing to carry. |
| BarLaws.CountIsNumberOfBars | src/consumers.cpp:50-54 | Each bar counter is the number of written bars of its kind. |
| BarLaws.SymbolsAreIndependent | src/consumers.cpp:108-114 | The bars of a symbol are those that its own trades make. |
| BarLaws.BarsOfTrade | src/consumers.cpp:108-114 | A trade of an unknown symbol writes nothing; the bars that a trade writes are its symbol's, end at its time, and a time bar comes first. |
| BarLaws.FlushedBarsPartition | src/consumers.cpp:57-128 | After a flush, a symbol's time bars are the summaries of consecutive disjoint segments that are all its trades, and its volume bars those of its split trades, every one full but the last; at most pieces without quantity are not shown. |
| BarLaws.FlushWritesInOrder | src/consumers.cpp:116-128 | A flush writes at most one time bar and one volume bar of each symbol, by symbol and the time bar first. |
| BarLaws.SecondFlushIsIdle | src/consumers.cpp:116-128 | After a flush every time accumulator is inactive and every volume accumulator is inactive or empty; a second flush writes nothing and changes nothing. |
| BarLaws.QuantityIsConserved | src/consumers.cpp:57-128 | After a flush, a symbol's time bars and its volume bars each add up to what it traded. |
| BarLaws.SegmentsOfActions | src/consumers.cpp:57-128 | In any run of trades and flushes, the time bars of a symbol are the summaries of consecutive disjoint segments that with the open one are all its trades. |
| BarLaws.PiecesOfActions | src/consumers.cpp:78-128 | In any run of trades and flushes, the volume bars of a symbol are the summaries of consecutive segments, of at most the bar size, of its split trades, which with the open one are all of them. |
| BarLaws.ActionsConserve | src/consumers.cpp:57-128 | In any run of trades and flushes, written bars and open accumulator of either kind together hold exactly what the symbol traded. |
| BarLaws.BarsSinceFlush | src/consumers.cpp:116-128 | The bars written since the last flush are those of the trades since then, from a fresh time accumulator, and from a volume accumulator that holds no quantity. |
| Pipelines.RunOffersEvents | src/feed_handler.cpp:122-192 | In every run over a session, the handler has offered exactly the events of the delivered frames' messages, in order: of each message the book's tick, if there is one, then the trade. |
| Pipelines.EventsHoldTicks | src/feed_handler.cpp:132-157 | The ticks among these events are the ticks that the book makes of the messages, all of them, in order. |
| Pipelines.EventsHoldTrades | src/feed_handler.cpp:151-168 | The trades of a symbol among these events are the messages' trades of that symbol, all of them, in order, accepted by the book or not. |
| Pipelines.TickPrecedesTrade | src/feed_handler.cpp:151-168 | The tick of a trade that the book accepts comes directly before the trade. |
| Pipelines.WireToTicks | src/feed_handler.cpp:122-192 | From the wire: every offered tick carries the best orders of the plain map and the last trade as of its message, and if additions use new ids and modifications keep the symbol, the last tick of each symbol shows the best live orders. |
| Pipelines.TradesMirrorMessages | src/feed_handler.cpp:158-166 | What the aggregator sees, trade by trade, has the symbol, price, quantity and time of the trade message. |
| Pipelines.DispatchedMakesBars | src/feed_handler.cpp:56-61 | Dispatching any events makes the bars of the trades among them, in order. |
| Pipelines.BarsOfEvents | src/feed_handler.cpp:48-65 | After dispatching any events and a flush: a symbol's time bars have the open, high, low, close, times and volume of consecutive segments of its trade messages, cut by plain time differences if timestamps are in order; its volume bars are those of the messages split into parts; both add up to the messages' quantities. |
| Pipelines.DrainedBars | src/feed_handler.cpp:48-65 | If `stop` is set after the last push, then in every interleaving the bars left behind are in this sense those of all published trade messages. |
| Pipelines.WireToBars | src/feed_handler.cpp:48-192 | If the ring accepted every offered event, the bars left behind are in this sense those of the trade messages in the session's delivered frames. |
| Pipelines.DrainQueue | src/feed_handler.cpp:48-65 | The consumer loop after `stop`, alone, ends with an empty ring and the bars of everything that was in it, flushed. |

## Left out

- Trackers.SequenceTracker.Push: sequence numbers are unbounded; the source's 64-bit counter would wrap to 0 after delivering number 2^64 - 1.
- Framing.ServeGap: the source's 64-bit loop would not end for a range up to 2^64 - 1; here the numbers are unbounded.
- Bars.BarAggregator.OnVolume: accumulated volumes are unbounded, the source's are 64-bit; and a call whose carry loop would not end, see `CarryLoopEnds`, is excluded.
- Bars.BarAggregator.OnTrade: the trade's side, id and sequence number, which the bars do not use, are not modelled.
- SpscQueues.StepKeepsInv: weaker memory orders than sequential consistency are not modelled.
- The concrete bit mixing of the hash, and the concrete sizes 65536, 32, 4096 and 16384.
- The byte swaps of the loads and stores: fields are big-endian numbers, as on a little-endian host; bitwise word operators are defined on binary digits.
- Stale bytes of a released window slot, which the source never reads.
- Pipelines.WireToBars: that the ring accepts every offered event is assumed; the bounded retries of `publish`, after which an event is dropped, are not modelled.
- Sockets, `select`, timeouts, the session generator, command-line programs and threads as such.
- Latency histograms, recovery latency and the other instrumentation.
- The BBO and tape text output, bar file bytes, and the Python reader.
- `bid_qty_at`, `ask_qty_at`, `size_approx` and `encode_message_bytes`, which would only add easy members.
