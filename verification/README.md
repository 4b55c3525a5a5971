# Market-data pipeline: model and proofs

A Dafny model of the CME market-data pipeline of this repository, and of three small algorithms beside it (CTP order
references, cumulative trade volume, TCP de-framing). The theorems hold for all inputs, all runs and all interleavings,
under the assumptions listed below; nothing here is executed. `dafny verify dfyconfig.toml` checks the project.

## What is modelled

Packets of one numbered channel arrive over two lossy UDP feeds and over TCP replays. An arbitrator decides which packet
is wanted, a reorder buffer restores the order, a consumer drains the buffer into price books, and a late joiner starts
from a cyclic snapshot.

| file | content |
|---|---|
| `Types.dfy`, `OrderedSets.dfy`, `Sequences.dfy` | fixed-width numbers, book entries, messages, packets; first elements of ordered sets; concatenation |
| `Arbitrator.dfy` | A/B and replay arbitration: function and class |
| `IncrementData.dfy` | the reorder buffer: function and class |
| `PacketLog.dfy` | what a log of accepted packets says, in number order |
| `Feed.dfy`, `FeedInvariant.dfy`, `FeedTheorems.dfy` | the receiving threads as a step relation, its invariant, its theorems |
| `Acceptance.dfy` | which offered packets are accepted, and that the consumer gets all that can be delivered |
| `BufferOrder.dfy` | the buffer does not depend on the order of insertion |
| `Processing.dfy` | the packet processor; its calls are runs of protocol steps |
| `BookLevels.dfy`, `BookStates.dfy`, `BookRuns.dfy` | price levels: specification, mutable controller, runs |
| `LevelOperations.dfy` | the same operations read off the deques, without the level specification |
| `BoundedBook.dfy`, `BoundedCounts.dfy`, `BoundedRuns.dfy` | the depth-capped book against a book that keeps every row: a prefix, of which length, and runs on which they part |
| `Snapshots.dfy`, `SnapshotOrder.dfy` | what a list of snapshot entries rebuilds, and in which order only |
| `Recovery.dfy`, `ResetFilter.dfy`, `LateJoin.dfy`, `EndToEnd.dfy` | the merge with increments, late join equals early join, the composition with the feeds |
| `Publication.dfy`, `BookManagement.dfy`, `Saver.dfy`, `ConsumerQuotes.dfy` | quotes, the book manager, the consumer loop, and the quotes it has published |
| `ListenerLog.dfy`, `ListenerRuns.dfy` | what the market listener is told, field by field: level 2, best prices, trades, definitions |
| `SnapshotAssembly.dfy`, `SnapshotCycles.dfy` | assembly of the cyclic snapshot, and what happens when the snapshot changes between two cycles |
| `Replayer.dfy` | cutting the replay stream into packets |
| `Decimal.dfy`, `OrderRefs.dfy` | `itoa`, `atoi`, and the order-reference correlation built on them |
| `Volume.dfy` | trade sizes from cumulative volumes |

The classes have the fields and the loops of the source. Each method is proved equal to a function on values, and the
theorems are about those functions. A class that belongs to a larger protocol carries a ghost copy of the protocol
state (`DatProcessor.state`, `BookManager.desk`, `RecoverySaver.received`, `CtpTraderSpi.acts`,
`FemasBookManager.ticks`), so a run of the class is a run the theorems speak about.

### The receiving side

`Feed.Step` has one action per critical section: checking a feed packet, storing it, requesting a replay, checking and
storing a replayed packet (any number of replay threads), picking a message, removing it. One UDP thread serves both
feeds. A blocked thread is an action that changes nothing. `everLost`, `accepted`, `inserted` and `delivered` only record
history; `FeedTheorems.EverLostIsHistory` shows that the first of them is what its name says.

The value 2^32-1 means "none yet" to the arbitrator and to the buffer, so packet numbers are below it. That this
assumption is needed, and when exactly, is proved (`SentinelBreaks`, `SentinelAcceptsTwice`). Number 0 as a first packet
reads as "stopped" to the consumer (`DatSaver.StartSave`).

### Where the code does not meet the obvious statement

Each of these is stated with the exact condition under which the property holds, and most with a concrete failing input.

* After a packet numbered 2^32-1 the first packet is accepted again, exactly when the UDP thread was idle and some packet
  had been accepted before (`FeedTheorems.SentinelBreaks`).
* A depth-capped side is a prefix of the unlimited one except after a New that needs blank padding and after a
  DeleteFrom that is rejected for a level beyond the depth (`BoundedBook.GuardIsExact`); wherever this guard fails, some
  run from an empty book leads to that state and past it (`BoundedRuns.UnguardedFails`).
* The entries of a side without blank rows rebuild it if and only if they come by ascending level
  (`SnapshotOrder.RebuiltExactlyAscending`; `Snapshots.DescendingSnapshotFails` is an instance that fails).
* Channel resets can make late and early joiner differ, in two ways. In the overlap of increments and snapshot, a
  security with snapshot entries loses what the snapshot brought to any reset that gets through; a security without them
  can keep rows that a filtered reset removed for everybody else (`LateJoin.FilteredResetMisleads`). Behind the snapshot,
  a filtered reset makes the late joiner keep rows (`LateJoin.FilteredResetKeepsRows`). A reset is filtered when the
  snapshot of the security it names is at least as new; a later reset that gets through repairs everything. The exact
  conditions are `LateJoin.OverlapSafe` and `LateJoin.LateSafe`: joining late and early agree after every entry since the
  last reset that got through if and only if they hold (`LateJoin.LateEqualsEarly`).
* A late joiner whose first packet is later than the one after the snapshot agrees from then on if and only if the packets
  it missed left the book as it was, or a later reset gets through, and filtered resets find the book empty
  (`EndToEnd.LateStartExactly`); with some channels it never gets a missed entry (`EndToEnd.StartingTooLateFails`).
* The last best bid and offer sent is stale exactly when the book was emptied since (`Publication.StaleExactlyWhenEmptied`).
  Neither a channel reset nor a definition sends level 2, so the last level-2 message shows the book as of the last
  accepted entry (`ListenerLog.LastL2ShowsLanding`), which is the current one if neither came since.
* A change at a level is a deletion and an insertion there, except at a missing level inside the depth, where the change
  is rejected (`LevelOperations.ChangeIsDeleteThenNew`).
* A foreign order is reported under its reference and system id joined by a bar; the two can be told apart if references
  have no bar in them (`OrderRefs.ForeignIsUnambiguous`).
* The moving cursor computes the naive filter for every message if and only if each snapshot entry behind a newer one is
  covered up to that newer one by an entry of its own security (`Recovery.CursorFiltersCovered`); entries sorted by
  LastMsgSeqNumProcessed are, others need not be (`Recovery.UnsortedSnapshotFilters`).
* What is assembled follows a snapshot cycle exactly when every picked packet has the messages of that cycle
  (`SnapshotCycles.FollowsExactly`); a snapshot that changes after packet k is joined to the rest of the new one, and the
  callback is called for the mixture exactly when that rest is long enough (`SnapshotCycles.CyclesCanMix`).
* A received buffer that ends inside a frame makes the code read behind it, exactly unless that frame shows a complete
  header of a heartbeat or a logout (`Replayer.CutFrameOverruns`).
* Callbacks report the right client id exactly when no reference was given to two different orders; a login that sets the
  counter back breaks this (`OrderRefs.CallbacksRightExactly`, `OrderRefs.ReloginConfuses`), and a cancel finds its own
  order exactly when no earlier order used the same client id (`OrderRefs.CancelFindsOwnExactly`).
* Reported volume exceeds the session totals exactly when cumulative volume falls inside a session
  (`Volume.VolumeIsConserved`).

### Assumptions

* Parsers are abstract: a packet is a number and a list of messages, a message is a list of book entries, a list of
  definitions, or neither. The theorems about joining late assume that a parser stamps each entry with the number of its
  packet (`EndToEnd.WellParsed`), that a snapshot entry carries LastMsgSeqNumProcessed (FIX tag 369), as
  `recovery_manager.h:33-37` says, and that the entries of a security list its book by ascending level
  (`EndToEnd.GoodSnapshot`).
* The late-join theorems compare books under fixed definitions; the book manager itself handles definitions at any time.
* Prices stay (mantissa, exponent) pairs; they are copied, never computed with.

## Model

| member | source | states |
|---|---|---|
| Arbitrator.DatArbitrator.CheckFeedPacket | src/cme/market/dat_arbitrator.cc:27-80 | status and new state of a feed packet are those of `FeedCheck`: a higher number makes everything it jumps over lost, a lost number is recovered once, any other is dropped; including the wrap at 2^32 |
| Arbitrator.DatArbitrator.CheckReplayPacket | src/cme/market/dat_arbitrator.cc:85-101 | a replayed packet passes exactly while its number is lost |
| IncrementData.CmeData.InsertMessage | src/cme/market/cme_data.h:22-28 | a message goes behind every message that is not greater, by packet number |
| IncrementData.CmeData.InsertMessages | src/cme/market/cme_data.cc:34-35 | the messages of a packet land together, in packet order, between lower and higher packets |
| IncrementData.CmeData.InsertIncrementData | src/cme/market/cme_data.cc:30-58 | highest number, holes and messages after an insertion, for any arrival order |
| IncrementData.CmeData.PickNextMessage | src/cme/market/cme_data.cc:61-106 | a message comes out exactly when the buffer is non-empty and its first message lies below every hole; it is that first message |
| IncrementData.CmeData.RemoveIncrementData | src/cme/market/cme_data.cc:124-128 | removes exactly the picked position and keeps the order |
| IncrementData.CmeData.GetIncrementFirstDataSeq | src/cme/market/cme_data.cc:130-158 | a number that is buffered and not above any buffered number; 0 while nothing is buffered |
| FeedInvariant.StepKeeps | src/cme/market/dat_processor.cc:26-77 | every step of every thread keeps the invariant: accepted and lost numbers partition [first, current], accepted packets are stored or in exactly one thread, holes are what is missing below the highest, the buffered line is the number-ordered log, requests are disjoint and cover the losses |
| FeedInvariant.RunKeeps | src/cme/market/dat_processor.cc:26-77 | the invariant holds after every interleaving |
| FeedTheorems.ExactlyOnceInOrder | src/cme/market/cme_data.cc:30-106 | over every interleaving the consumer was handed a prefix of the messages of packets first, first+1, ... up to the first missing one, all accepted: no gap, no duplicate, packet-internal order kept |
| FeedTheorems.DeliveryFollowsChannel | src/cme/market/dat_processor.cc:26-77 | when all sources carry the channel's packets, what is delivered is a prefix of the channel from the first accepted packet on |
| FeedTheorems.PickNeitherEarlyNorStuck | src/cme/market/cme_data.cc:65-102 | in every reachable state the consumer can go on exactly while the next deliverable message was not handed over, and then gets it |
| FeedTheorems.RecoveredIsDeliverable | src/cme/market/dat_arbitrator.cc:58-65 | once nothing is lost or in flight, every packet from first to current was accepted and is deliverable |
| FeedTheorems.AcceptedOnce | src/cme/market/dat_arbitrator.cc:27-101 | over every run each number is accepted at most once by both feeds and all replays, never below the first; accepted and lost partition [first, current], and current is the highest accepted number |
| FeedTheorems.HolesAreOutstanding | src/cme/market/cme_data.cc:42-54 | the holes of the buffer are exactly the lost or in-flight numbers below its highest number |
| FeedTheorems.EverLostIsHistory | src/cme/market/dat_arbitrator.cc:71-74 | the recorded losses grow by exactly the numbers that enter the lost set |
| FeedTheorems.LostGrowsByGap | src/cme/market/dat_arbitrator.cc:67-78 | a kept packet adds nothing to the lost numbers except the gap its status reports, and that whole gap is lost |
| FeedTheorems.RequestsCoverLosses | src/cme/market/dat_processor.cc:61-76 | over every run the replay requests are disjoint, follow the storing of the packet that revealed the gap, and, when the UDP thread is idle, cover exactly the numbers that were ever lost |
| FeedTheorems.SentinelBreaks | src/cme/market/dat_arbitrator.cc:43-48 | after a packet numbered 2^32-1, seeing the first packet again makes a number accepted twice if and only if the UDP thread was idle and some packet had been accepted before |
| FeedTheorems.DeliveredNeverFalls | src/cme/market/cme_data.cc:61-106 | over every interleaving the numbers of the delivered messages never fall |
| FeedTheorems.FirstBufferedIsFirst | src/cme/market/dat_saver.cc:22-41 | over every interleaving, until something is delivered, the first buffered message is the first message of the first accepted packet, if that packet has messages; its number is the one that decides whether a snapshot is needed |
| FeedTheorems.SentinelAcceptsTwice | src/cme/market/dat_arbitrator.cc:30-48 | a concrete run on which a packet is accepted twice after number 2^32-1 |
| Acceptance.FeedOffer | src/cme/market/dat_arbitrator.cc:27-80 | in every reachable state with an idle UDP thread, a packet of either feed is taken, and is then on its way to the buffer, if and only if nothing was accepted yet or its number lies above the first one and was not accepted before; its number is not lost afterwards, and a packet that is not taken changes nothing |
| Acceptance.ReplayOffer | src/cme/market/dat_arbitrator.cc:85-101 | a free replay thread takes a packet if and only if its number lies between the first and the highest accepted one and was not accepted before |
| Acceptance.AcceptedExactlyOffered | src/cme/market/dat_processor.cc:26-77 | over every interleaving the accepted numbers are exactly those from the first one on that some free thread looked at: whatever both feeds and all replays bring again after a loss is recovered |
| Acceptance.ConsumerCatchesUp | src/cme/market/dat_saver.cc:42-59 | in every reachable state k rounds of removing and picking hand over the next k deliverable messages, as far as there are any |
| BufferOrder.HolesAfter | src/cme/market/cme_data.cc:37-54 | after inserting distinct packets in any order, the highest number is their maximum and the holes are the missing numbers between the first inserted and the highest |
| BufferOrder.MessagesAfter | src/cme/market/cme_data.cc:34-35 | and the buffered messages are those of the packets by ascending number |
| BufferOrder.OrderDoesNotMatter | src/cme/market/cme_data.cc:30-58 | two insertion orders with the same first packet build the same buffer |
| Processing.FeedStepsAre | src/cme/market/dat_processor.cc:53-77 | check, store and request in a row amount to arbitration, insertion and one request for the gap |
| Processing.ReplayStepsAre | src/cme/market/dat_processor.cc:26-50 | check and store in a row amount to arbitration and insertion |
| Processing.StoringIsWellFormed | src/cme/market/cme_data.cc:50-52 | a packet that passed its check is never numbered like the highest stored one, so the counting range of the insertion is well formed |
| Processing.DatProcessor.HandleFeedPacket | src/cme/market/dat_processor.cc:53-77 | a kept packet is stored, a dropped one changes nothing, and a replay is requested for exactly the reported gap |
| Processing.DatProcessor.ProcessFeedData | src/cme/market/dat_processor.cc:53-77 | an uninterrupted call is the three protocol steps of a feed packet, for every packet number |
| Processing.DatProcessor.ProcessReplayData | src/cme/market/dat_processor.cc:26-50 | an uninterrupted call is the two protocol steps of a replay thread; a connection error calls the error handler and changes nothing else |
| Processing.DatProcessor.StartTcpReplay | src/cme/market/dat_replayer.cc:26-31 | the new request asks for exactly the numbers n with begin <= n < end, and the earlier requests stay |
| BookStates.BookStateController.CheckPriceLevel | src/cme/market/book_state_controller.cc:267-307 | level check of each action |
| BookStates.BookStateController.NewPrice | src/cme/market/book_state_controller.cc:183-215 | both branches, insertion and blank padding, are one shift-down cut at the depth |
| BookStates.BookStateController.ChangePrice | src/cme/market/book_state_controller.cc:217-231 | replaces the row at the level by the numbers of the entry |
| BookStates.BookStateController.DeletePrice | src/cme/market/book_state_controller.cc:233-243 | shifts up from the level |
| BookStates.BookStateController.DeleteAllPrice | src/cme/market/book_state_controller.cc:245-254 | empties the side |
| BookStates.BookStateController.DeleteTopPrice | src/cme/market/book_state_controller.cc:256-265 | shifts up by the level, to nothing if there are fewer rows |
| BookStates.BookStateController.UpdatePrice | src/cme/market/book_state_controller.cc:139-181 | accepts exactly the entries that pass the level check, leaves the side as the level specification says, and treats snapshot entries as New |
| BookStates.BookStateController.ModifyState | src/cme/market/book_state_controller.cc:54-94 | effect on all books, the reported flag, and when a state is reported; no side exceeds its depth and no index is out of range |
| BookStates.BookStateController.ResetState | src/cme/market/book_state_controller.cc:129-137 | empties every book and nothing else |
| BookStates.BookStateController.CreateOrShrink | src/cme/market/book_state_controller.cc:21-46 | creation, renaming, shrinking and removal of a book |
| BookStates.BookStateController.Create | src/cme/market/book_state_controller.cc:101-112 | adds an empty book and changes no other |
| BookStates.BookStateController.Shrink | src/cme/market/book_state_controller.cc:114-127 | sets the depth and cuts off exactly the rows behind it |
| BookRuns.OperationsShift | src/cme/market/book_state_controller.cc:183-265 | read as total functions from level to row, the rows an operation leaves are those of the level specification also where nothing is stored, and everything beyond the depth is blank; that the code's branches do this is what `NewPrice`, `DeletePrice` and `DeleteTopPrice` state |
| BookRuns.DeleteUndoesNew | src/cme/market/book_state_controller.cc:183-243 | Delete takes back a New at the same level if and only if the New neither padded nor pushed a row out |
| BookRuns.DeleteFromIsDeleteTops | src/cme/market/book_state_controller.cc:256-265 | DeleteFrom a level is that many deletions of the first row |
| BookRuns.DepthIsKept | src/cme/market/book_state_controller.cc:207-211 | over every run no side is longer than the depth |
| BookRuns.Projection | src/cme/market/book_state_controller.cc:54-94 | the book of a security depends only on its own events and the resets |
| BookRuns.SameEventsSameBook | src/cme/market/book_state_controller.cc:54-94 | runs that agree on the events of a security agree on its book |
| BookRuns.EventsCommute | src/cme/market/book_state_controller.cc:54-94 | events of different securities commute |
| BookRuns.SideProjection | src/cme/market/book_state_controller.cc:188-188 | the two sides of a book evolve independently |
| LevelOperations.ChangeIsDeleteThenNew | src/cme/market/book_state_controller.cc:217-231 | Change equals Delete and then New at the same level if and only if the level is stored, 0, or beyond the depth |
| LevelOperations.AcceptedFits | src/cme/market/book_state_controller.cc:267-307 | which entries are accepted, by kind, action, level, depth and number of rows |
| LevelOperations.LastEntryBecomes | src/cme/market/book_state_controller.cc:54-265 | after any entries, the next one edits exactly one deque by insertion, padding, replacement or erasure as its action says, with its number of orders, size and price, a reset empties all, and nothing else changes |
| LevelOperations.ChangeIsVisible | src/cme/market/book_state_controller.cc:222-227 | an accepted Change puts its three numbers at its level and leaves every other level alone |
| LevelOperations.DefinedBecomes | src/cme/market/book_state_controller.cc:21-46 | a definition renames, sets the depth and takes away exactly the rows behind it; a new security gets an empty book, a removed one loses it |
| BoundedBook.GuardIsExact | src/cme/market/book_state_controller.cc:193-211 | the prefix relation to the unlimited side survives an operation, whatever the hidden rows are, if and only if New needs no padding and DeleteFrom is not rejected over stored rows |
| BoundedBook.StepSimulates | src/cme/market/book_state_controller.cc:114-265 | one event keeps every side a prefix of the unlimited one |
| BoundedBook.BoundedSimulatesUnlimited | src/cme/market/book_state_controller.cc:114-265 | through truncation, rejection, shrinking, growth and reset, every stored side is a prefix of the side that keeps every row |
| BoundedCounts.RunCounted | src/cme/market/book_state_controller.cc:114-265 | over every run depth and number of rows of a security follow from the levels and actions of the events alone |
| BoundedCounts.StoredExactly | src/cme/market/book_state_controller.cc:114-265 | over every guarded run each side is exactly the beginning of the unlimited one of that length: no event costs a row too many |
| BoundedCounts.RedefinitionKeepsRows | src/cme/market/book_state_controller.cc:114-127 | after a guarded run a redefinition keeps every stored row at a level up to the new depth |
| BoundedRuns.UnguardedFails | src/cme/market/book_state_controller.cc:193-211 | wherever the guard fails, some run from an empty book whose events all meet the guard leads to that side, a prefix of its unlimited side, and the operation ends this |
| BoundedRuns.RunsAreSides | src/cme/market/book_state_controller.cc:139-181 | increment entries of one side change that side as the operations say, capped and unlimited |
| Snapshots.SnapshotRebuilds | src/cme/market/recovery_manager.cc:43-54 | snapshot entries in ascending level order per side, sides and securities interleaved in any way, rebuild exactly the listed side |
| Snapshots.SnapshotRoundTrip | src/cme/market/book_state_controller.cc:141-150 | the entries of a side replayed into an empty book give the side back |
| SnapshotOrder.RebuiltExactlyAscending | src/cme/market/book_state_controller.cc:193-211 | the entries of a side without blank rows, in any order, rebuild it if and only if they come by ascending level |
| SnapshotOrder.SnapshotRebuiltExactlyAscending | src/cme/market/recovery_manager.cc:43-54 | the same with the other side and other securities interleaved in any way |
| SnapshotOrder.DamageStays | src/cme/market/book_state_controller.cc:199-211 | a blank row above a filled one leaves only after a filled row was pushed out |
| Snapshots.DescendingSnapshotFails | src/cme/market/book_state_controller.cc:199-205 | an instance: two rows, the lower level first, give a wrong side |
| Recovery.CursorFiltersCovered | src/cme/market/recovery_manager.cc:70-83 | for every message the securities behind the cursor are exactly the covered ones, if and only if each snapshot entry behind a newer one is covered up to that newer one by an entry of its own security; sorted entries are |
| Recovery.UnsortedSnapshotFilters | src/cme/market/recovery_manager.cc:70-83 | two unsorted entries on which the cursor filters an entry that no snapshot covers |
| Recovery.CursorRefinesFilter | src/cme/market/recovery_manager.cc:62-84 | on such a snapshot an entry of message n survives if and only if no snapshot entry of its security has number n or more, and survivors keep their order |
| Recovery.CursorResumes | src/cme/market/recovery_manager.cc:71-74 | skipping on from where the last call stopped finds the same place as skipping from the beginning |
| Recovery.SplitIsWhole | src/cme/market/recovery_manager.cc:33-40 | however a list of entries is split into snapshot messages, what is appended is that list: the entries of every message, in message order |
| Recovery.RecoveryManager.OnNewRecovery | src/cme/market/recovery_manager.cc:28-60 | all snapshot entries are appended and replayed, the cursor is rewound, and the changed securities are reported |
| Recovery.RecoveryManager.SkipOlder | src/cme/market/recovery_manager.cc:70-74 | the cursor ends at the first entry that includes the message |
| Recovery.RecoveryManager.RemovePastBooks | src/cme/market/recovery_manager.cc:62-84 | the survivors are the entries whose security does not occur behind the cursor, and the cursor only moves forward from where it was |
| ResetFilter.AgreeSinceKept | src/cme/market/recovery_manager.cc:76-83 | behind the snapshot of a security, two joiners of a side that start from anything agree after every entry since the last reset that gets through, if and only if there is such a reset or they started equal, and each filtered reset since then finds the side empty |
| ResetFilter.AgreeThroughout | src/cme/market/recovery_manager.cc:76-83 | from equal sides they agree after every entry if and only if each filtered reset finds the side empty |
| ResetFilter.NewIsApplied | src/cme/market/recovery_manager.cc:76-83 | without filtered resets a security misses nothing behind its snapshot |
| ResetFilter.OnlyCountingCounts | src/cme/market/recovery_manager.cc:76-83 | what counts for a late joiner are the entries behind the last reset that gets through, without the filtered ones |
| ResetFilter.CoveredIsFrozen | src/cme/market/recovery_manager.cc:76-83 | up to its snapshot number only a reset that gets through can touch a security with snapshot entries |
| ResetFilter.ResetsSurvive | src/cme/market/recovery_manager.cc:76-83 | no reset gets through if and only if all of them are filtered |
| LateJoin.LateEqualsEarly | src/cme/market/dat_saver.cc:71-154 | from its snapshot number on, the book of a security is after every entry since the last reset that gets through the one an early joiner has, if and only if overlap and later filtered resets are safe for both sides |
| LateJoin.ResetConditionIsExact | src/cme/market/recovery_manager.cc:62-84 | at the snapshot number the two books are equal if and only if the overlap is safe: with snapshot entries, all its resets are filtered or the side is shown empty; without, the entries that count lead from empty to empty |
| LateJoin.AgreeAtSnapshot | src/cme/market/recovery_manager.cc:62-84 | the same for one side |
| LateJoin.EmptyIsReached | src/cme/market/recovery_manager.cc:76-83 | a security without snapshot entries ends up empty for both joiners at the snapshot number, if no reset comes behind the last one of the overlap that gets through |
| LateJoin.FilteredResetMisleads | src/cme/market/recovery_manager.cc:76-83 | a snapshot and an overlap whose only reset is filtered, on which a security without snapshot entries keeps a row that the reset removed |
| LateJoin.FilteredResetKeepsRows | src/cme/market/recovery_manager.cc:76-83 | a snapshot, a channel and a later reset on which the late joiner keeps a row that the reset removed |
| LateJoin.MissedExactly | src/cme/market/dat_saver.cc:36-41 | a late joiner who goes straight from the snapshot to later entries agrees since the last reset that gets through if and only if there is one or the missed entries led back to the snapshot, and filtered resets find the sides empty |
| EndToEnd.ConsumedIsMerged | src/cme/market/book_manager.cc:45-53 | filtering message by message is filtering entry by entry |
| EndToEnd.ListedBookIsRebuilt | src/cme/market/recovery_manager.cc:43-54 | snapshot entries that list the rows of a book by ascending level rebuild the whole book |
| EndToEnd.SplitListingIsRebuilt | src/cme/market/recovery_manager.cc:28-54 | the same for a snapshot that is split into messages in any way |
| EndToEnd.OneCursorSuffices | src/cme/market/recovery_manager.cc:70-74 | over every interleaving, one cursor that only moves forward finds at each delivered message the place that a search from the beginning finds, and stays there after a message with entries |
| EndToEnd.LateConsumerAgrees | src/cme/market/dat_saver.cc:138-154 | a consumer handed packets first..n and any later ones has the book of one handed packets from 1 on, under the exact condition of `LateJoin.LateEqualsEarly` |
| EndToEnd.LateJoinerHasTheBook | src/cme/market/dat_saver.cc:22-60 | end to end: in every reachable state of the receiving side, once packets up to the snapshot number were delivered and under that condition on what was delivered, the late joiner has the book that every increment from packet 1 on leads to |
| EndToEnd.LateStartExactly | src/cme/market/dat_saver.cc:36-41 | with a first packet later than the one after a snapshot that lists the book, the late joiner agrees with an early one after every further entry since the last reset that gets through, if and only if there is one or the missed packets left the sides as they were, and filtered resets find them empty |
| EndToEnd.LateStartHasTheBook | src/cme/market/dat_saver.cc:138-154 | the same for the messages handed over |
| EndToEnd.StartingTooLateFails | src/cme/market/dat_saver.cc:36-41 | for any such first packet there is a channel on which the late joiner stays wrong, however much it is handed |
| Publication.SuppressionIsSound | src/cme/market/book_manager.cc:236-254 | an accepted entry for which no best bid and offer is sent leaves level 1 of both sides unchanged |
| Publication.QuietEvent | src/cme/market/book_manager.cc:67-95 | an event that cannot move the top neither moves it nor sends a quote |
| Publication.MovingEvent | src/cme/market/book_manager.cc:116-161 | an event that may move the top sends the new top, or nothing if both sides are empty |
| Publication.LastQuoteTracksTop | src/cme/market/book_manager.cc:67-161 | over any run with resets and definitions, the last quote is the current top if the last event that may have moved the top left a side non-empty |
| Publication.StaleExactlyWhenEmptied | src/cme/market/book_manager.cc:121-124 | the last quote is stale exactly when the last moving event emptied the book after a non-blank quote |
| BookManagement.HandleRunsBooks | src/cme/market/book_manager.cc:57-64 | whatever is sent, entries change the books as the level specification says |
| BookManagement.LogShowsQuotes | src/cme/market/book_manager.cc:57-64 | the log shows under a symbol exactly the quotes of its security |
| BookManagement.LoggedQuoteIsTop | src/cme/market/book_manager.cc:57-64 | for entries alone: the last quote in the manager's log under a symbol is the current top of its security, if the last moving entry left a side non-empty |
| ConsumerQuotes.ConsumedQuoteIsTop | src/cme/market/book_manager.cc:41-65 | after any messages, definitions among them, the last quote under the symbol of a security is its current top if the last event that may have moved it left a side non-empty; without such an event neither has changed |
| ConsumerQuotes.SnapshotQuoteIsTop | src/cme/market/book_manager.cc:192-198 | after a snapshot was replayed and published, the last quote of every security that it changed and that has rows is its top |
| ConsumerQuotes.LateQuoteIsTop | src/cme/market/dat_saver.cc:22-60 | both together, for a late joiner |
| ListenerLog.AnnouncedSays | src/cme/market/book_manager.cc:80-90 | what an entry makes the manager send under a symbol: nothing unless it is an accepted entry of that security; else its level 2, bids under bids and asks under offers, each with price and size, and best prices if and only if it can reach level 1 and a side has rows |
| ListenerLog.LogSaysAll | src/cme/market/book_manager.cc:57-64 | over any run of entries and definitions the log under a symbol grows by exactly that, event by event, in order |
| ListenerLog.LastL2ShowsLanding | src/cme/market/book_manager.cc:97-114 | over any run the last level-2 message under a symbol shows the book right after the last accepted entry |
| ListenerLog.LastL2IsCurrent | src/cme/market/book_manager.cc:97-114 | it shows the current book if an accepted entry was the last event that changed the security |
| ListenerRuns.TradesAreTold | src/cme/market/book_manager.cc:163-181 | over any run exactly the trades of defined securities that are no deletions are sent, in order, each with its price and size under the symbol it was last defined with |
| ListenerRuns.DefinitionsAreTold | src/cme/market/definition_manager.cc:64-72 | over any run the symbol of every definition that is no removal is sent, in order |
| ListenerRuns.ConsumerKnowsLast | src/cme/market/book_manager.cc:183-190 | after any messages, symbol and depth of a security are those of its last definition, and a removed one is forgotten by name |
| ListenerRuns.TouchedExactly | src/cme/market/recovery_manager.cc:43-54 | a replayed snapshot reports exactly the securities that have an entry at a level inside their depth |
| ListenerRuns.ChangedIsTouched | src/cme/market/recovery_manager.cc:43-54 | and, for any entries without a reset, every security whose book is another one afterwards |
| ListenerRuns.SnapshotIsTold | src/cme/market/recovery_manager.cc:56-59 | each such security is published once: level 2, and best prices if it has rows; no other one is |
| ListenerRuns.LateJoinerTells | src/cme/market/dat_saver.cc:22-60 | under a symbol a late joiner sends the book of the snapshot and then exactly what each consumed event says |
| ListenerRuns.LateL2IsCurrent | src/cme/market/dat_saver.cc:22-60 | its last level-2 message shows the current book, as long as no reset and no definition came behind the last accepted entry |
| BookManagement.BookManager.Send | src/cme/market/book_manager.cc:67-95 | what goes out for each reported flag, deletions of trades excluded |
| BookManagement.BookManager.SendBestPrices | src/cme/market/book_manager.cc:116-161 | best bid and offer, one side alone, or nothing |
| BookManagement.BookManager.HandleBook | src/cme/market/book_manager.cc:57-64 | effect of one entry on books and log |
| BookManagement.BookManager.ParseToSend | src/cme/market/book_manager.cc:41-65 | effect of one message: uncovered entries in order, or definitions |
| BookManagement.BookManager.OnDefinition | src/cme/market/definition_manager.cc:47-73 | a definition is stored, published and given to the controller; a removal is only forgotten |
| BookManagement.BookManager.ParseRecovery | src/cme/market/book_manager.cc:192-198 | the snapshot is replayed and each changed security is published once |
| Saver.ConsumeIsRunBooks | src/cme/market/dat_saver.cc:138-154 | without definitions among the messages, the books the consumer ends with are those of the late-join theorems |
| Saver.ConsumerHasTheBook | src/cme/market/dat_saver.cc:22-60 | the end-to-end theorem for what the consumer's code does with the delivered messages |
| Saver.StarterHasTheBook | src/cme/market/dat_saver.cc:71-106 | the same from the data the consumer starts with: definitions and snapshot messages, split and published in any way |
| Saver.TakeableIsPrefix | src/cme/market/dat_saver.cc:42-59 | what a consumer takes before it waits is the longest prefix of the buffer that lies below every hole |
| Saver.DrainTakesDeliverable | src/cme/market/dat_saver.cc:42-59 | in every reachable state without a picked message, what a consumer takes before it waits is everything that is deliverable and was not handed over yet |
| Saver.DatSaver.ProcessRecoveryData | src/cme/market/dat_saver.cc:71-106 | definitions, then the snapshot; the first snapshot message sets the number up to which increments are dropped |
| Saver.DatSaver.ConvertMessage | src/cme/market/dat_saver.cc:138-154 | drops a message that the first snapshot message includes, converts any other |
| Saver.DatSaver.Drain | src/cme/market/dat_saver.cc:42-59 | every message below the first hole is consumed once, in order, and removed |
| Saver.DatSaver.StartSave | src/cme/market/dat_saver.cc:22-60 | number 0 stops, number 1 needs no snapshot, any other number starts from it |
| SnapshotAssembly.RunExists | src/cme/market/recovery_saver.cc:30-37 | every list of received packets has a run: the last packet 1 and, greedily, each next number modulo 2^32 |
| SnapshotAssembly.AssembledIsRun | src/cme/market/recovery_saver.cc:25-74 | over any received packets what is saved is the concatenation of the run, the current number is its length modulo 2^32, the total is the one its packet 1 declared |
| SnapshotAssembly.AssembledAtPick | src/cme/market/recovery_saver.cc:25-74 | the same at every moment between two picks |
| SnapshotCycles.RestartForgets | src/cme/market/recovery_saver.cc:59-68 | packet 1 makes the assembly forget everything received before it |
| SnapshotCycles.FollowsExactly | src/cme/market/recovery_saver.cc:25-74 | whatever was received, what is saved is the beginning of a cycle after every pick if and only if every picked packet has the messages of that cycle |
| SnapshotCycles.CalledExactlyAtEnd | src/cme/market/recovery_saver.cc:37-44 | then the callback is called for a picked packet exactly from the last packet of the cycle on, with the whole snapshot saved |
| SnapshotCycles.NotCalledBetween | src/cme/market/recovery_saver.cc:30-35 | between two picks nothing is accepted and the callback is not called |
| SnapshotCycles.SavedIsPrefix | src/cme/market/recovery_saver.cc:25-74 | whatever was received before the last packet 1, and whatever arrives of a cycle from it on, what is saved is a prefix of the cycle |
| SnapshotCycles.CompleteExactlyAtEnd | src/cme/market/recovery_saver.cc:73-73 | then the message count reaches the declared total exactly when the whole snapshot is there |
| SnapshotCycles.CyclesCanMix | src/cme/market/recovery_saver.cc:30-35 | for cycles of any length, a change after packet k joins both; the callback is called exactly when the new rest is at least as long, and the result is the old snapshot exactly when the rests are the same |
| SnapshotAssembly.RecoverySaver.ProcessRecoveryPacket | src/cme/market/recovery_saver.cc:25-45 | each call is one received packet; the callback is called exactly when the packet was accepted and the count reached the total |
| SnapshotAssembly.RecoverySaver.SavePacket | src/cme/market/recovery_saver.cc:55-74 | packet 1 clears the messages and sets the total; every packet appends its messages |
| SnapshotAssembly.RecoverySaver.SavedIsRun | src/cme/market/recovery_saver.cc:47-52 | the saved messages are those of the run of everything received |
| Replayer.DeframeInvertsFrame | src/cme/market/dat_replayer.cc:88-125 | cutting a concatenation of length-prefixed packets hands over exactly the packets before the first logout that are no heartbeats, in order, never reads behind the buffer, and ignores what follows a logout |
| Replayer.CutFrameOverruns | src/cme/market/dat_replayer.cc:99-114 | of a buffer that ends inside a frame everything before it is handed over, and the code reads behind the buffer exactly unless that frame shows a complete header of a heartbeat or a logout |
| Replayer.HeadOfFrame | src/cme/market/dat_replayer.cc:101-102 | length and template id of a frame are read where the sender put them |
| Replayer.OnePacket | src/cme/market/dat_replayer.cc:99-124 | byte by byte: a frame whose packet has template 16 ends the cutting, one with template 12 is passed, any other packet is handed over without its length, and the rest is cut as if it stood alone |
| Replayer.DatReplayer.OnRecoveryData | src/cme/market/dat_replayer.cc:88-125 | for every buffer the loop terminates, hands over what `Deframe` yields, asks for one more receive per passed frame, stops the connection exactly at a logout, and tells where it would read behind the buffer |
| Decimal.Itoa | src/ctp/exchange/ctp_trader_spi.cc:1032-1064 | the buffer holds the usual notation and a terminator for every 32-bit number, the lowest included, in any radix from 2 to 36, and nothing behind it changes |
| Decimal.QuotientIsDivision | src/ctp/exchange/ctp_trader_spi.cc:1046-1047 | repeated subtraction gives the quotient and remainder that the loop computes |
| Decimal.WriteDigits | src/ctp/exchange/ctp_trader_spi.cc:1045-1053 | the digit loop writes the digits in reverse |
| Decimal.ReverseInPlace | src/ctp/exchange/ctp_trader_spi.cc:1055-1062 | the swap loop reverses exactly the digits |
| Decimal.AtoiInvertsItoa | src/ctp/exchange/ctp_trader_spi.cc:538-544 | reading back what was written gives the number, whatever follows the terminator |
| Decimal.DigitsDenote | src/ctp/exchange/ctp_trader_spi.cc:1045-1053 | in every radix from 2 to 36 the digits denote the number, each is below the radix, and there is no leading zero |
| Decimal.AtoiReads | src/ctp/exchange/ctp_trader_spi.cc:279-279 | the C library's reading: white space, sign, digits up to the first other character |
| Decimal.TextFits | src/ctp/exchange/ctp_trader_spi.cc:64-64 | every 32-bit number and its terminator fit an order reference |
| OrderRefs.IndexHoldsLast | src/ctp/exchange/ctp_trader_spi.cc:64-66 | over any run the index files under each reference the id of the last order that got it |
| OrderRefs.CallbacksRightExactly | src/ctp/exchange/ctp_trader_spi.cc:538-545 | over any run all callbacks report their own order if and only if no reference was given to two orders with different ids |
| OrderRefs.ReferencesClimb | src/ctp/exchange/ctp_trader_spi.cc:279-280 | references strictly climb unless a login sets the counter back |
| OrderRefs.ReferencesInARow | src/ctp/exchange/ctp_trader_spi.cc:64-66 | orders placed between two logins get consecutive references, each filed under its own id |
| OrderRefs.LoginContinues | src/ctp/exchange/ctp_trader_spi.cc:279-280 | after a login they begin one above the number that the exchange reports |
| OrderRefs.CorrelationHolds | src/ctp/exchange/ctp_trader_spi.cc:186-204 | then callbacks report their own order and the search finds the first order placed with an id |
| OrderRefs.CancelFindsOwnExactly | src/ctp/exchange/ctp_trader_spi.cc:186-204 | then a cancel finds its order if and only if no earlier order had the same client id |
| OrderRefs.ReloginConfuses | src/ctp/exchange/ctp_trader_spi.cc:276-282 | a run in which the callback on an old order reports a new one |
| OrderRefs.ForeignIsUnambiguous | src/ctp/exchange/ctp_trader_spi.cc:538-542 | the reported id of a foreign order tells its reference and system id, in this order, if references have no bar in them |
| OrderRefs.CtpTraderSpi.ReqOrderInsert | src/ctp/exchange/ctp_trader_spi.cc:56-66 | the order goes out under the text of the reference it is filed under, and the counter moves on |
| OrderRefs.CtpTraderSpi.FindRef | src/ctp/exchange/ctp_trader_spi.cc:187-196 | the lowest reference under which an id is filed, or none |
| OrderRefs.CtpTraderSpi.ReqOrderAction | src/ctp/exchange/ctp_trader_spi.cc:186-208 | a cancel goes out under the found reference or not at all |
| OrderRefs.CtpTraderSpi.OnOrder | src/ctp/exchange/ctp_trader_spi.cc:538-547 | the filed id, or reference, bar and system id of a foreign order |
| OrderRefs.CtpTraderSpi.OnRspUserLogin | src/ctp/exchange/ctp_trader_spi.cc:276-287 | a successful login sets the counter one above the number the exchange reports |
| Volume.VolumeIsConserved | src/femas/market/femas_book_manager.cc:292-333 | for any interleaving of instruments the sizes sold of one of them add up to at least last minus first over its sessions, and to exactly that if and only if its volume never falls inside a session |
| Volume.SoldIsAdded | src/femas/market/femas_book_manager.cc:312-333 | record by record, also where volume falls: the sizes sold of an instrument add up to the rises between its records in a row, beginnings of a night session left out |
| Volume.SessionsAreCut | src/femas/market/femas_book_manager.cc:292-305 | the sessions of an instrument are its records in order, cut exactly where the hour goes from below 18 to above 18 |
| Volume.RemembersOwnLast | src/femas/market/femas_book_manager.cc:315-330 | what is remembered of an instrument is its last record |
| Volume.SalesArePositive | src/femas/market/femas_book_manager.cc:269-278 | every reported size is positive |
| Volume.FemasBookManager.MakePriceVolume | src/femas/market/femas_book_manager.cc:312-333 | the size is the rise since the last record, 0 for a first record, a new session or a fall |
| Volume.FemasBookManager.CheckTime | src/femas/market/femas_book_manager.cc:292-305 | the count is rebased exactly when the night session begins |
| Volume.FemasBookManager.SendTrade | src/femas/market/femas_book_manager.cc:266-278 | a trade is reported exactly for a positive size |

## Left out

- Sockets, asio, ZeroMQ, MongoDB, JSON, protobuf and logging: I/O. Sent messages are an append-only log; the archive of raw messages (`Send_message`) is not modelled.
- Shutdown, joins and wake-ups: thread-library behaviour. Waiting is modelled as a step that is not enabled.
- SBE parsing, the split of a packet into messages, and `Get_price`: abstract.
- Processing.DatProcessor.StartTcpReplay: records the request; the error callback for a missing replayer is not modelled.
- Processing.DatProcessor.ProcessFeedData: states what an uninterrupted call does; interleavings of its parts are `Feed.Step`.
- IncrementData.CmeData.PickNextMessage: one round of the waiting loop. The ordered multiset is an ordered sequence and an iterator is a position.
- Saver.DatSaver.Drain: runs without concurrent insertions and returns where the code would wait; insertions in between are steps of `Feed`.
- Saver.DatSaver.ProcessRecoveryData: takes any non-empty list of snapshot messages, complete or not; that the list grows or restarts while it is read is not modelled, and the end-to-end theorem needs the entries of the security to be complete.
- ConsumerQuotes.ConsumedQuoteIsTop: the symbol must belong to one security throughout; quotes under a symbol that two securities share, or that was given away, are not told apart.
- BookManagement.BookManager.ParseRecovery: the order in which changed securities are published is left open, as the code orders them by address.
- LateJoin.LateEqualsEarly: books under fixed definitions; definitions in the stream change books as `BookRuns` says but are not part of the comparison.
- Status messages (type 'f') and implied entries: they do not reach the books.
- Replayer.DatReplayer.OnRecoveryData: one received buffer. What the code does after reading behind it is undefined in C++ and ends the model's loop; calls that the re-armed receives cause later are not modelled.
- OrderRefs.CtpTraderSpi.ReqOrderInsert: allocation and filing only; the other fields of the order are copied and the command queue is I/O. Incrementing past the highest 32-bit number is undefined in C++ and excluded.
- OrderRefs.CtpTraderSpi.OnOrder: the lookup; the same lookup in the other callbacks is not repeated.
- Volume.FemasBookManager.SendTrade: the hour of a record is given as a number; price and time of a trade, quotes and turnover are copied fields. The CTP and REM copies of this code are not repeated.
- QuickFIX sessions, `OrderManager`, vendor API wrappers, enum conversions, settings and main programs: field copying around libraries.
