# RFID tag logging, tracking and subscriptions

A Dafny model of the parts of an RFID toolkit that decide which tag events a subscriber gets, and
proofs of what they promise.

- **The cyclic log** (`Ring`, `CyclicLogSpec`, `CyclicLog`, `LockRuns`, `CyclicLogReaderSpec`,
  `CyclicLogReader`, `Feed`). One writer overwrites the oldest of a fixed number of records. A reader
  searches the possibly wrapped window by halving it, then pulls records in order. A lock on the region
  not read yet makes the writer wait. The log is described as a value (file, position, chain of locks)
  and as objects whose methods are proved against it. Whole runs interleave the atomic steps of reader
  and writer; during a search the writer is let in wherever the source does not hold the monitor, with
  an arbitrary `writer(k)` at its k-th turn. A write that has to wait is a step that changes nothing.
- **The tag log and the handover** (`TagLog`, `LogRfTarget`, `Handover`, `HandoverTurns`, `LogConsumer`). Events get
  increasing numbers. A subscriber is first sent the logged events from a given number on, and then the
  live ones, while events keep arriving and several dispatches may be under way. `Handover` interleaves the
  atomic steps of writer, sender and dispatches; `HandoverTurns` and `LogConsumer` show that the turns of
  the sending loop are such steps.
- **The tracker** (`RfTracker`, `DefaultRfTracker`). Reads become appearance and disappearance events by
  way of a cache with timeouts.
- **Subscriptions and services** (`SubscriptionSpec`, `MsgSubscriptions`, `ServiceSpec`, `ServiceOrder`,
  `MsgService`). Linked handles, hooks of the first and the last subscription, and nested subscriptions that are
  revoked with a service handle.
- **Codecs** (`IntSet`, `IntSetText`, `Crc8`, `ByteBuffers`, `RfTagAppearanceRecord`, `ClrProfileId`).
- **The status filter** (`RfSourceListener`).

A file is the sequence of the records in its slots, so its size in bytes is their number times the
record size; positions are byte offsets, computed with the source's formulas. Masks are unsigned numbers
and bytes are numbers from 0 to 255, with Java's signs written out where they matter. `moved` tells where
a filter leaves the channel. A handle's number stands for the handle and its consumer in records of
callbacks.

## Where the code does less than it seems to promise

Each of these is proved as an exact condition over all inputs or runs, with a concrete case that fails.

- Releasing the newest of several locks makes the log forget the others (`LockRuns.UnlockExact`; it fails in
  `LockRuns.NewestReleaseForgets`).
- Merged bounds of a wrapping and another lock do not always cover both (`CyclicLogSpec.MergeExact`;
  `CyclicLogSpec.MergeLoses`).
- `lock()` leaves out the oldest record when a wrapped log's next slot is the last one
  (`CyclicLogSpec.WholeRegionIsWindow`; `CyclicLogSpec.WindowLosesOldest`).
- After a search that found nothing, if something was written since its last lock, the reader is not
  exhausted and its consumer never lets live events through. For the search itself the condition is
  `KeptOut`, in terms of the writer's attempts (`CyclicLogReaders.CyclicLogReader.Seek`,
  `LogConsumers.LogConsumer.RequestMessages`; `CyclicLogReaders.OneWriteGetsIn`), and for all that follows
  it is `Handover.NotFoundExact` (`Handover.SilentSubscriber`).
- The tracker may report a visible tag as appeared again (`RfTrackerSpec.StepEvents`;
  `RfTrackerSpec.RedundantAppearance`). Its documentation also names "not read during this transaction" as a
  condition of removal; the code looks at ages only (`RfTrackerSpec.DisappearanceExact`). With an
  invalidation timeout of 0 the bound on the age is reached (`RfTrackerSpec.BoundedDetection`;
  `RfTrackerSpec.BoundReached`).
- The member 31 of an integer set is never printed (`IntSetText.PrintParses`; `IntSetText.LastMemberLost`).
- A log record keeps the antennas 0..15 only (`RfTagAppearanceRecords.RoundTrip`;
  `RfTagAppearanceRecords.AntennaLost`).
- Escaped profile identifiers are not always restored (`ClrProfileIds.RecodedExact`;
  `ClrProfileIds.EncodingNotInjective`), although the documentation of the parser says that it
  reconstructs them.
- A nested subscription made through a revoked service handle is not revoked at a stop
  (`ServiceSpec.OutlivesExact`; `ServiceSpec.LateRegistrationOutlives`).
- A repeated error is reported again after it went away while no reader was known to be ready
  (`RfSourceListeners.RepeatExact`; `RfSourceListeners.ErrorRepeated`).

## Model

| member | source | states |
|---|---|---|
| CyclicLogSpec.MergeExact | ru.aplix.ltk.driver.log/src/ru/aplix/ltk/driver/log/CyclicLogLock.java:44-63 | Merging two linear lock bounds covers both; if one of them wraps, both are covered exactly when neither starts before the end of a wrapping other one |
| CyclicLogSpec.MergeLoses | ru.aplix.ltk.driver.log/src/ru/aplix/ltk/driver/log/CyclicLogLock.java:44-63 | Merging a lock on the last record and the first with one on the first alone loses the last record |
| CyclicLogSpec.MergeHolds | ru.aplix.ltk.driver.log/src/ru/aplix/ltk/driver/log/CyclicLogLock.java:44-63 | Which bytes the merged bounds of any two locks protect: from the first start to the last end of two linear ones; to the end of the wrapping one, or to the later of two, if one wraps, around the end of the file if the first start is not before it |
| CyclicLogSpec.MergeIsHull | ru.aplix.ltk.driver.log/src/ru/aplix/ltk/driver/log/CyclicLogLock.java:44-63 | A merge with a wrapping lock that covers both protects nothing but the bytes behind one of the starts or before the end of a wrapping lock |
| CyclicLogSpec.LinearChainCovered | ru.aplix.ltk.driver.log/src/ru/aplix/ltk/driver/log/CyclicLogLock.java:32-42 | The bounds of any chain of linear locks are linear and cover every lock of the chain |
| CyclicLogSpec.LinearChainBounds | ru.aplix.ltk.driver.log/src/ru/aplix/ltk/driver/log/CyclicLogLock.java:32-42 | The bounds of any chain of linear locks start where the first one starts and end where the last one ends |
| CyclicLogSpec.LinearChainHolds | ru.aplix.ltk.driver.log/src/ru/aplix/ltk/driver/log/CyclicLogLock.java:32-42 | A byte is protected by those bounds exactly if some lock starts at or before it and some lock ends behind it |
| CyclicLogSpec.GuardIsDisjointness | ru.aplix.ltk.driver.log/src/ru/aplix/ltk/driver/log/CyclicLog.java:198-210 | The comparison the writer waits for is true exactly when no byte of the record to be written is protected |
| CyclicLogSpec.GuardIsLogical | ru.aplix.ltk.driver.log/src/ru/aplix/ltk/driver/log/CyclicLog.java:192-217 | For linear, wrapped and full-ring locks alike, the byte comparison is true exactly when fewer than maxRecords records were written since the oldest protected one |
| CyclicLogSpec.WriteAppends | ru.aplix.ltk.driver.log/src/ru/aplix/ltk/driver/log/CyclicLog.java:68-77 | A write appends to the history; the file keeps the newest maxRecords records, each in its own slot, and the position is that of the next record |
| CyclicLogSpec.WholeRegionIsWindow | ru.aplix.ltk.driver.log/src/ru/aplix/ltk/driver/log/CyclicLog.java:104-113 | The region of lock() is the newest records: all of them, or one less than fit when the log has wrapped and its next slot is the last one |
| CyclicLogSpec.WindowLosesOldest | ru.aplix.ltk.driver.log/src/ru/aplix/ltk/driver/log/CyclicLog.java:104-113 | In a log of two slots and three records, the region of lock() leaves out the second record, which is still in the file |
| CyclicLogs.CyclicLogLock.constructor | ru.aplix.ltk.driver.log/src/ru/aplix/ltk/driver/log/CyclicLogLock.java:11-18 | A new lock is linked behind the newest one and changes nothing else of it |
| CyclicLogs.CyclicLogLock.EvalBounds | ru.aplix.ltk.driver.log/src/ru/aplix/ltk/driver/log/CyclicLogLock.java:32-42 | The recursion along the chain computes the merged bounds of all its locks, oldest first |
| CyclicLogs.CyclicLogLock.UpdateBounds | ru.aplix.ltk.driver.log/src/ru/aplix/ltk/driver/log/CyclicLogLock.java:44-63 | The array is changed in place to the merge of its bounds with this lock (which bytes it protects: MergeHolds) |
| CyclicLogs.CyclicLogLock.Remove | ru.aplix.ltk.driver.log/src/ru/aplix/ltk/driver/log/CyclicLogLock.java:76-90 | Unlinking leaves a well-formed chain of the other locks in the same order and returns the successor |
| CyclicLogs.CyclicLog.constructor | ru.aplix.ltk.driver.log/src/ru/aplix/ltk/driver/log/CyclicLog.java:24-172 | Opening empties the log if no position is stored, cuts the file to its maximum if the position stored is beyond that, and otherwise keeps it; the log starts at the stored position if that lies in the file and below the maximum, at 0 if not |
| CyclicLogs.CyclicLog.TryWrite | ru.aplix.ltk.driver.log/src/ru/aplix/ltk/driver/log/CyclicLog.java:68-77 | A write happens exactly when the guard is true, puts the record into its slot, moves and stores the position; otherwise nothing changes |
| CyclicLogs.CyclicLog.LockAll | ru.aplix.ltk.driver.log/src/ru/aplix/ltk/driver/log/CyclicLog.java:104-113 | The lock taken has the region of the whole window and becomes the newest of the chain |
| CyclicLogs.CyclicLog.LockRegion | ru.aplix.ltk.driver.log/src/ru/aplix/ltk/driver/log/CyclicLog.java:115-131 | The new lock joins the chain, and the cached bounds become the merge of the old ones with it |
| CyclicLogs.CyclicLog.Unlock | ru.aplix.ltk.driver.log/src/ru/aplix/ltk/driver/log/CyclicLog.java:133-151 | The lock leaves the chain and the cached bounds are those of what the log still knows: nothing when it was the newest lock |
| CyclicLogs.CyclicLog.UnlockForgotten | ru.aplix.ltk.driver.log/src/ru/aplix/ltk/driver/log/CyclicLog.java:133-151 | Releasing a lock the log has forgotten keeps the log and its chain as they are |
| LockRuns.UnlockExact | ru.aplix.ltk.driver.log/src/ru/aplix/ltk/driver/log/CyclicLog.java:133-151 | Releasing a lock keeps all other held locks known to the log exactly if it is not the newest one, or the only one |
| LockRuns.CachedBoundsAgree | ru.aplix.ltk.driver.log/src/ru/aplix/ltk/driver/log/CyclicLog.java:115-151 | After any sequence of locks, unlocks and writes the cached bounds equal the recomputed ones; with the unlocks that UnlockExact allows, the chain consists of exactly the held locks |
| LockRuns.LinearLocksAreSafe | ru.aplix.ltk.driver.log/src/ru/aplix/ltk/driver/log/CyclicLog.java:115-217 | After any such run of linear locks, the writer is let in only where no held lock protects a byte of the record |
| LockRuns.LinearLocksLetIn | ru.aplix.ltk.driver.log/src/ru/aplix/ltk/driver/log/CyclicLog.java:115-217 | After any such run the writer is let in exactly if its record ends at or before the start of every held lock, or begins at or after the end of every one |
| LockRuns.NewestReleaseForgets | ru.aplix.ltk.driver.log/src/ru/aplix/ltk/driver/log/CyclicLog.java:135-139 | Two writes, two locks of everything and a third write make the writer wait; releasing the newest lock lets it into bytes the older one still protects |
| CyclicLogReaderSpec.WriteUnderLock | ru.aplix.ltk.driver.log/src/ru/aplix/ltk/driver/log/CyclicLog.java:68-77 | Under the reader's lock a write happens exactly when the log is less than a full turn ahead, and the protected records survive |
| CyclicLogReaderSpec.CheckIsExact | ru.aplix.ltk.driver.log/src/ru/aplix/ltk/driver/log/CyclicLogReader.java:166-178 | The check after reading signals exhaustion exactly when the record returned is the newest; otherwise the lock moves on to the next record |
| CyclicLogReaderSpec.UnreadCount | ru.aplix.ltk.driver.log/src/ru/aplix/ltk/driver/log/CyclicLogReader.java:106-118 | While the reader holds its lock, between 1 and maxRecords records are unread, and the writer waits exactly when it is maxRecords |
| CyclicLogReaderSpec.WholeRun | ru.aplix.ltk.driver.log/src/ru/aplix/ltk/driver/log/CyclicLogReader.java:106-178 | From a successful seek, over every interleaving of writes and the two steps of a pull: pulls return the records from the target on in write order without gap or repeat, the unread count keeps its bounds, and exhaustion is signalled once at most |
| CyclicLogReaderSpec.SignalIffCaughtUp | ru.aplix.ltk.driver.log/src/ru/aplix/ltk/driver/log/CyclicLogReader.java:166-178 | In every such run, a step signals exhaustion exactly when it returns the newest record of the log |
| CyclicLogReaders.MiddleIsHalfway | ru.aplix.ltk.driver.log/src/ru/aplix/ltk/driver/log/CyclicLogReader.java:185-216 | In a region from record a to record b, wrapped or not, the middle position is that of the record halfway between them |
| CyclicLogReaders.NextRecordIsNext | ru.aplix.ltk.driver.log/src/ru/aplix/ltk/driver/log/CyclicLogReader.java:132-151 | The next position is that of the next record, or -1 exactly at the end of the region |
| CyclicLogReaders.EqualIsTarget | ru.aplix.ltk.driver.log/src/ru/aplix/ltk/driver/log/CyclicLogReader.java:74-78 | A record the filter calls equal is the one searched for |
| CyclicLogReaders.GreaterNarrows | ru.aplix.ltk.driver.log/src/ru/aplix/ltk/driver/log/CyclicLogReader.java:79-81 | After a greater record the window ends at it, and the search is over if it was the first of the window |
| CyclicLogReaders.SmallerNarrows | ru.aplix.ltk.driver.log/src/ru/aplix/ltk/driver/log/CyclicLogReader.java:81-87 | After a smaller record the window starts behind it, or nothing is left of it and the outcome is settled |
| CyclicLogReaders.CyclicLogReader.Seek | ru.aplix.ltk.driver.log/src/ru/aplix/ltk/driver/log/CyclicLogReader.java:54-104 | On a sorted window, whatever the writer does meanwhile, the search ends, and no more is written than the writer attempted in its turns; it stops at a record that is not smaller, all earlier ones being smaller or equal like it, with the lock on the rest; or all are smaller, and then it signals exhaustion exactly if the writer was kept out after the last lock, a condition on the log's size and the writer's attempts only, and holds a lock on what got in if not |
| CyclicLogReaders.IdleWriterKeptOut | ru.aplix.ltk.driver.log/src/ru/aplix/ltk/driver/log/CyclicLogReader.java:54-104 | A writer that attempts nothing meets that condition: a search without success then exhausts the reader |
| CyclicLogReaders.OneWriteGetsIn | ru.aplix.ltk.driver.log/src/ru/aplix/ltk/driver/log/CyclicLogReader.java:160-164 | In a log of two slots with one record, one write during the search is enough to miss that condition |
| CyclicLogReaders.CyclicLogReader.Search | ru.aplix.ltk.driver.log/src/ru/aplix/ltk/driver/log/CyclicLogReader.java:60-94 | The halving loop ends, and never gives up the protection of a record that may still be the target |
| CyclicLogReaders.CyclicLogReader.Narrow | ru.aplix.ltk.driver.log/src/ru/aplix/ltk/driver/log/CyclicLogReader.java:74-93 | One comparison strictly shrinks the cyclic range, or settles the outcome |
| CyclicLogReaders.CyclicLogReader.FilterRecord | ru.aplix.ltk.driver.log/src/ru/aplix/ltk/driver/log/CyclicLogReader.java:71-72 | The filter is applied to the record at the middle even when writes happen before and after |
| CyclicLogReaders.CyclicLogReader.SeekFailed | ru.aplix.ltk.driver.log/src/ru/aplix/ltk/driver/log/CyclicLogReader.java:160-164 | After a search without success the reader is exhausted if nothing was written since its lock was taken, and keeps a lock on the new records if not |
| CyclicLogReaders.CyclicLogReader.SeekSucceeded | ru.aplix.ltk.driver.log/src/ru/aplix/ltk/driver/log/CyclicLogReader.java:100-103 | The lock and the channel position move to the target record |
| CyclicLogReaders.CyclicLogReader.Relock | ru.aplix.ltk.driver.log/src/ru/aplix/ltk/driver/log/CyclicLogReader.java:153-158 | The old lock is replaced by one from the given position to the write position |
| CyclicLogReaders.CyclicLogReader.CheckExhausted | ru.aplix.ltk.driver.log/src/ru/aplix/ltk/driver/log/CyclicLogReader.java:166-178 | At the write position the lock is dropped and the client told, elsewhere the lock moves |
| CyclicLogReaders.CyclicLogReader.ReadAt | ru.aplix.ltk.driver.log/src/ru/aplix/ltk/driver/log/CyclicLogReader.java:40-52 | Reading returns the record at the position and moves on, back to 0 at the end of the file |
| CyclicLogReaders.CyclicLogReader.Pull | ru.aplix.ltk.driver.log/src/ru/aplix/ltk/driver/log/CyclicLogReader.java:106-118 | A pull returns the next record although the writer is let in between reading and checking, and unlocks exactly at the newest record; without a lock it returns nothing |
| CyclicLogReaders.CyclicLogReader.Close | ru.aplix.ltk.driver.log/src/ru/aplix/ltk/driver/log/CyclicLogReader.java:120-130 | Closing releases the lock and leaves the log alone |
| Feeds.RingRefinesFeed | ru.aplix.ltk.driver.log/src/ru/aplix/ltk/driver/log/CyclicLogReader.java:40-178 | Ring, positions and locks behave, step by step, as a cursor in an ever growing history |
| TagLogs.WindowIsSortedSuffix | ru.aplix.ltk.driver.log/src/ru/aplix/ltk/driver/log/impl/TagLog.java:64-124 | After any run of logging, locking, unlocking and reopening on a new log, the region of lock() holds exactly the newest events, each in its slot, with increasing event ids |
| TagLogs.ReopenKeeps | ru.aplix.ltk.driver.log/src/ru/aplix/ltk/driver/log/impl/TagLog.java:109-116 | Closing and reopening with the same capacity loses nothing: same records, same position, and the next event id is greater than all logged ones |
| TagLogs.NumbersExact | ru.aplix.ltk.driver.log/src/ru/aplix/ltk/driver/log/impl/TagLog.java:64-124 | Over any run on a new log, reopenings included: a message is logged exactly if its kind is wanted, it fits and the writer need not wait, and its number is that of the event before it plus one plus the misfits in between since the latest reopening |
| TagLogs.NumbersAreGapless | ru.aplix.ltk.driver.log/src/ru/aplix/ltk/driver/log/impl/TagLog.java:64-124 | If every wanted message fits, the events of any run are numbered 1, 2, 3 and so on, whatever reopenings lie between |
| TagLogs.TagLog.LogMessage | ru.aplix.ltk.driver.log/src/ru/aplix/ltk/driver/log/impl/TagLog.java:64-92 | A message to be logged gets the next event id and is written, or waits; one that is not to be logged passes without an id; one that does not fit spends an id and is an error |
| TagLogs.TagLog.constructor | ru.aplix.ltk.driver.log/src/ru/aplix/ltk/driver/log/impl/TagLog.java:50-62 | Opening the three files, whatever their length, gives the same log, position and next event id as the reopening that the runs speak of; that id is the newest event's, so that logging goes on as NumbersExact says |
| Handover.NoEventLost | ru.aplix.ltk.driver.log/src/ru/aplix/ltk/driver/log/impl/LogConsumer.java:48-116 | In every reachable state every event from the seek target on was received, is in the sender's hand, is still ahead of the reader, or waits in a dispatch while live events pass through; at most two copies are received, and two only if the dispatch was under way when the reader was exhausted |
| Handover.AllReceivedAtRest | ru.aplix.ltk.driver.log/src/ru/aplix/ltk/driver/log/impl/LogConsumer.java:48-116 | Once the sender has ended and no dispatch is under way, every event from the target on was received once or twice |
| Handover.ReplayInOrder | ru.aplix.ltk.driver.log/src/ru/aplix/ltk/driver/log/impl/LogConsumer.java:98-116 | Until the log is exhausted the subscriber has received exactly the events from the target on, in log order |
| Handover.ReplayEnds | ru.aplix.ltk.driver.log/src/ru/aplix/ltk/driver/log/impl/LogConsumer.java:98-116 | With the writer at rest, one turn of the sender for each unread record delivers all of them and hands over to the live events |
| Handover.HandoverRunsOnRing | ru.aplix.ltk.driver.log/src/ru/aplix/ltk/driver/log/impl/LogConsumer.java:89-116 | Every run of the handover is a run of reader and writer on the ring, with the same history and cursor |
| Handover.OfferDelivers | ru.aplix.ltk.driver.log/src/ru/aplix/ltk/driver/log/impl/LogConsumer.java:48-53 | A live event is given to the subscriber exactly if live events pass through by then, once, and its dispatch is over; nothing else changes for the sender or another dispatch |
| Handover.NotFoundExact | ru.aplix.ltk.driver.log/src/ru/aplix/ltk/driver/log/impl/LogConsumer.java:89-96 | A search that finds nothing: every later event reaches the subscriber exactly if no event was written between the last lock of the search and its end; otherwise none ever does |
| Handover.FoundIsSought | ru.aplix.ltk.driver.log/src/ru/aplix/ltk/driver/log/impl/LogConsumer.java:89-96 | A search that ends with success, with any writes and dispatches under its last lock, leaves a state from which no event is lost |
| Handover.SilentSubscriber | ru.aplix.ltk.driver.log/src/ru/aplix/ltk/driver/log/impl/LogConsumer.java:89-96 | One event in a log of two records, a search for a later one, and one write under its lock: whatever happens afterwards, nothing is received |
| HandoverTurns.TurnFollows | ru.aplix.ltk.driver.log/src/ru/aplix/ltk/driver/log/impl/LogConsumer.java:98-116 | A pull on the ring with the writer let in between its halves, and the delivery of the event pulled, are the steps of one turn of the handover: same log, same cursor, same flags, and the event at the cursor is received |
| LogConsumers.LogConsumer.SendOne | ru.aplix.ltk.driver.log/src/ru/aplix/ltk/driver/log/impl/LogConsumer.java:98-116 | One turn of the loop delivers the next event of the log, and the loop goes on exactly while there are more |
| LogConsumers.LogConsumer.SendTurn | ru.aplix.ltk.driver.log/src/ru/aplix/ltk/driver/log/impl/LogConsumer.java:98-116 | The same turn, made by the method, as the steps SenderRead, the writes, SenderCheck and SenderDeliver of the handover |
| LogConsumers.LogConsumer.SendMessages | ru.aplix.ltk.driver.log/src/ru/aplix/ltk/driver/log/impl/LogConsumer.java:98-116 | The loop ends for every writer that makes finitely many writes, having sent exactly the events from the reader's position to the newest one, in order; its turns are a run of the handover, to which NoEventLost applies |
| LogConsumers.LogConsumer.RequestMessages | ru.aplix.ltk.driver.log/src/ru/aplix/ltk/driver/log/impl/LogConsumer.java:89-96 | The thread replays from the first logged event with the requested id or a higher one, as a run of the handover from the state Sought; if there is none, it sends nothing, and live events pass through exactly if nothing was written since the last lock of the search, that is, if the writer was kept out; in any case it releases its lock |
| LogRfTargets.LogRfTarget.LogTag | ru.aplix.ltk.driver.log/src/ru/aplix/ltk/driver/log/impl/LogRfTarget.java:173-186 | A message is logged before it is dispatched; if logging fails, it is dispatched as it came and then the error is reported |
| LogRfTargets.LogRfTarget.UpdateTagAppearance | ru.aplix.ltk.driver.log/src/ru/aplix/ltk/driver/log/impl/LogRfTarget.java:206-222 | Every registered tracker's subscriber is offered the event once |
| RfTrackerSpec.StepEvents | ru.aplix.ltk.core/src/ru/aplix/ltk/core/collector/DefaultRfTracker.java:122-200 | One message or timer tick: the events turn the old key set of the cache into the new one, only visible tags disappear, and an appearance repeats a visible tag exactly when the message that changes the transaction reads a tag that is obsolete then |
| RfTrackerSpec.CacheIsEventHistory | ru.aplix.ltk.core/src/ru/aplix/ltk/core/collector/DefaultRfTracker.java:122-200 | The same over every run of messages, ticks and stops: the listener's view equals the cache |
| RfTrackerSpec.RedundantAppearance | ru.aplix.ltk.core/src/ru/aplix/ltk/core/collector/DefaultRfTracker.java:132-170 | A message of a new transaction that reads a visible tag, too old by then, reports it as appeared again without a disappearance |
| RfTrackerSpec.ChecksAreExact | ru.aplix.ltk.core/src/ru/aplix/ltk/core/collector/DefaultRfTracker.java:261-294 | A message or tick that checks the cache reports as disappeared exactly the entries aged at least the timeout, and leaves none of that age; the message's own tag is spared by the check at a change of transaction; without a check nothing disappears |
| RfTrackerSpec.OpeningExact | ru.aplix.ltk.core/src/ru/aplix/ltk/core/collector/DefaultRfTracker.java:122-259 | Over every run, a transaction is running exactly if some message opened it, by the messages alone: one that found none running, ended one, had another id than the message that opened the running one, or came a timeout after that; the tracker keeps that message's id and time |
| RfTrackerSpec.ClockExact | ru.aplix.ltk.core/src/ru/aplix/ltk/core/collector/DefaultRfTracker.java:122-140 | Over every run, the local time difference is that of the message with the newest time, the earliest of several |
| RfTrackerSpec.RereadSums | ru.aplix.ltk.core/src/ru/aplix/ltk/core/collector/DefaultRfTracker.java:219-237 | One more read updates the latest time and the union of antennas, also when it is out of order |
| RfTrackerSpec.EntriesSumScans | ru.aplix.ltk.core/src/ru/aplix/ltk/core/collector/DefaultRfTracker.java:219-294 | Over every run, the time kept for a tag is the maximum, and its antennas the union, of all its reads since it last appeared |
| RfTrackerSpec.DisappearanceExact | ru.aplix.ltk.core/src/ru/aplix/ltk/core/collector/DefaultRfTracker.java:122-294 | Over every run, by the messages alone: a message or tick reports a tag that it does not read as disappeared exactly if it checks (it is a tick, ends the transaction, has another id than the opening message or comes a timeout after it), the listener takes the tag for visible, and the latest of its reads since it appeared is at least the timeout before the check; it is reported with the antennas of those reads; after the check no such tag is visible |
| RfTrackerSpec.AppearanceExact | ru.aplix.ltk.core/src/ru/aplix/ltk/core/collector/DefaultRfTracker.java:122-237 | Over every run, by the messages alone: a read is reported as an appearance, with its own antenna, exactly if the tag is not taken for visible, or if it changes the transaction and the tag's latest read is at least the timeout before |
| RfTrackerSpec.LatestIsMaximum | ru.aplix.ltk.core/src/ru/aplix/ltk/core/collector/DefaultRfTracker.java:228-234 | The latest time of some reads is their maximum |
| RfTrackerSpec.BoundedDetection | ru.aplix.ltk.core/src/ru/aplix/ltk/core/collector/DefaultRfTracker.java:185-259 | With a clock whose timer fires every transactionTimeout after a transaction start, no entry is ever older than invalidationTimeout + transactionTimeout, and only with invalidationTimeout 0 can it be just as old |
| RfTrackerSpec.BoundReached | ru.aplix.ltk.core/src/ru/aplix/ltk/core/collector/DefaultRfTracker.java:185-259 | With invalidationTimeout 0 and one message, the age reaches the transaction timeout when the timer is due |
| RfTrackers.FoldIsSeenAfter | ru.aplix.ltk.core/src/ru/aplix/ltk/core/collector/DefaultRfTracker.java:171-176 | In whatever order the map yields the disappearances, the listener ends up with the same view |
| RfTrackers.DefaultRfTracker.RfData | ru.aplix.ltk.core/src/ru/aplix/ltk/core/collector/DefaultRfTracker.java:122-177 | The message changes the state and reports at most one appearance before the disappearances, each tag once with its antennas (when a message changes the transaction: OpeningExact, DisappearanceExact) |
| RfTrackers.DefaultRfTracker.UpdateCache | ru.aplix.ltk.core/src/ru/aplix/ltk/core/collector/DefaultRfTracker.java:132-170 | The part inside the monitor computes the new state and what is to be reported |
| RfTrackers.DefaultRfTracker.Run | ru.aplix.ltk.core/src/ru/aplix/ltk/core/collector/DefaultRfTracker.java:184-200 | The timer's check uses the local time difference and reports every dropped tag once |
| RfTrackers.DefaultRfTracker.CacheTag | ru.aplix.ltk.core/src/ru/aplix/ltk/core/collector/DefaultRfTracker.java:219-237 | The put-then-correct sequence leaves the combined entry; only a tag that was not cached is new |
| RfTrackers.DefaultRfTracker.RemoveObsoleteTags | ru.aplix.ltk.core/src/ru/aplix/ltk/core/collector/DefaultRfTracker.java:261-294 | The removing iteration drops exactly the obsolete entries and returns them |
| RfTrackers.DefaultRfTracker.TagsDisappeared | ru.aplix.ltk.core/src/ru/aplix/ltk/core/collector/DefaultRfTracker.java:296-302 | Every dropped tag is reported once |
| SubscriptionSpec.RunSound | ru.aplix.ltk.message/src/ru/aplix/ltk/message/MsgSubscriptions.java:39-263 | Over any run of subscribe, unsubscribe (repeats included), unsubscribeAll and sendMessage: the list holds the live handles in order of subscription, each handle is called back in the order subscription, messages, at most one revocation, and the first and last hooks alternate |
| SubscriptionSpec.SendReachesLive | ru.aplix.ltk.message/src/ru/aplix/ltk/message/MsgSubscriptions.java:91-108 | A message reaches every live handle exactly once, in order of subscription, and no other |
| SubscriptionSpec.RemoveExact | ru.aplix.ltk.message/src/ru/aplix/ltk/message/MsgSubscriptions.java:241-263 | Removing a handle leaves the others in order |
| SubscriptionSpec.UnsubscribeAllSound | ru.aplix.ltk.message/src/ru/aplix/ltk/message/MsgSubscriptions.java:123-157 | After unsubscribeAll no handle is live and all revocations were told |
| SubscriptionSpec.UnsubscribeAllTells | ru.aplix.ltk.message/src/ru/aplix/ltk/message/MsgSubscriptions.java:123-157 | The live handles are told of their revocation in the order of subscription, the last one by the hook of the last revocation |
| MsgSubscriptionLists.MsgHandle.Remove | ru.aplix.ltk.message/src/ru/aplix/ltk/message/MsgHandle.java:96-115 | Unlinking a handle leaves a well-formed doubly linked list of the others, in order |
| MsgSubscriptionLists.MsgSubscriptions.Subscribe | ru.aplix.ltk.message/src/ru/aplix/ltk/message/MsgSubscriptions.java:39-59 | The new handle is last in a well-formed list and is told, by the first-subscription hook if the list was empty |
| MsgSubscriptionLists.MsgSubscriptions.Unsubscribe | ru.aplix.ltk.message/src/ru/aplix/ltk/message/MsgHandle.java:62-67 | Only the first call unlinks the handle and tells it; later ones change nothing |
| MsgSubscriptionLists.MsgSubscriptions.Unlink | ru.aplix.ltk.message/src/ru/aplix/ltk/message/MsgSubscriptions.java:247-253 | first, last and the links are those of the list without the handle |
| MsgSubscriptionLists.MsgSubscriptions.UnsubscribeAll | ru.aplix.ltk.message/src/ru/aplix/ltk/message/MsgSubscriptions.java:123-157 | The loop, which remembers the successor, revokes all handles in order |
| MsgSubscriptionLists.MsgSubscriptions.SendMessage | ru.aplix.ltk.message/src/ru/aplix/ltk/message/MsgSubscriptions.java:91-108 | The loop along the links gives the message to the live handles in order |
| ServiceSpec.LifecycleOverRuns | ru.aplix.ltk.message/src/ru/aplix/ltk/message/MsgService.java:102-140 | Over any run: starts and stops alternate beginning with a start, the service runs exactly while a service handle is live, and at every stop all nested handles registered through a handle that was live then are revoked, even if some had been revoked before |
| ServiceSpec.RunSound | ru.aplix.ltk.message/src/ru/aplix/ltk/message/MsgService.java:102-140 | The invariant behind it: the log tells exactly the live handles, and a live nested handle is registered with a live service handle |
| ServiceSpec.CascadeSound | ru.aplix.ltk.message/src/ru/aplix/ltk/message/MsgServiceHandle.java:80-95 | Revoking registered handles, some of them revoked before, leaves none of them live and no other state changed |
| ServiceOrder.ToldAfterNested | ru.aplix.ltk.message/src/ru/aplix/ltk/message/MsgService.java:127-138 | Over any run: when a service handle is told that it is revoked, no nested handle registered through it while it was live is open any more |
| ServiceOrder.CloseExact | ru.aplix.ltk.message/src/ru/aplix/ltk/message/MsgService.java:127-138 | Over any run: revoking a live service handle tells exactly its nested handles that are still live, in the order of their creation, then the handle itself, then the stop if it was the last one |
| ServiceOrder.CloseAllExact | ru.aplix.ltk.message/src/ru/aplix/ltk/message/MsgService.java:33-35 | Over any run: revoking all service handles tells each live one once, in the order of subscription |
| ServiceSpec.OutlivesExact | ru.aplix.ltk.message/src/ru/aplix/ltk/message/MsgServiceHandle.java:36-95 | Over any run: a nested handle that is never revoked by itself is still open at a later stop exactly if the service handle it was registered through had been revoked before it was registered |
| ServiceSpec.LateRegistrationOutlives | ru.aplix.ltk.message/src/ru/aplix/ltk/message/MsgServiceHandle.java:36-49 | A service that is started, stopped and then given a nested subscription through its revoked handle is stopped with a live nested handle |
| MsgServices.MsgService.Open | ru.aplix.ltk.message/src/ru/aplix/ltk/message/MsgService.java:109-119 | The first subscription starts the service before its handle is told |
| MsgServices.MsgService.OpenNested | ru.aplix.ltk.message/src/ru/aplix/ltk/message/MsgServiceHandle.java:36-49 | A nested subscription is made and registered with the service handle |
| MsgServices.MsgService.CloseNested | ru.aplix.ltk.message/src/ru/aplix/ltk/message/MsgHandle.java:62-67 | Revoking a nested handle tells it once |
| MsgServices.MsgService.TakeHandles | ru.aplix.ltk.message/src/ru/aplix/ltk/message/MsgServiceHandle.java:80-90 | The registered handles are taken over and forgotten in one step |
| MsgServices.MsgService.Cascade | ru.aplix.ltk.message/src/ru/aplix/ltk/message/MsgServiceHandle.java:92-94 | The loop revokes the handles one after another |
| MsgServices.MsgService.Close | ru.aplix.ltk.message/src/ru/aplix/ltk/message/MsgService.java:127-138 | Revoking a service handle unlinks it, revokes what was registered through it, tells it, and stops the service if it was the last (the order of what is told: CloseExact) |
| MsgServices.MsgService.CloseAll | ru.aplix.ltk.message/src/ru/aplix/ltk/message/MsgService.java:33-35 | All service handles are revoked in order, each with its cascade |
| Crc8.CrcIsRemainder | ru.aplix.ltk.core/src/ru/aplix/ltk/core/util/CRC8.java:8-119 | The table-driven checksum from 0 is the remainder of the message polynomial modulo x^8+x^4+x^3+x^2+1, and the only one |
| Crc8.TableIsTimesX8 | ru.aplix.ltk.core/src/ru/aplix/ltk/core/util/CRC8.java:8-73 | Every table entry is multiplication by x^8 modulo that polynomial |
| Crc8.OneByteIsDetected | ru.aplix.ltk.core/src/ru/aplix/ltk/core/util/CRC8.java:91-119 | Two strings of equal length that differ in exactly one byte have different checksums |
| Crc8.DifferenceStays | ru.aplix.ltk.core/src/ru/aplix/ltk/core/util/CRC8.java:91-93 | Different checksums stay different under equal further bytes |
| Crc8.UpdateCrc8 | ru.aplix.ltk.core/src/ru/aplix/ltk/core/util/CRC8.java:99-108 | The loop runs over the bytes from `from` up to the index `len` |
| RfTagAppearanceRecords.RoundTrip | ru.aplix.ltk.driver.log/src/ru/aplix/ltk/driver/log/impl/RfTagAppearanceRecord.java:45-131 | Writing and reading restores an event exactly when its tag has at most 12 bytes and its antennas lie in 0..15 |
| RfTagAppearanceRecords.EncodedLayout | ru.aplix.ltk.driver.log/src/ru/aplix/ltk/driver/log/impl/RfTagAppearanceRecord.java:97-159 | Every byte of a written event: number and time with the highest byte first in two's complement, the bits of the flags, the antenna mask, the tag, and the remainder of all bytes before it |
| RfTagAppearanceRecords.AntennaLost | ru.aplix.ltk.driver.log/src/ru/aplix/ltk/driver/log/impl/RfTagAppearanceRecord.java:45-131 | Any event read by antenna 16 alone is written without an error and read as a different one |
| RfTagAppearanceRecords.DecodeEncoded | ru.aplix.ltk.driver.log/src/ru/aplix/ltk/driver/log/impl/RfTagAppearanceRecord.java:45-65 | Reading what was written gives back id, time, tag, appearance and initial flag, and the antennas up to 15, whatever follows in the record |
| RfTagAppearanceRecords.DecodeOlder | ru.aplix.ltk.driver.log/src/ru/aplix/ltk/driver/log/impl/RfTagAppearanceRecord.java:45-65 | A record in the older layout, with a length byte and without antennas, is read with all its fields |
| RfTagAppearanceRecords.DecodeFails | ru.aplix.ltk.driver.log/src/ru/aplix/ltk/driver/log/impl/RfTagAppearanceRecord.java:45-174 | Reading any record fails for a length above 12, for a negative one in the older layout, and otherwise exactly if the byte after the tag is not the remainder of all bytes before it |
| RfTagAppearanceRecords.CorruptionIsDetected | ru.aplix.ltk.driver.log/src/ru/aplix/ltk/driver/log/impl/RfTagAppearanceRecord.java:161-174 | Changing any one written byte, checksum included, makes reading fail its check, provided the tag length and the layout bit stay |
| RfTagAppearanceRecords.Encode | ru.aplix.ltk.driver.log/src/ru/aplix/ltk/driver/log/impl/RfTagAppearanceRecord.java:97-107 | A written event takes 20 bytes and its tag, which fits a record of 32 |
| RfTagAppearanceRecords.CalcCrc8 | ru.aplix.ltk.core/src/ru/aplix/ltk/core/util/CRC8.java:110-119 | The loop over a buffer consumes it and computes the checksum of what was left in it |
| RfTagAppearanceRecords.Write | ru.aplix.ltk.driver.log/src/ru/aplix/ltk/driver/log/impl/RfTagAppearanceRecord.java:97-107 | The event is put at the start of the buffer and the rest stays; a tag that is too long is an error after both numbers were put; the bytes written are those of Layout |
| RfTagAppearanceRecords.WriteCrc | ru.aplix.ltk.driver.log/src/ru/aplix/ltk/driver/log/impl/RfTagAppearanceRecord.java:152-159 | The checksum of everything written so far is appended |
| RfTagAppearanceRecords.Read | ru.aplix.ltk.driver.log/src/ru/aplix/ltk/driver/log/impl/RfTagAppearanceRecord.java:45-65 | Reading moves through the buffer and gives the event or the same error as decoding, in the older layout too |
| RfTagAppearanceRecords.CheckCrc | ru.aplix.ltk.driver.log/src/ru/aplix/ltk/driver/log/impl/RfTagAppearanceRecord.java:161-174 | The check compares the stored checksum with that of all bytes before it |
| ByteBuffers.LongInverse | ru.aplix.ltk.driver.log/src/ru/aplix/ltk/driver/log/impl/RfTagAppearanceRecord.java:46-47 | A long survives being written and read, negative ones included |
| ByteBuffers.BigEndianAt | ru.aplix.ltk.driver.log/src/ru/aplix/ltk/driver/log/impl/RfTagAppearanceRecord.java:97-104 | Byte i of a number of k bytes is its part of weight 256 to the power k - 1 - i |
| ClrProfileIds.RecodedExact | ru.aplix.ltk.collector.http/src/ru/aplix/ltk/collector/http/ClrProfileId.java:247-329 | Decoding restores an encoded text exactly if no unit ending with a hyphen is followed by a hyphen, dot or at sign, or by "dot" or "at" and one of these |
| ClrProfileIds.NoHyphenBeforeClash | ru.aplix.ltk.collector.http/src/ru/aplix/ltk/collector/http/ClrProfileId.java:247-329 | Text without any hyphen before such a continuation is restored |
| ClrProfileIds.EncodedIsPlain | ru.aplix.ltk.collector.http/src/ru/aplix/ltk/collector/http/ClrProfileId.java:291-318 | Encoded text contains neither an at sign nor a dot |
| ClrProfileIds.EncodedReplaces | ru.aplix.ltk.collector.http/src/ru/aplix/ltk/collector/http/ClrProfileId.java:291-318 | Of a text without hyphens, encoding replaces each dot by "-dot-" and each at sign by "-at-" and keeps the rest |
| ClrProfileIds.EncodingNotInjective | ru.aplix.ltk.collector.http/src/ru/aplix/ltk/collector/http/ClrProfileId.java:320-329 | "-." and "-dot-" have the same code |
| ClrProfileIds.ParsePrinted | ru.aplix.ltk.collector.http/src/ru/aplix/ltk/collector/http/ClrProfileId.java:39-50 | Parsing the printed form restores an identifier exactly if both its parts are restored |
| ClrProfileIds.PrintedShape | ru.aplix.ltk.collector.http/src/ru/aplix/ltk/collector/http/ClrProfileId.java:31-50 | The only at sign of a printed identifier, present exactly if the local identifier is not empty, separates its code from that of the provider |
| ClrProfileIds.EncodeText | ru.aplix.ltk.collector.http/src/ru/aplix/ltk/collector/http/ClrProfileId.java:281-329 | The index loop computes the escaped text; returning the input itself when no length was gained changes nothing |
| ClrProfileIds.DecodeText | ru.aplix.ltk.collector.http/src/ru/aplix/ltk/collector/http/ClrProfileId.java:247-279 | The index loop computes the decoded text |
| IntSets.Union | ru.aplix.ltk.core/src/ru/aplix/ltk/core/util/IntSet.java:219-237 | An integer is in the union exactly if it is in one of the sets |
| IntSets.SingletonContains | ru.aplix.ltk.core/src/ru/aplix/ltk/core/util/IntSet.java:45-50 | A singleton contains its value if that is in 0..31, and nothing else |
| IntSets.EqualsIsExtensional | ru.aplix.ltk.core/src/ru/aplix/ltk/core/util/IntSet.java:251-273 | Two sets are equal exactly if they contain the same integers, the full set and the mask of all ones being different |
| IntSetText.PrintParses | ru.aplix.ltk.core/src/ru/aplix/ltk/core/util/IntSet.java:88-337 | Parsing the printed list restores a set exactly if it is full or does not contain 31; all other members always come back |
| IntSetText.PrintReads | ru.aplix.ltk.core/src/ru/aplix/ltk/core/util/IntSet.java:289-337 | The text of a set is the list of its maximal intervals up to 30 with single commas between them: a number for a single member, the two ends with a hyphen between them for a longer interval, without leading zeros |
| IntSetText.LastMemberLost | ru.aplix.ltk.core/src/ru/aplix/ltk/core/util/IntSet.java:88-337 | The set of 31 alone is printed as a list that parses to a set without it |
| IntSetText.ParsedMembers | ru.aplix.ltk.core/src/ru/aplix/ltk/core/util/IntSet.java:88-163 | A text that parses gives the set of exactly the integers its parts name, blanks around them left aside |
| IntSetText.TrimExact | ru.aplix.ltk.core/src/ru/aplix/ltk/core/util/IntSet.java:88-127 | Blanks are all characters up to the space, and just those at either end are left aside |
| IntSetText.ParseIntSet | ru.aplix.ltk.core/src/ru/aplix/ltk/core/util/IntSet.java:88-127 | The loop over the commas computes the union of the parts, and fails with the first bad part |
| IntSetText.ParsePart | ru.aplix.ltk.core/src/ru/aplix/ltk/core/util/IntSet.java:129-149 | The loop over an interval computes its mask |
| IntSetText.ParseValue | ru.aplix.ltk.core/src/ru/aplix/ltk/core/util/IntSet.java:151-163 | A value that parses is in 0..31 |
| IntSetText.ToString | ru.aplix.ltk.core/src/ru/aplix/ltk/core/util/IntSet.java:289-324 | The loop over the bits prints the members up to 30 as maximal intervals |
| IntSetText.RunsOf | ru.aplix.ltk.core/src/ru/aplix/ltk/core/util/IntSet.java:302-321 | The printed intervals are separated by gaps and cover exactly the members up to 30 |
| RfSourceListeners.StateIsHistory | ru.aplix.ltk.core/src/ru/aplix/ltk/core/collector/RfSourceListener.java:117-155 | What is remembered is the latest ready reader and the outstanding error of the whole history of calls, although repeated updates are dropped |
| RfSourceListeners.ReportedExact | ru.aplix.ltk.core/src/ru/aplix/ltk/core/collector/RfSourceListener.java:32-39 | An update is reported exactly if it tells something new against that history |
| RfSourceListeners.RecoveredExact | ru.aplix.ltk.core/src/ru/aplix/ltk/core/collector/RfSourceListener.java:100-115 | Data arriving after an error reports the ready status of the latest reader, once |
| RfSourceListeners.RepeatExact | ru.aplix.ltk.core/src/ru/aplix/ltk/core/collector/RfSourceListener.java:117-162 | The same status is reported twice in a row exactly when an error comes back that went away before any reader was ready |
| RfSourceListeners.ErrorRepeated | ru.aplix.ltk.core/src/ru/aplix/ltk/core/collector/RfSourceListener.java:117-162 | A request, an error, its end and the same error again: the error is reported twice in a row |
| RfSourceListeners.ReadyNotRepeated | ru.aplix.ltk.core/src/ru/aplix/ltk/core/collector/RfSourceListener.java:117-162 | No two reports in a row are ready statuses of the same reader, whatever is called |
| RfSourceListeners.LastReport | ru.aplix.ltk.core/src/ru/aplix/ltk/core/collector/RfSourceListener.java:82-162 | The latest report is the current status, unless it was an error that went away before any reader was ready |
| RfSourceListeners.RfSourceListener.UpdateStatus | ru.aplix.ltk.core/src/ru/aplix/ltk/core/collector/RfSourceListener.java:32-39 | A status is stored and reported, or neither |
| RfSourceListeners.RfSourceListener.SetStatus | ru.aplix.ltk.core/src/ru/aplix/ltk/core/collector/RfSourceListener.java:117-137 | The branches store a status exactly when it differs from the current one |
| RfSourceListeners.RfSourceListener.SetError | ru.aplix.ltk.core/src/ru/aplix/ltk/core/collector/RfSourceListener.java:139-155 | An error is stored exactly when its message or cause differs from the outstanding one |
| RfSourceListeners.RfSourceListener.NoError | ru.aplix.ltk.core/src/ru/aplix/ltk/core/collector/RfSourceListener.java:100-115 | The outstanding error is cleared and the ready status reported again |
| RfSourceListeners.RfSourceListener.LastStatus | ru.aplix.ltk.core/src/ru/aplix/ltk/core/collector/RfSourceListener.java:89-98 | A new subscriber is told the current status, but never an error |

## Left out

- CyclicLogReaderSpec.WholeRun: states safety for one reader holding a lock; with several readers the code gives no such guarantee, since releasing the newest lock forgets the others.
- CyclicLogReaders.CyclicLogReader.Seek: when the filter calls several records equal, any of them may be found, as in the source; the tag log's own filter never does.
- Handover.NoEventLost: one subscriber whose tracker is registered, with both kinds of messages logged, and no revocation during the replay.
- RfTrackerSpec.BoundedDetection: messages carry the time of their arrival, the timer is on time, and tracking is not stopped.
- ServiceSpec.LifecycleOverRuns: speaks of nested handles registered while their service handle was live; ServiceSpec.OutlivesExact tells what happens to the others.
- RfTagAppearanceRecords.CorruptionIsDetected: a change of the length nibble or the layout bit moves the checksum, and is not covered.
- CyclicLogs.CyclicLog.constructor: a file left longer than the maximum, or a stored position off the record grid, is opened as the code does, but the log is not claimed to be valid then; the wait to truncate such a file at the first wrap (`waitToTruncate`) is not modelled, and a negative stored position is an error of the channel.
- A capacity of 0, a crash between writing a record and storing the position, partial writes, and file operations themselves.
- A second thread that logs while the first waits in `write`: both share one record buffer outside the log's monitor, so logging is modelled one message at a time.
- The tracker list of `LogRfTarget`: registered trackers are a sequence; removing and adding them again, which leaves stale links, is not modelled.
- Errors thrown while an event is delivered or a record decoded in the sending thread. Dispatches by another thread between two steps of the sending loop are steps of `Handover`; the methods of `LogConsumer` run the writer in between, but no dispatch.
- Locks, threads and exceptions of the subscription lists, and subscribing or revoking from within a callback: each operation is one step.
- `MsgServiceHandle.removeHandle`: it is called when a handle is told of its subscription, when it cannot be registered with a service handle yet.
- `MsgProxy`, asynchronous processing, URL encoding, ordering and hashing of profile identifiers: library calls and easy members.
- 64-bit overflow of event ids and times; digits other than 0 to 9 in parsed numbers.
- `RfSourceListener.nextEventIsInitial` and the requests it passes on to tracker and source.
