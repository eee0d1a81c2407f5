# Verified model of fb-cpp

fb-cpp is a C++ wrapper for the Firebird database. This project models the parts of it that are algorithms or
protocols rather than plumbing, and proves what they promise over all inputs, all runs and all interleavings:

- **AttachmentPool**, a connection pool that drops its mutex in the middle of its operations. `PoolRegions` says what
  each region under the mutex does to the shared state, `AttachmentPool.dfy` proves the object's methods against it,
  and `PoolProtocol` interleaves the regions over any number of threads and leases. `PoolLaws` says what its steps do in
  terms of the lists and clocks alone. `PoolOwnership`, `PoolTheorems` and `PoolWakeup` prove conservation, exclusive
  ownership, what eviction removes, that closing is final, and how far wakeups can be relied on; `PoolStranding` and
  `StrandingTheorems` prove exactly when they fail. `PoolRefinement` shows that the object, on any heap of entries,
  takes the protocol's steps.
- **Fixed-point numbers and decimal text**: `Decimal` (rounding half away from zero as the unique nearest integer),
  `NumericConverter`, `DigitStrings` and `Literals` (decimal text and the one literal that prints a number),
  `NumberText` (printing), `BoundText` (what a bound text means) and `Statement` (the setters).
- **EventListener**: `EventBlock` (byte layout), `EventCounts` (decoding and telescoping), `EventListener` (the
  object), `EventProtocol` (server callbacks, dispatcher and `stop()` interleaved), `EventTheorems` (what every run
  keeps).
- **FbRef**: `RefCounts` (counts over whole runs) and `SmartPtrs` (the class, proved to take exactly those steps).
- **DatabaseException**: `StatusVector` (what a status vector means), `StatusCopy` (what a copy holds of it, word by
  word) and `DatabaseException` (copying and re-linking).
- **Time and blobs**: `Calendar` (64-bit ticks), `TimeText` (pattern, parser and printer), `Blob` (segmented I/O).

Integers are unbounded in Dafny; the 16, 32 and 64-bit limits of the C++ types are written out where they matter.
A C++ exception is an `Err` of a `Result`. Times are readings of a monotone clock, one for each region under a mutex.
Whether a ping, a connection or a session reset succeeds, which sleeper `notify_one` wakes, when a wait returns, how
many bytes a server hands out, and how threads interleave are all left open.

## Where the code and its promises part

Each of these was found while stating a property. The code is modelled as it is, and the condition under which it keeps
its promise is proved in both directions.

- **A wakeup can be lost.** `wait_for` may report a timeout although the thread was notified, and that branch returns
  without looking at the pool again (AttachmentPool.cpp:247-254). For every option record a pool accepts, some run
  leaves a sleeper beside an idle connection, the pool open and every other thread at rest, exactly when the acquire
  timeout is positive (`StrandingExactlyWhenWaiting`). Within a run, spare capacity next to a sleeper is bounded by
  the threads about to act on it plus the number of late timeouts so far (`NoLostWakeup`); with none, nobody is
  stranded (`NoStrandedSleeper`); from any full pool at rest with two overdue sleepers, one is enough
  (`LateTimeoutStrands`).
- **`.-5` is a number.** The dot is erased before the text is parsed, so a minus may follow a leading dot, and the
  digits then count as whole units: `.-5` stores -5 (`DotMinus`). `AcceptedTexts` gives the whole accepted language.
- **Printing and binding back** is the identity for scales up to zero; for a positive scale exactly when the printed
  whole number fits 64 bits (`PrintThenBind`; refused for 1 at scale 19, `PositiveScaleRefused`).
- **Zero at a positive scale** is printed with the zeros of the scale, as `000` at scale 2; every other number is
  printed without a superfluous leading zero (`PrintedExactly`; `Literals.Prints` is the form).
- **Event counts** add up to the growth of the counters exactly when no counter ever goes down; a step down is reported
  as nothing and the climb after it is reported again (`CountsTelescope`, `FallCountsTwice`).
- **`reset(p)` of a pointer already holding `p`** neither stores nor releases the caller's reference. An object is
  destroyed when its last holder is gone exactly when that never happened (`DestroyedUnlessSelfReset`,
  `SelfResetLeaks`).
- **A counted string with a NUL inside** is cut at the NUL when the copied status vector is read; the copy means the
  same as the original exactly when there is none (`CopyMeansTheSame`, `CountedNulIsCut`).
- **Timestamp ticks** overflow 64 bits on days outside [-106711404, 106751990], and on no others (`DaysThatSplitBack`);
  every day that a Date with its 16-bit year can hold is inside (`DatesSplitBack`).
- **Blob::read** returns its count in 32 bits; it is the number of bytes read exactly when that is below 2^32, and a
  caller who goes by the counts gets all the bytes back exactly when every read gets fewer than that (`WriteThenRead`).

## Model

| member | source | states |
|---|---|---|
| PoolTheorems.Conservation | src/fb-cpp/AttachmentPool.cpp:131-332 | In every reachable state of any interleaving, live entries are the idle ones plus `inUse`, entries plus `pending` never exceed `maxSize`, `inUse` is valid leases plus validating plus releasing threads, and `pending` is the threads opening a connection |
| PoolTheorems.ExclusiveOwnership | src/fb-cpp/AttachmentPool.cpp:163-332 | A live entry is in exactly one of the idle queue, one lease, one validating or one releasing thread, and a dead one in none; no two leases share an entry and no leased entry is idle |
| PoolTheorems.EveryAcquireReleasedOnce | src/fb-cpp/AttachmentPool.h:246-289 | Under any moves, move assignments, releases and destructions, leases granted equal pool releases made plus leases still held plus releases under way; when nothing is held and all threads rest they are equal and `inUse` is zero |
| PoolOwnership.StepKeepsInv | src/fb-cpp/AttachmentPool.cpp:149-339 | Each single step of any thread keeps ownership, conservation, freshness of handles and the order of the idle queue |
| PoolLaws.OpensOnlyWithoutIdle | src/fb-cpp/AttachmentPool.cpp:167-210 | Over any step of any thread, a connection is opened only while no entry is idle and there is room, and then only `pending` changes |
| PoolLaws.FrontIsHandedOver | src/fb-cpp/AttachmentPool.cpp:167-203 | A thread that finds an idle entry gets the one idle longest, leased or sent to a ping as the option says; no connection is opened and no entry leaves |
| PoolLaws.RoomIsUsed | src/fb-cpp/AttachmentPool.cpp:206-210 | Without an idle entry and with room, a connection is opened |
| PoolLaws.FullPoolWaits | src/fb-cpp/AttachmentPool.cpp:245-254 | Without either, the thread sleeps while its deadline is ahead and fails otherwise; the pool is unchanged |
| PoolLaws.SearchEvicts | src/fb-cpp/AttachmentPool.cpp:163-167 | After a look at the pool no idle entry is over age, and while one was, the thread got no further than evicting |
| PoolLaws.CallsGoOn | src/fb-cpp/AttachmentPool.cpp:149-163 | A call begins only in an open pool, with its deadline set once from the clock, and no step of any thread moves that deadline |
| PoolLaws.ClosedPoolRefuses | src/fb-cpp/AttachmentPool.cpp:153-159 | A closed pool refuses whoever comes, and nothing changes |
| PoolLaws.EmptyHandedOnlyWhenDue | src/fb-cpp/AttachmentPool.cpp:225-254 | A running call ends without a lease only at or past its deadline, or because its own connection could not be opened |
| PoolLaws.PingDecides | src/fb-cpp/AttachmentPool.cpp:188-203 | A good ping leases the entry it was sent to; after a failed one the entry is gone from the pool and nothing is leased |
| PoolLaws.ReturnDecides | src/fb-cpp/AttachmentPool.cpp:316-330 | A usable entry returned to an open pool joins the end of the queue with a new return time and its old creation time; any other is gone, and no stamp changes |
| PoolLaws.LateTimeouts | src/fb-cpp/AttachmentPool.cpp:247-254 | The count of late timeouts rises exactly when a notified wait reports a timeout |
| PoolLaws.CloseDrains | src/fb-cpp/AttachmentPool.cpp:131-147 | Each region of close() leaves the pool closed, takes the front of the queue, or returns once it is empty |
| PoolLaws.MoveCarries | src/fb-cpp/AttachmentPool.h:246-252 | Move construction carries the lease over, empties its source and touches no other |
| PoolLaws.AssignmentMoves | src/fb-cpp/AttachmentPool.h:258-271 | After a move assignment the target holds what the source held, the source nothing and all others what they did, once the old entry of a full target has been put back |
| PoolTheorems.EvictionCutsOldest | src/fb-cpp/AttachmentPool.cpp:258-285 | In every reachable state the idle queue is sorted by return time, and without a lifetime limit an eviction removes exactly its prefix of min(idle-expired, surplus over minSize) entries |
| PoolEviction.EvictsIdlePrefix | src/fb-cpp/AttachmentPool.cpp:265-285 | The erase-while-iterating scan of a sorted queue has that closed form |
| PoolEviction.EvictsExpired | src/fb-cpp/AttachmentPool.cpp:265-285 | With any limits: what stays and what goes partition the queue, survivors keep their order and none is over age, whatever goes has expired, and only lifetime evictions take the pool below minSize |
| PoolEviction.EvictsByTheClocks | src/fb-cpp/AttachmentPool.cpp:265-285 | On the stamps: every entry left idle was created less than the lifetime ago, one idle for the whole timeout stays only in a pool down to minSize, and every entry taken had reached one of the two limits |
| PoolEviction.ReturnsDoNotProlong | src/fb-cpp/AttachmentPool.cpp:270-274 | Without an idle timeout, stamps that differ only in their return times give the same evictions |
| PoolTheorems.ClosedQueueNeverGrows | src/fb-cpp/AttachmentPool.cpp:321-329 | Once closed, no step of any thread reopens the pool or adds to the idle queue: it only loses entries |
| PoolTheorems.DrainTerminates | src/fb-cpp/AttachmentPool.cpp:136-146 | After closing, however threads interfere at the unlock points, all drain loops together turn at most once for each idle entry |
| PoolTheorems.CloseIsFinal | src/fb-cpp/AttachmentPool.cpp:131-147 | In every state after some close() has returned, the idle queue is empty and every remaining entry is in use |
| PoolWakeup.NoLostWakeup | src/fb-cpp/AttachmentPool.cpp:163-255 | While someone sleeps, maxSize - inUse - pending is at most the threads that will look at the pool or still owe a notify_one, plus one for each notified wait that reported a timeout |
| PoolWakeup.NoStrandedSleeper | src/fb-cpp/AttachmentPool.cpp:245-254 | Without such late timeouts, when every other thread is at rest a sleeper means that the pool is full and all of it is leased |
| PoolStranding.LateTimeoutStrands | src/fb-cpp/AttachmentPool.cpp:247-254 | From any reachable full open pool at rest with two sleepers, one return and one late timeout leave the other asleep beside an idle connection and every other thread at rest |
| StrandingTheorems.StrandingExactlyWhenWaiting | src/fb-cpp/AttachmentPool.cpp:161-254 | For every option record a pool accepts, a state with a sleeper, an idle connection, spare capacity, an open pool and nobody left to act is reachable if and only if the acquire timeout is positive |
| PoolStranding.FillUp | src/fb-cpp/AttachmentPool.cpp:163-243 | From any quiet open pool one thread can lease up to maxSize, whatever is evicted on the way |
| PoolRefinement.RegionsAreReady | src/fb-cpp/AttachmentPool.cpp:163-330 | In every reachable state idle entries are live and what a thread validates or releases is live and not idle, as the methods below ask |
| PoolRefinement.NewPoolRegion | src/fb-cpp/AttachmentPool.cpp:59-85 | A pool constructed over a monotone clock stands for an initial state of the protocol |
| PoolRefinement.LoopRegion | src/fb-cpp/AttachmentPool.cpp:163-254 | On a heap of entries that stands for a protocol state, a turn of the acquire loop leaves the heap standing for the state after the Search step, and the thread where that step puts it with the entry it is handed |
| PoolRefinement.DecideRegion | src/fb-cpp/AttachmentPool.cpp:167-254 | The same for a thread back from destroying evicted entries |
| PoolRefinement.PingFailedRegion | src/fb-cpp/AttachmentPool.cpp:188-200 | The same for a failed ping and the Pinged step |
| PoolRefinement.OpenedRegion | src/fb-cpp/AttachmentPool.cpp:225-242 | The same for a connection that opened, whose entry becomes the next handle and is leased |
| PoolRefinement.OpenFailedRegion | src/fb-cpp/AttachmentPool.cpp:225-236 | The same for one that did not, with the notification that follows |
| PoolRefinement.PutBackRegion | src/fb-cpp/AttachmentPool.cpp:313-330 | The same for release and the PutBackEntry step, the new stamp included |
| PoolRefinement.CloseRegion | src/fb-cpp/AttachmentPool.cpp:131-147 | The same for each region of close() and the Close step |
| AttachmentPools.NewPool | src/fb-cpp/AttachmentPool.cpp:59-85 | Options are refused in exactly three cases, and a connection that cannot be opened ends the construction; otherwise minSize distinct, idle entries carry their opening times and nothing is in use |
| AttachmentPools.AttachmentPool.ExtractEntry | src/fb-cpp/AttachmentPool.cpp:43-56 | The first matching entry leaves the vector, all others keep their order, and the result says whether there was one |
| AttachmentPools.AttachmentPool.EvictLocked | src/fb-cpp/AttachmentPool.cpp:258-285 | The in-place scan leaves the state, and collects the entries to destroy, that the functional eviction gives; on the objects, nobody kept is over age, only the last minSize entries outlive the idle timeout, and nobody goes early |
| AttachmentPools.AttachmentPool.LoopTop | src/fb-cpp/AttachmentPool.cpp:163-254 | One turn of the acquire loop either leaves the mutex having evicted, or decides as below with nothing evicted; either way no idle object is over age |
| AttachmentPools.AttachmentPool.DecideLocked | src/fb-cpp/AttachmentPool.cpp:167-254 | An idle entry is taken from the front and leased or checked; without one a connection is reserved if there is room; without room the thread gives up exactly at or past its deadline and sleeps before it; every field is stated for each case |
| AttachmentPools.AttachmentPool.DiscardChecked | src/fb-cpp/AttachmentPool.cpp:190-200 | A failed ping takes the entry out of the pool and out of use |
| AttachmentPools.AttachmentPool.RegisterOpened | src/fb-cpp/AttachmentPool.cpp:225-242 | A fresh entry joins the pool in use, stamped with the opening time |
| AttachmentPools.AttachmentPool.AbandonOpening | src/fb-cpp/AttachmentPool.cpp:225-236 | A failed connection gives its reservation back and announces a notify_one |
| AttachmentPools.AttachmentPool.Release | src/fb-cpp/AttachmentPool.cpp:313-330 | The entry goes to the back of the idle queue with a new stamp, or out of the pool when closed, detached or not reset |
| AttachmentPools.AttachmentPool.DrainFront | src/fb-cpp/AttachmentPool.cpp:136-146 | One turn of the drain loop takes the oldest idle entry out of the queue and the pool |
| AttachmentPools.AttachmentPool.Close | src/fb-cpp/AttachmentPool.cpp:131-147 | Run alone, the drain loop ends with an empty idle queue and the drained state |
| AttachmentPools.DrainedEntries | src/fb-cpp/AttachmentPool.cpp:136-146 | Draining removes exactly the idle entries |
| AttachmentPools.PooledAttachment.Move | src/fb-cpp/AttachmentPool.h:246-252 | Both fields move, the source becomes invalid, and the new lease is as valid as the old one was |
| AttachmentPools.PooledAttachment.Release | src/fb-cpp/AttachmentPool.h:436-448 | A valid lease is nulled and released to its pool once; an invalid one does nothing |
| AttachmentPools.PooledAttachment.MoveAssign | src/fb-cpp/AttachmentPool.h:258-271 | The old entry is released before the new one is taken over, and the lease is valid again; self-assignment changes nothing |
| Decimal.RoundedDivIsNearest | src/fb-cpp/NumericConverter.h:523-542 | Dividing with a half added is the nearest integer, ties away from zero, for either sign |
| Decimal.NearestIsUnique | src/fb-cpp/NumericConverter.h:523-542 | There is only one nearest integer, so the rounding is determined |
| NumericConverter.NumberToNumber | src/fb-cpp/NumericConverter.h:178-200 | Succeeds exactly when value * 10^(from - to), rounded half away from zero, fits the target, and then returns it |
| NumericConverter.ConversionIsConverted | src/fb-cpp/NumericConverter.h:178-200 | That promise determines the result: it is met by one value or one error, never by both |
| NumericConverter.LimitsByWidth | src/fb-cpp/NumericConverter.h:178-200 | The limits used are those of two's complement in 16, 32 and 64 bits, and computing happens in the wider type |
| NumericConverter.AdjustScale | src/fb-cpp/NumericConverter.h:520-558 | Scaling down gives the nearest integer; scaling up gives the exact product, or fails exactly when it leaves the limits |
| NumericConverter.DropDigits | src/fb-cpp/NumericConverter.h:523-542 | Dropping digits one at a time and correcting by the last rounds once, within the computing type |
| NumericConverter.AppendZeros | src/fb-cpp/NumericConverter.h:543-557 | No multiplication leaves the limits, and the early throw refuses only what the limits refuse |
| NumericConverter.ChainedIsOne | src/fb-cpp/Statement.h:1046-1053 | Rescaling in 64 bits and narrowing afterwards is one conversion, errors included |
| NumericConverter.FinerAndBack | src/fb-cpp/NumericConverter.h:178-200 | Going to a finer scale and back is the identity |
| NumberText.FillDigits | src/fb-cpp/NumericConverter.h:294-300 | The buffer holds the decimal digits, least significant first, in at most 19 places |
| NumberText.PrintedExactly | src/fb-cpp/NumericConverter.h:279-339 | A text is the one printed if and only if it is a literal with a minus exactly for negative numbers, a dot exactly for negative scales and then -scale digits behind it, digits before it without a superfluous leading zero, and the value; zero at a positive scale has scale + 1 zeros |
| Literals.PrintsOnce | src/fb-cpp/NumericConverter.h:279-339 | Only one literal has that form |
| NumberText.NumberToString | src/fb-cpp/NumericConverter.h:279-339 | For any value of any integer type, the smallest included, and any scale, the text of that form |
| BoundText.ScanText | src/fb-cpp/Statement.h:1020-1036 | The counting loop and the erasure find the scale and the digits |
| BoundText.LiteralRoundsOnce | src/fb-cpp/Statement.h:1020-1054 | A literal -?D*(.D*)? whose digits fit 64 bits stores its decimal rounded half away from zero to the column scale, out of range exactly when that does not fit; otherwise it is a conversion error |
| BoundText.AcceptedTexts | src/fb-cpp/Statement.h:1038-1043 | The texts accepted are those literals and the dot-minus forms, and no others |
| BoundText.DotMinus | src/fb-cpp/Statement.h:1023-1043 | What a dot-minus text stores |
| BoundText.PrintThenBind | src/fb-cpp/NumericConverter.h:279-339 | Binding a printed value stores that value, for every value, scale and type with scale up to zero, and for positive scales exactly when the whole number fits 64 bits |
| BoundText.PositiveScaleRefused | src/fb-cpp/NumericConverter.h:306-312 | A printed value that does not bind back |
| Statements.Statement.SetNull | src/fb-cpp/Statement.h:376-384 | Sets one null flag and no value; a bad index changes nothing |
| Statements.Statement.SetNumber | src/fb-cpp/Statement.h:1877-1956 | Writes one converted value and clears its null flag, or reports out of range and leaves the message as it was |
| Statements.Statement.SetString | src/fb-cpp/Statement.h:994-1055 | Stores what the text means in one column and touches no other; a failure leaves the message as it was |
| EventListeners.CheckArguments | src/fb-cpp/EventListener.cpp:61-77 | Which name lists are accepted, and which error comes first |
| EventListeners.EventListener.constructor | src/fb-cpp/EventListener.cpp:79-105 | The construction loop fills the block exactly and records every counter offset |
| EventBlocks.CountersApart | src/fb-cpp/EventListener.cpp:91-99 | Counters lie inside the block, apart from each other and behind their names |
| EventBlocks.WordIsLittleEndian | src/fb-cpp/EventListener.cpp:37-49 | Words are read and written with the least significant byte first |
| EventBlocks.BlockBytes | src/fb-cpp/EventListener.cpp:79-101 | Byte for byte: version 1, then for each name its length, its bytes and its little-endian counter, with nothing between or behind |
| EventBlocks.ParseBlock | src/fb-cpp/EventListener.cpp:87-99 | Reading a block back gives its names and counters |
| EventBlocks.WriteCounter | src/fb-cpp/EventListener.cpp:43-49 | Four bytes written at a counter's offset change that counter of the block and nothing else |
| EventBlocks.WrittenIsRead | src/fb-cpp/EventListener.cpp:37-49 | A little-endian word written is the word read back, and no word apart from it changes |
| EventListeners.WriteUint32LE | src/fb-cpp/EventListener.cpp:43-49 | The method writes exactly those four bytes in place |
| EventListeners.EventListener.DecodeEventCounts | src/fb-cpp/EventListener.cpp:155-178 | Each count is max(0, new - stored); the buffer stays a block of the same names with the new counters; the out-of-range fallback cannot be taken |
| EventListeners.EventListener.HandleEvent | src/fb-cpp/EventListener.cpp:180-228 | The locked region does to the listener's state what the protocol's step does, for blocks of any length; the bytes received overwrite the front of the result buffer, whose counters become the stored ones; an empty block, or one after listening ended, changes nothing |
| EventListeners.EventListener.GiveUp | src/fb-cpp/EventListener.cpp:238-271 | A callback that cannot requeue ends listening once |
| EventListeners.EventListener.TakeNext | src/fb-cpp/EventListener.cpp:313-327 | The front of the queue is taken, or the loop ends when it is empty |
| EventListeners.EventListener.DispatchLoop | src/fb-cpp/EventListener.cpp:307-338 | With nobody else at work the whole queue is delivered in order, and the loop then ends exactly when listening is over, waiting otherwise |
| EventListeners.EventListener.Stop | src/fb-cpp/EventListener.cpp:121-153 | Delivers what was queued, clears nothing, and is idle the second time |
| EventCounts.ReportReports | src/fb-cpp/EventListener.cpp:205-214 | A notification lists exactly the non-zero counts, in registration order |
| EventCounts.AnnouncedSound | src/fb-cpp/EventListener.cpp:216-225 | Every notification queued is non-empty and reports two consecutive blocks |
| EventCounts.NameTelescopes | src/fb-cpp/EventListener.cpp:173-176 | For one name, the counts announced are at least the growth of its counters, equal exactly when none of them went down |
| EventCounts.CountsTelescope | src/fb-cpp/EventListener.cpp:163-225 | For all names at once, with the first block as baseline and blocks of any length |
| EventCounts.FallCountsTwice | src/fb-cpp/EventListener.cpp:173-176 | A concrete counter that falls: 7 announced, 5 grown |
| EventProtocol.StepKeepsInv | src/fb-cpp/EventListener.cpp:121-338 | Every step of callbacks, dispatcher and stop() keeps the order of notifications, the stored counters and the wakeup obligations |
| EventTheorems.BlockIsAbsorbed | src/fb-cpp/EventListener.cpp:192-225 | While listening, a whole block makes its counters the stored ones; the first adds nothing to the queue, a later one exactly one list of the counters that rose, by how much, unless none did |
| EventTheorems.IgnoredBlock | src/fb-cpp/EventListener.cpp:189-196 | An empty block, or one that comes after listening ended, changes nothing |
| EventTheorems.StopLosesNothing | src/fb-cpp/EventListener.cpp:121-153 | Delivered is always a prefix of enqueued, and all of it once the dispatcher has been joined |
| EventTheorems.ClearFindsNothing | src/fb-cpp/EventListener.cpp:147-148 | The final clear acts on an empty queue |
| EventTheorems.DeliveredAreDifferences | src/fb-cpp/EventListener.cpp:192-225 | Everything delivered is a non-empty difference of two consecutive absorbed blocks |
| EventTheorems.DeliveredCountsAddUp | src/fb-cpp/EventListener.cpp:155-225 | End to end, after the join: counts delivered under every name are the growth of its counters exactly when no counter went down |
| EventTheorems.NoLostDispatcherWakeup | src/fb-cpp/EventListener.cpp:313-325 | A sleeping dispatcher has nothing queued or a notify under way, and never sleeps through a stop past its notify_all |
| EventTheorems.StopReturns | src/fb-cpp/EventListener.cpp:142-145 | From the join on, nobody can give the dispatcher more to do, it is never blocked, and it exits after a known number of its own turns |
| RefCounts.ReferencesConserved | src/fb-cpp/SmartPtrs.h:75-151 | After any run every count is holders plus outside references plus self-resets; no addRef or release reaches a destroyed object; nothing held or owned is destroyed |
| RefCounts.StepExcess | src/fb-cpp/SmartPtrs.h:85-151 | A single operation unbalances a count only by a self-reset, and then by one |
| RefCounts.DestroyedIsFault | src/fb-cpp/SmartPtrs.h:96-119 | What the theorems exclude: an addRef or a release of an object whose count has reached zero is counted as a fault |
| RefCounts.DestroyedUnlessSelfReset | src/fb-cpp/SmartPtrs.h:121-124 | An object without holders has been destroyed exactly when no pointer was reset to what it held |
| RefCounts.SelfResetLeaks | src/fb-cpp/SmartPtrs.h:121-124 | A run that leaks |
| SmartPtrs.FbRef.Adopt | src/fb-cpp/SmartPtrs.h:85-88 | The caller's reference moves in; no count changes |
| SmartPtrs.FbRef.Assign | src/fb-cpp/SmartPtrs.h:204-219 | New pointer and both counts after assign, equal targets included |
| SmartPtrs.FbRef.Reset | src/fb-cpp/SmartPtrs.h:121-124 | The old target loses a reference, the new one gains none |
| SmartPtrs.FbRef.CopyAssign | src/fb-cpp/SmartPtrs.h:126-130 | The new target gains one, the old one loses one, neither when they are the same |
| SmartPtrs.FbRef.MoveAssign | src/fb-cpp/SmartPtrs.h:139-151 | The reference moves and the source empties, unless both hold the same object, itself included |
| SmartPtrs.FbRef.Copy | src/fb-cpp/SmartPtrs.h:96-100 | Copy construction adds one reference |
| SmartPtrs.FbRef.Move | src/fb-cpp/SmartPtrs.h:109-113 | Move construction empties the source |
| SmartPtrs.FbRef.Destroy | src/fb-cpp/SmartPtrs.h:115-119 | Destruction releases once, if there is a target |
| SmartPtrs.CopyAssignStep | src/fb-cpp/SmartPtrs.h:126-130 | On any heap of pointers and objects, copy assignment is the step whose runs conserve references |
| SmartPtrs.MoveAssignStep | src/fb-cpp/SmartPtrs.h:139-151 | The same for move assignment |
| SmartPtrs.ResetStep | src/fb-cpp/SmartPtrs.h:121-124 | The same for reset |
| SmartPtrs.CopyNewStep | src/fb-cpp/SmartPtrs.h:96-100 | The same for copy construction |
| SmartPtrs.MoveNewStep | src/fb-cpp/SmartPtrs.h:109-113 | The same for move construction |
| SmartPtrs.DestroyStep | src/fb-cpp/SmartPtrs.h:115-119 | The same for destruction |
| StatusVectors.CopyMeansTheSame | src/fb-cpp/Exception.cpp:100-147 | The normalised copy reads, through its own strings alone, as the original's arguments with texts cut at a NUL; as exactly those arguments if and only if no text has one |
| StatusVectors.CountedNulIsCut | src/fb-cpp/Exception.cpp:127-135 | A counted string whose copy reads shorter |
| StatusVectors.PlainStringsHaveNoNul | src/fb-cpp/Exception.cpp:119-125 | Without counted strings there is no NUL, so the copy always means the same |
| StatusVectors.RelinkOnlyRenames | src/fb-cpp/Exception.h:259-266 | A re-linked copy reads the same through its own strings |
| StatusVectors.SqlStateAgrees | src/fb-cpp/Exception.cpp:165-186 | The original's SQL state is the first SQL-state argument of the copy |
| StatusCopies.LinkedIsCopy | src/fb-cpp/Exception.cpp:100-163 | What the copy holds, word by word: for each argument, three words wide for a counted string and two otherwise, one pair; for each text one own string, in order, with exactly the counted characters or all up to the NUL, and the pair points to it |
| StatusCopies.NothingBeyondTheCount | src/fb-cpp/Exception.cpp:119-135 | Two vectors that differ only in where their characters are, and in characters beyond the counts, have the same copy and the same strings |
| StatusCopies.ReadableExactly | src/fb-cpp/Exception.cpp:107-142 | A vector can be read exactly when it has a terminator at a type slot and whole arguments up to it |
| StatusCopies.FirstStateIs | src/fb-cpp/Exception.cpp:165-186 | The SQL state is the text of the first SQL-state argument, and empty exactly when there is none |
| DatabaseExceptions.ExtractSqlState | src/fb-cpp/Exception.cpp:165-186 | The scan over arguments of either width returns the text of the first SQL-state argument, or nothing when there is none |
| DatabaseExceptions.DatabaseException.CopyErrorVector | src/fb-cpp/Exception.cpp:100-147 | Any vector with its terminator at a type slot becomes pairs linked to the exception's own strings, which hold exactly the counted characters of counted strings and the characters up to the NUL of the others |
| DatabaseExceptions.DatabaseException.CopyArgument | src/fb-cpp/Exception.cpp:107-142 | One argument of either width becomes one pair; if it has a text, exactly its counted characters, or those up to the NUL, are appended to the strings |
| DatabaseExceptions.DatabaseException.FixupStringPointers | src/fb-cpp/Exception.cpp:149-163 | Whatever the string slots held, they end up pointing to the exception's own strings, all of them used; doing it again changes nothing |
| DatabaseExceptions.DatabaseException.constructor | src/fb-cpp/Exception.h:252-257 | The exception carries the vector's arguments, in the same words, and its SQL state; a null vector leaves it blank |
| DatabaseExceptions.DatabaseException.Copy | src/fb-cpp/Exception.h:259-266 | A copied exception carries the same arguments in strings of its own |
| Calendar.FromLocalTimeSplits | src/fb-cpp/types.h:138-145 | Every instant splits into its day and a time in [0, 24h), before the epoch as after it |
| Calendar.LocalTimeRoundTrip | src/fb-cpp/types.h:130-145 | toLocalTime and fromLocalTime are inverse exactly for times in [0, 24h) |
| Calendar.TicksSplit | src/fb-cpp/CalendarConverter.h:528-547 | Date and tick come back as day epoch + date and 100 * tick microseconds, for negative dates too |
| Calendar.DaysThatSplitBack | src/fb-cpp/CalendarConverter.h:528-546 | For the tick arithmetic on day numbers, before a Date is made: the exact days all of whose ticks come back, 10^8 days either way among them; on every other day some tick overflows 64 bits |
| Calendar.YearsFollow | src/fb-cpp/types.h:108 | The years of a Date are those of the Gregorian calendar, leap years included |
| Calendar.DatesSplitBack | src/fb-cpp/types.h:138-145 | Every day whose year fits the 16 bits of a Date is one of them |
| TimeText.MatchIsPattern | src/fb-cpp/CalendarConverter.h:165-172 | The recogniser accepts exactly the texts of the pattern and captures their parts |
| TimeText.PadFraction | src/fb-cpp/CalendarConverter.h:199-208 | One to four digits become the ticks that are digits / 10^n of a second: ticks * 10^n is digits * 10^4 |
| TimeText.AcceptedWithinDay | src/fb-cpp/CalendarConverter.h:211-218 | The 24-hour check after the field checks can never fire |
| TimeText.StringToTime | src/fb-cpp/CalendarConverter.h:163-221 | The microseconds, or the error, that ParsedIsMeant describes |
| TimeText.ParsedIsMeant | src/fb-cpp/CalendarConverter.h:163-221 | A conversion error exactly for texts outside the pattern; for a text of it, the time at which a clock shows its hours, minutes, seconds and fraction, or an invalid time when no clock does |
| TimeText.TrailingZero | src/fb-cpp/CalendarConverter.h:199-209 | A zero behind a fraction of fewer than four digits does not change the time, and no fraction means .0 |
| TimeText.PrintsClockText | src/fb-cpp/CalendarConverter.h:228-236 | The printed text is hh:mm:ss.ffff, thirteen characters |
| TimeText.TimeRoundTrip | src/fb-cpp/CalendarConverter.h:228-236 | Parsing a printed tick count gives it back exactly for the ticks of a day |
| TimeText.CanonicalForm | src/fb-cpp/CalendarConverter.h:163-236 | Printing an accepted text's time gives a text with the same time |
| Blobs.Blob.WriteSegment | src/fb-cpp/Blob.cpp:217-228 | One segment is put; an empty one is not, and one too large for 32 bits is refused |
| Blobs.Blob.Write | src/fb-cpp/Blob.cpp:202-215 | Segments of 1 to 65535 bytes, all but the last full, whose concatenation is the buffer |
| Blobs.Blob.ReadSegment | src/fb-cpp/Blob.cpp:177-200 | Some of the remaining bytes, as the size taken modulo 2^32 asks for; none only at the end or when that asks for none |
| Blobs.Blob.Read | src/fb-cpp/Blob.cpp:154-175 | Fills the front of the buffer with min(room, remaining) bytes and leaves the rest; the count is that number modulo 2^32 |
| Blobs.WriteThenRead | src/fb-cpp/Blob.cpp:154-215 | Any split into writes followed by any split into reads returns the bytes in order, exactly when no read gets 2^32 bytes or more |

## Left out

- AttachmentPools.AttachmentPool.Close: the method runs the drain loop without interference; the loop's unlock points
  are interleaved with every other thread in `PoolTheorems.DrainTerminates` and `PoolTheorems.CloseIsFinal`.
- EventListeners.EventListener.Stop: the method covers a stop() with nobody else at work; all interleavings are in
  `EventProtocol`.
- Lease objects are tied to the pool by their own contracts; `PoolRefinement` represents the pool and its entries, and
  leases only as the handles the protocol records.
- The unlocked read of `closed` before a session reset (AttachmentPool.cpp:301): whether a reset is tried, and fails, is
  left open.
- EventListener's `owner` check and `detach()` only remove behaviours: callbacks may run at any time in the model. The
  unlocked use of `eventBuffer` when events are queued again, concurrent calls of stop(), and stop() from inside the
  user's callback are not modelled.
- Statement's message is one value and one null flag for each column, not bytes at offsets; only its integer columns of
  16, 32 and 64 bits are modelled.
- FbRef over convertible target types (`FbRef<Y>`) behaves as over one type; destruction of an object that itself owns
  references is not followed.
- `buildMessage`, `getErrorCode`, and the one-code status vectors of CalendarConverter.h:680-708, which do not pair a
  type with a value.
- ibase.h is not part of this model; the argument numbers the code names are constants of `StatusVectors`.
- Civil-calendar conversion and time zones: a date is its day number. `decodeTime` and `encodeTime` are division of
  ten-thousandths of a second.
- The regular-expression engine: the time pattern is a recogniser written by hand, proved equal to its grammar.
- Floating-point, DECFLOAT and 128-bit conversions, which rest on arithmetic outside the repository.
- Everything behind Firebird's interfaces, memory exhaustion, and the option setters, transactions, batches, row sets,
  backup and service managers, which are state tags or parameter passing.
