# OpenMAMA: a verified model of its cores

This project models the self-contained cores of OpenMAMA in Dafny and proves what they promise. Code
that changes fields and links in place is a class or a method here, proved against a specification on
values; what is promised of the specification is proved as lemmas over all inputs, all runs or all
interleavings.

| file | models |
|---|---|
| `RedBlackModel.dfy`, `RedBlackTree.dfy` | the red-black tree with parent pointers (`systree.h`), keyed as its one user, the timer heap, keys it |
| `SplayModel.dfy`, `SplayTree.dfy` | the top-down splay tree (`systree.h`) |
| `TimerHeap.dfy`, `TimerWakeup.dfy` | the timer heap (`timers.c`): a dispatch pass, and the dispatcher thread against threads that create and destroy timers |
| `RwLock.dfy` | the multi-reader single-writer lock (`MRSWLock.c`) as interleaved statements of any number of threads |
| `DataQuality.dfy`, `DataQualityContext.dfy`, `DataQualityRuns.dfy`, `DataQualityLaws.dfy` | the data-quality protocol of a subscription (`dqstrategy.c`, `listenermsgcallback.c`): as functions, as the context that is changed in place, its runs, and what a subscriber can count on |
| `FaultTolerance.dfy`, `FaultToleranceMember.dfy`, `FaultToleranceGroup.dfy` | fault-tolerance election (`ft.c`): a member on values, the member in place, and a group over a lossy network |
| `Chain.dfy`, `PooledQueue.dfy`, `QueueThreads.dfy` | the pooled queue (`queue.c`), call by call and between threads |
| `IntrusiveList.dfy` | the intrusive list and its iterators (`list.c`) |
| `Hash.dfy`, `HashTable.dfy` | Jenkins' hash (`lookup2.c`) and the chained hash table (`wtable.c`) |
| `FastPrint.dfy`, `DictionaryFile.dfy` | decimal printing (`strutils.c`) and the dictionary file (`dictionary.c`) |
| `Common.dfy` | what several models share |

How the parts are put together:

- A linked structure has a ghost value (a tree, a sequence) that its links must spell. Methods change
  links exactly as the code does and are proved to change the ghost value as specified; order, balance
  and contents are lemmas about that value.
- A protocol between threads or processes is a state machine whose steps are single lock, semaphore or
  network operations; an invariant is proved for every step and read off for every reachable state.
- Integers are unbounded where they only count, and 32-bit where they wrap: sequence numbers, hash
  words and incarnations.

Where the code and its comments differ, the model follows the code:

- The two guards of the sequence-number check that compare a state with two constants joined by "or"
  (`dqstrategy.c:264-265` and `296-297`) are always true and are no guard here.
- A gap fill that does not reach its end has already forwarded messages but leaves the context's number
  behind them, also when a late message set it off; `GapKeepsUpExactlyWhen` says exactly when,
  `OpenGapRepeats` and `LateUpdateRepeats` give inputs.
- The replay after an image looks only at slots before the current index; `ReplayIsWholeExactlyWhen`
  says exactly when that loses nothing.
- A number that was skipped is not remembered: an update that shows a gap and comes twice is delivered
  twice, as `SkippedRepeats` says, even where repeats are ignored.
- Activating a member that has already taken over breaks the link between its timer and its state;
  `ActivationKeepsExactlyWhen` and `EarlyTakeover` say when.
- From 10^8 on the printer reckons with a size of 0 when it fills up to a width;
  `TextIsPaddedExactlyWhen` and `StaysInsideExactlyWhen` say which calls that spoils.

`dafny verify dfyconfig.toml` checks the whole project.

## Model

| member | source | states |
|---|---|---|
| `RedBlackTree.Head.Insert` | common/c_cpp/src/c/systree.h:588-616 | the pointer tree stays ordered, red-black and consistently linked; it gains exactly the new node, or an equal one is returned and nothing changes |
| `RedBlackTree.Head.InsertColor` | common/c_cpp/src/c/systree.h:401-442 | whatever red node has just been attached, the loop ends with no red node under a red one and equal black counts, and with the same nodes in the same order |
| `RedBlackTree.Head.Remove` | common/c_cpp/src/c/systree.h:520-585 | the tree stays ordered, red-black and consistently linked, and its order is the old one without the removed node, whether that node was spliced out or replaced by its successor |
| `RedBlackTree.Head.RemoveColor` | common/c_cpp/src/c/systree.h:444-518 | from a tree whose one subtree is a black node short, the loop terminates with a red-black tree of the same nodes in the same order |
| `RedBlackTree.Head.RemoveStepLeft` | common/c_cpp/src/c/systree.h:448-481 | one turn of the loop for a short left child: it finishes, or the shortage moves to the parent |
| `RedBlackTree.Head.RemoveStepRight` | common/c_cpp/src/c/systree.h:482-514 | one turn of the loop for a short right child: it finishes, or the shortage moves to the parent |
| `RedBlackTree.Head.RotateLeft` | common/c_cpp/src/c/systree.h:335-353 | the link changes turn the represented tree into its left rotation, which has the same nodes in the same order |
| `RedBlackTree.Head.RotateRight` | common/c_cpp/src/c/systree.h:355-373 | the link changes turn the represented tree into its right rotation, which has the same nodes in the same order |
| `RedBlackTree.Head.Find` | common/c_cpp/src/c/systree.h:618-634 | a node with the key, and null only when no node has it |
| `RedBlackTree.Head.NFind` | common/c_cpp/src/c/systree.h:636-655 | the least node whose key is not below the given one, and null when all are below it |
| `RedBlackTree.Head.MinMax` | common/c_cpp/src/c/systree.h:701-714 | the first or last node of the order, null for an empty tree |
| `RedBlackTree.Head.Next` | common/c_cpp/src/c/systree.h:657-677 | the node that follows in the order, through the right subtree or up the parent links |
| `RedBlackTree.Head.ForEach` | common/c_cpp/src/c/systree.h:728-731 | RB_FOREACH visits every node once, and in the order of time and then address |
| `RedBlackModel.HeightBound` | common/c_cpp/src/c/systree.h:46-54 | a red-black tree of n nodes has height at most 2 lg (n + 1), the bound its header states |
| `RedBlackModel.RemovedInorder` | common/c_cpp/src/c/systree.h:520-585 | replacing a subtree by one that lacks its root takes exactly that node out of the order |
| `RedBlackModel.CmpIsDictionaryOrder` | common/c_cpp/src/c/timers.c:44-56 | the comparison of timers orders them by time and, among equal times, by address |
| `SplayTree.Head.Splay` | common/c_cpp/src/c/systree.h:203-235 | terminates with the same nodes in the same order, and the root holds the sought key, or its neighbour in the order when it is absent |
| `SplayTree.Head.Insert` | common/c_cpp/src/c/systree.h:157-179 | the ordered tree gains exactly the new node, or an equal one is left at the root and returned |
| `SplayTree.Head.Remove` | common/c_cpp/src/c/systree.h:181-200 | the node with the key, if any, is taken out of the order; nothing else changes |
| `SplayTree.Head.Find` | common/c_cpp/src/c/systree.h:121-130 | the node with the key exactly when there is one; the order is unchanged |
| `SplayTree.Head.MinMax` | common/c_cpp/src/c/systree.h:237-271 | the extreme node of the order ends at the root: no key is smaller, or none greater |
| `TimerHeap.Heap.CreateTimer` | common/c_cpp/src/c/timers.c:250-300 | the timer joins the tree, and a wake byte is written exactly when no other timer is due earlier |
| `TimerHeap.Heap.DestroyTimer` | common/c_cpp/src/c/timers.c:302-318 | the timer leaves the tree if it is still in it, and nothing else does |
| `TimerHeap.Heap.Min` | common/c_cpp/src/c/timers.c:170-171 | the timer with the earliest time and, among those, the least address; null only for an empty tree |
| `TimerHeap.Heap.Dispatch` | common/c_cpp/src/c/timers.c:169-185 | a pass fires exactly the due timers that no callback before their turn destroyed, each once, in the order of time and then address; each callback creates and destroys what it names, timers created earlier in the pass included; what is left is exactly what there was and what the callbacks created, without the fired and the destroyed, and none of it is due |
| `TimerHeap.PassStep` | common/c_cpp/src/c/timers.c:174-184 | firing the least due timer, with whatever its callback adds and destroys, keeps the fired timers ahead of all that remain |
| `TimerWakeup.NoLostWakeup` | common/c_cpp/src/c/timers.c:123-186 | in every interleaving, a dispatcher waiting in select has an unread byte, or a wake-up time no later than the earliest deadline, or the client that inserted an earlier timer still holds the lock and writes next |
| `TimerWakeup.PassedDeadlineWakes` | common/c_cpp/src/c/timers.c:147-149 | once a deadline has passed and the lock is free, select returns |
| `TimerWakeup.ClientStepKeepsWake` | common/c_cpp/src/c/timers.c:281-295 | the step that a client takes after its insertion restores the wake-up guarantee by itself |
| `TimerWakeup.CreateInsertsAndTells` | common/c_cpp/src/c/timers.c:271-295 | in every interleaving a call that creates a timer inserts it and, before it gives up the lock, writes a byte exactly when none of the timers that were there is due earlier |
| `TimerWakeup.DestroyDeletes` | common/c_cpp/src/c/timers.c:311-314 | in every interleaving a call that destroys a timer takes it out of the tree and writes nothing |
| `TimerWakeup.PassedDeadlineFires` | common/c_cpp/src/c/timers.c:123-186 | once a deadline has passed and the lock is free, the dispatcher by its own steps wakes, reads every byte, leaves no timer that is due, and sleeps again until the next deadline |
| `TimerWakeup.SleepsPastThePass` | common/c_cpp/src/c/timers.c:123-186 | in every interleaving the sleep that follows a pass ends later than the time of the pass |
| `RwLock.MutualExclusion` | common/c_cpp/src/c/MRSWLock.c:33-122 | in every interleaving of single mutex and semaphore operations of any number of threads, while one thread holds the write lock no other holds a read or write lock |
| `RwLock.WriterAccounting` | common/c_cpp/src/c/MRSWLock.c:233-292 | between operations mutex depth, re-entry count and writer id match what the writer holds, and all are zero when nothing is held |
| `RwLock.NoUnitIsLost` | common/c_cpp/src/c/MRSWLock.c:69-90 | while the reader count is 0 the semaphore has a unit, or a writer on its way to the mutex, the holder, or a thread inside the mutex has it |
| `RwLock.Refines` | common/c_cpp/src/c/MRSWLock.c:33-292 | every step is a step of an abstract lock with a multiset of readers and one counted writer, or changes nothing a caller sees |
| `RwLock.OperationDoes` | common/c_cpp/src/c/MRSWLock.c:33-292 | in every interleaving an operation, from its call to its return, changes what its thread holds by exactly what was asked for: one read lock or one write lock more or less |
| `RwLock.NeverStuck` | common/c_cpp/src/c/MRSWLock.c:69-90 | with the lock held by nobody and some operation under way, some thread can move: no lost wake-up |
| `RwLock.IdleLockCanBeTaken` | common/c_cpp/src/c/MRSWLock.c:33-122 | when nobody holds the lock and the other threads are outside it or wait for the semaphore, a thread that asks for the write lock gets it in eight steps of its own, and takes one unit of the semaphore |
| `RwLock.FreeLockCanBeTaken` | common/c_cpp/src/c/MRSWLock.c:33-292 | from any reachable state in which nobody holds the lock, whatever operations the other threads are in, the run can go on so that a given thread gets the write lock |
| `RwLock.ReadLockCanBeTaken` | common/c_cpp/src/c/MRSWLock.c:97-115 | while no other thread is inside the lock or writing, a thread gets a read lock in its own steps however many are reading; only the first reader takes a unit of the semaphore, if there is one |
| `RwLock.ReadLockCanBeReleased` | common/c_cpp/src/c/MRSWLock.c:267-285 | the release takes exactly this read lock back, and only the last reader posts |
| `RwLock.WriteLockCanBeTakenAgain` | common/c_cpp/src/c/MRSWLock.c:45-58 | a writer that asks again gets the lock at once; only its count goes up |
| `RwLock.WriteLockCanBeReleased` | common/c_cpp/src/c/MRSWLock.c:240-265 | a release takes the count down or, the last time, clears the id, posts and frees the mutex |
| `RwLock.LateWriterBacksOff` | common/c_cpp/src/c/MRSWLock.c:69-90 | a writer that finds readers behind the semaphore goes back to wait, leaving lock and semaphore as they are |
| `DataQualityRuns.DeliveriesInSequence` | mama/c_cpp/src/c/listenermsgcallback.c:247-590 | in every run with one publisher, numbered messages and the on-initial cache scheme, each delivery not marked stale or duplicate is an image or continues its predecessor by the conflate count (by 1 when replayed) |
| `DataQualityRuns.TakeoverWaitsForRecap` | mama/c_cpp/src/c/dqstrategy.c:203-229 | under wait-for-recap with on-initial caching, from any context with a known publisher, nothing but images of another publisher is forwarded until an initial or recap is processed |
| `DataQualityRuns.SequenceIsDelivered` | mama/c_cpp/src/c/dqstrategy.c:250-290 | whatever its quality state, a context that is not holding updates back forwards an unbroken sequence of updates whole, unmarked, once and in order, under every configuration |
| `DataQualityRuns.PreInitialUpdates` | mama/c_cpp/src/c/dqstrategy.c:593-653 | consecutive updates that come while the first image, or a recap with its cache on, is awaited: none is delivered; the initial or recap that replays is, followed by every later-numbered one exactly when the next number arrived since the ring last wrapped, and by none otherwise |
| `DataQualityRuns.UpdatesAreCached` | mama/c_cpp/src/c/listenermsgcallback.c:496-533 | while the first image, or a recap with its cache on, is awaited, any run of updates delivers nothing and keeps number, state and publisher; the ring keeps the last of them, and a wait for a recap sets the flag that makes them stale |
| `DataQualityRuns.ReplayIsWholeExactlyWhen` | mama/c_cpp/src/c/dqstrategy.c:593-653 | any messages that come while the first image, or a recap, is awaited: after the image exactly the later-numbered ones are replayed, in order of arrival, if and only if these count up from the image's number and none of them arrived before the ring last wrapped |
| `DataQualityRuns.ReplayLeads` | mama/c_cpp/src/c/dqstrategy.c:611-649 | what the replay forwards counts up from the image's number without a gap |
| `DataQualityRuns.RingHoldsLast` | mama/c_cpp/src/c/dqstrategy.c:720-740 | after any number of messages since it was cleared, the ring holds the last ones, as many as it has slots |
| `DataQualityRuns.FillsGapExactlyWhenCached` | mama/c_cpp/src/c/dqstrategy.c:656-717 | a gap fill returns 1 exactly when the missing numbers are a subsequence of the ring in order of arrival |
| `DataQualityRuns.FillCountsUp` | mama/c_cpp/src/c/dqstrategy.c:656-717 | filled or not, the forwarded messages count up from the first missing number, each once, and stop before the end |
| `DataQualityRuns.GapKeepsUpExactlyWhen` | mama/c_cpp/src/c/dqstrategy.c:333-365 | with the on-gap scheme, for every message that makes the check try a fill, a late one included: nothing forwarded from the cache is ahead of the context exactly when the message is beyond the next number and the ring holds all in between in order of arrival, or the ring lacks even the next number; 32-bit wrap-round apart |
| `DataQualityRuns.FillLeadsExactlyWhen` | mama/c_cpp/src/c/dqstrategy.c:333-365 | the fill and the message are in sequence and end at the context's number exactly when the gap is closed and the unmarked message makes good for the marked ones at its end, or all that is forwarded is marked |
| `DataQualityRuns.GapInSequenceExactlyWhen` | mama/c_cpp/src/c/dqstrategy.c:333-365 | when nothing is marked and the message moves on by one, that is so under the same condition as for GapKeepsUpExactlyWhen |
| `DataQualityRuns.FilledDeliveriesInSequence` | mama/c_cpp/src/c/listenermsgcallback.c:247-590 | in every run with one publisher and numbered messages, under any cache scheme, in which each fill that is tried finds nothing or keeps the order: deliveries, those from the cache included, are in sequence as under the on-initial scheme |
| `DataQualityRuns.InSequenceExactlyWhen` | mama/c_cpp/src/c/listenermsgcallback.c:247-590 | for every such run: deliveries are in sequence throughout, and the context keeps up with them, exactly when each fill that is tried is such a one |
| `DataQualityRuns.OpenGapRepeats` | mama/c_cpp/src/c/dqstrategy.c:333-365 | a concrete run in which a gap stays open and a number already forwarded from the cache is forwarded again |
| `DataQualityRuns.LateUpdateRepeats` | mama/c_cpp/src/c/dqstrategy.c:333-365 | a concrete late update that makes the check forward a cached number and leave the context behind it |
| `DataQualityRuns.ConflatedUpdateRepeats` | mama/c_cpp/src/c/dqstrategy.c:333-365 | the same for the next number with a conflate count of 2 |
| `DataQualityLaws.RepeatIsIgnored` | mama/c_cpp/src/c/dqstrategy.c:292-302 | where repeats are ignored, an update numbered like the context or lower, and not the next one, is not delivered and leaves number, state and cache as they are |
| `DataQualityLaws.RepeatIsMarked` | mama/c_cpp/src/c/dqstrategy.c:304-324 | elsewhere an update with the number of the context is delivered once more, marked, and the state says so |
| `DataQualityLaws.NoNumberTwice` | mama/c_cpp/src/c/dqstrategy.c:261-324 | where repeats are ignored, in every run of one publisher without an image: updates delivered as they come have higher numbers than the run started at, none is marked as a repeat, and one that was delivered as good is followed by higher numbers only |
| `DataQualityLaws.MissedIsStale` | mama/c_cpp/src/c/dqstrategy.c:332-365 | an update that skips numbers, with no fill to try, is delivered as stale; the number stays and a recap is awaited |
| `DataQualityLaws.SkippedRepeats` | mama/c_cpp/src/c/dqstrategy.c:332-365 | such an update that comes twice is delivered twice, stale both times, unless a recap cache holds it back |
| `DataQualityLaws.InTurnIsDelivered` | mama/c_cpp/src/c/dqstrategy.c:261-290 | the update that comes next, comes first or has no number is delivered as it is; the number is its own, the state is good, and a cache kept for a gap is cleared |
| `DataQualityLaws.DoubtfulIsStale` | mama/c_cpp/src/c/dqstrategy.c:261-366 | the next update with a status other than good is delivered as stale, the number stays and a recap is awaited |
| `DataQualityLaws.NewSubscriptionStarts` | mama/c_cpp/src/c/dqstrategy.c:261-290 | a new subscription that expects no image delivers its first update whatever the number |
| `DataQualityLaws.ExpectationEnds` | mama/c_cpp/src/c/listenermsgcallback.c:506-511 | once no image is expected any more, an unbroken sequence is delivered without one |
| `DataQualityLaws.RecapRecovers` | mama/c_cpp/src/c/listenermsgcallback.c:496-533 | from a missed number or a recap asked for by the client up to the recap, nothing is delivered but the stale update that showed the gap; then come the recap and what the cache has to follow it |
| `DataQualityLaws.ImageRestores` | mama/c_cpp/src/c/dqstrategy.c:368-395 | an initial or recap of any publisher, in any state: it is delivered first, then what the cache has to follow it, and then every update that continues the sequence, unmarked |
| `DataQualityLaws.TakeoverIsFollowed` | mama/c_cpp/src/c/dqstrategy.c:220-228 | without waiting for a recap, the first update of another publisher is delivered unmarked whatever its number, and the sequence goes on as that publisher numbers it |
| `DataQualityLaws.OtherIsHeldBack` | mama/c_cpp/src/c/dqstrategy.c:220-228 | waiting for a recap, an update of another publisher that is out of turn is not delivered; the context takes its number but keeps the publisher |
| `DataQualityLaws.CachedUpdatesFillTheGap` | mama/c_cpp/src/c/dqstrategy.c:333-346 | on-gap scheme, whole run: updates cached before an image fill the first gap after it; all missing ones and then the update unmarked if the ring has them in order, otherwise what there is and the update as stale |
| `DataQualityLaws.LostWithoutCache` | mama/c_cpp/src/c/listenermsgcallback.c:496-533 | without a cache what comes during such a wait is lost, and nothing else changes |
| `DataQualityLaws.NotForwarded` | mama/c_cpp/src/c/listenermsgcallback.c:298-418 | error statuses and the kinds that end, refresh or deny a subscription deliver nothing and leave the context as it is |
| `DataQualityLaws.QualityFalls` | mama/c_cpp/src/c/listenermsgcallback.c:339-352 | doubts of the transport, an unknown status and a report of possibly stale data change a good state to possibly stale, and no other |
| `DataQualityLaws.SnapshotIsDelivered` | mama/c_cpp/src/c/listenermsgcallback.c:115-206 | a snapshot is delivered and counted whatever the check makes of its number |
| `DataQualityLaws.DictionaryIsNotChecked` | mama/c_cpp/src/c/dqstrategy.c:396-399 | a dictionary is delivered as it is, without a check of its number |
| `DataQualityContext.Context.constructor` | mama/c_cpp/src/c/dqstrategy.c:552-578 | a new context is the fresh one of the protocol |
| `DataQualityContext.Context.CacheMsg` | mama/c_cpp/src/c/dqstrategy.c:719-753 | writing a slot of the array is pushing onto the ring of the last messages |
| `DataQualityContext.Context.ClearCache` | mama/c_cpp/src/c/dqstrategy.c:528-550 | every slot is emptied and the ring starts again |
| `DataQualityContext.Context.ApplyPreInitialCache` | mama/c_cpp/src/c/dqstrategy.c:592-653 | the loop over the slots before the index forwards the replay and leaves its last number behind |
| `DataQualityContext.Context.FillGap` | mama/c_cpp/src/c/dqstrategy.c:655-717 | the walk round the array forwards the fill of the ring, marked stale when asked, and returns whether it reached the end |
| `DataQualityContext.Context.CheckSeqNum` | mama/c_cpp/src/c/dqstrategy.c:171-400 | the fields, the message's status and the forwarded messages after the check are those of the protocol, in every quality state and for every kind of message |
| `DataQualityContext.Context.HandleFtTakeover` | mama/c_cpp/src/c/dqstrategy.c:138-169 | number, publisher and state after a takeover, with and without waiting for a recap |
| `DataQualityContext.Context.HandleStaleData` | mama/c_cpp/src/c/dqstrategy.c:469-515 | the message is marked stale and the context waits for a recap |
| `DataQualityContext.Context.ProcessPointToPointMessage` | mama/c_cpp/src/c/listenermsgcallback.c:115-206 | image counting, check, delivery, replay and clearing of the cache follow the protocol |
| `DataQualityContext.Context.ProcessMsg` | mama/c_cpp/src/c/listenermsgcallback.c:246-590 | what a message does to the context and what reaches the client is the protocol's step, for every status and kind |
| `DataQualityContext.Context.SetPossiblyStale` | mama/c_cpp/src/c/subscription.c:1211-1244 | only a good state becomes possibly stale |
| `DataQualityContext.Feed` | mama/c_cpp/src/c/listenermsgcallback.c:246-590 | a new subscription fed any list of inputs ends in the state, and has delivered the messages, that the protocol's run says |
| `FaultTolerance.LessIsDictionaryOrder` | mama/c_cpp/src/c/ft.c:687-718 | the cascade of comparisons is the dictionary order of (weight, incarnation, address, process) |
| `FaultTolerance.LessIsStrictOrder` | mama/c_cpp/src/c/ft.c:687-718 | it is a strict order, total between members that differ in address or process |
| `FaultTolerance.TimerFitsExactlyWhen` | mama/c_cpp/src/c/ft.c:535-679 | in every run up to the first deactivation a started member has a timeout timer exactly when it is not active, throughout, exactly when it is not active at its activation |
| `FaultTolerance.SteadyExactlyWhen` | mama/c_cpp/src/c/ft.c:535-767 | and its incarnation never exceeds the next one, throughout, exactly when it is also within its first incarnation at activation and no heartbeat with the largest incarnation makes the next one wrap round for good |
| `FaultTolerance.ActivationKeepsExactlyWhen` | mama/c_cpp/src/c/ft.c:278-312 | activation keeps that exactly when the member has not already become active or passed its first incarnation |
| `FaultTolerance.EarlyTakeover` | mama/c_cpp/src/c/ft.c:278-312 | a member over the bridge that takes over before it is activated is then active with a timer running |
| `FaultTolerance.IncarnationGrows` | mama/c_cpp/src/c/ft.c:535-564 | along such a run the incarnation never goes down, nor, once the member is started and defers to no heartbeat with the largest incarnation, the next one |
| `FaultTolerance.TimeoutTakesOverExactlyWhenAlone` | mama/c_cpp/src/c/ft.c:636-650 | a timeout makes a member active exactly when no heartbeat to defer to waits in its receive buffer; it then sends one heartbeat, with its new incarnation and the state it leaves |
| `FaultTolerance.TakeoverSurpassesAllHeeded` | mama/c_cpp/src/c/ft.c:745-752 | a takeover's incarnation exceeds that of every better heartbeat accepted since activation, unless one of these carried the largest 32-bit incarnation |
| `FaultTolerance.TakeoverSurpassesExactlyWhen` | mama/c_cpp/src/c/ft.c:745-752 | for any run: it exceeds that of a given one exactly when each later wrap of the next incarnation was made good by a heartbeat that carried at least as much |
| `FaultTolerance.SurpassedExactlyWhenNotLast` | mama/c_cpp/src/c/ft.c:749-752 | the next incarnation passes the one heard unless that is the largest 32-bit number, when it wraps to 0 |
| `FaultToleranceMember.FtMember.Activate` | mama/c_cpp/src/c/ft.c:278-312 | address, next incarnation and timer after activation |
| `FaultToleranceMember.FtMember.InvokeStateChange` | mama/c_cpp/src/c/ft.c:535-564 | state, incarnation, timer, heartbeat sent and report to the application, in the code's order |
| `FaultToleranceMember.FtMember.CheckState` | mama/c_cpp/src/c/ft.c:566-624 | a change is made exactly when the wanted state differs from the present one |
| `FaultToleranceMember.FtMember.BetterCredentials` | mama/c_cpp/src/c/ft.c:687-718 | returns 0 exactly when the heartbeat comes later in the dictionary order |
| `FaultToleranceMember.FtMember.CheckHeartbeat` | mama/c_cpp/src/c/ft.c:721-767 | only a better heartbeat of another member of the group has an effect: next incarnation, standby, the found counter |
| `FaultToleranceMember.FtMember.ReceiveHeartbeat` | mama/c_cpp/src/c/ft.c:1135-1177 | takes the first waiting packet, which has no effect when it is empty or cannot be parsed, or reports that there is none |
| `FaultToleranceMember.FtMember.TimeoutTimerCb` | mama/c_cpp/src/c/ft.c:636-650 | drains the receive buffer, unreadable packets included, and takes over unless a better heartbeat was found |
| `FaultToleranceMember.FtMember.IoCallback` | mama/c_cpp/src/c/ft.c:1124-1133 | takes at most a window of waiting packets, in order |
| `FaultToleranceMember.FtMember.HeartbeatTimerCb` | mama/c_cpp/src/c/ft.c:626-634 | the effect of a tick: one heartbeat, the member itself unchanged |
| `FaultToleranceGroup.NextOk` | mama/c_cpp/src/c/ft.c:535-767 | every event of the group keeps timers, incarnations and the truth of all heartbeats on the way, over a network that loses, delays, repeats and reorders |
| `FaultToleranceGroup.HeartbeatsNeverExceedSender` | mama/c_cpp/src/c/ft.c:1106-1122 | every heartbeat on the way carries at most its sender's present credentials |
| `FaultToleranceGroup.GreatestIsNeverDemoted` | mama/c_cpp/src/c/ft.c:721-767 | in every reachable state the active member with the greatest credentials of its group is left as it is by every event |
| `FaultToleranceGroup.HeartbeatSilencesOthers` | mama/c_cpp/src/c/ft.c:721-767 | once its heartbeat has reached every other started member, with no timeout in between, no one else in the group is active |
| `FaultToleranceGroup.BeatIsSent` | mama/c_cpp/src/c/ft.c:626-634 | when the heartbeat timer of a member fires, a heartbeat with its group, weight, incarnation, address, process and state is on the way, and nothing else changes |
| `FaultToleranceGroup.BeatSilencesOthers` | mama/c_cpp/src/c/ft.c:626-767 | from any reachable state in which the greatest member is active: its timer fires and that heartbeat is delivered to all others; this is a run, and it ends with no one else in the group active |
| `FaultToleranceGroup.GreatestCanBeElected` | mama/c_cpp/src/c/ft.c:535-767 | the election: from any reachable state there is a run after which the member with the greatest credentials is the only active one of its group |
| `PooledQueue.Queue.constructor` | common/c_cpp/src/c/queue.c:71-91 | an empty queue without items, with the default limits and the cursor before the first item |
| `PooledQueue.Queue.Create` | common/c_cpp/src/c/queue.c:93-122 | limits are set unless they are 0, and the first chunk is allocated exactly when it stays within the maximum |
| `PooledQueue.Queue.SetMaxSize` | common/c_cpp/src/c/queue.c:165-175 | the maximum changes unless it is beyond the largest one |
| `PooledQueue.Queue.AllocChunk` | common/c_cpp/src/c/queue.c:354-382 | new items, as many as asked for, are added to the allocated ones and to the free list exactly when length plus chunk stays within the maximum |
| `PooledQueue.Queue.Enqueue` | common/c_cpp/src/c/queue.c:186-226 | appends at the back; FULL exactly when nothing is free and length plus chunk exceeds the maximum; every item ever allocated stays on exactly one of queue and free list, and allocating never passes the maximum |
| `PooledQueue.Queue.TimedDispatch` | common/c_cpp/src/c/queue.c:238-296 | takes the oldest item, whose node goes back to the free list, wherever the cursor stands; no allocated item is lost |
| `PooledQueue.Queue.Poll` | common/c_cpp/src/c/queue.c:312-350 | takes the oldest item, or says that there is none; no allocated item is lost |
| `PooledQueue.InOrderAndBounded` | common/c_cpp/src/c/queue.c:186-350 | in every run of enqueue, poll and timed dispatch the data comes out in the order in which it was accepted, and the allocated items, once within the maximum, stay within it |
| `PooledQueue.Serve` | common/c_cpp/src/c/queue.c:186-350 | any run of calls on the queue ends in the state, and gives out the data, of that reckoning |
| `PooledQueue.Queue.InsertAfter` | common/c_cpp/src/c/queue.c:541-586 | inserts behind the cursor, at the front when that is past the end; no allocated item is lost and the maximum is kept |
| `PooledQueue.Queue.InsertBefore` | common/c_cpp/src/c/queue.c:588-633 | inserts in front of the cursor, at the back when that is before the first; no allocated item is lost and the maximum is kept |
| `PooledQueue.Queue.Next` | common/c_cpp/src/c/queue.c:421-450 | moves the cursor on, and at the end leaves it on the last item |
| `PooledQueue.Queue.Prev` | common/c_cpp/src/c/queue.c:452-481 | moves the cursor back, and at the beginning leaves it on the first item |
| `PooledQueue.Queue.Replace` | common/c_cpp/src/c/queue.c:635-655 | changes the data of the item under the cursor only |
| `QueueThreads.FirstInFirstOut` | common/c_cpp/src/c/queue.c:186-350 | in every interleaving the data comes out in the order it went in, and length = semaphore + threads between their wait and their unlink + an item not yet posted |
| `QueueThreads.NeverUnlinksFromEmpty` | common/c_cpp/src/c/queue.c:312-330 | a thread about to unlink finds an item, although poll does not look |
| `QueueThreads.PoolIsBounded` | common/c_cpp/src/c/queue.c:354-382 | in every interleaving every allocated item is on exactly one of queue and free list, once, and there are never more than the maximum plus one for each thread |
| `QueueThreads.EnqueueAddsItsDatum` | common/c_cpp/src/c/queue.c:186-226 | in every interleaving a call that enqueues puts exactly its own datum on the queue, once; or nothing, and then no item was free and a chunk more would have been too much |
| `QueueThreads.DatumCanBeEnqueued` | common/c_cpp/src/c/queue.c:186-226 | with the lock free and a free item or room for a chunk, a thread enqueues and posts in its own steps |
| `QueueThreads.PostedItemCanBeTaken` | common/c_cpp/src/c/queue.c:239-290 | with the lock free and a post made, a waiting thread takes the oldest item in its own steps and frees it |
| `IntrusiveList.List.AllocateElement` | common/c_cpp/src/c/list.c:155-186 | the first freed element, or a new one, with cleared links |
| `IntrusiveList.List.FreeElement` | common/c_cpp/src/c/list.c:209-249 | an element off the list is put on the free list once; one on the list or freed is left alone |
| `IntrusiveList.List.PushBack` | common/c_cpp/src/c/list.c:255-269 | the element becomes the last |
| `IntrusiveList.List.PushFront` | common/c_cpp/src/c/list.c:271-286 | the element becomes the first |
| `IntrusiveList.List.InsertBefore` | common/c_cpp/src/c/list.c:408-430 | inserted before the position, or nothing happens when the position is off the list or the element on it |
| `IntrusiveList.List.AdjustIterators` | common/c_cpp/src/c/list.c:448-468 | exactly the iterators on the leaving element move: to the next, from the last to the first, and to the tail when it was alone |
| `IntrusiveList.List.PopFront` | common/c_cpp/src/c/list.c:474-500 | the first element leaves, and iterators on it move to the new first or, when none is left, the tail |
| `IntrusiveList.List.RemoveElement` | common/c_cpp/src/c/list.c:506-537 | an element on the list leaves it, and iterators on it move to the next, from the last to the first, and to the tail when it was alone; one off the list changes nothing |
| `IntrusiveList.List.CreateIterator` | common/c_cpp/src/c/list.c:600-620 | a registered iterator on the first element or the tail |
| `IntrusiveList.List.GetCurrentNode` | common/c_cpp/src/c/list.c:575-595 | the iterator's element; from the tail it goes to the first when there is one |
| `IntrusiveList.List.IteratorNext` | common/c_cpp/src/c/list.c:652-669 | returns the current element and moves on; null at the tail |
| `IntrusiveList.List.IteratorNextCirc` | common/c_cpp/src/c/list.c:674-696 | returns the element at the iterator and moves to the next in circular order |
| `IntrusiveList.List.GoRound` | common/c_cpp/src/c/list.c:674-696 | as many circular calls as there are elements, on a list that is not changed, return each element once, in cyclic order from the iterator's (from the first when that is on the tail), and leave the iterator on the one returned first |
| `IntrusiveList.GoesRoundOnce` | common/c_cpp/src/c/list.c:674-696 | stepping round a sequence as often as it has elements gives the sequence turned to begin at the start index |
| `IntrusiveList.List.IteratorInsertBefore` | common/c_cpp/src/c/list.c:638-647 | the element is inserted before the iterator's |
| `IntrusiveList.List.IteratorMoveElementBefore` | common/c_cpp/src/c/list.c:733-751 | the element ends just before the iterator's, the rest keeping its order |
| `Chain.LinkBefore` | common/c_cpp/src/c/list.c:391-401 | four link assignments insert a node before another in the sequence that the links spell in both directions |
| `Chain.LinkAfter` | common/c_cpp/src/c/list.c:271-286 | four link assignments insert a node after another |
| `Chain.Unlink` | common/c_cpp/src/c/list.c:529-530 | two link assignments take a node out of the sequence |
| `HashTable.Table.constructor` | common/c_cpp/src/c/wtable.c:156-200 | an empty table whose length is the least power of two from 2 on that is at least ten times the size asked for |
| `HashTable.Table.Insert` | common/c_cpp/src/c/wtable.c:218-289 | for any hash, the table refines a finite map: the key is bound to the data, with result 1 for a new key and 0 for a replaced one |
| `HashTable.Table.Lookup` | common/c_cpp/src/c/wtable.c:292-358 | the data the key is bound to, or null |
| `HashTable.Table.Remove` | common/c_cpp/src/c/wtable.c:360-435 | unbinds exactly this key and returns its data, or null |
| `HashTable.Table.ForEach` | common/c_cpp/src/c/wtable.c:49-68 | visits every binding exactly once |
| `Hash.MixIsBijection` | common/c_cpp/src/c/lookup2.c:41-52 | mix is a bijection on triples of 32-bit words, with an explicit inverse |
| `Hash.StateIsKept` | common/c_cpp/src/c/lookup2.c:114-146 | from different states the same bytes lead to different states, however many blocks follow |
| `Hash.OneBlockIsTold` | common/c_cpp/src/c/lookup2.c:104-147 | two keys of equal length that differ only inside one 12-byte block, or only in the tail, never finish with the same three words |
| `Hash.MixIsPlain` | common/c_cpp/src/c/lookup2.c:41-52 | the nine lines in plain arithmetic: differences, quotients and products by powers of two, and exclusive or |
| `Hash.XorIsBitwise` | common/c_cpp/src/c/lookup2.c:41-52 | the exclusive or used there works bit by bit |
| `Hash.HashStarts` | common/c_cpp/src/c/lookup2.c:111-114 | two of the three words start at the golden ratio: 2^32 divided by (1 + sqrt 5) / 2, rounded down |
| `Hash.HashTakesBlock` | common/c_cpp/src/c/lookup2.c:117-124 | a block of 12 bytes is added as three little-endian words, then mixed |
| `Hash.HashTakesRest` | common/c_cpp/src/c/lookup2.c:126-144 | the rest is added likewise, but the third word takes the length and, above its lowest byte, the last three bytes; then all is mixed |
| `Hash.MixInPlace` | common/c_cpp/src/c/lookup2.c:41-52 | the nine lines of assignments compute the specified mix |
| `Hash.TakeTail` | common/c_cpp/src/c/lookup2.c:126-142 | the falling-through switch adds exactly the remaining bytes and the length |
| `Hash.Whash` | common/c_cpp/src/c/lookup2.c:104-147 | the loop and the switch compute the specified hash of the key |
| `FastPrint.FastPrintU64` | common/c_cpp/src/c/strutils.c:108-240 | the whole buffer after the call: the text cut at the limit, its terminator, and everything behind that unchanged; the result is the length of the text, or -1 with nothing written when the width does not fit |
| `FastPrint.TextIsPaddedExactlyWhen` | common/c_cpp/src/c/strutils.c:221-234 | that text is the decimal padded with zeros to the width exactly for values below 10^8 or without a width |
| `FastPrint.StaysInsideExactlyWhen` | common/c_cpp/src/c/strutils.c:221-234 | what is written stays within the limit exactly for values below 10^8, without a width, for a width that is refused, or when width and digits fit together |
| `FastPrint.Overrun` | common/c_cpp/src/c/strutils.c:221-234 | a concrete call, of the value 10^8 with width 9 and limit 10, that puts its terminator at index 18 |
| `FastPrint.FiveOrSix` | common/c_cpp/src/c/strutils.c:180-220 | splitting off the leading digits and printing the rest as two pairs gives the decimal notation |
| `DictionaryFile.ReadingBackRestores` | mama/c_cpp/src/c/dictionary.c:555-683 | reading a written dictionary into an empty one restores what every fid stands for, when names hold no bar or newline and lines fit the buffer |
| `DictionaryFile.LoadedLine` | mama/c_cpp/src/c/dictionary.c:643-679 | each written line, even one that fills the buffer and loses its newline to the next read, adds exactly its field |
| `DictionaryFile.WriteAndReadBack` | mama/c_cpp/src/c/dictionary.c:555-683 | the two operations in sequence |
| `DictionaryFile.Dictionary.CreateFieldDescriptor` | mama/c_cpp/src/c/dictionary.c:498-531 | the fid stands for the new name and type, every other fid for what it did |
| `DictionaryFile.Dictionary.EnsureCapacity` | mama/c_cpp/src/c/dictionary.c:880-912 | growing the array keeps every field |
| `DictionaryFile.Dictionary.WriteToFile` | mama/c_cpp/src/c/dictionary.c:555-592 | the file is the lines of the fields in fid order, and is empty for a dictionary that has no array yet |
| `DictionaryFile.Dictionary.PopulateFromFile` | mama/c_cpp/src/c/dictionary.c:626-683 | the dictionary gains what the lines say, lines without two bars being passed over |
| `DictionaryFile.ValidateDelimLine` | mama/c_cpp/src/c/dictionary.c:606-624 | true exactly when there are two bars |
| `DictionaryFile.GetNextDelimStr` | mama/c_cpp/src/c/dictionary.c:595-601 | ends the string at the next bar and returns the place behind it |
| `DictionaryFile.ParseLine` | mama/c_cpp/src/c/dictionary.c:633-668 | cutting the buffer in place at the bars gives the field of the line |
| `DictionaryFile.StripTrailingWhiteSpace` | mama/c_cpp/src/c/fileutils.c:78-87 | exactly the trailing white space is overwritten |
| `DictionaryFile.AtoiOfDecimal` | mama/c_cpp/src/c/dictionary.c:667-671 | a printed number reads back as itself |
| `DictionaryFile.AtoiOfSigned` | mama/c_cpp/src/c/dictionary.c:667-671 | so does a negative one |
| `DictionaryFile.TwoLines` | mama/c_cpp/src/c/dictionary.c:573-592 | the text of a dictionary with two fields |
| `DictionaryFile.LineIsRead` | mama/c_cpp/src/c/dictionary.c:633-668 | any line of a number, a bar, a name, a bar, a number, and anything behind that is no digit: its field, the fid cut to 16 bits; trailing white space does not matter |
| `DictionaryFile.AtoiReads` | mama/c_cpp/src/c/dictionary.c:667-671 | leading white space and a sign are accepted, and the number ends at the first character that is no digit |
| `DictionaryFile.StripsBlanks` | mama/c_cpp/src/c/fileutils.c:78-87 | exactly the trailing white space goes |
| `DictionaryFile.JunkIsPassedOver` | mama/c_cpp/src/c/dictionary.c:643-679 | a line with fewer than two bars adds nothing |

## Left out

- Libraries, bridges, sockets, multicast set-up, files being opened, logging, statistics and entitlements: foreign calls or thin wrappers. Message fields are record fields; the clock, the address of a new node and the text of a file are parameters; memory never runs out.
- Red-black tree: RB_PREV mirrors RB_NEXT, and RB_AUGMENT is empty. The key is the timer's (deadline, address), the only key the tree is used with.
- Splay tree: SPLAY_NEXT and SPLAY_FOREACH. No part of the repository uses the tree, so keys are integers; any total order would do. Amortised cost is not proved.
- TimerHeap.Heap.Dispatch: callbacks create no timer that is already due; one that is makes the pass fire it too. An address belongs to one live timer, as the allocator sees to it, and is not given again with the same deadline within a pass.
- TimerWakeup.NoLostWakeup: the time that passes between reading the clock and entering select is not counted; the pipe is unbounded and writes do not fail. The shutdown byte and destroyHeap are not modelled.
- RwLock: creation, destruction and error returns. Upgrade and downgrade are a release followed by an acquire and need no steps of their own. Threads release only what they hold.
- Data quality: callbacks other than the delivery of messages (quality, gap, recap request, error), group subscriptions, snapshots of a subscription that expects no updates, recovery switched off, and re-initialising a context that already has a cache, which does not clear it. The recap request itself goes through imagerequest.c, which is not part of this model.
- DataQualityRuns.DeliveriesInSequence: message kinds SNAPSHOT, BOOK_SNAPSHOT and DDICT_SNAPSHOT are excluded, and so is the on-gap scheme, for which InSequenceExactlyWhen says which runs are in sequence.
- DataQualityRuns.GapKeepsUpExactlyWhen: like the other statements about fills, for a message that is not beyond the next number it excludes a context whose number plus the length of the ring passes 2^32.
- DataQualityRuns.ReplayIsWholeExactlyWhen: like PreInitialUpdates, it excludes numbers that wrap round at 32 bits.
- DataQualityLaws.NoNumberTwice: messages without a number (each of which resets the context's), with a conflate count of 0 or beyond their number, or marked as a repeat by their sender are excluded.
- DataQualityLaws.OtherIsHeldBack: on-gap caching, under which a takeover may also set off a gap fill, is excluded.
- DataQualityContext.Context.CacheMsg: taking a message back out of the cache when the client detaches it is not modelled.
- FaultTolerance.SteadyExactlyWhen: stops at the first deactivation, which clears the incarnations but not the state; weights are fixed, and a heartbeat's text is not parsed. The counter of found heartbeats is one for the process in the code and one for each member here.
- FaultToleranceGroup.GreatestCanBeElected: is about what can happen, since the network may lose every heartbeat.
- FaultToleranceGroup.NextOk: assumes fewer takeovers than a 32-bit incarnation can count, and that a member hears heartbeats only after its activation; what happens over the bridge before is in EarlyTakeover. Timeouts fire at any time, so no claim is made about how soon a group has an active member.
- PooledQueue.Queue.Next: like the other cursor operations, not used while the cursor stands on an item that has left the queue; `Begin` and `ToEnd` bring it back. Removing at the cursor never takes from the semaphore, unblocking posts without an item, and flushing returns after one item; these three are not modelled.
- QueueThreads.PoolIsBounded: the cursor operations are not part of the interleaving.
- IntrusiveList: iterator_destroy, whose search loop does not advance; the lock, which makes each call one step; element memory beyond the links; traversal with a callback. A list in use has at least one element where the code needs one, and freed elements are not passed to insertions.
- HashTable: null tables and null keys, freeing keys and data, and the three ways of emptying a table. Hash.Whash is the function the code uses; the table is proved for any.
- Hash: the two variants whash2 and whash3, and words wider than four bytes where long is.
- FastPrint.FastPrintU64: the buffer must be as long as its limit and as what the code writes, which StaysInsideExactlyWhen compares; signed and floating-point printing are left out.
- DictionaryFile: dictionaries built from messages, look-ups by name or index, and files that hold NUL characters; atoi does not overflow.
