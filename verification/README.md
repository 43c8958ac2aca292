# Verified models of the Xten core

This project models the core engines of the Xten fiber framework in Dafny and proves what each of them is
for. Every file is one engine or one layer of it.

| file | engine |
|---|---|
| `TimerWheel.dfy`, `WheelRuns.dfy`, `WheelTasks.dfy`, `RecurringTimers.dfy`, `TimerWheelManager.dfy` | the hierarchical timing wheel: one near wheel of 256 slots and four of 64, its cascades, whole runs of it, what its clients see of them, the life of recurring timers, and the object with its loops |
| `TimerSet.dfy` | the ordered timer set, whose keys are mutable fields of its elements |
| `FiberSync.dfy` | fiber mutex and condition variable, with direct handover of ownership |
| `WriterLock.dfy` | the writer-preferring read-write lock, a monitor with two condition variables |
| `WorkerGroup.dfy` | the fiber semaphore and the worker group bounded by it |
| `WorkStealing.dfy` | the scheduler's per-worker queues: push, pop, steal, balance |
| `ByteArray.dfy`, `Codec.dfy`, `Words.dfy`, `FieldIO.dfy` | the chunked byte array with its cursor, the encodings of typed fields, machine words as numbers, and the readers and writers of fields |
| `RockMessages.dfy` | the Rock request, response and notification over the byte array |
| `ObjPool.dfy` | the fixed-block allocator |
| `UrlCodec.dfy` | percent-encoding |
| `Prelude.dfy` | shared vocabulary |

`dafny verify dfyconfig.toml` checks everything.

## How the models are built

Code that changes objects in place is modelled by classes whose methods are proved equal to functions
on values; the properties are then proved of those functions, over all inputs, steps and runs.
Concurrent code is a machine whose steps are the critical sections of the source, taken in any order;
the methods are proved to take exactly those steps. The clock, the result of `mmap`, the address of a
new timer, the number a random policy draws and the choice of `notify_one` are inputs. A fiber is an
identifier, and what the source does between putting a fiber into a queue and giving up its thread is
one step.

Unsigned arithmetic is written out: ticks are taken modulo 2^32, timer keys modulo 2^64, counters of the
allocator modulo 2^32; zigzag numbers and what the varint readers gather are machine words
(bit-vectors), so that negating the least number wraps and bits shifted out are lost. Exceptions and the
dereference of a null node are results of the functions.

## Where the code does not do what one would expect

- A timer of the wheel whose delay ends in the first block behind a boundary of a higher level is filed
  into slot 0 of `_t[0]`, `_t[1]` or `_t[2]`, which no shift ever moves: it is lost. `StrandedExactly`
  says which delays these are; `AddFires` shows that all others fire when they should. A recurring
  timer is filed anew in every period and may run into such a slot later: one of 300 ticks asked for at
  tick 0 fires 54 times (`ThreeSecondsLost`). `SurvivesExactly` says in closed form which ones never do.
- A recurring timer of the wheel cannot be cancelled any more once it has fired, because its successor is
  another node: a `Cancel` changes its firings if and only if it comes before the first one
  (`CancelExactly`, `CancelExample`), and `Refresh` then leaves the old timer running beside the new one
  (`LateRefresh`).
- The byte array reads through a null node when anything, even nothing, is read at the capacity. So an
  empty string at the very end of a full array cannot be read back (`FieldsRoundTrip`), and a response
  with an empty body is lost when its result string fills the last node (`MessageRoundTrip`).
- The message parsers catch the exception of a short read and report success (`CutIsAccepted`).
- A positional read behind the contents passes the unsigned test for enough data (`ReadAt`).
- The scheduler's balancing starts its search with both queue numbers undefined but with the size of
  queue 0 as bound, so that queue 0 is never balanced, contrary to the comment that announces the search
  for the fullest and the emptiest queue (`BalancesExactly`).
- After a failed `mmap` the allocator believes it has a region at address null, and hands out all its
  blocks before it calls `mmap` again (`BogusExactly`, `BogusExample`).
- `reset` with the period a timer has already returns success even for a cancelled timer, and the clock
  rollover test wraps within an hour of the epoch (`Reset`, `RolloverExact`).
- The table of characters that are not percent-encoded contains `=`, which neither the comment beside it
  nor section 2.3 of RFC 3986 lists; the model follows the table.
- A worker group with a batch size of zero makes every submitter wait for ever (`ZeroStarves`).
- A second call of `WaitAll` (the destructor makes one, too) returns at once, even while tasks are
  outstanding; it promises something if and only if the first call has returned (`SecondWaitAll`).

## Model

| member | source | states |
|---|---|---|
| `TimerWheel.FiledIsPlaced` | src/timer.cpp:476-509 | `add_node` files by distance, yet every node lands where its placement invariant holds: in the slot of its own digit with the block of that slot still ahead, or in a dead slot |
| `TimerWheel.TickLevel` | src/timer.cpp:417-452 | one tick later a node above the near wheel is still well placed, or the tick has just entered its block, and then its slot is the one that is moved |
| `TimerWheel.AdvancePlaced` | src/timer.cpp:421-447 | after `++_time` all nodes but those of the slot to be moved are well placed, that slot is never a dead one, and all its nodes lie in the block just entered |
| `TimerWheel.Descends` | src/timer.cpp:383-390 | a moved node is refiled at a strictly lower level and never into slot 0 of `_t[0]`, `_t[1]` or `_t[2]` |
| `TimerWheel.DescendAll` | src/timer.cpp:383-390 | so no node goes back into the list being walked, and none is stranded by a cascade |
| `TimerWheel.ShiftRefines` | src/timer.cpp:417-453 | a whole shift, with its cascade and over the 32-bit wrap, loses, duplicates and strands no node and restores the placement invariant |
| `TimerWheel.DueExpiresNow` | src/timer.cpp:391-416 | every node in the slot that is drained expires at this very tick: nothing is collected early or late |
| `TimerWheel.DueIsExpired` | src/timer.cpp:391-416 | and the slot holds every pending node that expires now, each as often as it is pending |
| `TimerWheel.SuccessorAvoids` | src/timer.cpp:406-411 | the successor of a recurring node never lands in the list being drained, so draining ends |
| `TimerWheel.FirstExecuteIdle` | src/timer.cpp:460-461 | between updates the near slot of the current tick is empty: the first `timer_execute` of an update collects nothing and changes nothing |
| `TimerWheel.UpdateRefines` | src/timer.cpp:454-466 | one update of the five wheels is one step of a plain table of nodes: collect what expires at the new tick and is not cancelled, drop what expires, add the successors that will be fetched |
| `TimerWheel.UpdateConserves` | src/timer.cpp:391-466 | in an update the nodes held, stranded ones included, change only by those collected or dropped as cancelled and by one successor per recurring node collected |
| `WheelRuns.StepSettles` | src/timer.cpp:307-340 | adding, cancelling and updating all keep the placement invariant, so it holds in every run |
| `WheelRuns.StepTracks` | src/timer.cpp:307-340 | and of every timer handed out at most one node is ever pending: itself or one successor |
| `WheelRuns.ExactFiring` | src/timer.cpp:391-466 | from every reachable wheel and in every run, whatever is added, cancelled or refreshed around it, a pending timer is collected at exactly the updates the plain specification lists: at its expiry unless cancelled before, then at its period |
| `WheelRuns.NeverFires` | src/timer.cpp:391-466 | a timer that is not pending any more is never collected again |
| `WheelTasks.AddFires` | src/timer.cpp:307-323 | told by the request alone: a timer asked for with 1 to 2^32-1 ticks is collected at update `ticks` of any run, unless the run is shorter, it is cancelled before, or the delay ends in a dead slot; then never again if it is a one-shot timer, and in its period if it recurs |
| `WheelTasks.OneShotFires` | src/timer.cpp:399-413 | a one-shot timer that is neither lost nor cancelled in time is collected once, at update `ticks`, in every run that is long enough, and never otherwise |
| `WheelTasks.RunsOwnCallback` | src/timer.cpp:391-416 | whatever any run collects of a timer, successors included, carries the callback that it was asked for with |
| `WheelTasks.StepAsked` | src/timer.cpp:307-416 | and so for all timers at once: every step keeps the record of who asked for what, and collects by it |
| `WheelTasks.AskedInOrder` | src/timer.cpp:383-416 | two timers asked for in the same tick with the same delay are collected in the order of asking, whatever happens before, between and after, through all cascades; a cancelled or lost one excepted |
| `WheelTasks.UpdateInOrder` | src/timer.cpp:417-475 | for which every update, cascade and drain included, keeps the order of two nodes of one expiry in one slot, or collects them in it |
| `WheelRuns.CancelExactly` | src/timer.cpp:338-341 | a Cancel put anywhere into any run changes the firings of a timer if and only if it comes before the first one, and then there are none |
| `WheelRuns.FreshCancel` | src/timer.cpp:307-341 | the same from the AddTimer call on, lost timers included |
| `WheelRuns.StrandedExactly` | src/timer.cpp:489-503 | which delays are lost: exactly those of level 0, 1 or 2 that end in the first block behind a boundary of the level above |
| `WheelRuns.StrandedExample` | src/timer.cpp:494-497 | a concrete one: 16383 ticks asked for at tick 1 are never collected, in any run |
| `WheelRuns.NearAndFarSafe` | src/timer.cpp:484-507 | delays below 256 ticks and from 2^26 ticks on are never lost |
| `WheelRuns.LaterIsPeriodic` | src/timer.cpp:406-411 | firings of a recurring timer are exactly its period apart, and end only with the run or at a successor filed into a dead slot |
| `RecurringTimers.SurvivesExactly` | src/timer.cpp:406-411 | in closed form, by the greatest common divisor of the period and the wheel of its level, which recurring timers never have a successor filed into a dead slot |
| `RecurringTimers.FiresForever` | src/timer.cpp:406-411 | a recurring timer fires in every period of every length of run if and only if it survives in that sense |
| `RecurringTimers.RecurringFires` | src/timer.cpp:307-323 | in every run that does not cancel it, the firings of a recurring timer are those that the two lemmas above speak of, from the tick it was asked for on |
| `RecurringTimers.ThreeSecondsLost` | src/timer.cpp:406-411 | a concrete case: a timer of 300 ticks asked for at tick 0 fires exactly 54 times |
| `RecurringTimers.FiveHundredTwelveSurvives` | src/timer.cpp:406-411 | and another: one of 512 ticks asked for at tick 300 never meets a dead slot |
| `RecurringTimers.CancelExample` | src/timer.cpp:338-341 | that timer with a Cancel somewhere in a run of 2000 ticks: nothing fires if it comes in the first 512 ticks, and all three firings take place if it comes later |
| `RecurringTimers.LateRefresh` | src/timer.cpp:253-259 | refreshing a recurring timer that has fired leaves the old one running as if nothing had happened, beside the new one |
| `TimerWheelManagers.GapExact` | src/timer.cpp:366-366 | the 32-bit difference of the clock differs from the true gap by whole turns, and is it if and only if the clock did not go back and the gap fits 32 bits |
| `TimerWheelManagers.ClockKept` | src/timer.cpp:358-381 | `_time` is `_current` modulo 2^32 after any number of updates |
| `TimerWheelManagers.CatchUpIsRun` | src/timer.cpp:373-380 | catching up by any number of ticks is a run of that many updates: the same state, and the same nodes in the same order |
| `TimerWheelManagers.CarryStep` | src/timer.cpp:436-451 | the carry loop stops at the first digit other than 0, by level 3 at the latest, so the mask never overflows |
| `TimerWheelManagers.TimerWheelManager.constructor` | src/timer.cpp:276-298 | the wheels start empty and settled |
| `TimerWheelManagers.TimerWheelManager.AddNode` | src/timer.cpp:476-509 | the in-place filing, equal to the function the results above are about |
| `TimerWheelManagers.TimerWheelManager.MoveList` | src/timer.cpp:383-390 | refiling while walking the very list, then clearing it, ends and equals moving the whole list at once |
| `TimerWheelManagers.TimerWheelManager.TimerExecute` | src/timer.cpp:391-416 | draining the slot from the front while successors are filed collects the nodes not cancelled in list order and equals the specification |
| `TimerWheelManagers.TimerWheelManager.TimerShift` | src/timer.cpp:417-453 | the odometer loop finds the slot entered and equals the specification |
| `TimerWheelManagers.TimerWheelManager.TimerUpdate` | src/timer.cpp:454-475 | drain, shift, drain: the tasks handed out and the new state are those of the specification |
| `TimerWheelManagers.TimerWheelManager.AddTimer` | src/timer.cpp:307-323 | below ten milliseconds the callback runs at once and nothing is filed; otherwise the timer is filed as an `Add` of the runs, one tick for every full ten milliseconds, and its callback recorded as asked for |
| `TimerWheelManagers.TimerWheelManager.DelTimer` | src/timer.cpp:338-341 | only a mark: the node stays where it is until it comes due |
| `TimerWheelManagers.TimerWheelManager.Refresh` | src/timer.cpp:253-259 | a cancel and an add with the same delay |
| `TimerWheelManagers.TimerWheelManager.ClearTimer` | src/timer.cpp:342-357 | nothing is held afterwards, stranded nodes included |
| `TimerWheelManagers.TimerWheelManager.ExpireTimer` | src/timer.cpp:358-381 | one update per tick of the 32-bit gap; one task per node collected, in order, each the callback that its timer was asked for with; `_time` stays `_current` modulo 2^32 |
| `TimerSets.RolloverExact` | src/timer.cpp:222-232 | a rollover is a step back by more than an hour, except within an hour of the epoch, where the unsigned subtraction wraps and any step back is one |
| `TimerSets.WrapIs` | src/timer.cpp:57-73 | keys are exact within a word and wrap once beyond it |
| `TimerSets.OrderIs` | src/timer.cpp:7-33 | the order of the set: by due time, and among equals by address |
| `TimerSets.TimerManager.LowerBound` | src/timer.cpp:182-182 | the search by key over a set whose keys are mutable fields is right because the set is strictly ordered |
| `TimerSets.TimerManager.Find` | src/timer.cpp:49-50 | finding by key finds the timer itself exactly if it is in the set |
| `TimerSets.TimerManager.Insert` | src/timer.cpp:208-208 | insertion puts a timer at its place and keeps the strict order by (`m_next`, address) |
| `TimerSets.ErasedMembers` | src/timer.cpp:50-50 | erasing takes out the one timer and no other |
| `TimerSets.TimerManager.AddTimer` | src/timer.cpp:116-122 | the set grows by the new timer, due one period from now; the poller is woken exactly if the timer is first and nobody has woken it yet; addresses of timers gone may come again |
| `TimerSets.TimerManager.InsertFront` | src/timer.cpp:206-220 | when the front has changed and the wake-up is due |
| `TimerSets.TimerManager.Cancel` | src/timer.cpp:44-55 | succeeds exactly if there is a callback, takes the timer out and leaves the set otherwise as it was |
| `TimerSets.TimerManager.Refresh` | src/timer.cpp:57-73 | the key changes only while the timer is out of the set; the set holds the same timers afterwards |
| `TimerSets.TimerManager.Reset` | src/timer.cpp:75-105 | the new key counts from now or from the start of the running period, in wrapping arithmetic; an unchanged period is accepted even for a cancelled timer; the poller is woken exactly if the set was changed, the timer is first and nobody has woken it yet |
| `TimerSets.TimerManager.GetNextTimer` | src/timer.cpp:138-157 | the wait to the earliest of all timers, or the largest word |
| `TimerSets.TimerManager.DueCount` | src/timer.cpp:181-188 | lower bound and the walk over equal keys together find exactly the due prefix, whatever the address of the search key |
| `TimerSets.TimerManager.RenewAll` | src/timer.cpp:191-203 | recurring timers go back in with new keys, one-shot ones lose their callback, while the rest of the set is untouched |
| `TimerSets.RenewedIs` | src/timer.cpp:191-203 | what becomes of an expired timer: a recurring one is due one period from now and keeps its callback, another loses it |
| `TimerSets.TimerManager.ListExpiredCb` | src/timer.cpp:159-204 | exactly the timers due by now (all after a rollover) are taken, their callbacks in key order; one-shot ones leave for good, recurring ones are due one period from now, the others unchanged, and the order is kept |
| `FiberSync.StepPlaces` | src/mutex.cpp:128-281 | no critical section creates, loses or duplicates a fiber among owner, queue, condition queue and those popped in flight |
| `FiberSync.StepKeepsInv` | src/mutex.cpp:128-281 | over all interleavings, with `signal` as two steps, every fiber is in at most one place and nobody queues for a free mutex |
| `FiberSync.AssertionsHold` | src/mutex.cpp:134-136 | the assertions of `lock` and `signal` hold whenever callers respect the calling rules |
| `FiberSync.BroadcastAssertionsHold` | src/mutex.cpp:262-269 | and those in every round of the loop of `broadcast` |
| `FiberSync.ScheduledIsOwner` | src/mutex.cpp:176-188 | every `Schedule` names the fiber that has just become the owner, and every change of owner is announced |
| `FiberSync.ResumesAsOwner` | src/mutex.cpp:143-153 | a fiber suspended in `lock` or `wait` is scheduled exactly when it stops being suspended, and then it owns the mutex |
| `FiberSync.StaysOwner` | src/mutex.cpp:128-281 | over any run the owner stays the owner, and in no queue, until a step of its own |
| `FiberSync.AssertedOnResume` | src/mutex.cpp:148-153 | what is asserted after `YieldToHold` in `lock` and `wait`: over any run until its own next step, a suspended fiber is the owner and in no queue if and only if it has been scheduled |
| `FiberSync.HandoverAllOrder` | src/mutex.cpp:262-280 | `broadcast` keeps the order of the condition's queue |
| `FiberSync.StepIsFifo` | src/mutex.cpp:128-188 | in one step, whoever becomes the owner, followed by the queue, is the queue before followed by those that arrived |
| `FiberSync.RunIsFifo` | src/mutex.cpp:128-281 | over any run the fibers that became owner, then those still queued, are those queued at first, then those that arrived, in order: no barging |
| `FiberSync.QueueAdvances` | src/mutex.cpp:176-188 | a queued fiber moves up at a release and at nothing else |
| `FiberSync.BoundedWait` | src/mutex.cpp:176-188 | the fiber at index k becomes the owner, and is scheduled, at release number k + 1 |
| `FiberSync.CondStepIsFifo` | src/mutex.cpp:201-281 | in one step the fibers that leave the queue of the condition, followed by those still in it, are those before, followed by the one that came to wait |
| `FiberSync.CondIsFifo` | src/mutex.cpp:201-281 | over any run the fibers that left the queue of the condition by a signal or a broadcast, then those still in it, are those in it at first, then those that waited, in order |
| `FiberSync.SignalsAdvance` | src/mutex.cpp:223-234 | a signal takes exactly the front of a nonempty queue, and a queued fiber moves up by one at a signal and at nothing else short of a broadcast |
| `FiberSync.SignalReaches` | src/mutex.cpp:223-234 | the fiber at index k of the queue of the condition is popped by signal number k + 1, if no broadcast comes before |
| `FiberSync.FiberMutex.LockBy` | src/mutex.cpp:128-146 | the method takes that step, its assertions proved, and suspends exactly if it did not get the mutex |
| `FiberSync.FiberMutex.UnlockNoLock` | src/mutex.cpp:176-188 | hands the mutex to the fiber that waited longest |
| `FiberSync.FiberMutex.UnlockBy` | src/mutex.cpp:156-161 | the step of `unlock` and the fiber it schedules |
| `FiberSync.FiberMutex.UnlockIfNotUniqueBy` | src/mutex.cpp:163-174 | lets go exactly if somebody queues |
| `FiberSync.FiberCondition.WaitBy` | src/mutex.cpp:201-216 | queueing on the condition and letting go of the mutex are one step |
| `FiberSync.FiberCondition.SignalFirst` | src/mutex.cpp:223-234 | the half of `signal` under the lock of the condition: the front of the queue leaves it, and is the fiber handed on |
| `FiberSync.FiberCondition.SignalSecond` | src/mutex.cpp:235-251 | the half under the lock of the mutex, its assertions proved |
| `FiberSync.FiberCondition.BroadcastAll` | src/mutex.cpp:253-281 | the loop, its assertions proved, equals handing over the whole queue |
| `WriterLock.StepKeepsInv` | src/mutex.h:252-307 | over all interleavings, with spurious wake-ups and any choice of `notify_one`: never a writer with a reader or another writer, counters equal to the threads in each role, no lost wake-up |
| `WriterLock.SafeFromTheStart` | src/mutex.h:245-307 | so in every run of a new lock: exclusion, counters, and a woken writer or a holder whenever somebody is blocked |
| `WriterLock.ReadersEnterBehindWriters` | src/mutex.h:265-275 | a reader enters only when no writer holds the lock or waits for it |
| `WriterLock.NoLostWakeup` | src/mutex.h:277-307 | if nobody holds the lock and some thread is blocked, a woken writer is there whose test succeeds |
| `WriterLock.NeverStuck` | src/mutex.h:252-307 | if nobody holds the lock and somebody wants it, somebody can get it at once |
| `WriterLock.WritersPreferred` | src/mutex.h:252-275 | in any run, while a writer waits and until one enters, no reader joins and no waiting writer disappears |
| `WriterLock.StepKeepsThreads` | src/mutex.h:252-307 | in one step exactly the caller of `wrlock` or `rdlock` joins the threads inside the lock, exactly the caller of an unlock leaves them, and no writer becomes a reader or a reader a writer |
| `WriterLock.RunKeepsThreads` | src/mutex.h:252-307 | over any run a thread is inside, as a writer or as a reader, exactly by how often it called the lock more than the unlock: nobody is forgotten |
| `WriterLock.EntersExactly` | src/mutex.h:252-275 | a writer that tests gets in if and only if nobody holds the lock, a reader if and only if no writer holds it or waits; whoever does not is blocked on its own condition variable |
| `WriterLock.UnlockNotifies` | src/mutex.h:277-307 | whom an unlock wakes: if it leaves the lock free and a writer waits, one blocked writer and no reader; otherwise all blocked readers and no writer |
| `WriterLock.ReadersReleased` | src/mutex.h:277-307 | after an unlock that leaves the lock free with no writer waiting every blocked reader is woken, and all of them enter, in whatever order they test again |
| `WriterLock.WPRWMutex.WrLock` | src/mutex.h:252-263 | the method takes that step from entry to acquiring or waiting |
| `WriterLock.WPRWMutex.WrLockAgain` | src/mutex.h:256-262 | and from a wake-up on |
| `WriterLock.WPRWMutex.RdTest` | src/mutex.h:265-275 | the reader's loop test, first or repeated |
| `WriterLock.WPRWMutex.WrUnlock` | src/mutex.h:277-291 | which condition variable is notified, in terms of who waits |
| `WriterLock.WPRWMutex.RdUnlock` | src/mutex.h:293-307 | the last reader out wakes a writer if one waits, anyone else the readers |
| `WorkerGroups.StepKeepsInv` | src/worker.cpp:150-194 | semaphore value, granted permits, outstanding tasks and permits taken by `WaitAll` always add up to the batch size, and clients queue only at value zero |
| `WorkerGroups.NeverTooMany` | src/worker.cpp:150-158 | in every run at most batchSize tasks are scheduled and unfinished |
| `WorkerGroups.BatchBound` | src/worker.cpp:137-158 | so in every run of a new group |
| `WorkerGroups.ClosedForGood` | src/worker.cpp:175-187 | when `WaitAll` is through no task is outstanding, and none is ever scheduled again |
| `WorkerGroups.SecondWaitAll` | src/worker.cpp:175-187 | a second call returns at once; it keeps the promise that no task is outstanding, now or later, if and only if the first call has returned |
| `WorkerGroups.SecondWaitAllExample` | src/worker.cpp:175-187 | a concrete run: with two permits the second call returns while a task is outstanding |
| `WorkerGroups.Progress` | src/worker.cpp:150-194 | while `WaitAll` has not taken every permit, whoever waits is waited for by a task or submitter that can act |
| `WorkerGroups.ZeroStarves` | src/worker.cpp:137-158 | a group with a batch size of zero never grants a permit: everybody who asks stays in the queue, in every run |
| `WorkerGroups.RunIsFifo` | src/mutex.cpp:56-95 | permits are passed on strictly in the order in which they were asked for |
| `WorkerGroups.FiberSemphore.TryWait` | src/mutex.cpp:41-54 | takes a permit or changes nothing |
| `WorkerGroups.FiberSemphore.Wait` | src/mutex.cpp:56-72 | takes a permit or queues |
| `WorkerGroups.FiberSemphore.Post` | src/mutex.cpp:74-95 | hands the permit on instead of counting it up while somebody queues |
| `WorkerGroups.WorkerGroup.Submit` | src/worker.cpp:150-158 | the step of a submitter up to its permit |
| `WorkerGroups.WorkerGroup.Start` | src/worker.cpp:156-156 | the task becomes outstanding |
| `WorkerGroups.WorkerGroup.DoWorkEnds` | src/worker.cpp:189-194 | a finished task gives its permit to whoever waited longest |
| `WorkerGroups.WorkerGroup.WaitAllBegins` | src/worker.cpp:177-179 | only the first call goes on |
| `WorkerGroups.WorkerGroup.WaitAllRound` | src/worker.cpp:180-185 | one round of the acquisition loop |
| `WorkStealing.StepKeepsInv` | src/scheduler.cpp:155-293 | over all interleavings `_queueSizes[i]` is the length of queue i whenever its lock is free, a task pinned to a valid index is in that queue or with that worker, and only loose tasks are in transit |
| `WorkStealing.RunConserves` | src/scheduler.cpp:155-293 | over all runs the copies of a task queued, held and in transit are those pushed less those finished or suspended |
| `WorkStealing.PinnedStaysHome` | src/scheduler.cpp:200-226 | whoever pops or steals a task pinned to a valid index is that worker |
| `WorkStealing.PinnedInOrder` | src/scheduler.cpp:155-226 | over all runs the tasks pinned to k are taken in the order they were put into its queue, steals and balancing notwithstanding |
| `WorkStealing.QueueStep` | src/scheduler.cpp:155-293 | queue by queue: what is put in comes in at the tail, what its worker takes leaves at the front, and a queue that a step does not name stays as it is |
| `WorkStealing.QueueConserves` | src/scheduler.cpp:155-293 | over all runs, for each single queue: what is in it are the tasks that were in it, and those pushed, rescheduled or balanced to it, less those popped, stolen or balanced from it |
| `WorkStealing.BatchIsPushes` | src/scheduler.h:112-119 | a batch is its tasks pushed one after the other into one queue |
| `WorkStealing.BalancingHelps` | src/scheduler.h:307-342 | undisturbed balancing moves at most five tasks, touches no third queue and leaves the fuller queue still longer |
| `WorkStealing.BalancingMoves` | src/scheduler.h:307-342 | which tasks move: the last loose ones of the fuller queue, five or as many as there are, the very last first, to the tail of the other; all others stay in order |
| `WorkStealing.TakesLastLoose` | src/scheduler.h:313-331 | a balancing thread takes the last loose tasks, the very last first, as many as there are up to the limit, and all others stay in order |
| `WorkStealing.ScanFinds` | src/scheduler.h:285-305 | what the scan for fullest and emptiest queue finds, relative to queue 0 |
| `WorkStealing.BalancesExactly` | src/scheduler.h:285-307 | balancing takes place if and only if two queues differ by more than ten and the size of queue 0 lies strictly between theirs; queue 0 is never balanced |
| `WorkStealing.FullQueueZeroIgnored` | src/scheduler.h:286-307 | a concrete case: sizes 20, 0, 0 are left alone |
| `WorkStealing.RoundRobinTurns` | src/scheduler.h:245-250 | two round-robin choices meet in one queue if and only if the number of choices between them is a multiple of the number of queues; the first of all is queue 0 |
| `WorkStealing.Scheduler.SelectBestQueue` | src/scheduler.h:235-279 | a valid pin is honoured; otherwise the first of the least loaded queues, the next in turn, or the one drawn |
| `WorkStealing.Scheduler.Schedule` | src/scheduler.h:60-73 | pushes into the queue selected, as the push step |
| `WorkStealing.Scheduler.ScheduleBatch` | src/scheduler.h:103-120 | pushes a batch into one queue, in order |
| `WorkStealing.Scheduler.PopLocal` | src/scheduler.cpp:157-177 | takes the front of the own queue, or finds it empty |
| `WorkStealing.Scheduler.StealScan` | src/scheduler.cpp:183-199 | the first of the longest other queues, if it has two tasks or more |
| `WorkStealing.Scheduler.StealTake` | src/scheduler.cpp:203-225 | takes the loose task nearest the tail, or finds that there is none |
| `WorkStealing.Scheduler.TakeForBalance` | src/scheduler.h:313-331 | the walk from the tail with erasures equals the recursive description of which tasks move |
| `WorkStealing.Scheduler.AutoLoadBalance` | src/scheduler.h:283-343 | acts exactly when the condition above holds, and then as both phases of the machine |
| `ByteArrays.GrownBounds` | src/bytearray.cpp:720-753 | enough nodes are added and not one more |
| `ByteArrays.ByteArray.AddFreeCapacity` | src/bytearray.cpp:720-753 | capacity stays node count times node size, and the cached node is right afterwards, also when it was null |
| `ByteArrays.ByteArray.Write` | src/bytearray.cpp:257-301 | a write over any chunk boundaries is a write into a flat array with a cursor |
| `ByteArrays.WritesThere` | src/bytearray.cpp:257-301 | byte by byte, what a write leaves: the bytes written at the cursor, all others as they were |
| `ByteArrays.ByteArray.Read` | src/bytearray.cpp:308-341 | a read is a flat read, with the exception when too little is left and the null node when the cursor is at the capacity |
| `ByteArrays.ByteArray.ReadAt` | src/bytearray.cpp:343-384 | a positional read is a flat read from there and leaves the cursor; from behind the contents the unsigned test lets it through, and it reads what the memory holds, or the null node behind the capacity |
| `ByteArrays.ByteArray.SetPosition` | src/bytearray.cpp:599-621 | any position up to the capacity is accepted, the contents only grow, and the cached node is null exactly at the capacity |
| `ByteArrays.ByteArray.Clear` | src/bytearray.cpp:584-597 | empty again, with one node left and its cached node right |
| `ByteArrays.ByteArray.GetReadBuffers` | src/bytearray.cpp:755-787 | the stretches of node memory, one after the other, are exactly the next readable bytes |
| `ByteArrays.ByteArray.GetReadBuffersAt` | src/bytearray.cpp:789-830 | the same from any position, with the same unsigned difference |
| `Codec.VarFits` | src/bytearray.cpp:158-172 | a 32-bit varint takes at most 5 bytes and a 64-bit one at most 10, the sizes of the buffers |
| `Codec.VarBytesAre` | src/bytearray.cpp:158-172 | byte i of a varint is the number divided by 128^i, modulo 128, with the top bit set in all bytes but the last |
| `Codec.VarBytesNeeded` | src/bytearray.cpp:158-172 | and there is no byte too many |
| `Codec.FixedBytes` | src/bytearray.cpp:99-192 | byte i of a fixed-width number of w bytes is its unsigned value divided by 256^(w-1-i), modulo 256, in a big-endian array, and divided by 256^i in a little-endian one; negative numbers in two's complement |
| `Codec.LengthBytesAre` | src/bytearray.cpp:227-242 | the same of the length before a string |
| `Codec.ZigzagIs32` | src/bytearray.cpp:26-54 | zigzag maps k to 2k and -1-k to 2k+1, on all 32-bit words |
| `Codec.ZigzagIs64` | src/bytearray.cpp:41-59 | and on all 64-bit words |
| `Codec.SignedVarint32` | src/bytearray.cpp:153-156 | so a signed varint is the varint of that number |
| `Codec.SignedVarint64` | src/bytearray.cpp:194-197 | and of 64 bits |
| `Codec.Zigzag32Bijection` | src/bytearray.cpp:26-54 | zigzag decoding and encoding undo each other on every 32-bit word, the least number included |
| `Codec.Zigzag64Bijection` | src/bytearray.cpp:41-59 | and on every 64-bit word |
| `Codec.VarBack` | src/bytearray.cpp:456-477 | the varint loop gives back the number from any accumulator and shift |
| `Codec.FixedBack` | src/bytearray.cpp:438-448 | fixed-width numbers come back in either byte order |
| `Codec.StrBack` | src/bytearray.cpp:549-583 | what any string comes back as: cut to its length field and at its first NUL |
| `Codec.CStringWhole` | src/bytearray.cpp:549-556 | a string built from a buffer is the whole buffer if and only if there is no NUL in it |
| `Codec.CStringIs` | src/bytearray.cpp:549-556 | of a string with a NUL in it exactly what is before the first one comes back |
| `Codec.FieldBack` | src/bytearray.cpp:99-583 | a field is read back as it was if and only if it is a number or a NUL-free string that fits its length field and, when empty, does not end at the capacity |
| `Codec.FieldCut` | src/bytearray.cpp:308-313 | a field cut short is never read as another value: the read ends in the exception |
| `Codec.WriteTwice` | src/bytearray.cpp:257-301 | two writes are one write of both: bytes, cursor and capacity |
| `Codec.WriteAllBytes` | src/bytearray.cpp:99-255 | writing field by field is writing all their bytes |
| `Codec.FieldsRoundTrip` | src/bytearray.cpp:99-583 | any list of fields, written at any position, rewound and read as the same kinds, comes back if and only if every field is readable and not both the last one is an empty string and the writing ended at the capacity; it then ends at the same position |
| `Codec.FullWhen` | src/bytearray.cpp:720-753 | a fresh array is full exactly when the bytes are a positive multiple of the node size |
| `FieldIO.WriteFixed` | src/bytearray.cpp:99-192 | the writers of fixed-width numbers, byte swap included, write the encoding; the contents then hold, from the old position on, each byte as the quotient of the number that it is |
| `FieldIO.ReadNumber` | src/bytearray.cpp:386-502 | the readers of fixed-width numbers: what they give is the one number of that width whose bytes are there |
| `FieldIO.NumberOnWire` | src/bytearray.cpp:99-192 | writing a number leaves those bytes, whatever the array, the position and the byte order |
| `FieldIO.NumberFromWire` | src/bytearray.cpp:386-448 | and reading any bytes, ordered by the byte order of the array, gives the number they stand for |
| `FieldIO.FillVar` | src/bytearray.cpp:161-169 | the loop that fills the varint buffer never overruns it |
| `FieldIO.WriteVarUint` | src/bytearray.cpp:158-172 | the varint writers write the encoding |
| `FieldIO.OrIsAdd32` | src/bytearray.cpp:466-473 | on 32-bit words, at every shift the loop reaches, `val |= byte << i` adds the byte times a power of two, less the bits that do not fit |
| `FieldIO.OrIsAdd64` | src/bytearray.cpp:519-527 | and on 64-bit words |
| `Words.Digit32` | src/bytearray.cpp:463-472 | `(uint32_t)(tmp & 0x7F)`, or the byte itself below 0x80, as a word and as a number |
| `Words.Digit64` | src/bytearray.cpp:517-526 | the same for 64 bits |
| `FieldIO.ReadVarUint32` | src/bytearray.cpp:456-477 | the 32-bit varint reader, whose loop or-s machine words together, gives the number the varint stands for, with the exception, the null node and the overlong shift |
| `FieldIO.ReadVarUint64` | src/bytearray.cpp:510-531 | the 64-bit reader |
| `FieldIO.WriteZigzag` | src/bytearray.cpp:153-156 | the signed varint writers |
| `FieldIO.ReadVarint32` | src/bytearray.cpp:450-454 | the signed 32-bit reader |
| `FieldIO.ReadVarint64` | src/bytearray.cpp:504-508 | the signed 64-bit reader |
| `FieldIO.WriteString` | src/bytearray.cpp:227-255 | the string writers, length and bytes in two writes, write the encoding; the contents then hold the length, byte by byte, and behind it the string |
| `FieldIO.ReadString` | src/bytearray.cpp:549-583 | the string readers, up to the first NUL |
| `RockMessages.FillReads` | src/rock/rock_protocol.cpp:73-86 | parsing agrees with reading the fields one by one unless a read runs short |
| `RockMessages.ParsedBack` | src/rock/rock_protocol.cpp:316-342 | the bytes of a message anywhere in an array, in either byte order, are parsed as that message if and only if its strings are plain and not both its body is empty and they end at the capacity |
| `RockMessages.MessageRoundTrip` | src/rock/rock_protocol.cpp:33-188 | a message serialized into a new array, rewound and parsed comes back equal if and only if its strings are plain and it is not of the lost family: a response without a body whose result string fills the last node |
| `RockMessages.LostExample` | src/rock/rock_protocol.cpp:108-136 | a concrete one: parsing it goes through the null node |
| `RockMessages.BytesLength` | src/protocol.cpp:52-64 | the serialized sizes on which the lost family rests |
| `RockMessages.RequestLayout` | src/rock/rock_protocol.cpp:58-71 | every byte of a serialized request: 1, the sequence number, the command and the length with the highest byte first, the body |
| `RockMessages.ResponseLayout` | src/rock/rock_protocol.cpp:108-121 | of a response: 2, the three numbers, the two strings with their lengths |
| `RockMessages.NotifyLayout` | src/rock/rock_protocol.cpp:160-173 | of a notification: 3, its number, its body with the length |
| `RockMessages.CutDefaults` | src/protocol.cpp:44-50 | a message cut short right behind its type byte is received with the defaults: 404 and `unhandle` in a response, zeros and empty bodies elsewhere |
| `RockMessages.CutIsAccepted` | src/rock/rock_protocol.cpp:73-86 | a message cut short anywhere behind its type byte is accepted all the same: exactly the fields that came whole are kept, the others at their defaults; the one exception is a response whose empty result string ends at the capacity |
| `RockMessages.CutExample` | src/rock/rock_protocol.cpp:73-86 | a concrete case: of a request cut at five bytes the sequence number is kept and nothing else |
| `RockMessages.RockRequest.SerializeToByteArray` | src/rock/rock_protocol.cpp:58-71 | writes type, numbers and body as the field list of the message |
| `RockMessages.RockRequest.ParseBase` | src/protocol.cpp:34-43 | the part of the base class, fields assigned up to the first short read |
| `RockMessages.RockRequest.ParseFromByteArray` | src/rock/rock_protocol.cpp:73-86 | assigns the fields as far as they can be read and reports success, a null node excepted |
| `RockMessages.RockResponse.SerializeToByteArray` | src/rock/rock_protocol.cpp:108-121 | the same for a response |
| `RockMessages.RockResponse.ParseBase` | src/protocol.cpp:66-77 | the part of the base class, fields assigned up to the first short read |
| `RockMessages.RockResponse.ParseFromByteArray` | src/rock/rock_protocol.cpp:123-136 | base class and body |
| `RockMessages.RockNotify.SerializeToByteArray` | src/rock/rock_protocol.cpp:160-173 | the same for a notification |
| `RockMessages.RockNotify.ParseFromByteArray` | src/rock/rock_protocol.cpp:175-188 | the same for a notification |
| `RockMessages.RequestBytes` | src/protocol.cpp:6-14 | `ToByteArray` of a request, rewound, holds its big-endian bytes |
| `RockMessages.ResponseBytes` | src/protocol.cpp:6-14 | the same for a response |
| `RockMessages.NotifyBytes` | src/protocol.cpp:6-14 | the same for a notification |
| `RockMessages.ParseMessage` | src/rock/rock_protocol.cpp:316-342 | the type byte selects the class that parses the rest; any other type gives no message |
| `RockMessages.DeliverRequest` | src/rock/rock_protocol.cpp:213-222 | the objects together: a request serialized, rewound and parsed is received equal if and only if its body is plain |
| `RockMessages.DeliverResponse` | src/rock/rock_protocol.cpp:213-222 | a response if and only if it is plain and not of the lost family; a plain one of that family breaks the parser |
| `RockMessages.DeliverNotify` | src/rock/rock_protocol.cpp:213-222 | a notification if and only if its body is plain |
| `ObjPools.StepKeepsInv` | src/objpool.h:60-103 | allocations, frees and writes of clients into their blocks keep live, free and unused memory pairwise disjoint and the links in the freed blocks intact, failed calls of `mmap` and what follows them included |
| `ObjPools.RunKeepsInv` | src/objpool.h:60-103 | so they are in every run |
| `ObjPools.AllocIsSafe` | src/objpool.h:62-93 | the exception is raised exactly if a region is needed and `mmap` fails; otherwise the block handed out lies in mapped memory and overlaps no block in use, unless the fields say that the next one is a bogus one |
| `ObjPools.BogusExactly` | src/objpool.h:77-91 | after a failed `mmap` and until it is called again, in every run, the pool hands out the unmapped address of the k-th bogus block if and only if the free list is empty and k is less than the blocks of a region, and calls `mmap` again if and only if the free list is empty and a whole region of them was handed out |
| `ObjPools.BogusRun` | src/objpool.h:77-91 | so without frees the next allocations get the bogus addresses one after the other, as many as a region has blocks, and the one after them calls `mmap` |
| `ObjPools.BogusExample` | src/objpool.h:77-91 | a concrete run: after one failure a pool of 64-byte objects hands out 0, 64, 128 and so on 42240 times before it maps memory |
| `ObjPools.FitsExactly` | src/objpool.h:76-91 | the first block of a region lies in it if and only if an object is no bigger than a region: nothing checks the size |
| `ObjPools.ObjectsFit` | src/objpool.h:76-91 | in every run each block, in use or freed, has room for an object and for a link and no more; objects and links in different blocks never overlap and lie in mapped memory |
| `ObjPools.FreesCounted` | src/objpool.h:96-103 | the counter of frees counts them, modulo 2^32 |
| `ObjPools.FreeThenAlloc` | src/objpool.h:60-103 | an allocation right after a free gives the same block back and leaves the pool otherwise as it was |
| `ObjPools.ListIsAcyclic` | src/objpool.h:67-73 | following the links in memory visits every freed block once and ends in null |
| `ObjPools.MmapsAreCeiling` | src/objpool.h:76-91 | in every run the regions mapped are the ceiling of the blocks cut over the blocks per region, the failed calls are that of the bogus blocks, or one more right after a failure, and the blocks cut are those live or free |
| `ObjPools.ObjPool.Allocate` | src/objpool.h:62-93 | the method takes that step |
| `ObjPools.ObjPool.Release` | src/objpool.h:96-103 | the method takes that step |
| `UrlCodec.DecodesEncoded` | src/util.cpp:296-374 | what comes back for every byte string and every pair of flags |
| `UrlCodec.RoundTrip` | src/util.cpp:296-374 | decoding undoes encoding if and only if the flags agree on spaces or there is no space |
| `UrlCodec.EncodedIsSafe` | src/util.cpp:303-327 | an encoded string holds unreserved characters and the markers only |
| `UrlCodec.EncodesEach` | src/util.cpp:296-327 | every byte, in any context: an unreserved one stands for itself, a blank is a plus if so asked for, any other is a percent sign and its two digits in upper case |
| `UrlCodec.PlainTable` | src/util.cpp:269-293 | the table of characters not encoded, listed one by one |
| `UrlCodec.EscapeDecodes` | src/util.cpp:340-374 | a percent sign and the two digits of a byte, each in either case, decode to that byte in any context |
| `UrlCodec.OtherDecodes` | src/util.cpp:340-374 | a plus is a blank if so asked for, and a character that starts no escape stands for itself, in any context |
| `UrlCodec.UrlEncode` | src/util.cpp:296-339 | the loop with its lazily created buffer equals the character-by-character encoding |
| `UrlCodec.UrlDecode` | src/util.cpp:340-374 | and the decoder, which may skip ahead, likewise |

## Left out

- TimerWheelManagers.TimerWheelManager.ExpireTimer: does not model that the loop counter is a signed 32-bit int, which overflows for gaps of 2^31 ticks and more; the loop is counted in unbounded integers.
- TimerWheelManagers.TimerWheelManager.AddNode: does not model nodes as shared objects; a node is a record, and the cancel flags are a set of timers kept by the manager, because nothing else of a node ever changes. The successor of a recurring timer is known to nobody outside the wheel, so it cannot be cancelled.
- TimerWheelManagers.TimerWheelManager.constructor: does not model the timer thread, the spin lock or the worker that runs the collected tasks.
- TimerSets.TimerManager.AddTimer: does not model red-black trees; the set is an ordered sequence searched by key, and each locked section is one step. Null entries in the set and the test of a cancelled timer outside the lock are not part of it.
- FiberSync.FiberMutex.LockBy: does not model the pair of scheduler and fiber in the queues, only the fiber, nor a fiber that is scheduled before it has given up its thread.
- WorkerGroups.WorkerGroup.Submit: does not model the null callback, which is ignored, nor the batch overload, which takes every permit before it schedules anything.
- WorkStealing.Scheduler.AutoLoadBalance: is stated for a thread that nobody disturbs; disturbed balancing is covered by the steps of the machine.
- WorkStealing.RunConserves: does not model the wake-up of idle threads, the counters of hits and steals, or the global test whether the scheduler may stop.
- ByteArrays.ByteArray.SetPosition: leaves open what the bytes between the old end and a position beyond it are, as the source does.
- FieldIO.ReadString: does not model that the reader's buffer lies on the stack and may be too large for it.
- RockMessages.MessageRoundTrip: starts and ends at the byte array; the header of the stream transport and gzip are not part of this model.
- Strings with a 64-bit length are left out: the writer stores 32 bits and the reader expects 64, so there is no round trip.
- Byte order is that of a little-endian host.
- Floating-point fields are the fixed-width words that hold them.
- `GetWriteBuffers`, files and checksums of the byte array are left out.
- `notifyAll` of the semaphore and the timed worker group are left out: waking waiters without permits breaks the conservation law on purpose.
- Context switching, stacks, epoll, sockets, hooks, HTTP, databases, Redis, KCP, logging and configuration are left out.
- ObjPools.ObjPool.Release: a block freed twice or never handed out, or a bogus one, is outside what the invariant promises: writing the link into the last ends the process; the memory is a map from addresses to words, looked at only where blocks begin.
