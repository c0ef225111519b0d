# Verified model of the engine controller's kernel, drivers and arithmetic

The firmware of this electronic engine controller runs on the uC/OS-II kernel
and a hardware abstraction layer.  This project models the parts of it whose
correctness is hardest to see by reading, and proves what they promise.

* **Kernel** (`KernelSpec`, `PriorityBits`, `Bitmaps`, `KernelTables`,
  `Kernel`).  `KernelSpec` describes the kernel over sets of priorities.  The
  class `KernelCore.Kernel` has the variables of `os_core.c`: the two-level
  ready bitmap, task and event control blocks with cached masks, doubly linked
  lists, counters.  Every method is proved to do to the abstract state exactly
  what the specification says.
* **Runs of the kernel** (`KernelRuns`, `SchedulerRuns`, `PendCollect`,
  `PendRuns`, `SinglePendRuns`, `TickRuns`, `PriorityChange`).  All
  interleavings of calls, interrupts and ticks: the invariant, who wins the race
  between post, abort and timeout, when the processor changes hands, and how long
  a wait or a delay lasts.  `KernelExec` carries every such run out on the class.
* **JTAG UART** (`UartRing`, `JtagUartReceive`, `JtagUartTransmit`).  Each ring
  is a state machine of single accesses to shared state, proved to be a
  lossless queue under every interleaving.  The driver's calls are methods of
  classes whose every access is such a step, with interrupts possible in
  between; `JtagUartInterrupt` is the interrupt routine as a whole.
* **Alarms** (`Alarms`, and the linked ring behind them in `AlarmLinks`), **printing** (`Printing`, `LogPrintf`,
  `SmallPrintf`), **time of day**
  (`TimeOfDay`), **sleeping** (`Sleep`), over 32-bit words (`Words`).
* **Application code**: the allocation accountant (`MemManager`) and the
  fixed-point percentage comparison (`Percent`).

`dafny verify dfyconfig.toml` checks everything.

## What the proofs brought to light

Where the code does not do what it is for, the model keeps the code as it is
and the lemma states exactly when it works.

* A task that pends on several events loses its wake-up if it is suspended when
  its event is posted, aborted or times out, or suspended after that and before
  it runs: resuming it does not make it ready, because the multi-pend status bit
  is cleared only when the task runs.  Once its wait is decided it is ready
  exactly when neither happened (`PendRuns.ReadyExactlyWhenWoken`,
  `PendRuns.StuckForever`).  A pend on a single event does not have this flaw
  (`SinglePendRuns.SingleReadyWhenDecided`).
* Deleting an event after it was posted to a multi-pend and before that task
  runs is accepted even by a deletion that insists on nobody waiting.  The task
  is then told of a type error, its message is lost, and its control block keeps
  the event, the list and the multi-pend status bit.  In every other outcome
  they are cleared (`PendRuns.PendTellsTheVerdict`, `PendRuns.DeletedAfterPost`,
  `PendRuns.StaleRecordNeverResumes`).
* Changing the priority of a task that was posted to and has not run yet puts it
  back on the wait list, so a later post can be lost on it.  Promoting a mutex owner
  that waits for several events leaves it on their lists under its old priority.
  `PriorityChange.ChangeKeepsInv` and `PriorityChange.PromotionKeepsInv` say
  exactly when neither happens.
* The interrupt and lock counters saturate at 255 and are exact if and only if
  the real nesting never goes deeper (`SchedulerRuns.NestingIsExact`).
* An alarm of 2^32-1 ticks fires on the next tick, unless the counter is about
  to wrap (`AlarmTime.ExactUnlessLongest`).
* Setting the clock uses a 32-bit product where reading it uses a 64-bit one
  (`TimeOfDay.ReadIsExact`, `TimeOfDay.LateSetIsWrong`).
* A sleep is too short exactly when a 32-bit product in it wraps
  (`Sleep.SleepsExactly`).
* A request for a slot in use loses the new block and, like every early return
  of the accountant, keeps the lock for good: the lock is back if and only if
  every call succeeded (`AllocationBooks.LockBackIffAllSucceed`,
  `AllocationBooks.LossesAreRefusals`).
* The percentage comparison misses the differences that exceed the percentage by
  less than one `accuracy / 100`-th of the average
  (`Percent.MissesBelowResolution`); at the configured accuracy that happens only
  below 43 per cent (`Percent.MissedAtOnePercent`).  From 43 to 200 per cent, the
  configured 50 among them, it is exact for readings up to 4294 apart, however
  large, and overflows at 4295 (`Percent.ExactFrom43`).  At 250 per cent it is
  exact but reports a single pair of readings
  (`Percent.PedalMismatchNeverReported`).
* Starting an alarm that is already registered makes the list endless
  (`AlarmLinks.ReinsertNeverEnds`).
* The comment on `OSEventPendMulti` says that slots of `pmsgs_rdy` without a
  message are filled with NULL.  The code leaves them as they were, and so
  does the model.

## How the model stands for the code

* A pointer into a table of control blocks is an index into that table.  Bitmap
  rows are a `seq` field of the class.  A queue control block is part of its event.
* A section with interrupts disabled is one step, and so is a clock tick with
  respect to the other kernel calls.  The context switch, written in assembly,
  assigns the current task's priority and block.
* A multi-pend is two methods, before and after the context switch.
* Other kernel services are steps of `KernelRuns.Op` through the same internal
  routines.  The class has the methods behind them: `SemPendStart` and
  `SemPendFinish` are the halves of `OSSemPend` (`os_sem.c`, lines 281 to 347);
  `MsgPendFinish` is the second half for mailboxes and queues, which clear the
  message (`os_mbox.c` and `os_q.c`); `StoreEvent` stands for whatever changes an
  event without readying anyone; `TimeDly` is `OSTimeDly` (`os_time.c`, lines 44 to 67); `TaskSuspend` and
  `TaskResume` are the routines of those names in `os_task.c` (lines 790 to 834
  and 941 to 991), less their argument checks.  The reschedule that ends each
  of them is a step of its own.
* The device's data register is nondeterministic, except that it reports
  nothing more available with an invalid character.  It keeps a record of what it
  has given, which the receive ring's history is proved equal to.  The receive and transmit
  bits of the interrupt enable word are one variable each.
* Deleting an event is a step that needs an empty wait list (`os_sem.c`, lines
  198 to 226, `os_mbox.c`, lines 190 to 218, and `os_q.c`, lines 251 to 281).  A
  deletion in spite of waiters is one readying step for each of them before it.
* Changing a priority is in `os_task.c`, lines 84 to 166, and the promotion of a
  mutex's owner in `os_mutex.c`, lines 452 to 494.  The rows about them cite the
  lines of `os_core.c` that set the pointers both go by.
* `Sys.calls` records which tasks are between the two halves of a pend.  It is
  history: nothing in memory holds it, and only the conditions under which a task
  can make a call look at it.
* What a callback or the library's allocator returns is a parameter.
* Masking and shifting out a nibble is written as a quotient and a remainder.

## Model

| member | source | states |
|---|---|---|
| `ResolutionTable.UnMapIsLowest` | software/electronic_engine_control_bsp/UCOSII/src/os_core.c:38-55 | for every non-zero byte the table entry is the position of the lowest set bit |
| `TwoLevelSets.LeastOfLeast` | software/electronic_engine_control_bsp/UCOSII/src/os_core.c:1652-1677 | for any row width, the least row of the group and then the least bit of that row is the minimum of the represented set |
| `ByteBitmaps.Insert` | software/electronic_engine_control_bsp/UCOSII/src/os_core.c:1068-1069 | setting the row bit and the group bit represents set insertion, for any lowest priority up to 63 |
| `ByteBitmaps.Remove` | software/electronic_engine_control_bsp/UCOSII/src/os_core.c:1144-1148 | clearing the row bit, and the group bit only if the row becomes zero, represents set deletion |
| `ByteBitmaps.SetMember` | software/electronic_engine_control_bsp/UCOSII/src/os_core.c:1068-1069 | the same insertion done through a task's cached row number and masks |
| `ByteBitmaps.ClearMember` | software/electronic_engine_control_bsp/UCOSII/src/os_core.c:1144-1148 | the same deletion done through a task's cached row number and masks |
| `ByteBitmaps.Lookup` | software/electronic_engine_control_bsp/UCOSII/src/os_core.c:1652-1660 | the two table lookups give the smallest priority in the set |
| `ByteBitmaps.GroupDecidesEmptiness` | software/electronic_engine_control_bsp/UCOSII/src/os_core.c:1071-1075 | the group byte is zero exactly when the set is empty |
| `HalfwordBitmaps.ResolveIsLowest` | software/electronic_engine_control_bsp/UCOSII/src/os_core.c:1661-1675 | low byte first, else high byte plus eight: the lowest set bit of a 16-bit row |
| `HalfwordBitmaps.Insert` | software/electronic_engine_control_bsp/UCOSII/src/os_core.c:1068-1069 | the 16-bit layout: insertion, against the same set specification |
| `HalfwordBitmaps.Remove` | software/electronic_engine_control_bsp/UCOSII/src/os_core.c:1144-1148 | the 16-bit layout: deletion |
| `HalfwordBitmaps.Lookup` | software/electronic_engine_control_bsp/UCOSII/src/os_core.c:1661-1675 | the 16-bit branches find the same minimum as the 8-bit ones |
| `KernelCore.Kernel.constructor` | software/electronic_engine_control_bsp/UCOSII/src/os_core.c:1504-1531 | at start every block is on the free list, no task is ready or waiting, and the whole structure invariant holds |
| `KernelCore.Kernel.TcbInit` | software/electronic_engine_control_bsp/UCOSII/src/os_core.c:1926-2023 | creation fails exactly when the free list is empty, changing nothing; otherwise the free head moves to the front of the active list, the new task's record is fresh and it is ready; both lists keep partitioning the table |
| `KernelTables.LinkKeepsLists` | software/electronic_engine_control_bsp/UCOSII/src/os_core.c:2006-2018 | moving a block from one list to the other keeps both chains acyclic and disjoint, backward links mirroring forward links, and every block on exactly one of them |
| `KernelTables.LinkKeepsIdleLast` | software/electronic_engine_control_bsp/UCOSII/src/os_core.c:2009-2018 | prepending keeps the idle task, created first, at the end of the active list |
| `KernelTables.PopDropsOldest` | software/electronic_engine_control_bsp/UCOSII/src/os_core.c:429-433 | advancing OUT with wrap at the end drops exactly the oldest message of a queue ring |
| `KernelTables.TakeFrom` | software/electronic_engine_control_bsp/UCOSII/src/os_core.c:386-436 | one event's count, mailbox or ring gives up exactly its first message if it has one, and is unchanged if not |
| `KernelCore.Kernel.EventTaskRdy` | software/electronic_engine_control_bsp/UCOSII/src/os_core.c:989-1043 | the most urgent waiter gets message and pend status with the mask bits cleared, leaves the posted event's wait set and, if it pended on several, all of them, and is ready unless suspended; nothing else changes |
| `KernelCore.Kernel.EventTaskWait` | software/electronic_engine_control_bsp/UCOSII/src/os_core.c:1061-1076 | the running task joins the event's wait set and leaves the ready set |
| `KernelCore.Kernel.EventTaskWaitMulti` | software/electronic_engine_control_bsp/UCOSII/src/os_core.c:1095-1119 | the running task joins every listed wait set and leaves the ready set |
| `KernelCore.Kernel.EventTaskRemove` | software/electronic_engine_control_bsp/UCOSII/src/os_core.c:1138-1148 | the task leaves that event's wait set; nothing else changes |
| `KernelCore.Kernel.EventTaskRemoveMulti` | software/electronic_engine_control_bsp/UCOSII/src/os_core.c:1168-1196 | the task leaves every listed wait set; nothing else changes |
| `KernelCore.Kernel.ValidateTypes` | software/electronic_engine_control_bsp/UCOSII/src/os_core.c:342-367 | validation succeeds exactly if every listed block is a semaphore, mailbox or queue |
| `KernelCore.Kernel.CollectAvailable` | software/electronic_engine_control_bsp/UCOSII/src/os_core.c:379-448 | the caller's arrays receive events and messages at matching indices, in list order; slots beyond them are untouched |
| `KernelCore.Kernel.EventPendMultiStart` | software/electronic_engine_control_bsp/UCOSII/src/os_core.c:340-465 | all refusals leave the state alone; available events are consumed and reported with a NULL terminator; otherwise the caller blocks with status bits, timeout and wait-set membership recorded |
| `KernelCore.Kernel.EventPendMultiFinish` | software/electronic_engine_control_bsp/UCOSII/src/os_core.c:466-536 | after the wait: event, message, error code and terminator for a post, an abort and a timeout, and the record cleared |
| `KernelCore.Kernel.SchedNew` | software/electronic_engine_control_bsp/UCOSII/src/os_core.c:1652-1677 | the highest-priority variable becomes the minimum of the ready set |
| `KernelCore.Kernel.Sched` | software/electronic_engine_control_bsp/UCOSII/src/os_core.c:1610-1633 | switches exactly when both nesting counters are zero and a different task is most urgent |
| `KernelCore.Kernel.IntEnter` | software/electronic_engine_control_bsp/UCOSII/src/os_core.c:617-626 | interrupt nesting saturates at 255 and counts only while multitasking |
| `KernelCore.Kernel.IntExit` | software/electronic_engine_control_bsp/UCOSII/src/os_core.c:651-679 | decrements unless zero and reschedules when both counters are then zero |
| `KernelCore.Kernel.SchedLock` | software/electronic_engine_control_bsp/UCOSII/src/os_core.c:698-715 | lock nesting counts only outside interrupts and saturates at 255 |
| `KernelCore.Kernel.SchedUnlock` | software/electronic_engine_control_bsp/UCOSII/src/os_core.c:735-761 | decrements unless zero and, at zero, reschedules |
| `KernelCore.Kernel.Start` | software/electronic_engine_control_bsp/UCOSII/src/os_core.c:785-794 | the first task to run is the most urgent one |
| `KernelCore.Kernel.AgeTask` | software/electronic_engine_control_bsp/UCOSII/src/os_core.c:899-914 | one visit counts the delay down; at zero a pend ends with a timeout status, and an unsuspended task becomes ready |
| `KernelCore.Kernel.AgeTasks` | software/electronic_engine_control_bsp/UCOSII/src/os_core.c:896-917 | the walk ends at the idle task, visits every other task exactly once, and terminates |
| `KernelCore.Kernel.TimeTick` | software/electronic_engine_control_bsp/UCOSII/src/os_core.c:851-918 | tick stepping, the 32-bit clock, and the ageing of all tasks on a processed tick |
| `KernelRuns.StepKeepsInv` | software/electronic_engine_control_bsp/UCOSII/src/os_core.c:989-1196 | every operation of `KernelRuns.Op`, event deletion included and priority changes excluded, keeps the invariant tying wait sets, ready set and task records together |
| `KernelRuns.RunKeepsInv` | software/electronic_engine_control_bsp/UCOSII/src/os_core.c:989-1196 | the invariant holds in every state of every run of those operations; the ready set is never empty because idle stays in it |
| `KernelRuns.BootReachesInv` | software/electronic_engine_control_bsp/UCOSII/src/os_core.c:785-794 | idle first, then any tasks, then start: the task of the smallest priority runs, and the invariant holds from there on |
| `KernelRuns.CreatedTask` | software/electronic_engine_control_bsp/UCOSII/src/os_core.c:1926-2023 | a created task is ready, not delayed, not suspended and waiting for nothing; no other task changes; creation fails exactly when every block is in use |
| `KernelRuns.ResumeUndoesSuspend` | software/electronic_engine_control_bsp/UCOSII/src/os_core.c:896-917 | for a task that is not suspended, resuming (os_task.c, lines 814 to 831) undoes a suspension if and only if it was ready just when its status was clear and no delay was running |
| `KernelRuns.IdleFirst` | software/electronic_engine_control_bsp/UCOSII/src/os_core.c:578-581 | creating the idle task first in an empty kernel reaches the state from which that lemma starts |
| `KernelRuns.ReadyLeavesLists` | software/electronic_engine_control_bsp/UCOSII/src/os_core.c:1034-1040 | a readied task is on no wait set at all afterwards, not only off the posted event's |
| `KernelRuns.FinishMultiKeepsInv` | software/electronic_engine_control_bsp/UCOSII/src/os_core.c:466-536 | at the end of a multi-pend the task is on no wait set; a type error is reported if and only if the event posted to it has been deleted since; otherwise its pointers are cleared, and then they are not |
| `PendCollect.NothingLostNothingInvented` | software/electronic_engine_control_bsp/UCOSII/src/os_core.c:379-454 | for every event, the messages reported followed by the messages left are the messages that were there |
| `PendCollect.OneMessagePerListing` | software/electronic_engine_control_bsp/UCOSII/src/os_core.c:379-454 | each listing of an event takes one message, until it has none: a semaphore drops once per report |
| `PendCollect.ReportedInOrder` | software/electronic_engine_control_bsp/UCOSII/src/os_core.c:379-454 | for every list, repeats included: reported are the listings at which the event still had a message, in list order, the k-th listing of an event with its k-th message |
| `PendCollect.ReportsAvailable` | software/electronic_engine_control_bsp/UCOSII/src/os_core.c:379-454 | in particular, with no event listed twice, the reported events are the available ones in list order, each with its own oldest message |
| `PendCollect.MultiPendOutcome` | software/electronic_engine_control_bsp/UCOSII/src/os_core.c:340-465 | which of the three refusals is given, when something is taken and when the caller blocks, each as an if-and-only-if; a refusal changes nothing; what is taken is what is reported |
| `PendCollect.WaitBitsAreTheKinds` | software/electronic_engine_control_bsp/UCOSII/src/os_core.c:392-447 | a task that blocks has the status bit of each kind of event listed, and of no other |
| `PendCollect.BlocksOnlyWhenAllEmpty` | software/electronic_engine_control_bsp/UCOSII/src/os_core.c:450-465 | nothing is reported exactly when no listed event has anything, and then nothing is consumed |
| `PendRuns.RunShows` | software/electronic_engine_control_bsp/UCOSII/src/os_core.c:899-913 | over every run after the block, the task's record and list membership show the verdict read off the run: waiting so many ticks, delivered, aborted, or timed out but still listed |
| `PendRuns.PendTellsTheVerdict` | software/electronic_engine_control_bsp/UCOSII/src/os_core.c:466-536 | the race: the first post or abort to reach the task is what it is told, even after its timeout; otherwise a timeout with zero events; it leaves on no wait set, with pointers and message cleared if and only if the posted event still exists, and with a type error if not |
| `PendRuns.DeletedAfterPost` | software/electronic_engine_control_bsp/UCOSII/src/os_core.c:497-511 | the failing input: posted to a multi-pend, then deleted before the task runs; the task is told a type error without a message, and its record keeps event, list and message |
| `PendRuns.StaleRecordNeverResumes` | software/electronic_engine_control_bsp/UCOSII/src/os_core.c:503-511 | a task left with such a record is not made ready again by a resumption once it has been suspended |
| `SinglePendRuns.OneRunShows` | software/electronic_engine_control_bsp/UCOSII/src/os_core.c:1061-1076 | a pend on one event (os_sem.c, lines 318 to 323, and its relatives), over every run after the block: the record and the list show the verdict read off the run, the delay field being the timeout less the processed ticks |
| `SinglePendRuns.SinglePendTellsTheVerdict` | software/electronic_engine_control_bsp/UCOSII/src/os_core.c:899-914 | the caller is told of the first post or abort that reached the task, even after its timeout, otherwise of a timeout, with the error code of each and the message only from a mailbox or queue; the record is cleared |
| `SinglePendRuns.UndecidedVerdict` | software/electronic_engine_control_bsp/UCOSII/src/os_core.c:899-914 | a wait nobody posts to or aborts, for one event or several, ends at exactly the timeout-th processed tick, and with timeout 0 never |
| `SinglePendRuns.WaitLastsExactly` | software/electronic_engine_control_bsp/UCOSII/src/os_core.c:899-914 | the record of such a wait on one event at every point: delay left, status, list membership, not ready before its end |
| `SinglePendRuns.SingleReadyWhenDecided` | software/electronic_engine_control_bsp/UCOSII/src/os_core.c:1025-1032 | over every run, suspensions included: a task pending on one event is ready if and only if its wait has been decided and it is not suspended |
| `SinglePendRuns.SemPendOutcome` | software/electronic_engine_control_bsp/UCOSII/src/os_core.c:1061-1076 | the first half of a semaphore pend (os_sem.c, lines 281 to 324): which refusal is given, when it takes one and when it blocks, each as an if-and-only-if |
| `PendRuns.ReadyExactlyWhenWoken` | software/electronic_engine_control_bsp/UCOSII/src/os_core.c:896-917 | over every run, suspensions included: the task is ready if and only if the post, abort or timeout that decided its wait found it unsuspended and nobody has suspended it since |
| `PendRuns.ReadyOnceDecided` | software/electronic_engine_control_bsp/UCOSII/src/os_core.c:896-917 | so a task nobody suspends is ready exactly when its wait has been decided |
| `PendRuns.ResumeAfterPost` | software/electronic_engine_control_bsp/UCOSII/src/os_core.c:1025-1040 | suspended, then posted, then resumed (os_task.c, lines 814 to 831): the waiter, timed out or not, is ready exactly if no other status bit was set; a multi-pend always leaves one, so it never is |
| `PendRuns.SuspendAfterDecision` | software/electronic_engine_control_bsp/UCOSII/src/os_core.c:1025-1040 | the other order: decided, then suspended and resumed before it runs, the task is not ready, and after a post or an abort it is stuck |
| `PendRuns.StuckForever` | software/electronic_engine_control_bsp/UCOSII/src/os_core.c:1025-1040 | and then no continuation of the run makes it ready |
| `SchedulerRuns.SwitchOnlyUnnested` | software/electronic_engine_control_bsp/UCOSII/src/os_core.c:1610-1633 | the current task changes only at a reschedule point, with both counters zero, to the most urgent ready task |
| `SchedulerRuns.HighestRunsOutsideNesting` | software/electronic_engine_control_bsp/UCOSII/src/os_core.c:651-761 | over bracketed runs of depth at most 255: after every scheduler call, interrupt end or unlock that leaves the real interrupt and lock depths at zero, the current priority is the smallest ready one |
| `SchedulerRuns.SwitchesAreCounted` | software/electronic_engine_control_bsp/UCOSII/src/os_core.c:1610-1633 | over every run the switch counter has counted the changes of the current task and nothing else, modulo 2^32 |
| `SchedulerRuns.NothingBeforeStart` | software/electronic_engine_control_bsp/UCOSII/src/os_core.c:617-713 | before multitasking starts interrupts and locks do not nest; starting again changes nothing |
| `SchedulerRuns.RescheduleRunsHighest` | software/electronic_engine_control_bsp/UCOSII/src/os_core.c:651-679 | one such step, on the kernel's own counters |
| `SchedulerRuns.NestingIsExact` | software/electronic_engine_control_bsp/UCOSII/src/os_core.c:617-713 | over a bracketed run the saturating counters equal the real depths if and only if no depth exceeds 255 |
| `SchedulerRuns.SwitchesOutsideNesting` | software/electronic_engine_control_bsp/UCOSII/src/os_core.c:617-761 | in a bracketed run of depth at most 255, every switch happens outside all interrupts and all locks |
| `TickRuns.ClockCountsTicks` | software/electronic_engine_control_bsp/UCOSII/src/os_core.c:866-870 | over every run the clock has counted every tick, modulo 2^32 |
| `TickRuns.SteppingAges` | software/electronic_engine_control_bsp/UCOSII/src/os_core.c:872-890 | over every run: with stepping off every tick ages the tasks, while waiting for a step none does, and a single step lets exactly one through |
| `TickRuns.DelayLastsExactly` | software/electronic_engine_control_bsp/UCOSII/src/os_core.c:896-917 | an undisturbed delay of n makes the task ready at exactly the n-th processed tick, whatever else happens |
| `PriorityChange.MoveKeepsInv` | software/electronic_engine_control_bsp/UCOSII/src/os_core.c:1138-1196 | moving a task to another priority keeps the invariant if and only if its bit is moved in every wait list it is on and set in none it is not waiting on |
| `PriorityChange.ChangeKeepsInv` | software/electronic_engine_control_bsp/UCOSII/src/os_core.c:1025-1040 | `OSTaskChangePrio` (os_task.c, lines 121 to 157), which goes by the pointers these lines leave behind, keeps the invariant if and only if the task waits, or has timed out waiting, for every event its record names |
| `PriorityChange.ChangeRelistsPosted` | software/electronic_engine_control_bsp/UCOSII/src/os_core.c:1025-1040 | the failing input: a task readied by a post or an abort that has not run yet is put back on the wait list |
| `PriorityChange.PromotionKeepsInv` | software/electronic_engine_control_bsp/UCOSII/src/os_core.c:1095-1119 | promoting a mutex owner (os_mutex.c, lines 452 to 494), which goes by the event pointer these lines set to NULL, keeps the invariant if and only if the owner is on no wait list, or not ready and on that of its single event only |
| `PriorityChange.PromotionStrandsMulti` | software/electronic_engine_control_bsp/UCOSII/src/os_core.c:1095-1119 | the failing input: an owner waiting for several events stays on their lists under a priority no task has |
| `KernelExec.Perform` | software/electronic_engine_control_bsp/UCOSII/src/os_core.c:340-1677 | every operation of a run, carried out on the bitmaps, tables and lists, has on the abstract state the effect the state machine says |
| `KernelExec.Run` | software/electronic_engine_control_bsp/UCOSII/src/os_core.c:340-1677 | so does every legal run: the class ends in agreement with the state the run ends in |
| `CircularBuffer.WriteRunIsFree` | software/electronic_engine_control_bsp/drivers/src/altera_avalon_jtag_uart_write.c:106-117 | the three-way formula is the lesser of the free space, less one slot, and the run to the end of the buffer |
| `ReceiveRing.StoreMissesReader` | software/electronic_engine_control_bsp/drivers/src/altera_avalon_jtag_uart_init.c:132-154 | the interrupt routine never stores into a slot the reader is copying |
| `ReceiveRing.LosslessFifo` | software/electronic_engine_control_bsp/drivers/src/altera_avalon_jtag_uart_read.c:115-146 | over every interleaving of interrupts with any readers: bytes delivered, then ring contents, is what was accepted; one slot stays free; a masked interrupt means a full ring or a reader that owes the re-enable |
| `ReceiveRing.MaskedMeansFull` | software/electronic_engine_control_bsp/drivers/src/altera_avalon_jtag_uart_init.c:156-166 | when no reader owes a re-enable, a masked receive interrupt means a full ring |
| `TransmitRing.CommitKeepsInv` | software/electronic_engine_control_bsp/drivers/src/altera_avalon_jtag_uart_write.c:122-127 | publishing after a stale snapshot of the consumer's index never lets the producer's index catch it |
| `TransmitRing.LosslessFifo` | software/electronic_engine_control_bsp/drivers/src/altera_avalon_jtag_uart_init.c:174-195 | over every interleaving: bytes sent, then ring contents, is what writers published; a masked transmit interrupt means an empty ring or a writer between publishing and re-enabling |
| `JtagUartReceive.ReceiveHalf.ServiceReceive` | software/electronic_engine_control_bsp/drivers/src/altera_avalon_jtag_uart_init.c:125-167 | what the ring accepts is exactly the valid characters the data register gave, in order; the routine goes on until the register gives none or the ring is full, and masks the interrupt exactly if the ring is full with more to come; it terminates |
| `JtagUartReceive.ReceiveHalf.Read` | software/electronic_engine_control_bsp/drivers/src/altera_avalon_jtag_uart_read.c:101-203 | with other readers running whole calls before the lock is obtained and after it is given up: what is returned directly follows, in the accepted stream, what had been delivered at the lock; at most what was asked, error codes as in the source; it stops short only if everything accepted before the call was delivered; a call that may block returns without data only after a wait that left the ring empty, and one that may not never waits |
| `JtagUartReceive.ReceiveHalf.Snapshot` | software/electronic_engine_control_bsp/drivers/src/altera_avalon_jtag_uart_read.c:122-133 | two reads of shared indices with interrupts between them: the run found is safe to copy, and an empty one means all bytes accepted before were delivered |
| `JtagUartReceive.ReceiveHalf.CopyBytes` | software/electronic_engine_control_bsp/drivers/src/altera_avalon_jtag_uart_read.c:134-136 | the copy delivers the ring's bytes although interrupts run before every byte |
| `JtagUartTransmit.TransmitHalf.ServiceTransmit` | software/electronic_engine_control_bsp/drivers/src/altera_avalon_jtag_uart_init.c:169-195 | sends the lesser of the device's room and what is stored, oldest first, and masks exactly if there was room left over |
| `JtagUartTransmit.TransmitHalf.Write` | software/electronic_engine_control_bsp/drivers/src/altera_avalon_jtag_uart_write.c:84-202 | with other writers running whole calls before the lock is obtained: a prefix of the bytes is appended to what had been accepted at the lock; stops short only against a full ring; a call that may block only after a wait that left the ring full, and one that may not never waits; afterwards the interrupt is enabled or everything was sent |
| `JtagUartTransmit.TransmitHalf.Fill` | software/electronic_engine_control_bsp/drivers/src/altera_avalon_jtag_uart_write.c:102-128 | each pass of the copy loop decreases the count or exits, and some byte is accepted unless the ring was full |
| `JtagUartTransmit.TransmitHalf.ReadIndices` | software/electronic_engine_control_bsp/drivers/src/altera_avalon_jtag_uart_write.c:106-107 | two separate index reads with interrupts before each: the space they give is really free, zero only if the ring was full |
| `JtagUartTransmit.TransmitHalf.Snapshot` | software/electronic_engine_control_bsp/drivers/src/altera_avalon_jtag_uart_write.c:105-120 | the space computed from two separate reads is really free; zero means full |
| `JtagUartInterrupt.Interrupt` | software/electronic_engine_control_bsp/drivers/src/altera_avalon_jtag_uart_init.c:108-197 | the whole routine: it goes round until the control register asks for nothing, keeps both rings in states of their runs; asked to receive, it stores what the device gives until it gives none or the ring is full; it sends the lesser of what is stored and the room offered in all rounds, and masks exactly if room was left over |
| `AlarmTime.ArmStandsFor` | software/electronic_engine_control_bsp/HAL/src/alt_alarm_start.c:80-96 | the stored time and rollover flag stand for an unbounded deadline, for every delay and counter value |
| `AlarmTime.TickStandsFor` | software/electronic_engine_control_bsp/HAL/src/alt_tick.c:96-136 | a tick fires the alarm exactly if its deadline has come, across every wrap, and re-arming keeps the correspondence |
| `AlarmTime.FiringsAreIdeal` | software/electronic_engine_control_bsp/HAL/src/alt_tick.c:96-141 | over every run the firings are those of a deadline that never wraps and moves by exactly what the callback asked |
| `AlarmTime.ExactUnlessLongest` | software/electronic_engine_control_bsp/HAL/src/alt_alarm_start.c:80-96 | started with n, the alarm behaves on every run as the deadline n+1 ticks ahead if and only if n is not 2^32-1 or the counter is about to wrap |
| `AlarmTime.IdealSpacing` | software/electronic_engine_control_bsp/HAL/src/alt_tick.c:117-131 | the first firing is on the deadline and later ones exactly as far apart as the callback asked: no drift |
| `Alarms.AlarmList.Start` | software/electronic_engine_control_bsp/HAL/src/alt_alarm_start.c:64-112 | no system clock and no alarm are refused without changing the list; otherwise an alarm that is not on the list goes to its front with its deadline |
| `AlarmLinks.InsertPrepends` | software/electronic_engine_control_bsp/HAL/inc/sys/alt_llist.h:90-98 | the four assignments put a node that is not on the doubly linked ring in front, forwards and backwards |
| `AlarmLinks.RemoveDrops` | software/electronic_engine_control_bsp/HAL/inc/sys/alt_llist.h:105-117 | the four assignments close the ring over the node and leave it pointing at itself |
| `AlarmLinks.RemoveAgain` | software/electronic_engine_control_bsp/HAL/inc/sys/alt_llist.h:105-117 | so removing it again is harmless |
| `AlarmLinks.ReinsertNeverEnds` | software/electronic_engine_control_bsp/HAL/inc/sys/alt_llist.h:90-98 | inserting a node that is on the ring already makes the walk of the tick handler never come back to the head |
| `AlarmLinks.LinkTable.Insert` | software/electronic_engine_control_bsp/HAL/inc/sys/alt_llist.h:90-98 | the assignments in place do what the function on links does |
| `AlarmLinks.LinkTable.Remove` | software/electronic_engine_control_bsp/HAL/inc/sys/alt_llist.h:105-117 | the same for removal |
| `Alarms.AlarmList.Stop` | software/electronic_engine_control_bsp/HAL/src/alt_tick.c:66-73 | the alarm leaves the list, all others stay in order; harmless if it was started once and has left the list already |
| `Alarms.AlarmList.Tick` | software/electronic_engine_control_bsp/HAL/src/alt_tick.c:87-141 | exactly the due alarms run, in list order; those whose callback returned zero leave; every other deadline moves as the callback asked |
| `Numerals.ParseInvertsDigits` | software/electronic_engine_control_bsp/HAL/src/alt_log_printf.c:281-296 | reading the digits back gives the value, in every base |
| `Numerals.NoSuperfluousZeros` | software/electronic_engine_control_bsp/HAL/src/alt_log_printf.c:247-255 | only zero starts with a zero digit; the digit count is the least possible |
| `Printing.ParseInvertsPrinted` | software/electronic_engine_control_bsp/HAL/src/alt_log_printf.c:206-297 | printing then parsing is the identity for every value, base, case, width and padding, the most negative value included |
| `Printing.PrintedIsInjective` | software/electronic_engine_control_bsp/HAL/src/alt_log_printf.c:206-297 | different values print differently |
| `Printing.PaddingIs` | software/electronic_engine_control_bsp/HAL/src/alt_log_printf.c:257-279 | with the zero flag zeros follow the sign, without it spaces precede it, as many as the width leaves room for; then the digits |
| `Printing.ValueIsTwosComplement` | software/electronic_engine_control_bsp/HAL/src/alt_log_printf.c:236-243 | the signed reading of a word is the congruent number of a signed word |
| `Printing.DigitsAreOfCase` | software/electronic_engine_control_bsp/HAL/src/alt_log_printf.c:281-296 | the digits come from the first characters of the alphabet of the case asked for |
| `Printing.PrintedLength` | software/electronic_engine_control_bsp/HAL/src/alt_log_printf.c:257-279 | the emitted length is the larger of the width and digits plus sign |
| `Printing.Console.LogInteger` | software/electronic_engine_control_bsp/HAL/src/alt_log_printf.c:206-297 | the three loops emit exactly the padded numeral of the signed or unsigned value |
| `Printing.Console.CountDigits` | software/electronic_engine_control_bsp/HAL/src/alt_log_printf.c:247-255 | the count is the numeral's length and the place value is that power of the base, its multiplication never overflowing |
| `Printing.Console.RepChar` | software/electronic_engine_control_bsp/HAL/src/alt_log_printf.c:106-110 | emits the character that many times, none for a negative count |
| `Printing.Console.SmallHex` | software/electronic_engine_control_bsp/HAL/src/alt_printf.c:82-111 | skipping zero nibbles and shifting emits the lower-case hexadecimal numeral, "0" for zero |
| `Printing.HexPrintersAgree` | software/electronic_engine_control_bsp/HAL/src/alt_printf.c:82-111 | the shift-based and the divide-based printer emit the same string for every value |
| `FormatScanner.FormatPrintsItems` | software/electronic_engine_control_bsp/HAL/src/alt_log_printf.c:114-341 | a format spelled from any list of items (text, percent signs, integers with flags and width, characters, strings) prints the meaning of each item in order |
| `FormatScanner.WidthIsRead` | software/electronic_engine_control_bsp/HAL/src/alt_log_printf.c:179-195 | the digits of a width accumulate to the width |
| `LogPrintf.Print` | software/electronic_engine_control_bsp/HAL/src/alt_log_printf.c:114-341 | the character loop with its state variables prints what the scanner specifies, for every format with matching arguments, malformed directives included |
| `LogPrintf.Convert` | software/electronic_engine_control_bsp/HAL/src/alt_log_printf.c:206-332 | each conversion letter takes its argument and prints it with the right base, sign and case |
| `SmallPrintf.Print` | software/electronic_engine_control_bsp/HAL/src/alt_printf.c:48-127 | the loop over the format prints what is specified, a percent sign at the end included |
| `SmallPrintf.PrintersAgree` | software/electronic_engine_control_bsp/HAL/src/alt_printf.c:48-127 | on formats of the items both printers know, they print the same |
| `TimeOfDay.SystemClock.SetTimeOfDay` | software/electronic_engine_control_bsp/HAL/src/alt_settod.c:72-96 | the calibration offset stored, with the 32-bit product; refused without a clock |
| `TimeOfDay.SystemClock.GetTimeOfDay` | software/electronic_engine_control_bsp/HAL/src/alt_gettod.c:71-124 | the two normalising loops compute quotient and remainder of the total, or zero for a negative one, and terminate |
| `TimeOfDay.ReadIsExact` | software/electronic_engine_control_bsp/HAL/src/alt_gettod.c:91-112 | a read of a positive time shows the time set plus the ticks in between, normalised, if and only if the set call's product wrapped a multiple of 15625 times; a read of time zero is right if and only if the product lost nothing positive |
| `TimeOfDay.EarlyEnough` | software/electronic_engine_control_bsp/HAL/src/alt_settod.c:82-84 | before the tick count has run for 2^32 microseconds the condition holds |
| `TimeOfDay.LateSetIsWrong` | software/electronic_engine_control_bsp/HAL/src/alt_settod.c:82-84 | at a thousand ticks a second and five million ticks, a clock does not read what it was set to |
| `TimeOfDay.LateZeroIsWrong` | software/electronic_engine_control_bsp/HAL/src/alt_settod.c:82-84 | a clock set to zero can read almost a second at once |
| `TimeOfDay.ReadsAreMonotone` | software/electronic_engine_control_bsp/HAL/src/alt_gettod.c:91-112 | exact reads never go backwards |
| `Sleep.USleep` | software/electronic_engine_control_bsp/HAL/src/alt_usleep.c:56-104 | the delays add up to the computed tick count, none exceeds 0xffff and all but the last equal it, the final cast loses nothing |
| `Sleep.SleepsExactly` | software/electronic_engine_control_bsp/HAL/src/alt_usleep.c:79-101 | ticks times tick length plus the busy wait is the time asked for if and only if the product of the fraction of a second fits 32 bits; otherwise it is shorter |
| `Sleep.SlowClocksSleepExactly` | software/electronic_engine_control_bsp/HAL/src/alt_usleep.c:79-101 | at the board's thousand ticks a second every sleep is exact |
| `AllocationBooks.BlocksAreAccountedFor` | software/electronic_engine_control/mem_manager.c:86-125 | over every run slots hold distinct blocks, none of them freed, and while the lock is free every block obtained is in a slot or was freed |
| `AllocationBooks.LossesAreRefusals` | software/electronic_engine_control/mem_manager.c:86-125 | over every run the blocks in no slot and not freed are exactly those of the requests that found their slot in use |
| `AllocationBooks.AtMostOneLost` | software/electronic_engine_control/mem_manager.c:86-125 | and there is at most one, that of the last call that is not for a new id |
| `AllocationBooks.LockBackIffAllSucceed` | software/electronic_engine_control/mem_manager.c:86-125 | after a run of task-level calls with the scheduler unlocked, the lock is as free as before if and only if every request was granted and every free found a block |
| `AllocationBooks.StepMovesSize` | software/electronic_engine_control/mem_manager.c:86-125 | a granted request adds the size asked for to the total, a free that finds a block takes its size off, any other call changes nothing |
| `AllocationBooks.SizesAreRequested` | software/electronic_engine_control/mem_manager.c:86-125 | over every run the total is the sizes of the blocks held before and not freed and of those requested, granted and not freed since |
| `AllocationBooks.TotalIsRequested` | software/electronic_engine_control/mem_manager.c:86-125 | so from the start it is the sum of the sizes requested under ids not freed since |
| `AllocationBooks.EarlyReturnIsTheLast` | software/electronic_engine_control/mem_manager.c:86-125 | if the lock is back, each single request and free of the run found what it needed |
| `AllocationBooks.PermitsFall` | software/electronic_engine_control/mem_manager.c:86-125 | once a task-level call has returned early, with the lock, no further request or free made with the scheduler unlocked returns |
| `AllocationBooks.IdsAreDistinct` | software/electronic_engine_control/mem_manager.c:75-81 | ids come from 32 down to 1, each once, whatever is called in between; then the error value |
| `MemManager.Manager.constructor` | software/electronic_engine_control/mem_manager.c:40-49 | the books start empty with all ids available |
| `MemManager.Manager.GetNewAllocationId` | software/electronic_engine_control/mem_manager.c:75-81 | the stack yields the next id, or all ones when exhausted |
| `MemManager.Manager.RequestMalloc` | software/electronic_engine_control/mem_manager.c:86-104 | active count equals occupied slots and the total equals their sizes modulo 2^32; a refusal changes no slot and no total |
| `MemManager.Manager.FreeExistingMalloc` | software/electronic_engine_control/mem_manager.c:109-125 | the same for freeing; an invalid id or empty slot changes no slot and no total |
| `Percent.ReportsDownToResolution` | software/electronic_engine_control/util.c:32-57 | without overflow, a difference is reported exactly if it exceeds the percentage by at least the resolution; never falsely |
| `Percent.MissesBelowResolution` | software/electronic_engine_control/util.c:32-57 | the test is exact if and only if the excess is not positive yet below the resolution |
| `Percent.Exact` | software/electronic_engine_control/util.c:32-57 | with the average at most accuracy / 100, the test is exact |
| `Percent.Symmetric` | software/electronic_engine_control/util.c:32-57 | the order of the inputs does not matter |
| `Percent.SensorsComparedExactly` | software/electronic_engine_control/util.c:32-57 | every pair of 12-bit readings is compared exactly at the configured accuracy and percentages |
| `Percent.ExactBelowBound` | software/electronic_engine_control/util.c:32-57 | at the configured accuracy and any percentage from 1 to 200, the test is exact on all readings below a bound if and only if the bound is at most 4295 |
| `Percent.FirstOverflow` | software/electronic_engine_control/util.c:50-52 | 4295 against 0 is the first pair whose product wraps, and its difference goes unreported |
| `Percent.PedalMismatchNeverReported` | software/electronic_engine_control/util.c:32-57 | at 250 per cent, the pedal sensors' setting, only 3 against 0 is ever reported, for readings of any width whose sum fits, and that is exact |
| `Percent.ExactUpToDistance` | software/electronic_engine_control/util.c:32-57 | for readings of any size whose sum fits, and any percentage from 1 to 200: exact for all readings up to a distance apart if and only if the distance is at most 4294 and no smaller one is too fine for the resolution |
| `Percent.ExactFrom43` | software/electronic_engine_control/util.c:32-57 | from 43 to 200 per cent none is: exact up to a distance if and only if it is at most 4294 |
| `Percent.MissedAtOnePercent` | software/electronic_engine_control/util.c:32-57 | 10150 against 10049 at one per cent is a difference missed for want of resolution |
| `Percent.ThresholdIsDistance` | software/electronic_engine_control/util.c:15-25 | the threshold test compares the distance, in either order |

## Left out

- KernelRuns.StepKeepsInv: priority changes and mutex promotion are not operations of `KernelRuns.Op`, because they do not keep the invariant; `PriorityChange` states when they do.  The status bit of a mutex in `KernelRuns.PendBit` stands for a mutex pend whose owner needs no promotion.
- KernelRuns.RunKeepsInv: the same operations are left out of its runs.
- Deleting tasks, `OSTimeDlyResume`, `OSTimeDlyHMSM`, and the callers' NULL and range checks.
- Mutexes, event flag groups, memory partitions and timers: their own state is not modelled; a mutex pend without promotion appears as a step that blocks.
- KernelExec.Perform: what a post, an accept or a flush stores in an event is taken as given; the ring positions a queue post computes are not modelled.
- Task names, stacks, hooks, profiling counters and the statistics task: they do not affect scheduling.
- Liveness of a task that waits for the UART: event flags can be stale, so only data order and safety are stated.
- JtagUartInterrupt.Interrupt: the values the control register will show are a finite sequence; that the device stops asking is assumed.
- The UART's host-inactivity timer and its flag posts: they decide only how long a call waits.
- The polling ("small") variants of the UART driver.
- JtagUartReceive.ReceiveHalf.Read: waiting on event flags or spinning is any number of interrupts, after which the index is looked at once; how long the wait lasts is not modelled.  Other readers appear as whole calls around the lock.
- JtagUartTransmit.TransmitHalf.Write: the same holds for its wait; other writers appear as whole calls before the lock.
- Alarms.AlarmList.Start: requires that the alarm is not registered; `AlarmLinks.ReinsertNeverEnds` shows what the source does otherwise.
- Alarms.AlarmList.Stop: an alarm that was never started has uninitialised links, which the source follows; `AlarmLinks.RemoveAgain` covers only one that was.
- Alarms.AlarmList.Tick: callbacks that start or stop alarms are not covered; the list is a sequence of alarm objects, whose links `AlarmLinks` models on their own.
- LogPrintf.Print: arguments must be of the kind the directive asks for; a width is an unbounded integer; a long argument is as wide as a plain one.
- TimeOfDay.ReadIsExact: needs a tick rate that divides a million and a reading below the last representable second.
- Sleep.USleep: needs a tick rate between one and a million once the kernel runs, as the source divides by it.
- AllocationBooks.LockBackIffAllSucceed: the lock's pend ignores its error, so a call from an interrupt, or with the scheduler locked, goes on without the lock and raises its count when it releases it; runs with such calls are not covered.
- AllocationBooks.PermitsFall: the same calls are left out.
- MemManager.Manager.RequestMalloc: an id outside 1 to 32 indexes out of bounds in the source and is required not to occur when memory was obtained; tags are not modelled; a call that waits for the lock while it is held does not return.
- The engine control tasks, pulse width modules and lookup tables of the application: device access and small fixed computations.
- The file descriptor layer and device tables: dispatch only.
