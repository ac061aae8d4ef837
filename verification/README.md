# PingPongOS kernel core in Dafny

PingPongOS is a small teaching operating system: user-level tasks on `ucontext`,
a dispatcher task, a priority scheduler with aging, a millisecond tick that
preempts user tasks, join and sleep, counting semaphores, and message queues
built from three semaphores. This project models the final snapshot of the
kernel, `p12/ppos_core.c`, as one immutable kernel state (`KernelState.Kernel`)
with pure transition functions, and proves what those transitions do.

The state has these parts:

- A task table maps a task reference (a `task_t*`) to its control block.
- The three rosters are the ready roster, the join-suspended roster and the
  sleeping roster. Each is a sequence: appending adds at the tail, and the head
  is scanned or woken first.
- There is a clock and the `can_preempt` flag.
- Semaphores live in a map keyed by `semaphore_t*`. Each semaphore has its own
  FIFO wait roster.
- Message queues live in a map keyed by `mqueue_t*`. A queue is a ring of slots
  with two integer cursors, and it holds references to its three semaphores.

Handing control to the dispatcher (`task_yield`/`task_switch`) is a
transition: `current` becomes the dispatcher, and the dispatcher counts one
more activation, which is what it does first on every return (line 700).

A call that can block is split in two:

- The blocking transition: `SemBlocked`, `JoinBlocked`, `MqBlocked`.
- What the call returns once the task runs again: `SemDownResume`,
  `JoinResume`, `MqRecvFinish`.

Modules follow the kernel's parts:

| file | module | kernel part |
|---|---|---|
| kernel_state.dfy | KernelState | task, semaphore, queue and kernel records; yield |
| rosters.dfy | Rosters | roster removal and filters |
| scheduler.dfy | Scheduler | `scheduler`, `task_setprio`, `task_getprio` |
| sleep.dfy | Sleep | `task_sleep`, `task_finish_sleep`, `check_sleeping_tasks` |
| join.dfy | Join | `task_join`, `wake_up_task`, `check_suspended_tasks`, `task_exit` |
| semaphores.dfy | Semaphores | `sem_create`, `sem_down`, `sem_up`, `sem_wake_up_first`, `sem_destroy` |
| mqueues.dfy | MQueues | `mqueue_create`, `mqueue_send`, `mqueue_recv`, `mqueue_destroy`, `mqueue_msgs` |
| dispatcher.dfy | Dispatcher | `tick_handler`, `dispatcher_body`, `task_create`, `create_dispatcher`, `ppos_init`, `task_id`, `systime` |
| invariants.dfy | Invariants | the roster discipline every transition above keeps |

The model follows `p12/ppos_core.c` as written, in particular:

- The main task is enrolled in the ready roster, because it is created after
  the rosters exist. Only the dispatcher is left out of the ready roster.
- There is no separate READY status. A task that may run has status RUNNING (1).
- When nothing is ready or asleep, the dispatcher calls `task_exit(0)` on
  itself.
- `mqueue_send` does not wait for a free slot (see Findings).

## Model

| member | source | states |
|---|---|---|
| Scheduler.TaskSetPrio | p12/ppos_core.c:625-638 | A priority outside [-20, 20] leaves the whole kernel unchanged. Otherwise the target (the current task for NULL) gets that value as both its static and its dynamic priority, and no other task changes. |
| Scheduler.TaskGetPrio | p12/ppos_core.c:640-645 | Returns the static priority of the target (the current task for NULL), never the aged one. |
| Scheduler.SetThenGet | p12/ppos_core.c:625-645 | Reading a priority back after setting it gives the new value when it is in range, and the old value otherwise. |
| Scheduler.AgeScanPicksFirstMinimal | p12/ppos_core.c:649-663 | The scan loop ends on the first roster member of least dynamic priority (a tie keeps the earlier task). Every other member it visited has aged by exactly one. |
| Scheduler.ScheduleSelectsAndAges | p12/ppos_core.c:649-666 | `scheduler` returns the first ready task of least dynamic priority and resets that task's dynamic priority to its static one. Every other ready task's dynamic priority drops by exactly one, and tasks outside the ready roster are untouched. |
| Dispatcher.Tick | p12/ppos_core.c:597-621 | The clock rises by one. If the dispatcher is running, nothing else changes. A user task is charged one quantum tick and one tick of processor time. It loses the processor exactly when preemption is on and its quantum is used up. |
| Dispatcher.TicksCountDown | p12/ppos_core.c:597-621 | With preemption on and `t` quantum ticks left, a user task keeps the processor through the next `n < t` ticks, and each of them is charged to it. |
| Dispatcher.QuantumExpires | p12/ppos_core.c:597-621 | With preemption on, a user task dispatched with `t >= 1` ticks is preempted by exactly the `t`-th tick, after `t` ticks of processor time. |
| Dispatcher.NoPreemptionWhileOff | p12/ppos_core.c:608-618 | While preemption is off, no number of ticks takes the processor away; the quantum goes negative instead. |
| Dispatcher.LaunchPicksFirstMinimal | p12/ppos_core.c:674-699 | The task the dispatcher launches (`Launch`) is the scheduler's pick. It gets a quantum of 20, its static priority back, one more activation, one tick of processor time and the processor. Every other ready task ages by one, and the rosters are unchanged. |
| Dispatcher.DispatchPicksFirstMinimal | p12/ppos_core.c:669-710 | A dispatcher turn (`DispatchStep`) shuts down (the dispatcher dies with code 0) exactly when no task is ready or asleep. It idles exactly when no task is ready after the due sleepers are woken. Otherwise it launches the first ready task of least dynamic priority, counting the sleepers it has just woken. |
| Dispatcher.TaskCreate | p12/ppos_core.c:806-860 | The new task gets the next id, which no existing task holds. It starts RUNNING with priority 0, exit code 0, no join target and no sleep, created at the current clock, with no activations. It joins the tail of the ready roster exactly when the rosters already exist. |
| Dispatcher.PposInit | p12/ppos_core.c:747-799 | After initialisation the clock is 0. The dispatcher (id 1, not a user task) is outside the ready roster, while the main task (id 0) is the only ready task. The dispatcher has the processor. |
| Dispatcher.InitThenDispatchRunsMain | p12/ppos_core.c:747-771 | The dispatcher's first turn after initialisation hands the processor to the main task: task 0, with a full quantum and its first activation. |
| Sleep.TaskSleep | p12/ppos_core.c:388-415 | The caller leaves the ready roster for the tail of the sleeping roster with status SLEEPING and records the current time and the nap length. The dispatcher gets the processor, and no other task changes. |
| Sleep.CheckSleepingWakesDue | p12/ppos_core.c:417-475 | One pass of `CheckSleepingTasks` moves exactly the sleepers whose `slept_time + nap_time` has been reached to the tail of the ready roster, in roster order. Each is set RUNNING with both sleep fields at -1. Every other sleeper stays asleep in its place, and nothing else changes. |
| Join.TaskJoin | p12/ppos_core.c:535-571 | Returns -1 exactly for a NULL or dead target. Otherwise the caller leaves the ready roster for the tail of the suspended roster, with status SUSPENDED and the target recorded, and the dispatcher gets the processor. |
| Join.CheckSuspendedReleasesJoiners | p12/ppos_core.c:479-533 | One pass of `CheckSuspendedTasks` moves exactly the joiners whose target is dead to the tail of the ready roster, in roster order. Each is set RUNNING with its target cleared. Every other joiner stays suspended in its place. |
| Join.ExitReleasesJoiners | p12/ppos_core.c:863-894 | A user task that exits (`TaskExit`) ends dead with its code and the dispatcher gets the processor. Every task joining it is back in the ready roster, RUNNING, and its `task_join` returns that code. Joiners of live tasks stay suspended and unchanged. |
| Semaphores.SemCreate | p12/ppos_core.c:247-260 | The semaphore gets the next semaphore id, the given counter and an empty wait roster. With a non-negative value its waiter count agrees with the counter, and no other semaphore changes. |
| Semaphores.SemDownBody | p12/ppos_core.c:275-315 | The counter drops by one. The caller blocks exactly when the counter was not positive: it leaves the ready roster for the tail of the wait roster, SUSPENDED, and the waiter count rises; no other task, semaphore or roster changes, except that the dispatcher takes the processor with one more activation. Otherwise it returns 0 on a live semaphore and 1 on a destroyed one, changing only the counter. Preemption is on afterwards. |
| Semaphores.SemDown | p12/ppos_core.c:263-316 | A caller whose quantum is overdrawn yields before anything else. A NULL semaphore returns -1 and changes nothing. |
| Semaphores.SemDownResume | p12/ppos_core.c:303-315 | A waiter that runs again returns 0 if the semaphore still exists and 1 if it was destroyed meanwhile. |
| Semaphores.SemWakeUpFirst | p12/ppos_core.c:318-334 | The oldest waiter leaves the wait roster for the tail of the ready roster, as RUNNING. Nothing else changes. |
| Semaphores.SemUp | p12/ppos_core.c:337-363 | A NULL semaphore returns -1 and changes nothing. Otherwise the counter rises by one. If anyone waits, the waiter count drops by one and the oldest waiter is made ready. Preemption is on afterwards. |
| Semaphores.WakeFirstNInOrder | p12/ppos_core.c:371-374 | Waking `n` waiters one after another moves the first `n` of the wait roster to the ready roster in the order they blocked, and the rest stay waiting. |
| Semaphores.SemDestroy | p12/ppos_core.c:367-382 | The wait roster is freed, the preemption flag ends as it was on entry, and no other semaphore changes. |
| Semaphores.DownKeepsCount | p12/ppos_core.c:284-298 | `sem_down` lowers the counter by exactly one and keeps the waiter count equal to the roster length and to the counter's deficit below zero. |
| Semaphores.UpKeepsCount | p12/ppos_core.c:339-360 | `sem_up` raises the counter by exactly one, always finds a waiter to wake when it counts one, and keeps the waiter count equal to the roster length and to the counter's deficit below zero. |
| Semaphores.DestroyReleasesAll | p12/ppos_core.c:367-382 | Destroying a semaphore moves all its waiters to the ready roster in the order they blocked, as RUNNING. Each of them then gets 1 from `sem_down`. The stale waiter count and the counter stay behind, and the preemption flag is restored. |
| MQueues.MqCreate | p12/ppos_core.c:56-83 | A NULL queue returns 1 and changes nothing. Otherwise the queue gets the next queue id, both cursors at slot 0, and an empty buffer of `max` slots, or none at all exactly when `max` is negative. Its three new semaphores (free slots `max`, guard 1, messages 0) take the next three semaphore ids, and a queue of any non-zero capacity is in working order. |
| MQueues.NoBufferDropsMessages | p12/ppos_core.c:66-83 | A queue created with a negative capacity has no buffer. A send on it still returns 0 and raises `mqueue_msgs` to 1, and the receive after it returns 0 with nothing copied. |
| MQueues.NoBufferSendRecv | p12/ppos_core.c:111-178 | On any live queue without a buffer, a send returns 0 and counts the message without storing it, and the next receive returns 0 with nothing copied. |
| MQueues.CreateStartsEmpty | p12/ppos_core.c:56-83 | A new queue holds no message and its message count is 0. |
| MQueues.SendWritesTail | p12/ppos_core.c:86-144 | A send (`MqSend`) on a live queue returns 0 and never blocks. It writes the slot under the write cursor, moves that cursor (wrapping after the last slot), raises the message count by one and wakes the oldest blocked receiver if there is one. The free-slot count is untouched. |
| MQueues.RecvReadsHead | p12/ppos_core.c:147-206 | A receive (`MqRecv`, whose part after the first `sem_down` is `MqRecvFinish`) on a live queue holding messages returns the slot under the read cursor and moves that cursor, or copies nothing when the queue has no buffer. The message count drops by one, the free-slot count rises by one (waking the oldest blocked sender if any), and the guard ends as it began. |
| MQueues.RecvBlocksWhenEmpty | p12/ppos_core.c:155-160 | A receive on an empty queue blocks the caller at the tail of the message semaphore's wait roster and leaves the queue untouched. |
| MQueues.RecvJoinsWaiters | p12/ppos_core.c:155-160 | A receive on an empty queue, or on one where receivers already wait, blocks behind them. The message count drops one further below zero, and the cursors stay together. |
| MQueues.SendHandsOff | p12/ppos_core.c:86-144 | FIFO with receivers waiting: a send returns 0, wakes the oldest waiting receiver and puts its message under the read cursor for it. The write cursor moves one slot on, and the message count rises by one but stays at most 0. |
| MQueues.HandOffDelivers | p12/ppos_core.c:165-202 | The woken receiver, once it runs again, gets exactly that message. The queue is then empty, with the remaining receivers still waiting or with none. |
| MQueues.WaitingReceiverGetsMessage | p12/ppos_core.c:86-206 | A receiver blocked on an empty queue gets the next message sent, whatever else runs before it resumes, as long as that leaves the queue and its semaphores alone. |
| MQueues.MsgsNegativeWhileWaiting | p12/ppos_core.c:239-242 | On a new queue, one blocked receive makes `mqueue_msgs` return -1, while no message is waiting and the corrected count is 0. |
| MQueues.CountIsMessagesWaiting | p12/ppos_core.c:239-242 | The corrected count `MqCount` is the number of unread messages of a queue holding messages, and 0 while receivers wait. `mqueue_msgs` as written (`MqMsgs`) then returns minus the number of waiting receivers. |
| MQueues.SendAppends | p12/ppos_core.c:86-144 | FIFO, sending side: a send into a queue with room appends the message to the unread ones and raises `mqueue_msgs` by one. |
| MQueues.RecvPops | p12/ppos_core.c:147-206 | FIFO, receiving side: a receive from a queue holding messages returns the oldest one, leaves the rest in order and lowers `mqueue_msgs` by one. |
| MQueues.SendOverwritesWhenFull | p12/ppos_core.c:94-134 | A send into a full queue still returns 0 and pushes `mqueue_msgs` past the capacity. Its message overwrites the oldest unread one, which the next receive gets instead. |
| MQueues.SendLoosensGuard | p12/ppos_core.c:94-128 | After the first send on a new queue, the buffer guard stands at 2. |
| MQueues.DestroyReleasesQueue | p12/ppos_core.c:209-237 | Destroying a queue (`MqDestroy`) releases the waiters of the guard, the free-slot count and the message count, in that order, to the ready roster, as RUNNING. It leaves the queue without semaphores or buffer and turns preemption on. |
| MQueues.GoneQueueRefuses | p12/ppos_core.c:94-170 | On a destroyed queue, a send, a receive, and a receiver woken by the destroy each return -1. |
| MQueues.CreateStartsBounded | p12/ppos_core.c:56-83 | Corrected send: a new queue has free-slot count = capacity - messages, with the guard at 1. |
| MQueues.BoundedSendAppends | p12/ppos_core.c:86-144 | Corrected send: into a queue with room it returns 0, appends the message and keeps free slots + messages = capacity with the guard at 1. |
| MQueues.BoundedSendBlocksWhenFull | p12/ppos_core.c:86-144 | Corrected send: into a full queue it blocks the caller on the free-slot count and leaves the messages untouched. |
| MQueues.RecvKeepsBounded | p12/ppos_core.c:147-206 | With the corrected send, a receive returns the oldest message and keeps free slots + messages = capacity. |
| MQueues.BoundedCount | p12/ppos_core.c:239-242 | With the corrected send, while `p` woken senders hold a slot they have not yet written, the corrected count lies within [0, capacity - p] and equals the number of unread messages. Senders are blocked only when it is capacity - p, receivers only when it is 0, and `mqueue_msgs` as written is never below minus the number of waiting receivers. |
| MQueues.RecvWaitsBounded | p12/ppos_core.c:147-160 | With the corrected send, a receive on an empty queue blocks and keeps free slots + messages + held slots = capacity. |
| MQueues.AccountedRecvPops | p12/ppos_core.c:147-206 | With the corrected send, a receive from a queue holding messages returns the oldest one and keeps the rest in order. The freed slot goes to the oldest blocked sender, which is made ready holding it, or else counts as free. |
| MQueues.AccountedSendBlocks | p12/ppos_core.c:86-100 | The corrected send with no free slot blocks the caller at the tail of the free-slot count's wait roster and leaves the queue and its messages untouched. |
| MQueues.SendTakesSlot | p12/ppos_core.c:86-100 | The corrected send with a free slot takes it and goes on as a sender holding one more slot, with the messages untouched. |
| MQueues.WokenSenderAppends | p12/ppos_core.c:86-144 | A sender holding a slot, woken or not, finishes into a queue holding messages: it returns 0, appends its message and gives up its hold. |
| MQueues.WokenSenderHandsOff | p12/ppos_core.c:86-144 | A sender holding a slot finishes into a queue with receivers waiting: it returns 0 and hands its message to the oldest of them, which is made ready. |
| MQueues.HandOffAccountedDelivers | p12/ppos_core.c:147-206 | The receiver woken by such a hand-off gets exactly that message. Its slot goes to the oldest blocked sender if there is one, or else counts as free. |
| MQueues.BoundedSendHandsOff | p12/ppos_core.c:86-144 | With receivers waiting, the corrected send takes a free slot, returns 0, wakes the oldest waiting receiver and hands it the message, leaving the guard at 1. |
| MQueues.BoundedHandOffDelivers | p12/ppos_core.c:147-206 | After the corrected send's hand-off, the woken receiver gets the message and gives the slot back, so the bound holds again. |
| Sleep.SleepThenWake | p12/ppos_core.c:388-475 | A task that sleeps for `t` at clock `c` is woken, RUNNING and ready, by a check at any time `now >= c + t`. A check at an earlier time leaves it asleep and unchanged. |
| Semaphores.DownThenUpRestores | p12/ppos_core.c:275-363 | A `sem_down` that gets through, followed by a `sem_up`, leaves the kernel as it was, with preemption on. |
| Semaphores.BlockThenUpWakesOldest | p12/ppos_core.c:275-363 | A caller that blocks queues behind the earlier waiters. The next `sem_up` wakes the oldest waiter, which is the caller only if nobody waited before it, and restores the counter and the waiter count. |
| Invariants.DisciplineGivesRostersOk | p12/ppos_core.c:625-666 | The roster discipline, which includes every static priority lying in [-20, 20], gives the dispatcher the roster hygiene its turn relies on: known, duplicate-free, disjoint ready and sleeping rosters with in-range priorities. |
| Invariants.AtMostOneRoster | p12/ppos_core.c:286-299 | Under the roster discipline, a task is in at most one of: the ready roster, the suspended roster, the sleeping roster, or the wait roster of one live semaphore. |
| Invariants.InitEstablishes | p12/ppos_core.c:747-799 | `ppos_init` leaves the kernel in the roster discipline. |
| Invariants.YieldKeeps | p12/ppos_core.c:700 | Handing the processor to the dispatcher (`KernelState.Yield`) moves no task. |
| Invariants.TickKeeps | p12/ppos_core.c:597-621 | A timer tick keeps the roster discipline: a preempted task stays in the ready roster. |
| Invariants.SetPrioKeeps | p12/ppos_core.c:625-638 | `task_setprio` keeps the roster discipline. |
| Invariants.CreateKeeps | p12/ppos_core.c:806-860 | `task_create` of a new task keeps the roster discipline. |
| Invariants.SleepKeeps | p12/ppos_core.c:388-415 | `task_sleep` by a running user task keeps the roster discipline. |
| Invariants.JoinKeeps | p12/ppos_core.c:535-571 | A `task_join` that blocks keeps the roster discipline. |
| Invariants.CheckSleepingKeeps | p12/ppos_core.c:417-475 | Waking the due sleepers keeps the roster discipline. |
| Invariants.CheckSuspendedKeeps | p12/ppos_core.c:479-533 | Releasing the joiners of dead tasks keeps the roster discipline. |
| Invariants.ExitKeeps | p12/ppos_core.c:863-894 | `task_exit` by a running user task keeps the roster discipline: the task leaves every roster. |
| Invariants.DispatchKeeps | p12/ppos_core.c:669-710 | Every dispatcher turn (shutdown, idle or launch) keeps the roster discipline. |
| Invariants.SemCreateKeeps | p12/ppos_core.c:247-260 | `sem_create` keeps the roster discipline. |
| Invariants.SemDownKeeps | p12/ppos_core.c:263-316 | `sem_down` by a running user task keeps the roster discipline, whether it yields first, gets through or blocks. |
| Invariants.SemUpKeeps | p12/ppos_core.c:337-363 | `sem_up` keeps the roster discipline. |
| Invariants.SemDestroyKeeps | p12/ppos_core.c:367-382 | `sem_destroy` keeps the roster discipline: the woken waiters are in no other roster. |
| Invariants.MqCreateKeeps | p12/ppos_core.c:56-83 | `mqueue_create` keeps the roster discipline. |
| Invariants.MqSendKeeps | p12/ppos_core.c:86-144 | `mqueue_send` as written keeps the roster discipline. |
| Invariants.MqRecvKeeps | p12/ppos_core.c:147-206 | `mqueue_recv` keeps the roster discipline. |
| Invariants.MqDestroyKeeps | p12/ppos_core.c:209-237 | `mqueue_destroy` keeps the roster discipline. |
| Invariants.MqSendBoundedKeeps | p12/ppos_core.c:86-144 | The corrected send keeps the roster discipline too. |

## Left out

- Context switching (`getcontext`, `makecontext`, `swapcontext`, `setcontext`, stacks) is not modelled: a yield is "the dispatcher has the processor", and a blocking call is a block transition plus a resume result.
- The signal handler and timer setup in `ppos_init` are not modelled. Asynchronous delivery is replaced by the explicit `Tick` step, and each kernel call runs without being interrupted by one.
- `malloc`, `free` and `bcopy` are not modelled. Pointers are map keys, and a fresh allocation is a key not yet in use, passed in by the caller (`TaskCreate`, `MqCreate`, `PposInit`).
- Messages are opaque values, and the buffer is a sequence of whole slots: the byte layout that `msg_size` describes is not modelled. The cursor test `position + msg_size == buffer + max * msg_size` is modelled as "slot + 1 == max", which assumes `msg_size > 0`.
- Printing is not modelled: `print_current_task_runtime` and the DEBUG output.
- Times and counters are mathematical integers. The unsigned wrap-around of `current_time`, `slept_time` and `nap_time` is not modelled.
- `task_create` leaves `ticks` uninitialised. The model takes the stale value as a parameter (`staleTicks`).
- `to_be_next_task` is written but never read for any decision, so it is not modelled.
- The active, suspended and sleeping counters are taken to be the lengths of their rosters.
- The roster primitives `queue_append` and `queue_remove` come from a queue library that is not part of this model. The model appends at the tail and removes the first occurrence, as their uses in the kernel require.
- `check_sleeping_tasks` reads `systime()` once per sleeper. The model compares every sleeper with the clock at the start of the pass, since no tick falls inside a kernel call.
- `task_exit` of the dispatcher, reached when nothing is ready or asleep, ends the program. The model stops at the dead dispatcher (`Shutdown`).
- MQueues.SendWritesTail: a live queue is required to have its guard free (counter at least 1) and, when it has a buffer, at least one slot. A queue created with `max = 0`, or a call that would block on the guard, is outside the model.
- MQueues.MqCreate: a negative `max` gives a queue without buffer, since malloc fails for a negative byte count. A negative `size` with a non-negative `max` also makes that malloc fail in C, but the model still gives the queue its slots, because message bytes are not modelled. With both negative, C allocates `max * size` bytes where the model has no buffer; the first copy into that buffer is already undefined.
- MQueues.SendAppends: first in, first out is proved for a queue holding messages (`SendAppends`, `RecvPops`) and for receivers waiting on an empty queue (`SendHandsOff`, `HandOffDelivers`, `WaitingReceiverGetsMessage`). A further call on the same queue between a woken receiver's wake-up and its finish is not covered, because which woken tasks are still inside `mqueue_recv` is control state the model does not keep. With each queue call running uninterrupted, the guard is always free between calls.
- MQueues.BoundedCount: the corrected send's books are proved kept by each step from a state without a hand-off in flight. A further call on the same queue between a woken receiver's wake-up and its finish is not covered, for the reason given under `MQueues.SendAppends`.
- MQueues.MqRecvFinish: it requires the caller's quantum not to be overdrawn. It is reached either right after a `sem_down` that has just checked this, or by a receiver the dispatcher has just given a full quantum.
- Queue calls use the full `sem_down`, including its pending-preemption yield. The model returns that yield only from a call's first `sem_down`: it happens before the call has changed anything, so the call is simply made again.
- Latent crashes appear only as preconditions:
  - `sem_up` after `sem_destroy` with a stale waiter count (`CanUp`).
  - A blocking `sem_down` on a destroyed semaphore (`CanDown`).
  - `mqueue_destroy` on a destroyed queue (`DestroyOk`).
  - A tick while `current_task` is NULL inside `task_exit`.
- Join.ExitReleasesJoiners is stated for a user task in the ready roster whose joiners all wait for live, known targets. An exit from another state, such as the main task exiting while its joiners' targets are missing, is outside this lemma.
- The `Invariants` lemmas for calls a task makes (sleep, join, exit, `sem_down`, queue calls) assume the caller is a user task in the ready roster. That is where `dispatcher_body` leaves the task it launches; a call made by the dispatcher itself is outside them. `task_id` and `systime` read the state and move no task, so they have no lemma.
- The disk manager `p13` is not part of this model: it does not compile.
- The earlier snapshots `p2` to `p8` are not part of this model: their schedulers either equal this one or are superseded by it.
- `ppos_data.h` serves only as the field reference. Its `mqueue_t` lacks the three semaphore fields that `ppos_core.c` uses. `mutex_t` and `barrier_t` are empty and not modelled.

## Findings

| source | as written | input that shows it | evidently intended | confidence | as-written member | corrected member |
|---|---|---|---|---|---|---|
| p12/ppos_core.c:94 | `mqueue_send` downs `s_buffer` where its own trace message announces the free-slot semaphore, so `s_empty_lots` is never downed and a send never waits for room | a queue of capacity 1 holding the unread message `a`; send `b`, then receive | the send blocks until a slot is free, and the receive gets `a` | not executed | MQueues.SendOverwritesWhenFull | MQueues.MqSendBounded |
| p12/ppos_core.c:241 | `mqueue_msgs` returns the message semaphore's counter, which falls below zero once receivers wait on an empty queue | a new queue of capacity 1; one `mqueue_recv` blocks; `mqueue_msgs` then returns -1 | the number of messages in the queue, as the comment at line 239 says: here 0 | not executed | MQueues.MsgsNegativeWhileWaiting | MQueues.MqCount |
| p12/ppos_core.c:104 | the buffer guard is upped at 104 and again at 124 but downed only once per send | one send on a new queue leaves the guard at 2, so two tasks can be inside the buffer update at once | the guard is back at 1 after every send | not executed | MQueues.SendLoosensGuard | MQueues.MqSendBounded |

`MQueues.MqSendBounded` downs the free-slot count and then the guard, writes
the slot, releases the guard and ups the message count. Proved about it:

- `BoundedSendBlocksWhenFull`: a send into a full queue blocks.
- `BoundedSendAppends`: a send into a queue with room appends, keeps free
  slots + messages = capacity and leaves the guard at 1.
- `RecvKeepsBounded`: a receive keeps the same invariant.
- `BoundedCount`: with `p` senders holding a slot they have not yet written
  (`Accounted`), the corrected count stays within [0, capacity - p].
  `BoundedQueue` is the case `p = 0`: room left, a full queue with senders
  blocked, or an empty one with receivers blocked.
- `AccountedSendBlocks`, `SendTakesSlot`, `WokenSenderAppends`,
  `WokenSenderHandsOff`: a send blocks when no slot is free; otherwise it
  takes one, and later writes it or hands its message to a waiting receiver.
- `AccountedRecvPops`, `RecvWaitsBounded`, `HandOffAccountedDelivers`: a
  receive pops the oldest message or blocks; a freed slot passes to the
  oldest blocked sender, which is woken holding it.
- `BoundedSendHandsOff`, `BoundedHandOffDelivers`: a receiver waiting on an
  empty queue gets the next message, and the bound holds again afterwards.

`MQueues.MqCount` is `mqueue_msgs` clamped at 0: the number of messages
waiting. `CountIsMessagesWaiting` proves that it equals the number of unread
messages, and that it is 0 while receivers wait, where the as-written count is
minus their number.
