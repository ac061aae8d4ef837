/** The state of the PingPongOS kernel (final snapshot): task control blocks,
    the dispatcher's three rosters, the clock, the preemption flag, and the
    semaphores and message queues the tasks have created.

    Pointers are modelled as references into maps: a task_t* is a TaskRef,
    a semaphore_t* a SemRef and an mqueue_t* a QueueRef. A NULL pointer is
    `None` where the kernel tests for it. */
module KernelState {

  datatype Option<+T> = None | Some(value: T)

  const MinPriority: int := -20
  const MaxPriority: int := 20
  const Quantum: int := 20
  const DefaultExitCode: int := 0

  type TaskRef = nat
  type SemRef = nat
  type QueueRef = nat

  /** The bytes one message carries; the kernel copies them without looking inside. */
  type Message = seq<bv8>

  /** Task status. The kernel stores it as an int; see StatusCode. There is no
      separate "ready" code: a task that may run is RUNNING. */
  datatype Status = Suspended | Running | Sleeping | Dead

  function StatusCode(s: Status): int
  {
    match s
    case Suspended => 0
    case Running => 1
    case Sleeping => 2
    case Dead => -1
  }

  predicate InPriorityRange(p: int)
  {
    MinPriority <= p <= MaxPriority
  }

  /** Task control block. The saved context and the stack are not modelled. */
  datatype Tcb = Tcb(
    id: int,
    prio: int,
    dynamicPrio: int,
    isUserTask: bool,
    ticks: int,
    totalTicks: int,
    creationTime: int,
    activations: int,
    status: Status,
    exitCode: int,
    waitedTask: Option<TaskRef>,
    sleptTime: int,
    napTime: int)

  /** Counting semaphore. `waiters` is the private wait roster; it becomes
      None (the freed roster pointer) once the semaphore is destroyed. */
  datatype Semaphore = Semaphore(
    id: int,
    counter: int,
    taskCounter: int,
    waiters: Option<seq<TaskRef>>)
  {
    predicate Alive() { waiters.Some? }
  }

  /** Message queue of `maxMsgs` slots. The cursors are slot indices into
      `buffer` (the kernel keeps byte pointers that move `msgSize` bytes at a
      time). The three semaphores are allocated by the queue and live in the
      kernel's semaphore map; the queue forgets them (None) when it is
      destroyed. A slot that was never written holds None. */
  datatype MQueue = MQueue(
    id: int,
    maxMsgs: int,
    msgSize: int,
    buffer: Option<seq<Option<Message>>>,
    currentItem: int,
    nextPosition: int,
    sEmptyLots: Option<SemRef>,
    sBuffer: Option<SemRef>,
    sItems: Option<SemRef>)

  /** The whole kernel. `rostersCreated` records whether create_dispatcher has
      allocated the rosters yet: task_create enrols a task only after that. */
  datatype Kernel = Kernel(
    tasks: map<TaskRef, Tcb>,
    ready: seq<TaskRef>,
    suspended: seq<TaskRef>,
    sleeping: seq<TaskRef>,
    rostersCreated: bool,
    current: TaskRef,
    dispatcher: TaskRef,
    clock: int,
    canPreempt: bool,
    lastTaskId: int,
    lastSemaphoreId: int,
    lastMqueueId: int,
    sems: map<SemRef, Semaphore>,
    queues: map<QueueRef, MQueue>)

  predicate InTable(t: map<TaskRef, Tcb>, s: seq<TaskRef>)
  {
    forall x | x in s :: x in t
  }

  /** Control returns to the dispatcher (task_yield / task_switch). The first
      thing the dispatcher does when a task hands control back is count one
      more activation of its own. */
  function Yield(k: Kernel): (k': Kernel)
    requires k.dispatcher in k.tasks
    ensures k'.current == k.dispatcher
    ensures k'.tasks.Keys == k.tasks.Keys
    ensures k'.tasks[k.dispatcher] == k.tasks[k.dispatcher].(activations := k.tasks[k.dispatcher].activations + 1)
    ensures forall x | x in k.tasks && x != k.dispatcher :: k'.tasks[x] == k.tasks[x]
    ensures k'.ready == k.ready && k'.suspended == k.suspended && k'.sleeping == k.sleeping
    ensures k'.clock == k.clock && k'.canPreempt == k.canPreempt
    ensures k'.sems == k.sems && k'.queues == k.queues
  {
    var d := k.tasks[k.dispatcher];
    k.(current := k.dispatcher, tasks := k.tasks[k.dispatcher := d.(activations := d.activations + 1)])
  }
}
