/** The dispatcher and the kernel's entry points: the timer tick, one turn of
    the dispatcher's loop, task_create, task_id, systime and ppos_init. The
    dispatcher is itself a task; it is never in the ready roster, and it is
    not a user task, so ticks never preempt it. */
module Dispatcher {

  import opened KernelState
  import opened Rosters
  import opened Scheduler
  import opened Sleep
  import opened Join

  /** systime(): milliseconds (ticks) since ppos_init. */
  function Systime(k: Kernel): int
  {
    k.clock
  }

  /** task_id(): the running task's id. */
  function TaskId(k: Kernel): int
    requires k.current in k.tasks
  {
    k.tasks[k.current].id
  }

  /** The tick that ends the current task's turn: a user task whose quantum
      is used up while preemption is on. */
  predicate Preempts(k: Kernel)
    requires k.current in k.tasks
  {
    var c := k.tasks[k.current];
    c.isUserTask && k.canPreempt && c.ticks - 1 <= 0
  }

  /** tick_handler(): the clock advances by one. A user task is charged one
      tick of its quantum and one tick of processor time, and it hands the
      processor back to the dispatcher when its quantum is used up and
      preemption is on. The dispatcher is never charged. */
  function Tick(k: Kernel): (k': Kernel)
    requires k.current in k.tasks && k.dispatcher in k.tasks
    ensures k'.clock == k.clock + 1
    ensures k'.tasks.Keys == k.tasks.Keys
    ensures !k.tasks[k.current].isUserTask ==> k' == k.(clock := k.clock + 1)
    ensures k.tasks[k.current].isUserTask && k.current != k.dispatcher ==>
      && k'.tasks[k.current] == k.tasks[k.current].(ticks := k.tasks[k.current].ticks - 1,
                                                      totalTicks := k.tasks[k.current].totalTicks + 1)
    ensures Preempts(k) ==> k'.current == k.dispatcher
    ensures !Preempts(k) ==> k'.current == k.current
    ensures forall x | x in k.tasks && x != k.current && x != k.dispatcher :: k'.tasks[x] == k.tasks[x]
    ensures k'.ready == k.ready && k'.suspended == k.suspended && k'.sleeping == k.sleeping
    ensures k'.canPreempt == k.canPreempt && k'.dispatcher == k.dispatcher
  {
    var k1 := k.(clock := k.clock + 1);
    var c := k.tasks[k.current];
    if !c.isUserTask then k1
    else
      var k2 := k1.(tasks := k.tasks[k.current := c.(ticks := c.ticks - 1, totalTicks := c.totalTicks + 1)]);
      if k.canPreempt && c.ticks - 1 <= 0 then Yield(k2) else k2
  }

  /** `n` timer ticks in a row, with nothing else happening in between. */
  function Ticks(k: Kernel, n: nat): (k': Kernel)
    requires k.current in k.tasks && k.dispatcher in k.tasks
    ensures k'.tasks.Keys == k.tasks.Keys && k'.current in k'.tasks && k'.dispatcher == k.dispatcher
    decreases n
  {
    if n == 0 then k else Ticks(Tick(k), n - 1)
  }

  /** A user task with `t` ticks of quantum left and preemption on keeps the
      processor for the next `n < t` ticks, each charged to it. */
  lemma {:induction false} TicksCountDown(k: Kernel, n: nat)
    requires k.current in k.tasks && k.dispatcher in k.tasks && k.current != k.dispatcher
    requires k.tasks[k.current].isUserTask && k.canPreempt
    requires n < k.tasks[k.current].ticks
    ensures var k' := Ticks(k, n);
      && k'.current == k.current
      && k'.clock == k.clock + n
      && k'.canPreempt
      && k'.tasks[k.current] == k.tasks[k.current].(ticks := k.tasks[k.current].ticks - n,
                                                      totalTicks := k.tasks[k.current].totalTicks + n)
    decreases n
  {
    if n > 0 {
      var k1 := Tick(k);
      TicksCountDown(k1, n - 1);
    }
  }

  /** The quantum: a user task dispatched with `t >= 1` ticks, preemption on,
      runs for exactly `t` ticks and is preempted by the `t`-th. */
  lemma QuantumExpires(k: Kernel)
    requires k.current in k.tasks && k.dispatcher in k.tasks && k.current != k.dispatcher
    requires k.tasks[k.current].isUserTask && k.canPreempt
    requires k.tasks[k.current].ticks >= 1
    ensures var t := k.tasks[k.current].ticks;
      && Ticks(k, t - 1).current == k.current
      && Tick(Ticks(k, t - 1)).current == k.dispatcher
      && Tick(Ticks(k, t - 1)).clock == k.clock + t
      && Tick(Ticks(k, t - 1)).tasks[k.current].totalTicks == k.tasks[k.current].totalTicks + t
  {
    TicksCountDown(k, k.tasks[k.current].ticks - 1);
  }

  /** With preemption off the running task is never preempted, however many
      ticks pass; its quantum goes negative instead. */
  lemma {:induction false} NoPreemptionWhileOff(k: Kernel, n: nat)
    requires k.current in k.tasks && k.dispatcher in k.tasks && k.current != k.dispatcher
    requires k.tasks[k.current].isUserTask && !k.canPreempt
    ensures Ticks(k, n).current == k.current
    ensures Ticks(k, n).tasks[k.current].ticks == k.tasks[k.current].ticks - n
    decreases n
  {
    if n > 0 {
      NoPreemptionWhileOff(Tick(k), n - 1);
    }
  }

  /** What one turn of the dispatcher's loop does. */
  datatype Step =
    | Switched(k: Kernel, next: TaskRef)  // control is with `next`
    | Idle(k: Kernel)                     // only sleepers, none due yet
    | Shutdown(k: Kernel)                 // no task left: the dispatcher exits

  /** The dispatcher runs its loop. */
  predicate Dispatching(k: Kernel)
  {
    && k.dispatcher in k.tasks && k.current == k.dispatcher
    && InTable(k.tasks, k.ready) && InTable(k.tasks, k.sleeping)
    && JoinersKnowTargets(k.tasks, k.suspended)
  }

  /** One turn of dispatcher_body: with no ready and no sleeping task the
      dispatcher calls task_exit(0); otherwise due sleepers are woken, and if
      a task is ready the scheduler picks one, which gets a full quantum, one
      more activation and one tick of processor time, and the processor. */
  function DispatchStep(k: Kernel): (s: Step)
    requires Dispatching(k)
  {
    if |k.ready| == 0 && |k.sleeping| == 0 then Shutdown(TaskExit(k, 0))
    else
      var k1 := CheckSleepingTasks(k);
      if |k1.ready| == 0 then Idle(k1) else Launch(k1)
  }

  /** The scheduler's pick gets a full quantum, one more activation, one tick
      of processor time, and the processor. */
  function Launch(k: Kernel): (s: Step)
    requires |k.ready| > 0 && InTable(k.tasks, k.ready)
  {
    var p := Schedule(k);
    var n := p.winner;
    var c := p.tasks[n];
    Switched(k.(tasks := p.tasks[n := c.(ticks := Quantum, activations := c.activations + 1,
                                         totalTicks := c.totalTicks + 1)],
                current := n), n)
  }

  /** Roster hygiene the dispatcher relies on: ready and sleeping tasks are
      known, each roster lists a task once, no task is both ready and asleep,
      and every ready or sleeping priority is in range. */
  predicate RostersOk(k: Kernel)
  {
    && InTable(k.tasks, k.ready) && InTable(k.tasks, k.sleeping)
    && NoDup(k.ready) && NoDup(k.sleeping)
    && (forall x | x in k.ready :: x !in k.sleeping)
    && (forall x | x in k.ready :: InPriorityRange(k.tasks[x].prio))
    && (forall x | x in k.sleeping :: InPriorityRange(k.tasks[x].prio))
  }

  /** One dispatcher turn: it shuts down exactly when nothing is ready or
      asleep, it idles exactly when no task is ready once due sleepers are
      woken, and otherwise it hands the processor to the first task of least
      dynamic priority among the ready ones (due sleepers included), with a
      fresh quantum, its dynamic priority reset, one more activation, and
      every other ready task aged by one. */
  lemma DispatchPicksFirstMinimal(k: Kernel)
    requires Dispatching(k) && RostersOk(k)
    ensures var s := DispatchStep(k); var k1 := CheckSleepingTasks(k);
      && (s.Shutdown? <==> |k.ready| == 0 && |k.sleeping| == 0)
      && (s.Shutdown? ==> s.k.tasks[k.dispatcher].status == Dead && s.k.tasks[k.dispatcher].exitCode == 0)
      && (s.Idle? <==> !s.Shutdown? && |k1.ready| == 0)
      && (s.Switched? ==>
            && InTable(k1.tasks, k1.ready)
            && FirstMinimal(k1.tasks, k1.ready, s.next)
            && s.k.current == s.next
            && s.k.tasks[s.next] == k1.tasks[s.next].(dynamicPrio := k1.tasks[s.next].prio,
                 ticks := Quantum, activations := k1.tasks[s.next].activations + 1,
                 totalTicks := k1.tasks[s.next].totalTicks + 1)
            && (forall x | x in k1.ready && x != s.next :: s.k.tasks[x] == Aged(k1.tasks[x]))
            && s.k.ready == k1.ready && s.k.sleeping == k1.sleeping)
  {
    if !(|k.ready| == 0 && |k.sleeping| == 0) {
      var k1 := CheckSleepingTasks(k);
      WakingKeepsRosters(k);
      if |k1.ready| > 0 {
        LaunchPicksFirstMinimal(k1);
      }
    }
  }

  /** Waking the due sleepers keeps the ready roster free of repeats and its
      priorities in range. */
  lemma WakingKeepsRosters(k: Kernel)
    requires RostersOk(k)
    ensures var k1 := CheckSleepingTasks(k);
      && InTable(k1.tasks, k1.ready) && NoDup(k1.ready)
      && (forall x | x in k1.ready :: InPriorityRange(k1.tasks[x].prio))
  {
    var k1 := CheckSleepingTasks(k);
    CheckSleepingWakesDue(k);
    var d := DueSet(k, k.sleeping);
    SelectKeepsNoDup(k.sleeping, d);
    AppendKeepsNoDup(k.ready, Select(k.sleeping, d));
    forall x | x in k1.ready ensures InPriorityRange(k1.tasks[x].prio) {
      if x in k.ready {
        assert x !in d;
      }
    }
  }

  /** Launching: the first ready task of least dynamic priority gets the
      processor, a fresh quantum and its static priority back; every other
      ready task ages by one. */
  lemma LaunchPicksFirstMinimal(k: Kernel)
    requires |k.ready| > 0 && InTable(k.tasks, k.ready) && NoDup(k.ready)
    requires forall x | x in k.ready :: InPriorityRange(k.tasks[x].prio)
    ensures var s := Launch(k);
      && s.Switched?
      && FirstMinimal(k.tasks, k.ready, s.next)
      && s.k.current == s.next
      && s.k.tasks[s.next] == k.tasks[s.next].(dynamicPrio := k.tasks[s.next].prio,
           ticks := Quantum, activations := k.tasks[s.next].activations + 1,
           totalTicks := k.tasks[s.next].totalTicks + 1)
      && (forall x | x in k.ready && x != s.next :: s.k.tasks[x] == Aged(k.tasks[x]))
      && (forall x | x in k.tasks && x !in k.ready :: s.k.tasks[x] == k.tasks[x])
      && s.k == k.(tasks := s.k.tasks, current := s.next)
  {
    ScheduleSelectsAndAges(k);
  }

  /** The control block task_create fills in: id, priority 0, a user task,
      RUNNING, exit code 0, joining nobody, not asleep, created now, never
      activated. The quantum is not set: `staleTicks` is whatever the memory
      held. */
  function NewTcb(id: int, now: int, staleTicks: int): Tcb
  {
    Tcb(id := id, prio := 0, dynamicPrio := 0, isUserTask := true, ticks := staleTicks,
        totalTicks := 0, creationTime := now, activations := 0, status := Running,
        exitCode := DefaultExitCode, waitedTask := None, sleptTime := -1, napTime := -1)
  }

  datatype Created = Created(k: Kernel, id: int)

  /** Every task id handed out so far is below `lastTaskId`. */
  predicate IdsIssued(k: Kernel)
  {
    forall x | x in k.tasks :: k.tasks[x].id < k.lastTaskId
  }

  /** task_create(t, ...): the next task id, a fresh control block, and a
      place at the tail of the ready roster once the rosters exist (so not
      for the dispatcher itself, which is created before them). */
  function TaskCreate(k: Kernel, t: TaskRef, staleTicks: int): (r: Created)
    requires t !in k.tasks
    ensures r.id == k.lastTaskId && r.k.lastTaskId == k.lastTaskId + 1
    ensures r.k.tasks == k.tasks[t := NewTcb(r.id, k.clock, staleTicks)]
    ensures k.rostersCreated ==> r.k.ready == k.ready + [t]
    ensures !k.rostersCreated ==> r.k.ready == k.ready
    ensures IdsIssued(k) ==> IdsIssued(r.k) && forall x | x in k.tasks :: k.tasks[x].id != r.id
    ensures r.k == k.(tasks := r.k.tasks, ready := r.k.ready, lastTaskId := r.k.lastTaskId)
  {
    var id := k.lastTaskId;
    var k1 := k.(lastTaskId := id + 1, tasks := k.tasks[t := NewTcb(id, k.clock, staleTicks)]);
    Created(if k.rostersCreated then k1.(ready := k.ready + [t]) else k1, id)
  }

  /** The kernel before ppos_init: the static initial values of its globals.
      No task exists yet; `current` and `dispatcher` name no task. */
  function Boot(): Kernel
  {
    Kernel(tasks := map[], ready := [], suspended := [], sleeping := [], rostersCreated := false,
           current := 0, dispatcher := 0, clock := -1, canPreempt := true,
           lastTaskId := 0, lastSemaphoreId := -1, lastMqueueId := -1,
           sems := map[], queues := map[])
  }

  /** create_dispatcher(): the dispatcher task `d` (not a user task, not
      enrolled) and then three empty rosters. */
  function CreateDispatcher(k: Kernel, d: TaskRef, staleTicks: int): (k': Kernel)
    requires d !in k.tasks
  {
    var c := TaskCreate(k, d, staleTicks);
    c.k.(tasks := c.k.tasks[d := c.k.tasks[d].(isUserTask := false)],
         dispatcher := d, ready := [], suspended := [], sleeping := [], rostersCreated := true)
  }

  /** ppos_init(): clock at 0, the dispatcher `d` created, then the main task
      `m` (enrolled, and current); the two ids are then swapped so that main
      is task 0 and the dispatcher task 1; finally control goes to the
      dispatcher. */
  function PposInit(d: TaskRef, m: TaskRef, staleD: int, staleM: int): (k: Kernel)
    requires d != m
    ensures k.tasks.Keys == {d, m}
    ensures k.dispatcher == d && k.current == d
    ensures k.ready == [m] && k.suspended == [] && k.sleeping == []
    ensures k.tasks[m].id == 0 && k.tasks[d].id == 1 && k.lastTaskId == 2
    ensures k.tasks[m].isUserTask && !k.tasks[d].isUserTask
    ensures k.tasks[m].status == Running && k.tasks[d].status == Running
    ensures k.tasks[m].prio == 0 && k.tasks[m].activations == 0 && k.tasks[d].activations == 0
    ensures k.clock == 0 && k.canPreempt
  {
    var k1 := CreateDispatcher(Boot().(clock := 0), d, staleD);
    var k2 := TaskCreate(k1, m, staleM).k.(current := m);
    var k3 := k2.(tasks := k2.tasks[d := k2.tasks[d].(id := 1)][m := k2.tasks[m].(id := 0)]);
    k3.(current := d)
  }

  /** After ppos_init the dispatcher's first turn hands the processor to the
      main task, which is task 0, with a full quantum and its first
      activation. */
  lemma InitThenDispatchRunsMain(d: TaskRef, m: TaskRef, staleD: int, staleM: int)
    requires d != m
    ensures Dispatching(PposInit(d, m, staleD, staleM))
    ensures var k := PposInit(d, m, staleD, staleM); var s := DispatchStep(k);
      && s.Switched? && s.next == m
      && TaskId(s.k) == 0
      && s.k.tasks[m].ticks == Quantum
      && s.k.tasks[m].activations == 1
  {
    var k := PposInit(d, m, staleD, staleM);
    assert k.ready == [m];
    CheckSleepingWakesDue(k);
    assert Select([], DueSet(k, [])) == [];
    ScheduleSelectsAndAges(CheckSleepingTasks(k));
  }
}
