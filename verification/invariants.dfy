/** The roster discipline of the kernel: a task that waits is in exactly one
    roster (ready, suspended, sleeping, or the wait roster of one live
    semaphore), listed once, and its status says which kind of roster it is
    in. The dispatcher itself is in none of them, and every static priority
    is in task_setprio's range. Every operation that moves
    tasks between rosters keeps this. */
module Invariants {

  import opened KernelState
  import opened Rosters
  import opened Scheduler
  import opened Sleep
  import opened Join
  import opened Semaphores
  import opened Dispatcher
  import opened MQueues

  /** Roster `s` lists known tasks, each once, never the dispatcher, and all
      of them with status `st`. */
  predicate Holds(k: Kernel, s: seq<TaskRef>, st: Status)
  {
    && InTable(k.tasks, s) && NoDup(s) && k.dispatcher !in s
    && forall x | x in s :: k.tasks[x].status == st
  }

  predicate Apart(a: seq<TaskRef>, b: seq<TaskRef>)
  {
    forall x | x in a :: x !in b
  }

  /** `r` names a semaphore that still has a wait roster. */
  predicate Live(k: Kernel, r: SemRef)
  {
    r in k.sems && k.sems[r].Alive()
  }

  function Waiters(k: Kernel, r: SemRef): seq<TaskRef>
    requires Live(k, r)
  {
    k.sems[r].waiters.value
  }

  /** The roster discipline. Ready, suspended and sleeping tasks are told
      apart by their status; joiners and semaphore waiters are all
      SUSPENDED, so those rosters are kept apart explicitly. */
  predicate OneRoster(k: Kernel)
  {
    && Holds(k, k.ready, Running)
    && Holds(k, k.suspended, Suspended)
    && Holds(k, k.sleeping, Sleeping)
    && JoinersKnowTargets(k.tasks, k.suspended)
    && (forall r | r in k.sems && Live(k, r) :: Holds(k, Waiters(k, r), Suspended) && Apart(Waiters(k, r), k.suspended))
    && (forall r1, r2 | r1 in k.sems && r2 in k.sems && Live(k, r1) && Live(k, r2) && r1 != r2 :: Apart(Waiters(k, r1), Waiters(k, r2)))
    && (forall x | x in k.tasks :: InPriorityRange(k.tasks[x].prio))
  }

  /** The discipline gives the dispatcher the roster hygiene it relies on,
      so every dispatcher turn from a disciplined state picks as described
      by `Dispatcher.DispatchPicksFirstMinimal`. */
  lemma DisciplineGivesRostersOk(k: Kernel)
    requires OneRoster(k)
    ensures RostersOk(k)
  {
    forall x | x in k.ready
      ensures x !in k.sleeping
    {
      AtMostOneRoster(k, x);
    }
  }

  /** Under the discipline no task is in two rosters at once. */
  lemma AtMostOneRoster(k: Kernel, x: TaskRef)
    requires OneRoster(k)
    ensures x in k.ready ==> x !in k.suspended && x !in k.sleeping
    ensures x in k.suspended ==> x !in k.sleeping
    ensures forall r | Live(k, r) && x in Waiters(k, r) ::
      && x !in k.ready && x !in k.suspended && x !in k.sleeping
      && forall q | Live(k, q) && q != r :: x !in Waiters(k, q)
  {
  }

  /** A user task has the processor: it is in the ready roster, and it is
      not the dispatcher. */
  predicate UserRunning(k: Kernel)
  {
    k.dispatcher in k.tasks && k.current in k.ready && k.current != k.dispatcher
  }

  /** The rosters and the semaphores are as they were, no task changed its
      status or its join target, and any new priority is in range. */
  predicate SameRosters(k: Kernel, k': Kernel)
  {
    && k'.ready == k.ready && k'.suspended == k.suspended && k'.sleeping == k.sleeping
    && k'.sems == k.sems && k'.dispatcher == k.dispatcher
    && k'.tasks.Keys == k.tasks.Keys
    && forall x | x in k.tasks :: k'.tasks[x].status == k.tasks[x].status
                                 && k'.tasks[x].waitedTask == k.tasks[x].waitedTask
                                 && (k'.tasks[x].prio == k.tasks[x].prio || InPriorityRange(k'.tasks[x].prio))
  }

  lemma SameRostersKeep(k: Kernel, k': Kernel)
    requires OneRoster(k) && SameRosters(k, k')
    ensures OneRoster(k')
  {
    assert forall r | Live(k', r) :: Live(k, r) && Waiters(k', r) == Waiters(k, r);
  }

  /** Control going back to the dispatcher moves no task. */
  lemma YieldKeeps(k: Kernel)
    requires OneRoster(k) && k.dispatcher in k.tasks
    ensures OneRoster(Yield(k))
  {
    SameRostersKeep(k, Yield(k));
  }

  /** A timer tick moves no task between rosters (a preempted task stays in
      the ready roster). */
  lemma TickKeeps(k: Kernel)
    requires OneRoster(k) && k.current in k.tasks && k.dispatcher in k.tasks
    ensures OneRoster(Tick(k))
  {
    SameRostersKeep(k, Tick(k));
  }

  /** task_setprio moves no task. */
  lemma SetPrioKeeps(k: Kernel, task: Option<TaskRef>, p: int)
    requires OneRoster(k) && TargetExists(k, task)
    ensures OneRoster(TaskSetPrio(k, task, p))
  {
    SameRostersKeep(k, TaskSetPrio(k, task, p));
  }

  /** task_create: a new task joins the ready roster (once the rosters exist). */
  lemma CreateKeeps(k: Kernel, t: TaskRef, staleTicks: int)
    requires OneRoster(k) && t !in k.tasks && k.dispatcher in k.tasks
    ensures OneRoster(TaskCreate(k, t, staleTicks).k)
  {
    var k' := TaskCreate(k, t, staleTicks).k;
    AppendKeepsNoDup(k.ready, [t]);
    assert forall r | Live(k', r) :: Live(k, r) && Waiters(k', r) == Waiters(k, r);
  }

  /** task_sleep: the caller moves from the ready roster to the sleeping one. */
  lemma SleepKeeps(k: Kernel, t: int)
    requires OneRoster(k) && UserRunning(k)
    ensures OneRoster(TaskSleep(k, t))
  {
    var k' := TaskSleep(k, t);
    RemoveKeepsNoDup(k.ready, k.current);
    AppendKeepsNoDup(k.sleeping, [k.current]);
    assert forall r | Live(k', r) :: Live(k, r) && Waiters(k', r) == Waiters(k, r);
  }

  /** task_join on a live task: the caller moves from the ready roster to
      the suspended one. */
  lemma JoinKeeps(k: Kernel, task: Option<TaskRef>)
    requires OneRoster(k) && UserRunning(k)
    requires task.Some? ==> task.value in k.tasks
    ensures TaskJoin(k, task).JoinBlocked? ==> OneRoster(TaskJoin(k, task).k)
  {
    var c := TaskJoin(k, task);
    if c.JoinBlocked? {
      var k' := c.k;
      RemoveKeepsNoDup(k.ready, k.current);
      AppendKeepsNoDup(k.suspended, [k.current]);
      assert forall r | Live(k', r) :: Live(k, r) && Waiters(k', r) == Waiters(k, r);
    }
  }

  /** check_sleeping_tasks: due sleepers move to the ready roster. */
  lemma CheckSleepingKeeps(k: Kernel)
    requires OneRoster(k)
    ensures OneRoster(CheckSleepingTasks(k))
  {
    var d := DueSet(k, k.sleeping);
    var s := Select(k.sleeping, d);
    var k3 := k.(sleeping := Exclude(k.sleeping, d));
    CheckSleepingWakesDue(k);
    ExcludeKeepsNoDup(k.sleeping, d);
    assert OneRoster(k3) by {
      assert forall r | Live(k3, r) :: Live(k, r) && Waiters(k3, r) == Waiters(k, r);
    }
    SelectKeepsNoDup(k.sleeping, d);
    forall x, q | x in s && q in k3.sems && Live(k3, q)
      ensures x !in Waiters(k3, q)
    {
      assert Waiters(k3, q) == Waiters(k, q);
    }
    EnrolKeeps(k3, s, CheckSleepingTasks(k));
  }

  /** check_suspended_tasks: released joiners move to the ready roster. */
  lemma CheckSuspendedKeeps(k: Kernel)
    requires OneRoster(k)
    ensures OneRoster(CheckSuspendedTasks(k))
  {
    var d := ReleasedSet(k, k.suspended);
    var s := Select(k.suspended, d);
    var k3 := k.(suspended := Exclude(k.suspended, d));
    CheckSuspendedReleasesJoiners(k);
    ExcludeKeeps(k, d, k3);
    SelectKeepsNoDup(k.suspended, d);
    forall x, q | x in s && q in k3.sems && Live(k3, q)
      ensures x !in Waiters(k3, q)
    {
      assert Waiters(k3, q) == Waiters(k, q);
    }
    EnrolKeeps(k3, s, CheckSuspendedTasks(k));
  }

  /** Dropping tasks from the suspended roster keeps the discipline. */
  lemma ExcludeKeeps(k: Kernel, d: set<TaskRef>, k': Kernel)
    requires OneRoster(k) && k' == k.(suspended := Exclude(k.suspended, d))
    ensures OneRoster(k')
  {
    ExcludeKeepsNoDup(k.suspended, d);
    assert forall r | Live(k', r) :: Live(k, r) && Waiters(k', r) == Waiters(k, r);
  }

  /** task_exit by a user task: it leaves every roster, and its joiners are
      released. */
  lemma ExitKeeps(k: Kernel, code: int)
    requires OneRoster(k) && UserRunning(k)
    ensures OneRoster(TaskExit(k, code))
  {
    var self := k.current;
    var k1 := k.(tasks := k.tasks[self := Exited(k.tasks[self], code)]);
    var k2 := k1.(ready := Remove(k.ready, self));
    RemoveKeepsNoDup(k.ready, self);
    assert forall r | Live(k2, r) :: Live(k, r) && Waiters(k2, r) == Waiters(k, r);
    assert OneRoster(k2);
    CheckSuspendedKeeps(k2);
    YieldKeeps(CheckSuspendedTasks(k2));
  }

  /** sem_create: the new semaphore's wait roster is empty. */
  lemma SemCreateKeeps(k: Kernel, r: SemRef, value: int)
    requires OneRoster(k)
    ensures OneRoster(SemCreate(k, r, value))
  {
    var k' := SemCreate(k, r, value);
    assert forall q | Live(k', q) && q != r :: Live(k, q) && Waiters(k', q) == Waiters(k, q);
  }

  /** sem_down: a caller that blocks moves from the ready roster to the tail
      of the semaphore's wait roster; one that yields first, or gets through,
      moves no task. */
  lemma SemDownKeeps(k: Kernel, h: Option<SemRef>)
    requires OneRoster(k) && UserRunning(k)
    requires h.Some? ==> CanDown(k, h.value)
    ensures OneRoster(SemDown(k, h).k)
  {
    if k.tasks[k.current].ticks < 0 {
      YieldKeeps(k);
    } else if h.Some? && k.sems[h.value].counter <= 0 {
      DownBlockedKeeps(k, h.value);
    } else if h.Some? {
      DownPassesKeeps(k, h.value);
    }
  }

  lemma DownPassesKeeps(k: Kernel, r: SemRef)
    requires OneRoster(k) && CanDown(k, r) && k.sems[r].counter > 0
    ensures OneRoster(SemDownBody(k, r).k)
  {
    var k' := SemDownBody(k, r).k;
    assert forall q | Live(k', q) :: Live(k, q) && Waiters(k', q) == Waiters(k, q);
  }

  lemma DownBlockedKeeps(k: Kernel, r: SemRef)
    requires OneRoster(k) && UserRunning(k) && CanDown(k, r) && k.sems[r].counter <= 0
    ensures OneRoster(SemDownBody(k, r).k)
  {
    var x := k.current;
    var s := k.sems[r];
    var s' := s.(counter := s.counter - 1, taskCounter := s.taskCounter + 1, waiters := Some(s.waiters.value + [x]));
    var k2 := k.(ready := Remove(k.ready, x), tasks := k.tasks[x := k.tasks[x].(status := Suspended)],
                 sems := k.sems[r := s'], canPreempt := true);
    assert SemDownBody(k, r).k == Yield(k2);
    BlockKeeps(k, r, x, s', k2);
    YieldKeeps(k2);
  }

  /** A ready task that leaves the ready roster, suspended, for the tail of a
      live semaphore's wait roster keeps the discipline. */
  lemma BlockKeeps(k: Kernel, r: SemRef, x: TaskRef, s': Semaphore, k': Kernel)
    requires OneRoster(k) && Live(k, r) && x in k.ready
    requires s'.waiters == Some(Waiters(k, r) + [x])
    requires k' == k.(ready := Remove(k.ready, x), tasks := k.tasks[x := k.tasks[x].(status := Suspended)],
                      sems := k.sems[r := s'], canPreempt := k'.canPreempt)
    ensures OneRoster(k')
  {
    assert Holds(k', k'.ready, Running) by {
      RemoveKeepsNoDup(k.ready, x);
    }
    assert Holds(k', k'.suspended, Suspended) && Holds(k', k'.sleeping, Sleeping) by {
      AtMostOneRoster(k, x);
    }
    assert JoinersKnowTargets(k'.tasks, k'.suspended);
    assert Waiters(k', r) == Waiters(k, r) + [x] by {
      AppendKeepsNoDup(Waiters(k, r), [x]);
    }
    assert forall q | Live(k', q) && q != r :: Live(k, q) && Waiters(k', q) == Waiters(k, q);
  }

  /** sem_up: the oldest waiter, if one is counted, moves to the tail of the
      ready roster. */
  lemma SemUpKeeps(k: Kernel, h: Option<SemRef>)
    requires OneRoster(k)
    requires h.Some? ==> CanUp(k, h.value)
    ensures OneRoster(SemUp(k, h).k)
  {
    var c := SemUp(k, h);
    if h.Some? {
      var r := h.value;
      var k' := c.k;
      if k.sems[r].taskCounter > 0 {
        assert k'.sems == k.sems[r := k'.sems[r]];
        WakeKeeps(k, r, k'.sems[r], k');
      } else {
        assert forall q | Live(k', q) :: Live(k, q) && Waiters(k', q) == Waiters(k, q);
      }
    }
  }

  /** The oldest waiter of a live semaphore that leaves its wait roster for
      the tail of the ready roster, as a RUNNING task, keeps the discipline. */
  lemma WakeKeeps(k: Kernel, r: SemRef, s': Semaphore, k': Kernel)
    requires OneRoster(k) && Live(k, r) && |Waiters(k, r)| > 0
    requires s'.waiters == Some(Waiters(k, r)[1..])
    requires var x := Waiters(k, r)[0];
      k' == k.(ready := k.ready + [x], tasks := k.tasks[x := k.tasks[x].(status := Running)],
               sems := k.sems[r := s'], canPreempt := k'.canPreempt)
    ensures OneRoster(k')
  {
    var w := Waiters(k, r);
    HeadNotInTail(w);
    assert Holds(k', k'.ready, Running) by {
      AppendKeepsNoDup(k.ready, [w[0]]);
    }
    assert Holds(k', k'.suspended, Suspended) && Holds(k', k'.sleeping, Sleeping);
    assert JoinersKnowTargets(k'.tasks, k'.suspended);
    assert forall x | x in k'.tasks :: InPriorityRange(k'.tasks[x].prio);
    assert Waiters(k', r) == w[1..];
    assert forall q | Live(k', q) && q != r :: Live(k, q) && Waiters(k', q) == Waiters(k, q);
    assert forall q | q in k'.sems && Live(k', q) :: Holds(k', Waiters(k', q), Suspended) && Apart(Waiters(k', q), k'.suspended);
  }

  /** sem_destroy: every counted waiter moves, oldest first, to the tail of
      the ready roster, and the semaphore's wait roster is gone. */
  lemma SemDestroyKeeps(k: Kernel, r: SemRef)
    requires OneRoster(k) && r in k.sems
    requires k.sems[r].taskCounter > 0 ==> CanWake(k, r, k.sems[r].taskCounter)
    ensures OneRoster(SemDestroy(k, r))
  {
    var n := k.sems[r].taskCounter;
    DroppedKeeps(k, r);
    if n > 0 {
      DestroyShape(k, r);
      WokenUnrostered(k, r, n);
      EnrolKeeps(Dropped(k, r), Waiters(k, r)[..n], SemDestroy(k, r));
    }
  }

  /** What sem_destroy does, seen from the rosters: the first `n` waiters
      join the ready roster as RUNNING tasks and the wait roster is freed. */
  lemma DestroyShape(k: Kernel, r: SemRef)
    requires r in k.sems && k.sems[r].taskCounter > 0 && CanWake(k, r, k.sems[r].taskCounter)
    ensures var k' := SemDestroy(k, r); var s := k.sems[r].waiters.value[..k.sems[r].taskCounter];
      && k'.ready == k.ready + s && k'.tasks.Keys == k.tasks.Keys
      && (forall x | x in s :: k'.tasks[x] == k.tasks[x].(status := Running))
      && (forall x | x in k.tasks && x !in s :: k'.tasks[x] == k.tasks[x])
      && k' == Dropped(k, r).(ready := k'.ready, tasks := k'.tasks)
  {
    var k' := SemDestroy(k, r);
    WakeFirstNInOrder(k.(canPreempt := false), r, k.sems[r].taskCounter);
    assert k'.sems == Dropped(k, r).sems;
  }

  /** The waiters sem_destroy wakes are in no other roster. */
  lemma WokenUnrostered(k: Kernel, r: SemRef, n: nat)
    requires OneRoster(k) && Live(k, r) && n <= |Waiters(k, r)|
    ensures var s := Waiters(k, r)[..n]; var k3 := Dropped(k, r);
      && InTable(k3.tasks, s) && NoDup(s) && k3.dispatcher !in s
      && (forall x | x in s :: x !in k3.ready && x !in k3.suspended && x !in k3.sleeping)
      && (forall x, q | x in s && q in k3.sems && Live(k3, q) :: x !in Waiters(k3, q))
  {
    var w := Waiters(k, r);
    var k3 := Dropped(k, r);
    assert forall x | x in w[..n] :: x in w;
    assert NoDup(w[..n]);
    forall x, q | x in w[..n] && q in k3.sems && Live(k3, q)
      ensures x !in Waiters(k3, q)
    {
      assert q != r && Live(k, q) && Waiters(k3, q) == Waiters(k, q);
    }
  }

  /** The semaphore `r` with its wait roster freed. */
  function Dropped(k: Kernel, r: SemRef): Kernel
    requires r in k.sems
  {
    k.(sems := k.sems[r := k.sems[r].(waiters := None)])
  }

  lemma DroppedKeeps(k: Kernel, r: SemRef)
    requires OneRoster(k) && r in k.sems
    ensures OneRoster(Dropped(k, r))
  {
    var k' := Dropped(k, r);
    assert forall q | Live(k', q) :: q != r && Live(k, q) && Waiters(k', q) == Waiters(k, q);
  }

  /** Tasks that are in no roster may join the tail of the ready roster as
      RUNNING tasks. */
  lemma EnrolKeeps(k: Kernel, s: seq<TaskRef>, k': Kernel)
    requires OneRoster(k) && InTable(k.tasks, s) && NoDup(s) && k.dispatcher !in s
    requires forall x | x in s :: x !in k.ready && x !in k.suspended && x !in k.sleeping
    requires forall x, q | x in s && q in k.sems && Live(k, q) :: x !in Waiters(k, q)
    requires k'.ready == k.ready + s && k'.tasks.Keys == k.tasks.Keys
    requires forall x | x in s :: k'.tasks[x].status == Running && k'.tasks[x].prio == k.tasks[x].prio
    requires forall x | x in k.tasks && x !in s :: k'.tasks[x] == k.tasks[x]
    requires k' == k.(ready := k'.ready, tasks := k'.tasks)
    ensures OneRoster(k')
  {
    AppendKeepsNoDup(k.ready, s);
    assert forall q | Live(k', q) :: Live(k, q) && Waiters(k', q) == Waiters(k, q);
  }

  /** One dispatcher turn moves tasks only by waking due sleepers (or, at
      shutdown, by the dispatcher's own exit); handing the processor to the
      scheduler's pick moves no task. */
  lemma DispatchKeeps(k: Kernel)
    requires OneRoster(k) && Dispatching(k)
    ensures OneRoster(DispatchStep(k).k)
  {
    if |k.ready| == 0 && |k.sleeping| == 0 {
      ShutdownKeeps(k);
    } else {
      CheckSleepingKeeps(k);
      var k1 := CheckSleepingTasks(k);
      if |k1.ready| > 0 {
        LaunchKeeps(k1);
      }
    }
  }

  lemma ShutdownKeeps(k: Kernel)
    requires OneRoster(k) && Dispatching(k) && |k.ready| == 0
    ensures OneRoster(TaskExit(k, 0))
  {
    var k' := TaskExit(k, 0);
    assert forall q | Live(k', q) :: Live(k, q) && Waiters(k', q) == Waiters(k, q);
  }

  lemma LaunchKeeps(k: Kernel)
    requires OneRoster(k) && |k.ready| > 0
    ensures OneRoster(Launch(k).k)
  {
    var p := Schedule(k);
    var k' := Launch(k).k;
    assert k'.tasks.Keys == k.tasks.Keys;
    forall x | x in k.tasks
      ensures k'.tasks[x].status == k.tasks[x].status
      ensures k'.tasks[x].waitedTask == k.tasks[x].waitedTask
    {
      assert p.tasks[x].status == k.tasks[x].status;
    }
    SameRostersKeep(k, k');
  }

  /** ppos_init leaves the kernel in the discipline: main is the one ready task. */
  lemma InitEstablishes(d: TaskRef, m: TaskRef, staleD: int, staleM: int)
    requires d != m
    ensures OneRoster(PposInit(d, m, staleD, staleM))
  {
  }

  /** mqueue_create: three new semaphores with empty wait rosters. */
  lemma MqCreateKeeps(k: Kernel, h: Option<QueueRef>, max: int, size: int, e: SemRef, b: SemRef, i: SemRef)
    requires OneRoster(k)
    requires e != b && b != i && e != i
    requires e !in k.sems && b !in k.sems && i !in k.sems
    ensures OneRoster(MqCreate(k, h, max, size, e, b, i).k)
  {
    if h.Some? {
      SemCreateKeeps(k, e, max);
      SemCreateKeeps(SemCreate(k, e, max), b, 1);
      var k1 := SemCreate(SemCreate(SemCreate(k, e, max), b, 1), i, 0);
      SemCreateKeeps(SemCreate(SemCreate(k, e, max), b, 1), i, 0);
      SameRostersKeep(k1, MqCreate(k, h, max, size, e, b, i).k);
    }
  }

  /** mqueue_send moves tasks only through its semaphore calls. */
  lemma MqSendKeeps(k: Kernel, q: QueueRef, msg: Message)
    requires OneRoster(k) && UserRunning(k)
    requires q in k.queues && Usable(k, q, k.queues[q].sBuffer)
    ensures OneRoster(MqSend(k, q, msg).k)
  {
    var Q := k.queues[q];
    SemDownKeeps(k, Q.sBuffer);
    var d := SemDown(k, Q.sBuffer);
    if d.SemReturned? && d.code != -1 {
      var b := Q.sBuffer.value;
      var k1 := d.k;
      SemUpKeeps(k1, Some(b));
      var k2 := SemUp(k1, Some(b)).k;
      var k3 := k2.(queues := k2.queues[q := WriteSlot(Q, msg)]);
      SameRostersKeep(k2, k3);
      SemUpKeeps(k3, Some(b));
      SemUpKeeps(SemUp(k3, Some(b)).k, Q.sItems);
    }
  }

  /** mqueue_recv moves tasks only through its semaphore calls. */
  lemma MqRecvKeeps(k: Kernel, q: QueueRef)
    requires OneRoster(k) && UserRunning(k)
    requires q in k.queues && Usable(k, q, k.queues[q].sItems)
    ensures OneRoster(MqRecv(k, q).k)
  {
    var Q := k.queues[q];
    SemDownKeeps(k, Q.sItems);
    var d := SemDown(k, Q.sItems);
    if d.SemReturned? && d.code != -1 {
      MqRecvFinishKeeps(d.k, q);
    }
  }

  lemma MqRecvFinishKeeps(k: Kernel, q: QueueRef)
    requires OneRoster(k) && UserRunning(k)
    requires q in k.queues && Usable(k, q, k.queues[q].sBuffer)
    requires k.tasks[k.current].ticks >= 0
    ensures OneRoster(MqRecvFinish(k, q).k)
  {
    var Q := k.queues[q];
    SemDownKeeps(k, Q.sBuffer);
    var d := SemDown(k, Q.sBuffer);
    if d.SemReturned? && d.code != -1 {
      var b := Q.sBuffer.value;
      var (m, Q') := ReadSlot(Q);
      var k2 := d.k.(queues := d.k.queues[q := Q']);
      SameRostersKeep(d.k, k2);
      SemUpKeeps(k2, Some(b));
      SemUpKeeps(SemUp(k2, Some(b)).k, Q.sEmptyLots);
    }
  }

  /** mqueue_destroy moves tasks only through its three sem_destroy calls. */
  lemma MqDestroyKeeps(k: Kernel, q: QueueRef)
    requires OneRoster(k)
    requires q in k.queues && DestroyOk(k, k.queues[q])
    ensures OneRoster(MqDestroy(k, q).k)
  {
    var Q := k.queues[q];
    var b := Q.sBuffer.value;
    var e := Q.sEmptyLots.value;
    var i := Q.sItems.value;
    var k1 := k.(canPreempt := false);
    SameRostersKeep(k, k1);
    ReadyCanWake(k1, b);
    var k2 := SemDestroy(k1, b);
    SemDestroyKeeps(k1, b);
    DestroyKeepsReady(k1, b, e);
    DestroyKeepsReady(k1, b, i);
    ReadyCanWake(k2, e);
    var k3 := SemDestroy(k2, e);
    SemDestroyKeeps(k2, e);
    DestroyKeepsReady(k2, e, i);
    ReadyCanWake(k3, i);
    var k4 := SemDestroy(k3, i);
    SemDestroyKeeps(k3, i);
    SameRostersKeep(k4, MqDestroy(k, q).k);
  }

  /** The corrected send moves tasks only through its semaphore calls. */
  lemma MqSendBoundedKeeps(k: Kernel, q: QueueRef, msg: Message)
    requires OneRoster(k) && UserRunning(k)
    requires q in k.queues && Usable(k, q, k.queues[q].sEmptyLots)
    ensures OneRoster(MqSendBounded(k, q, msg).k)
  {
    var Q := k.queues[q];
    SemDownKeeps(k, Q.sEmptyLots);
    var d := SemDown(k, Q.sEmptyLots);
    if d.SemReturned? && d.code != -1 {
      BoundedSendFinishKeeps(d.k, q, msg);
    }
  }

  lemma BoundedSendFinishKeeps(k: Kernel, q: QueueRef, msg: Message)
    requires OneRoster(k) && UserRunning(k)
    requires q in k.queues && Usable(k, q, k.queues[q].sBuffer)
    requires k.tasks[k.current].ticks >= 0
    ensures OneRoster(BoundedSendFinish(k, q, msg).k)
  {
    var Q := k.queues[q];
    SemDownKeeps(k, Q.sBuffer);
    var d := SemDown(k, Q.sBuffer);
    if d.SemReturned? && d.code != -1 {
      var k2 := d.k.(queues := d.k.queues[q := WriteSlot(Q, msg)]);
      SameRostersKeep(d.k, k2);
      SemUpKeeps(k2, Q.sBuffer);
      SemUpKeeps(SemUp(k2, Q.sBuffer).k, Q.sItems);
    }
  }
}
