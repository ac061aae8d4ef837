/** Join and exit: task_join suspends the caller until its target dies;
    task_exit marks the caller dead and check_suspended_tasks releases every
    joiner whose target is now dead. */
module Join {

  import opened KernelState
  import opened Rosters

  /** What task_join returns at once, or the state it blocks in. */
  datatype JoinCall = JoinReturned(code: int) | JoinBlocked(k: Kernel)

  /** task_join(task): -1 for NULL or a dead target; otherwise the caller moves
      from the ready roster to the tail of the suspended roster, remembers its
      target, and yields. */
  function TaskJoin(k: Kernel, task: Option<TaskRef>): (r: JoinCall)
    requires task.Some? ==> task.value in k.tasks
    requires k.current in k.tasks && k.dispatcher in k.tasks
    ensures r.JoinReturned? <==> task.None? || k.tasks[task.value].status == Dead
    ensures r.JoinReturned? ==> r.code == -1
    ensures r.JoinBlocked? ==>
      && r.k.ready == Remove(k.ready, k.current)
      && r.k.suspended == k.suspended + [k.current]
      && r.k.tasks.Keys == k.tasks.Keys
      && r.k.tasks[k.current].status == Suspended
      && r.k.tasks[k.current].waitedTask == task
      && (forall x | x in k.tasks && x != k.current && x != k.dispatcher :: r.k.tasks[x] == k.tasks[x])
      && r.k.current == k.dispatcher
      && r.k.sleeping == k.sleeping
  {
    if task.None? || k.tasks[task.value].status == Dead then JoinReturned(-1)
    else
      var self := k.current;
      var c := k.tasks[self];
      JoinBlocked(Yield(k.(ready := Remove(k.ready, self),
                           suspended := k.suspended + [self],
                           tasks := k.tasks[self := c.(status := Suspended, waitedTask := task)])))
  }

  /** What a released joiner returns from task_join: its target's exit code. */
  function JoinResume(k: Kernel, task: TaskRef): (code: int)
    requires task in k.tasks
  {
    k.tasks[task].exitCode
  }

  /** The joiner `x` waits for a task that is now dead. */
  predicate Released(t: map<TaskRef, Tcb>, x: TaskRef)
  {
    && x in t
    && t[x].waitedTask.Some?
    && t[x].waitedTask.value in t
    && t[t[x].waitedTask.value].status == Dead
  }

  /** What wake_up_task does to the joiner's control block. */
  function Rejoined(c: Tcb): Tcb
  {
    c.(status := Running, waitedTask := None)
  }

  /** wake_up_task(x): from the suspended roster to the tail of the ready roster. */
  function WakeUpTask(k: Kernel, x: TaskRef): (k': Kernel)
    requires x in k.tasks
  {
    k.(suspended := Remove(k.suspended, x),
       ready := k.ready + [x],
       tasks := k.tasks[x := Rejoined(k.tasks[x])])
  }

  /** Every joiner knows its target (check_suspended_tasks follows the pointer). */
  predicate JoinersKnowTargets(t: map<TaskRef, Tcb>, s: seq<TaskRef>)
  {
    forall x | x in s :: x in t && t[x].waitedTask.Some? && t[x].waitedTask.value in t
  }

  /** The scan of check_suspended_tasks over the joiners still to visit, in
      roster order; each visited joiner whose target is dead is released. */
  function WakeJoiners(k: Kernel, pending: seq<TaskRef>): (k': Kernel)
    requires InTable(k.tasks, pending)
    ensures k'.tasks.Keys == k.tasks.Keys
    ensures k' == k.(suspended := k'.suspended, ready := k'.ready, tasks := k'.tasks)
    decreases |pending|
  {
    if pending == [] then k
    else
      var x := pending[0];
      var k1 := if Released(k.tasks, x) then WakeUpTask(k, x) else k;
      WakeJoiners(k1, pending[1..])
  }

  /** check_suspended_tasks: one pass over the whole suspended roster. */
  function CheckSuspendedTasks(k: Kernel): (k': Kernel)
    requires JoinersKnowTargets(k.tasks, k.suspended)
    ensures k'.tasks.Keys == k.tasks.Keys
    ensures k' == k.(suspended := k'.suspended, ready := k'.ready, tasks := k'.tasks)
  {
    WakeJoiners(k, k.suspended)
  }

  function ReleasedSet(k: Kernel, s: seq<TaskRef>): set<TaskRef>
  {
    set x | x in s && Released(k.tasks, x)
  }

  function RejoinAll(t: map<TaskRef, Tcb>, d: set<TaskRef>): map<TaskRef, Tcb>
  {
    map x | x in t :: if x in d then Rejoined(t[x]) else t[x]
  }

  /** What a scan of `pending` from `k` must produce, when the joiners ahead of
      `pending` that stay suspended form the roster prefix `a`. */
  ghost predicate ScanDone(k: Kernel, a: seq<TaskRef>, pending: seq<TaskRef>, k': Kernel)
  {
    var d := ReleasedSet(k, pending);
    && k'.suspended == a + Exclude(pending, d)
    && k'.ready == k.ready + Select(pending, d)
    && k'.tasks == RejoinAll(k.tasks, d)
    && k' == k.(suspended := k'.suspended, ready := k'.ready, tasks := k'.tasks)
  }

  /** Releasing a joiner never makes another joiner's target dead or alive:
      the released task was not dead and becomes RUNNING. */
  lemma ReleaseKeepsOthers(k: Kernel, x: TaskRef, rest: seq<TaskRef>)
    requires x in k.tasks && k.tasks[x].status != Dead
    ensures forall y | y in rest && y != x :: Released(WakeUpTask(k, x).tasks, y) == Released(k.tasks, y)
  {
  }

  lemma ReleaseStep(k: Kernel, a: seq<TaskRef>, x: TaskRef, rest: seq<TaskRef>, k': Kernel)
    requires Released(k.tasks, x) && k.tasks[x].status != Dead && x !in rest
    requires ScanDone(WakeUpTask(k, x), a, rest, k')
    ensures ScanDone(k, a, [x] + rest, k')
  {
    var k1 := WakeUpTask(k, x);
    var pending := [x] + rest;
    var d := ReleasedSet(k, pending);
    var d1 := ReleasedSet(k1, rest);
    assert pending[1..] == rest;
    ReleaseKeepsOthers(k, x, rest);
    FiltersAgree(rest, d1, d);
    assert k.ready + [x] + Select(rest, d) == k.ready + Select(pending, d);
    assert RejoinAll(k1.tasks, d1) == RejoinAll(k.tasks, d);
  }

  lemma StayStep(k: Kernel, a: seq<TaskRef>, x: TaskRef, rest: seq<TaskRef>, k': Kernel)
    requires !Released(k.tasks, x)
    requires ScanDone(k, a + [x], rest, k')
    ensures ScanDone(k, a, [x] + rest, k')
  {
    var pending := [x] + rest;
    var d := ReleasedSet(k, pending);
    assert pending[1..] == rest;
    FiltersAgree(rest, ReleasedSet(k, rest), d);
    assert a + [x] + Exclude(rest, d) == a + Exclude(pending, d);
    assert RejoinAll(k.tasks, ReleasedSet(k, rest)) == RejoinAll(k.tasks, d);
  }

  /** The scan over `pending`, once the joiners before it that stay suspended
      are the roster prefix `a`. */
  lemma {:induction false} WakeJoinersSpec(k: Kernel, a: seq<TaskRef>, pending: seq<TaskRef>)
    requires JoinersKnowTargets(k.tasks, pending) && NoDup(pending)
    requires forall x | x in pending :: k.tasks[x].status != Dead
    requires k.suspended == a + pending
    requires forall x | x in a :: x !in pending
    ensures ScanDone(k, a, pending, WakeJoiners(k, pending))
    decreases |pending|
  {
    if pending == [] {
      assert k.tasks == RejoinAll(k.tasks, ReleasedSet(k, pending));
      assert a + [] == a;
    } else {
      var x := pending[0];
      var rest := pending[1..];
      HeadNotInTail(pending);
      assert pending == [x] + rest;
      if Released(k.tasks, x) {
        var k1 := WakeUpTask(k, x);
        assert x !in a;
        assert k.suspended == a + [x] + rest;
        RemoveSplit(a, x, rest);
        WakeJoinersSpec(k1, a, rest);
        ReleaseStep(k, a, x, rest, WakeJoiners(k1, rest));
      } else {
        assert k.suspended == (a + [x]) + rest;
        WakeJoinersSpec(k, a + [x], rest);
        StayStep(k, a, x, rest, WakeJoiners(k, rest));
      }
    }
  }

  /** One check_suspended_tasks pass releases exactly the joiners whose target
      is dead: they move, in roster order, to the tail of the ready roster
      with status RUNNING and no target; every other joiner stays suspended in
      its place, and nothing else changes. */
  lemma CheckSuspendedReleasesJoiners(k: Kernel)
    requires JoinersKnowTargets(k.tasks, k.suspended) && NoDup(k.suspended)
    requires forall x | x in k.suspended :: k.tasks[x].status != Dead
    ensures var k' := CheckSuspendedTasks(k); var d := ReleasedSet(k, k.suspended);
      && k'.suspended == Exclude(k.suspended, d)
      && k'.ready == k.ready + Select(k.suspended, d)
      && (forall x | x in k.tasks && x in d :: k'.tasks[x] == Rejoined(k.tasks[x]))
      && (forall x | x in k.tasks && x !in d :: k'.tasks[x] == k.tasks[x])
      && k' == k.(suspended := k'.suspended, ready := k'.ready, tasks := k'.tasks)
  {
    assert k.suspended == [] + k.suspended;
    WakeJoinersSpec(k, [], k.suspended);
  }

  /** The control block of a task that has just called task_exit(code). */
  function Exited(c: Tcb, code: int): Tcb
  {
    c.(status := Dead, exitCode := code)
  }

  /** task_exit(code): the caller becomes dead with its exit code. While some
      task is ready (always, for a user task: it is itself in the ready
      roster) it also leaves the ready roster, the joiners are scanned, and
      control returns to the dispatcher for good. With an empty ready roster
      only the dispatcher is exiting, and nothing more happens. */
  function TaskExit(k: Kernel, code: int): (k': Kernel)
    requires k.current in k.tasks && k.dispatcher in k.tasks
    requires JoinersKnowTargets(k.tasks, k.suspended)
  {
    var self := k.current;
    var k1 := k.(tasks := k.tasks[self := Exited(k.tasks[self], code)]);
    if |k.ready| > 0 then
      var k2 := CheckSuspendedTasks(k1.(ready := Remove(k.ready, self)));
      Yield(k2)
    else
      k1
  }

  /** Exit and join together: a user task that exits with `code` ends dead
      with that code and out of every roster it was in (it was running, so in
      none but the ready roster); every task that was joining it is back in
      the ready roster, RUNNING and without a target, and its task_join
      returns `code`; joiners of tasks that are still alive stay suspended. */
  lemma ExitReleasesJoiners(k: Kernel, code: int)
    requires k.current in k.tasks && k.dispatcher in k.tasks
    requires k.current in k.ready && k.current != k.dispatcher
    requires JoinersKnowTargets(k.tasks, k.suspended) && NoDup(k.suspended)
    requires forall x | x in k.suspended :: k.tasks[x].status != Dead && x != k.current
    requires k.dispatcher !in k.suspended
    ensures var k' := TaskExit(k, code);
      && k'.tasks[k.current].status == Dead
      && k'.tasks[k.current].exitCode == code
      && k'.current == k.dispatcher
      && (forall x | x in k.suspended && k.tasks[x].waitedTask == Some(k.current) ::
            x !in k'.suspended && x in k'.ready && k'.tasks[x].status == Running
            && k'.tasks[x].waitedTask.None? && JoinResume(k', k.current) == code)
      && (forall x | x in k.suspended && !Released(k.tasks, x) && k.tasks[x].waitedTask != Some(k.current) ::
            x in k'.suspended && k'.tasks[x] == k.tasks[x])
  {
    var self := k.current;
    var k1 := k.(tasks := k.tasks[self := Exited(k.tasks[self], code)]);
    var k2 := k1.(ready := Remove(k.ready, self));
    assert JoinersKnowTargets(k2.tasks, k2.suspended);
    assert forall x | x in k2.suspended :: k2.tasks[x] == k.tasks[x];
    CheckSuspendedReleasesJoiners(k2);
    var k3 := CheckSuspendedTasks(k2);
    assert TaskExit(k, code) == Yield(k3);
    var d := ReleasedSet(k2, k2.suspended);
    assert self !in d;
    assert k3.tasks[self] == Exited(k.tasks[self], code);
    forall x | x in k.suspended && k.tasks[x].waitedTask == Some(self)
      ensures x in d && x !in k3.suspended && x in k3.ready
    {
      assert Released(k2.tasks, x);
    }
    forall x | x in k.suspended && !Released(k.tasks, x) && k.tasks[x].waitedTask != Some(self)
      ensures x !in d && x in k3.suspended
    {
      assert !Released(k2.tasks, x);
    }
  }
}
