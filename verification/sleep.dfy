/** Timed sleep: task_sleep moves the caller to the sleeping roster, and the
    dispatcher's check_sleeping_tasks pass moves back every sleeper whose
    deadline has come. Times are mathematical integers (the kernel keeps
    them as unsigned ints). */
module Sleep {

  import opened KernelState
  import opened Rosters

  /** The sleeper's deadline slept_time + nap_time has been reached at `now`. */
  predicate IsDue(c: Tcb, now: int)
  {
    c.sleptTime + c.napTime <= now
  }

  /** task_sleep(t): the caller leaves the ready roster for the tail of the
      sleeping roster, records when and for how long, and yields. */
  function TaskSleep(k: Kernel, t: int): (k': Kernel)
    requires k.current in k.tasks && k.dispatcher in k.tasks
    ensures k'.ready == Remove(k.ready, k.current)
    ensures k'.sleeping == k.sleeping + [k.current]
    ensures k'.tasks.Keys == k.tasks.Keys
    ensures k'.tasks[k.current].status == Sleeping
    ensures k'.tasks[k.current].sleptTime == k.clock && k'.tasks[k.current].napTime == t
    ensures forall x | x in k.tasks && x != k.current && x != k.dispatcher :: k'.tasks[x] == k.tasks[x]
    ensures k'.current == k.dispatcher
    ensures k'.suspended == k.suspended && k'.clock == k.clock
  {
    var self := k.current;
    var c := k.tasks[self];
    Yield(k.(ready := Remove(k.ready, self),
             sleeping := k.sleeping + [self],
             tasks := k.tasks[self := c.(status := Sleeping, sleptTime := k.clock, napTime := t)]))
  }

  /** What task_finish_sleep does to the sleeper's control block. */
  function Woken(c: Tcb): Tcb
  {
    c.(status := Running, sleptTime := -1, napTime := -1)
  }

  /** task_finish_sleep(x): from the sleeping roster to the tail of the ready roster. */
  function FinishSleep(k: Kernel, x: TaskRef): (k': Kernel)
    requires x in k.tasks
  {
    k.(sleeping := Remove(k.sleeping, x),
       ready := k.ready + [x],
       tasks := k.tasks[x := Woken(k.tasks[x])])
  }

  /** The scan of check_sleeping_tasks over the sleepers still to visit, in
      roster order; each visited sleeper that is due is woken. The deadline is
      compared with the clock as it is when the scan starts. */
  function WakeSleepers(k: Kernel, pending: seq<TaskRef>): (k': Kernel)
    requires InTable(k.tasks, pending)
    ensures k'.tasks.Keys == k.tasks.Keys
    ensures forall x | x in k'.ready :: x in k.ready || x in pending
    ensures k' == k.(sleeping := k'.sleeping, ready := k'.ready, tasks := k'.tasks)
    decreases |pending|
  {
    if pending == [] then k
    else
      var x := pending[0];
      var k1 := if IsDue(k.tasks[x], k.clock) then FinishSleep(k, x) else k;
      WakeSleepers(k1, pending[1..])
  }

  /** check_sleeping_tasks: one pass over the whole sleeping roster. */
  function CheckSleepingTasks(k: Kernel): (k': Kernel)
    requires InTable(k.tasks, k.sleeping)
    ensures k'.tasks.Keys == k.tasks.Keys
    ensures forall x | x in k'.ready :: x in k.ready || x in k.sleeping
    ensures k' == k.(sleeping := k'.sleeping, ready := k'.ready, tasks := k'.tasks)
  {
    WakeSleepers(k, k.sleeping)
  }

  /** The sleepers of `s` whose deadline has been reached. */
  function DueSet(k: Kernel, s: seq<TaskRef>): set<TaskRef>
  {
    set x | x in s && x in k.tasks && IsDue(k.tasks[x], k.clock)
  }

  function WakeAll(t: map<TaskRef, Tcb>, d: set<TaskRef>): map<TaskRef, Tcb>
  {
    map x | x in t :: if x in d then Woken(t[x]) else t[x]
  }

  /** What a scan of `pending` from state `k` must produce, when the sleepers
      ahead of `pending` that stay asleep form the roster prefix `a`. */
  ghost predicate ScanDone(k: Kernel, a: seq<TaskRef>, pending: seq<TaskRef>, k': Kernel)
  {
    var d := DueSet(k, pending);
    && k'.sleeping == a + Exclude(pending, d)
    && k'.ready == k.ready + Select(pending, d)
    && k'.tasks == WakeAll(k.tasks, d)
    && k' == k.(sleeping := k'.sleeping, ready := k'.ready, tasks := k'.tasks)
  }

  /** A due head: waking it first, then scanning the rest, is the whole scan. */
  lemma DueStep(k: Kernel, a: seq<TaskRef>, x: TaskRef, rest: seq<TaskRef>, k': Kernel)
    requires x in k.tasks && IsDue(k.tasks[x], k.clock) && x !in rest
    requires ScanDone(FinishSleep(k, x), a, rest, k')
    ensures ScanDone(k, a, [x] + rest, k')
  {
    var k1 := FinishSleep(k, x);
    var pending := [x] + rest;
    var d := DueSet(k, pending);
    var d1 := DueSet(k1, rest);
    assert pending[1..] == rest;
    forall y | y in rest ensures (y in d1 <==> y in d) {
      assert y in k.tasks ==> k1.tasks[y] == k.tasks[y];
    }
    FiltersAgree(rest, d1, d);
    assert k.ready + [x] + Select(rest, d) == k.ready + Select(pending, d);
    assert WakeAll(k1.tasks, d1) == WakeAll(k.tasks, d);
  }

  /** A head that is not due stays asleep and joins the kept prefix. */
  lemma KeepStep(k: Kernel, a: seq<TaskRef>, x: TaskRef, rest: seq<TaskRef>, k': Kernel)
    requires x in k.tasks && !IsDue(k.tasks[x], k.clock)
    requires ScanDone(k, a + [x], rest, k')
    ensures ScanDone(k, a, [x] + rest, k')
  {
    var pending := [x] + rest;
    var d := DueSet(k, pending);
    assert pending[1..] == rest;
    FiltersAgree(rest, DueSet(k, rest), d);
    assert a + [x] + Exclude(rest, d) == a + Exclude(pending, d);
    assert WakeAll(k.tasks, DueSet(k, rest)) == WakeAll(k.tasks, d);
  }

  /** The scan over `pending`, once the sleepers before it that stay asleep
      are the roster prefix `a`. */
  lemma {:induction false} WakeSleepersSpec(k: Kernel, a: seq<TaskRef>, pending: seq<TaskRef>)
    requires InTable(k.tasks, pending) && NoDup(pending)
    requires k.sleeping == a + pending
    requires forall x | x in a :: x !in pending
    ensures ScanDone(k, a, pending, WakeSleepers(k, pending))
    decreases |pending|
  {
    if pending == [] {
      assert k.tasks == WakeAll(k.tasks, DueSet(k, pending));
      assert a + [] == a;
    } else {
      var x := pending[0];
      var rest := pending[1..];
      HeadNotInTail(pending);
      assert pending == [x] + rest;
      if IsDue(k.tasks[x], k.clock) {
        var k1 := FinishSleep(k, x);
        assert x !in a;
        assert k.sleeping == a + [x] + rest;
        RemoveSplit(a, x, rest);
        WakeSleepersSpec(k1, a, rest);
        DueStep(k, a, x, rest, WakeSleepers(k1, rest));
      } else {
        assert k.sleeping == (a + [x]) + rest;
        WakeSleepersSpec(k, a + [x], rest);
        KeepStep(k, a, x, rest, WakeSleepers(k, rest));
      }
    }
  }

  /** One check_sleeping_tasks pass wakes exactly the sleepers that are due:
      they move, in roster order, to the tail of the ready roster with status
      RUNNING and both sleep fields reset to -1; every other sleeper stays
      asleep in its place, and nothing else changes. */
  lemma CheckSleepingWakesDue(k: Kernel)
    requires InTable(k.tasks, k.sleeping) && NoDup(k.sleeping)
    ensures var k' := CheckSleepingTasks(k); var d := DueSet(k, k.sleeping);
      && k'.sleeping == Exclude(k.sleeping, d)
      && k'.ready == k.ready + Select(k.sleeping, d)
      && (forall x | x in k.tasks && x in d :: k'.tasks[x] == Woken(k.tasks[x]))
      && (forall x | x in k.tasks && x !in d :: k'.tasks[x] == k.tasks[x])
      && k' == k.(sleeping := k'.sleeping, ready := k'.ready, tasks := k'.tasks)
  {
    assert k.sleeping == [] + k.sleeping;
    WakeSleepersSpec(k, [], k.sleeping);
  }

  /** Sleep, then wake: a task that goes to sleep for `t` at clock `c` is
      woken by a check_sleeping_tasks pass at any time `now >= c + t`, and a
      pass at an earlier time leaves it asleep and unchanged. */
  lemma SleepThenWake(k: Kernel, t: int, now: int)
    requires k.current in k.tasks && k.dispatcher in k.tasks && k.current != k.dispatcher
    requires InTable(k.tasks, k.sleeping) && NoDup(k.sleeping) && NoDup(k.ready)
    requires k.current !in k.sleeping
    ensures var k1 := TaskSleep(k, t).(clock := now);
      InTable(k1.tasks, k1.sleeping)
    ensures var k1 := TaskSleep(k, t).(clock := now); var k2 := CheckSleepingTasks(k1);
      && (now >= k.clock + t ==>
            && k.current in k2.ready && k.current !in k2.sleeping
            && k2.tasks[k.current] == Woken(k1.tasks[k.current]))
      && (now < k.clock + t ==>
            && k.current !in k2.ready && k.current in k2.sleeping
            && k2.tasks[k.current] == k1.tasks[k.current])
  {
    var k1 := TaskSleep(k, t).(clock := now);
    AppendKeepsNoDup(k.sleeping, [k.current]);
    CheckSleepingWakesDue(k1);
  }
}
