/** Priority with aging: task_setprio, task_getprio and scheduler(). Lower
    numbers mean higher priority; the static priority `prio` lies in
    [MinPriority, MaxPriority] and the dynamic priority ages below it. */
module Scheduler {

  import opened KernelState
  import opened Rosters

  /** task_setprio on a task that is not NULL: out-of-range values are ignored. */
  function SetPrioIn(t: map<TaskRef, Tcb>, x: TaskRef, p: int): (t': map<TaskRef, Tcb>)
    requires x in t
    ensures t'.Keys == t.Keys
    ensures forall y | y in t && y != x :: t'[y] == t[y]
    ensures InPriorityRange(p) ==> t'[x] == t[x].(prio := p, dynamicPrio := p)
    ensures !InPriorityRange(p) ==> t' == t
  {
    if p > MaxPriority || p < MinPriority then t
    else t[x := t[x].(prio := p, dynamicPrio := p)]
  }

  /** The task a priority call is about: the given one, or the current task for NULL. */
  function Target(k: Kernel, task: Option<TaskRef>): TaskRef
  {
    if task.Some? then task.value else k.current
  }

  predicate TargetExists(k: Kernel, task: Option<TaskRef>)
  {
    Target(k, task) in k.tasks
  }

  /** task_setprio(task, prio); a NULL task means the current task. */
  function TaskSetPrio(k: Kernel, task: Option<TaskRef>, p: int): (k': Kernel)
    requires TargetExists(k, task)
    ensures k'.tasks.Keys == k.tasks.Keys
    ensures !InPriorityRange(p) ==> k' == k
    ensures InPriorityRange(p) ==>
      && k'.tasks[Target(k, task)].prio == p
      && k'.tasks[Target(k, task)].dynamicPrio == p
    ensures forall y | y in k.tasks && y != Target(k, task) :: k'.tasks[y] == k.tasks[y]
    ensures k' == k.(tasks := k'.tasks)
  {
    k.(tasks := SetPrioIn(k.tasks, Target(k, task), p))
  }

  /** task_getprio(task): the static priority, never the aged one. */
  function TaskGetPrio(k: Kernel, task: Option<TaskRef>): (p: int)
    requires TargetExists(k, task)
    ensures p == k.tasks[Target(k, task)].prio
  {
    k.tasks[Target(k, task)].prio
  }

  /** Reading back after setting: the new value when in range, the old one otherwise. */
  lemma SetThenGet(k: Kernel, task: Option<TaskRef>, p: int)
    requires TargetExists(k, task)
    ensures TargetExists(TaskSetPrio(k, task, p), task)
    ensures InPriorityRange(p) ==> TaskGetPrio(TaskSetPrio(k, task, p), task) == p
    ensures !InPriorityRange(p) ==> TaskGetPrio(TaskSetPrio(k, task, p), task) == TaskGetPrio(k, task)
  {
  }

  function Dyn(t: map<TaskRef, Tcb>, x: TaskRef): int
    requires x in t
  {
    t[x].dynamicPrio
  }

  /** `w` is the member of roster `s` that the scheduler must pick: no member
      has a lower dynamic priority, and every member ahead of `w` in the roster
      has a strictly higher one (ties go to the earlier task). */
  ghost predicate FirstMinimal(t: map<TaskRef, Tcb>, s: seq<TaskRef>, w: TaskRef)
    requires InTable(t, s)
  {
    && w in s
    && (forall x | x in s :: Dyn(t, w) <= Dyn(t, x))
    && (forall i, j | 0 <= i < j < |s| && s[j] == w :: Dyn(t, s[i]) > Dyn(t, w))
  }

  function Aged(c: Tcb): Tcb
  {
    c.(dynamicPrio := c.dynamicPrio - 1)
  }

  /** The table after every member of `s` except `w` has aged by one step. */
  function AgedExcept(t: map<TaskRef, Tcb>, s: seq<TaskRef>, w: TaskRef): map<TaskRef, Tcb>
  {
    map x | x in t :: if x in s && x != w then Aged(t[x]) else t[x]
  }

  datatype Pick = Pick(tasks: map<TaskRef, Tcb>, winner: TaskRef)

  /** The scan loop of scheduler(): `cand` is the current priority_task and
      `rest` the roster members the runner has still to visit. A runner with a
      strictly lower dynamic priority replaces the candidate, which ages; any
      other runner ages. */
  function AgeScan(t: map<TaskRef, Tcb>, rest: seq<TaskRef>, cand: TaskRef): (r: Pick)
    requires cand in t && InTable(t, rest)
    ensures r.tasks.Keys == t.Keys
    ensures r.winner == cand || r.winner in rest
    ensures forall x | x in t :: r.tasks[x] == t[x].(dynamicPrio := r.tasks[x].dynamicPrio)
    decreases |rest|
  {
    if rest == [] then Pick(t, cand)
    else
      var runner := rest[0];
      if t[runner].dynamicPrio < t[cand].dynamicPrio then
        AgeScan(t[cand := Aged(t[cand])], rest[1..], runner)
      else
        AgeScan(t[runner := Aged(t[runner])], rest[1..], cand)
  }

  /** Dynamic priorities that agree on a roster agree on its first minimal member. */
  lemma FirstMinimalFrame(t: map<TaskRef, Tcb>, t': map<TaskRef, Tcb>, s: seq<TaskRef>, w: TaskRef)
    requires InTable(t, s) && InTable(t', s)
    requires forall x | x in s :: Dyn(t, x) == Dyn(t', x)
    requires FirstMinimal(t', s, w)
    ensures FirstMinimal(t, s, w)
  {
  }

  /** The runner beat the candidate: the winner of the rest is the winner of all. */
  lemma FirstMinimalAfterSwitch(t: map<TaskRef, Tcb>, cand: TaskRef, rest: seq<TaskRef>, w: TaskRef)
    requires cand in t && InTable(t, rest) && |rest| > 0
    requires Dyn(t, rest[0]) < Dyn(t, cand)
    requires FirstMinimal(t, rest, w)
    ensures FirstMinimal(t, [cand] + rest, w)
  {
    var s := [cand] + rest;
    forall i, j | 0 <= i < j < |s| && s[j] == w
      ensures Dyn(t, s[i]) > Dyn(t, w)
    {
      assert s[j] == rest[j - 1];
      if i >= 1 {
        assert s[i] == rest[i - 1];
      }
    }
  }

  /** The runner lost to the candidate: inserting it behind the candidate does
      not change the winner. */
  lemma FirstMinimalAfterKeep(t: map<TaskRef, Tcb>, cand: TaskRef, runner: TaskRef, rest: seq<TaskRef>, w: TaskRef)
    requires cand in t && runner in t && InTable(t, rest)
    requires Dyn(t, runner) >= Dyn(t, cand)
    requires FirstMinimal(t, [cand] + rest, w) && w != runner
    ensures FirstMinimal(t, [cand, runner] + rest, w)
  {
    var s' := [cand] + rest;
    var s := [cand, runner] + rest;
    forall i, j | 0 <= i < j < |s| && s[j] == w
      ensures Dyn(t, s[i]) > Dyn(t, w)
    {
      assert j != 1;
      assert s[j] == s'[j - 1];
      if j > 1 {
        assert Dyn(t, s'[0]) > Dyn(t, w);
      }
      if i >= 2 {
        assert s[i] == s'[i - 1];
      }
    }
  }

  /** Aging one task first and the rest afterwards ages them all. */
  lemma AgedExceptStep(t: map<TaskRef, Tcb>, y: TaskRef, s: seq<TaskRef>, s': seq<TaskRef>, w: TaskRef)
    requires y in t && y != w && y !in s'
    requires forall x :: x in s <==> x in s' || x == y
    ensures AgedExcept(t[y := Aged(t[y])], s', w) == AgedExcept(t, s, w)
  {
  }

  /** The scan picks the first task of least dynamic priority and ages every
      other task it visited by exactly one. */
  lemma {:induction false} AgeScanPicksFirstMinimal(t: map<TaskRef, Tcb>, rest: seq<TaskRef>, cand: TaskRef)
    requires cand in t && InTable(t, rest)
    requires NoDup([cand] + rest)
    ensures FirstMinimal(t, [cand] + rest, AgeScan(t, rest, cand).winner)
    ensures AgeScan(t, rest, cand).tasks == AgedExcept(t, [cand] + rest, AgeScan(t, rest, cand).winner)
    decreases |rest|
  {
    var s := [cand] + rest;
    var w := AgeScan(t, rest, cand).winner;
    if rest == [] {
      assert t == AgedExcept(t, s, w);
    } else {
      var runner := rest[0];
      var rest' := rest[1..];
      HeadNotInTail(s);
      HeadNotInTail(rest);
      assert s[1..] == rest;
      assert s == [cand, runner] + rest';
      if t[runner].dynamicPrio < t[cand].dynamicPrio {
        var t1 := t[cand := Aged(t[cand])];
        assert rest == [runner] + rest';
        AgeScanPicksFirstMinimal(t1, rest', runner);
        FirstMinimalFrame(t, t1, rest, w);
        FirstMinimalAfterSwitch(t, cand, rest, w);
        AgedExceptStep(t, cand, s, rest, w);
      } else {
        var t1 := t[runner := Aged(t[runner])];
        var s' := [cand] + rest';
        assert NoDup(s') by {
          assert s' == [s[0]] + s[2..];
        }
        AgeScanPicksFirstMinimal(t1, rest', cand);
        FirstMinimalFrame(t, t1, s', w);
        FirstMinimalAfterKeep(t, cand, runner, rest', w);
        AgedExceptStep(t, runner, s, s', w);
      }
    }
  }

  /** scheduler(): scan the ready roster from its head, then reset the
      winner's dynamic priority through task_setprio(winner, winner.prio).
      The dispatcher only calls it with a non-empty ready roster. */
  function Schedule(k: Kernel): (r: Pick)
    requires |k.ready| > 0 && InTable(k.tasks, k.ready)
    ensures r.tasks.Keys == k.tasks.Keys
    ensures forall x | x in k.tasks :: r.tasks[x] == k.tasks[x].(dynamicPrio := r.tasks[x].dynamicPrio)
  {
    var scan := AgeScan(k.tasks, k.ready[1..], k.ready[0]);
    Pick(SetPrioIn(scan.tasks, scan.winner, scan.tasks[scan.winner].prio), scan.winner)
  }

  /** Selection and aging: the winner is the first ready task of least dynamic
      priority; every other ready task's dynamic priority drops by exactly one;
      the winner's is reset to its static priority; tasks outside the ready
      roster are untouched. */
  lemma {:induction false} ScheduleSelectsAndAges(k: Kernel)
    requires |k.ready| > 0 && InTable(k.tasks, k.ready) && NoDup(k.ready)
    requires forall x | x in k.ready :: InPriorityRange(k.tasks[x].prio)
    ensures var r := Schedule(k);
      && FirstMinimal(k.tasks, k.ready, r.winner)
      && r.tasks[r.winner] == k.tasks[r.winner].(dynamicPrio := k.tasks[r.winner].prio)
      && (forall x | x in k.ready && x != r.winner :: r.tasks[x] == Aged(k.tasks[x]))
      && (forall x | x in k.tasks && x !in k.ready :: r.tasks[x] == k.tasks[x])
  {
    assert k.ready == [k.ready[0]] + k.ready[1..];
    AgeScanPicksFirstMinimal(k.tasks, k.ready[1..], k.ready[0]);
  }
}
