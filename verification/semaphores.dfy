/** Counting semaphores: sem_create, sem_down, sem_up, sem_wake_up_first and
    sem_destroy. A semaphore lives in the kernel's semaphore map; a NULL
    semaphore pointer is `None`. */
module Semaphores {

  import opened KernelState
  import opened Rosters

  /** How a semaphore call ends for the caller: it returns a code, it blocks
      (control is with the dispatcher until sem_up or sem_destroy wakes it),
      or it yields first because its quantum ran out while preemption was off
      (sem_down then runs again from the start when the caller is resumed). */
  datatype SemCall = SemReturned(k: Kernel, code: int) | SemBlocked(k: Kernel) | SemPreempted(k: Kernel)

  /** Each semaphore's bookkeeping agrees with its wait roster: task_counter is
      the roster's length, which is the counter's deficit below zero. */
  predicate SemInv(s: Semaphore)
  {
    && s.Alive()
    && s.taskCounter == |s.waiters.value|
    && s.taskCounter == (if s.counter < 0 then -s.counter else 0)
  }

  /** sem_create(s, value): a fresh id, `value` as counter, nobody waiting. */
  function SemCreate(k: Kernel, r: SemRef, value: int): (k': Kernel)
    ensures r in k'.sems
    ensures k'.sems[r].counter == value && k'.sems[r].taskCounter == 0 && k'.sems[r].waiters == Some([])
    ensures k'.sems[r].id == k.lastSemaphoreId + 1 && k'.lastSemaphoreId == k.lastSemaphoreId + 1
    ensures value >= 0 ==> SemInv(k'.sems[r])
    ensures forall q | q in k.sems && q != r :: q in k'.sems && k'.sems[q] == k.sems[q]
    ensures k' == k.(sems := k'.sems, lastSemaphoreId := k'.lastSemaphoreId)
  {
    var id := k.lastSemaphoreId + 1;
    k.(lastSemaphoreId := id, sems := k.sems[r := Semaphore(id, value, 0, Some([]))])
  }

  /** The caller may run sem_down's body on `r`: a call that would block needs
      a wait roster, which a destroyed semaphore no longer has. */
  predicate CanDown(k: Kernel, r: SemRef)
  {
    && r in k.sems
    && k.current in k.tasks && k.dispatcher in k.tasks
    && (k.sems[r].counter <= 0 ==> k.sems[r].Alive())
  }

  /** What sem_down returns to a caller that gets past the counter: 0 while the
      semaphore lives, 1 once it has been destroyed. */
  function DownCode(s: Semaphore): int
  {
    if s.Alive() then 0 else 1
  }

  /** sem_down(s) after the pending-preemption check: decrement; a negative
      counter moves the caller from the ready roster to the tail of the wait
      roster, suspended, and hands control to the dispatcher. */
  function SemDownBody(k: Kernel, r: SemRef): (c: SemCall)
    requires CanDown(k, r)
    ensures !c.SemPreempted?
    ensures c.k.sems.Keys == k.sems.Keys
    ensures c.k.sems[r].counter == k.sems[r].counter - 1
    ensures c.k.canPreempt
    ensures c.SemBlocked? <==> k.sems[r].counter <= 0
    ensures c.SemReturned? ==>
      && c.code == DownCode(k.sems[r])
      && c.k == k.(canPreempt := true, sems := k.sems[r := k.sems[r].(counter := k.sems[r].counter - 1)])
    ensures c.SemBlocked? ==>
      && c.k.sems[r].waiters == Some(k.sems[r].waiters.value + [k.current])
      && c.k.sems[r].taskCounter == k.sems[r].taskCounter + 1
      && c.k.ready == Remove(k.ready, k.current)
      && c.k.tasks.Keys == k.tasks.Keys
      && c.k.tasks[k.current].status == Suspended
      && c.k.current == k.dispatcher
      && c.k.sems[r] == k.sems[r].(counter := k.sems[r].counter - 1, taskCounter := k.sems[r].taskCounter + 1,
                                   waiters := Some(k.sems[r].waiters.value + [k.current]))
      && (forall x | x in k.tasks && x != k.current && x != k.dispatcher :: c.k.tasks[x] == k.tasks[x])
      && (k.current != k.dispatcher ==>
            && c.k.tasks[k.current] == k.tasks[k.current].(status := Suspended)
            && c.k.tasks[k.dispatcher] == k.tasks[k.dispatcher].(activations := k.tasks[k.dispatcher].activations + 1))
      && c.k == k.(ready := c.k.ready, tasks := c.k.tasks, sems := c.k.sems, canPreempt := true, current := k.dispatcher)
    ensures forall q | q in k.sems && q != r :: c.k.sems[q] == k.sems[q]
    ensures c.k.suspended == k.suspended && c.k.sleeping == k.sleeping && c.k.queues == k.queues
  {
    var s := k.sems[r];
    var counter := s.counter - 1;
    if counter < 0 then
      var self := k.current;
      var s' := s.(counter := counter, taskCounter := s.taskCounter + 1, waiters := Some(s.waiters.value + [self]));
      SemBlocked(Yield(k.(ready := Remove(k.ready, self),
                          tasks := k.tasks[self := k.tasks[self].(status := Suspended)],
                          sems := k.sems[r := s'],
                          canPreempt := true)))
    else
      SemReturned(k.(canPreempt := true, sems := k.sems[r := s.(counter := counter)]), DownCode(s))
  }

  /** sem_down(s): a caller whose quantum is already overdrawn yields first;
      a NULL semaphore returns -1 and changes nothing. */
  function SemDown(k: Kernel, h: Option<SemRef>): (c: SemCall)
    requires k.current in k.tasks && k.dispatcher in k.tasks
    requires h.Some? ==> CanDown(k, h.value)
    ensures c.SemPreempted? <==> k.tasks[k.current].ticks < 0
    ensures c.SemPreempted? ==> c.k == Yield(k)
    ensures !c.SemPreempted? && h.None? ==> c == SemReturned(k, -1)
    ensures !c.SemPreempted? && h.Some? ==> c == SemDownBody(k, h.value)
  {
    if k.tasks[k.current].ticks < 0 then SemPreempted(Yield(k))
    else if h.None? then SemReturned(k, -1)
    else SemDownBody(k, h.value)
  }

  /** What a caller blocked in sem_down gets once it runs again: preemption
      back on, and 0, or 1 if it was woken by sem_destroy. */
  function SemDownResume(k: Kernel, r: SemRef): (c: SemCall)
    requires r in k.sems
    ensures c.SemReturned? && c.k == k.(canPreempt := true)
    ensures c.code == (if k.sems[r].Alive() then 0 else 1)
  {
    SemReturned(k.(canPreempt := true), DownCode(k.sems[r]))
  }

  /** The head of the wait roster is there to be woken. */
  predicate HasHead(k: Kernel, r: SemRef)
  {
    && r in k.sems
    && k.sems[r].waiters.Some?
    && |k.sems[r].waiters.value| > 0
    && k.sems[r].waiters.value[0] in k.tasks
  }

  /** sem_wake_up_first(s): the oldest waiter moves to the tail of the ready
      roster and may run again. */
  function SemWakeUpFirst(k: Kernel, r: SemRef): (k': Kernel)
    requires HasHead(k, r)
    ensures k'.sems.Keys == k.sems.Keys
    ensures var w := k.sems[r].waiters.value;
      && k'.ready == k.ready + [w[0]]
      && k'.sems[r] == k.sems[r].(waiters := Some(w[1..]))
      && k'.tasks == k.tasks[w[0] := k.tasks[w[0]].(status := Running)]
    ensures forall q | q in k.sems && q != r :: k'.sems[q] == k.sems[q]
    ensures k' == k.(ready := k'.ready, tasks := k'.tasks, sems := k'.sems)
  {
    var s := k.sems[r];
    var x := s.waiters.value[0];
    k.(ready := k.ready + [x],
       tasks := k.tasks[x := k.tasks[x].(status := Running)],
       sems := k.sems[r := s.(waiters := Some(Remove(s.waiters.value, x)))])
  }

  /** sem_up on `r` is safe: with a waiter count there is a waiter to wake
      (a destroyed semaphore keeps a stale count but has no roster). */
  predicate CanUp(k: Kernel, r: SemRef)
  {
    && r in k.sems
    && (k.sems[r].taskCounter > 0 ==> HasHead(k, r))
  }

  /** sem_up(s): -1 for NULL; otherwise increment and, if anyone waits, wake
      the oldest waiter. Preemption is on afterwards. */
  function SemUp(k: Kernel, h: Option<SemRef>): (c: SemCall)
    requires h.Some? ==> CanUp(k, h.value)
    ensures c.SemReturned?
    ensures h.None? ==> c == SemReturned(k, -1)
    ensures h.Some? ==> var r := h.value; var s := k.sems[r];
      && c.code == 0
      && c.k.canPreempt
      && c.k.sems.Keys == k.sems.Keys
      && c.k.sems[r].counter == s.counter + 1
      && (s.taskCounter > 0 ==>
            && c.k.ready == k.ready + [s.waiters.value[0]]
            && c.k.sems[r].waiters == Some(s.waiters.value[1..])
            && c.k.sems[r].taskCounter == s.taskCounter - 1
            && c.k.tasks == k.tasks[s.waiters.value[0] := k.tasks[s.waiters.value[0]].(status := Running)])
      && (s.taskCounter <= 0 ==>
            c.k == k.(canPreempt := true, sems := k.sems[r := s.(counter := s.counter + 1)]))
      && (forall q | q in k.sems && q != r :: c.k.sems[q] == k.sems[q])
      && c.k == k.(ready := c.k.ready, tasks := c.k.tasks, sems := c.k.sems, canPreempt := true)
  {
    if h.None? then SemReturned(k, -1)
    else
      var r := h.value;
      var s := k.sems[r].(counter := k.sems[r].counter + 1);
      if s.taskCounter > 0 then
        var k1 := k.(canPreempt := false, sems := k.sems[r := s.(taskCounter := s.taskCounter - 1)]);
        SemReturned(SemWakeUpFirst(k1, r).(canPreempt := true), 0)
      else
        SemReturned(k.(canPreempt := true, sems := k.sems[r := s]), 0)
  }

  /** The first `n` waiters of `r` can be woken one after another. */
  predicate CanWake(k: Kernel, r: SemRef, n: nat)
  {
    && r in k.sems
    && k.sems[r].waiters.Some?
    && n <= |k.sems[r].waiters.value|
    && InTable(k.tasks, k.sems[r].waiters.value[..n])
  }

  /** The loop of sem_destroy: sem_wake_up_first, `n` times. */
  function WakeFirstN(k: Kernel, r: SemRef, n: nat): (k': Kernel)
    requires CanWake(k, r, n)
    ensures k'.sems.Keys == k.sems.Keys && k'.tasks.Keys == k.tasks.Keys
    ensures forall q | q in k.sems && q != r :: k'.sems[q] == k.sems[q]
    ensures k' == k.(ready := k'.ready, tasks := k'.tasks, sems := k'.sems)
    decreases n
  {
    if n == 0 then k
    else
      var w := k.sems[r].waiters.value;
      FirstOfPrefix(w, n);
      WakeFirstN(SemWakeUpFirst(k, r), r, n - 1)
  }

  /** Taking the first of the first `n` leaves the first `n - 1` of the rest. */
  lemma FirstOfPrefix(w: seq<TaskRef>, n: nat)
    requires 0 < n <= |w|
    ensures w[..n] == [w[0]] + w[1..][..n - 1]
    ensures w[1..][n - 1..] == w[n..]
    ensures forall x | x in w[1..][..n - 1] :: x in w[..n]
  {
  }

  /** The woken tasks join the ready roster in the order they blocked, as
      RUNNING; the first `n` leave the wait roster. */
  lemma {:induction false} WakeFirstNInOrder(k: Kernel, r: SemRef, n: nat)
    requires CanWake(k, r, n)
    ensures var k' := WakeFirstN(k, r, n); var w := k.sems[r].waiters.value;
      && k'.ready == k.ready + w[..n]
      && k'.sems[r] == k.sems[r].(waiters := Some(w[n..]))
      && (forall x | x in w[..n] :: k'.tasks[x] == k.tasks[x].(status := Running))
      && (forall x | x in k.tasks && x !in w[..n] :: k'.tasks[x] == k.tasks[x])
    decreases n
  {
    var w := k.sems[r].waiters.value;
    if n == 0 {
      assert w[0..] == w;
    } else {
      FirstOfPrefix(w, n);
      var k1 := SemWakeUpFirst(k, r);
      WakeFirstNInOrder(k1, r, n - 1);
      assert k.ready + [w[0]] + w[1..][..n - 1] == k.ready + w[..n];
    }
  }

  /** sem_destroy(s): every counted waiter is woken, the wait roster is freed,
      and the preemption flag gets back the value it had on entry. The waiter
      count itself is left as it was. Returns 0. */
  function SemDestroy(k: Kernel, r: SemRef): (k': Kernel)
    requires r in k.sems
    requires k.sems[r].taskCounter > 0 ==> CanWake(k, r, k.sems[r].taskCounter)
    ensures k'.sems.Keys == k.sems.Keys && k'.tasks.Keys == k.tasks.Keys
    ensures forall q | q in k.sems && q != r :: k'.sems[q] == k.sems[q]
    ensures k'.sems[r].waiters.None? && k'.canPreempt == k.canPreempt
    ensures k' == k.(ready := k'.ready, tasks := k'.tasks, sems := k'.sems)
  {
    var oldCanPreempt := k.canPreempt;
    var k1 := k.(canPreempt := false);
    var k2 := if k.sems[r].taskCounter > 0 then WakeFirstN(k1, r, k.sems[r].taskCounter) else k1;
    k2.(sems := k2.sems[r := k2.sems[r].(waiters := None)], canPreempt := oldCanPreempt)
  }

  /** Counting: sem_down lowers the counter by one and keeps task_counter equal
      to the number of waiters and to the counter's deficit. */
  lemma DownKeepsCount(k: Kernel, r: SemRef)
    requires CanDown(k, r) && SemInv(k.sems[r])
    ensures var k' := SemDownBody(k, r).k;
      && SemInv(k'.sems[r])
      && k'.sems[r].counter == k.sems[r].counter - 1
  {
  }

  /** Counting: sem_up raises the counter by one and keeps task_counter equal to
      the number of waiters and to the counter's deficit. */
  lemma UpKeepsCount(k: Kernel, r: SemRef)
    requires r in k.sems && SemInv(k.sems[r])
    requires InTable(k.tasks, k.sems[r].waiters.value)
    ensures CanUp(k, r)
    ensures var k' := SemUp(k, Some(r)).k;
      && SemInv(k'.sems[r])
      && k'.sems[r].counter == k.sems[r].counter + 1
  {
  }

  /** Destroying a consistent semaphore releases all its waiters, in the order
      they blocked, and restores the caller's preemption flag; the roster is
      gone, so a task woken this way gets 1 from sem_down, and the stale waiter
      count stays behind. */
  lemma DestroyReleasesAll(k: Kernel, r: SemRef)
    requires r in k.sems && k.sems[r].Alive() && k.sems[r].taskCounter == |k.sems[r].waiters.value|
    requires InTable(k.tasks, k.sems[r].waiters.value)
    ensures k.sems[r].taskCounter > 0 ==> CanWake(k, r, k.sems[r].taskCounter)
    ensures var k' := SemDestroy(k, r); var w := k.sems[r].waiters.value;
      && k'.ready == k.ready + w
      && (forall x | x in w :: k'.tasks[x] == k.tasks[x].(status := Running))
      && (forall x | x in k.tasks && x !in w :: k'.tasks[x] == k.tasks[x])
      && k'.sems[r].waiters.None?
      && k'.sems[r].taskCounter == k.sems[r].taskCounter
      && k'.sems[r].counter == k.sems[r].counter
      && k'.canPreempt == k.canPreempt
      && SemDownResume(k', r).code == 1
  {
    var w := k.sems[r].waiters.value;
    assert w[..|w|] == w;
    if k.sems[r].taskCounter > 0 {
      WakeFirstNInOrder(k.(canPreempt := false), r, k.sems[r].taskCounter);
    }
  }

  /** A down that gets through, followed by an up, leaves the kernel as it
      was, except that preemption is on. */
  lemma DownThenUpRestores(k: Kernel, r: SemRef)
    requires CanDown(k, r) && SemInv(k.sems[r]) && k.sems[r].counter >= 1
    ensures SemDownBody(k, r).SemReturned?
    ensures CanUp(SemDownBody(k, r).k, r)
    ensures SemUp(SemDownBody(k, r).k, Some(r)).k == k.(canPreempt := true)
  {
  }

  /** Waiters wake in the order they blocked: a caller that blocks in
      sem_down queues behind the earlier waiters, and the next sem_up wakes
      the oldest of them (the caller itself only if nobody waited before it),
      bringing counter and waiter count back to where they were. */
  lemma BlockThenUpWakesOldest(k: Kernel, r: SemRef)
    requires CanDown(k, r) && SemInv(k.sems[r]) && k.sems[r].counter <= 0
    requires InTable(k.tasks, k.sems[r].waiters.value)
    requires k.current != k.dispatcher
    ensures CanUp(SemDownBody(k, r).k, r)
    ensures var w := k.sems[r].waiters.value + [k.current];
      var k2 := SemUp(SemDownBody(k, r).k, Some(r)).k;
      && k2.ready == Remove(k.ready, k.current) + [w[0]]
      && k2.sems[r].waiters == Some(w[1..])
      && k2.sems[r].counter == k.sems[r].counter
      && k2.sems[r].taskCounter == k.sems[r].taskCounter
      && k2.tasks[w[0]].status == Running
      && (k.sems[r].waiters.value == [] ==> w[0] == k.current)
  {
  }
}
