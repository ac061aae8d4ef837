/** Message queues: mqueue_create, mqueue_send, mqueue_recv, mqueue_destroy
    and mqueue_msgs, built on the kernel's semaphores. A queue is a ring of
    `maxMsgs` slots with a read cursor (`currentItem`) and a write cursor
    (`nextPosition`); three semaphores count free slots, guard the buffer and
    count the messages waiting to be read. Each call runs without being
    interleaved with another queue call. */
module MQueues {

  import opened KernelState
  import opened Rosters
  import opened Semaphores

  /** How a queue call ends for the caller: a return code, a received message
      (return code 0), blocked inside one of the queue's semaphores, or yielded
      by sem_down's pending-preemption check before the call did anything
      (the call is then made again from the start). */
  datatype MqCall =
    | MqReturned(k: Kernel, code: int)
    | MqReceived(k: Kernel, msg: Option<Message>)
    | MqBlocked(k: Kernel)
    | MqPreempted(k: Kernel)

  /** A cursor moves one slot on and wraps to slot 0 when it would run past
      the end of the buffer. */
  function Advance(c: int, max: int): int
  {
    if c + 1 == max then 0 else c + 1
  }

  /** The slot `j` places after slot `r` in a ring of `max` slots (j <= max). */
  function Pos(r: int, j: int, max: int): int
  {
    if r + j < max then r + j else r + j - max
  }

  /** A live semaphore whose task_counter is the length of its wait roster,
      every waiter a known task; its counter may be anything (sem_create takes
      any value). */
  predicate SemTracked(k: Kernel, r: SemRef)
  {
    && r in k.sems
    && k.sems[r].Alive()
    && k.sems[r].taskCounter == |k.sems[r].waiters.value|
    && InTable(k.tasks, k.sems[r].waiters.value)
  }

  /** A semaphore in working order: its books agree with its wait roster, and
      every waiter is a known task. */
  predicate SemReady(k: Kernel, r: SemRef)
  {
    && r in k.sems
    && SemInv(k.sems[r])
    && InTable(k.tasks, k.sems[r].waiters.value)
  }

  /** A live queue between two calls: three distinct semaphores (the buffer
      guard and the message count in working order, the free-slot count at
      least tracking its waiters, since a negative capacity starts it below
      zero with nobody waiting), the buffer guard released, and, when the
      buffer exists, `maxMsgs` slots with both cursors on a slot. */
  predicate QueueOk(k: Kernel, Q: MQueue)
  {
    && Q.sEmptyLots.Some? && Q.sBuffer.Some? && Q.sItems.Some?
    && Q.sEmptyLots.value != Q.sBuffer.value
    && Q.sEmptyLots.value != Q.sItems.value
    && Q.sBuffer.value != Q.sItems.value
    && SemTracked(k, Q.sEmptyLots.value)
    && SemReady(k, Q.sBuffer.value)
    && SemReady(k, Q.sItems.value)
    && k.sems[Q.sBuffer.value].counter >= 1
    && (Q.buffer.Some? ==>
          && |Q.buffer.value| == Q.maxMsgs
          && 0 <= Q.currentItem < Q.maxMsgs
          && 0 <= Q.nextPosition < Q.maxMsgs)
  }

  /** A destroyed queue: semaphores and buffer are gone. */
  predicate Gone(Q: MQueue)
  {
    Q.sEmptyLots.None? && Q.sBuffer.None? && Q.sItems.None? && Q.buffer.None?
  }

  /** mqueue_msgs: the message semaphore's counter. */
  function MqMsgs(k: Kernel, q: QueueRef): (n: int)
    requires q in k.queues && k.queues[q].sItems.Some? && k.queues[q].sItems.value in k.sems
    ensures n == k.sems[k.queues[q].sItems.value].counter
  {
    k.sems[k.queues[q].sItems.value].counter
  }

  /** mqueue_create(queue, max, size): 1 for a NULL queue; otherwise a fresh
      id, an empty buffer of `max` slots (none when `max` is negative, as
      malloc fails for a negative byte count), both cursors at slot 0, and
      three new semaphores `e`, `b`, `i` (free slots = max, buffer guard = 1,
      messages = 0), which take the next three semaphore ids. */
  function MqCreate(k: Kernel, h: Option<QueueRef>, max: int, size: int, e: SemRef, b: SemRef, i: SemRef): (c: MqCall)
    requires e != b && b != i && e != i
    requires e !in k.sems && b !in k.sems && i !in k.sems
    ensures c.MqReturned?
    ensures h.None? ==> c.code == 1 && c.k == k
    ensures h.Some? ==> c.code == 0 && h.value in c.k.queues
    ensures h.Some? ==> var Q := c.k.queues[h.value];
      && Q.id == k.lastMqueueId + 1 && c.k.lastMqueueId == k.lastMqueueId + 1
      && Q.maxMsgs == max && Q.msgSize == size
      && Q.sEmptyLots == Some(e) && Q.sBuffer == Some(b) && Q.sItems == Some(i)
      && e in c.k.sems && b in c.k.sems && i in c.k.sems
      && c.k.sems[e].counter == max && c.k.sems[b].counter == 1 && c.k.sems[i].counter == 0
      && c.k.lastSemaphoreId == k.lastSemaphoreId + 3
      && (max != 0 ==> QueueOk(c.k, Q))
      && (max >= 0 <==> Q.buffer.Some?)
      && (Q.buffer.Some? ==> |Q.buffer.value| == max && forall x | x in Q.buffer.value :: x.None?)
      && Q.currentItem == 0 && Q.nextPosition == 0
    ensures h.Some? ==> forall r | r in k.sems :: r in c.k.sems && c.k.sems[r] == k.sems[r]
    ensures h.Some? ==> forall x | x in k.queues && x != h.value :: x in c.k.queues && c.k.queues[x] == k.queues[x]
    ensures c.k == k.(sems := c.k.sems, queues := c.k.queues,
                      lastSemaphoreId := c.k.lastSemaphoreId, lastMqueueId := c.k.lastMqueueId)
  {
    if h.None? then MqReturned(k, 1)
    else
      var id := k.lastMqueueId + 1;
      var k1 := SemCreate(SemCreate(SemCreate(k, e, max), b, 1), i, 0);
      MqReturned(k1.(lastMqueueId := id, queues := k1.queues[h.value := NewQueue(id, max, size, e, b, i)]), 0)
  }

  /** The queue record mqueue_create fills in. */
  function NewQueue(id: int, max: int, size: int, e: SemRef, b: SemRef, i: SemRef): (Q: MQueue)
    ensures Q.id == id && Q.maxMsgs == max && Q.msgSize == size
    ensures Q.sEmptyLots == Some(e) && Q.sBuffer == Some(b) && Q.sItems == Some(i)
    ensures max >= 0 <==> Q.buffer.Some?
    ensures Q.buffer.Some? ==> |Q.buffer.value| == max && forall x | x in Q.buffer.value :: x.None?
    ensures Q.currentItem == 0 && Q.nextPosition == 0
  {
    var buffer := if max < 0 then None else Some(seq(max, _ => None));
    MQueue(id, max, size, buffer, 0, 0, Some(e), Some(b), Some(i))
  }

  /** The copy into the buffer and the write cursor's move, done when the
      buffer exists. */
  function WriteSlot(Q: MQueue, msg: Message): (Q': MQueue)
    requires Q.buffer.Some? ==> 0 <= Q.nextPosition < |Q.buffer.value|
  {
    if Q.buffer.Some? then
      Q.(buffer := Some(Q.buffer.value[Q.nextPosition := Some(msg)]),
         nextPosition := Advance(Q.nextPosition, Q.maxMsgs))
    else Q
  }

  /** The copy out of the buffer and the read cursor's move, done when the
      buffer exists; None when nothing is copied. */
  function ReadSlot(Q: MQueue): (Option<Message>, MQueue)
    requires Q.buffer.Some? ==> 0 <= Q.currentItem < |Q.buffer.value|
  {
    if Q.buffer.Some? then
      (Q.buffer.value[Q.currentItem], Q.(currentItem := Advance(Q.currentItem, Q.maxMsgs)))
    else (None, Q)
  }

  /** What a caller may run a queue call on: a destroyed queue (the semaphore
      the call tests first is NULL) or a live one. */
  predicate Usable(k: Kernel, q: QueueRef, first: Option<SemRef>)
  {
    && q in k.queues
    && k.current in k.tasks && k.dispatcher in k.tasks
    && (first.Some? ==> QueueOk(k, k.queues[q]))
  }

  /** mqueue_send(queue, msg) as written: it downs and at once ups the buffer
      guard, writes the slot under the write cursor, ups the guard once more,
      then ups the message count. The free-slot semaphore is never downed, so
      the call does not wait for room. 0 while the queue lives, -1 once it is
      destroyed. */
  function MqSend(k: Kernel, q: QueueRef, msg: Message): (c: MqCall)
    requires q in k.queues && Usable(k, q, k.queues[q].sBuffer)
  {
    var Q := k.queues[q];
    match SemDown(k, Q.sBuffer)
    case SemPreempted(k1) => MqPreempted(k1)
    case SemBlocked(k1) => MqBlocked(k1)
    case SemReturned(k1, code) =>
      if code == -1 then MqReturned(k1, -1)
      else
        var b := Q.sBuffer.value;
        var k2 := SemUp(k1, Some(b)).k;
        var k3 := k2.(queues := k2.queues[q := WriteSlot(Q, msg)]);
        var k4 := SemUp(k3, Some(b)).k;
        var up := SemUp(k4, Q.sItems);
        if up.code == -1 then MqReturned(up.k, -1)
        else MqReturned(up.k, if Q.sEmptyLots.Some? then 0 else -1)
  }

  /** The rest of mqueue_recv once the caller is past the message count, either
      at once or after being woken: take the buffer guard, copy the slot under
      the read cursor and move it, release the guard, up the free-slot count.
      A caller woken by mqueue_destroy finds the guard NULL and gets -1. */
  function MqRecvFinish(k: Kernel, q: QueueRef): (c: MqCall)
    requires q in k.queues && Usable(k, q, k.queues[q].sBuffer)
    requires k.tasks[k.current].ticks >= 0
  {
    var Q := k.queues[q];
    match SemDown(k, Q.sBuffer)
    case SemPreempted(k1) => MqPreempted(k1)
    case SemBlocked(k1) => MqBlocked(k1)
    case SemReturned(k1, code) =>
      if code == -1 then MqReturned(k1, -1)
      else
        var b := Q.sBuffer.value;
        var (m, Q') := ReadSlot(Q);
        var k2 := k1.(queues := k1.queues[q := Q']);
        var k3 := SemUp(k2, Some(b)).k;
        var up := SemUp(k3, Q.sEmptyLots);
        if up.code == -1 then MqReturned(up.k, -1)
        else if Q.sEmptyLots.Some? then MqReceived(up.k, m)
        else MqReturned(up.k, -1)
  }

  /** mqueue_recv(queue, msg): down the message count, which blocks the caller
      while the queue is empty; then the rest as MqRecvFinish. */
  function MqRecv(k: Kernel, q: QueueRef): (c: MqCall)
    requires q in k.queues && Usable(k, q, k.queues[q].sItems)
  {
    var Q := k.queues[q];
    match SemDown(k, Q.sItems)
    case SemPreempted(k1) => MqPreempted(k1)
    case SemBlocked(k1) => MqBlocked(k1)
    case SemReturned(k1, code) =>
      if code == -1 then MqReturned(k1, -1)
      else MqRecvFinish(k1, q)
  }

  /** The semaphores mqueue_destroy hands to sem_destroy. */
  predicate DestroyOk(k: Kernel, Q: MQueue)
  {
    && Q.sEmptyLots.Some? && Q.sBuffer.Some? && Q.sItems.Some?
    && Q.sEmptyLots.value != Q.sBuffer.value
    && Q.sEmptyLots.value != Q.sItems.value
    && Q.sBuffer.value != Q.sItems.value
    && SemTracked(k, Q.sEmptyLots.value)
    && SemTracked(k, Q.sBuffer.value)
    && SemTracked(k, Q.sItems.value)
  }

  /** A tracked semaphore can have all its counted waiters woken. */
  lemma ReadyCanWake(k: Kernel, r: SemRef)
    requires SemTracked(k, r)
    ensures k.sems[r].taskCounter > 0 ==> CanWake(k, r, k.sems[r].taskCounter)
  {
    assert k.sems[r].waiters.value[..k.sems[r].taskCounter] == k.sems[r].waiters.value;
  }

  /** sem_destroy leaves every other semaphore, and every task's presence,
      as it was, so another tracked semaphore stays tracked. */
  lemma DestroyKeepsReady(k: Kernel, r: SemRef, s: SemRef)
    requires SemTracked(k, r) && SemTracked(k, s) && r != s
    ensures k.sems[r].taskCounter > 0 ==> CanWake(k, r, k.sems[r].taskCounter)
    ensures SemTracked(SemDestroy(k, r), s)
  {
    ReadyCanWake(k, r);
  }

  /** mqueue_destroy(queue): preemption off; destroy the buffer guard, the
      free-slot count and the message count, in that order, waking their
      waiters; forget the semaphores and free the buffer; preemption on.
      Returns 0. */
  function MqDestroy(k: Kernel, q: QueueRef): (c: MqCall)
    requires q in k.queues && DestroyOk(k, k.queues[q])
  {
    var Q := k.queues[q];
    var b := Q.sBuffer.value;
    var e := Q.sEmptyLots.value;
    var i := Q.sItems.value;
    var k1 := k.(canPreempt := false);
    ReadyCanWake(k1, b);
    var k2 := SemDestroy(k1, b);
    DestroyKeepsReady(k1, b, e);
    DestroyKeepsReady(k1, b, i);
    ReadyCanWake(k2, e);
    var k3 := SemDestroy(k2, e);
    DestroyKeepsReady(k2, e, i);
    ReadyCanWake(k3, i);
    var k4 := SemDestroy(k3, i);
    var Q' := Q.(sBuffer := None, sEmptyLots := None, sItems := None, buffer := None);
    MqReturned(k4.(queues := k4.queues[q := Q'], canPreempt := true), 0)
  }

  /** One send on a live queue, as written: the message lands in the slot
      under the write cursor, which moves on; the message count goes up by one
      and, if a receiver was waiting, the oldest one is made ready; the buffer
      guard ends one higher than it started, and the free-slot count is not
      touched. Returns 0. */
  lemma SendWritesTail(k: Kernel, q: QueueRef, msg: Message)
    requires q in k.queues && Usable(k, q, k.queues[q].sBuffer) && QueueOk(k, k.queues[q])
    requires k.tasks[k.current].ticks >= 0
    ensures var c := MqSend(k, q, msg); var Q := k.queues[q];
      var e := Q.sEmptyLots.value; var b := Q.sBuffer.value; var i := Q.sItems.value;
      var w := k.sems[i].waiters.value;
      && c.MqReturned? && c.code == 0
      && c.k.queues == k.queues[q := WriteSlot(Q, msg)]
      && c.k.sems.Keys == k.sems.Keys
      && c.k.sems[b].counter == k.sems[b].counter + 1
      && c.k.sems[i].counter == k.sems[i].counter + 1
      && c.k.sems[e] == k.sems[e]
      && (k.sems[i].taskCounter > 0 ==>
            && c.k.ready == k.ready + [w[0]]
            && c.k.tasks == k.tasks[w[0] := k.tasks[w[0]].(status := Running)])
      && (k.sems[i].taskCounter == 0 ==> c.k.ready == k.ready && c.k.tasks == k.tasks)
      && QueueOk(c.k, c.k.queues[q])
      && c.k.canPreempt
      && c.k == k.(ready := c.k.ready, tasks := c.k.tasks, sems := c.k.sems,
                   queues := c.k.queues, canPreempt := true)
  {
    var Q := k.queues[q];
    var b := Q.sBuffer.value;
    var i := Q.sItems.value;
    var d := SemDown(k, Q.sBuffer);
    assert d == SemDownBody(k, b);
    var k1 := d.k;
    var k2 := SemUp(k1, Some(b)).k;
    assert k2.tasks == k.tasks && k2.ready == k.ready;
    var k3 := k2.(queues := k2.queues[q := WriteSlot(Q, msg)]);
    var k4 := SemUp(k3, Some(b)).k;
    assert k4.tasks == k.tasks && k4.ready == k.ready && k4.sems[i] == k.sems[i];
    UpKeepsCount(k4, i);
  }

  /** One receive on a live queue holding messages: the caller gets the slot
      under the read cursor, which moves on; the message count goes down by
      one and the free-slot count up by one, making the oldest blocked sender
      ready if there is one; the buffer guard ends where it started. */
  lemma RecvReadsHead(k: Kernel, q: QueueRef)
    requires q in k.queues && Usable(k, q, k.queues[q].sItems) && QueueOk(k, k.queues[q])
    requires k.tasks[k.current].ticks >= 0
    requires k.sems[k.queues[q].sItems.value].counter > 0
    ensures var c := MqRecv(k, q); var Q := k.queues[q];
      var e := Q.sEmptyLots.value; var b := Q.sBuffer.value; var i := Q.sItems.value;
      var w := k.sems[e].waiters.value;
      && c.MqReceived?
      && (Q.buffer.Some? ==>
            && c.msg == Q.buffer.value[Q.currentItem]
            && c.k.queues == k.queues[q := Q.(currentItem := Advance(Q.currentItem, Q.maxMsgs))])
      && (Q.buffer.None? ==> c.msg.None? && c.k.queues == k.queues)
      && c.k.sems.Keys == k.sems.Keys
      && c.k.sems[b] == k.sems[b]
      && c.k.sems[i].counter == k.sems[i].counter - 1
      && c.k.sems[e].counter == k.sems[e].counter + 1
      && c.k.sems[e].taskCounter == (if k.sems[e].taskCounter > 0 then k.sems[e].taskCounter - 1 else 0)
      && (k.sems[e].taskCounter > 0 ==>
            && c.k.ready == k.ready + [w[0]]
            && c.k.tasks == k.tasks[w[0] := k.tasks[w[0]].(status := Running)])
      && (k.sems[e].taskCounter == 0 ==> c.k.ready == k.ready && c.k.tasks == k.tasks)
      && QueueOk(c.k, c.k.queues[q])
      && c.k == k.(ready := c.k.ready, tasks := c.k.tasks, sems := c.k.sems,
                   queues := c.k.queues, canPreempt := true)
  {
    var Q := k.queues[q];
    var e := Q.sEmptyLots.value;
    var b := Q.sBuffer.value;
    var i := Q.sItems.value;
    var d := SemDown(k, Q.sItems);
    assert d == SemDownBody(k, i);
    var k1 := d.k;
    assert k1.queues == k.queues && k1.tasks == k.tasks;
    var d2 := SemDown(k1, Q.sBuffer);
    assert d2 == SemDownBody(k1, b);
    var k2 := d2.k;
    var k3 := k2.(queues := k2.queues[q := ReadSlot(Q).1]);
    var k4 := SemUp(k3, Some(b)).k;
    assert k4.tasks == k.tasks && k4.ready == k.ready && k4.sems[e] == k.sems[e];
  }

  /** A receive on a live queue with no message waiting blocks the caller: it
      leaves the ready roster, suspended, for the tail of the message
      semaphore's wait roster, and the queue itself is untouched. */
  lemma RecvBlocksWhenEmpty(k: Kernel, q: QueueRef)
    requires q in k.queues && Usable(k, q, k.queues[q].sItems) && QueueOk(k, k.queues[q])
    requires k.tasks[k.current].ticks >= 0
    requires k.sems[k.queues[q].sItems.value].counter <= 0
    ensures var c := MqRecv(k, q); var i := k.queues[q].sItems.value;
      && c.MqBlocked?
      && c.k.queues == k.queues
      && c.k.sems[i].waiters == Some(k.sems[i].waiters.value + [k.current])
      && c.k.ready == Remove(k.ready, k.current)
      && c.k.tasks[k.current].status == Suspended
      && c.k.current == k.dispatcher
  {
    assert SemDown(k, k.queues[q].sItems) == SemDownBody(k, k.queues[q].sItems.value);
  }

  /** The unread messages of a ring: `n` slots from the read cursor `r` on. */
  function Window(buf: seq<Option<Message>>, r: int, n: int): (w: seq<Option<Message>>)
    requires 0 <= r < |buf| && 0 <= n <= |buf|
    ensures |w| == n
    ensures forall j | 0 <= j < n :: w[j] == buf[Pos(r, j, |buf|)]
  {
    seq(n, j requires 0 <= j < n => buf[Pos(r, j, |buf|)])
  }

  /** Writing the slot just past the window extends the window by that
      message; the write cursor then sits just past the longer window. */
  lemma WindowPush(buf: seq<Option<Message>>, r: int, n: int, m: Option<Message>)
    requires 0 <= r < |buf| && 0 <= n < |buf|
    ensures Window(buf[Pos(r, n, |buf|) := m], r, n + 1) == Window(buf, r, n) + [m]
    ensures Advance(Pos(r, n, |buf|), |buf|) == Pos(r, n + 1, |buf|)
  {
    var buf' := buf[Pos(r, n, |buf|) := m];
    forall j | 0 <= j < n
      ensures Window(buf', r, n + 1)[j] == Window(buf, r, n)[j]
    {
      assert Pos(r, j, |buf|) != Pos(r, n, |buf|);
    }
  }

  /** Reading the slot under the read cursor yields the window's first
      message, and moving the cursor leaves the rest of the window. */
  lemma WindowPop(buf: seq<Option<Message>>, r: int, n: int)
    requires 0 <= r < |buf| && 0 < n <= |buf|
    ensures 0 <= Advance(r, |buf|) < |buf|
    ensures Window(buf, r, n)[0] == buf[r]
    ensures Window(buf, Advance(r, |buf|), n - 1) == Window(buf, r, n)[1..]
    ensures Pos(Advance(r, |buf|), n - 1, |buf|) == Pos(r, n, |buf|)
  {
  }

  /** A live queue with a buffer whose message count is a window of the
      ring: between 0 and the capacity, ending at the write cursor. */
  predicate FifoInv(k: Kernel, q: QueueRef)
  {
    && q in k.queues
    && QueueOk(k, k.queues[q])
    && var Q := k.queues[q]; var n := k.sems[Q.sItems.value].counter;
    && Q.buffer.Some?
    && 0 <= n <= Q.maxMsgs
    && Q.nextPosition == Pos(Q.currentItem, n, Q.maxMsgs)
  }

  /** The messages waiting in the queue, oldest first. */
  function Contents(k: Kernel, q: QueueRef): (w: seq<Option<Message>>)
    requires FifoInv(k, q)
    ensures |w| == MqMsgs(k, q)
  {
    var Q := k.queues[q];
    Window(Q.buffer.value, Q.currentItem, k.sems[Q.sItems.value].counter)
  }

  /** First in, first out (sending): a send into a queue with room appends
      the message to the waiting ones and keeps the window. */
  lemma SendAppends(k: Kernel, q: QueueRef, msg: Message)
    requires FifoInv(k, q) && Usable(k, q, k.queues[q].sBuffer)
    requires k.tasks[k.current].ticks >= 0
    requires MqMsgs(k, q) < k.queues[q].maxMsgs
    ensures var c := MqSend(k, q, msg);
      && c.MqReturned? && c.code == 0
      && FifoInv(c.k, q)
      && Contents(c.k, q) == Contents(k, q) + [Some(msg)]
      && MqMsgs(c.k, q) == MqMsgs(k, q) + 1
  {
    var Q := k.queues[q];
    SendWritesTail(k, q, msg);
    WindowPush(Q.buffer.value, Q.currentItem, MqMsgs(k, q), Some(msg));
  }

  /** First in, first out (receiving): a receive from a queue holding
      messages gets the oldest, leaves the others in order, and keeps the
      window. */
  lemma RecvPops(k: Kernel, q: QueueRef)
    requires FifoInv(k, q) && Usable(k, q, k.queues[q].sItems)
    requires k.tasks[k.current].ticks >= 0
    requires MqMsgs(k, q) > 0
    ensures var c := MqRecv(k, q);
      && c.MqReceived?
      && c.msg == Contents(k, q)[0]
      && FifoInv(c.k, q)
      && Contents(c.k, q) == Contents(k, q)[1..]
      && MqMsgs(c.k, q) == MqMsgs(k, q) - 1
  {
    var Q := k.queues[q];
    RecvReadsHead(k, q);
    WindowPop(Q.buffer.value, Q.currentItem, MqMsgs(k, q));
  }

  /** A full queue does not make the sender wait: the send returns 0, the
      message count passes the capacity, and the new message overwrites the
      oldest unread one, which the next receive then gets instead. */
  lemma SendOverwritesWhenFull(k: Kernel, q: QueueRef, msg: Message)
    requires FifoInv(k, q) && Usable(k, q, k.queues[q].sBuffer)
    requires k.tasks[k.current].ticks >= 0
    requires MqMsgs(k, q) == k.queues[q].maxMsgs
    ensures var c := MqSend(k, q, msg);
      && c.MqReturned? && c.code == 0
      && MqMsgs(c.k, q) == k.queues[q].maxMsgs + 1
      && c.k.queues[q].currentItem == k.queues[q].currentItem
      && Usable(c.k, q, c.k.queues[q].sItems)
      && c.k.tasks[c.k.current].ticks >= 0
      && MqRecv(c.k, q).MqReceived?
      && MqRecv(c.k, q).msg == Some(msg)
  {
    var Q := k.queues[q];
    SendWritesTail(k, q, msg);
    var c := MqSend(k, q, msg);
    assert Pos(Q.currentItem, Q.maxMsgs, Q.maxMsgs) == Q.currentItem;
    RecvReadsHead(c.k, q);
  }

  /** The first send on a new queue leaves its buffer guard at 2, so the
      guard no longer keeps two callers out of the buffer at once. */
  lemma SendLoosensGuard(k: Kernel, h: QueueRef, max: int, size: int, e: SemRef, b: SemRef, i: SemRef, msg: Message)
    requires max > 0
    requires e != b && b != i && e != i
    requires e !in k.sems && b !in k.sems && i !in k.sems
    requires k.current in k.tasks && k.dispatcher in k.tasks
    requires k.tasks[k.current].ticks >= 0
    ensures var k1 := MqCreate(k, Some(h), max, size, e, b, i).k;
      && Usable(k1, h, k1.queues[h].sBuffer)
      && MqSend(k1, h, msg).k.sems[b].counter == 2
  {
    var k1 := MqCreate(k, Some(h), max, size, e, b, i).k;
    SendWritesTail(k1, h, msg);
  }

  /** A new queue is empty and keeps the window. */
  lemma CreateStartsEmpty(k: Kernel, h: QueueRef, max: int, size: int, e: SemRef, b: SemRef, i: SemRef)
    requires max > 0
    requires e != b && b != i && e != i
    requires e !in k.sems && b !in k.sems && i !in k.sems
    ensures var k1 := MqCreate(k, Some(h), max, size, e, b, i).k;
      && FifoInv(k1, h)
      && Contents(k1, h) == []
      && MqMsgs(k1, h) == 0
  {
  }

  /** A queue created with a negative capacity has no buffer: a send still
      returns 0 and counts the message, but nothing is stored, and the
      receive that follows returns 0 with nothing copied. */
  lemma NoBufferDropsMessages(k: Kernel, h: QueueRef, max: int, size: int, e: SemRef, b: SemRef, i: SemRef, msg: Message)
    requires max < 0
    requires e != b && b != i && e != i
    requires e !in k.sems && b !in k.sems && i !in k.sems
    requires k.current in k.tasks && k.dispatcher in k.tasks
    requires k.tasks[k.current].ticks >= 0
    ensures var k1 := MqCreate(k, Some(h), max, size, e, b, i).k;
      && k1.queues[h].buffer.None?
      && Usable(k1, h, k1.queues[h].sBuffer)
      && var c := MqSend(k1, h, msg);
      && c.MqReturned? && c.code == 0
      && c.k.queues == k1.queues
      && MqMsgs(c.k, h) == 1
      && Usable(c.k, h, c.k.queues[h].sItems)
      && c.k.tasks[c.k.current].ticks >= 0
      && MqRecv(c.k, h).MqReceived? && MqRecv(c.k, h).msg.None?
  {
    var k1 := MqCreate(k, Some(h), max, size, e, b, i).k;
    NoBufferSendRecv(k1, h, msg);
  }

  /** On a live queue without a buffer a send returns 0 and counts the
      message without storing it, and the receive after it returns 0 with
      nothing copied. */
  lemma NoBufferSendRecv(k: Kernel, q: QueueRef, msg: Message)
    requires q in k.queues && Usable(k, q, k.queues[q].sBuffer) && QueueOk(k, k.queues[q])
    requires k.queues[q].buffer.None?
    requires k.tasks[k.current].ticks >= 0
    requires MqMsgs(k, q) >= 0
    ensures var c := MqSend(k, q, msg);
      && c.MqReturned? && c.code == 0
      && c.k.queues == k.queues
      && MqMsgs(c.k, q) == MqMsgs(k, q) + 1
      && Usable(c.k, q, c.k.queues[q].sItems)
      && c.k.tasks[c.k.current].ticks >= 0
      && MqRecv(c.k, q).MqReceived? && MqRecv(c.k, q).msg.None?
  {
    SendWritesTail(k, q, msg);
    RecvReadsHead(MqSend(k, q, msg).k, q);
  }

  /** Receivers wait on an empty queue: the message count is below zero, one
      down for each waiting receiver, and both cursors are on the same slot. */
  predicate ReceiversWait(k: Kernel, q: QueueRef)
  {
    && q in k.queues
    && QueueOk(k, k.queues[q])
    && var Q := k.queues[q];
    && Q.buffer.Some?
    && k.sems[Q.sItems.value].counter < 0
    && Q.nextPosition == Q.currentItem
  }

  /** A receive on an empty queue (no message, or receivers already waiting)
      joins the tail of the receivers' wait roster and counts one more down. */
  lemma RecvJoinsWaiters(k: Kernel, q: QueueRef)
    requires (FifoInv(k, q) && MqMsgs(k, q) == 0) || ReceiversWait(k, q)
    requires Usable(k, q, k.queues[q].sItems)
    requires k.tasks[k.current].ticks >= 0
    ensures var c := MqRecv(k, q); var Q := k.queues[q]; var i := Q.sItems.value;
      && c.MqBlocked?
      && ReceiversWait(c.k, q)
      && MqMsgs(c.k, q) == MqMsgs(k, q) - 1
      && c.k.sems[i].waiters == Some(k.sems[i].waiters.value + [k.current])
      && c.k.queues == k.queues
      && c.k.tasks.Keys == k.tasks.Keys
      && c.k.sems[Q.sEmptyLots.value] == k.sems[Q.sEmptyLots.value]
      && c.k.sems[Q.sBuffer.value] == k.sems[Q.sBuffer.value]
  {
    RecvBlocksWhenEmpty(k, q);
    assert SemDown(k, k.queues[q].sItems) == SemDownBody(k, k.queues[q].sItems.value);
  }

  /** A send has just handed `msg` to the oldest waiting receiver, which is
      ready again but has not yet finished its receive: the message sits
      under the read cursor, the write cursor is one slot on, and the message
      count, which already counts the message, is still at most 0. */
  predicate HandedOff(k: Kernel, q: QueueRef, msg: Message)
  {
    && q in k.queues
    && QueueOk(k, k.queues[q])
    && var Q := k.queues[q];
    && Q.buffer.Some?
    && Q.buffer.value[Q.currentItem] == Some(msg)
    && Q.nextPosition == Advance(Q.currentItem, Q.maxMsgs)
    && k.sems[Q.sItems.value].counter <= 0
  }

  /** First in, first out with receivers waiting: a send wakes the oldest
      waiting receiver, makes it ready, and hands it the message. */
  lemma SendHandsOff(k: Kernel, q: QueueRef, msg: Message)
    requires ReceiversWait(k, q) && Usable(k, q, k.queues[q].sBuffer)
    requires k.tasks[k.current].ticks >= 0
    ensures var c := MqSend(k, q, msg); var i := k.queues[q].sItems.value;
      var w := k.sems[i].waiters.value;
      && c.MqReturned? && c.code == 0
      && |w| > 0
      && c.k.ready == k.ready + [w[0]]
      && c.k.tasks[w[0]].status == Running
      && c.k.sems[i].waiters == Some(w[1..])
      && MqMsgs(c.k, q) == MqMsgs(k, q) + 1
      && HandedOff(c.k, q, msg)
  {
    SendWritesTail(k, q, msg);
    var Q := k.queues[q];
    var i := Q.sItems.value;
    var b := Q.sBuffer.value;
    var k1 := SemDown(k, Q.sBuffer).k;
    var k2 := SemUp(k1, Some(b)).k;
    var k3 := k2.(queues := k2.queues[q := WriteSlot(Q, msg)]);
    var k4 := SemUp(k3, Some(b)).k;
    assert k4.sems[i] == k.sems[i] && k4.tasks == k.tasks;
  }

  /** The woken receiver, once it runs again, finishes its receive with the
      handed-off message; the queue is then empty, with receivers still
      waiting or none. */
  lemma HandOffDelivers(k: Kernel, q: QueueRef, msg: Message)
    requires HandedOff(k, q, msg) && Usable(k, q, k.queues[q].sBuffer)
    requires k.tasks[k.current].ticks >= 0
    ensures var c := MqRecvFinish(k, q); var Q := k.queues[q];
      var e := Q.sEmptyLots.value; var b := Q.sBuffer.value; var i := Q.sItems.value;
      && c.MqReceived? && c.msg == Some(msg)
      && c.k.sems[i] == k.sems[i]
      && c.k.sems[b].counter == k.sems[b].counter
      && c.k.sems[e].counter == k.sems[e].counter + 1
      && (SemReady(k, e) ==> SemReady(c.k, e))
      && (MqMsgs(k, q) < 0 ==> ReceiversWait(c.k, q))
      && (MqMsgs(k, q) == 0 ==> FifoInv(c.k, q) && Contents(c.k, q) == [])
  {
    var Q := k.queues[q];
    var e := Q.sEmptyLots.value;
    var b := Q.sBuffer.value;
    var d := SemDown(k, Q.sBuffer);
    assert d == SemDownBody(k, b);
    var k2 := d.k.(queues := d.k.queues[q := ReadSlot(Q).1]);
    var k3 := SemUp(k2, Some(b)).k;
    assert k3.tasks == k.tasks && k3.sems[e] == k.sems[e];
    if SemReady(k, e) {
      UpKeepsCount(k3, e);
    }
  }

  /** A receiver blocked on an empty queue gets the next message sent: after
      the send, whatever else runs, as long as it leaves this queue and its
      semaphores alone, the oldest waiting receiver finishes its receive
      with `msg`. */
  lemma WaitingReceiverGetsMessage(k: Kernel, q: QueueRef, msg: Message, k': Kernel)
    requires ReceiversWait(k, q) && Usable(k, q, k.queues[q].sBuffer)
    requires k.tasks[k.current].ticks >= 0
    requires var c := MqSend(k, q, msg); var Q := k.queues[q];
      && q in k'.queues && k'.queues[q] == c.k.queues[q]
      && (forall r | r in [Q.sEmptyLots.value, Q.sBuffer.value, Q.sItems.value] :: r in k'.sems && k'.sems[r] == c.k.sems[r])
      && k'.tasks.Keys == c.k.tasks.Keys
      && k'.dispatcher in k'.tasks
      && k'.current == k.sems[Q.sItems.value].waiters.value[0]
      && k'.tasks[k'.current].ticks >= 0
    ensures Usable(k', q, k'.queues[q].sBuffer)
    ensures MqRecvFinish(k', q).MqReceived? && MqRecvFinish(k', q).msg == Some(msg)
  {
    SendHandsOff(k, q, msg);
    var Q := k.queues[q];
    assert Q.sEmptyLots.value in [Q.sEmptyLots.value, Q.sBuffer.value, Q.sItems.value];
    assert Q.sBuffer.value in [Q.sEmptyLots.value, Q.sBuffer.value, Q.sItems.value];
    assert Q.sItems.value in [Q.sEmptyLots.value, Q.sBuffer.value, Q.sItems.value];
    assert HandedOff(k', q, msg);
    HandOffDelivers(k', q, msg);
  }

  /** The corrected mqueue_msgs: the number of messages waiting to be read.
      While receivers wait the message count is below zero, and no message
      is waiting. */
  function MqCount(k: Kernel, q: QueueRef): (n: nat)
    requires q in k.queues && k.queues[q].sItems.Some? && k.queues[q].sItems.value in k.sems
  {
    if MqMsgs(k, q) < 0 then 0 else MqMsgs(k, q)
  }

  /** mqueue_msgs as written reports a negative number of messages: on a new
      queue, one blocked receive makes it -1, where no message is waiting and
      the corrected count is 0. */
  lemma MsgsNegativeWhileWaiting(k: Kernel, h: QueueRef, max: int, size: int, e: SemRef, b: SemRef, i: SemRef)
    requires max > 0
    requires e != b && b != i && e != i
    requires e !in k.sems && b !in k.sems && i !in k.sems
    requires k.current in k.tasks && k.dispatcher in k.tasks
    requires k.tasks[k.current].ticks >= 0
    ensures var k1 := MqCreate(k, Some(h), max, size, e, b, i).k;
      && Usable(k1, h, k1.queues[h].sItems)
      && var c := MqRecv(k1, h);
      && c.MqBlocked?
      && MqMsgs(c.k, h) == -1
      && MqCount(c.k, h) == 0
  {
    var k1 := MqCreate(k, Some(h), max, size, e, b, i).k;
    RecvJoinsWaiters(k1, h);
  }

  /** The corrected count is the number of messages waiting: the length of
      the window of a queue holding messages, 0 while receivers wait; the
      as-written count is then minus the number of waiting receivers. */
  lemma CountIsMessagesWaiting(k: Kernel, q: QueueRef)
    requires FifoInv(k, q) || ReceiversWait(k, q)
    ensures FifoInv(k, q) ==> MqCount(k, q) == |Contents(k, q)|
    ensures ReceiversWait(k, q) ==>
      && MqCount(k, q) == 0
      && MqMsgs(k, q) == -|k.sems[k.queues[q].sItems.value].waiters.value|
  {
  }

  /** The send that mqueue_send's own trace messages announce (a down on the
      free-slot semaphore, then a down on the buffer guard): wait for a free
      slot, then take the buffer guard, write the slot under the write cursor, release the
      guard and up the message count. This is the remainder once the caller
      holds a free slot, either at once or after being woken. */
  function BoundedSendFinish(k: Kernel, q: QueueRef, msg: Message): (c: MqCall)
    requires q in k.queues && Usable(k, q, k.queues[q].sBuffer)
    requires k.tasks[k.current].ticks >= 0
  {
    var Q := k.queues[q];
    match SemDown(k, Q.sBuffer)
    case SemPreempted(k1) => MqPreempted(k1)
    case SemBlocked(k1) => MqBlocked(k1)
    case SemReturned(k1, code) =>
      if code == -1 then MqReturned(k1, -1)
      else
        var k2 := k1.(queues := k1.queues[q := WriteSlot(Q, msg)]);
        var k3 := SemUp(k2, Q.sBuffer).k;
        var up := SemUp(k3, Q.sItems);
        if up.code == -1 then MqReturned(up.k, -1)
        else MqReturned(up.k, if Q.sEmptyLots.Some? then 0 else -1)
  }

  /** The corrected mqueue_send: down the free-slot count first, which blocks
      the caller while the queue is full. */
  function MqSendBounded(k: Kernel, q: QueueRef, msg: Message): (c: MqCall)
    requires q in k.queues && Usable(k, q, k.queues[q].sEmptyLots)
  {
    var Q := k.queues[q];
    match SemDown(k, Q.sEmptyLots)
    case SemPreempted(k1) => MqPreempted(k1)
    case SemBlocked(k1) => MqBlocked(k1)
    case SemReturned(k1, code) =>
      if code == -1 then MqReturned(k1, -1)
      else BoundedSendFinish(k1, q, msg)
  }

  /** A queue with no blocked sender under the corrected send: the window, a
      free-slot count that is the room left, and a buffer guard at 1. */
  predicate BoundedInv(k: Kernel, q: QueueRef)
  {
    && FifoInv(k, q)
    && var Q := k.queues[q];
    && SemReady(k, Q.sEmptyLots.value)
    && k.sems[Q.sEmptyLots.value].counter == Q.maxMsgs - MqMsgs(k, q)
    && k.sems[Q.sBuffer.value].counter == 1
  }

  /** The free slots a free-slot counter shows: none once it is at or below
      zero, where minus the counter is the number of blocked senders. */
  function FreeSlots(s: Semaphore): nat
  {
    if s.counter >= 0 then s.counter else 0
  }

  /** The corrected send's books with `p` woken senders that hold a slot but
      have not yet written it: free slots, waiting messages and those `p`
      promised slots add up to the capacity. The queue holds its messages
      in a window, or has receivers waiting; the buffer guard is at 1. */
  predicate Accounted(k: Kernel, q: QueueRef, p: nat)
  {
    && (FifoInv(k, q) || ReceiversWait(k, q))
    && var Q := k.queues[q];
    && SemReady(k, Q.sEmptyLots.value)
    && k.sems[Q.sBuffer.value].counter == 1
    && FreeSlots(k.sems[Q.sEmptyLots.value]) + MqCount(k, q) + p == Q.maxMsgs
  }

  /** The queue states the corrected send and the receive keep between
      calls when no woken sender is still to write: room left, a full queue
      with senders blocked, or an empty one with receivers blocked. */
  predicate BoundedQueue(k: Kernel, q: QueueRef)
  {
    Accounted(k, q, 0)
  }

  /** Under the corrected send the count of messages waiting stays within
      [0, capacity] less the slots woken senders hold; senders are blocked
      only when no slot is left, receivers only when no message is waiting;
      and the as-written count never falls below minus the number of
      waiting receivers. */
  lemma BoundedCount(k: Kernel, q: QueueRef, p: nat)
    requires Accounted(k, q, p)
    ensures 0 <= MqCount(k, q) && MqCount(k, q) + p <= k.queues[q].maxMsgs
    ensures k.sems[k.queues[q].sEmptyLots.value].taskCounter > 0 ==> MqCount(k, q) + p == k.queues[q].maxMsgs
    ensures k.sems[k.queues[q].sItems.value].taskCounter > 0 ==> MqCount(k, q) == 0
    ensures MqMsgs(k, q) >= -|k.sems[k.queues[q].sItems.value].waiters.value|
    ensures FifoInv(k, q) ==> MqCount(k, q) == |Contents(k, q)|
  {
  }

  /** A new queue satisfies the corrected send's invariant. */
  lemma CreateStartsBounded(k: Kernel, h: QueueRef, max: int, size: int, e: SemRef, b: SemRef, i: SemRef)
    requires max > 0
    requires e != b && b != i && e != i
    requires e !in k.sems && b !in k.sems && i !in k.sems
    ensures var k1 := MqCreate(k, Some(h), max, size, e, b, i).k;
      BoundedInv(k1, h) && BoundedQueue(k1, h) && Contents(k1, h) == []
  {
  }

  /** Corrected send into a queue with room: returns 0, appends the message
      and keeps the invariant. */
  lemma BoundedSendAppends(k: Kernel, q: QueueRef, msg: Message)
    requires BoundedInv(k, q) && Usable(k, q, k.queues[q].sEmptyLots)
    requires k.tasks[k.current].ticks >= 0
    requires MqMsgs(k, q) < k.queues[q].maxMsgs
    ensures var c := MqSendBounded(k, q, msg);
      && c.MqReturned? && c.code == 0
      && BoundedInv(c.k, q)
      && Contents(c.k, q) == Contents(k, q) + [Some(msg)]
  {
    var Q := k.queues[q];
    var e := Q.sEmptyLots.value;
    var b := Q.sBuffer.value;
    var i := Q.sItems.value;
    var d := SemDown(k, Q.sEmptyLots);
    assert d == SemDownBody(k, e);
    var k1 := d.k;
    assert k1.tasks == k.tasks && k1.queues == k.queues && k1.sems[b] == k.sems[b] && k1.sems[i] == k.sems[i];
    assert QueueOk(k1, Q);
    var d2 := SemDown(k1, Q.sBuffer);
    assert d2 == SemDownBody(k1, b);
    var k2 := d2.k.(queues := d2.k.queues[q := WriteSlot(Q, msg)]);
    var k3 := SemUp(k2, Q.sBuffer).k;
    assert k3.tasks == k.tasks && k3.sems[i] == k.sems[i];
    UpKeepsCount(k3, i);
    WindowPush(Q.buffer.value, Q.currentItem, MqMsgs(k, q), Some(msg));
  }

  /** Corrected send into a full queue: the caller blocks on the free-slot
      count, at the tail of its wait roster, and the messages are untouched. */
  lemma BoundedSendBlocksWhenFull(k: Kernel, q: QueueRef, msg: Message)
    requires BoundedInv(k, q) && Usable(k, q, k.queues[q].sEmptyLots)
    requires k.tasks[k.current].ticks >= 0
    requires MqMsgs(k, q) == k.queues[q].maxMsgs
    ensures var c := MqSendBounded(k, q, msg); var e := k.queues[q].sEmptyLots.value;
      && c.MqBlocked?
      && c.k.queues == k.queues
      && c.k.sems[e].waiters == Some(k.sems[e].waiters.value + [k.current])
      && c.k.ready == Remove(k.ready, k.current)
      && c.k.tasks[k.current].status == Suspended
  {
    assert SemDown(k, k.queues[q].sEmptyLots) == SemDownBody(k, k.queues[q].sEmptyLots.value);
  }

  /** A receive keeps the corrected send's invariant: the oldest message
      leaves and its slot becomes free. */
  lemma RecvKeepsBounded(k: Kernel, q: QueueRef)
    requires BoundedInv(k, q) && Usable(k, q, k.queues[q].sItems)
    requires k.tasks[k.current].ticks >= 0
    requires MqMsgs(k, q) > 0
    ensures var c := MqRecv(k, q);
      && c.MqReceived?
      && c.msg == Contents(k, q)[0]
      && BoundedInv(c.k, q)
      && Contents(c.k, q) == Contents(k, q)[1..]
  {
    RecvPops(k, q);
    RecvReadsHead(k, q);
  }

  /** mqueue_destroy releases every task blocked on the queue's semaphores
      (buffer guard, free slots, messages, in that order) to the tail of the
      ready roster, leaves the queue without semaphores or buffer, and turns
      preemption on. */
  lemma DestroyReleasesQueue(k: Kernel, q: QueueRef)
    requires q in k.queues && DestroyOk(k, k.queues[q])
    ensures var c := MqDestroy(k, q); var Q := k.queues[q];
      var wb := k.sems[Q.sBuffer.value].waiters.value;
      var we := k.sems[Q.sEmptyLots.value].waiters.value;
      var wi := k.sems[Q.sItems.value].waiters.value;
      && c.MqReturned? && c.code == 0
      && c.k.canPreempt
      && q in c.k.queues && Gone(c.k.queues[q])
      && c.k.ready == k.ready + wb + we + wi
      && c.k.tasks.Keys == k.tasks.Keys
      && (forall x | x in wb + we + wi :: c.k.tasks[x].status == Running)
      && (forall x | x in k.tasks && x !in wb + we + wi :: c.k.tasks[x] == k.tasks[x])
  {
    var Q := k.queues[q];
    var k1 := k.(canPreempt := false);
    var k4 := SemDestroy(SemDestroy(SemDestroy(k1, Q.sBuffer.value), Q.sEmptyLots.value), Q.sItems.value);
    DestroyThreeReleases(k1, Q.sBuffer.value, Q.sEmptyLots.value, Q.sItems.value);
    var Q' := Q.(sBuffer := None, sEmptyLots := None, sItems := None, buffer := None);
    assert MqDestroy(k, q) == MqReturned(k4.(queues := k4.queues[q := Q'], canPreempt := true), 0);
  }

  /** Destroying three tracked semaphores in turn readies the waiters of the
      first, then of the second, then of the third, and touches no other
      task. */
  lemma DestroyThreeReleases(k: Kernel, b: SemRef, e: SemRef, i: SemRef)
    requires SemTracked(k, b) && SemTracked(k, e) && SemTracked(k, i)
    requires b != e && b != i && e != i
    ensures var k4 := SemDestroy(SemDestroy(SemDestroy(k, b), e), i);
      var wb := k.sems[b].waiters.value;
      var we := k.sems[e].waiters.value;
      var wi := k.sems[i].waiters.value;
      && k4.ready == k.ready + wb + we + wi
      && k4.tasks.Keys == k.tasks.Keys
      && k4.canPreempt == k.canPreempt
      && (forall x | x in wb + we + wi :: k4.tasks[x].status == Running)
      && (forall x | x in k.tasks && x !in wb + we + wi :: k4.tasks[x] == k.tasks[x])
  {
    var wb := k.sems[b].waiters.value;
    var we := k.sems[e].waiters.value;
    var wi := k.sems[i].waiters.value;
    DestroyReleasesAll(k, b);
    var k2 := SemDestroy(k, b);
    DestroyKeepsReady(k, b, e);
    DestroyKeepsReady(k, b, i);
    assert k2.sems[e] == k.sems[e] && k2.sems[i] == k.sems[i];
    DestroyReleasesAll(k2, e);
    var k3 := SemDestroy(k2, e);
    DestroyKeepsReady(k2, e, i);
    assert k3.sems[i] == k.sems[i];
    DestroyReleasesAll(k3, i);
    var k4 := SemDestroy(k3, i);
    assert k4.ready == k.ready + wb + we + wi;
    forall x | x in wb + we + wi
      ensures k4.tasks[x].status == Running
    {
      if x in wi {
      } else if x in we {
        assert k3.tasks[x].status == Running;
      } else {
        assert k2.tasks[x].status == Running;
      }
    }
    forall x | x in k.tasks && x !in wb + we + wi
      ensures k4.tasks[x] == k.tasks[x]
    {
      assert k2.tasks[x] == k.tasks[x] && k3.tasks[x] == k.tasks[x];
    }
  }

  /** Once a queue is destroyed, a send or a receive returns -1, and so does a
      receiver woken by the destroy when it goes on. */
  lemma GoneQueueRefuses(k: Kernel, q: QueueRef, msg: Message)
    requires q in k.queues && Gone(k.queues[q])
    requires k.current in k.tasks && k.dispatcher in k.tasks
    requires k.tasks[k.current].ticks >= 0
    ensures MqSend(k, q, msg) == MqReturned(k, -1)
    ensures MqRecv(k, q) == MqReturned(k, -1)
    ensures MqRecvFinish(k, q) == MqReturned(k, -1)
  {
  }

  /** Under the corrected send a receive on an empty queue blocks and keeps
      the bound. */
  lemma RecvWaitsBounded(k: Kernel, q: QueueRef, p: nat)
    requires Accounted(k, q, p) && MqMsgs(k, q) <= 0
    requires Usable(k, q, k.queues[q].sItems)
    requires k.tasks[k.current].ticks >= 0
    ensures MqRecv(k, q).MqBlocked?
    ensures Accounted(MqRecv(k, q).k, q, p)
  {
    RecvJoinsWaiters(k, q);
  }

  /** The corrected send with receivers waiting takes a free slot and hands
      the message to the oldest waiting receiver, which is made ready. */
  lemma BoundedSendHandsOff(k: Kernel, q: QueueRef, msg: Message)
    requires BoundedQueue(k, q) && MqMsgs(k, q) < 0
    requires Usable(k, q, k.queues[q].sEmptyLots)
    requires k.tasks[k.current].ticks >= 0
    ensures var c := MqSendBounded(k, q, msg); var Q := k.queues[q];
      var e := Q.sEmptyLots.value; var i := Q.sItems.value;
      var w := k.sems[i].waiters.value;
      && c.MqReturned? && c.code == 0
      && |w| > 0
      && c.k.ready == k.ready + [w[0]]
      && c.k.tasks[w[0]].status == Running
      && HandedOff(c.k, q, msg)
      && SemReady(c.k, e)
      && c.k.sems[e].counter == Q.maxMsgs - 1
      && c.k.sems[Q.sBuffer.value].counter == 1
  {
    var Q := k.queues[q];
    var e := Q.sEmptyLots.value;
    var b := Q.sBuffer.value;
    var i := Q.sItems.value;
    var d := SemDown(k, Q.sEmptyLots);
    assert d == SemDownBody(k, e);
    var k1 := d.k;
    assert k1.tasks == k.tasks && k1.queues == k.queues && k1.sems[b] == k.sems[b] && k1.sems[i] == k.sems[i];
    assert QueueOk(k1, Q);
    var d2 := SemDown(k1, Q.sBuffer);
    assert d2 == SemDownBody(k1, b);
    var k2 := d2.k.(queues := d2.k.queues[q := WriteSlot(Q, msg)]);
    var k3 := SemUp(k2, Q.sBuffer).k;
    assert k3.tasks == k.tasks && k3.sems[i] == k.sems[i] && k3.sems[e] == k1.sems[e];
    UpKeepsCount(k3, i);
  }

  /** The woken receiver finishes with the handed-off message and gives the
      slot back, so the bound holds again. */
  lemma BoundedHandOffDelivers(k: Kernel, q: QueueRef, msg: Message)
    requires HandedOff(k, q, msg) && Usable(k, q, k.queues[q].sBuffer)
    requires k.tasks[k.current].ticks >= 0
    requires var Q := k.queues[q];
      && SemReady(k, Q.sEmptyLots.value)
      && k.sems[Q.sEmptyLots.value].counter == Q.maxMsgs - 1
      && k.sems[Q.sBuffer.value].counter == 1
    ensures var c := MqRecvFinish(k, q);
      && c.MqReceived? && c.msg == Some(msg)
      && BoundedQueue(c.k, q)
  {
    HandOffDelivers(k, q, msg);
  }

  /** A receive from a queue holding messages, under the corrected send: the
      oldest message leaves, and its slot goes to the oldest blocked sender,
      which is woken holding it, or else counts as free. */
  lemma AccountedRecvPops(k: Kernel, q: QueueRef, p: nat)
    requires Accounted(k, q, p) && MqMsgs(k, q) > 0
    requires Usable(k, q, k.queues[q].sItems)
    requires k.tasks[k.current].ticks >= 0
    ensures var c := MqRecv(k, q); var e := k.queues[q].sEmptyLots.value;
      var w := k.sems[e].waiters.value;
      && c.MqReceived? && c.msg == Contents(k, q)[0]
      && FifoInv(c.k, q) && Contents(c.k, q) == Contents(k, q)[1..]
      && (k.sems[e].taskCounter > 0 ==>
            && c.k.ready == k.ready + [w[0]]
            && c.k.tasks[w[0]].status == Running
            && Accounted(c.k, q, p + 1))
      && (k.sems[e].taskCounter == 0 ==> Accounted(c.k, q, p))
  {
    RecvPops(k, q);
    RecvReadsHead(k, q);
  }

  /** The corrected send with no slot free blocks the caller at the tail of
      the free-slot count's wait roster and keeps the books. */
  lemma AccountedSendBlocks(k: Kernel, q: QueueRef, msg: Message, p: nat)
    requires Accounted(k, q, p) && k.sems[k.queues[q].sEmptyLots.value].counter <= 0
    requires Usable(k, q, k.queues[q].sEmptyLots)
    requires k.tasks[k.current].ticks >= 0
    ensures var c := MqSendBounded(k, q, msg); var e := k.queues[q].sEmptyLots.value;
      && c.MqBlocked?
      && c.k.queues == k.queues
      && c.k.sems[e].waiters == Some(k.sems[e].waiters.value + [k.current])
      && c.k.tasks[k.current].status == Suspended
      && Accounted(c.k, q, p)
      && (FifoInv(k, q) ==> Contents(c.k, q) == Contents(k, q))
  {
    var e := k.queues[q].sEmptyLots.value;
    assert SemDown(k, k.queues[q].sEmptyLots) == SemDownBody(k, e);
    DownKeepsCount(k, e);
  }

  /** The corrected send with a slot free takes it and goes on as a sender
      holding one slot more. */
  lemma SendTakesSlot(k: Kernel, q: QueueRef, msg: Message, p: nat)
    requires Accounted(k, q, p) && k.sems[k.queues[q].sEmptyLots.value].counter > 0
    requires Usable(k, q, k.queues[q].sEmptyLots)
    requires k.tasks[k.current].ticks >= 0
    ensures var e := k.queues[q].sEmptyLots.value;
      var k1 := k.(canPreempt := true, sems := k.sems[e := k.sems[e].(counter := k.sems[e].counter - 1)]);
      && Accounted(k1, q, p + 1)
      && Usable(k1, q, k1.queues[q].sBuffer)
      && k1.tasks[k1.current].ticks >= 0
      && MqSendBounded(k, q, msg) == BoundedSendFinish(k1, q, msg)
      && (FifoInv(k, q) ==> Contents(k1, q) == Contents(k, q))
  {
    var e := k.queues[q].sEmptyLots.value;
    assert SemDown(k, k.queues[q].sEmptyLots) == SemDownBody(k, e);
    DownKeepsCount(k, e);
  }

  /** A sender holding a slot finishes into a queue holding messages: it
      appends its message and gives up its hold. */
  lemma WokenSenderAppends(k: Kernel, q: QueueRef, msg: Message, p: nat)
    requires Accounted(k, q, p) && p >= 1 && MqMsgs(k, q) >= 0
    requires Usable(k, q, k.queues[q].sBuffer)
    requires k.tasks[k.current].ticks >= 0
    ensures var c := BoundedSendFinish(k, q, msg);
      && c.MqReturned? && c.code == 0
      && FifoInv(c.k, q)
      && Contents(c.k, q) == Contents(k, q) + [Some(msg)]
      && Accounted(c.k, q, p - 1)
  {
    var Q := k.queues[q];
    var e := Q.sEmptyLots.value;
    var b := Q.sBuffer.value;
    var i := Q.sItems.value;
    var d := SemDown(k, Q.sBuffer);
    assert d == SemDownBody(k, b);
    var k2 := d.k.(queues := d.k.queues[q := WriteSlot(Q, msg)]);
    var k3 := SemUp(k2, Q.sBuffer).k;
    assert k3.tasks == k.tasks && k3.sems[i] == k.sems[i] && k3.sems[e] == k.sems[e];
    UpKeepsCount(k3, i);
    WindowPush(Q.buffer.value, Q.currentItem, MqMsgs(k, q), Some(msg));
  }

  /** A hand-off in flight under the corrected send: the woken receiver's
      message counts as a promised slot. */
  predicate HandOffAccounted(k: Kernel, q: QueueRef, msg: Message, p: nat)
  {
    && HandedOff(k, q, msg)
    && var Q := k.queues[q];
    && SemReady(k, Q.sEmptyLots.value)
    && k.sems[Q.sBuffer.value].counter == 1
    && FreeSlots(k.sems[Q.sEmptyLots.value]) + p + 1 == Q.maxMsgs
  }

  /** A sender holding a slot finishes into a queue with receivers waiting:
      it hands its message to the oldest of them, which is made ready. */
  lemma WokenSenderHandsOff(k: Kernel, q: QueueRef, msg: Message, p: nat)
    requires Accounted(k, q, p) && p >= 1 && MqMsgs(k, q) < 0
    requires Usable(k, q, k.queues[q].sBuffer)
    requires k.tasks[k.current].ticks >= 0
    ensures var c := BoundedSendFinish(k, q, msg); var w := k.sems[k.queues[q].sItems.value].waiters.value;
      && c.MqReturned? && c.code == 0
      && |w| > 0
      && c.k.ready == k.ready + [w[0]]
      && c.k.tasks[w[0]].status == Running
      && HandOffAccounted(c.k, q, msg, p - 1)
  {
    var Q := k.queues[q];
    var e := Q.sEmptyLots.value;
    var b := Q.sBuffer.value;
    var i := Q.sItems.value;
    var d := SemDown(k, Q.sBuffer);
    assert d == SemDownBody(k, b);
    var k2 := d.k.(queues := d.k.queues[q := WriteSlot(Q, msg)]);
    var k3 := SemUp(k2, Q.sBuffer).k;
    assert k3.tasks == k.tasks && k3.sems[i] == k.sems[i] && k3.sems[e] == k.sems[e];
    UpKeepsCount(k3, i);
  }

  /** The woken receiver finishes with the handed-off message and frees its
      slot, which goes to the oldest blocked sender if there is one. */
  lemma HandOffAccountedDelivers(k: Kernel, q: QueueRef, msg: Message, p: nat)
    requires HandOffAccounted(k, q, msg, p) && Usable(k, q, k.queues[q].sBuffer)
    requires k.tasks[k.current].ticks >= 0
    ensures var c := MqRecvFinish(k, q); var e := k.queues[q].sEmptyLots.value;
      && c.MqReceived? && c.msg == Some(msg)
      && Accounted(c.k, q, if k.sems[e].taskCounter > 0 then p + 1 else p)
  {
    HandOffDelivers(k, q, msg);
  }
}
