/**
 The fields of the server context that the master and the workers share under thr_mutex, and what
 each critical section does to them.  A critical section that has to wait on a condition variable
 ends where the wait releases the mutex; the re-test after the wait is a section of its own.
 */
module Context {
  import opened Common

  const CAPACITY := 20

  type Socket = nat

  /** The shared fields as a value. */
  datatype Shared = Shared(
    slots: seq<Socket>, head: int, tail: int,
    numThreads: int, numIdle: int, maxThreads: nat, stopFlag: int)

  predicate RingOk(c: Shared) {
    |c.slots| == CAPACITY && 0 <= c.tail <= CAPACITY && c.tail <= c.head <= c.tail + CAPACITY
  }

  /** The slot of the socket that has i older ones before it. */
  function SlotOf(tail: nat, i: nat): nat {
    (tail + i) % CAPACITY
  }

  /** The queued sockets, oldest first. */
  function Queued(c: Shared): (q: seq<Socket>)
    requires RingOk(c)
    ensures |q| == c.head - c.tail
  {
    seq(c.head - c.tail, i requires 0 <= i < c.head - c.tail => c.slots[SlotOf(c.tail, i)])
  }

  /** Both pointers moved back by the ring size until the tail is inside. */
  function Wrapped(c: Shared): Shared
    decreases c.tail
  {
    if c.tail > CAPACITY then Wrapped(c.(head := c.head - CAPACITY, tail := c.tail - CAPACITY)) else c
  }

  /** get_socket once the mutex is held: take a socket, or nothing if the queue is empty. */
  function TakeOrWait(c: Shared): (r: (Shared, Option<Socket>))
    requires RingOk(c)
  {
    if c.head == c.tail then (c, None) else
    (Wrapped(c.(numIdle := c.numIdle - 1, tail := c.tail + 1)), Some(c.slots[c.tail % CAPACITY]))
  }

  /** put_socket once the mutex is held; no slot, no change. */
  function PutOrWait(c: Shared, sp: Socket, starts: bool): (r: Option<Shared>)
    requires RingOk(c)
  {
    if c.head - c.tail >= CAPACITY then None else
    var threads := if MustStart(c) && starts then c.numThreads + 1 else c.numThreads;
    Some(c.(slots := c.slots[c.head % CAPACITY := sp], head := c.head + 1, numThreads := threads))
  }

  predicate MustStart(c: Shared) {
    c.numIdle == 0 && c.numThreads < c.maxThreads
  }

  lemma DistinctSlots(from: nat, i: nat, j: nat)
    requires i < j < i + CAPACITY
    ensures SlotOf(from, i) != SlotOf(from, j)
  {
  }

  /** A put appends to the queue. */
  lemma PutAppends(c: Shared, sp: Socket, starts: bool)
    requires RingOk(c) && PutOrWait(c, sp, starts).Some?
    ensures RingOk(PutOrWait(c, sp, starts).value)
    ensures Queued(PutOrWait(c, sp, starts).value) == Queued(c) + [sp]
  {
    var n := c.head - c.tail;
    forall i | 0 <= i < n
      ensures SlotOf(c.tail, i) != SlotOf(c.tail, n)
    {
      DistinctSlots(c.tail, i, n);
    }
  }

  /** A put has to wait exactly when twenty sockets are queued. */
  lemma PutWaitsWhenFull(c: Shared, sp: Socket, starts: bool)
    requires RingOk(c)
    ensures PutOrWait(c, sp, starts) == None <==> |Queued(c)| == 20
  {
  }

  /** Wrapping the pointers keeps every live slot where it is read. */
  lemma WrapKeepsQueue(c: Shared)
    requires |c.slots| == CAPACITY && 0 <= c.tail <= CAPACITY + 1 && c.tail <= c.head <= c.tail + CAPACITY
    ensures RingOk(Wrapped(c)) && Wrapped(c).head - Wrapped(c).tail == c.head - c.tail
    ensures Wrapped(c) == c.(head := Wrapped(c).head, tail := Wrapped(c).tail)
    ensures Wrapped(c).tail == if c.tail > 20 then c.tail - 20 else c.tail
    ensures forall i :: 0 <= i < c.head - c.tail ==> Queued(Wrapped(c))[i] == c.slots[SlotOf(c.tail, i)]
  {
  }

  /** A take removes the oldest socket of the queue. */
  lemma TakeRemovesOldest(c: Shared)
    requires RingOk(c) && c.head != c.tail
    ensures var (c', got) := TakeOrWait(c);
            RingOk(c') && got.Some? && Queued(c) == [got.value] + Queued(c')
    ensures var (c', _) := TakeOrWait(c);
            c' == c.(numIdle := c.numIdle - 1, head := c'.head, tail := c'.tail)
  {
    WrapKeepsQueue(c.(numIdle := c.numIdle - 1, tail := c.tail + 1));
  }

  /** What put_socket did under the mutex. */
  datatype PutOutcome = MustWait | Stored(started: bool)

  class ServerContext {
    const queue: array<Socket>
    const maxThreads: nat
    var sqHead: int
    var sqTail: int
    var numThreads: int
    var numIdle: int
    var stopFlag: int

    function View(): Shared
      reads this, queue
    {
      Shared(queue[..], sqHead, sqTail, numThreads, numIdle, maxThreads, stopFlag)
    }

    ghost predicate Valid()
      reads this, queue
    {
      RingOk(View())
    }

    constructor (maxThreads: nat)
      ensures Valid() && fresh(queue) && Queued(View()) == []
      ensures this.maxThreads == maxThreads && numThreads == 0 && numIdle == 0 && stopFlag == 0
    {
      queue := new Socket[CAPACITY];
      this.maxThreads := maxThreads;
      sqHead, sqTail, numThreads, numIdle, stopFlag := 0, 0, 0, 0, 0;
    }

    /** The loop test of get_socket and what follows it when there is a socket. */
    method Take() returns (got: Option<Socket>)
      requires Valid()
      modifies this
      ensures Valid() && (View(), got) == TakeOrWait(old(View()))
    {
      if sqHead == sqTail {
        return None;
      }
      assert sqHead > sqTail;
      TakeRemovesOldest(View());
      numIdle := numIdle - 1;
      got := Some(queue[sqTail % CAPACITY]);
      sqTail := sqTail + 1;
      ghost var advanced := View();
      while sqTail > CAPACITY
        invariant Wrapped(View()) == Wrapped(advanced)
        decreases sqTail
      {
        sqTail := sqTail - CAPACITY;
        sqHead := sqHead - CAPACITY;
      }
    }

    /** get_socket from its lock to its first wait or its return. */
    method EnterGetSocket() returns (got: Option<Socket>)
      requires Valid()
      modifies this
      ensures Valid() && (View(), got) == TakeOrWait(old(View()).(numIdle := old(numIdle) + 1))
    {
      numIdle := numIdle + 1;
      got := Take();
    }

    /** put_socket from its lock, or from a wake-up, to its wait or its unlock. */
    method Put(sp: Socket, threadStarts: bool) returns (outcome: PutOutcome)
      requires Valid()
      modifies this, queue
      ensures Valid()
      ensures match PutOrWait(old(View()), sp, threadStarts)
              case None => outcome == MustWait && View() == old(View())
              case Some(c) => outcome == Stored(MustStart(old(View())) && threadStarts) && View() == c
    {
      if sqHead - sqTail >= CAPACITY {
        return MustWait;
      }
      assert sqHead - sqTail < CAPACITY;
      queue[sqHead % CAPACITY] := sp;
      sqHead := sqHead + 1;
      var started := false;
      if numIdle == 0 && numThreads < maxThreads {
        if threadStarts {
          started := true;
          numThreads := numThreads + 1;
        }
      }
      outcome := Stored(started);
    }

    /** The exit section of worker_thread. */
    method LeaveThread()
      requires Valid()
      modifies this
      ensures Valid() && View() == old(View()).(numThreads := old(numThreads) - 1, numIdle := old(numIdle) - 1)
    {
      numThreads := numThreads - 1;
      numIdle := numIdle - 1;
    }
  }
}
