/**
 The master and its workers as a state machine.  Every step is one critical section of thr_mutex, a
 wake-up, a timeout, or an unlocked write of stop_flag.  A condition variable wakes one waiter when
 it is signalled and may wake any waiter spuriously; a waiter that was woken does not time out.
 */
module WorkerPool {
  import opened Common
  import opened Context

  datatype Worker = Starting | Waiting | Signalled | Busy | TimedOut | Gone

  /** Where the master is: in its accept loop, in put_socket's wait, in mg_fini's wait, or past it. */
  datatype Master =
    | Serving
    | PutWaiting(sp: Socket)
    | PutSignalled(sp: Socket)
    | FiniWaiting
    | FiniSignalled
    | FiniPassed
    | Done

  /** enqueued and dequeued are the sockets in the order their critical sections ran. */
  datatype State = State(
    ctx: Shared, workers: seq<Worker>, master: Master,
    enqueued: seq<Socket>, dequeued: seq<Socket>)

  datatype Step =
    | Accept(sp: Socket, starts: bool, woken: nat)
    | PutWakes(starts: bool, woken: nat)
    | MasterSpuriousWake
    | GetSocket(w: nat)
    | WorkerWakes(w: nat)
    | WorkerSpuriousWake(w: nat)
    | Timeout(w: nat)
    | Exit(w: nat)
    | RequestStop
    | BeginFini
    | FiniWakes
    | FinishFini

  function Init(slots: seq<Socket>, maxThreads: nat): State
    requires |slots| == CAPACITY
  {
    State(Shared(slots, 0, 0, 0, 0, maxThreads, 0), [], Serving, [], [])
  }

  // What each step needs and does.

  predicate In(st: State, w: nat, s: Worker) {
    w < |st.workers| && st.workers[w] == s
  }

  /** A signal of empty_cond wakes a waiting worker if there is one. */
  predicate MayWake(workers: seq<Worker>, woken: nat) {
    Waiting in workers ==> woken < |workers| && workers[woken] == Waiting
  }

  predicate Enabled(st: State, step: Step) {
    match step
    case Accept(_, _, woken) => st.master.Serving? && MayWake(st.workers, woken)
    case PutWakes(_, woken) => st.master.PutSignalled? && MayWake(st.workers, woken)
    case MasterSpuriousWake => st.master.PutWaiting? || st.master.FiniWaiting?
    case GetSocket(w) => In(st, w, Starting) || In(st, w, Busy)
    case WorkerWakes(w) => In(st, w, Signalled)
    case WorkerSpuriousWake(w) => In(st, w, Waiting)
    case Timeout(w) => In(st, w, Waiting)
    case Exit(w) => In(st, w, TimedOut)
    case RequestStop => st.ctx.stopFlag == 0
    case BeginFini => st.master.Serving? && st.ctx.stopFlag != 0
    case FiniWakes => st.master.FiniSignalled?
    case FinishFini => st.master.FiniPassed?
  }

  function SignalEmpty(workers: seq<Worker>, woken: nat): seq<Worker>
    requires MayWake(workers, woken)
  {
    if Waiting in workers then workers[woken := Signalled] else workers
  }

  function PutWorkers(workers: seq<Worker>, woken: nat, started: bool): seq<Worker>
    requires MayWake(workers, woken)
  {
    if started then SignalEmpty(workers, woken) + [Starting] else SignalEmpty(workers, woken)
  }

  function SignalFull(m: Master): Master {
    match m
    case PutWaiting(sp) => PutSignalled(sp)
    case _ => m
  }

  function SignalThreads(m: Master): Master {
    if m.FiniWaiting? then FiniSignalled else m
  }

  function Put(st: State, sp: Socket, starts: bool, woken: nat): State
    requires RingOk(st.ctx) && MayWake(st.workers, woken)
  {
    match PutOrWait(st.ctx, sp, starts)
    case None => st.(master := PutWaiting(sp))
    case Some(c) =>
      State(c, PutWorkers(st.workers, woken, MustStart(st.ctx) && starts), Serving,
            st.enqueued + [sp], st.dequeued)
  }

  function Get(st: State, w: nat): State
    requires RingOk(st.ctx) && w < |st.workers|
  {
    var (c, got) := TakeOrWait(st.ctx);
    match got
    case None => st.(workers := st.workers[w := Waiting])
    case Some(sp) => State(c, st.workers[w := Busy], SignalFull(st.master), st.enqueued, st.dequeued + [sp])
  }

  function FiniTest(st: State): State {
    st.(master := if st.ctx.numThreads > 0 then FiniWaiting else FiniPassed)
  }

  function Apply(st: State, step: Step): State
    requires RingOk(st.ctx) && Enabled(st, step)
  {
    match step
    case Accept(sp, starts, woken) => Put(st, sp, starts, woken)
    case PutWakes(starts, woken) => Put(st, st.master.sp, starts, woken)
    case MasterSpuriousWake => st.(master := SignalThreads(SignalFull(st.master)))
    case GetSocket(w) => Get(st.(ctx := st.ctx.(numIdle := st.ctx.numIdle + 1)), w)
    case WorkerWakes(w) => Get(st, w)
    case WorkerSpuriousWake(w) => st.(workers := st.workers[w := Signalled])
    case Timeout(w) => st.(workers := st.workers[w := TimedOut])
    case Exit(w) =>
      st.(ctx := st.ctx.(numThreads := st.ctx.numThreads - 1, numIdle := st.ctx.numIdle - 1),
          workers := st.workers[w := Gone], master := SignalThreads(st.master))
    case RequestStop => st.(ctx := st.ctx.(stopFlag := 1))
    case BeginFini => FiniTest(st)
    case FiniWakes => FiniTest(st)
    case FinishFini => st.(ctx := st.ctx.(stopFlag := 2), master := Done)
  }

  // The invariant of every run.

  function Count(st: State, s: Worker): nat {
    multiset(st.workers)[s]
  }

  /** The counters: live workers, and those inside get_socket's idle stretch. */
  predicate CountersOk(st: State) {
    && st.ctx.numIdle == Count(st, Waiting) + Count(st, Signalled) + Count(st, TimedOut)
    && st.ctx.numThreads == st.ctx.numIdle + Count(st, Starting) + Count(st, Busy)
    && st.ctx.numThreads <= st.ctx.maxThreads
  }

  /** Nobody waits for what is already there. */
  predicate NoLostWakeUp(st: State)
    requires RingOk(st.ctx)
  {
    && (Count(st, Waiting) > 0 ==> |Queued(st.ctx)| <= Count(st, Signalled))
    && (st.master.PutWaiting? ==> |Queued(st.ctx)| == CAPACITY)
    && (st.master.FiniWaiting? ==> st.ctx.numThreads > 0)
  }

  predicate InFini(st: State) {
    st.master.FiniWaiting? || st.master.FiniSignalled? || st.master.FiniPassed? || st.master.Done?
  }

  predicate ShutdownOk(st: State) {
    && (st.ctx.stopFlag == 2 <==> st.master.Done?)
    && (InFini(st) ==> st.ctx.stopFlag != 0)
    && (st.master.FiniPassed? || st.master.Done? ==> st.ctx.numThreads == 0)
  }

  predicate Inv(st: State) {
    && RingOk(st.ctx)
    && st.enqueued == st.dequeued + Queued(st.ctx)
    && CountersOk(st)
    && NoLostWakeUp(st)
    && ShutdownOk(st)
  }

  lemma Moved(workers: seq<Worker>, w: nat, to: Worker)
    requires w < |workers|
    ensures forall s :: multiset(workers[w := to])[s] ==
                        multiset(workers)[s] - (if workers[w] == s then 1 else 0) + (if to == s then 1 else 0)
  {
    var rest := multiset(workers[..w] + workers[w + 1..]);
    assert workers == workers[..w] + [workers[w]] + workers[w + 1..];
    assert workers[w := to] == workers[..w] + [to] + workers[w + 1..];
  }

  lemma PutCounts(workers: seq<Worker>, woken: nat, started: bool)
    requires MayWake(workers, woken)
    ensures var signals := if multiset(workers)[Waiting] > 0 then 1 else 0;
            var after := multiset(PutWorkers(workers, woken, started));
            && after[Waiting] == multiset(workers)[Waiting] - signals
            && after[Signalled] == multiset(workers)[Signalled] + signals
            && after[Starting] == multiset(workers)[Starting] + (if started then 1 else 0)
            && after[Busy] == multiset(workers)[Busy] && after[TimedOut] == multiset(workers)[TimedOut]
  {
    var signalled := SignalEmpty(workers, woken);
    if Waiting in workers {
      Moved(workers, woken, Signalled);
    }
    if started {
      assert multiset(signalled + [Starting]) == multiset(signalled) + multiset{Starting};
    }
  }

  lemma PutKeepsInv(st: State, sp: Socket, starts: bool, woken: nat)
    requires Inv(st) && MayWake(st.workers, woken) && (st.master.Serving? || st.master.PutSignalled?)
    ensures Inv(Put(st, sp, starts, woken)) && Put(st, sp, starts, woken).ctx.maxThreads == st.ctx.maxThreads
  {
    hide Queued, MayWake, SignalEmpty, PutWorkers;
    if PutOrWait(st.ctx, sp, starts).Some? {
      PutAppends(st.ctx, sp, starts);
      PutCounts(st.workers, woken, MustStart(st.ctx) && starts);
    }
  }

  lemma SameQueue(a: Shared, b: Shared)
    requires RingOk(a) && b.slots == a.slots && b.head == a.head && b.tail == a.tail
    ensures Queued(a) == Queued(b)
  {
  }

  /** A worker holding the mutex in get_socket, counted as idle. */
  predicate AtQueue(st: State, w: nat, ctx: Shared) {
    && w < |st.workers|
    && match st.workers[w]
       case Signalled => ctx == st.ctx
       case Starting => ctx == st.ctx.(numIdle := st.ctx.numIdle + 1)
       case Busy => ctx == st.ctx.(numIdle := st.ctx.numIdle + 1)
       case _ => false
  }

  lemma WaitKeepsInv(st: State, w: nat, ctx: Shared)
    requires Inv(st) && AtQueue(st, w, ctx) && ctx.head == ctx.tail
    ensures Inv(Get(st.(ctx := ctx), w)) && Get(st.(ctx := ctx), w).ctx.maxThreads == ctx.maxThreads
  {
    hide Queued;
    Moved(st.workers, w, Waiting);
    SameQueue(st.ctx, ctx);
  }

  /** What a take leaves. */
  lemma Taken(st: State, w: nat, ctx: Shared)
    requires Inv(st) && AtQueue(st, w, ctx) && ctx.head != ctx.tail
    ensures var after := Get(st.(ctx := ctx), w);
            && RingOk(after.ctx) && after.workers == st.workers[w := Busy] && after.master == SignalFull(st.master)
            && after.ctx == ctx.(numIdle := ctx.numIdle - 1, head := after.ctx.head, tail := after.ctx.tail)
            && after.enqueued == after.dequeued + Queued(after.ctx) && |Queued(after.ctx)| == |Queued(st.ctx)| - 1
  {
    hide Queued, Wrapped, CountersOk, NoLostWakeUp, ShutdownOk;
    SameQueue(st.ctx, ctx);
    TakeRemovesOldest(ctx);
  }

  lemma TakeCounts(st: State, w: nat, ctx: Shared, after: State)
    requires CountersOk(st) && AtQueue(st, w, ctx) && after.workers == st.workers[w := Busy]
    requires after.ctx == ctx.(numIdle := ctx.numIdle - 1, head := after.ctx.head, tail := after.ctx.tail)
    ensures CountersOk(after)
    ensures Count(after, Waiting) == Count(st, Waiting)
    ensures Count(after, Signalled) >= Count(st, Signalled) - 1
  {
    Moved(st.workers, w, Busy);
  }

  lemma TakeKeepsInv(st: State, w: nat, ctx: Shared)
    requires Inv(st) && AtQueue(st, w, ctx) && ctx.head != ctx.tail
    ensures Inv(Get(st.(ctx := ctx), w)) && Get(st.(ctx := ctx), w).ctx.maxThreads == ctx.maxThreads
  {
    hide Queued, Get, CountersOk, Count;
    var after := Get(st.(ctx := ctx), w);
    Taken(st, w, ctx);
    TakeCounts(st, w, ctx, after);
  }

  /** The steps of a worker that leave the queue alone. */
  lemma MoveKeepsInv(st: State, w: nat, to: Worker)
    requires Inv(st) && In(st, w, Waiting) && (to == Signalled || to == TimedOut)
    ensures Inv(st.(workers := st.workers[w := to]))
  {
    hide Queued;
    Moved(st.workers, w, to);
  }

  lemma ExitKeepsInv(st: State, w: nat)
    requires Inv(st) && In(st, w, TimedOut)
    ensures Inv(Apply(st, Exit(w)))
  {
    hide Queued;
    Moved(st.workers, w, Gone);
    SameQueue(st.ctx, Apply(st, Exit(w)).ctx);
  }

  predicate MasterStep(step: Step) {
    step.MasterSpuriousWake? || step.RequestStop? || step.BeginFini? || step.FiniWakes? || step.FinishFini?
  }

  lemma MasterKeepsInv(st: State, step: Step)
    requires Inv(st) && Enabled(st, step)
    requires MasterStep(step)
    ensures Inv(Apply(st, step))
  {
    hide Queued;
    SameQueue(st.ctx, Apply(st, step).ctx);
  }

  lemma GetKeepsInv(st: State, w: nat, ctx: Shared)
    requires Inv(st) && AtQueue(st, w, ctx)
    ensures Inv(Get(st.(ctx := ctx), w)) && Get(st.(ctx := ctx), w).ctx.maxThreads == ctx.maxThreads
  {
    hide Inv, Get;
    if ctx.head == ctx.tail {
      WaitKeepsInv(st, w, ctx);
    } else {
      TakeKeepsInv(st, w, ctx);
    }
  }

  lemma StepKeepsInv(st: State, step: Step)
    requires Inv(st) && Enabled(st, step)
    ensures Inv(Apply(st, step)) && Apply(st, step).ctx.maxThreads == st.ctx.maxThreads
  {
    hide Inv, Put, Get;
    match step
    case Accept(sp, starts, woken) => PutKeepsInv(st, sp, starts, woken);
    case PutWakes(starts, woken) => PutKeepsInv(st, st.master.sp, starts, woken);
    case GetSocket(w) => GetKeepsInv(st, w, st.ctx.(numIdle := st.ctx.numIdle + 1));
    case WorkerWakes(w) => GetKeepsInv(st, w, st.ctx);
    case WorkerSpuriousWake(w) => MoveKeepsInv(st, w, Signalled);
    case Timeout(w) => MoveKeepsInv(st, w, TimedOut);
    case Exit(w) => ExitKeepsInv(st, w);
    case _ => MasterKeepsInv(st, step);
  }

  // Runs.

  predicate Legal(st: State, steps: seq<Step>)
    decreases |steps|
  {
    steps == [] || (RingOk(st.ctx) && Enabled(st, steps[0]) && Legal(Apply(st, steps[0]), steps[1..]))
  }

  function Run(st: State, steps: seq<Step>): State
    requires Legal(st, steps)
    decreases |steps|
  {
    if steps == [] then st else Run(Apply(st, steps[0]), steps[1..])
  }

  /** Every state of every run satisfies the invariant. */
  lemma {:induction false} RunKeepsInv(st: State, steps: seq<Step>)
    requires Inv(st) && Legal(st, steps)
    ensures Inv(Run(st, steps)) && Run(st, steps).ctx.maxThreads == st.ctx.maxThreads
    decreases |steps|
  {
    hide Inv, Apply;
    if steps != [] {
      StepKeepsInv(st, steps[0]);
      RunKeepsInv(Apply(st, steps[0]), steps[1..]);
    }
  }

  lemma InitSatisfiesInv(slots: seq<Socket>, maxThreads: nat)
    requires |slots| == CAPACITY
    ensures Inv(Init(slots, maxThreads))
  {
  }

  lemma {:induction false} LiveWorkers(workers: seq<Worker>)
    ensures var m := multiset(workers);
            m[Starting] + m[Busy] + m[Waiting] + m[Signalled] + m[TimedOut] + m[Gone] == |workers|
  {
    if workers != [] {
      LiveWorkers(workers[1..]);
      assert workers == [workers[0]] + workers[1..];
      var m, rest, w := multiset(workers), multiset(workers[1..]), workers[0];
      assert forall s :: m[s] == rest[s] + (if s == w then 1 else 0);
    }
  }

  /** The main safety theorem: what holds after any run from the start. */
  lemma Safety(slots: seq<Socket>, maxThreads: nat, steps: seq<Step>)
    requires |slots| == CAPACITY && Legal(Init(slots, maxThreads), steps)
    ensures var st := Run(Init(slots, maxThreads), steps);
            // the ring
            && RingOk(st.ctx) && st.dequeued <= st.enqueued
            && st.enqueued[|st.dequeued|..] == Queued(st.ctx)
            // the counters
            && st.ctx.numIdle == Count(st, Waiting) + Count(st, Signalled) + Count(st, TimedOut)
            && st.ctx.numThreads == |st.workers| - Count(st, Gone)
            && 0 <= st.ctx.numIdle <= st.ctx.numThreads <= maxThreads
            // no lost wake-up
            && (Waiting in st.workers ==> |Queued(st.ctx)| <= Count(st, Signalled))
            && (st.master.PutWaiting? ==> |Queued(st.ctx)| == 20)
            && (st.master.FiniWaiting? ==> st.ctx.numThreads > 0)
            // shutdown
            && (st.ctx.stopFlag == 2 ==> st.ctx.numThreads == 0 && forall w :: w in st.workers ==> w.Gone?)
  {
    hide Queued;
    var st := Run(Init(slots, maxThreads), steps);
    InitSatisfiesInv(slots, maxThreads);
    RunKeepsInv(Init(slots, maxThreads), steps);
    LiveWorkers(st.workers);
    if st.ctx.stopFlag == 2 {
      forall w | w in st.workers
        ensures w.Gone?
      {
        assert multiset(st.workers)[w] > 0;
      }
    }
  }

  // First in, first out, against the accept calls of the run.

  function AcceptedSockets(steps: seq<Step>): seq<Socket> {
    if steps == [] then []
    else (if steps[0].Accept? then [steps[0].sp] else []) + AcceptedSockets(steps[1..])
  }

  /** The socket the master holds while it waits for room. */
  function Pending(m: Master): seq<Socket> {
    match m
    case PutWaiting(sp) => [sp]
    case PutSignalled(sp) => [sp]
    case _ => []
  }

  lemma StepAccepts(st: State, step: Step)
    requires Inv(st) && Enabled(st, step)
    ensures var next := Apply(st, step);
            next.enqueued + Pending(next.master)
            == st.enqueued + Pending(st.master) + (if step.Accept? then [step.sp] else [])
  {
    hide Inv, MustStart, PutWorkers, Wrapped;
    assert RingOk(st.ctx) by { RingOfInv(st); }
  }

  lemma RingOfInv(st: State)
    requires Inv(st)
    ensures RingOk(st.ctx)
  {
  }

  lemma {:induction false} AcceptedInOrder(st: State, steps: seq<Step>)
    requires Inv(st) && Legal(st, steps)
    ensures Run(st, steps).enqueued + Pending(Run(st, steps).master)
            == st.enqueued + Pending(st.master) + AcceptedSockets(steps)
    decreases |steps|
  {
    hide Inv, Apply, Pending;
    if steps != [] {
      StepKeepsInv(st, steps[0]);
      StepAccepts(st, steps[0]);
      AcceptedInOrder(Apply(st, steps[0]), steps[1..]);
    }
  }

  /** The workers get the accepted sockets in order, none twice and none skipped. */
  lemma Fifo(slots: seq<Socket>, maxThreads: nat, steps: seq<Step>)
    requires |slots| == CAPACITY && Legal(Init(slots, maxThreads), steps)
    ensures var st := Run(Init(slots, maxThreads), steps);
            RingOk(st.ctx) && AcceptedSockets(steps) == st.dequeued + Queued(st.ctx) + Pending(st.master)
  {
    hide Queued;
    InitSatisfiesInv(slots, maxThreads);
    RunKeepsInv(Init(slots, maxThreads), steps);
    AcceptedInOrder(Init(slots, maxThreads), steps);
  }

  // How the pool grows.

  /** Where there is room, a put adds a worker exactly when none is idle, another is allowed, and it starts. */
  lemma PutStartsThread(st: State, sp: Socket, starts: bool, woken: nat)
    requires Inv(st) && MayWake(st.workers, woken) && |Queued(st.ctx)| < 20
    ensures var idle := Count(st, Waiting) + Count(st, Signalled) + Count(st, TimedOut);
            var live, grows := |st.workers| - Count(st, Gone), |Put(st, sp, starts, woken).workers| - |st.workers|;
            && (grows == 1 <==> idle == 0 && live < st.ctx.maxThreads && starts)
            && (grows != 1 ==> grows == 0)
  {
    hide Queued;
    LiveWorkers(st.workers);
  }

  /** A pool of n busy workers with nothing queued. */
  predicate AllBusy(st: State, n: nat) {
    && RingOk(st.ctx) && st.ctx.head == st.ctx.tail && st.master.Serving?
    && st.ctx.numIdle == 0 && st.ctx.numThreads == n == |st.workers|
    && forall w :: 0 <= w < n ==> st.workers[w] == Busy
  }

  /** A socket accepted while all workers are busy gets a worker of its own. */
  lemma OneMoreBusy(st: State, n: nat, sp: Socket)
    requires AllBusy(st, n) && n < st.ctx.maxThreads
    ensures var steps := [Accept(sp, true, 0), GetSocket(n)];
            Legal(st, steps) && AllBusy(Run(st, steps), n + 1) && Run(st, steps).ctx.maxThreads == st.ctx.maxThreads
  {
    hide Queued;
    var first, second := Accept(sp, true, 0), GetSocket(n);
    var mid := Apply(st, first);
    assert Waiting !in st.workers;
    assert mid.workers == st.workers + [Starting];
    PutAppends(st.ctx, sp, true);
    var ctx := mid.ctx.(numIdle := mid.ctx.numIdle + 1);
    SameQueue(mid.ctx, ctx);
    TakeRemovesOldest(ctx);
    assert |Queued(mid.ctx)| == 1;
    var after := Apply(mid, second);
    RunNothing(after);
    RunOn(mid, second, []);
    RunOn(st, first, [second] + []);
    assert [first] + ([second] + []) == [first, second];
    assert AllBusy(after, n + 1) && after.ctx.maxThreads == st.ctx.maxThreads;
  }

  /** With no worker idle the pool grows up to max_threads. */
  lemma {:induction false} PoolGrows(slots: seq<Socket>, maxThreads: nat, n: nat)
    requires |slots| == CAPACITY && n <= maxThreads
    ensures exists steps :: Legal(Init(slots, maxThreads), steps) && AllBusy(Run(Init(slots, maxThreads), steps), n)
                            && Run(Init(slots, maxThreads), steps).ctx.maxThreads == maxThreads
  {
    hide Apply, AllBusy;
    var start := Init(slots, maxThreads);
    if n == 0 {
      NobodyYet(slots, maxThreads);
      assert Legal(start, []) && Run(start, []) == start;
    } else {
      PoolGrows(slots, maxThreads, n - 1);
      var steps :| Legal(start, steps) && AllBusy(Run(start, steps), n - 1)
                   && Run(start, steps).ctx.maxThreads == maxThreads;
      var more := [Accept(7, true, 0), GetSocket(n - 1)];
      OneMoreBusy(Run(start, steps), n - 1, 7);
      RunsJoin(start, steps, more);
    }
  }

  lemma NobodyYet(slots: seq<Socket>, maxThreads: nat)
    requires |slots| == CAPACITY
    ensures AllBusy(Init(slots, maxThreads), 0)
  {
  }

  // Which queued sockets have a worker to come.

  /** Some worker has yet to test the queue again. */
  predicate HasTaker(st: State) {
    exists w :: w in st.workers && !w.TimedOut? && !w.Gone?
  }

  /**
   A put leaves a worker that will look at the queue exactly when there was one before, or when all
   threads are gone and a new one is allowed and starts.  With only timed-out workers, which still
   count as idle, no thread is started.
   */
  lemma PutLeavesTaker(st: State, sp: Socket, starts: bool, woken: nat)
    requires Inv(st) && MayWake(st.workers, woken)
    requires PutOrWait(st.ctx, sp, starts).Some?
    ensures HasTaker(Put(st, sp, starts, woken)) <==>
            HasTaker(st) || (st.ctx.numThreads == 0 && st.ctx.maxThreads > 0 && starts)
  {
    var after := Put(st, sp, starts, woken);
    PutCounts(st.workers, woken, MustStart(st.ctx) && starts);
    TakersCounted(st);
    TakersCounted(after);
  }

  lemma TakersCounted(st: State)
    ensures HasTaker(st) <==>
            Count(st, Starting) + Count(st, Waiting) + Count(st, Signalled) + Count(st, Busy) > 0
  {
    if HasTaker(st) {
      var w :| w in st.workers && !w.TimedOut? && !w.Gone?;
      assert multiset(st.workers)[w] > 0;
    }
    assert Count(st, Starting) > 0 ==> Starting in st.workers;
    assert Count(st, Waiting) > 0 ==> Waiting in st.workers;
    assert Count(st, Signalled) > 0 ==> Signalled in st.workers;
    assert Count(st, Busy) > 0 ==> Busy in st.workers;
  }

  lemma RunOn(st: State, step: Step, rest: seq<Step>)
    requires RingOk(st.ctx) && Enabled(st, step) && Legal(Apply(st, step), rest)
    ensures Legal(st, [step] + rest) && Run(st, [step] + rest) == Run(Apply(st, step), rest)
  {
    hide Apply, Enabled;
    assert ([step] + rest)[1..] == rest;
  }

  /** A worker that took one socket and went back to wait. */
  lemma ServedAndIdle(slots: seq<Socket>, rest: seq<Step>)
    requires |slots| == CAPACITY
    requires Legal(OneIdle(slots), rest)
    ensures exists steps :: Legal(Init(slots, 1), steps) && Run(Init(slots, 1), steps) == Run(OneIdle(slots), rest)
  {
    hide Legal, Run;
    var s0 := Init(slots, 1);
    var s1 := Apply(s0, Accept(7, true, 0));
    assert s1 == State(Shared(slots[0 := 7], 1, 0, 1, 0, 1, 0), [Starting], Serving, [7], []);
    var s2 := Apply(s1, GetSocket(0));
    assert s2 == State(Shared(slots[0 := 7], 1, 1, 1, 0, 1, 0), [Busy], Serving, [7], [7]);
    assert Apply(s2, GetSocket(0)) == OneIdle(slots);
    RunOn(s2, GetSocket(0), rest);
    RunOn(s1, GetSocket(0), [GetSocket(0)] + rest);
    RunOn(s0, Accept(7, true, 0), [GetSocket(0)] + ([GetSocket(0)] + rest));
  }

  function OneIdle(slots: seq<Socket>): State
    requires |slots| == CAPACITY
  {
    State(Shared(slots[0 := 7], 1, 1, 1, 1, 1, 0), [Waiting], Serving, [7], [7])
  }

  /** One worker allowed: it times out, a socket arrives, it leaves, and the socket stays behind. */
  lemma StrandedSocket(slots: seq<Socket>)
    requires |slots| == CAPACITY
    ensures exists steps ::
              && Legal(Init(slots, 1), steps)
              && var st := Run(Init(slots, 1), steps);
                 RingOk(st.ctx) && Queued(st.ctx) == [8] && st.workers == [Gone] && st.master == Serving
  {
    hide Legal, Run;
    var s4 := Apply(OneIdle(slots), Timeout(0));
    var s5 := Apply(s4, Accept(8, true, 0));
    assert s5 == State(Shared(slots[0 := 7][1 := 8], 2, 1, 1, 1, 1, 0), [TimedOut], Serving, [7, 8], [7]);
    var s6 := Apply(s5, Exit(0));
    assert s6.workers == [Gone] && Queued(s6.ctx) == [8];
    RunNothing(s6);
    RunOn(s5, Exit(0), []);
    RunOn(s4, Accept(8, true, 0), [Exit(0)] + []);
    RunOn(OneIdle(slots), Timeout(0), [Accept(8, true, 0)] + ([Exit(0)] + []));
    ServedAndIdle(slots, [Timeout(0)] + ([Accept(8, true, 0)] + ([Exit(0)] + [])));
  }

  lemma RunNothing(st: State)
    ensures Legal(st, []) && Run(st, []) == st
  {
  }

  /** The step puts a socket into the queue. */
  predicate Stores(st: State, step: Step) {
    (step.Accept? || step.PutWakes?) && st.ctx.head - st.ctx.tail < CAPACITY
  }

  /** It does, with all threads gone, and starts a thread. */
  predicate Revives(st: State, step: Step) {
    Stores(st, step) && st.ctx.numThreads == 0 && st.ctx.maxThreads > 0 && step.starts
  }

  predicate Stranded(st: State)
    requires RingOk(st.ctx)
  {
    Queued(st.ctx) != [] && !HasTaker(st)
  }

  /** As long as a socket is queued, the last worker that can take it does not give up. */
  lemma TakersStay(st: State, step: Step)
    requires Inv(st) && Enabled(st, step) && HasTaker(st)
    ensures RingOk(Apply(st, step).ctx) && (Queued(Apply(st, step).ctx) != [] ==> HasTaker(Apply(st, step)))
  {
    hide Queued, HasTaker, Put, Get, Inv, MayWake;
    RingOfInv(st);
    StepKeepsInv(st, step);
    RingOfInv(Apply(st, step));
    match step
    case Accept(sp, starts, woken) => PutKeepsTaker(st, sp, starts, woken);
    case PutWakes(starts, woken) => PutKeepsTaker(st, st.master.sp, starts, woken);
    case GetSocket(w) => GetLeavesTaker(st.(ctx := st.ctx.(numIdle := st.ctx.numIdle + 1)), w);
    case WorkerWakes(w) => GetLeavesTaker(st, w);
    case WorkerSpuriousWake(w) => TakerAt(Apply(st, step), w);
    case Timeout(w) => TimeoutLeavesTaker(st, w);
    case Exit(w) => ExitLeavesTaker(st, w);
    case _ => SameWorkers(st, Apply(st, step));
  }

  lemma TakerAt(st: State, w: nat)
    requires w < |st.workers| && !st.workers[w].TimedOut? && !st.workers[w].Gone?
    ensures HasTaker(st)
  {
    assert st.workers[w] in st.workers;
  }

  lemma SameWorkers(a: State, b: State)
    requires a.workers == b.workers
    ensures HasTaker(a) <==> HasTaker(b)
  {
  }

  lemma PutKeepsTaker(st: State, sp: Socket, starts: bool, woken: nat)
    requires Inv(st) && MayWake(st.workers, woken) && HasTaker(st)
    ensures HasTaker(Put(st, sp, starts, woken))
  {
    hide HasTaker, Inv, MayWake, PutWorkers;
    RingOfInv(st);
    if PutOrWait(st.ctx, sp, starts).Some? {
      PutLeavesTaker(st, sp, starts, woken);
    } else {
      SameWorkers(st, Put(st, sp, starts, woken));
    }
  }

  /** A worker at the queue goes on or waits, and is a taker either way. */
  lemma GetLeavesTaker(st: State, w: nat)
    requires RingOk(st.ctx) && w < |st.workers|
    ensures HasTaker(Get(st, w))
  {
    hide HasTaker;
    TakerAt(Get(st, w), w);
  }

  lemma TimeoutLeavesTaker(st: State, w: nat)
    requires Inv(st) && In(st, w, Waiting)
    ensures Queued(st.ctx) != [] ==> HasTaker(st.(workers := st.workers[w := TimedOut]))
  {
    hide Queued, HasTaker;
    Moved(st.workers, w, TimedOut);
    TakersCounted(st.(workers := st.workers[w := TimedOut]));
  }

  lemma ExitLeavesTaker(st: State, w: nat)
    requires RingOk(st.ctx) && In(st, w, TimedOut) && HasTaker(st)
    ensures HasTaker(Apply(st, Exit(w)))
  {
    hide HasTaker;
    Moved(st.workers, w, Gone);
    TakersCounted(st);
    TakersCounted(Apply(st, Exit(w)));
  }

  /** Without a taker, only a put that starts a thread brings one, and nothing leaves the queue. */
  lemma NoTakerStep(st: State, step: Step)
    requires Inv(st) && Enabled(st, step) && !HasTaker(st)
    ensures HasTaker(Apply(st, step)) <==> Revives(st, step)
    ensures RingOk(Apply(st, step).ctx)
    ensures Queued(Apply(st, step).ctx) != [] <==> Queued(st.ctx) != [] || Stores(st, step)
  {
    hide Queued, HasTaker, Put, Inv, MayWake;
    StepKeepsInv(st, step);
    RingOfInv(st);
    RingOfInv(Apply(st, step));
    NoTakers(st);
    if step.Accept? {
      NoTakerPut(st, step.sp, step.starts, step.woken);
    } else if step.PutWakes? {
      NoTakerPut(st, st.master.sp, step.starts, step.woken);
    } else if step.Exit? {
      NoTakerExit(st, step.w);
    } else if MasterStep(step) {
      NoTakerMaster(st, step);
    }
  }

  lemma NoTakerMaster(st: State, step: Step)
    requires RingOk(st.ctx) && Enabled(st, step) && MasterStep(step) && !HasTaker(st)
    ensures RingOk(Apply(st, step).ctx) && !HasTaker(Apply(st, step))
    ensures Queued(Apply(st, step).ctx) == Queued(st.ctx)
  {
    hide Queued, HasTaker;
    SameQueue(st.ctx, Apply(st, step).ctx);
    SameWorkers(st, Apply(st, step));
  }

  lemma NoTakers(st: State)
    requires !HasTaker(st)
    ensures forall w :: 0 <= w < |st.workers| ==> st.workers[w].TimedOut? || st.workers[w].Gone?
  {
    assert forall w :: 0 <= w < |st.workers| ==> st.workers[w] in st.workers;
  }

  lemma NoTakerExit(st: State, w: nat)
    requires RingOk(st.ctx) && In(st, w, TimedOut) && !HasTaker(st)
    ensures !HasTaker(Apply(st, Exit(w))) && Queued(Apply(st, Exit(w)).ctx) == Queued(st.ctx)
  {
    hide HasTaker, Queued;
    Moved(st.workers, w, Gone);
    TakersCounted(st);
    TakersCounted(Apply(st, Exit(w)));
    SameQueue(st.ctx, Apply(st, Exit(w)).ctx);
  }

  lemma NoTakerPut(st: State, sp: Socket, starts: bool, woken: nat)
    requires Inv(st) && MayWake(st.workers, woken) && !HasTaker(st)
    requires RingOk(Put(st, sp, starts, woken).ctx)
    ensures var after := Put(st, sp, starts, woken);
            var stores := st.ctx.head - st.ctx.tail < CAPACITY;
            && (HasTaker(after) <==> stores && st.ctx.numThreads == 0 && st.ctx.maxThreads > 0 && starts)
            && (Queued(after.ctx) != [] <==> Queued(st.ctx) != [] || stores)
  {
    hide HasTaker, Queued, PutWorkers, MayWake;
    if PutOrWait(st.ctx, sp, starts).Some? {
      PutLeavesTaker(st, sp, starts, woken);
      PutAppends(st.ctx, sp, starts);
    } else {
      SameWorkers(st, Put(st, sp, starts, woken));
    }
  }

  /** One step: a socket is stranded afterwards if one was, or was put where no taker is, and none is started. */
  lemma StrandStep(st: State, step: Step)
    requires Inv(st) && Enabled(st, step)
    ensures RingOk(Apply(st, step).ctx)
    ensures Stranded(Apply(st, step)) <==>
            !HasTaker(st) && (Queued(st.ctx) != [] || Stores(st, step)) && !Revives(st, step)
  {
    hide Queued, HasTaker, Inv, Apply, Revives, Stores;
    if HasTaker(st) {
      TakersStay(st, step);
    } else {
      NoTakerStep(st, step);
    }
  }

  function StateAt(st: State, steps: seq<Step>, i: nat): State
    requires Legal(st, steps) && i <= |steps|
    decreases |steps|
  {
    if i == 0 then st else StateAt(Apply(st, steps[0]), steps[1..], i - 1)
  }

  /** Step i puts a socket where no taker is, and from then on no put starts a thread. */
  ghost predicate StrandsAt(st: State, steps: seq<Step>, i: nat)
    requires Legal(st, steps) && i < |steps|
  {
    && !HasTaker(StateAt(st, steps, i)) && Stores(StateAt(st, steps, i), steps[i])
    && forall j :: i <= j < |steps| ==> !Revives(StateAt(st, steps, j), steps[j])
  }

  ghost predicate NeverRevived(st: State, steps: seq<Step>)
    requires Legal(st, steps)
  {
    forall j :: 0 <= j < |steps| ==> !Revives(StateAt(st, steps, j), steps[j])
  }

  lemma NeverRevivedStep(st: State, steps: seq<Step>)
    requires Legal(st, steps) && steps != []
    ensures NeverRevived(st, steps) <==> !Revives(st, steps[0]) && NeverRevived(Apply(st, steps[0]), steps[1..])
  {
    hide Revives, Apply, Enabled;
    var next, rest := Apply(st, steps[0]), steps[1..];
    assert StateAt(st, steps, 0) == st;
    assert forall j :: 0 <= j < |rest| ==>
                         StateAt(st, steps, j + 1) == StateAt(next, rest, j) && steps[j + 1] == rest[j];
    if !Revives(st, steps[0]) && NeverRevived(next, rest) {
      forall j | 0 <= j < |steps|
        ensures !Revives(StateAt(st, steps, j), steps[j])
      {
        assert j > 0 ==> StateAt(st, steps, j - 1 + 1) == StateAt(next, rest, j - 1) && steps[j - 1 + 1] == rest[j - 1];
      }
    }
    if NeverRevived(st, steps) {
      forall j | 0 <= j < |rest|
        ensures !Revives(StateAt(next, rest, j), rest[j])
      {
        assert !Revives(StateAt(st, steps, j + 1), steps[j + 1]);
      }
    }
  }

  lemma StrandsAtStep(st: State, steps: seq<Step>)
    requires Legal(st, steps) && steps != []
    ensures StrandsAt(st, steps, 0) <==> !HasTaker(st) && Stores(st, steps[0]) && NeverRevived(st, steps)
    ensures forall i :: 0 <= i < |steps| - 1 ==>
              (StrandsAt(st, steps, i + 1) <==> StrandsAt(Apply(st, steps[0]), steps[1..], i))
  {
    hide Revives, Apply, Enabled, HasTaker, Stores;
    var next, rest := Apply(st, steps[0]), steps[1..];
    assert forall j :: 0 <= j < |rest| ==>
                         StateAt(st, steps, j + 1) == StateAt(next, rest, j) && steps[j + 1] == rest[j];
    forall i | 0 <= i < |rest|
      ensures StrandsAt(st, steps, i + 1) <==> StrandsAt(next, rest, i)
    {
      if StrandsAt(next, rest, i) {
        forall j | i + 1 <= j < |steps|
          ensures !Revives(StateAt(st, steps, j), steps[j])
        {
          assert StateAt(st, steps, j - 1 + 1) == StateAt(next, rest, j - 1) && steps[j - 1 + 1] == rest[j - 1];
        }
      }
      if StrandsAt(st, steps, i + 1) {
        forall j | i <= j < |rest|
          ensures !Revives(StateAt(next, rest, j), rest[j])
        {
          assert !Revives(StateAt(st, steps, j + 1), steps[j + 1]);
        }
      }
    }
  }

  /**
   After any run a socket is stranded exactly when one was before, or was put where no taker was, and
   no put since then started a thread.
   */
  lemma {:induction false} StrandedExactly(st: State, steps: seq<Step>)
    requires Inv(st) && Legal(st, steps)
    ensures RingOk(Run(st, steps).ctx)
    ensures Stranded(Run(st, steps)) <==>
            || (Stranded(st) && NeverRevived(st, steps))
            || exists i :: 0 <= i < |steps| && StrandsAt(st, steps, i)
    decreases |steps|
  {
    hide Inv, Apply, HasTaker, Revives, Stores, Queued, StrandsAt, NeverRevived, Stranded, Enabled;
    RingOfInv(st);
    if steps == [] {
      NothingRevived(st);
    } else {
      var next, rest := Apply(st, steps[0]), steps[1..];
      StepKeepsInv(st, steps[0]);
      StrandStep(st, steps[0]);
      StrandedMeans(st);
      StrandedExactly(next, rest);
      NeverRevivedStep(st, steps);
      StrandsAtStep(st, steps);
      LaterOrFirst(st, steps);
    }
  }

  lemma LaterOrFirst(st: State, steps: seq<Step>)
    requires Legal(st, steps) && steps != []
    requires forall i :: 0 <= i < |steps| - 1 ==>
               (StrandsAt(st, steps, i + 1) <==> StrandsAt(Apply(st, steps[0]), steps[1..], i))
    ensures (exists i :: 0 <= i < |steps| && StrandsAt(st, steps, i)) <==>
            StrandsAt(st, steps, 0)
            || exists i :: 0 <= i < |steps| - 1 && StrandsAt(Apply(st, steps[0]), steps[1..], i)
  {
    hide StrandsAt, Apply, Enabled;
    var next, rest := Apply(st, steps[0]), steps[1..];
    if exists i :: 0 <= i < |steps| && StrandsAt(st, steps, i) {
      var i :| 0 <= i < |steps| && StrandsAt(st, steps, i);
      assert i > 0 ==> (StrandsAt(st, steps, i - 1 + 1) <==> StrandsAt(next, rest, i - 1));
    }
    if exists i :: 0 <= i < |steps| - 1 && StrandsAt(next, rest, i) {
      var i :| 0 <= i < |steps| - 1 && StrandsAt(next, rest, i);
      assert StrandsAt(st, steps, i + 1);
    }
  }

  lemma NothingRevived(st: State)
    ensures NeverRevived(st, []) && Run(st, []) == st
  {
  }

  lemma StrandedMeans(st: State)
    requires RingOk(st.ctx)
    ensures Stranded(st) <==> Queued(st.ctx) != [] && !HasTaker(st)
  {
  }

  // Shutdown.

  predicate Spurious(step: Step) {
    step.MasterSpuriousWake? || step.WorkerSpuriousWake?
  }

  function MasterWeight(m: Master): nat {
    match m
    case FiniWaiting => 1
    case FiniSignalled => 2
    case FiniPassed => 1
    case _ => 0
  }

  function WorkerWeight(w: Worker): nat {
    match w
    case Gone => 0
    case TimedOut => 2
    case Waiting => 3
    case _ => 4
  }

  function WorkersWeight(workers: seq<Worker>): nat {
    if workers == [] then 0 else WorkerWeight(workers[0]) + WorkersWeight(workers[1..])
  }

  lemma {:induction false} WeightMoves(workers: seq<Worker>, w: nat, to: Worker)
    requires w < |workers|
    ensures WorkersWeight(workers[w := to]) == WorkersWeight(workers) - WorkerWeight(workers[w]) + WorkerWeight(to)
  {
    if w == 0 {
      assert workers[w := to][1..] == workers[1..];
    } else {
      assert workers[w := to][1..] == workers[1..][w - 1 := to];
      WeightMoves(workers[1..], w - 1, to);
    }
  }

  /** Bounds the steps left once mg_fini has begun. */
  function StepsLeft(st: State): nat
    requires RingOk(st.ctx)
  {
    WorkersWeight(st.workers) + |Queued(st.ctx)| + MasterWeight(st.master)
  }

  lemma ShutdownStep(st: State, step: Step)
    requires Inv(st) && InFini(st) && Enabled(st, step) && !Spurious(step)
    ensures Inv(Apply(st, step)) && InFini(Apply(st, step))
    ensures StepsLeft(Apply(st, step)) < StepsLeft(st)
  {
    StepKeepsInv(st, step);
    hide Get, StepsLeft;
    match step
    case GetSocket(w) => GetProgress(st, w, st.ctx.(numIdle := st.ctx.numIdle + 1));
    case WorkerWakes(w) => GetProgress(st, w, st.ctx);
    case _ => OtherProgress(st, step);
  }

  lemma OtherProgress(st: State, step: Step)
    requires Inv(st) && InFini(st) && Enabled(st, step) && !Spurious(step)
    requires !step.GetSocket? && !step.WorkerWakes?
    ensures InFini(Apply(st, step)) && RingOk(Apply(st, step).ctx) && StepsLeft(Apply(st, step)) < StepsLeft(st)
  {
    hide Queued;
    SameQueue(st.ctx, Apply(st, step).ctx);
    match step
    case Timeout(w) => WeightMoves(st.workers, w, TimedOut);
    case Exit(w) => WeightMoves(st.workers, w, Gone);
    case _ =>
  }

  lemma GetProgress(st: State, w: nat, ctx: Shared)
    requires Inv(st) && AtQueue(st, w, ctx) && InFini(st)
    ensures var after := Get(st.(ctx := ctx), w);
            InFini(after) && RingOk(after.ctx) && StepsLeft(after) < StepsLeft(st)
  {
    hide Queued, Wrapped;
    WeightMoves(st.workers, w, Waiting);
    WeightMoves(st.workers, w, Busy);
    SameQueue(st.ctx, ctx);
    if ctx.head != ctx.tail {
      TakeRemovesOldest(ctx);
    }
  }

  /** A shutdown that is not done can always go on without a spurious wake-up. */
  lemma ShutdownCanGoOn(st: State) returns (step: Step)
    requires Inv(st) && InFini(st) && !st.master.Done?
    ensures Enabled(st, step) && !Spurious(step)
  {
    hide Queued;
    match st.master
    case FiniSignalled => step := FiniWakes;
    case FiniPassed => step := FinishFini;
    case FiniWaiting =>
      assert exists s :: s in multiset(st.workers) && !s.Gone? by {
        if Count(st, Starting) > 0 { assert Starting in multiset(st.workers); }
        else if Count(st, Busy) > 0 { assert Busy in multiset(st.workers); }
        else if Count(st, Waiting) > 0 { assert Waiting in multiset(st.workers); }
        else if Count(st, Signalled) > 0 { assert Signalled in multiset(st.workers); }
        else { assert TimedOut in multiset(st.workers); }
      }
      var s :| s in multiset(st.workers) && !s.Gone?;
      assert s in st.workers;
      var w: nat :| w < |st.workers| && st.workers[w] == s;
      step := if s.Waiting? then Timeout(w)
              else if s.Signalled? then WorkerWakes(w)
              else if s.TimedOut? then Exit(w)
              else GetSocket(w);
  }

  /**
   Once mg_fini has begun, every run without spurious wake-ups has at most StepsLeft steps, and where
   it can go no further stop_flag is 2, every worker is gone and no step of any kind is left.
   */
  lemma {:induction false} ShutdownCompletes(st: State, steps: seq<Step>)
    requires Inv(st) && InFini(st) && Legal(st, steps)
    requires forall step :: step in steps ==> !Spurious(step)
    ensures |steps| <= StepsLeft(st)
    ensures var end := Run(st, steps);
            (forall step :: Enabled(end, step) ==> Spurious(step)) ==>
              end.ctx.stopFlag == 2 && end.ctx.numThreads == 0 && forall step :: !Enabled(end, step)
    decreases |steps|
  {
    hide Inv, Queued, Apply;
    if steps == [] {
      if forall step :: Enabled(st, step) ==> Spurious(step) {
        if !st.master.Done? {
          var step := ShutdownCanGoOn(st);
        }
        DoneIsFinal(st);
      }
    } else {
      ShutdownStep(st, steps[0]);
      ShutdownCompletes(Apply(st, steps[0]), steps[1..]);
    }
  }

  lemma DoneIsFinal(st: State)
    requires Inv(st) && st.master.Done?
    ensures st.ctx.stopFlag == 2 && st.ctx.numThreads == 0 && forall step :: !Enabled(st, step)
  {
    forall w | w in st.workers
      ensures w.Gone?
    {
      assert multiset(st.workers)[w] > 0;
    }
  }

  // A stop requested at any time.

  /** The master waits for room in a full ring, and no worker will ever make any. */
  predicate Blocked(st: State) {
    (st.master.PutWaiting? || st.master.PutSignalled?) && st.ctx.head - st.ctx.tail == CAPACITY && !HasTaker(st)
  }

  /** A blocked master stays blocked: no step, spurious wake-ups and mg_stop included, gets it out. */
  lemma BlockedStays(st: State, step: Step)
    requires RingOk(st.ctx) && Blocked(st) && Enabled(st, step)
    ensures RingOk(Apply(st, step).ctx) && Blocked(Apply(st, step))
  {
    hide HasTaker, MayWake;
    NoTakers(st);
    if step.PutWakes? {
      SameWorkers(st, Apply(st, step));
    } else if step.Exit? {
      hide Queued;
      NoTakerExit(st, step.w);
    } else if MasterStep(step) {
      NoTakerMaster(st, step);
    }
  }

  lemma {:induction false} BlockedForEver(st: State, steps: seq<Step>)
    requires RingOk(st.ctx) && Blocked(st) && Legal(st, steps)
    ensures Blocked(Run(st, steps))
    decreases |steps|
  {
    hide Blocked, Apply, Enabled;
    if steps != [] {
      BlockedStays(st, steps[0]);
      BlockedForEver(Apply(st, steps[0]), steps[1..]);
    }
  }

  /** Some run from here ends with mg_fini done, so that mg_stop returns. */
  ghost predicate CanFinish(st: State) {
    exists steps :: Legal(st, steps) && Run(st, steps).master.Done?
  }

  lemma FinishLater(st: State, step: Step)
    requires RingOk(st.ctx) && Enabled(st, step) && CanFinish(Apply(st, step))
    ensures CanFinish(st)
  {
    hide Apply, Enabled;
    var rest :| Legal(Apply(st, step), rest) && Run(Apply(st, step), rest).master.Done?;
    RunOn(st, step, rest);
  }

  /** mg_fini, once begun, can be done. */
  lemma {:induction false} FiniFinishes(st: State)
    requires Inv(st) && InFini(st)
    ensures RingOk(st.ctx) && CanFinish(st)
    decreases RingOk(st.ctx), if RingOk(st.ctx) then StepsLeft(st) else 0
  {
    hide CanFinish, Apply, StepsLeft, Enabled;
    RingOfInv(st);
    if st.master.Done? {
      DoneCanFinish(st);
    } else {
      var step := ShutdownCanGoOn(st);
      ShutdownStep(st, step);
      RingOfInv(Apply(st, step));
      FiniFinishes(Apply(st, step));
      FinishLater(st, step);
    }
  }

  lemma DoneCanFinish(st: State)
    requires st.master.Done?
    ensures CanFinish(st)
  {
    assert Legal(st, []) && Run(st, []) == st;
  }

  /** From the accept loop, with a stop requested. */
  lemma ServingFinishes(st: State)
    requires Inv(st) && st.master.Serving? && st.ctx.stopFlag != 0
    ensures CanFinish(st)
  {
    hide CanFinish, Inv;
    RingOfInv(st);
    StepKeepsInv(st, BeginFini);
    FiniFinishes(Apply(st, BeginFini));
    FinishLater(st, BeginFini);
  }

  /** A worker that a signal of empty_cond may wake, if any waits. */
  lemma SomeWake(workers: seq<Worker>) returns (woken: nat)
    ensures MayWake(workers, woken)
  {
    woken := 0;
    if Waiting in workers {
      woken :| woken < |workers| && workers[woken] == Waiting;
    }
  }

  /** From put_socket, woken, with room in the ring. */
  lemma RoomFinishes(st: State)
    requires Inv(st) && st.master.PutSignalled? && st.ctx.stopFlag != 0 && st.ctx.head - st.ctx.tail < CAPACITY
    ensures CanFinish(st)
  {
    hide CanFinish, Inv, MayWake, PutWorkers;
    RingOfInv(st);
    var woken := SomeWake(st.workers);
    var step := PutWakes(false, woken);
    StepKeepsInv(st, step);
    ServingFinishes(Apply(st, step));
    FinishLater(st, step);
  }

  /** From put_socket with a full ring, once a worker is at the queue. */
  lemma TakeFinishes(st: State, step: Step)
    requires Inv(st) && (st.master.PutWaiting? || st.master.PutSignalled?) && st.ctx.stopFlag != 0
    requires st.ctx.head - st.ctx.tail == CAPACITY && Enabled(st, step) && (step.GetSocket? || step.WorkerWakes?)
    ensures CanFinish(st)
  {
    hide CanFinish, Inv;
    RingOfInv(st);
    StepKeepsInv(st, step);
    AfterTake(st, step);
    RoomFinishes(Apply(st, step));
    FinishLater(st, step);
  }

  lemma AfterTake(st: State, step: Step)
    requires RingOk(st.ctx) && (st.master.PutWaiting? || st.master.PutSignalled?)
    requires st.ctx.head - st.ctx.tail == CAPACITY && Enabled(st, step) && (step.GetSocket? || step.WorkerWakes?)
    ensures var after := Apply(st, step);
            after.master.PutSignalled? && after.ctx.stopFlag == st.ctx.stopFlag
            && after.ctx.head - after.ctx.tail < CAPACITY
  {
    hide Wrapped, Queued;
    if step.GetSocket? {
      OneLess(st.ctx.(numIdle := st.ctx.numIdle + 1));
    } else {
      OneLess(st.ctx);
    }
  }

  lemma OneLess(c: Shared)
    requires RingOk(c) && c.head != c.tail
    ensures var (c', got) := TakeOrWait(c);
            got.Some? && c'.head - c'.tail == c.head - c.tail - 1 && c'.stopFlag == c.stopFlag
  {
    TakeRemovesOldest(c);
    WrapKeepsQueue(c.(numIdle := c.numIdle - 1, tail := c.tail + 1));
  }

  /** From put_socket with a full ring and a worker to come. */
  lemma TakerFinishes(st: State)
    requires Inv(st) && (st.master.PutWaiting? || st.master.PutSignalled?) && st.ctx.stopFlag != 0
    requires st.ctx.head - st.ctx.tail == CAPACITY && HasTaker(st)
    ensures CanFinish(st)
  {
    hide CanFinish, Inv;
    RingOfInv(st);
    var s :| s in st.workers && !s.TimedOut? && !s.Gone?;
    var w: nat :| w < |st.workers| && st.workers[w] == s;
    if s.Waiting? {
      var step := WorkerSpuriousWake(w);
      StepKeepsInv(st, step);
      TakeFinishes(Apply(st, step), WorkerWakes(w));
      FinishLater(st, step);
    } else {
      TakeFinishes(st, if s.Signalled? then WorkerWakes(w) else GetSocket(w));
    }
  }

  /**
   Once a stop is requested, wherever the master is, some run reaches the end of mg_fini exactly when
   the master is not blocked in put_socket; then mg_stop waits for ever.
   */
  lemma StopCompletesUnlessBlocked(st: State)
    requires Inv(st) && st.ctx.stopFlag != 0
    ensures CanFinish(st) <==> !Blocked(st)
  {
    hide Inv, HasTaker;
    RingOfInv(st);
    if Blocked(st) {
      NeverFinishes(st);
    } else if InFini(st) {
      FiniFinishes(st);
    } else if st.master.Serving? {
      ServingFinishes(st);
    } else if st.ctx.head - st.ctx.tail == CAPACITY {
      TakerFinishes(st);
    } else {
      WaitsWhenFull(st);
      RoomFinishes(st);
    }
  }

  lemma NeverFinishes(st: State)
    requires RingOk(st.ctx) && Blocked(st)
    ensures !CanFinish(st)
  {
    hide HasTaker;
    if CanFinish(st) {
      var steps :| Legal(st, steps) && Run(st, steps).master.Done?;
      BlockedForEver(st, steps);
    }
  }

  lemma WaitsWhenFull(st: State)
    requires Inv(st)
    ensures st.master.PutWaiting? ==> st.ctx.head - st.ctx.tail == CAPACITY
  {
  }

  // Every run after a stop is requested.

  function StopWeight(m: Master): nat {
    match m
    case Serving => 3
    case PutWaiting(_) => 11
    case PutSignalled(_) => 12
    case FiniWaiting => 1
    case FiniSignalled => 2
    case FiniPassed => 1
    case Done => 0
  }

  /** Bounds the steps left once a stop is requested and no more sockets come. */
  function StopLeft(st: State): nat
    requires RingOk(st.ctx)
  {
    WorkersWeight(st.workers) + 2 * |Queued(st.ctx)| + StopWeight(st.master)
  }

  /** A step that is no wake-up out of nothing and takes no new socket from a listener. */
  predicate Winding(step: Step) {
    !Spurious(step) && !step.Accept?
  }

  predicate Stopping(st: State) {
    Inv(st) && st.ctx.stopFlag != 0 && !Blocked(st)
  }

  lemma {:induction false} WeightOfConcat(a: seq<Worker>, b: seq<Worker>)
    ensures WorkersWeight(a + b) == WorkersWeight(a) + WorkersWeight(b)
  {
    if a == [] {
      assert a + b == b;
    } else {
      assert (a + b)[1..] == a[1..] + b;
      WeightOfConcat(a[1..], b);
    }
  }

  /** A put adds at most the weight of a new thread, or that of a signal. */
  lemma PutWeight(workers: seq<Worker>, woken: nat, started: bool)
    requires MayWake(workers, woken)
    ensures WorkersWeight(PutWorkers(workers, woken, started)) <= WorkersWeight(workers) + 5
  {
    var signalled := SignalEmpty(workers, woken);
    if Waiting in workers {
      WeightMoves(workers, woken, Signalled);
    }
    if started {
      WeightOfConcat(signalled, [Starting]);
      assert WorkersWeight([Starting]) == 4 + WorkersWeight([]);
    }
  }

  lemma PutProgress(st: State, starts: bool, woken: nat)
    requires Inv(st) && st.master.PutSignalled? && MayWake(st.workers, woken)
    ensures var after := Put(st, st.master.sp, starts, woken);
            RingOk(after.ctx) && StopLeft(after) < StopLeft(st) && after.ctx.stopFlag == st.ctx.stopFlag
  {
    hide Queued, WorkersWeight, MayWake, PutWorkers, MustStart;
    if PutOrWait(st.ctx, st.master.sp, starts).Some? {
      PutAppends(st.ctx, st.master.sp, starts);
      PutWeight(st.workers, woken, MustStart(st.ctx) && starts);
    }
  }

  lemma TakeProgress(st: State, w: nat, ctx: Shared)
    requires Inv(st) && AtQueue(st, w, ctx)
    ensures var after := Get(st.(ctx := ctx), w);
            RingOk(after.ctx) && StopLeft(after) < StopLeft(st) && after.ctx.stopFlag == st.ctx.stopFlag
  {
    hide Queued, Wrapped, WorkersWeight;
    WeightMoves(st.workers, w, Waiting);
    WeightMoves(st.workers, w, Busy);
    SameQueue(st.ctx, ctx);
    if ctx.head != ctx.tail {
      TakeRemovesOldest(ctx);
    }
  }

  lemma OtherStopProgress(st: State, step: Step)
    requires Inv(st) && st.ctx.stopFlag != 0 && Enabled(st, step) && Winding(step)
    requires !step.GetSocket? && !step.WorkerWakes? && !step.PutWakes?
    ensures var after := Apply(st, step);
            RingOk(after.ctx) && StopLeft(after) < StopLeft(st) && after.ctx.stopFlag != 0
  {
    hide Queued, WorkersWeight;
    SameQueue(st.ctx, Apply(st, step).ctx);
    match step
    case Timeout(w) => WeightMoves(st.workers, w, TimedOut);
    case Exit(w) => WeightMoves(st.workers, w, Gone);
    case _ =>
  }

  lemma StopProgress(st: State, step: Step)
    requires Inv(st) && st.ctx.stopFlag != 0 && Enabled(st, step) && Winding(step)
    ensures RingOk(Apply(st, step).ctx) && StopLeft(Apply(st, step)) < StopLeft(st) && Apply(st, step).ctx.stopFlag != 0
  {
    hide Inv, StopLeft, Get, Put;
    match step
    case PutWakes(starts, woken) => PutProgress(st, starts, woken);
    case GetSocket(w) => TakeProgress(st, w, st.ctx.(numIdle := st.ctx.numIdle + 1));
    case WorkerWakes(w) => TakeProgress(st, w, st.ctx);
    case _ => OtherStopProgress(st, step);
  }

  /** Without new sockets a master that is not blocked does not become so. */
  lemma StaysUnblocked(st: State, step: Step)
    requires Stopping(st) && Enabled(st, step) && Winding(step)
    ensures Stopping(Apply(st, step))
  {
    hide Inv, HasTaker, Apply, Enabled;
    RingOfInv(st);
    StepKeepsInv(st, step);
    StopProgress(st, step);
    RingOfInv(Apply(st, step));
    FullStaysPut(st, step);
    if Blocked(Apply(st, step)) {
      FullIsNotEmpty(Apply(st, step).ctx);
      if HasTaker(st) {
        TakersStay(st, step);
      }
    }
  }

  lemma FullIsNotEmpty(c: Shared)
    requires RingOk(c) && c.head - c.tail == CAPACITY
    ensures Queued(c) != []
  {
    assert |Queued(c)| == CAPACITY;
  }

  /** A full ring around a waiting master was full before, or a worker was there to take from it. */
  lemma FullStaysPut(st: State, step: Step)
    requires Inv(st) && Enabled(st, step) && Winding(step)
    ensures var after := Apply(st, step);
            (after.master.PutWaiting? || after.master.PutSignalled?) && after.ctx.head - after.ctx.tail == CAPACITY ==>
              (st.master.PutWaiting? || st.master.PutSignalled?)
              && (st.ctx.head - st.ctx.tail == CAPACITY || HasTaker(st))
  {
    hide HasTaker, Queued, Wrapped, PutWorkers;
    match step
    case GetSocket(w) => TakerAt(st, w);
    case WorkerWakes(w) => TakerAt(st, w);
    case _ =>
  }

  /** Some step is left that is no spurious wake-up and no accept, until mg_fini is done. */
  lemma StopCanGoOn(st: State) returns (step: Step)
    requires Stopping(st) && !st.master.Done?
    ensures Enabled(st, step) && Winding(step)
  {
    hide Inv, HasTaker, MayWake;
    if InFini(st) {
      step := ShutdownCanGoOn(st);
    } else if st.master.Serving? {
      step := BeginFini;
    } else if st.master.PutSignalled? {
      var woken := SomeWake(st.workers);
      step := PutWakes(false, woken);
    } else {
      WaitsWhenFull(st);
      step := TakerStep(st);
    }
  }

  lemma TakerStep(st: State) returns (step: Step)
    requires HasTaker(st)
    ensures Enabled(st, step) && (step.GetSocket? || step.WorkerWakes? || step.Timeout?)
  {
    var s :| s in st.workers && !s.TimedOut? && !s.Gone?;
    var w: nat :| w < |st.workers| && st.workers[w] == s;
    step := if s.Waiting? then Timeout(w) else if s.Signalled? then WorkerWakes(w) else GetSocket(w);
  }

  /**
   From any state with a stop requested and the master not blocked, every run without spurious wake-ups
   and new sockets is bounded, and where such a run can go no further mg_fini is done.
   */
  lemma {:induction false} StopCompletes(st: State, steps: seq<Step>)
    requires Stopping(st) && Legal(st, steps)
    requires forall step :: step in steps ==> Winding(step)
    ensures RingOk(st.ctx) && |steps| <= StopLeft(st)
    ensures var end := Run(st, steps);
            (forall step :: Enabled(end, step) ==> !Winding(step)) ==> end.master.Done? && end.ctx.stopFlag == 2
    decreases |steps|
  {
    hide Inv, Apply, StopLeft, Enabled, HasTaker;
    RingOfInv(st);
    if steps == [] {
      if forall step :: Enabled(st, step) ==> !Winding(step) {
        if !st.master.Done? {
          var step := StopCanGoOn(st);
        }
        DoneIsFinal(st);
      }
    } else {
      StopProgress(st, steps[0]);
      StaysUnblocked(st, steps[0]);
      StopCompletes(Apply(st, steps[0]), steps[1..]);
    }
  }

  /**
   The rest of the listener loop: with a stop requested, the ring full and no worker to come, the master
   in its accept loop is not blocked and can finish, but one more accepted socket blocks it for ever.
   */
  lemma OneMoreAcceptBlocks(st: State, sp: Socket, starts: bool)
    requires Inv(st) && st.master.Serving? && st.ctx.stopFlag != 0
    requires st.ctx.head - st.ctx.tail == CAPACITY && !HasTaker(st)
    ensures !Blocked(st) && CanFinish(st)
    ensures Enabled(st, Accept(sp, starts, 0)) && Blocked(Apply(st, Accept(sp, starts, 0)))
    ensures !CanFinish(Apply(st, Accept(sp, starts, 0)))
  {
    hide Inv, HasTaker, CanFinish;
    RingOfInv(st);
    ServingFinishes(st);
    NoTakers(st);
    var after := Apply(st, Accept(sp, starts, 0));
    SameWorkers(st, after);
    NeverFinishes(after);
  }

  /** Some run from here blocks the master. */
  ghost predicate MayBlock(st: State) {
    exists steps :: Legal(st, steps) && Blocked(Run(st, steps))
  }

  lemma BlocksLater(st: State, step: Step)
    requires RingOk(st.ctx) && Enabled(st, step) && MayBlock(Apply(st, step))
    ensures MayBlock(st)
  {
    hide Apply, Enabled, Blocked;
    var rest :| Legal(Apply(st, step), rest) && Blocked(Run(Apply(st, step), rest));
    RunOn(st, step, rest);
  }

  lemma BlocksNow(st: State)
    requires Blocked(st)
    ensures MayBlock(st)
  {
    assert Legal(st, []) && Run(st, []) == st;
  }

  /** Without a taker, accepts fill the ring if no thread can be started. */
  lemma {:induction false} AcceptsBlock(st: State)
    requires Inv(st) && st.master.Serving? && !HasTaker(st)
    ensures RingOk(st.ctx) && MayBlock(st)
    decreases RingOk(st.ctx), if RingOk(st.ctx) then CAPACITY - (st.ctx.head - st.ctx.tail) else 0
  {
    hide Inv, HasTaker, MayBlock, Queued;
    RingOfInv(st);
    var step := Accept(8, false, 0);
    NoTakers(st);
    var next := Apply(st, step);
    SameWorkers(st, next);
    if next.master.PutWaiting? {
      BlocksNow(next);
    } else {
      StepKeepsInv(st, step);
      AcceptsBlock(next);
    }
    BlocksLater(st, step);
  }

  lemma TakerProgress(st: State, step: Step)
    requires Inv(st) && Enabled(st, step) && (step.GetSocket? || step.WorkerWakes? || step.Timeout?)
    ensures RingOk(Apply(st, step).ctx) && StopLeft(Apply(st, step)) < StopLeft(st)
    ensures InFini(Apply(st, step)) <==> InFini(st)
  {
    hide Inv, StopLeft, Queued, Wrapped;
    RingOfInv(st);
    match step
    case GetSocket(w) => AtQueueProgress(st, w, st.ctx.(numIdle := st.ctx.numIdle + 1));
    case WorkerWakes(w) => AtQueueProgress(st, w, st.ctx);
    case Timeout(w) => TimeoutProgress(st, w);
  }

  lemma AtQueueProgress(st: State, w: nat, ctx: Shared)
    requires Inv(st) && AtQueue(st, w, ctx)
    ensures RingOk(Get(st.(ctx := ctx), w).ctx) && StopLeft(Get(st.(ctx := ctx), w)) < StopLeft(st)
  {
    hide Inv, StopLeft, Get;
    TakeProgress(st, w, ctx);
  }

  lemma TimeoutProgress(st: State, w: nat)
    requires RingOk(st.ctx) && In(st, w, Waiting)
    ensures StopLeft(Apply(st, Timeout(w))) < StopLeft(st)
  {
    hide Queued, WorkersWeight;
    WeightMoves(st.workers, w, TimedOut);
  }

  /** As long as mg_fini has not begun, some run blocks the master. */
  lemma {:induction false} BlocksBeforeFini(st: State)
    requires Inv(st) && !InFini(st)
    ensures RingOk(st.ctx) && MayBlock(st)
    decreases RingOk(st.ctx), if RingOk(st.ctx) then StopLeft(st) else 0
  {
    hide Inv, HasTaker, MayBlock, StopLeft, Apply, Enabled, MayWake;
    RingOfInv(st);
    if Blocked(st) {
      BlocksNow(st);
    } else if st.master.Serving? && !HasTaker(st) {
      AcceptsBlock(st);
    } else if HasTaker(st) && !(st.master.PutSignalled? && st.ctx.head - st.ctx.tail < CAPACITY) {
      var step := TakerStep(st);
      TakerProgress(st, step);
      StepKeepsInv(st, step);
      BlocksBeforeFini(Apply(st, step));
      BlocksLater(st, step);
    } else {
      WaitsWhenFull(st);
      var woken := SomeWake(st.workers);
      BackToServing(st, woken);
      BlocksBeforeFini(Apply(st, PutWakes(false, woken)));
      BlocksLater(st, PutWakes(false, woken));
    }
  }

  lemma BackToServing(st: State, woken: nat)
    requires Inv(st) && st.master.PutSignalled? && st.ctx.head - st.ctx.tail < CAPACITY && MayWake(st.workers, woken)
    ensures RingOk(st.ctx) && Enabled(st, PutWakes(false, woken))
    ensures var after := Apply(st, PutWakes(false, woken));
            Inv(after) && RingOk(after.ctx) && !InFini(after) && StopLeft(after) < StopLeft(st)
  {
    hide Inv, MayWake, StopLeft, PutWorkers;
    RingOfInv(st);
    StepKeepsInv(st, PutWakes(false, woken));
    PutProgress(st, false, woken);
  }

  lemma {:induction false} FiniStays(st: State, steps: seq<Step>)
    requires Inv(st) && InFini(st) && Legal(st, steps)
    ensures InFini(Run(st, steps))
    decreases |steps|
  {
    hide Inv, Apply;
    if steps != [] {
      StepKeepsInv(st, steps[0]);
      FiniStep(st, steps[0]);
      FiniStays(Apply(st, steps[0]), steps[1..]);
    }
  }

  lemma FiniStep(st: State, step: Step)
    requires RingOk(st.ctx) && InFini(st) && Enabled(st, step)
    ensures InFini(Apply(st, step))
  {
    hide Queued, Wrapped;
  }

  /** Some run blocks the master for ever exactly as long as mg_fini has not begun. */
  lemma MayBlockUntilFini(st: State)
    requires Inv(st)
    ensures MayBlock(st) <==> !InFini(st)
  {
    hide Inv, HasTaker;
    if InFini(st) {
      if MayBlock(st) {
        var steps :| Legal(st, steps) && Blocked(Run(st, steps));
        FiniStays(st, steps);
      }
    } else {
      BlocksBeforeFini(st);
    }
  }

  /** n accept steps that start no thread. */
  function Accepts(n: nat): seq<Step> {
    if n == 0 then [] else [Accept(8, false, 0)] + Accepts(n - 1)
  }

  /** With one worker, timed out but still counted, the master fills the ring and then waits. */
  lemma {:induction false} FillsUp(st: State)
    requires RingOk(st.ctx) && st.master.Serving? && st.workers == [TimedOut] && st.ctx.numIdle == 1
    ensures var n := CAPACITY - (st.ctx.head - st.ctx.tail) + 1;
            && Legal(st, Accepts(n))
            && var end := Run(st, Accepts(n));
               && RingOk(end.ctx) && end.master.PutWaiting? && end.ctx.head - end.ctx.tail == CAPACITY
               && end.workers == [TimedOut] && end.ctx.numThreads == st.ctx.numThreads
               && end.ctx.stopFlag == st.ctx.stopFlag
    decreases CAPACITY - (st.ctx.head - st.ctx.tail)
  {
    hide Queued;
    var step := Accept(8, false, 0);
    var n: nat := CAPACITY - (st.ctx.head - st.ctx.tail) + 1;
    var next := Apply(st, step);
    assert Accepts(n)[0] == step && Accepts(n)[1..] == Accepts(n - 1);
    if n == 1 {
      assert Accepts(0) == [] && Legal(next, []) && Run(next, []) == next;
    } else {
      FillsUp(next);
    }
  }

  lemma {:induction false} RunsJoin(st: State, a: seq<Step>, b: seq<Step>)
    requires Legal(st, a) && Legal(Run(st, a), b)
    ensures Legal(st, a + b) && Run(st, a + b) == Run(Run(st, a), b)
    decreases |a|
  {
    hide Apply, Enabled;
    if a == [] {
      assert a + b == b;
    } else {
      assert (a + b)[1..] == a[1..] + b;
      RunsJoin(Apply(st, a[0]), a[1..], b);
    }
  }

  /**
   One worker allowed: it times out, twenty-one sockets arrive, it leaves.  The master waits in
   put_socket with no thread left, and a stop requested then never completes.
   */
  lemma BlockedMaster(slots: seq<Socket>)
    requires |slots| == CAPACITY
    ensures exists steps ::
              && Legal(Init(slots, 1), steps)
              && var st := Run(Init(slots, 1), steps);
                 Blocked(st) && st.ctx.numThreads == 0 && st.ctx.stopFlag != 0 && !CanFinish(st)
  {
    hide Legal, Run, Accepts, CanFinish, Inv;
    var s0 := OneIdle(slots);
    var s1 := Apply(s0, Timeout(0));
    FillsUp(s1);
    var filling := Accepts(CAPACITY + 1);
    var s2 := Run(s1, filling);
    var s3 := Apply(s2, Exit(0));
    RunNothing(Apply(s3, RequestStop));
    var st := Apply(s3, RequestStop);
    RunOn(s3, RequestStop, []);
    RunOn(s2, Exit(0), [RequestStop] + []);
    RunsJoin(s1, filling, [Exit(0)] + ([RequestStop] + []));
    RunOn(s0, Timeout(0), filling + ([Exit(0)] + ([RequestStop] + [])));
    ServedAndIdle(slots, [Timeout(0)] + (filling + ([Exit(0)] + ([RequestStop] + []))));
    assert Blocked(st);
    NeverFinishes(st);
  }
}
