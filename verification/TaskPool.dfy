/** The thread pool of src/task.c as a state machine.

    Each section that holds task_mutex is one atomic step; between two such sections a thread
    is inside the task's own function, or is signalling or freeing the finished task.  Any
    number of tasks may be submitted, at any time, from any thread.  `Pool` is what the mutex
    protects; `System` adds the threads themselves and the history of the run. */
module TaskPool {
  import opened Common

  const MAX_ACTIVE_WORKERS := 4
  const MAX_ACTIVE_THREADS := 32

  /** `id` is the position in submission order. */
  datatype Task = Task(id: nat, worker: bool, detached: bool)

  datatype Pool = Pool(queue: seq<Task>, activeWorkers: int, activeThreads: int)

  // ---------------------------------------------------------------- the three locked sections

  predicate Eligible(t: Task, activeWorkers: int) {
    !t.worker || activeWorkers < MAX_ACTIVE_WORKERS
  }

  /** Where the search of thread_func stops: the first task that may run now, or the end. */
  function FirstEligible(q: seq<Task>, activeWorkers: int): (i: nat)
    ensures i <= |q|
    ensures forall k :: 0 <= k < i ==> !Eligible(q[k], activeWorkers)
    ensures i < |q| ==> Eligible(q[i], activeWorkers)
  {
    if q == [] || Eligible(q[0], activeWorkers) then 0 else 1 + FirstEligible(q[1..], activeWorkers)
  }

  predicate Spawns(p: Pool) {
    p.activeThreads < MAX_ACTIVE_THREADS && p.activeWorkers < MAX_ACTIVE_WORKERS
  }

  /** start(): queue the task, and spawn a thread unless a limit is reached. */
  function Start(p: Pool, t: Task): Pool {
    Pool(p.queue + [t], p.activeWorkers, if Spawns(p) then p.activeThreads + 1 else p.activeThreads)
  }

  function TakeAt(p: Pool, i: nat): (Pool, Option<Task>)
    requires i <= |p.queue|
  {
    if i == |p.queue| then
      (p.(activeThreads := p.activeThreads - 1), None)
    else
      var t := p.queue[i];
      (Pool(Without(p.queue, i), if t.worker then p.activeWorkers + 1 else p.activeWorkers, p.activeThreads), Some(t))
  }

  /** The first section of the loop: take a task, or account for the thread's exit. */
  function Take(p: Pool): (Pool, Option<Task>) {
    TakeAt(p, FirstEligible(p.queue, p.activeWorkers))
  }

  /** The second section: the task's function has returned. */
  function Finish(p: Pool, t: Task): Pool {
    if t.worker then p.(activeWorkers := p.activeWorkers - 1) else p
  }

  // ---------------------------------------------------------------- the whole system

  /** Where a live thread is: about to take the lock at the top of the loop, inside the task's
      function, or past it and about to signal or free the task. */
  datatype Phase = Looking | Running(task: Task) | Notifying(task: Task)

  datatype Event = Started(id: nat) | Signalled(id: nat) | Freed(id: nat)

  datatype System = System(
    pool: Pool,
    threads: map<nat, Phase>,
    spawned: nat,
    submitted: seq<Task>,
    log: seq<Event>)

  datatype Step =
    | Submit(worker: bool, detached: bool)
    | Look(thread: nat)
    | Return(thread: nat)
    | Notify(thread: nat)

  const INITIAL := System(Pool([], 0, 0), map[], 0, [], [])

  predicate Enabled(s: System, step: Step) {
    match step
    case Submit(_, _) => true
    case Look(th) => th in s.threads && s.threads[th].Looking?
    case Return(th) => th in s.threads && s.threads[th].Running?
    case Notify(th) => th in s.threads && s.threads[th].Notifying?
  }

  function NewTask(s: System, worker: bool, detached: bool): Task {
    Task(|s.submitted|, worker, detached)
  }

  function Next(s: System, step: Step): System
    requires Enabled(s, step)
  {
    match step
    case Submit(worker, detached) =>
      var t := NewTask(s, worker, detached);
      s.(pool := Start(s.pool, t),
         threads := if Spawns(s.pool) then s.threads[s.spawned := Looking] else s.threads,
         spawned := if Spawns(s.pool) then s.spawned + 1 else s.spawned,
         submitted := s.submitted + [t])
    case Look(th) =>
      var (pool, taken) := Take(s.pool);
      if taken.None? then
        s.(pool := pool, threads := s.threads - {th})
      else
        s.(pool := pool,
           threads := s.threads[th := Running(taken.value)],
           log := s.log + [Started(taken.value.id)])
    case Return(th) =>
      var t := s.threads[th].task;
      s.(pool := Finish(s.pool, t), threads := s.threads[th := Notifying(t)])
    case Notify(th) =>
      var t := s.threads[th].task;
      s.(threads := s.threads[th := Looking],
         log := s.log + [if t.detached then Freed(t.id) else Signalled(t.id)])
  }

  ghost predicate Possible(s: System, steps: seq<Step>)
    decreases |steps|
  {
    steps == [] || (Enabled(s, steps[0]) && Possible(Next(s, steps[0]), steps[1..]))
  }

  ghost function Run(s: System, steps: seq<Step>): System
    requires Possible(s, steps)
    decreases |steps|
  {
    if steps == [] then s else Run(Next(s, steps[0]), steps[1..])
  }

  // ---------------------------------------------------------------- counters

  ghost function Where(threads: map<nat, Phase>, p: Phase -> bool): set<nat> {
    set th | th in threads && p(threads[th])
  }

  ghost function WorkerThreads(threads: map<nat, Phase>): set<nat> {
    Where(threads, (phase: Phase) => phase.Running? && phase.task.worker)
  }

  ghost function RunningThreads(threads: map<nat, Phase>): set<nat> {
    Where(threads, (phase: Phase) => phase.Running?)
  }

  ghost function BusyThreads(threads: map<nat, Phase>): set<nat> {
    Where(threads, (phase: Phase) => !phase.Looking?)
  }

  /** The two counters count what their names say, within the limits, and a queued task is
      never left without a live thread. */
  ghost predicate Counters(s: System) {
    && s.pool.activeWorkers == |WorkerThreads(s.threads)| <= MAX_ACTIVE_WORKERS
    && s.pool.activeThreads == |s.threads| <= MAX_ACTIVE_THREADS
    && (forall th :: th in s.threads ==> th < s.spawned)
    && (s.pool.queue != [] ==> |s.threads| > 0)
  }

  lemma WorkersAreThreads(threads: map<nat, Phase>)
    ensures |WorkerThreads(threads)| <= |threads|
  {
    SubsetSize(WorkerThreads(threads), threads.Keys);
  }

  lemma EntersWhere(threads: map<nat, Phase>, th: nat, phase: Phase, p: Phase -> bool)
    ensures Where(threads[th := phase], p) == (if p(phase) then Where(threads, p) + {th} else Where(threads, p) - {th})
  {
  }

  lemma ExitsWhere(threads: map<nat, Phase>, th: nat, p: Phase -> bool)
    requires th in threads && !p(threads[th])
    ensures Where(threads - {th}, p) == Where(threads, p)
  {
  }

  lemma EntersCount(threads: map<nat, Phase>, th: nat, phase: Phase)
    ensures threads[th := phase].Keys == threads.Keys + {th}
    ensures |threads[th := phase]| == if th in threads then |threads| else |threads| + 1
  {
    var after := threads[th := phase];
    assert after.Keys == threads.Keys + {th};
    assert |after| == |after.Keys| && |threads| == |threads.Keys|;
  }

  /** How the number of threads and the three sets change when one thread enters a phase. */
  lemma Enters(threads: map<nat, Phase>, th: nat, phase: Phase)
    ensures var after := threads[th := phase];
      && |after| == (if th in threads then |threads| else |threads| + 1)
      && WorkerThreads(after)
         == (if phase.Running? && phase.task.worker then WorkerThreads(threads) + {th}
             else WorkerThreads(threads) - {th})
      && RunningThreads(after)
         == (if phase.Running? then RunningThreads(threads) + {th} else RunningThreads(threads) - {th})
      && BusyThreads(after) == (if phase.Looking? then BusyThreads(threads) - {th} else BusyThreads(threads) + {th})
  {
    EntersCount(threads, th, phase);
    EntersWhere(threads, th, phase, (phase: Phase) => phase.Running? && phase.task.worker);
    EntersWhere(threads, th, phase, (phase: Phase) => phase.Running?);
    EntersWhere(threads, th, phase, (phase: Phase) => !phase.Looking?);
  }

  /** How they change when a thread that is looking for work exits. */
  lemma Exits(threads: map<nat, Phase>, th: nat)
    requires th in threads && threads[th].Looking?
    ensures var after := threads - {th};
      && after.Keys == threads.Keys - {th}
      && |after| == |threads| - 1
      && WorkerThreads(after) == WorkerThreads(threads)
      && RunningThreads(after) == RunningThreads(threads)
      && BusyThreads(after) == BusyThreads(threads)
  {
    assert (threads - {th}).Keys == threads.Keys - {th};
    assert |threads - {th}| == |threads.Keys - {th}|;
    ExitsWhere(threads, th, (phase: Phase) => phase.Running? && phase.task.worker);
    ExitsWhere(threads, th, (phase: Phase) => phase.Running?);
    ExitsWhere(threads, th, (phase: Phase) => !phase.Looking?);
  }

  lemma CountersSubmit(s: System, worker: bool, detached: bool)
    requires Counters(s)
    ensures Counters(Next(s, Submit(worker, detached)))
  {
    WorkersAreThreads(s.threads);
    Enters(s.threads, s.spawned, Looking);
  }

  lemma CountersLook(s: System, th: nat)
    requires Counters(s) && Enabled(s, Look(th))
    ensures Counters(Next(s, Look(th)))
  {
    var taken := Take(s.pool).1;
    if taken.None? {
      Exits(s.threads, th);
      if s.pool.queue != [] {
        assert !Eligible(s.pool.queue[0], s.pool.activeWorkers);
        WorkersAreThreads(s.threads - {th});
      }
    } else {
      Enters(s.threads, th, Running(taken.value));
    }
  }

  lemma CountersReturn(s: System, th: nat)
    requires Counters(s) && Enabled(s, Return(th))
    ensures Counters(Next(s, Return(th)))
  {
    Enters(s.threads, th, Notifying(s.threads[th].task));
  }

  lemma CountersNotify(s: System, th: nat)
    requires Counters(s) && Enabled(s, Notify(th))
    ensures Counters(Next(s, Notify(th)))
  {
    Enters(s.threads, th, Looking);
  }

  // ---------------------------------------------------------------- history

  ghost predicate Queued(s: System, i: nat) {
    InQueue(s.pool.queue, i)
  }

  ghost predicate InQueue(q: seq<Task>, i: nat) {
    exists a :: 0 <= a < |q| && q[a].id == i
  }

  ghost predicate Holds(s: System, th: nat, i: nat) {
    th in s.threads && !s.threads[th].Looking? && s.threads[th].task.id == i
  }

  ghost predicate Held(s: System, i: nat) {
    exists th :: Holds(s, th, i)
  }

  ghost predicate Done(s: System, i: nat) {
    i < |s.submitted| && !Queued(s, i) && !Held(s, i)
  }

  /** The queue holds submitted tasks in submission order. */
  ghost predicate QueueShape(s: System) {
    && (forall i :: 0 <= i < |s.submitted| ==> s.submitted[i].id == i)
    && (forall a :: 0 <= a < |s.pool.queue| ==>
          s.pool.queue[a].id < |s.submitted| && s.submitted[s.pool.queue[a].id] == s.pool.queue[a])
    && (forall a, b :: 0 <= a < b < |s.pool.queue| ==> s.pool.queue[a].id < s.pool.queue[b].id)
  }

  /** Busy threads hold distinct submitted tasks, none of which is still queued. */
  ghost predicate ThreadShape(s: System) {
    && (forall th :: th in s.threads && !s.threads[th].Looking? ==>
          && s.threads[th].task.id < |s.submitted|
          && s.submitted[s.threads[th].task.id] == s.threads[th].task
          && !Queued(s, s.threads[th].task.id))
    && (forall th, th', i :: Holds(s, th, i) && Holds(s, th', i) ==> th == th')
  }

  function Count(log: seq<Event>, e: Event): nat {
    multiset(log)[e]
  }

  /** Task `i` has been started once if it has left the queue, and signalled once (freed once,
      if it was launched detached) if its thread has let go of it; never more than once. */
  ghost predicate Accounted(s: System, i: nat) {
    && Count(s.log, Started(i)) == (if i < |s.submitted| && !Queued(s, i) then 1 else 0)
    && Count(s.log, Signalled(i)) == (if Done(s, i) && !s.submitted[i].detached then 1 else 0)
    && Count(s.log, Freed(i)) == (if Done(s, i) && s.submitted[i].detached then 1 else 0)
  }

  /** Task `j` was preferred to the earlier task `i` only because `i` is a worker and `j` is not. */
  predicate MayOvertake(s: System, j: nat, i: nat) {
    i < |s.submitted| && j < |s.submitted| && s.submitted[i].worker && !s.submitted[j].worker
  }

  ghost predicate StartOrder(s: System) {
    && (forall a, b :: 0 <= a < b < |s.log| && s.log[a].Started? && s.log[b].Started? && s.log[b].id < s.log[a].id ==>
          MayOvertake(s, s.log[a].id, s.log[b].id))
    && (forall a, i: nat :: 0 <= a < |s.log| && s.log[a].Started? && i < s.log[a].id && Queued(s, i) ==>
          MayOvertake(s, s.log[a].id, i))
    && (forall a :: 0 <= a < |s.log| ==> s.log[a].id < |s.submitted|)
  }

  ghost predicate Shape(s: System) {
    QueueShape(s) && ThreadShape(s)
  }

  // Submit

  lemma QueuedSubmit(s: System, worker: bool, detached: bool, i: nat)
    ensures var s' := Next(s, Submit(worker, detached));
      Queued(s', i) <==> Queued(s, i) || i == |s.submitted|
  {
    var s' := Next(s, Submit(worker, detached));
    var n := |s.pool.queue|;
    if Queued(s, i) {
      var a :| 0 <= a < n && s.pool.queue[a].id == i;
      assert s'.pool.queue[a].id == i;
    }
    assert s'.pool.queue[n].id == |s.submitted|;
  }

  lemma HoldsSubmit(s: System, worker: bool, detached: bool)
    requires Counters(s)
    ensures forall th, i :: Holds(Next(s, Submit(worker, detached)), th, i) <==> Holds(s, th, i)
  {
  }

  lemma ShapeSubmit(s: System, worker: bool, detached: bool)
    requires Counters(s) && Shape(s)
    ensures Shape(Next(s, Submit(worker, detached)))
  {
    forall i: nat { QueuedSubmit(s, worker, detached, i); }
    HoldsSubmit(s, worker, detached);
  }

  lemma AccountedSubmit(s: System, worker: bool, detached: bool, i: nat)
    requires Counters(s) && Shape(s) && Accounted(s, i)
    ensures Accounted(Next(s, Submit(worker, detached)), i)
  {
    QueuedSubmit(s, worker, detached, i);
    HoldsSubmit(s, worker, detached);
  }

  lemma OrderSubmit(s: System, worker: bool, detached: bool)
    requires StartOrder(s)
    ensures StartOrder(Next(s, Submit(worker, detached)))
  {
    forall i: nat { QueuedSubmit(s, worker, detached, i); }
  }

  // Look

  lemma InQueueWithout(q: seq<Task>, k: nat, i: nat)
    requires k < |q|
    requires forall a, b :: 0 <= a < b < |q| ==> q[a].id < q[b].id
    ensures InQueue(Without(q, k), i) <==> InQueue(q, i) && q[k].id != i
  {
    var q' := Without(q, k);
    if InQueue(q, i) && q[k].id != i {
      var a :| 0 <= a < |q| && q[a].id == i;
      assert q'[if a < k then a else a - 1].id == i;
    }
    if InQueue(q', i) {
      var a :| 0 <= a < |q'| && q'[a].id == i;
      assert q[if a < k then a else a + 1].id == i;
    }
  }

  /** Unless the thread exits, it takes the task at `k`; exactly that task leaves the queue. */
  lemma QueuedLook(s: System, th: nat, i: nat)
    requires QueueShape(s) && Enabled(s, Look(th))
    ensures var s' := Next(s, Look(th));
      var k := FirstEligible(s.pool.queue, s.pool.activeWorkers);
      Queued(s', i) <==> Queued(s, i) && !(k < |s.pool.queue| && s.pool.queue[k].id == i)
  {
    var k := FirstEligible(s.pool.queue, s.pool.activeWorkers);
    if k < |s.pool.queue| {
      InQueueWithout(s.pool.queue, k, i);
    }
  }

  lemma HoldsLook(s: System, th: nat)
    requires Enabled(s, Look(th))
    ensures var s' := Next(s, Look(th));
      var k := FirstEligible(s.pool.queue, s.pool.activeWorkers);
      forall x, i ::
        Holds(s', x, i) <==> Holds(s, x, i) || (x == th && k < |s.pool.queue| && s.pool.queue[k].id == i)
  {
  }

  lemma QueueShapeLook(s: System, th: nat)
    requires QueueShape(s) && Enabled(s, Look(th))
    ensures QueueShape(Next(s, Look(th)))
  {
  }

  lemma ThreadShapeLook(s: System, th: nat)
    requires Shape(s) && Enabled(s, Look(th))
    ensures ThreadShape(Next(s, Look(th)))
  {
    var s' := Next(s, Look(th));
    var k := FirstEligible(s.pool.queue, s.pool.activeWorkers);
    forall i: nat { QueuedLook(s, th, i); }
    HoldsLook(s, th);
    forall x, y, i | Holds(s', x, i) && Holds(s', y, i)
      ensures x == y
    {
      if k < |s.pool.queue| && s.pool.queue[k].id == i {
        assert Queued(s, i);
      }
    }
  }

  lemma AccountedLook(s: System, th: nat, i: nat)
    requires Shape(s) && Enabled(s, Look(th)) && Accounted(s, i)
    ensures Accounted(Next(s, Look(th)), i)
  {
    var s' := Next(s, Look(th));
    var k := FirstEligible(s.pool.queue, s.pool.activeWorkers);
    QueuedLook(s, th, i);
    HoldsLook(s, th);
    if k < |s.pool.queue| {
      LogCount(s.log, Started(s.pool.queue[k].id));
      if s.pool.queue[k].id == i {
        assert Queued(s, i) && Holds(s', th, i);
      } else {
        assert Held(s', i) <==> Held(s, i) by { HeldAgrees(s, s', i); }
      }
    } else {
      assert Held(s', i) <==> Held(s, i) by { HeldAgrees(s, s', i); }
    }
  }

  lemma HeldAgrees(s: System, s': System, i: nat)
    requires forall x :: Holds(s', x, i) <==> Holds(s, x, i)
    ensures Held(s', i) <==> Held(s, i)
  {
  }

  lemma LogCount(log: seq<Event>, e: Event)
    ensures forall x :: Count(log + [e], x) == Count(log, x) + if x == e then 1 else 0
  {
    assert multiset(log + [e]) == multiset(log) + multiset{e};
  }

  /** Every task queued before the one taken is a worker, and the one taken is not. */
  lemma Skipped(s: System, i: nat)
    requires QueueShape(s)
    requires FirstEligible(s.pool.queue, s.pool.activeWorkers) < |s.pool.queue|
    requires Queued(s, i) && i < s.pool.queue[FirstEligible(s.pool.queue, s.pool.activeWorkers)].id
    ensures MayOvertake(s, s.pool.queue[FirstEligible(s.pool.queue, s.pool.activeWorkers)].id, i)
    ensures s.pool.activeWorkers >= MAX_ACTIVE_WORKERS
  {
    var q := s.pool.queue;
    var k := FirstEligible(q, s.pool.activeWorkers);
    var a :| 0 <= a < |q| && q[a].id == i;
    assert a < k;
    assert !Eligible(q[a], s.pool.activeWorkers);
  }

  lemma OrderLook(s: System, th: nat)
    requires Shape(s) && StartOrder(s) && Enabled(s, Look(th))
    ensures StartOrder(Next(s, Look(th)))
  {
    var s', q := Next(s, Look(th)), s.pool.queue;
    var k := FirstEligible(q, s.pool.activeWorkers);
    forall i: nat { QueuedLook(s, th, i); }
    if k < |q| {
      var n := |s.log|;
      assert Queued(s, q[k].id);
      forall a | 0 <= a < |s'.log| && s'.log[a].Started?
        ensures forall i: nat :: i < s'.log[a].id && Queued(s', i) ==> MayOvertake(s', s'.log[a].id, i)
      {
        forall i: nat | i < s'.log[a].id && Queued(s', i)
          ensures MayOvertake(s', s'.log[a].id, i)
        {
          if a == n {
            Skipped(s, i);
          }
        }
      }
    }
  }

  // Return and Notify leave the queue alone

  lemma QueuedSame(s: System, s': System, i: nat)
    requires s'.pool.queue == s.pool.queue
    ensures Queued(s', i) <==> Queued(s, i)
  {
  }

  lemma ShapeReturn(s: System, th: nat)
    requires Shape(s) && Enabled(s, Return(th))
    ensures Shape(Next(s, Return(th)))
    ensures forall x, i :: Holds(Next(s, Return(th)), x, i) <==> Holds(s, x, i)
  {
    var s' := Next(s, Return(th));
    forall i: nat { QueuedSame(s, s', i); }
    assert forall x, i :: Holds(s', x, i) <==> Holds(s, x, i);
  }

  lemma AccountedReturn(s: System, th: nat, i: nat)
    requires Shape(s) && Enabled(s, Return(th)) && Accounted(s, i)
    ensures Accounted(Next(s, Return(th)), i)
  {
    ShapeReturn(s, th);
    QueuedSame(s, Next(s, Return(th)), i);
    HeldAgrees(s, Next(s, Return(th)), i);
  }

  lemma HoldsNotify(s: System, th: nat)
    requires Enabled(s, Notify(th))
    ensures forall x, i :: Holds(Next(s, Notify(th)), x, i) <==> Holds(s, x, i) && x != th
  {
  }

  lemma ShapeNotify(s: System, th: nat)
    requires Shape(s) && Enabled(s, Notify(th))
    ensures Shape(Next(s, Notify(th)))
  {
    forall i: nat { QueuedSame(s, Next(s, Notify(th)), i); }
    HoldsNotify(s, th);
  }

  lemma AccountedNotify(s: System, th: nat, i: nat)
    requires Shape(s) && Enabled(s, Notify(th)) && Accounted(s, i)
    ensures Accounted(Next(s, Notify(th)), i)
  {
    var s', t := Next(s, Notify(th)), s.threads[th].task;
    QueuedSame(s, s', i);
    HoldsNotify(s, th);
    LogCount(s.log, if t.detached then Freed(t.id) else Signalled(t.id));
    assert Holds(s, th, t.id);
    if i != t.id {
      HeldAgrees(s, s', i);
    }
  }

  // ---------------------------------------------------------------- the invariant over all runs

  ghost predicate Invariant(s: System) {
    Counters(s) && Shape(s) && StartOrder(s) && forall i: nat :: Accounted(s, i)
  }

  lemma InvariantInitial()
    ensures Invariant(INITIAL)
  {
  }

  lemma OrderSameQueue(s: System, s': System)
    requires StartOrder(s) && s'.pool.queue == s.pool.queue && s'.submitted == s.submitted
    requires s'.log == s.log || exists e: Event :: s'.log == s.log + [e] && !e.Started? && e.id < |s.submitted|
    ensures StartOrder(s')
  {
    forall i: nat { QueuedSame(s, s', i); }
  }

  lemma InvariantStep(s: System, step: Step)
    requires Invariant(s) && Enabled(s, step)
    ensures Invariant(Next(s, step))
  {
    match step
    case Submit(w, d) =>
      CountersSubmit(s, w, d);
      ShapeSubmit(s, w, d);
      OrderSubmit(s, w, d);
      forall i: nat { AccountedSubmit(s, w, d, i); }
    case Look(th) =>
      CountersLook(s, th);
      QueueShapeLook(s, th);
      ThreadShapeLook(s, th);
      OrderLook(s, th);
      forall i: nat { AccountedLook(s, th, i); }
    case Return(th) =>
      CountersReturn(s, th);
      ShapeReturn(s, th);
      OrderSameQueue(s, Next(s, step));
      forall i: nat { AccountedReturn(s, th, i); }
    case Notify(th) =>
      CountersNotify(s, th);
      ShapeNotify(s, th);
      var t := s.threads[th].task;
      var e := if t.detached then Freed(t.id) else Signalled(t.id);
      assert Next(s, step).log == s.log + [e];
      OrderSameQueue(s, Next(s, step));
      forall i: nat { AccountedNotify(s, th, i); }
  }

  lemma {:induction false} InvariantRun(s: System, steps: seq<Step>)
    requires Invariant(s) && Possible(s, steps)
    ensures Invariant(Run(s, steps))
    decreases |steps|
  {
    if steps != [] {
      InvariantStep(s, steps[0]);
      InvariantRun(Next(s, steps[0]), steps[1..]);
    }
  }
}
