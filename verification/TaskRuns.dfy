/** What the invariant of TaskPool means for whole runs of the pool. */
module TaskRuns {
  import opened Common
  import opened TaskPool

  /** Any run from the empty pool, with any interleaving of submissions and threads, keeps the
      counters equal to what they count and within their limits, and never strands a task. */
  lemma {:induction false} CountersAreExact(steps: seq<Step>)
    requires Possible(INITIAL, steps)
    ensures var s := Run(INITIAL, steps);
      && s.pool.activeWorkers == |WorkerThreads(s.threads)| <= MAX_ACTIVE_WORKERS
      && s.pool.activeThreads == |s.threads| <= MAX_ACTIVE_THREADS
      && (s.pool.queue != [] ==> exists th :: th in s.threads)
  {
    InvariantInitial();
    InvariantRun(INITIAL, steps);
    var s := Run(INITIAL, steps);
    if s.pool.queue != [] {
      assert |s.threads.Keys| > 0;
      var th :| th in s.threads.Keys;
      assert th in s.threads;
    }
  }

  /** What submitting a task does to the threads, after any run and for any kind of task: a thread
      more, about to look for work, if and only if fewer than 32 are live and fewer than four are
      inside worker tasks, however many tasks wait.  No other thread moves, and the task is queued
      behind all others. */
  lemma {:induction false} SubmitSpawns(steps: seq<Step>, worker: bool, detached: bool)
    requires Possible(INITIAL, steps)
    ensures var s, s' := Run(INITIAL, steps), Next(Run(INITIAL, steps), Submit(worker, detached));
      && (|s'.threads| == |s.threads| + 1 <==> |s.threads| < 32 && |WorkerThreads(s.threads)| < 4)
      && (forall th :: th in s.threads ==> th in s'.threads && s'.threads[th] == s.threads[th])
      && (forall th :: th in s'.threads && th !in s.threads ==> s'.threads[th] == Looking)
      && |s.threads| <= |s'.threads| <= |s.threads| + 1
      && s'.pool.queue == s.pool.queue + [Task(|s.submitted|, worker, detached)]
      && s'.submitted == s.submitted + [Task(|s.submitted|, worker, detached)] && s'.log == s.log
  {
    CountersAreExact(steps);
    ReachedShape(steps);
    EntersCount(Run(INITIAL, steps).threads, Run(INITIAL, steps).spawned, Looking);
  }

  /** A task may run at once: it is no worker, or fewer than four threads are inside workers. */
  ghost predicate MayRun(s: System, t: Task) {
    t.worker ==> |WorkerThreads(s.threads)| < 4
  }

  /** The first of the queued tasks that may run. */
  ghost predicate FirstToRun(s: System, k: nat) {
    && k < |s.pool.queue| && MayRun(s, s.pool.queue[k])
    && forall a :: 0 <= a < k ==> !MayRun(s, s.pool.queue[a])
  }

  /** What a thread that looks for work does, after any run: it takes the first of the queued tasks
      that may run, whatever its place, and exits if and only if there is none. */
  lemma {:induction false} LookTakes(steps: seq<Step>, th: nat)
    requires Possible(INITIAL, steps) && Enabled(Run(INITIAL, steps), Look(th))
    ensures var s, s' := Run(INITIAL, steps), Next(Run(INITIAL, steps), Look(th));
      && (forall k: nat :: FirstToRun(s, k) ==>
            && s'.threads == s.threads[th := Running(s.pool.queue[k])]
            && s'.pool.queue == s.pool.queue[..k] + s.pool.queue[k + 1..]
            && s'.log == s.log + [Started(s.pool.queue[k].id)])
      && ((forall a :: 0 <= a < |s.pool.queue| ==> !MayRun(s, s.pool.queue[a])) ==>
            s'.threads == s.threads - {th} && s'.pool.queue == s.pool.queue && s'.log == s.log)
  {
    CountersAreExact(steps);
    var s := Run(INITIAL, steps);
    assert forall t: Task :: MayRun(s, t) <==> Eligible(t, s.pool.activeWorkers);
    forall k: nat | FirstToRun(s, k)
      ensures FirstEligible(s.pool.queue, s.pool.activeWorkers) == k
    {
      assert Eligible(s.pool.queue[k], s.pool.activeWorkers);
    }
  }

  /** A thread that exits while tasks are queued leaves four others inside worker tasks, and
      every task it leaves behind is a worker. */
  lemma {:induction false} ExitLeavesFourWorkers(steps: seq<Step>, th: nat)
    requires Possible(INITIAL, steps) && Enabled(Run(INITIAL, steps), Look(th))
    requires th !in Next(Run(INITIAL, steps), Look(th)).threads
    requires Run(INITIAL, steps).pool.queue != []
    ensures var s' := Next(Run(INITIAL, steps), Look(th));
      && |WorkerThreads(s'.threads)| == MAX_ACTIVE_WORKERS
      && th !in WorkerThreads(s'.threads)
      && forall a :: 0 <= a < |s'.pool.queue| ==> s'.pool.queue[a].worker
  {
    var s := Run(INITIAL, steps);
    InvariantInitial();
    InvariantRun(INITIAL, steps);
    Exits(s.threads, th);
    assert forall a :: 0 <= a < |s.pool.queue| ==> !Eligible(s.pool.queue[a], s.pool.activeWorkers);
    assert !Eligible(s.pool.queue[0], s.pool.activeWorkers);
  }

  /** A task is started before an earlier submitted one that is still queued only if the earlier
      is a worker, the later is not, and four workers are running at that moment. */
  lemma {:induction false} Overtaking(steps: seq<Step>, th: nat, i: nat, j: nat)
    requires Possible(INITIAL, steps) && Enabled(Run(INITIAL, steps), Look(th))
    requires Next(Run(INITIAL, steps), Look(th)).log == Run(INITIAL, steps).log + [Started(j)]
    requires i < j && Count(Run(INITIAL, steps).log, Started(i)) == 0
    ensures var s := Run(INITIAL, steps);
      && MayOvertake(s, j, i)
      && |WorkerThreads(s.threads)| == MAX_ACTIVE_WORKERS
  {
    var s := Run(INITIAL, steps);
    InvariantInitial();
    InvariantRun(INITIAL, steps);
    var k := FirstEligible(s.pool.queue, s.pool.activeWorkers);
    assert (s.log + [Started(j)])[|s.log|] == Started(j);
    assert k < |s.pool.queue| && s.pool.queue[k].id == j;
    assert Accounted(s, i);
    Skipped(s, i);
  }

  lemma TwiceCounted(log: seq<Event>, a: nat, b: nat)
    requires a < b < |log| && log[a] == log[b]
    ensures Count(log, log[a]) >= 2
  {
    assert log == log[..b] + log[b..];
    assert log[a] in log[..b] && log[b] in log[b..];
    assert multiset(log) == multiset(log[..b]) + multiset(log[b..]);
  }

  /** So, over the whole run, the workers are started in the order they were submitted, and so
      are the other tasks. */
  lemma {:induction false} EachKindInOrder(steps: seq<Step>, a: nat, b: nat)
    requires Possible(INITIAL, steps)
    requires a < b < |Run(INITIAL, steps).log|
    requires var log := Run(INITIAL, steps).log; log[a].Started? && log[b].Started?
    ensures var s := Run(INITIAL, steps);
      && s.log[a].id < |s.submitted| && s.log[b].id < |s.submitted|
      && (s.submitted[s.log[a].id].worker == s.submitted[s.log[b].id].worker ==> s.log[a].id < s.log[b].id)
  {
    var s := Run(INITIAL, steps);
    InvariantInitial();
    InvariantRun(INITIAL, steps);
    assert Accounted(s, s.log[a].id);
    if s.log[a].id == s.log[b].id {
      TwiceCounted(s.log, a, b);
    }
  }

  // ---------------------------------------------------------------- termination

  /** Three steps left for a queued task beside the one that ends a thread: taking it moves its
      weight to the thread, which then returns, notifies and finally exits. */
  ghost function Measure(s: System): nat {
    3 * |s.pool.queue| + |s.threads| + |BusyThreads(s.threads)| + |RunningThreads(s.threads)|
  }

  predicate NoSubmission(steps: seq<Step>) {
    forall k :: 0 <= k < |steps| ==> !steps[k].Submit?
  }

  lemma MeasureStep(s: System, step: Step)
    requires Enabled(s, step) && !step.Submit?
    ensures Measure(Next(s, step)) == Measure(s) - 1
  {
    match step
    case Look(th) =>
      var taken := Take(s.pool).1;
      if taken.None? {
        Exits(s.threads, th);
      } else {
        Enters(s.threads, th, Running(taken.value));
        assert th !in BusyThreads(s.threads) && th !in RunningThreads(s.threads);
      }
    case Return(th) =>
      Enters(s.threads, th, Notifying(s.threads[th].task));
      assert th in BusyThreads(s.threads) && th in RunningThreads(s.threads);
      assert BusyThreads(s.threads) + {th} == BusyThreads(s.threads);
    case Notify(th) =>
      Enters(s.threads, th, Looking);
      assert th in BusyThreads(s.threads) && th !in RunningThreads(s.threads);
  }

  /** Without further submissions every step brings the end exactly one step nearer. */
  lemma {:induction false} MeasureRun(s: System, more: seq<Step>)
    requires Possible(s, more) && NoSubmission(more)
    ensures Measure(Run(s, more)) == Measure(s) - |more|
    decreases |more|
  {
    if more != [] {
      MeasureStep(s, more[0]);
      MeasureRun(Next(s, more[0]), more[1..]);
    }
  }

  /** The pool is never stuck: as long as anything is left to do, some thread can step. */
  lemma NeverStuck(s: System)
    requires Invariant(s) && Measure(s) > 0
    ensures exists step: Step :: !step.Submit? && Enabled(s, step)
  {
    SubsetSize(BusyThreads(s.threads), s.threads.Keys);
    SubsetSize(RunningThreads(s.threads), s.threads.Keys);
    assert |s.threads.Keys| > 0;
    var th :| th in s.threads.Keys;
    match s.threads[th]
    case Looking => assert Enabled(s, Look(th));
    case Running(_) => assert Enabled(s, Return(th));
    case Notifying(_) => assert Enabled(s, Notify(th));
  }

  predicate RanOnceAndReported(s: System, i: nat) {
    && i < |s.submitted|
    && Count(s.log, Started(i)) == 1
    && Count(s.log, Signalled(i)) == (if s.submitted[i].detached then 0 else 1)
    && Count(s.log, Freed(i)) == (if s.submitted[i].detached then 1 else 0)
  }

  /** After any run, if nothing more is submitted, every continuation has at most Measure more
      steps; while it has taken fewer another step is possible; and once it has taken that many
      the queue is empty, no thread is left, and every task ever submitted has been run exactly
      once and signalled exactly once, or freed exactly once if it was launched detached. */
  lemma {:induction false} EveryTaskCompletes(steps: seq<Step>, more: seq<Step>)
    requires Possible(INITIAL, steps) && Possible(Run(INITIAL, steps), more) && NoSubmission(more)
    ensures var s, s' := Run(INITIAL, steps), Run(Run(INITIAL, steps), more);
      && |more| <= Measure(s)
      && (|more| < Measure(s) ==> exists step: Step :: !step.Submit? && Enabled(s', step))
      && (|more| == Measure(s) ==>
            && s'.pool == Pool([], 0, 0)
            && s'.threads == map[]
            && s'.submitted == s.submitted
            && forall i :: 0 <= i < |s.submitted| ==> RanOnceAndReported(s', i))
  {
    var s := Run(INITIAL, steps);
    var s' := Run(s, more);
    InvariantInitial();
    InvariantRun(INITIAL, steps);
    InvariantRun(s, more);
    MeasureRun(s, more);
    SubmittedSame(s, more);
    if |more| < Measure(s) {
      NeverStuck(s');
    } else {
      NothingLeft(s');
    }
  }

  lemma NothingLeft(s: System)
    requires Invariant(s) && Measure(s) == 0
    ensures s.pool == Pool([], 0, 0) && s.threads == map[]
    ensures forall i :: 0 <= i < |s.submitted| ==> RanOnceAndReported(s, i)
  {
    assert |s.threads| == 0 && s.threads == map[];
    WorkersAreThreads(s.threads);
    forall i | 0 <= i < |s.submitted|
      ensures RanOnceAndReported(s, i)
    {
      assert Accounted(s, i) && !Queued(s, i) && !Held(s, i);
    }
  }

  lemma {:induction false} SubmittedSame(s: System, more: seq<Step>)
    requires Possible(s, more) && NoSubmission(more)
    ensures Run(s, more).submitted == s.submitted
    decreases |more|
  {
    if more != [] {
      SubmittedSame(Next(s, more[0]), more[1..]);
    }
  }

  // ---------------------------------------------------------------- where the limits bite

  /** Every live thread is inside a task's function, so nothing moves until one returns. */
  ghost predicate AllThreadsRunning(s: System) {
    forall th :: th in s.threads ==> s.threads[th].Running?
  }

  /** Some thread can take the lock next and start task `i`. */
  ghost predicate CanStart(s: System, i: nat) {
    exists th :: Enabled(s, Look(th)) && Next(s, Look(th)).log == s.log + [Started(i)]
  }

  /** A thread is about to look for work, or would be spawned for a submission. */
  ghost predicate ThreadToLook(s: System) {
    Spawns(s.pool) || exists th :: th in s.threads && s.threads[th].Looking?
  }

  /** After any run, a non-worker that is submitted can be started by the next thread to take the
      lock if and only if there is such a thread, and no task in the queue may run now. */
  lemma {:induction false} NextToStart(steps: seq<Step>, detached: bool)
    requires Possible(INITIAL, steps)
    ensures var s := Run(INITIAL, steps);
      CanStart(Next(s, Submit(false, detached)), |s.submitted|) <==>
        ThreadToLook(s)
        && forall a :: 0 <= a < |s.pool.queue| ==> !Eligible(s.pool.queue[a], s.pool.activeWorkers)
  {
    ReachedShape(steps);
    NonWorkerNext(Run(INITIAL, steps), detached);
  }

  /** What a look starts is the first task that may run. */
  lemma LookStarts(s: System, th: nat, i: nat)
    requires Enabled(s, Look(th))
    ensures var k := FirstEligible(s.pool.queue, s.pool.activeWorkers);
      Next(s, Look(th)).log == s.log + [Started(i)] <==> k < |s.pool.queue| && s.pool.queue[k].id == i
  {
    var log := Next(s, Look(th)).log;
    assert (s.log + [Started(i)])[|s.log|] == Started(i);
    assert log == s.log || log[..|s.log|] == s.log;
  }

  lemma NonWorkerNext(s: System, detached: bool)
    requires Counters(s) && QueueShape(s)
    ensures CanStart(Next(s, Submit(false, detached)), |s.submitted|) <==>
      ThreadToLook(s) && FirstEligible(s.pool.queue, s.pool.activeWorkers) == |s.pool.queue|
  {
    var s' := Next(s, Submit(false, detached));
    var q, t := s.pool.queue, NewTask(s, false, detached);
    FirstWithLast(q, t, s.pool.activeWorkers);
    forall th | Enabled(s', Look(th)) { LookStarts(s', th, |s.submitted|); }
    if Spawns(s.pool) {
      assert Enabled(s', Look(s.spawned));
    } else if th :| th in s.threads && s.threads[th].Looking? {
      assert Enabled(s', Look(th));
    }
  }

  /** A task that may run, at the end of the queue, is found exactly when no other is. */
  lemma {:induction false} FirstWithLast(q: seq<Task>, t: Task, activeWorkers: int)
    requires Eligible(t, activeWorkers)
    ensures FirstEligible(q + [t], activeWorkers) == FirstEligible(q, activeWorkers)
    decreases |q|
  {
    if q != [] {
      assert (q + [t])[1..] == q[1..] + [t];
      FirstWithLast(q[1..], t, activeWorkers);
    }
  }

  /** The header comment promises that running workers do not hold back other tasks while fewer
      than 32 threads are live.  When all threads are busy, a non-worker that is submitted can
      start at once if and only if a thread may be spawned, fewer than four workers are running,
      and no task is queued: with four workers no thread is spawned for it, and a task that is
      queued already takes the thread that is. */
  lemma {:induction false} NonWorkerStarts(steps: seq<Step>, detached: bool)
    requires Possible(INITIAL, steps) && AllThreadsRunning(Run(INITIAL, steps))
    ensures var s := Run(INITIAL, steps);
      CanStart(Next(s, Submit(false, detached)), |s.submitted|) <==>
        |s.threads| < MAX_ACTIVE_THREADS && |WorkerThreads(s.threads)| < MAX_ACTIVE_WORKERS && s.pool.queue == []
  {
    CountersAreExact(steps);
    NextToStart(steps, detached);
  }

  lemma {:induction false} ReachedShape(steps: seq<Step>)
    requires Possible(INITIAL, steps)
    ensures Counters(Run(INITIAL, steps)) && QueueShape(Run(INITIAL, steps))
  {
    InvariantInitial();
    InvariantRun(INITIAL, steps);
  }

  function Workers(n: nat): seq<Task> {
    seq(n, i requires 0 <= i => Task(i, true, false))
  }

  /** `n` workers have been submitted and each is running on the thread spawned for it. */
  function WorkersRunning(n: nat): System {
    System(Pool([], n, n), map i: nat | 0 <= i < n :: Running(Task(i, true, false)), n,
           Workers(n), seq(n, i requires 0 <= i => Started(i)))
  }

  lemma OneMoreWorker(n: nat)
    requires n < MAX_ACTIVE_WORKERS
    ensures var s := Next(WorkersRunning(n), Submit(true, false));
      Enabled(s, Look(n)) && Next(s, Look(n)) == WorkersRunning(n + 1)
  {
    var s0, t := WorkersRunning(n), Task(n, true, false);
    var s := Next(s0, Submit(true, false));
    assert s.pool.queue == [t] && FirstEligible([t], n) == 0;
    var s' := Next(s, Look(n));
    assert Without([t], 0) == [];
    assert s'.threads == WorkersRunning(n + 1).threads;
    assert s'.submitted == Workers(n + 1);
    assert s'.log == WorkersRunning(n + 1).log;
  }

  /** The steps of a run, one more at its end. */
  lemma {:induction false} RunThen(s: System, steps: seq<Step>, step: Step)
    requires Possible(s, steps) && Enabled(Run(s, steps), step)
    ensures Possible(s, steps + [step]) && Run(s, steps + [step]) == Next(Run(s, steps), step)
    decreases |steps|
  {
    if steps == [] {
      assert [] + [step] == [step] && [step][1..] == [];
    } else {
      assert (steps + [step])[1..] == steps[1..] + [step];
      RunThen(Next(s, steps[0]), steps[1..], step);
    }
  }

  lemma {:induction false} ReachWorkersRunning(n: nat) returns (steps: seq<Step>)
    requires n <= MAX_ACTIVE_WORKERS
    ensures Possible(INITIAL, steps) && Run(INITIAL, steps) == WorkersRunning(n)
  {
    if n == 0 {
      steps := [];
      assert WorkersRunning(0).threads == map[];
    } else {
      steps := ReachWorkersRunning(n - 1);
      OneMoreWorker(n - 1);
      RunThen(INITIAL, steps, Submit(true, false));
      steps := steps + [Submit(true, false)];
      RunThen(INITIAL, steps, Look(n - 1));
      steps := steps + [Look(n - 1)];
    }
  }

  /** A run in which four workers hold a non-worker back: they are running on four threads, 28
      more threads are allowed, and the non-worker submitted next is queued with none to run it. */
  lemma NonWorkerHeldBack() returns (steps: seq<Step>)
    ensures Possible(INITIAL, steps)
    ensures var s := Run(INITIAL, steps);
      s.pool.queue == [Task(4, false, false)] && |s.threads| == 4 && AllThreadsRunning(s)
  {
    steps := ReachWorkersRunning(MAX_ACTIVE_WORKERS);
    RunThen(INITIAL, steps, Submit(false, false));
    assert WorkersRunning(4).threads.Keys == {0, 1, 2, 3};
    steps := steps + [Submit(false, false)];
  }

  /** The same with two non-workers queued. */
  function TwoQueued(): System {
    var s := WorkersRunning(4);
    s.(pool := Pool([Task(4, false, false), Task(5, false, false)], 4, 4),
       submitted := s.submitted + [Task(4, false, false), Task(5, false, false)])
  }

  lemma ReachTwoQueued() returns (steps: seq<Step>)
    ensures Possible(INITIAL, steps) && Run(INITIAL, steps) == TwoQueued()
  {
    steps := ReachWorkersRunning(MAX_ACTIVE_WORKERS);
    RunThen(INITIAL, steps, Submit(false, false));
    steps := steps + [Submit(false, false)];
    var s := Run(INITIAL, steps);
    assert s.pool.queue == [Task(4, false, false)];
    RunThen(INITIAL, steps, Submit(false, false));
    steps := steps + [Submit(false, false)];
    assert Run(INITIAL, steps).pool.queue == TwoQueued().pool.queue;
    assert Run(INITIAL, steps).submitted == TwoQueued().submitted;
  }

  /** Worker 0 has returned, and its thread has taken task 4. */
  function OneTaken(): System {
    var s := TwoQueued();
    s.(pool := Pool([Task(5, false, false)], 3, 4),
       threads := s.threads[0 := Running(Task(4, false, false))],
       log := s.log + [Signalled(0), Started(4)])
  }

  lemma TakesFirst(s: System, th: nat, t: Task, u: Task)
    requires Enabled(s, Look(th)) && s.pool.queue == [t, u] && Eligible(t, s.pool.activeWorkers) && !t.worker
    ensures Next(s, Look(th))
         == s.(pool := s.pool.(queue := [u]), threads := s.threads[th := Running(t)], log := s.log + [Started(t.id)])
  {
    assert FirstEligible([t, u], s.pool.activeWorkers) == 0 && Without([t, u], 0) == [u];
  }

  lemma ReachOneTaken() returns (steps: seq<Step>)
    ensures Possible(INITIAL, steps) && Run(INITIAL, steps) == OneTaken()
  {
    steps := ReachTwoQueued();
    var s0 := TwoQueued();
    var s1 := Next(s0, Return(0));
    var s2 := Next(s1, Notify(0));
    RunThen(INITIAL, steps, Return(0));
    steps := steps + [Return(0)];
    RunThen(INITIAL, steps, Notify(0));
    steps := steps + [Notify(0)];
    assert s2.threads == s0.threads[0 := Looking] && s2.log == s0.log + [Signalled(0)];
    TakesFirst(s2, 0, Task(4, false, false), Task(5, false, false));
    RunThen(INITIAL, steps, Look(0));
    steps := steps + [Look(0)];
    assert Next(s2, Look(0)).threads == OneTaken().threads;
    assert Next(s2, Look(0)).log == OneTaken().log;
  }

  /** A run in which an earlier task holds a non-worker back: with three workers running on four
      threads, task 6 is submitted and a thread is spawned for it, but that one takes task 5. */
  lemma NonWorkerOutrun() returns (before: seq<Step>)
    ensures Possible(INITIAL, before)
    ensures var s := Run(INITIAL, before); AllThreadsRunning(s) && |WorkerThreads(s.threads)| == 3 && |s.threads| == 4
    ensures var steps := before + [Submit(false, false)] + [Look(4)];
      && Possible(INITIAL, steps)
      && var s := Run(INITIAL, steps);
      && s.pool.queue == [Task(6, false, false)]
      && AllThreadsRunning(s) && |WorkerThreads(s.threads)| == 3 && |s.threads| == 5
  {
    before := ReachOneTaken();
    var s3 := OneTaken();
    CountersAreExact(before);
    RunThen(INITIAL, before, Submit(false, false));
    var s4 := Next(s3, Submit(false, false));
    RunThen(INITIAL, before + [Submit(false, false)], Look(4));
    assert s4.pool.queue == [Task(5, false, false), Task(6, false, false)];
    TakesFirst(s4, 4, Task(5, false, false), Task(6, false, false));
    CountersAreExact(before + [Submit(false, false)] + [Look(4)]);
  }
}
