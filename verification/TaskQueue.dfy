/** The heap side of src/task.c: the globals next_task, last_task, active_workers and
    active_threads, and the tasks linked through prev and next.  Every method is one section
    under task_mutex and is proved to do to the links what TaskPool says it does to a sequence. */
module TaskQueue {
  import opened Common
  import TaskPool

  class Task {
    ghost const id: nat
    const worker: bool
    var detached: bool
    var prev: Task?
    var next: Task?

    /** task_new: all fields zero but the ones the caller sets. */
    constructor (ghost id: nat, worker: bool)
      ensures this.id == id && this.worker == worker && !detached && prev == null && next == null
    {
      this.id, this.worker := id, worker;
      detached, prev, next := false, null, null;
    }

    ghost function View(): TaskPool.Task
      reads this`detached
    {
      TaskPool.Task(id, worker, detached)
    }
  }

  class Pool {
    var nextTask: Task?
    var lastTask: Task?
    var activeWorkers: int
    var activeThreads: int
    ghost var tasks: seq<Task>
    ghost var queue: seq<TaskPool.Task>

    /** `tasks` is what a walk along next visits, and a walk along prev visits it backwards; no
        task is visited twice, so both walks end. */
    ghost predicate Linked()
      reads this`nextTask, this`lastTask, this`tasks, tasks`prev, tasks`next
    {
      && (forall i, j :: 0 <= i < j < |tasks| ==> tasks[i] != tasks[j])
      && (forall i, j :: 0 <= i < j < |tasks| && j == i + 1 ==> tasks[i].next == tasks[j] && tasks[j].prev == tasks[i])
      && (tasks == [] ==> nextTask == null && lastTask == null)
      && (tasks != [] ==>
            && nextTask == tasks[0] && tasks[0].prev == null
            && lastTask == tasks[|tasks| - 1] && tasks[|tasks| - 1].next == null)
    }

    /** `queue` is what the linked tasks are. */
    ghost predicate Valid()
      reads this, tasks
    {
      && Linked()
      && |queue| == |tasks|
      && forall i :: 0 <= i < |tasks| ==> tasks[i].View() == queue[i]
    }

    ghost function View(): TaskPool.Pool
      reads this
    {
      TaskPool.Pool(queue, activeWorkers, activeThreads)
    }

    constructor ()
      ensures Valid() && tasks == [] && View() == TaskPool.INITIAL.pool
    {
      nextTask, lastTask, activeWorkers, activeThreads, tasks, queue := null, null, 0, 0, [], [];
    }

    method Link(task: Task)
      requires Linked() && task !in tasks && task.prev == null && task.next == null
      modifies this`nextTask, this`lastTask, this`tasks, task`prev, tasks`next
      ensures Linked() && tasks == old(tasks) + [task]
    {
      if lastTask == null {
        nextTask, lastTask := task, task;
      } else {
        lastTask.next := task;
        task.prev := lastTask;
        lastTask := task;
      }
      tasks := tasks + [task];
    }

    method Start(task: Task) returns (spawn: bool)
      requires Valid() && task !in tasks && task.prev == null && task.next == null
      modifies this, task`prev, tasks`next
      ensures Valid() && tasks == old(tasks) + [task]
      ensures View() == TaskPool.Start(old(View()), task.View())
      ensures spawn <==> old(activeThreads) < 32 && old(activeWorkers) < 4
      ensures activeThreads == old(activeThreads) + (if spawn then 1 else 0) && activeWorkers == old(activeWorkers)
    {
      Link(task);
      queue := queue + [task.View()];
      spawn := activeThreads < TaskPool.MAX_ACTIVE_THREADS && activeWorkers < TaskPool.MAX_ACTIVE_WORKERS;
      if spawn {
        activeThreads := activeThreads + 1;
      }
    }

    /** task_launch */
    method Launch(task: Task) returns (spawn: bool)
      requires Valid() && task !in tasks && task.prev == null && task.next == null
      modifies this, task, tasks`next
      ensures Valid() && tasks == old(tasks) + [task]
      ensures View() == TaskPool.Start(old(View()), TaskPool.Task(task.id, task.worker, true))
      ensures spawn <==> old(activeThreads) < 32 && old(activeWorkers) < 4
      ensures activeThreads == old(activeThreads) + (if spawn then 1 else 0) && activeWorkers == old(activeWorkers)
    {
      task.detached := true;
      spawn := Start(task);
    }

    method Unlink(task: Task, ghost k: nat)
      requires Linked() && k < |tasks| && tasks[k] == task
      modifies this`nextTask, this`lastTask, this`tasks, tasks`prev, tasks`next
      ensures Linked() && tasks == Without(old(tasks), k)
    {
      ghost var was, n := tasks, |tasks|;
      assert task.prev == if k == 0 then null else was[k - 1];
      assert task.next == if k == n - 1 then null else was[k + 1];
      if task.prev != null {
        task.prev.next := task.next;
      }
      if task.next != null {
        task.next.prev := task.prev;
      }
      if task == nextTask {
        nextTask := task.next;
      }
      if task == lastTask {
        lastTask := task.prev;
      }
      tasks := Without(was, k);
    }

    method Remove(task: Task, ghost k: nat)
      requires Valid() && k < |tasks| && tasks[k] == task
      modifies this`nextTask, this`lastTask, this`tasks, this`queue, tasks`prev, tasks`next
      ensures Valid() && queue == Without(old(queue), k) && task.View() == old(queue)[k]
    {
      assert task.View() == queue[k];
      Unlink(task, k);
      queue := Without(queue, k);
    }

    /** The search of thread_func. */
    method Find() returns (task: Task?, ghost k: nat)
      requires Valid()
      ensures k == TaskPool.FirstEligible(queue, activeWorkers)
      ensures task == if k == |tasks| then null else tasks[k]
    {
      task, k := nextTask, 0;
      while task != null
        invariant 0 <= k <= |tasks| && task == (if k == |tasks| then null else tasks[k])
        invariant forall a :: 0 <= a < k ==> !TaskPool.Eligible(queue[a], activeWorkers)
        decreases |tasks| - k
      {
        if !task.worker || activeWorkers < TaskPool.MAX_ACTIVE_WORKERS {
          break;
        }
        task, k := task.next, k + 1;
      }
    }

    /** What the first section does with the task found at `k`, or at the end of the queue. */
    method TakeAt(task: Task?, ghost k: nat)
      requires Valid() && k <= |tasks| && task == if k == |tasks| then null else tasks[k]
      modifies this, tasks`prev, tasks`next
      ensures Valid()
      ensures View() == TaskPool.TakeAt(old(View()), k).0
      ensures TaskPool.TakeAt(old(View()), k).1 == if task == null then None else Some(task.View())
    {
      if task == null {
        activeThreads := activeThreads - 1;
      } else {
        Remove(task, k);
        if task.worker {
          activeWorkers := activeWorkers + 1;
        }
      }
    }

    /** The first section of thread_func; null when the thread is to exit. */
    method Take() returns (task: Task?)
      requires Valid()
      modifies this, tasks`prev, tasks`next
      ensures Valid()
      ensures View() == TaskPool.Take(old(View())).0
      ensures TaskPool.Take(old(View())).1 == if task == null then None else Some(task.View())
      ensures task != null ==> task in old(tasks)
    {
      ghost var k;
      task, k := Find();
      TakeAt(task, k);
    }

    /** The second section of thread_func, after the task's function has returned. */
    method Finish(task: Task)
      requires Valid()
      modifies this`activeWorkers
      ensures Valid() && tasks == old(tasks)
      ensures View() == TaskPool.Finish(old(View()), task.View())
    {
      if task.worker {
        activeWorkers := activeWorkers - 1;
      }
    }
  }
}
