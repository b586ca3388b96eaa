/**
 The data the threads of the pool share, updated in place. Each method is one atomic access of the source and is
 proved against the step of the transition system it stands for.
 */
module SharedPool {
  import opened Common
  import opened ThreadPool

  class PoolData {
    var tasksTotal: int
    var paused: bool
    var running: bool
    var tasks: seq<Task>

    /** The object holds the shared part of state s. */
    ghost predicate Shows(s: Pool)
      reads this
    {
      tasksTotal == s.total && paused == s.paused && running == s.running && tasks == s.queue
    }

    constructor (ghost count: nat, ghost hardware: nat)
      ensures Shows(Init(count, hardware))
    {
      tasksTotal, paused, running, tasks := 0, false, true, [];
    }

    /** First half of push_task: tasks_total++. */
    method CountPush(ghost s: Pool)
      requires Shows(s)
      modifies this`tasksTotal
      ensures Shows(Apply(s, OutsideCount))
    {
      tasksTotal := (tasksTotal + 1) % COUNTER_SIZE;
    }

    /** Second half of push_task, under the lock. */
    method PushTask(task: Task, ghost s: Pool)
      requires Shows(s)
      modifies this`tasks
      ensures Shows(Enqueue(s, task))
    {
      tasks := tasks + [task];
    }

    /** pop_task, under the lock, called by worker w. */
    method PopTask(ghost s: Pool, ghost w: nat) returns (task: Option<Task>)
      requires Shows(s) && w < |s.workers| && s.workers[w].AtPop?
      modifies this`tasks
      ensures Shows(StepWorker(s, w))
      ensures task.Some? <==> StepWorker(s, w).workers[w] == Running(|s.popped|)
      ensures task.Some? ==> StepWorker(s, w).popped == s.popped + [task.value]
      ensures task.None? <==> StepWorker(s, w).workers[w].AtLoop?
    {
      if tasks == [] {
        return None;
      }
      task := Some(tasks[0]);
      tasks := tasks[1..];
    }

    /** The worker's tasks_total-- after a task. */
    method CountFinish(ghost s: Pool, ghost w: nat)
      requires Shows(s) && w < |s.workers| && s.workers[w].Returned?
      modifies this`tasksTotal
      ensures Shows(StepWorker(s, w))
    {
      tasksTotal := (tasksTotal - 1) % COUNTER_SIZE;
    }
  }
}
