/** The guarantees of the thread pool, over every interleaving. */
module ThreadPoolTheorems {
  import opened Common
  import opened LoopBlocks
  import opened Sums
  import opened ThreadPool
  import opened ThreadPoolInvariant

  // ----- every task once, in order, across resets

  ghost predicate HoldsJob(s: Pool, w: nat, j: nat) {
    w < |s.workers| && Holds(s.workers[w]) && s.workers[w].job == j
  }

  /**
   Across any number of resets, the tasks ever enqueued are split between those finished, those in the hands of
   exactly one living worker of the current generation, and those still queued in their order of arrival.
   No task is executed twice, and none is executed while it is queued.
   */
  lemma TasksArePartitioned(s: Pool)
    requires Reachable(s)
    ensures s.enqueued == s.popped + s.queue
    ensures Distinct(s.ran) && Distinct(s.finished)
    ensures forall j: nat :: j < |s.popped| <==> j in s.finished || exists w: nat :: HoldsJob(s, w, j)
    ensures forall j: nat, w: nat :: HoldsJob(s, w, j) ==> j !in s.finished && s.base <= w
    ensures forall j: nat, w: nat, x: nat :: HoldsJob(s, w, j) && HoldsJob(s, x, j) ==> w == x
    ensures forall j :: j in s.finished ==> j in s.ran
    ensures forall j :: j in s.ran ==> j < |s.popped|
  {
    ReachableInv(s);
    forall j: nat ensures j < |s.popped| <==> j in s.finished || exists w: nat :: HoldsJob(s, w, j) {
      if j < |s.popped| && j !in s.finished {
        assert Held(s, j);
        assert HoldsJob(s, s.poppedBy[j], j);
      }
      if w: nat :| HoldsJob(s, w, j) {
        assert WorkerOk(s, w);
      }
    }
    forall j: nat, w: nat | HoldsJob(s, w, j)
      ensures j < |s.poppedBy| && s.poppedBy[j] == w && j !in s.finished && s.base <= w
    {
      assert WorkerOk(s, w);
    }
  }

  /** When the new threads of a reset are created, every thread of every earlier generation has exited. */
  lemma NoOldThreadSurvivesReset(s: Pool)
    requires Reachable(s)
    ensures forall k: nat :: k < s.base ==> k < |s.workers| && s.workers[k].Exited?
    ensures s.control.Sizing? || s.control.Replacing? || s.control.Restoring? || s.control.Restarting? ==>
      forall k: nat :: k < |s.workers| ==> s.workers[k].Exited?
    ensures s.control.Idle? || s.control.Waiting? ==>
      |s.workers| == s.base + s.threadCount && forall k :: s.base <= k < |s.workers| ==> !s.workers[k].Exited?
  {
    ReachableInv(s);
  }

  /**
   A reset to count threads of a pool whose paused flag was wasPaused, and that had created a number of threads before,
   is under way or over, and on course.
   */
  ghost predicate ResetOnCourse(s: Pool, wasPaused: bool, count: nat, before: nat) {
    match s.control
    case Pausing(was, n) => was == wasPaused && n == count && |s.workers| == before
    case Waiting(_, why) => s.paused && why == ForReset(wasPaused, count) && |s.workers| == before
    case Stopping(why) => s.paused && why == ForReset(wasPaused, count) && |s.workers| == before
    case Joining(_, why) => s.paused && why == ForReset(wasPaused, count) && |s.workers| == before
    case Sizing(was, n) => s.paused && was == wasPaused && n == count && |s.workers| == before
    case Replacing(was) => s.paused && was == wasPaused && s.threadCount == count && |s.workers| == before
    case Restoring(was) => was == wasPaused && s.threadCount == count && s.base == before
    case Restarting | Creating(_) | Idle => s.paused == wasPaused && s.threadCount == count && s.base == before
    case Destroyed => false
  }

  /** Anything but a new call of the owner and a change of the public flag. */
  predicate Undisturbed(steps: seq<Step>) {
    forall i :: 0 <= i < |steps| ==> !OwnersOrFlag(steps[i])
  }

  lemma ResetStepOnCourse(s: Pool, step: Step, wasPaused: bool, count: nat, before: nat)
    requires ResetOnCourse(s, wasPaused, count, before) && Enabled(s, step) && !OwnersOrFlag(step)
    ensures ResetOnCourse(Apply(s, step), wasPaused, count, before)
  {
    if !step.ControlStep? {
      OthersKeepControl(s, step);
    }
  }

  lemma OthersKeepControl(s: Pool, step: Step)
    requires Enabled(s, step) && !OwnersOrFlag(step) && !step.ControlStep?
    ensures var s' := Apply(s, step);
      && s'.control == s.control && s'.paused == s.paused && s'.threadCount == s.threadCount
      && s'.base == s.base && |s'.workers| == |s.workers|
  {
    if step.WorkerStep? {
      WorkerKeepsControl(s, step.worker);
    }
  }

  lemma WorkerKeepsControl(s: Pool, w: nat)
    requires Enabled(s, WorkerStep(w))
    ensures var s' := StepWorker(s, w);
      && s'.control == s.control && s'.paused == s.paused && s'.threadCount == s.threadCount
      && s'.base == s.base && |s'.workers| == |s.workers|
  {
  }

  lemma {:induction false} ResetStaysOnCourse(s: Pool, steps: seq<Step>, wasPaused: bool, count: nat, before: nat)
    requires ResetOnCourse(s, wasPaused, count, before) && CanRun(s, steps) && Undisturbed(steps)
    ensures ResetOnCourse(Run(s, steps), wasPaused, count, before)
    decreases |steps|
  {
    if steps == [] {
    } else {
      ResetStepOnCourse(s, steps[0], wasPaused, count, before);
      ResetStaysOnCourse(Apply(s, steps[0]), steps[1..], wasPaused, count, before);
    }
  }

  /** From its first step until its threads are joined, a reset keeps the pool paused. */
  lemma ResetPausesThePool(s: Pool, count: nat, hardware: nat, steps: seq<Step>)
    requires s.control.Idle? && CanRun(Apply(s, ResetCall(count, hardware)), steps) && Undisturbed(steps)
    ensures var e := Run(Apply(s, ResetCall(count, hardware)), steps);
      && !Apply(s, ResetCall(count, hardware)).control.Idle?
      && (e.control.Waiting? || e.control.Stopping? || e.control.Joining? ==> e.paused)
  {
    var n := if count != 0 then count else hardware;
    ResetStaysOnCourse(Apply(s, ResetCall(count, hardware)), steps, s.paused, n, |s.workers|);
  }

  /**
   When a reset is over, whatever the workers and the pushing threads did meanwhile, the pool is paused if and only if
   it was before, and it has exactly the wanted number of living threads, all created by this reset.
   */
  lemma ResetRestoresPauseAndSizes(s: Pool, count: nat, hardware: nat, steps: seq<Step>)
    requires Reachable(s) && s.control.Idle?
    requires CanRun(Apply(s, ResetCall(count, hardware)), steps) && Undisturbed(steps)
    requires Run(Apply(s, ResetCall(count, hardware)), steps).control.Idle?
    ensures var e, n := Run(Apply(s, ResetCall(count, hardware)), steps), if count != 0 then count else hardware;
      && e.paused == s.paused && e.running && e.threadCount == n && |e.workers| == |s.workers| + n
      && (forall k :: 0 <= k < |s.workers| ==> e.workers[k].Exited?)
      && (forall k :: |s.workers| <= k < |e.workers| ==> !e.workers[k].Exited?)
  {
    ReachableInv(s);
    var called := Apply(s, ResetCall(count, hardware));
    ResetStaysOnCourse(called, steps, s.paused, if count != 0 then count else hardware, |s.workers|);
    StepKeepsInv(s, ResetCall(count, hardware));
    RunKeepsInv(called, steps);
  }

  /** A living worker is never stuck: the accesses its next step makes are all in bounds. */
  lemma NoWorkerIsStuck(s: Pool, w: nat)
    requires Reachable(s) && w < |s.workers| && !s.workers[w].Exited?
    ensures Enabled(s, if s.workers[w].Spawning? then WorkerEnqueue(w, 0) else WorkerStep(w))
  {
    ReachableInv(s);
    LivingWorkerCanStep(s, w);
  }

  lemma LivingWorkerCanStep(s: Pool, w: nat)
    requires Inv(s) && w < |s.workers| && !s.workers[w].Exited?
    ensures Enabled(s, if s.workers[w].Spawning? then WorkerEnqueue(w, 0) else WorkerStep(w))
  {
    assert WorkerOk(s, w);
    if s.workers[w].Running? || s.workers[w].LoopRan? {
      assert BlockLogged(s, s.workers[w].job);
    }
  }

  // ----- the counter and wait_for_tasks

  /** Nothing is queued, held or on its way in. */
  ghost predicate Quiet(s: Pool) {
    && s.queue == [] && s.outside == 0
    && (forall w :: 0 <= w < |s.workers| ==> !Holds(s.workers[w]))
    && (forall c :: 0 <= c < |s.calls| ==> !s.calls[c].phase.Pushing?)
  }

  lemma QuietMeansNothingOutstanding(s: Pool)
    ensures Quiet(s) <==> Outstanding(s) == 0
  {
    if Outstanding(s) == 0 {
      forall w: nat | w < |s.workers| ensures !Holds(s.workers[w]) {
        SumAtLeast(WorkerLoad, s.workers, w);
      }
      forall c: nat | c < |s.calls| ensures !s.calls[c].phase.Pushing? {
        SumAtLeast(CallLoad, s.calls, c);
      }
    } else if Quiet(s) {
      if Sum(WorkerLoad, s.workers) > 0 {
        var w := SumPositive(WorkerLoad, s.workers);
      } else {
        var c := SumPositive(CallLoad, s.calls);
      }
    }
  }

  /** tasks_total counts queued tasks, held tasks and pushes under way, modulo its width. */
  lemma CounterIsExact(s: Pool)
    requires Reachable(s)
    ensures s.total == (|s.queue| + Sum(WorkerLoad, s.workers) + s.outside + Sum(CallLoad, s.calls)) % 0x1_0000_0000
    ensures s.total == 0 <==> Outstanding(s) % 0x1_0000_0000 == 0
  {
    ReachableInv(s);
  }

  ghost predicate AllFinished(s: Pool) {
    forall j: nat :: j < |s.enqueued| ==> j in s.finished
  }

  lemma QuietMeansAllFinished(s: Pool)
    requires Inv(s) && Quiet(s)
    ensures AllFinished(s)
  {
    assert s.popped == s.enqueued;
  }

  /**
   The unpaused branch of wait_for_tasks leaves exactly when tasks_total is a multiple of its width; with fewer
   unfinished tasks than that, exactly when nothing is queued, held or being pushed, and then every task ever
   enqueued, from outside or from inside a task, has finished.
   */
  lemma UnpausedWaitLeavesWhenAllFinished(s: Pool, why: Why, b: bool)
    requires Reachable(s) && s.control == Waiting(ReadTotalOnly, why)
    ensures Apply(s, ControlStep(b)).control == LeaveWait(why) <==> Outstanding(s) % 0x1_0000_0000 == 0
    ensures Outstanding(s) < 0x1_0000_0000 ==> (Apply(s, ControlStep(b)).control == LeaveWait(why) <==> Quiet(s))
    ensures Quiet(s) ==> AllFinished(s)
  {
    ReachableInv(s);
    QuietMeansNothingOutstanding(s);
    if Quiet(s) {
      QuietMeansAllFinished(s);
    }
  }

  lemma ModuloDifference(a: int, b: int)
    ensures (a % COUNTER_SIZE - b) % COUNTER_SIZE == (a - b) % COUNTER_SIZE
  {
  }

  lemma {:induction false} RunOneMore(s: Pool, steps: seq<Step>, step: Step)
    requires CanRun(s, steps) && Enabled(Run(s, steps), step)
    ensures CanRun(s, steps + [step]) && Run(s, steps + [step]) == Apply(Run(s, steps), step)
    decreases |steps|
  {
    var more := steps + [step];
    if steps == [] {
      assert more[1..] == [];
    } else {
      assert more[0] == steps[0] && more[1..] == steps[1..] + [step];
      RunOneMore(Apply(s, steps[0]), steps[1..], step);
    }
  }

  lemma ReachableStep(s: Pool, step: Step) returns (s': Pool)
    requires Reachable(s) && Enabled(s, step)
    ensures s' == Apply(s, step) && Reachable(s')
  {
    var count: nat, hardware: nat, steps: seq<Step> :|
      CanRun(Init(count, hardware), steps) && Run(Init(count, hardware), steps) == s;
    RunOneMore(Init(count, hardware), steps, step);
    s' := Apply(s, step);
  }

  lemma ReachableInit(count: nat, hardware: nat) returns (s: Pool)
    ensures s == Init(count, hardware) && Reachable(s)
  {
    s := Init(count, hardware);
    assert CanRun(s, []) && Run(s, []) == s;
  }

  /** A pool of one thread, freshly constructed. */
  lemma OneThread() returns (s: Pool)
    ensures Reachable(s) && s.control.Idle? && !s.paused && s.running && s.total == 0 && s.outside == 0
    ensures s.queue == [] && s.workers == [AtLoop] && s.popped == [] && s.enqueued == [] && s.finished == []
  {
    s := ReachableInit(1, 1);
    s := ReachableStep(s, ControlStep(true));
    s := ReachableStep(s, ControlStep(true));
  }

  /** One task is queued and the only worker is past its look at paused. */
  lemma WorkerPastPauseCheck() returns (s: Pool)
    ensures Reachable(s) && s.control.Idle? && !s.paused && s.total == 1
    ensures s.queue == [Plain(0)] && s.workers == [AtPop] && s.popped == []
  {
    s := OneThread();
    s := ReachableStep(s, OutsideCount);
    s := ReachableStep(s, OutsideEnqueue(0));
    s := ReachableStep(s, WorkerStep(0));
    s := ReachableStep(s, WorkerStep(0));
  }

  /**
   A worker that has passed its pause check can pop between the two reads, so the paused wait of a reset
   can leave while a task is running. Only the join that follows makes reset safe.
   */
  lemma PausedWaitCanLeaveWhileATaskRuns() returns (s: Pool)
    ensures Reachable(s) && s.paused && s.control == Waiting(ThenTotal(1), ForReset(false, 1))
    ensures Apply(s, ControlStep(true)).control == Stopping(ForReset(false, 1))
    ensures HoldsJob(s, 0, 0)
  {
    s := WorkerPastPauseCheck();
    s := ReachableStep(s, ResetCall(1, 1));
    s := ReachableStep(s, ControlStep(false));
    s := ReachableStep(s, ControlStep(false));
    s := ReachableStep(s, ControlStep(false));
    s := ReachableStep(s, WorkerStep(0));
  }

  /** The only worker is inside a task, and a reset is called. */
  lemma ResetWhileATaskRuns() returns (s: Pool)
    ensures Reachable(s) && s.control == Pausing(false, 1)
    ensures s.workers == [Running(0)] && s.queue == [] && s.total == 1
  {
    s := WorkerPastPauseCheck();
    s := ReachableStep(s, WorkerStep(0));
    s := ReachableStep(s, ResetCall(1, 1));
  }

  lemma TotalReadWhileATaskRuns() returns (s: Pool)
    ensures Reachable(s) && s.paused && s.control == Waiting(ThenQueued(1), ForReset(false, 1))
    ensures s.workers == [Running(0)] && s.queue == []
  {
    s := ResetWhileATaskRuns();
    s := ReachableStep(s, ControlStep(true));
    s := ReachableStep(s, ControlStep(true));
    s := ReachableStep(s, ControlStep(true));
  }

  /**
   No worker need be past its check: a running task that pushes between the reads adds to the queue what the total did
   not have, and the wait leaves while it runs.
   */
  lemma PausedWaitCanLeaveWhileATaskPushes() returns (s: Pool)
    ensures Reachable(s) && s.paused && s.control == Waiting(ThenQueued(1), ForReset(false, 1))
    ensures Apply(s, ControlStep(true)).control == Stopping(ForReset(false, 1))
    ensures s.workers == [Running(0)]
  {
    s := TotalReadWhileATaskRuns();
    s := ReachableStep(s, WorkerSpawn(0));
    s := ReachableStep(s, WorkerEnqueue(0, 1));
  }

  // ----- the width of the counter

  lemma {:induction false} ManyPushes(s: Pool, n: nat) returns (s': Pool)
    requires Reachable(s) && s.outside == 0
    ensures Reachable(s') && s'.outside == 0 && (if n == 0 then s' == s else s'.total == (s.total + n) % COUNTER_SIZE)
    ensures |s'.queue| == |s.queue| + n && |s'.enqueued| == |s.enqueued| + n
    ensures s'.control == s.control && s'.paused == s.paused && s'.finished == s.finished
    decreases n
  {
    s' := s;
    if n == 0 {
    } else {
      s' := ManyPushes(s, n - 1);
      s' := ReachableStep(s', OutsideCount);
      s' := ReachableStep(s', OutsideEnqueue(0));
    }
  }

  /** With 2^32 tasks queued and none run, tasks_total is zero and the destructor's wait leaves at once. */
  lemma UnpausedWaitCanMissAFullCounter() returns (s: Pool)
    ensures Reachable(s) && s.control == Waiting(ReadTotalOnly, ForDestructor) && |s.queue| == 0x1_0000_0000
    ensures Apply(s, ControlStep(true)).control == Stopping(ForDestructor)
    ensures s.finished == [] && !AllFinished(s)
  {
    s := OneThread();
    s := ManyPushes(s, COUNTER_SIZE);
    s := ReachableStep(s, DestroyCall);
    s := ReachableStep(s, ControlStep(true));
    assert 0 < |s.enqueued| && 0 !in s.finished;
  }

  // ----- the destructor

  /** Steps of the pool's own threads and of its owner, and changes of the public flag; no push from outside. */
  predicate FromInside(step: Step) {
    !step.OutsideCount? && !step.OutsideEnqueue? && !step.CallStart? && !step.CallStep?
  }

  predicate AllFromInside(steps: seq<Step>) {
    forall i :: 0 <= i < |steps| ==> FromInside(steps[i])
  }

  lemma {:induction false} QuietStaysQuiet(s: Pool, steps: seq<Step>)
    requires Quiet(s) && CanRun(s, steps) && AllFromInside(steps)
    ensures Quiet(Run(s, steps)) && Run(s, steps).enqueued == s.enqueued
    decreases |steps|
  {
    if steps == [] {
    } else {
      assert FromInside(steps[0]);
      QuietStep(s, steps[0]);
      QuietStaysQuiet(Apply(s, steps[0]), steps[1..]);
    }
  }

  lemma QuietStep(s: Pool, step: Step)
    requires Quiet(s) && Enabled(s, step) && FromInside(step)
    ensures Quiet(Apply(s, step)) && Apply(s, step).enqueued == s.enqueued
  {
  }

  /**
   A destructor whose wait leaves by its unpaused branch, with nobody outside pushing, leaves nothing unrun:
   when it is over every thread has exited and every task ever enqueued has finished.
   */
  lemma DestructorLeavesNothingUnrun(s: Pool, steps: seq<Step>)
    requires Reachable(s) && s.control == Waiting(ReadTotalOnly, ForDestructor)
    requires s.total == 0 && Outstanding(s) < 0x1_0000_0000
    requires CanRun(s, steps) && AllFromInside(steps) && Run(s, steps).control.Destroyed?
    ensures var e := Run(s, steps);
      && e.enqueued == s.enqueued && AllFinished(e)
      && forall w: nat :: w < |e.workers| ==> e.workers[w].Exited?
  {
    ReachableInv(s);
    QuietMeansNothingOutstanding(s);
    QuietStaysQuiet(s, steps);
    RunKeepsInv(s, steps);
    QuietMeansAllFinished(Run(s, steps));
  }

  /** After the destructor, paused or not, no task is ever executed. */
  lemma {:induction false} NothingRunsAfterDestruction(s: Pool, steps: seq<Step>)
    requires Reachable(s) && s.control.Destroyed? && CanRun(s, steps)
    ensures Run(s, steps).ran == s.ran && Run(s, steps).popped == s.popped
    decreases |steps|
  {
    if steps == [] {
    } else {
      ReachableInv(s);
      var s' := ReachableStep(s, steps[0]);
      NothingRunsAfterDestruction(s', steps[1..]);
    }
  }

  // ----- parallelize_loop

  /** At every moment of every run the loop function has been given indices of the range alone, each at most once. */
  lemma IndicesAtMostOnce(s: Pool, c: nat)
    requires Reachable(s) && c < |s.calls|
    ensures forall i :: s.calls[c].processed[i] <= 1
    ensures forall i :: i in s.calls[c].processed ==> s.calls[c].split.lo <= i < s.calls[c].split.hi
  {
    ReachableInv(s);
    assert CallOk(s, c);
  }

  /** When parallelize_loop is about to return, and ever after, each index of the range was processed exactly once. */
  lemma LoopProcessesEveryIndexOnce(s: Pool, c: nat)
    requires Reachable(s) && c < |s.calls|
    requires var call := s.calls[c];
      call.phase.Done? || (call.phase.Looping? && call.counted == call.split.num && call.blocksRunning == 0)
    ensures s.calls[c].processed == Range(s.calls[c].split.lo, s.calls[c].split.hi)
  {
    ReachableInv(s);
    assert CallOk(s, c);
    AllBlocksLeft(s, c);
    var call := s.calls[c];
    forall i ensures call.processed[i] == Range(call.split.lo, call.split.hi)[i] {
    }
  }

  predicate InsideTask(w: Worker) {
    w.Running? || w.Spawning? || w.LoopRan?
  }

  predicate IsBlockOf(task: Task, c: nat) {
    task.Block? && task.call == c
  }

  /**
   Tasks of a call use the loop function and the counter of its stack frame. Once the call has returned,
   no queued task is one of its blocks and no worker is inside one.
   */
  lemma NoBlockOutlivesItsCall(s: Pool, c: nat)
    requires Reachable(s) && c < |s.calls| && s.calls[c].phase.Done?
    ensures forall k :: 0 <= k < |s.queue| ==> !IsBlockOf(s.queue[k], c)
    ensures forall w: nat :: w < |s.workers| && InsideTask(s.workers[w]) ==>
      s.workers[w].job < |s.popped| && !IsBlockOf(s.popped[s.workers[w].job], c)
  {
    ReachableInv(s);
    assert CallOk(s, c);
    AllBlocksLeft(s, c);
    forall k: nat | k < |s.queue| ensures !IsBlockOf(s.queue[k], c) {
      assert BlockLogged(s, |s.popped| + k);
      assert s.enqueued[|s.popped| + k] == s.queue[k];
    }
    forall w: nat | w < |s.workers| && InsideTask(s.workers[w])
      ensures s.workers[w].job < |s.popped| && !IsBlockOf(s.popped[s.workers[w].job], c)
    {
      assert WorkerOk(s, w);
      assert BlockLogged(s, s.workers[w].job);
      assert s.enqueued[s.workers[w].job] == s.popped[s.workers[w].job];
    }
  }

  /** What a returned call has processed no later step changes. */
  lemma {:induction false} ReturnedCallIsFinal(s: Pool, c: nat, steps: seq<Step>)
    requires Reachable(s) && c < |s.calls| && s.calls[c].phase.Done? && CanRun(s, steps)
    ensures c < |Run(s, steps).calls| && Run(s, steps).calls[c] == s.calls[c]
    decreases |steps|
  {
    if steps == [] {
    } else {
      var s' := ReachableStep(s, steps[0]);
      assert s'.calls[c] == s.calls[c] by {
        NoBlockOutlivesItsCall(s, c);
      }
      ReturnedCallIsFinal(s', c, steps[1..]);
    }
  }
}
