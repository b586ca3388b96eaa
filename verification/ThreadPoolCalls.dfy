/**
 What a caller of the thread pool may rely on, from the call to its return, whatever the other threads do meanwhile:
 push_task, the pause flag, wait_for_tasks, reset, the constructor, the destructor and parallelize_loop.
 */
module ThreadPoolCalls {
  import opened LoopBlocks
  import opened Sums
  import opened ThreadPool
  import opened ThreadPoolInvariant
  import opened ThreadPoolTheorems
  import opened ThreadPoolDrain

  /** Pushes, the flag and loops are open to every thread at any time, the other calls to an idle owner. */
  lemma CallsAreOpen(s: Pool, tag: nat, value: bool, first: int, after: int, wanted: nat,
        count: nat, hardware: nat)
    ensures Enabled(s, OutsideCount) && Enabled(s, SetPaused(value))
    ensures Enabled(Apply(s, OutsideCount), OutsideEnqueue(tag))
    ensures first != after && (wanted > 0 || s.threadCount > 0) ==> Enabled(s, CallStart(first, after, wanted))
    ensures s.control.Idle? ==>
      Enabled(s, WaitCall) && Enabled(s, ResetCall(count, hardware)) && Enabled(s, DestroyCall)
  {
  }

  // ----- push_task

  /** The tasks a step puts into the queue. */
  function Pushed(s: Pool, step: Step): seq<Task> {
    match step
    case OutsideEnqueue(tag) => [Plain(tag)]
    case WorkerEnqueue(_, tag) => [Plain(tag)]
    case CallStep(c) =>
      if c < |s.calls| && s.calls[c].phase.Pushing? then [Block(c, |s.calls[c].jobs|)] else []
    case _ => []
  }

  function AllPushed(s: Pool, steps: seq<Step>): seq<Task>
    requires CanRun(s, steps)
    decreases |steps|
  {
    if steps == [] then [] else Pushed(s, steps[0]) + AllPushed(Apply(s, steps[0]), steps[1..])
  }

  lemma StepEnqueues(s: Pool, step: Step)
    requires Inv(s) && Enabled(s, step)
    ensures Apply(s, step).enqueued == s.enqueued + Pushed(s, step)
  {
    if step.CallStep? {
      assert CallOk(s, step.call);
    } else if step.WorkerStep? {
      WorkerEnqueuesNothing(s, step.worker);
    }
  }

  lemma WorkerEnqueuesNothing(s: Pool, w: nat)
    requires Enabled(s, WorkerStep(w))
    ensures StepWorker(s, w).enqueued == s.enqueued
  {
  }

  lemma {:induction false} PushesAddUp(s: Pool, steps: seq<Step>)
    requires Inv(s) && CanRun(s, steps)
    ensures Run(s, steps).enqueued == s.enqueued + AllPushed(s, steps)
    decreases |steps|
  {
    if steps == [] {
    } else {
      var s' := Apply(s, steps[0]);
      StepEnqueues(s, steps[0]);
      StepKeepsInv(s, steps[0]);
      PushesAddUp(s', steps[1..]);
      Associate(s.enqueued, Pushed(s, steps[0]), AllPushed(s', steps[1..]));
    }
  }

  lemma Associate<T>(a: seq<T>, b: seq<T>, c: seq<T>)
    ensures (a + b) + c == a + (b + c)
  {
  }

  /** Over any run the pool takes in exactly the tasks that were pushed, in the order of the pushes. */
  lemma EveryPushIsTakenIn(s: Pool, steps: seq<Step>)
    requires Reachable(s) && CanRun(s, steps)
    ensures Run(s, steps).enqueued == s.enqueued + AllPushed(s, steps)
  {
    ReachableInv(s);
    PushesAddUp(s, steps);
  }

  // ----- the pause flag

  /** Neither the flag nor the owner's reset is touched. */
  ghost predicate FlagLeftAlone(steps: seq<Step>) {
    forall i :: 0 <= i < |steps| ==> !steps[i].SetPaused? && !steps[i].ResetCall?
  }

  /** The owner is not within a reset. */
  predicate NotResetting(s: Pool) {
    match s.control
    case Creating(_) | Idle | Destroyed => true
    case Waiting(_, why) => !why.ForReset?
    case Stopping(why) => !why.ForReset?
    case Joining(_, why) => !why.ForReset?
    case _ => false
  }

  function PopLoad(w: Worker): nat {
    if w.AtPop? then 1 else 0
  }

  /** A step under the flag pops only for a worker that was past its check, and lets none past it. */
  lemma PausedStep(s: Pool, step: Step)
    requires s.paused && NotResetting(s) && Enabled(s, step) && !step.SetPaused? && !step.ResetCall?
    ensures var s' := Apply(s, step);
      && s'.paused && NotResetting(s')
      && |s'.popped| + Sum(PopLoad, s'.workers) <= |s.popped| + Sum(PopLoad, s.workers)
  {
    var s' := Apply(s, step);
    if step.WorkerStep? {
      PausedWorker(s, step.worker);
    } else if step.WorkerSpawn? || step.WorkerEnqueue? {
      SumUpdate(PopLoad, s.workers, step.worker, s'.workers[step.worker]);
    } else if step.ControlStep? {
      PausedOwner(s, step.totalFirst);
    } else {
      PausedOthers(s, step);
    }
  }

  lemma PausedOwner(s: Pool, b: bool)
    requires s.paused && NotResetting(s) && ControlCanStep(s)
    ensures var s' := StepControl(s, b);
      && s'.paused && NotResetting(s') && s'.popped == s.popped
      && Sum(PopLoad, s'.workers) == Sum(PopLoad, s.workers)
  {
    if s.control.Creating? {
      SumAppend(PopLoad, s.workers, AtLoop);
    }
  }

  lemma PausedOthers(s: Pool, step: Step)
    requires s.paused && NotResetting(s) && Enabled(s, step) && !step.SetPaused? && !step.ResetCall?
    requires !step.WorkerStep? && !step.WorkerSpawn? && !step.WorkerEnqueue? && !step.ControlStep?
    ensures var s' := Apply(s, step);
      s'.paused && NotResetting(s') && s'.popped == s.popped && s'.workers == s.workers
  {
  }

  lemma PausedWorker(s: Pool, w: nat)
    requires s.paused && Enabled(s, WorkerStep(w))
    ensures var s' := StepWorker(s, w);
      && s'.paused && s'.control == s.control
      && |s'.popped| + Sum(PopLoad, s'.workers) <= |s.popped| + Sum(PopLoad, s.workers)
  {
    SumUpdate(PopLoad, s.workers, w, StepWorker(s, w).workers[w]);
  }

  /**
   Setting the flag stops the pool from taking up tasks: until somebody changes it, at most one more task is popped for
   each worker that was past its pause check.
   */
  lemma PausingStopsPops(s: Pool, steps: seq<Step>)
    requires NotResetting(s) && CanRun(Apply(s, SetPaused(true)), steps) && FlagLeftAlone(steps)
    ensures var e := Run(Apply(s, SetPaused(true)), steps);
      e.paused && |e.popped| <= |s.popped| + Sum(PopLoad, s.workers)
  {
    PausedPoolPops(Apply(s, SetPaused(true)), steps);
  }

  lemma {:induction false} PausedPoolPops(s: Pool, steps: seq<Step>)
    requires s.paused && NotResetting(s) && CanRun(s, steps) && FlagLeftAlone(steps)
    ensures var e := Run(s, steps);
      e.paused && |e.popped| + Sum(PopLoad, e.workers) <= |s.popped| + Sum(PopLoad, s.workers)
    decreases |steps|
  {
    if steps == [] {
    } else {
      PausedStep(s, steps[0]);
      PausedPoolPops(Apply(s, steps[0]), steps[1..]);
    }
  }

  /** Clearing the flag lets an idle worker of a running pool through to the queue in two steps of its own. */
  lemma ClearingLetsWorkersPop(s: Pool, w: nat)
    requires s.running && w < |s.workers| && s.workers[w].AtLoop?
    ensures var s1 := Apply(s, SetPaused(false));
      && Enabled(s1, WorkerStep(w)) && Enabled(Apply(s1, WorkerStep(w)), WorkerStep(w))
      && Apply(Apply(s1, WorkerStep(w)), WorkerStep(w)).workers[w].AtPop?
  {
  }

  // ----- wait_for_tasks

  /** The run is over at the first moment the owner is idle. */
  ghost predicate UntilIdle(s: Pool, steps: seq<Step>)
    requires CanRun(s, steps)
    decreases |steps|
  {
    if steps == [] then s.control.Idle? else !s.control.Idle? && UntilIdle(Apply(s, steps[0]), steps[1..])
  }

  /** The owner is in an unpaused wait of its own, at the flag or at the counter. */
  predicate InUnpausedWait(s: Pool, why: Why) {
    !s.paused && (s.control == Waiting(ReadPaused, why) || s.control == Waiting(ReadTotalOnly, why))
  }

  /** The wait goes on, or leaves with nothing outstanding, modulo the width of the counter. */
  lemma UnpausedWaitStep(s: Pool, step: Step, why: Why)
    requires CountInv(s) && InUnpausedWait(s, why) && Enabled(s, step) && !OwnersOrFlag(step)
    ensures var s' := Apply(s, step);
      || InUnpausedWait(s', why)
      || (s'.control == LeaveWait(why) && step.ControlStep? && Outstanding(s) % 0x1_0000_0000 == 0)
  {
    if !step.ControlStep? {
      OthersKeepControl(s, step);
    }
  }

  lemma {:induction false} UnpausedWaitReturns(s: Pool, steps: seq<Step>)
    requires Inv(s) && InUnpausedWait(s, ForCaller) && CanRun(s, steps) && UntilIdle(s, steps) && Undisturbed(steps)
    requires Outstanding(Run(s, steps)) < 0x1_0000_0000
    ensures Quiet(Run(s, steps)) && AllFinished(Run(s, steps))
    decreases |steps|
  {
    var s' := Apply(s, steps[0]);
    assert !OwnersOrFlag(steps[0]);
    UnpausedWaitStep(s, steps[0], ForCaller);
    StepKeepsInv(s, steps[0]);
    if InUnpausedWait(s', ForCaller) {
      UnpausedWaitReturns(s', steps[1..]);
    } else {
      assert steps[1..] == [];
      ControlKeepsOutstanding(s, steps[0].totalFirst);
      QuietMeansNothingOutstanding(s');
      QuietMeansAllFinished(s');
    }
  }

  lemma ControlKeepsOutstanding(s: Pool, b: bool)
    requires ControlCanStep(s) && s.control.Waiting?
    ensures Outstanding(StepControl(s, b)) == Outstanding(s)
  {
  }

  /**
   A call of wait_for_tasks on an unpaused pool returns only when every task enqueued so far has finished, whoever
   pushes meanwhile, if nobody sets the flag and fewer than 2^32 tasks are outstanding at its return.
   */
  lemma WaitReturnsWhenAllFinished(s: Pool, steps: seq<Step>)
    requires Reachable(s) && s.control.Idle? && !s.paused
    requires CanRun(Apply(s, WaitCall), steps) && UntilIdle(Apply(s, WaitCall), steps) && Undisturbed(steps)
    requires Outstanding(Run(Apply(s, WaitCall), steps)) < 0x1_0000_0000
    ensures var e := Run(Apply(s, WaitCall), steps); Quiet(e) && forall j: nat :: j < |e.enqueued| ==> j in e.finished
  {
    ReachableInv(s);
    StepKeepsInv(s, WaitCall);
    UnpausedWaitReturns(Apply(s, WaitCall), steps);
  }

  /** Fewer than 2^32 tasks are outstanding in every state of a run. */
  ghost predicate CounterFits(s: Pool, steps: seq<Step>)
    requires CanRun(s, steps)
    decreases |steps|
  {
    Outstanding(s) < 0x1_0000_0000 && (steps == [] || CounterFits(Apply(s, steps[0]), steps[1..]))
  }

  /** The owner waits for a reason, or is past the wait in an empty pool. */
  ghost predicate WaitOrQuiet(s: Pool, why: Why) {
    InUnpausedWait(s, why) ||
    (Quiet(s) &&
     if why.ForCaller? then s.control.Idle?
     else s.control == Stopping(why) || (s.control.Joining? && s.control.why == why) || s.control.Destroyed?)
  }

  /** Steps of the pool's own threads and the owner, who makes no new call, and no change of the flag. */
  predicate OnlyInside(steps: seq<Step>) {
    AllFromInside(steps) && Undisturbed(steps)
  }

  lemma WaitOrQuietStep(s: Pool, step: Step, why: Why)
    requires Inv(s) && WaitOrQuiet(s, why) && !why.ForReset? && Outstanding(s) < 0x1_0000_0000
    requires Enabled(s, step) && FromInside(step) && !OwnersOrFlag(step)
    ensures WaitOrQuiet(Apply(s, step), why)
  {
    if InUnpausedWait(s, why) {
      UnpausedWaitStep(s, step, why);
      if !InUnpausedWait(Apply(s, step), why) {
        QuietMeansNothingOutstanding(s);
        QuietStep(s, step);
      }
    } else {
      QuietStep(s, step);
      if !step.ControlStep? {
        OthersKeepControl(s, step);
      }
    }
  }

  lemma {:induction false} WaitOrQuietRun(s: Pool, steps: seq<Step>, why: Why)
    requires Inv(s) && WaitOrQuiet(s, why) && !why.ForReset?
    requires CanRun(s, steps) && OnlyInside(steps) && CounterFits(s, steps)
    ensures Inv(Run(s, steps)) && WaitOrQuiet(Run(s, steps), why)
    decreases |steps|
  {
    if steps == [] {
    } else {
      assert FromInside(steps[0]) && !OwnersOrFlag(steps[0]);
      WaitOrQuietStep(s, steps[0], why);
      StepKeepsInv(s, steps[0]);
      WaitOrQuietRun(Apply(s, steps[0]), steps[1..], why);
    }
  }

  /** With no push from outside everything is finished whenever the owner is idle again. */
  lemma IdleAfterWaitMeansAllFinished(s: Pool, steps: seq<Step>)
    requires Reachable(s) && s.control.Idle? && !s.paused
    requires CanRun(Apply(s, WaitCall), steps) && OnlyInside(steps) && CounterFits(Apply(s, WaitCall), steps)
    requires Run(Apply(s, WaitCall), steps).control.Idle?
    ensures var e := Run(Apply(s, WaitCall), steps); Quiet(e) && forall j: nat :: j < |e.enqueued| ==> j in e.finished
  {
    ReachableInv(s);
    StepKeepsInv(s, WaitCall);
    WaitOrQuietRun(Apply(s, WaitCall), steps, ForCaller);
    QuietMeansAllFinished(Run(Apply(s, WaitCall), steps));
  }

  // ----- the destructor

  /** When an unpaused pool is destroyed and nobody outside pushes, nothing is left unrun and no thread is left. */
  lemma DestructionMeansAllFinished(s: Pool, steps: seq<Step>)
    requires Reachable(s) && s.control.Idle? && !s.paused
    requires CanRun(Apply(s, DestroyCall), steps) && OnlyInside(steps) && CounterFits(Apply(s, DestroyCall), steps)
    ensures !Apply(s, DestroyCall).control.Idle?
    ensures var e := Run(Apply(s, DestroyCall), steps);
      e.control.Destroyed? ==>
        && (forall j: nat :: j < |e.enqueued| ==> j in e.finished)
        && (forall w: nat :: w < |e.workers| ==> e.workers[w].Exited?)
  {
    ReachableInv(s);
    StepKeepsInv(s, DestroyCall);
    WaitOrQuietRun(Apply(s, DestroyCall), steps, ForDestructor);
    var e := Run(Apply(s, DestroyCall), steps);
    if e.control.Destroyed? {
      QuietMeansAllFinished(e);
    }
  }

  /** Steps a worker still takes before it exits, once running is cleared, if its task does not push. */
  function ExitDistance(w: Worker): nat {
    match w
    case Exited => 0
    case AtLoop => 1
    case Returned(_) => 2
    case LoopRan(_) => 3
    case Running(_) => 4
    case Spawning(_) => 5
    case AtPop => 5
    case AtPause => 6
  }

  /** Pushes worker w begins in a run. */
  function PushesOf(w: nat, steps: seq<Step>): nat {
    if steps == [] then 0 else (if steps[0] == WorkerSpawn(w) then 1 else 0) + PushesOf(w, steps[1..])
  }

  /** No step of the owner. */
  predicate OwnerStands(steps: seq<Step>) {
    forall i :: 0 <= i < |steps| ==>
      !steps[i].ControlStep? && !steps[i].WaitCall? && !steps[i].ResetCall? && !steps[i].DestroyCall?
  }

  lemma StoppedWorkerStep(s: Pool, step: Step, w: nat)
    requires !s.running && w < |s.workers| && Enabled(s, step)
    requires !step.ControlStep? && !step.WaitCall? && !step.ResetCall? && !step.DestroyCall?
    ensures var s' := Apply(s, step);
      && !s'.running && |s'.workers| == |s.workers|
      && if OwnStep(step) && step.worker == w
         then ExitDistance(s'.workers[w]) + 1 <= ExitDistance(s.workers[w]) + if step.WorkerSpawn? then 2 else 0
         else s'.workers[w] == s.workers[w]
  {
    if step.WorkerStep? {
      StoppedWorkerMoves(s, step.worker);
    }
  }

  lemma StoppedWorkerMoves(s: Pool, w: nat)
    requires !s.running && Enabled(s, WorkerStep(w))
    ensures var s' := StepWorker(s, w);
      && !s'.running && |s'.workers| == |s.workers| && s'.workers == s.workers[w := s'.workers[w]]
      && ExitDistance(s'.workers[w]) + 1 <= ExitDistance(s.workers[w])
  {
  }

  /**
   Once running is cleared a worker that keeps being scheduled exits, so the joins of a reset and of the destructor come
   to an end if every task does.
   */
  lemma {:induction false} StoppedWorkerExits(s: Pool, steps: seq<Step>, w: nat)
    requires !s.running && w < |s.workers| && CanRun(s, steps) && OwnerStands(steps)
    requires StepsOf(w, steps) >= ExitDistance(s.workers[w]) + 2 * PushesOf(w, steps)
    ensures w < |Run(s, steps).workers| && Run(s, steps).workers[w].Exited?
    decreases |steps|
  {
    if steps == [] {
    } else {
      var step := steps[0];
      StoppedWorkerStep(s, step, w);
      if s.workers[w].Exited? {
        ExitedStays(s, steps, w);
      } else {
        StoppedWorkerExits(Apply(s, step), steps[1..], w);
      }
    }
  }

  lemma {:induction false} ExitedStays(s: Pool, steps: seq<Step>, w: nat)
    requires !s.running && w < |s.workers| && CanRun(s, steps) && OwnerStands(steps) && s.workers[w].Exited?
    ensures w < |Run(s, steps).workers| && Run(s, steps).workers[w].Exited?
    decreases |steps|
  {
    if steps == [] {
    } else {
      StoppedWorkerStep(s, steps[0], w);
      ExitedStays(Apply(s, steps[0]), steps[1..], w);
    }
  }

  /** The owner's own steps, n of them. */
  function OwnerSteps(n: nat): seq<Step> {
    seq(n, _ => ControlStep(true))
  }

  /** Steps to the end of a reset or destruction, once nobody needs to be waited for. */
  function StepsToEnd(s: Pool): nat {
    match s.control
    case Stopping(why) => 1 + s.threadCount + 1 + AfterJoin(why)
    case Joining(i, why) => (if i <= s.threadCount then s.threadCount - i else 0) + 1 + AfterJoin(why)
    case Sizing(_, count) => 1 + 1 + 1 + 1 + count + 1
    case Replacing(_) => 1 + 1 + 1 + s.threadCount + 1
    case Restoring(_) => 1 + 1 + s.threadCount + 1
    case Restarting => 1 + s.threadCount + 1
    case Creating(i) => (if i <= s.threadCount then s.threadCount - i else 0) + 1
    case _ => 0
  }

  function AfterJoin(why: Why): nat {
    if why.ForReset? then 1 + 1 + 1 + 1 + why.count + 1 else 0
  }

  /** All threads of the current generation have exited, or are not being joined. */
  ghost predicate NothingToJoin(s: Pool) {
    s.control.Stopping? || s.control.Joining? ==> AllExited(s, s.base, |s.workers|)
  }

  lemma OwnerGoesOn(s: Pool)
    requires ThreadInv(s) && NothingToJoin(s) && StepsToEnd(s) > 0
    ensures Enabled(s, ControlStep(true))
    ensures var s' := Apply(s, ControlStep(true)); NothingToJoin(s') && StepsToEnd(s') + 1 == StepsToEnd(s)
    ensures var s' := Apply(s, ControlStep(true)); StepsToEnd(s') == 0 ==> s'.control.Idle? || s'.control.Destroyed?
  {
  }

  /** With its threads gone, the owner ends a reset or a destruction in the steps the code has, never stuck. */
  lemma {:induction false} OwnerEnds(s: Pool)
    requires Inv(s) && NothingToJoin(s) && StepsToEnd(s) > 0
    ensures CanRun(s, OwnerSteps(StepsToEnd(s)))
    ensures var e := Run(s, OwnerSteps(StepsToEnd(s))); e.control.Idle? || e.control.Destroyed?
    decreases StepsToEnd(s)
  {
    OwnerGoesOn(s);
    StepKeepsInv(s, ControlStep(true));
    var s' := Apply(s, ControlStep(true));
    assert OwnerSteps(StepsToEnd(s))[1..] == OwnerSteps(StepsToEnd(s'));
    if StepsToEnd(s') > 0 {
      OwnerEnds(s');
    }
  }

  // ----- the constructor

  /** The constructor ends with the wanted number of living threads, unpaused and with whatever was pushed meanwhile. */
  lemma ConstructorMakesThreads(count: nat, hardware: nat, steps: seq<Step>)
    requires CanRun(Init(count, hardware), steps) && Undisturbed(steps)
    requires Run(Init(count, hardware), steps).control.Idle?
    ensures var e, n := Run(Init(count, hardware), steps), if count != 0 then count else hardware;
      && !e.paused && e.running && e.threadCount == n && |e.workers| == n
      && (forall k :: 0 <= k < n ==> !e.workers[k].Exited?)
      && e.enqueued == AllPushed(Init(count, hardware), steps)
  {
    var s := ReachableInit(count, hardware);
    InitKeepsInv(count, hardware);
    ResetStaysOnCourse(s, steps, false, if count != 0 then count else hardware, 0);
    RunKeepsInv(s, steps);
    EveryPushIsTakenIn(s, steps);
  }

  // ----- parallelize_loop

  /** A call keeps its cut for ever. */
  lemma {:induction false} CutStays(s: Pool, steps: seq<Step>, c: nat)
    requires c < |s.calls| && CanRun(s, steps)
    ensures c < |Run(s, steps).calls| && Run(s, steps).calls[c].split == s.calls[c].split
    decreases |steps|
  {
    if steps == [] {
    } else {
      CutStaysOnce(s, steps[0], c);
      CutStays(Apply(s, steps[0]), steps[1..], c);
    }
  }

  lemma CutStaysOnce(s: Pool, step: Step, c: nat)
    requires c < |s.calls| && Enabled(s, step)
    ensures c < |Apply(s, step).calls| && Apply(s, step).calls[c].split == s.calls[c].split
  {
    if step.WorkerStep? {
      WorkerKeepsCuts(s, step.worker, c);
    }
  }

  lemma WorkerKeepsCuts(s: Pool, w: nat, c: nat)
    requires c < |s.calls| && Enabled(s, WorkerStep(w))
    ensures |StepWorker(s, w).calls| == |s.calls| && StepWorker(s, w).calls[c].split == s.calls[c].split
  {
  }

  /** One block for each index if there are fewer than the blocks wanted. */
  function BlockCount(indices: nat, wanted: nat): nat {
    if indices < wanted then indices else wanted
  }

  /**
   From the call of parallelize_loop on, over any run: it cuts its range into the wanted number of blocks, and when that
   call has returned, the loop function has been given every index from the smaller bound up to the larger one,
   exclusive, exactly once and no other.
   */
  lemma LoopCallProcessesItsRange(s: Pool, first: int, after: int, wanted: nat, steps: seq<Step>)
    requires Reachable(s) && Enabled(s, CallStart(first, after, wanted))
    requires CanRun(Apply(s, CallStart(first, after, wanted)), steps)
    ensures var c, e := |s.calls|, Run(Apply(s, CallStart(first, after, wanted)), steps);
      && c < |e.calls|
      && e.calls[c].split.num == BlockCount(if first < after then after - first else first - after,
                                            if wanted == 0 then s.threadCount else wanted)
      && (e.calls[c].phase.Done? ==> forall i: int ::
            e.calls[c].processed[i] == if first <= i < after || after <= i < first then 1 else 0)
  {
    var called := ReachableStep(s, CallStart(first, after, wanted));
    CutStays(called, steps, |s.calls|);
    MakeSplitValid(first, after, if wanted == 0 then s.threadCount else wanted);
    var e := ReachableRun(called, steps);
    if e.calls[|s.calls|].phase.Done? {
      LoopProcessesEveryIndexOnce(e, |s.calls|);
    }
  }

  lemma {:induction false} ReachableRun(s: Pool, steps: seq<Step>) returns (e: Pool)
    requires Reachable(s) && CanRun(s, steps)
    ensures e == Run(s, steps) && Reachable(e)
    decreases |steps|
  {
    if steps == [] {
      e := s;
    } else {
      var s' := ReachableStep(s, steps[0]);
      e := ReachableRun(s', steps[1..]);
    }
  }

  /** Steps of the pushing loop a call has before it: three for each block. */
  function StepsToPush(call: Call): int {
    3 * (call.split.num - call.counted) + if call.phase.Counted? then 2 else if call.phase.Pushing? then 1 else 0
  }

  /**
   A call takes three steps for each block; then every look at blocks_running returns exactly if every block has passed
   its decrement, and else changes nothing.
   */
  lemma LoopCallGoesOn(s: Pool, c: nat)
    requires Reachable(s) && c < |s.calls| && !s.calls[c].phase.Done?
    ensures Enabled(s, CallStep(c))
    ensures var s', call := Apply(s, CallStep(c)), s.calls[c];
      if StepsToPush(call) > 0 then StepsToPush(s'.calls[c]) == StepsToPush(call) - 1 && !s'.calls[c].phase.Done?
      else
        && |call.jobs| == call.split.num
        && (s'.calls[c].phase.Done? <==> forall t: nat :: t < |call.jobs| ==> call.jobs[t] in s.returned)
        && (!s'.calls[c].phase.Done? ==> s' == s)
  {
    ReachableInv(s);
    assert CallOk(s, c);
    var call := s.calls[c];
    if StepsToPush(call) <= 0 {
      assert call.phase.Looping? && call.counted == call.split.num;
      if call.blocksRunning == 0 {
        AllBlocksLeft(s, c);
      }
      if forall t: nat :: t < |call.jobs| ==> call.jobs[t] in s.returned {
        assert call.decremented == Below(|call.jobs|);
      }
    }
  }

  // ----- waits come to an end

  /** From the call on, an unpaused wait of an idle owner ends under every fair schedule of the workers. */
  lemma WaitCallEnds(s: Pool, rounds: seq<seq<Step>>, b: bool)
    requires Reachable(s) && s.control.Idle? && Draining(s) && FairRounds(Apply(s, WaitCall), rounds)
    requires |rounds| >= Work(s) + PUSH_WORK * RoundPushes(rounds)
    ensures var e := RunRounds(Apply(s, WaitCall), rounds);
      && Enabled(e, ControlStep(b)) && Enabled(Apply(e, ControlStep(b)), ControlStep(b))
      && Apply(Apply(e, ControlStep(b)), ControlStep(b)).control.Idle?
  {
    StepKeepsInv(s, WaitCall);
    UnpausedWaitEnds(Apply(s, WaitCall), rounds, ForCaller, b);
  }

  /** Its stop clears running and turns to the joins. */
  lemma StopClearsRunning(s: Pool, why: Why, b: bool)
    requires s.control == Stopping(why)
    ensures Enabled(s, ControlStep(b))
    ensures !Apply(s, ControlStep(b)).running && Apply(s, ControlStep(b)).control == Joining(0, why)
  {
  }

  /** The same for the destructor, which then stops the threads. */
  lemma DestroyCallEnds(s: Pool, rounds: seq<seq<Step>>, b: bool)
    requires Reachable(s) && s.control.Idle? && Draining(s) && FairRounds(Apply(s, DestroyCall), rounds)
    requires |rounds| >= Work(s) + PUSH_WORK * RoundPushes(rounds)
    ensures var e := RunRounds(Apply(s, DestroyCall), rounds);
      && Enabled(e, ControlStep(b)) && Enabled(Apply(e, ControlStep(b)), ControlStep(b))
      && Apply(Apply(e, ControlStep(b)), ControlStep(b)).control == Stopping(ForDestructor)
  {
    StepKeepsInv(s, DestroyCall);
    UnpausedWaitEnds(Apply(s, DestroyCall), rounds, ForDestructor, b);
  }
}
