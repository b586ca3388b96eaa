/** What every step of the thread pool keeps. */
module ThreadPoolInvariant {
  import opened Common
  import opened LoopBlocks
  import opened Sums
  import opened ThreadPool

  /** Tasks leave the queue in the order they entered it, and none disappears. */
  ghost predicate LogInv(s: Pool) {
    s.enqueued == s.popped + s.queue
  }

  /** A worker holds a job it popped itself, that is not finished, and that has got as far as the worker has. */
  ghost predicate WorkerOk(s: Pool, w: nat)
    requires w < |s.workers| && |s.poppedBy| == |s.popped|
  {
    var worker := s.workers[w];
    Holds(worker) ==>
      && worker.job < |s.popped|
      && s.poppedBy[worker.job] == w
      && worker.job !in s.finished
      && (worker.job in s.ran <==> worker.LoopRan? || worker.Returned?)
      && (worker.job in s.returned <==> worker.Returned?)
      && (worker.LoopRan? ==> s.popped[worker.job].Block?)
  }

  /** An unfinished job is in the hands of the worker that popped it. */
  ghost predicate Held(s: Pool, j: nat)
    requires j < |s.popped| && |s.poppedBy| == |s.popped|
  {
    && s.poppedBy[j] < |s.workers|
    && Holds(s.workers[s.poppedBy[j]])
    && s.workers[s.poppedBy[j]].job == j
  }

  ghost predicate JobInv(s: Pool) {
    && |s.poppedBy| == |s.popped|
    && (forall w: nat :: w < |s.workers| ==> WorkerOk(s, w))
    && (forall j: nat :: j < |s.popped| && j !in s.finished ==> Held(s, j))
    && (forall j :: j in s.finished ==> j in s.returned)
    && (forall j :: j in s.returned ==> j in s.ran)
    && (forall j :: j in s.ran ==> j < |s.popped|)
    && Distinct(s.ran) && Distinct(s.finished)
  }

  /** Tasks pushed and not yet counted down, plus pushes that are counted but not yet enqueued. */
  function Outstanding(s: Pool): nat {
    |s.queue| + Sum(WorkerLoad, s.workers) + s.outside + Sum(CallLoad, s.calls)
  }

  ghost predicate CountInv(s: Pool) {
    s.total == Outstanding(s) % COUNTER_SIZE
  }

  ghost predicate AllExited(s: Pool, from: nat, to: nat) {
    forall k :: from <= k < to && k < |s.workers| ==> s.workers[k].Exited?
  }

  ghost predicate NoneExited(s: Pool) {
    forall k :: s.base <= k < |s.workers| ==> !s.workers[k].Exited?
  }

  /** Threads of earlier generations are gone; those of this generation live until running is cleared. */
  ghost predicate ThreadInv(s: Pool) {
    && s.base <= |s.workers|
    && AllExited(s, 0, s.base)
    && match s.control
       case Creating(i) => s.running && NoneExited(s) && i <= s.threadCount && |s.workers| == s.base + i
       case Idle | Pausing(_, _) | Waiting(_, _) => s.running && NoneExited(s) && |s.workers| == s.base + s.threadCount
       case Stopping(why) => s.running && NoneExited(s) && |s.workers| == s.base + s.threadCount && !why.ForCaller?
       case Joining(i, why) =>
         && !s.running && i <= s.threadCount && |s.workers| == s.base + s.threadCount && !why.ForCaller?
         && AllExited(s, s.base, s.base + i)
       case Sizing(_, _) | Replacing(_) | Destroyed => !s.running && AllExited(s, 0, |s.workers|)
       case Restoring(_) | Restarting => !s.running && s.base == |s.workers|
  }

  /** How far a parallelize_loop call has got, told from the logs. */
  ghost predicate CallOk(s: Pool, c: nat)
    requires c < |s.calls|
  {
    var call := s.calls[c];
    && call.split.Valid()
    && call.counted <= call.split.num
    && call.counted == |call.jobs| + (if call.phase.Counted? || call.phase.Pushing? then 1 else 0)
    && (forall t: nat :: t < |call.jobs| ==> call.jobs[t] < |s.enqueued| && s.enqueued[call.jobs[t]] == Block(c, t))
    && (forall t: nat :: t in call.decremented <==> t < |call.jobs| && call.jobs[t] in s.returned)
    && call.blocksRunning == call.counted - |call.decremented|
    && (call.phase.Done? ==> call.counted == call.split.num && call.blocksRunning == 0)
    && (forall i :: call.processed[i] == if IndexRan(s, call, i) then 1 else 0)
  }

  ghost predicate IndexRan(s: Pool, call: Call, i: int)
    requires call.split.Valid()
  {
    && call.split.lo <= i < call.split.hi
    && call.split.BlockOf(i) < |call.jobs|
    && call.jobs[call.split.BlockOf(i)] in s.ran
  }

  /** A block in the enqueue log was put there by its own call, once. */
  ghost predicate BlockLogged(s: Pool, j: nat)
    requires j < |s.enqueued|
  {
    s.enqueued[j].Block? ==>
      && s.enqueued[j].call < |s.calls|
      && s.enqueued[j].index < |s.calls[s.enqueued[j].call].jobs|
      && s.calls[s.enqueued[j].call].jobs[s.enqueued[j].index] == j
  }

  ghost predicate CallInv(s: Pool) {
    && (forall c: nat :: c < |s.calls| ==> CallOk(s, c))
    && (forall j: nat :: j < |s.enqueued| ==> BlockLogged(s, j))
  }

  ghost predicate Inv(s: Pool) {
    LogInv(s) && JobInv(s) && CountInv(s) && ThreadInv(s) && CallInv(s)
  }

  // ----- the queue

  lemma LogStep(s: Pool, step: Step)
    requires LogInv(s) && Enabled(s, step)
    ensures LogInv(Apply(s, step))
  {
    if step.WorkerStep? {
      LogWorker(s, step.worker);
    } else if step.CallStep? || step.ControlStep? {
      LogOwners(s, step);
    }
  }

  lemma LogWorker(s: Pool, w: nat)
    requires LogInv(s) && Enabled(s, WorkerStep(w))
    ensures LogInv(StepWorker(s, w))
  {
    if s.workers[w].AtPop? && s.queue != [] {
      assert s.queue == [s.queue[0]] + s.queue[1..];
    }
  }

  lemma LogOwners(s: Pool, step: Step)
    requires LogInv(s) && Enabled(s, step) && (step.CallStep? || step.ControlStep?)
    ensures LogInv(Apply(s, step))
  {
  }

  // ----- who holds which job

  /** Worker w moves on without popping or finishing anything. */
  lemma JobMove(s: Pool, s': Pool, w: nat)
    requires JobInv(s) && w < |s.workers|
    requires |s'.workers| == |s.workers| && s'.workers == s.workers[w := s'.workers[w]]
    requires s'.popped == s.popped && s'.poppedBy == s.poppedBy && s'.finished == s.finished
    requires Holds(s.workers[w]) <==> Holds(s'.workers[w])
    requires Holds(s.workers[w]) ==> s.workers[w].job == s'.workers[w].job
    requires s'.ran == s.ran && s'.returned == s.returned
    requires s.workers[w].LoopRan? == s'.workers[w].LoopRan? && s.workers[w].Returned? == s'.workers[w].Returned?
    ensures JobInv(s')
  {
    forall x: nat | x < |s'.workers| ensures WorkerOk(s', x) {
      assert WorkerOk(s, x);
    }
    forall j: nat | j < |s'.popped| && j !in s'.finished ensures Held(s', j) {
      assert Held(s, j);
    }
  }

  lemma JobPop(s: Pool, w: nat)
    requires JobInv(s) && w < |s.workers| && s.workers[w].AtPop? && s.queue != []
    ensures JobInv(StepWorker(s, w))
  {
    var s' := StepWorker(s, w);
    forall x: nat | x < |s'.workers| ensures WorkerOk(s', x) {
      assert WorkerOk(s, x);
    }
    forall j: nat | j < |s'.popped| && j !in s'.finished ensures Held(s', j) {
      assert j < |s.popped| ==> Held(s, j);
    }
  }

  lemma JobBodyPlain(s: Pool, w: nat)
    requires JobInv(s) && Enabled(s, WorkerStep(w)) && s.workers[w].Running? && s.popped[s.workers[w].job].Plain?
    ensures JobInv(StepWorker(s, w))
  {
    JobRan(s, StepWorker(s, w), w);
  }

  lemma JobBodyBlock(s: Pool, w: nat)
    requires JobInv(s) && Enabled(s, WorkerStep(w)) && s.workers[w].Running? && s.popped[s.workers[w].job].Block?
    ensures JobInv(StepWorker(s, w))
  {
    JobRan(s, StepWorker(s, w), w);
  }

  /** Worker w executed the function of its job, and has returned from the task or has the end of a block before it. */
  lemma JobRan(s: Pool, s': Pool, w: nat)
    requires JobInv(s) && w < |s.workers| && s.workers[w].Running?
    requires s'.popped == s.popped && s'.poppedBy == s.poppedBy && s'.finished == s.finished
    requires var job := s.workers[w].job;
      && s'.ran == s.ran + [job] && job < |s.popped|
      && if s.popped[job].Block?
         then s'.workers == s.workers[w := LoopRan(job)] && s'.returned == s.returned
         else s'.workers == s.workers[w := Returned(job)] && s'.returned == s.returned + [job]
    ensures JobInv(s')
  {
    assert WorkerOk(s, w);
    AppendNew(s.ran, s.workers[w].job);
    forall x: nat | x < |s'.workers| ensures WorkerOk(s', x) {
      assert WorkerOk(s, x);
    }
    forall j: nat | j < |s'.popped| && j !in s'.finished ensures Held(s', j) {
      assert Held(s, j);
    }
  }

  lemma AppendNew<T>(xs: seq<T>, x: T)
    requires Distinct(xs) && x !in xs
    ensures Distinct(xs + [x])
  {
  }

  lemma JobLeaveLoop(s: Pool, w: nat)
    requires JobInv(s) && Enabled(s, WorkerStep(w)) && s.workers[w].LoopRan?
    ensures JobInv(StepWorker(s, w))
  {
    var s' := StepWorker(s, w);
    assert WorkerOk(s, w);
    forall x: nat | x < |s'.workers| ensures WorkerOk(s', x) {
      assert WorkerOk(s, x);
    }
    forall j: nat | j < |s'.popped| && j !in s'.finished ensures Held(s', j) {
      assert Held(s, j);
    }
  }

  lemma JobFinish(s: Pool, w: nat)
    requires JobInv(s) && Enabled(s, WorkerStep(w)) && s.workers[w].Returned?
    ensures JobInv(StepWorker(s, w))
  {
    var s' := StepWorker(s, w);
    assert WorkerOk(s, w);
    forall x: nat | x < |s'.workers| ensures WorkerOk(s', x) {
      assert WorkerOk(s, x);
    }
    forall j: nat | j < |s'.popped| && j !in s'.finished ensures Held(s', j) {
      assert Held(s, j);
    }
  }

  lemma JobWorker(s: Pool, w: nat)
    requires JobInv(s) && Enabled(s, WorkerStep(w))
    ensures JobInv(StepWorker(s, w))
  {
    var worker := s.workers[w];
    if worker.Running? {
      if s.popped[worker.job].Plain? {
        JobBodyPlain(s, w);
      } else {
        JobBodyBlock(s, w);
      }
    } else if worker.LoopRan? {
      JobLeaveLoop(s, w);
    } else if worker.Returned? {
      JobFinish(s, w);
    } else if worker.AtPop? && s.queue != [] {
      JobPop(s, w);
    } else {
      JobMove(s, StepWorker(s, w), w);
    }
  }

  /** The workers may gain idle members; nothing about jobs changes. */
  lemma JobFrame(s: Pool, s': Pool)
    requires JobInv(s)
    requires s'.workers == s.workers || s'.workers == s.workers + [AtLoop]
    requires s'.popped == s.popped && s'.poppedBy == s.poppedBy
    requires s'.finished == s.finished && s'.ran == s.ran && s'.returned == s.returned
    ensures JobInv(s')
  {
    forall x: nat | x < |s'.workers| ensures WorkerOk(s', x) {
      assert x < |s.workers| ==> WorkerOk(s, x);
    }
    forall j: nat | j < |s'.popped| && j !in s'.finished ensures Held(s', j) {
      assert Held(s, j);
    }
  }

  lemma JobStep(s: Pool, step: Step)
    requires JobInv(s) && Enabled(s, step)
    ensures JobInv(Apply(s, step))
  {
    if step.WorkerStep? {
      JobWorker(s, step.worker);
    } else if step.WorkerSpawn? || step.WorkerEnqueue? {
      JobNested(s, step);
    } else {
      JobOther(s, step);
    }
  }

  lemma JobNested(s: Pool, step: Step)
    requires JobInv(s) && Enabled(s, step) && (step.WorkerSpawn? || step.WorkerEnqueue?)
    ensures JobInv(Apply(s, step))
  {
    JobMove(s, Apply(s, step), step.worker);
  }

  lemma JobOther(s: Pool, step: Step)
    requires JobInv(s) && Enabled(s, step) && !step.WorkerStep? && !step.WorkerSpawn? && !step.WorkerEnqueue?
    ensures JobInv(Apply(s, step))
  {
    OthersKeepJobs(s, step);
    JobFrame(s, Apply(s, step));
  }

  /** Whoever is no worker leaves the log of jobs alone, and adds no worker but a new one at its loop. */
  lemma OthersKeepJobs(s: Pool, step: Step)
    requires Enabled(s, step) && !step.WorkerStep? && !step.WorkerSpawn? && !step.WorkerEnqueue?
    ensures var s' := Apply(s, step);
      && (s'.workers == s.workers || s'.workers == s.workers + [AtLoop])
      && s'.popped == s.popped && s'.poppedBy == s.poppedBy
      && s'.finished == s.finished && s'.ran == s.ran && s'.returned == s.returned
  {
    if step.ControlStep? {
      OwnerKeepsJobs(s, step.totalFirst);
    } else if step.CallStep? {
      CallKeepsJobs(s, step.call);
    }
  }

  lemma OwnerKeepsJobs(s: Pool, b: bool)
    requires ControlCanStep(s)
    ensures var s' := StepControl(s, b);
      && (s'.workers == s.workers || s'.workers == s.workers + [AtLoop])
      && s'.popped == s.popped && s'.poppedBy == s.poppedBy
      && s'.finished == s.finished && s'.ran == s.ran && s'.returned == s.returned
  {
  }

  lemma CallKeepsJobs(s: Pool, c: nat)
    requires Enabled(s, CallStep(c))
    ensures var s' := StepCall(s, c);
      && s'.workers == s.workers && s'.popped == s.popped && s'.poppedBy == s.poppedBy
      && s'.finished == s.finished && s'.ran == s.ran && s'.returned == s.returned
  {
  }

  // ----- the counter

  lemma CountShift(s: Pool, s': Pool)
    requires CountInv(s)
    requires
      || (s'.total == s.total && Outstanding(s') == Outstanding(s))
      || (s'.total == Up(s.total) && Outstanding(s') == Outstanding(s) + 1)
      || (s'.total == Down(s.total) && Outstanding(s') == Outstanding(s) - 1)
    ensures CountInv(s')
  {
  }

  /** Worker w changes place; the counter follows the load. */
  lemma CountWorker(s: Pool, w: nat)
    requires CountInv(s) && Enabled(s, WorkerStep(w))
    ensures CountInv(StepWorker(s, w))
  {
    var s' := StepWorker(s, w);
    WorkerShiftsLoad(s, w);
    SumUpdate(WorkerLoad, s.workers, w, s'.workers[w]);
    WorkerKeepsCallLoad(s, w);
    CountShift(s, s');
  }

  /** Popping moves a unit of load from the queue to the worker; only the last step of a job drops one. */
  lemma WorkerShiftsLoad(s: Pool, w: nat)
    requires Enabled(s, WorkerStep(w))
    ensures
      var s', done := StepWorker(s, w), if s.workers[w].Returned? then 1 else 0;
      && |s'.workers| == |s.workers| && s'.workers == s.workers[w := s'.workers[w]]
      && |s'.queue| + WorkerLoad(s'.workers[w]) + done == |s.queue| + WorkerLoad(s.workers[w])
      && s'.outside == s.outside
      && s'.total == if s.workers[w].Returned? then Down(s.total) else s.total
  {
  }

  /** A worker touches only the bookkeeping of a call, never its place in the pushing loop. */
  lemma WorkerKeepsCallLoad(s: Pool, w: nat)
    requires Enabled(s, WorkerStep(w))
    ensures Sum(CallLoad, StepWorker(s, w).calls) == Sum(CallLoad, s.calls)
  {
    var worker, calls' := s.workers[w], StepWorker(s, w).calls;
    if worker.LoopRan? || (worker.Running? && s.popped[worker.job].Block?) {
      var c := s.popped[worker.job].call;
      SumUpdate(CallLoad, s.calls, c, calls'[c]);
    }
  }

  lemma CountCall(s: Pool, c: nat)
    requires CountInv(s) && Enabled(s, CallStep(c))
    ensures CountInv(StepCall(s, c))
  {
    var s' := StepCall(s, c);
    SumUpdate(CallLoad, s.calls, c, s'.calls[c]);
    CountShift(s, s');
  }

  lemma CountStep(s: Pool, step: Step)
    requires CountInv(s) && Enabled(s, step)
    ensures CountInv(Apply(s, step))
  {
    if step.WorkerStep? {
      CountWorker(s, step.worker);
    } else if step.WorkerSpawn? || step.WorkerEnqueue? {
      CountNested(s, step);
    } else if step.CallStep? {
      CountCall(s, step.call);
    } else {
      CountOther(s, step);
    }
  }

  lemma CountControl(s: Pool, totalFirst: bool)
    requires CountInv(s) && ControlCanStep(s)
    ensures CountInv(StepControl(s, totalFirst))
  {
    var s' := StepControl(s, totalFirst);
    ControlShape(s, totalFirst);
    if s'.workers != s.workers {
      SumAppend(WorkerLoad, s.workers, AtLoop);
    }
    CountShift(s, s');
  }

  lemma ControlShape(s: Pool, totalFirst: bool)
    requires ControlCanStep(s)
    ensures var s' := StepControl(s, totalFirst);
      && (s'.workers == s.workers || s'.workers == s.workers + [AtLoop])
      && s'.total == s.total && s'.queue == s.queue && s'.outside == s.outside && s'.calls == s.calls
  {
  }

  lemma CountNested(s: Pool, step: Step)
    requires CountInv(s) && Enabled(s, step) && (step.WorkerSpawn? || step.WorkerEnqueue?)
    ensures CountInv(Apply(s, step))
  {
    var s' := Apply(s, step);
    SumUpdate(WorkerLoad, s.workers, step.worker, s'.workers[step.worker]);
    CountShift(s, s');
  }

  lemma CountOther(s: Pool, step: Step)
    requires CountInv(s) && Enabled(s, step)
    requires !step.WorkerStep? && !step.WorkerSpawn? && !step.WorkerEnqueue? && !step.CallStep?
    ensures CountInv(Apply(s, step))
  {
    if step.ControlStep? {
      CountControl(s, step.totalFirst);
    } else if step.CallStart? {
      CountCallStart(s, step);
    } else {
      CountSimple(s, step);
    }
  }

  lemma CountCallStart(s: Pool, step: Step)
    requires CountInv(s) && Enabled(s, step) && step.CallStart?
    ensures CountInv(Apply(s, step))
  {
    var s', call := Apply(s, step), Apply(s, step).calls[|s.calls|];
    NewCall(s, step);
    SumAppend(CallLoad, s.calls, call);
    CountShift(s, s');
  }

  /** A call that starts is added to the others, and has pushed nothing. */
  lemma NewCall(s: Pool, step: Step)
    requires Enabled(s, step) && step.CallStart?
    ensures var s' := Apply(s, step);
      && |s'.calls| == |s.calls| + 1 && s'.calls == s.calls + [s'.calls[|s.calls|]]
      && CallLoad(s'.calls[|s.calls|]) == 0
      && s'.total == s.total && s'.queue == s.queue && s'.workers == s.workers && s'.outside == s.outside
  {
  }

  /** Pushes from outside count; calls of the owner and the flag do not. */
  lemma CountSimple(s: Pool, step: Step)
    requires CountInv(s) && Enabled(s, step)
    requires step.OutsideCount? || step.OutsideEnqueue? || OwnersOrFlag(step)
    ensures CountInv(Apply(s, step))
  {
    CountShift(s, Apply(s, step));
  }

  // ----- the threads

  lemma ThreadWorker(s: Pool, w: nat)
    requires ThreadInv(s) && Enabled(s, WorkerStep(w))
    ensures ThreadInv(StepWorker(s, w))
  {
    ThreadFrame(s, StepWorker(s, w), w);
  }

  /** Worker w moves, and exits only if running is clear. */
  lemma ThreadFrame(s: Pool, s': Pool, w: nat)
    requires ThreadInv(s) && w < |s.workers| && !s.workers[w].Exited?
    requires |s'.workers| == |s.workers| && s'.workers == s.workers[w := s'.workers[w]]
    requires s'.base == s.base && s'.control == s.control && s'.running == s.running && s'.threadCount == s.threadCount
    requires s'.workers[w].Exited? ==> !s.running
    ensures ThreadInv(s')
  {
  }

  lemma ThreadStep(s: Pool, step: Step)
    requires ThreadInv(s) && Enabled(s, step)
    ensures ThreadInv(Apply(s, step))
  {
    if step.WorkerStep? {
      ThreadWorker(s, step.worker);
    } else if step.WorkerSpawn? || step.WorkerEnqueue? {
      ThreadFrame(s, Apply(s, step), step.worker);
    } else if step.ControlStep? {
      ThreadControl(s, step.totalFirst);
    } else {
      ThreadOther(s, step);
    }
  }

  /** Pushes, calls and the owner's requests leave the threads alone. */
  lemma ThreadOther(s: Pool, step: Step)
    requires ThreadInv(s) && Enabled(s, step)
    requires !step.WorkerStep? && !step.WorkerSpawn? && !step.WorkerEnqueue? && !step.ControlStep?
    ensures ThreadInv(Apply(s, step))
  {
  }

  lemma ThreadControl(s: Pool, totalFirst: bool)
    requires ThreadInv(s) && ControlCanStep(s)
    ensures ThreadInv(StepControl(s, totalFirst))
  {
  }

  // ----- the parallel loops

  /** Steps that touch neither the calls nor the logs they are told from. */
  lemma CallFrame(s: Pool, s': Pool)
    requires CallInv(s)
    requires s'.calls == s.calls && s'.enqueued == s.enqueued && s'.ran == s.ran && s'.returned == s.returned
    ensures CallInv(s')
  {
    forall c: nat | c < |s'.calls| ensures CallOk(s', c) {
      assert CallOk(s, c);
    }
    forall j: nat | j < |s'.enqueued| ensures BlockLogged(s', j) {
      assert BlockLogged(s, j);
    }
  }

  /** A task that is no block is enqueued. */
  lemma CallEnqueuePlain(s: Pool, s': Pool, tag: nat)
    requires CallInv(s)
    requires s'.calls == s.calls && s'.enqueued == s.enqueued + [Plain(tag)]
    requires s'.ran == s.ran && s'.returned == s.returned
    ensures CallInv(s')
  {
    forall c: nat | c < |s'.calls| ensures CallOk(s', c) {
      assert CallOk(s, c);
    }
    forall j: nat | j < |s'.enqueued| ensures BlockLogged(s', j) {
      assert j < |s.enqueued| ==> BlockLogged(s, j);
    }
  }

  lemma CallBegin(s: Pool, first: int, after: int, wanted: nat)
    requires CallInv(s) && Enabled(s, CallStart(first, after, wanted))
    ensures CallInv(Apply(s, CallStart(first, after, wanted)))
  {
    var s' := Apply(s, CallStart(first, after, wanted));
    MakeSplitValid(first, after, if wanted == 0 then s.threadCount else wanted);
    forall c: nat | c < |s'.calls| ensures CallOk(s', c) {
      assert c < |s.calls| ==> CallOk(s, c);
    }
    forall j: nat | j < |s'.enqueued| ensures BlockLogged(s', j) {
      assert BlockLogged(s, j);
    }
  }

  lemma CallPush(s: Pool, c: nat)
    requires CallInv(s) && c < |s.calls| && CallCanStep(s.calls[c]) && s.calls[c].phase.Pushing?
    requires forall j :: j in s.ran || j in s.returned ==> j < |s.enqueued|
    ensures CallInv(StepCall(s, c))
  {
    var s' := StepCall(s, c);
    assert CallOk(s, c);
    BlockPushed(s, s', c);
    forall x: nat | x < |s'.calls| && x != c ensures CallOk(s', x) {
      assert CallOk(s, x);
    }
    forall j: nat | j < |s'.enqueued| ensures BlockLogged(s', j) {
      assert j < |s.enqueued| ==> BlockLogged(s, j);
    }
  }

  lemma BlockPushed(s: Pool, s': Pool, c: nat)
    requires c < |s.calls| && CallOk(s, c) && s.calls[c].phase.Pushing? && |s'.calls| == |s.calls|
    requires forall j :: j in s.ran || j in s.returned ==> j < |s.enqueued|
    requires s'.calls[c] == s.calls[c].(phase := Looping, jobs := s.calls[c].jobs + [|s.enqueued|])
    requires s'.enqueued == s.enqueued + [Block(c, s.calls[c].counted - 1)]
    requires s'.ran == s.ran && s'.returned == s.returned
    ensures CallOk(s', c)
  {
  }

  /** A call advances without touching a block. */
  lemma CallAdvance(s: Pool, s': Pool, c: nat)
    requires CallInv(s) && c < |s.calls| && |s'.calls| == |s.calls| && s'.calls == s.calls[c := s'.calls[c]]
    requires s'.enqueued == s.enqueued && s'.ran == s.ran && s'.returned == s.returned
    requires
      var before, after := s.calls[c], s'.calls[c];
      && after == before.(counted := after.counted, phase := after.phase, blocksRunning := after.blocksRunning)
      && after.counted <= after.split.num
      && after.counted == |after.jobs| + (if after.phase.Counted? || after.phase.Pushing? then 1 else 0)
      && after.blocksRunning - before.blocksRunning == after.counted - before.counted
      && (after.phase.Done? ==> after.counted == after.split.num && after.blocksRunning == 0)
    ensures CallInv(s')
  {
    forall x: nat | x < |s'.calls| ensures CallOk(s', x) {
      assert CallOk(s, x);
    }
    forall j: nat | j < |s'.enqueued| ensures BlockLogged(s', j) {
      assert BlockLogged(s, j);
    }
  }

  lemma CallMove(s: Pool, c: nat)
    requires CallInv(s) && c < |s.calls| && CallCanStep(s.calls[c]) && !s.calls[c].phase.Pushing?
    ensures CallInv(StepCall(s, c))
  {
    assert CallOk(s, c);
    CallAdvance(s, StepCall(s, c), c);
  }

  /** A plain task ran and returned: no block of any call is meant. */
  lemma CallRunPlain(s: Pool, s': Pool, job: nat)
    requires CallInv(s) && job < |s.enqueued| && s.enqueued[job].Plain?
    requires s'.calls == s.calls && s'.enqueued == s.enqueued
    requires s'.ran == s.ran + [job] && s'.returned == s.returned + [job]
    ensures CallInv(s')
  {
    forall c: nat | c < |s'.calls| ensures CallOk(s', c) {
      assert CallOk(s, c);
    }
    forall j: nat | j < |s'.enqueued| ensures BlockLogged(s', j) {
      assert BlockLogged(s, j);
    }
  }

  /** A block ran for the first time: exactly its indices are added to those processed. */
  lemma CallRunBlock(s: Pool, s': Pool, job: nat, c: nat, t: nat)
    requires CallInv(s) && job < |s.enqueued| && s.enqueued[job] == Block(c, t) && c < |s.calls| && job !in s.ran
    requires s'.calls == s.calls[c := ProcessBlock(s.calls[c], t)] && s'.enqueued == s.enqueued
    requires s'.ran == s.ran + [job] && s'.returned == s.returned
    ensures CallInv(s')
  {
    assert BlockLogged(s, job);
    forall x: nat | x < |s'.calls| ensures CallOk(s', x) {
      assert CallOk(s, x);
      if x == c {
        ProcessedAfterBlock(s, s', job, c, t);
      }
    }
    forall j: nat | j < |s'.enqueued| ensures BlockLogged(s', j) {
      assert BlockLogged(s, j);
    }
  }

  lemma ProcessedAfterBlock(s: Pool, s': Pool, job: nat, c: nat, t: nat)
    requires c < |s.calls| && CallOk(s, c) && t < |s.calls[c].jobs| && s.calls[c].jobs[t] == job && job !in s.ran
    requires |s'.calls| == |s.calls| && s'.calls[c] == ProcessBlock(s.calls[c], t) && s'.ran == s.ran + [job]
    ensures forall i :: s'.calls[c].processed[i] == if IndexRan(s', s'.calls[c], i) then 1 else 0
  {
    var call, call' := s.calls[c], s'.calls[c];
    BlockInside(call.split, t);
    forall i ensures call'.processed[i] == if IndexRan(s', call', i) then 1 else 0 {
      if call.split.lo <= i < call.split.hi {
        BlockOfExact(call.split, i, t);
        var u := call.split.BlockOf(i);
        assert u < |call.jobs| && u != t ==> s.enqueued[call.jobs[u]] != s.enqueued[job];
      }
    }
  }

  /** A set of n numbers below n contains all of them. */
  lemma FullSet(d: set<nat>, n: nat)
    requires |d| == n && forall t :: t in d ==> t < n
    ensures forall t: nat :: t < n ==> t in d
  {
    var all := Below(n);
    assert all == d + (all - d);
    assert |all - d| == 0;
  }

  function Below(n: nat): (all: set<nat>)
    ensures |all| == n && forall t: nat :: t in all <==> t < n
  {
    if n == 0 then {} else Below(n - 1) + {n - 1}
  }

  /** Once every block is counted and blocks_running is zero, every block has passed its decrement. */
  lemma AllBlocksLeft(s: Pool, c: nat)
    requires c < |s.calls| && CallOk(s, c)
    requires s.calls[c].counted == s.calls[c].split.num && s.calls[c].blocksRunning == 0
    ensures |s.calls[c].jobs| == s.calls[c].split.num
    ensures forall t: nat :: t < s.calls[c].split.num ==> s.calls[c].jobs[t] in s.returned
  {
    var call := s.calls[c];
    assert forall t :: t in call.decremented ==> t < |call.jobs|;
    assert call.decremented <= Below(|call.jobs|);
    SubsetSize(call.decremented, Below(|call.jobs|));
    FullSet(call.decremented, call.split.num);
  }

  lemma {:induction false} SubsetSize(a: set<nat>, b: set<nat>)
    requires a <= b
    ensures |a| <= |b|
  {
    assert b == a + (b - a);
  }

  lemma CallLeaveBlock(s: Pool, s': Pool, job: nat, c: nat, t: nat)
    requires CallInv(s) && job < |s.enqueued| && s.enqueued[job] == Block(c, t) && c < |s.calls| && job !in s.returned
    requires
      var call := s.calls[c];
      s'.calls == s.calls[c := call.(blocksRunning := call.blocksRunning - 1, decremented := call.decremented + {t})]
    requires s'.enqueued == s.enqueued && s'.ran == s.ran && s'.returned == s.returned + [job]
    ensures CallInv(s')
  {
    assert BlockLogged(s, job) && CallOk(s, c);
    if s.calls[c].phase.Done? {
      AllBlocksLeft(s, c);
    }
    BlockLeft(s, s', job, c, t);
    forall x: nat | x < |s'.calls| && x != c ensures CallOk(s', x) {
      assert CallOk(s, x);
    }
    forall j: nat | j < |s'.enqueued| ensures BlockLogged(s', j) {
      assert BlockLogged(s, j);
    }
  }

  lemma BlockLeft(s: Pool, s': Pool, job: nat, c: nat, t: nat)
    requires c < |s.calls| && CallOk(s, c) && !s.calls[c].phase.Done? && job !in s.returned
    requires t < |s.calls[c].jobs| && s.calls[c].jobs[t] == job && |s'.calls| == |s.calls|
    requires
      var call := s.calls[c];
      s'.calls[c] == call.(blocksRunning := call.blocksRunning - 1, decremented := call.decremented + {t})
    requires s'.enqueued == s.enqueued && s'.ran == s.ran && s'.returned == s.returned + [job]
    ensures CallOk(s', c)
  {
  }

  lemma CallWorker(s: Pool, w: nat)
    requires LogInv(s) && JobInv(s) && CallInv(s) && Enabled(s, WorkerStep(w))
    ensures CallInv(StepWorker(s, w))
  {
    var worker, s' := s.workers[w], StepWorker(s, w);
    assert WorkerOk(s, w);
    if worker.Running? {
      var job := worker.job;
      assert s.enqueued[job] == s.popped[job];
      if s.popped[job].Plain? {
        CallRunPlain(s, s', job);
      } else {
        CallRunBlock(s, s', job, s.popped[job].call, s.popped[job].index);
      }
    } else if worker.LoopRan? {
      var job := worker.job;
      assert s.enqueued[job] == s.popped[job];
      CallLeaveBlock(s, s', job, s.popped[job].call, s.popped[job].index);
    } else {
      CallFrame(s, s');
    }
  }

  lemma CallInvStep(s: Pool, step: Step)
    requires LogInv(s) && JobInv(s) && CallInv(s) && Enabled(s, step)
    ensures CallInv(Apply(s, step))
  {
    var s' := Apply(s, step);
    if step.WorkerStep? {
      CallWorker(s, step.worker);
    } else if step.OutsideEnqueue? || step.WorkerEnqueue? {
      CallEnqueuePlain(s, s', step.tag);
    } else if step.CallStart? {
      CallBegin(s, step.first, step.after, step.wanted);
    } else if step.CallStep? {
      if s.calls[step.call].phase.Pushing? {
        CallPush(s, step.call);
      } else {
        CallMove(s, step.call);
      }
    } else {
      CallFrame(s, s');
    }
  }

  // ----- all runs

  lemma InitKeepsInv(count: nat, hardware: nat)
    ensures Inv(Init(count, hardware))
  {
  }

  lemma StepKeepsInv(s: Pool, step: Step)
    requires Inv(s) && Enabled(s, step)
    ensures Inv(Apply(s, step))
  {
    LogStep(s, step);
    JobStep(s, step);
    CountStep(s, step);
    ThreadStep(s, step);
    CallInvStep(s, step);
  }

  lemma {:induction false} RunKeepsInv(s: Pool, steps: seq<Step>)
    requires Inv(s) && CanRun(s, steps)
    ensures Inv(Run(s, steps))
    decreases |steps|
  {
    if steps == [] {
    } else {
      StepKeepsInv(s, steps[0]);
      RunKeepsInv(Apply(s, steps[0]), steps[1..]);
    }
  }

  lemma ReachableInv(s: Pool)
    requires Reachable(s)
    ensures Inv(s)
  {
    var count: nat, hardware: nat, steps: seq<Step> :|
      CanRun(Init(count, hardware), steps) && Run(Init(count, hardware), steps) == s;
    InitKeepsInv(count, hardware);
    RunKeepsInv(Init(count, hardware), steps);
  }
}
