/**
 When a paused wait_for_tasks can leave although a worker holds a task. It reads tasks_total and the queue length in two
 steps, so the answer depends on what the workers, and those who push, can do in between.
 */
module ThreadPoolPause {
  import opened Sums
  import opened ThreadPool
  import opened ThreadPoolInvariant
  import opened ThreadPoolTheorems
  import opened ThreadPoolDrain
  import opened ThreadPoolCalls

  /** Who pushes while the owner waits. */
  datatype Pushers = Nobody | TasksOnly | Anyone

  predicate Allowed(step: Step, pushers: Pushers) {
    match step
    case WorkerStep(_) | ControlStep(_) => true
    case WorkerSpawn(_) | WorkerEnqueue(_, _) => !pushers.Nobody?
    case OutsideCount | OutsideEnqueue(_) | CallStart(_, _, _) | CallStep(_) => pushers.Anyone?
    case SetPaused(_) | WaitCall | ResetCall(_, _) | DestroyCall => false
  }

  ghost predicate SomeoneHolds(s: Pool) {
    exists w: nat :: w < |s.workers| && Holds(s.workers[w])
  }

  ghost predicate SomeoneAtPop(s: Pool) {
    exists w: nat :: w < |s.workers| && s.workers[w].AtPop?
  }

  /** A task is inside its function, or half way through a push. */
  ghost predicate SomeoneCanPush(s: Pool) {
    exists w: nat :: w < |s.workers| && (s.workers[w].Running? || s.workers[w].Spawning?)
  }

  /** The run stays inside the wait up to its last step, which leaves the wait while a worker holds a task. */
  ghost predicate LeavesBusy(s: Pool, pushers: Pushers, steps: seq<Step>)
    decreases |steps|
  {
    && steps != [] && s.control.Waiting? && Enabled(s, steps[0]) && Allowed(steps[0], pushers)
    && var s' := Apply(s, steps[0]);
       if |steps| == 1 then !s'.control.Waiting? && SomeoneHolds(s') else LeavesBusy(s', pushers, steps[1..])
  }

  ghost predicate CanLeaveBusy(s: Pool, pushers: Pushers) {
    exists steps: seq<Step> :: LeavesBusy(s, pushers, steps)
  }

  /** The owner has entered the wait, or come round its loop, with the flag set. */
  predicate PausedWait(s: Pool) {
    s.paused && s.control.Waiting? && s.control.wait.ReadPaused?
  }

  lemma StepBefore(s: Pool, pushers: Pushers, step: Step)
    requires s.control.Waiting? && Enabled(s, step) && Allowed(step, pushers) && CanLeaveBusy(Apply(s, step), pushers)
    ensures CanLeaveBusy(s, pushers)
  {
    var rest: seq<Step> :| LeavesBusy(Apply(s, step), pushers, rest);
    assert ([step] + rest)[1..] == rest;
    assert LeavesBusy(s, pushers, [step] + rest);
  }

  lemma LeaveNow(s: Pool, pushers: Pushers)
    requires s.control.Waiting? && SomeoneHolds(s) && !Apply(s, ControlStep(true)).control.Waiting?
    ensures CanLeaveBusy(s, pushers)
  {
    assert LeavesBusy(s, pushers, [ControlStep(true)]);
  }

  /** The owner reads tasks_total and is about to read the queue length. */
  lemma ReadTotal(s: Pool, pushers: Pushers) returns (s': Pool)
    requires PausedWait(s)
    ensures s' == s.(control := Waiting(ThenQueued(s.total), s.control.why))
    ensures CanLeaveBusy(s', pushers) ==> CanLeaveBusy(s, pushers)
  {
    var s1 := Apply(s, ControlStep(true));
    s' := Apply(s1, ControlStep(true));
    if CanLeaveBusy(s', pushers) {
      StepBefore(s1, pushers, ControlStep(true));
      StepBefore(s, pushers, ControlStep(true));
    }
  }

  // ----- pushes from anywhere

  /** Pushes from outside make the queue as long as the total that was read, while worker w holds its task. */
  lemma {:induction false} OutsidePushesHide(s: Pool, w: nat, pushes: nat)
    requires s.control.Waiting? && s.control.wait.ThenQueued? && w < |s.workers| && Holds(s.workers[w])
    requires (s.control.wait.total - |s.queue| - pushes) % COUNTER_SIZE == 0
    ensures CanLeaveBusy(s, Anyone)
    decreases pushes
  {
    if pushes == 0 {
      LeaveNow(s, Anyone);
    } else {
      var s1 := Apply(s, OutsideCount);
      OutsidePushesHide(Apply(s1, OutsideEnqueue(0)), w, pushes - 1);
      StepBefore(s1, Anyone, OutsideEnqueue(0));
      StepBefore(s, Anyone, OutsideCount);
    }
  }

  lemma HeldTaskCanBeMissed(s: Pool, w: nat)
    requires PausedWait(s) && w < |s.workers| && Holds(s.workers[w])
    ensures CanLeaveBusy(s, Anyone)
  {
    var s' := ReadTotal(s, Anyone);
    var pushes := (s'.control.wait.total - |s'.queue|) % COUNTER_SIZE;
    OutsidePushesHide(s', w, pushes);
  }

  lemma PopCanBeMissed(s: Pool, w: nat)
    requires PausedWait(s) && w < |s.workers| && s.workers[w].AtPop? && s.queue != []
    ensures CanLeaveBusy(s, Anyone)
  {
    HeldTaskCanBeMissed(Apply(s, WorkerStep(w)), w);
    StepBefore(s, Anyone, WorkerStep(w));
  }

  /** While the flag is set, a worker that neither holds a task nor is past its pause check stays so. */
  lemma {:induction false} IdleWorkersStayIdle(s: Pool, steps: seq<Step>)
    requires s.paused && s.control.Waiting? && !SomeoneHolds(s) && !SomeoneAtPop(s)
    ensures !LeavesBusy(s, Anyone, steps)
    decreases |steps|
  {
    if steps != [] && Enabled(s, steps[0]) && Allowed(steps[0], Anyone) {
      IdleStep(s, steps[0]);
      if Apply(s, steps[0]).control.Waiting? {
        IdleWorkersStayIdle(Apply(s, steps[0]), steps[1..]);
      }
    }
  }

  lemma IdleStep(s: Pool, step: Step)
    requires s.paused && s.control.Waiting? && !SomeoneHolds(s) && !SomeoneAtPop(s)
    requires Enabled(s, step) && Allowed(step, Anyone)
    ensures var s' := Apply(s, step); s'.paused && !SomeoneHolds(s') && !SomeoneAtPop(s')
  {
  }

  /**
   If others may push while the owner waits, the wait can leave with a task running exactly when, at its start, a worker
   holds a task or is past its pause check.
   */
  lemma PausedWaitAmongPushes(s: Pool)
    requires PausedWait(s)
    ensures CanLeaveBusy(s, Anyone) <==> SomeoneHolds(s) || SomeoneAtPop(s)
  {
    if w: nat :| w < |s.workers| && Holds(s.workers[w]) {
      HeldTaskCanBeMissed(s, w);
    } else if w: nat :| w < |s.workers| && s.workers[w].AtPop? {
      var s1 := Apply(s, OutsideCount);
      var s2 := Apply(s1, OutsideEnqueue(0));
      PopCanBeMissed(s2, w);
      StepBefore(s1, Anyone, OutsideEnqueue(0));
      StepBefore(s, Anyone, OutsideCount);
    } else {
      forall steps: seq<Step> ensures !LeavesBusy(s, Anyone, steps) {
        IdleWorkersStayIdle(s, steps);
      }
    }
  }

  // ----- pushes from inside tasks

  /** A task pushes until the queue is as long as the total that was read, and is itself not noticed. */
  lemma {:induction false} NestedPushesHide(s: Pool, w: nat, pushes: nat)
    requires s.control.Waiting? && s.control.wait.ThenQueued? && w < |s.workers| && s.workers[w].Running?
    requires (s.control.wait.total - |s.queue| - pushes) % COUNTER_SIZE == 0
    ensures CanLeaveBusy(s, TasksOnly)
    decreases pushes
  {
    if pushes == 0 {
      assert Holds(s.workers[w]);
      LeaveNow(s, TasksOnly);
    } else {
      var s1 := Apply(s, WorkerSpawn(w));
      NestedPushesHide(Apply(s1, WorkerEnqueue(w, 0)), w, pushes - 1);
      StepBefore(s1, TasksOnly, WorkerEnqueue(w, 0));
      StepBefore(s, TasksOnly, WorkerSpawn(w));
    }
  }

  lemma PushingTaskCanBeMissed(s: Pool, w: nat)
    requires PausedWait(s) && w < |s.workers| && s.workers[w].Running?
    ensures CanLeaveBusy(s, TasksOnly)
  {
    var s' := ReadTotal(s, TasksOnly);
    var pushes := (s'.control.wait.total - |s'.queue|) % COUNTER_SIZE;
    NestedPushesHide(s', w, pushes);
  }

  /** No worker can pop or push any more; what the owner has read so far cannot mislead it. */
  ghost predicate Settled(s: Pool) {
    && CountInv(s) && Outstanding(s) < COUNTER_SIZE && s.paused && s.control.Waiting?
    && (s.queue == [] || !SomeoneAtPop(s)) && !SomeoneCanPush(s)
    && match s.control.wait
       case ThenQueued(total) => Outstanding(s) <= total < COUNTER_SIZE
       case ThenTotal(queued) => queued == |s.queue|
       case ReadTotalOnly => false
       case _ => true
  }

  lemma SettledWorker(s: Pool, w: nat)
    requires Settled(s) && Enabled(s, WorkerStep(w))
    ensures Settled(Apply(s, WorkerStep(w)))
  {
    CountStep(s, WorkerStep(w));
    OutstandingShrinks(s, w);
    SettledPlaces(s, w);
  }

  lemma SettledPlaces(s: Pool, w: nat)
    requires s.paused && (s.queue == [] || !SomeoneAtPop(s)) && !SomeoneCanPush(s) && Enabled(s, WorkerStep(w))
    ensures var s' := StepWorker(s, w);
      && s'.queue == s.queue && s'.control == s.control && s'.paused
      && (s'.queue == [] || !SomeoneAtPop(s')) && !SomeoneCanPush(s')
  {
    var s' := StepWorker(s, w);
    if !SomeoneAtPop(s) {
      assert !s.workers[w].AtPop?;
      forall x: nat | x < |s'.workers| ensures !s'.workers[x].AtPop? {
      }
    }
  }

  /** A worker's step counts at most one task down. */
  lemma OutstandingShrinks(s: Pool, w: nat)
    requires Enabled(s, WorkerStep(w))
    ensures Outstanding(StepWorker(s, w)) == Outstanding(s) - if s.workers[w].Returned? then 1 else 0
  {
    WorkerShiftsLoad(s, w);
    SumUpdate(WorkerLoad, s.workers, w, StepWorker(s, w).workers[w]);
    WorkerKeepsCallLoad(s, w);
  }

  lemma NobodyHoldsWithoutLoad(s: Pool)
    requires Sum(WorkerLoad, s.workers) == 0
    ensures !SomeoneHolds(s)
  {
    if w: nat :| w < |s.workers| && Holds(s.workers[w]) {
      SumAtLeast(WorkerLoad, s.workers, w);
    }
  }

  lemma SettledOwner(s: Pool, b: bool)
    requires Settled(s)
    ensures var s' := Apply(s, ControlStep(b)); if s'.control.Waiting? then Settled(s') else !SomeoneHolds(s')
  {
    CountStep(s, ControlStep(b));
    if !Apply(s, ControlStep(b)).control.Waiting? {
      NobodyHoldsWithoutLoad(s);
    }
  }

  lemma {:induction false} SettledNeverLeavesBusy(s: Pool, steps: seq<Step>)
    requires Settled(s)
    ensures !LeavesBusy(s, TasksOnly, steps)
    decreases |steps|
  {
    if steps != [] && Enabled(s, steps[0]) && Allowed(steps[0], TasksOnly) {
      if steps[0].WorkerStep? {
        SettledWorker(s, steps[0].worker);
        SettledNeverLeavesBusy(Apply(s, steps[0]), steps[1..]);
      } else {
        SettledOwner(s, steps[0].totalFirst);
        if Apply(s, steps[0]).control.Waiting? {
          SettledNeverLeavesBusy(Apply(s, steps[0]), steps[1..]);
        }
      }
    }
  }

  /**
   If only tasks push, the wait can leave with a task running when a task is inside its function, or a worker is past
   its pause check with something to pop; and with fewer than 2^32 tasks outstanding only then.
   */
  lemma PausedWaitAmongNestedPushes(s: Pool)
    requires Reachable(s) && PausedWait(s)
    ensures SomeoneCanPush(s) || (s.queue != [] && SomeoneAtPop(s)) ==> CanLeaveBusy(s, TasksOnly)
    ensures Outstanding(s) < 0x1_0000_0000 ==>
      (CanLeaveBusy(s, TasksOnly) <==> SomeoneCanPush(s) || (s.queue != [] && SomeoneAtPop(s)))
  {
    ReachableInv(s);
    if w: nat :| w < |s.workers| && s.workers[w].Running? {
      PushingTaskCanBeMissed(s, w);
    } else if w: nat :| w < |s.workers| && s.workers[w].Spawning? {
      PushingTaskCanBeMissed(Apply(s, WorkerEnqueue(w, 0)), w);
      StepBefore(s, TasksOnly, WorkerEnqueue(w, 0));
    } else if w: nat :| w < |s.workers| && s.workers[w].AtPop? && s.queue != [] {
      PushingTaskCanBeMissed(Apply(s, WorkerStep(w)), w);
      StepBefore(s, TasksOnly, WorkerStep(w));
    } else if Outstanding(s) < COUNTER_SIZE {
      forall steps: seq<Step> ensures !LeavesBusy(s, TasksOnly, steps) {
        SettledNeverLeavesBusy(s, steps);
      }
    }
  }

  // ----- no pushes

  function SpawnLoad(w: Worker): nat {
    if w.Spawning? then 2 else 0
  }

  /** Pops the workers can still do while the flag stays set: each worker past its check pops once. */
  function PopsLeft(s: Pool): nat {
    var ready := Sum(PopLoad, s.workers);
    if ready < |s.queue| then ready else |s.queue|
  }

  /**
   Pops that must fall between the two reads: one for each count of a push that is half done, and one for the task that
   is missed, unless a task that is itself half way through a push is.
   */
  function PopsNeeded(s: Pool): nat {
    var spawning := Sum(SpawnLoad, s.workers);
    (if spawning == 0 then 1 else spawning) + s.outside + Sum(CallLoad, s.calls)
  }

  /** Pops since the queue was read, if it was, and those still possible. */
  function Budget(s: Pool): int
    requires s.control.Waiting?
  {
    (if s.control.wait.ThenTotal? then s.control.wait.queued - |s.queue| else 0) + PopsLeft(s)
  }

  lemma {:induction false} SumAtMost<T>(f: T -> nat, g: T -> nat, xs: seq<T>)
    requires forall x :: x in xs ==> f(x) <= g(x)
    ensures Sum(f, xs) <= Sum(g, xs)
    ensures (forall x :: x in xs ==> f(x) == g(x)) ==> Sum(f, xs) == Sum(g, xs)
  {
    if xs == [] {
    } else {
      SumAtMost(f, g, xs[..|xs| - 1]);
    }
  }

  /** What a worker's step does to the pops: a pop uses one up, and nothing adds one while the flag is set. */
  lemma WorkerUsesPops(s: Pool, w: nat)
    requires s.paused && Enabled(s, WorkerStep(w))
    ensures var s' := StepWorker(s, w);
      && |s.queue| - |s'.queue| == PopsLeft(s) - PopsLeft(s')
      && PopsNeeded(s') == PopsNeeded(s) && s'.control == s.control && s'.paused
  {
    var s' := StepWorker(s, w);
    WorkerShiftsLoad(s, w);
    SumUpdate(PopLoad, s.workers, w, s'.workers[w]);
    SumUpdate(SpawnLoad, s.workers, w, s'.workers[w]);
    SumAtLeast(PopLoad, s.workers, w);
    WorkerKeepsCallLoad(s, w);
  }

  // the wait leaves only after enough pops

  /** The owner has come so far without a push, and the pops are too few. */
  ghost predicate TooFewPops(s: Pool) {
    && CountInv(s) && Outstanding(s) < COUNTER_SIZE && s.paused && s.control.Waiting?
    && Budget(s) < PopsNeeded(s)
    && match s.control.wait
       case ThenQueued(total) =>
         && Outstanding(s) <= total < COUNTER_SIZE
         && (total == |s.queue| ==> Sum(WorkerLoad, s.workers) == 0)
       case ThenTotal(queued) => |s.queue| <= queued < COUNTER_SIZE
       case ReadTotalOnly => false
       case _ => true
  }

  lemma TooFewPopsWorker(s: Pool, w: nat)
    requires TooFewPops(s) && Enabled(s, WorkerStep(w))
    ensures TooFewPops(Apply(s, WorkerStep(w)))
  {
    var s' := Apply(s, WorkerStep(w));
    CountStep(s, WorkerStep(w));
    OutstandingShrinks(s, w);
    WorkerShiftsLoad(s, w);
    WorkerUsesPops(s, w);
    assert |s'.queue| <= |s.queue|;
  }

  lemma SpawnLoadInLoad(s: Pool)
    ensures Sum(SpawnLoad, s.workers) <= Sum(WorkerLoad, s.workers)
  {
    SumAtMost(SpawnLoad, WorkerLoad, s.workers);
  }

  /** Leaving takes more pops between the reads than there could be. */
  lemma TooFewPopsLeaving(s: Pool, b: bool)
    requires TooFewPops(s) && !StepWait(s, s.control.wait, s.control.why, b).Waiting?
    ensures !SomeoneHolds(s)
  {
    SpawnLoadInLoad(s);
    assert Sum(WorkerLoad, s.workers) == 0;
    NobodyHoldsWithoutLoad(s);
  }

  lemma TooFewPopsStaying(s: Pool, b: bool)
    requires TooFewPops(s) && StepWait(s, s.control.wait, s.control.why, b).Waiting?
    ensures TooFewPops(s.(control := StepWait(s, s.control.wait, s.control.why, b)))
  {
    SpawnLoadInLoad(s);
  }

  lemma TooFewPopsOwner(s: Pool, b: bool)
    requires TooFewPops(s)
    ensures var s' := Apply(s, ControlStep(b)); if s'.control.Waiting? then TooFewPops(s') else !SomeoneHolds(s')
  {
    if StepWait(s, s.control.wait, s.control.why, b).Waiting? {
      TooFewPopsStaying(s, b);
    } else {
      TooFewPopsLeaving(s, b);
    }
  }

  lemma {:induction false} TooFewPopsNeverLeaveBusy(s: Pool, steps: seq<Step>)
    requires TooFewPops(s)
    ensures !LeavesBusy(s, Nobody, steps)
    decreases |steps|
  {
    if steps != [] && Enabled(s, steps[0]) && Allowed(steps[0], Nobody) {
      if steps[0].WorkerStep? {
        TooFewPopsWorker(s, steps[0].worker);
        TooFewPopsNeverLeaveBusy(Apply(s, steps[0]), steps[1..]);
      } else {
        TooFewPopsOwner(s, steps[0].totalFirst);
        if Apply(s, steps[0]).control.Waiting? {
          TooFewPopsNeverLeaveBusy(Apply(s, steps[0]), steps[1..]);
        }
      }
    }
  }

  // enough pops can be made to fall between the reads

  /** The queue was read; the workers can pop, and finish, until the counter equals what was read. */
  ghost predicate EnoughPops(s: Pool) {
    && Inv(s) && s.paused && s.control.Waiting? && s.control.wait.ThenTotal?
    && Outstanding(s) >= s.control.wait.queued && Budget(s) >= PopsNeeded(s)
  }

  /** A worker moves towards that. */
  lemma EnoughPopsWorker(s: Pool, w: nat)
    requires EnoughPops(s) && Enabled(s, WorkerStep(w)) && Productive(s, WorkerStep(w))
    requires Outstanding(s) == s.control.wait.queued ==> !s.workers[w].Returned?
    ensures EnoughPops(Apply(s, WorkerStep(w))) && Work(Apply(s, WorkerStep(w))) < Work(s)
  {
    StepKeepsInv(s, WorkerStep(w));
    OutstandingShrinks(s, w);
    WorkerUsesPops(s, w);
    WorkerStepUsesWork(s, w);
  }

  /** Nobody holds a task except half way through a push; then too few pops have been made, and one is possible. */
  lemma NextPop(s: Pool) returns (w: nat)
    requires EnoughPops(s)
    requires forall x: nat :: x < |s.workers| && Holds(s.workers[x]) ==> s.workers[x].Spawning?
    requires Outstanding(s) > s.control.wait.queued || !SomeoneHolds(s)
    ensures w < |s.workers| && s.workers[w].AtPop? && s.queue != []
  {
    SumAtMost(SpawnLoad, WorkerLoad, s.workers);
    assert forall x :: x in s.workers ==> SpawnLoad(x) == WorkerLoad(x);
    if Sum(SpawnLoad, s.workers) > 0 {
      var x := SumPositive(SpawnLoad, s.workers);
      assert Holds(s.workers[x]);
    }
    assert PopsLeft(s) > 0;
    w := SumPositive(PopLoad, s.workers);
  }

  lemma {:induction false} EnoughPopsLeaveBusy(s: Pool)
    requires EnoughPops(s)
    ensures CanLeaveBusy(s, Nobody)
    decreases Work(s)
  {
    if Outstanding(s) == s.control.wait.queued && SomeoneHolds(s) {
      ModuloDifference(Outstanding(s), s.control.wait.queued);
      LeaveNow(s, Nobody);
    } else {
      var w: nat;
      if x: nat :| x < |s.workers| && Holds(s.workers[x]) && !s.workers[x].Spawning? {
        w := x;
        assert WorkerOk(s, w);
        assert !s.workers[w].Exited?;
        LivingWorkerCanStep(s, w);
      } else {
        w := NextPop(s);
      }
      EnoughPopsWorker(s, w);
      EnoughPopsLeaveBusy(Apply(s, WorkerStep(w)));
      StepBefore(s, Nobody, WorkerStep(w));
    }
  }

  lemma QueueReadFirst(s: Pool)
    requires Inv(s) && PausedWait(s) && PopsLeft(s) >= PopsNeeded(s)
    ensures CanLeaveBusy(s, Nobody)
  {
    var s1 := Apply(s, ControlStep(false));
    var s2 := Apply(s1, ControlStep(false));
    StepKeepsInv(s, ControlStep(false));
    StepKeepsInv(s1, ControlStep(false));
    EnoughPopsLeaveBusy(s2);
    StepBefore(s1, Nobody, ControlStep(false));
    StepBefore(s, Nobody, ControlStep(false));
  }

  /**
   If nobody pushes, the wait can leave with a task running when enough workers are past their pause check, with enough
   to pop, to make up for the pushes that are half done; and with fewer than 2^32 tasks outstanding only then.
   */
  lemma PausedWaitWithoutPushes(s: Pool)
    requires Reachable(s) && PausedWait(s)
    ensures PopsLeft(s) >= PopsNeeded(s) ==> CanLeaveBusy(s, Nobody)
    ensures Outstanding(s) < 0x1_0000_0000 ==> (CanLeaveBusy(s, Nobody) <==> PopsLeft(s) >= PopsNeeded(s))
  {
    ReachableInv(s);
    if PopsLeft(s) >= PopsNeeded(s) {
      QueueReadFirst(s);
    } else if Outstanding(s) < COUNTER_SIZE {
      forall steps: seq<Step> ensures !LeavesBusy(s, Nobody, steps) {
        TooFewPopsNeverLeaveBusy(s, steps);
      }
    }
  }

  /** With no push half done that means: something is queued, and some worker is past its pause check. */
  lemma PausedWaitWithoutHalfPushes(s: Pool)
    requires Reachable(s) && PausedWait(s) && Outstanding(s) < 0x1_0000_0000
    requires s.outside == 0 && (forall w :: 0 <= w < |s.workers| ==> !s.workers[w].Spawning?)
    requires forall c :: 0 <= c < |s.calls| ==> !s.calls[c].phase.Pushing?
    ensures CanLeaveBusy(s, Nobody) <==> s.queue != [] && SomeoneAtPop(s)
  {
    PausedWaitWithoutPushes(s);
    if Sum(SpawnLoad, s.workers) > 0 {
      var w := SumPositive(SpawnLoad, s.workers);
    }
    if Sum(CallLoad, s.calls) > 0 {
      var c := SumPositive(CallLoad, s.calls);
    }
    if Sum(PopLoad, s.workers) > 0 {
      var w := SumPositive(PopLoad, s.workers);
    }
    if w: nat :| w < |s.workers| && s.workers[w].AtPop? {
      SumAtLeast(PopLoad, s.workers, w);
    }
  }
}
