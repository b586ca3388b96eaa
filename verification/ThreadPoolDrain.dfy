/**
 Not paused and with no push from outside, every fair schedule of the workers empties the pool, although tasks may push
 further tasks, as long as they stop pushing some time.
 */
module ThreadPoolDrain {
  import opened Sums
  import opened ThreadPool
  import opened ThreadPoolInvariant
  import opened ThreadPoolTheorems

  /** Steps a task still has to take, once popped; half way through a push there is the pushed task's work as well. */
  function WorkerWork(w: Worker): nat {
    match w
    case Spawning(_) => 8
    case Running(_) => 3
    case LoopRan(_) => 2
    case Returned(_) => 1
    case _ => 0
  }

  function Work(s: Pool): nat {
    4 * |s.queue| + Sum(WorkerWork, s.workers)
  }

  /** What a push adds to the steps to come, its own two included. */
  const PUSH_WORK: nat := 6

  /** A step of a worker, inside a task's nested push or not. */
  predicate OwnStep(step: Step) {
    step.WorkerStep? || step.WorkerSpawn? || step.WorkerEnqueue?
  }

  predicate OwnSteps(steps: seq<Step>) {
    forall i :: 0 <= i < |steps| ==> OwnStep(steps[i])
  }

  /** Pushes begun in a run. */
  function Pushes(steps: seq<Step>): nat {
    if steps == [] then 0 else (if steps[0].WorkerSpawn? then 1 else 0) + Pushes(steps[1..])
  }

  /** The pool runs, is not paused, has a living thread, and no push from outside is under way. */
  ghost predicate Draining(s: Pool) {
    && Inv(s) && s.running && !s.paused && s.base < |s.workers|
    && s.outside == 0
    && (forall c :: 0 <= c < |s.calls| ==> !s.calls[c].phase.Pushing?)
  }

  /** A pop from a non-empty queue, or any step of a worker that holds a task. */
  predicate Productive(s: Pool, step: Step)
    requires Enabled(s, step)
  {
    OwnStep(step) && (Holds(s.workers[step.worker]) || (s.workers[step.worker].AtPop? && s.queue != []))
  }

  /** Every productive step uses up work; every other worker step changes only that worker's place. */
  lemma WorkerStepUsesWork(s: Pool, w: nat)
    requires Enabled(s, WorkerStep(w))
    ensures var s' := Apply(s, WorkerStep(w));
      if Productive(s, WorkerStep(w)) then Work(s') < Work(s)
      else Work(s') == Work(s) && s'.queue == s.queue && s'.workers == s.workers[w := s'.workers[w]]
  {
    var s' := StepWorker(s, w);
    WorkShape(s, w);
    SumUpdate(WorkerWork, s.workers, w, s'.workers[w]);
  }

  lemma WorkShape(s: Pool, w: nat)
    requires Enabled(s, WorkerStep(w))
    ensures var s' := StepWorker(s, w);
      && |s'.workers| == |s.workers| && s'.workers == s.workers[w := s'.workers[w]]
      && if Productive(s, WorkerStep(w))
         then 4 * |s'.queue| + WorkerWork(s'.workers[w]) < 4 * |s.queue| + WorkerWork(s.workers[w])
         else s'.queue == s.queue && WorkerWork(s'.workers[w]) == WorkerWork(s.workers[w])
  {
  }

  /** A nested push is productive, and pays for both its halves and the pushed task. */
  lemma NestedStepUsesWork(s: Pool, step: Step)
    requires Enabled(s, step) && (step.WorkerSpawn? || step.WorkerEnqueue?)
    ensures Productive(s, step) && Work(Apply(s, step)) + 1 == Work(s) + if step.WorkerSpawn? then PUSH_WORK else 0
  {
    SumUpdate(WorkerWork, s.workers, step.worker, Apply(s, step).workers[step.worker]);
  }

  lemma OwnStepUsesWork(s: Pool, step: Step)
    requires Enabled(s, step) && OwnStep(step)
    ensures Work(Apply(s, step)) + (if Productive(s, step) then 1 else 0) <=
      Work(s) + if step.WorkerSpawn? then PUSH_WORK else 0
  {
    if step.WorkerStep? {
      WorkerStepUsesWork(s, step.worker);
    } else {
      NestedStepUsesWork(s, step);
    }
  }

  lemma DrainingStep(s: Pool, step: Step)
    requires Draining(s) && Enabled(s, step) && OwnStep(step)
    ensures var s' := Apply(s, step);
      Draining(s') && s'.base == s.base && |s'.workers| == |s.workers| && s'.control == s.control
  {
    StepKeepsInv(s, step);
    if step.WorkerStep? {
      WorkerKeepsPhases(s, step.worker);
    }
  }

  lemma WorkerKeepsPhases(s: Pool, w: nat)
    requires Enabled(s, WorkerStep(w))
    ensures var s' := StepWorker(s, w);
      && |s'.calls| == |s.calls| && (forall c :: 0 <= c < |s.calls| ==> s'.calls[c].phase == s.calls[c].phase)
  {
  }

  /** Productive steps of a run. */
  function ProductiveSteps(s: Pool, steps: seq<Step>): nat
    requires CanRun(s, steps)
    decreases |steps|
  {
    if steps == [] then 0
    else (if Productive(s, steps[0]) then 1 else 0) + ProductiveSteps(Apply(s, steps[0]), steps[1..])
  }

  /** However the workers are scheduled, they take at most Work(s) productive steps, and six more for each push. */
  lemma {:induction false} ProductiveStepsBounded(s: Pool, steps: seq<Step>)
    requires Draining(s) && CanRun(s, steps) && OwnSteps(steps)
    ensures Draining(Run(s, steps)) && Run(s, steps).base == s.base && Run(s, steps).control == s.control
    ensures Work(Run(s, steps)) + ProductiveSteps(s, steps) <= Work(s) + PUSH_WORK * Pushes(steps)
    decreases |steps|
  {
    if steps == [] {
    } else {
      assert OwnStep(steps[0]);
      DrainingStep(s, steps[0]);
      OwnStepUsesWork(s, steps[0]);
      ProductiveStepsBounded(Apply(s, steps[0]), steps[1..]);
    }
  }

  /** How many steps of its own separate worker w from a productive one, if there is something to pop. */
  function Distance(w: Worker): nat {
    match w
    case AtLoop => 3
    case AtPause => 2
    case _ => 1
  }

  function StepsOf(w: nat, steps: seq<Step>): nat {
    if steps == [] then 0
    else (if OwnStep(steps[0]) && steps[0].worker == w then 1 else 0) + StepsOf(w, steps[1..])
  }

  /** A worker with something to do that is scheduled often enough makes the pool progress, whatever the others do. */
  lemma {:induction false} ScheduledWorkerProgresses(s: Pool, steps: seq<Step>, w: nat)
    requires Draining(s) && CanRun(s, steps) && OwnSteps(steps)
    requires s.base <= w < |s.workers| && (Holds(s.workers[w]) || s.queue != [])
    requires StepsOf(w, steps) >= Distance(s.workers[w])
    ensures ProductiveSteps(s, steps) > 0
    decreases |steps|
  {
    var step, s' := steps[0], Apply(s, steps[0]);
    assert OwnStep(step);
    if !Productive(s, step) {
      DrainingStep(s, step);
      WorkerStepUsesWork(s, step.worker);
      ScheduledWorkerProgresses(s', steps[1..], w);
    }
  }

  /** A round in which every living worker takes three steps or more, in any order. */
  ghost predicate FairRound(s: Pool, round: seq<Step>) {
    && CanRun(s, round) && OwnSteps(round)
    && forall w: nat :: s.base <= w < |s.workers| ==> StepsOf(w, round) >= 3
  }

  lemma FairRoundProgresses(s: Pool, round: seq<Step>)
    requires Draining(s) && FairRound(s, round) && Work(s) > 0
    ensures ProductiveSteps(s, round) > 0
  {
    if s.queue != [] {
      ScheduledWorkerProgresses(s, round, s.base);
    } else {
      var w := SumPositive(WorkerWork, s.workers);
      assert s.base <= w;
      ScheduledWorkerProgresses(s, round, w);
    }
  }

  /** What a worker can do next without beginning a push. */
  function NextOwnStep(s: Pool, w: nat): Step
    requires w < |s.workers|
  {
    if s.workers[w].Spawning? then WorkerEnqueue(w, 0) else WorkerStep(w)
  }

  lemma DrainingWorkerCanStep(s: Pool, w: nat) returns (s': Pool)
    requires Draining(s) && s.base <= w < |s.workers|
    ensures Enabled(s, NextOwnStep(s, w)) && s' == Apply(s, NextOwnStep(s, w))
    ensures Draining(s') && s'.base == s.base && |s'.workers| == |s.workers|
  {
    LivingWorkerCanStep(s, w);
    DrainingStep(s, NextOwnStep(s, w));
    s' := Apply(s, NextOwnStep(s, w));
  }

  /** The workers from number from on take three steps each, one after the other. */
  lemma {:induction false} WorkersTakeTurns(s: Pool, from: nat) returns (steps: seq<Step>)
    requires Draining(s) && s.base <= from <= |s.workers|
    ensures CanRun(s, steps) && OwnSteps(steps) && Pushes(steps) == 0
    ensures forall w: nat :: from <= w < |s.workers| ==> StepsOf(w, steps) >= 3
    decreases |s.workers| - from
  {
    if from == |s.workers| {
      return [];
    }
    var s1 := DrainingWorkerCanStep(s, from);
    var s2 := DrainingWorkerCanStep(s1, from);
    var s3 := DrainingWorkerCanStep(s2, from);
    steps := WorkersTakeTurns(s3, from + 1);
    steps := StepFirst(s2, from, steps);
    steps := StepFirst(s1, from, steps);
    steps := StepFirst(s, from, steps);
  }

  lemma StepFirst(s: Pool, w: nat, rest: seq<Step>) returns (steps: seq<Step>)
    requires w < |s.workers| && Enabled(s, NextOwnStep(s, w))
    requires CanRun(Apply(s, NextOwnStep(s, w)), rest) && OwnSteps(rest)
    ensures CanRun(s, steps) && OwnSteps(steps) && Pushes(steps) == Pushes(rest)
    ensures forall x: nat :: StepsOf(x, steps) == StepsOf(x, rest) + if x == w then 1 else 0
  {
    steps := [NextOwnStep(s, w)] + rest;
    assert steps[1..] == rest;
  }

  /** No schedule can be cut short: a fair round, without a new push, is possible from every such state. */
  lemma FairRoundExists(s: Pool) returns (round: seq<Step>)
    requires Draining(s)
    ensures FairRound(s, round) && Draining(Run(s, round)) && Pushes(round) == 0
  {
    round := WorkersTakeTurns(s, s.base);
    ProductiveStepsBounded(s, round);
  }

  ghost predicate FairRounds(s: Pool, rounds: seq<seq<Step>>)
    decreases |rounds|
  {
    rounds == [] || (FairRound(s, rounds[0]) && FairRounds(Run(s, rounds[0]), rounds[1..]))
  }

  ghost function RunRounds(s: Pool, rounds: seq<seq<Step>>): Pool
    requires FairRounds(s, rounds)
    decreases |rounds|
  {
    if rounds == [] then s else RunRounds(Run(s, rounds[0]), rounds[1..])
  }

  function RoundPushes(rounds: seq<seq<Step>>): nat {
    if rounds == [] then 0 else Pushes(rounds[0]) + RoundPushes(rounds[1..])
  }

  lemma NoWorkMeansAllFinished(s: Pool)
    requires Draining(s) && Work(s) == 0
    ensures Quiet(s) && AllFinished(s) && s.total == 0
  {
    forall w: nat | w < |s.workers| ensures !Holds(s.workers[w]) {
      SumAtLeast(WorkerWork, s.workers, w);
    }
    QuietMeansNothingOutstanding(s);
    QuietMeansAllFinished(s);
  }

  /** An empty pool stays empty: only a task can push. */
  lemma {:induction false} EmptyPoolStaysEmpty(s: Pool, rounds: seq<seq<Step>>)
    requires Draining(s) && Quiet(s) && FairRounds(s, rounds)
    ensures var e := RunRounds(s, rounds); Draining(e) && Quiet(e) && e.control == s.control
    decreases |rounds|
  {
    if rounds == [] {
    } else {
      assert AllFromInside(rounds[0]) by {
        assert forall i :: 0 <= i < |rounds[0]| ==> OwnStep(rounds[0][i]);
      }
      QuietStaysQuiet(s, rounds[0]);
      ProductiveStepsBounded(s, rounds[0]);
      EmptyPoolStaysEmpty(Run(s, rounds[0]), rounds[1..]);
    }
  }

  /**
   Under any fair schedule with n pushes from inside tasks, the pool is empty, its counter zero and every task finished,
   the pushed ones too, after Work(s) + 6n rounds.
   */
  lemma {:induction false} FairScheduleDrains(s: Pool, rounds: seq<seq<Step>>)
    requires Draining(s) && FairRounds(s, rounds) && |rounds| >= Work(s) + PUSH_WORK * RoundPushes(rounds)
    ensures var e := RunRounds(s, rounds);
      Draining(e) && Quiet(e) && AllFinished(e) && e.total == 0 && e.control == s.control
    decreases |rounds|
  {
    if Work(s) == 0 {
      NoWorkMeansAllFinished(s);
      EmptyPoolStaysEmpty(s, rounds);
      QuietMeansNothingOutstanding(RunRounds(s, rounds));
      QuietMeansAllFinished(RunRounds(s, rounds));
    } else {
      FairRoundProgresses(s, rounds[0]);
      ProductiveStepsBounded(s, rounds[0]);
      FairScheduleDrains(Run(s, rounds[0]), rounds[1..]);
    }
  }

  /** After that many rounds an unpaused wait, the destructor's for one, leaves on its next look at the counter. */
  lemma UnpausedWaitEnds(s: Pool, rounds: seq<seq<Step>>, why: Why, b: bool)
    requires Draining(s) && FairRounds(s, rounds) && |rounds| >= Work(s) + PUSH_WORK * RoundPushes(rounds)
    requires s.control == Waiting(ReadPaused, why) || s.control == Waiting(ReadTotalOnly, why)
    ensures var e := RunRounds(s, rounds);
      && e.control == s.control && Enabled(e, ControlStep(b))
      && var looking := if s.control.wait.ReadPaused? then Apply(e, ControlStep(b)) else e;
         Enabled(looking, ControlStep(b)) && Apply(looking, ControlStep(b)).control == LeaveWait(why)
  {
    FairScheduleDrains(s, rounds);
  }
}
