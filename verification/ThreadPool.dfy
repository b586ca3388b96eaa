/**
 The thread pool as a transition system. Every atomic access of the source is one step: the counter
 increment of a push, the enqueue under the lock, a worker's look at the flags, its pop under the lock,
 the task itself, the counter decrement, and each statement of wait_for_tasks, reset and the destructor.
 Any step of any thread may come next, so a run is an interleaving of all of them.

 Fields marked "log" record what happened and are never read by a step.
 */
module ThreadPool {
  import opened LoopBlocks
  import opened Sums

  /** Number of values of the 32-bit counter tasks_total, which wraps around. */
  const COUNTER_SIZE: int := 0x1_0000_0000

  /** A queued function: an unrelated one, or block number index of a parallelize_loop call. */
  datatype Task = Plain(tag: nat) | Block(call: nat, index: nat)

  /** Where a worker stands in its loop; job is the position of its task in the log of popped tasks. */
  datatype Worker =
    | AtLoop                // about to read running
    | AtPause               // about to read paused
    | AtPop                 // about to take the lock and pop
    | Running(job: nat)     // inside task()
    | Spawning(job: nat)    // inside task(), between the two halves of a nested push
    | LoopRan(job: nat)     // inside a block task, before blocks_running--
    | Returned(job: nat)    // task() is over, before tasks_total--
    | Exited

  predicate Holds(w: Worker) {
    w.Running? || w.Spawning? || w.LoopRan? || w.Returned?
  }

  /** What a worker contributes to tasks_total: the task it holds, and a nested push that is only counted. */
  function WorkerLoad(w: Worker): nat {
    match w
    case Spawning(_) => 2
    case Running(_) | LoopRan(_) | Returned(_) => 1
    case _ => 0
  }

  /** Progress of one parallelize_loop call. */
  datatype Phase =
    | Looping   // at the head of the pushing loop or in the final wait
    | Counted   // after blocks_running++
    | Pushing   // after tasks_total++ of the push
    | Done      // the call has returned

  datatype Call = Call(
    split: Split,
    counted: nat,               // blocks_running++ executed so far
    phase: Phase,
    blocksRunning: int,
    jobs: seq<nat>,             // log: where in the enqueue log each block went
    decremented: set<nat>,      // log: blocks that executed blocks_running--
    processed: multiset<int>)   // log: indices the loop function was given

  function CallLoad(c: Call): nat {
    if c.phase.Pushing? then 1 else 0
  }

  /** Why the owner of the pool is inside wait_for_tasks, and where it stands there. */
  datatype Why = ForCaller | ForReset(wasPaused: bool, count: nat) | ForDestructor

  datatype Wait =
    | ReadPaused
    | ReadTotalOnly            // unpaused: compare tasks_total with zero
    | ReadTotalFirst           // paused: the operands of tasks_total - queued may be read in either order
    | ReadQueuedFirst
    | ThenQueued(total: int)
    | ThenTotal(queued: int)

  /** The thread that owns the pool: it runs the constructor, wait_for_tasks, reset and the destructor. */
  datatype Control =
    | Creating(next: nat)
    | Idle
    | Pausing(wasPaused: bool, count: nat)
    | Waiting(wait: Wait, why: Why)
    | Stopping(why: Why)
    | Joining(next: nat, why: Why)
    | Sizing(wasPaused: bool, count: nat)
    | Replacing(wasPaused: bool)
    | Restoring(wasPaused: bool)
    | Restarting
    | Destroyed

  datatype Pool = Pool(
    total: int,               // tasks_total
    paused: bool,
    running: bool,
    queue: seq<Task>,
    workers: seq<Worker>,     // every thread ever created; slot i of the thread array is workers[base + i]
    base: nat,
    threadCount: nat,
    control: Control,
    outside: nat,             // threads outside the pool between the two halves of push_task
    calls: seq<Call>,
    enqueued: seq<Task>,      // log
    popped: seq<Task>,        // log
    poppedBy: seq<nat>,       // log: the worker that popped each job
    ran: seq<nat>,            // log: jobs whose function was executed
    returned: seq<nat>,       // log: jobs whose task() returned
    finished: seq<nat>)       // log: jobs counted down

  /** The constructor, before its first thread; zero asks for the hardware's own number. */
  function Init(count: nat, hardware: nat): Pool {
    Pool(0, false, true, [], [], 0, if count != 0 then count else hardware, Creating(0), 0, [], [], [], [], [], [], [])
  }

  datatype Step =
    | OutsideCount
    | OutsideEnqueue(tag: nat)
    | SetPaused(value: bool)
    | WorkerStep(worker: nat)
    | WorkerSpawn(worker: nat)
    | WorkerEnqueue(worker: nat, tag: nat)
    | CallStart(first: int, after: int, wanted: nat)
    | CallStep(call: nat)
    | WaitCall
    | ResetCall(count: nat, hardware: nat)
    | DestroyCall
    | ControlStep(totalFirst: bool)

  /** A call of the owner, or a change of the public flag. */
  predicate OwnersOrFlag(step: Step) {
    step.SetPaused? || step.WaitCall? || step.ResetCall? || step.DestroyCall?
  }

  predicate Enabled(s: Pool, step: Step) {
    match step
    case OutsideCount => true
    case OutsideEnqueue(_) => s.outside > 0
    case SetPaused(_) => true
    case WorkerStep(w) => w < |s.workers| && WorkerCanStep(s, s.workers[w])
    case WorkerSpawn(w) => w < |s.workers| && s.workers[w].Running?
    case WorkerEnqueue(w, _) => w < |s.workers| && s.workers[w].Spawning?
    case CallStart(first, after, wanted) => first != after && (wanted > 0 || s.threadCount > 0)
    case CallStep(c) => c < |s.calls| && CallCanStep(s.calls[c])
    case WaitCall => s.control.Idle?
    case ResetCall(_, _) => s.control.Idle?
    case DestroyCall => s.control.Idle?
    case ControlStep(_) => ControlCanStep(s)
  }

  function Apply(s: Pool, step: Step): Pool
    requires Enabled(s, step)
  {
    match step
    case OutsideCount => s.(total := Up(s.total), outside := s.outside + 1)
    case OutsideEnqueue(tag) => Enqueue(s, Plain(tag)).(outside := s.outside - 1)
    case SetPaused(value) => s.(paused := value)
    case WorkerStep(w) => StepWorker(s, w)
    case WorkerSpawn(w) => s.(total := Up(s.total), workers := s.workers[w := Spawning(s.workers[w].job)])
    case WorkerEnqueue(w, tag) => Enqueue(s, Plain(tag)).(workers := s.workers[w := Running(s.workers[w].job)])
    case CallStart(first, after, wanted) =>
      var sp := MakeSplit(first, after, if wanted == 0 then s.threadCount else wanted);
      s.(calls := s.calls + [Call(sp, 0, Looping, 0, [], {}, multiset{})])
    case CallStep(c) => StepCall(s, c)
    case WaitCall => s.(control := Waiting(ReadPaused, ForCaller))
    case ResetCall(count, hardware) => s.(control := Pausing(s.paused, if count != 0 then count else hardware))
    case DestroyCall => s.(control := Waiting(ReadPaused, ForDestructor))
    case ControlStep(totalFirst) => StepControl(s, totalFirst)
  }

  // ----- push_task and pop_task

  function Up(total: int): int { (total + 1) % COUNTER_SIZE }

  function Down(total: int): int { (total - 1) % COUNTER_SIZE }

  function Enqueue(s: Pool, task: Task): Pool {
    s.(queue := s.queue + [task], enqueued := s.enqueued + [task])
  }

  // ----- worker

  predicate WorkerCanStep(s: Pool, w: Worker) {
    match w
    case Spawning(_) | Exited => false
    case Running(job) => job < |s.popped| && (s.popped[job].Block? ==> s.popped[job].call < |s.calls|)
    case LoopRan(job) => job < |s.popped| && s.popped[job].Block? && s.popped[job].call < |s.calls|
    case _ => true
  }

  function StepWorker(s: Pool, w: nat): Pool
    requires w < |s.workers| && WorkerCanStep(s, s.workers[w])
  {
    match s.workers[w]
    case AtLoop => s.(workers := s.workers[w := if s.running then AtPause else Exited])
    case AtPause => s.(workers := s.workers[w := if s.paused then AtLoop else AtPop])
    case AtPop =>
      if s.queue == [] then s.(workers := s.workers[w := AtLoop])
      else s.(workers := s.workers[w := Running(|s.popped|)], queue := s.queue[1..],
                popped := s.popped + [s.queue[0]], poppedBy := s.poppedBy + [w])
    case Running(job) =>
      if s.popped[job].Plain? then
        s.(workers := s.workers[w := Returned(job)], ran := s.ran + [job], returned := s.returned + [job])
      else
        var c, t := s.popped[job].call, s.popped[job].index;
        s.(workers := s.workers[w := LoopRan(job)], ran := s.ran + [job],
           calls := s.calls[c := ProcessBlock(s.calls[c], t)])
    case LoopRan(job) =>
      var c, t := s.popped[job].call, s.popped[job].index;
      var call := s.calls[c];
      s.(workers := s.workers[w := Returned(job)], returned := s.returned + [job],
         calls := s.calls[c := call.(blocksRunning := call.blocksRunning - 1, decremented := call.decremented + {t})])
    case Returned(job) =>
      s.(workers := s.workers[w := AtLoop], total := Down(s.total), finished := s.finished + [job])
  }

  /** loop(start, end): the loop function is given the indices of block t. */
  function ProcessBlock(call: Call, t: nat): Call {
    call.(processed := call.processed + Range(call.split.Start(t), call.split.End(t)))
  }

  /** The indices from lo to hi - 1, each once. */
  function Range(lo: int, hi: int): (m: multiset<int>)
    ensures forall i :: m[i] == if lo <= i < hi then 1 else 0
    decreases hi - lo
  {
    if lo < hi then multiset{lo} + Range(lo + 1, hi) else multiset{}
  }

  // ----- parallelize_loop

  predicate CallCanStep(call: Call) {
    match call.phase
    case Looping => true
    case Counted | Pushing => call.counted > 0
    case Done => false
  }

  function StepCall(s: Pool, c: nat): Pool
    requires c < |s.calls| && CallCanStep(s.calls[c])
  {
    var call := s.calls[c];
    match call.phase
    case Looping =>
      if call.counted < call.split.num then
        s.(calls := s.calls[c :=
             call.(counted := call.counted + 1, blocksRunning := call.blocksRunning + 1, phase := Counted)])
      else if call.blocksRunning == 0 then
        s.(calls := s.calls[c := call.(phase := Done)])
      else s
    case Counted =>
      s.(total := Up(s.total), calls := s.calls[c := call.(phase := Pushing)])
    case Pushing =>
      var call' := call.(phase := Looping, jobs := call.jobs + [|s.enqueued|]);
      Enqueue(s, Block(c, call.counted - 1)).(calls := s.calls[c := call'])
  }

  // ----- wait_for_tasks, reset, constructor and destructor

  predicate ControlCanStep(s: Pool) {
    match s.control
    case Idle | Destroyed => false
    case Joining(i, _) => i < s.threadCount ==> s.base + i < |s.workers| && s.workers[s.base + i].Exited?
    case _ => true
  }

  function StepControl(s: Pool, totalFirst: bool): Pool
    requires ControlCanStep(s)
  {
    match s.control
    case Creating(i) =>
      if i < s.threadCount then s.(workers := s.workers + [AtLoop], control := Creating(i + 1))
      else s.(control := Idle)
    case Pausing(was, count) => s.(paused := true, control := Waiting(ReadPaused, ForReset(was, count)))
    case Waiting(wait, why) => s.(control := StepWait(s, wait, why, totalFirst))
    case Stopping(why) => s.(running := false, control := Joining(0, why))
    case Joining(i, why) =>
      if i < s.threadCount then s.(control := Joining(i + 1, why))
      else if why.ForReset? then s.(control := Sizing(why.wasPaused, why.count))
      else s.(control := Destroyed)
    case Sizing(was, count) => s.(threadCount := count, control := Replacing(was))
    case Replacing(was) => s.(base := |s.workers|, control := Restoring(was))
    case Restoring(was) => s.(paused := was, control := Restarting)
    case Restarting => s.(running := true, control := Creating(0))
  }

  function StepWait(s: Pool, wait: Wait, why: Why, totalFirst: bool): Control {
    match wait
    case ReadPaused =>
      Waiting(if !s.paused then ReadTotalOnly else if totalFirst then ReadTotalFirst else ReadQueuedFirst, why)
    case ReadTotalOnly => if s.total == 0 then LeaveWait(why) else Waiting(ReadPaused, why)
    case ReadTotalFirst => Waiting(ThenQueued(s.total), why)
    case ReadQueuedFirst => Waiting(ThenTotal(|s.queue|), why)
    case ThenQueued(total) => if RunningCount(total, |s.queue|) == 0 then LeaveWait(why) else Waiting(ReadPaused, why)
    case ThenTotal(queued) => if RunningCount(s.total, queued) == 0 then LeaveWait(why) else Waiting(ReadPaused, why)
  }

  /** get_tasks_running, from the two values it read. */
  function RunningCount(total: int, queued: int): int {
    (total - queued) % COUNTER_SIZE
  }

  function LeaveWait(why: Why): Control {
    if why.ForCaller? then Idle else Stopping(why)
  }

  // ----- runs

  predicate CanRun(s: Pool, steps: seq<Step>)
    decreases |steps|
  {
    steps == [] || (Enabled(s, steps[0]) && CanRun(Apply(s, steps[0]), steps[1..]))
  }

  function Run(s: Pool, steps: seq<Step>): Pool
    requires CanRun(s, steps)
    decreases |steps|
  {
    if steps == [] then s else Run(Apply(s, steps[0]), steps[1..])
  }

  /** A state some interleaving leads to. */
  ghost predicate Reachable(s: Pool) {
    exists count: nat, hardware: nat, steps: seq<Step> ::
      CanRun(Init(count, hardware), steps) && Run(Init(count, hardware), steps) == s
  }
}
