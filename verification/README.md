# Verification of the server plugins' core logic

This project models the parts of the plugin collection whose behaviour is visible in the source and depends on an
invariant, and proves what that behaviour promises:

* **The thread pool** (`ThreadPool`, `ThreadPoolInvariant`, `ThreadPoolTheorems`, `ThreadPoolCalls`, `ThreadPoolPause`,
  `ThreadPoolDrain`, `LoopBlocks`, `SharedPool`). Every atomic access is one step of a transition system: counter increment, enqueue under the lock,
  a worker's look at `running` and at `paused`, its pop under the lock, the task, the counter decrement, and each
  statement of `wait_for_tasks`, `reset`, the constructor and the destructor. `get_tasks_running` reads two variables in
  two steps, in either order. `tasks_total` has 32 bits and wraps. A run is any interleaving. `parallelize_loop` calls
  run inside it, so its statements about indices hold whatever the workers do.
* **Delayed home teleports** (`HomeTeleport`, `HomeTeleportProofs`, `HomeServer`, `HomeCharge`). Chat command, damage, death, respawn,
  timer wake-up and the passing of time are steps; time is in milliseconds, and the stored cooldown in whole seconds.
* **Timed rewards** (`TimedRewards`, `TimedRewardsProofs`, `TimedRewardTasks`, `RewardTable`), and the erase-remove idiom whose value is
  read from the vector being compacted (`AliasedRemove`).
* **The structure limit cache** (`StructuresLimit`, `StructuresLimitProofs`).
* **The shop** (`Ledger`, `SellItem`, `Shop`, `Kits`, `KitStore`, `KitPurchase`): points, purchases, refunds, trades, kill rewards,
  selling out of stacks, and kit counts.
* **Two kernels** (`TrailingSpace`, `RandomNumber`): the eight-byte scan for trailing spaces and the rejection sampler.

Each component has a specification on values, an imperative form with the fields and loops of the source that is proved
to compute that specification, and lemmas about the specification over all inputs or all runs. Parameters named
`stored` say whether the database accepted a write; any combination of successes and failures is covered. As an UPDATE
that matches no row does, a write for a player without a row succeeds and changes nothing.

## Where the code is weaker than its promise

* `wait_for_tasks` on a paused pool is documented to wait for running tasks. It reads `tasks_total` and the queue length
  in two steps, and can leave while a worker holds a task. `ThreadPoolPause` says exactly when, from what is so when the
  wait is entered: if others may push meanwhile, exactly when some worker holds a task or is past its pause check; if
  only tasks push, exactly when a task is inside its function or a worker past its check has something to pop; if nobody
  pushes, exactly when the workers past their check can pop enough, which with no push half done means one such worker
  and a queue that is not empty. (The last two suppose fewer than 2^32 tasks outstanding.) Two concrete runs are
  `ThreadPoolTheorems.PausedWaitCanLeaveWhileATaskRuns` and `PausedWaitCanLeaveWhileATaskPushes`. `reset` is safe all
  the same, because it joins every thread.
* The counter is 32 bits wide. The unpaused wait leaves exactly when the number of outstanding tasks is a multiple of
  2^32 (`UnpausedWaitLeavesWhenAllFinished`), which is zero for every smaller number; with 2^32 tasks queued it leaves
  with none of them run (`UnpausedWaitCanMissAFullCounter`).
* The home cooldown is stored in whole seconds, so two teleports can be closer than cooldown and delay by the fraction
  of a second in the first one's time. `TeleportsAreSpaced` proves the bound and `SpacingIsTight` that it is reached
  under every configuration. The full spacing is kept exactly if there is no fraction, no positive cooldown or a negative
  delay (`HomeTeleportProofs.FullySpacedIff`).
* A home teleport that costs points is charged after the delay without another look at the balance. Balances stay out of
  debt exactly if every charge is covered when it is made (`HomeCharge.DebtFreeIffCovered`);
  `HomeCharge.ChargeCanMakeDebt` is a run in which one is not.
* Removing by a reference into the vector is right exactly when the condition in `AliasedRemove.EraseExact` holds;
  `DuplicateSurvives` is an input where it does not. The lists it is used on have no duplicates.
* The recount skips team zero and the build hook does not, so team zero has no lasting limit
  (`StructuresLimitProofs.TeamZeroHasNoLimit`), under any configuration that lets it build at all.
* `BuyItem` computes the price in 32 bits; it is the product exactly when that fits (`Ledger.ItemPriceIsExactIff`). Items
  are sold short exactly when the product reaches 2^32 and what is left of it is a price the player can pay
  (`Ledger.ItemPurchaseIsExact`); `Ledger.ItemsCanSellShort` is an input.
* `BuyKit` does not look at whether the kits were stored: paid kits arrive exactly when they were
  (`KitPurchase.PaidKitsArriveIffStored`).
* A kill may create points: it conserves them exactly when the victim's loss is all of the killer's gain
  (`Ledger.KillCreatesPoints`, with the input in `KillCanCreatePoints`).
* A trade whose second write fails loses the amount (`Ledger.TradeConserves`, `TradeCanLosePoints`), and a sale whose
  credit fails loses the items (`Shop.SaleIsExact`, `SaleCanLoseItems`).
* With `NegativePoints`, penalties make debts exactly as `Ledger.PenaltyMakesDebtIff` and `DinoPenaltyMakesDebtIff` say
  (`PenaltyCanMakeDebt` is an input).
* `InitKitData` and a change by zero treat negative defaults differently (`Kits.InitDataIsExact`, `Kits.ChangeIsExact`).

## Model

| member | source | states |
|---|---|---|
| ThreadPoolTheorems.TasksArePartitioned | Permissions/Includes/thread_pool.hpp:171-214 | in every reachable state, across any number of resets, the enqueue log is the pop log followed by the queue; every popped task is finished or held by exactly one worker, never both, and that worker is of the current generation; no task is executed twice |
| ThreadPoolTheorems.NoOldThreadSurvivesReset | Permissions/Includes/thread_pool.hpp:340-346 | between the join and the new threads every thread ever created has exited; threads of earlier generations stay so; an idle pool has exactly its threads, all living |
| ThreadPoolTheorems.ResetRestoresPauseAndSizes | Permissions/Includes/thread_pool.hpp:202-214 | after a reset, whatever other threads did meanwhile, the pool is paused iff it was before, every thread it had has exited, and it has exactly the wanted number of new living ones |
| ThreadPoolTheorems.ResetPausesThePool | Permissions/Includes/thread_pool.hpp:204-208 | from its call to the last join a reset keeps the pool paused |
| ThreadPoolCalls.StoppedWorkerExits | Permissions/Includes/thread_pool.hpp:382-397 | once running is cleared a worker that keeps being scheduled exits, after the task it has and a fixed number of steps for each push that task makes |
| ThreadPoolCalls.OwnerEnds | Permissions/Includes/thread_pool.hpp:202-214 | with its threads gone a reset or a destruction ends in the steps the code has |
| ThreadPoolCalls.ConstructorMakesThreads | Permissions/Includes/thread_pool.hpp:51-55 | the constructor ends unpaused with the wanted number of living threads, or the hardware's own |
| ThreadPoolTheorems.NoWorkerIsStuck | Permissions/Includes/thread_pool.hpp:382-397 | in every reachable state every living worker has a next step |
| ThreadPoolTheorems.CounterIsExact | Permissions/Includes/thread_pool.hpp:171-179 | tasks_total is queued plus held tasks plus pushes counted but not yet enqueued, modulo 2^32 |
| ThreadPoolTheorems.QuietMeansNothingOutstanding | Permissions/Includes/thread_pool.hpp:382-397 | the outstanding amount is zero iff the queue is empty, no worker holds a task and no push is half done |
| ThreadPoolTheorems.UnpausedWaitLeavesWhenAllFinished | Permissions/Includes/thread_pool.hpp:293-297 | the unpaused branch leaves iff the outstanding amount is a multiple of 2^32; below that size, iff nothing is queued, held or being pushed, and then every task ever enqueued has finished, nested pushes included |
| ThreadPoolCalls.WaitReturnsWhenAllFinished | Permissions/Includes/thread_pool.hpp:289-305 | from the call of wait_for_tasks on an unpaused pool to the first moment the owner is idle, whoever pushes meanwhile: every task enqueued has then finished (no change of the flag, fewer than 2^32 tasks outstanding at the return) |
| ThreadPoolCalls.IdleAfterWaitMeansAllFinished | Permissions/Includes/thread_pool.hpp:289-305 | with no push from outside, everything is finished in every later state in which the owner is idle |
| ThreadPoolCalls.WaitCallEnds | Permissions/Includes/thread_pool.hpp:289-305 | the call ends under every fair schedule of the workers |
| ThreadPoolCalls.EveryPushIsTakenIn | Permissions/Includes/thread_pool.hpp:171-179 | over any run the pool takes in exactly the tasks that were pushed, in the order of the pushes |
| ThreadPoolCalls.CallsAreOpen | Permissions/Includes/thread_pool.hpp:123-214 | pushes, the flag and loops are open to every thread in every state, the other calls to an idle owner |
| ThreadPoolCalls.PausingStopsPops | Permissions/Includes/thread_pool.hpp:382-397 | once the flag is set at most one more task is popped for each worker that was past its pause check |
| ThreadPoolCalls.ClearingLetsWorkersPop | Permissions/Includes/thread_pool.hpp:384-388 | clearing it lets a worker at its loop through to the queue in two steps |
| ThreadPoolTheorems.UnpausedWaitCanMissAFullCounter | Permissions/Includes/thread_pool.hpp:293-297 | a reachable state with 2^32 tasks queued and none finished in which the destructor's unpaused wait leaves |
| ThreadPoolTheorems.PausedWaitCanLeaveWhileATaskRuns | Permissions/Includes/thread_pool.hpp:298-302 | a reachable run in which the paused wait of a reset leaves while a worker is inside a task |
| ThreadPoolTheorems.PausedWaitCanLeaveWhileATaskPushes | Permissions/Includes/thread_pool.hpp:298-302 | a reachable run in which no worker is past its pause check, and a push from inside a task between the two reads lets the wait leave while that task runs |
| ThreadPoolPause.PausedWaitAmongPushes | Permissions/Includes/thread_pool.hpp:298-302 | when others may push meanwhile, some run leaves the paused wait while a worker holds a task iff at its start a worker holds a task or is past its pause check |
| ThreadPoolPause.PausedWaitAmongNestedPushes | Permissions/Includes/thread_pool.hpp:298-302 | when only tasks push: iff a task is inside its function, or a worker is past its pause check and the queue is not empty (below 2^32 outstanding tasks; the if without that bound) |
| ThreadPoolPause.PausedWaitWithoutPushes | Permissions/Includes/thread_pool.hpp:298-302 | when nobody pushes: iff the pops the workers past their check can do make up for the half-done pushes and the task that is missed (below 2^32 outstanding tasks; the if without that bound) |
| ThreadPoolPause.PausedWaitWithoutHalfPushes | Permissions/Includes/thread_pool.hpp:298-302 | when nobody pushes and no push is half done: iff the queue is not empty and a worker is past its pause check (below 2^32 outstanding tasks) |
| ThreadPoolTheorems.DestructorLeavesNothingUnrun | Permissions/Includes/thread_pool.hpp:60-65 | a destructor that leaves its wait unpaused, with fewer than 2^32 tasks outstanding and no push from outside, ends with every thread gone and every task ever enqueued finished |
| ThreadPoolCalls.DestructionMeansAllFinished | Permissions/Includes/thread_pool.hpp:60-65 | from the call of the destructor of an unpaused pool, with no push from outside: when it is over every task ever enqueued has finished and every thread exited |
| ThreadPoolCalls.DestroyCallEnds | Permissions/Includes/thread_pool.hpp:60-65 | its wait ends under every fair schedule and turns to stopping the threads |
| ThreadPoolCalls.StopClearsRunning | Permissions/Includes/thread_pool.hpp:63-64 | the stop clears running and turns to the joins |
| ThreadPoolTheorems.NothingRunsAfterDestruction | Permissions/Includes/thread_pool.hpp:60-65 | after the destructor no task is popped or executed |
| ThreadPoolTheorems.IndicesAtMostOnce | Permissions/Includes/thread_pool.hpp:147-158 | at every moment of every run a loop function has been given only indices of its range, each at most once |
| ThreadPoolTheorems.LoopProcessesEveryIndexOnce | Permissions/Includes/thread_pool.hpp:123-163 | when parallelize_loop returns, in every interleaving, each index of the range has been processed exactly once |
| ThreadPoolCalls.LoopCallProcessesItsRange | Permissions/Includes/thread_pool.hpp:123-163 | from the call with any two bounds: the range between them is cut into the wanted number of blocks, and when the call has returned every index between them has been processed exactly once and no other |
| ThreadPoolCalls.LoopCallGoesOn | Permissions/Includes/thread_pool.hpp:148-162 | a call takes three steps for each block, and then returns on the first look that finds every block past its decrement |
| ThreadPoolTheorems.NoBlockOutlivesItsCall | Permissions/Includes/thread_pool.hpp:153-162 | once a call has returned, no block that refers to its stack frame is queued or being executed |
| ThreadPoolTheorems.ReturnedCallIsFinal | Permissions/Includes/thread_pool.hpp:159-163 | no later step changes what a returned call has processed |
| ThreadPoolInvariant.StepKeepsInv | Permissions/Includes/thread_pool.hpp:123-397 | every step of every thread keeps the invariant of logs, jobs, counter, threads and loops |
| ThreadPoolInvariant.ReachableInv | Permissions/Includes/thread_pool.hpp:123-397 | the invariant holds after every run from the constructor |
| ThreadPoolDrain.OwnStepUsesWork | Permissions/Includes/thread_pool.hpp:171-179 | every productive step of a worker uses up work, and a push from inside a task adds a fixed amount |
| ThreadPoolDrain.ProductiveStepsBounded | Permissions/Includes/thread_pool.hpp:382-397 | without pushes from outside the number of productive steps of any schedule is bounded by the work there is and six for each push from inside a task |
| ThreadPoolDrain.ScheduledWorkerProgresses | Permissions/Includes/thread_pool.hpp:382-397 | a worker with something to do that is scheduled often enough makes the pool progress, whatever the others do |
| ThreadPoolDrain.FairRoundExists | Permissions/Includes/thread_pool.hpp:382-397 | from every draining state all workers can take their steps, without beginning a push |
| ThreadPoolDrain.FairScheduleDrains | Permissions/Includes/thread_pool.hpp:354-397 | every fair schedule with any number n of pushes from inside tasks empties the pool in a number of rounds given by the work and n: queue empty, all tasks finished, tasks_total zero |
| ThreadPoolDrain.UnpausedWaitEnds | Permissions/Includes/thread_pool.hpp:289-305 | after those rounds an unpaused wait, the destructor's for one, leaves on its next look at the counter |
| SharedPool.PoolData.CountPush | Permissions/Includes/thread_pool.hpp:174 | the increment is the first step of a push |
| SharedPool.PoolData.PushTask | Permissions/Includes/thread_pool.hpp:175-178 | the enqueue under the lock is the second step of a push |
| SharedPool.PoolData.PopTask | Permissions/Includes/thread_pool.hpp:354-365 | a pop hands out the oldest task and is the worker's pop step; an empty queue sends the worker back to its loop |
| SharedPool.PoolData.CountFinish | Permissions/Includes/thread_pool.hpp:390 | the decrement is the last step of a task |
| LoopBlocks.MakeSplitValid | Permissions/Includes/thread_pool.hpp:138-146 | the cut has as many blocks as wanted, of the largest size that many can have, or one per index if there are fewer indices |
| LoopBlocks.BlockOfExact | Permissions/Includes/thread_pool.hpp:148-152 | an index lies inside a block iff that is its block: blocks are disjoint and cover the range |
| LoopBlocks.BlockInside | Permissions/Includes/thread_pool.hpp:148-152 | every block is non-empty and inside the range, and all but the last have the same size |
| LoopBlocks.BlocksChain | Permissions/Includes/thread_pool.hpp:148-158 | the blocks in their order are laid end to end over the range |
| LoopBlocks.HandOutBlocks | Permissions/Includes/thread_pool.hpp:123-158 | the loop pushes exactly the blocks of the cut, in order, and none for an empty range |
| HomeTeleportProofs.StepKeepsInv | ArkHomes/ArkHomes/HomeSystem.cpp:418-611 | every step keeps: listed players are distinct, alive, locked, with their latest start's timer registered and pending; others are unlocked |
| HomeTeleportProofs.TeleportBelongsToLatestStart | ArkHomes/ArkHomes/HomeSystem.cpp:418-434 | in every run a completed teleport goes where the player's most recent start said, at least HomeTpDelay after it, with no damage, death or other event of the player in between |
| HomeTeleportProofs.TeleportGoesHome | ArkHomes/ArkHomes/HomeSystem.cpp:536-548 | for every run and every completed teleport: the start it belongs to was made by a command of that player, admissible when given, for a home at exactly the position the player is sent to |
| HomeTeleportProofs.StartsIff | ArkHomes/ArkHomes/HomeSystem.cpp:460-544 | a command starts a teleport iff no condition speaks against it, is refused for the cooldown iff only that and nothing before it does, and refused changes nothing |
| HomeTeleportProofs.RefusalNamesTheCause | ArkHomes/ArkHomes/HomeSystem.cpp:478-515 | a refused player is told the first of the checks that fails |
| HomeTeleportProofs.StepsAreOpen | ArkHomes/ArkHomes/Helper.h:23-34 | commands and the clock are always possible, a timer wakes up once it is due, damage and death need a character |
| HomeTeleportProofs.HarmIsExact | ArkHomes/ArkHomes/HomeSystem.cpp:565-608 | damage unlists and unlocks a listed player and unregisters its timer, a death unlists it and leaves the registration, and neither touches anything else |
| HomeTeleportProofs.StartTeleportsOnce | ArkHomes/ArkHomes/HomeSystem.cpp:425-430 | two completed teleports never come from one start |
| HomeTeleportProofs.TimerActsIffItsStartIsLatest | ArkHomes/ArkHomes/Helper.h:17-37 | a timer teleports its player iff its start is still the player's latest event; a superseded, erased or death-orphaned timer changes no player's state and no listed player's registration |
| HomeTeleportProofs.LockedPlayerIsReleased | ArkHomes/ArkHomes/HomeSystem.cpp:546-608 | a living character with disabled input is listed, has a registered pending timer with that uid, and that timer's wake-up or the next damage releases it |
| HomeTeleportProofs.WaitEndsIff | ArkHomes/ArkHomes/HomeSystem.cpp:418-611 | of all steps exactly damage to the player, its death and its own timer's wake-up end the wait; damage and wake-up give the input back |
| HomeTeleportProofs.LockedUntilReleased | ArkHomes/ArkHomes/Helper.h:19-34 | over any run without those steps the same timer stays registered and pending and the player locked, and once it is due its wake-up can come and unlocks |
| HomeTeleportProofs.TeleportsAreSpaced | ArkHomes/ArkHomes/HomeSystem.cpp:436-440 | consecutive teleports of a player are TpHomeCooldown plus HomeTpDelay apart, less the fraction of a second of the first one's time, nothing counting below zero, if the cooldown was stored and could be read |
| HomeTeleportProofs.SpacingIsTight | ArkHomes/ArkHomes/HomeSystem.cpp:517-526 | under every configuration and for every fraction a run reaches that bound |
| HomeTeleportProofs.FullySpacedIff | ArkHomes/ArkHomes/HomeSystem.cpp:436-440 | all such pairs keep the whole cooldown and delay iff the first one's time has no fraction, the cooldown is not positive or the delay is negative |
| HomeCharge.DebtFreeIffCovered | ArkHomes/ArkHomes/HomeSystem.cpp:446-455 | over any run of teleports and shop operations that allow no debts, no balance is ever negative iff no teleport is charged that its player cannot pay at that moment |
| HomeCharge.ChargeMakesDebtIff | ArkHomes/ArkHomes/HomeSystem.cpp:446-455 | a step makes a debt iff it completes a teleport whose charge is stored, for a known player with less than the cost |
| HomeCharge.ChargeIsExact | ArkHomes/ArkHomes/HomeSystem.cpp:446-454 | a completed teleport with a stored, positive charge lowers a known player's balance by exactly the cost, and no other step of the home plugin moves a balance |
| HomeCharge.CompletesIffTeleports | ArkHomes/ArkHomes/HomeSystem.cpp:418-455 | the charge follows exactly the wake-ups that teleport |
| HomeCharge.UntouchedBalanceCovers | ArkHomes/ArkHomes/HomeSystem.cpp:488-497 | if nothing is taken from the player after an affordable start, the charge is covered |
| HomeCharge.StartIsAffordable | ArkHomes/ArkHomes/HomeSystem.cpp:488-497 | a command that starts a teleport finds the balance sufficient and leaves it |
| HomeCharge.ChargeCanMakeDebt | ArkHomes/ArkHomes/HomeSystem.cpp:446-455 | a run in which points are spent while a teleport is pending and the charge leaves a debt |
| HomeCharge.TimerWake | ArkHomes/ArkHomes/HomeSystem.cpp:418-456 | the wake-up with its charge on the two stores has that effect |
| HomeServer.Server.TpHome | ArkHomes/ArkHomes/HomeSystem.cpp:458-563 | the command, branch by branch, has the outcome and the effect of the specification |
| HomeServer.Server.TimerWake | ArkHomes/ArkHomes/Helper.h:23-34 | a wake-up has the effect of the specification |
| HomeServer.Server.DoTp | ArkHomes/ArkHomes/HomeSystem.cpp:418-440 | the delayed action has the effect of the specification, the in-place erase included |
| HomeServer.Server.OnDie | ArkHomes/ArkHomes/HomeSystem.cpp:565-582 | a death unlists the player and leaves the timer's registration |
| HomeServer.Server.OnTakeDamage | ArkHomes/ArkHomes/HomeSystem.cpp:584-611 | damage unlists the player, unregisters the timer and gives the input back |
| AliasedRemove.EraseExact | ArkShop/ArkShop/Private/TimedRewards.cpp:56-57 | the removal by reference equals the intended one iff behind the first element that differs from the value neither of the two occurs again |
| AliasedRemove.DuplicateSurvives | ArkShop/ArkShop/Private/TimedRewards.cpp:56-57 | an input on which a duplicate stays |
| AliasedRemove.EraseDistinct | ArkShop/ArkShop/Private/TimedRewards.cpp:54-58 | among distinct elements exactly the one found goes and the others keep their order |
| AliasedRemove.EraseKeepsDistinct | ArkHomes/ArkHomes/HomeSystem.cpp:425-430 | the result is distinct and has exactly the other elements |
| AliasedRemove.EraseRemove | ArkShop/ArkShop/Private/TimedRewards.cpp:54-58 | find, remove and erase in place compute that removal |
| AliasedRemove.Remove | ArkShop/ArkShop/Private/TimedRewards.cpp:56 | the compacting loop with its value read through the slot it overwrites |
| TimedRewardsProofs.FiringsAreSpaced | ArkShop/ArkShop/Private/TimedRewards.cpp:18-78 | in every run the n-th firing since a registration comes at least n intervals after it, and belongs to a registration in force |
| TimedRewardsProofs.TickFiresEachDueTaskOnce | ArkShop/ArkShop/Private/TimedRewards.cpp:61-78 | in every run a tick fires each due task exactly once and no other task |
| TimedRewardsProofs.TickExact | ArkShop/ArkShop/Private/TimedRewards.cpp:63-75 | a tick appends exactly the due firings and reschedules the due tasks alone |
| TimedRewardsProofs.AddTaskTwice | ArkShop/ArkShop/Private/TimedRewards.cpp:30-38 | registering a task again changes nothing |
| TimedRewardTasks.AddTaskIsExact | ArkShop/ArkShop/Private/TimedRewards.cpp:18-44 | a task that is not there gets an entry first due interval * 60000 ms from now, one that is there keeps its own, and no other entry changes |
| TimedRewardTasks.NewTaskFires | ArkShop/ArkShop/Private/TimedRewards.cpp:18-78 | a task registered for the first time in any run fires on the next tick iff its interval has passed by then |
| TimedRewardTasks.TickFiresIff | ArkShop/ArkShop/Private/TimedRewards.cpp:61-78 | in every run a tick fires a task iff it is registered and interval * 60000 ms have passed since it was last registered or fired |
| TimedRewardTasks.TickTasks | ArkShop/ArkShop/Private/TimedRewards.cpp:69-72 | a tick reschedules the due entries by their interval from now and leaves the others |
| TimedRewardTasks.RemovePlayerTasks | ArkShop/ArkShop/Private/TimedRewards.cpp:46-59 | a removal removes the entries of all tasks of the player and no other |
| TimedRewardTasks.OneEntryPerTask | ArkShop/ArkShop/Private/TimedRewards.cpp:24-37 | in every run a task has at most one entry |
| TimedRewardsProofs.RemovePlayerIsExact | ArkShop/ArkShop/Private/TimedRewards.cpp:46-59 | in every run a removal removes exactly the player's entry and keeps the others in order |
| TimedRewardsProofs.RunKeepsInv | ArkShop/ArkShop/Private/TimedRewards.cpp:18-78 | one entry per player and one task per id, each not due before its next firing may come, over every run |
| RewardTable.Table.AddTask | ArkShop/ArkShop/Private/TimedRewards.cpp:18-44 | registering on shared records has the effect of the specification |
| RewardTable.Table.RemovePlayer | ArkShop/ArkShop/Private/TimedRewards.cpp:46-59 | the aliased erase of records has the effect of the specification |
| RewardTable.Table.RewardTimer | ArkShop/ArkShop/Private/TimedRewards.cpp:61-78 | the nested loops have the effect of a tick |
| StructuresLimitProofs.CacheNeverBelowReality | StructuresLimit/StructuresLimit/StructuresLimit.cpp:46-175 | in every run, for every team but zero, cached counts are never below the real ones, in total and per tracked blueprint, and limits met at the start are never passed |
| StructuresLimitProofs.TrackedNeverAboveTotal | StructuresLimit/StructuresLimit/StructuresLimit.cpp:119-157 | in every run the cached counts of any distinct blueprints of a team sum to at most its cached total |
| StructuresLimitProofs.RecountIsExact | StructuresLimit/StructuresLimit/StructuresLimit.cpp:46-82 | a recount equals the real counts of every team but zero, for the configured blueprints |
| StructuresLimitProofs.GateEffect | StructuresLimit/StructuresLimit/StructuresLimit.cpp:119-158 | a placement passes iff the team is below MaxAmount and the tracked blueprint below its configured Count, 9999 without one; then one is added to exactly the team's total and the blueprint's count |
| StructuresLimitProofs.CountIsRespected | StructuresLimit/StructuresLimit/StructuresLimit.cpp:137-152 | a tracked blueprint at its configured Count, or at 9999 without one, is refused |
| StructuresLimitProofs.OnlyFinalPlacementsCount | StructuresLimit/StructuresLimit/StructuresLimit.cpp:119-161 | a placement that is not final or is nobody's is passed on and counts nothing |
| StructuresLimitProofs.CountHoldsOverRuns | StructuresLimit/StructuresLimit/StructuresLimit.cpp:119-158 | over every run a team within a blueprint's configured Count stays within it |
| StructuresLimitProofs.StepEffect | StructuresLimit/StructuresLimit/StructuresLimit.cpp:84-175 | which structures each step adds or removes, and that the timer recounts iff CheckInterval seconds have passed since it last did |
| StructuresLimitProofs.StepKeepsBounds | StructuresLimit/StructuresLimit/StructuresLimit.cpp:46-175 | every step keeps the cache above reality and the limits met |
| StructuresLimitProofs.TeamZeroHasNoLimit | StructuresLimit/StructuresLimit/StructuresLimit.cpp:65 | under any configuration and from any structures, for every n some run gains team zero n structures, iff MaxAmount is positive |
| StructuresLimit.Plugin.UpdateStructuresCount | StructuresLimit/StructuresLimit/StructuresLimit.cpp:46-82 | clearing and counting in place computes the recount |
| StructuresLimit.Plugin.IsAllowedToBuild | StructuresLimit/StructuresLimit/StructuresLimit.cpp:114-162 | the hook has the verdict and the effect of the specification, entries made by look-ups included |
| StructuresLimit.Plugin.OnTimer | StructuresLimit/StructuresLimit/StructuresLimit.cpp:166-175 | the timer recounts iff it is due |
| Ledger.NoBalanceGoesNegative | ShopRewards/ShopRewards/PlayerRewards.cpp:28-65 | over any run of grants, trades, purchases, refunds and kill rewards with NegativePoints off no balance becomes negative |
| Ledger.BalanceIsItsHistory | ArkShop/ArkShop/Private/Points.cpp:11-43 | over any run of all operations a balance is what it was plus what each operation moves by its own conditions |
| Ledger.OperationMoves | ShopRewards/ShopRewards/PlayerRewards.cpp:28-65 | every operation moves every balance by exactly the amount its guards and writes determine, percentages rounded towards zero, and only a new player adds a row |
| Ledger.PenaltyMakesDebtIff | ShopRewards/ShopRewards/PlayerRewards.cpp:28-33 | a penalty makes a debt iff it is stored, NegativePoints is on and a known killer has less than the penalty |
| Ledger.PenaltyCanMakeDebt | ShopRewards/ShopRewards/PlayerRewards.cpp:28-33 | a penalty of ten points after which a balance of five is minus five |
| Ledger.DinoPenaltyMakesDebtIff | ShopRewards/ShopRewards/DinoRewards.cpp:78-89 | the same for the penalty of a dino kill |
| Ledger.KillCreatesPoints | ShopRewards/ShopRewards/PlayerRewards.cpp:56-65 | what a kill adds to the points of any players, failed writes, unknown players and a killer who is the victim included; points are conserved iff nothing is rewarded or the whole gain is the stored loss |
| Ledger.KillCanCreatePoints | ShopRewards/ShopRewards/PlayerRewards.cpp:56-65 | a kill after which there are five points more |
| Ledger.TruncatedDivIsExact | ShopRewards/ShopRewards/PlayerRewards.cpp:61-62 | the percentages are rounded towards zero |
| Ledger.TradeConserves | ArkShop/ArkShop/Private/Points.cpp:99-119 | a successful trade moves the amount and keeps the total of any players including both; the total changes iff the first write succeeds and the second fails |
| Ledger.TradeSucceedsIff | ArkShop/ArkShop/Private/Points.cpp:163-203 | a trade succeeds iff both sides are known and distinct, the amount is positive and covered, and both writes are stored; what it leaves in every other case |
| Ledger.TradeCanLosePoints | ArkShop/ArkShop/Private/Points.cpp:118-119 | a trade whose amount is lost |
| Ledger.FailedDeliveryIsRefunded | ArkShop/ArkShop/Private/Store.cpp:221-241 | a failed delivery with a stored refund leaves the balances as they were; the purchase succeeds iff the dino is delivered, the price positive and covered and the payment stored; exactly the price is taken iff it is not refunded |
| Ledger.ItemPriceIsExactIff | ArkShop/ArkShop/Private/Store.cpp:27-28 | the price is the product iff that fits in an int |
| Ledger.ItemPurchaseIsExact | ArkShop/ArkShop/Private/Store.cpp:22-36 | for all prices and amounts: sold iff the payment is stored and price times amount modulo 2^32 is positive as an int and covered; exactly that is paid, which falls short iff the product reaches 2^32 |
| Ledger.ItemsCanSellShort | ArkShop/ArkShop/Private/Store.cpp:27-36 | 65537 items at 65536 points each are sold for 65536 points |
| SellItem.SelectionReaches | ArkShop/ArkShop/Private/StoreSell.cpp:58-84 | the counting pass reaches the needed amount iff the stock does |
| SellItem.TwoPassesTake | ArkShop/ArkShop/Private/StoreSell.cpp:58-103 | with enough stock the two passes together take exactly the needed units from the first stacks |
| SellItem.TakenLowersStock | ArkShop/ArkShop/Private/StoreSell.cpp:84-103 | the stock falls by exactly the needed amount |
| SellItem.TakenLeavesTheRest | ArkShop/ArkShop/Private/StoreSell.cpp:67-71 | items of other blueprints, and those that may not be sold, stay as they are and in order |
| SellItem.OtherStacksStay | ArkShop/ArkShop/Private/StoreSell.cpp:67-71 | a stack of another blueprint, or one that may not leave, is there after a sale iff it was before |
| SellItem.TakenShrinksOneStack | ArkShop/ArkShop/Private/StoreSell.cpp:93-102 | of the sellable stacks only the last ones stay, unchanged but for at most the first, which is not enlarged |
| Shop.Store.Sell | ArkShop/ArkShop/Private/StoreSell.cpp:33-123 | with enough stock the needed units go and the price is credited if the write is stored and the player has a row; in every other case nothing changes |
| Shop.SaleIsExact | ArkShop/ArkShop/Private/StoreSell.cpp:84-114 | a sale takes exactly the needed units and nothing else, shrinks at most one stack, and changes only the seller's balance, by the price iff the write is stored and the player known |
| Shop.SaleCanLoseItems | ArkShop/ArkShop/Private/StoreSell.cpp:105-109 | a sale that takes the items and pays nothing |
| Shop.Store.Select | ArkShop/ArkShop/Private/StoreSell.cpp:58-82 | the counting loop selects the first sellable stacks that reach the amount, and their sum |
| Shop.Store.RemoveSelected | ArkShop/ArkShop/Private/StoreSell.cpp:86-103 | the removal loop computes the second pass |
| Shop.Store.AddPoints | ArkShop/ArkShop/Private/Points.cpp:11-28 | a positive amount that is stored changes one balance by exactly that; anything else changes nothing |
| Shop.Store.SpendPoints | ArkShop/ArkShop/Private/Points.cpp:30-43 | the same downwards |
| Shop.Store.Trade | ArkShop/ArkShop/Private/Points.cpp:163-203 | the command's guards and two writes have the effect of the specification |
| Shop.Store.BuyItem | ArkShop/ArkShop/Private/Store.cpp:17-36 | the purchase has the effect of the specification |
| Shop.Store.BuyDino | ArkShop/ArkShop/Private/Store.cpp:206-242 | purchase, delivery and refund have the effect of the specification |
| Shop.Store.OnPlayerKill | ShopRewards/ShopRewards/PlayerRewards.cpp:27-65 | the hook has the effect of the specification |
| Kits.ChangeIsExact | ArkShop/ArkShop/Private/Kits.cpp:64-116 | a change succeeds iff there is nothing to change or the kit is known and the record stored; then the count is max(0, before + amount), with the exact condition where it is not, and no other count changes |
| Kits.CountsAreWritten | ArkShop/ArkShop/Private/Kits.cpp:181-206 | a count is the one last written for the player, else the kit's default, else none |
| Kits.RedeemIsExact | ArkShop/ArkShop/Private/Kits.cpp:280-329 | a kit is handed out iff the player is eligible and has one left and the record is stored; then one less is left and no other count changes |
| Kits.StepSucceedsIff | ArkShop/ArkShop/Private/Kits.cpp:64-116 | which changes and redemptions succeed |
| Kits.InitDataIsExact | ArkShop/ArkShop/Private/Kits.cpp:400-447 | filling in a record changes a count iff it is a configured kit's and negative; it becomes zero |
| Kits.StepBalance | ArkShop/ArkShop/Private/Kits.cpp:326-329 | with any defaults, one step never adds more to redemptions plus kits left than it hands out, and exactly that unless it takes kits away or meets a negative count |
| Kits.KitsAreConserved | ArkShop/ArkShop/Private/Kits.cpp:64-447 | over any run, with any defaults, redemptions plus kits left never exceed what there was plus what was bought or granted, with equality if the count was not negative and no change takes kits away |
| Kits.KitsGoWhileTheyLast | ArkShop/ArkShop/Private/Kits.cpp:326-329 | over any run of redemptions a player gets a kit as often as it is asked for, while there are any left |
| KitPurchase.PaidKitsArriveIffStored | ArkShop/ArkShop/Private/Kits.cpp:483-552 | an order is paid iff nothing speaks against it, it is covered and the payment is stored; the paid kits arrive iff the second write is stored; nobody else's points or kits change |
| KitPurchase.PaidKitsCanBeLost | ArkShop/ArkShop/Private/Kits.cpp:550-552 | an order that is paid and brings nothing |
| KitPurchase.BuyKit | ArkShop/ArkShop/Private/Kits.cpp:483-552 | the command's guards, the payment and the unchecked change of the record have that effect |
| KitStore.Store.ChangeKitAmount | ArkShop/ArkShop/Private/Kits.cpp:64-116 | the record is rewritten as the specification says |
| KitStore.Store.RedeemKit | ArkShop/ArkShop/Private/Kits.cpp:280-329 | redeeming has the effect of the specification |
| KitStore.Store.InitKitData | ArkShop/ArkShop/Private/Kits.cpp:400-440 | the loop over the configured kits fills in the record |
| TrailingSpace.WordIsEightSpacesIff | ArkShop/Includes/mysql/byte_order_generic.h:56-69 | the word equals 0x2020202020202020 iff all eight bytes are spaces |
| TrailingSpace.BytesOfWord | ArkShop/Includes/mysql/byte_order_generic.h:56-69 | the word has its bytes in order of significance, the first the least |
| TrailingSpace.Trimmed | ArkShop/Includes/mysql/m_string.h:317-329 | behind the end all bytes are spaces, and the end is the start or just behind another byte |
| TrailingSpace.TrimmedIsUnique | ArkShop/Includes/mysql/m_string.h:317-329 | it is the only such end |
| TrailingSpace.SkipTrailingSpace | ArkShop/Includes/mysql/m_string.h:317-329 | the eight-byte loop and the byte loop find that end, for every buffer and length |
| RandomNumber.GetRandomNumber | ArkShop/ArkShop/Private/Tools.h:7-20 | the sampler stops at the first accepted draw; its value is one of the n from min on, and at most max iff min is |
| RandomNumber.SamplerIsUniform | ArkShop/ArkShop/Private/Tools.h:9-19 | each of the n values from min on is hit by exactly (RAND_MAX - RAND_MAX % n) / n accepted draws, any other by none |
| RandomNumber.LoopCanStopIff | ArkShop/ArkShop/Private/Tools.h:13-17 | some draw is accepted iff the range has at most RAND_MAX values |

## Left out

- ThreadPoolPause.PausedWaitWithoutPushes: and the case of pushes from tasks alone say when the wait cannot leave early only below 2^32 outstanding tasks, where the counter tells the number of tasks.
- Thread pool calls of `wait_for_tasks`, `reset` and the destructor come from one owner thread, one at a time; a second waiter beside the owner, and a reset from inside a task, are not modelled.
- SharedPool.PoolData.PopTask: and the other methods of this class are one atomic access each; the loops of workers and waits exist only as steps of the transition system, because other threads act between any two accesses.
- Thread pool tasks do not throw; `submit`, its promises and futures, the sleeping between polls, `synced_stream` and `timer` are not modelled.
- LoopBlocks.HandOutBlocks: requires a thread count for an unspecified number of blocks, because the source divides by it; indices are mathematical integers, exact while the size of the range fits the index type.
- ThreadPoolDrain.FairScheduleDrains: says nothing about tasks that push further tasks for ever, or never return, or about pushes from outside meanwhile.
- Home teleports started by the teleport command (`Teleport.cpp`), which has no guard against a second entry.
- Logout during a pending teleport, a zero delay whose timer fires before the player is listed, wrap-around of uids after 2^32 starts, and races on the shared maps.
- The commands that manage homes.
- TimedRewards callbacks that register or remove tasks while the timer iterates.
- StructuresLimitProofs.CacheNeverBelowReality: assumes structures appear only through the build hook and do not change team, and that an allowed structure exists as soon as it is allowed.
- Case-insensitive comparison of blueprint paths in the game's string type; names are compared exactly.
- Overflow of `price * amount` in `SellItem`, `BuyKit` and the kill reward, which the source leaves undefined, and of balances.
- Ledger.NoBalanceGoesNegative: the administrator's commands that set, change or reset points are not among its operations.
- Kits.KitsAreConserved: resets and changes of the configuration during a run are not among its steps; reads of the kit record do not fail.
- What a purchase or a kit delivers, item statistics, dino data and the logging and chat messages of all plugins.
- SQL and MySQL access beyond its effect on one column, JSON and command parsing, the game's own API and hook registration.
- The variant of `skip_trailing_space` for sparc, and the other loads and stores of its header.
- RandomNumber.GetRandomNumber: min one above max, where the source divides by zero, is not modelled, nor is overflow of max - min + 1; a stream without an accepted draw has no result.
- The remaining plugins (fly speed, no collision, tribe message, custom chat, permissions tables): single branches or plumbing.
