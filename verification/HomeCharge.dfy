/**
 Home teleports that cost points: the command looks at the balance, and the teleport is charged after the delay without
 another look, while shop operations go on.
 */
module HomeCharge {
  import HomeServer
  import HomeTeleport
  import HomeTeleportProofs
  import Ledger
  import Shop

  /** UseArkShop and CostPerHomeTeleport beside the plugin's other settings. */
  datatype Config = Config(home: HomeTeleport.Config, usePoints: bool, cost: int)

  datatype State = State(world: HomeTeleport.World, points: Ledger.Points)

  /** A step of the home plugin, with whether the charge of a teleport is stored, or an operation on points. */
  datatype Step =
    | Home(step: HomeTeleport.Step, chargeStored: bool)
    | Account(op: Ledger.Op)

  /** What the command's check of the balance says. */
  predicate Affords(cfg: Config, points: Ledger.Points, player: nat) {
    !(cfg.usePoints && Ledger.GetPoints(points, player) < cfg.cost)
  }

  /** The timer's wake-up completes a teleport. */
  predicate Completes(w: HomeTeleport.World, t: HomeTeleport.Timer) {
    && t.player in w.threads && w.threads[t.player] == t.uid
    && HomeTeleport.Alive(w, t.player) && t.player in w.teleporting
  }

  predicate Enabled(cfg: Config, s: State, step: Step) {
    match step
    case Home(h, _) =>
      && HomeTeleport.Enabled(s.world, h)
      && (h.HomeCommand? ==> h.request.enoughPoints == Affords(cfg, s.points, h.request.player))
    case Account(_) => true
  }

  function Apply(cfg: Config, s: State, step: Step): State
    requires Enabled(cfg, s, step)
  {
    match step
    case Home(h, chargeStored) =>
      State(HomeTeleport.Apply(cfg.home, s.world, h),
            if h.WakeUp? && Completes(s.world, h.timer) then Charge(cfg, s.points, h.timer.player, chargeStored)
            else s.points)
    case Account(op) => s.(points := Ledger.Apply(s.points, op))
  }

  function Charge(cfg: Config, points: Ledger.Points, player: nat, stored: bool): Ledger.Points {
    if cfg.usePoints then Ledger.SpendPoints(points, cfg.cost, player, stored).1 else points
  }

  predicate CanRun(cfg: Config, s: State, steps: seq<Step>)
    decreases |steps|
  {
    steps == [] || (Enabled(cfg, s, steps[0]) && CanRun(cfg, Apply(cfg, s, steps[0]), steps[1..]))
  }

  function Run(cfg: Config, s: State, steps: seq<Step>): State
    requires CanRun(cfg, s, steps)
    decreases |steps|
  {
    if steps == [] then s else Run(cfg, Apply(cfg, s, steps[0]), steps[1..])
  }

  /** A teleport is charged that its known player can no longer pay. */
  ghost predicate ChargesShort(cfg: Config, s: State, step: Step) {
    && step.Home? && step.step.WakeUp? && Completes(s.world, step.step.timer)
    && cfg.usePoints && step.chargeStored && 0 < cfg.cost
    && step.step.timer.player in s.points && s.points[step.step.timer.player] < cfg.cost
  }

  /** No operation on points that is allowed to make debts. */
  predicate NoDebtAllowed(step: Step) {
    step.Account? ==> !Ledger.AllowsDebt(step.op)
  }

  /**
   A completed teleport whose positive charge is stored lowers the balance of a known player by exactly the cost; no
   other step of the home plugin moves a balance.
   */
  lemma ChargeIsExact(cfg: Config, s: State, step: Step, p: nat)
    requires Enabled(cfg, s, step) && step.Home?
    ensures Ledger.GetPoints(Apply(cfg, s, step).points, p) == Ledger.GetPoints(s.points, p) -
      if step.step.WakeUp? && Completes(s.world, step.step.timer) && p == step.step.timer.player && p in s.points
         && cfg.usePoints && step.chargeStored && cfg.cost > 0 then cfg.cost else 0
    ensures Apply(cfg, s, step).points.Keys == s.points.Keys
  {
  }

  /** The charge follows exactly the wake-ups that teleport. */
  lemma CompletesIffTeleports(cfg: Config, s: State, t: HomeTeleport.Timer, stored: bool)
    requires HomeTeleport.Enabled(s.world, HomeTeleport.WakeUp(t, stored))
    ensures var after := HomeTeleport.Wake(cfg.home, s.world, t, stored);
      if Completes(s.world, t)
      then after.log == s.world.log + [HomeTeleport.Teleported(t.player, s.world.now, t.uid, t.pos, stored)]
      else after.log == s.world.log
  {
  }

  /** A step makes a debt exactly when it charges a teleport its player can no longer pay. */
  lemma ChargeMakesDebtIff(cfg: Config, s: State, step: Step)
    requires Ledger.NoDebt(s.points) && Enabled(cfg, s, step) && NoDebtAllowed(step)
    ensures !Ledger.NoDebt(Apply(cfg, s, step).points) <==> ChargesShort(cfg, s, step)
  {
    match step
    case Account(op) => Ledger.ApplyKeepsNoDebt(s.points, op);
    case Home(h, stored) =>
      var after := Apply(cfg, s, step).points;
      if after != s.points {
        var p := h.timer.player;
        assert after[p] == s.points[p] - cfg.cost;
        assert forall q :: q in after && q != p ==> after[q] == s.points[q];
      }
  }

  /** No state of the run has a debt. */
  ghost predicate DebtFree(cfg: Config, s: State, steps: seq<Step>)
    requires CanRun(cfg, s, steps)
    decreases |steps|
  {
    Ledger.NoDebt(s.points) && (steps == [] || DebtFree(cfg, Apply(cfg, s, steps[0]), steps[1..]))
  }

  /** No step of the run charges what cannot be paid. */
  ghost predicate ChargesCovered(cfg: Config, s: State, steps: seq<Step>)
    requires CanRun(cfg, s, steps)
    decreases |steps|
  {
    steps == [] ||
    (!ChargesShort(cfg, s, steps[0]) && ChargesCovered(cfg, Apply(cfg, s, steps[0]), steps[1..]))
  }

  /** Over any run of teleports and shop operations, balances stay out of debt exactly if every charge is covered. */
  lemma {:induction false} DebtFreeIffCovered(cfg: Config, s: State, steps: seq<Step>)
    requires CanRun(cfg, s, steps) && Ledger.NoDebt(s.points)
    requires forall i :: 0 <= i < |steps| ==> NoDebtAllowed(steps[i])
    ensures DebtFree(cfg, s, steps) <==> ChargesCovered(cfg, s, steps)
    decreases |steps|
  {
    if steps == [] {
    } else {
      ChargeMakesDebtIff(cfg, s, steps[0]);
      var s' := Apply(cfg, s, steps[0]);
      if Ledger.NoDebt(s'.points) {
        DebtFreeIffCovered(cfg, s', steps[1..]);
      } else {
        assert !DebtFree(cfg, s', steps[1..]);
      }
    }
  }

  /** A step that starts a teleport finds the balance sufficient, and leaves it. */
  lemma StartIsAffordable(cfg: Config, s: State, step: Step)
    requires Enabled(cfg, s, step) && step.Home? && step.step.HomeCommand?
    requires Apply(cfg, s, step).world != s.world
    ensures cfg.usePoints ==> Ledger.GetPoints(s.points, step.step.request.player) >= cfg.cost
    ensures Apply(cfg, s, step).points == s.points
  {
    HomeTeleportProofs.StartsIff(cfg.home, s.world, step.step.request);
  }

  /** Only operations on points, or another of the player's teleports, come between what a start saw and its charge. */
  ghost predicate LeavesBalance(s: State, step: Step, player: nat) {
    match step
    case Home(h, _) => h.WakeUp? && Completes(s.world, h.timer) ==> h.timer.player != player
    case Account(op) => Ledger.GetPoints(Ledger.Apply(s.points, op), player) >= Ledger.GetPoints(s.points, player)
  }

  ghost predicate BalanceLeft(cfg: Config, s: State, steps: seq<Step>, player: nat)
    requires CanRun(cfg, s, steps)
    decreases |steps|
  {
    steps == [] ||
    (LeavesBalance(s, steps[0], player) && BalanceLeft(cfg, Apply(cfg, s, steps[0]), steps[1..], player))
  }

  /** If nothing was taken from the player since the start was affordable, the charge is covered. */
  lemma {:induction false} UntouchedBalanceCovers(cfg: Config, s: State, steps: seq<Step>, next: Step, player: nat)
    requires CanRun(cfg, s, steps) && Affords(cfg, s.points, player) && BalanceLeft(cfg, s, steps, player)
    requires next.Home? && next.step.WakeUp? && next.step.timer.player == player
    ensures !ChargesShort(cfg, Run(cfg, s, steps), next)
    decreases |steps|
  {
    if steps == [] {
    } else {
      assert LeavesBalance(s, steps[0], player);
      UntouchedBalanceCovers(cfg, Apply(cfg, s, steps[0]), steps[1..], next, player);
    }
  }

  /** The timer's wake-up on the two plugins' stores. */
  method TimerWake(cfg: Config, server: HomeServer.Server, shop: Shop.Store, t: HomeTeleport.Timer, stored: bool,
      chargeStored: bool)
    requires cfg.home == server.cfg && t in server.pending && t.due <= server.now
    modifies server, shop
    ensures var s := State(old(server.View()), old(shop.points));
      State(server.View(), shop.points) == Apply(cfg, s, Home(HomeTeleport.WakeUp(t, stored), chargeStored))
  {
    var completes := t.player in server.threads && server.threads[t.player] == t.uid
      && !server.IsPlayerDead(t.player) && t.player in server.teleportingPlayers;
    server.TimerWake(t, stored);
    if completes && cfg.usePoints {
      var _ := shop.SpendPoints(cfg.cost, t.player, chargeStored);
    }
  }

  /**
   A player with exactly the cost starts a teleport, spends the points while it is pending, and is charged all the same:
   the balance ends below zero with no operation that allows debts.
   */
  lemma ChargeCanMakeDebt() returns (cfg: Config, s: State, steps: seq<Step>)
    ensures s.world == HomeTeleport.Init(0) && Ledger.NoDebt(s.points) && CanRun(cfg, s, steps)
    ensures forall i :: 0 <= i < |steps| ==> NoDebtAllowed(steps[i])
    ensures Run(cfg, s, steps).points == map[7 := -20]
  {
    cfg := Config(HomeTeleport.Config(1, 1), true, 20);
    s := State(HomeTeleport.Init(0), map[7 := 20]);
    var r := HomeTeleport.Request(7, true, true, true, true, HomeTeleport.At(0), true, false, false);
    var t := HomeTeleport.Timer(1, 7, 1000, 0);
    var spawned := Apply(cfg, s, Home(HomeTeleport.Spawn(7), true));
    var started := Apply(cfg, spawned, Home(HomeTeleport.HomeCommand(r), true));
    steps := SpendWhilePending(cfg, started, t);
    steps := StepFirst(cfg, spawned, Home(HomeTeleport.HomeCommand(r), true), steps);
    steps := StepFirst(cfg, s, Home(HomeTeleport.Spawn(7), true), steps);
  }

  lemma SpendWhilePending(cfg: Config, s: State, t: HomeTeleport.Timer) returns (steps: seq<Step>)
    requires cfg.usePoints && cfg.cost == 20 && s.points == map[7 := 20] && s.world.now == 0
    requires t in s.world.pending && t.player == 7 && t.due == 1000 && Completes(s.world, t)
    ensures CanRun(cfg, s, steps) && Run(cfg, s, steps).points == map[7 := -20]
    ensures forall i :: 0 <= i < |steps| ==> NoDebtAllowed(steps[i])
  {
    var spend, wait := Account(Ledger.Purchase(7, 20, true)), Home(HomeTeleport.Time(1000), true);
    var wake := Home(HomeTeleport.WakeUp(t, true), true);
    var bought := Apply(cfg, s, spend);
    assert bought.points == map[7 := 0];
    var waited := Apply(cfg, bought, wait);
    assert Apply(cfg, waited, wake).points == map[7 := -20];
    steps := StepFirst(cfg, waited, wake, []);
    steps := StepFirst(cfg, bought, wait, steps);
    steps := StepFirst(cfg, s, spend, steps);
  }

  lemma StepFirst(cfg: Config, s: State, step: Step, rest: seq<Step>) returns (steps: seq<Step>)
    requires Enabled(cfg, s, step) && CanRun(cfg, Apply(cfg, s, step), rest) && NoDebtAllowed(step)
    requires forall i :: 0 <= i < |rest| ==> NoDebtAllowed(rest[i])
    ensures CanRun(cfg, s, steps) && Run(cfg, s, steps) == Run(cfg, Apply(cfg, s, step), rest)
    ensures forall i :: 0 <= i < |steps| ==> NoDebtAllowed(steps[i])
  {
    steps := [step] + rest;
    assert steps[1..] == rest;
  }
}
