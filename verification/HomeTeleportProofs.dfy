/** What the home teleport protocol guarantees over every run. */
module HomeTeleportProofs {
  import opened Common
  import opened AliasedRemove
  import opened HomeTeleport

  /** The latest event of a player in a log. */
  ghost function Latest(log: seq<Event>, player: nat): Option<Event> {
    if log == [] then None
    else if log[|log| - 1].player == player then Some(log[|log| - 1])
    else Latest(log[..|log| - 1], player)
  }

  /** The latest completed teleport of a player. */
  ghost function LatestTeleport(log: seq<Event>, player: nat): Option<Event> {
    if log == [] then None
    else if log[|log| - 1].Teleported? && log[|log| - 1].player == player then Some(log[|log| - 1])
    else LatestTeleport(log[..|log| - 1], player)
  }

  lemma LatestAppend(log: seq<Event>, e: Event)
    ensures forall p: nat :: Latest(log + [e], p) == if e.player == p then Some(e) else Latest(log, p)
    ensures forall p: nat ::
      LatestTeleport(log + [e], p) == if e.Teleported? && e.player == p then Some(e) else LatestTeleport(log, p)
  {
    assert (log + [e])[..|log|] == log;
  }

  /** The earliest time a start may follow a teleport whose cooldown was stored, if it could read it. */
  ghost predicate RespectsCooldown(cfg: Config, at: int, previous: Option<Event>) {
    previous.Some? && previous.value.Teleported? && previous.value.stored ==>
      CooldownEnd(cfg, previous.value.at) * 1000 <= at
  }

  /** An event fits the log before it. */
  ghost predicate EventOk(cfg: Config, before: seq<Event>, e: Event) {
    match e
    case Started(p, at, uid, pos, checked) =>
      && (forall k :: 0 <= k < |before| && before[k].Started? ==> before[k].uid < uid)
      && (checked ==> RespectsCooldown(cfg, at, LatestTeleport(before, p)))
    case Teleported(p, at, uid, pos, stored) =>
      var start := Latest(before, p);
      && start.Some? && start.value.Started? && start.value.uid == uid && start.value.pos == pos
      && start.value.at + cfg.delay * 1000 <= at
      && (start.value.checked ==> RespectsCooldown(cfg, start.value.at, LatestTeleport(before, p)))
    case _ => true
  }

  ghost predicate LogOk(cfg: Config, log: seq<Event>) {
    forall k :: 0 <= k < |log| ==> EventOk(cfg, log[..k], log[k])
  }

  /** A listed player is alive and locked, and the timer of its latest start is registered and pending. */
  ghost predicate ListedOk(cfg: Config, w: World, p: nat) {
    && Alive(w, p) && w.characters[p].locked
    && p in w.threads
    && Latest(w.log, p).Some?
    && var start := Latest(w.log, p).value;
       && start.Started? && start.uid == w.threads[p]
       && start.at <= w.now
       && Timer(start.uid, p, start.at + cfg.delay * 1000, start.pos) in w.pending
       && (start.checked ==> RespectsCooldown(cfg, start.at, LatestTeleport(w.log, p)))
  }

  /** A player not listed has no start that is still open, and a living one is not locked. */
  ghost predicate UnlistedOk(w: World, p: nat) {
    && (Alive(w, p) ==> !w.characters[p].locked)
    && !(Latest(w.log, p).Some? && Latest(w.log, p).value.Started?)
  }

  ghost predicate UidsOk(w: World) {
    && (forall t :: t in w.pending ==> t.uid <= w.uid)
    && (forall t, u :: t in w.pending && u in w.pending && t.uid == u.uid ==> t == u)
    && (forall p :: p in w.threads ==> w.threads[p] <= w.uid)
    && (forall k :: 0 <= k < |w.log| && w.log[k].Started? ==> w.log[k].uid <= w.uid)
  }

  ghost predicate CooldownsOk(cfg: Config, w: World) {
    forall p: nat :: LatestTeleport(w.log, p).Some? ==>
      var e := LatestTeleport(w.log, p).value;
      e.Teleported? && (e.stored ==> p in w.cooldowns && w.cooldowns[p] == CooldownEnd(cfg, e.at))
  }

  ghost predicate PlayersOk(cfg: Config, w: World) {
    && Distinct(w.teleporting)
    && forall p: nat :: if p in w.teleporting then ListedOk(cfg, w, p) else UnlistedOk(w, p)
  }

  ghost predicate Inv(cfg: Config, w: World) {
    PlayersOk(cfg, w) && UidsOk(w) && CooldownsOk(cfg, w) && LogOk(cfg, w.log)
  }

  // ----- steps

  lemma LogGrows(cfg: Config, log: seq<Event>, e: Event)
    requires LogOk(cfg, log) && EventOk(cfg, log, e)
    ensures LogOk(cfg, log + [e])
  {
    var more := log + [e];
    forall k | 0 <= k < |more| ensures EventOk(cfg, more[..k], more[k]) {
      assert more[..k] == log[..k];
      assert log[..|log|] == log;
    }
  }

  lemma StartKeepsInv(cfg: Config, w: World, r: Request)
    requires Inv(cfg, w)
    ensures Inv(cfg, TpHome(cfg, w, r))
  {
    var w' := TpHome(cfg, w, r);
    if Refusal(w, r).TeleportStart? {
      var e := w'.log[|w.log|];
      LatestAppend(w.log, e);
      assert UnlistedOk(w, r.player);
      LogGrows(cfg, w.log, e);
      forall p: nat ensures if p in w'.teleporting then ListedOk(cfg, w', p) else UnlistedOk(w', p) {
        assert if p in w.teleporting then ListedOk(cfg, w, p) else UnlistedOk(w, p);
      }
    }
  }

  /** The timer is the registered one of a listed player. */
  ghost predicate Acts(w: World, t: Timer) {
    t.player in w.threads && w.threads[t.player] == t.uid && t.player in w.teleporting
  }

  /** The event a timer of a listed player appends fits the log. */
  lemma TeleportEventOk(cfg: Config, w: World, t: Timer, stored: bool)
    requires Inv(cfg, w) && t in w.pending && t.due <= w.now && Acts(w, t)
    ensures EventOk(cfg, w.log, Teleported(t.player, w.now, t.uid, t.pos, stored))
  {
    assert ListedOk(cfg, w, t.player);
    var start := Latest(w.log, t.player).value;
    assert t == Timer(start.uid, t.player, start.at + cfg.delay * 1000, start.pos);
  }

  lemma ActingWakeKeepsInv(cfg: Config, w: World, t: Timer, stored: bool)
    requires Inv(cfg, w) && t in w.pending && t.due <= w.now && Acts(w, t)
    ensures Inv(cfg, Wake(cfg, w, t, stored))
  {
    var e := Teleported(t.player, w.now, t.uid, t.pos, stored);
    assert ListedOk(cfg, w, t.player);
    TeleportEventOk(cfg, w, t, stored);
    assert Wake(cfg, w, t, stored).log == w.log + [e];
    LatestAppend(w.log, e);
    LogGrows(cfg, w.log, e);
    TeleportKeepsPlayersOk(cfg, w, t, stored);
  }

  lemma TeleportKeepsPlayersOk(cfg: Config, w: World, t: Timer, stored: bool)
    requires PlayersOk(cfg, w) && UidsOk(w) && t in w.pending && Acts(w, t)
    ensures PlayersOk(cfg, Wake(cfg, w, t, stored))
  {
    var w' := Wake(cfg, w, t, stored);
    EraseKeepsDistinct(w.teleporting, t.player);
    assert ListedOk(cfg, w, t.player);
    LatestAppend(w.log, Teleported(t.player, w.now, t.uid, t.pos, stored));
    forall p: nat ensures if p in w'.teleporting then ListedOk(cfg, w', p) else UnlistedOk(w', p) {
      assert if p in w.teleporting then ListedOk(cfg, w, p) else UnlistedOk(w, p);
    }
  }

  lemma IdleWakeKeepsInv(cfg: Config, w: World, t: Timer, stored: bool)
    requires Inv(cfg, w) && t in w.pending && !Acts(w, t)
    ensures Inv(cfg, Wake(cfg, w, t, stored))
  {
    var w' := Wake(cfg, w, t, stored);
    assert w'.log == w.log && w'.teleporting == w.teleporting && w'.characters == w.characters;
    forall p: nat ensures if p in w'.teleporting then ListedOk(cfg, w', p) else UnlistedOk(w', p) {
      assert if p in w.teleporting then ListedOk(cfg, w, p) else UnlistedOk(w, p);
    }
  }

  lemma WakeKeepsInv(cfg: Config, w: World, t: Timer, stored: bool)
    requires Inv(cfg, w) && t in w.pending && t.due <= w.now
    ensures Inv(cfg, Wake(cfg, w, t, stored))
  {
    if Acts(w, t) {
      ActingWakeKeepsInv(cfg, w, t, stored);
    } else {
      IdleWakeKeepsInv(cfg, w, t, stored);
    }
  }

  lemma DamageKeepsInv(cfg: Config, w: World, player: nat)
    requires Inv(cfg, w) && player in w.characters
    ensures Inv(cfg, TakeDamage(w, player))
  {
    var w' := TakeDamage(w, player);
    EraseKeepsDistinct(w.teleporting, player);
    LatestAppend(w.log, Damaged(player, w.now));
    LogGrows(cfg, w.log, Damaged(player, w.now));
    forall p: nat ensures if p in w'.teleporting then ListedOk(cfg, w', p) else UnlistedOk(w', p) {
      assert if p in w.teleporting then ListedOk(cfg, w, p) else UnlistedOk(w, p);
    }
  }

  lemma DeathKeepsInv(cfg: Config, w: World, player: nat)
    requires Inv(cfg, w) && player in w.characters
    ensures Inv(cfg, Die(w, player))
  {
    var w' := Die(w, player);
    EraseKeepsDistinct(w.teleporting, player);
    LatestAppend(w.log, Died(player, w.now));
    LogGrows(cfg, w.log, Died(player, w.now));
    forall p: nat ensures if p in w'.teleporting then ListedOk(cfg, w', p) else UnlistedOk(w', p) {
      assert if p in w.teleporting then ListedOk(cfg, w, p) else UnlistedOk(w, p);
    }
  }

  lemma QuietStepKeepsInv(cfg: Config, w: World, step: Step)
    requires Inv(cfg, w) && Enabled(w, step) && (step.Spawn? || step.Time?)
    ensures Inv(cfg, Apply(cfg, w, step))
  {
    var w' := Apply(cfg, w, step);
    forall p: nat ensures if p in w'.teleporting then ListedOk(cfg, w', p) else UnlistedOk(w', p) {
      assert if p in w.teleporting then ListedOk(cfg, w, p) else UnlistedOk(w, p);
    }
  }

  lemma StepKeepsInv(cfg: Config, w: World, step: Step)
    requires Inv(cfg, w) && Enabled(w, step)
    ensures Inv(cfg, Apply(cfg, w, step))
  {
    match step
    case HomeCommand(r) => StartKeepsInv(cfg, w, r);
    case WakeUp(t, stored) => WakeKeepsInv(cfg, w, t, stored);
    case Damage(p) => DamageKeepsInv(cfg, w, p);
    case Death(p) => DeathKeepsInv(cfg, w, p);
    case Spawn(_) => QuietStepKeepsInv(cfg, w, step);
    case Time(_) => QuietStepKeepsInv(cfg, w, step);
  }

  lemma {:induction false} RunKeepsInv(cfg: Config, w: World, steps: seq<Step>)
    requires Inv(cfg, w) && CanRun(cfg, w, steps)
    ensures Inv(cfg, Run(cfg, w, steps))
    decreases |steps|
  {
    if steps == [] {
    } else {
      StepKeepsInv(cfg, w, steps[0]);
      RunKeepsInv(cfg, Apply(cfg, w, steps[0]), steps[1..]);
    }
  }

  lemma ReachableInv(cfg: Config, w: World)
    requires Reachable(cfg, w)
    ensures Inv(cfg, w)
  {
    var now: int, steps: seq<Step> :| CanRun(cfg, Init(now), steps) && Run(cfg, Init(now), steps) == w;
    RunKeepsInv(cfg, Init(now), steps);
  }

  // ----- guarantees

  /** Nothing but the cooldown and enemy structures speaks against a command. */
  predicate Admissible(w: World, r: Request) {
    && Alive(w, r.player) && r.player !in w.teleporting
    && r.named && r.permitted && r.enoughPoints && r.mountAllowed && r.home.At?
  }

  /** A command starts a teleport exactly when nothing speaks against it; refused, it changes nothing. */
  lemma StartsIff(cfg: Config, w: World, r: Request)
    ensures Refusal(w, r).TeleportStart? <==>
      && Admissible(w, r) && !r.enemyNearPlayer && !r.enemyNearHome
      && w.now >= CooldownOf(w, r.player, r.cooldownRead) * 1000
    ensures !Refusal(w, r).TeleportStart? ==> TpHome(cfg, w, r) == w
    ensures Refusal(w, r).HomeCooldown? <==>
      Admissible(w, r) && w.now < CooldownOf(w, r.player, r.cooldownRead) * 1000
    ensures Refusal(w, r).HomeCooldown? ==>
      var left, until := Refusal(w, r).timeLeft * 1000, CooldownOf(w, r.player, r.cooldownRead) * 1000;
      0 <= left <= until - w.now < left + 1000
    ensures CooldownOf(w, r.player, r.cooldownRead) ==
      if r.cooldownRead && r.player in w.cooldowns then w.cooldowns[r.player] else 0
  {
  }

  /** Which steps can come: a timer wakes up once it is due, damage and death need a character. */
  lemma StepsAreOpen(w: World, r: Request, t: Timer, stored: bool, p: nat, ms: nat)
    ensures Enabled(w, HomeCommand(r)) && Enabled(w, Time(ms))
    ensures Enabled(w, WakeUp(t, stored)) <==> t in w.pending && t.due <= w.now
    ensures Enabled(w, Damage(p)) <==> p in w.characters
    ensures Enabled(w, Death(p)) <==> p in w.characters && w.characters[p].alive
    ensures Enabled(w, Spawn(p)) <==> !(p in w.characters && w.characters[p].alive)
  {
  }

  /** What a refused player is told, by the first check that fails. */
  lemma RefusalNamesTheCause(w: World, r: Request)
    requires Alive(w, r.player) && r.named && r.player !in w.teleporting
    ensures Refusal(w, r).NoPermissions? <==> !r.permitted
    ensures Refusal(w, r).NoEnoughPoints? <==> r.permitted && !r.enoughPoints
    ensures Refusal(w, r).CantRideDino? <==> r.permitted && r.enoughPoints && !r.mountAllowed
    ensures Refusal(w, r).HomeNameNotExists? <==>
      r.permitted && r.enoughPoints && r.mountAllowed && r.home.Unknown?
  {
  }

  /** Damage and death touch nothing but what they are for: a death leaves every timer and every registration. */
  lemma HarmIsExact(w: World, p: nat, q: nat)
    requires p in w.characters && Distinct(w.teleporting)
    ensures var hit := TakeDamage(w, p);
      && (q in hit.teleporting <==> q in w.teleporting && q != p)
      && hit.pending == w.pending && hit.cooldowns == w.cooldowns && hit.uid == w.uid
      && (q in hit.threads <==> q in w.threads && (q != p || p !in w.teleporting))
      && (q in hit.threads ==> hit.threads[q] == w.threads[q])
      && hit.characters == (if p in w.teleporting then w.characters[p := Character(w.characters[p].alive, false)]
                            else w.characters)
      && hit.log == w.log + [Damaged(p, w.now)]
    ensures var dead := Die(w, p);
      && (q in dead.teleporting <==> q in w.teleporting && q != p)
      && dead.pending == w.pending && dead.cooldowns == w.cooldowns && dead.uid == w.uid && dead.threads == w.threads
      && dead.characters == w.characters[p := Character(false, w.characters[p].locked)]
      && dead.log == w.log + [Died(p, w.now)]
  {
    EraseKeepsDistinct(w.teleporting, p);
  }

  // ----- where a teleport goes

  lemma {:induction false} LogOnlyGrows(cfg: Config, w: World, steps: seq<Step>)
    requires CanRun(cfg, w, steps)
    ensures w.log <= Run(cfg, w, steps).log
    decreases |steps|
  {
    if steps == [] {
    } else {
      StepLogsNow(cfg, w, steps[0]);
      LogOnlyGrows(cfg, Apply(cfg, w, steps[0]), steps[1..]);
    }
  }

  /** Every event of a run was logged by one of its steps. */
  lemma {:induction false} EventHasItsStep(cfg: Config, w: World, steps: seq<Step>, j: nat) returns (i: nat)
    requires CanRun(cfg, w, steps) && |w.log| <= j < |Run(cfg, w, steps).log|
    ensures i < |steps| && CanRun(cfg, w, steps[..i])
    ensures var before := Run(cfg, w, steps[..i]);
      && |before.log| == j && Enabled(before, steps[i])
      && Apply(cfg, before, steps[i]).log == Run(cfg, w, steps).log[..j + 1]
    decreases |steps|
  {
    var w' := Apply(cfg, w, steps[0]);
    StepLogsNow(cfg, w, steps[0]);
    LogOnlyGrows(cfg, w', steps[1..]);
    if |w'.log| > j {
      i := 0;
    } else {
      var k := EventHasItsStep(cfg, w', steps[1..], j);
      i := k + 1;
      assert steps[..i][0] == steps[0] && steps[..i][1..] == steps[1..][..k];
    }
  }

  /**
   Every completed teleport of a run goes to the home that the player's command named: the start it belongs to was made
   by a command of that player, admissible when it was given, for a home at exactly that position.
   */
  lemma TeleportGoesHome(cfg: Config, now: int, steps: seq<Step>, k: nat) returns (i: nat, r: Request)
    requires CanRun(cfg, Init(now), steps)
    requires var log := Run(cfg, Init(now), steps).log; k < |log| && log[k].Teleported?
    ensures i < |steps| && steps[i] == HomeCommand(r) && CanRun(cfg, Init(now), steps[..i])
    ensures var log, before := Run(cfg, Init(now), steps).log, Run(cfg, Init(now), steps[..i]);
      && r.player == log[k].player && r.home == At(log[k].pos) && Admissible(before, r)
      && |before.log| < k && log[|before.log|].Started? && log[|before.log|].uid == log[k].uid
      && log[|before.log|].at == before.now
  {
    var w := Run(cfg, Init(now), steps);
    var j := TeleportBelongsToLatestStart(cfg, w, k);
    i := EventHasItsStep(cfg, Init(now), steps, j);
    var before := Run(cfg, Init(now), steps[..i]);
    assert Apply(cfg, before, steps[i]).log[j] == w.log[j];
    r := steps[i].request;
    StartsIff(cfg, before, r);
  }

  /** Where the latest event of a player stands. */
  lemma {:induction false} LatestPosition(log: seq<Event>, p: nat) returns (j: nat)
    requires Latest(log, p).Some?
    ensures j < |log| && log[j] == Latest(log, p).value && log[j].player == p
    ensures forall m :: j < m < |log| ==> log[m].player != p
  {
    var last := |log| - 1;
    if log[last].player == p {
      j := last;
    } else {
      j := LatestPosition(log[..last], p);
    }
  }

  /**
   Every completed teleport goes where the player's most recent start said, HomeTpDelay or more after it, and nothing
   happened to the player in between: no damage, no death, no other start or teleport.
   */
  lemma TeleportBelongsToLatestStart(cfg: Config, w: World, k: nat) returns (j: nat)
    requires Reachable(cfg, w) && k < |w.log| && w.log[k].Teleported?
    ensures j < k && w.log[j].Started? && w.log[j].player == w.log[k].player
    ensures w.log[j].uid == w.log[k].uid && w.log[j].pos == w.log[k].pos
    ensures w.log[j].at + cfg.delay * 1000 <= w.log[k].at
    ensures forall m :: j < m < k ==> w.log[m].player != w.log[k].player
  {
    ReachableInv(cfg, w);
    assert EventOk(cfg, w.log[..k], w.log[k]);
    j := LatestPosition(w.log[..k], w.log[k].player);
  }

  /** Each start yields at most one teleport. */
  lemma StartTeleportsOnce(cfg: Config, w: World, k: nat, l: nat)
    requires Reachable(cfg, w) && k < l < |w.log| && w.log[k].Teleported? && w.log[l].Teleported?
    ensures w.log[k].uid != w.log[l].uid
  {
    ReachableInv(cfg, w);
    var i := TeleportBelongsToLatestStart(cfg, w, k);
    var j := TeleportBelongsToLatestStart(cfg, w, l);
    UidNamesOneStart(cfg, w, i, j);
  }

  /**
   A timer teleports its player exactly when its start is still the player's latest event. Any other timer, be its
   registration overwritten, erased, or left behind by a death, only removes bookkeeping of its own.
   */
  lemma TimerActsIffItsStartIsLatest(cfg: Config, w: World, t: Timer, stored: bool)
    requires Reachable(cfg, w) && t in w.pending
    ensures
      var w', latest := Wake(cfg, w, t, stored), Latest(w.log, t.player);
      if latest.Some? && latest.value.Started? && latest.value.uid == t.uid then
        && w'.log == w.log + [Teleported(t.player, w.now, t.uid, t.pos, stored)]
        && t.player !in w'.teleporting && w'.characters[t.player] == Character(true, false)
        && w'.cooldowns ==
             (if stored then w.cooldowns[t.player := (w.now + cfg.cooldown * 60000) / 1000] else w.cooldowns)
        && w'.threads == w.threads - {t.player} && w'.pending == w.pending - {t}
      else
        && w'.log == w.log && w'.teleporting == w.teleporting
        && w'.characters == w.characters && w'.cooldowns == w.cooldowns && w'.pending == w.pending - {t}
        && forall p :: p in w.teleporting ==> p in w'.threads && w'.threads[p] == w.threads[p]
  {
    ReachableInv(cfg, w);
    EraseKeepsDistinct(w.teleporting, t.player);
    assert if t.player in w.teleporting then ListedOk(cfg, w, t.player) else UnlistedOk(w, t.player);
    forall p | p in w.teleporting ensures p in w.threads {
      assert ListedOk(cfg, w, p);
    }
  }

  /**
   A living character with disabled input is listed, its registered timer is pending and due HomeTpDelay after the
   start, and that timer's wake-up, or the next damage, gives the input back.
   */
  lemma LockedPlayerIsReleased(cfg: Config, w: World, p: nat) returns (t: Timer)
    requires Reachable(cfg, w) && Alive(w, p) && w.characters[p].locked
    ensures p in w.teleporting && p in w.threads
    ensures AwaitsTimer(w, p, t) && t.due <= w.now + cfg.delay * 1000
    ensures forall stored :: Wake(cfg, w, t, stored).characters[p] == Character(true, false)
    ensures TakeDamage(w, p).characters[p] == Character(true, false) && p !in TakeDamage(w, p).teleporting
  {
    ReachableInv(cfg, w);
    EraseKeepsDistinct(w.teleporting, p);
    assert if p in w.teleporting then ListedOk(cfg, w, p) else UnlistedOk(w, p);
    var start := Latest(w.log, p).value;
    t := Timer(start.uid, p, start.at + cfg.delay * 1000, start.pos);
  }

  /** Player p waits for its teleport, locked, and t is the timer that will end the wait. */
  ghost predicate AwaitsTimer(w: World, p: nat, t: Timer) {
    && Alive(w, p) && w.characters[p].locked && p in w.teleporting
    && t in w.pending && t.player == p && p in w.threads && w.threads[p] == t.uid
  }

  /** The steps that end the wait of p. */
  predicate EndsWait(step: Step, p: nat, t: Timer) {
    match step
    case Damage(q) => q == p
    case Death(q) => q == p
    case WakeUp(u, _) => u == t
    case _ => false
  }

  /** Of two pending timers only the registered one acts on p; one of another player leaves p alone. */
  lemma WaitMeetsWakeUp(cfg: Config, w: World, p: nat, t: Timer, u: Timer, stored: bool)
    requires PlayersOk(cfg, w) && UidsOk(w) && AwaitsTimer(w, p, t) && u in w.pending
    ensures var w' := Wake(cfg, w, u, stored);
      if u == t then p !in w'.teleporting && w'.characters[p] == Character(true, false) else AwaitsTimer(w', p, t)
  {
    EraseKeepsDistinct(w.teleporting, u.player);
  }

  lemma WaitMeetsHarm(w: World, p: nat, t: Timer, q: nat)
    requires Distinct(w.teleporting) && AwaitsTimer(w, p, t) && q in w.characters
    ensures var hit := TakeDamage(w, q);
      if q == p then p !in hit.teleporting && hit.characters[p] == Character(true, false) else AwaitsTimer(hit, p, t)
    ensures if q == p then p !in Die(w, q).teleporting else AwaitsTimer(Die(w, q), p, t)
  {
    EraseKeepsDistinct(w.teleporting, q);
  }

  lemma WaitMeetsOther(cfg: Config, w: World, p: nat, t: Timer, step: Step)
    requires AwaitsTimer(w, p, t) && Enabled(w, step) && (step.HomeCommand? || step.Spawn? || step.Time?)
    ensures AwaitsTimer(Apply(cfg, w, step), p, t)
  {
  }

  /** Of the steps that can come next, exactly those end the wait; all but a death leave p alive and unlocked. */
  lemma WaitEndsIff(cfg: Config, w: World, p: nat, t: Timer, step: Step)
    requires Reachable(cfg, w) && AwaitsTimer(w, p, t) && Enabled(w, step)
    ensures AwaitsTimer(Apply(cfg, w, step), p, t) <==> !EndsWait(step, p, t)
    ensures EndsWait(step, p, t) && !step.Death? ==> Apply(cfg, w, step).characters[p] == Character(true, false)
    ensures EndsWait(step, p, t) ==> p !in Apply(cfg, w, step).teleporting
  {
    ReachableInv(cfg, w);
    match step
    case WakeUp(u, stored) => WaitMeetsWakeUp(cfg, w, p, t, u, stored);
    case Damage(q) => WaitMeetsHarm(w, p, t, q);
    case Death(q) => WaitMeetsHarm(w, p, t, q);
    case _ => WaitMeetsOther(cfg, w, p, t, step);
  }

  /**
   From a locked state on, over any run, the same timer stays registered and pending, and the player locked, until
   damage, a death or that timer's wake-up; once it is due the wake-up can come, and it unlocks the player.
   */
  lemma {:induction false} LockedUntilReleased(cfg: Config, w: World, p: nat, t: Timer, steps: seq<Step>)
    requires Reachable(cfg, w) && AwaitsTimer(w, p, t) && CanRun(cfg, w, steps)
    requires forall i :: 0 <= i < |steps| ==> !EndsWait(steps[i], p, t)
    ensures var e := Run(cfg, w, steps);
      && AwaitsTimer(e, p, t)
      && forall stored :: t.due <= e.now ==>
           Enabled(e, WakeUp(t, stored)) && Wake(cfg, e, t, stored).characters[p] == Character(true, false)
    decreases |steps|
  {
    if steps == [] {
      forall stored | t.due <= w.now ensures Wake(cfg, w, t, stored).characters[p] == Character(true, false) {
        WaitEndsIff(cfg, w, p, t, WakeUp(t, stored));
      }
    } else {
      var w' := ReachableStep(cfg, w, steps[0]);
      WaitEndsIff(cfg, w, p, t, steps[0]);
      LockedUntilReleased(cfg, w', p, t, steps[1..]);
    }
  }

  /** The latest teleport of a player before position k of the log. */
  ghost predicate PreviousTeleport(log: seq<Event>, i: nat, k: nat) {
    && i < k < |log| && log[i].Teleported? && log[k].Teleported? && log[i].player == log[k].player
    && forall m :: i < m < k ==> !(log[m].Teleported? && log[m].player == log[k].player)
  }

  lemma {:induction false} LatestTeleportIs(log: seq<Event>, p: nat, i: nat)
    requires i < |log| && log[i].Teleported? && log[i].player == p
    requires forall m :: i < m < |log| ==> !(log[m].Teleported? && log[m].player == p)
    ensures LatestTeleport(log, p) == Some(log[i])
    decreases |log|
  {
    if i < |log| - 1 {
      LatestTeleportIs(log[..|log| - 1], p, i);
    }
  }

  /** Times in the log grow, up to now. */
  ghost predicate TimesOk(w: World) {
    && (forall i, j :: 0 <= i <= j < |w.log| ==> w.log[i].at <= w.log[j].at)
    && (forall i :: 0 <= i < |w.log| ==> w.log[i].at <= w.now)
  }

  /** A step logs nothing, or one event at the present time. */
  lemma StepLogsNow(cfg: Config, w: World, step: Step)
    requires Enabled(w, step)
    ensures var w' := Apply(cfg, w, step);
      && w'.now >= w.now
      && (w'.log == w.log || (exists e: Event :: e.at == w.now && w'.log == w.log + [e]))
  {
    var w' := Apply(cfg, w, step);
    if w'.log != w.log {
      var e := w'.log[|w.log|];
      assert e.at == w.now && w'.log == w.log + [e];
    }
  }

  lemma {:induction false} RunKeepsTimesOk(cfg: Config, w: World, steps: seq<Step>)
    requires TimesOk(w) && CanRun(cfg, w, steps)
    ensures TimesOk(Run(cfg, w, steps))
    decreases |steps|
  {
    if steps == [] {
    } else {
      StepLogsNow(cfg, w, steps[0]);
      RunKeepsTimesOk(cfg, Apply(cfg, w, steps[0]), steps[1..]);
    }
  }

  lemma ReachableTimesOk(cfg: Config, w: World)
    requires Reachable(cfg, w)
    ensures TimesOk(w)
  {
    var now: int, steps: seq<Step> :| CanRun(cfg, Init(now), steps) && Run(cfg, Init(now), steps) == w;
    RunKeepsTimesOk(cfg, Init(now), steps);
  }

  /**
   Teleports i and k of a player follow one another, the cooldown of the first was stored, and j is the start of the
   second, which could read it.
   */
  ghost predicate StoredPair(cfg: Config, w: World, i: nat, j: nat, k: nat) {
    && Reachable(cfg, w) && PreviousTeleport(w.log, i, k) && w.log[i].stored
    && j < k && w.log[j].Started? && w.log[j].uid == w.log[k].uid && w.log[j].checked
  }

  /** The least time between such teleports, if the first has this fraction of a second in its time. */
  function LeastGap(cfg: Config, fraction: int): int {
    AtLeastZero(cfg.cooldown * 60000 - fraction) + AtLeastZero(cfg.delay) * 1000
  }

  /** The second start comes after the first teleport. */
  lemma StartFollowsTeleport(cfg: Config, w: World, i: nat, j: nat, k: nat)
    requires StoredPair(cfg, w, i, j, k)
    ensures i < j && w.log[j].player == w.log[k].player && Latest(w.log[..k], w.log[k].player) == Some(w.log[j])
    ensures w.log[i].at <= w.log[j].at <= w.log[k].at && w.log[j].at + cfg.delay * 1000 <= w.log[k].at
  {
    ReachableInv(cfg, w);
    ReachableTimesOk(cfg, w);
    assert EventOk(cfg, w.log[..k], w.log[k]);
    var start := LatestPosition(w.log[..k], w.log[k].player);
    UidNamesOneStart(cfg, w, j, start);
    assert w.log[..k][i] == w.log[i];
  }

  /**
   Two consecutive teleports of a player are TpHomeCooldown minutes plus HomeTpDelay seconds apart, less the fraction of
   a second the stored cooldown drops; a cooldown or delay below zero counts as none.
   */
  lemma TeleportsAreSpaced(cfg: Config, w: World, i: nat, j: nat, k: nat)
    requires StoredPair(cfg, w, i, j, k)
    ensures w.log[k].at - w.log[i].at >= LeastGap(cfg, w.log[i].at % 1000)
  {
    ReachableInv(cfg, w);
    StartFollowsTeleport(cfg, w, i, j, k);
    assert EventOk(cfg, w.log[..k], w.log[k]);
    LatestTeleportIs(w.log[..k], w.log[k].player, i);
    WholeSeconds(cfg, w.log[i].at);
  }

  lemma WholeSeconds(cfg: Config, at: int)
    ensures CooldownEnd(cfg, at) * 1000 == at - at % 1000 + cfg.cooldown * 60000
  {
  }

  lemma RunOneMore(cfg: Config, w: World, steps: seq<Step>, step: Step)
    requires CanRun(cfg, w, steps) && Enabled(Run(cfg, w, steps), step)
    ensures CanRun(cfg, w, steps + [step]) && Run(cfg, w, steps + [step]) == Apply(cfg, Run(cfg, w, steps), step)
    decreases |steps|
  {
    var more := steps + [step];
    if steps == [] {
      assert more[1..] == [];
    } else {
      assert more[0] == steps[0] && more[1..] == steps[1..] + [step];
      RunOneMore(cfg, Apply(cfg, w, steps[0]), steps[1..], step);
    }
  }

  lemma ReachableStep(cfg: Config, w: World, step: Step) returns (w': World)
    requires Reachable(cfg, w) && Enabled(w, step)
    ensures w' == Apply(cfg, w, step) && Reachable(cfg, w')
  {
    var now: int, steps: seq<Step> :| CanRun(cfg, Init(now), steps) && Run(cfg, Init(now), steps) == w;
    RunOneMore(cfg, Init(now), steps, step);
    w' := Apply(cfg, w, step);
  }

  /** A start with nothing against it. */
  lemma StartAt(cfg: Config, w: World) returns (w': World)
    requires Reachable(cfg, w) && w.now >= 0
    requires w.teleporting == [] && w.pending == {} && Alive(w, 7)
    requires 7 in w.cooldowns ==> w.cooldowns[7] * 1000 <= w.now
    ensures Reachable(cfg, w') && w'.teleporting == [7]
    ensures w'.pending == {Timer(w.uid + 1, 7, w.now + cfg.delay * 1000, 0)}
    ensures Alive(w', 7) && w'.now == w.now && w'.uid == w.uid + 1 && 7 in w'.threads && w'.threads[7] == w'.uid
    ensures w'.log == w.log + [Started(7, w.now, w.uid + 1, 0, true)] && w'.cooldowns == w.cooldowns
  {
    var r := Request(7, true, true, true, true, At(0), true, false, false);
    StartsIff(cfg, w, r);
    w' := ReachableStep(cfg, w, HomeCommand(r));
  }

  lemma EraseOnly(p: nat)
    ensures Erase([p], p) == []
  {
    assert Find([p], p) == 0;
  }

  /** From a teleport at a given time, the next one as early as the code lets it happen. */
  lemma TeleportAt(cfg: Config, w: World, wait: nat) returns (w': World)
    requires Reachable(cfg, w) && cfg.delay * 1000 <= wait && w.now >= 0
    requires w.teleporting == [] && w.pending == {} && Alive(w, 7)
    requires 7 in w.cooldowns ==> w.cooldowns[7] * 1000 <= w.now
    ensures Reachable(cfg, w') && w'.teleporting == [] && w'.pending == {} && Alive(w', 7)
    ensures w'.now == w.now + wait && 7 in w'.cooldowns && w'.cooldowns[7] == CooldownEnd(cfg, w'.now)
    ensures w'.log == w.log + [Started(7, w.now, w.uid + 1, 0, true), Teleported(7, w'.now, w.uid + 1, 0, true)]
    ensures w'.uid == w.uid + 1
  {
    w' := StartAt(cfg, w);
    var t := Timer(w.uid + 1, 7, w.now + cfg.delay * 1000, 0);
    w' := ReachableStep(cfg, w', Time(wait));
    assert t in w'.pending && t.due <= w'.now;
    EraseOnly(7);
    w' := ReachableStep(cfg, w', WakeUp(t, true));
    assert w'.pending == {};
  }

  /** For every configuration and every fraction of a second there are two teleports only that far apart. */
  lemma SpacingIsTight(cfg: Config, fraction: nat) returns (w: World)
    requires fraction < 1000
    ensures StoredPair(cfg, w, 1, 2, 3) && w.log[1].at % 1000 == fraction
    ensures w.log[3].at - w.log[1].at == LeastGap(cfg, fraction)
  {
    var delay := AtLeastZero(cfg.delay) * 1000;
    w := Init(0);
    assert CanRun(cfg, Init(0), []) && Run(cfg, Init(0), []) == w;
    w := ReachableStep(cfg, w, Spawn(7));
    w := TeleportAt(cfg, w, delay + fraction);
    WholeSeconds(cfg, w.now);
    w := ReachableStep(cfg, w, Time(AtLeastZero(cfg.cooldown * 60000 - fraction)));
    w := TeleportAt(cfg, w, delay);
  }

  /** Every such pair whose first teleport has this fraction keeps the whole cooldown and the whole delay. */
  ghost predicate FullySpaced(cfg: Config, fraction: int) {
    forall w: World, i: nat, j: nat, k: nat :: StoredPair(cfg, w, i, j, k) && w.log[i].at % 1000 == fraction ==>
      w.log[k].at - w.log[i].at >= cfg.cooldown * 60000 + cfg.delay * 1000
  }

  /** That is so exactly if there is no fraction, no cooldown to drop it from, or a negative delay to make up for it. */
  lemma FullySpacedIff(cfg: Config, fraction: nat)
    requires fraction < 1000
    ensures FullySpaced(cfg, fraction) <==> fraction == 0 || cfg.cooldown <= 0 || cfg.delay < 0
  {
    if fraction == 0 || cfg.cooldown <= 0 || cfg.delay < 0 {
      forall w: World, i: nat, j: nat, k: nat | StoredPair(cfg, w, i, j, k) && w.log[i].at % 1000 == fraction
        ensures w.log[k].at - w.log[i].at >= cfg.cooldown * 60000 + cfg.delay * 1000
      {
        TeleportsAreSpaced(cfg, w, i, j, k);
      }
    } else {
      var w := SpacingIsTight(cfg, fraction);
      assert StoredPair(cfg, w, 1, 2, 3) && w.log[1].at % 1000 == fraction;
    }
  }

  /** Uids grow from start to start, so a uid names one start. */
  lemma UidsGrow(cfg: Config, w: World, i: nat, j: nat)
    requires Inv(cfg, w) && i < j < |w.log| && w.log[i].Started? && w.log[j].Started?
    ensures w.log[i].uid < w.log[j].uid
  {
    assert EventOk(cfg, w.log[..j], w.log[j]) && w.log[..j][i].Started?;
  }

  lemma UidNamesOneStart(cfg: Config, w: World, i: nat, j: nat)
    requires Inv(cfg, w) && i < |w.log| && j < |w.log| && w.log[i].Started? && w.log[j].Started?
    ensures w.log[i].uid == w.log[j].uid ==> i == j
  {
    if i < j {
      UidsGrow(cfg, w, i, j);
    } else if j < i {
      UidsGrow(cfg, w, j, i);
    }
  }
}
