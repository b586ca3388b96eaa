/**
 Delayed home teleports. Each hook, chat command and timer wake-up is one step. Time is in milliseconds; the stored
 cooldown is in whole seconds, as the source's to_time_t makes it.
 */
module HomeTeleport {
  import opened AliasedRemove

  /** HomeTpDelay in seconds and TpHomeCooldown in minutes. */
  datatype Config = Config(delay: int, cooldown: int)

  datatype Character = Character(alive: bool, locked: bool)

  /** A detached thread sleeping until due, then to run DoTp for its player with its position. */
  datatype Timer = Timer(uid: int, player: nat, due: int, pos: int)

  /** What happened, in order. Checked and stored tell whether the cooldown could be read and written. */
  datatype Event =
    | Started(player: nat, at: int, uid: int, pos: int, checked: bool)
    | Damaged(player: nat, at: int)
    | Died(player: nat, at: int)
    | Teleported(player: nat, at: int, uid: int, pos: int, stored: bool)

  datatype World = World(
    teleporting: seq<nat>,            // teleporting_players
    threads: map<nat, int>,           // Timer::threads
    uid: int,                         // last uid issued
    pending: set<Timer>,
    characters: map<nat, Character>,
    cooldowns: map<nat, int>,         // column TpHomeCooldown, 0 when absent
    now: int,
    log: seq<Event>)

  /** What TpHome reads from elsewhere: command, permissions, points, mounts, homes, database, enemy structures. */
  datatype Request = Request(
    player: nat, named: bool, permitted: bool, enoughPoints: bool, mountAllowed: bool, home: Home,
    cooldownRead: bool, enemyNearPlayer: bool, enemyNearHome: bool)

  datatype Home = Unknown | At(pos: int)

  datatype Outcome =
    | Ignored | Usage | NoPermissions | NoEnoughPoints | CantRideDino | HomeNameNotExists
    | HomeCooldown(timeLeft: int) | CantTpNearEnemy | TeleportStart

  predicate Alive(w: World, player: nat) {
    player in w.characters && w.characters[player].alive
  }

  function Init(now: int): World {
    World([], map[], 0, {}, map[], map[], now, [])
  }

  /** GetTpHomeCooldown: a failed read gives 0. */
  function CooldownOf(w: World, player: nat, read: bool): int {
    if read && player in w.cooldowns then w.cooldowns[player] else 0
  }

  function Refusal(w: World, r: Request): Outcome {
    var cooldown := CooldownOf(w, r.player, r.cooldownRead) * 1000;
    if !Alive(w, r.player) then Ignored
    else if !r.named then Usage
    else if r.player in w.teleporting then Ignored
    else if !r.permitted then NoPermissions
    else if !r.enoughPoints then NoEnoughPoints
    else if !r.mountAllowed then CantRideDino
    else if r.home.Unknown? then HomeNameNotExists
    else if w.now < cooldown then HomeCooldown((cooldown - w.now) / 1000)
    else if r.enemyNearPlayer || r.enemyNearHome then CantTpNearEnemy
    else TeleportStart
  }

  /** TpHome: the timer is registered and started, the player listed, and the character's input disabled. */
  function TpHome(cfg: Config, w: World, r: Request): World {
    if !Refusal(w, r).TeleportStart? then w
    else
      w.(uid := w.uid + 1,
         threads := w.threads[r.player := w.uid + 1],
         pending := w.pending + {Timer(w.uid + 1, r.player, w.now + cfg.delay * 1000, r.home.pos)},
         teleporting := w.teleporting + [r.player],
         characters := w.characters[r.player := Character(true, true)],
         log := w.log + [Started(r.player, w.now, w.uid + 1, r.home.pos, r.cooldownRead)])
  }

  /** The seconds column written after a teleport. */
  function CooldownEnd(cfg: Config, at: int): int {
    (at + cfg.cooldown * 60000) / 1000
  }

  function DoTp(cfg: Config, w: World, t: Timer, stored: bool): World {
    if !Alive(w, t.player) || t.player !in w.teleporting then w
    else
      w.(teleporting := Erase(w.teleporting, t.player),
         characters := w.characters[t.player := Character(true, false)],
         cooldowns := if stored then w.cooldowns[t.player := CooldownEnd(cfg, w.now)] else w.cooldowns,
         log := w.log + [Teleported(t.player, w.now, t.uid, t.pos, stored)])
  }

  /** The timer thread wakes up, and acts only if its uid is the one registered for the player. */
  function Wake(cfg: Config, w: World, t: Timer, stored: bool): World {
    var woken := w.(pending := w.pending - {t});
    if t.player in w.threads && w.threads[t.player] == t.uid then
      DoTp(cfg, woken.(threads := w.threads - {t.player}), t, stored)
    else woken
  }

  /** Hook_APrimalCharacter_TakeDamage on a player's character. */
  function TakeDamage(w: World, player: nat): World
    requires player in w.characters
  {
    var hit := w.(log := w.log + [Damaged(player, w.now)]);
    if player !in w.teleporting then hit
    else
      hit.(teleporting := Erase(w.teleporting, player),
           threads := w.threads - {player},
           characters := w.characters[player := w.characters[player].(locked := false)])
  }

  /** Hook_AShooterCharacter_Die, then the death itself. The entry in threads stays. */
  function Die(w: World, player: nat): World
    requires player in w.characters
  {
    w.(teleporting := Erase(w.teleporting, player),
       characters := w.characters[player := w.characters[player].(alive := false)],
       log := w.log + [Died(player, w.now)])
  }

  /** The player gets a fresh character. */
  function Respawn(w: World, player: nat): World {
    w.(characters := w.characters[player := Character(true, false)])
  }

  function Tick(w: World, ms: nat): World {
    w.(now := w.now + ms)
  }

  datatype Step =
    | HomeCommand(request: Request)
    | WakeUp(timer: Timer, stored: bool)
    | Damage(player: nat)
    | Death(player: nat)
    | Spawn(player: nat)
    | Time(ms: nat)

  predicate Enabled(w: World, step: Step) {
    match step
    case HomeCommand(_) => true
    case WakeUp(t, _) => t in w.pending && t.due <= w.now
    case Damage(p) => p in w.characters
    case Death(p) => Alive(w, p)
    case Spawn(p) => !Alive(w, p)
    case Time(_) => true
  }

  function Apply(cfg: Config, w: World, step: Step): World
    requires Enabled(w, step)
  {
    match step
    case HomeCommand(r) => TpHome(cfg, w, r)
    case WakeUp(t, stored) => Wake(cfg, w, t, stored)
    case Damage(p) => TakeDamage(w, p)
    case Death(p) => Die(w, p)
    case Spawn(p) => Respawn(w, p)
    case Time(ms) => Tick(w, ms)
  }

  predicate CanRun(cfg: Config, w: World, steps: seq<Step>)
    decreases |steps|
  {
    steps == [] || (Enabled(w, steps[0]) && CanRun(cfg, Apply(cfg, w, steps[0]), steps[1..]))
  }

  function Run(cfg: Config, w: World, steps: seq<Step>): World
    requires CanRun(cfg, w, steps)
    decreases |steps|
  {
    if steps == [] then w else Run(cfg, Apply(cfg, w, steps[0]), steps[1..])
  }

  ghost predicate Reachable(cfg: Config, w: World) {
    exists now: int, steps: seq<Step> :: CanRun(cfg, Init(now), steps) && Run(cfg, Init(now), steps) == w
  }
}
