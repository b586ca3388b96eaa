/** The home plugin's global state, updated in place by its commands and hooks. */
module HomeServer {
  import opened AliasedRemove
  import opened HomeTeleport

  class Server {
    const cfg: Config
    var teleportingPlayers: seq<nat>
    var threads: map<nat, int>
    var uid: int
    var pending: set<Timer>
    var characters: map<nat, Character>
    var cooldowns: map<nat, int>
    var now: int
    ghost var log: seq<Event>

    ghost function View(): World
      reads this
    {
      World(teleportingPlayers, threads, uid, pending, characters, cooldowns, now, log)
    }

    constructor (cfg: Config, now: int)
      ensures View() == Init(now) && this.cfg == cfg
    {
      this.cfg, this.now := cfg, now;
      teleportingPlayers, threads, uid, pending := [], map[], 0, {};
      characters, cooldowns, log := map[], map[], [];
    }

    predicate IsPlayerDead(player: nat)
      reads this
    {
      player !in characters || !characters[player].alive
    }

    method DisableInput(player: nat, state: bool)
      requires player in characters
      modifies this`characters
      ensures characters == old(characters)[player := old(characters)[player].(locked := state)]
    {
      characters := characters[player := characters[player].(locked := state)];
    }

    /** The chat command. */
    method TpHome(r: Request) returns (outcome: Outcome)
      modifies this
      ensures outcome == Refusal(old(View()), r)
      ensures View() == HomeTeleport.TpHome(cfg, old(View()), r)
    {
      if IsPlayerDead(r.player) {
        return Ignored;
      }
      if !r.named {
        return Usage;
      }
      var iter := Find(teleportingPlayers, r.player);
      if iter != |teleportingPlayers| {
        return Ignored;
      }
      if !r.permitted {
        return NoPermissions;
      }
      if !r.enoughPoints {
        return NoEnoughPoints;
      }
      if !r.mountAllowed {
        return CantRideDino;
      }
      if r.home.Unknown? {
        return HomeNameNotExists;
      }
      var cooldown := 0;
      if r.cooldownRead && r.player in cooldowns {
        cooldown := cooldowns[r.player] * 1000;
      }
      if now < cooldown {
        return HomeCooldown((cooldown - now) / 1000);
      }
      if r.enemyNearPlayer {
        return CantTpNearEnemy;
      }
      if r.enemyNearHome {
        return CantTpNearEnemy;
      }
      StartTimer(cfg.delay * 1000, r.player, r.home.pos);
      teleportingPlayers := teleportingPlayers + [r.player];
      DisableInput(r.player, true);
      log := log + [Started(r.player, now, uid, r.home.pos, r.cooldownRead)];
      return TeleportStart;
    }

    /** Helper::Timer's constructor, asynchronous: a new uid is registered and a thread sleeps. */
    method StartTimer(after: int, player: nat, pos: int)
      modifies this`uid, this`threads, this`pending
      ensures uid == old(uid) + 1 && threads == old(threads)[player := uid]
      ensures pending == old(pending) + {Timer(uid, player, now + after, pos)}
    {
      uid := uid + 1;
      threads := threads[player := uid];
      pending := pending + {Timer(uid, player, now + after, pos)};
    }

    /** What the timer's thread does when its sleep is over. */
    method TimerWake(t: Timer, stored: bool)
      requires t in pending && t.due <= now
      modifies this
      ensures View() == Wake(cfg, old(View()), t, stored)
    {
      pending := pending - {t};
      if t.player in threads && threads[t.player] == t.uid {
        threads := threads - {t.player};
        DoTp(t, stored);
      }
    }

    method DoTp(t: Timer, stored: bool)
      modifies this
      ensures View() == HomeTeleport.DoTp(cfg, old(View()), t, stored)
    {
      if IsPlayerDead(t.player) {
        return;
      }
      var iter := Find(teleportingPlayers, t.player);
      if iter == |teleportingPlayers| {
        return;
      }
      teleportingPlayers := EraseRemove(teleportingPlayers, t.player);
      DisableInput(t.player, false);
      if stored {
        cooldowns := cooldowns[t.player := (now + cfg.cooldown * 60000) / 1000];
      }
      log := log + [Teleported(t.player, now, t.uid, t.pos, stored)];
    }

    /** Hook_AShooterCharacter_Die. */
    method OnDie(player: nat)
      requires player in characters
      modifies this
      ensures View() == Die(old(View()), player)
    {
      var iter := Find(teleportingPlayers, player);
      if iter != |teleportingPlayers| {
        teleportingPlayers := EraseRemove(teleportingPlayers, player);
      }
      characters := characters[player := characters[player].(alive := false)];
      log := log + [Died(player, now)];
    }

    /** Hook_APrimalCharacter_TakeDamage. */
    method OnTakeDamage(player: nat)
      requires player in characters
      modifies this
      ensures View() == TakeDamage(old(View()), player)
    {
      var iter := Find(teleportingPlayers, player);
      if iter != |teleportingPlayers| {
        teleportingPlayers := EraseRemove(teleportingPlayers, player);
        threads := threads - {player};
        DisableInput(player, false);
      }
      log := log + [Damaged(player, now)];
    }
  }
}
