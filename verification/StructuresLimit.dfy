/**
 The structure limit plugin: counts per team, and per tracked blueprint and team, stand in for a recount of the world,
 and the build hook decides by them.
 */
module StructuresLimit {

  datatype Structure = Structure(team: int, blueprint: string)

  /** MaxAmount, the blueprints under Structures, and the Count of those that have one. */
  datatype Config = Config(maxAmount: int, names: seq<string>, counts: map<string, int>, checkInterval: int)

  const DEFAULT_COUNT: int := 9999

  function Limit(cfg: Config, blueprint: string): int {
    if blueprint in cfg.counts then cfg.counts[blueprint] else DEFAULT_COUNT
  }

  /** structures_count and all_structures. */
  datatype Cache = Cache(count: map<int, int>, all: map<string, map<int, int>>)

  function Get(m: map<int, int>, k: int): int {
    if k in m then m[k] else 0
  }

  /** operator[] of a map: a missing key appears with zero. */
  function Touch(m: map<int, int>, k: int): map<int, int> {
    m[k := Get(m, k)]
  }

  function Bump(m: map<int, int>, k: int): map<int, int> {
    m[k := Get(m, k) + 1]
  }

  function Cleared(cfg: Config): Cache {
    Cache(map[], map name | name in cfg.names :: map[])
  }

  /** One actor of the recount. */
  function CountOne(cache: Cache, s: Structure): Cache {
    if s.team == 0 then cache
    else
      Cache(Bump(cache.count, s.team),
            if s.blueprint in cache.all then cache.all[s.blueprint := Bump(cache.all[s.blueprint], s.team)]
            else cache.all)
  }

  function Recount(cfg: Config, structures: seq<Structure>): Cache {
    if structures == [] then Cleared(cfg)
    else CountOne(Recount(cfg, structures[..|structures| - 1]), structures[|structures| - 1])
  }

  datatype Verdict = Refused | PassedOn

  /** The build hook before it calls the game's own check. */
  function Gate(cfg: Config, cache: Cache, s: Structure, finalPlacement: bool, hasController: bool): (Verdict, Cache) {
    if !(finalPlacement && hasController) then (PassedOn, cache)
    else
      var touched := cache.(count := Touch(cache.count, s.team));
      if Get(cache.count, s.team) >= cfg.maxAmount then (Refused, touched)
      else if s.blueprint in cache.all then
        var counts := cache.all[s.blueprint];
        if Get(counts, s.team) >= Limit(cfg, s.blueprint) then
          (Refused, touched.(all := cache.all[s.blueprint := Touch(counts, s.team)]))
        else
          (PassedOn, Cache(Bump(cache.count, s.team), cache.all[s.blueprint := Bump(counts, s.team)]))
      else (PassedOn, cache.(count := Bump(cache.count, s.team)))
  }

  datatype World = World(structures: seq<Structure>, cache: Cache, now: int, nextTime: int)

  datatype Step =
    | Place(structure: Structure, gameAllows: bool)   // a final placement by a player
    | Destroy(index: nat)                             // a structure leaves the world; the cache is not told
    | InitGame
    | Update                                          // the timer callback
    | Time(ms: nat)

  predicate Enabled(w: World, step: Step) {
    step.Destroy? ==> step.index < |w.structures|
  }

  function Apply(cfg: Config, w: World, step: Step): World
    requires Enabled(w, step)
  {
    match step
    case Place(s, gameAllows) =>
      var (verdict, cache) := Gate(cfg, w.cache, s, true, true);
      w.(cache := cache, structures := if verdict.PassedOn? && gameAllows then w.structures + [s] else w.structures)
    case Destroy(i) => w.(structures := w.structures[..i] + w.structures[i + 1..])
    case InitGame => w.(cache := Recount(cfg, w.structures))
    case Update =>
      if w.now >= w.nextTime then
        w.(nextTime := w.now + cfg.checkInterval * 1000, cache := Recount(cfg, w.structures))
      else w
    case Time(ms) => w.(now := w.now + ms)
  }

  predicate CanRun(cfg: Config, w: World, steps: seq<Step>)
    decreases |steps|
  {
    steps == [] || (Enabled(w, steps[0]) && CanRun(cfg, Apply(cfg, w, steps[0]), steps[1..]))
  }

  function Run(cfg: Config, w: World, steps: seq<Step>): World
    requires CanRun(cfg, w, steps)
    decreases |steps|
  {
    if steps == [] then w else Run(cfg, Apply(cfg, w, steps[0]), steps[1..])
  }

  /** A world as it stands right after the game was initialised, whatever structures it was saved with. */
  function Loaded(cfg: Config, structures: seq<Structure>, now: int): World {
    World(structures, Recount(cfg, structures), now, 0)
  }

  /** The plugin's global maps, updated in place. */
  class Plugin {
    const cfg: Config
    var structuresCount: map<int, int>
    var allStructures: map<string, map<int, int>>
    var nextTime: int

    function View(): Cache
      reads this
    {
      Cache(structuresCount, allStructures)
    }

    constructor (cfg: Config)
      ensures this.cfg == cfg && nextTime == 0 && View() == Cache(map[], map[])
    {
      this.cfg, nextTime := cfg, 0;
      structuresCount, allStructures := map[], map[];
    }

    method UpdateStructuresCount(actors: seq<Structure>)
      modifies this`structuresCount, this`allStructures
      ensures View() == Recount(cfg, actors)
    {
      allStructures, structuresCount := map[], map[];
      for i := 0 to |cfg.names|
        invariant allStructures == map name | name in cfg.names[..i] :: map[]
        invariant structuresCount == map[]
      {
        allStructures := allStructures[cfg.names[i] := map[]];
      }
      assert cfg.names[..|cfg.names|] == cfg.names;
      for i := 0 to |actors|
        invariant View() == Recount(cfg, actors[..i])
      {
        assert actors[..i + 1][..i] == actors[..i];
        var team, pathName := actors[i].team, actors[i].blueprint;
        if team != 0 {
          structuresCount := Bump(structuresCount, team);
          if pathName in allStructures {
            allStructures := allStructures[pathName := Bump(allStructures[pathName], team)];
          }
        }
      }
      assert actors[..|actors|] == actors;
    }

    /** Hook_APrimalStructure_IsAllowedToBuild up to the call of the original. */
    method IsAllowedToBuild(s: Structure, finalPlacement: bool, hasController: bool) returns (verdict: Verdict)
      modifies this`structuresCount, this`allStructures
      ensures (verdict, View()) == Gate(cfg, old(View()), s, finalPlacement, hasController)
    {
      if finalPlacement && hasController {
        structuresCount := Touch(structuresCount, s.team);
        if structuresCount[s.team] >= cfg.maxAmount {
          return Refused;
        }
        if s.blueprint in allStructures {
          allStructures := allStructures[s.blueprint := Touch(allStructures[s.blueprint], s.team)];
          if allStructures[s.blueprint][s.team] >= Limit(cfg, s.blueprint) {
            return Refused;
          }
          assert Bump(allStructures[s.blueprint], s.team) == Bump(old(allStructures)[s.blueprint], s.team);
          allStructures := allStructures[s.blueprint := Bump(allStructures[s.blueprint], s.team)];
        }
        assert allStructures == if s.blueprint in old(allStructures)
          then old(allStructures)[s.blueprint := Bump(old(allStructures)[s.blueprint], s.team)] else old(allStructures);
        structuresCount := Bump(structuresCount, s.team);
        assert structuresCount == Bump(old(structuresCount), s.team);
      }
      return PassedOn;
    }

    /** The timer callback, in a world w showing this cache. */
    method OnTimer(w: World)
      requires w.cache == View() && w.nextTime == nextTime
      modifies this
      ensures View() == Apply(cfg, w, Update).cache && nextTime == Apply(cfg, w, Update).nextTime
    {
      if w.now >= nextTime {
        nextTime := w.now + cfg.checkInterval * 1000;
        UpdateStructuresCount(w.structures);
      }
    }
  }
}
