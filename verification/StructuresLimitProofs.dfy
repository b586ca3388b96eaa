/** The cached counts bound the real ones from above between recounts, so the limits hold in every run. */
module StructuresLimitProofs {
  import opened Common
  import opened StructuresLimit

  /** How many structures a team really has. */
  ghost function Owned(structures: seq<Structure>, team: int): nat {
    if structures == [] then 0
    else Owned(structures[..|structures| - 1], team) + if structures[|structures| - 1].team == team then 1 else 0
  }

  /** How many of one blueprint. */
  ghost function OwnedOf(structures: seq<Structure>, team: int, blueprint: string): nat {
    if structures == [] then 0
    else OwnedOf(structures[..|structures| - 1], team, blueprint) +
         if structures[|structures| - 1] == Structure(team, blueprint) then 1 else 0
  }

  lemma OwnedAppend(structures: seq<Structure>, s: Structure, team: int, blueprint: string)
    ensures Owned(structures + [s], team) == Owned(structures, team) + if s.team == team then 1 else 0
    ensures OwnedOf(structures + [s], team, blueprint) ==
      OwnedOf(structures, team, blueprint) + if s == Structure(team, blueprint) then 1 else 0
  {
    assert (structures + [s])[..|structures|] == structures;
  }

  lemma {:induction false} OwnedRemove(structures: seq<Structure>, i: nat, team: int, blueprint: string)
    requires i < |structures|
    ensures Owned(structures[..i] + structures[i + 1..], team) ==
      Owned(structures, team) - if structures[i].team == team then 1 else 0
    ensures OwnedOf(structures[..i] + structures[i + 1..], team, blueprint) ==
      OwnedOf(structures, team, blueprint) - if structures[i] == Structure(team, blueprint) then 1 else 0
    decreases |structures|
  {
    var last := |structures| - 1;
    var front, removed := structures[..last], structures[..i] + structures[i + 1..];
    if i == last {
      assert removed == front;
    } else {
      OwnedRemove(front, i, team, blueprint);
      assert removed == (front[..i] + front[i + 1..]) + [structures[last]];
      OwnedAppend(front[..i] + front[i + 1..], structures[last], team, blueprint);
    }
  }

  function CachedOf(cache: Cache, team: int, blueprint: string): int {
    if blueprint in cache.all then Get(cache.all[blueprint], team) else 0
  }

  /** A recount is exact for every team but team zero, which it skips, and knows the configured blueprints. */
  lemma {:induction false} RecountIsExact(cfg: Config, structures: seq<Structure>, team: int, blueprint: string)
    ensures Get(Recount(cfg, structures).count, team) == if team == 0 then 0 else Owned(structures, team)
    ensures blueprint in Recount(cfg, structures).all <==> blueprint in cfg.names
    ensures CachedOf(Recount(cfg, structures), team, blueprint) ==
      if team == 0 || blueprint !in cfg.names then 0 else OwnedOf(structures, team, blueprint)
  {
    if structures == [] {
    } else {
      var last := |structures| - 1;
      RecountIsExact(cfg, structures[..last], team, blueprint);
      RecountIsExact(cfg, structures[..last], team, structures[last].blueprint);
    }
  }

  /** The tracked counts of a team, summed over some blueprints. */
  ghost function Tracked(cache: Cache, names: seq<string>, team: int): int {
    if names == [] then 0 else CachedOf(cache, team, names[0]) + Tracked(cache, names[1..], team)
  }

  /** If one blueprint's count grows by d, so does the sum, when the blueprint is among those summed. */
  lemma {:induction false} TrackedBump(cache: Cache, cache': Cache, names: seq<string>, team: int,
        blueprint: string, d: int)
    requires Distinct(names)
    requires forall n: string :: CachedOf(cache', team, n) == CachedOf(cache, team, n) + if n == blueprint then d else 0
    ensures Tracked(cache', names, team) == Tracked(cache, names, team) + if blueprint in names then d else 0
  {
    if names == [] {
    } else {
      TrackedBump(cache, cache', names[1..], team, blueprint, d);
    }
  }

  /** The cache knows the configured blueprints, and its tracked counts never add up to more than the total. */
  ghost predicate CacheOk(cfg: Config, cache: Cache) {
    && (forall n: string :: n in cache.all <==> n in cfg.names)
    && (forall names: seq<string>, team: int :: Distinct(names) ==>
          Tracked(cache, names, team) <= Get(cache.count, team))
  }

  lemma CountOneKeepsCacheOk(cfg: Config, cache: Cache, s: Structure)
    requires CacheOk(cfg, cache)
    ensures CacheOk(cfg, CountOne(cache, s))
  {
    var cache' := CountOne(cache, s);
    forall names: seq<string>, team: int | Distinct(names)
      ensures Tracked(cache', names, team) <= Get(cache'.count, team)
    {
      var d := if s.team == team && team != 0 && s.blueprint in cache.all then 1 else 0;
      TrackedBump(cache, cache', names, team, s.blueprint, d);
    }
  }

  lemma {:induction false} NothingTracked(cfg: Config, names: seq<string>, team: int)
    ensures Tracked(Cleared(cfg), names, team) == 0
  {
    if names == [] {
    } else {
      NothingTracked(cfg, names[1..], team);
    }
  }

  lemma {:induction false} RecountCacheOk(cfg: Config, structures: seq<Structure>)
    ensures CacheOk(cfg, Recount(cfg, structures))
  {
    if structures == [] {
      forall names: seq<string>, team: int ensures Tracked(Cleared(cfg), names, team) == 0 {
        NothingTracked(cfg, names, team);
      }
    } else {
      RecountCacheOk(cfg, structures[..|structures| - 1]);
      CountOneKeepsCacheOk(cfg, Recount(cfg, structures[..|structures| - 1]), structures[|structures| - 1]);
    }
  }

  /** What the hook does to the counts that are compared and shown. */
  lemma GateEffect(cfg: Config, cache: Cache, s: Structure, team: int, blueprint: string)
    ensures var (verdict, cache') := Gate(cfg, cache, s, true, true);
      && Get(cache'.count, team) == Get(cache.count, team) + (if verdict.PassedOn? && s.team == team then 1 else 0)
      && (blueprint in cache'.all <==> blueprint in cache.all)
      && CachedOf(cache', team, blueprint) == CachedOf(cache, team, blueprint) +
           (if verdict.PassedOn? && s == Structure(team, blueprint) && blueprint in cache.all then 1 else 0)
      && (verdict.PassedOn? <==>
           Get(cache.count, s.team) < cfg.maxAmount &&
           (s.blueprint in cache.all ==>
              CachedOf(cache, s.team, s.blueprint) <
              if s.blueprint in cfg.counts then cfg.counts[s.blueprint] else 9999))
  {
  }

  /** A blueprint whose configured Count is reached is refused; so is any at 9999 where none is configured. */
  lemma CountIsRespected(cfg: Config, cache: Cache, s: Structure)
    requires s.blueprint in cache.all
    requires CachedOf(cache, s.team, s.blueprint) >= if s.blueprint in cfg.counts then cfg.counts[s.blueprint] else 9999
    ensures Gate(cfg, cache, s, true, true).0.Refused?
  {
    GateEffect(cfg, cache, s, s.team, s.blueprint);
  }

  /** A placement that is not final, or is nobody's, is passed on and counts nothing. */
  lemma OnlyFinalPlacementsCount(cfg: Config, cache: Cache, s: Structure, finalPlacement: bool, hasController: bool)
    requires !finalPlacement || !hasController
    ensures Gate(cfg, cache, s, finalPlacement, hasController) == (PassedOn, cache)
  {
  }

  /**
   What each step does to the world: a structure stands if the hook passes its placement on and the game allows it, only
   one that leaves goes, and the timer recounts exactly when CheckInterval seconds have passed since it last did.
   */
  lemma StepEffect(cfg: Config, w: World, step: Step, team: int, blueprint: string)
    requires Enabled(w, step)
    ensures var w' := Apply(cfg, w, step);
      && Owned(w'.structures, team) == Owned(w.structures, team)
           + (if step.Place? && step.structure.team == team && step.gameAllows
                 && Gate(cfg, w.cache, step.structure, true, true).0.PassedOn? then 1 else 0)
           - (if step.Destroy? && w.structures[step.index].team == team then 1 else 0)
      && OwnedOf(w'.structures, team, blueprint) == OwnedOf(w.structures, team, blueprint)
           + (if step.Place? && step.structure == Structure(team, blueprint) && step.gameAllows
                 && Gate(cfg, w.cache, step.structure, true, true).0.PassedOn? then 1 else 0)
           - (if step.Destroy? && w.structures[step.index] == Structure(team, blueprint) then 1 else 0)
      && (step.InitGame? || (step.Update? && w.now >= w.nextTime) ==> w'.cache == Recount(cfg, w.structures))
      && (step.Update? && w.now < w.nextTime ==> w' == w)
      && w'.nextTime == (if step.Update? && w.now >= w.nextTime then w.now + cfg.checkInterval * 1000 else w.nextTime)
  {
    if step.Place? {
      OwnedAppend(w.structures, step.structure, team, blueprint);
    } else if step.Destroy? {
      OwnedRemove(w.structures, step.index, team, blueprint);
    }
  }

  lemma GateKeepsCacheOk(cfg: Config, cache: Cache, s: Structure)
    requires CacheOk(cfg, cache)
    ensures CacheOk(cfg, Gate(cfg, cache, s, true, true).1)
  {
    var (verdict, cache') := Gate(cfg, cache, s, true, true);
    forall n: string ensures n in cache'.all <==> n in cfg.names {
      GateEffect(cfg, cache, s, 0, n);
    }
    forall names: seq<string>, team: int | Distinct(names)
      ensures Tracked(cache', names, team) <= Get(cache'.count, team)
    {
      forall n: string
        ensures CachedOf(cache', team, n) == CachedOf(cache, team, n) +
          if n == s.blueprint && verdict.PassedOn? && s.team == team && n in cache.all then 1 else 0
      {
        GateEffect(cfg, cache, s, team, n);
      }
      var d := if verdict.PassedOn? && s.team == team && s.blueprint in cache.all then 1 else 0;
      TrackedBump(cache, cache', names, team, s.blueprint, d);
      GateEffect(cfg, cache, s, team, s.blueprint);
    }
  }

  /** The cache bounds what team really owns. */
  ghost predicate Bounds(cfg: Config, w: World, team: int) {
    && Owned(w.structures, team) <= Get(w.cache.count, team)
    && forall b: string :: b in cfg.names ==> OwnedOf(w.structures, team, b) <= CachedOf(w.cache, team, b)
  }

  ghost predicate Within(cfg: Config, w: World, team: int) {
    && Owned(w.structures, team) <= cfg.maxAmount
    && forall b: string :: b in cfg.names ==>
         OwnedOf(w.structures, team, b) <= if b in cfg.counts then cfg.counts[b] else 9999
  }

  lemma RecountBounds(cfg: Config, w: World, team: int)
    requires team != 0 && w.cache == Recount(cfg, w.structures)
    ensures Bounds(cfg, w, team)
  {
    RecountIsExact(cfg, w.structures, team, "");
    forall b: string | b in cfg.names ensures OwnedOf(w.structures, team, b) <= CachedOf(w.cache, team, b) {
      RecountIsExact(cfg, w.structures, team, b);
    }
  }

  lemma StepKeepsBounds(cfg: Config, w: World, step: Step, team: int)
    requires team != 0 && CacheOk(cfg, w.cache) && Bounds(cfg, w, team) && Enabled(w, step)
    ensures Bounds(cfg, Apply(cfg, w, step), team)
    ensures Within(cfg, w, team) ==> Within(cfg, Apply(cfg, w, step), team)
  {
    var w' := Apply(cfg, w, step);
    match step {
      case Place(s, gameAllows) =>
        GateEffect(cfg, w.cache, s, team, s.blueprint);
        OwnedAppend(w.structures, s, team, s.blueprint);
        forall b: string | b in cfg.names
          ensures OwnedOf(w'.structures, team, b) <= CachedOf(w'.cache, team, b)
          ensures Within(cfg, w, team) ==>
            OwnedOf(w'.structures, team, b) <= if b in cfg.counts then cfg.counts[b] else 9999
        {
          GateEffect(cfg, w.cache, s, team, b);
          OwnedAppend(w.structures, s, team, b);
        }
      case Destroy(i) =>
        OwnedRemove(w.structures, i, team, "");
        forall b: string ensures OwnedOf(w'.structures, team, b) <= OwnedOf(w.structures, team, b) {
          OwnedRemove(w.structures, i, team, b);
        }
      case InitGame => RecountBounds(cfg, w', team);
      case Update =>
        if w.now >= w.nextTime {
          RecountBounds(cfg, w', team);
        }
      case Time(_) =>
    }
  }

  lemma StepKeepsCacheOk(cfg: Config, w: World, step: Step)
    requires CacheOk(cfg, w.cache) && Enabled(w, step)
    ensures CacheOk(cfg, Apply(cfg, w, step).cache)
  {
    RecountCacheOk(cfg, w.structures);
    if step.Place? {
      GateKeepsCacheOk(cfg, w.cache, step.structure);
    }
  }

  lemma {:induction false} RunKeeps(cfg: Config, w: World, steps: seq<Step>, team: int)
    requires CacheOk(cfg, w.cache) && CanRun(cfg, w, steps)
    ensures CacheOk(cfg, Run(cfg, w, steps).cache)
    ensures team != 0 && Bounds(cfg, w, team) ==> Bounds(cfg, Run(cfg, w, steps), team)
    ensures team != 0 && Bounds(cfg, w, team) && Within(cfg, w, team) ==> Within(cfg, Run(cfg, w, steps), team)
    decreases |steps|
  {
    if steps == [] {
    } else {
      StepKeepsCacheOk(cfg, w, steps[0]);
      if team != 0 && Bounds(cfg, w, team) {
        StepKeepsBounds(cfg, w, steps[0], team);
      }
      RunKeeps(cfg, Apply(cfg, w, steps[0]), steps[1..], team);
    }
  }

  /**
   In every run after loading, for every team but zero: the cached counts are never below the real ones, in total and
   for every tracked blueprint; and limits met at the start are never passed.
   */
  lemma CacheNeverBelowReality(cfg: Config, structures: seq<Structure>, now: int, steps: seq<Step>, team: int)
    requires team != 0 && CanRun(cfg, Loaded(cfg, structures, now), steps)
    ensures var w := Run(cfg, Loaded(cfg, structures, now), steps);
      && Owned(w.structures, team) <= Get(w.cache.count, team)
      && (forall b: string :: b in cfg.names ==> OwnedOf(w.structures, team, b) <= CachedOf(w.cache, team, b))
      && (Within(cfg, Loaded(cfg, structures, now), team) ==> Within(cfg, w, team))
  {
    RecountCacheOk(cfg, structures);
    RecountBounds(cfg, Loaded(cfg, structures, now), team);
    RunKeeps(cfg, Loaded(cfg, structures, now), steps, team);
  }

  /** Over every run a team that has no more of a tracked blueprint than its configured Count never gets more. */
  lemma CountHoldsOverRuns(cfg: Config, structures: seq<Structure>, now: int, steps: seq<Step>, team: int, b: string)
    requires team != 0 && CanRun(cfg, Loaded(cfg, structures, now), steps) && b in cfg.names
    requires OwnedOf(structures, team, b) <= if b in cfg.counts then cfg.counts[b] else 9999
    ensures OwnedOf(Run(cfg, Loaded(cfg, structures, now), steps).structures, team, b) <=
      if b in cfg.counts then cfg.counts[b] else 9999
  {
    RecountCacheOk(cfg, structures);
    RecountBounds(cfg, Loaded(cfg, structures, now), team);
    CountHolds(cfg, Loaded(cfg, structures, now), steps, team, b);
  }

  lemma {:induction false} CountHolds(cfg: Config, w: World, steps: seq<Step>, team: int, b: string)
    requires team != 0 && CacheOk(cfg, w.cache) && Bounds(cfg, w, team) && CanRun(cfg, w, steps) && b in cfg.names
    requires OwnedOf(w.structures, team, b) <= if b in cfg.counts then cfg.counts[b] else 9999
    ensures OwnedOf(Run(cfg, w, steps).structures, team, b) <= if b in cfg.counts then cfg.counts[b] else 9999
    decreases |steps|
  {
    if steps == [] {
    } else {
      StepKeepsCacheOk(cfg, w, steps[0]);
      StepKeepsBounds(cfg, w, steps[0], team);
      StepEffect(cfg, w, steps[0], team, b);
      if steps[0].Place? {
        GateEffect(cfg, w.cache, steps[0].structure, team, b);
      }
      CountHolds(cfg, Apply(cfg, w, steps[0]), steps[1..], team, b);
    }
  }

  /** In every run, a team's cached counts of any distinct blueprints add up to at most its cached total. */
  lemma TrackedNeverAboveTotal(cfg: Config, structures: seq<Structure>, now: int, steps: seq<Step>,
        names: seq<string>, team: int)
    requires CanRun(cfg, Loaded(cfg, structures, now), steps) && Distinct(names)
    ensures var cache := Run(cfg, Loaded(cfg, structures, now), steps).cache;
      Tracked(cache, names, team) <= Get(cache.count, team)
  {
    RecountCacheOk(cfg, structures);
    RunKeeps(cfg, Loaded(cfg, structures, now), steps, team);
  }

  /** A blueprint that is not configured. */
  lemma UntrackedBlueprint(names: seq<string>) returns (blueprint: string)
    ensures blueprint !in names
  {
    blueprint := LongerThanAll(names);
    assert blueprint in names ==> |blueprint| < |blueprint|;
  }

  lemma {:induction false} LongerThanAll(names: seq<string>) returns (long: string)
    ensures forall n :: n in names ==> |n| < |long|
  {
    if names == [] {
      long := "x";
    } else {
      var rest := LongerThanAll(names[1..]);
      long := rest + names[0] + "x";
      assert forall n :: n in names ==> n == names[0] || n in names[1..];
    }
  }

  /** One placement for team zero, and the timer's next recount, which does not see it. */
  lemma PlaceForTeamZero(cfg: Config, w: World, blueprint: string)
    requires cfg.maxAmount > 0 && blueprint !in cfg.names
    requires Get(w.cache.count, 0) == 0 && blueprint !in w.cache.all
    ensures var placed := Apply(cfg, w, Place(Structure(0, blueprint), true));
      var counted := Apply(cfg, Apply(cfg, placed, Time(AtLeastZero(w.nextTime - w.now))), Update);
      && Owned(counted.structures, 0) == Owned(w.structures, 0) + 1
      && Get(counted.cache.count, 0) == 0 && blueprint !in counted.cache.all
  {
    var s := Structure(0, blueprint);
    var placed := Apply(cfg, w, Place(s, true));
    assert placed.structures == w.structures + [s];
    OwnedAppend(w.structures, s, 0, blueprint);
    RecountIsExact(cfg, placed.structures, 0, blueprint);
  }

  /** The recount skips team zero, so placing and recounting in turn takes it past any limit. */
  lemma {:induction false} TeamZeroGrows(cfg: Config, structures: seq<Structure>, now: int, blueprint: string, n: nat)
    returns (steps: seq<Step>)
    requires cfg.maxAmount > 0 && blueprint !in cfg.names
    ensures CanRun(cfg, Loaded(cfg, structures, now), steps)
    ensures var w := Run(cfg, Loaded(cfg, structures, now), steps);
      Owned(w.structures, 0) == Owned(structures, 0) + n && Get(w.cache.count, 0) == 0 && blueprint !in w.cache.all
  {
    var loaded := Loaded(cfg, structures, now);
    RecountIsExact(cfg, structures, 0, blueprint);
    steps := [];
    if n == 0 {
    } else {
      steps := TeamZeroGrows(cfg, structures, now, blueprint, n - 1);
      var w := Run(cfg, loaded, steps);
      PlaceForTeamZero(cfg, w, blueprint);
      RunOneMore(cfg, loaded, steps, Place(Structure(0, blueprint), true));
      steps := steps + [Place(Structure(0, blueprint), true)];
      RunOneMore(cfg, loaded, steps, Time(AtLeastZero(w.nextTime - w.now)));
      steps := steps + [Time(AtLeastZero(w.nextTime - w.now))];
      RunOneMore(cfg, loaded, steps, Update);
      steps := steps + [Update];
    }
  }

  /** With MaxAmount zero or less nothing is ever built. */
  lemma {:induction false} NothingBuilt(cfg: Config, w: World, steps: seq<Step>, team: int)
    requires cfg.maxAmount <= 0 && CacheOk(cfg, w.cache) && CanRun(cfg, w, steps)
    ensures Owned(Run(cfg, w, steps).structures, team) <= Owned(w.structures, team)
    decreases |steps|
  {
    if steps == [] {
    } else {
      if steps[0].Place? {
        assert Distinct<string>([]) && Tracked(w.cache, [], steps[0].structure.team) == 0;
        GateEffect(cfg, w.cache, steps[0].structure, team, "");
      } else if steps[0].Destroy? {
        OwnedRemove(w.structures, steps[0].index, team, "");
      }
      StepKeepsCacheOk(cfg, w, steps[0]);
      NothingBuilt(cfg, Apply(cfg, w, steps[0]), steps[1..], team);
    }
  }

  /** Some run takes team zero, from any structures and under any configuration, n structures past what it has. */
  ghost predicate TeamZeroCanGain(cfg: Config, structures: seq<Structure>, now: int, n: nat) {
    exists steps: seq<Step> :: CanRun(cfg, Loaded(cfg, structures, now), steps) &&
      Owned(Run(cfg, Loaded(cfg, structures, now), steps).structures, 0) == Owned(structures, 0) + n
  }

  /** Team zero can be taken past any number of structures exactly when it may build at all. */
  lemma TeamZeroHasNoLimit(cfg: Config, structures: seq<Structure>, now: int)
    ensures (forall n: nat :: TeamZeroCanGain(cfg, structures, now, n)) <==> cfg.maxAmount > 0
  {
    if cfg.maxAmount > 0 {
      var blueprint := UntrackedBlueprint(cfg.names);
      forall n: nat ensures TeamZeroCanGain(cfg, structures, now, n) {
        var steps := TeamZeroGrows(cfg, structures, now, blueprint, n);
      }
    } else {
      RecountCacheOk(cfg, structures);
      forall steps: seq<Step> | CanRun(cfg, Loaded(cfg, structures, now), steps)
        ensures Owned(Run(cfg, Loaded(cfg, structures, now), steps).structures, 0) <= Owned(structures, 0)
      {
        NothingBuilt(cfg, Loaded(cfg, structures, now), steps, 0);
      }
      assert !TeamZeroCanGain(cfg, structures, now, 1);
    }
  }

  lemma {:induction false} RunOneMore(cfg: Config, w: World, steps: seq<Step>, step: Step)
    requires CanRun(cfg, w, steps) && Enabled(Run(cfg, w, steps), step)
    ensures CanRun(cfg, w, steps + [step]) && Run(cfg, w, steps + [step]) == Apply(cfg, Run(cfg, w, steps), step)
    decreases |steps|
  {
    var more := steps + [step];
    if steps == [] {
      assert more[1..] == [];
    } else {
      assert more[0] == steps[0] && more[1..] == steps[1..] + [step];
      RunOneMore(cfg, Apply(cfg, w, steps[0]), steps[1..], step);
    }
  }
}
