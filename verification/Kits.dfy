/**
 Kit counts. A player's record holds the counts that were ever written; any other configured kit counts its default.
 Records of players without a row read as empty, and a write to them succeeds and changes nothing.
 */
module Kits {
  import opened Common

  /** The configured kits, in order, with their default amounts. */
  datatype Config = Config(names: seq<string>, defaults: map<string, int>) {
    ghost predicate Valid() {
      forall kit: string :: kit in names <==> kit in defaults
    }
  }

  type Record = map<string, int>

  type Rows = map<nat, Record>

  function RecordOf(rows: Rows, steamId: nat): Record {
    if steamId in rows then rows[steamId] else map[]
  }

  function Save(rows: Rows, steamId: nat, record: Record, stored: bool): Rows {
    if stored && steamId in rows then rows[steamId := record] else rows
  }

  function GetKitAmount(cfg: Config, rows: Rows, steamId: nat, kit: string): int {
    if kit in RecordOf(rows, steamId) then RecordOf(rows, steamId)[kit]
    else if kit in cfg.defaults then cfg.defaults[kit]
    else 0
  }

  function ChangeKitAmount(cfg: Config, rows: Rows, kit: string, amount: int, steamId: nat, stored: bool)
    : (bool, Rows)
  {
    var record := RecordOf(rows, steamId);
    if amount == 0 then (true, rows)
    else if kit !in record && kit !in cfg.defaults then (false, rows)
    else
      var current := if kit in record then record[kit] else cfg.defaults[kit];
      (stored, Save(rows, steamId, record[kit := AtLeastZero(current + amount)], stored))
  }

  /** Writes every configured kit's count into the record. */
  function InitKitData(cfg: Config, rows: Rows, steamId: nat, stored: bool): Rows {
    Save(rows, steamId, Filled(cfg, RecordOf(rows, steamId), cfg.names), stored)
  }

  function Filled(cfg: Config, record: Record, names: seq<string>): Record {
    if names == [] then record
    else
      var kit, before := names[|names| - 1], Filled(cfg, record, names[..|names| - 1]);
      if kit in before then before[kit := AtLeastZero(before[kit])]
      else if kit in cfg.defaults then before[kit := AtLeastZero(cfg.defaults[kit])]
      else before
  }

  /** RedeemKit; eligible gathers the checks on the character, the permissions and the kit's own conditions. */
  function RedeemKit(cfg: Config, rows: Rows, steamId: nat, kit: string, eligible: bool, stored: bool): (bool, Rows) {
    if steamId in rows && eligible && kit in cfg.defaults && GetKitAmount(cfg, rows, steamId, kit) > 0 then
      ChangeKitAmount(cfg, rows, kit, -1, steamId, stored)
    else (false, rows)
  }

  datatype Step =
    | Redeem(steamId: nat, kit: string, eligible: bool, stored: bool)
    | Change(steamId: nat, kit: string, amount: int, stored: bool)   // a kit purchase, or a change command
    | InitData(steamId: nat, stored: bool)
    | NewPlayer(steamId: nat)

  /** Whether the step succeeded, and the rows it leaves. */
  function Apply(cfg: Config, rows: Rows, step: Step): (bool, Rows) {
    match step
    case Redeem(p, kit, eligible, stored) => RedeemKit(cfg, rows, p, kit, eligible, stored)
    case Change(p, kit, amount, stored) =>
      if p in rows then ChangeKitAmount(cfg, rows, kit, amount, p, stored) else (false, rows)
    case InitData(p, stored) => (true, InitKitData(cfg, rows, p, stored))
    case NewPlayer(p) => if p in rows then (false, rows) else (true, rows[p := map[]])
  }

  function Run(cfg: Config, rows: Rows, steps: seq<Step>): Rows
    decreases |steps|
  {
    if steps == [] then rows else Run(cfg, Apply(cfg, rows, steps[0]).1, steps[1..])
  }

  // ----- single operations

  /** What a count is: the one last written for the player, else the kit's default, else none. */
  lemma CountsAreWritten(cfg: Config, rows: Rows, steamId: nat, kit: string, record: Record, stored: bool)
    ensures steamId !in rows || kit !in rows[steamId] ==>
      GetKitAmount(cfg, rows, steamId, kit) == if kit in cfg.defaults then cfg.defaults[kit] else 0
    ensures stored && steamId in rows && kit in record ==>
      GetKitAmount(cfg, Save(rows, steamId, record, stored), steamId, kit) == record[kit]
    ensures !stored || steamId !in rows ==> Save(rows, steamId, record, stored) == rows
  {
  }

  /**
   A change succeeds exactly if there is nothing to change, or the kit is known and the record is stored. Then the count
   is max(0, before + amount), unless nothing was written: a change by zero leaves a negative default as it is, and a
   player without a row keeps the count. No other count changes, and none at all if the change fails.
   */
  lemma ChangeIsExact(cfg: Config, rows: Rows, kit: string, amount: int, steamId: nat, stored: bool)
    ensures var (ok, after) := ChangeKitAmount(cfg, rows, kit, amount, steamId, stored);
      var before := GetKitAmount(cfg, rows, steamId, kit);
      && (ok <==> amount == 0 || (stored && (kit in cfg.defaults || (steamId in rows && kit in rows[steamId]))))
      && (ok ==>
            (GetKitAmount(cfg, after, steamId, kit) == AtLeastZero(before + amount) <==>
               if amount == 0 then before >= 0 else steamId in rows || (before == 0 && amount < 0)))
      && (!ok ==> GetKitAmount(cfg, after, steamId, kit) == before)
      && forall p: nat, k: string :: p != steamId || k != kit ==>
           GetKitAmount(cfg, after, p, k) == GetKitAmount(cfg, rows, p, k)
  {
  }

  /** A kit is handed out exactly when there is one left, and then one less is left. */
  lemma RedeemIsExact(cfg: Config, rows: Rows, steamId: nat, kit: string, eligible: bool, stored: bool)
    ensures var (given, after) := RedeemKit(cfg, rows, steamId, kit, eligible, stored);
      var left := GetKitAmount(cfg, rows, steamId, kit);
      && (given <==> steamId in rows && eligible && kit in cfg.defaults && left > 0 && stored)
      && (given ==> GetKitAmount(cfg, after, steamId, kit) == left - 1)
      && (!given ==> after == rows)
      && forall p: nat, k: string :: p != steamId || k != kit ==>
           GetKitAmount(cfg, after, p, k) == GetKitAmount(cfg, rows, p, k)
  {
  }

  lemma {:induction false} FilledIsExact(cfg: Config, record: Record, names: seq<string>, kit: string)
    requires cfg.Valid() && forall n :: n in names ==> n in cfg.names
    ensures kit in Filled(cfg, record, names) <==> kit in record || kit in names
    ensures kit in Filled(cfg, record, names) ==>
      Filled(cfg, record, names)[kit] ==
      if kit !in names then record[kit] else AtLeastZero(if kit in record then record[kit] else cfg.defaults[kit])
  {
    if names == [] {
    } else {
      var last := |names| - 1;
      FilledIsExact(cfg, record, names[..last], kit);
      FilledIsExact(cfg, record, names[..last], names[last]);
      assert names == names[..last] + [names[last]];
    }
  }

  /** Filling in the record changes a count exactly when it is a configured kit's and negative; it becomes zero. */
  lemma InitDataIsExact(cfg: Config, rows: Rows, steamId: nat, stored: bool, p: nat, kit: string)
    requires cfg.Valid()
    ensures GetKitAmount(cfg, InitKitData(cfg, rows, steamId, stored), p, kit) ==
      if p == steamId && stored && steamId in rows && kit in cfg.names then AtLeastZero(GetKitAmount(cfg, rows, p, kit))
      else GetKitAmount(cfg, rows, p, kit)
  {
    FilledIsExact(cfg, RecordOf(rows, steamId), cfg.names, kit);
  }

  /** Which steps succeed. */
  lemma StepSucceedsIff(cfg: Config, rows: Rows, step: Step)
    ensures Apply(cfg, rows, step).0 <==>
      match step
      case Redeem(p, kit, eligible, stored) =>
        p in rows && eligible && stored && kit in cfg.defaults && GetKitAmount(cfg, rows, p, kit) > 0
      case Change(p, kit, amount, stored) =>
        p in rows && (amount == 0 || (stored && (kit in cfg.defaults || kit in rows[p])))
      case InitData(_, _) => true
      case NewPlayer(p) => p !in rows
    ensures step.NewPlayer? ==> step.steamId in Apply(cfg, rows, step).1
  {
    match step
    case Redeem(p, kit, eligible, stored) => RedeemIsExact(cfg, rows, p, kit, eligible, stored);
    case Change(p, kit, amount, stored) => ChangeIsExact(cfg, rows, kit, amount, p, stored);
    case _ =>
  }

  // ----- runs

  /** Redemptions of a kit by a player over a run. */
  function Redeemed(cfg: Config, rows: Rows, steps: seq<Step>, p: nat, kit: string): nat
    decreases |steps|
  {
    if steps == [] then 0
    else
      var (ok, after) := Apply(cfg, rows, steps[0]);
      (if ok && steps[0].Redeem? && steps[0].steamId == p && steps[0].kit == kit then 1 else 0)
      + Redeemed(cfg, after, steps[1..], p, kit)
  }

  /** Kits bought by or granted to the player over a run. */
  function Received(cfg: Config, rows: Rows, steps: seq<Step>, p: nat, kit: string): nat
    decreases |steps|
  {
    if steps == [] then 0
    else
      var (ok, after) := Apply(cfg, rows, steps[0]);
      (if ok && steps[0].Change? && steps[0].steamId == p && steps[0].kit == kit
       then AtLeastZero(steps[0].amount) else 0)
      + Received(cfg, after, steps[1..], p, kit)
  }

  /** Kits a player can still redeem; a negative count is none. */
  function Left(cfg: Config, rows: Rows, p: nat, kit: string): nat {
    AtLeastZero(GetKitAmount(cfg, rows, p, kit))
  }

  /**
   What one step adds to redemptions plus kits left, against what it hands out: never more, and the same unless it takes
   kits away or meets a negative count.
   */
  lemma StepBalance(cfg: Config, rows: Rows, step: Step, p: nat, kit: string)
    requires cfg.Valid()
    ensures var (ok, after) := Apply(cfg, rows, step);
      var redeemed := if ok && step.Redeem? && step.steamId == p && step.kit == kit then 1 else 0;
      var received :=
        if ok && step.Change? && step.steamId == p && step.kit == kit then AtLeastZero(step.amount) else 0;
      var before := GetKitAmount(cfg, rows, p, kit);
      && redeemed + Left(cfg, after, p, kit) <= Left(cfg, rows, p, kit) + received
      && (before >= 0 ==> GetKitAmount(cfg, after, p, kit) >= 0)
      && (before >= 0 && !(step.Change? && step.amount < 0) ==>
            redeemed + Left(cfg, after, p, kit) == Left(cfg, rows, p, kit) + received)
  {
    if step.InitData? {
      InitDataIsExact(cfg, rows, step.steamId, step.stored, p, kit);
    }
  }

  ghost predicate NoneTakenAway(steps: seq<Step>) {
    forall i :: 0 <= i < |steps| ==> !(steps[i].Change? && steps[i].amount < 0)
  }

  /**
   Over any run, with any defaults, a player's redemptions of a kit plus those left never exceed what there was plus
   what was bought or granted; the two are equal if the count was not negative and no change takes kits away.
   */
  lemma {:induction false} KitsAreConserved(cfg: Config, rows: Rows, steps: seq<Step>, p: nat, kit: string)
    requires cfg.Valid()
    ensures Redeemed(cfg, rows, steps, p, kit) + Left(cfg, Run(cfg, rows, steps), p, kit) <=
      Left(cfg, rows, p, kit) + Received(cfg, rows, steps, p, kit)
    ensures GetKitAmount(cfg, rows, p, kit) >= 0 ==> GetKitAmount(cfg, Run(cfg, rows, steps), p, kit) >= 0
    ensures GetKitAmount(cfg, rows, p, kit) >= 0 && NoneTakenAway(steps) ==>
      Redeemed(cfg, rows, steps, p, kit) + GetKitAmount(cfg, Run(cfg, rows, steps), p, kit) ==
      GetKitAmount(cfg, rows, p, kit) + Received(cfg, rows, steps, p, kit)
    decreases |steps|
  {
    if steps == [] {
    } else {
      StepBalance(cfg, rows, steps[0], p, kit);
      KitsAreConserved(cfg, Apply(cfg, rows, steps[0]).1, steps[1..], p, kit);
    }
  }

  /** Redemptions of a kit that a player, eligible and with its record stored, attempts over a run. */
  function Attempts(steps: seq<Step>, p: nat, kit: string): nat {
    if steps == [] then 0
    else (if steps[0] == Redeem(p, kit, true, true) then 1 else 0) + Attempts(steps[1..], p, kit)
  }

  ghost predicate RedeemsOnly(steps: seq<Step>) {
    forall i :: 0 <= i < |steps| ==> steps[i].Redeem?
  }

  /**
   However the redemptions of all players and kits are mixed, a player gets a kit as often as it is asked for, while
   there are any left.
   */
  lemma {:induction false} KitsGoWhileTheyLast(cfg: Config, rows: Rows, steps: seq<Step>, p: nat, kit: string)
    requires RedeemsOnly(steps) && p in rows && kit in cfg.defaults
    ensures Redeemed(cfg, rows, steps, p, kit) ==
      if Attempts(steps, p, kit) <= Left(cfg, rows, p, kit) then Attempts(steps, p, kit) else Left(cfg, rows, p, kit)
    decreases |steps|
  {
    if steps == [] {
    } else {
      assert steps[0].Redeem?;
      RedeemIsExact(cfg, rows, steps[0].steamId, steps[0].kit, steps[0].eligible, steps[0].stored);
      KitsGoWhileTheyLast(cfg, Apply(cfg, rows, steps[0]).1, steps[1..], p, kit);
    }
  }
}
