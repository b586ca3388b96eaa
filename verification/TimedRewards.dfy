/** The timed rewards scheduler: players, their periodic tasks, and the timer that fires those due; milliseconds. */
module TimedRewards {
  import opened Common

  datatype Reward = Reward(id: string, next: int, interval: int)

  datatype Player = Player(steamId: nat, rewards: seq<Reward>)

  /** What happened, in order; intervals in minutes. */
  datatype Event =
    | Added(steamId: nat, id: string, at: int, interval: int)
    | Removed(steamId: nat, at: int)
    | Fired(steamId: nat, id: string, at: int)

  datatype State = State(players: seq<Player>, now: int, log: seq<Event>)

  const MINUTE: int := 60000

  function NextTime(now: int, interval: int): int {
    now + interval * MINUTE
  }

  /** Position of the first entry of a player, or the end. */
  function FindPlayer(players: seq<Player>, steamId: nat): (k: nat)
    ensures k <= |players| && (k < |players| ==> players[k].steamId == steamId)
    ensures forall i :: 0 <= i < k ==> players[i].steamId != steamId
  {
    FindFirst(players, (p: Player) => p.steamId == steamId)
  }

  lemma FirstIsFound(players: seq<Player>, steamId: nat, k: nat)
    requires k <= |players| && (k < |players| ==> players[k].steamId == steamId)
    requires forall i :: 0 <= i < k ==> players[i].steamId != steamId
    ensures FindPlayer(players, steamId) == k
  {
  }

  function FindReward(rewards: seq<Reward>, id: string): (k: nat)
    ensures k <= |rewards| && (k < |rewards| ==> rewards[k].id == id)
    ensures forall i :: 0 <= i < k ==> rewards[i].id != id
  {
    FindFirst(rewards, (r: Reward) => r.id == id)
  }

  /** A task is registered once per player and id; registering it again leaves its schedule alone. */
  function AddTask(s: State, id: string, steamId: nat, interval: int): State {
    var reward := Reward(id, NextTime(s.now, interval), interval);
    var log := s.log + [Added(steamId, id, s.now, interval)];
    var k := FindPlayer(s.players, steamId);
    if k == |s.players| then s.(players := s.players + [Player(steamId, [reward])], log := log)
    else if FindReward(s.players[k].rewards, id) < |s.players[k].rewards| then s
    else s.(players := s.players[k := Player(steamId, s.players[k].rewards + [reward])], log := log)
  }

  function RemovePlayer(s: State, steamId: nat): State {
    var k := FindPlayer(s.players, steamId);
    if k == |s.players| then s
    else s.(players := s.players[..k] + s.players[k + 1..], log := s.log + [Removed(steamId, s.now)])
  }

  /** One turn of the inner loop of the timer. */
  function FireAt(s: State, i: nat, j: nat): State
    requires i < |s.players| && j < |s.players[i].rewards|
  {
    var player := s.players[i];
    var reward := player.rewards[j];
    if s.now >= reward.next then
      var rewards := player.rewards[j := reward.(next := NextTime(s.now, reward.interval))];
      s.(players := s.players[i := player.(rewards := rewards)],
         log := s.log + [Fired(player.steamId, reward.id, s.now)])
    else s
  }

  /** The timer's two loops from reward j of player i on. */
  function TickFrom(s: State, i: nat, j: nat): State
    requires i <= |s.players| && (i < |s.players| ==> j <= |s.players[i].rewards|)
    decreases |s.players| - i, if i < |s.players| then |s.players[i].rewards| - j else 0
  {
    if i == |s.players| then s
    else if j == |s.players[i].rewards| then TickFrom(s, i + 1, 0)
    else TickFrom(FireAt(s, i, j), i, j + 1)
  }

  function Tick(s: State): State {
    TickFrom(s, 0, 0)
  }

  datatype Step =
    | Register(id: string, steamId: nat, interval: int)
    | Logout(steamId: nat)
    | Timer
    | Time(ms: nat)

  function Apply(s: State, step: Step): State {
    match step
    case Register(id, steamId, interval) => AddTask(s, id, steamId, interval)
    case Logout(steamId) => RemovePlayer(s, steamId)
    case Timer => Tick(s)
    case Time(ms) => s.(now := s.now + ms)
  }

  function Run(s: State, steps: seq<Step>): State
    decreases |steps|
  {
    if steps == [] then s else Run(Apply(s, steps[0]), steps[1..])
  }

  function Init(now: int): State {
    State([], now, [])
  }
}
