/** What the timed rewards scheduler guarantees over every run. */
module TimedRewardsProofs {
  import opened Common
  import opened TimedRewards

  /** The registration of a task that is still in force: its latest Added, unless its player was removed since. */
  ghost function Registration(log: seq<Event>, steamId: nat, id: string): Option<Event> {
    if log == [] then None
    else
      var e, before := log[|log| - 1], log[..|log| - 1];
      if e.steamId != steamId then Registration(before, steamId, id)
      else if e.Removed? then None
      else if e.Added? && e.id == id then Some(e)
      else Registration(before, steamId, id)
  }

  /** How often the task fired since that registration. */
  ghost function Firings(log: seq<Event>, steamId: nat, id: string): nat {
    if log == [] then 0
    else
      var e, before := log[|log| - 1], log[..|log| - 1];
      if e.steamId != steamId then Firings(before, steamId, id)
      else if e.Removed? || (e.Added? && e.id == id) then 0
      else Firings(before, steamId, id) + (if e.Fired? && e.id == id then 1 else 0)
  }

  lemma LogAppend(log: seq<Event>, e: Event, p: nat, id: string)
    ensures Registration(log + [e], p, id) ==
      if e.steamId == p && e.Removed? then None
      else if e.steamId == p && e.Added? && e.id == id then Some(e)
      else Registration(log, p, id)
    ensures Firings(log + [e], p, id) ==
      if e.steamId == p && (e.Removed? || (e.Added? && e.id == id)) then 0
      else Firings(log, p, id) + if e.steamId == p && e.Fired? && e.id == id then 1 else 0
  {
    assert (log + [e])[..|log|] == log;
  }

  /** The n-th firing may not come before n intervals have passed since the registration. */
  ghost predicate NotEarly(at: int, registered: Event, n: nat) {
    registered.Added? && at >= registered.at + n * (registered.interval * 60000)
  }

  ghost predicate FiringOk(before: seq<Event>, e: Event) {
    e.Fired? ==>
      && Registration(before, e.steamId, e.id).Some?
      && NotEarly(e.at, Registration(before, e.steamId, e.id).value, Firings(before, e.steamId, e.id) + 1)
  }

  ghost predicate LogOk(log: seq<Event>) {
    forall k :: 0 <= k < |log| ==> FiringOk(log[..k], log[k])
  }

  /** A task in the table is the one registered, and is not due before its next firing may come. */
  ghost predicate RewardOk(log: seq<Event>, steamId: nat, r: Reward) {
    && Registration(log, steamId, r.id).Some?
    && var e := Registration(log, steamId, r.id).value;
       e.Added? && e.interval == r.interval && NotEarly(r.next, e, Firings(log, steamId, r.id) + 1)
  }

  ghost predicate PlayersDistinct(players: seq<Player>) {
    forall i, k :: 0 <= i < k < |players| ==> players[i].steamId != players[k].steamId
  }

  ghost predicate RewardsDistinct(rewards: seq<Reward>) {
    forall i, k :: 0 <= i < k < |rewards| ==> rewards[i].id != rewards[k].id
  }

  ghost predicate PlayerOk(log: seq<Event>, p: Player) {
    RewardsDistinct(p.rewards) && forall j :: 0 <= j < |p.rewards| ==> RewardOk(log, p.steamId, p.rewards[j])
  }

  ghost predicate Inv(s: State) {
    && PlayersDistinct(s.players)
    && (forall i :: 0 <= i < |s.players| ==> PlayerOk(s.log, s.players[i]))
    && LogOk(s.log)
  }

  lemma LogGrows(log: seq<Event>, e: Event)
    requires LogOk(log) && FiringOk(log, e)
    ensures LogOk(log + [e])
  {
    var more := log + [e];
    forall k | 0 <= k < |more| ensures FiringOk(more[..k], more[k]) {
      assert more[..k] == log[..k];
      assert log[..|log|] == log;
    }
  }

  /** An event of another player leaves a player's entry in order. */
  lemma OtherPlayerKept(log: seq<Event>, e: Event, p: Player)
    requires PlayerOk(log, p) && e.steamId != p.steamId
    ensures PlayerOk(log + [e], p)
  {
    forall j | 0 <= j < |p.rewards| ensures RewardOk(log + [e], p.steamId, p.rewards[j]) {
      LogAppend(log, e, p.steamId, p.rewards[j].id);
      assert RewardOk(log, p.steamId, p.rewards[j]);
    }
  }

  lemma NewRewardOk(log: seq<Event>, steamId: nat, id: string, now: int, interval: int)
    ensures RewardOk(log + [Added(steamId, id, now, interval)], steamId, Reward(id, NextTime(now, interval), interval))
  {
    LogAppend(log, Added(steamId, id, now, interval), steamId, id);
  }

  lemma AddKeepsInv(s: State, id: string, steamId: nat, interval: int)
    requires Inv(s)
    ensures Inv(AddTask(s, id, steamId, interval))
  {
    var s', k := AddTask(s, id, steamId, interval), FindPlayer(s.players, steamId);
    var e := Added(steamId, id, s.now, interval);
    if s' != s {
      LogGrows(s.log, e);
      NewRewardOk(s.log, steamId, id, s.now, interval);
      forall i | 0 <= i < |s'.players| ensures PlayerOk(s'.log, s'.players[i]) {
        if i != k {
          OtherPlayerKept(s.log, e, s.players[i]);
        } else if k < |s.players| {
          assert PlayerOk(s.log, s.players[k]);
          forall j | 0 <= j < |s.players[k].rewards| ensures RewardOk(s'.log, steamId, s.players[k].rewards[j]) {
            LogAppend(s.log, e, steamId, s.players[k].rewards[j].id);
            assert RewardOk(s.log, steamId, s.players[k].rewards[j]);
          }
        }
      }
    }
  }

  lemma RemoveKeepsInv(s: State, steamId: nat)
    requires Inv(s)
    ensures Inv(RemovePlayer(s, steamId))
  {
    var s', e, k := RemovePlayer(s, steamId), Removed(steamId, s.now), FindPlayer(s.players, steamId);
    if k < |s.players| {
      LogGrows(s.log, e);
      forall i | 0 <= i < |s'.players|
        ensures s'.players[i] == s.players[if i < k then i else i + 1] && PlayerOk(s'.log, s'.players[i])
      {
        var i' := if i < k then i else i + 1;
        assert s'.players[i] == s.players[i'];
        OtherPlayerKept(s.log, e, s.players[i']);
      }
    }
  }

  lemma NextFiring(at: int, e: Event, n: nat)
    requires NotEarly(at, e, n)
    ensures NotEarly(NextTime(at, e.interval), e, n + 1)
  {
    var d := e.interval * 60000;
    assert (n + 1) * d == n * d + d;
  }

  /** A firing at or after the due time is not early, and the schedule it leaves is in order again. */
  lemma FiringKept(log: seq<Event>, steamId: nat, r: Reward, now: int)
    requires RewardOk(log, steamId, r) && now >= r.next
    ensures FiringOk(log, Fired(steamId, r.id, now))
    ensures RewardOk(log + [Fired(steamId, r.id, now)], steamId, r.(next := NextTime(now, r.interval)))
  {
    var e, n := Registration(log, steamId, r.id).value, Firings(log, steamId, r.id) + 1;
    LogAppend(log, Fired(steamId, r.id, now), steamId, r.id);
    NextFiring(now, e, n);
  }

  lemma FireKeepsInv(s: State, i: nat, j: nat)
    requires Inv(s) && i < |s.players| && j < |s.players[i].rewards|
    ensures Inv(FireAt(s, i, j))
  {
    var s', player := FireAt(s, i, j), s.players[i];
    var reward := player.rewards[j];
    if s.now >= reward.next {
      var e := Fired(player.steamId, reward.id, s.now);
      assert PlayerOk(s.log, player) && RewardOk(s.log, player.steamId, reward);
      FiringKept(s.log, player.steamId, reward, s.now);
      LogGrows(s.log, e);
      forall x | 0 <= x < |s'.players| ensures PlayerOk(s'.log, s'.players[x]) {
        if x != i {
          OtherPlayerKept(s.log, e, s.players[x]);
        } else {
          forall y | 0 <= y < |player.rewards| && y != j ensures RewardOk(s'.log, player.steamId, player.rewards[y]) {
            LogAppend(s.log, e, player.steamId, player.rewards[y].id);
            assert RewardOk(s.log, player.steamId, player.rewards[y]);
          }
        }
      }
    }
  }

  lemma {:induction false} TickKeepsInv(s: State, i: nat, j: nat)
    requires Inv(s) && i <= |s.players| && (i < |s.players| ==> j <= |s.players[i].rewards|)
    ensures Inv(TickFrom(s, i, j))
    decreases |s.players| - i, if i < |s.players| then |s.players[i].rewards| - j else 0
  {
    if i == |s.players| {
    } else if j == |s.players[i].rewards| {
      TickKeepsInv(s, i + 1, 0);
    } else {
      FireKeepsInv(s, i, j);
      TickKeepsInv(FireAt(s, i, j), i, j + 1);
    }
  }

  lemma {:induction false} RunKeepsInv(s: State, steps: seq<Step>)
    requires Inv(s)
    ensures Inv(Run(s, steps))
    decreases |steps|
  {
    if steps == [] {
    } else {
      match steps[0] {
        case Register(id, steamId, interval) => AddKeepsInv(s, id, steamId, interval);
        case Logout(steamId) => RemoveKeepsInv(s, steamId);
        case Timer => TickKeepsInv(s, 0, 0);
        case Time(_) =>
      }
      RunKeepsInv(Apply(s, steps[0]), steps[1..]);
    }
  }

  /**
   In every run, a firing belongs to a registration in force, and if it is the n-th firing since that registration it
   comes at least n intervals after it. This holds for every interval, zero and negative ones included.
   */
  lemma FiringsAreSpaced(now: int, steps: seq<Step>, k: nat)
    requires var log := Run(Init(now), steps).log; k < |log| && log[k].Fired?
    ensures
      var log := Run(Init(now), steps).log;
      var registered := Registration(log[..k], log[k].steamId, log[k].id);
      var n := Firings(log[..k], log[k].steamId, log[k].id) + 1;
      && registered.Some? && registered.value.Added?
      && log[k].at >= registered.value.at + n * (registered.value.interval * 60000)
  {
    RunKeepsInv(Init(now), steps);
    var log := Run(Init(now), steps).log;
    assert FiringOk(log[..k], log[k]);
  }

  /** Registering a task again, with whatever interval, leaves the table, the schedule and the log alone. */
  lemma AddTaskTwice(s: State, id: string, steamId: nat, interval: int, again: int)
    ensures AddTask(AddTask(s, id, steamId, interval), id, steamId, again) == AddTask(s, id, steamId, interval)
  {
    var s', k := AddTask(s, id, steamId, interval), FindPlayer(s.players, steamId);
    FirstIsFound(s'.players, steamId, k);
    if k < |s.players| && s' != s {
      assert s'.players[k].rewards[|s.players[k].rewards|].id == id;
    }
  }

  // ----- one tick

  /** The firings of the rewards of one player that are due. */
  ghost function DueRewards(steamId: nat, rewards: seq<Reward>, now: int): seq<Event> {
    if rewards == [] then []
    else
      (if now >= rewards[0].next then [Fired(steamId, rewards[0].id, now)] else [])
      + DueRewards(steamId, rewards[1..], now)
  }

  ghost function Due(players: seq<Player>, now: int): seq<Event> {
    if players == [] then []
    else DueRewards(players[0].steamId, players[0].rewards, now) + Due(players[1..], now)
  }

  ghost function Rescheduled(r: Reward, now: int): Reward {
    if now >= r.next then r.(next := NextTime(now, r.interval)) else r
  }

  /** Every reward from position j of player i on was treated as due or not at time now; all else is as before. */
  ghost predicate Ticked(was: seq<Player>, players: seq<Player>, now: int, i: nat, j: nat) {
    && |players| == |was|
    && forall x :: 0 <= x < |was| ==>
         PlayerTicked(was[x], players[x], now, if x < i then |was[x].rewards| else if x == i then j else 0)
  }

  ghost predicate PlayerTicked(was: Player, p: Player, now: int, j: nat) {
    && p.steamId == was.steamId && |p.rewards| == |was.rewards|
    && forall y :: 0 <= y < |was.rewards| ==>
         p.rewards[y] == if y >= j then Rescheduled(was.rewards[y], now) else was.rewards[y]
  }

  /** The firings still to come from position j of player i on. */
  ghost function DueFrom(players: seq<Player>, now: int, i: nat, j: nat): seq<Event>
    requires i < |players| ==> j <= |players[i].rewards|
  {
    if i >= |players| then []
    else DueRewards(players[i].steamId, players[i].rewards[j..], now) + Due(players[i + 1..], now)
  }

  lemma DueFromPlayer(players: seq<Player>, now: int, i: nat)
    requires i <= |players|
    ensures DueFrom(players, now, i, 0) == Due(players[i..], now)
  {
    if i < |players| {
      assert players[i..][0] == players[i] && players[i..][1..] == players[i + 1..];
      assert players[i].rewards[0..] == players[i].rewards;
    }
  }

  /** Behind the last reward of player i come those of player i + 1. */
  lemma NextPlayer(was: seq<Player>, players: seq<Player>, now: int, i: nat)
    requires i < |was|
    ensures DueFrom(was, now, i, |was[i].rewards|) == DueFrom(was, now, i + 1, 0)
    ensures Ticked(was, players, now, i + 1, 0) ==> Ticked(was, players, now, i, |was[i].rewards|)
  {
    DueFromPlayer(was, now, i + 1);
  }

  /** One firing, if due, is the first of those due from here on. */
  lemma DueAfterFiring(s: State, i: nat, j: nat)
    requires i < |s.players| && j < |s.players[i].rewards|
    ensures var t := FireAt(s, i, j);
      t.log + DueFrom(t.players, s.now, i, j + 1) == s.log + DueFrom(s.players, s.now, i, j)
  {
    var rewards, t := s.players[i].rewards, FireAt(s, i, j);
    assert rewards[j..][0] == rewards[j] && rewards[j..][1..] == rewards[j + 1..];
    assert t.players[i].rewards[j + 1..] == rewards[j + 1..] && t.players[i + 1..] == s.players[i + 1..];
  }

  lemma TickedAfterFiring(s: State, players: seq<Player>, i: nat, j: nat)
    requires i < |s.players| && j < |s.players[i].rewards|
    requires Ticked(FireAt(s, i, j).players, players, s.now, i, j + 1)
    ensures Ticked(s.players, players, s.now, i, j)
  {
    var t := FireAt(s, i, j).players;
    forall x | 0 <= x < |t|
      ensures PlayerTicked(s.players[x], players[x], s.now,
                if x < i then |s.players[x].rewards| else if x == i then j else 0)
    {
      assert PlayerTicked(t[x], players[x], s.now, if x < i then |t[x].rewards| else if x == i then j + 1 else 0);
      assert x != i ==> t[x] == s.players[x];
    }
  }

  /** The two loops fire the due rewards in table order and reschedule those alone. */
  lemma {:induction false} TickFromExact(s: State, i: nat, j: nat)
    requires i <= |s.players| && (i < |s.players| ==> j <= |s.players[i].rewards|)
    ensures TickFrom(s, i, j).now == s.now
    ensures TickFrom(s, i, j).log == s.log + DueFrom(s.players, s.now, i, j)
    ensures Ticked(s.players, TickFrom(s, i, j).players, s.now, i, j)
    decreases |s.players| - i, if i < |s.players| then |s.players[i].rewards| - j else 0
  {
    if i == |s.players| {
    } else if j == |s.players[i].rewards| {
      TickFromExact(s, i + 1, 0);
      NextPlayer(s.players, TickFrom(s, i, j).players, s.now, i);
    } else {
      TickFromExact(FireAt(s, i, j), i, j + 1);
      DueAfterFiring(s, i, j);
      TickedAfterFiring(s, TickFrom(s, i, j).players, i, j);
    }
  }

  /** A tick logs exactly the due firings, and every reward due is rescheduled, and no other. */
  lemma TickExact(s: State)
    ensures Tick(s).now == s.now && Tick(s).log == s.log + Due(s.players, s.now)
    ensures |Tick(s).players| == |s.players|
    ensures forall x :: 0 <= x < |s.players| ==>
      && Tick(s).players[x].steamId == s.players[x].steamId
      && |Tick(s).players[x].rewards| == |s.players[x].rewards|
      && forall y :: 0 <= y < |s.players[x].rewards| ==>
           Tick(s).players[x].rewards[y] == Rescheduled(s.players[x].rewards[y], s.now)
  {
    TickFromExact(s, 0, 0);
    DueFromPlayer(s.players, s.now, 0);
    forall x | 0 <= x < |s.players| ensures PlayerTicked(s.players[x], Tick(s).players[x], s.now, 0) {
    }
  }

  /** Event e is the firing of reward y of player x, and that reward is due. */
  ghost predicate DueAt(players: seq<Player>, now: int, x: nat, y: nat, e: Event) {
    && x < |players| && y < |players[x].rewards|
    && now >= players[x].rewards[y].next
    && e == Fired(players[x].steamId, players[x].rewards[y].id, now)
  }

  lemma {:induction false} DueRewardsMember(steamId: nat, rewards: seq<Reward>, now: int, e: Event)
    ensures e in DueRewards(steamId, rewards, now) <==>
      exists y: nat :: y < |rewards| && now >= rewards[y].next && e == Fired(steamId, rewards[y].id, now)
  {
    if rewards == [] {
    } else {
      DueRewardsMember(steamId, rewards[1..], now, e);
      if y: nat :| y < |rewards| && now >= rewards[y].next && e == Fired(steamId, rewards[y].id, now) {
        assert y > 0 ==> rewards[1..][y - 1] == rewards[y];
      }
    }
  }

  lemma {:induction false} DueRewardsDistinct(steamId: nat, rewards: seq<Reward>, now: int)
    requires RewardsDistinct(rewards)
    ensures forall a, b :: 0 <= a < b < |DueRewards(steamId, rewards, now)| ==>
      DueRewards(steamId, rewards, now)[a] != DueRewards(steamId, rewards, now)[b]
  {
    if rewards == [] {
    } else {
      DueRewardsDistinct(steamId, rewards[1..], now);
      var e := Fired(steamId, rewards[0].id, now);
      DueRewardsMember(steamId, rewards[1..], now, e);
      assert e !in DueRewards(steamId, rewards[1..], now);
    }
  }

  lemma {:induction false} DueMember(players: seq<Player>, now: int, e: Event)
    ensures e in Due(players, now) <==>
      exists x: nat :: x < |players| && e in DueRewards(players[x].steamId, players[x].rewards, now)
  {
    if players == [] {
    } else {
      DueMember(players[1..], now, e);
      var head, tail := DueRewards(players[0].steamId, players[0].rewards, now), players[1..];
      assert e in Due(players, now) <==> e in head || e in Due(tail, now);
      if x: nat :| x < |tail| && e in DueRewards(tail[x].steamId, tail[x].rewards, now) {
        assert players[x + 1] == tail[x];
      }
      if x: nat :| x < |players| && e in DueRewards(players[x].steamId, players[x].rewards, now) {
        assert x > 0 ==> tail[x - 1] == players[x];
      }
    }
  }

  lemma {:induction false} DueDistinct(players: seq<Player>, now: int)
    requires PlayersDistinct(players) && forall x :: 0 <= x < |players| ==> RewardsDistinct(players[x].rewards)
    ensures forall a, b :: 0 <= a < b < |Due(players, now)| ==> Due(players, now)[a] != Due(players, now)[b]
  {
    if players == [] {
    } else {
      var head, tail := DueRewards(players[0].steamId, players[0].rewards, now), Due(players[1..], now);
      DueRewardsDistinct(players[0].steamId, players[0].rewards, now);
      DueDistinct(players[1..], now);
      forall a, b | 0 <= a < |head| && 0 <= b < |tail| ensures head[a] != tail[b] {
        assert head[a] in head && tail[b] in tail;
        DueRewardsMember(players[0].steamId, players[0].rewards, now, head[a]);
        DueMember(players[1..], now, tail[b]);
        var x: nat :| x < |players[1..]|
          && tail[b] in DueRewards(players[1..][x].steamId, players[1..][x].rewards, now);
        DueRewardsMember(players[1..][x].steamId, players[1..][x].rewards, now, tail[b]);
        assert players[1..][x] == players[x + 1];
      }
    }
  }

  /** In every run, a tick fires each due task exactly once and no other task. */
  lemma TickFiresEachDueTaskOnce(now: int, steps: seq<Step>)
    ensures
      var s := Run(Init(now), steps);
      && Tick(s).log == s.log + Due(s.players, s.now)
      && (forall a, b :: 0 <= a < b < |Due(s.players, s.now)| ==> Due(s.players, s.now)[a] != Due(s.players, s.now)[b])
      && forall e :: e in Due(s.players, s.now) <==> exists x: nat, y: nat :: DueAt(s.players, s.now, x, y, e)
  {
    var s := Run(Init(now), steps);
    RunKeepsInv(Init(now), steps);
    TickExact(s);
    forall x | 0 <= x < |s.players| ensures RewardsDistinct(s.players[x].rewards) {
      assert PlayerOk(s.log, s.players[x]);
    }
    DueDistinct(s.players, s.now);
    forall e ensures e in Due(s.players, s.now) <==> exists x: nat, y: nat :: DueAt(s.players, s.now, x, y, e) {
      DueMember(s.players, s.now, e);
      if x: nat, y: nat :| DueAt(s.players, s.now, x, y, e) {
        DueRewardsMember(s.players[x].steamId, s.players[x].rewards, s.now, e);
      } else if e in Due(s.players, s.now) {
        var x: nat :| x < |s.players| && e in DueRewards(s.players[x].steamId, s.players[x].rewards, s.now);
        DueRewardsMember(s.players[x].steamId, s.players[x].rewards, s.now, e);
        var y: nat :| y < |s.players[x].rewards| && s.now >= s.players[x].rewards[y].next
          && e == Fired(s.players[x].steamId, s.players[x].rewards[y].id, s.now);
        assert DueAt(s.players, s.now, x, y, e);
      }
    }
  }

  /** The entries of the other players, in their order. */
  ghost function Others(players: seq<Player>, steamId: nat): seq<Player> {
    if players == [] then []
    else (if players[0].steamId == steamId then [] else [players[0]]) + Others(players[1..], steamId)
  }

  lemma {:induction false} OthersWhenAbsent(players: seq<Player>, steamId: nat)
    requires forall i :: 0 <= i < |players| ==> players[i].steamId != steamId
    ensures Others(players, steamId) == players
  {
    if players == [] {
    } else {
      OthersWhenAbsent(players[1..], steamId);
    }
  }

  lemma {:induction false} OthersSplit(front: seq<Player>, back: seq<Player>, steamId: nat)
    ensures Others(front + back, steamId) == Others(front, steamId) + Others(back, steamId)
  {
    if front == [] {
      assert front + back == back;
    } else {
      assert (front + back)[1..] == front[1..] + back;
      OthersSplit(front[1..], back, steamId);
    }
  }

  lemma OthersAtHead(p: Player, back: seq<Player>)
    ensures Others([p] + back, p.steamId) == Others(back, p.steamId)
  {
    assert ([p] + back)[1..] == back;
  }

  lemma OthersAround(front: seq<Player>, p: Player, back: seq<Player>)
    requires forall q :: q in front || q in back ==> q.steamId != p.steamId
    ensures Others(front + ([p] + back), p.steamId) == front + back
  {
    OthersWhenAbsent(front, p.steamId);
    OthersWhenAbsent(back, p.steamId);
    OthersSplit(front, [p] + back, p.steamId);
    OthersAtHead(p, back);
  }

  lemma RemoveFirstIsOthers(players: seq<Player>, steamId: nat)
    requires PlayersDistinct(players)
    ensures var k := FindPlayer(players, steamId);
      Others(players, steamId) == if k == |players| then players else players[..k] + players[k + 1..]
  {
    var k := FindPlayer(players, steamId);
    if k == |players| {
      OthersWhenAbsent(players, steamId);
    } else {
      var front, back := players[..k], players[k + 1..];
      forall q | q in back ensures q.steamId != steamId {
        var j :| k < j < |players| && players[j] == q;
      }
      assert players == front + ([players[k]] + back);
      OthersAround(front, players[k], back);
    }
  }

  /** In every run, removing a player removes all it has and leaves the others as they are, in their order. */
  lemma RemovePlayerIsExact(now: int, steps: seq<Step>, steamId: nat)
    ensures RemovePlayer(Run(Init(now), steps), steamId).players == Others(Run(Init(now), steps).players, steamId)
  {
    RunKeepsInv(Init(now), steps);
    RemoveFirstIsOthers(Run(Init(now), steps).players, steamId);
  }
}
