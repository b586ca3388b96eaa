/** The scheduler's table as the plugin keeps it: shared player records updated in place. */
module RewardTable {
  import opened AliasedRemove
  import opened Common
  import opened TimedRewards

  class OnlinePlayersData {
    const steamId: nat
    var rewardCallbacks: seq<Reward>

    constructor (steamId: nat, reward: Reward)
      ensures this.steamId == steamId && rewardCallbacks == [reward]
    {
      this.steamId, rewardCallbacks := steamId, [reward];
    }
  }

  class Table {
    var onlinePlayers: seq<OnlinePlayersData>
    var now: int
    ghost var players: seq<Player>
    ghost var log: seq<Event>

    /** Every record was made for its own entry, and players is what the records say. */
    ghost predicate Valid()
      reads this, onlinePlayers
    {
      Distinct(onlinePlayers) && AllShow(onlinePlayers, players)
    }

    ghost function View(): State
      reads this
    {
      State(players, now, log)
    }

    constructor (now: int)
      ensures Valid() && View() == Init(now)
    {
      onlinePlayers, this.now, log := [], now, [];
      players := [];
    }

    /** std::find_if by steam id. */
    method FindBySteamId(steamId: nat) returns (k: nat)
      requires Valid()
      ensures k == FindPlayer(players, steamId)
    {
      k := 0;
      while k < |onlinePlayers| && onlinePlayers[k].steamId != steamId
        invariant k <= |onlinePlayers|
        invariant forall i :: 0 <= i < k ==> players[i].steamId != steamId
      {
        assert Shows(onlinePlayers[k], players[k]);
        k := k + 1;
      }
      assert k < |players| ==> Shows(onlinePlayers[k], players[k]);
      FirstIsFound(players, steamId, k);
    }

    method AddTask(id: string, steamId: nat, interval: int)
      requires Valid()
      modifies this, onlinePlayers
      ensures Valid() && View() == TimedRewards.AddTask(old(View()), id, steamId, interval)
    {
      var reward := Reward(id, now + interval * MINUTE, interval);
      var k := FindBySteamId(steamId);
      if k < |onlinePlayers| {
        var data := onlinePlayers[k];
        assert Shows(data, players[k]);
        if FindReward(data.rewardCallbacks, id) == |data.rewardCallbacks| {
          SetRewards(k, data.rewardCallbacks + [reward]);
          log := log + [Added(steamId, id, now, interval)];
        }
      } else {
        var data := new OnlinePlayersData(steamId, reward);
        onlinePlayers := onlinePlayers + [data];
        players := players + [Player(steamId, [reward])];
        log := log + [Added(steamId, id, now, interval)];
      }
    }

    /** The record of entry i gets new rewards; records are distinct, so no other entry changes. */
    method SetRewards(i: nat, rewards: seq<Reward>)
      requires Valid() && i < |onlinePlayers|
      modifies this`players, onlinePlayers[i]
      ensures Valid() && players == old(players)[i := old(players)[i].(rewards := rewards)]
      ensures onlinePlayers[i].rewardCallbacks == rewards
    {
      assert Shows(onlinePlayers[i], players[i]);
      onlinePlayers[i].rewardCallbacks := rewards;
      players := players[i := players[i].(rewards := rewards)];
      forall k | 0 <= k < |players| ensures Shows(onlinePlayers[k], players[k]) {
        assert old(Shows(onlinePlayers[k], players[k]));
      }
    }

    /** erase and remove by a reference into the vector: the records are distinct, so only the one found goes. */
    method RemovePlayer(steamId: nat)
      requires Valid()
      modifies this
      ensures Valid() && View() == TimedRewards.RemovePlayer(old(View()), steamId)
    {
      var k := FindBySteamId(steamId);
      if k < |onlinePlayers| {
        EraseAt(onlinePlayers, k);
        GapShows(onlinePlayers, players, k);
        onlinePlayers := EraseRemove(onlinePlayers, onlinePlayers[k]);
        players := players[..k] + players[k + 1..];
        log := log + [Removed(steamId, now)];
      }
    }

    /** The body of the timer's inner loop. */
    method FireIfDue(i: nat, j: nat)
      requires Valid() && i < |players| && j < |players[i].rewards|
      modifies this`players, this`log, onlinePlayers[i]
      ensures Valid() && View() == FireAt(old(View()), i, j)
    {
      var data := onlinePlayers[i];
      assert Shows(data, players[i]);
      var reward := data.rewardCallbacks[j];
      if now >= reward.next {
        SetRewards(i, data.rewardCallbacks[j := reward.(next := now + reward.interval * MINUTE)]);
        log := log + [Fired(data.steamId, reward.id, now)];
      }
    }

    /** The inner loop of the timer: what is left of the tick is what follows player i. */
    method FirePlayer(i: nat)
      requires Valid() && i < |players|
      modifies this`players, this`log, onlinePlayers[i]
      ensures Valid() && TickFrom(View(), i + 1, 0) == TickFrom(old(View()), i, 0) && |players| == |old(players)|
    {
      var j := 0;
      ghost var goal := TickFrom(View(), i, 0);
      assert Shows(onlinePlayers[i], players[i]);
      while j < |onlinePlayers[i].rewardCallbacks|
        invariant Valid() && |players| == |old(players)| && Shows(onlinePlayers[i], players[i])
        invariant 0 <= j <= |players[i].rewards|
        invariant TickFrom(View(), i, j) == goal
        decreases |players[i].rewards| - j
      {
        FireIfDue(i, j);
        assert Shows(onlinePlayers[i], players[i]);
        j := j + 1;
      }
    }

    /** The timer callback. */
    method RewardTimer()
      requires Valid()
      modifies this`players, this`log, onlinePlayers
      ensures Valid() && View() == Tick(old(View()))
    {
      var i := 0;
      ghost var goal := Tick(View());
      while i < |onlinePlayers|
        invariant 0 <= i <= |onlinePlayers| && Valid()
        invariant TickFrom(View(), i, 0) == goal
      {
        FirePlayer(i);
        i := i + 1;
      }
    }
  }

  /** A record holds what the scheduler's table says of its player. */
  ghost predicate Shows(data: OnlinePlayersData, p: Player)
    reads data
  {
    data.steamId == p.steamId && data.rewardCallbacks == p.rewards
  }

  ghost predicate AllShow(online: seq<OnlinePlayersData>, players: seq<Player>)
    reads online
  {
    |players| == |online| && forall i :: 0 <= i < |players| ==> Shows(online[i], players[i])
  }

  /** Without entry k the records still show the table. */
  lemma GapShows(online: seq<OnlinePlayersData>, players: seq<Player>, k: nat)
    requires AllShow(online, players) && k < |online|
    ensures AllShow(online[..k] + online[k + 1..], players[..k] + players[k + 1..])
  {
    var left, table := online[..k] + online[k + 1..], players[..k] + players[k + 1..];
    forall i | 0 <= i < |table| ensures Shows(left[i], table[i]) {
      assert Shows(online[if i < k then i else i + 1], players[if i < k then i else i + 1]);
    }
  }

  /** Erasing element k of distinct elements by its value removes that position alone. */
  lemma EraseAt<T>(xs: seq<T>, k: nat)
    requires Distinct(xs) && k < |xs|
    ensures Erase(xs, xs[k]) == xs[..k] + xs[k + 1..] && Distinct(Erase(xs, xs[k]))
  {
    FindAmongDistinct(xs, k);
    EraseDistinct(xs, xs[k]);
    DistinctGap(xs, k);
  }

  lemma FindAmongDistinct<T>(xs: seq<T>, k: nat)
    requires Distinct(xs) && k < |xs|
    ensures Find(xs, xs[k]) == k
  {
  }
}
