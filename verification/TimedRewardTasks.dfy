/** The scheduler task by task: what every operation does to the schedule of every task, and when a task fires. */
module TimedRewardTasks {
  import opened Common
  import opened TimedRewards
  import opened TimedRewardsProofs

  /** The table's entry for a task. */
  ghost function Entry(players: seq<Player>, steamId: nat, id: string): Option<Reward> {
    var k := FindPlayer(players, steamId);
    if k == |players| then None
    else
      var j := FindReward(players[k].rewards, id);
      if j == |players[k].rewards| then None else Some(players[k].rewards[j])
  }

  lemma EntryAt(players: seq<Player>, x: nat, y: nat)
    requires PlayersDistinct(players) && x < |players| && RewardsDistinct(players[x].rewards)
    requires y < |players[x].rewards|
    ensures Entry(players, players[x].steamId, players[x].rewards[y].id) == Some(players[x].rewards[y])
    ensures FindPlayer(players, players[x].steamId) == x
    ensures FindReward(players[x].rewards, players[x].rewards[y].id) == y
  {
  }

  /** In every run a task has one entry at most. */
  lemma OneEntryPerTask(now: int, steps: seq<Step>, x: nat, y: nat, u: nat, v: nat)
    requires var players := Run(Init(now), steps).players;
      && x < |players| && y < |players[x].rewards| && u < |players| && v < |players[u].rewards|
      && players[x].steamId == players[u].steamId && players[x].rewards[y].id == players[u].rewards[v].id
    ensures x == u && y == v
  {
    var s := Run(Init(now), steps);
    RunKeepsInv(Init(now), steps);
    assert PlayerOk(s.log, s.players[x]) && PlayerOk(s.log, s.players[u]);
    EntryAt(s.players, x, y);
    EntryAt(s.players, u, v);
  }

  /**
   Registering a task that is not there gives it an entry, first due the given minutes from now, and an event; one that
   is there keeps its entry. No other task's entry changes.
   */
  lemma AddTaskIsExact(s: State, id: string, steamId: nat, interval: int, p: nat, task: string)
    ensures var s', isNew := AddTask(s, id, steamId, interval), Entry(s.players, steamId, id).None?;
      && Entry(s'.players, p, task) ==
           (if isNew && p == steamId && task == id then Some(Reward(id, s.now + interval * 60000, interval))
            else Entry(s.players, p, task))
      && s'.log == (if isNew then s.log + [Added(steamId, id, s.now, interval)] else s.log)
      && s'.now == s.now
  {
    var s', k := AddTask(s, id, steamId, interval), FindPlayer(s.players, steamId);
    SamePlaces(s, id, steamId, interval, p);
    if p == steamId && k < |s.players| && s' != s {
      AppendedReward(s.players[k].rewards, Reward(id, NextTime(s.now, interval), interval), task);
    }
  }

  /** Registering leaves every player where it is; a new one comes last. */
  lemma SamePlaces(s: State, id: string, steamId: nat, interval: int, p: nat)
    ensures FindPlayer(AddTask(s, id, steamId, interval).players, p) ==
      if p != steamId && FindPlayer(s.players, p) == |s.players| then |AddTask(s, id, steamId, interval).players|
      else FindPlayer(s.players, p)
  {
    var s' := AddTask(s, id, steamId, interval);
    var k := FindPlayer(s.players, p);
    FirstIsFound(s'.players, p, if p != steamId && k == |s.players| then |s'.players| else k);
  }

  lemma AppendedReward(rewards: seq<Reward>, r: Reward, task: string)
    requires FindReward(rewards, r.id) == |rewards|
    ensures var more := rewards + [r];
      FindReward(more, task) ==
      if task == r.id then |rewards| else if FindReward(rewards, task) == |rewards| then |more|
      else FindReward(rewards, task)
  {
    var more, j := rewards + [r], FindReward(rewards, task);
    FirstRewardIsFound(more, task, if task == r.id then |rewards| else if j == |rewards| then |more| else j);
  }

  lemma FirstRewardIsFound(rewards: seq<Reward>, id: string, k: nat)
    requires k <= |rewards| && (k < |rewards| ==> rewards[k].id == id)
    requires forall i :: 0 <= i < k ==> rewards[i].id != id
    ensures FindReward(rewards, id) == k
  {
  }

  /** Removing a player removes the entries of all its tasks and no other, and logs it if there was one. */
  lemma RemovePlayerTasks(s: State, steamId: nat, p: nat, task: string)
    requires PlayersDistinct(s.players)
    ensures var s', k := RemovePlayer(s, steamId), FindPlayer(s.players, steamId);
      && Entry(s'.players, p, task) == (if p == steamId then None else Entry(s.players, p, task))
      && s'.log == (if k < |s.players| then s.log + [Removed(steamId, s.now)] else s.log)
      && s'.now == s.now
  {
    var s', k, j := RemovePlayer(s, steamId), FindPlayer(s.players, steamId), FindPlayer(s.players, p);
    if k < |s.players| {
      forall i | 0 <= i < |s'.players| ensures s'.players[i] == s.players[if i < k then i else i + 1] {
      }
      FirstIsFound(s'.players, p,
        if p == steamId || j == |s.players| then |s'.players| else if j < k then j else j - 1);
    }
  }

  /** A tick reschedules the entries that are due, from now, and leaves the others. */
  lemma TickTasks(s: State, p: nat, task: string)
    ensures Entry(Tick(s).players, p, task) ==
      match Entry(s.players, p, task)
      case None => None
      case Some(r) => if s.now >= r.next then Some(r.(next := s.now + r.interval * 60000)) else Some(r)
  {
    TickExact(s);
    var s', k := Tick(s), FindPlayer(s.players, p);
    FirstIsFound(s'.players, p, k);
    if k < |s.players| {
      var rewards, rewards' := s.players[k].rewards, s'.players[k].rewards;
      forall y | 0 <= y < |rewards| ensures rewards'[y] == Rescheduled(rewards[y], s.now) {
      }
      FirstRewardIsFound(rewards', task, FindReward(rewards, task));
    }
  }

  /** The firings of a tick are those of the tasks whose entry is due. */
  lemma DueIffEntryDue(s: State, p: nat, task: string)
    requires Inv(s)
    ensures Fired(p, task, s.now) in Due(s.players, s.now) <==>
      Entry(s.players, p, task).Some? && s.now >= Entry(s.players, p, task).value.next
  {
    var e := Fired(p, task, s.now);
    DueMember(s.players, s.now, e);
    if e in Due(s.players, s.now) {
      var x: nat :| x < |s.players| && e in DueRewards(s.players[x].steamId, s.players[x].rewards, s.now);
      DueRewardsMember(s.players[x].steamId, s.players[x].rewards, s.now, e);
      var y: nat :| y < |s.players[x].rewards| && s.now >= s.players[x].rewards[y].next
        && e == Fired(s.players[x].steamId, s.players[x].rewards[y].id, s.now);
      assert PlayerOk(s.log, s.players[x]);
      EntryAt(s.players, x, y);
    } else if Entry(s.players, p, task).Some? {
      var x := FindPlayer(s.players, p);
      DueRewardsMember(p, s.players[x].rewards, s.now, e);
    }
  }

  // ----- the schedule, told from the log

  /** When a task in force was last registered or fired. */
  ghost function LastTime(log: seq<Event>, steamId: nat, id: string): Option<int> {
    if log == [] then None
    else
      var e, before := log[|log| - 1], log[..|log| - 1];
      if e.steamId != steamId then LastTime(before, steamId, id)
      else if e.Removed? then None
      else if e.id == id then Some(e.at)
      else LastTime(before, steamId, id)
  }

  lemma LastTimeAppend(log: seq<Event>, e: Event, p: nat, id: string)
    ensures LastTime(log + [e], p, id) ==
      if e.steamId != p then LastTime(log, p, id)
      else if e.Removed? then None
      else if e.id == id then Some(e.at)
      else LastTime(log, p, id)
  {
    assert (log + [e])[..|log|] == log;
  }

  /** The table has an entry for a task exactly if it is registered, with the interval it was registered with, due that
   many minutes after it was last registered or fired. */
  ghost predicate TaskOk(s: State, p: nat, task: string) {
    match Entry(s.players, p, task)
    case None => Registration(s.log, p, task).None?
    case Some(r) =>
      && Registration(s.log, p, task).Some? && Registration(s.log, p, task).value.Added?
      && Registration(s.log, p, task).value.interval == r.interval
      && LastTime(s.log, p, task).Some?
      && r.next == LastTime(s.log, p, task).value + r.interval * 60000
  }

  ghost predicate TasksOk(s: State) {
    forall p: nat, task: string :: TaskOk(s, p, task)
  }

  lemma AddKeepsTasksOk(s: State, id: string, steamId: nat, interval: int)
    requires TasksOk(s)
    ensures TasksOk(AddTask(s, id, steamId, interval))
  {
    forall p: nat, task: string ensures TaskOk(AddTask(s, id, steamId, interval), p, task) {
      assert TaskOk(s, p, task);
      AddTaskIsExact(s, id, steamId, interval, p, task);
      LogAppend(s.log, Added(steamId, id, s.now, interval), p, task);
      LastTimeAppend(s.log, Added(steamId, id, s.now, interval), p, task);
    }
  }

  lemma RemoveKeepsTasksOk(s: State, steamId: nat)
    requires TasksOk(s) && PlayersDistinct(s.players)
    ensures TasksOk(RemovePlayer(s, steamId))
  {
    forall p: nat, task: string ensures TaskOk(RemovePlayer(s, steamId), p, task) {
      assert TaskOk(s, p, task);
      RemovePlayerTasks(s, steamId, p, task);
      LogAppend(s.log, Removed(steamId, s.now), p, task);
      LastTimeAppend(s.log, Removed(steamId, s.now), p, task);
    }
  }

  ghost predicate FiredAt(events: seq<Event>, now: int) {
    forall e :: e in events ==> e.Fired? && e.at == now
  }

  /** Firings renew the time of the tasks fired and end no registration. */
  lemma {:induction false} FiringsAppend(log: seq<Event>, events: seq<Event>, now: int, p: nat, task: string)
    requires FiredAt(events, now)
    ensures Registration(log + events, p, task) == Registration(log, p, task)
    ensures LastTime(log + events, p, task) ==
      if Fired(p, task, now) in events then Some(now) else LastTime(log, p, task)
    decreases |events|
  {
    if events == [] {
      assert log + events == log;
    } else {
      var last := events[|events| - 1];
      var before := events[..|events| - 1];
      assert events == before + [last] && log + events == (log + before) + [last];
      FiringsAppend(log, before, now, p, task);
      LogAppend(log + before, last, p, task);
      LastTimeAppend(log + before, last, p, task);
    }
  }

  lemma DueAreFirings(players: seq<Player>, now: int)
    ensures FiredAt(Due(players, now), now)
  {
    forall e | e in Due(players, now) ensures e.Fired? && e.at == now {
      DueMember(players, now, e);
      var x: nat :| x < |players| && e in DueRewards(players[x].steamId, players[x].rewards, now);
      DueRewardsMember(players[x].steamId, players[x].rewards, now, e);
    }
  }

  lemma TickKeepsTasksOk(s: State)
    requires TasksOk(s) && Inv(s)
    ensures TasksOk(Tick(s))
  {
    TickExact(s);
    DueAreFirings(s.players, s.now);
    forall p: nat, task: string ensures TaskOk(Tick(s), p, task) {
      assert TaskOk(s, p, task);
      TickTasks(s, p, task);
      DueIffEntryDue(s, p, task);
      FiringsAppend(s.log, Due(s.players, s.now), s.now, p, task);
    }
  }

  lemma {:induction false} RunKeepsTasksOk(s: State, steps: seq<Step>)
    requires TasksOk(s) && Inv(s)
    ensures TasksOk(Run(s, steps))
    decreases |steps|
  {
    if steps == [] {
    } else {
      RunKeepsInv(s, [steps[0]]);
      assert Run(s, [steps[0]]) == Apply(s, steps[0]);
      match steps[0] {
        case Register(id, steamId, interval) => AddKeepsTasksOk(s, id, steamId, interval);
        case Logout(steamId) => RemoveKeepsTasksOk(s, steamId);
        case Timer => TickKeepsTasksOk(s);
        case Time(_) =>
          forall p: nat, task: string ensures TaskOk(Apply(s, steps[0]), p, task) {
            assert TaskOk(s, p, task);
          }
      }
      RunKeepsTasksOk(Apply(s, steps[0]), steps[1..]);
    }
  }

  /**
   In every run a tick fires a task exactly if it is registered and its interval, in minutes, has passed since it was
   last registered or fired.
   */
  lemma TickFiresIff(now: int, steps: seq<Step>, p: nat, task: string)
    ensures var s := Run(Init(now), steps);
      && Tick(s).log == s.log + Due(s.players, s.now)
      && (Fired(p, task, s.now) in Due(s.players, s.now) <==>
            && Registration(s.log, p, task).Some? && Registration(s.log, p, task).value.Added?
            && LastTime(s.log, p, task).Some?
            && s.now >= LastTime(s.log, p, task).value + Registration(s.log, p, task).value.interval * 60000)
  {
    var s := Run(Init(now), steps);
    RunKeepsInv(Init(now), steps);
    RunKeepsTasksOk(Init(now), steps);
    assert TaskOk(s, p, task);
    TickExact(s);
    DueIffEntryDue(s, p, task);
  }

  /** No timer and no logout of the player. */
  predicate LeavesTasks(steps: seq<Step>, steamId: nat) {
    forall i :: 0 <= i < |steps| ==> !steps[i].Timer? && steps[i] != Logout(steamId)
  }

  lemma {:induction false} EntryStays(s: State, steps: seq<Step>, steamId: nat, task: string)
    requires Inv(s) && LeavesTasks(steps, steamId) && Entry(s.players, steamId, task).Some?
    ensures Inv(Run(s, steps)) && Entry(Run(s, steps).players, steamId, task) == Entry(s.players, steamId, task)
    decreases |steps|
  {
    if steps == [] {
    } else {
      RunKeepsInv(s, [steps[0]]);
      assert Run(s, [steps[0]]) == Apply(s, steps[0]);
      match steps[0] {
        case Register(id, q, interval) => AddTaskIsExact(s, id, q, interval, steamId, task);
        case Logout(q) => RemovePlayerTasks(s, q, steamId, task);
        case Time(_) =>
      }
      EntryStays(Apply(s, steps[0]), steps[1..], steamId, task);
    }
  }

  /** A task registered for the first time fires on the first tick exactly if its interval has passed by then. */
  lemma NewTaskFires(now: int, steps: seq<Step>, id: string, steamId: nat, interval: int, later: seq<Step>)
    requires Entry(Run(Init(now), steps).players, steamId, id).None? && LeavesTasks(later, steamId)
    ensures var s := Run(Init(now), steps);
      var e := Run(Apply(s, Register(id, steamId, interval)), later);
      && Apply(e, Timer).log == e.log + Due(e.players, e.now)
      && (Fired(steamId, id, e.now) in Due(e.players, e.now) <==> e.now >= s.now + interval * 60000)
  {
    var s := Run(Init(now), steps);
    RunKeepsInv(Init(now), steps);
    AddKeepsInv(s, id, steamId, interval);
    AddTaskIsExact(s, id, steamId, interval, steamId, id);
    var added := AddTask(s, id, steamId, interval);
    EntryStays(added, later, steamId, id);
    TickExact(Run(added, later));
    DueIffEntryDue(Run(added, later), steamId, id);
  }
}
