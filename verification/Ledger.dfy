/**
 Shop points. The table maps a player with a row to its balance. A write to a player without a row succeeds and changes
 nothing, as an UPDATE that matches no row does; stored says whether the database accepted a write.
 */
module Ledger {
  import opened Common

  type Points = map<nat, int>

  function GetPoints(points: Points, steamId: nat): int {
    if steamId in points then points[steamId] else 0
  }

  /** The database's relative update. */
  function Credit(points: Points, steamId: nat, amount: int): Points {
    if steamId in points then points[steamId := points[steamId] + amount] else points
  }

  function AddPoints(points: Points, amount: int, steamId: nat, stored: bool): (bool, Points) {
    if amount <= 0 || !stored then (false, points) else (true, Credit(points, steamId, amount))
  }

  function SpendPoints(points: Points, amount: int, steamId: nat, stored: bool): (bool, Points) {
    if amount <= 0 || !stored then (false, points) else (true, Credit(points, steamId, -amount))
  }

  /** Both forms of the trade command, once the amount and the receiver are known. */
  function Trade(points: Points, sender: nat, receiver: nat, amount: int, spendStored: bool, addStored: bool)
    : (bool, Points)
  {
    if sender !in points || amount <= 0 || GetPoints(points, sender) < amount then (false, points)
    else if receiver == sender || receiver !in points then (false, points)
    else
      var (spent, after) := SpendPoints(points, amount, sender, spendStored);
      if spent then AddPoints(after, amount, receiver, addStored) else (false, after)
  }

  /** A purchase: the guard of BuyBeacon, BuyExperience, UnlockEngram, BuyCommand and, with its own price, BuyKit. */
  function Buy(points: Points, steamId: nat, price: int, stored: bool): (bool, Points) {
    if GetPoints(points, steamId) >= price then SpendPoints(points, price, steamId, stored) else (false, points)
  }

  const WORD: int := 0x1_0000_0000

  /** BuyItem multiplies an unsigned price by the amount in 32 bits and keeps the result in an int. */
  function FinalPrice(price: int, amount: int): int {
    var product := (price * amount) % WORD;
    if product < WORD / 2 then product else product - WORD
  }

  function BuyItem(points: Points, steamId: nat, price: int, amount: int, stored: bool): (bool, Points) {
    var final := FinalPrice(price, if amount <= 0 then 1 else amount);
    if final <= 0 then (false, points) else Buy(points, steamId, final, stored)
  }

  /** BuyDino: a delivery that fails is refunded. */
  function BuyDino(points: Points, steamId: nat, price: int, delivered: bool, spendStored: bool, refundStored: bool)
    : (bool, Points)
  {
    var (spent, after) := Buy(points, steamId, price, spendStored);
    if !spent then (false, after)
    else if delivered then (true, after)
    else (false, AddPoints(after, price, steamId, refundStored).1)
  }

  function BuyKit(points: Points, steamId: nat, price: int, amount: int, stored: bool): (bool, Points) {
    if amount <= 0 || price == 0 || price * amount <= 0 then (false, points)
    else Buy(points, steamId, price * amount, stored)
  }

  /** Division of C++: towards zero. */
  function TruncatedDiv(a: int, b: int): int
    requires b > 0
  {
    if a >= 0 then a / b else -(-a / b)
  }

  datatype RewardConfig = RewardConfig(
    receivePoints: int, negativePoints: bool, additionalPercent: int, losePercent: int)

  /** The player kill hook's transfer. */
  function KillReward(cfg: RewardConfig, points: Points, killer: nat, victim: nat, addStored: bool, spendStored: bool)
    : Points
  {
    if cfg.receivePoints < 0 then
      if cfg.negativePoints || GetPoints(points, killer) + cfg.receivePoints >= 0 then
        SpendPoints(points, -cfg.receivePoints, killer, spendStored).1
      else points
    else
      var victimPoints := GetPoints(points, victim);
      var final := cfg.receivePoints + TruncatedDiv(victimPoints * cfg.additionalPercent, 100);
      var lose := TruncatedDiv(final * cfg.losePercent, 100);
      if victimPoints > lose then
        var (added, after) := AddPoints(points, final, killer, addStored);
        if added then SpendPoints(after, lose, victim, spendStored).1 else after
      else points
  }

  /** The dino kill award. */
  function DinoReward(points: Points, award: int, negativePoints: bool, steamId: nat, stored: bool): Points {
    if award >= 0 then AddPoints(points, award, steamId, stored).1
    else if negativePoints || GetPoints(points, steamId) + award >= 0 then
      SpendPoints(points, -award, steamId, stored).1
    else points
  }

  datatype Op =
    | NewPlayer(steamId: nat)
    | Grant(steamId: nat, amount: int, stored: bool)    // timed rewards, sales and the AddPoints command
    | Trading(sender: nat, receiver: nat, amount: int, spendStored: bool, addStored: bool)
    | Purchase(steamId: nat, price: int, stored: bool)
    | ItemPurchase(steamId: nat, price: int, amount: int, stored: bool)
    | DinoPurchase(steamId: nat, price: int, delivered: bool, spendStored: bool, refundStored: bool)
    | KitPurchase(steamId: nat, price: int, amount: int, stored: bool)
    | PlayerKill(cfg: RewardConfig, killer: nat, victim: nat, addStored: bool, spendStored: bool)
    | DinoKill(award: int, negativePoints: bool, steamId: nat, stored: bool)

  function Apply(points: Points, op: Op): Points {
    match op
    case NewPlayer(p) => if p in points then points else points[p := 0]
    case Grant(p, amount, stored) => AddPoints(points, amount, p, stored).1
    case Trading(s, r, amount, a, b) => Trade(points, s, r, amount, a, b).1
    case Purchase(p, price, stored) => Buy(points, p, price, stored).1
    case ItemPurchase(p, price, amount, stored) => BuyItem(points, p, price, amount, stored).1
    case DinoPurchase(p, price, delivered, a, b) => BuyDino(points, p, price, delivered, a, b).1
    case KitPurchase(p, price, amount, stored) => BuyKit(points, p, price, amount, stored).1
    case PlayerKill(cfg, killer, victim, a, b) => KillReward(cfg, points, killer, victim, a, b)
    case DinoKill(award, negativePoints, p, stored) => DinoReward(points, award, negativePoints, p, stored)
  }

  function Run(points: Points, ops: seq<Op>): Points
    decreases |ops|
  {
    if ops == [] then points else Run(Apply(points, ops[0]), ops[1..])
  }

  // ----- balances

  ghost predicate NoDebt(points: Points) {
    forall p :: p in points ==> points[p] >= 0
  }

  predicate AllowsDebt(op: Op) {
    (op.PlayerKill? && op.cfg.negativePoints) || (op.DinoKill? && op.negativePoints)
  }

  lemma ApplyKeepsNoDebt(points: Points, op: Op)
    requires NoDebt(points) && !AllowsDebt(op)
    ensures NoDebt(Apply(points, op))
  {
  }

  /** Over any run of operations with NegativePoints off, no balance becomes negative. */
  lemma {:induction false} NoBalanceGoesNegative(points: Points, ops: seq<Op>)
    requires NoDebt(points) && forall i :: 0 <= i < |ops| ==> !AllowsDebt(ops[i])
    ensures NoDebt(Run(points, ops))
    decreases |ops|
  {
    if ops == [] {
    } else {
      ApplyKeepsNoDebt(points, ops[0]);
      NoBalanceGoesNegative(Apply(points, ops[0]), ops[1..]);
    }
  }

  /** With it on, a kill penalty makes a debt exactly when it is stored and a known killer has less than the penalty. */
  lemma PenaltyMakesDebtIff(cfg: RewardConfig, points: Points, killer: nat, victim: nat, added: bool, spent: bool)
    requires NoDebt(points) && cfg.receivePoints < 0
    ensures !NoDebt(KillReward(cfg, points, killer, victim, added, spent)) <==>
      spent && cfg.negativePoints && killer in points && points[killer] + cfg.receivePoints < 0
  {
    var after := KillReward(cfg, points, killer, victim, added, spent);
    if killer in points && after != points {
      assert after[killer] == points[killer] + cfg.receivePoints;
      assert forall p :: p in after && p != killer ==> after[p] == points[p];
    }
  }

  /** A penalty that makes a debt. */
  lemma PenaltyCanMakeDebt()
    ensures KillReward(RewardConfig(-10, true, 0, 0), map[1 := 5], 1, 2, true, true) == map[1 := -5]
  {
    assert (map[1 := 5])[1 := -5] == map[1 := -5];
  }

  // ----- conservation

  /** The points of some players together. */
  ghost function Total(points: Points, players: seq<nat>): int {
    if players == [] then 0 else GetPoints(points, players[0]) + Total(points, players[1..])
  }

  lemma {:induction false} TotalAfterCredit(points: Points, steamId: nat, amount: int, players: seq<nat>)
    requires Distinct(players)
    ensures Total(Credit(points, steamId, amount), players) ==
      Total(points, players) + if steamId in points && steamId in players then amount else 0
  {
    if players == [] {
    } else {
      TotalAfterCredit(points, steamId, amount, players[1..]);
    }
  }

  /**
   A trade never creates points. One that reports success moves the amount and leaves the total of any players that
   include both sides; it loses the amount exactly when the first write succeeds and the second does not.
   */
  lemma TradeConserves(points: Points, sender: nat, receiver: nat, amount: int, a: bool, b: bool, players: seq<nat>)
    requires Distinct(players) && sender in players && receiver in players
    ensures var (ok, after) := Trade(points, sender, receiver, amount, a, b);
      && (ok ==> Total(after, players) == Total(points, players))
      && (ok ==> after[sender] == points[sender] - amount && after[receiver] == points[receiver] + amount)
      && (Total(after, players) != Total(points, players) <==>
           a && !b && 0 < amount <= GetPoints(points, sender)
           && sender in points && receiver in points && receiver != sender)
  {
    TradeSucceedsIff(points, sender, receiver, amount, a, b);
    TotalAfterCredit(points, sender, -amount, players);
    TotalAfterCredit(Credit(points, sender, -amount), receiver, amount, players);
  }

  /**
   A trade succeeds exactly if sender and receiver are known and distinct, the amount is positive and covered, and both
   writes are stored. One that does not changes nothing, or, if only the second write fails, takes the sender's amount.
   */
  lemma TradeSucceedsIff(points: Points, sender: nat, receiver: nat, amount: int, a: bool, b: bool)
    ensures var (ok, after) := Trade(points, sender, receiver, amount, a, b);
      var valid := sender in points && receiver in points && receiver != sender && 0 < amount <= points[sender];
      && (ok <==> valid && a && b)
      && after == if valid && a
                  then if b then points[sender := points[sender] - amount][receiver := points[receiver] + amount]
                       else points[sender := points[sender] - amount]
                  else points
  {
  }

  /** A trade that loses its amount: the second write fails. */
  lemma TradeCanLosePoints()
    ensures Trade(map[1 := 5, 2 := 0], 1, 2, 5, true, false) == (false, map[1 := 0, 2 := 0])
  {
    assert (map[1 := 5, 2 := 0])[1 := 0] == map[1 := 0, 2 := 0];
  }

  /** A dino that is not delivered costs nothing if the refund is stored. */
  lemma FailedDeliveryIsRefunded(points: Points, steamId: nat, price: int,
        spendStored: bool, delivered: bool, refundStored: bool)
    ensures var (ok, after) := BuyDino(points, steamId, price, delivered, spendStored, refundStored);
      && (!delivered && refundStored ==> !ok && after == points)
      && (ok <==> delivered && spendStored && 0 < price <= GetPoints(points, steamId))
      && (ok ==> steamId in points)
      && after == (if spendStored && 0 < price <= GetPoints(points, steamId) && (delivered || !refundStored)
                   then points[steamId := points[steamId] - price] else points)
      && (after != points <==>
           spendStored && 0 < price <= GetPoints(points, steamId) && (delivered || !refundStored))
  {
    var (spent, after) := Buy(points, steamId, price, spendStored);
    if spent {
      assert after[steamId] == points[steamId] - price;
    }
  }

  /** BuyItem charges the price times the amount exactly when that product fits in an int. */
  lemma ItemPriceIsExactIff(price: int, amount: int)
    requires price >= 0 && amount > 0
    ensures FinalPrice(price, amount) == price * amount <==> price * amount < 0x8000_0000
  {
    assert price * amount >= 0;
  }

  /** The price of a purchase of items; an amount of zero or less counts as one. */
  function Cost(price: int, amount: int): int {
    price * (if amount <= 0 then 1 else amount)
  }

  /**
   Items are sold exactly if the database takes the payment and the player can pay what the product is modulo 2^32, that
   being positive as an int. That is what is paid; it falls short of the product exactly when the product reaches 2^32.
   */
  lemma ItemPurchaseIsExact(points: Points, steamId: nat, price: int, amount: int, stored: bool)
    ensures var (ok, after) := BuyItem(points, steamId, price, amount, stored);
      var cost := Cost(price, amount);
      && (ok <==> stored && 0 < cost % 0x1_0000_0000 < 0x8000_0000
                  && cost % 0x1_0000_0000 <= GetPoints(points, steamId))
      && after == (if ok then points[steamId := points[steamId] - cost % 0x1_0000_0000] else points)
      && (ok && price >= 0 ==>
            (points[steamId] - after[steamId] < cost <==> cost >= 0x1_0000_0000)
            && (points[steamId] - after[steamId] == cost <==> cost < 0x8000_0000))
  {
    if price >= 0 {
      CostIsPositive(price, amount);
    }
  }

  lemma CostIsPositive(price: int, amount: int)
    requires price >= 0
    ensures Cost(price, amount) >= 0
  {
  }

  /** 65537 items at 65536 points each are sold for 65536 points. */
  lemma ItemsCanSellShort()
    ensures BuyItem(map[1 := 65536], 1, 65536, 65537, true) == (true, map[1 := 0])
    ensures Cost(65536, 65537) > 65536
  {
    assert FinalPrice(65536, 65537) == 65536;
    assert (map[1 := 65536])[1 := 0] == map[1 := 0];
  }

  /** A kit is sold exactly if its price and the amount are positive, the player can pay, and the payment is taken. */
  lemma KitPurchaseIsExact(points: Points, steamId: nat, price: int, amount: int, stored: bool)
    ensures var (ok, after) := BuyKit(points, steamId, price, amount, stored);
      && (ok <==> stored && 0 < amount && 0 < price && price * amount <= GetPoints(points, steamId))
      && after == if ok then points[steamId := points[steamId] - price * amount] else points
  {
    if amount > 0 {
      ProductSign(price, amount);
    }
  }

  lemma ProductSign(a: int, b: int)
    requires b > 0
    ensures a * b > 0 <==> a > 0
  {
    if a <= 0 {
      assert -a * b >= 0;
    }
  }

  /** The remainder has the sign of the dividend and is smaller than the divisor. */
  lemma TruncatedDivIsExact(a: int, b: int, q: int)
    requires b > 0
    ensures q == TruncatedDiv(a, b) <==> if a >= 0 then 0 <= a - q * b < b else -b < a - q * b <= 0
  {
    if a >= 0 {
      QuotientIsUnique(a, b, q);
    } else {
      QuotientIsUnique(-a, b, -q);
      assert -q * b == -(q * b);
    }
  }

  lemma QuotientIsUnique(r: nat, b: int, q: int)
    requires b > 0
    ensures q == r / b <==> 0 <= r - q * b < b
  {
    var t := r / b;
    assert r == t * b + r % b;
    if q > t {
      MultipleAtLeast(q - t, b);
      assert (q - t) * b == q * b - t * b;
    } else if q < t {
      MultipleAtLeast(t - q, b);
      assert (t - q) * b == t * b - q * b;
    }
  }

  lemma MultipleAtLeast(k: int, b: int)
    requires k >= 1 && b > 0
    ensures k * b >= b
  {
  }

  /**
   What a kill without penalty does to any balance: the killer's gain and the victim's loss, each if its write is stored
   and the player known; the loss only after the gain. The two may be one player.
   */
  lemma KillTransferIsExact(cfg: RewardConfig, points: Points, killer: nat, victim: nat,
        added: bool, spent: bool, p: nat)
    requires cfg.receivePoints >= 0
    ensures var after := KillReward(cfg, points, killer, victim, added, spent);
      var final, lose := KillGain(cfg, points, victim), KillLoss(cfg, points, victim);
      var rewarded := GetPoints(points, victim) > lose && final > 0 && added;
      GetPoints(after, p) == GetPoints(points, p)
        + (if rewarded && p == killer && p in points then final else 0)
        - (if rewarded && spent && lose > 0 && p == victim && p in points then lose else 0)
  {
  }

  function KillGain(cfg: RewardConfig, points: Points, victim: nat): int {
    cfg.receivePoints + TruncatedDiv(GetPoints(points, victim) * cfg.additionalPercent, 100)
  }

  function KillLoss(cfg: RewardConfig, points: Points, victim: nat): int {
    TruncatedDiv(KillGain(cfg, points, victim) * cfg.losePercent, 100)
  }

  /**
   A kill adds to the points of any players exactly the stored gain of a known killer among them less the stored loss of
   a known victim among them; with both among them it conserves points exactly when all of the gain is the loss.
   */
  lemma KillCreatesPoints(cfg: RewardConfig, points: Points, killer: nat, victim: nat, added: bool, spent: bool,
        players: seq<nat>)
    requires cfg.receivePoints >= 0 && Distinct(players)
    ensures var after := KillReward(cfg, points, killer, victim, added, spent);
      var final, lose := KillGain(cfg, points, victim), KillLoss(cfg, points, victim);
      var rewarded := GetPoints(points, victim) > lose && final > 0 && added;
      && Total(after, players) - Total(points, players) ==
           (if rewarded && killer in points && killer in players then final else 0)
           - (if rewarded && spent && lose > 0 && victim in points && victim in players then lose else 0)
      && (killer in points && victim in points && killer in players && victim in players ==>
           (Total(after, players) == Total(points, players) <==> !rewarded || (spent && lose == final)))
  {
    var after := KillReward(cfg, points, killer, victim, added, spent);
    var final, lose := KillGain(cfg, points, victim), KillLoss(cfg, points, victim);
    var rewarded := GetPoints(points, victim) > lose && final > 0 && added;
    var gain := if rewarded && killer in points then final else 0;
    var loss := if rewarded && spent && lose > 0 && victim in points then lose else 0;
    forall p: nat | p in players
      ensures GetPoints(after, p) == GetPoints(points, p)
                + (if p == killer then gain else 0) - (if p == victim then loss else 0)
    {
      KillTransferIsExact(cfg, points, killer, victim, added, spent, p);
    }
    TotalShift(points, after, killer, gain, victim, loss, players);
  }

  /** A total moves by what the balances in it move. */
  lemma {:induction false} TotalShift(points: Points, after: Points, winner: nat, gain: int, loser: nat, loss: int,
        players: seq<nat>)
    requires Distinct(players)
    requires forall p :: p in players ==>
      GetPoints(after, p) == GetPoints(points, p)
        + (if p == winner then gain else 0) - (if p == loser then loss else 0)
    ensures Total(after, players) == Total(points, players)
      + (if winner in players then gain else 0) - (if loser in players then loss else 0)
  {
    if players == [] {
    } else {
      TotalShift(points, after, winner, gain, loser, loss, players[1..]);
    }
  }

  /** A kill that creates points: the killer gains 10 and the victim loses 5 of them. */
  lemma KillCanCreatePoints()
    ensures var cfg := RewardConfig(10, false, 0, 50);
      KillReward(cfg, map[1 := 0, 2 := 100], 1, 2, true, true) == map[1 := 10, 2 := 95]
  {
    var cfg := RewardConfig(10, false, 0, 50);
    assert KillGain(cfg, map[1 := 0, 2 := 100], 2) == 10 && KillLoss(cfg, map[1 := 0, 2 := 100], 2) == 5;
  }

  /** A dino award is paid in full exactly if it is stored and is no penalty, is allowed as a debt, or is covered. */
  lemma DinoAwardIsExact(points: Points, award: int, negativePoints: bool, steamId: nat, stored: bool)
    ensures var after := DinoReward(points, award, negativePoints, steamId, stored);
      after == if stored && steamId in points && (award >= 0 || negativePoints || points[steamId] >= -award)
               then points[steamId := points[steamId] + award] else points
  {
  }

  /** With debts allowed, a dino penalty makes one exactly when it is stored and a known player has less than it. */
  lemma DinoPenaltyMakesDebtIff(points: Points, award: int, negativePoints: bool, steamId: nat, stored: bool)
    requires NoDebt(points)
    ensures !NoDebt(DinoReward(points, award, negativePoints, steamId, stored)) <==>
      stored && negativePoints && steamId in points && points[steamId] + award < 0
  {
    DinoAwardIsExact(points, award, negativePoints, steamId, stored);
    var after := DinoReward(points, award, negativePoints, steamId, stored);
    if after != points {
      assert after[steamId] == points[steamId] + award;
      assert forall p :: p in after && p != steamId ==> after[p] == points[p];
    }
  }

  // ----- what a balance is made of

  /** The quotient rounded towards zero, told from its remainder. */
  ghost predicate IsQuotient(q: int, a: int, b: int)
    requires b > 0
  {
    if a >= 0 then 0 <= a - q * b < b else -b < a - q * b <= 0
  }

  /** Gain and loss of a kill, as the percentages define them. */
  ghost predicate IsTransfer(cfg: RewardConfig, victimPoints: int, gain: int, loss: int) {
    && IsQuotient(gain - cfg.receivePoints, victimPoints * cfg.additionalPercent, 100)
    && IsQuotient(loss, gain * cfg.losePercent, 100)
  }

  lemma TransferIs(cfg: RewardConfig, points: Points, victim: nat)
    ensures IsTransfer(cfg, GetPoints(points, victim), KillGain(cfg, points, victim), KillLoss(cfg, points, victim))
  {
    var v := GetPoints(points, victim) * cfg.additionalPercent;
    TruncatedDivIsExact(v, 100, TruncatedDiv(v, 100));
    var l := KillGain(cfg, points, victim) * cfg.losePercent;
    TruncatedDivIsExact(l, 100, TruncatedDiv(l, 100));
  }

  /** What a payment takes: all of the price if it is positive, covered and stored. */
  function Paid(points: Points, steamId: nat, price: int, stored: bool): int {
    if stored && steamId in points && 0 < price <= points[steamId] then price else 0
  }

  /** What an award or penalty moves: nothing if it is an uncovered penalty and debts are not allowed. */
  function Awarded(points: Points, steamId: nat, award: int, negativePoints: bool, stored: bool): int {
    if stored && steamId in points && (award >= 0 || negativePoints || points[steamId] + award >= 0) then award else 0
  }

  /** What an operation does to the balance of p, given the gain and loss if it is a kill without penalty. */
  function Net(points: Points, op: Op, p: nat, gain: int, loss: int): int {
    match op
    case NewPlayer(_) => 0
    case Grant(q, amount, stored) => if p == q && stored && q in points && amount > 0 then amount else 0
    case Trading(s, r, amount, a, b) =>
      var sent := if r in points && r != s then Paid(points, s, amount, a) else 0;
      (if p == r && b then sent else 0) - (if p == s then sent else 0)
    case Purchase(q, price, stored) => if p == q then -Paid(points, q, price, stored) else 0
    case ItemPurchase(q, price, amount, stored) =>
      var cost := Cost(price, amount) % 0x1_0000_0000;
      if p == q && cost < 0x8000_0000 then -Paid(points, q, cost, stored) else 0
    case DinoPurchase(q, price, delivered, a, b) =>
      if p == q && (delivered || !b) then -Paid(points, q, price, a) else 0
    case KitPurchase(q, price, amount, stored) =>
      if p == q && amount > 0 && price > 0 then -Paid(points, q, price * amount, stored) else 0
    case PlayerKill(cfg, killer, victim, a, b) =>
      if cfg.receivePoints < 0 then
        if p == killer then Awarded(points, killer, cfg.receivePoints, cfg.negativePoints, b) else 0
      else
        var rewarded := GetPoints(points, victim) > loss && gain > 0 && a;
        (if rewarded && p == killer && p in points then gain else 0)
        - (if rewarded && b && loss > 0 && p == victim && p in points then loss else 0)
    case DinoKill(award, negativePoints, q, stored) =>
      if p == q then Awarded(points, q, award, negativePoints, stored) else 0
  }

  ghost predicate Moves(points: Points, op: Op, p: nat, gain: int, loss: int) {
    && GetPoints(Apply(points, op), p) == GetPoints(points, p) + Net(points, op, p, gain, loss)
    && Apply(points, op).Keys == points.Keys + if op.NewPlayer? then {op.steamId} else {}
  }

  lemma PlainMoves(points: Points, op: Op, p: nat)
    requires op.NewPlayer? || op.Grant? || op.Purchase?
    ensures Moves(points, op, p, 0, 0)
  {
  }

  lemma TradeMoves(points: Points, s: nat, r: nat, amount: int, a: bool, b: bool, p: nat)
    ensures Moves(points, Trading(s, r, amount, a, b), p, 0, 0)
  {
    TradeSucceedsIff(points, s, r, amount, a, b);
  }

  lemma ItemMoves(points: Points, q: nat, price: int, amount: int, stored: bool, p: nat)
    ensures Moves(points, ItemPurchase(q, price, amount, stored), p, 0, 0)
  {
    ItemPurchaseIsExact(points, q, price, amount, stored);
  }

  lemma KitMoves(points: Points, q: nat, price: int, amount: int, stored: bool, p: nat)
    ensures Moves(points, KitPurchase(q, price, amount, stored), p, 0, 0)
  {
    KitPurchaseIsExact(points, q, price, amount, stored);
  }

  lemma DinoMoves(points: Points, q: nat, price: int, delivered: bool, a: bool, b: bool, p: nat)
    ensures Moves(points, DinoPurchase(q, price, delivered, a, b), p, 0, 0)
  {
    FailedDeliveryIsRefunded(points, q, price, a, delivered, b);
  }

  lemma AwardMoves(points: Points, award: int, negative: bool, q: nat, stored: bool, p: nat)
    ensures Moves(points, DinoKill(award, negative, q, stored), p, 0, 0)
  {
    DinoAwardIsExact(points, award, negative, q, stored);
  }

  lemma KillMoves(points: Points, op: Op, p: nat)
    requires op.PlayerKill?
    ensures Moves(points, op, p, KillGain(op.cfg, points, op.victim), KillLoss(op.cfg, points, op.victim))
  {
    if op.cfg.receivePoints >= 0 {
      KillTransferIsExact(op.cfg, points, op.killer, op.victim, op.addStored, op.spendStored, p);
    }
  }

  /** Every operation moves every balance by exactly that, and only a new player adds a row. */
  lemma OperationMoves(points: Points, op: Op, p: nat) returns (gain: int, loss: int)
    ensures Moves(points, op, p, gain, loss)
    ensures op.PlayerKill? ==> IsTransfer(op.cfg, GetPoints(points, op.victim), gain, loss)
  {
    gain, loss := 0, 0;
    match op
    case PlayerKill(cfg, _, victim, _, _) =>
      gain, loss := KillGain(cfg, points, victim), KillLoss(cfg, points, victim);
      TransferIs(cfg, points, victim);
      KillMoves(points, op, p);
    case Trading(s, r, amount, a, b) => TradeMoves(points, s, r, amount, a, b, p);
    case ItemPurchase(q, price, amount, stored) => ItemMoves(points, q, price, amount, stored, p);
    case KitPurchase(q, price, amount, stored) => KitMoves(points, q, price, amount, stored, p);
    case DinoPurchase(q, price, delivered, a, b) => DinoMoves(points, q, price, delivered, a, b, p);
    case DinoKill(award, negative, q, stored) => AwardMoves(points, award, negative, q, stored, p);
    case _ => PlainMoves(points, op, p);
  }

  /** Each operation of a run moves the balance of p by the amount at its place in the history. */
  ghost predicate IsHistory(points: Points, ops: seq<Op>, p: nat, moves: seq<int>)
    decreases |ops|
  {
    && |moves| == |ops|
    && (ops != [] ==>
          && IsMove(points, ops[0], p, moves[0])
          && IsHistory(Apply(points, ops[0]), ops[1..], p, moves[1..]))
  }

  ghost predicate IsMove(points: Points, op: Op, p: nat, move: int) {
    exists gain: int, loss: int ::
      move == Net(points, op, p, gain, loss)
      && (op.PlayerKill? ==> IsTransfer(op.cfg, GetPoints(points, op.victim), gain, loss))
  }

  function MovesTotal(moves: seq<int>): int {
    if moves == [] then 0 else moves[0] + MovesTotal(moves[1..])
  }

  /** Over any run a balance is what it was and what the operations moved, neither more nor less. */
  lemma {:induction false} BalanceIsItsHistory(points: Points, ops: seq<Op>, p: nat) returns (moves: seq<int>)
    ensures IsHistory(points, ops, p, moves)
    ensures GetPoints(Run(points, ops), p) == GetPoints(points, p) + MovesTotal(moves)
    decreases |ops|
  {
    if ops == [] {
      moves := [];
    } else {
      var gain, loss := OperationMoves(points, ops[0], p);
      var rest := BalanceIsItsHistory(Apply(points, ops[0]), ops[1..], p);
      var move := Net(points, ops[0], p, gain, loss);
      assert IsMove(points, ops[0], p, move);
      moves := [move] + rest;
      assert moves[1..] == rest;
    }
  }
}
