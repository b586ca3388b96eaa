/** Buying kits: points are spent, then the player's kit record is rewritten, and the second write is not checked. */
module KitPurchase {
  import opened Common
  import Kits
  import KitStore
  import Ledger
  import Shop

  /** What the command reads: permission checks, the configured price, and the amount asked for. */
  datatype Order = Order(steamId: nat, kit: string, usable: bool, price: int, amount: int)

  /** Whether the order was paid, and what it leaves. */
  function Buy(cfg: Kits.Config, points: Ledger.Points, rows: Kits.Rows, order: Order,
        spendStored: bool, kitStored: bool): (bool, Ledger.Points, Kits.Rows)
  {
    if order.steamId !in rows || !order.usable || order.amount <= 0 || order.kit !in cfg.defaults then
      (false, points, rows)
    else
      var (paid, after) := Ledger.BuyKit(points, order.steamId, order.price, order.amount, spendStored);
      (paid, after,
       if paid then Kits.ChangeKitAmount(cfg, rows, order.kit, order.amount, order.steamId, kitStored).1 else rows)
  }

  /** BuyKit on the two stores. */
  method BuyKit(shop: Shop.Store, kits: KitStore.Store, order: Order, spendStored: bool, kitStored: bool)
    returns (paid: bool)
    modifies shop, kits
    ensures (paid, shop.points, kits.rows) ==
      Buy(kits.cfg, old(shop.points), old(kits.rows), order, spendStored, kitStored)
  {
    paid := false;
    if order.steamId in kits.rows {
      if !order.usable || order.amount <= 0 || order.kit !in kits.cfg.defaults || order.price == 0 {
        return;
      }
      var final := order.price * order.amount;
      if final <= 0 {
        return;
      }
      if Ledger.GetPoints(shop.points, order.steamId) >= final {
        paid := shop.SpendPoints(final, order.steamId, spendStored);
      }
      if paid {
        var _ := kits.ChangeKitAmount(order.kit, order.amount, order.steamId, kitStored);
      }
    }
  }

  /** A known player may buy a positive amount of a configured kit that has a price. */
  predicate Acceptable(cfg: Kits.Config, rows: Kits.Rows, order: Order) {
    && order.steamId in rows && order.usable && order.kit in cfg.defaults
    && order.amount > 0 && order.price > 0
  }

  /**
   Points and kits are columns of one table, so a player has both or neither. An order is paid exactly if nothing speaks
   against it; then price times amount is gone, and the kits have arrived exactly if the second write was stored. Kits
   never arrive unpaid, and nobody else's points or kits change.
   */
  lemma PaidKitsArriveIffStored(cfg: Kits.Config, points: Ledger.Points, rows: Kits.Rows, order: Order,
        spendStored: bool, kitStored: bool, p: nat, k: string)
    requires order.steamId in points <==> order.steamId in rows
    ensures var (paid, after, rows') := Buy(cfg, points, rows, order, spendStored, kitStored);
      var cost := order.price * order.amount;
      var before, now := Kits.GetKitAmount(cfg, rows, p, k), Kits.GetKitAmount(cfg, rows', p, k);
      && (paid <==> Acceptable(cfg, rows, order) && spendStored && cost <= Ledger.GetPoints(points, order.steamId))
      && Ledger.GetPoints(after, p) == Ledger.GetPoints(points, p) - (if paid && p == order.steamId then cost else 0)
      && now == (if paid && kitStored && p == order.steamId && k == order.kit
                 then AtLeastZero(before + order.amount) else before)
      && (p == order.steamId && k == order.kit && before >= 0 ==>
            (now == before + order.amount <==> order.amount == 0 || (paid && kitStored)))
  {
    Ledger.KitPurchaseIsExact(points, order.steamId, order.price, order.amount, spendStored);
  }

  /** An order that takes the points and brings nothing, because the second write fails. */
  lemma PaidKitsCanBeLost()
    ensures
      var cfg := Kits.Config(["starter"], map["starter" := 0]);
      var (paid, points, rows) := Buy(cfg, map[1 := 5], map[1 := map[]], Order(1, "starter", true, 5, 1), true, false);
      paid && points == map[1 := 0] && Kits.GetKitAmount(cfg, rows, 1, "starter") == 0
  {
    assert (map[1 := 5])[1 := 0] == map[1 := 0];
  }
}
