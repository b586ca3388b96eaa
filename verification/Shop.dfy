/** The shop's operations, updating balances and inventories in place. */
module Shop {
  import opened Ledger
  import opened SellItem

  class Inventory {
    var items: seq<Stack>

    ghost predicate Valid()
      reads this
    {
      IdsDistinct(items)
    }

    method SetQuantity(id: nat, quantity: nat)
      modifies this
      ensures items == WithQuantity(old(items), id, quantity)
    {
      var i := |items|;
      ghost var was := items;
      while i > 0
        invariant 0 <= i <= |items| == |was|
        invariant items[..i] == was[..i] && items[i..] == WithQuantity(was[i..], id, quantity)
      {
        i := i - 1;
        assert was[i..][1..] == was[i + 1..];
        if items[i].id == id {
          items := items[i := items[i].(quantity := quantity)];
        }
        assert items[i..] == [items[i]] + items[i + 1..];
      }
    }

    method RemoveItem(id: nat)
      modifies this
      ensures items == WithoutId(old(items), id)
    {
      var i, left := |items|, [];
      while i > 0
        invariant 0 <= i <= |items| && items == old(items)
        invariant left == WithoutId(items[i..], id)
      {
        i := i - 1;
        assert items[i..][1..] == items[i + 1..];
        if items[i].id != id {
          left := [items[i]] + left;
        }
      }
      items := left;
    }
  }

  /**
   With enough stock the needed units go, and the price is credited if the database takes it; the items are gone even
   if it does not. In every other case nothing changes.
   */
  ghost function Sale(points: Points, items: seq<Stack>, blueprint: string, price: int, needed: int, steamId: nat,
        stored: bool): (bool, Points, seq<Stack>)
  {
    if price > 0 && needed > 0 && Stock(items, blueprint) >= needed then
      var (ok, after) := Ledger.AddPoints(points, price, steamId, stored);
      (ok, after, Taken(items, blueprint, needed))
    else (false, points, items)
  }

  /**
   A sale takes units exactly if price and amount are positive and the stock suffices; then exactly the needed ones, and
   nothing else. The price arrives exactly if the write is stored and the player has a balance; no other one changes.
   */
  lemma SaleIsExact(points: Points, items: seq<Stack>, blueprint: string, price: int, needed: int, steamId: nat,
        stored: bool, p: nat)
    ensures var (success, after, left) := Sale(points, items, blueprint, price, needed, steamId, stored);
      var sold := price > 0 && needed > 0 && Stock(items, blueprint) >= needed;
      && Stock(left, blueprint) == Stock(items, blueprint) - (if sold then needed else 0)
      && Rest(left, blueprint) == Rest(items, blueprint)
      && LastOnes(Matching(left, blueprint), Matching(items, blueprint))
      && (!sold ==> left == items)
      && (success <==> sold && stored)
      && GetPoints(after, p) == GetPoints(points, p) +
           (if sold && stored && p == steamId && p in points then price else 0)
  {
    if price > 0 && needed > 0 && Stock(items, blueprint) >= needed {
      TakenLowersStock(items, blueprint, needed);
      TakenLeavesTheRest(items, blueprint, needed);
      TakenShrinksOneStack(items, blueprint, needed);
    }
  }

  /** A sale whose credit is not stored: the stack is gone and nothing was paid. */
  lemma SaleCanLoseItems()
    ensures Sale(map[1 := 0], [Stack(4, "wood", 5, true)], "wood", 10, 5, 1, false) == (false, map[1 := 0], [])
  {
    var items := [Stack(4, "wood", 5, true)];
    assert items[1..] == [] && Stock(items, "wood") == 5 && Taken(items, "wood", 5) == [];
  }

  class Store {
    var points: Points

    method AddPoints(amount: int, steamId: nat, stored: bool) returns (ok: bool)
      modifies this
      ensures (ok, points) == Ledger.AddPoints(old(points), amount, steamId, stored)
    {
      if amount <= 0 || !stored {
        return false;
      }
      if steamId in points {
        points := points[steamId := points[steamId] + amount];
      }
      return true;
    }

    method SpendPoints(amount: int, steamId: nat, stored: bool) returns (ok: bool)
      modifies this
      ensures (ok, points) == Ledger.SpendPoints(old(points), amount, steamId, stored)
    {
      if amount <= 0 || !stored {
        return false;
      }
      if steamId in points {
        points := points[steamId := points[steamId] - amount];
      }
      return true;
    }

    method Trade(sender: nat, receiver: nat, amount: int, spendStored: bool, addStored: bool) returns (ok: bool)
      modifies this
      ensures (ok, points) == Ledger.Trade(old(points), sender, receiver, amount, spendStored, addStored)
    {
      ok := false;
      if sender in points {
        if amount <= 0 || GetPoints(points, sender) < amount || receiver == sender {
          return;
        }
        if receiver in points {
          var spent := SpendPoints(amount, sender, spendStored);
          if spent {
            ok := AddPoints(amount, receiver, addStored);
          }
        }
      }
    }

    method BuyItem(steamId: nat, price: int, amount: int, stored: bool) returns (ok: bool)
      modifies this
      ensures (ok, points) == Ledger.BuyItem(old(points), steamId, price, amount, stored)
    {
      var final := FinalPrice(price, if amount <= 0 then 1 else amount);
      if final <= 0 {
        return false;
      }
      ok := false;
      if GetPoints(points, steamId) >= final {
        ok := SpendPoints(final, steamId, stored);
      }
    }

    method BuyDino(steamId: nat, price: int, delivered: bool, spendStored: bool, refundStored: bool) returns (ok: bool)
      modifies this
      ensures (ok, points) == Ledger.BuyDino(old(points), steamId, price, delivered, spendStored, refundStored)
    {
      var spent := false;
      if GetPoints(points, steamId) >= price {
        spent := SpendPoints(price, steamId, spendStored);
      }
      if !spent {
        return false;
      }
      if !delivered {
        var _ := AddPoints(price, steamId, refundStored);
      }
      return delivered;
    }

    method OnPlayerKill(cfg: RewardConfig, killer: nat, victim: nat, addStored: bool, spendStored: bool)
      modifies this
      ensures points == KillReward(cfg, old(points), killer, victim, addStored, spendStored)
    {
      if cfg.receivePoints < 0 {
        if cfg.negativePoints || GetPoints(points, killer) - -cfg.receivePoints >= 0 {
          var _ := SpendPoints(-cfg.receivePoints, killer, spendStored);
        }
      } else {
        var victimPoints := GetPoints(points, victim);
        var final := cfg.receivePoints + TruncatedDiv(victimPoints * cfg.additionalPercent, 100);
        var lose := TruncatedDiv(final * cfg.losePercent, 100);
        if victimPoints > lose {
          var added := AddPoints(final, killer, addStored);
          if added {
            var _ := SpendPoints(lose, victim, spendStored);
          }
        }
      }
    }

    /** SellItem. */
    method Sell(inventory: Inventory, blueprint: string, unitPrice: int, unitAmount: int, amount: int,
          steamId: nat, stored: bool)
      returns (success: bool)
      requires inventory.Valid()
      modifies this, inventory
      ensures (success, points, inventory.items) ==
        Sale(old(points), old(inventory.items), blueprint, unitPrice * amount, unitAmount * amount, steamId, stored)
    {
      var price := unitPrice * amount;
      if price <= 0 {
        return false;
      }
      var needed := unitAmount * amount;
      if needed <= 0 {
        return false;
      }
      var selected, count := Select(inventory.items, blueprint, needed);
      SelectionReaches(inventory.items, blueprint, needed);
      success := false;
      if count >= needed {
        TwoPassesTake(inventory.items, blueprint, 0, needed);
        RemoveSelected(inventory, selected, needed);
        success := AddPoints(price, steamId, stored);
      }
    }

    /** The counting pass. */
    method Select(items: seq<Stack>, blueprint: string, needed: int) returns (selected: seq<Stack>, count: nat)
      requires needed > 0
      ensures selected == Selected(items, blueprint, needed) && count == Sum(selected)
    {
      selected, count := [], 0;
      var i := 0;
      while i < |items|
        invariant 0 <= i <= |items| && count == Sum(selected) && count < needed
        invariant Selected(items, blueprint, needed) == selected + Selected(items[i..], blueprint, needed - count)
      {
        SelectionUnfolds(items, i, blueprint, needed - count);
        if Sellable(items[i], blueprint) {
          SumAppend(selected, items[i]);
          selected := selected + [items[i]];
          count := count + items[i].quantity;
          if count >= needed {
            break;
          }
        }
        i := i + 1;
      }
    }

    /** What the removal pass does with one stack, once count units have been seen with it. */
    method RemoveOne(inventory: Inventory, item: Stack, count: nat, needed: nat)
      modifies inventory
      ensures inventory.items == if count > needed then WithQuantity(old(inventory.items), item.id, count - needed)
                                 else WithoutId(old(inventory.items), item.id)
    {
      if count > needed {
        inventory.SetQuantity(item.id, count - needed);
      } else {
        inventory.RemoveItem(item.id);
      }
    }

    /** The removal pass. */
    method RemoveSelected(inventory: Inventory, selected: seq<Stack>, needed: nat)
      modifies inventory
      ensures inventory.items == Removal(old(inventory.items), selected, 0, needed)
    {
      var count: nat, i := 0, 0;
      ghost var goal := Removal(inventory.items, selected, 0, needed);
      assert selected[0..] == selected;
      while i < |selected|
        invariant 0 <= i <= |selected|
        invariant Removal(inventory.items, selected[i..], count, needed) == goal
      {
        RemovalUnfolds(inventory.items, selected, i, count, needed);
        count := count + selected[i].quantity;
        RemoveOne(inventory, selected[i], count, needed);
        i := i + 1;
      }
      assert selected[i..] == [];
    }
  }
}
