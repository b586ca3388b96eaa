/**
 Selling items out of an inventory of stacks: a first pass selects stacks until they hold enough, a second pass removes
 them and leaves the surplus in the last one.
 */
module SellItem {

  /** removable: the item has a class, may leave the inventory and is no engram. Ids are unique in an inventory. */
  datatype Stack = Stack(id: nat, blueprint: string, quantity: nat, removable: bool)

  predicate Sellable(s: Stack, blueprint: string) {
    s.removable && s.blueprint == blueprint
  }

  ghost predicate IdsDistinct(items: seq<Stack>) {
    forall i, j :: 0 <= i < j < |items| ==> items[i].id != items[j].id
  }

  /** What selling takes: needed units, from the first stacks that can be sold, in order. */
  ghost function Taken(items: seq<Stack>, blueprint: string, needed: int): seq<Stack> {
    if items == [] || needed <= 0 then items
    else if !Sellable(items[0], blueprint) then [items[0]] + Taken(items[1..], blueprint, needed)
    else if items[0].quantity <= needed then Taken(items[1..], blueprint, needed - items[0].quantity)
    else [items[0].(quantity := items[0].quantity - needed)] + items[1..]
  }

  /** Units of a blueprint that can be sold. */
  ghost function Stock(items: seq<Stack>, blueprint: string): nat {
    if items == [] then 0
    else
      (if items[0].removable && items[0].blueprint == blueprint then items[0].quantity else 0)
      + Stock(items[1..], blueprint)
  }

  /** The stacks the first pass selects. */
  ghost function Selected(items: seq<Stack>, blueprint: string, needed: int): seq<Stack> {
    if items == [] || needed <= 0 then []
    else if !Sellable(items[0], blueprint) then Selected(items[1..], blueprint, needed)
    else [items[0]] + Selected(items[1..], blueprint, needed - items[0].quantity)
  }

  lemma SelectionUnfolds(items: seq<Stack>, i: nat, blueprint: string, needed: int)
    requires i < |items| && needed > 0
    ensures Selected(items[i..], blueprint, needed) ==
      if Sellable(items[i], blueprint) then [items[i]] + Selected(items[i + 1..], blueprint, needed - items[i].quantity)
      else Selected(items[i + 1..], blueprint, needed)
  {
    assert items[i..][0] == items[i] && items[i..][1..] == items[i + 1..];
  }

  ghost function Sum(items: seq<Stack>): nat {
    if items == [] then 0 else items[0].quantity + Sum(items[1..])
  }

  lemma {:induction false} SumAppend(items: seq<Stack>, s: Stack)
    ensures Sum(items + [s]) == Sum(items) + s.quantity
  {
    if items == [] {
    } else {
      assert (items + [s])[1..] == items[1..] + [s];
      SumAppend(items[1..], s);
    }
  }

  /** The selection reaches the needed amount exactly when the stock does. */
  lemma {:induction false} SelectionReaches(items: seq<Stack>, blueprint: string, needed: int)
    ensures Sum(Selected(items, blueprint, needed)) >= needed <==> needed <= 0 || Stock(items, blueprint) >= needed
  {
    if items == [] || needed <= 0 {
    } else {
      var rest := if Sellable(items[0], blueprint) then needed - items[0].quantity else needed;
      SelectionReaches(items[1..], blueprint, rest);
    }
  }

  // ----- the inventory

  /** A stack set to a new quantity, wherever it is. */
  ghost function WithQuantity(items: seq<Stack>, id: nat, quantity: nat): seq<Stack> {
    if items == [] then []
    else
      [if items[0].id == id then items[0].(quantity := quantity) else items[0]]
      + WithQuantity(items[1..], id, quantity)
  }

  ghost function WithoutId(items: seq<Stack>, id: nat): seq<Stack> {
    if items == [] then [] else (if items[0].id == id then [] else [items[0]]) + WithoutId(items[1..], id)
  }

  /** The second pass over the selected stacks, with count units seen so far. */
  ghost function Removal(items: seq<Stack>, selected: seq<Stack>, count: nat, needed: nat): seq<Stack>
    decreases |selected|
  {
    if selected == [] then items
    else
      var total := count + selected[0].quantity;
      var id := selected[0].id;
      var next := if total > needed then WithQuantity(items, id, total - needed) else WithoutId(items, id);
      Removal(next, selected[1..], total, needed)
  }

  lemma RemovalUnfolds(items: seq<Stack>, selected: seq<Stack>, i: nat, count: nat, needed: nat)
    requires i < |selected|
    ensures
      var total := count + selected[i].quantity;
      Removal(items, selected[i..], count, needed) ==
      Removal(if total > needed then WithQuantity(items, selected[i].id, total - needed)
              else WithoutId(items, selected[i].id), selected[i + 1..], total, needed)
  {
    assert selected[i..][0] == selected[i] && selected[i..][1..] == selected[i + 1..];
  }

  lemma OtherHeadUntouched(head: Stack, items: seq<Stack>, id: nat, quantity: nat)
    requires head.id != id
    ensures WithQuantity([head] + items, id, quantity) == [head] + WithQuantity(items, id, quantity)
    ensures WithoutId([head] + items, id) == [head] + WithoutId(items, id)
  {
    assert ([head] + items)[1..] == items;
  }

  lemma {:induction false} OtherHeadStays(head: Stack, items: seq<Stack>, selected: seq<Stack>, count: nat, needed: nat)
    requires forall s :: s in selected ==> s.id != head.id
    ensures Removal([head] + items, selected, count, needed) == [head] + Removal(items, selected, count, needed)
    decreases |selected|
  {
    if selected == [] {
    } else {
      var id, total := selected[0].id, count + selected[0].quantity;
      assert selected[0] in selected;
      OtherHeadUntouched(head, items, id, if total > needed then total - needed else 0);
      var next := if total > needed then WithQuantity(items, id, total - needed) else WithoutId(items, id);
      OtherHeadStays(head, next, selected[1..], total, needed);
    }
  }

  lemma {:induction false} AbsentIdStays(items: seq<Stack>, id: nat, quantity: nat)
    requires forall s :: s in items ==> s.id != id
    ensures WithQuantity(items, id, quantity) == items && WithoutId(items, id) == items
  {
    if items == [] {
    } else {
      AbsentIdStays(items[1..], id, quantity);
    }
  }

  lemma {:induction false} SelectedInside(items: seq<Stack>, blueprint: string, needed: int)
    ensures forall s :: s in Selected(items, blueprint, needed) ==> s in items
  {
    if items == [] || needed <= 0 {
    } else {
      var rest := if Sellable(items[0], blueprint) then needed - items[0].quantity else needed;
      SelectedInside(items[1..], blueprint, rest);
    }
  }

  /** Removing the first stack of an inventory, by its id, leaves the others alone. */
  lemma RemovalOfHead(head: Stack, tail: seq<Stack>, rest: seq<Stack>, count: nat, needed: nat)
    requires forall s :: s in tail ==> s.id != head.id
    ensures
      var total := count + head.quantity;
      Removal([head] + tail, [head] + rest, count, needed) ==
      Removal(if total > needed then [head.(quantity := total - needed)] + tail else tail, rest, total, needed)
  {
    var items, total := [head] + tail, count + head.quantity;
    assert items[1..] == tail && ([head] + rest)[1..] == rest;
    HeadByItsId(head, tail, if total > needed then total - needed else 0);
  }

  lemma HeadByItsId(head: Stack, tail: seq<Stack>, quantity: nat)
    requires forall s :: s in tail ==> s.id != head.id
    ensures WithQuantity([head] + tail, head.id, quantity) == [head.(quantity := quantity)] + tail
    ensures WithoutId([head] + tail, head.id) == tail
  {
    assert ([head] + tail)[1..] == tail;
    AbsentIdStays(tail, head.id, quantity);
  }

  /** The two passes together take exactly what Taken says, if there is enough. */
  lemma {:induction false} TwoPassesTake(items: seq<Stack>, blueprint: string, count: nat, needed: nat)
    requires IdsDistinct(items) && count <= needed && Stock(items, blueprint) >= needed - count
    ensures Removal(items, Selected(items, blueprint, needed - count), count, needed) ==
      Taken(items, blueprint, needed - count)
    decreases |items|
  {
    if items == [] || needed <= count {
    } else {
      var head, tail := items[0], items[1..];
      assert items == [head] + tail;
      if !Sellable(head, blueprint) {
        TwoPassesTake(tail, blueprint, count, needed);
        PassOver(head, tail, blueprint, count, needed);
      } else {
        if count + head.quantity <= needed {
          TwoPassesTake(tail, blueprint, count + head.quantity, needed);
        }
        PassHead(head, tail, blueprint, count, needed);
      }
    }
  }

  /** The passes leave a stack that is not for sale. */
  lemma PassOver(head: Stack, tail: seq<Stack>, blueprint: string, count: nat, needed: nat)
    requires IdsDistinct([head] + tail) && !Sellable(head, blueprint) && count < needed
    ensures var selected := Selected(tail, blueprint, needed - count);
      && Selected([head] + tail, blueprint, needed - count) == selected
      && Removal([head] + tail, selected, count, needed) == [head] + Removal(tail, selected, count, needed)
  {
    assert ([head] + tail)[1..] == tail;
    SelectedInside(tail, blueprint, needed - count);
    NotAmongTail(head, tail);
    OtherHeadStays(head, tail, Selected(tail, blueprint, needed - count), count, needed);
  }

  lemma NotAmongTail(head: Stack, tail: seq<Stack>)
    requires IdsDistinct([head] + tail)
    ensures forall s :: s in tail ==> s.id != head.id
  {
    forall s | s in tail ensures s.id != head.id {
      var j :| 0 <= j < |tail| && tail[j] == s;
      assert ([head] + tail)[0] == head && ([head] + tail)[j + 1] == s;
    }
  }

  /** They take from a stack that is for sale as much as is still needed. */
  lemma PassHead(head: Stack, tail: seq<Stack>, blueprint: string, count: nat, needed: nat)
    requires IdsDistinct([head] + tail) && Sellable(head, blueprint) && count < needed
    ensures var total := count + head.quantity;
      var rest := Selected(tail, blueprint, needed - total);
      && Selected([head] + tail, blueprint, needed - count) == [head] + rest
      && Removal([head] + tail, [head] + rest, count, needed) ==
           if total > needed then [head.(quantity := total - needed)] + tail else Removal(tail, rest, total, needed)
  {
    assert ([head] + tail)[1..] == tail;
    NotAmongTail(head, tail);
    RemovalOfHead(head, tail, Selected(tail, blueprint, needed - (count + head.quantity)), count, needed);
  }

  // ----- what is taken

  /** Selling lowers the stock by exactly the amount needed. */
  lemma {:induction false} TakenLowersStock(items: seq<Stack>, blueprint: string, needed: nat)
    requires Stock(items, blueprint) >= needed
    ensures Stock(Taken(items, blueprint, needed), blueprint) == Stock(items, blueprint) - needed
    decreases |items|
  {
    if items == [] || needed <= 0 {
    } else {
      var head, taken := items[0], Taken(items, blueprint, needed);
      if !Sellable(head, blueprint) {
        TakenLowersStock(items[1..], blueprint, needed);
        assert taken[1..] == Taken(items[1..], blueprint, needed);
      } else if head.quantity <= needed {
        TakenLowersStock(items[1..], blueprint, needed - head.quantity);
      } else {
        assert taken[1..] == items[1..];
      }
    }
  }

  /** All other items: those of another blueprint and those that cannot be sold, in their order. */
  ghost function Rest(items: seq<Stack>, blueprint: string): seq<Stack> {
    if items == [] then []
    else
      (if items[0].removable && items[0].blueprint == blueprint then [] else [items[0]])
      + Rest(items[1..], blueprint)
  }

  /** Nothing else is touched. */
  lemma {:induction false} TakenLeavesTheRest(items: seq<Stack>, blueprint: string, needed: int)
    ensures Rest(Taken(items, blueprint, needed), blueprint) == Rest(items, blueprint)
  {
    if items == [] || needed <= 0 {
    } else {
      var head, taken := items[0], Taken(items, blueprint, needed);
      if !Sellable(head, blueprint) {
        TakenLeavesTheRest(items[1..], blueprint, needed);
        assert taken[1..] == Taken(items[1..], blueprint, needed);
      } else if head.quantity <= needed {
        TakenLeavesTheRest(items[1..], blueprint, needed - head.quantity);
      } else {
        assert taken[1..] == items[1..];
      }
    }
  }

  lemma {:induction false} RestMember(items: seq<Stack>, blueprint: string, s: Stack)
    ensures s in Rest(items, blueprint) <==> s in items && !(s.removable && s.blueprint == blueprint)
  {
    if items == [] {
    } else {
      RestMember(items[1..], blueprint, s);
    }
  }

  /** A stack of another blueprint, and one that may not leave the inventory, is there after a sale as it was before. */
  lemma OtherStacksStay(items: seq<Stack>, blueprint: string, needed: int, s: Stack)
    requires s.blueprint != blueprint || !s.removable
    ensures s in Taken(items, blueprint, needed) <==> s in items
  {
    TakenLeavesTheRest(items, blueprint, needed);
    RestMember(items, blueprint, s);
    RestMember(Taken(items, blueprint, needed), blueprint, s);
  }

  /**
   The sellable stacks left are the last ones of those there were, unchanged, but for at most the first, which may have
   been made smaller.
   */
  ghost predicate LastOnes(left: seq<Stack>, were: seq<Stack>) {
    && |left| <= |were|
    && (left != [] ==>
         var first := were[|were| - |left|];
         && left[1..] == were[|were| - |left| + 1..]
         && left[0] == first.(quantity := left[0].quantity) && left[0].quantity <= first.quantity)
  }

  ghost function Matching(items: seq<Stack>, blueprint: string): seq<Stack> {
    if items == [] then []
    else
      (if items[0].removable && items[0].blueprint == blueprint then [items[0]] else [])
      + Matching(items[1..], blueprint)
  }

  lemma {:induction false} TakenShrinksOneStack(items: seq<Stack>, blueprint: string, needed: int)
    ensures LastOnes(Matching(Taken(items, blueprint, needed), blueprint), Matching(items, blueprint))
  {
    if items == [] || needed <= 0 {
    } else {
      var head, tail := items[0], items[1..];
      if !Sellable(head, blueprint) {
        TakenShrinksOneStack(tail, blueprint, needed);
        MatchingCons(head, tail, blueprint);
        MatchingCons(head, Taken(tail, blueprint, needed), blueprint);
        assert items == [head] + tail;
      } else if head.quantity <= needed {
        TakenShrinksOneStack(tail, blueprint, needed - head.quantity);
        OneMoreBefore(Matching(Taken(items, blueprint, needed), blueprint), Matching(tail, blueprint), head);
      } else {
        MatchingCons(head.(quantity := head.quantity - needed), tail, blueprint);
      }
    }
  }

  lemma MatchingCons(head: Stack, tail: seq<Stack>, blueprint: string)
    ensures Matching([head] + tail, blueprint) ==
      (if head.removable && head.blueprint == blueprint then [head] else []) + Matching(tail, blueprint)
  {
    assert ([head] + tail)[1..] == tail;
  }

  lemma OneMoreBefore(left: seq<Stack>, were: seq<Stack>, head: Stack)
    requires LastOnes(left, were)
    ensures LastOnes(left, [head] + were)
  {
    if left != [] {
      var from := |were| - |left|;
      assert ([head] + were)[from + 2..] == were[from + 1..];
    }
  }
}
