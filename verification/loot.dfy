/** Backpack capacity, greedy crate looting and sealing one item. */
module Loot {
  import opened Common
  import opened State
  import opened Schemas
  import Doors

  /** `getBackpackUsed`: the summed sizes of the stacks. */
  function SizeOf(stacks: seq<ItemStack>): int
    decreases |stacks|
  {
    if |stacks| == 0 then 0 else stacks[0].size + SizeOf(stacks[1..])
  }

  lemma {:induction false} SizeOfAppend(a: seq<ItemStack>, b: seq<ItemStack>)
    ensures SizeOf(a + b) == SizeOf(a) + SizeOf(b)
    decreases |a|
  {
    if |a| == 0 {
      assert a + b == b;
    } else {
      assert (a + b)[1..] == a[1..] + b;
      assert (a + b)[0] == a[0];
      SizeOfAppend(a[1..], b);
    }
  }

  function BackpackUsed(inv: Inventory): int {
    SizeOf(inv.backpack)
  }

  /** `canFit`: the stack fits when the used space plus its size stays within capacity. */
  function CanFit(inv: Inventory, size: int): (r: bool)
    ensures r <==> size <= inv.capacity - BackpackUsed(inv)
  {
    BackpackUsed(inv) + size <= inv.capacity
  }

  /** The item loop of `tryLoot`: each crate stack in order goes into the
      backpack when it fits at that moment, otherwise it stays behind. */
  function LootLoop(inv: Inventory, items: seq<ItemStack>): (r: (Inventory, seq<ItemStack>, seq<ItemStack>))
    ensures r.0 == inv.(backpack := inv.backpack + r.1)
    ensures multiset(r.1) + multiset(r.2) == multiset(items)
    ensures BackpackUsed(inv) <= inv.capacity ==> BackpackUsed(r.0) <= inv.capacity
    decreases |items|
  {
    if |items| == 0 then (inv, [], [])
    else
      assert items == [items[0]] + items[1..];
      if CanFit(inv, items[0].size) then
        var inv1 := inv.(backpack := inv.backpack + [items[0]]);
        SizeOfAppend(inv.backpack, [items[0]]);
        assert SizeOf([items[0]]) == items[0].size;
        var r := LootLoop(inv1, items[1..]);
        assert inv1.backpack + r.1 == inv.backpack + ([items[0]] + r.1);
        (r.0, [items[0]] + r.1, r.2)
      else
        var r := LootLoop(inv, items[1..]);
        (r.0, r.1, [items[0]] + r.2)
  }

  /** Greedy and maximal: with non-negative sizes, nothing left behind would
      fit the final backpack. */
  lemma {:induction false} LootLoopMaximal(inv: Inventory, items: seq<ItemStack>)
    requires forall i :: 0 <= i < |items| ==> items[i].size >= 0
    ensures BackpackUsed(LootLoop(inv, items).0) >= BackpackUsed(inv)
    ensures forall k :: 0 <= k < |LootLoop(inv, items).2| ==> !CanFit(LootLoop(inv, items).0, LootLoop(inv, items).2[k].size)
    decreases |items|
  {
    if |items| > 0 {
      var r := LootLoop(inv, items);
      if CanFit(inv, items[0].size) {
        var inv1 := inv.(backpack := inv.backpack + [items[0]]);
        SizeOfAppend(inv.backpack, [items[0]]);
        assert SizeOf([items[0]]) == items[0].size;
        LootLoopMaximal(inv1, items[1..]);
      } else {
        LootLoopMaximal(inv, items[1..]);
        var rest := LootLoop(inv, items[1..]);
        assert r.2 == [items[0]] + rest.2;
        forall k | 0 <= k < |r.2|
          ensures !CanFit(r.0, r.2[k].size)
        {
          if k > 0 {
            assert r.2[k] == rest.2[k - 1];
          }
        }
      }
    }
  }

  /** The loop keeps crate order on both sides: the picked stacks and the
      stacks left behind are each the crate's items with some left out. */
  lemma {:induction false} LootLoopInOrder(inv: Inventory, items: seq<ItemStack>)
    ensures Subsequence(LootLoop(inv, items).1, items)
    ensures Subsequence(LootLoop(inv, items).2, items)
    decreases |items|
  {
    if |items| > 0 {
      var x := items[0];
      if CanFit(inv, x.size) {
        var inv1 := inv.(backpack := inv.backpack + [x]);
        var rest := LootLoop(inv1, items[1..]);
        LootLoopInOrder(inv1, items[1..]);
        assert ([x] + rest.1)[1..] == rest.1;
      } else {
        var rest := LootLoop(inv, items[1..]);
        LootLoopInOrder(inv, items[1..]);
        assert ([x] + rest.2)[1..] == rest.2;
      }
    }
  }

  function ItemIds(stacks: seq<ItemStack>): (ids: seq<string>)
    ensures |ids| == |stacks|
    ensures forall i :: 0 <= i < |stacks| ==> ids[i] == stacks[i].itemId
    decreases |stacks|
  {
    if |stacks| == 0 then [] else [stacks[0].itemId] + ItemIds(stacks[1..])
  }

  /** `tryLoot`: a unit with an inventory next to (or on) the crate takes
      every stack that fits, greedily in crate order; when it takes any, the
      crate keeps the rest, is marked opened, and the pick is reported. */
  function TryLoot(unit: Unit, crate: Crate): (r: (Unit, Crate, seq<ItemStack>, seq<Event>))
    ensures r.2 == [] ==> r.0 == unit && r.1 == crate && r.3 == []
    ensures unit.inventory.None? || !Doors.IsAdjacent(unit.pos, crate.pos) ==> r.2 == []
    ensures r.2 != [] ==>
              && unit.inventory.Some?
              && r.0 == unit.(inventory := Some(unit.inventory.value.(backpack := unit.inventory.value.backpack + r.2)))
              && multiset(r.2) + multiset(r.1.items) == multiset(crate.items)
              && r.1 == crate.(items := r.1.items, isOpened := true)
              && r.3 == [LootPicked(unit.id, crate.id, ItemIds(r.2))]
    ensures unit.inventory.Some? && BackpackUsed(unit.inventory.value) <= unit.inventory.value.capacity ==>
              BackpackUsed(r.0.inventory.value) <= unit.inventory.value.capacity
    ensures unit.inventory.Some? && Doors.IsAdjacent(unit.pos, crate.pos) ==>
              var l := LootLoop(unit.inventory.value, crate.items);
              r.2 == l.1 && (r.2 != [] ==> r.0.inventory == Some(l.0) && r.1.items == l.2)
  {
    if unit.inventory.None? || !Doors.IsAdjacent(unit.pos, crate.pos) then (unit, crate, [], [])
    else
      var l := LootLoop(unit.inventory.value, crate.items);
      if |l.1| > 0 then
        (unit.(inventory := Some(l.0)), crate.(items := l.2, isOpened := true), l.1,
         [LootPicked(unit.id, crate.id, ItemIds(l.1))])
      else
        (unit, crate, [], [])
  }

  /** What `tryLoot` takes and leaves keeps crate order, and, with
      non-negative sizes, nothing it leaves in the crate would still fit. */
  lemma TryLootGreedy(unit: Unit, crate: Crate)
    requires forall i :: 0 <= i < |crate.items| ==> crate.items[i].size >= 0
    ensures Subsequence(TryLoot(unit, crate).2, crate.items)
    ensures Subsequence(TryLoot(unit, crate).1.items, crate.items)
    ensures unit.inventory.Some? && Doors.IsAdjacent(unit.pos, crate.pos) ==>
              forall k :: 0 <= k < |TryLoot(unit, crate).1.items| ==>
                !CanFit(TryLoot(unit, crate).0.inventory.value, TryLoot(unit, crate).1.items[k].size)
  {
    var r := TryLoot(unit, crate);
    if unit.inventory.Some? && Doors.IsAdjacent(unit.pos, crate.pos) {
      var l := LootLoop(unit.inventory.value, crate.items);
      LootLoopInOrder(unit.inventory.value, crate.items);
      LootLoopMaximal(unit.inventory.value, crate.items);
      if r.2 == [] {
        assert l.1 == [] && l.0 == unit.inventory.value;
        assert multiset(l.2) == multiset(crate.items);
        forall k | 0 <= k < |crate.items|
          ensures !CanFit(l.0, crate.items[k].size)
        {
          assert crate.items[k] in multiset(crate.items);
          assert crate.items[k] in l.2;
          var j :| 0 <= j < |l.2| && l.2[j] == crate.items[k];
        }
      }
    }
    SubsequenceRefl(crate.items);
  }

  /** The looting example: capacity 4, a size-2 stack and a size-4 stack;
      only the first is taken and the second stays in the crate. */
  lemma LootRespectsCapacity(unit: Unit, crate: Crate)
    requires unit.inventory == Some(Inventory([], 4, None)) && unit.pos == crate.pos
    requires crate.items == [ItemStack("fuel-cell", 2), ItemStack("relic-case", 4)]
    ensures TryLoot(unit, crate).2 == [ItemStack("fuel-cell", 2)]
    ensures TryLoot(unit, crate).1.items == [ItemStack("relic-case", 4)]
    ensures TryLoot(unit, crate).0.inventory.value.backpack == [ItemStack("fuel-cell", 2)]
  {
    var inv := unit.inventory.value;
    var fuel, relic := ItemStack("fuel-cell", 2), ItemStack("relic-case", 4);
    assert CanFit(inv, 2);
    var inv1 := inv.(backpack := [fuel]);
    assert [fuel][1..] == [];
    assert BackpackUsed(inv1) == 2;
    assert !CanFit(inv1, 4);
    assert crate.items[1..] == [relic];
    assert [relic][1..] == [];
    assert LootLoop(inv1, []) == (inv1, [], []);
    var l1 := LootLoop(inv1, [relic]);
    assert !CanFit(inv1, [relic][0].size);
    assert l1.1 == [];
    assert l1.2 == [relic];
    assert l1.0 == inv1;
    assert crate.items[0] == fuel && inv.backpack + [fuel] == [fuel];
    assert [fuel] + l1.1 == [fuel];
    assert LootLoop(inv, crate.items) == (inv1, [fuel], [relic]);
  }

  /** The first backpack index holding this item id (`findIndex`). */
  function FindStack(backpack: seq<ItemStack>, itemId: string): (o: Option<nat>)
    ensures o.Some? ==> o.value < |backpack| && backpack[o.value].itemId == itemId &&
                        forall j :: 0 <= j < o.value ==> backpack[j].itemId != itemId
    ensures o.None? <==> forall j :: 0 <= j < |backpack| ==> backpack[j].itemId != itemId
    decreases |backpack|
  {
    if |backpack| == 0 then None
    else if backpack[0].itemId == itemId then Some(0)
    else
      match FindStack(backpack[1..], itemId)
      case None => None
      case Some(i) => Some(i + 1)
  }

  /** The first stack with the id moves to the sealed slot and the backpack
      keeps the other stacks in their order. */
  predicate TakesFirst(inv: Inventory, itemId: string, after: Option<Inventory>) {
    var bp := inv.backpack;
    exists i :: 0 <= i < |bp| && bp[i].itemId == itemId && (forall j :: 0 <= j < i ==> bp[j].itemId != itemId) &&
      after == Some(inv.(backpack := bp[..i] + bp[i + 1..], sealedItem := Some(bp[i])))
  }

  /** `trySeal`: fails with `no_inventory`, `already_sealed` or
      `missing_item`; otherwise moves the first stack with the id out of the
      backpack into the sealed slot. */
  function TrySeal(unit: Unit, itemId: string): (r: (Unit, bool, seq<Event>))
    ensures r.1 <==> unit.inventory.Some? && unit.inventory.value.sealedItem.None? &&
                     exists j :: 0 <= j < |unit.inventory.value.backpack| && unit.inventory.value.backpack[j].itemId == itemId
    ensures !r.1 ==> r.0 == unit && r.2 == [SealFailed(unit.id,
              if unit.inventory.None? then "no_inventory"
              else if unit.inventory.value.sealedItem.Some? then "already_sealed"
              else "missing_item")]
    ensures r.1 ==> r.2 == [SealSucceeded(unit.id, itemId)]
    ensures r.1 ==> unit.inventory.Some? && r.0.inventory.Some?
    ensures r.1 && unit.inventory.Some? ==> TakesFirst(unit.inventory.value, itemId, r.0.inventory)
    ensures r.1 && unit.inventory.Some? && r.0.inventory.Some? ==>
              var inv := unit.inventory.value; var inv' := r.0.inventory.value;
              && r.0 == unit.(inventory := Some(inv'))
              && inv'.capacity == inv.capacity
              && inv'.sealedItem.Some? && inv'.sealedItem.value.itemId == itemId
              && multiset(inv'.backpack) + multiset{inv'.sealedItem.value} == multiset(inv.backpack)
              && |inv'.backpack| == |inv.backpack| - 1
  {
    match unit.inventory
    case None => (unit, false, [SealFailed(unit.id, "no_inventory")])
    case Some(inv) =>
      if inv.sealedItem.Some? then (unit, false, [SealFailed(unit.id, "already_sealed")])
      else
        match FindStack(inv.backpack, itemId)
        case None => (unit, false, [SealFailed(unit.id, "missing_item")])
        case Some(i) =>
          var item := inv.backpack[i];
          var rest := inv.backpack[..i] + inv.backpack[i + 1..];
          assert inv.backpack == inv.backpack[..i] + [item] + inv.backpack[i + 1..];
          (unit.(inventory := Some(inv.(backpack := rest, sealedItem := Some(item)))), true,
           [SealSucceeded(unit.id, itemId)])
  }

  /** Only one item can be sealed: after a success every further seal fails with `already_sealed`. */
  lemma SealOnce(unit: Unit, itemId: string, other: string)
    requires TrySeal(unit, itemId).1
    ensures TrySeal(TrySeal(unit, itemId).0, other) ==
              (TrySeal(unit, itemId).0, false, [SealFailed(unit.id, "already_sealed")])
  {
  }
}
