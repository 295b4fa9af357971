/** The station between raids (`SimBridge` in the game layer): the upgrade
    counters, the weapon selection, the seed and dialogue counters, the
    unlocked logs, the loot carried home, and starting a raid with the
    station's upgrades applied. The singleton's mutable record becomes a
    value that every operation takes and returns. The item catalog and the
    log catalog are parameters; the replay and hashing fields are not part
    of this model. */
module Station {
  import opened Common
  import opened State
  import Registry
  import Config
  import SimRng
  import RaidGrid
  import Init

  datatype StationState = StationState(
    powerBudget: int,
    backpackCapacity: int,
    logsUnlocked: seq<string>,
    nextSeed: int,
    dialogueIndex: int,
    primaryWeaponId: string,
    secondaryWeaponId: string,
    recoveredLoot: seq<string>)

  /** The ids of the weapon items of one slot, in catalog order. */
  function WeaponIds(items: seq<ItemDef>, slot: Slot): (ids: seq<string>)
    ensures forall x :: x in ids <==> exists i :: 0 <= i < |items| && items[i].kind == WeaponKind &&
                                                 items[i].slot == Some(slot) && items[i].id == x
    decreases |items|
  {
    if |items| == 0 then []
    else
      var rest := WeaponIds(items[1..], slot);
      assert forall i :: 1 <= i < |items| ==> items[i] == items[1..][i - 1];
      if items[0].kind == WeaponKind && items[0].slot == Some(slot) then [items[0].id] + rest else rest
  }

  /** What one catalog item adds to the weapon list of a slot. */
  function WeaponIdOf(item: ItemDef, slot: Slot): seq<string> {
    if item.kind == WeaponKind && item.slot == Some(slot) then [item.id] else []
  }

  lemma WeaponIdsUnfold(items: seq<ItemDef>, slot: Slot)
    requires |items| > 0
    ensures WeaponIds(items, slot) == WeaponIdOf(items[0], slot) + WeaponIds(items[1..], slot)
  {
  }

  /** The list follows catalog order: a catalog is listed as its parts
      are, one after the other, and one item contributes its id exactly when
      it is a weapon of the slot. */
  lemma {:induction false} WeaponIdsAppend(a: seq<ItemDef>, b: seq<ItemDef>, slot: Slot)
    ensures WeaponIds(a + b, slot) == WeaponIds(a, slot) + WeaponIds(b, slot)
    ensures |a| == 1 ==> WeaponIds(a, slot) == WeaponIdOf(a[0], slot)
    decreases |a|
  {
    if |a| > 0 {
      var h := WeaponIdOf(a[0], slot);
      assert (a + b)[0] == a[0];
      assert (a + b)[1..] == a[1..] + b;
      WeaponIdsUnfold(a + b, slot);
      WeaponIdsUnfold(a, slot);
      WeaponIdsAppend(a[1..], b, slot);
      assert h + (WeaponIds(a[1..], slot) + WeaponIds(b, slot)) == (h + WeaponIds(a[1..], slot)) + WeaponIds(b, slot);
      if |a| == 1 {
        assert WeaponIds(a[1..], slot) == [];
      }
    } else {
      assert a + b == b;
    }
  }

  /** The station a new game starts from: the first weapon of each slot,
      falling back to the standard rifle and sidearm when the catalog has none. */
  function InitialStation(items: seq<ItemDef>): (s: StationState)
    ensures s.powerBudget == Config.PowerStart && s.backpackCapacity == Config.BackpackSlots
    ensures s.nextSeed == 1 && s.dialogueIndex == 0 && s.logsUnlocked == [] && s.recoveredLoot == []
    ensures var p := WeaponIds(items, Primary);
            s.primaryWeaponId == if |p| > 0 then p[0] else "arc-rifle"
    ensures var q := WeaponIds(items, Secondary);
            s.secondaryWeaponId == if |q| > 0 then q[0] else "sidearm"
  {
    var p := WeaponIds(items, Primary);
    var q := WeaponIds(items, Secondary);
    StationState(120, 8, [], 1, 0, if |p| > 0 then p[0] else "arc-rifle", if |q| > 0 then q[0] else "sidearm", [])
  }

  /** What every station operation preserves: a seed counter from 1 up, a
      non-negative dialogue counter, the starting budget and capacity as
      floors, and no log unlocked twice. */
  predicate Inv(s: StationState) {
    && s.powerBudget >= Config.PowerStart
    && s.backpackCapacity >= Config.BackpackSlots
    && s.nextSeed >= 1
    && s.dialogueIndex >= 0
    && Distinct(s.logsUnlocked)
  }

  lemma InitialStationInv(items: seq<ItemDef>)
    ensures Inv(InitialStation(items))
  {
  }

  // ---------------------------------------------------------------------
  // Upgrades

  function UpgradePower(s: StationState): (r: StationState)
    ensures Inv(s) ==> Inv(r)
    ensures r.powerBudget > s.powerBudget && r.(powerBudget := s.powerBudget) == s
  {
    s.(powerBudget := s.powerBudget + 5)
  }

  function UpgradeBackpack(s: StationState): (r: StationState)
    ensures Inv(s) ==> Inv(r)
    ensures r.backpackCapacity > s.backpackCapacity && r.(backpackCapacity := s.backpackCapacity) == s
  {
    s.(backpackCapacity := s.backpackCapacity + 1)
  }

  /** `n` upgrades raise the budget by 5 each, and in either order the two
      kinds of upgrade reach the same station. */
  lemma {:induction false} UpgradesAccumulate(s: StationState, n: nat)
    ensures Iterate(UpgradePower, s, n).powerBudget == s.powerBudget + 5 * n
    ensures Iterate(UpgradeBackpack, s, n).backpackCapacity == s.backpackCapacity + n
    ensures UpgradePower(UpgradeBackpack(s)) == UpgradeBackpack(UpgradePower(s))
    decreases n
  {
    if n > 0 {
      UpgradesAccumulate(s, n - 1);
    }
  }

  function Iterate(f: StationState -> StationState, s: StationState, n: nat): StationState
    decreases n
  {
    if n == 0 then s else f(Iterate(f, s, n - 1))
  }

  // ---------------------------------------------------------------------
  // Weapon selection

  /** `findIndex`: the first position of `x`, or -1. */
  function IndexOf(xs: seq<string>, x: string): (k: int)
    ensures -1 <= k < |xs|
    ensures k == -1 <==> x !in xs
    ensures k >= 0 ==> xs[k] == x && forall j :: 0 <= j < k ==> xs[j] != x
    decreases |xs|
  {
    if |xs| == 0 then -1
    else if xs[0] == x then 0
    else
      var k := IndexOf(xs[1..], x);
      assert forall j :: 1 <= j < |xs| ==> xs[j] == xs[1..][j - 1];
      if k == -1 then -1 else k + 1
  }

  /** The weapon after `current` in `list`, wrapping around; a weapon not in
      the list moves to the first one, and an empty list keeps `current`. */
  function CycleWeapon(current: string, list: seq<string>): (r: string)
    ensures |list| == 0 ==> r == current
    ensures |list| > 0 ==> r in list
    ensures |list| > 0 && current !in list ==> r == list[0]
  {
    if |list| == 0 then current
    else list[(IndexOf(list, current) + 1) % |list|]
  }

  /** From the first occurrence of the current weapon, cycling moves one place on. */
  lemma CycleWeaponAt(list: seq<string>, k: nat)
    requires k < |list| && forall j :: 0 <= j < k ==> list[j] != list[k]
    ensures CycleWeapon(list[k], list) == list[(k + 1) % |list|]
  {
  }

  function CycleWeaponTimes(current: string, list: seq<string>, n: nat): string
    decreases n
  {
    if n == 0 then current else CycleWeapon(CycleWeaponTimes(current, list, n - 1), list)
  }

  /** Among distinct weapons, cycling n times moves n places on, so cycling
      through the whole list returns to the weapon it started from. */
  lemma {:induction false} CycleWeaponTimesAt(list: seq<string>, k: nat, n: nat)
    requires Distinct(list) && k < |list|
    ensures CycleWeaponTimes(list[k], list, n) == list[(k + n) % |list|]
    decreases n
  {
    if n == 0 {
      DivModUnique(k, |list|, k, 0);
    } else {
      var m := NextPlace(k, n, |list|);
      var prev := CycleWeaponTimes(list[k], list, n - 1);
      CycleWeaponTimesAt(list, k, n - 1);
      assert prev == list[m];
      assert forall j :: 0 <= j < m ==> list[j] != list[m];
      CycleWeaponAt(list, m);
      assert CycleWeaponTimes(list[k], list, n) == CycleWeapon(prev, list);
    }
  }

  /** The place reached after n - 1 steps, one step short of (k + n) mod len. */
  lemma NextPlace(k: nat, n: nat, len: nat) returns (m: nat)
    requires n > 0 && len > 0
    ensures m == (k + (n - 1)) % len && m < len && (m + 1) % len == (k + n) % len
  {
    m := (k + (n - 1)) % len;
    ModSuccessor(k + (n - 1), len);
  }

  lemma CycleWeaponReturns(list: seq<string>, k: nat)
    requires Distinct(list) && k < |list|
    ensures CycleWeaponTimes(list[k], list, |list|) == list[k]
  {
    var len := |list|;
    var i := (k + len) % len;
    DivModUnique(k + len, len, k, 1);
    assert i == k;
    CycleWeaponTimesAt(list, k, len);
  }

  function CyclePrimaryWeapon(s: StationState, items: seq<ItemDef>): (r: (StationState, string))
    ensures r.1 == r.0.primaryWeaponId && r.0 == s.(primaryWeaponId := r.1)
    ensures r.1 == CycleWeapon(s.primaryWeaponId, WeaponIds(items, Primary))
  {
    var id := CycleWeapon(s.primaryWeaponId, WeaponIds(items, Primary));
    (s.(primaryWeaponId := id), id)
  }

  function CycleSecondaryWeapon(s: StationState, items: seq<ItemDef>): (r: (StationState, string))
    ensures r.1 == r.0.secondaryWeaponId && r.0 == s.(secondaryWeaponId := r.1)
    ensures r.1 == CycleWeapon(s.secondaryWeaponId, WeaponIds(items, Secondary))
  {
    var id := CycleWeapon(s.secondaryWeaponId, WeaponIds(items, Secondary));
    (s.(secondaryWeaponId := id), id)
  }

  // ---------------------------------------------------------------------
  // Counters

  /** Hands out the current seed and moves the counter on. */
  function GetNextSeed(s: StationState): (r: (StationState, int))
    ensures r.1 == s.nextSeed && r.0.nextSeed == s.nextSeed + 1
    ensures r.0.(nextSeed := s.nextSeed) == s
  {
    (s.(nextSeed := s.nextSeed + 1), s.nextSeed)
  }

  /** The seeds `n` calls in a row hand out, and the station after them. */
  function DrawSeeds(s: StationState, n: nat): (r: (StationState, seq<int>))
    decreases n
  {
    if n == 0 then (s, [])
    else
      var prev := DrawSeeds(s, n - 1);
      var next := GetNextSeed(prev.0);
      (next.0, prev.1 + [next.1])
  }

  /** Successive raids never reuse a seed: the i-th call returns the
      starting seed plus i. */
  lemma {:induction false} DrawSeedsConsecutive(s: StationState, n: nat)
    ensures |DrawSeeds(s, n).1| == n && DrawSeeds(s, n).0.nextSeed == s.nextSeed + n
    ensures forall i :: 0 <= i < n ==> DrawSeeds(s, n).1[i] == s.nextSeed + i
    ensures Distinct(DrawSeeds(s, n).1)
    decreases n
  {
    if n > 0 {
      DrawSeedsConsecutive(s, n - 1);
    }
  }

  /** JavaScript's `%`: the remainder takes the sign of the dividend. */
  function JsRem(a: int, b: int): (r: int)
    requires b != 0
    ensures a >= 0 ==> 0 <= r < Abs(b)
    ensures exists q :: a == q * b + r
  {
    if a >= 0 then
      assert a == (a / Abs(b)) * Abs(b) + a % Abs(b);
      if b > 0 then a % b
      else
        assert a == (-(a / Abs(b))) * b + a % Abs(b);
        a % Abs(b)
    else
      var r := -((-a) % Abs(b));
      assert -a == ((-a) / Abs(b)) * Abs(b) + (-a) % Abs(b);
      if b > 0 then
        assert a == (-((-a) / b)) * b + r;
        r
      else
        assert a == ((-a) / Abs(b)) * b + r;
        r
  }

  /** The next line of a dialogue of `max` lines: 0 when there are none,
      otherwise the counter modulo `max`, which then moves on by one. */
  function NextDialogueIndex(s: StationState, max: int): (r: (StationState, int))
    ensures max <= 0 ==> r == (s, 0)
    ensures max > 0 && s.dialogueIndex >= 0 ==> 0 <= r.1 < max && 0 <= r.0.dialogueIndex < max
    ensures r.0.(dialogueIndex := s.dialogueIndex) == s
  {
    if max <= 0 then (s, 0)
    else (s.(dialogueIndex := JsRem(s.dialogueIndex + 1, max)), JsRem(s.dialogueIndex, max))
  }

  /** Two calls with the same number of lines return consecutive lines,
      wrapping around after the last. */
  lemma DialogueCycles(s: StationState, max: int)
    requires max > 0 && s.dialogueIndex >= 0
    ensures var first := NextDialogueIndex(s, max);
            NextDialogueIndex(first.0, max).1 == (first.1 + 1) % max
  {
    var d := s.dialogueIndex;
    var e := (d + 1) % max;
    JsRemNatural(d, max);
    JsRemNatural(d + 1, max);
    JsRemNatural(e, max);
    var first := NextDialogueIndex(s, max);
    assert first == (s.(dialogueIndex := e), d % max);
    DivModUnique(e, max, e, 0);
    assert NextDialogueIndex(first.0, max).1 == e;
    ModSuccessor(d, max);
  }

  lemma JsRemNatural(a: int, b: int)
    requires a >= 0 && b > 0
    ensures JsRem(a, b) == a % b
  {
  }

  lemma ModSuccessor(d: nat, m: int)
    requires m > 0
    ensures (d % m + 1) % m == (d + 1) % m
  {
    var q, r := d / m, d % m;
    assert d == q * m + r;
    if r + 1 == m {
      assert d + 1 == (q + 1) * m + 0;
      DivModUnique(d + 1, m, 0, q + 1);
      DivModUnique(r + 1, m, 0, 1);
    } else {
      assert d + 1 == q * m + (r + 1);
      DivModUnique(d + 1, m, r + 1, q);
      DivModUnique(r + 1, m, r + 1, 0);
    }
  }

  // ---------------------------------------------------------------------
  // Logs

  /** The position of the first catalog log not unlocked yet. */
  function FirstLocked(logs: seq<string>, unlocked: seq<string>): (o: Option<nat>)
    ensures o.None? <==> forall i :: 0 <= i < |logs| ==> logs[i] in unlocked
    ensures o.Some? ==> o.value < |logs| && logs[o.value] !in unlocked &&
                        forall j :: 0 <= j < o.value ==> logs[j] in unlocked
    decreases |logs|
  {
    if |logs| == 0 then None
    else if logs[0] !in unlocked then Some(0)
    else
      var o := FirstLocked(logs[1..], unlocked);
      assert forall j :: 1 <= j < |logs| ==> logs[j] == logs[1..][j - 1];
      if o.None? then None else Some(o.value + 1)
  }

  /** Unlocks the first catalog log not unlocked yet, if any. */
  function UnlockLog(s: StationState, logs: seq<string>): (r: (StationState, Option<string>))
    ensures r.1.None? <==> forall i :: 0 <= i < |logs| ==> logs[i] in s.logsUnlocked
    ensures r.1.None? ==> r.0 == s
    ensures r.1.Some? ==> r.1.value in logs && r.1.value !in s.logsUnlocked &&
                          r.0 == s.(logsUnlocked := s.logsUnlocked + [r.1.value])
    ensures r.1.Some? ==> exists k :: 0 <= k < |logs| && logs[k] == r.1.value &&
                                      forall j :: 0 <= j < k ==> logs[j] in s.logsUnlocked
  {
    match FirstLocked(logs, s.logsUnlocked)
    case None => (s, None)
    case Some(k) => (s.(logsUnlocked := s.logsUnlocked + [logs[k]]), Some(logs[k]))
  }

  lemma AppendFreshDistinct(xs: seq<string>, x: string)
    requires Distinct(xs) && x !in xs
    ensures Distinct(xs + [x])
  {
    var ys := xs + [x];
    forall i, j | 0 <= i < j < |ys|
      ensures ys[i] != ys[j]
    {
      if j == |xs| {
        assert ys[i] == xs[i];
      } else {
        assert ys[i] == xs[i] && ys[j] == xs[j];
      }
    }
  }

  /** Up to `count` unlocks in a row; the loop stops at the first one that
      returns no id (or the empty id, which the source treats as none),
      though an empty id it got still stays unlocked. */
  function UnlockLogs(s: StationState, logs: seq<string>, count: int): (r: (StationState, seq<string>))
    ensures |r.1| <= Max(0, count)
    ensures forall i :: 0 <= i < |r.1| ==> r.1[i] in logs && r.1[i] !in s.logsUnlocked && r.1[i] != ""
    ensures r.0.logsUnlocked == s.logsUnlocked + r.1 || r.0.logsUnlocked == s.logsUnlocked + r.1 + [""]
    ensures r.0.(logsUnlocked := s.logsUnlocked) == s
    decreases Max(0, count)
  {
    if count <= 0 then (s, [])
    else
      var one := UnlockLog(s, logs);
      if !Truthy(one.1) then (one.0, [])
      else
        var rest := UnlockLogs(one.0, logs, count - 1);
        (rest.0, [one.1.value] + rest.1)
  }

  /** No log is ever unlocked twice, and one call never returns an id twice. */
  lemma {:induction false} UnlockLogsDistinct(s: StationState, logs: seq<string>, count: int)
    requires Distinct(s.logsUnlocked)
    ensures Distinct(UnlockLogs(s, logs, count).0.logsUnlocked) && Distinct(UnlockLogs(s, logs, count).1)
    decreases Max(0, count)
  {
    if count > 0 {
      var one := UnlockLog(s, logs);
      if one.1.Some? {
        AppendFreshDistinct(s.logsUnlocked, one.1.value);
      }
      if Truthy(one.1) {
        var rest := UnlockLogs(one.0, logs, count - 1);
        UnlockLogsDistinct(one.0, logs, count - 1);
        DistinctPrepend(s.logsUnlocked, one.1.value, rest.1, rest.0.logsUnlocked);
      }
    }
  }

  /** The step of `UnlockLogs` that moves the first id to the front of the result. */
  lemma DistinctPrepend(xs: seq<string>, id: string, ids: seq<string>, final: seq<string>)
    requires final == xs + [id] + ids || final == xs + [id] + ids + [""]
    ensures Distinct(final) ==> Distinct([id] + ids)
  {
    if Distinct(final) {
      var ys := [id] + ids;
      forall i, j | 0 <= i < j < |ys|
        ensures ys[i] != ys[j]
      {
        assert ys[i] == final[|xs| + i] && ys[j] == final[|xs| + j];
      }
    }
  }

  // ---------------------------------------------------------------------
  // Loot carried home

  /** The id of a drone's sealed item, when the drone has one with a non-empty id. */
  function SealedId(u: Unit): Option<string> {
    if u.faction == Drone && u.inventory.Some? && u.inventory.value.sealedItem.Some? &&
       u.inventory.value.sealedItem.value.itemId != ""
    then Some(u.inventory.value.sealedItem.value.itemId)
    else None
  }

  /** The first drone's sealed item, in unit order. */
  function FirstSealed(us: seq<Unit>): (o: Option<string>)
    ensures o.None? <==> forall i :: 0 <= i < |us| ==> SealedId(us[i]).None?
    decreases |us|
  {
    if |us| == 0 then None
    else if SealedId(us[0]).Some? then SealedId(us[0])
    else
      assert forall j :: 1 <= j < |us| ==> us[j] == us[1..][j - 1];
      FirstSealed(us[1..])
  }

  /** The sealed item a failed raid saves belongs to the first drone that has one. */
  lemma {:induction false} FirstSealedMeans(us: seq<Unit>)
    requires FirstSealed(us).Some?
    ensures exists i :: 0 <= i < |us| && SealedId(us[i]) == FirstSealed(us) &&
                        forall j :: 0 <= j < i ==> SealedId(us[j]).None?
    decreases |us|
  {
    if SealedId(us[0]).None? {
      FirstSealedMeans(us[1..]);
      var i :| 0 <= i < |us[1..]| && SealedId(us[1..][i]) == FirstSealed(us[1..]) &&
               forall j :: 0 <= j < i ==> SealedId(us[1..][j]).None?;
      assert SealedId(us[i + 1]) == FirstSealed(us);
      forall j | 0 <= j < i + 1
        ensures SealedId(us[j]).None?
      {
        if j > 0 {
          assert us[j] == us[1..][j - 1];
        }
      }
    }
  }

  function StackIds(items: seq<ItemStack>): (ids: seq<string>)
    ensures |ids| == |items| && forall i :: 0 <= i < |items| ==> ids[i] == items[i].itemId
  {
    seq(|items|, i requires 0 <= i < |items| => items[i].itemId)
  }

  /** What one unit brings home after a raid that did not fail: a drone's
      backpack in order, then its sealed item. */
  function CarriedBy(u: Unit): seq<string> {
    if u.faction == Drone && u.inventory.Some? then
      StackIds(u.inventory.value.backpack) +
      (if u.inventory.value.sealedItem.Some? then [u.inventory.value.sealedItem.value.itemId] else [])
    else []
  }

  /** What the units bring home, unit after unit. */
  function Carried(us: seq<Unit>): seq<string>
    decreases |us|
  {
    if |us| == 0 then [] else Carried(us[..|us| - 1]) + CarriedBy(us[|us| - 1])
  }

  /** An item comes home exactly when some drone carries it. */
  lemma {:induction false} CarriedMeans(us: seq<Unit>, x: string)
    ensures x in Carried(us) <==> exists i :: 0 <= i < |us| && x in CarriedBy(us[i])
    decreases |us|
  {
    if |us| > 0 {
      var init := us[..|us| - 1];
      CarriedMeans(init, x);
      assert forall i :: 0 <= i < |init| ==> init[i] == us[i];
      if x in CarriedBy(us[|us| - 1]) {
        assert x in Carried(us);
      }
    }
  }

  /** The loop of `recordRaidOutcome` that gathers every drone's items. */
  method CollectLoot(us: seq<Unit>) returns (collected: seq<string>)
    ensures collected == Carried(us)
  {
    collected := [];
    var i := 0;
    while i < |us|
      invariant 0 <= i <= |us|
      invariant collected == Carried(us[..i])
    {
      assert us[..i + 1][..i] == us[..i];
      collected := collected + CarriedBy(us[i]);
      i := i + 1;
    }
    assert us[..|us|] == us;
  }

  /** `recordRaidOutcome`: a failed raid brings home at most the first
      drone's sealed item; any other outcome brings home every drone's
      backpack and sealed item. */
  method RecordRaidOutcome(s: StationState, state: GameState) returns (r: StationState)
    ensures r.(recoveredLoot := s.recoveredLoot) == s
    ensures var us := Registry.Values(state.units);
            state.mission.status == Failed ==>
              r.recoveredLoot == s.recoveredLoot + (match FirstSealed(us) case None => [] case Some(x) => [x])
    ensures state.mission.status != Failed ==> r.recoveredLoot == s.recoveredLoot + Carried(Registry.Values(state.units))
  {
    var us := Registry.Values(state.units);
    if state.mission.status == Failed {
      var first := FirstSealed(us);
      if first.Some? {
        r := s.(recoveredLoot := s.recoveredLoot + [first.value]);
      } else {
        r := s;
      }
    } else {
      var collected := CollectLoot(us);
      r := s.(recoveredLoot := s.recoveredLoot + collected);
    }
  }

  // ---------------------------------------------------------------------
  // Starting a raid

  /** A drone's share of the upgrades: the station's backpack capacity and,
      when it carries a loadout, the station's two weapons at full ammo. */
  function UpgradeUnit(u: Unit, capacity: int, weapons: Option<(WeaponState, WeaponState)>): Unit {
    if u.faction != Drone then u
    else
      var inv := if u.inventory.Some? then Some(u.inventory.value.(capacity := capacity)) else None;
      var lo := if u.loadout.Some? && weapons.Some?
                then Some(u.loadout.value.(primary := weapons.value.0, secondary := weapons.value.1))
                else u.loadout;
      u.(inventory := inv, loadout := lo)
  }

  predicate ArmedDrone(u: Unit) {
    u.faction == Drone && u.loadout.Some?
  }

  /** The upgrades `startRaid` applies to the initial state `st`, given
      the outcome of building the two selected weapons. The weapons are
      built for each armed drone in turn, the primary first; they are the
      same for every drone, so the first armed drone fails exactly when
      any would, with the primary's fault before the secondary's. */
  function ApplyUpgrades(st: GameState, s: StationState, primary: Result<WeaponState>, secondary: Result<WeaponState>): (r: Result<GameState>)
    ensures r.Ok? ==> r.value.power == s.powerBudget
  {
    var armed := exists k :: k in st.units.m && ArmedDrone(st.units.m[k]);
    if armed && primary.Err? then Err(primary.fault)
    else if armed && secondary.Err? then Err(secondary.fault)
    else
      var weapons := if primary.Ok? && secondary.Ok? then Some((primary.value, secondary.value)) else None;
      Ok(st.(power := s.powerBudget,
             units := Registry.MapValues(st.units, u => UpgradeUnit(u, s.backpackCapacity, weapons))))
  }

  /** `startRaid`: the initial state of `seed` with the station's power
      budget, and every drone given the station's capacity and weapons. */
  function StartRaid(cat: Catalog, s: StationState, seed: int): (r: Result<GameState>)
    ensures r.Ok? ==> Init.CreateInitialState(cat, seed).Ok? && r.value.power == s.powerBudget
  {
    var st :- Init.CreateInitialState(cat, seed);
    ApplyUpgrades(st, s, CreateWeaponState(cat, s.primaryWeaponId), CreateWeaponState(cat, s.secondaryWeaponId))
  }

  /** Upgrading changes only the drones: each keeps everything but its
      backpack capacity, now the station's, and its two weapons, now the
      station's selection; every other unit is untouched and the roster
      keeps its ids and order. */
  lemma UpgradedUnit(st: GameState, s: StationState, primary: Result<WeaponState>, secondary: Result<WeaponState>, k: string)
    requires ApplyUpgrades(st, s, primary, secondary).Ok?
    ensures var r := ApplyUpgrades(st, s, primary, secondary).value;
            && r.units.keys == st.units.keys && r.units.m.Keys == st.units.m.Keys
            && r.(power := st.power, units := st.units) == st
            && (k in st.units.m ==>
                  var u0 := st.units.m[k];
                  var u := r.units.m[k];
                  && (u0.faction != Drone ==> u == u0)
                  && (u0.faction == Drone ==>
                        && u.(inventory := u0.inventory, loadout := u0.loadout) == u0
                        && u.inventory.Some? == u0.inventory.Some?
                        && (u.inventory.Some? ==> u.inventory.value == u0.inventory.value.(capacity := s.backpackCapacity))
                        && u.loadout.Some? == u0.loadout.Some?
                        && (u.loadout.Some? ==>
                              primary.Ok? && secondary.Ok? &&
                              u.loadout.value == u0.loadout.value.(primary := primary.value, secondary := secondary.value))))
  {
    if k in st.units.m && ArmedDrone(st.units.m[k]) {
      assert exists k' :: k' in st.units.m && ArmedDrone(st.units.m[k']);
    }
  }

  /** With an armed drone, upgrading succeeds exactly when both weapons
      were built, and reports the primary's fault first. */
  lemma UpgradesFail(st: GameState, s: StationState, primary: Result<WeaponState>, secondary: Result<WeaponState>, k: string)
    requires k in st.units.m && ArmedDrone(st.units.m[k])
    ensures ApplyUpgrades(st, s, primary, secondary).Ok? <==> primary.Ok? && secondary.Ok?
    ensures primary.Err? ==> ApplyUpgrades(st, s, primary, secondary) == Err(primary.fault)
    ensures primary.Ok? && secondary.Err? ==> ApplyUpgrades(st, s, primary, secondary) == Err(secondary.fault)
  {
    assert exists k' :: k' in st.units.m && ArmedDrone(st.units.m[k']);
  }

  /** The first drone of every populated layout carries a loadout. */
  lemma InitialArmed(cat: Catalog, seed: int, layout: RaidGrid.Layout)
    requires Init.Furnished(cat)
    ensures Init.Populate(cat, seed, layout).Ok?
    ensures var st := Init.Populate(cat, seed, layout).value;
            Init.InitialIds()[0] in st.units.m && ArmedDrone(st.units.m[Init.InitialIds()[0]])
  {
    Init.InitialUnitAt(cat, seed, layout, 0);
    Init.RosterDrone(cat, layout.rng, 0);
  }

  /** A raid starts exactly when its initial state can be built and both
      selected weapons are weapons with ammo; otherwise the primary's fault
      is reported before the secondary's. */
  lemma StartRaidFails(cat: Catalog, s: StationState, seed: int)
    ensures StartRaid(cat, s, seed).Ok? <==>
              && Init.CreateInitialState(cat, seed).Ok?
              && CreateWeaponState(cat, s.primaryWeaponId).Ok?
              && CreateWeaponState(cat, s.secondaryWeaponId).Ok?
    ensures Init.CreateInitialState(cat, seed).Ok? && CreateWeaponState(cat, s.primaryWeaponId).Err? ==>
              StartRaid(cat, s, seed) == Err(CreateWeaponState(cat, s.primaryWeaponId).fault)
    ensures Init.CreateInitialState(cat, seed).Ok? && CreateWeaponState(cat, s.primaryWeaponId).Ok? &&
            CreateWeaponState(cat, s.secondaryWeaponId).Err? ==>
              StartRaid(cat, s, seed) == Err(CreateWeaponState(cat, s.secondaryWeaponId).fault)
  {
    if Init.CreateInitialState(cat, seed).Ok? {
      InitialArmed(cat, seed, RaidGrid.BuildRaidGrid(cat, SimRng.CreateRng(seed), cat.rooms, Config.RoomCount).value);
      var st := Init.CreateInitialState(cat, seed).value;
      UpgradesFail(st, s, CreateWeaponState(cat, s.primaryWeaponId), CreateWeaponState(cat, s.secondaryWeaponId), Init.InitialIds()[0]);
    }
  }
}
