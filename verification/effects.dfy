/** The end-of-turn helpers of the step: queued heals and statuses,
    sealing, the repair bonus and the squad-wipe test. */
module Effects {
  import opened Common
  import opened State
  import opened Schemas
  import opened Grid
  import Registry
  import Config
  import Combat
  import Loot
  import Power

  datatype Heal = Heal(targetId: string, amount: int)
  datatype StatusEntry = StatusEntry(targetId: string, statusId: StatusId, turns: int)

  // ---------------------------------------------------------------------
  // Heals

  /** A heal takes effect: its target is present and alive and the amount is positive. */
  predicate Heals(s: GameState, h: Heal) {
    h.targetId in s.units.m && s.units.m[h.targetId].hp > 0 && h.amount > 0
  }

  /** One heal: a living target gains the amount up to its maximum, and the
      heal is reported as negative damage. */
  function HealOne(s: GameState, h: Heal): (r: (GameState, seq<Event>))
    ensures r.0 == s.(units := r.0.units) && r.0.units.keys == s.units.keys && r.0.units.m.Keys == s.units.m.Keys
    ensures forall k :: k in s.units.m ==> r.0.units.m[k] == s.units.m[k].(hp := r.0.units.m[k].hp)
    ensures forall k :: k in s.units.m && k != h.targetId ==> r.0.units.m[k] == s.units.m[k]
    ensures !Heals(s, h) ==> r == (s, [])
    ensures Heals(s, h) ==>
              var t := s.units.m[h.targetId];
              && r.0.units.m[h.targetId].hp == Min(t.maxHp, t.hp + h.amount)
              && r.1 == [DamageApplied(t.id, -h.amount, r.0.units.m[h.targetId].hp)]
  {
    if h.targetId !in s.units.m || s.units.m[h.targetId].hp <= 0 || h.amount <= 0 then (s, [])
    else
      var t := s.units.m[h.targetId];
      var hp := Min(t.maxHp, t.hp + h.amount);
      (PutUnit(s, h.targetId, t.(hp := hp)), [DamageApplied(t.id, -h.amount, hp)])
  }

  /** `applyHeals`: only hit points change; a downed unit stays down, and a
      unit at or under its maximum ends between its old value and the maximum. */
  function ApplyHeals(s: GameState, heals: seq<Heal>): (r: (GameState, seq<Event>))
    ensures r.0 == s.(units := r.0.units) && r.0.units.keys == s.units.keys && r.0.units.m.Keys == s.units.m.Keys
    ensures forall k :: k in s.units.m ==> r.0.units.m[k] == s.units.m[k].(hp := r.0.units.m[k].hp)
    ensures forall k :: k in s.units.m && s.units.m[k].hp <= 0 ==> r.0.units.m[k].hp == s.units.m[k].hp
    ensures forall k :: k in s.units.m && s.units.m[k].hp <= s.units.m[k].maxHp ==>
              s.units.m[k].hp <= r.0.units.m[k].hp <= s.units.m[k].maxHp
    ensures forall e :: e in r.1 ==> e.DamageApplied? && e.amount < 0
    ensures |r.1| <= |heals|
    decreases |heals|
  {
    if |heals| == 0 then (s, [])
    else
      var one := HealOne(s, heals[0]);
      var rest := ApplyHeals(one.0, heals[1..]);
      (rest.0, one.1 + rest.1)
  }

  /** The amounts of the heals addressed to key `k`, in queue order. */
  function AmountsFor(heals: seq<Heal>, k: string): (amounts: seq<int>)
    ensures |amounts| <= |heals|
    decreases |heals|
  {
    if |heals| == 0 then []
    else (if heals[0].targetId == k then [heals[0].amount] else []) + AmountsFor(heals[1..], k)
  }

  /** One unit's hit points after its own heals, taken one at a time: a
      positive amount on a living unit raises them, capped at the maximum. */
  function HealedHp(hp: int, maxHp: int, amounts: seq<int>): int
    decreases |amounts|
  {
    if |amounts| == 0 then hp
    else HealedHp(HealStep(hp, maxHp, amounts[0]), maxHp, amounts[1..])
  }

  /** One heal on one unit's hit points. */
  function HealStep(hp: int, maxHp: int, amount: int): int {
    if hp > 0 && amount > 0 then Min(maxHp, hp + amount) else hp
  }

  /** One heal as seen from unit `k`. */
  lemma HealOneAt(s: GameState, h: Heal, k: string)
    requires k in s.units.m
    ensures var u := s.units.m[k]; var u' := HealOne(s, h).0.units.m[k];
            && k in HealOne(s, h).0.units.m && u'.maxHp == u.maxHp
            && u'.hp == if h.targetId == k then HealStep(u.hp, u.maxHp, h.amount) else u.hp
  {
  }

  /** Heals to different units do not interact: each unit ends with the hit
      points its own heals give it on their own. */
  lemma {:induction false} ApplyHealsPerUnit(s: GameState, heals: seq<Heal>, k: string)
    requires k in s.units.m
    ensures ApplyHeals(s, heals).0.units.m[k].hp ==
              HealedHp(s.units.m[k].hp, s.units.m[k].maxHp, AmountsFor(heals, k))
    decreases |heals|
  {
    if |heals| > 0 {
      var h := heals[0];
      var u := s.units.m[k];
      ApplyHealsFirst(s, heals);
      HealOneAt(s, h, k);
      ApplyHealsPerUnit(HealOne(s, h).0, heals[1..], k);
      HealedHpFirst(u.hp, u.maxHp, heals, k);
    }
  }

  lemma ApplyHealsFirst(s: GameState, heals: seq<Heal>)
    requires |heals| > 0
    ensures ApplyHeals(s, heals).0 == ApplyHeals(HealOne(s, heals[0]).0, heals[1..]).0
  {
  }

  lemma HealedHpFirst(hp: int, maxHp: int, heals: seq<Heal>, k: string)
    requires |heals| > 0
    ensures heals[0].targetId == k ==>
              HealedHp(hp, maxHp, AmountsFor(heals, k)) ==
                HealedHp(HealStep(hp, maxHp, heals[0].amount), maxHp, AmountsFor(heals[1..], k))
    ensures heals[0].targetId != k ==> AmountsFor(heals, k) == AmountsFor(heals[1..], k)
  {
    var am := AmountsFor(heals[1..], k);
    if heals[0].targetId == k {
      assert AmountsFor(heals, k) == [heals[0].amount] + am;
      assert ([heals[0].amount] + am)[1..] == am;
    }
  }

  // ---------------------------------------------------------------------
  // Statuses from items

  /** One queued status: applied to an existing target and reported. */
  function StatusOne(s: GameState, e: StatusEntry): (r: (GameState, seq<Event>))
    ensures r.0 == s.(units := r.0.units) && r.0.units.keys == s.units.keys && r.0.units.m.Keys == s.units.m.Keys
    ensures forall k :: k in s.units.m ==> r.0.units.m[k] == s.units.m[k].(statuses := r.0.units.m[k].statuses)
    ensures forall k :: k in s.units.m && k != e.targetId ==> r.0.units.m[k] == s.units.m[k]
    ensures e.targetId in s.units.m ==>
              r.0.units.m[e.targetId].statuses == Combat.ApplyStatus(s.units.m[e.targetId].statuses, e.statusId, e.turns) &&
              r.1 == [StatusApplied(s.units.m[e.targetId].id, e.statusId, e.turns)]
    ensures e.targetId !in s.units.m ==> r == (s, [])
  {
    if e.targetId !in s.units.m then (s, [])
    else
      var t := s.units.m[e.targetId];
      (PutUnit(s, e.targetId, t.(statuses := Combat.ApplyStatus(t.statuses, e.statusId, e.turns))),
       [StatusApplied(t.id, e.statusId, e.turns)])
  }

  /** `applyStatuses`: every entry for an existing target is applied in order. */
  function ApplyStatusEntries(s: GameState, entries: seq<StatusEntry>): (r: (GameState, seq<Event>))
    ensures r.0 == s.(units := r.0.units) && r.0.units.keys == s.units.keys && r.0.units.m.Keys == s.units.m.Keys
    ensures forall k :: k in s.units.m ==> r.0.units.m[k] == s.units.m[k].(statuses := r.0.units.m[k].statuses)
    ensures |r.1| <= |entries|
    decreases |entries|
  {
    if |entries| == 0 then (s, [])
    else
      var one := StatusOne(s, entries[0]);
      var rest := ApplyStatusEntries(one.0, entries[1..]);
      (rest.0, one.1 + rest.1)
  }

  /** Queued statuses never clear an active one, and each entry with
      positive turns on an existing target leaves that status active. */
  lemma {:induction false} StatusEntriesTakeHold(s: GameState, entries: seq<StatusEntry>, k: string, id: StatusId)
    requires k in s.units.m
    ensures HasStatus(s.units.m[k], id) ==> HasStatus(ApplyStatusEntries(s, entries).0.units.m[k], id)
    ensures (exists i :: 0 <= i < |entries| && entries[i].targetId == k && entries[i].statusId == id && entries[i].turns > 0) ==>
              HasStatus(ApplyStatusEntries(s, entries).0.units.m[k], id)
    decreases |entries|
  {
    if |entries| > 0 {
      var e := entries[0];
      var one := StatusOne(s, e);
      if e.targetId == k {
        Combat.ApplyStatusKeeps(s.units.m[k].statuses, e.statusId, e.turns);
      }
      StatusEntriesTakeHold(one.0, entries[1..], k, id);
      if exists i :: 0 <= i < |entries| && entries[i].targetId == k && entries[i].statusId == id && entries[i].turns > 0 {
        var i :| 0 <= i < |entries| && entries[i].targetId == k && entries[i].statusId == id && entries[i].turns > 0;
        if i > 0 {
          assert entries[1..][i - 1] == entries[i];
        }
      }
    }
  }

  // ---------------------------------------------------------------------
  // Seals

  /** A SEAL command addressed to a present, living unit. */
  predicate Seals(s: GameState, c: Command) {
    c.action.Seal? && c.droneId in s.units.m && s.units.m[c.droneId].hp > 0
  }

  /** One command of the seal pass: a damaged unit's seal fails with
      `took_damage`, any other living unit tries `trySeal`. */
  function SealOne(s: GameState, c: Command, damaged: set<string>): (r: (GameState, seq<Event>))
    ensures r.0 == s.(units := r.0.units) && r.0.units.keys == s.units.keys && r.0.units.m.Keys == s.units.m.Keys
    ensures forall k :: k in s.units.m ==> r.0.units.m[k] == s.units.m[k].(inventory := r.0.units.m[k].inventory)
    ensures forall k :: k in s.units.m && k != c.droneId ==> r.0.units.m[k] == s.units.m[k]
    ensures c.droneId in s.units.m && s.units.m[c.droneId].id in damaged ==> r.0 == s
    ensures !Seals(s, c) ==> r == (s, [])
    ensures Seals(s, c) && s.units.m[c.droneId].id in damaged ==>
              r == (s, [SealFailed(s.units.m[c.droneId].id, "took_damage")])
    ensures Seals(s, c) && s.units.m[c.droneId].id !in damaged ==>
              var t := Loot.TrySeal(s.units.m[c.droneId], c.action.itemId);
              r.0.units.m[c.droneId] == t.0 && r.1 == t.2
  {
    if !c.action.Seal? || c.droneId !in s.units.m || s.units.m[c.droneId].hp <= 0 then (s, [])
    else
      var u := s.units.m[c.droneId];
      if u.id in damaged then (s, [SealFailed(u.id, "took_damage")])
      else
        var sealed := Loot.TrySeal(u, c.action.itemId);
        (PutUnit(s, c.droneId, sealed.0), sealed.2)
  }

  /** `resolveSeals`: SEAL commands of living units that took no damage this
      turn try to seal; only inventories change, and a damaged unit's never does. */
  function ResolveSeals(s: GameState, commands: seq<Command>, damaged: set<string>): (r: (GameState, seq<Event>))
    ensures r.0 == s.(units := r.0.units) && r.0.units.keys == s.units.keys && r.0.units.m.Keys == s.units.m.Keys
    ensures forall k :: k in s.units.m ==> r.0.units.m[k] == s.units.m[k].(inventory := r.0.units.m[k].inventory)
    ensures forall k :: k in s.units.m && s.units.m[k].id in damaged ==> r.0.units.m[k] == s.units.m[k]
    ensures forall k :: k in s.units.m && (forall i :: 0 <= i < |commands| ==> !(commands[i].action.Seal? && commands[i].droneId == k)) ==>
              r.0.units.m[k] == s.units.m[k]
    decreases |commands|
  {
    if |commands| == 0 then (s, [])
    else
      var one := SealOne(s, commands[0], damaged);
      var rest := ResolveSeals(one.0, commands[1..], damaged);
      assert forall i :: 1 <= i < |commands| ==> commands[1..][i - 1] == commands[i];
      (rest.0, one.1 + rest.1)
  }

  /** The item ids of the SEAL commands addressed to key `k`, in order. */
  function SealsFor(commands: seq<Command>, k: string): (ids: seq<string>)
    ensures |ids| <= |commands|
    decreases |commands|
  {
    if |commands| == 0 then []
    else (if commands[0].action.Seal? && commands[0].droneId == k then [commands[0].action.itemId] else [])
         + SealsFor(commands[1..], k)
  }

  /** A unit trying `trySeal` with each item id in turn. */
  function SealAll(u: Unit, itemIds: seq<string>): Unit
    decreases |itemIds|
  {
    if |itemIds| == 0 then u else SealAll(Loot.TrySeal(u, itemIds[0]).0, itemIds[1..])
  }

  /** Seals of different units do not interact: a living unit that took no
      damage ends as its own SEAL commands, tried in order, leave it, and any
      other unit is untouched. */
  lemma {:induction false} ResolveSealsPerUnit(s: GameState, commands: seq<Command>, damaged: set<string>, k: string)
    requires k in s.units.m
    ensures var u := s.units.m[k];
            ResolveSeals(s, commands, damaged).0.units.m[k] ==
              if u.hp <= 0 || u.id in damaged then u else SealAll(u, SealsFor(commands, k))
    decreases |commands|
  {
    if |commands| > 0 {
      var c := commands[0];
      var one := SealOne(s, c, damaged);
      var u := s.units.m[k];
      ResolveSealsPerUnit(one.0, commands[1..], damaged, k);
      assert ResolveSeals(s, commands, damaged).0 == ResolveSeals(one.0, commands[1..], damaged).0;
      var u1 := one.0.units.m[k];
      assert u1.hp == u.hp && u1.id == u.id;
      if c.action.Seal? && c.droneId == k {
        assert SealsFor(commands, k) == [c.action.itemId] + SealsFor(commands[1..], k);
        if u.hp > 0 && u.id !in damaged {
          assert u1 == Loot.TrySeal(u, c.action.itemId).0;
        } else {
          assert u1 == u;
        }
      } else {
        assert SealsFor(commands, k) == SealsFor(commands[1..], k);
        assert u1 == u;
      }
    }
  }

  /** Every SEAL command of a living unit that took damage is answered with
      `took_damage`. */
  lemma {:induction false} DamagedSealsFail(s: GameState, commands: seq<Command>, damaged: set<string>, i: nat)
    requires i < |commands| && Seals(s, commands[i]) && s.units.m[commands[i].droneId].id in damaged
    ensures SealFailed(s.units.m[commands[i].droneId].id, "took_damage") in ResolveSeals(s, commands, damaged).1
    decreases i
  {
    var one := SealOne(s, commands[0], damaged);
    var r := ResolveSeals(s, commands, damaged);
    var rest := ResolveSeals(one.0, commands[1..], damaged);
    assert r.1 == one.1 + rest.1;
    var k := commands[i].droneId;
    if i > 0 {
      assert commands[1..][i - 1] == commands[i];
      assert one.0.units.m[k] == s.units.m[k].(inventory := one.0.units.m[k].inventory);
      DamagedSealsFail(one.0, commands[1..], damaged, i - 1);
      assert SealFailed(s.units.m[k].id, "took_damage") in rest.1;
    } else {
      assert one.1 == [SealFailed(s.units.m[k].id, "took_damage")];
    }
  }

  // ---------------------------------------------------------------------
  // Squad wipe and repair

  /** `isSquadWiped`: no drone has hit points left. */
  predicate IsSquadWiped(s: GameState) {
    var us := Registry.Values(s.units);
    forall i :: 0 <= i < |us| ==> us[i].faction != Drone || us[i].hp <= 0
  }

  /** The squad is wiped exactly when no drone is alive. */
  lemma SquadWipedMeansNoLivingDrone(s: GameState)
    requires Registry.Valid(s.units)
    ensures IsSquadWiped(s) <==> Power.AliveDroneIds(s.units) == {}
  {
    var us := Registry.Values(s.units);
    if !IsSquadWiped(s) {
      var i :| 0 <= i < |us| && !(us[i].faction != Drone || us[i].hp <= 0);
      assert s.units.keys[i] in Power.AliveDroneIds(s.units);
    }
  }

  function RepairBonusOf(t: Traits): Option<int> { t.repairBonus }

  /** `getRepairBonus`: a drone's chassis repair bonus, 0 for enemies, unknown chassis and none. */
  function RepairBonus(cat: Catalog, u: Unit): (r: int)
    ensures u.faction != Drone || FindDrone(cat.drones, u.typeId).None? ==> r == 0
    ensures u.faction == Drone && FindDrone(cat.drones, u.typeId).Some? ==>
              r == FindDrone(cat.drones, u.typeId).value.traits.repairBonus.GetOr(0)
  {
    Power.Trait(cat, u, RepairBonusOf)
  }
}
