/** `step`: one simultaneous turn of the raid. Upkeep and the low-power
    counter come first, then the player's commands are cleaned and paid for,
    the enemies decide, movement resolves, every other command queues its
    effects, the queues are applied, timers tick and the mission may end. */
module Step {
  import opened Common
  import opened State
  import opened Schemas
  import Registry
  import Config
  import Combat
  import Doors
  import Loot
  import Extraction
  import Power
  import Ai
  import Observe
  import Commands
  import Movement
  import Effects
  import Smoke

  /** What the command loop queues for the end of the turn. */
  datatype Pending = Pending(
    damage: seq<Combat.PendingDamage>,
    heals: seq<Effects.Heal>,
    statuses: seq<Effects.StatusEntry>,
    smoke: seq<Smoke.SmokeEntry>)

  datatype StepResult = StepResult(nextState: GameState, events: seq<Event>, observation: Observe.Observation)

  /** The parts of the state the command loop never touches. */
  predicate SameFrame(s: GameState, s': GameState) {
    && s'.seed == s.seed && s'.rng == s.rng && s'.turn == s.turn && s'.lowPower == s.lowPower
    && s'.grid == s.grid && s'.extractionPos == s.extractionPos
    && s'.units.keys == s.units.keys && s'.units.m.Keys == s.units.m.Keys
  }

  /** `getUnitWeapon`: the catalog entry of the unit's primary weapon, none
      without a loadout; an unknown weapon id is fatal. */
  function UnitWeapon(cat: Catalog, u: Unit): (r: Result<Option<ItemDef>>)
    ensures u.loadout.None? ==> r == Ok(None)
    ensures u.loadout.Some? ==> (r.Ok? <==> GetItem(cat, u.loadout.value.primary.itemId).Ok?)
    ensures u.loadout.Some? && r.Ok? ==> r.value == Some(GetItem(cat, u.loadout.value.primary.itemId).value)
  {
    if u.loadout.None? then Ok(None)
    else
      var item :- GetItem(cat, u.loadout.value.primary.itemId);
      Ok(Some(item))
  }

  /** The unit with its primary weapon's magazine set to `ammo`. */
  function WithAmmo(u: Unit, ammo: int): (u': Unit)
    requires u.loadout.Some?
    ensures u'.loadout.Some? && u'.loadout.value.primary.ammo == ammo
    ensures u' == u.(loadout := u'.loadout) && u'.loadout.value == u.loadout.value.(primary := u'.loadout.value.primary)
    ensures u'.loadout.value.primary.itemId == u.loadout.value.primary.itemId
    ensures u'.loadout.value.primary.maxAmmo == u.loadout.value.primary.maxAmmo
  {
    var lo := u.loadout.value;
    u.(loadout := Some(lo.(primary := lo.primary.(ammo := ammo))))
  }

  /** A target the shot may aim at: present and alive. */
  predicate ValidTarget(s: GameState, targetId: string) {
    targetId in s.units.m && s.units.m[targetId].hp > 0
  }

  // ---------------------------------------------------------------------
  // The command handlers

  /** SHOOT: a missing or dead target, a unit without a weapon, an empty
      magazine and a target out of range or sight each fail with their own
      reason and change nothing; a drone's successful shot spends exactly
      one round, reports the weapon's nominal damage and queues the hit that
      `buildDamage` computes. An enemy's shot uses its template's weapon and
      fails silently. */
  function ShootCommand(cat: Catalog, s: GameState, key: string, u: Unit, targetId: string, p: Pending)
    : (r: Result<(GameState, Pending, seq<Event>)>)
    requires key in s.units.m
    ensures !ValidTarget(s, targetId) ==> r == Ok((s, p, [CommandFailed(u.id, "invalid_target")]))
    ensures ValidTarget(s, targetId) ==> (r.Err? <==> UnitWeapon(cat, u).Err?)
    ensures ValidTarget(s, targetId) && UnitWeapon(cat, u) == Ok(None) ==> r == Ok((s, p, [CommandFailed(u.id, "no_weapon")]))
    ensures r.Ok? ==> SameFrame(s, r.value.0) && r.value.0 == s.(units := r.value.0.units)
    ensures r.Ok? ==> forall k :: k in s.units.m && k != key ==> r.value.0.units.m[k] == s.units.m[k]
    ensures r.Ok? ==> r.value.1 == p.(damage := r.value.1.damage) && |p.damage| <= |r.value.1.damage| <= |p.damage| + 1 &&
                      r.value.1.damage[..|p.damage|] == p.damage
    ensures r.Ok? && |r.value.1.damage| > |p.damage| ==>
              targetId in s.units.m && s.units.m[targetId].hp > 0 && r.value.1.damage[|p.damage|].targetId == s.units.m[targetId].id &&
              r.value.1.damage[|p.damage|].amount >= 0
  {
    if !ValidTarget(s, targetId) then Ok((s, p, [CommandFailed(u.id, "invalid_target")]))
    else
      var target := s.units.m[targetId];
      var weapon :- UnitWeapon(cat, u);
      if weapon.None? then Ok((s, p, [CommandFailed(u.id, "no_weapon")]))
      else if u.faction == Drone then
        var ammo := u.loadout.value.primary.ammo;
        if ammo <= 0 then Ok((s, p, [CommandFailed(u.id, "empty_ammo")]))
        else if !Combat.CanShoot(s, u, target, weapon.value.range) then Ok((s, p, [CommandFailed(u.id, "no_los")]))
        else
          var u' := WithAmmo(u, ammo - 1);
          var hit := Combat.BuildDamage(s, u', target, Combat.FromItem(weapon.value));
          Ok((PutUnit(s, key, u'), p.(damage := p.damage + [hit]),
              [ShotFired(u.id, target.id, weapon.value.damage.GetOr(0))]))
      else
        match FindEnemy(cat.enemies, u.typeId)
        case None => Ok((s, p, []))
        case Some(template) =>
          if !Combat.CanShoot(s, u, target, Some(template.weapon.range)) then Ok((s, p, []))
          else
            var hit := Combat.BuildDamage(s, u, target, Combat.FromEnemy(template));
            Ok((s, p.(damage := p.damage + [hit]), [ShotFired(u.id, target.id, template.weapon.damage)]))
  }

  /** A drone's shot with a weapon at a valid target: an empty magazine
      fails with "empty_ammo", a target out of range or sight with "no_los",
      both changing nothing; otherwise exactly one round is spent, the shot
      is reported with the weapon's nominal damage and the hit queued is the
      one `buildDamage` computes for the shooter. */
  lemma DroneShot(cat: Catalog, s: GameState, key: string, u: Unit, targetId: string, p: Pending)
    requires key in s.units.m && ValidTarget(s, targetId) && u.faction == Drone
    requires UnitWeapon(cat, u).Ok? && UnitWeapon(cat, u).value.Some?
    ensures var w := UnitWeapon(cat, u).value.value;
            var target := s.units.m[targetId];
            var ammo := u.loadout.value.primary.ammo;
            var r := ShootCommand(cat, s, key, u, targetId, p);
            && (ammo <= 0 ==> r == Ok((s, p, [CommandFailed(u.id, "empty_ammo")])))
            && (ammo > 0 && !Combat.CanShoot(s, u, target, w.range) ==> r == Ok((s, p, [CommandFailed(u.id, "no_los")])))
            && (ammo > 0 && Combat.CanShoot(s, u, target, w.range) ==>
                  r == Ok((PutUnit(s, key, WithAmmo(u, ammo - 1)),
                           p.(damage := p.damage + [Combat.BuildDamage(s, WithAmmo(u, ammo - 1), target, Combat.FromItem(w))]),
                           [ShotFired(u.id, target.id, w.damage.GetOr(0))])))
  {
  }

  /** An enemy's shot with a weapon at a valid target changes no unit; it
      queues the template weapon's hit and reports it when the template
      exists and reaches the target, and otherwise does nothing. */
  lemma EnemyShot(cat: Catalog, s: GameState, key: string, u: Unit, targetId: string, p: Pending)
    requires key in s.units.m && ValidTarget(s, targetId) && u.faction != Drone
    requires UnitWeapon(cat, u).Ok? && UnitWeapon(cat, u).value.Some?
    ensures var target := s.units.m[targetId];
            var t := FindEnemy(cat.enemies, u.typeId);
            var r := ShootCommand(cat, s, key, u, targetId, p);
            && r.Ok? && r.value.0 == s
            && (t.Some? && Combat.CanShoot(s, u, target, Some(t.value.weapon.range)) ==>
                  r.value.1 == p.(damage := p.damage + [Combat.BuildDamage(s, u, target, Combat.FromEnemy(t.value))]) &&
                  r.value.2 == [ShotFired(u.id, target.id, t.value.weapon.damage)])
            && (!(t.Some? && Combat.CanShoot(s, u, target, Some(t.value.weapon.range))) ==> r.value == (s, p, []))
  {
  }

  /** Rounds are conserved: for a drone's own shot, the magazine afterwards
      plus the hits queued equals the magazine before, and a hit is queued
      exactly when a shot is reported. */
  lemma ShotSpendsOneRound(cat: Catalog, s: GameState, key: string, targetId: string, p: Pending)
    requires key in s.units.m && s.units.m[key].faction == Drone && s.units.m[key].loadout.Some?
    ensures var u := s.units.m[key];
            var r := ShootCommand(cat, s, key, u, targetId, p);
            r.Ok? ==>
              && r.value.0.units.m[key].loadout.Some?
              && r.value.0.units.m[key].loadout.value.primary.ammo + (|r.value.1.damage| - |p.damage|) == u.loadout.value.primary.ammo
              && (|r.value.1.damage| > |p.damage| <==> exists e :: e in r.value.2 && e.ShotFired?)
  {
    var u := s.units.m[key];
    var r := ShootCommand(cat, s, key, u, targetId, p);
    if ValidTarget(s, targetId) && UnitWeapon(cat, u).Ok? && UnitWeapon(cat, u).value.Some? {
      DroneShot(cat, s, key, u, targetId, p);
      if r.Ok? && |r.value.1.damage| > |p.damage| {
        assert r.value.2[0].ShotFired?;
      }
    }
  }

  /** HACK: refused under low power; a forced hack always means a door, a
      plain one opens the door with that id if there is one and otherwise
      drains the console. */
  function HackCommand(s: GameState, u: Unit, objectId: string, force: bool): (r: (GameState, seq<Event>))
    ensures !Doors.CanHack(s) ==> r == (s, [HackFailed(objectId, "low_power")])
    ensures Doors.CanHack(s) && force ==>
              var o := Doors.TryOpenDoor(s, u, objectId, ByForce); r == (o.0, o.2)
    ensures Doors.CanHack(s) && !force && objectId in s.doors.m ==>
              var o := Doors.TryOpenDoor(s, u, s.doors.m[objectId].id, ByHack); r == (o.0, o.2)
    ensures Doors.CanHack(s) && !force && objectId !in s.doors.m ==>
              var o := Doors.TryUseConsole(s, u, objectId); r == (o.0, o.2)
    ensures r.0 == s.(doors := r.0.doors, consoles := r.0.consoles, power := r.0.power)
    ensures r.0.power != s.power ==> !force && objectId !in s.doors.m && r.0.power == s.power + Config.ConsolePowerRestore
  {
    if !Doors.CanHack(s) then (s, [HackFailed(objectId, "low_power")])
    else if force then
      var o := Doors.TryOpenDoor(s, u, objectId, ByForce);
      (o.0, o.2)
    else if objectId in s.doors.m then
      var o := Doors.TryOpenDoor(s, u, s.doors.m[objectId].id, ByHack);
      (o.0, o.2)
    else
      var o := Doors.TryUseConsole(s, u, objectId);
      (o.0, o.2)
  }

  /** The first consumable with this id and charges left (`Array.prototype.find`). */
  function FindConsumable(cs: seq<ConsumableState>, itemId: string): (o: Option<nat>)
    ensures o.Some? ==> o.value < |cs| && cs[o.value].itemId == itemId && cs[o.value].charges > 0
    ensures o.Some? ==> forall j :: 0 <= j < o.value ==> !(cs[j].itemId == itemId && cs[j].charges > 0)
    ensures o.None? <==> forall j :: 0 <= j < |cs| ==> !(cs[j].itemId == itemId && cs[j].charges > 0)
    decreases |cs|
  {
    if |cs| == 0 then None
    else if cs[0].itemId == itemId && cs[0].charges > 0 then Some(0)
    else
      match FindConsumable(cs[1..], itemId)
      case None => None
      case Some(i) => Some(i + 1)
  }

  /** What an item's effect queues: a heal boosted by the user's repair
      bonus, a status, or a smoke cloud, defaulting the target to the user. */
  function QueueEffect(cat: Catalog, u: Unit, eff: ItemEffect, useTarget: Option<string>, targetPos: Option<Vec2>, p: Pending)
    : (p': Pending)
    ensures eff.effectType == HealEffect ==>
              p' == p.(heals := p.heals + [Effects.Heal(useTarget.GetOr(u.id), eff.amount.GetOr(0) + Effects.RepairBonus(cat, u))])
    ensures eff.effectType == StatusEffect ==>
              p' == p.(statuses := p.statuses + [Effects.StatusEntry(useTarget.GetOr(u.id), eff.status.GetOr(EMP), eff.duration.GetOr(1))])
    ensures eff.effectType == SmokeEffect ==>
              p' == p.(smoke := p.smoke + [Smoke.SmokeEntry(targetPos.GetOr(u.pos), eff.radius.GetOr(1), eff.duration.GetOr(1))])
  {
    match eff.effectType
    case HealEffect =>
      p.(heals := p.heals + [Effects.Heal(useTarget.GetOr(u.id), eff.amount.GetOr(0) + Effects.RepairBonus(cat, u))])
    case StatusEffect =>
      p.(statuses := p.statuses + [Effects.StatusEntry(useTarget.GetOr(u.id), eff.status.GetOr(EMP), eff.duration.GetOr(1))])
    case SmokeEffect =>
      p.(smoke := p.smoke + [Smoke.SmokeEntry(targetPos.GetOr(u.pos), eff.radius.GetOr(1), eff.duration.GetOr(1))])
  }

  /** Using an effect queues exactly one entry: one queue grows by one at its
      end, the damage queue never, and the other queues are untouched. */
  lemma QueueEffectAddsOne(cat: Catalog, u: Unit, eff: ItemEffect, useTarget: Option<string>, targetPos: Option<Vec2>, p: Pending)
    ensures var p' := QueueEffect(cat, u, eff, useTarget, targetPos, p);
            && p'.damage == p.damage
            && |p'.heals| + |p'.statuses| + |p'.smoke| == |p.heals| + |p.statuses| + |p.smoke| + 1
            && p'.heals[..|p.heals|] == p.heals && p'.statuses[..|p.statuses|] == p.statuses && p'.smoke[..|p.smoke|] == p.smoke
            && (|p'.heals| > |p.heals| ==> p'.heals[|p.heals|].targetId == useTarget.GetOr(u.id))
            && (|p'.statuses| > |p.statuses| ==> p'.statuses[|p.statuses|].targetId == useTarget.GetOr(u.id))
            && (|p'.smoke| > |p.smoke| ==> p'.smoke[|p.smoke|].center == targetPos.GetOr(u.pos))
  {
  }

  /** The unit after spending one charge of its consumable `j`. */
  function SpendCharge(u: Unit, j: nat): (u': Unit)
    requires u.loadout.Some? && j < |u.loadout.value.consumables|
    ensures u'.loadout.Some? && |u'.loadout.value.consumables| == |u.loadout.value.consumables|
    ensures u'.loadout.value.consumables[j].charges == u.loadout.value.consumables[j].charges - 1
    ensures u'.loadout.value.consumables[j].itemId == u.loadout.value.consumables[j].itemId
    ensures forall i :: 0 <= i < |u.loadout.value.consumables| && i != j ==>
              u'.loadout.value.consumables[i] == u.loadout.value.consumables[i]
    ensures u' == u.(loadout := u'.loadout) && u'.loadout.value == u.loadout.value.(consumables := u'.loadout.value.consumables)
  {
    var lo := u.loadout.value;
    u.(loadout := Some(lo.(consumables := lo.consumables[j := lo.consumables[j].(charges := lo.consumables[j].charges - 1)])))
  }

  /** USE_ITEM: spends one charge of the first matching consumable with
      charges left, then queues the item's effect. */
  function UseItemCommand(cat: Catalog, s: GameState, key: string, u: Unit, itemId: string,
                          useTarget: Option<string>, targetPos: Option<Vec2>, p: Pending)
    : (r: Result<(GameState, Pending, seq<Event>)>)
    requires key in s.units.m
    ensures u.loadout.None? ==> r == Ok((s, p, [CommandFailed(u.id, "no_items")]))
    ensures u.loadout.Some? && FindConsumable(u.loadout.value.consumables, itemId).None? ==>
              r == Ok((s, p, [CommandFailed(u.id, "missing_item")]))
    ensures u.loadout.Some? && FindConsumable(u.loadout.value.consumables, itemId).Some? ==>
              var u' := SpendCharge(u, FindConsumable(u.loadout.value.consumables, itemId).value);
              var item := GetItem(cat, itemId);
              && (r.Ok? <==> item.Ok?)
              && (r.Ok? ==> r.value.0 == PutUnit(s, key, u') && r.value.2 == [])
              && (r.Ok? && item.value.effect.None? ==> r.value.1 == p)
              && (r.Ok? && item.value.effect.Some? ==>
                    r.value.1 == QueueEffect(cat, u', item.value.effect.value, useTarget, targetPos, p))
    ensures r.Ok? ==> SameFrame(s, r.value.0) && r.value.0 == s.(units := r.value.0.units) && r.value.1.damage == p.damage
    ensures r.Ok? ==> forall k :: k in s.units.m && k != key ==> r.value.0.units.m[k] == s.units.m[k]
  {
    if u.loadout.None? then Ok((s, p, [CommandFailed(u.id, "no_items")]))
    else
      match FindConsumable(u.loadout.value.consumables, itemId)
      case None => Ok((s, p, [CommandFailed(u.id, "missing_item")]))
      case Some(j) =>
        var item :- GetItem(cat, itemId);
        var u' := SpendCharge(u, j);
        var s' := PutUnit(s, key, u');
        if item.effect.None? then Ok((s', p, []))
        else Ok((s', QueueEffect(cat, u', item.effect.value, useTarget, targetPos, p), []))
  }

  /** The commanding unit is present, alive and not under EMP, so its command is handled. */
  predicate Acts(s: GameState, c: Command) {
    c.droneId in s.units.m && s.units.m[c.droneId].hp > 0 && !HasStatus(s.units.m[c.droneId], EMP)
  }

  /** One command of the loop over non-movement commands. */
  function RunCommand(cat: Catalog, s: GameState, c: Command, p: Pending): (r: Result<(GameState, Pending, seq<Event>)>)
    ensures Acts(s, c) && c.action.Shoot? ==>
              r == ShootCommand(cat, s, c.droneId, s.units.m[c.droneId], c.action.targetId, p)
    ensures Acts(s, c) && c.action.Reload? ==>
              var u := s.units.m[c.droneId];
              && (u.loadout.None? ==> r == Ok((s, p, [])))
              && (u.loadout.Some? ==> r == Ok((PutUnit(s, c.droneId, WithAmmo(u, u.loadout.value.primary.maxAmmo)), p, [])))
    ensures Acts(s, c) && c.action.Hack? ==>
              var h := HackCommand(s, s.units.m[c.droneId], c.action.objectId, c.action.force); r == Ok((h.0, p, h.1))
    ensures Acts(s, c) && c.action.Loot? && c.action.crateId !in s.crates.m ==> r == Ok((s, p, []))
    ensures Acts(s, c) && c.action.Loot? && c.action.crateId in s.crates.m ==>
              var l := Loot.TryLoot(s.units.m[c.droneId], s.crates.m[c.action.crateId]);
              r == Ok((PutUnit(s, c.droneId, l.0).(crates := Registry.Put(s.crates, c.action.crateId, l.1)), p, l.3))
    ensures Acts(s, c) && c.action.UseItem? ==>
              r == UseItemCommand(cat, s, c.droneId, s.units.m[c.droneId], c.action.itemId, c.action.useTargetId, c.action.targetPos, p)
    ensures Acts(s, c) && c.action.Extract? ==>
              var x := Extraction.ApplyExtraction(s, s.units.m[c.droneId]); r == Ok((x.0, p, x.1))
    ensures c.droneId !in s.units.m || s.units.m[c.droneId].hp <= 0 ==> r == Ok((s, p, []))
    ensures c.droneId in s.units.m && s.units.m[c.droneId].hp > 0 && HasStatus(s.units.m[c.droneId], EMP) ==>
              r == Ok((s, p, [CommandFailed(s.units.m[c.droneId].id, "emp")]))
    ensures c.action.Move? || c.action.Dash? || c.action.Seal? ==> r.Ok? && r.value.0 == s && r.value.1 == p
    ensures r.Ok? ==> SameFrame(s, r.value.0)
    ensures r.Ok? ==> forall k :: k in s.units.m && k != c.droneId ==> r.value.0.units.m[k] == s.units.m[k]
  {
    if c.droneId !in s.units.m || s.units.m[c.droneId].hp <= 0 then Ok((s, p, []))
    else
      var u := s.units.m[c.droneId];
      if HasStatus(u, EMP) then Ok((s, p, [CommandFailed(u.id, "emp")]))
      else
        match c.action
        case Shoot(targetId) => ShootCommand(cat, s, c.droneId, u, targetId, p)
        case Reload =>
          if u.loadout.None? then Ok((s, p, []))
          else Ok((PutUnit(s, c.droneId, WithAmmo(u, u.loadout.value.primary.maxAmmo)), p, []))
        case Hack(objectId, force) =>
          var h := HackCommand(s, u, objectId, force);
          Ok((h.0, p, h.1))
        case Loot(crateId) =>
          if crateId !in s.crates.m then Ok((s, p, []))
          else
            var l := Loot.TryLoot(u, s.crates.m[crateId]);
            var s' := PutUnit(s, c.droneId, l.0);
            Ok((s'.(crates := Registry.Put(s'.crates, crateId, l.1)), p, l.3))
        case UseItem(itemId, useTarget, targetPos) =>
          UseItemCommand(cat, s, c.droneId, u, itemId, useTarget, targetPos, p)
        case Extract =>
          var x := Extraction.ApplyExtraction(s, u);
          Ok((x.0, p, x.1))
        case Move(_) => Ok((s, p, []))
        case Dash(_) => Ok((s, p, []))
        case Seal(_) => Ok((s, p, []))
  }

  /** The loop over the non-movement commands, in order; a fault ends the turn. */
  function RunCommands(cat: Catalog, s: GameState, cs: seq<Command>, p: Pending): (r: Result<(GameState, Pending, seq<Event>)>)
    ensures r.Ok? ==> SameFrame(s, r.value.0)
    ensures r.Ok? ==> forall k :: k in s.units.m && (forall i :: 0 <= i < |cs| ==> cs[i].droneId != k) ==>
                        r.value.0.units.m[k] == s.units.m[k]
    decreases |cs|
  {
    if |cs| == 0 then Ok((s, p, []))
    else
      var one :- RunCommand(cat, s, cs[0], p);
      var rest :- RunCommands(cat, one.0, cs[1..], one.1);
      assert forall i :: 1 <= i < |cs| ==> cs[1..][i - 1] == cs[i];
      Ok((rest.0, rest.1, one.2 + rest.2))
  }

  /** An enemy carries no loadout, so its SHOOT command at a living target
      always fails with `no_weapon` before range or sight is checked. */
  lemma EnemyShotsFail(cat: Catalog, s: GameState, c: Command, p: Pending)
    requires c.droneId in s.units.m && c.action.Shoot?
    requires var u := s.units.m[c.droneId]; u.faction == Enemy && u.hp > 0 && !HasStatus(u, EMP) && u.loadout.None?
    requires c.action.targetId in s.units.m && s.units.m[c.action.targetId].hp > 0
    ensures RunCommand(cat, s, c, p) == Ok((s, p, [CommandFailed(s.units.m[c.droneId].id, "no_weapon")]))
  {
  }

  // ---------------------------------------------------------------------
  // End of turn

  /** Low power lifts once power is back above the threshold. */
  function Recover(s: GameState): (s': GameState)
    ensures s' == s.(lowPower := s'.lowPower)
    ensures s'.lowPower.active ==> s.power <= Config.LowPowerThreshold && s'.lowPower == s.lowPower
    ensures !s.lowPower.active ==> s' == s
  {
    if s.power > Config.LowPowerThreshold && s.lowPower.active then s.(lowPower := LowPower(false, 0)) else s
  }

  /** The mission fails on a long enough blackout and on a wiped squad; a
      mission already decided this turn is left alone. */
  function EndMission(s: GameState): (r: (GameState, seq<Event>))
    ensures r.0 == s.(mission := r.0.mission)
    ensures s.mission.status != InProgress ==> r == (s, [])
    ensures s.mission.status == InProgress ==>
              (r.0.mission.status == InProgress <==>
                 !(s.lowPower.active && s.lowPower.turns >= Config.LowPowerTurnsToFail) && !Effects.IsSquadWiped(s))
    ensures r.0.mission.status == InProgress ==>
              !Effects.IsSquadWiped(r.0) && !(r.0.lowPower.active && r.0.lowPower.turns >= Config.LowPowerTurnsToFail)
    ensures s.mission.status == InProgress && Effects.IsSquadWiped(s) ==>
              r.0.mission == Mission(Failed, Some("squad_wipe"))
    ensures r.0.mission.status != InProgress && s.mission.status == InProgress ==>
              r.0.mission.status == Failed && r.0.mission.failureReason.Some? &&
              MissionFailed(r.0.mission.failureReason.value) in r.1
  {
    if s.mission.status != InProgress then (s, [])
    else
      var powerOut := s.lowPower.active && s.lowPower.turns >= Config.LowPowerTurnsToFail;
      var s1 := if powerOut then s.(mission := Mission(Failed, Some("power_out"))) else s;
      var e1 := if powerOut then [MissionFailed("power_out")] else [];
      if Effects.IsSquadWiped(s1) then
        (s1.(mission := Mission(Failed, Some("squad_wipe"))), e1 + [MissionFailed("squad_wipe")])
      else (s1, e1)
  }

  // ---------------------------------------------------------------------
  // The turn

  /** The state after every phase of an in-progress turn, with its events. */
  function Resolve(cat: Catalog, s: GameState, commands: seq<Command>): (r: Result<(GameState, seq<Event>)>)
    ensures r.Ok? ==> r.value.0.turn == s.turn && r.value.0.seed == s.seed && r.value.0.rng == s.rng
    ensures r.Ok? ==> r.value.0.units.keys == s.units.keys && r.value.0.units.m.Keys == s.units.m.Keys
    ensures r.Ok? ==> r.value.0.grid.width == s.grid.width && r.value.0.grid.height == s.grid.height &&
                      |r.value.0.grid.tiles| == |s.grid.tiles|
    ensures r.Ok? && r.value.0.lowPower.active ==> r.value.0.power <= Config.LowPowerThreshold
    ensures r.Ok? && r.value.0.mission.status == InProgress ==>
              !Effects.IsSquadWiped(r.value.0) &&
              !(r.value.0.lowPower.active && r.value.0.lowPower.turns >= Config.LowPowerTurnsToFail)
  {
    var m := Power.ApplyMaintenance(s);
    var lp := Power.UpdateLowPower(m.0);
    var san := Commands.Sanitize(lp.0, commands);
    var paid := Power.ApplyActionPowerCosts(cat, lp.0, san.0);
    var enemy := Ai.BuildEnemyCommands(cat, paid.0);
    var all := Commands.Dedupe(paid.1 + enemy);
    var moves := Commands.MoveCommands(all.0);
    var others := Commands.OtherCommands(all.0);
    var mv := Movement.ResolveMovement(paid.0, moves);
    var run :- RunCommands(cat, mv.0, others, Pending([], [], [], []));
    var dmg := Combat.ApplyDamage(run.0, run.1.damage);
    var knocked := Combat.ApplyKnockback(dmg.0, run.1.damage);
    var healed := Effects.ApplyHeals(knocked, run.1.heals);
    var statused := Effects.ApplyStatusEntries(healed.0, run.1.statuses);
    var smoked := statused.0.(grid := Smoke.ApplySmoke(statused.0.grid, run.1.smoke));
    var sealed := Effects.ResolveSeals(smoked, paid.1, dmg.1);
    var ticked := Combat.TickStatuses(sealed.0);
    var cleared := ticked.(grid := Smoke.TickSmoke(ticked.grid));
    var recovered := Recover(cleared);
    var ended := EndMission(recovered);
    Ok((ended.0, m.1 + lp.1 + san.1 + paid.2 + all.1 + mv.1 + run.2 + dmg.2 + healed.1 + statused.1 + sealed.1 + ended.1))
  }

  /** `step`: a decided mission is returned unchanged; otherwise the turn
      resolves and the counter advances. The observation is built from the
      returned state in the resolution phase. */
  function Step(cat: Catalog, s: GameState, commands: seq<Command>): (r: Result<StepResult>)
    ensures s.mission.status != InProgress ==> r == Ok(StepResult(s, [], Observe.BuildObservation(s, ResolutionPhase)))
    ensures r.Ok? ==> r.value.observation == Observe.BuildObservation(r.value.nextState, ResolutionPhase)
  {
    if s.mission.status != InProgress then Ok(StepResult(s, [], Observe.BuildObservation(s, ResolutionPhase)))
    else
      var res :- Resolve(cat, s, commands);
      var next := res.0.(turn := res.0.turn + 1);
      Ok(StepResult(next, res.1, Observe.BuildObservation(next, ResolutionPhase)))
  }

  /** An in-progress turn advances the counter by one, keeps the roster of
      units and the grid's shape, never leaves low power active with power
      above the threshold, and leaves the mission open only with a drone
      standing and the blackout short of failure. */
  lemma StepAdvances(cat: Catalog, s: GameState, commands: seq<Command>)
    requires s.mission.status == InProgress && Step(cat, s, commands).Ok?
    ensures var n := Step(cat, s, commands).value.nextState;
            && n.turn == s.turn + 1 && n.seed == s.seed
            && n.units.keys == s.units.keys && n.units.m.Keys == s.units.m.Keys
            && n.grid.width == s.grid.width && n.grid.height == s.grid.height
            && (n.lowPower.active ==> n.power <= Config.LowPowerThreshold)
            && (n.mission.status == InProgress ==>
                  !Effects.IsSquadWiped(n) && !(n.lowPower.active && n.lowPower.turns >= Config.LowPowerTurnsToFail))
  {
  }

  /** A decided mission stays decided, and stepping it again changes nothing. */
  lemma DecidedMissionIsFinal(cat: Catalog, s: GameState, commands: seq<Command>, more: seq<Command>)
    requires s.mission.status != InProgress
    ensures Step(cat, s, commands).Ok? && Step(cat, s, commands).value.nextState == s
    ensures Step(cat, Step(cat, s, commands).value.nextState, more) == Step(cat, s, commands)
  {
  }
}
