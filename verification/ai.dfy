/** The enemy AI: each living enemy not under EMP picks the nearest living
    drone and shoots it when it can, otherwise walks up to three steps of a
    shortest path towards it, unless it is a stationary turret or camera. */
module Ai {
  import opened Common
  import opened State
  import opened Schemas
  import opened Grid
  import Registry
  import Order
  import Combat
  import Pathfind
  import Commands

  /** Alive and of the given faction: the predicate of the `Object.values` filter. */
  predicate LivingIn(faction: Faction, u: Unit) {
    u.faction == faction && u.hp > 0
  }

  /** Living units of one faction, in registry order (the `Object.values` filter). */
  function LivingOf(units: Registry.Reg<Unit>, faction: Faction): (us: seq<Unit>)
    ensures forall i :: 0 <= i < |us| ==> us[i].faction == faction && us[i].hp > 0 && us[i] in units.m.Values
  {
    LivingAmong(units.keys, units.m, faction)
  }

  function LivingAmong(keys: seq<string>, m: map<string, Unit>, faction: Faction): (us: seq<Unit>)
    ensures forall i :: 0 <= i < |us| ==> us[i].faction == faction && us[i].hp > 0 && us[i] in m.Values
    decreases |keys|
  {
    if |keys| == 0 then []
    else
      var rest := LivingAmong(keys[1..], m, faction);
      if keys[0] in m && LivingIn(faction, m[keys[0]]) then [m[keys[0]]] + rest else rest
  }

  /** The living units are exactly `Object.values` filtered by faction and
      positive hit points, in the same order. */
  lemma LivingOfIsFilter(units: Registry.Reg<Unit>, faction: Faction)
    ensures LivingOf(units, faction) == Commands.Filter(Registry.Values(units), u => LivingIn(faction, u))
  {
    LivingAmongIsFilter(units.keys, units.m, faction);
  }

  lemma {:induction false} LivingAmongIsFilter(keys: seq<string>, m: map<string, Unit>, faction: Faction)
    ensures LivingAmong(keys, m, faction) == Commands.Filter(Registry.ValuesOf(keys, m), u => LivingIn(faction, u))
    decreases |keys|
  {
    if |keys| > 0 {
      LivingAmongIsFilter(keys[1..], m, faction);
      var p := (u: Unit) => LivingIn(faction, u);
      var vs := Registry.ValuesOf(keys[1..], m);
      if keys[0] in m {
        var all := [m[keys[0]]] + vs;
        assert Registry.ValuesOf(keys, m) == all;
        assert all[1..] == vs;
        assert Commands.Filter(all, p) == (if p(all[0]) then [all[0]] else []) + Commands.Filter(vs, p);
      } else {
        assert Registry.ValuesOf(keys, m) == vs;
      }
    }
  }

  /** The nearer of two candidates by Manhattan distance, the lower id on a tie. */
  predicate Better(enemy: Unit, d: Unit, best: Unit) {
    Manhattan(d.pos, enemy.pos) < Manhattan(best.pos, enemy.pos) ||
    (Manhattan(d.pos, enemy.pos) == Manhattan(best.pos, enemy.pos) && Order.Less(d.id, best.id))
  }

  /** The scan of `pickNearestTarget` with the best candidate so far. */
  function PickFrom(enemy: Unit, drones: seq<Unit>, best: Option<Unit>): (r: Option<Unit>)
    ensures r.None? <==> best.None? && |drones| == 0
    ensures r.Some? ==> r == best || r.value in drones
    decreases |drones|
  {
    if |drones| == 0 then best
    else
      var d := drones[0];
      var best' := if best.None? || Better(enemy, d, best.value) then Some(d) else best;
      PickFrom(enemy, drones[1..], best')
  }

  /** `pickNearestTarget`: the nearest drone, ties going to the smallest id; none for no drones. */
  function PickNearestTarget(enemy: Unit, drones: seq<Unit>): (r: Option<Unit>)
    ensures r.None? <==> |drones| == 0
    ensures r.Some? ==> r.value in drones
  {
    PickFrom(enemy, drones, None)
  }

  /** The scan ends at a candidate no drone beats: minimal distance, and the
      smallest id among the drones at that distance. */
  lemma {:induction false} PickFromBest(enemy: Unit, drones: seq<Unit>, best: Option<Unit>)
    requires |drones| > 0 || best.Some?
    ensures var r := PickFrom(enemy, drones, best);
            r.Some? &&
            (best.Some? ==> !Better(enemy, best.value, r.value)) &&
            forall i :: 0 <= i < |drones| ==> !Better(enemy, drones[i], r.value)
    decreases |drones|
  {
    if |drones| > 0 {
      var d := drones[0];
      var best' := if best.None? || Better(enemy, d, best.value) then Some(d) else best;
      PickFromBest(enemy, drones[1..], best');
      var r := PickFrom(enemy, drones, best);
      assert r == PickFrom(enemy, drones[1..], best');
      if best' == Some(d) {
        if best.Some? {
          if Better(enemy, d, best.value) {
            BetterAsymmetric(enemy, d, best.value);
            NotBetterTransitive(enemy, best.value, d, r.value);
          }
        }
      } else {
        assert best' == best;
        NotBetterTransitive(enemy, d, best.value, r.value);
      }
      forall i | 1 <= i < |drones|
        ensures !Better(enemy, drones[i], r.value)
      {
        assert drones[i] == drones[1..][i - 1];
      }
    } else {
      Order.LessIrreflexive(best.value.id);
    }
  }

  lemma BetterAsymmetric(enemy: Unit, a: Unit, b: Unit)
    requires Better(enemy, a, b)
    ensures !Better(enemy, b, a)
  {
    if Order.Less(a.id, b.id) && Order.Less(b.id, a.id) {
      Order.LessAsymmetric(a.id, b.id);
    }
  }

  /** "Not better than" is transitive over the distance-then-id order. */
  lemma NotBetterTransitive(enemy: Unit, a: Unit, b: Unit, c: Unit)
    requires !Better(enemy, a, b) && !Better(enemy, b, c)
    ensures !Better(enemy, a, c)
  {
    if Manhattan(a.pos, enemy.pos) == Manhattan(b.pos, enemy.pos) == Manhattan(c.pos, enemy.pos) {
      Order.NotLessTransitive(c.id, b.id, a.id);
    }
  }

  /** The chosen target is a nearest drone, with the smallest id among the nearest. */
  lemma PickNearestIsNearest(enemy: Unit, drones: seq<Unit>)
    requires |drones| > 0
    ensures var r := PickNearestTarget(enemy, drones).value;
            forall i :: 0 <= i < |drones| ==>
              Manhattan(r.pos, enemy.pos) <= Manhattan(drones[i].pos, enemy.pos) &&
              (Manhattan(r.pos, enemy.pos) == Manhattan(drones[i].pos, enemy.pos) ==> !Order.Less(drones[i].id, r.id))
  {
    PickFromBest(enemy, drones, None);
  }

  /** Turrets (any role naming one) and cameras never leave their cell. */
  predicate HoldsPosition(enemy: Unit) {
    enemy.aiRole.Some? && (Contains(enemy.aiRole.value, "turret") || enemy.aiRole.value == "camera")
  }

  /** At most the first four cells of the path: the current cell and three steps. */
  function MovePath(path: seq<Vec2>): (p: seq<Vec2>)
    ensures |p| == Min(4, |path|) && p == path[..|p|]
  {
    if |path| <= 4 then path else path[..4]
  }

  /** The enemy's weapon, from its template, reaches the target. */
  predicate ShootsAt(cat: Catalog, s: GameState, enemy: Unit, target: Unit) {
    FindEnemy(cat.enemies, enemy.typeId).Some? &&
    Combat.CanShoot(s, enemy, target, Some(FindEnemy(cat.enemies, enemy.typeId).value.weapon.range))
  }

  /** The cells of the enemy's move towards a target: the first four of a shortest path. */
  function Approach(s: GameState, enemy: Unit, target: Unit): seq<Vec2> {
    MovePath(Pathfind.FindPath(s.grid, s.doors, enemy.pos, target.pos))
  }

  /** The decision of one enemy in `buildEnemyCommands`: nothing under EMP
      or with no drone left; otherwise SHOOT the nearest drone exactly when
      the template's weapon reaches it, and failing that MOVE along the
      first cells of a shortest path exactly when the enemy is mobile and
      that path leaves its cell. */
  function EnemyCommand(cat: Catalog, s: GameState, enemy: Unit, drones: seq<Unit>): (c: Option<Command>)
    ensures HasStatus(enemy, EMP) || |drones| == 0 ==> c.None?
    ensures c.Some? ==> c.value.droneId == enemy.id && (c.value.action.Shoot? || c.value.action.Move?)
    ensures c.Some? && c.value.action.Shoot? ==>
              exists i :: 0 <= i < |drones| && drones[i].id == c.value.action.targetId &&
                FindEnemy(cat.enemies, enemy.typeId).Some? &&
                Combat.CanShoot(s, enemy, drones[i], Some(FindEnemy(cat.enemies, enemy.typeId).value.weapon.range))
    ensures c.Some? && c.value.action.Move? ==>
              && !HoldsPosition(enemy)
              && 2 <= |c.value.action.path| <= 4
              && c.value.action.path[0] == enemy.pos
              && Pathfind.IsWalk(s.grid, s.doors, c.value.action.path)
  {
    if HasStatus(enemy, EMP) then None
    else match PickNearestTarget(enemy, drones)
      case None => None
      case Some(target) =>
        var weapon := FindEnemy(cat.enemies, enemy.typeId);
        if weapon.Some? && Combat.CanShoot(s, enemy, target, Some(weapon.value.weapon.range)) then
          Some(Command(enemy.id, Shoot(target.id)))
        else if HoldsPosition(enemy) then None
        else
          var path := Pathfind.FindPath(s.grid, s.doors, enemy.pos, target.pos);
          var movePath := MovePath(path);
          Pathfind.FindPathCorrect(s.grid, s.doors, enemy.pos, target.pos);
          WalkPrefixN(s.grid, s.doors, path, |movePath|);
          if |movePath| > 1 then Some(Command(enemy.id, Move(movePath))) else None
  }

  /** The decision table of one enemy that is not under EMP and sees a
      drone: SHOOT the nearest drone exactly when the template's weapon
      reaches it; otherwise MOVE along the first cells of a shortest path
      exactly when the enemy is mobile and that path leaves its cell. */
  lemma EnemyCommandDecides(cat: Catalog, s: GameState, enemy: Unit, drones: seq<Unit>)
    requires !HasStatus(enemy, EMP) && |drones| > 0
    ensures var c := EnemyCommand(cat, s, enemy, drones);
            var target := PickNearestTarget(enemy, drones).value;
            && (c.Some? && c.value.action.Shoot? <==> ShootsAt(cat, s, enemy, target))
            && (c.Some? && c.value.action.Shoot? ==> c.value.action.targetId == target.id)
            && (c.Some? && c.value.action.Move? <==>
                  !ShootsAt(cat, s, enemy, target) && !HoldsPosition(enemy) && |Approach(s, enemy, target)| > 1)
            && (c.Some? && c.value.action.Move? ==> c.value.action.path == Approach(s, enemy, target))
  {
  }

  /** Each enemy's decision, in the order of the enemies. */
  function Decisions(cat: Catalog, s: GameState, enemies: seq<Unit>, drones: seq<Unit>): (ds: seq<Option<Command>>)
    ensures |ds| == |enemies|
    ensures forall i :: 0 <= i < |enemies| ==> ds[i] == EnemyCommand(cat, s, enemies[i], drones)
  {
    seq(|enemies|, i requires 0 <= i < |enemies| => EnemyCommand(cat, s, enemies[i], drones))
  }

  lemma DecisionsTail(cat: Catalog, s: GameState, enemies: seq<Unit>, drones: seq<Unit>)
    requires |enemies| > 0
    ensures Decisions(cat, s, enemies, drones)[1..] == Decisions(cat, s, enemies[1..], drones)
    ensures Decisions(cat, s, enemies, drones)[0] == EnemyCommand(cat, s, enemies[0], drones)
  {
    var ds, ds' := Decisions(cat, s, enemies, drones), Decisions(cat, s, enemies[1..], drones);
    forall i | 0 <= i < |ds'|
      ensures ds[1..][i] == ds'[i]
    {
      assert enemies[1..][i] == enemies[i + 1];
    }
  }

  /** Every non-empty prefix of a walk is a walk. */
  lemma WalkPrefixN(g: GridState, doors: Registry.Reg<Door>, w: seq<Vec2>, n: int)
    ensures Pathfind.IsWalk(g, doors, w) && 1 <= n <= |w| ==> Pathfind.IsWalk(g, doors, w[..n])
  {
  }

  /** The loop of `buildEnemyCommands`: the commands decided, in the order of the enemies. */
  function CommandsFor(cat: Catalog, s: GameState, enemies: seq<Unit>, drones: seq<Unit>): (cs: seq<Command>)
    ensures cs == Somes(Decisions(cat, s, enemies, drones))
    ensures |cs| <= |enemies|
    decreases |enemies|
  {
    if |enemies| == 0 then []
    else
      var rest := CommandsFor(cat, s, enemies[1..], drones);
      assert forall i :: 1 <= i < |enemies| ==> enemies[1..][i - 1] == enemies[i];
      DecisionsTail(cat, s, enemies, drones);
      match EnemyCommand(cat, s, enemies[0], drones)
      case None => rest
      case Some(c) => [c] + rest
  }

  /** Each command comes from one of the enemies, which is not under EMP. */
  lemma CommandFromEnemy(cat: Catalog, s: GameState, enemies: seq<Unit>, drones: seq<Unit>, k: nat)
    requires k < |CommandsFor(cat, s, enemies, drones)|
    ensures exists i :: 0 <= i < |enemies| && !HasStatus(enemies[i], EMP) &&
                        CommandsFor(cat, s, enemies, drones)[k].droneId == enemies[i].id &&
                        EnemyCommand(cat, s, enemies[i], drones) == Some(CommandsFor(cat, s, enemies, drones)[k])
  {
    SomesFrom(Decisions(cat, s, enemies, drones), k);
  }

  /** `buildEnemyCommands`: one decision per living enemy in registry order,
      against the living drones. */
  function BuildEnemyCommands(cat: Catalog, s: GameState): (cs: seq<Command>)
    ensures cs == Somes(Decisions(cat, s, LivingOf(s.units, Enemy), LivingOf(s.units, Drone)))
    ensures FromLivingEnemies(cat, s, cs)
  {
    CommandsFromLiving(cat, s);
    CommandsFor(cat, s, LivingOf(s.units, Enemy), LivingOf(s.units, Drone))
  }

  /** The command is the decision of a living enemy of the state that is not under EMP. */
  ghost predicate FromLivingEnemy(cat: Catalog, s: GameState, c: Command) {
    exists e :: e in s.units.m.Values && e.faction == Enemy && e.hp > 0 && !HasStatus(e, EMP) &&
                c.droneId == e.id && EnemyCommand(cat, s, e, LivingOf(s.units, Drone)) == Some(c)
  }

  ghost predicate FromLivingEnemies(cat: Catalog, s: GameState, cs: seq<Command>) {
    forall k :: 0 <= k < |cs| ==> FromLivingEnemy(cat, s, cs[k])
  }

  lemma CommandsFromLiving(cat: Catalog, s: GameState)
    ensures FromLivingEnemies(cat, s, CommandsFor(cat, s, LivingOf(s.units, Enemy), LivingOf(s.units, Drone)))
  {
    var cs := CommandsFor(cat, s, LivingOf(s.units, Enemy), LivingOf(s.units, Drone));
    forall k | 0 <= k < |cs|
      ensures FromLivingEnemy(cat, s, cs[k])
    {
      CommandFromLiving(cat, s, k);
    }
  }

  lemma CommandFromLiving(cat: Catalog, s: GameState, k: nat)
    requires k < |CommandsFor(cat, s, LivingOf(s.units, Enemy), LivingOf(s.units, Drone))|
    ensures FromLivingEnemy(cat, s, CommandsFor(cat, s, LivingOf(s.units, Enemy), LivingOf(s.units, Drone))[k])
  {
    var enemies := LivingOf(s.units, Enemy);
    var drones := LivingOf(s.units, Drone);
    var c := CommandsFor(cat, s, enemies, drones)[k];
    CommandFromEnemy(cat, s, enemies, drones, k);
    var i :| 0 <= i < |enemies| && !HasStatus(enemies[i], EMP) && c.droneId == enemies[i].id &&
             EnemyCommand(cat, s, enemies[i], drones) == Some(c);
    var e := enemies[i];
    assert e in s.units.m.Values && e.faction == Enemy && e.hp > 0;
  }

  /** Enemy shots aim only at living drones; enemy moves are walks that
      start where the enemy stands and are never taken by turrets or cameras. */
  lemma EnemyCommandsSound(cat: Catalog, s: GameState)
    ensures forall c :: c in BuildEnemyCommands(cat, s) && c.action.Shoot? ==>
              exists d :: d in s.units.m.Values && d.faction == Drone && d.hp > 0 && d.id == c.action.targetId
    ensures forall c :: c in BuildEnemyCommands(cat, s) && c.action.Move? ==>
              exists e :: e in s.units.m.Values && e.id == c.droneId && !HoldsPosition(e) &&
                          c.action.path[0] == e.pos && Pathfind.IsWalk(s.grid, s.doors, c.action.path)
  {
    var cs := BuildEnemyCommands(cat, s);
    forall c | c in cs && c.action.Shoot?
      ensures exists d :: d in s.units.m.Values && d.faction == Drone && d.hp > 0 && d.id == c.action.targetId
    {
      var k :| 0 <= k < |cs| && cs[k] == c;
      ShotSound(cat, s, cs[k]);
    }
    forall c | c in cs && c.action.Move?
      ensures exists e :: e in s.units.m.Values && e.id == c.droneId && !HoldsPosition(e) &&
                          c.action.path[0] == e.pos && Pathfind.IsWalk(s.grid, s.doors, c.action.path)
    {
      var k :| 0 <= k < |cs| && cs[k] == c;
      MoveSound(cat, s, cs[k]);
    }
  }

  lemma ShotSound(cat: Catalog, s: GameState, c: Command)
    requires FromLivingEnemy(cat, s, c) && c.action.Shoot?
    ensures exists d :: d in s.units.m.Values && d.faction == Drone && d.hp > 0 && d.id == c.action.targetId
  {
    var drones := LivingOf(s.units, Drone);
    var e :| e in s.units.m.Values && e.faction == Enemy && e.hp > 0 && !HasStatus(e, EMP) &&
             c.droneId == e.id && EnemyCommand(cat, s, e, drones) == Some(c);
    var i :| 0 <= i < |drones| && drones[i].id == c.action.targetId &&
             FindEnemy(cat.enemies, e.typeId).Some? &&
             Combat.CanShoot(s, e, drones[i], Some(FindEnemy(cat.enemies, e.typeId).value.weapon.range));
    assert drones[i] in s.units.m.Values;
  }

  lemma MoveSound(cat: Catalog, s: GameState, c: Command)
    requires FromLivingEnemy(cat, s, c) && c.action.Move?
    ensures exists e :: e in s.units.m.Values && e.id == c.droneId && !HoldsPosition(e) &&
                        c.action.path[0] == e.pos && Pathfind.IsWalk(s.grid, s.doors, c.action.path)
  {
    var e :| e in s.units.m.Values && e.faction == Enemy && e.hp > 0 && !HasStatus(e, EMP) &&
             c.droneId == e.id && EnemyCommand(cat, s, e, LivingOf(s.units, Drone)) == Some(c);
  }
}
