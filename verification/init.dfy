/** `createInitialState`: the raid a seed produces. The layout comes from
    `buildRaidGrid`; four drones start in the top-left corner of the first
    room with the standard loadout; one randomly drawn enemy stands in the
    middle of every other room; and when a drone chassis carries the
    start-of-fight mark, the living enemy with the smallest id starts MARKED. */
module Init {
  import opened Common
  import opened State
  import Registry
  import Config
  import SimRng
  import RaidGrid
  import Order
  import Commands

  const Chassis: seq<string> := ["bulwark", "striker", "specter", "patcher"]
  const StartPositions: seq<Vec2> := [Vec2(1, 1), Vec2(2, 1), Vec2(1, 2), Vec2(2, 2)]
  const StartModules: seq<string> := ["aegis-plate", "dash-coupler"]
  const StartWeapons: seq<string> := ["arc-rifle", "sidearm"]
  const StartConsumables: seq<string> := ["repair-foam", "smoke-canister"]

  function DroneId(index: nat): string {
    "drone-" + NatToString(index + 1)
  }

  function EnemyId(counter: nat): string {
    "enemy-" + NatToString(counter)
  }

  /** Where the enemy of room `roomIndex` stands. */
  function EnemyPosition(roomIndex: int): Vec2 {
    Vec2(RaidGrid.RoomOffset(roomIndex) + 4, 4)
  }

  // ---------------------------------------------------------------------
  // Units into a registry

  function UnitIds(us: seq<Unit>): (ids: seq<string>)
    ensures |ids| == |us| && forall i :: 0 <= i < |us| ==> ids[i] == us[i].id
  {
    seq(|us|, i requires 0 <= i < |us| => us[i].id)
  }

  /** Assigns the units to an empty object in order, each under its id. */
  function FromUnits(us: seq<Unit>): (r: Registry.Reg<Unit>)
    ensures Registry.Valid(r)
    ensures forall k :: k in r.m ==> r.m[k].id == k
    decreases |us|
  {
    if |us| == 0 then Registry.Empty()
    else
      var init := us[..|us| - 1];
      var last := us[|us| - 1];
      Registry.Put(FromUnits(init), last.id, last)
  }

  /** With distinct ids the registry keys are the ids in order and each
      unit sits under its own id. */
  lemma {:induction false} FromUnitsAt(us: seq<Unit>)
    requires Distinct(UnitIds(us))
    ensures FromUnits(us).keys == UnitIds(us)
    ensures forall i :: 0 <= i < |us| ==> FromUnits(us).m[us[i].id] == us[i]
    decreases |us|
  {
    if |us| > 0 {
      var init := us[..|us| - 1];
      var last := us[|us| - 1];
      assert UnitIds(us) == UnitIds(init) + [last.id];
      assert forall i :: 0 <= i < |init| ==> UnitIds(init)[i] == UnitIds(us)[i];
      FromUnitsAt(init);
    }
  }

  /** With distinct ids the registry lists exactly the units, in order. */
  lemma {:induction false} FromUnitsValues(us: seq<Unit>)
    requires Distinct(UnitIds(us))
    ensures FromUnits(us).keys == UnitIds(us)
    ensures Registry.Values(FromUnits(us)) == us
    ensures forall k :: 0 <= k < |us| ==> us[k].id in FromUnits(us).m && FromUnits(us).m[us[k].id] == us[k]
  {
    FromUnitsAt(us);
    var r := FromUnits(us);
    var vs := Registry.ValuesOf(r.keys, r.m);
    assert |vs| == |us|;
    forall k | 0 <= k < |us|
      ensures vs[k] == us[k]
    {
      assert r.keys[k] == us[k].id;
      assert vs[k] == r.m[r.keys[k]];
    }
    assert vs == us;
  }

  // ---------------------------------------------------------------------
  // The squad

  /** The loadout every drone starts with: arc rifle, sidearm, two modules,
      repair foam and a smoke canister. */
  function StartLoadout(cat: Catalog): (r: Result<Loadout>)
    ensures r.Ok? ==> r.value.primary.itemId == "arc-rifle" && r.value.secondary.itemId == "sidearm"
    ensures r.Ok? ==> r.value.primary.ammo == r.value.primary.maxAmmo && r.value.secondary.ammo == r.value.secondary.maxAmmo
    ensures r.Ok? ==> r.value.modules == StartModules && |r.value.consumables| == 2
    ensures r.Ok? ==> r.value.consumables[0].itemId == "repair-foam" && r.value.consumables[1].itemId == "smoke-canister"
    ensures r.Ok? <==> CreateWeaponState(cat, "arc-rifle").Ok? && CreateWeaponState(cat, "sidearm").Ok? &&
                       GetItem(cat, "repair-foam").Ok? && GetItem(cat, "smoke-canister").Ok?
  {
    var primary :- CreateWeaponState(cat, "arc-rifle");
    var secondary :- CreateWeaponState(cat, "sidearm");
    var foam :- CreateConsumableState(cat, "repair-foam");
    var smoke :- CreateConsumableState(cat, "smoke-canister");
    Ok(Loadout(primary, secondary, StartModules[..2], [foam, smoke]))
  }

  /** Drone `index` of the squad, of chassis `chassisId` at `pos`; a
      missing chassis template is fatal, and so is a failure to build the
      loadout (`StartLoadout`, passed in as `kit`), checked after it. */
  function SquadMember(cat: Catalog, kit: Result<Loadout>, index: nat, chassisId: string, pos: Vec2): (r: Result<Unit>)
    ensures r.Ok? ==> r.value.id == DroneId(index) && r.value.faction == Drone && r.value.statuses == []
  {
    match FindDrone(cat.drones, chassisId)
    case None => Err(MissingDroneTemplate(chassisId))
    case Some(template) =>
      var loadout :- kit;
      Ok(Unit(DroneId(index), template.id, Drone, pos, template.hp, template.hp, template.armor,
              [], Some(loadout), Some(Inventory([], Config.BackpackSlots, None)), None))
  }

  /** A squad member is its chassis template at its start position, at full
      health, with the standard loadout and an empty backpack of
      `backpackSlots` slots; the template is checked before the loadout. */
  lemma SquadMemberMeans(cat: Catalog, kit: Result<Loadout>, index: nat, chassisId: string, pos: Vec2)
    ensures FindDrone(cat.drones, chassisId).None? ==> SquadMember(cat, kit, index, chassisId, pos) == Err(MissingDroneTemplate(chassisId))
    ensures SquadMember(cat, kit, index, chassisId, pos).Ok? <==> FindDrone(cat.drones, chassisId).Some? && kit.Ok?
    ensures SquadMember(cat, kit, index, chassisId, pos).Ok? ==>
              var t := FindDrone(cat.drones, chassisId).value;
              var u := SquadMember(cat, kit, index, chassisId, pos).value;
              && u.typeId == chassisId && u.pos == pos
              && u.hp == t.hp && u.maxHp == t.hp && u.armor == t.armor
              && u.loadout == Some(kit.value)
              && u.inventory == Some(Inventory([], Config.BackpackSlots, None))
              && u.aiRole == None
  {
  }

  /** Drones `index` to the last of `chassis`, placed at `positions`, in order. */
  function Squad(cat: Catalog, kit: Result<Loadout>, chassis: seq<string>, positions: seq<Vec2>, index: nat): (r: Result<seq<Unit>>)
    requires |positions| == |chassis| && index <= |chassis|
    ensures r.Ok? ==> |r.value| == |chassis| - index
    decreases |chassis| - index
  {
    if index == |chassis| then Ok([])
    else
      match SquadMember(cat, kit, index, chassis[index], positions[index])
      case Err(f) => Err(f)
      case Ok(u) =>
        match Squad(cat, kit, chassis, positions, index + 1)
        case Err(f) => Err(f)
        case Ok(rest) => Ok([u] + rest)
  }

  /** The squad builds exactly when its first member and the rest do. */
  lemma SquadStep(cat: Catalog, kit: Result<Loadout>, chassis: seq<string>, positions: seq<Vec2>, index: nat)
    requires |positions| == |chassis| && index < |chassis|
    ensures Squad(cat, kit, chassis, positions, index).Ok? <==>
              SquadMember(cat, kit, index, chassis[index], positions[index]).Ok? && Squad(cat, kit, chassis, positions, index + 1).Ok?
  {
  }

  /** The squad fails exactly when one of its members does. */
  lemma {:induction false} SquadFails(cat: Catalog, kit: Result<Loadout>, chassis: seq<string>, positions: seq<Vec2>, index: nat)
    requires |positions| == |chassis| && index <= |chassis|
    ensures Squad(cat, kit, chassis, positions, index).Ok? <==>
              forall i :: index <= i < |chassis| ==> SquadMember(cat, kit, i, chassis[i], positions[i]).Ok?
    decreases |chassis| - index
  {
    if index < |chassis| {
      SquadStep(cat, kit, chassis, positions, index);
      SquadFails(cat, kit, chassis, positions, index + 1);
      MembersSplit(cat, kit, chassis, positions, index);
    }
  }

  /** All members from `index` on build exactly when member `index` and all after it do. */
  lemma MembersSplit(cat: Catalog, kit: Result<Loadout>, chassis: seq<string>, positions: seq<Vec2>, index: nat)
    requires |positions| == |chassis| && index < |chassis|
    ensures (forall i :: index <= i < |chassis| ==> SquadMember(cat, kit, i, chassis[i], positions[i]).Ok?) <==>
              SquadMember(cat, kit, index, chassis[index], positions[index]).Ok? &&
              forall i :: index + 1 <= i < |chassis| ==> SquadMember(cat, kit, i, chassis[i], positions[i]).Ok?
  {
  }

  /** One turn of the squad loop: a squad that builds is its first member
      followed by the squad of the rest. */
  lemma SquadUnfold(cat: Catalog, kit: Result<Loadout>, chassis: seq<string>, positions: seq<Vec2>, index: nat)
    requires |positions| == |chassis| && index < |chassis|
    requires Squad(cat, kit, chassis, positions, index).Ok?
    ensures SquadMember(cat, kit, index, chassis[index], positions[index]).Ok?
    ensures Squad(cat, kit, chassis, positions, index + 1).Ok?
    ensures Squad(cat, kit, chassis, positions, index).value ==
              [SquadMember(cat, kit, index, chassis[index], positions[index]).value] + Squad(cat, kit, chassis, positions, index + 1).value
  {
  }

  /** The squad is its members, in order. */
  lemma {:induction false} SquadAt(cat: Catalog, kit: Result<Loadout>, chassis: seq<string>, positions: seq<Vec2>, index: nat, i: nat)
    requires |positions| == |chassis| && index <= i < |chassis|
    requires Squad(cat, kit, chassis, positions, index).Ok?
    ensures SquadMember(cat, kit, i, chassis[i], positions[i]).Ok?
    ensures Squad(cat, kit, chassis, positions, index).value[i - index] == SquadMember(cat, kit, i, chassis[i], positions[i]).value
    decreases |chassis| - index
  {
    SquadUnfold(cat, kit, chassis, positions, index);
    if index < i {
      SquadAt(cat, kit, chassis, positions, index + 1, i);
    }
  }

  // ---------------------------------------------------------------------
  // The enemies

  /** One enemy per room from `roomIndex` to the last, each an enemy
      template drawn from the generator, numbered on from `counter`. */
  function Enemies(cat: Catalog, rng: SimRng.RngState, roomIndex: nat, counter: nat): (r: Result<(seq<Unit>, SimRng.RngState)>)
    ensures roomIndex < Config.RoomCount ==> (r.Ok? <==> |cat.enemies| > 0)
    ensures r.Ok? ==> |r.value.0| == Max(0, Config.RoomCount - roomIndex)
    ensures r.Ok? ==> forall i :: 0 <= i < |r.value.0| ==>
              var u := r.value.0[i];
              && u.id == EnemyId(counter + i) && u.faction == Enemy && u.pos == EnemyPosition(roomIndex + i)
              && u.hp == u.maxHp && u.statuses == [] && u.loadout.None? && u.inventory.None?
              && exists e :: e in cat.enemies && u.typeId == e.id && u.hp == e.hp && u.armor == e.armor && u.aiRole == Some(e.role)
    decreases Config.RoomCount - roomIndex
  {
    if roomIndex >= Config.RoomCount then Ok(([], rng))
    else
      match SimRng.PickOneFixed(rng, cat.enemies)
      case Err(f) => Err(f)
      case Ok(pick) =>
        var e := pick.value;
        var u := Unit(EnemyId(counter), e.id, Enemy, EnemyPosition(roomIndex), e.hp, e.hp, e.armor, [], None, None, Some(e.role));
        match Enemies(cat, pick.state, roomIndex + 1, counter + 1)
        case Err(f) => Err(f)
        case Ok(rest) => Ok(([u] + rest.0, rest.1))
  }

  // ---------------------------------------------------------------------
  // The opening mark

  predicate LivingEnemy(u: Unit) {
    u.faction == Enemy && u.hp > 0
  }

  /** A drone whose chassis template carries the start-of-fight mark. */
  predicate Scout(cat: Catalog, u: Unit) {
    u.faction == Drone && FindDrone(cat.drones, u.typeId).Some? && FindDrone(cat.drones, u.typeId).value.traits.startOfFightMark
  }

  predicate ScoutActive(cat: Catalog, units: seq<Unit>) {
    exists i :: 0 <= i < |units| && Scout(cat, units[i])
  }

  function UnitIdOf(u: Unit): string {
    u.id
  }

  /** The first living enemy in id order, if any. */
  function OpeningTarget(units: seq<Unit>): (o: Option<Unit>)
    ensures o.Some? ==> o.value in units && LivingEnemy(o.value)
    ensures o.Some? ==> forall i :: 0 <= i < |units| && LivingEnemy(units[i]) ==> !Order.Less(units[i].id, o.value.id)
    ensures o.None? <==> forall i :: 0 <= i < |units| ==> !LivingEnemy(units[i])
  {
    var living := Commands.Filter(units, LivingEnemy);
    var sorted := Order.SortBy(living, UnitIdOf);
    Order.SortBySorted(living, UnitIdOf);
    assert forall x :: x in sorted <==> x in living by {
      forall x
        ensures x in sorted <==> x in living
      {
        assert x in sorted <==> x in multiset(sorted);
        assert x in living <==> x in multiset(living);
      }
    }
    if |sorted| == 0 then None
    else
      forall i | 0 <= i < |units| && LivingEnemy(units[i])
        ensures !Order.Less(units[i].id, sorted[0].id)
      {
        assert units[i] in sorted;
        var j :| 0 <= j < |sorted| && sorted[j] == units[i];
        if j == 0 {
          Order.LessIrreflexive(sorted[0].id);
        }
      }
      Some(sorted[0])
  }

  const OpeningMark: StatusState := StatusState(MARKED, 1)

  /** Marks the opening target when some drone is a scout. */
  function ApplyOpeningMark(cat: Catalog, units: Registry.Reg<Unit>): (r: Registry.Reg<Unit>)
    ensures !ScoutActive(cat, Registry.Values(units)) || OpeningTarget(Registry.Values(units)).None? ==> r == units
    ensures ScoutActive(cat, Registry.Values(units)) && OpeningTarget(Registry.Values(units)).Some? ==>
              var t := OpeningTarget(Registry.Values(units)).value;
              r == Registry.Put(units, t.id, t.(statuses := t.statuses + [OpeningMark]))
  {
    var vs := Registry.Values(units);
    if ScoutActive(cat, vs) then
      match OpeningTarget(vs)
      case None => units
      case Some(t) => Registry.Put(units, t.id, t.(statuses := t.statuses + [OpeningMark]))
    else units
  }

  // ---------------------------------------------------------------------
  // The initial state

  /** The units before the opening mark: the squad, then the enemies. */
  function Roster(cat: Catalog, rng: SimRng.RngState): (r: Result<(seq<Unit>, SimRng.RngState)>)
  {
    var squad :- Squad(cat, StartLoadout(cat), Chassis, StartPositions, 0);
    var enemies :- Enemies(cat, rng, 1, 1);
    Ok((squad + enemies.0, enemies.1))
  }

  /** A built layout populated with the roster: the units are drawn from
      the layout's random state, everything else comes from the layout or
      is a mission-start constant. */
  function Populate(cat: Catalog, seed: int, layout: RaidGrid.Layout): (r: Result<GameState>)
    ensures r.Ok? <==> Furnished(cat)
    ensures r.Ok? ==> r.value.grid == layout.grid && r.value.doors == layout.doors && r.value.consoles == layout.consoles &&
                      r.value.crates == layout.crates && r.value.extractionPos == layout.extractionPos
    ensures r.Ok? ==> r.value.seed == seed && r.value.turn == 1 && r.value.power == Config.PowerStart
    ensures r.Ok? ==> r.value.lowPower == LowPower(false, 0) && r.value.mission == Mission(InProgress, None)
  {
    FurnishedMeans(cat, layout.rng);
    var roster :- Roster(cat, layout.rng);
    Ok(GameState(seed, roster.1, 1, Config.PowerStart, LowPower(false, 0), layout.grid, layout.doors,
                 layout.consoles, layout.crates, ApplyOpeningMark(cat, FromUnits(roster.0)),
                 layout.extractionPos, Mission(InProgress, None)))
  }

  /** `createInitialState`: it fails exactly when the layout cannot be
      built or the catalog does not furnish the roster. */
  function CreateInitialState(cat: Catalog, seed: int): (r: Result<GameState>)
    ensures r.Ok? ==> r.value.seed == seed && r.value.turn == 1 && r.value.power == Config.PowerStart
    ensures r.Ok? ==> r.value.lowPower == LowPower(false, 0) && r.value.mission == Mission(InProgress, None)
    ensures r.Ok? ==> r.value.grid.width == RaidGrid.GridWidth(Config.RoomCount) && r.value.grid.height == Config.RoomHeight
    ensures r.Ok? <==> RaidGrid.BuildRaidGrid(cat, SimRng.CreateRng(seed), cat.rooms, Config.RoomCount).Ok? && Furnished(cat)
    ensures r.Ok? ==> r == Populate(cat, seed, RaidGrid.BuildRaidGrid(cat, SimRng.CreateRng(seed), cat.rooms, Config.RoomCount).value)
  {
    var layout :- RaidGrid.BuildRaidGrid(cat, SimRng.CreateRng(seed), cat.rooms, Config.RoomCount);
    Populate(cat, seed, layout)
  }

  // ---------------------------------------------------------------------
  // Properties of the initial state

  lemma DroneIdInjective(a: nat, b: nat)
    requires DroneId(a) == DroneId(b)
    ensures a == b
  {
    NumberedIdInjective("drone-", a + 1, b + 1);
  }

  lemma EnemyIdInjective(a: nat, b: nat)
    requires EnemyId(a) == EnemyId(b)
    ensures a == b
  {
    NumberedIdInjective("enemy-", a, b);
  }

  lemma DroneIsNotEnemy(a: nat, b: nat)
    ensures DroneId(a) != EnemyId(b)
  {
    assert DroneId(a)[0] == 'd' && EnemyId(b)[0] == 'e';
  }

  /** The ids the initial state assigns: drone-1 to drone-4, then enemy-1 to enemy-4. */
  function InitialIds(): (ids: seq<string>)
    ensures |ids| == |Chassis| + Config.RoomCount - 1
  {
    seq(|Chassis|, i requires 0 <= i => DroneId(i)) + seq(Config.RoomCount - 1, j requires 0 <= j => EnemyId(j + 1))
  }

  lemma InitialIdsDistinct()
    ensures Distinct(InitialIds())
  {
    var ids := InitialIds();
    forall a, b | 0 <= a < b < |ids|
      ensures ids[a] != ids[b]
    {
      if b < |Chassis| {
        if ids[a] == ids[b] {
          DroneIdInjective(a, b);
        }
      } else if a < |Chassis| {
        DroneIsNotEnemy(a, b - |Chassis| + 1);
      } else if ids[a] == ids[b] {
        EnemyIdInjective(a - |Chassis| + 1, b - |Chassis| + 1);
      }
    }
  }

  /** The roster is the squad followed by the enemies of rooms 1 onwards. */
  lemma RosterParts(cat: Catalog, rng: SimRng.RngState)
    requires Furnished(cat)
    ensures Roster(cat, rng).Ok?
    ensures Squad(cat, StartLoadout(cat), Chassis, StartPositions, 0).Ok? && Enemies(cat, rng, 1, 1).Ok?
    ensures Roster(cat, rng).value.0 ==
              Squad(cat, StartLoadout(cat), Chassis, StartPositions, 0).value + Enemies(cat, rng, 1, 1).value.0
    ensures Roster(cat, rng).value.1 == Enemies(cat, rng, 1, 1).value.1
  {
    FurnishedMeans(cat, rng);
  }

  /** Drone i of the built squad is `SquadMember` i. */
  lemma StartSquadAt(cat: Catalog, i: nat)
    requires Furnished(cat) && i < |Chassis|
    ensures Squad(cat, StartLoadout(cat), Chassis, StartPositions, 0).Ok?
    ensures SquadMember(cat, StartLoadout(cat), i, Chassis[i], StartPositions[i]).Ok?
    ensures Squad(cat, StartLoadout(cat), Chassis, StartPositions, 0).value[i] ==
              SquadMember(cat, StartLoadout(cat), i, Chassis[i], StartPositions[i]).value
  {
    RosterParts(cat, SimRng.CreateRng(0));
    SquadAt(cat, StartLoadout(cat), Chassis, StartPositions, 0, i);
  }

  /** Four drones numbered from 1 followed by four enemies numbered from 1
      carry exactly the initial ids. */
  lemma IdsOfParts(squad: seq<Unit>, enemies: seq<Unit>)
    requires |squad| == |Chassis| && forall i :: 0 <= i < |squad| ==> squad[i].id == DroneId(i)
    requires |enemies| == Config.RoomCount - 1 && forall j :: 0 <= j < |enemies| ==> enemies[j].id == EnemyId(1 + j)
    ensures UnitIds(squad + enemies) == InitialIds()
  {
    var us := squad + enemies;
    forall k | 0 <= k < |us|
      ensures UnitIds(us)[k] == InitialIds()[k]
    {
      if k >= |squad| {
        assert us[k] == enemies[k - |squad|];
      }
    }
  }

  /** The roster's ids are drone-1 to drone-4, then enemy-1 to enemy-4. */
  lemma RosterIds(cat: Catalog, rng: SimRng.RngState)
    requires Furnished(cat)
    ensures Roster(cat, rng).Ok?
    ensures UnitIds(Roster(cat, rng).value.0) == InitialIds()
  {
    RosterParts(cat, rng);
    var squad := Squad(cat, StartLoadout(cat), Chassis, StartPositions, 0).value;
    forall i | 0 <= i < |squad|
      ensures squad[i].id == DroneId(i)
    {
      StartSquadAt(cat, i);
    }
    IdsOfParts(squad, Enemies(cat, rng, 1, 1).value.0);
  }

  /** Nobody in the roster carries a status yet. */
  lemma RosterUnmarked(cat: Catalog, rng: SimRng.RngState, i: nat)
    requires Furnished(cat) && i < |InitialIds()|
    ensures Roster(cat, rng).Ok? && i < |Roster(cat, rng).value.0|
    ensures Roster(cat, rng).value.0[i].statuses == []
  {
    RosterIds(cat, rng);
    RosterParts(cat, rng);
    var squad := Squad(cat, StartLoadout(cat), Chassis, StartPositions, 0).value;
    if i < |squad| {
      StartSquadAt(cat, i);
    } else {
      assert Roster(cat, rng).value.0[i] == Enemies(cat, rng, 1, 1).value.0[i - |squad|];
    }
  }

  /** Building the roster fails exactly when a chassis template is
      missing, the start loadout cannot be built, or there is no enemy
      template to draw from. */
  lemma RosterFails(cat: Catalog, rng: SimRng.RngState)
    ensures Roster(cat, rng).Ok? <==>
              && (forall i :: 0 <= i < |Chassis| ==> FindDrone(cat.drones, Chassis[i]).Some?)
              && StartLoadout(cat).Ok?
              && |cat.enemies| > 0
  {
    var kit := StartLoadout(cat);
    SquadFails(cat, kit, Chassis, StartPositions, 0);
    forall i | 0 <= i < |Chassis|
      ensures SquadMember(cat, kit, i, Chassis[i], StartPositions[i]).Ok? <==> FindDrone(cat.drones, Chassis[i]).Some? && kit.Ok?
    {
      SquadMemberMeans(cat, kit, i, Chassis[i], StartPositions[i]);
    }
    if Squad(cat, kit, Chassis, StartPositions, 0).Ok? {
      SquadMemberMeans(cat, kit, 0, Chassis[0], StartPositions[0]);
    }
  }

  /** The catalog holds what the roster is built from: every squad
      chassis, the two start weapons with their ammo, the two start
      consumables, and at least one enemy template. */
  predicate Furnished(cat: Catalog) {
    && (forall id <- Chassis :: FindDrone(cat.drones, id).Some?)
    && (forall id <- StartWeapons :: CreateWeaponState(cat, id).Ok?)
    && (forall id <- StartConsumables :: GetItem(cat, id).Ok?)
    && |cat.enemies| > 0
  }

  lemma ChassisFurnished(cat: Catalog)
    ensures (forall id <- Chassis :: FindDrone(cat.drones, id).Some?) <==>
            (forall i :: 0 <= i < |Chassis| ==> FindDrone(cat.drones, Chassis[i]).Some?)
  {
    if forall id <- Chassis :: FindDrone(cat.drones, id).Some? {
      forall i | 0 <= i < |Chassis|
        ensures FindDrone(cat.drones, Chassis[i]).Some?
      {
        assert Chassis[i] in Chassis;
      }
    }
  }

  lemma WeaponsFurnished(cat: Catalog)
    ensures (forall id <- StartWeapons :: CreateWeaponState(cat, id).Ok?) <==>
            CreateWeaponState(cat, "arc-rifle").Ok? && CreateWeaponState(cat, "sidearm").Ok?
  {
    assert "arc-rifle" in StartWeapons && "sidearm" in StartWeapons;
  }

  lemma ConsumablesFurnished(cat: Catalog)
    ensures (forall id <- StartConsumables :: GetItem(cat, id).Ok?) <==>
            GetItem(cat, "repair-foam").Ok? && GetItem(cat, "smoke-canister").Ok?
  {
    assert "repair-foam" in StartConsumables && "smoke-canister" in StartConsumables;
  }

  /** The roster is built exactly from a furnished catalog, whatever the
      random state. */
  lemma FurnishedMeans(cat: Catalog, rng: SimRng.RngState)
    ensures Roster(cat, rng).Ok? <==> Furnished(cat)
  {
    RosterFails(cat, rng);
    ChassisFurnished(cat);
    WeaponsFurnished(cat);
    ConsumablesFurnished(cat);
  }

  /** Drone i of the roster is chassis i at start position i, at the
      template's full health, with the start loadout and an empty backpack. */
  lemma RosterDrone(cat: Catalog, rng: SimRng.RngState, i: nat)
    requires Furnished(cat) && i < |Chassis|
    ensures Roster(cat, rng).Ok?
    ensures StartLoadout(cat).Ok? && FindDrone(cat.drones, Chassis[i]).Some?
    ensures var u := Roster(cat, rng).value.0[i];
            var t := FindDrone(cat.drones, Chassis[i]).value;
            && u.id == DroneId(i) && u.typeId == Chassis[i] && u.faction == Drone && u.pos == StartPositions[i]
            && u.hp == t.hp && u.maxHp == t.hp && u.armor == t.armor
            && u.loadout == Some(StartLoadout(cat).value)
            && u.inventory == Some(Inventory([], Config.BackpackSlots, None))
  {
    RosterParts(cat, rng);
    StartSquadAt(cat, i);
    SquadMemberMeans(cat, StartLoadout(cat), i, Chassis[i], StartPositions[i]);
  }

  /** Enemy j of the roster stands in the middle of room j + 1, is drawn
      from the enemy templates, at full health and with no loadout. */
  lemma RosterEnemy(cat: Catalog, rng: SimRng.RngState, j: nat)
    requires Furnished(cat) && j < Config.RoomCount - 1
    ensures Roster(cat, rng).Ok?
    ensures |Chassis| + j < |Roster(cat, rng).value.0|
    ensures var u := Roster(cat, rng).value.0[|Chassis| + j];
            && u.id == EnemyId(j + 1) && u.faction == Enemy && u.pos == EnemyPosition(j + 1)
            && u.hp == u.maxHp && u.loadout.None? && u.inventory.None?
            && exists e :: e in cat.enemies && u.typeId == e.id && u.hp == e.hp && u.armor == e.armor && u.aiRole == Some(e.role)
  {
    RosterParts(cat, rng);
    var squad := Squad(cat, StartLoadout(cat), Chassis, StartPositions, 0).value;
    var enemies := Enemies(cat, rng, 1, 1).value.0;
    ConcatAt(squad, enemies, j);
  }

  /** Element `j` of the second part of a concatenation. */
  lemma ConcatAt<T>(xs: seq<T>, ys: seq<T>, j: nat)
    requires j < |ys|
    ensures |xs| + j < |xs + ys| && (xs + ys)[|xs| + j] == ys[j]
  {
  }

  // ---------------------------------------------------------------------
  // The opening mark on a roster

  /** Among units with distinct ids, the opening target is exactly the
      living enemy that no other living enemy precedes in id order. */
  lemma OpeningTargetMeans(us: seq<Unit>, i: nat)
    requires Distinct(UnitIds(us)) && i < |us|
    ensures OpeningTarget(us) == Some(us[i]) <==>
              LivingEnemy(us[i]) && forall k :: 0 <= k < |us| && LivingEnemy(us[k]) ==> !Order.Less(us[k].id, us[i].id)
  {
    var o := OpeningTarget(us);
    if LivingEnemy(us[i]) && forall k :: 0 <= k < |us| && LivingEnemy(us[k]) ==> !Order.Less(us[k].id, us[i].id) {
      assert o.Some?;
      var j :| 0 <= j < |us| && us[j] == o.value;
      assert !Order.Less(us[i].id, us[j].id);
      assert !Order.Less(us[j].id, us[i].id);
      Order.LessTotal(us[i].id, us[j].id);
      assert UnitIds(us)[i] == UnitIds(us)[j];
    }
  }

  /** Marking keeps the roster's keys and order. */
  lemma MarkKeys(cat: Catalog, us: seq<Unit>)
    requires Distinct(UnitIds(us))
    ensures Registry.Valid(ApplyOpeningMark(cat, FromUnits(us)))
    ensures ApplyOpeningMark(cat, FromUnits(us)).keys == UnitIds(us)
  {
    FromUnitsValues(us);
    var r0 := FromUnits(us);
    if ScoutActive(cat, us) && OpeningTarget(us).Some? {
      var t := OpeningTarget(us).value;
      var j :| 0 <= j < |us| && us[j] == t;
      assert r0.m[us[j].id] == us[j];
    }
  }

  /** Marking changes the statuses of the opening target alone, and only
      when a scout is present. */
  lemma MarkAt(cat: Catalog, r: Registry.Reg<Unit>, us: seq<Unit>, i: nat)
    requires Registry.Values(r) == us && Distinct(UnitIds(us)) && i < |us|
    requires forall k :: 0 <= k < |us| ==> us[k].id in r.m && r.m[us[k].id] == us[k]
    ensures us[i].id in ApplyOpeningMark(cat, r).m
    ensures ApplyOpeningMark(cat, r).m[us[i].id] ==
              us[i].(statuses := us[i].statuses +
                       (if ScoutActive(cat, us) && OpeningTarget(us) == Some(us[i]) then [OpeningMark] else []))
  {
    if ScoutActive(cat, us) && OpeningTarget(us).Some? {
      var t := OpeningTarget(us).value;
      var j :| 0 <= j < |us| && us[j] == t;
      if us[i].id == t.id {
        assert UnitIds(us)[i] == UnitIds(us)[j];
        assert us[i] == t;
      } else {
        assert OpeningTarget(us) != Some(us[i]);
      }
    }
  }

  // ---------------------------------------------------------------------
  // The units of the initial state

  /** The roster a furnished catalog yields from a random state. */
  function InitialRoster(cat: Catalog, rng: SimRng.RngState): (us: seq<Unit>)
    requires Furnished(cat)
    ensures UnitIds(us) == InitialIds()
  {
    RosterIds(cat, rng);
    Roster(cat, rng).value.0
  }

  /** The units of a populated layout are the roster registered in order,
      drone-1 to drone-4 then enemy-1 to enemy-4, with the opening mark
      applied. */
  lemma InitialUnits(cat: Catalog, seed: int, layout: RaidGrid.Layout)
    requires Furnished(cat)
    ensures Populate(cat, seed, layout).Ok?
    ensures var s := Populate(cat, seed, layout).value;
            && s.units == ApplyOpeningMark(cat, FromUnits(InitialRoster(cat, layout.rng)))
            && Registry.Valid(s.units) && s.units.keys == InitialIds()
  {
    InitialIdsDistinct();
    MarkKeys(cat, InitialRoster(cat, layout.rng));
  }

  /** The registry the roster is assigned to, before the mark. */
  lemma InitialRegistry(cat: Catalog, seed: int, layout: RaidGrid.Layout) returns (r0: Registry.Reg<Unit>)
    requires Furnished(cat)
    ensures Populate(cat, seed, layout).Ok?
    ensures var us := InitialRoster(cat, layout.rng);
            && Distinct(UnitIds(us))
            && Registry.Values(r0) == us
            && (forall k :: 0 <= k < |us| ==> us[k].id in r0.m && r0.m[us[k].id] == us[k])
            && Populate(cat, seed, layout).value.units == ApplyOpeningMark(cat, r0)
  {
    var us := InitialRoster(cat, layout.rng);
    InitialIdsDistinct();
    FromUnitsValues(us);
    r0 := FromUnits(us);
  }

  /** A status-free unit of a marked roster carries the opening mark alone
      when it is the target of an active scout, and nothing otherwise. */
  lemma MarkedGet(cat: Catalog, r: Registry.Reg<Unit>, us: seq<Unit>, i: nat, units: Registry.Reg<Unit>)
    requires Registry.Values(r) == us && Distinct(UnitIds(us)) && i < |us|
    requires forall k :: 0 <= k < |us| ==> us[k].id in r.m && r.m[us[k].id] == us[k]
    requires units == ApplyOpeningMark(cat, r) && us[i].statuses == []
    ensures Registry.Get(units, us[i].id) ==
              Some(us[i].(statuses := if ScoutActive(cat, us) && OpeningTarget(us) == Some(us[i]) then [OpeningMark] else []))
  {
    MarkAt(cat, r, us, i);
    var mark: seq<StatusState> := if ScoutActive(cat, us) && OpeningTarget(us) == Some(us[i]) then [OpeningMark] else [];
    assert units.m[us[i].id] == us[i].(statuses := us[i].statuses + mark);
    assert us[i].statuses + mark == mark;
  }

  /** Unit i of a populated layout is roster unit i, carrying the opening
      mark exactly when a scout chassis is in the squad and it is the
      living enemy with the smallest id, and no status otherwise. */
  lemma InitialUnitAt(cat: Catalog, seed: int, layout: RaidGrid.Layout, i: nat)
    requires Furnished(cat) && i < |InitialIds()|
    ensures Populate(cat, seed, layout).Ok?
    ensures var us := InitialRoster(cat, layout.rng);
            var marked := ScoutActive(cat, us) && OpeningTarget(us) == Some(us[i]);
            Registry.Get(Populate(cat, seed, layout).value.units, InitialIds()[i]) ==
              Some(us[i].(statuses := if marked then [OpeningMark] else []))
  {
    var us := InitialRoster(cat, layout.rng);
    RosterUnmarked(cat, layout.rng, i);
    assert UnitIds(us)[i] == InitialIds()[i];
    var r0 := InitialRegistry(cat, seed, layout);
    MarkedGet(cat, r0, us, i, Populate(cat, seed, layout).value.units);
  }

  /** In a populated layout a unit carries a status exactly when a scout
      chassis is in the squad and the unit is the living enemy that no
      other living enemy precedes in id order; that status is the
      one-turn MARKED. */
  lemma InitialMark(cat: Catalog, seed: int, layout: RaidGrid.Layout, i: nat)
    requires Furnished(cat) && i < |InitialIds()|
    ensures Populate(cat, seed, layout).Ok?
    ensures var us := InitialRoster(cat, layout.rng);
            var u := Registry.Get(Populate(cat, seed, layout).value.units, InitialIds()[i]);
            && u.Some?
            && (u.value.statuses != [] <==>
                  ScoutActive(cat, us) && LivingEnemy(us[i]) &&
                  forall k :: 0 <= k < |us| && LivingEnemy(us[k]) ==> !Order.Less(us[k].id, us[i].id))
            && (u.value.statuses == [] || u.value.statuses == [OpeningMark])
  {
    var us := InitialRoster(cat, layout.rng);
    InitialUnitAt(cat, seed, layout, i);
    InitialIdsDistinct();
    OpeningTargetMeans(us, i);
  }
}
