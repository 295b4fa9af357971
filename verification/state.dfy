/** The game state of a raid and the static catalogs it is built from.

    Every record of the source becomes an immutable datatype; the id-keyed
    records (`Record<string, X>`) become registries that remember insertion
    order. The JSON catalogs (items, drone and enemy templates, rooms) are
    not part of the model: they are the `Catalog` parameter. */
module State {
  import opened Common
  import SimRng
  import Registry

  datatype Faction = Drone | Enemy
  datatype StatusId = EMP | JAMMED | SHRED | MARKED

  datatype StatusState = StatusState(id: StatusId, turns: int)

  datatype EffectType = HealEffect | StatusEffect | SmokeEffect

  datatype ItemEffect = ItemEffect(
    effectType: EffectType,
    amount: Option<int>,
    status: Option<StatusId>,
    duration: Option<int>,
    radius: Option<int>)

  datatype ItemKind = WeaponKind | ModuleKind | ConsumableKind | LootKind
  datatype Slot = Primary | Secondary

  datatype StatusOnHit = StatusOnHit(status: StatusId, turns: int)

  datatype ItemDef = ItemDef(
    id: string,
    kind: ItemKind,
    slot: Option<Slot>,
    size: int,
    damage: Option<int>,
    range: Option<int>,
    maxAmmo: Option<int>,
    charges: Option<int>,
    effect: Option<ItemEffect>,
    statusOnHit: Option<StatusOnHit>)

  datatype Traits = Traits(
    hackCostMod: Option<int>,
    repairBonus: Option<int>,
    lootCostMod: Option<int>,
    dashCostMod: Option<int>,
    startOfFightMark: bool)

  datatype DroneTemplate = DroneTemplate(id: string, hp: int, armor: int, traits: Traits)

  datatype EnemyWeapon = EnemyWeapon(damage: int, range: int)

  datatype EnemyTemplate = EnemyTemplate(
    id: string,
    hp: int,
    armor: int,
    role: string,
    weapon: EnemyWeapon,
    statusOnHit: Option<StatusOnHit>,
    knockback: Option<int>)

  /** A room template: one string of tile characters per row. */
  datatype RoomDef = RoomDef(id: string, tiles: seq<string>)

  /** The static content the kernel reads: items, templates and rooms. */
  datatype Catalog = Catalog(
    items: seq<ItemDef>,
    drones: seq<DroneTemplate>,
    enemies: seq<EnemyTemplate>,
    rooms: seq<RoomDef>)

  datatype WeaponState = WeaponState(itemId: string, ammo: int, maxAmmo: int)
  datatype ConsumableState = ConsumableState(itemId: string, charges: int)
  datatype ItemStack = ItemStack(itemId: string, size: int)

  datatype Inventory = Inventory(backpack: seq<ItemStack>, capacity: int, sealedItem: Option<ItemStack>)

  datatype Loadout = Loadout(
    primary: WeaponState,
    secondary: WeaponState,
    modules: seq<string>,
    consumables: seq<ConsumableState>)

  datatype Unit = Unit(
    id: string,
    typeId: string,
    faction: Faction,
    pos: Vec2,
    hp: int,
    maxHp: int,
    armor: int,
    statuses: seq<StatusState>,
    loadout: Option<Loadout>,
    inventory: Option<Inventory>,
    aiRole: Option<string>)

  datatype Door = Door(id: string, pos: Vec2, locked: bool, open: bool)
  datatype Console = Console(id: string, pos: Vec2, used: bool)
  datatype Crate = Crate(id: string, pos: Vec2, items: seq<ItemStack>, isOpened: bool)

  datatype Terrain = Floor | Wall
  datatype Cover = Half | Full

  datatype Tile = Tile(
    x: int,
    y: int,
    terrain: Terrain,
    cover: Option<Cover>,
    smoke: Option<int>,
    doorId: Option<string>,
    consoleId: Option<string>,
    crateId: Option<string>,
    extraction: bool)

  datatype GridState = GridState(width: int, height: int, tiles: seq<Tile>)

  datatype LowPower = LowPower(active: bool, turns: int)

  datatype MissionStatus = InProgress | Extracted | Failed
  datatype Mission = Mission(status: MissionStatus, failureReason: Option<string>)

  datatype GameState = GameState(
    seed: int,
    rng: SimRng.RngState,
    turn: int,
    power: int,
    lowPower: LowPower,
    grid: GridState,
    doors: Registry.Reg<Door>,
    consoles: Registry.Reg<Console>,
    crates: Registry.Reg<Crate>,
    units: Registry.Reg<Unit>,
    extractionPos: Vec2,
    mission: Mission)

  /** `new Map(entries).get(id)`: a later entry with the same id overrides an earlier one. */
  function FindItem(items: seq<ItemDef>, id: string): (o: Option<ItemDef>)
    ensures o.Some? <==> exists i :: 0 <= i < |items| && items[i].id == id
    ensures o.Some? ==> o.value in items && o.value.id == id
    ensures o.Some? ==> exists k :: 0 <= k < |items| && items[k] == o.value &&
                          forall j :: k < j < |items| ==> items[j].id != id
    decreases |items|
  {
    if |items| == 0 then None
    else if items[|items| - 1].id == id then Some(items[|items| - 1])
    else FindItem(items[..|items| - 1], id)
  }

  function FindDrone(drones: seq<DroneTemplate>, id: string): (o: Option<DroneTemplate>)
    ensures o.Some? <==> exists i :: 0 <= i < |drones| && drones[i].id == id
    ensures o.Some? ==> o.value in drones && o.value.id == id
    ensures o.Some? ==> exists k :: 0 <= k < |drones| && drones[k] == o.value &&
                          forall j :: k < j < |drones| ==> drones[j].id != id
    decreases |drones|
  {
    if |drones| == 0 then None
    else if drones[|drones| - 1].id == id then Some(drones[|drones| - 1])
    else FindDrone(drones[..|drones| - 1], id)
  }

  function FindEnemy(enemies: seq<EnemyTemplate>, id: string): (o: Option<EnemyTemplate>)
    ensures o.Some? <==> exists i :: 0 <= i < |enemies| && enemies[i].id == id
    ensures o.Some? ==> o.value in enemies && o.value.id == id
    ensures o.Some? ==> exists k :: 0 <= k < |enemies| && enemies[k] == o.value &&
                          forall j :: k < j < |enemies| ==> enemies[j].id != id
    decreases |enemies|
  {
    if |enemies| == 0 then None
    else if enemies[|enemies| - 1].id == id then Some(enemies[|enemies| - 1])
    else FindEnemy(enemies[..|enemies| - 1], id)
  }

  /** `getItem`: throws on an unknown id, otherwise returns the catalog entry with that id. */
  function GetItem(cat: Catalog, itemId: string): (r: Result<ItemDef>)
    ensures r.Err? <==> forall i :: 0 <= i < |cat.items| ==> cat.items[i].id != itemId
    ensures r.Err? ==> r.fault == UnknownItem(itemId)
    ensures r.Ok? ==> r.value in cat.items && r.value.id == itemId
    ensures r.Ok? ==> exists k :: 0 <= k < |cat.items| && cat.items[k] == r.value &&
                        forall j :: k < j < |cat.items| ==> cat.items[j].id != itemId
  {
    match FindItem(cat.items, itemId)
    case None => Err(UnknownItem(itemId))
    case Some(item) => Ok(item)
  }

  /** `createWeaponState`: a full magazine of the item's `maxAmmo`; a missing
      or zero `maxAmmo` is an error. */
  function CreateWeaponState(cat: Catalog, itemId: string): (r: Result<WeaponState>)
    ensures r.Ok? ==> GetItem(cat, itemId).Ok? && GetItem(cat, itemId).value.maxAmmo.Some?
    ensures r.Ok? ==> r.value.itemId == itemId && r.value.ammo == r.value.maxAmmo
    ensures r.Ok? ==> r.value.maxAmmo == GetItem(cat, itemId).value.maxAmmo.value != 0
    ensures GetItem(cat, itemId).Ok? ==>
              (r.Err? <==> GetItem(cat, itemId).value.maxAmmo in {None, Some(0)})
  {
    var item :- GetItem(cat, itemId);
    match item.maxAmmo
    case None => Err(WeaponMissingMaxAmmo(itemId))
    case Some(m) => if m == 0 then Err(WeaponMissingMaxAmmo(itemId)) else Ok(WeaponState(itemId, m, m))
  }

  /** `createConsumableState`: the item's charges, defaulting to 1. */
  function CreateConsumableState(cat: Catalog, itemId: string): (r: Result<ConsumableState>)
    ensures r.Ok? <==> GetItem(cat, itemId).Ok?
    ensures r.Ok? ==> r.value.itemId == itemId
    ensures r.Ok? ==> r.value.charges == GetItem(cat, itemId).value.charges.GetOr(1)
    ensures r.Ok? && GetItem(cat, itemId).value.charges.None? ==> r.value.charges == 1
  {
    var item :- GetItem(cat, itemId);
    Ok(ConsumableState(itemId, item.charges.GetOr(1)))
  }

  /** `getUnit`: throws on a missing id. */
  function GetUnit(s: GameState, unitId: string): (r: Result<Unit>)
    ensures r.Err? <==> unitId !in s.units.m
    ensures r.Err? ==> r.fault == MissingUnit(unitId)
    ensures r.Ok? ==> r.value == s.units.m[unitId]
  {
    if unitId in s.units.m then Ok(s.units.m[unitId]) else Err(MissingUnit(unitId))
  }

  /** An entry with this id and positive turns is in the list. */
  predicate HasStatusIn(statuses: seq<StatusState>, id: StatusId) {
    exists i :: 0 <= i < |statuses| && statuses[i].id == id && statuses[i].turns > 0
  }

  /** A status with this id and positive turns is on the unit. */
  predicate HasStatus(u: Unit, id: StatusId) {
    HasStatusIn(u.statuses, id)
  }

  predicate Alive(u: Unit) {
    u.hp > 0
  }

  /** Replaces the unit stored under `id`, keeping the registry's order. */
  function PutUnit(s: GameState, id: string, u: Unit): (s': GameState)
    ensures s'.units.m == s.units.m[id := u]
    ensures s' == s.(units := s'.units)
    ensures id in s.units.m ==> s'.units.keys == s.units.keys
  {
    s.(units := Registry.Put(s.units, id, u))
  }
}
