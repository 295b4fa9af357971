/** The client's view of the game state after a step. */
module Observe {
  import opened Common
  import opened State
  import opened Schemas
  import Registry
  import Loot
  import Doors
  import SimRng

  datatype UnitSummary = UnitSummary(
    id: string, typeId: string, faction: Faction, pos: Vec2, hp: int, armor: int, statuses: seq<StatusState>)

  datatype InventorySummary = InventorySummary(unitId: string, backpackUsed: int, backpackCapacity: int, sealedItem: Option<string>)

  datatype ObjectSummary = ObjectSummary(id: string, pos: Vec2, kind: Doors.ObjectKind, state: string)

  datatype Observation = Observation(
    turn: int,
    phase: Phase,
    seed: int,
    power: int,
    lowPowerState: LowPower,
    width: int,
    height: int,
    tiles: seq<Tile>,
    units: seq<UnitSummary>,
    inventory: seq<InventorySummary>,
    visibleObjects: seq<ObjectSummary>)

  function SummarizeUnit(u: Unit): UnitSummary {
    UnitSummary(u.id, u.typeId, u.faction, u.pos, u.hp, u.armor, u.statuses)
  }

  /** One entry per drone that carries an inventory, in registry order. */
  function Inventories(us: seq<Unit>): (r: seq<InventorySummary>)
    ensures |r| <= |us|
    ensures forall k :: 0 <= k < |r| ==>
              exists i :: 0 <= i < |us| && us[i].faction == Drone && us[i].inventory.Some? && r[k].unitId == us[i].id &&
                          r[k].backpackUsed == Loot.BackpackUsed(us[i].inventory.value) &&
                          r[k].backpackCapacity == us[i].inventory.value.capacity
    decreases |us|
  {
    if |us| == 0 then []
    else
      var rest := Inventories(us[1..]);
      assert forall i :: 1 <= i < |us| ==> us[1..][i - 1] == us[i];
      var u := us[0];
      if Carries(u) then [SummarizeInventory(u)] + rest else rest
  }

  /** A drone with an inventory. */
  predicate Carries(u: Unit) {
    u.faction == Drone && u.inventory.Some?
  }

  function SummarizeInventory(u: Unit): InventorySummary
    requires u.inventory.Some?
  {
    var inv := u.inventory.value;
    InventorySummary(u.id, Loot.BackpackUsed(inv), inv.capacity,
                     if inv.sealedItem.Some? then Some(inv.sealedItem.value.itemId) else None)
  }

  /** The summaries follow the units one by one: a list is summarised as its
      parts are, one after the other, and a single unit yields exactly one
      summary when it is a drone with an inventory and none otherwise. */
  lemma {:induction false} InventoriesAppend(a: seq<Unit>, b: seq<Unit>)
    ensures Inventories(a + b) == Inventories(a) + Inventories(b)
    ensures |a| == 1 ==> Inventories(a) == if Carries(a[0]) then [SummarizeInventory(a[0])] else []
    decreases |a|
  {
    if |a| > 0 {
      var h := if Carries(a[0]) then [SummarizeInventory(a[0])] else [];
      assert (a + b)[0] == a[0];
      assert (a + b)[1..] == a[1..] + b;
      assert Inventories(a + b) == h + Inventories(a[1..] + b);
      assert Inventories(a) == h + Inventories(a[1..]);
      InventoriesAppend(a[1..], b);
      assert h + (Inventories(a[1..]) + Inventories(b)) == (h + Inventories(a[1..])) + Inventories(b);
      if |a| == 1 {
        assert Inventories(a[1..]) == [];
      }
    } else {
      assert a + b == b;
    }
  }

  /** A door reads `open`, else `locked`, else `closed`. */
  function DoorState(d: Door): (st: string)
    ensures st == "open" <==> d.open
    ensures st == "locked" <==> !d.open && d.locked
  {
    if d.open then "open" else if d.locked then "locked" else "closed"
  }

  /** Doors, then consoles, then crates, each in registry order. */
  function VisibleObjects(s: GameState): (objs: seq<ObjectSummary>)
    ensures |objs| == |Registry.Values(s.doors)| + |Registry.Values(s.consoles)| + |Registry.Values(s.crates)|
  {
    var doors := Registry.Values(s.doors);
    var consoles := Registry.Values(s.consoles);
    var crates := Registry.Values(s.crates);
    seq(|doors|, i requires 0 <= i < |doors| => ObjectSummary(doors[i].id, doors[i].pos, Doors.DoorObject, DoorState(doors[i])))
    + seq(|consoles|, i requires 0 <= i < |consoles| =>
            ObjectSummary(consoles[i].id, consoles[i].pos, Doors.ConsoleObject, if consoles[i].used then "used" else "ready"))
    + seq(|crates|, i requires 0 <= i < |crates| =>
            ObjectSummary(crates[i].id, crates[i].pos, Doors.CrateObject, if crates[i].isOpened then "opened" else "sealed"))
  }

  /** `buildObservation`: copies the counters and the grid, summarises every
      unit, the drones' backpacks and every door, console and crate. */
  function BuildObservation(s: GameState, phase: Phase): (o: Observation)
    ensures o.turn == s.turn && o.phase == phase && o.seed == s.seed && o.power == s.power && o.lowPowerState == s.lowPower
    ensures o.width == s.grid.width && o.height == s.grid.height && o.tiles == s.grid.tiles
    ensures Registry.Valid(s.units) ==>
              |o.units| == |s.units.keys| &&
              forall i :: 0 <= i < |o.units| ==> o.units[i] == SummarizeUnit(s.units.m[s.units.keys[i]])
    ensures |o.inventory| <= |Registry.Values(s.units)|
    ensures o.inventory == Inventories(Registry.Values(s.units)) && o.visibleObjects == VisibleObjects(s)
  {
    var us := Registry.Values(s.units);
    Observation(s.turn, phase, s.seed, s.power, s.lowPower, s.grid.width, s.grid.height, s.grid.tiles,
                seq(|us|, i requires 0 <= i < |us| => SummarizeUnit(us[i])),
                Inventories(us),
                VisibleObjects(s))
  }

  /** The observation reveals neither the generator state nor the mission record. */
  lemma ObservationHidesSecrets(s: GameState, phase: Phase, rng: SimRng.RngState, mission: Mission)
    ensures BuildObservation(s.(rng := rng, mission := mission), phase) == BuildObservation(s, phase)
  {
  }
}
