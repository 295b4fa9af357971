/** `buildRaidGrid`: a row of rooms stamped from templates, separated by
    one-tile corridors that are walls except for a door in the middle row.
    Consoles, crates and the extraction tile come from template characters;
    one template per middle room and the crate contents are drawn from the
    generator. */
module RaidGrid {
  import opened Common
  import opened State
  import opened Grid
  import Registry
  import Config
  import SimRng
  import Commands

  /** Everything the builder produces. */
  datatype Layout = Layout(
    grid: GridState,
    doors: Registry.Reg<Door>,
    consoles: Registry.Reg<Console>,
    crates: Registry.Reg<Crate>,
    extractionPos: Vec2,
    rng: SimRng.RngState)

  /** The builder's running state. */
  datatype Build = Build(
    tiles: seq<Tile>,
    doors: Registry.Reg<Door>,
    consoles: Registry.Reg<Console>,
    crates: Registry.Reg<Crate>,
    extractionPos: Vec2,
    rng: SimRng.RngState)

  function GridWidth(roomCount: int): (w: int)
    ensures roomCount >= 1 ==> w >= Config.RoomWidth
  {
    roomCount * Config.RoomWidth + (roomCount - 1) * Config.CorridorWidth
  }

  /** The first column of room `roomIndex`. */
  function RoomOffset(roomIndex: int): int {
    roomIndex * (Config.RoomWidth + Config.CorridorWidth)
  }

  /** The corridor column right of room `roomIndex`. */
  function CorridorX(roomIndex: int): int {
    RoomOffset(roomIndex) + Config.RoomWidth
  }

  const DoorRow: int := Config.RoomHeight / 2

  function DoorId(roomIndex: nat): string {
    "door-" + NatToString(roomIndex + 1)
  }

  /** The door that closes the corridor right of room `roomIndex`: locked on even rooms. */
  function CorridorDoor(roomIndex: nat): Door {
    Door(DoorId(roomIndex), Vec2(CorridorX(roomIndex), DoorRow), roomIndex % 2 == 0, false)
  }

  function BlankTile(x: int, y: int): Tile {
    Tile(x, y, Wall, None, None, None, None, None, false)
  }

  /** The initial wall grid, row by row. */
  function BlankTiles(width: int): (ts: seq<Tile>)
    ensures width > 0 ==> |ts| == width * Config.RoomHeight
    ensures width <= 0 ==> ts == []
    ensures width > 0 ==> forall i :: 0 <= i < |ts| ==> ts[i] == BlankTile(i % width, i / width)
  {
    if width <= 0 then [] else seq(width * Config.RoomHeight, i requires 0 <= i < width * Config.RoomHeight => BlankTile(i % width, i / width))
  }

  // ---------------------------------------------------------------------
  // Templates

  /** No room after index `k` carries the id. */
  predicate LastRoomWith(rooms: seq<RoomDef>, k: int, id: string) {
    forall j :: 0 <= j < |rooms| && k < j ==> rooms[j].id != id
  }

  /** The index of the last room with the id among the first `n`, or -1. */
  function LastRoomIndex(rooms: seq<RoomDef>, id: string, n: int): (k: int)
    requires 0 <= n <= |rooms|
    ensures -1 <= k < n
    ensures k >= 0 ==> rooms[k].id == id && forall j :: k < j < n ==> rooms[j].id != id
    ensures k < 0 ==> forall j :: 0 <= j < n ==> rooms[j].id != id
    decreases n
  {
    if n == 0 then -1
    else if rooms[n - 1].id == id then n - 1
    else LastRoomIndex(rooms, id, n - 1)
  }

  /** `new Map(rooms).get(id)`: the last room with the id. */
  function FindRoom(rooms: seq<RoomDef>, id: string): (o: Option<RoomDef>)
    ensures o.Some? ==> o.value in rooms && o.value.id == id
    ensures o.None? <==> forall i :: 0 <= i < |rooms| ==> rooms[i].id != id
    ensures o.Some? ==> exists k :: 0 <= k < |rooms| && rooms[k] == o.value && LastRoomWith(rooms, k, id)
  {
    var k := LastRoomIndex(rooms, id, |rooms|);
    if k < 0 then None else Some(rooms[k])
  }

  predicate Reserved(r: RoomDef) {
    r.id == "start" || r.id == "power" || r.id == "loot" || r.id == "extraction"
  }

  predicate Standard(r: RoomDef) {
    !Reserved(r)
  }

  /** `a ?? b` on optional rooms. */
  function OrElse(a: Option<RoomDef>, b: Option<RoomDef>): Option<RoomDef> {
    if a.Some? then a else b
  }

  /** The template of one room: the first room is `start`, the second
      `power`, the third `loot` and the last `extraction`, each falling back
      to `standard` or the first room; every other room draws from the
      non-reserved rooms (or all rooms when there are none). A missing
      template is fatal. */
  function ChooseTemplate(rooms: seq<RoomDef>, roomIndex: int, roomCount: int, rng: SimRng.RngState)
    : (r: Result<(RoomDef, SimRng.RngState)>)
    ensures roomIndex in {0, 1, 2} || roomIndex == roomCount - 1 ==> r.Ok? ==> r.value.1 == rng
    ensures roomIndex == 0 && FindRoom(rooms, "start").Some? ==> r == Ok((FindRoom(rooms, "start").value, rng))
    ensures roomIndex !in {0, 1, 2} && roomIndex != roomCount - 1 ==>
              (r.Ok? <==> |rooms| > 0) &&
              (r.Ok? ==> r.value.1 == SimRng.NextRng(rng).state && r.value.0 in rooms)
    ensures (roomIndex !in {0, 1, 2} && roomIndex != roomCount - 1 && r.Ok? &&
             exists i :: 0 <= i < |rooms| && Standard(rooms[i])) ==> Standard(r.value.0)
  {
    var fallback := OrElse(FindRoom(rooms, "standard"), if |rooms| > 0 then Some(rooms[0]) else None);
    var fixed :=
      if roomIndex == 0 then Some(OrElse(FindRoom(rooms, "start"), fallback))
      else if roomIndex == 1 then Some(OrElse(FindRoom(rooms, "power"), fallback))
      else if roomIndex == 2 then Some(OrElse(FindRoom(rooms, "loot"), fallback))
      else if roomIndex == roomCount - 1 then Some(OrElse(FindRoom(rooms, "extraction"), fallback))
      else None;
    if fixed.Some? then
      if fixed.value.None? then Err(MissingRoomTemplate) else Ok((fixed.value.value, rng))
    else
      var standard := Commands.Filter(rooms, Standard);
      var pool := if |standard| > 0 then standard else rooms;
      var pick :- SimRng.PickOneFixed(rng, pool);
      Ok((pick.value, pick.state))
  }

  // ---------------------------------------------------------------------
  // Crates

  /** The loot kinds of the catalog (`LOOT_ITEMS`). */
  function LootItems(cat: Catalog): seq<ItemDef> {
    Commands.Filter(cat.items, (item: ItemDef) => item.kind == LootKind)
  }

  /** `count` picks from the loot items, in order. */
  function PickLoot(loot: seq<ItemDef>, rng: SimRng.RngState, count: int): (r: Result<(seq<ItemStack>, SimRng.RngState)>)
    ensures r.Ok? ==> |r.value.0| == Max(0, count)
    ensures r.Ok? ==> forall k :: 0 <= k < |r.value.0| ==>
              exists j :: 0 <= j < |loot| && r.value.0[k] == ItemStack(loot[j].id, loot[j].size)
    ensures count > 0 ==> (r.Ok? <==> |loot| > 0)
    decreases count
  {
    if count <= 0 then Ok(([], rng))
    else
      var pick :- SimRng.PickOneFixed(rng, loot);
      var rest :- PickLoot(loot, pick.state, count - 1);
      Ok(([ItemStack(pick.value.id, pick.value.size)] + rest.0, rest.1))
  }

  /** `rollCrateLoot`: between `min` and `max` loot stacks. */
  function RollCrateLoot(cat: Catalog, rng: SimRng.RngState, min: int, max: int): (r: Result<(seq<ItemStack>, SimRng.RngState)>)
    ensures min <= max && r.Ok? ==> min <= |r.value.0| || (min < 0 && |r.value.0| == 0)
    ensures min <= max && r.Ok? ==> |r.value.0| <= Max(0, max)
  {
    var count := SimRng.NextIntFixed(rng, min, max);
    PickLoot(LootItems(cat), count.state, count.value)
  }

  // ---------------------------------------------------------------------
  // Stamping a room

  /** `applyTemplateChar`: `#` is wall, anything else floor with `H`/`F`
      cover; a missing character reads as floor. */
  function ApplyChar(t: Tile, ch: Option<char>): (t': Tile)
    ensures t'.x == t.x && t'.y == t.y && t'.doorId == t.doorId
    ensures t'.terrain == Wall <==> ch == Some('#')
  {
    if ch == Some('#') then t.(terrain := Wall)
    else t.(terrain := Floor, cover := if ch == Some('H') then Some(Half) else if ch == Some('F') then Some(Full) else None)
  }

  function CellId(prefix: string, roomIndex: nat, x: nat, y: nat): string {
    prefix + NatToString(roomIndex) + "-" + NatToString(x) + "-" + NatToString(y)
  }

  /** The facts the loops rely on: the room lies on a grid of this width. */
  predicate Frame(roomIndex: int, roomCount: int, w: int, tiles: seq<Tile>) {
    0 <= roomIndex < roomCount && w == GridWidth(roomCount) && |tiles| == w * Config.RoomHeight
  }

  lemma RoomFits(roomIndex: int, roomCount: int, x: int, y: int)
    requires 0 <= roomIndex < roomCount && 0 <= x < Config.RoomWidth && 0 <= y < Config.RoomHeight
    ensures 0 <= RoomOffset(roomIndex) + x < GridWidth(roomCount)
    ensures 0 <= y * GridWidth(roomCount) + RoomOffset(roomIndex) + x < GridWidth(roomCount) * Config.RoomHeight
  {
    IndexInRange(GridWidth(roomCount), Config.RoomHeight, RoomOffset(roomIndex) + x, y);
  }

  /** Tiles keep their coordinates. */
  predicate Kept(a: seq<Tile>, b: seq<Tile>) {
    |a| == |b| && forall i :: 0 <= i < |a| ==> b[i].x == a[i].x && b[i].y == a[i].y
  }

  /** Tiles keep their door ids. */
  predicate KeptDoors(a: seq<Tile>, b: seq<Tile>) {
    |a| == |b| && forall i :: 0 <= i < |a| ==> b[i].doorId == a[i].doorId
  }

  /** Every door id on a tile names a door of the registry. */
  predicate DoorIdsIn(tiles: seq<Tile>, doors: Registry.Reg<Door>) {
    forall i :: 0 <= i < |tiles| && tiles[i].doorId.Some? ==> tiles[i].doorId.value in doors.m
  }

  /** Every crate holds two or three stacks. */
  predicate Stocked(crates: Registry.Reg<Crate>) {
    forall k :: k in crates.m ==> 2 <= |crates.m[k].items| <= 3
  }

  /** Only tiles in columns `lo` to `hi - 1` may differ. */
  predicate ChangedOnlyIn(a: seq<Tile>, b: seq<Tile>, w: int, lo: int, hi: int)
    requires w > 0
  {
    |a| == |b| && forall i :: 0 <= i < |a| && (i % w < lo || i % w >= hi) ==> b[i] == a[i]
  }

  /** One template cell at tile index `idx`: the character's terrain, and
      a console, a crate with rolled loot, or (in the last room) the
      extraction point. */
  function PlaceCell(cat: Catalog, b: Build, idx: int, roomIndex: nat, isLast: bool, ch: Option<char>, x: nat, y: nat, pos: Vec2)
    : (r: Result<Build>)
    requires 0 <= idx < |b.tiles|
    ensures r.Ok? ==> |r.value.tiles| == |b.tiles| && forall i :: 0 <= i < |b.tiles| && i != idx ==> r.value.tiles[i] == b.tiles[i]
    ensures r.Ok? ==> var t, t' := b.tiles[idx], r.value.tiles[idx]; t'.x == t.x && t'.y == t.y && t'.doorId == t.doorId
    ensures r.Ok? ==> r.value.doors == b.doors
    ensures r.Ok? && Stocked(b.crates) ==> Stocked(r.value.crates)
    ensures ch == Some('L') ==> (r.Ok? <==> |LootItems(cat)| > 0)
    ensures ch != Some('L') ==> r.Ok? && r.value.rng == b.rng && r.value.crates == b.crates
  {
    var t := ApplyChar(b.tiles[idx], ch);
    var b1 :=
      if ch == Some('C') then
        var id := CellId("console-", roomIndex, x, y);
        b.(tiles := b.tiles[idx := t.(consoleId := Some(id))],
           consoles := Registry.Put(b.consoles, id, Console(id, pos, false)))
      else b.(tiles := b.tiles[idx := t]);
    var b2 :-
      if ch == Some('L') then
        var id := CellId("crate-", roomIndex, x, y);
        var loot :- RollCrateLoot(cat, b1.rng, 2, 3);
        Ok(b1.(tiles := b1.tiles[idx := b1.tiles[idx].(crateId := Some(id))],
               crates := Registry.Put(b1.crates, id, Crate(id, pos, loot.0, false)),
               rng := loot.1))
      else Ok(b1);
    if ch == Some('E') && isLast then
      Ok(b2.(tiles := b2.tiles[idx := b2.tiles[idx].(extraction := true)], extractionPos := pos))
    else Ok(b2)
  }

  /** One template cell of room `roomIndex`, at column `x` and row `y` of the room. */
  function StampCell(cat: Catalog, b: Build, roomIndex: int, roomCount: int, ch: Option<char>, x: int, y: int): (r: Result<Build>)
    requires Frame(roomIndex, roomCount, GridWidth(roomCount), b.tiles)
    requires 0 <= x < Config.RoomWidth && 0 <= y < Config.RoomHeight
    ensures r.Ok? ==> Kept(b.tiles, r.value.tiles) && KeptDoors(b.tiles, r.value.tiles) && r.value.doors == b.doors
    ensures r.Ok? && Stocked(b.crates) ==> Stocked(r.value.crates)
    ensures r.Ok? ==> ChangedOnlyIn(b.tiles, r.value.tiles, GridWidth(roomCount), RoomOffset(roomIndex), RoomOffset(roomIndex) + Config.RoomWidth)
  {
    var w := GridWidth(roomCount);
    var tx := RoomOffset(roomIndex) + x;
    RoomFits(roomIndex, roomCount, x, y);
    var idx := y * w + tx;
    DivModUnique(idx, w, tx, y);
    PlaceCell(cat, b, idx, roomIndex, roomIndex == roomCount - 1, ch, x, y, Vec2(tx, y))
  }

  /** The inner template loop: columns `x` to the room's right edge of row `y`. */
  function StampRow(cat: Catalog, b: Build, roomIndex: int, roomCount: int, row: string, x: int, y: int): (r: Result<Build>)
    requires Frame(roomIndex, roomCount, GridWidth(roomCount), b.tiles)
    requires 0 <= x <= Config.RoomWidth && 0 <= y < Config.RoomHeight
    ensures r.Ok? ==> Kept(b.tiles, r.value.tiles) && KeptDoors(b.tiles, r.value.tiles) && r.value.doors == b.doors
    ensures r.Ok? && Stocked(b.crates) ==> Stocked(r.value.crates)
    ensures r.Ok? ==> ChangedOnlyIn(b.tiles, r.value.tiles, GridWidth(roomCount), RoomOffset(roomIndex), RoomOffset(roomIndex) + Config.RoomWidth)
    decreases Config.RoomWidth - x
  {
    if x == Config.RoomWidth then Ok(b)
    else
      var b1 :- StampCell(cat, b, roomIndex, roomCount, if x < |row| then Some(row[x]) else None, x, y);
      StampRow(cat, b1, roomIndex, roomCount, row, x + 1, y)
  }

  /** The outer template loop: rows `y` to the bottom; a missing row is fatal. */
  function StampRows(cat: Catalog, b: Build, roomIndex: int, roomCount: int, template: RoomDef, y: int): (r: Result<Build>)
    requires Frame(roomIndex, roomCount, GridWidth(roomCount), b.tiles)
    requires 0 <= y <= Config.RoomHeight
    ensures r.Ok? ==> Kept(b.tiles, r.value.tiles) && KeptDoors(b.tiles, r.value.tiles) && r.value.doors == b.doors
    ensures r.Ok? && Stocked(b.crates) ==> Stocked(r.value.crates)
    ensures r.Ok? ==> ChangedOnlyIn(b.tiles, r.value.tiles, GridWidth(roomCount), RoomOffset(roomIndex), RoomOffset(roomIndex) + Config.RoomWidth)
    ensures y < Config.RoomHeight && |template.tiles| <= y ==> r == Err(MissingRoomRow)
    decreases Config.RoomHeight - y
  {
    if y == Config.RoomHeight then Ok(b)
    else if y >= |template.tiles| then Err(MissingRoomRow)
    else
      var b1 :- StampRow(cat, b, roomIndex, roomCount, template.tiles[y], 0, y);
      StampRows(cat, b1, roomIndex, roomCount, template, y + 1)
  }

  // ---------------------------------------------------------------------
  // Corridors

  /** The tile the corridor right of room `roomIndex` leaves at index `i`:
      its column is wall, except the floor door tile in the middle row. */
  function CorridorTile(t: Tile, i: int, w: int, roomIndex: nat): Tile
    requires w > 0
  {
    if i % w != CorridorX(roomIndex) then t
    else if i / w == DoorRow then t.(terrain := Floor, doorId := Some(DoorId(roomIndex)))
    else t.(terrain := Wall)
  }

  /** The corridor right of a room: its column walled with a door tile in
      the middle row, and the door registered closed (locked on even rooms). */
  function Corridor(b: Build, roomIndex: nat, roomCount: int): (r: Build)
    requires Frame(roomIndex, roomCount, GridWidth(roomCount), b.tiles)
    ensures Kept(b.tiles, r.tiles)
    ensures ChangedOnlyIn(b.tiles, r.tiles, GridWidth(roomCount), CorridorX(roomIndex), CorridorX(roomIndex) + 1)
    ensures DoorIdsIn(b.tiles, b.doors) ==> DoorIdsIn(r.tiles, r.doors)
    ensures forall i :: 0 <= i < |b.tiles| && i % GridWidth(roomCount) == CorridorX(roomIndex) ==>
              r.tiles[i] == CorridorTile(b.tiles[i], i, GridWidth(roomCount), roomIndex)
    ensures r.doors == Registry.Put(b.doors, DoorId(roomIndex), CorridorDoor(roomIndex))
    ensures r.consoles == b.consoles && r.crates == b.crates && r.rng == b.rng && r.extractionPos == b.extractionPos
  {
    var w := GridWidth(roomCount);
    var tiles := seq(|b.tiles|, i requires 0 <= i < |b.tiles| => CorridorTile(b.tiles[i], i, w, roomIndex));
    b.(tiles := tiles, doors := Registry.Put(b.doors, DoorId(roomIndex), CorridorDoor(roomIndex)))
  }

  // ---------------------------------------------------------------------
  // The room loop

  /** One room: its template stamped at its offset, then its corridor unless it is the last. */
  function BuildRoom(cat: Catalog, rooms: seq<RoomDef>, b: Build, roomIndex: nat, roomCount: int): (r: Result<Build>)
    requires Frame(roomIndex, roomCount, GridWidth(roomCount), b.tiles)
    ensures r.Ok? ==> Kept(b.tiles, r.value.tiles)
    ensures r.Ok? ==> ChangedOnlyIn(b.tiles, r.value.tiles, GridWidth(roomCount), RoomOffset(roomIndex), RoomOffset(roomIndex + 1))
    ensures r.Ok? && Stocked(b.crates) ==> Stocked(r.value.crates)
    ensures r.Ok? && DoorIdsIn(b.tiles, b.doors) ==> DoorIdsIn(r.value.tiles, r.value.doors)
    ensures r.Ok? ==> r.value.doors == if roomIndex < roomCount - 1 then Registry.Put(b.doors, DoorId(roomIndex), CorridorDoor(roomIndex)) else b.doors
    ensures r.Ok? && roomIndex < roomCount - 1 ==> CorridorBuilt(r.value.tiles, GridWidth(roomCount), roomIndex)
  {
    var choice :- ChooseTemplate(rooms, roomIndex, roomCount, b.rng);
    var stamped :- StampRows(cat, b.(rng := choice.1), roomIndex, roomCount, choice.0, 0);
    if roomIndex < roomCount - 1 then Ok(Corridor(stamped, roomIndex, roomCount)) else Ok(stamped)
  }

  /** The doors registered once the first `n` corridors are built. */
  function DoorsUpTo(n: nat): Registry.Reg<Door> {
    if n == 0 then Registry.Empty() else Registry.Put(DoorsUpTo(n - 1), DoorId(n - 1), CorridorDoor(n - 1))
  }

  /** Rooms `roomIndex` to the last, in order. */
  function BuildRooms(cat: Catalog, rooms: seq<RoomDef>, b: Build, roomIndex: nat, roomCount: int): (r: Result<Build>)
    requires roomIndex <= roomCount && roomCount >= 1 && |b.tiles| == GridWidth(roomCount) * Config.RoomHeight
    ensures r.Ok? ==> Kept(b.tiles, r.value.tiles)
    ensures r.Ok? ==> ChangedOnlyIn(b.tiles, r.value.tiles, GridWidth(roomCount), RoomOffset(roomIndex), GridWidth(roomCount))
    ensures r.Ok? && Stocked(b.crates) ==> Stocked(r.value.crates)
    ensures r.Ok? && DoorIdsIn(b.tiles, b.doors) ==> DoorIdsIn(r.value.tiles, r.value.doors)
    decreases roomCount - roomIndex
  {
    if roomIndex == roomCount then Ok(b)
    else
      var b1 :- BuildRoom(cat, rooms, b, roomIndex, roomCount);
      BuildRooms(cat, rooms, b1, roomIndex + 1, roomCount)
  }

  lemma BuildRoomsUnfold(cat: Catalog, rooms: seq<RoomDef>, b: Build, roomIndex: nat, roomCount: int)
    requires roomIndex < roomCount && |b.tiles| == GridWidth(roomCount) * Config.RoomHeight
    requires BuildRooms(cat, rooms, b, roomIndex, roomCount).Ok?
    ensures BuildRoom(cat, rooms, b, roomIndex, roomCount).Ok?
    ensures BuildRooms(cat, rooms, b, roomIndex, roomCount) ==
              BuildRooms(cat, rooms, BuildRoom(cat, rooms, b, roomIndex, roomCount).value, roomIndex + 1, roomCount)
  {
  }

  /** One turn of the room loop, as the room it builds and the facts the
      loop's invariants need about it. */
  lemma RoomStep(cat: Catalog, rooms: seq<RoomDef>, b: Build, roomIndex: nat, roomCount: int) returns (b1: Build)
    requires roomIndex < roomCount && |b.tiles| == GridWidth(roomCount) * Config.RoomHeight
    requires BuildRooms(cat, rooms, b, roomIndex, roomCount).Ok?
    ensures |b1.tiles| == |b.tiles|
    ensures BuildRooms(cat, rooms, b, roomIndex, roomCount) == BuildRooms(cat, rooms, b1, roomIndex + 1, roomCount)
    ensures roomIndex < roomCount - 1 ==> CorridorBuilt(b1.tiles, GridWidth(roomCount), roomIndex)
    ensures b.doors == DoorsUpTo(roomIndex) ==> b1.doors == DoorsUpTo(Min(roomIndex + 1, roomCount - 1))
  {
    BuildRoomsUnfold(cat, rooms, b, roomIndex, roomCount);
    b1 := BuildRoom(cat, rooms, b, roomIndex, roomCount).value;
    if b.doors == DoorsUpTo(roomIndex) {
      BuildRoomDoors(cat, rooms, b, roomIndex, roomCount);
    }
  }

  /** One turn of the room loop, as the room it builds and its corridor. */
  lemma RoomStepCorridor(cat: Catalog, rooms: seq<RoomDef>, b: Build, roomIndex: nat, roomCount: int) returns (b1: Build)
    requires roomIndex < roomCount && |b.tiles| == GridWidth(roomCount) * Config.RoomHeight
    requires BuildRooms(cat, rooms, b, roomIndex, roomCount).Ok?
    ensures LoopSucceeds(cat, rooms, b1, roomIndex + 1, roomCount)
    ensures BuildRooms(cat, rooms, b, roomIndex, roomCount) == BuildRooms(cat, rooms, b1, roomIndex + 1, roomCount)
    ensures roomIndex < roomCount - 1 ==> CorridorBuilt(b1.tiles, GridWidth(roomCount), roomIndex)
  {
    BuildRoomsUnfold(cat, rooms, b, roomIndex, roomCount);
    b1 := BuildRoom(cat, rooms, b, roomIndex, roomCount).value;
  }

  lemma DoorsUpToStep(n: nat)
    ensures DoorsUpTo(n + 1) == Registry.Put(DoorsUpTo(n), DoorId(n), CorridorDoor(n))
  {
  }

  /** A room adds its corridor's door to the registry, and the last room none. */
  lemma BuildRoomDoors(cat: Catalog, rooms: seq<RoomDef>, b: Build, roomIndex: nat, roomCount: int)
    requires roomIndex < roomCount && |b.tiles| == GridWidth(roomCount) * Config.RoomHeight
    requires BuildRoom(cat, rooms, b, roomIndex, roomCount).Ok? && b.doors == DoorsUpTo(roomIndex)
    ensures BuildRoom(cat, rooms, b, roomIndex, roomCount).value.doors == DoorsUpTo(Min(roomIndex + 1, roomCount - 1))
  {
    if roomIndex < roomCount - 1 {
      DoorsUpToStep(roomIndex);
      assert Min(roomIndex + 1, roomCount - 1) == roomIndex + 1;
    } else {
      assert Min(roomIndex + 1, roomCount - 1) == roomIndex;
    }
  }

  /** The room loop registers one door per corridor, in order. */
  lemma {:induction false} BuildRoomsDoors(cat: Catalog, rooms: seq<RoomDef>, b: Build, roomIndex: nat, roomCount: int)
    requires roomIndex < roomCount && |b.tiles| == GridWidth(roomCount) * Config.RoomHeight
    requires BuildRooms(cat, rooms, b, roomIndex, roomCount).Ok? && b.doors == DoorsUpTo(roomIndex)
    ensures BuildRooms(cat, rooms, b, roomIndex, roomCount).value.doors == DoorsUpTo(roomCount - 1)
    decreases roomCount - roomIndex
  {
    var b1 := RoomStep(cat, rooms, b, roomIndex, roomCount);
    if roomIndex < roomCount - 1 {
      BuildRoomsDoors(cat, rooms, b1, roomIndex + 1, roomCount);
    }
  }

  /** The wall grid and empty registries the room loop starts from. */
  function StartBuild(rng: SimRng.RngState, roomCount: int): Build {
    var w := GridWidth(roomCount);
    Build(BlankTiles(w), Registry.Empty(), Registry.Empty(), Registry.Empty(), Vec2(w - 2, Config.RoomHeight / 2), rng)
  }

  /** `buildRaidGrid`. With no rooms the grid is empty and nothing is placed. */
  function BuildRaidGrid(cat: Catalog, rng: SimRng.RngState, rooms: seq<RoomDef>, roomCount: int): (r: Result<Layout>)
    ensures r.Ok? ==> r.value.grid.width == GridWidth(roomCount) && r.value.grid.height == Config.RoomHeight
    ensures r.Ok? && roomCount >= 1 ==> WellFormed(r.value.grid)
    ensures roomCount <= 0 ==> r.Ok? && r.value.grid.tiles == [] && r.value.doors == Registry.Empty() &&
                               r.value.crates == Registry.Empty() && r.value.rng == rng
    ensures roomCount >= 1 ==>
              (r.Ok? <==> BuildRooms(cat, rooms, StartBuild(rng, roomCount), 0, roomCount).Ok?) &&
              (r.Ok? ==> var b := BuildRooms(cat, rooms, StartBuild(rng, roomCount), 0, roomCount).value;
                           r.value.grid.tiles == b.tiles && r.value.doors == b.doors && r.value.crates == b.crates)
  {
    var w := GridWidth(roomCount);
    var start := StartBuild(rng, roomCount);
    if roomCount <= 0 then
      Ok(Layout(GridState(w, Config.RoomHeight, start.tiles), start.doors, start.consoles, start.crates, start.extractionPos, start.rng))
    else
      var b :- BuildRooms(cat, rooms, start, 0, roomCount);
      Ok(Layout(GridState(w, Config.RoomHeight, b.tiles), b.doors, b.consoles, b.crates, b.extractionPos, b.rng))
  }

  // ---------------------------------------------------------------------
  // Properties of the built layout

  /** `door-1` to `door-n`. */
  function DoorKeys(n: nat): (ks: seq<string>)
    ensures |ks| == n
  {
    if n == 0 then [] else DoorKeys(n - 1) + [DoorId(n - 1)]
  }

  lemma {:induction false} DoorKeysAt(n: nat, j: nat)
    requires j < n
    ensures DoorKeys(n)[j] == DoorId(j)
  {
    if j < n - 1 {
      DoorKeysAt(n - 1, j);
    }
  }

  lemma DoorIdInjective(a: nat, b: nat)
    requires DoorId(a) == DoorId(b)
    ensures a == b
  {
    NumberedIdInjective("door-", a + 1, b + 1);
  }

  lemma {:induction false} DoorKeysDistinct(n: nat)
    ensures Distinct(DoorKeys(n))
  {
    forall a, b | 0 <= a < b < n
      ensures DoorKeys(n)[a] != DoorKeys(n)[b]
    {
      DoorKeysAt(n, a);
      DoorKeysAt(n, b);
      if DoorId(a) == DoorId(b) {
        DoorIdInjective(a, b);
      }
    }
  }

  lemma {:induction false} DoorsUpToDomain(n: nat)
    ensures forall k :: k in DoorsUpTo(n).m <==> k in DoorKeys(n)
  {
    if n > 0 {
      DoorsUpToDomain(n - 1);
    }
  }

  lemma {:induction false} DoorsUpToKeys(n: nat)
    ensures DoorsUpTo(n).keys == DoorKeys(n)
  {
    if n > 0 {
      DoorsUpToKeys(n - 1);
      DoorsUpToDomain(n - 1);
      var m := n - 1;
      forall k | 0 <= k < m
        ensures DoorKeys(m)[k] != DoorId(m)
      {
        DoorKeysAt(n - 1, k);
        if DoorId(k) == DoorId(n - 1) {
          DoorIdInjective(k, n - 1);
        }
      }
      assert DoorId(n - 1) !in DoorsUpTo(n - 1).m;
    }
  }

  lemma {:induction false} DoorsUpToValue(n: nat, j: nat)
    requires j < n
    ensures DoorId(j) in DoorsUpTo(n).m && DoorsUpTo(n).m[DoorId(j)] == CorridorDoor(j)
  {
    if j < n - 1 {
      DoorsUpToValue(n - 1, j);
      if DoorId(j) == DoorId(n - 1) {
        DoorIdInjective(j, n - 1);
      }
    }
  }

  /** The first `n` corridors register `door-1` to `door-n`, in order, each
      under its own id. */
  lemma DoorsUpToMeans(n: nat)
    ensures Registry.Valid(DoorsUpTo(n))
    ensures DoorsUpTo(n).keys == DoorKeys(n)
    ensures forall j :: 0 <= j < n ==> DoorId(j) in DoorsUpTo(n).m && DoorsUpTo(n).m[DoorId(j)] == CorridorDoor(j)
  {
    DoorsUpToKeys(n);
    DoorsUpToDomain(n);
    DoorKeysDistinct(n);
    forall j | 0 <= j < n
      ensures DoorId(j) in DoorsUpTo(n).m && DoorsUpTo(n).m[DoorId(j)] == CorridorDoor(j)
    {
      DoorsUpToValue(n, j);
    }
  }

  /** Every door of the first `n` corridors is one of them. */
  lemma DoorsUpToOnly(n: nat, id: string)
    requires id in DoorsUpTo(n).m
    ensures exists j :: 0 <= j < n && id == DoorId(j)
  {
    DoorsUpToMeans(n);
    var k :| 0 <= k < n && DoorKeys(n)[k] == id;
    DoorKeysAt(n, k);
  }

  /** The column right of room `j` holds the corridor's walls and door tile. */
  predicate CorridorBuilt(tiles: seq<Tile>, w: int, j: nat)
    requires w > 0
  {
    forall i :: 0 <= i < |tiles| && i % w == CorridorX(j) ==> tiles[i] == CorridorTile(tiles[i], i, w, j)
  }

  lemma CorridorKept(a: seq<Tile>, b: seq<Tile>, w: int, j: nat, lo: int, hi: int)
    requires w > 0 && CorridorBuilt(a, w, j) && ChangedOnlyIn(a, b, w, lo, hi) && CorridorX(j) < lo
    ensures CorridorBuilt(b, w, j)
  {
  }

  /** The room loop, run from room `roomIndex` on a build of the right size, succeeds. */
  predicate LoopSucceeds(cat: Catalog, rooms: seq<RoomDef>, b: Build, roomIndex: nat, roomCount: int) {
    && roomIndex <= roomCount && roomCount >= 1 && |b.tiles| == GridWidth(roomCount) * Config.RoomHeight
    && BuildRooms(cat, rooms, b, roomIndex, roomCount).Ok?
  }

  /** Once built, a corridor is left alone by the rooms to its right. */
  lemma {:induction false} CorridorSurvives(cat: Catalog, rooms: seq<RoomDef>, b: Build, roomIndex: nat, roomCount: int, j: nat)
    requires roomIndex <= j < roomCount - 1 && LoopSucceeds(cat, rooms, b, roomIndex, roomCount)
    ensures CorridorBuilt(BuildRooms(cat, rooms, b, roomIndex, roomCount).value.tiles, GridWidth(roomCount), j)
    decreases roomCount - roomIndex
  {
    var b1 := RoomStepCorridor(cat, rooms, b, roomIndex, roomCount);
    if roomIndex < j {
      CorridorSurvives(cat, rooms, b1, roomIndex + 1, roomCount, j);
    } else {
      CorridorBeforeNextRoom(j, roomCount);
      CorridorLeftAlone(cat, rooms, b1, roomIndex + 1, roomCount, j);
    }
  }

  lemma CorridorBeforeNextRoom(j: int, roomCount: int)
    requires roomCount >= 1
    ensures CorridorX(j) < RoomOffset(j + 1) && GridWidth(roomCount) > 0
  {
    assert RoomOffset(j + 1) == RoomOffset(j) + 9;
  }

  /** The rooms right of a built corridor do not touch it. */
  lemma CorridorLeftAlone(cat: Catalog, rooms: seq<RoomDef>, b: Build, roomIndex: nat, roomCount: int, j: nat)
    requires j < roomIndex && GridWidth(roomCount) > 0 && LoopSucceeds(cat, rooms, b, roomIndex, roomCount)
    requires CorridorBuilt(b.tiles, GridWidth(roomCount), j) && CorridorX(j) < RoomOffset(roomIndex)
    ensures CorridorBuilt(BuildRooms(cat, rooms, b, roomIndex, roomCount).value.tiles, GridWidth(roomCount), j)
  {
    var w := GridWidth(roomCount);
    var r := BuildRooms(cat, rooms, b, roomIndex, roomCount).value;
    CorridorKept(b.tiles, r.tiles, w, j, RoomOffset(roomIndex), w);
  }

  /** Reading a built corridor cell through `getTile`. */
  lemma CorridorCell(g: GridState, j: nat, y: int)
    requires g.width > 0 && g.height == Config.RoomHeight && |g.tiles| == g.width * g.height
    requires CorridorX(j) < g.width && 0 <= y < Config.RoomHeight
    requires CorridorBuilt(g.tiles, g.width, j)
    ensures && GetTile(g, Vec2(CorridorX(j), y)).Some?
            && GetTile(g, Vec2(CorridorX(j), y)).value.terrain == (if y == DoorRow then Floor else Wall)
            && (y == DoorRow ==> GetTile(g, Vec2(CorridorX(j), y)).value.doorId == Some(DoorId(j)))
  {
    var i := y * g.width + CorridorX(j);
    IndexInRange(g.width, g.height, CorridorX(j), y);
    DivModUnique(i, g.width, CorridorX(j), y);
    assert g.tiles[i] == CorridorTile(g.tiles[i], i, g.width, j);
  }

  /** The tiles of a built layout hold every corridor. */
  lemma LayoutCorridor(cat: Catalog, rng: SimRng.RngState, rooms: seq<RoomDef>, roomCount: int, j: nat)
    requires BuildRaidGrid(cat, rng, rooms, roomCount).Ok?
    requires j < roomCount - 1
    ensures var g := BuildRaidGrid(cat, rng, rooms, roomCount).value.grid;
            g.width > 0 && CorridorX(j) < g.width && CorridorBuilt(g.tiles, g.width, j)
  {
    CorridorSurvives(cat, rooms, StartBuild(rng, roomCount), 0, roomCount, j);
  }

  /** In a built layout the column right of room `j` (every room but the
      last) is wall, except the floor tile in the middle row that carries
      `door-(j+1)`. */
  lemma CorridorTiles(cat: Catalog, rng: SimRng.RngState, rooms: seq<RoomDef>, roomCount: int, j: nat, y: int)
    requires BuildRaidGrid(cat, rng, rooms, roomCount).Ok?
    requires j < roomCount - 1 && 0 <= y < Config.RoomHeight
    ensures var g := BuildRaidGrid(cat, rng, rooms, roomCount).value.grid;
            && GetTile(g, Vec2(CorridorX(j), y)).Some?
            && GetTile(g, Vec2(CorridorX(j), y)).value.terrain == (if y == DoorRow then Floor else Wall)
            && (y == DoorRow ==> GetTile(g, Vec2(CorridorX(j), y)).value.doorId == Some(DoorId(j)))
  {
    LayoutCorridor(cat, rng, rooms, roomCount, j);
    CorridorCell(BuildRaidGrid(cat, rng, rooms, roomCount).value.grid, j, y);
  }

  /** A built corridor whose door is registered closed blocks every cell of its column. */
  lemma SealedCell(g: GridState, doors: Registry.Reg<Door>, n: nat, j: nat, y: int)
    requires g.width > 0 && g.height == Config.RoomHeight && |g.tiles| == g.width * g.height
    requires CorridorX(j) < g.width && 0 <= y < Config.RoomHeight
    requires CorridorBuilt(g.tiles, g.width, j) && j < n && doors == DoorsUpTo(n)
    ensures !IsPassable(g, Vec2(CorridorX(j), y), doors)
  {
    CorridorCell(g, j, y);
    DoorsUpToValue(n, j);
  }

  /** A new layout is cut into sealed rooms: no corridor cell can be
      walked onto until its door opens. */
  lemma CorridorsSealed(cat: Catalog, rng: SimRng.RngState, rooms: seq<RoomDef>, roomCount: int, j: nat, y: int)
    requires BuildRaidGrid(cat, rng, rooms, roomCount).Ok?
    requires j < roomCount - 1 && 0 <= y < Config.RoomHeight
    ensures var l := BuildRaidGrid(cat, rng, rooms, roomCount).value;
            !IsPassable(l.grid, Vec2(CorridorX(j), y), l.doors)
  {
    var l := BuildRaidGrid(cat, rng, rooms, roomCount).value;
    LayoutInvariants(cat, rng, rooms, roomCount);
    LayoutCorridor(cat, rng, rooms, roomCount, j);
    SealedCell(l.grid, l.doors, roomCount - 1, j, y);
  }

  /** The door of a built corridor sits, closed, on the tile that names it. */
  lemma DoorCell(g: GridState, doors: Registry.Reg<Door>, n: nat, j: nat)
    requires g.width > 0 && g.height == Config.RoomHeight && |g.tiles| == g.width * g.height
    requires CorridorX(j) < g.width
    requires CorridorBuilt(g.tiles, g.width, j) && j < n && doors == DoorsUpTo(n)
    ensures DoorId(j) in doors.m
    ensures var d := doors.m[DoorId(j)];
            && d.id == DoorId(j) && !d.open && d.pos == Vec2(CorridorX(j), DoorRow) && d.locked == (j % 2 == 0)
            && GetTile(g, d.pos).Some? && GetTile(g, d.pos).value.doorId == Some(DoorId(j))
  {
    CorridorCell(g, j, DoorRow);
    DoorsUpToValue(n, j);
  }

  /** Every door of a new layout is closed, locked exactly on the
      corridors right of even rooms, and sits on the tile that names it. */
  lemma DoorsOnTheirTiles(cat: Catalog, rng: SimRng.RngState, rooms: seq<RoomDef>, roomCount: int, id: string)
    requires BuildRaidGrid(cat, rng, rooms, roomCount).Ok?
    requires id in BuildRaidGrid(cat, rng, rooms, roomCount).value.doors.m
    ensures var l := BuildRaidGrid(cat, rng, rooms, roomCount).value;
            var d := l.doors.m[id];
            && d.id == id && !d.open
            && (exists j :: 0 <= j < roomCount - 1 && d.pos == Vec2(CorridorX(j), DoorRow) && d.locked == (j % 2 == 0))
            && GetTile(l.grid, d.pos).Some? && GetTile(l.grid, d.pos).value.doorId == Some(id)
  {
    var l := BuiltLayout(cat, rng, rooms, roomCount);
    DoorsUpToOnly(roomCount - 1, id);
    var j :| 0 <= j < roomCount - 1 && id == DoorId(j);
    LayoutCorridor(cat, rng, rooms, roomCount, j);
    CorridorDoorOnTile(l.grid, l.doors, roomCount - 1, j, id);
  }

  /** A successful build with at least one door, as one value. */
  lemma BuiltLayout(cat: Catalog, rng: SimRng.RngState, rooms: seq<RoomDef>, roomCount: int) returns (l: Layout)
    requires BuildRaidGrid(cat, rng, rooms, roomCount).Ok?
    requires BuildRaidGrid(cat, rng, rooms, roomCount).value.doors.m != map[]
    ensures l == BuildRaidGrid(cat, rng, rooms, roomCount).value
    ensures roomCount >= 1 && l.doors == DoorsUpTo(roomCount - 1)
    ensures l.grid.height == Config.RoomHeight && |l.grid.tiles| == l.grid.width * l.grid.height
  {
    l := BuildRaidGrid(cat, rng, rooms, roomCount).value;
    LayoutInvariants(cat, rng, rooms, roomCount);
  }

  /** The door of a built corridor, stated for any door id it carries. */
  lemma CorridorDoorOnTile(g: GridState, doors: Registry.Reg<Door>, n: nat, j: nat, id: string)
    requires g.width > 0 && g.height == Config.RoomHeight && |g.tiles| == g.width * g.height
    requires CorridorX(j) < g.width
    requires CorridorBuilt(g.tiles, g.width, j) && j < n && doors == DoorsUpTo(n) && id == DoorId(j)
    ensures id in doors.m
    ensures var d := doors.m[id];
            && d.id == id && !d.open
            && (exists k :: 0 <= k < n && d.pos == Vec2(CorridorX(k), DoorRow) && d.locked == (k % 2 == 0))
            && GetTile(g, d.pos).Some? && GetTile(g, d.pos).value.doorId == Some(id)
  {
    DoorCell(g, doors, n, j);
  }

  /** A built layout: every tile's door id names a registered door, the
      doors are `door-1` to `door-(roomCount-1)` in order, and every crate
      holds two or three stacks. */
  lemma LayoutInvariants(cat: Catalog, rng: SimRng.RngState, rooms: seq<RoomDef>, roomCount: int)
    requires BuildRaidGrid(cat, rng, rooms, roomCount).Ok?
    ensures var l := BuildRaidGrid(cat, rng, rooms, roomCount).value;
            && DoorsRegistered(l.grid, l.doors)
            && Stocked(l.crates)
            && (roomCount >= 1 ==> l.doors == DoorsUpTo(roomCount - 1) && Registry.Valid(l.doors) && l.doors.keys == DoorKeys(roomCount - 1))
  {
    var l := BuildRaidGrid(cat, rng, rooms, roomCount).value;
    if roomCount >= 1 {
      var b := RoomLoopFacts(cat, rng, rooms, roomCount);
      LayoutFromLoop(l, b, roomCount);
    } else {
      assert l.grid.tiles == [] && l.crates == Registry.Empty();
    }
  }

  /** The layout invariants, read off the room loop's result. */
  lemma LayoutFromLoop(l: Layout, b: Build, roomCount: int)
    requires roomCount >= 1 && l.grid.tiles == b.tiles && l.doors == b.doors && l.crates == b.crates
    requires Stocked(b.crates) && DoorIdsIn(b.tiles, b.doors) && b.doors == DoorsUpTo(roomCount - 1)
    ensures && DoorsRegistered(l.grid, l.doors)
            && Stocked(l.crates)
            && l.doors == DoorsUpTo(roomCount - 1) && Registry.Valid(l.doors) && l.doors.keys == DoorKeys(roomCount - 1)
  {
    DoorsUpToMeans(roomCount - 1);
  }

  /** What the room loop of a successful build leaves behind, as one value. */
  lemma RoomLoopFacts(cat: Catalog, rng: SimRng.RngState, rooms: seq<RoomDef>, roomCount: int) returns (b: Build)
    requires roomCount >= 1 && BuildRooms(cat, rooms, StartBuild(rng, roomCount), 0, roomCount).Ok?
    ensures b == BuildRooms(cat, rooms, StartBuild(rng, roomCount), 0, roomCount).value
    ensures Stocked(b.crates) && DoorIdsIn(b.tiles, b.doors) && b.doors == DoorsUpTo(roomCount - 1)
  {
    b := BuildRooms(cat, rooms, StartBuild(rng, roomCount), 0, roomCount).value;
    BuildRoomsDoors(cat, rooms, StartBuild(rng, roomCount), 0, roomCount);
  }

  // ---------------------------------------------------------------------
  // Random open tiles

  const OpenTileAttempts: nat := 1000

  /** The generator after `n` draws. */
  function Advance(rng: SimRng.RngState, n: nat): SimRng.RngState
    decreases n
  {
    if n == 0 then rng else Advance(SimRng.NextRng(rng).state, n - 1)
  }

  /** The attempts of `findOpenTile` from attempt `attempts` on: each draws a
      column in [1, width - 2] and a row in [1, height - 2] and stops at the
      first passable cell; after the last attempt the answer is (1, 1). */
  function OpenTileFrom(g: GridState, doors: Registry.Reg<Door>, rng: SimRng.RngState, attempts: nat)
    : (r: (Vec2, SimRng.RngState))
    requires attempts <= OpenTileAttempts
    ensures IsPassable(g, r.0, doors) || (r.0 == Vec2(1, 1) && r.1 == Advance(rng, 2 * (OpenTileAttempts - attempts)))
    ensures IsPassable(g, r.0, doors) && g.width >= 3 && g.height >= 3 ==>
              1 <= r.0.x <= g.width - 2 && 1 <= r.0.y <= g.height - 2
    decreases OpenTileAttempts - attempts
  {
    if attempts == OpenTileAttempts then (Vec2(1, 1), rng)
    else
      var rollX := SimRng.NextIntFixed(rng, 1, g.width - 2);
      var rollY := SimRng.NextIntFixed(rollX.state, 1, g.height - 2);
      var pos := Vec2(rollX.value, rollY.value);
      if IsPassable(g, pos, doors) then (pos, rollY.state)
      else
        var r := OpenTileFrom(g, doors, rollY.state, attempts + 1);
        assert Advance(rng, 2 * (OpenTileAttempts - attempts)) == Advance(rollY.state, 2 * (OpenTileAttempts - attempts - 1));
        r
  }

  /** `findOpenTile`: a random passable cell away from the border, or (1, 1)
      once a thousand attempts have failed. */
  function FindOpenTile(g: GridState, doors: Registry.Reg<Door>, rng: SimRng.RngState): (r: (Vec2, SimRng.RngState))
    ensures IsPassable(g, r.0, doors) || (r.0 == Vec2(1, 1) && r.1 == Advance(rng, 2 * OpenTileAttempts))
    ensures IsPassable(g, r.0, doors) && g.width >= 3 && g.height >= 3 ==>
              1 <= r.0.x <= g.width - 2 && 1 <= r.0.y <= g.height - 2
  {
    OpenTileFrom(g, doors, rng, 0)
  }

  /** On a grid with nothing passable every attempt fails: the answer is
      (1, 1) after two thousand draws. */
  lemma {:induction false} NoOpenTile(g: GridState, doors: Registry.Reg<Door>, rng: SimRng.RngState, attempts: nat)
    requires attempts <= OpenTileAttempts
    requires forall x: int, y: int :: !IsPassable(g, Vec2(x, y), doors)
    ensures OpenTileFrom(g, doors, rng, attempts) == (Vec2(1, 1), Advance(rng, 2 * (OpenTileAttempts - attempts)))
    decreases OpenTileAttempts - attempts
  {
    if attempts < OpenTileAttempts {
      var rollX := SimRng.NextIntFixed(rng, 1, g.width - 2);
      var rollY := SimRng.NextIntFixed(rollX.state, 1, g.height - 2);
      assert !IsPassable(g, Vec2(rollX.value, rollY.value), doors);
      NoOpenTile(g, doors, rollY.state, attempts + 1);
      assert Advance(rng, 2 * (OpenTileAttempts - attempts)) == Advance(rollY.state, 2 * (OpenTileAttempts - attempts - 1));
    }
  }
}
