/** Doors and consoles: adjacency, opening doors by hacking or forcing,
    draining a console for power, and what object a tile holds. */
module Doors {
  import opened Common
  import opened State
  import opened Schemas
  import opened Grid
  import Registry
  import Config

  /** `isAdjacent`: the same cell or one of its four neighbours. */
  function IsAdjacent(a: Vec2, b: Vec2): (r: bool)
    ensures r <==> Manhattan(a, b) <= 1
  {
    var dx := Abs(a.x - b.x);
    var dy := Abs(a.y - b.y);
    dx + dy == 1 || (dx == 0 && dy == 0)
  }

  /** `tryOpenDoor`: fails with `missing`, `not_adjacent` or `already_open`
      in that order of checking; otherwise unlocks and opens the door. */
  function TryOpenDoor(s: GameState, unit: Unit, doorId: string, via: DoorMethod): (r: (GameState, bool, seq<Event>))
    ensures r.1 <==> doorId in s.doors.m && IsAdjacent(unit.pos, s.doors.m[doorId].pos) && !s.doors.m[doorId].open
    ensures !r.1 ==> r.0 == s && r.2 == [HackFailed(doorId,
              if doorId !in s.doors.m then "missing"
              else if !IsAdjacent(unit.pos, s.doors.m[doorId].pos) then "not_adjacent"
              else "already_open")]
    ensures r.1 ==> r.0 == s.(doors := r.0.doors) && r.0.doors.keys == s.doors.keys && r.2 == [DoorOpened(doorId, via)]
    ensures r.1 ==> r.0.doors.m == s.doors.m[doorId := s.doors.m[doorId].(locked := false, open := true)]
  {
    match Registry.Get(s.doors, doorId)
    case None => (s, false, [HackFailed(doorId, "missing")])
    case Some(door) =>
      if !IsAdjacent(unit.pos, door.pos) then (s, false, [HackFailed(doorId, "not_adjacent")])
      else if door.open then (s, false, [HackFailed(doorId, "already_open")])
      else (s.(doors := Registry.Put(s.doors, doorId, door.(locked := false, open := true))), true, [DoorOpened(doorId, via)])
  }

  /** Opening succeeds at most once: a second attempt reports `already_open`
      and changes nothing; and the door's floor tile becomes passable. */
  lemma OpenDoorOnce(s: GameState, unit: Unit, doorId: string, via: DoorMethod, again: DoorMethod, p: Vec2)
    requires TryOpenDoor(s, unit, doorId, via).1
    ensures var s1 := TryOpenDoor(s, unit, doorId, via).0;
            TryOpenDoor(s1, unit, doorId, again) == (s1, false, [HackFailed(doorId, "already_open")])
    ensures var s1 := TryOpenDoor(s, unit, doorId, via).0;
            (GetTile(s.grid, p).Some? && GetTile(s.grid, p).value.terrain == Floor &&
             GetTile(s.grid, p).value.doorId == Some(doorId)) ==> IsPassable(s1.grid, p, s1.doors)
  {
  }

  /** `tryUseConsole`: fails with `missing`, `not_adjacent` or `used`;
      otherwise marks the console used and restores power, reported as a
      negative consumption. */
  function TryUseConsole(s: GameState, unit: Unit, consoleId: string): (r: (GameState, bool, seq<Event>))
    ensures r.1 <==> consoleId in s.consoles.m && IsAdjacent(unit.pos, s.consoles.m[consoleId].pos) && !s.consoles.m[consoleId].used
    ensures !r.1 ==> r.0 == s && r.2 == [HackFailed(consoleId,
              if consoleId !in s.consoles.m then "missing"
              else if !IsAdjacent(unit.pos, s.consoles.m[consoleId].pos) then "not_adjacent"
              else "used")]
    ensures r.1 ==> r.0 == s.(consoles := r.0.consoles, power := s.power + Config.ConsolePowerRestore)
    ensures r.1 ==> r.0.consoles.keys == s.consoles.keys && r.0.consoles.m == s.consoles.m[consoleId := s.consoles.m[consoleId].(used := true)]
    ensures r.1 ==> r.2 == [HackSucceeded(consoleId), PowerConsumed(-Config.ConsolePowerRestore, "console")]
  {
    match Registry.Get(s.consoles, consoleId)
    case None => (s, false, [HackFailed(consoleId, "missing")])
    case Some(c) =>
      if !IsAdjacent(unit.pos, c.pos) then (s, false, [HackFailed(consoleId, "not_adjacent")])
      else if c.used then (s, false, [HackFailed(consoleId, "used")])
      else
        (s.(consoles := Registry.Put(s.consoles, consoleId, c.(used := true)), power := s.power + Config.ConsolePowerRestore),
         true,
         [HackSucceeded(consoleId), PowerConsumed(-Config.ConsolePowerRestore, "console")])
  }

  /** A console pays out once: using it twice raises power by exactly the restore amount. */
  lemma ConsoleOnce(s: GameState, unit: Unit, consoleId: string)
    ensures var s1 := TryUseConsole(s, unit, consoleId).0;
            var s2 := TryUseConsole(s1, unit, consoleId).0;
            !TryUseConsole(s1, unit, consoleId).1 &&
            s2.power == s.power + (if TryUseConsole(s, unit, consoleId).1 then Config.ConsolePowerRestore else 0)
  {
  }

  datatype ObjectKind = DoorObject | ConsoleObject | CrateObject
  datatype ObjectRef = ObjectRef(kind: ObjectKind, id: string)

  /** `getObjectAt`: the tile's door, else its console, else its crate, by truthy id. */
  function ObjectAt(s: GameState, pos: Vec2): (o: Option<ObjectRef>)
    ensures o.Some? ==> GetTile(s.grid, pos).Some?
    ensures o.Some? && o.value.kind == DoorObject ==> GetTile(s.grid, pos).value.doorId == Some(o.value.id) && o.value.id != ""
    ensures o.Some? && o.value.kind == ConsoleObject ==>
              !Truthy(GetTile(s.grid, pos).value.doorId) && GetTile(s.grid, pos).value.consoleId == Some(o.value.id) && o.value.id != ""
    ensures o.Some? && o.value.kind == CrateObject ==>
              !Truthy(GetTile(s.grid, pos).value.doorId) && !Truthy(GetTile(s.grid, pos).value.consoleId) &&
              GetTile(s.grid, pos).value.crateId == Some(o.value.id) && o.value.id != ""
    ensures o.None? <==> (GetTile(s.grid, pos).None? ||
                          (!Truthy(GetTile(s.grid, pos).value.doorId) && !Truthy(GetTile(s.grid, pos).value.consoleId) &&
                           !Truthy(GetTile(s.grid, pos).value.crateId)))
  {
    match GetTile(s.grid, pos)
    case None => None
    case Some(t) =>
      if Truthy(t.doorId) then Some(ObjectRef(DoorObject, t.doorId.value))
      else if Truthy(t.consoleId) then Some(ObjectRef(ConsoleObject, t.consoleId.value))
      else if Truthy(t.crateId) then Some(ObjectRef(CrateObject, t.crateId.value))
      else None
  }

  /** `canHack`: hacking is refused while low power is active, because the
      configuration disables it then. */
  function CanHack(s: GameState): (r: bool)
    ensures r <==> !s.lowPower.active
  {
    !(s.lowPower.active && Config.LowPowerHackDisabled)
  }
}
