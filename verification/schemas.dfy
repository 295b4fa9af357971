/** The wire vocabulary of the turn kernel: per-unit commands, the events a
    step emits, and the observation a client receives. */
module Schemas {
  import opened Common
  import opened State

  datatype Phase = CommandPhase | ExecutePhase | ResolutionPhase

  /** What a command asks its unit to do, with the command's parameters. */
  datatype Action =
    | Move(path: seq<Vec2>)
    | Dash(path: seq<Vec2>)
    | Shoot(targetId: string)
    | Reload
    | Hack(objectId: string, force: bool)
    | UseItem(itemId: string, useTargetId: Option<string>, targetPos: Option<Vec2>)
    | Loot(crateId: string)
    | Seal(itemId: string)
    | Extract

  /** A command addressed to one unit by id (enemy commands reuse the shape). */
  datatype Command = Command(droneId: string, action: Action)

  predicate IsMovement(c: Command) {
    c.action.Move? || c.action.Dash?
  }

  datatype DoorMethod = ByHack | ByForce

  datatype Event =
    | MovementResolved(unitId: string, from: Vec2, to: Vec2, success: bool)
    | ShotFired(attackerId: string, targetId: string, damage: int)
    | DamageApplied(targetId: string, amount: int, hpLeft: int)
    | StatusApplied(targetId: string, statusId: StatusId, turns: int)
    | DoorOpened(doorId: string, via: DoorMethod)
    | HackSucceeded(objectId: string)
    | HackFailed(objectId: string, reason: string)
    | LootPicked(unitId: string, crateId: string, items: seq<string>)
    | SealSucceeded(unitId: string, itemId: string)
    | SealFailed(unitId: string, reason: string)
    | ExtractionSuccess(unitId: string)
    | MissionFailed(reason: string)
    | PowerConsumed(amount: int, reason: string)
    | CommandFailed(unitId: string, reason: string)
    | PowerLow(turns: int)
}
