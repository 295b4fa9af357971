/** Tuning constants of the raid kernel. */
module Config {

  // Grid layout
  const RoomWidth: int := 8
  const RoomHeight: int := 8
  const RoomCount: int := 5
  const CorridorWidth: int := 1

  // Power economy
  const PowerStart: int := 120
  const MaintenancePerDrone: int := 1
  const LowPowerThreshold: int := 0
  const LowPowerMovePenalty: int := 1
  const LowPowerTurnsToFail: int := 2
  const LowPowerHackDisabled: bool := true

  // Action limits
  const MoveMax: int := 3
  const DashMax: int := 6
  const BackpackSlots: int := 8
  const SealedItemLimit: int := 1

  // Action costs
  const CostDash: int := 1
  const CostShoot: int := 1
  const CostReload: int := 1
  const CostUseItem: int := 1
  const CostHack: int := 2
  const CostForceDoor: int := 2
  const CostSealAction: int := 1
  const CostSealExtra: int := 5

  // Cover reduction by cover level
  const CoverHalf: int := 1
  const CoverFull: int := 2

  // Power restored by using a console
  const ConsolePowerRestore: int := 10
}
