# Raid kernel of the Scalar tactics game, in Dafny

This project models the deterministic core of a turn-based squad tactics
game. Four drones raid a row of rooms joined by corridors. Each turn the
player gives one command per drone, the enemy AI adds its own commands,
and `step` resolves all of them at once. The modelled behaviour is:

- power upkeep and the low-power counter;
- action prices;
- deduplication;
- movement in id order;
- shooting, hacking, looting, item use and extraction;
- deferred damage with knockback, heals, statuses and smoke;
- sealing;
- status and smoke timers;
- the failure checks at the end of a turn.

Around that kernel it models:

- **Raid generation:** the seeded generator, the room-by-room grid builder and the initial roster.
- **Observation:** the player's view of the state after a step.
- **Station:** the meta-progression held between raids, from `simBridge.ts`: upgrades, weapon cycling, seeds, dialogue, log unlocks, loot recovery and the start of a raid.
- **Canonical JSON:** the text `stableStringify` writes, which replay hashes are computed from.
- **Day loop:** the clamped-delta game of `scalar/src/core/sim.ts`.
- **Small generator:** the xorshift generator of `src/core/rng.ts`.

Conventions:

- **Purity.** Every operation is a pure function. In-place mutation becomes a new state returned together with the events pushed.
- **Records.** A JavaScript record keyed by id is a `Registry.Reg`: a map plus the key insertion order that `Object.values` walks.
- **Errors.** Where the source throws, the model returns `Err` of a `Fault`. Examples are an unknown catalog id, an empty `pickOne` and a weapon without `maxAmmo`.
- **Static data.** The JSON data files are not modelled; the catalog of items, chassis, enemies and room templates is a parameter. A `new Map` built from a list finds the last entry with a given id, and the catalog lookups do the same.
- **32-bit words.** JavaScript's `| 0`, `>>>`, `<<` and `Math.imul` are modelled as `bv32` arithmetic.
- **Integers.** All other numbers are unbounded integers.
- **Remainder.** JavaScript's truncating `%` is `Station.JsRem`.
- **Random rolls.** Every random roll of the day loop is a boolean parameter holding the roll's outcome.

Behaviour of the code, as written, that the model keeps:

- Enemy shots always fail. `step` looks up a shooter's weapon through its loadout (`getUnitWeapon`), and enemies are created without one. So an enemy SHOOT command from the AI ends in `CommandFailed "no_weapon"`. The enemy branch of SHOOT is never reached (`Step.EnemyShotsFail`).
- Negative power rejects free commands. With power below zero, even a free MOVE or EXTRACT is rejected for insufficient power (`Power.NegativePowerRejectsFreeCommands`).
- One-turn smoke never appears. Smoke laid this turn is ticked in the same turn, so a one-turn smoke grenade leaves no smoke behind (`Smoke.OneTurnSmokeClears`).
- Commands resolve in queue order, not fully sorted. After movement, non-movement commands resolve in queue order: the approved player commands come first, sorted by drone id, and then the enemy commands in registry order.

## Model

| member | source | states |
|---|---|---|
| SimRng.CreateRng | scalar/src/sim/rng.ts:8-21 | the four state words chain SplitMix32 from the seed: a is SplitMix32 of the seed's 32-bit word, and b, c and d are SplitMix32 of the word before |
| SimRng.SeedModular | scalar/src/sim/rng.ts:8-9 | seeds that differ by 2^32 give the same 32-bit seed word (`| 0` wraps) |
| SimRng.CreateRngModular | scalar/src/sim/rng.ts:8-21 | seeds that differ by 2^32 seed the identical generator state |
| SimRng.NextRng | scalar/src/sim/rng.ts:23-33 | the raw draw is an unsigned 32-bit number; the counter word d advances by one and a becomes b ^ (b >>> 9) |
| SimRng.ValueRange | scalar/src/sim/rng.ts:32 | the fraction raw / 0xffffffff lies in [0, 1] and equals 1 exactly on the raw draw 0xffffffff |
| SimRng.NextInt | scalar/src/sim/rng.ts:36-41 | the state after `nextInt` is the state after one `nextRng` |
| SimRng.ScaleAsWrittenRange | scalar/src/sim/rng.ts:38-39 | floor(raw / 0xffffffff * span) + min stays in [min, max + 1] and is max + 1 exactly on the largest raw draw |
| SimRng.ScaleFixedRange | scalar/src/sim/rng.ts:38-39 | scaling with the divisor 2^32 instead stays in [min, max] |
| SimRng.NextIntRange | scalar/src/sim/rng.ts:36-41 | as written, `nextInt(min, max)` lies in [min, max + 1] and returns max + 1 exactly when the raw draw is 0xffffffff |
| SimRng.NextIntOvershoots | scalar/src/sim/rng.ts:32-39 | a concrete state whose next raw draw is 0xffffffff makes `nextInt(0, 9)` return 10 |
| SimRng.PickOne | scalar/src/sim/rng.ts:43-49 | an empty list throws; a successful pick advances the state by one draw and returns a member of the list |
| SimRng.PickOneUndefined | scalar/src/sim/rng.ts:43-49 | on a non-empty list the as-written pick indexes past the end (no element) exactly on the raw draw 0xffffffff |
| SimRng.NextIntFixed | scalar/src/sim/rng.ts:36-41 | corrected `nextInt`: same state advance, and the value always lies in [min, max] when min <= max |
| SimRng.PickOneFixed | scalar/src/sim/rng.ts:43-49 | corrected `pickOne`: fails exactly on the empty list, otherwise advances one draw and returns a member |
| XorShift.Next | src/core/rng.ts:9-14 | `next()` performs the 13/17/5 xorshift step and its raw output is an unsigned 32-bit number |
| XorShift.FractionRange | src/core/rng.ts:13 | raw / 2^32 lies in [0, 1) |
| XorShift.ZeroAbsorbing | src/core/rng.ts:7-14 | a seed that is a multiple of 2^32 holds the zero word, which draws 0 and stays 0 |
| XorShift.NonZeroStaysNonZero | src/core/rng.ts:10-12 | the xorshift step maps a non-zero word to a non-zero word |
| XorShift.Int | src/core/rng.ts:18-24 | `int(min, max)` throws exactly when floor(max) < ceil(min); otherwise the result lies in [ceil(min), floor(max)] and the state advances one step |
| XorShift.ScaleBelow | src/core/rng.ts:23 | floor(raw / 2^32 * span) lies in [0, span) |
| Common.NatToString | scalar/src/sim/state.ts:221-222 | the decimal rendering of a number used inside an id is a non-empty run of digits |
| Common.NatToStringInjective | scalar/src/sim/state.ts:221-222 | different numbers render to different decimal strings |
| Common.NumberedIdInjective | scalar/src/sim/state.ts:251-252 | a fixed prefix followed by the rendered number identifies the number |
| Registry.Empty | scalar/src/sim/state.ts:203 | a fresh object has no keys and is a well-formed registry |
| Registry.GetPut | scalar/src/sim/state.ts:319-324 | reading a key after assigning it yields the assigned value, and assigning one key leaves every other key's reading unchanged |
| Registry.Put | scalar/src/sim/state.ts:221 | assigning a key stores the value; an existing key keeps its place in insertion order and a new key goes last; well-formedness is kept |
| Registry.ValuesOf | scalar/src/sim/state.ts:265 | `Object.values` lists the stored values in key insertion order, one per key |
| Registry.MapValues | scalar/src/sim/rules/combat.ts:165-171 | mapping every value keeps the keys and their order and applies the function to each stored value |
| Order.LessIrreflexive | scalar/src/sim/state.ts:275 | no id sorts before itself |
| Order.LessTransitive | scalar/src/sim/state.ts:275 | the string order used for id sorting is transitive |
| Order.LessTotal | scalar/src/sim/state.ts:275 | any two different ids are ordered one way or the other |
| Order.LessAsymmetric | scalar/src/sim/state.ts:275 | the id order is asymmetric |
| Order.LessAntisymmetric | scalar/src/sim/state.ts:275 | two ids neither of which sorts before the other are equal |
| Order.Insert | scalar/src/sim/rules/power.ts:32 | inserting an element keeps every element and adds exactly the new one |
| Order.SortBy | scalar/src/sim/rules/power.ts:32 | sorting by key is a permutation of the input |
| Order.InsertSorted | scalar/src/sim/rules/power.ts:32 | inserting into a sorted list keeps it sorted |
| Order.SortBySorted | scalar/src/sim/step.ts:268 | the sorted list is ordered by key |
| Order.SortedUnique | scalar/src/sim/step.ts:268 | with distinct keys there is only one sorted permutation, so any sorting routine agrees with this one |
| State.FindItem | scalar/src/sim/state.ts:182 | a catalog lookup succeeds exactly when some entry has the id, and returns the LAST such entry, as a Map built from the list does |
| State.FindDrone | scalar/src/sim/state.ts:183 | a drone template is found exactly when some template has that id; it is the LAST template with that id |
| State.FindEnemy | scalar/src/sim/state.ts:184 | an enemy template is found exactly when some template has that id; it is the LAST template with that id |
| State.GetItem | scalar/src/sim/state.ts:186-192 | `getItem` throws an unknown-item error exactly when no catalog item has the id; otherwise it returns the LAST catalog item with that id |
| State.CreateWeaponState | scalar/src/sim/state.ts:297-307 | a weapon starts with full ammo equal to the item's maxAmmo; an item without maxAmmo (absent or zero) throws |
| State.CreateConsumableState | scalar/src/sim/state.ts:309-313 | a consumable exists exactly when the item does, and its charges default to 1 |
| State.GetUnit | scalar/src/sim/state.ts:319-325 | `getUnit` throws a missing-unit error exactly when the id is absent; otherwise it returns the stored unit |
| State.PutUnit | scalar/src/sim/step.ts:339-345 | writing a unit back changes only that registry entry and nothing else of the state |
| Grid.GetTile | scalar/src/sim/rules/grid.ts:154-167 | a tile is returned only for an in-bounds position, and it is `tiles[y * width + x]`; on a grid of width * height tiles every in-bounds position has one |
| Grid.GetTileCoordinates | scalar/src/sim/rules/grid.ts:24-30 | on a grid laid out row by row, the tile found for (x, y) carries the coordinates x and y |
| Grid.PassableMeans | scalar/src/sim/rules/grid.ts:169-182 | a cell is passable exactly when it is an in-bounds floor tile and, if it names a door, that door is registered and open; out of bounds is never passable |
| Grid.TransparentImpliesPassable | scalar/src/sim/rules/grid.ts:169-202 | when every door id on the grid is registered, a transparent cell is passable |
| Grid.CoverReduction | scalar/src/sim/rules/grid.ts:204-210 | cover reduction is 2 exactly on full cover, 1 exactly on half cover, and 0 off the grid or without cover |
| Grid.LosLoopWalk | scalar/src/sim/rules/grid.ts:229-247 | the line-of-sight loop succeeds exactly when every cell it visits, apart from the start, is transparent |
| Grid.LosMeansTrace | scalar/src/sim/rules/grid.ts:212-248 | `lineOfSight` holds exactly when every cell of the traced line other than `from` is transparent |
| Grid.WalkLength | scalar/src/sim/rules/grid.ts:222-245 | the traced walk has one cell per remaining count, starts at the current cell and ends at the target |
| Grid.WalkInBox | scalar/src/sim/rules/grid.ts:223-244 | every traced cell lies in the box spanned by the two endpoints |
| Grid.WalkAdjacent | scalar/src/sim/rules/grid.ts:238-244 | consecutive traced cells are one orthogonal step apart |
| Grid.TraceShape | scalar/src/sim/rules/grid.ts:212-248 | the line from `from` to `to` has 1 + Manhattan distance cells, starts at `from`, ends at `to`, stays in the bounding box and moves one orthogonal step at a time |
| Grid.LosEndpoints | scalar/src/sim/rules/grid.ts:229-237 | a cell always sees itself, and a cell seen from elsewhere is itself transparent |
| Pathfind.NeighbourMeans | scalar/src/sim/rules/grid.ts:261-266 | the four directions reach exactly the cells at Manhattan distance 1 |
| Pathfind.PassableInCells | scalar/src/sim/rules/grid.ts:282-284 | only cells of the grid can be enqueued, because only in-bounds cells are passable |
| Pathfind.Expand | scalar/src/sim/rules/grid.ts:276-287 | expanding one cell only appends to the queue, only adds parent links, adds only grid cells, and enqueues nothing when it links nothing |
| Pathfind.ExpandCorrect | scalar/src/sim/rules/grid.ts:276-287 | expanding the head cell keeps the breadth-first invariant: parent links form a tree of walks from the start, distances along the queue never decrease, and every passable neighbour of the head is linked at most one step further |
| Pathfind.SearchCorrect | scalar/src/sim/rules/grid.ts:268-288 | the breadth-first loop keeps the invariant to the end, and stops early only with the target at the head |
| Pathfind.SearchProgress | scalar/src/sim/rules/grid.ts:268-288 | each iteration either links a new grid cell or advances the head, so the loop ends |
| Pathfind.ExhaustedCoversWalks | scalar/src/sim/rules/grid.ts:268-288 | once the queue is exhausted, every cell reachable by a passable walk from the start has a parent link |
| Pathfind.LevelBound | scalar/src/sim/rules/grid.ts:268-288 | a cell reachable in k steps, where k is at most the head's distance, is linked with distance at most k |
| Pathfind.ReconstructCorrect | scalar/src/sim/rules/grid.ts:294-301 | following parent links back from a linked cell and reversing gives a passable walk from the start to that cell of exactly its distance |
| Pathfind.FindPathCorrect | scalar/src/sim/rules/grid.ts:250-302 | `findPath` returns `[from]` when the target is unreachable; otherwise a passable walk from `from` to `to` no longer than any other such walk |
| RaidGrid.GridWidth | scalar/src/sim/rules/grid.ts:22 | with at least one room the grid is at least one room wide |
| RaidGrid.LastRoomIndex | scalar/src/sim/rules/grid.ts:36 | the index found carries the id and no later room among the first `n` does, and -1 means no room among them carries it |
| RaidGrid.FindRoom | scalar/src/sim/rules/grid.ts:36 | a room lookup by id finds a room with that id exactly when one exists, and it is the LAST room with that id, as a `Map` built from the list keeps the later entry |
| RaidGrid.ChooseTemplate | scalar/src/sim/rules/grid.ts:40-55 | the first, second, third and last rooms take their named template without drawing; the first room is `start` when it exists; every other room draws once from the non-reserved rooms (or all rooms) and fails only when there are no rooms at all |
| RaidGrid.PickLoot | scalar/src/sim/rules/grid.ts:145-150 | `count` picks, each a stack of some loot item with its id and size; picking at least once fails exactly when there is no loot item |
| RaidGrid.RollCrateLoot | scalar/src/sim/rules/grid.ts:138-152 | a crate holds between `minItems` and `maxItems` stacks |
| RaidGrid.ApplyChar | scalar/src/sim/rules/grid.ts:123-136 | a template character makes the tile a wall exactly when it is `#`, and never moves the tile or its door id |
| RaidGrid.PlaceCell | scalar/src/sim/rules/grid.ts:58-90 | stamping one cell changes only that tile, never the doors; only an `L` cell draws from the generator and adds a crate, and it fails exactly when there is no loot item |
| RaidGrid.StampRows | scalar/src/sim/rules/grid.ts:58-91 | stamping a room changes tiles only inside the room's columns, keeps tile coordinates and door ids, and fails when the template has too few rows |
| RaidGrid.Corridor | scalar/src/sim/rules/grid.ts:93-110 | the corridor column after a room becomes wall except for one floor tile in the middle row carrying `door-(roomIndex+1)`, registered closed and locked on even rooms; nothing outside the column changes |
| RaidGrid.BuildRoom | scalar/src/sim/rules/grid.ts:40-110 | one room changes tiles only between its own offset and the next room's, adds its corridor door unless it is the last room, and keeps crates stocked and door ids registered |
| RaidGrid.BuildRooms | scalar/src/sim/rules/grid.ts:40-111 | the room loop changes tiles only from the current room's offset on, keeps crates stocked and keeps every door id on a tile registered |
| RaidGrid.BuildRoomsDoors | scalar/src/sim/rules/grid.ts:93-110 | after the room loop the doors are exactly `door-1` .. `door-(roomCount-1)` in order, one per corridor |
| RaidGrid.BuildRaidGrid | scalar/src/sim/rules/grid.ts:10-121 | the grid is `roomCount` rooms plus corridors wide and one room high, with one tile per cell laid out row by row; with no rooms nothing is placed and the generator is untouched |
| RaidGrid.DoorKeysDistinct | scalar/src/sim/rules/grid.ts:100 | the door ids `door-1`, `door-2`, .. are pairwise different |
| RaidGrid.DoorsUpToMeans | scalar/src/sim/rules/grid.ts:100-109 | the first n corridor doors form a well-formed registry keyed `door-1` .. `door-n`, each at its corridor's middle row, closed, and locked on even room indices |
| RaidGrid.DoorsUpToOnly | scalar/src/sim/rules/grid.ts:100-109 | every registered door id is one of the corridor door ids |
| RaidGrid.CorridorSurvives | scalar/src/sim/rules/grid.ts:40-111 | a corridor, once built, is not overwritten by any later room |
| RaidGrid.CorridorTiles | scalar/src/sim/rules/grid.ts:93-103 | in the finished grid every corridor cell is wall except the middle-row door tile, which is floor and names its door |
| RaidGrid.CorridorsSealed | scalar/src/sim/rules/grid.ts:93-109 | no corridor cell of a freshly built raid is passable: walls block, and every corridor door starts closed |
| RaidGrid.DoorsOnTheirTiles | scalar/src/sim/rules/grid.ts:100-109 | every registered door is closed, sits on a corridor's middle row with the right lock parity, and its tile names it |
| RaidGrid.LayoutInvariants | scalar/src/sim/rules/grid.ts:10-121 | a built raid registers every door id that appears on a tile, stocks every crate with two or three stacks, and holds exactly the corridor doors `door-1` onwards in order |
| RaidGrid.OpenTileFrom | scalar/src/sim/rules/grid.ts:309-320 | the attempt loop returns a passable cell, inside the border when the grid is at least 3 by 3, or falls back to (1, 1) after drawing twice per remaining attempt |
| RaidGrid.FindOpenTile | scalar/src/sim/rules/grid.ts:304-321 | `findOpenTile` returns a passable cell or, after 1000 failed attempts of two draws each, (1, 1) |
| RaidGrid.NoOpenTile | scalar/src/sim/rules/grid.ts:310-320 | on a grid without passable cells the fallback (1, 1) is returned after exactly 2000 draws |
| Combat.CanShoot | scalar/src/sim/rules/combat.ts:21-33 | a shot is possible exactly when the target is within range (an absent range never blocks) and every cell of the line after the attacker's is transparent; so a target elsewhere stands on a transparent cell |
| Combat.StatusTurns | scalar/src/sim/rules/combat.ts:157 | a status id is found exactly when some entry carries it, and the turns reported are those of an entry with that id |
| Combat.StatusTurnsFirst | scalar/src/sim/rules/combat.ts:157 | the turns found are those of the FIRST entry carrying the id, as `find` returns it |
| Combat.ApplyStatus | scalar/src/sim/rules/combat.ts:156-163 | `applyStatus` raises the first entry's turns to at least `turns`, or appends a new entry when none has the id; every other status is unchanged |
| Combat.ApplyStatusPointwise | scalar/src/sim/rules/combat.ts:156-163 | existing entries keep their ids in place and never lose turns; a new status is appended at the end |
| Combat.ApplyStatusKeeps | scalar/src/sim/rules/combat.ts:156-163 | unique status ids stay unique, active statuses stay active, and a positive-turn status becomes active |
| Combat.TickStatusList | scalar/src/sim/rules/combat.ts:167-169 | ticking never lengthens the list and leaves only entries with positive turns |
| Combat.TickStatusListAppend | scalar/src/sim/rules/combat.ts:165-171 | ticking works entry by entry: a list ticks as its parts do, one after the other, and one entry survives one turn shorter exactly when it had more than one turn; so survivors keep their order |
| Combat.TickStatusListFrom | scalar/src/sim/rules/combat.ts:167-169 | every surviving entry is an original entry with one turn fewer |
| Combat.TickStatusListActive | scalar/src/sim/rules/combat.ts:167-169 | a status is active after the tick exactly when it had more than one turn left before |
| Combat.TickStatusListUnique | scalar/src/sim/rules/combat.ts:167-169 | ticking keeps status ids unique |
| Combat.TickStatuses | scalar/src/sim/rules/combat.ts:165-171 | `tickStatuses` ticks every unit's statuses and changes nothing else |
| Combat.ApplyMarked | scalar/src/sim/rules/combat.ts:173-179 | an unmarked target keeps its cover reduction; a marked one loses the half-cover amount, never below zero |
| Combat.CountActive | scalar/src/sim/rules/combat.ts:181-183 | the count of active entries of a status is positive exactly when the status is active |
| Combat.ShredStacks | scalar/src/sim/rules/combat.ts:181-183 | SHRED stacks are positive exactly when SHRED is active, and at most one with unique status ids |
| Combat.BuildDamage | scalar/src/sim/rules/combat.ts:35-61 | the damage is max(0, base - armor after SHRED - cover after MARKED), never above the base; the status on hit is the source's; knockback is set exactly for an enemy source with positive knockback |
| Combat.DamageMonotoneInArmor | scalar/src/sim/rules/combat.ts:50-51 | more armor never increases the damage taken |
| Combat.MarkedNeverHelps | scalar/src/sim/rules/combat.ts:49 | becoming MARKED never reduces the damage taken |
| Combat.OpenGroundFullDamage | scalar/src/sim/rules/combat.ts:48-51 | a target without armor or cover takes the full base damage (zero if the base is negative) |
| Combat.GroupOrder | scalar/src/sim/rules/combat.ts:69-74 | the grouping map's keys are the distinct targets of the hits, in order of first appearance |
| Combat.StatusesFor | scalar/src/sim/rules/combat.ts:92-101 | the statuses applied to a target are exactly the on-hit statuses of its hits |
| Combat.ApplyStatuses | scalar/src/sim/rules/combat.ts:92-101 | applying a target's on-hit statuses keeps active statuses, activates every positive-turn one and keeps ids unique |
| Combat.GroupEvents | scalar/src/sim/rules/combat.ts:82-101 | a group emits a damage event with the total and the hit points left exactly when the total is non-zero, and one status event per on-hit status, all naming the target |
| Combat.ApplyGroups | scalar/src/sim/rules/combat.ts:76-103 | running the groups keeps the registry keys; a target named in a group is hit, every other unit is untouched |
| Combat.ApplyGroupsTouched | scalar/src/sim/rules/combat.ts:76-91 | the returned set holds exactly the grouped targets present in the registry whose total is non-zero |
| Combat.ApplyGroupsEvents | scalar/src/sim/rules/combat.ts:85-100 | events name only grouped targets present in the registry, and each damage event reports the target's total and final hit points |
| Combat.TotalAbsent | scalar/src/sim/rules/combat.ts:81 | a unit no hit names has total zero |
| Combat.ApplyDamage | scalar/src/sim/rules/combat.ts:63-106 | `applyDamage` changes only hit points and statuses; a unit with non-zero total loses it, never below zero; the damaged set is exactly the present units with non-zero total; events carry the totals and the hit points left |
| Combat.AllGroups | scalar/src/sim/rules/combat.ts:63-106 | grouping over all targets of the hits touches exactly the units with a non-zero total and leaves other hit points alone |
| Combat.DamageStatuses | scalar/src/sim/rules/combat.ts:92-101 | after `applyDamage` every previously active status is still active, and every positive-turn status carried by a hit on a present unit is active on it |
| Combat.DamageNeverHeals | scalar/src/sim/rules/combat.ts:81-83 | with non-negative amounts hit points only go down and stay non-negative |
| Combat.KnockbackDirection | scalar/src/sim/rules/combat.ts:144-154 | there is no direction exactly when source and target coincide; otherwise it is one unit step, horizontal exactly when the x distance dominates (ties go horizontal), and it leads one step further away |
| Combat.PushSteps | scalar/src/sim/rules/combat.ts:126-140 | a push of strength k moves m <= k steps in the direction, through passable unoccupied cells only, stopping early only before a blocked or occupied cell; the occupied set swaps the old cell for the new one |
| Combat.KnockbackFrom | scalar/src/sim/rules/combat.ts:114-141 | the knockback loop changes only unit positions |
| Combat.ApplyKnockback | scalar/src/sim/rules/combat.ts:108-142 | `applyKnockback` changes only unit positions and keeps the registry keys |
| Combat.NoKnockbackNoMove | scalar/src/sim/rules/combat.ts:115-117 | hits without positive knockback move nobody |
| Combat.MoveKeepsSeparated | scalar/src/sim/rules/combat.ts:136-140 | moving a living unit to a free cell keeps living units on distinct cells and updates the occupied set accordingly |
| Combat.KnockbackFromKeeps | scalar/src/sim/rules/combat.ts:114-141 | knockback keeps living units on distinct cells, and every unit either stays or ends on a passable cell |
| Combat.PushOne | scalar/src/sim/rules/combat.ts:122-140 | pushing one living unit keeps units apart, and the threaded occupied set stays the set of living units' cells |
| Combat.KnockbackKeepsApart | scalar/src/sim/rules/combat.ts:108-142 | starting from living units on distinct cells, `applyKnockback` keeps them distinct and moves units only onto passable cells |
| Commands.Filter | scalar/src/sim/step.ts:245-248 | a filter keeps exactly the elements satisfying the predicate, drawn from the input |
| Commands.FilterOne | scalar/src/sim/step.ts:245-248 | a one-element list keeps its element exactly when the predicate holds for it |
| Commands.FilterAppend | scalar/src/sim/step.ts:245-248 | filtering a concatenation is the concatenation of the filtered parts, so with FilterOne the kept elements appear in input order |
| Commands.FilterPartition | scalar/src/sim/step.ts:57-58 | filtering by a predicate and by its negation splits the list into two parts that together are a permutation of it |
| Commands.DedupeFrom | scalar/src/sim/step.ts:252-264 | every command is either kept or reported as a duplicate; kept commands come from the input and belong to drones not seen before; every event is a `duplicate_command` failure |
| Commands.DedupeFromDistinct | scalar/src/sim/step.ts:255-262 | the kept commands address pairwise different drones |
| Commands.DedupeFromCovers | scalar/src/sim/step.ts:255-262 | every drone with a command is either already seen or keeps one |
| Commands.DedupeKeepsFirst | scalar/src/sim/step.ts:255-262 | each kept command is the FIRST command in the input for its drone |
| Commands.DedupeReportsKept | scalar/src/sim/step.ts:256-259 | every `duplicate_command` report names a unit already seen or one that keeps a command |
| Commands.DedupeDistinct | scalar/src/sim/step.ts:252-264 | a list whose drones are already distinct and unseen passes through unchanged with no events |
| Commands.Dedupe | scalar/src/sim/step.ts:252-264 | `dedupeCommands` keeps one command per drone, drawn from the input, covering every drone that sent one, and reports one failure per dropped command |
| Commands.DedupeIdempotent | scalar/src/sim/step.ts:252-264 | deduplicating a deduplicated list changes nothing and reports nothing |
| Commands.Sanitize | scalar/src/sim/step.ts:240-250 | `sanitizePlayerCommands` keeps only commands for registered drones, one per drone, and every registered drone that sent a command keeps one; every drone command is either kept or answered with one `duplicate_command` failure naming a drone that kept a command |
| Commands.SanitizeKeepsFirst | scalar/src/sim/step.ts:240-262 | first wins: every kept command is the first command in the input for its drone |
| Commands.ToDronesFirst | scalar/src/sim/step.ts:244-247 | filtering to drone commands keeps, for each drone, its first command of the whole input first |
| Commands.MoveCommands | scalar/src/sim/step.ts:57 | the movement list holds only MOVE and DASH commands of the input |
| Commands.OtherCommands | scalar/src/sim/step.ts:58 | the other list holds only non-movement commands of the input |
| Commands.SplitInOrder | scalar/src/sim/step.ts:57-58 | both the movement list and the other list keep queue order: each splits over concatenation and a single command lands in exactly one of them |
| Commands.SplitIsPartition | scalar/src/sim/step.ts:57-58 | the movement and other lists together are a permutation of all commands |
| Power.CountAliveDronesIsCardinality | scalar/src/sim/rules/power.ts:6-8 | over distinct keys the filtered count is the number of living drones among them |
| Power.AliveDroneCount | scalar/src/sim/rules/power.ts:6-8 | the living-drone count over `Object.values` is the number of living drones in the registry |
| Power.ApplyMaintenance | scalar/src/sim/rules/power.ts:5-14 | `applyMaintenance` lowers power by the maintenance price per living drone, changes nothing else, and reports a `maintenance` event exactly when power changed |
| Power.UpdateLowPower | scalar/src/sim/rules/power.ts:16-25 | low power is active exactly at or below the threshold; then the counter grows by one and is reported, otherwise it resets to zero silently |
| Power.LowPowerCounts | scalar/src/sim/rules/power.ts:16-25 | the counter stays consistent with the flag, starts at 1 when low power begins, and counts consecutive low turns |
| Power.Trait | scalar/src/sim/rules/power.ts:95-104 | a trait is zero for non-drones and for drones without a template |
| Power.HackCost | scalar/src/sim/rules/power.ts:80-85 | a hack always costs at least 1 |
| Power.ActionPowerCost | scalar/src/sim/rules/power.ts:55-78 | moves and extraction are free; a forced hack costs the force price and any other hack at least 1; a seal costs the seal price plus the extra; shoot, reload and use-item cost 1; nothing costs less than zero |
| Power.JammedHackCostsMore | scalar/src/sim/rules/power.ts:80-85 | JAMMED never lowers the hack price, and adds exactly one when the price was above the floor |
| Power.Approve | scalar/src/sim/rules/power.ts:35-50 | the approval loop never raises power, never drives non-negative power below zero, and approves nothing when power starts negative |
| Power.ApproveDrawsFrom | scalar/src/sim/rules/power.ts:36-39 | approved commands come from the input and address living units |
| Power.ApproveCharges | scalar/src/sim/rules/power.ts:40-49 | power after approval is the starting power minus the summed price of the approved commands |
| Power.ApproveEvents | scalar/src/sim/rules/power.ts:41-48 | the loop emits only positive `action` power events and `insufficient_power` failures |
| Power.ApproveKeepsOrder | scalar/src/sim/rules/power.ts:32-49 | commands approved from a sorted list stay sorted by drone id |
| Power.ApproveStep | scalar/src/sim/rules/power.ts:40-49 | one loop iteration: an affordable first command is approved and paid for, any other leaves power and approvals to the rest of the loop |
| Power.ApproveSubsequence | scalar/src/sim/rules/power.ts:35-49 | the approved commands keep the relative order they had in the input |
| Power.ApproveOrReject | scalar/src/sim/rules/power.ts:36-48 | every command of a living drone is either approved or answered with an `insufficient_power` failure for that drone |
| Power.ApplyActionPowerCosts | scalar/src/sim/rules/power.ts:27-53 | `applyActionPowerCosts` changes only power; it runs the approval loop over some id-sorted permutation of the commands; approved commands come from the input, address living units, are sorted by drone id and are paid for exactly; non-negative power stays non-negative and never rises; negative power approves nothing |
| Power.PaidOrRejected | scalar/src/sim/rules/power.ts:27-53 | each command of a living drone is approved or rejected with `insufficient_power`, and the approved list is an order-preserving sublist of the id-sorted commands |
| Power.NegativePowerRejectsFreeCommands | scalar/src/sim/rules/power.ts:41-44 | with negative power even a free MOVE or EXTRACT is rejected for insufficient power, since 0 > power |
| Doors.IsAdjacent | scalar/src/sim/rules/doors.ts:6-10 | adjacency means Manhattan distance at most 1 (the same cell counts) |
| Doors.TryOpenDoor | scalar/src/sim/rules/doors.ts:12-36 | a door opens exactly when it exists, is adjacent and is closed; it is then unlocked and open and reported with the method; otherwise nothing changes and one `HackFailed` names the first failing check (`missing`, `not_adjacent`, `already_open`) |
| Doors.OpenDoorOnce | scalar/src/sim/rules/doors.ts:28-33 | an opened door cannot be opened again, and a floor tile naming it becomes passable |
| Doors.TryUseConsole | scalar/src/sim/rules/doors.ts:38-62 | a console is used exactly when it exists, is adjacent and is unused; it is then marked used, power rises by the restore amount and two events are reported; otherwise nothing changes and one `HackFailed` names the failing check |
| Doors.ConsoleOnce | scalar/src/sim/rules/doors.ts:53-58 | a console restores power at most once |
| Doors.ObjectAt | scalar/src/sim/rules/doors.ts:64-79 | the object on a tile is its door if it names one, else its console, else its crate, else none; off the grid there is none |
| Doors.CanHack | scalar/src/sim/rules/doors.ts:81-86 | hacking is possible exactly when low power is not active (the disable flag is on) |
| Loot.SizeOfAppend | scalar/src/sim/rules/loot.ts:5-7 | the used size of two stacks lists is the sum of their sizes |
| Loot.CanFit | scalar/src/sim/rules/loot.ts:9-11 | a stack fits exactly when used space plus its size is within capacity |
| Loot.LootLoop | scalar/src/sim/rules/loot.ts:26-33 | each crate stack is either picked into the backpack, appended after the old contents, or left; together the two lists are the crate's stacks; a backpack within capacity stays within it |
| Loot.LootLoopMaximal | scalar/src/sim/rules/loot.ts:26-33 | every item left behind does not fit the final backpack (with non-negative sizes) |
| Loot.LootLoopInOrder | scalar/src/sim/rules/loot.ts:26-33 | the picked stacks and the stacks left behind each keep crate order |
| Loot.TryLoot | scalar/src/sim/rules/loot.ts:13-45 | without an inventory or adjacency nothing is picked; otherwise the picked stacks are exactly those the item loop picks, and when any are picked the backpack is the loop's backpack, the crate keeps exactly the loop's leftovers and is marked opened, and one `LootPicked` event lists the picked ids; nothing picked changes nothing |
| Loot.TryLootGreedy | scalar/src/sim/rules/loot.ts:24-44 | what `tryLoot` picks and what it leaves keep crate order, and with non-negative sizes no stack left in the crate would still fit the backpack |
| Loot.LootRespectsCapacity | scalar/src/sim/rules/loot.test.ts:6-32 | with capacity 4, a size-2 stack is taken and the size-4 stack that no longer fits stays in the crate |
| Loot.FindStack | scalar/src/sim/rules/loot.ts:60 | the index found is the first stack with the item id, and none is found exactly when no stack has it |
| Loot.TrySeal | scalar/src/sim/rules/loot.ts:47-70 | sealing succeeds exactly when there is an inventory, nothing sealed yet and a stack with the item; then the FIRST stack with that id moves to the sealed slot and the other stacks keep their order; each failure reports its reason |
| Loot.SealOnce | scalar/src/sim/rules/loot.ts:56-59 | after a successful seal any further seal fails with `already_sealed` |
| Extraction.CanExtract | scalar/src/sim/rules/extraction.ts:5-8 | extraction is possible exactly when the unit stands on an extraction tile |
| Extraction.ApplyExtraction | scalar/src/sim/rules/extraction.ts:10-16 | on an extraction tile the mission becomes EXTRACTED and success is reported; elsewhere nothing changes |
| Extraction.ExtractionIdempotent | scalar/src/sim/rules/extraction.ts:10-16 | extracting twice equals extracting once, and nothing but the mission changes |
| Effects.HealOne | scalar/src/sim/step.ts:338-345 | a heal on a missing or dead target or with a non-positive amount does nothing; otherwise the target's hit points become `min(maxHp, hp + amount)` and one `DamageApplied` with the negated amount and the new hit points is reported; nothing else changes |
| Effects.ApplyHeals | scalar/src/sim/step.ts:337-346 | `applyHeals` changes only hit points; dead units stay dead; a unit within its maximum is healed upward but never above `maxHp`; at most one event per heal, each a negative `DamageApplied` |
| Effects.ApplyHealsPerUnit | scalar/src/sim/step.ts:337-346 | every unit ends with the hit points its own heals give it when applied one at a time in queue order, whatever the heals for other units |
| Effects.StatusOne | scalar/src/sim/step.ts:353-360 | a status entry for a present unit applies the status by `applyStatus` and reports it; an entry for a missing unit does nothing |
| Effects.ApplyStatusEntries | scalar/src/sim/step.ts:348-361 | `applyStatuses` changes only statuses and reports at most one event per entry |
| Effects.StatusEntriesTakeHold | scalar/src/sim/step.ts:348-361 | active statuses stay active, and every positive-turn entry for a present unit leaves its status active |
| Effects.SealOne | scalar/src/sim/step.ts:385-398 | a non-SEAL command or one for a missing or dead unit does nothing; a living unit that took damage gets `SealFailed` with `took_damage` and is unchanged; any other living unit becomes what `trySeal` makes of it, with its events; only that unit's inventory can change |
| Effects.ResolveSeals | scalar/src/sim/step.ts:379-399 | `resolveSeals` changes only inventories; a damaged unit and a unit without a SEAL command are untouched |
| Effects.ResolveSealsPerUnit | scalar/src/sim/step.ts:379-399 | a living unit that took no damage ends as its own SEAL commands, tried in order with `trySeal`, leave it; a dead or damaged unit is untouched |
| Effects.DamagedSealsFail | scalar/src/sim/step.ts:389-392 | every SEAL command of a living unit that took damage is answered with `SealFailed` `took_damage` for that unit |
| Effects.IsSquadWiped | scalar/src/sim/step.ts:412-414 | the squad is wiped when no unit of the drone faction has hit points left |
| Effects.SquadWipedMeansNoLivingDrone | scalar/src/sim/step.ts:412-414 | the squad is wiped exactly when no living drone remains |
| Effects.RepairBonus | scalar/src/sim/step.ts:420-426 | the repair bonus is the chassis' bonus (default 0) for a drone with a template, and 0 otherwise |
| Smoke.Thicken | scalar/src/sim/step.ts:372 | smoke on a hit tile becomes the larger of the old and new turns |
| Smoke.SmokeRowMeans | scalar/src/sim/step.ts:366-374 | the inner loop thickens exactly the in-grid tiles of its row, from its column on, within the radius |
| Smoke.SmokeRowsMeans | scalar/src/sim/step.ts:365-375 | the row loop thickens exactly the in-grid tiles within the radius from its row on |
| Smoke.SmokeEntryMeans | scalar/src/sim/step.ts:364-376 | one smoke entry thickens exactly the in-grid tiles within Manhattan radius of its centre |
| Smoke.ApplySmokeMeans | scalar/src/sim/step.ts:363-377 | `applySmoke` changes only smoke; a tile no entry reaches is unchanged; a reached tile holds at least each reaching entry's turns; smoke never thins |
| Smoke.TickTile | scalar/src/sim/step.ts:402-409 | a tick lowers smoke by one and removes it when it reaches zero or was not positive |
| Smoke.TickSmoke | scalar/src/sim/step.ts:401-410 | `tickSmoke` ticks every tile and keeps the grid's shape |
| Smoke.TickKeepsSight | scalar/src/sim/step.ts:401-410 | ticking never makes a transparent cell opaque and never changes passability |
| Smoke.OneTurnSmokeClears | scalar/src/sim/step.ts:363-410 | smoke of at most one turn, laid this turn, is gone after the same turn's tick |
| Smoke.SmokeTurnsBound | scalar/src/sim/step.ts:363-377 | laying smoke never exceeds the largest duration involved |
| Movement.IsPathValid | scalar/src/sim/step.ts:311-328 | a path is valid when it is non-empty, starts on the unit's cell and every step moves to a 4-neighbour |
| Movement.IsPathValidLoop | scalar/src/sim/step.ts:311-328 | the early exits and the step loop of `isPathValid` accept exactly the valid paths |
| Movement.AllowedSteps | scalar/src/sim/step.ts:284-286 | a move may take its full limit (dash or move) without low power, and that limit less the low-power penalty with it, never below zero |
| Movement.Reach | scalar/src/sim/step.ts:289-295 | the destination loop stops at the last cell of an unbroken run of passable cells |
| Movement.PathDistance | scalar/src/sim/step.ts:311-328 | on a valid path the cell after m steps is at most m away from the start |
| Movement.Destination | scalar/src/sim/step.ts:283-295 | the destination is within the allowed steps; every cell up to it is passable, and the walk stops early only before an impassable cell |
| Movement.MoveOne | scalar/src/sim/step.ts:269-307 | a missing or dead unit is skipped silently; an EMP'd unit fails with `emp`; an invalid path reports an unsuccessful move in place; a destination equal to the start reports success in place; an occupied destination reports failure in place; otherwise the unit moves there, the occupied set trades its old cell for the new one and a successful move is reported; only that unit's position ever changes |
| Movement.MoveOneLegal | scalar/src/sim/step.ts:270-307 | a unit moves only if it is alive, not EMP'd and its path is valid, and then onto a free passable cell within its allowed steps, reporting success |
| Movement.MoveOneStays | scalar/src/sim/step.ts:278-302 | a living, active unit that does not move gets one `MovementResolved` from its cell to itself, successful exactly when its path was valid and led nowhere |
| Movement.MoveOneApart | scalar/src/sim/step.ts:300-306 | a move keeps units on distinct cells, and the occupied set stays the set of unit cells |
| Movement.MoveLoop | scalar/src/sim/step.ts:269-308 | the movement loop changes only positions, and only of units with a command |
| Movement.MoveLoopApart | scalar/src/sim/step.ts:269-308 | the movement loop keeps units on distinct cells |
| Movement.MoveLoopPassable | scalar/src/sim/step.ts:269-308 | every unit either stays or ends on a passable cell |
| Movement.ResolveMovement | scalar/src/sim/step.ts:266-309 | `resolveMovement` changes only positions and reports at most one event per command |
| Movement.ResolveMovementInIdOrder | scalar/src/sim/step.ts:266-268 | `resolveMovement` runs the per-command loop over an id-sorted permutation of the commands, starting with every unit's cell occupied |
| Movement.MovementKeepsApart | scalar/src/sim/step.ts:266-309 | starting from units on distinct cells, movement keeps them distinct and moves units only onto passable cells |
| Ai.LivingOf | scalar/src/sim/rules/ai.ts:7-12 | every unit picked is a living unit of the asked faction taken from the registry |
| Ai.LivingOfIsFilter | scalar/src/sim/rules/ai.ts:7-12 | the living units of a faction are exactly `Object.values` of the registry filtered by faction and positive hit points, in registry order |
| Ai.PickFrom | scalar/src/sim/rules/ai.ts:54-63 | the scan finds nothing only when it had no candidate, and otherwise returns the running best or one of the drones |
| Ai.PickNearestTarget | scalar/src/sim/rules/ai.ts:51-65 | `pickNearestTarget` returns nothing exactly for an empty drone list, and otherwise one of the drones |
| Ai.PickFromBest | scalar/src/sim/rules/ai.ts:54-63 | no drone scanned, and not the starting best, beats the pick on (distance, id) |
| Ai.BetterAsymmetric | scalar/src/sim/rules/ai.ts:55-62 | the (distance, id) preference is asymmetric |
| Ai.NotBetterTransitive | scalar/src/sim/rules/ai.ts:55-62 | not being preferred is transitive, so the scan's running best is a true minimum |
| Ai.PickNearestIsNearest | scalar/src/sim/rules/ai.ts:51-65 | the pick is at least as close as every drone, and among equally close drones has the least id |
| Ai.MovePath | scalar/src/sim/rules/ai.ts:38 | the move path is the first min(4, length) cells of the found path |
| Ai.EnemyCommandDecides | scalar/src/sim/rules/ai.ts:24-43 | for an enemy not under EMP that sees a drone, with the target the nearest drone: a SHOOT at that target exactly when the template exists and its weapon's range and sight reach it (`HoldsPosition` does not stop a shot); otherwise a MOVE exactly when the enemy is not a turret or camera (`HoldsPosition`) and the first four cells of the shortest path number more than one, and the move's path is exactly those cells |
| Ai.HoldsPosition | scalar/src/sim/rules/ai.ts:25 | turrets (any role containing `turret`) and cameras hold their position |
| Ai.EnemyCommand | scalar/src/sim/rules/ai.ts:17-45 | an EMP'd enemy or one with no target issues nothing; a shot goes to a drone the enemy's template weapon can hit; a move is issued only by a mobile enemy, starts at its cell, takes 1 to 3 steps and walks passable adjacent cells |
| Ai.CommandsFor | scalar/src/sim/rules/ai.ts:16-46 | the commands are the enemies' decisions that are not "nothing", in the order of the enemies, so at most one per enemy |
| Ai.CommandFromEnemy | scalar/src/sim/rules/ai.ts:16-46 | each command is the decision of one of the enemies, which is not under EMP and is the command's unit |
| Ai.BuildEnemyCommands | scalar/src/sim/rules/ai.ts:6-49 | the result is the decision of each living enemy against the living drones, in registry order, with the empty decisions dropped; every command comes from a living, non-EMP'd enemy of the registry |
| Ai.EnemyCommandsSound | scalar/src/sim/rules/ai.ts:6-49 | every enemy shot targets a living drone, and every enemy move starts at its own cell and walks passable cells |
| Observe.Inventories | scalar/src/sim/observe.ts:26-33 | every summary belongs to a drone with an inventory, holding its id, the load by `getBackpackUsed` and its capacity; there are at most as many summaries as units |
| Observe.InventoriesAppend | scalar/src/sim/observe.ts:26-33 | the summaries follow the units in order, exactly one per drone with an inventory and none for any other unit |
| Observe.DoorState | scalar/src/sim/observe.ts:39 | a door reads "open" exactly when open, and "locked" exactly when closed and locked |
| Observe.VisibleObjects | scalar/src/sim/observe.ts:34-53 | there is one visible object per door, console and crate |
| Observe.BuildObservation | scalar/src/sim/observe.ts:5-55 | the observation copies turn, phase, seed, power, low-power state and grid; holds one summary per unit in registry order; its inventories are the per-drone summaries of `Observe.Inventories` and its objects those of `Observe.VisibleObjects` |
| Observe.ObservationHidesSecrets | scalar/src/sim/observe.ts:5-55 | the observation does not depend on the random-number state or the mission record |
| Step.UnitWeapon | scalar/src/sim/step.ts:330-335 | a unit without a loadout has no weapon; otherwise the result is the catalog entry of its primary weapon, and an unknown id is an error |
| Step.ShootCommand | scalar/src/sim/step.ts:77-123 | a missing or dead target fails with "invalid_target" and a unit without a weapon with "no_weapon", both changing nothing; the shot faults exactly when the weapon id is unknown; any shot changes only the shooter and queues at most one damage entry, for a living target |
| Step.DroneShot | scalar/src/sim/step.ts:88-105 | a drone's shot fails with "empty_ammo" on an empty magazine and with "no_los" out of range or sight, changing nothing; otherwise it spends exactly one round, reports `ShotFired` with the weapon's damage and queues the `buildDamage` hit |
| Step.EnemyShot | scalar/src/sim/step.ts:106-121 | an enemy's shot changes no unit; it queues and reports the template weapon's hit when the template exists and reaches the target, and does nothing otherwise |
| Step.ShotSpendsOneRound | scalar/src/sim/step.ts:88-105 | for a drone, the magazine afterwards plus the hits queued equals the magazine before, and a hit is queued exactly when a shot is reported |
| Step.HackCommand | scalar/src/sim/step.ts:131-147 | a hack under low power fails with "low_power"; otherwise a forced hack is `tryOpenDoor` by force, a plain hack of a door id is `tryOpenDoor` by hack, and any other id is `tryUseConsole`; it changes only doors, consoles and power, and raises power only through a console's restore |
| Step.FindConsumable | scalar/src/sim/step.ts:161-163 | the first consumable with the item id and charges left; none exactly when there is no such consumable |
| Step.QueueEffectAddsOne | scalar/src/sim/step.ts:170-188 | an item's effect queues exactly one entry: one of the heal, status and smoke queues grows by one at its end, the damage queue never; a heal or status aims at the given target or else the user, and smoke centres on the given cell or else the user's cell |
| Step.UseItemCommand | scalar/src/sim/step.ts:156-190 | without a loadout the use fails with "no_items", without a charged item with "missing_item"; otherwise it faults exactly when the item is unknown, and else spends one charge of the first matching consumable, changes no other unit, and queues the item's effect (built for the user after the spend), or nothing for an item without one |
| Step.RunCommand | scalar/src/sim/step.ts:67-198 | a missing or dead unit does nothing; an EMP'd unit fails with "emp"; otherwise SHOOT, HACK, USE_ITEM and EXTRACT go to their handlers, LOOT of a known crate runs `tryLoot` and stores both unit and crate, RELOAD refills the primary magazine to `maxAmmo` (nothing without a loadout); move, dash and seal are not handled here; no unit other than the commanding one changes |
| Step.RunCommands | scalar/src/sim/step.ts:67-198 | the command loop keeps the frame and leaves units without a command untouched |
| Step.EnemyShotsFail | scalar/src/sim/step.ts:77-87 | an active enemy's shot at a living target fails with "no_weapon", because enemies carry no loadout |
| Step.Recover | scalar/src/sim/step.ts:212-215 | low power is switched off, with its turns reset, once power rises above the threshold, and nothing else changes |
| Step.EndMission | scalar/src/sim/step.ts:217-229 | a mission in progress fails exactly when low power has lasted long enough or the squad is wiped, and a squad wipe overrides "power_out" as the reason; a decided mission is untouched |
| Step.Resolve | scalar/src/sim/step.ts:48-229 | resolution keeps turn, seed, RNG state, unit keys and grid shape; leaves low power active only at or below the threshold; and leaves a mission in progress only if no failure condition holds |
| Step.Step | scalar/src/sim/step.ts:36-238 | a decided mission is returned unchanged with no events; the observation always describes the next state |
| Step.StepAdvances | scalar/src/sim/step.ts:36-238 | a step of a mission in progress advances the turn by one and keeps seed, unit keys and grid shape, and its outcome honours the failure rules |
| Step.DecidedMissionIsFinal | scalar/src/sim/step.ts:40-46 | once the mission is decided, stepping is the identity for any further commands |
| Init.FromUnits | scalar/src/sim/state.ts:203 | filling the units record gives a well-formed registry whose every entry is stored under its own id |
| Init.FromUnitsAt | scalar/src/sim/state.ts:203-263 | for distinct ids the registry's keys are the units' ids in insertion order and each id maps to its unit |
| Init.FromUnitsValues | scalar/src/sim/state.ts:203-263 | for distinct ids `Object.values` of the record gives back the units in insertion order |
| Init.StartLoadout | scalar/src/sim/state.ts:217-220 | the starting kit is a full arc rifle, a full sidearm, the two start modules and one repair foam and one smoke canister; it exists exactly when all four catalog entries do |
| Init.SquadMember | scalar/src/sim/state.ts:221-229 | squad member `index` is the drone `drone-(index+1)` with no statuses |
| Init.SquadMemberMeans | scalar/src/sim/state.ts:212-241 | a missing chassis template fails with `MissingDroneTemplate` before any weapon is looked up; otherwise the drone takes the template's hp and armor at full health, the kit, and an empty backpack of the standard size |
| Init.Squad | scalar/src/sim/state.ts:212-242 | a built squad has one drone per chassis |
| Init.SquadFails | scalar/src/sim/state.ts:212-242 | the squad is built exactly when every member can be |
| Init.SquadAt | scalar/src/sim/state.ts:212-242 | the i-th built drone is squad member i |
| Init.Enemies | scalar/src/sim/state.ts:244-263 | one enemy per room after the first, each with the next id, standing at its room's post, with no statuses, loadout or inventory, built from a catalog template at full health and carrying the template's role; it fails exactly for an empty enemy catalog |
| Init.OpeningTarget | scalar/src/sim/state.ts:273-275 | the opening target is a living enemy with the least id, and there is none exactly when no enemy lives |
| Init.ApplyOpeningMark | scalar/src/sim/state.ts:265-279 | without a scout or a target the units are unchanged; otherwise only the target gains the MARKED status |
| Init.Populate | scalar/src/sim/state.ts:201-295 | the built layout's grid, doors, consoles, crates and extraction tile are carried over unchanged, the raid opens at turn 1 with the start power and the mission in progress, and it fails exactly when the catalog does not furnish the roster |
| Init.CreateInitialState | scalar/src/sim/state.ts:194-295 | a new raid starts at turn 1 with the start power, low power off, the mission in progress and the grid's fixed size; it fails exactly when the grid cannot be built or the catalog does not furnish the roster, and otherwise is the built layout populated |
| Init.DroneIdInjective | scalar/src/sim/state.ts:221 | distinct squad indices give distinct drone ids |
| Init.EnemyIdInjective | scalar/src/sim/state.ts:251 | distinct counters give distinct enemy ids |
| Init.DroneIsNotEnemy | scalar/src/sim/state.ts:221-251 | no drone id is an enemy id |
| Init.InitialIdsDistinct | scalar/src/sim/state.ts:203-263 | the starting ids are pairwise distinct, so no unit overwrites another in the record |
| Init.RosterIds | scalar/src/sim/state.ts:212-263 | the roster's ids are the four drone ids followed by the enemy ids |
| Init.RosterUnmarked | scalar/src/sim/state.ts:229-259 | every unit starts without statuses |
| Init.RosterFails | scalar/src/sim/state.ts:212-263 | the roster is built exactly when every chassis is in the catalog, the starting kit exists and the enemy catalog is not empty |
| Init.FurnishedMeans | scalar/src/sim/state.ts:212-263 | the roster is built, from any random state, exactly when every squad chassis, both start weapons with their ammo, both start consumables and at least one enemy template are in the catalog |
| Init.RosterDrone | scalar/src/sim/state.ts:212-242 | drone i is `drone-(i+1)` of chassis i at start position i with the template's hp and armor, the kit and an empty backpack |
| Init.RosterEnemy | scalar/src/sim/state.ts:244-263 | enemy j is `enemy-(j+1)` at room j+1's post, built from a catalog template |
| Init.OpeningTargetMeans | scalar/src/sim/state.ts:273-275 | for distinct ids, a unit is the opening target exactly when it is a living enemy with the least id |
| Init.InitialUnits | scalar/src/sim/state.ts:203-279 | the starting units of a populated layout are the roster put into a registry and then marked, with the starting ids as keys |
| Init.InitialUnitAt | scalar/src/sim/state.ts:203-279 | the unit stored under the i-th starting id is roster unit i, with MARKED added if and only if it is the opening target and a scout is present |
| Init.InitialMark | scalar/src/sim/state.ts:265-279 | a starting unit carries a status exactly when a scout is present and it is the living enemy with the least id, and then only MARKED |
| Station.WeaponIds | scalar/src/game/simBridge.ts:24-25 | the weapon list holds exactly the ids of catalog weapons for that slot |
| Station.WeaponIdsAppend | scalar/src/game/simBridge.ts:24-25 | the weapon list follows catalog order, one id per weapon item of the slot and none for any other item |
| Station.InitialStation | scalar/src/game/simBridge.ts:36-47 | a new station has power budget 120, backpack 8, next seed 1, dialogue 0, no logs, no loot, and the first weapon of each slot, falling back to "arc-rifle" and "sidearm" |
| Station.InitialStationInv | scalar/src/game/simBridge.ts:36-47 | the new station satisfies the station invariant |
| Station.UpgradePower | scalar/src/game/simBridge.ts:59-61 | upgrading power raises only the power budget and keeps the invariant |
| Station.UpgradeBackpack | scalar/src/game/simBridge.ts:63-65 | upgrading the backpack raises only its capacity and keeps the invariant |
| Station.UpgradesAccumulate | scalar/src/game/simBridge.ts:59-65 | n power upgrades add 5n, n backpack upgrades add n, and the two upgrades commute |
| Station.IndexOf | scalar/src/game/simBridge.ts:71 | `findIndex` gives the first position of the id, or -1 exactly when it is absent |
| Station.CycleWeapon | scalar/src/game/simBridge.ts:67-77 | an empty list keeps the current weapon; otherwise the result is in the list, and an unknown current weapon moves to the first entry |
| Station.CycleWeaponAt | scalar/src/game/simBridge.ts:71-75 | from the first occurrence of entry k the cycle moves to entry k+1, wrapping round |
| Station.CycleWeaponTimesAt | scalar/src/game/simBridge.ts:67-77 | over a list of distinct ids, n cycles from entry k land on entry (k+n) mod length |
| Station.CycleWeaponReturns | scalar/src/game/simBridge.ts:67-77 | cycling as many times as there are weapons returns to the starting weapon |
| Station.CyclePrimaryWeapon | scalar/src/game/simBridge.ts:67-77 | cycling the primary changes only the primary weapon and returns the new selection |
| Station.CycleSecondaryWeapon | scalar/src/game/simBridge.ts:79-89 | cycling the secondary changes only the secondary weapon and returns the new selection |
| Station.GetNextSeed | scalar/src/game/simBridge.ts:100-104 | the seed handed out is the stored one, and the stored seed moves on by one; nothing else changes |
| Station.DrawSeedsConsecutive | scalar/src/game/simBridge.ts:100-104 | n draws hand out n consecutive, hence distinct, seeds |
| Station.JsRem | scalar/src/game/simBridge.ts:110-111 | JavaScript's `%`: the remainder satisfies the division identity, and is in [0, abs(b)) for a non-negative dividend |
| Station.NextDialogueIndex | scalar/src/game/simBridge.ts:106-113 | a non-positive maximum gives 0 and changes nothing; otherwise index and stored index stay below the maximum and nothing else changes |
| Station.DialogueCycles | scalar/src/game/simBridge.ts:106-113 | consecutive dialogue indices step by one modulo the maximum |
| Station.FirstLocked | scalar/src/game/simBridge.ts:116 | the first log not yet unlocked; none exactly when every log is unlocked |
| Station.UnlockLog | scalar/src/game/simBridge.ts:115-122 | with every log unlocked nothing changes; otherwise the first locked log is appended to the unlocked list and returned |
| Station.UnlockLogs | scalar/src/game/simBridge.ts:124-134 | at most `count` logs, each previously locked and non-empty, are returned, and they (plus an empty id that stopped the loop) are the only additions |
| Station.UnlockLogsDistinct | scalar/src/game/simBridge.ts:115-134 | unlocking keeps the unlocked list free of duplicates |
| Station.FirstSealed | scalar/src/game/simBridge.ts:145-148 | there is no sealed item exactly when no drone carries a non-empty sealed item id |
| Station.FirstSealedMeans | scalar/src/game/simBridge.ts:145-152 | the sealed item recovered is that of the first drone, in unit order, that has one |
| Station.CarriedMeans | scalar/src/game/simBridge.ts:157-165 | an item id is collected exactly when some drone carries it in its backpack or sealed slot |
| Station.CollectLoot | scalar/src/game/simBridge.ts:157-165 | the collection loop gathers exactly the carried items, drone by drone |
| Station.RecordRaidOutcome | scalar/src/game/simBridge.ts:144-167 | a failed raid recovers only the first sealed item, if any; any other outcome recovers everything the drones carry; nothing else changes |
| Station.ApplyUpgrades | scalar/src/game/simBridge.ts:176 | an upgraded raid starts with the station's power budget |
| Station.StartRaid | scalar/src/game/simBridge.ts:170-190 | a raid starts only from a valid initial state and with the station's power budget |
| Station.UpgradedUnit | scalar/src/game/simBridge.ts:176-188 | only power and drones change: each drone's backpack takes the station capacity and each armed drone gets the selected weapons |
| Station.UpgradesFail | scalar/src/game/simBridge.ts:184-187 | with an armed drone present the upgrades fail exactly when a selected weapon cannot be built, the primary's fault first |
| Station.InitialArmed | scalar/src/sim/state.ts:221-235 | whenever the catalog furnishes the roster, the first starting drone carries a loadout |
| Station.StartRaidFails | scalar/src/game/simBridge.ts:170-190 | starting a raid fails exactly when the initial state or either selected weapon cannot be built, with the initial state's fault first, then the primary's, then the secondary's |
| CanonicalJson.EscapeChar | scalar/src/game/simBridge.ts:260 | each character is written as at least one character of JSON string text |
| CanonicalJson.Quote | scalar/src/game/simBridge.ts:260 | `JSON.stringify` of a key or string is wrapped in double quotes |
| CanonicalJson.EscapeCharRoundTrip | scalar/src/game/simBridge.ts:260 | reading back one escaped character gives that character and leaves the rest of the text to be read |
| CanonicalJson.EscapeAllRoundTrip | scalar/src/game/simBridge.ts:260 | unescaping the escaped text of a string gives the string back |
| CanonicalJson.QuoteRoundTrip | scalar/src/game/simBridge.ts:260 | unquoting a quoted string gives the string back |
| CanonicalJson.QuoteInjective | scalar/src/game/simBridge.ts:260 | distinct keys are written as distinct texts |
| CanonicalJson.SortFields | scalar/src/game/simBridge.ts:256-258 | sorting keeps the number of entries and only reorders them |
| CanonicalJson.PermDistinctKeys | scalar/src/game/simBridge.ts:256-258 | reordering the entries keeps the keys distinct |
| CanonicalJson.SortedKeys | scalar/src/game/simBridge.ts:256-258 | after sorting, the keys are strictly increasing and are the same keys as before |
| CanonicalJson.StrictlyIncreasingUnique | scalar/src/game/simBridge.ts:256-258 | two strictly increasing key lists with the same keys are equal, so the sorted order is unique |
| CanonicalJson.SortedKeysAgree | scalar/src/game/simBridge.ts:256-258 | two objects with the same keys sort them into the same order |
| CanonicalJson.SameValueSameText | scalar/src/game/simBridge.ts:251-265 | values that agree up to the order of object entries are written as the same text |
| CanonicalJson.SameValueReflexive | scalar/src/game/simBridge.ts:251-265 | every well-formed value agrees with itself |
| CanonicalJson.KeyOrderIrrelevant | scalar/src/game/simBridge.ts:251-265 | an object's text does not depend on the order its entries were inserted in |
| DayLoop.Clamp | scalar/src/core/sim.ts:82-84 | the result lies in [lo, hi] when that range is non-empty, equals n inside it and the nearer bound outside it; with lo above hi the lower bound wins |
| DayLoop.InitDayFlags | scalar/src/core/sim.ts:67-72 | a day starts in lockdown exactly when heat is at least 40, with the trace disarmed |
| DayLoop.Latest | scalar/src/core/sim.ts:76-78 | the kept log is the last min(length, 200) lines, in order |
| DayLoop.AppendLog | scalar/src/core/sim.ts:74-80 | appending changes only the log, which ends with the new line stamped with the current day and keeps the latest lines before it, at most 200 in all |
| DayLoop.LatestAppend | scalar/src/core/sim.ts:76-78 | trimming before appending more lines and trimming again is the same as trimming once at the end |
| DayLoop.AppendAllLatest | scalar/src/core/sim.ts:74-80 | appending entries one by one leaves the last 200 lines of the old log followed by the stamped entries |
| DayLoop.IsFail | scalar/src/core/sim.ts:91-95 | the run is lost to heat exactly when heat is at least 100, to vitals exactly when heat is below 100 and vitals are at most 0, and otherwise not lost |
| DayLoop.IsWin | scalar/src/core/sim.ts:86-89 | the run is won when all three ending parts are held |
| DayLoop.IsWinMeans | scalar/src/core/sim.ts:86-89 | winning means holding every ending part there is |
| DayLoop.StepAndCheckEnd | scalar/src/core/sim.ts:350-360 | the run ends exactly on a failure or a win; it is won only when it has not failed; the state is returned unchanged |
| DayLoop.WinNeedsNoFailure | scalar/src/core/sim.ts:350-360 | holding all three ending parts ends the run, and it counts as a win exactly when no failure holds |
| DayLoop.Gauge | scalar/src/core/sim.ts:100-104 | a gauge moved by a delta stays within 0..100, equals the sum inside that range, and never moves against the delta |
| DayLoop.Stock | scalar/src/core/sim.ts:108-110 | a resource moved by a delta never goes negative and equals the sum when that is non-negative |
| DayLoop.ApplyExtractOutcome | scalar/src/core/sim.ts:97-125 | heat, vitals, stress, trust and integrity each become old value plus delta clamped into [0, 100]; power, supplies and parts each become old value plus delta raised to at least 0; day and log are kept; exactly the obtained ending part is added; the drone is down when the outcome or the old state says so |
| DayLoop.NoChangeFixesBounded | scalar/src/core/sim.ts:97-125 | the empty outcome leaves a state unchanged exactly when the state is already in range |
| DayLoop.ExtractKeepsWin | scalar/src/core/sim.ts:120-122 | ending parts are never lost, so a won state stays won |
| DayLoop.ApplyHazardOutcome | scalar/src/core/sim.ts:266-281 | a hazard leaves the inventory, day and log alone, keeps gauges in range and downs the drone when asked |
| DayLoop.HazardIsExtract | scalar/src/core/sim.ts:266-281 | a hazard acts as the extraction with its deltas and nothing gained exactly when no resource is negative |
| DayLoop.ApplyCombatOutcome | scalar/src/core/sim.ts:327-348 | a skirmish keeps the state in range, the ending parts, day and log, and downs the drone when asked |
| DayLoop.CombatIsExtract | scalar/src/core/sim.ts:327-348 | a skirmish acts exactly as the extraction with the same deltas and no part |
| DayLoop.HalfUp | scalar/src/core/sim.ts:173 | the result is half the heat gain rounded up |
| DayLoop.SimulateExtract | scalar/src/core/sim.ts:138-183 | success pays the heat gain and the reward, adds a point of trust exactly when trust is at least 60, and grants the part; failure pays the stress, half the heat gain rounded up and never negative, loses the integrity penalty whatever its sign, and downs the drone exactly when the projected integrity reaches 0 |
| DayLoop.FailedExtract | scalar/src/core/sim.ts:138-183 | after a failed extraction, integrity never rises, a drone at 0 integrity is down, and resources in range are unchanged |
| DayLoop.ExtractCompletesSet | scalar/src/core/sim.ts:120-122 | a successful extraction of the last missing part wins the run |
| DayLoop.ApplyMoveCost | scalar/src/core/sim.ts:185-194 | moving changes only heat and power; heat stays in range; power never goes negative, never rises, is untouched by a non-positive cost and drops by the cost when it can be paid |
| DayLoop.LockdownChance | scalar/src/core/sim.ts:209-211 | the lockdown chance is below 1, and positive exactly when heat is at least 40 |
| DayLoop.LockdownChanceMonotone | scalar/src/core/sim.ts:209-211 | a hotter state never has a smaller lockdown chance |
| DayLoop.SimulateMove | scalar/src/core/sim.ts:196-223 | a move is blocked exactly when heat is at least 40 and the roll succeeds; a block costs 2 more heat and 1 more power and sets the lockdown flag; power never rises; time and combat pass through |
| DayLoop.NoLockdownWhenCool | scalar/src/core/sim.ts:209 | below 40 heat the roll does not matter |
| DayLoop.LockdownFlagOfDay | scalar/src/core/sim.ts:67-72 | with the day's own flags, the lockdown flag after a move is set exactly when heat is at least 40 |
| DayLoop.LockdownCostsMore | scalar/src/core/sim.ts:209-216 | a blocked move costs exactly 2 more heat and at most 1 more power than a free one |
| DayLoop.MoveNeverRaisesPower | scalar/src/core/sim.ts:185-223 | paying a move's cost leaves power at max(0, power + delta), never above what it was |

## Left out

- **Floating point.**
  - `computeExtractSuccessChance`, `roll`, `simulateHazard` and `simulateCombat` (`scalar/src/core/sim.ts`) are not modelled, because their probabilities are floating-point values.
  - A hazard's or skirmish's outcome enters the model through `ApplyHazardOutcome` and `ApplyCombatOutcome`, which accept any outcome record.
  - Every success roll is a boolean parameter.
- SimRng.NextInt: computes `raw / 0xffffffff * span` exactly, as a real number, rather than in double precision. Double rounding near an integer boundary is not modelled. The same holds for `XorShift.Int`.
- **Hashing.** `hashState`, `hashFallback` and `bufferToHex` are left out; the model stops at the canonical text they hash.
- **Station state and replay.** The singleton `getInstance` is left out, and so is the bridge's raid-state and replay bookkeeping: `startReplay`, `clearReplay`, `isReplayActive`, `getReplayCommandsForTurn`, `getReplayTurnCount`, `validateReplay`, `getRaidState`, `getStationState` and `getRecoveredLoot`. These only store or copy values.
  - `submitTurn` is `Step.Step` applied to the stored raid state.
- **Display lookups.** `getLoadoutSummary` and `getUnlockedLogs` only look up display names and log bodies for the UI; they are left out.
- Station.StartRaid: the source assigns the raid state before the upgrades run. A weapon id that throws halfway through the loop therefore leaves a partly upgraded raid stored. The model returns `Err` and stores nothing.
- **State copies.** `cloneState` and the copies made in `buildObservation` are left out: with immutable values a copy is the value itself.
- **String order.** `localeCompare` and `<` are both modelled as `Order.Less`, the lexicographic order by code point. JavaScript's `<` compares UTF-16 code units, which agrees with code-point order on the Basic Multilingual Plane but not for characters above it (a surrogate pair sorts below U+E000–U+FFFF in JavaScript and above them here). The locale's case and punctuation weighting is not represented.
- **`isOnTile`.** `isOnTile` (`scalar/src/sim/rules/loot.ts:72-74`) is written as position equality wherever the source would use it.
- **JSON values.** `CanonicalJson` covers null, booleans, integers, strings, arrays and objects. `undefined` members, fractional numbers, `NaN` and `-0` are left out, as are the lone-surrogate escapes that Dafny strings cannot hold.
- **Day-loop state.** The day-loop `GameState` keeps only the fields the modelled functions read or write.
- **Path reconstruction.** `Pathfind.Reconstruct` walks parent links with a fuel bound equal to the number of discovered cells. `Pathfind.ReconstructCorrect` shows the walk back never runs out of fuel.
- RaidGrid.ChooseTemplate: a random standard room is drawn with the corrected `SimRng.PickOneFixed` listed under Findings; the as-written `pickOne` (`scalar/src/sim/rules/grid.ts:52`) can return `undefined`, which the contract's `r.value.0 in rooms` does not allow for.
- RaidGrid.PickLoot: draws each stack with the corrected `SimRng.PickOneFixed`; with the as-written `pickOne` (`scalar/src/sim/rules/grid.ts:147`) a draw can be `undefined` and the stack lookup fails.
- RaidGrid.RollCrateLoot: draws the count with the corrected `SimRng.NextIntFixed`; the as-written `nextInt` (`scalar/src/sim/rules/grid.ts:143`) can return `max + 1`, so the bound `<= max` holds only for the corrected generator.
- RaidGrid.LayoutInvariants: the two-or-three stacks per crate rest on `RollCrateLoot` with the corrected generator; as written a crate can get four.
- RaidGrid.PlaceCell: its crate stocking goes through `RollCrateLoot`, so what it states about crates holds for the corrected generator only.
- RaidGrid.OpenTileFrom: draws with the corrected `SimRng.NextIntFixed`; the as-written `nextInt` (`scalar/src/sim/rules/grid.ts:311-313`) can land on the border column or row, which "away from the border" excludes.
- Init.Enemies: picks enemy templates with the corrected `SimRng.PickOneFixed`; the as-written `pickOne` (`scalar/src/sim/state.ts:249`) can return `undefined`, and reading its fields then throws.
- Init.Populate: inherits the corrected draws of `Init.Enemies` and `RaidGrid.OpenTileFrom`.
- Init.CreateInitialState: inherits the corrected draws of the grid builder and of `Populate`.
- Init.RosterFails: "fails only when" holds for the corrected generator; as written an `undefined` enemy template makes `pick.value.id` throw, a further way to fail.
- Init.FurnishedMeans: holds for the corrected generator only, for the same reason as `Init.RosterFails`.
- Observe.VisibleObjects: states only the number of objects. `Observe.DoorState` gives the door strings; the console and crate strings follow the same two-way choice and are not restated.
- Step.Resolve: states the invariants a turn keeps and the failure rules, not the full event list of a turn. The per-phase members (`Movement`, `Combat`, `Effects`, `Smoke`) state what each phase does.
- Step.RunCommand: states which handler each command reaches. What a handler does is stated by that handler's own contract: `Step.ShootCommand` with `Step.DroneShot`, `Step.HackCommand`, `Step.UseItemCommand`, `Doors.TryOpenDoor`, `Doors.TryUseConsole`, `Loot.TryLoot` and `Extraction.ApplyExtraction`.
- Station.ApplyUpgrades: states only the power budget. The unit-by-unit effect is `Station.UpgradedUnit`, and the failures are `Station.UpgradesFail`.

## Findings

| source | as written | input that shows it | evidently intended | confidence | as-written member | corrected member |
|---|---|---|---|---|---|---|
| scalar/src/sim/rng.ts:32-39 | `nextRng` divides the raw 32-bit draw by 0xffffffff, so `value` can be exactly 1.0. `nextInt(min, max)` then returns `max + 1`, and `pickOne` reads one past the end of its list (`undefined`), which its callers dereference | the state (a, b, c, d) = (1, 0, 0, 0xfffffffd), whose next raw draw is 0xffffffff: `nextInt(0, 9)` returns 10 | a value in [0, 1), dividing by 2^32 as `src/core/rng.ts` does, so `nextInt` stays in [min, max] and `pickOne` always returns an element | high (not executed) | SimRng.NextIntOvershoots | SimRng.NextIntFixed |

The grid builder and the initial roster use the corrected `SimRng.NextIntFixed` and `SimRng.PickOneFixed`. `SimRng.NextIntRange` and `SimRng.PickOneUndefined` state the as-written behaviour for every state.
