/** The squad's shared power budget: per-turn maintenance, the low-power
    counter, and the price and approval of each player command. */
module Power {
  import opened Common
  import opened State
  import opened Schemas
  import Registry
  import Config
  import Order

  predicate AliveDrone(u: Unit) {
    u.faction == Drone && u.hp > 0
  }

  /** Living drones among the listed keys (the filter over `Object.values`). */
  function CountAliveDrones(keys: seq<string>, m: map<string, Unit>): (n: nat)
    ensures n <= |keys|
    decreases |keys|
  {
    if |keys| == 0 then 0
    else (if keys[0] in m && AliveDrone(m[keys[0]]) then 1 else 0) + CountAliveDrones(keys[1..], m)
  }

  /** The ids of the living drones. */
  function AliveDroneIds(units: Registry.Reg<Unit>): set<string> {
    set k | k in units.m && AliveDrone(units.m[k])
  }

  /** Over distinct keys the count is the number of living drones among them. */
  lemma {:induction false} CountAliveDronesIsCardinality(keys: seq<string>, m: map<string, Unit>)
    requires Distinct(keys)
    ensures CountAliveDrones(keys, m) == |set k | k in keys && k in m && AliveDrone(m[k])|
    decreases |keys|
  {
    if |keys| > 0 {
      var tail := keys[1..];
      CountAliveDronesIsCardinality(tail, m);
      var all := set k | k in keys && k in m && AliveDrone(m[k]);
      var rest := set k | k in tail && k in m && AliveDrone(m[k]);
      assert keys[0] !in tail;
      if keys[0] in m && AliveDrone(m[keys[0]]) {
        assert all == rest + {keys[0]};
      } else {
        assert all == rest;
      }
    }
  }

  /** In a valid registry the listed count is the number of living drones. */
  lemma AliveDroneCount(units: Registry.Reg<Unit>)
    ensures Registry.Valid(units) ==> CountAliveDrones(units.keys, units.m) == |AliveDroneIds(units)|
  {
    if Registry.Valid(units) {
      CountAliveDronesIsCardinality(units.keys, units.m);
      assert AliveDroneIds(units) == set k | k in units.keys && k in units.m && AliveDrone(units.m[k]);
    }
  }

  /** `applyMaintenance`: one unit of power per living drone, reported when non-zero. */
  function ApplyMaintenance(s: GameState): (r: (GameState, seq<Event>))
    ensures r.0 == s.(power := r.0.power)
    ensures Registry.Valid(s.units) ==> r.0.power == s.power - |AliveDroneIds(s.units)| * Config.MaintenancePerDrone
    ensures r.0.power <= s.power
    ensures r.1 == if r.0.power == s.power then [] else [PowerConsumed(s.power - r.0.power, "maintenance")]
  {
    var cost := CountAliveDrones(s.units.keys, s.units.m) * Config.MaintenancePerDrone;
    AliveDroneCount(s.units);
    if cost > 0 then (s.(power := s.power - cost), [PowerConsumed(cost, "maintenance")]) else (s, [])
  }

  /** The low-power counter agrees with its flag: inactive means zero turns. */
  predicate LowPowerConsistent(lp: LowPower) {
    if lp.active then lp.turns >= 1 else lp.turns == 0
  }

  /** `updateLowPower`: at or below the threshold the counter grows by one and
      is reported; above it the counter resets. */
  function UpdateLowPower(s: GameState): (r: (GameState, seq<Event>))
    ensures r.0 == s.(lowPower := r.0.lowPower)
    ensures r.0.lowPower.active <==> s.power <= Config.LowPowerThreshold
    ensures r.0.lowPower.active ==> r.0.lowPower.turns == s.lowPower.turns + 1 && r.1 == [PowerLow(r.0.lowPower.turns)]
    ensures !r.0.lowPower.active ==> r.0.lowPower.turns == 0 && r.1 == []
  {
    if s.power <= Config.LowPowerThreshold then
      var lp := LowPower(true, s.lowPower.turns + 1);
      (s.(lowPower := lp), [PowerLow(lp.turns)])
    else (s.(lowPower := LowPower(false, 0)), [])
  }

  /** The counter stays consistent with its flag across updates, and while
      power stays at or below the threshold it counts the updates. */
  lemma LowPowerCounts(s: GameState)
    requires LowPowerConsistent(s.lowPower)
    ensures LowPowerConsistent(UpdateLowPower(s).0.lowPower)
    ensures s.power <= Config.LowPowerThreshold && !s.lowPower.active ==> UpdateLowPower(s).0.lowPower.turns == 1
    ensures s.power <= Config.LowPowerThreshold ==>
              UpdateLowPower(UpdateLowPower(s).0).0.lowPower.turns == s.lowPower.turns + 2
  {
  }

  /** `getTrait`: the drone template's modifier, 0 for non-drones, unknown
      templates and absent modifiers. */
  function Trait(cat: Catalog, u: Unit, pick: Traits -> Option<int>): (r: int)
    ensures u.faction != Drone ==> r == 0
    ensures FindDrone(cat.drones, u.typeId).None? ==> r == 0
  {
    if u.faction != Drone then 0
    else match FindDrone(cat.drones, u.typeId)
      case None => 0
      case Some(t) => pick(t.traits).GetOr(0)
  }

  function HackCostMod(t: Traits): Option<int> { t.hackCostMod }
  function DashCostMod(t: Traits): Option<int> { t.dashCostMod }
  function LootCostMod(t: Traits): Option<int> { t.lootCostMod }

  /** `getHackCost`: the base price plus the chassis modifier plus one when jammed, at least 1. */
  function HackCost(cat: Catalog, u: Unit): (r: int)
    ensures r >= 1
  {
    Max(1, Config.CostHack + Trait(cat, u, HackCostMod) + (if HasStatus(u, JAMMED) then 1 else 0))
  }

  /** `getActionPowerCost`: what a command costs before it may run. */
  function ActionPowerCost(cat: Catalog, u: Unit, a: Action): (r: int)
    ensures r >= 0
    ensures a.Move? || a.Extract? ==> r == 0
    ensures a.Hack? && !a.force ==> r >= 1
    ensures a.Hack? && a.force ==> r == Config.CostForceDoor
    ensures a.Seal? ==> r == Config.CostSealAction + Config.CostSealExtra
    ensures a.Shoot? || a.Reload? || a.UseItem? ==> r == 1
  {
    match a
    case Dash(_) => Max(0, Config.CostDash + Trait(cat, u, DashCostMod))
    case Shoot(_) => Config.CostShoot
    case Reload => Config.CostReload
    case UseItem(_, _, _) => Config.CostUseItem
    case Hack(_, force) => if force then Config.CostForceDoor else HackCost(cat, u)
    case Loot(_) => Max(0, Trait(cat, u, LootCostMod))
    case Seal(_) => Config.CostSealAction + Config.CostSealExtra
    case Move(_) => 0
    case Extract => 0
  }

  /** JAMMED makes a plain hack cost exactly one more, unless the floor of 1 absorbs it. */
  lemma JammedHackCostsMore(cat: Catalog, u: Unit)
    requires !HasStatus(u, JAMMED)
    ensures var jammed := u.(statuses := u.statuses + [StatusState(JAMMED, 1)]);
            HackCost(cat, jammed) >= HackCost(cat, u) &&
            (HackCost(cat, u) > 1 ==> HackCost(cat, jammed) == HackCost(cat, u) + 1)
  {
    var jammed := u.(statuses := u.statuses + [StatusState(JAMMED, 1)]);
    assert jammed.statuses[|u.statuses|] == StatusState(JAMMED, 1);
    assert HasStatus(jammed, JAMMED);
  }

  /** The price of a command for the unit it addresses. */
  function CommandCost(cat: Catalog, units: map<string, Unit>, c: Command): int
    requires c.droneId in units
  {
    ActionPowerCost(cat, units[c.droneId], c.action)
  }

  /** Sum of the prices of a list of commands. */
  function TotalCost(cat: Catalog, units: map<string, Unit>, cs: seq<Command>): int
    requires forall i :: 0 <= i < |cs| ==> cs[i].droneId in units
    decreases |cs|
  {
    if |cs| == 0 then 0 else CommandCost(cat, units, cs[0]) + TotalCost(cat, units, cs[1..])
  }

  function DroneIdOf(c: Command): string {
    c.droneId
  }

  /** The command addresses a living unit whose price the power left covers. */
  predicate Affordable(cat: Catalog, units: map<string, Unit>, power: int, c: Command) {
    c.droneId in units && units[c.droneId].hp > 0 && CommandCost(cat, units, c) <= power
  }

  /** The approval loop over sorted commands: commands of missing or dead
      units are dropped silently, a command dearer than the power left fails,
      and every other command is paid for and approved. */
  function Approve(cat: Catalog, units: map<string, Unit>, power: int, cs: seq<Command>)
    : (r: (int, seq<Command>, seq<Event>))
    ensures power >= 0 ==> r.0 >= 0
    ensures r.0 <= power
    ensures power < 0 ==> r.1 == [] && r.0 == power
    decreases |cs|
  {
    if |cs| == 0 then (power, [], [])
    else
      var c := cs[0];
      var rest := cs[1..];
      if c.droneId !in units || units[c.droneId].hp <= 0 then
        Approve(cat, units, power, rest)
      else
        var cost := ActionPowerCost(cat, units[c.droneId], c.action);
        if cost > power then
          var r := Approve(cat, units, power, rest);
          (r.0, r.1, [CommandFailed(units[c.droneId].id, "insufficient_power")] + r.2)
        else
          var r := Approve(cat, units, power - cost, rest);
          (r.0, [c] + r.1, (if cost > 0 then [PowerConsumed(cost, "action")] else []) + r.2)
  }

  /** What one iteration of the approval loop does with the first command:
      an affordable one is approved and paid for, any other leaves the power
      and the approved list to the rest of the loop. */
  lemma ApproveStep(cat: Catalog, units: map<string, Unit>, power: int, cs: seq<Command>)
    requires |cs| > 0
    ensures Affordable(cat, units, power, cs[0]) ==>
              var r := Approve(cat, units, power - CommandCost(cat, units, cs[0]), cs[1..]);
              Approve(cat, units, power, cs).0 == r.0 && Approve(cat, units, power, cs).1 == [cs[0]] + r.1
    ensures !Affordable(cat, units, power, cs[0]) ==>
              var r := Approve(cat, units, power, cs[1..]);
              Approve(cat, units, power, cs).0 == r.0 && Approve(cat, units, power, cs).1 == r.1
  {
  }

  /** Every approved command comes from the input and addresses a living unit. */
  lemma {:induction false} ApproveDrawsFrom(cat: Catalog, units: map<string, Unit>, power: int, cs: seq<Command>)
    ensures var r := Approve(cat, units, power, cs);
            forall i :: 0 <= i < |r.1| ==> r.1[i] in cs && r.1[i].droneId in units && units[r.1[i].droneId].hp > 0
    decreases |cs|
  {
    if |cs| > 0 {
      var c := cs[0];
      ApproveStep(cat, units, power, cs);
      var p := if Affordable(cat, units, power, c) then power - CommandCost(cat, units, c) else power;
      ApproveDrawsFrom(cat, units, p, cs[1..]);
      assert forall x :: x in cs[1..] ==> x in cs;
    }
  }

  /** The power left is the starting power less the price of every approved command. */
  lemma {:induction false} ApproveCharges(cat: Catalog, units: map<string, Unit>, power: int, cs: seq<Command>)
    ensures forall i :: 0 <= i < |Approve(cat, units, power, cs).1| ==> Approve(cat, units, power, cs).1[i].droneId in units
    ensures Approve(cat, units, power, cs).0 == power - TotalCost(cat, units, Approve(cat, units, power, cs).1)
    decreases |cs|
  {
    ApproveDrawsFrom(cat, units, power, cs);
    if |cs| > 0 {
      var c := cs[0];
      ApproveStep(cat, units, power, cs);
      var p := if Affordable(cat, units, power, c) then power - CommandCost(cat, units, c) else power;
      ApproveCharges(cat, units, p, cs[1..]);
      var r := Approve(cat, units, p, cs[1..]);
      if Affordable(cat, units, power, c) {
        assert ([c] + r.1)[1..] == r.1;
      }
    }
  }

  /** The loop reports only positive action charges and `insufficient_power` failures. */
  lemma {:induction false} ApproveEvents(cat: Catalog, units: map<string, Unit>, power: int, cs: seq<Command>)
    ensures forall e :: e in Approve(cat, units, power, cs).2 ==>
              (e.PowerConsumed? && e.amount > 0 && e.reason == "action") ||
              (e.CommandFailed? && e.reason == "insufficient_power")
    decreases |cs|
  {
    if |cs| > 0 {
      var c := cs[0];
      if Affordable(cat, units, power, c) {
        ApproveEvents(cat, units, power - CommandCost(cat, units, c), cs[1..]);
      } else {
        ApproveEvents(cat, units, power, cs[1..]);
      }
    }
  }

  /** The approved commands are the input with some left out, in input order. */
  lemma {:induction false} ApproveSubsequence(cat: Catalog, units: map<string, Unit>, power: int, cs: seq<Command>)
    ensures Subsequence(Approve(cat, units, power, cs).1, cs)
    decreases |cs|
  {
    if |cs| > 0 {
      var c := cs[0];
      ApproveStep(cat, units, power, cs);
      var p := if Affordable(cat, units, power, c) then power - CommandCost(cat, units, c) else power;
      ApproveSubsequence(cat, units, p, cs[1..]);
      var r := Approve(cat, units, p, cs[1..]).1;
      if Affordable(cat, units, power, c) {
        assert ([c] + r)[1..] == r;
      } else if |r| > 0 {
        assert Subsequence(r, cs[1..]);
      }
    }
  }

  /** Every command of a living unit is either approved or rejected with
      `insufficient_power` under its unit's id. */
  lemma {:induction false} ApproveOrReject(cat: Catalog, units: map<string, Unit>, power: int, cs: seq<Command>, i: nat)
    requires i < |cs| && cs[i].droneId in units && units[cs[i].droneId].hp > 0
    ensures var r := Approve(cat, units, power, cs);
            cs[i] in r.1 || CommandFailed(units[cs[i].droneId].id, "insufficient_power") in r.2
    decreases i
  {
    var c := cs[0];
    var p := if Affordable(cat, units, power, c) then power - CommandCost(cat, units, c) else power;
    if i > 0 {
      ApproveOrReject(cat, units, p, cs[1..], i - 1);
    }
  }

  /** Putting a command in front of a sorted list drawn from commands that
      do not sort below it keeps the list sorted. */
  lemma ConsSorted(c: Command, xs: seq<Command>, rest: seq<Command>)
    requires Order.SortedBy(xs, DroneIdOf)
    requires forall i :: 0 <= i < |xs| ==> xs[i] in rest
    requires forall k :: 0 <= k < |rest| ==> !Order.Less(DroneIdOf(rest[k]), DroneIdOf(c))
    ensures Order.SortedBy([c] + xs, DroneIdOf)
  {
    var out := [c] + xs;
    forall i, j | 0 <= i < j < |out|
      ensures !Order.Less(DroneIdOf(out[j]), DroneIdOf(out[i]))
    {
      assert out[j] == xs[j - 1];
      if i > 0 {
        assert out[i] == xs[i - 1];
      } else {
        var k :| 0 <= k < |rest| && rest[k] == xs[j - 1];
      }
    }
  }

  /** The approval loop keeps the order of its input: what it approves is a
      subsequence, hence still sorted by drone id. */
  lemma {:induction false} ApproveKeepsOrder(cat: Catalog, units: map<string, Unit>, power: int, cs: seq<Command>)
    requires Order.SortedBy(cs, DroneIdOf)
    ensures Order.SortedBy(Approve(cat, units, power, cs).1, DroneIdOf)
    decreases |cs|
  {
    if |cs| > 0 {
      var c := cs[0];
      var rest := cs[1..];
      assert Order.SortedBy(rest, DroneIdOf);
      ApproveStep(cat, units, power, cs);
      var p := if Affordable(cat, units, power, c) then power - CommandCost(cat, units, c) else power;
      ApproveKeepsOrder(cat, units, p, rest);
      if Affordable(cat, units, power, c) {
        ApproveDrawsFrom(cat, units, p, rest);
        assert forall k :: 0 <= k < |rest| ==> rest[k] == cs[k + 1];
        ConsSorted(c, Approve(cat, units, p, rest).1, rest);
      }
    }
  }

  /** `applyActionPowerCosts`: sorts the commands by drone id (stably) and
      runs the approval loop; only the power changes. */
  function ApplyActionPowerCosts(cat: Catalog, s: GameState, commands: seq<Command>)
    : (r: (GameState, seq<Command>, seq<Event>))
    ensures r.0 == s.(power := r.0.power)
    ensures forall i :: 0 <= i < |r.1| ==> r.1[i] in commands && r.1[i].droneId in s.units.m && s.units.m[r.1[i].droneId].hp > 0
    ensures r.0.power == s.power - TotalCost(cat, s.units.m, r.1)
    ensures s.power >= 0 ==> 0 <= r.0.power <= s.power
    ensures s.power < 0 ==> r.1 == [] && r.0 == s
    ensures Order.SortedBy(r.1, DroneIdOf)
    ensures forall e :: e in r.2 ==>
              (e.PowerConsumed? && e.amount > 0 && e.reason == "action") ||
              (e.CommandFailed? && e.reason == "insufficient_power")
    ensures exists sorted: seq<Command> ::
              && multiset(sorted) == multiset(commands) && Order.SortedBy(sorted, DroneIdOf)
              && var a := Approve(cat, s.units.m, s.power, sorted); r == (s.(power := a.0), a.1, a.2)
  {
    var sorted := Order.SortBy(commands, DroneIdOf);
    Order.SortBySorted(commands, DroneIdOf);
    ApproveKeepsOrder(cat, s.units.m, s.power, sorted);
    ApproveDrawsFrom(cat, s.units.m, s.power, sorted);
    ApproveCharges(cat, s.units.m, s.power, sorted);
    var a := Approve(cat, s.units.m, s.power, sorted);
    ApproveEvents(cat, s.units.m, s.power, sorted);
    forall i | 0 <= i < |a.1|
      ensures a.1[i] in commands
    {
      assert a.1[i] in multiset(sorted);
    }
    (s.(power := a.0), a.1, a.2)
  }

  /** Every command of a living unit is paid for and approved, or rejected
      with `insufficient_power` under its unit's id; what is approved keeps
      the order of the id-sorted input. */
  lemma PaidOrRejected(cat: Catalog, s: GameState, commands: seq<Command>, i: nat)
    requires i < |commands| && commands[i].droneId in s.units.m && s.units.m[commands[i].droneId].hp > 0
    ensures var r := ApplyActionPowerCosts(cat, s, commands);
            commands[i] in r.1 || CommandFailed(s.units.m[commands[i].droneId].id, "insufficient_power") in r.2
    ensures Subsequence(ApplyActionPowerCosts(cat, s, commands).1, Order.SortBy(commands, DroneIdOf))
  {
    var sorted := Order.SortBy(commands, DroneIdOf);
    assert commands[i] in multiset(sorted);
    var j :| 0 <= j < |sorted| && sorted[j] == commands[i];
    ApproveOrReject(cat, s.units.m, s.power, sorted, j);
    ApproveSubsequence(cat, s.units.m, s.power, sorted);
  }

  /** Below zero power even a free command fails, with `insufficient_power`. */
  lemma NegativePowerRejectsFreeCommands(cat: Catalog, s: GameState, c: Command)
    requires s.power < 0 && c.droneId in s.units.m && s.units.m[c.droneId].hp > 0
    requires c.action.Move? || c.action.Extract?
    ensures ApplyActionPowerCosts(cat, s, [c]).1 == []
    ensures ApplyActionPowerCosts(cat, s, [c]).2 == [CommandFailed(s.units.m[c.droneId].id, "insufficient_power")]
  {
    assert Order.SortBy([c], DroneIdOf) == [c];
    assert [c][1..] == [];
    assert Approve(cat, s.units.m, s.power, [c]).2 == [CommandFailed(s.units.m[c.droneId].id, "insufficient_power")];
  }
}
