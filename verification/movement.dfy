/** `resolveMovement`: MOVE and DASH commands, resolved one unit at a time
    in id order against a set of occupied cells. */
module Movement {
  import opened Common
  import opened State
  import opened Schemas
  import opened Grid
  import Registry
  import Config
  import Order
  import Power

  /** `isPathValid`: the path starts on the unit and every step moves to a
      4-neighbour. */
  predicate IsPathValid(pos: Vec2, path: seq<Vec2>) {
    |path| > 0 && path[0] == pos && forall i :: 1 <= i < |path| ==> Manhattan(path[i - 1], path[i]) == 1
  }

  /** The step loop of `isPathValid` from index `i`: each cell is one
      4-neighbour step from the one before, checked until the first bad step. */
  predicate StepsFrom(path: seq<Vec2>, i: nat)
    requires 1 <= i
    decreases |path| - i
  {
    i >= |path| || (Manhattan(path[i - 1], path[i]) == 1 && StepsFrom(path, i + 1))
  }

  lemma {:induction false} StepsFromMeans(path: seq<Vec2>, i: nat)
    requires 1 <= i
    ensures StepsFrom(path, i) <==> forall j :: i <= j < |path| ==> Manhattan(path[j - 1], path[j]) == 1
    decreases |path| - i
  {
    if i < |path| {
      StepsFromMeans(path, i + 1);
    }
  }

  /** `isPathValid` as the source runs it: an empty path or a first cell
      off the unit fails at once, then the loop checks every step. */
  lemma IsPathValidLoop(pos: Vec2, path: seq<Vec2>)
    ensures IsPathValid(pos, path) <==> |path| > 0 && path[0] == pos && StepsFrom(path, 1)
  {
    StepsFromMeans(path, 1);
  }

  /** How many steps a command may take: its limit less the low-power
      penalty, never negative. */
  function AllowedSteps(a: Action, lowPowerActive: bool): (n: int)
    ensures 0 <= n <= (if a.Dash? then Config.DashMax else Config.MoveMax)
    ensures lowPowerActive ==> n == (if a.Dash? then Config.DashMax else Config.MoveMax) - Config.LowPowerMovePenalty
    ensures !lowPowerActive ==> n == (if a.Dash? then Config.DashMax else Config.MoveMax)
  {
    Max(0, (if a.Dash? then Config.DashMax else Config.MoveMax) - (if lowPowerActive then Config.LowPowerMovePenalty else 0))
  }

  /** The index of the last cell reached walking the path from index `i - 1`
      while the next cell is passable. */
  function Reach(g: GridState, doors: Registry.Reg<Door>, path: seq<Vec2>, i: nat): (m: nat)
    requires 1 <= i <= |path|
    ensures i - 1 <= m < |path|
    ensures forall k :: i <= k <= m ==> IsPassable(g, path[k], doors)
    ensures m + 1 < |path| ==> !IsPassable(g, path[m + 1], doors)
    decreases |path| - i
  {
    if i == |path| || !IsPassable(g, path[i], doors) then i - 1 else Reach(g, doors, path, i + 1)
  }

  /** Along a valid path the `m`-th cell is at most `m` steps from the start. */
  lemma {:induction false} PathDistance(pos: Vec2, path: seq<Vec2>, m: int)
    requires IsPathValid(pos, path) && 0 <= m < |path|
    ensures Manhattan(pos, path[m]) <= m
  {
    if m > 0 {
      PathDistance(pos, path, m - 1);
      assert Manhattan(path[m - 1], path[m]) == 1;
    }
  }

  /** The cells every unit stands on, living or not: the initial `occupied` set. */
  function Positions(units: Registry.Reg<Unit>): set<Vec2> {
    set k | k in units.m :: units.m[k].pos
  }

  /** No two units share a cell. */
  ghost predicate Apart(units: Registry.Reg<Unit>) {
    forall a, b :: a in units.m && b in units.m && a != b ==> units.m[a].pos != units.m[b].pos
  }

  /** Where a valid path ends up: the trimmed path's last reachable cell. */
  function Destination(s: GameState, a: Action, path: seq<Vec2>): (r: (Vec2, nat))
    requires |path| > 0
    ensures r.1 <= AllowedSteps(a, s.lowPower.active) && r.1 < |path| && r.0 == path[r.1]
    ensures forall k :: 1 <= k <= r.1 ==> IsPassable(s.grid, path[k], s.doors)
    ensures r.1 + 1 < |path| && r.1 < AllowedSteps(a, s.lowPower.active) ==> !IsPassable(s.grid, path[r.1 + 1], s.doors)
  {
    var trimmed := path[..Min(AllowedSteps(a, s.lowPower.active) + 1, |path|)];
    var m := Reach(s.grid, s.doors, trimmed, 1);
    (trimmed[m], m)
  }

  /** The moving unit is present, alive and not under EMP. */
  predicate Mobile(s: GameState, c: Command) {
    c.droneId in s.units.m && s.units.m[c.droneId].hp > 0 && !HasStatus(s.units.m[c.droneId], EMP)
  }

  /** One iteration of the movement loop: a missing or dead unit is skipped,
      an EMP'd one fails with "emp", an invalid path is an unsuccessful move
      in place; otherwise the unit stays put successfully when its
      destination is its own cell, stays put unsuccessfully when the
      destination is occupied, and else moves there, carrying its cell in
      `occupied` along. */
  function MoveOne(s: GameState, c: Command, occupied: set<Vec2>): (r: (GameState, set<Vec2>, seq<Event>))
    requires IsMovement(c)
    ensures !(c.droneId in s.units.m && s.units.m[c.droneId].hp > 0) ==> r == (s, occupied, [])
    ensures c.droneId in s.units.m && s.units.m[c.droneId].hp > 0 && HasStatus(s.units.m[c.droneId], EMP) ==>
              r == (s, occupied, [CommandFailed(s.units.m[c.droneId].id, "emp")])
    ensures Mobile(s, c) && !IsPathValid(s.units.m[c.droneId].pos, c.action.path) ==>
              var u := s.units.m[c.droneId]; r == (s, occupied, [MovementResolved(u.id, u.pos, u.pos, false)])
    ensures Mobile(s, c) && IsPathValid(s.units.m[c.droneId].pos, c.action.path) ==>
              var u := s.units.m[c.droneId];
              var dest := Destination(s, c.action, c.action.path).0;
              && (dest == u.pos ==> r == (s, occupied, [MovementResolved(u.id, u.pos, u.pos, true)]))
              && (dest != u.pos && dest in occupied ==> r == (s, occupied, [MovementResolved(u.id, u.pos, u.pos, false)]))
              && (dest != u.pos && dest !in occupied ==>
                    && r.0 == PutUnit(s, c.droneId, u.(pos := dest))
                    && r.1 == occupied - {u.pos} + {dest}
                    && r.2 == [MovementResolved(u.id, u.pos, dest, true)])
    ensures r.0 == s.(units := r.0.units) && r.0.units.keys == s.units.keys && r.0.units.m.Keys == s.units.m.Keys
    ensures forall k :: k in s.units.m ==> r.0.units.m[k] == s.units.m[k].(pos := r.0.units.m[k].pos)
    ensures forall k :: k in s.units.m && k != c.droneId ==> r.0.units.m[k] == s.units.m[k]
    ensures |r.2| <= 1
  {
    if c.droneId !in s.units.m || s.units.m[c.droneId].hp <= 0 then (s, occupied, [])
    else
      var u := s.units.m[c.droneId];
      if HasStatus(u, EMP) then (s, occupied, [CommandFailed(u.id, "emp")])
      else if |c.action.path| == 0 || !IsPathValid(u.pos, c.action.path) then
        (s, occupied, [MovementResolved(u.id, u.pos, u.pos, false)])
      else
        var from := u.pos;
        var dest := Destination(s, c.action, c.action.path).0;
        if dest == from then (s, occupied, [MovementResolved(u.id, from, from, true)])
        else if dest in occupied then (s, occupied, [MovementResolved(u.id, from, from, false)])
        else (PutUnit(s, c.droneId, u.(pos := dest)), occupied - {from} + {dest}, [MovementResolved(u.id, from, dest, true)])
  }

  /** A unit that moves is alive, free of EMP and on a valid path; it lands
      on a passable cell nobody occupied, no further than its allowance. */
  lemma MoveOneLegal(s: GameState, c: Command, occupied: set<Vec2>)
    requires IsMovement(c) && c.droneId in s.units.m
    ensures var u := s.units.m[c.droneId];
            var u' := MoveOne(s, c, occupied).0.units.m[c.droneId];
            u'.pos != u.pos ==>
              && u.hp > 0 && !HasStatus(u, EMP) && IsPathValid(u.pos, c.action.path)
              && IsPassable(s.grid, u'.pos, s.doors)
              && u'.pos !in occupied
              && Manhattan(u.pos, u'.pos) <= AllowedSteps(c.action, s.lowPower.active)
              && MoveOne(s, c, occupied).2 == [MovementResolved(u.id, u.pos, u'.pos, true)]
  {
    var u := s.units.m[c.droneId];
    if u.hp > 0 && !HasStatus(u, EMP) && IsPathValid(u.pos, c.action.path) {
      var d := Destination(s, c.action, c.action.path);
      PathDistance(u.pos, c.action.path, d.1);
    }
  }

  /** A unit that does not move reports it with its own cell as both ends,
      and reports success exactly when its path was valid and led nowhere
      else. */
  lemma MoveOneStays(s: GameState, c: Command, occupied: set<Vec2>)
    requires IsMovement(c) && Mobile(s, c)
    requires MoveOne(s, c, occupied).0.units.m[c.droneId].pos == s.units.m[c.droneId].pos
    ensures var u := s.units.m[c.droneId];
            MoveOne(s, c, occupied).2 ==
              [MovementResolved(u.id, u.pos, u.pos,
                                IsPathValid(u.pos, c.action.path) && Destination(s, c.action, c.action.path).0 == u.pos)]
  {
  }

  /** When `occupied` lists exactly the units' cells and no two units share
      one, a move keeps both facts. */
  lemma MoveOneApart(s: GameState, c: Command, occupied: set<Vec2>)
    requires IsMovement(c) && Apart(s.units) && occupied == Positions(s.units)
    ensures Apart(MoveOne(s, c, occupied).0.units)
    ensures MoveOne(s, c, occupied).1 == Positions(MoveOne(s, c, occupied).0.units)
  {
    var r := MoveOne(s, c, occupied);
    if c.droneId in s.units.m && r.0.units.m[c.droneId].pos != s.units.m[c.droneId].pos {
      MoveOneLegal(s, c, occupied);
      var from := s.units.m[c.droneId].pos;
      var dest := r.0.units.m[c.droneId].pos;
      assert r.1 == occupied - {from} + {dest};
      forall p | p in r.1
        ensures p in Positions(r.0.units)
      {
        if p != dest {
          var k :| k in s.units.m && s.units.m[k].pos == p;
          assert k != c.droneId;
        }
      }
    }
  }

  /** The movement loop over the sorted commands. */
  function MoveLoop(s: GameState, cs: seq<Command>, occupied: set<Vec2>): (r: (GameState, set<Vec2>, seq<Event>))
    requires forall i :: 0 <= i < |cs| ==> IsMovement(cs[i])
    ensures r.0 == s.(units := r.0.units) && r.0.units.keys == s.units.keys && r.0.units.m.Keys == s.units.m.Keys
    ensures forall k :: k in s.units.m ==> r.0.units.m[k] == s.units.m[k].(pos := r.0.units.m[k].pos)
    ensures forall k :: k in s.units.m && (forall i :: 0 <= i < |cs| ==> cs[i].droneId != k) ==> r.0.units.m[k] == s.units.m[k]
    ensures |r.2| <= |cs|
    decreases |cs|
  {
    if |cs| == 0 then (s, occupied, [])
    else
      var one := MoveOne(s, cs[0], occupied);
      var rest := MoveLoop(one.0, cs[1..], one.1);
      (rest.0, rest.1, one.2 + rest.2)
  }

  /** The loop keeps units apart and the occupied set in step with them. */
  lemma {:induction false} MoveLoopApart(s: GameState, cs: seq<Command>, occupied: set<Vec2>)
    requires forall i :: 0 <= i < |cs| ==> IsMovement(cs[i])
    requires Apart(s.units) && occupied == Positions(s.units)
    ensures Apart(MoveLoop(s, cs, occupied).0.units)
    ensures MoveLoop(s, cs, occupied).1 == Positions(MoveLoop(s, cs, occupied).0.units)
    decreases |cs|
  {
    if |cs| > 0 {
      MoveOneApart(s, cs[0], occupied);
      var one := MoveOne(s, cs[0], occupied);
      MoveLoopApart(one.0, cs[1..], one.1);
    }
  }

  /** A unit that changed cells over the loop stands on a passable cell. */
  lemma {:induction false} MoveLoopPassable(s: GameState, cs: seq<Command>, occupied: set<Vec2>, k: string)
    requires forall i :: 0 <= i < |cs| ==> IsMovement(cs[i])
    requires k in s.units.m
    ensures var p := MoveLoop(s, cs, occupied).0.units.m[k].pos;
            p == s.units.m[k].pos || IsPassable(s.grid, p, s.doors)
    decreases |cs|
  {
    if |cs| > 0 {
      var one := MoveOne(s, cs[0], occupied);
      if cs[0].droneId == k {
        MoveOneLegal(s, cs[0], occupied);
      }
      MoveLoopPassable(one.0, cs[1..], one.1, k);
    }
  }

  /** `resolveMovement`: commands sorted by unit id, resolved against the
      cells every unit stands on. Only positions change. */
  function ResolveMovement(s: GameState, moves: seq<Command>): (r: (GameState, seq<Event>))
    requires forall i :: 0 <= i < |moves| ==> IsMovement(moves[i])
    ensures r.0 == s.(units := r.0.units) && r.0.units.keys == s.units.keys && r.0.units.m.Keys == s.units.m.Keys
    ensures forall k :: k in s.units.m ==> r.0.units.m[k] == s.units.m[k].(pos := r.0.units.m[k].pos)
    ensures |r.1| <= |moves|
  {
    var sorted := Order.SortBy(moves, Power.DroneIdOf);
    assert forall i :: 0 <= i < |sorted| ==> sorted[i] in multiset(moves);
    var l := MoveLoop(s, sorted, Positions(s.units));
    (l.0, l.2)
  }

  /** The commands are resolved in unit-id order: the outcome is the loop
      run over an id-sorted permutation of the commands (the only one when
      the ids are distinct), starting from every unit's cell as occupied. */
  lemma ResolveMovementInIdOrder(s: GameState, moves: seq<Command>)
    requires forall i :: 0 <= i < |moves| ==> IsMovement(moves[i])
    ensures exists sorted: seq<Command> :: InIdOrder(s, moves, sorted)
  {
    var sorted := Order.SortBy(moves, Power.DroneIdOf);
    Order.SortBySorted(moves, Power.DroneIdOf);
    assert forall i :: 0 <= i < |sorted| ==> sorted[i] in multiset(moves);
    var l := MoveLoop(s, sorted, Positions(s.units));
    assert ResolveMovement(s, moves) == (l.0, l.2);
    assert InIdOrder(s, moves, sorted);
  }

  /** `sorted` is an id-sorted permutation of the movement commands, and
      resolving them is the loop over `sorted` from every unit's cell. */
  ghost predicate InIdOrder(s: GameState, moves: seq<Command>, sorted: seq<Command>)
    requires forall i :: 0 <= i < |moves| ==> IsMovement(moves[i])
  {
    && multiset(sorted) == multiset(moves)
    && Order.SortedBy(sorted, Power.DroneIdOf)
    && (forall i :: 0 <= i < |sorted| ==> IsMovement(sorted[i]))
    && var l := MoveLoop(s, sorted, Positions(s.units)); ResolveMovement(s, moves) == (l.0, l.2)
  }

  /** Movement never stacks two units on a cell and leaves moved units on passable cells. */
  lemma MovementKeepsApart(s: GameState, moves: seq<Command>)
    requires forall i :: 0 <= i < |moves| ==> IsMovement(moves[i])
    requires Apart(s.units)
    ensures Apart(ResolveMovement(s, moves).0.units)
    ensures forall k :: k in s.units.m ==>
              ResolveMovement(s, moves).0.units.m[k].pos == s.units.m[k].pos ||
              IsPassable(s.grid, ResolveMovement(s, moves).0.units.m[k].pos, s.doors)
  {
    var sorted := Order.SortBy(moves, Power.DroneIdOf);
    assert forall i :: 0 <= i < |sorted| ==> sorted[i] in multiset(moves);
    MoveLoopApart(s, sorted, Positions(s.units));
    forall k | k in s.units.m
      ensures var p := ResolveMovement(s, moves).0.units.m[k].pos;
              p == s.units.m[k].pos || IsPassable(s.grid, p, s.doors)
    {
      MoveLoopPassable(s, sorted, Positions(s.units), k);
    }
  }
}
