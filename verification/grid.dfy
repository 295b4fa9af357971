/** Tile lookup, passability, transparency, cover and line of sight on the
    row-major raid grid. */
module Grid {
  import opened Common
  import opened State
  import Registry

  predicate InBounds(g: GridState, p: Vec2) {
    p.x >= 0 && p.y >= 0 && p.x < g.width && p.y < g.height
  }

  /** The grid has exactly width * height tiles and `tiles[y * width + x]` sits at (x, y). */
  ghost predicate WellFormed(g: GridState) {
    && g.width >= 0 && g.height >= 0
    && |g.tiles| == g.width * g.height
    && forall i :: 0 <= i < |g.tiles| ==> g.tiles[i].x == i % g.width && g.tiles[i].y == i / g.width
  }

  lemma IndexInRange(width: int, height: int, x: int, y: int)
    requires 0 <= x < width && 0 <= y < height
    ensures 0 <= y * width + x < width * height
  {
    MulMonotone(y, height - 1, width);
  }

  /** `getTile`: nothing out of bounds; an index past the end of the tile
      list reads `undefined`, which every caller treats like `null`. */
  function GetTile(g: GridState, p: Vec2): (t: Option<Tile>)
    ensures t.Some? ==> InBounds(g, p)
    ensures t.Some? ==> 0 <= p.y * g.width + p.x < |g.tiles| && t.value == g.tiles[p.y * g.width + p.x]
    ensures InBounds(g, p) && |g.tiles| == g.width * g.height ==> t.Some?
  {
    if !InBounds(g, p) then None
    else
      var i := p.y * g.width + p.x;
      IndexInRange(g.width, g.height, p.x, p.y);
      if i < |g.tiles| then Some(g.tiles[i]) else None
  }

  /** On a well-formed grid the tile found at a position carries that position. */
  lemma GetTileCoordinates(g: GridState, p: Vec2)
    requires WellFormed(g) && InBounds(g, p)
    ensures GetTile(g, p).Some?
    ensures GetTile(g, p).value.x == p.x && GetTile(g, p).value.y == p.y
  {
    var i := p.y * g.width + p.x;
    IndexInRange(g.width, g.height, p.x, p.y);
    DivModUnique(i, g.width, p.x, p.y);
    assert g.tiles[i].x == i % g.width && g.tiles[i].y == i / g.width;
  }

  /** The door registered under the tile's door id, when the id is truthy. */
  function DoorOnTile(t: Tile, doors: Registry.Reg<Door>): Option<Door> {
    if Truthy(t.doorId) then Registry.Get(doors, t.doorId.value) else None
  }

  /** `isPassable`: false off the grid, on walls, and on a door tile whose
      door is missing or closed. */
  predicate IsPassable(g: GridState, p: Vec2, doors: Registry.Reg<Door>) {
    match GetTile(g, p)
    case None => false
    case Some(t) =>
      if t.terrain == Wall then false
      else if Truthy(t.doorId) then
        (match Registry.Get(doors, t.doorId.value)
         case Some(d) => d.open
         case None => false)
      else true
  }

  /** `isTransparent`: false off the grid, on walls, on a registered closed
      door, and under smoke; an unregistered door id does not block sight. */
  predicate IsTransparent(g: GridState, p: Vec2, doors: Registry.Reg<Door>) {
    match GetTile(g, p)
    case None => false
    case Some(t) =>
      if t.terrain == Wall then false
      else if DoorOnTile(t, doors).Some? && !DoorOnTile(t, doors).value.open then false
      else if t.smoke.Some? && t.smoke.value > 0 then false
      else true
  }

  /** Every truthy door id on the grid names a registered door. */
  ghost predicate DoorsRegistered(g: GridState, doors: Registry.Reg<Door>) {
    forall i :: 0 <= i < |g.tiles| && Truthy(g.tiles[i].doorId) ==> g.tiles[i].doorId.value in doors.m
  }

  /** Passability, restated tile by tile: the partner of `IsPassable`. */
  lemma PassableMeans(g: GridState, p: Vec2, doors: Registry.Reg<Door>)
    ensures IsPassable(g, p, doors) <==>
              && GetTile(g, p).Some?
              && GetTile(g, p).value.terrain == Floor
              && (Truthy(GetTile(g, p).value.doorId) ==>
                    GetTile(g, p).value.doorId.value in doors.m && doors.m[GetTile(g, p).value.doorId.value].open)
    ensures !InBounds(g, p) ==> !IsPassable(g, p, doors)
  {
  }

  /** When every door id is registered, whatever one can see through one can walk onto. */
  lemma TransparentImpliesPassable(g: GridState, p: Vec2, doors: Registry.Reg<Door>)
    requires DoorsRegistered(g, doors)
    requires IsTransparent(g, p, doors)
    ensures IsPassable(g, p, doors)
  {
    var t := GetTile(g, p).value;
    if Truthy(t.doorId) {
      assert t == g.tiles[p.y * g.width + p.x];
      assert t.doorId.value in doors.m;
    }
  }

  /** `getCoverReduction`: 0 without cover, 1 behind half cover, 2 behind full cover. */
  function CoverReduction(g: GridState, target: Vec2): (r: int)
    ensures 0 <= r <= 2
    ensures r == 0 <==> GetTile(g, target).None? || GetTile(g, target).value.cover.None?
    ensures r == 2 <==> GetTile(g, target).Some? && GetTile(g, target).value.cover == Some(Full)
    ensures r == 1 <==> GetTile(g, target).Some? && GetTile(g, target).value.cover == Some(Half)
  {
    match GetTile(g, target)
    case None => 0
    case Some(t) =>
      match t.cover
      case None => 0
      case Some(Full) => 2
      case Some(Half) => 1
  }

  // ---------------------------------------------------------------------
  // Line of sight

  /** `lineOfSight`: walks the cells from `from` towards `to`, stepping in x
      while the error term is positive and in y otherwise, for at most
      1 + dx + dy iterations; every visited cell but the origin must be
      transparent, and reaching the target ends the walk. */
  predicate LineOfSight(g: GridState, doors: Registry.Reg<Door>, from: Vec2, to: Vec2) {
    var dx: int := Abs(to.x - from.x);
    var dy: int := Abs(to.y - from.y);
    LosLoop(g, doors, from, to, from.x, from.y, 1 + dx + dy, dx - dy, StepsOf(from, to))
  }

  /** The per-step increments and doubled extents of a walk. */
  datatype Steps = Steps(xInc: int, yInc: int, dx2: int, dy2: int)

  function StepsOf(from: Vec2, to: Vec2): Steps {
    Steps(if to.x > from.x then 1 else -1, if to.y > from.y then 1 else -1,
          Abs(to.x - from.x) * 2, Abs(to.y - from.y) * 2)
  }

  predicate LosLoop(g: GridState, doors: Registry.Reg<Door>, from: Vec2, to: Vec2,
                    x: int, y: int, n: int, error: int, st: Steps)
    decreases n
  {
    if n <= 0 then true
    else if !(x == from.x && y == from.y) && !IsTransparent(g, Vec2(x, y), doors) then false
    else if x == to.x && y == to.y then true
    else if error > 0 then LosLoop(g, doors, from, to, x + st.xInc, y, n - 1, error - st.dy2, st)
    else LosLoop(g, doors, from, to, x, y + st.yInc, n - 1, error + st.dx2, st)
  }

  /** The cells the line-of-sight loop visits, independent of what they hold. */
  function Walk(to: Vec2, x: int, y: int, n: int, error: int, st: Steps): seq<Vec2>
    decreases n
  {
    if n <= 0 then []
    else if x == to.x && y == to.y then [Vec2(x, y)]
    else if error > 0 then [Vec2(x, y)] + Walk(to, x + st.xInc, y, n - 1, error - st.dy2, st)
    else [Vec2(x, y)] + Walk(to, x, y + st.yInc, n - 1, error + st.dx2, st)
  }

  /** The cells `lineOfSight` visits between two positions. */
  function Trace(from: Vec2, to: Vec2): seq<Vec2> {
    var dx: int := Abs(to.x - from.x);
    var dy: int := Abs(to.y - from.y);
    Walk(to, from.x, from.y, 1 + dx + dy, dx - dy, StepsOf(from, to))
  }

  /** Every cell of `cells` other than `from` is transparent. */
  predicate SeenThrough(g: GridState, doors: Registry.Reg<Door>, from: Vec2, cells: seq<Vec2>) {
    forall k :: 0 <= k < |cells| && cells[k] != from ==> IsTransparent(g, cells[k], doors)
  }

  lemma SeenThroughCons(g: GridState, doors: Registry.Reg<Door>, from: Vec2, c: Vec2, rest: seq<Vec2>)
    ensures SeenThrough(g, doors, from, [c] + rest) <==>
              (c != from ==> IsTransparent(g, c, doors)) && SeenThrough(g, doors, from, rest)
  {
    var w := [c] + rest;
    assert w[0] == c;
    assert forall k :: 1 <= k < |w| ==> w[k] == rest[k - 1];
    if (c != from ==> IsTransparent(g, c, doors)) && SeenThrough(g, doors, from, rest) {
      forall k | 0 <= k < |w| && w[k] != from
        ensures IsTransparent(g, w[k], doors)
      {
        if k > 0 {
          assert w[k] == rest[k - 1];
        }
      }
    }
    if SeenThrough(g, doors, from, w) {
      forall k | 0 <= k < |rest| && rest[k] != from
        ensures IsTransparent(g, rest[k], doors)
      {
        assert rest[k] == w[k + 1];
        assert w[k + 1] != from;
      }
    }
  }

  lemma {:induction false} LosLoopWalk(g: GridState, doors: Registry.Reg<Door>, from: Vec2, to: Vec2,
                                       x: int, y: int, n: int, error: int, st: Steps)
    ensures LosLoop(g, doors, from, to, x, y, n, error, st) ==
              SeenThrough(g, doors, from, Walk(to, x, y, n, error, st))
    decreases n
  {
    if n <= 0 {
    } else if x == to.x && y == to.y {
      SeenThroughCons(g, doors, from, Vec2(x, y), []);
    } else if error > 0 {
      LosLoopWalk(g, doors, from, to, x + st.xInc, y, n - 1, error - st.dy2, st);
      SeenThroughCons(g, doors, from, Vec2(x, y), Walk(to, x + st.xInc, y, n - 1, error - st.dy2, st));
    } else {
      LosLoopWalk(g, doors, from, to, x, y + st.yInc, n - 1, error + st.dx2, st);
      SeenThroughCons(g, doors, from, Vec2(x, y), Walk(to, x, y + st.yInc, n - 1, error + st.dx2, st));
    }
  }

  /** Line of sight holds exactly when every traced cell other than the origin is transparent. */
  lemma LosMeansTrace(g: GridState, doors: Registry.Reg<Door>, from: Vec2, to: Vec2)
    ensures LineOfSight(g, doors, from, to) == SeenThrough(g, doors, from, Trace(from, to))
  {
    var dx: int := Abs(to.x - from.x);
    var dy: int := Abs(to.y - from.y);
    LosLoopWalk(g, doors, from, to, from.x, from.y, 1 + dx + dy, dx - dy, StepsOf(from, to));
  }

  /** The loop's position after i steps in x and j steps in y. */
  ghost predicate WalkInv(from: Vec2, to: Vec2, x: int, y: int, n: int, error: int, st: Steps, i: int, j: int) {
    var dx: int := Abs(to.x - from.x);
    var dy: int := Abs(to.y - from.y);
    && st == StepsOf(from, to)
    && 0 <= i <= dx && 0 <= j <= dy
    && x == (if to.x > from.x then from.x + i else from.x - i)
    && y == (if to.y > from.y then from.y + j else from.y - j)
    && n == 1 + dx + dy - i - j
    && error == dx - dy - 2 * (dy * i) + 2 * (dx * j)
  }

  /** A cell lies in the closed box spanned by `a` and `b`. */
  predicate InBox(a: Vec2, b: Vec2, p: Vec2) {
    Min(a.x, b.x) <= p.x <= Max(a.x, b.x) && Min(a.y, b.y) <= p.y <= Max(a.y, b.y)
  }

  /** Once every x step is taken, the error term forbids another. */
  lemma XStepsExhausted(dx: int, dy: int, j: int)
    requires dx >= 0 && 0 <= j < dy
    ensures dx - dy - 2 * (dy * dx) + 2 * (dx * j) <= 0
  {
    MulMonotone(j, dy - 1, dx);
    assert j * dx == dx * j && (dy - 1) * dx == dy * dx - dx;
  }

  /** Once every y step is taken, the error term forces an x step. */
  lemma YStepsExhausted(dx: int, dy: int, i: int)
    requires dy >= 0 && 0 <= i < dx
    ensures dx - dy - 2 * (dy * i) + 2 * (dx * dy) > 0
  {
    MulMonotone(i, dx - 1, dy);
    assert i * dy == dy * i && (dx - 1) * dy == dx * dy - dy;
  }

  lemma AtTarget(from: Vec2, to: Vec2, x: int, y: int, n: int, error: int, st: Steps, i: int, j: int)
    requires WalkInv(from, to, x, y, n, error, st, i, j)
    ensures (x == to.x && y == to.y) <==> (i == Abs(to.x - from.x) && j == Abs(to.y - from.y))
    ensures InBox(from, to, Vec2(x, y))
  {
  }

  /** One loop iteration away from the target keeps the step counts within dx and dy. */
  lemma WalkStep(from: Vec2, to: Vec2, x: int, y: int, n: int, error: int, st: Steps, i: int, j: int)
    requires WalkInv(from, to, x, y, n, error, st, i, j)
    requires !(x == to.x && y == to.y)
    ensures error > 0 ==> WalkInv(from, to, x + st.xInc, y, n - 1, error - st.dy2, st, i + 1, j)
    ensures error <= 0 ==> WalkInv(from, to, x, y + st.yInc, n - 1, error + st.dx2, st, i, j + 1)
  {
    var dx: int := Abs(to.x - from.x);
    var dy: int := Abs(to.y - from.y);
    AtTarget(from, to, x, y, n, error, st, i, j);
    if error > 0 {
      if i == dx {
        XStepsExhausted(dx, dy, j);
        assert false;
      }
      assert dy * (i + 1) == dy * i + dy;
    } else {
      if j == dy {
        YStepsExhausted(dx, dy, i);
        assert false;
      }
      assert dx * (j + 1) == dx * j + dx;
    }
  }

  lemma {:induction false} WalkLength(from: Vec2, to: Vec2, x: int, y: int, n: int, error: int, st: Steps, i: int, j: int)
    requires WalkInv(from, to, x, y, n, error, st, i, j)
    ensures |Walk(to, x, y, n, error, st)| == n
    ensures Walk(to, x, y, n, error, st)[0] == Vec2(x, y)
    ensures Walk(to, x, y, n, error, st)[n - 1] == to
    decreases n
  {
    if x == to.x && y == to.y {
      WalkEnd(from, to, x, y, n, error, st, i, j);
    } else {
      var x', y', e', i', j' := WalkNext(from, to, x, y, n, error, st, i, j);
      WalkLength(from, to, x', y', n - 1, e', st, i', j');
    }
  }

  /** The walk from the target is the target alone. */
  lemma WalkEnd(from: Vec2, to: Vec2, x: int, y: int, n: int, error: int, st: Steps, i: int, j: int)
    requires WalkInv(from, to, x, y, n, error, st, i, j) && x == to.x && y == to.y
    ensures n == 1 && Walk(to, x, y, n, error, st) == [to]
  {
    AtTarget(from, to, x, y, n, error, st, i, j);
  }

  /** One step of the walk: a neighbouring cell where the invariant holds again. */
  lemma WalkNext(from: Vec2, to: Vec2, x: int, y: int, n: int, error: int, st: Steps, i: int, j: int)
    returns (x': int, y': int, e': int, i': int, j': int)
    requires WalkInv(from, to, x, y, n, error, st, i, j) && !(x == to.x && y == to.y)
    ensures WalkInv(from, to, x', y', n - 1, e', st, i', j')
    ensures Walk(to, x, y, n, error, st) == [Vec2(x, y)] + Walk(to, x', y', n - 1, e', st)
    ensures Manhattan(Vec2(x, y), Vec2(x', y')) == 1
  {
    WalkStep(from, to, x, y, n, error, st, i, j);
    assert n >= 2 by {
      AtTarget(from, to, x, y, n, error, st, i, j);
    }
    if error > 0 {
      x', y', e', i', j' := x + st.xInc, y, error - st.dy2, i + 1, j;
    } else {
      x', y', e', i', j' := x, y + st.yInc, error + st.dx2, i, j + 1;
    }
  }



  lemma {:induction false} WalkInBox(from: Vec2, to: Vec2, x: int, y: int, n: int, error: int, st: Steps, i: int, j: int)
    requires WalkInv(from, to, x, y, n, error, st, i, j)
    ensures forall k :: 0 <= k < |Walk(to, x, y, n, error, st)| ==> InBox(from, to, Walk(to, x, y, n, error, st)[k])
    decreases n
  {
    AtTarget(from, to, x, y, n, error, st, i, j);
    if x == to.x && y == to.y {
      WalkEnd(from, to, x, y, n, error, st, i, j);
    } else {
      var x', y', e', i', j' := WalkNext(from, to, x, y, n, error, st, i, j);
      WalkInBox(from, to, x', y', n - 1, e', st, i', j');
      InBoxCons(from, to, Vec2(x, y), Walk(to, x', y', n - 1, e', st));
    }
  }

  lemma InBoxCons(from: Vec2, to: Vec2, p: Vec2, rest: seq<Vec2>)
    requires InBox(from, to, p) && forall k :: 0 <= k < |rest| ==> InBox(from, to, rest[k])
    ensures forall k :: 0 <= k < |[p] + rest| ==> InBox(from, to, ([p] + rest)[k])
  {
    var w := [p] + rest;
    forall k | 0 <= k < |w|
      ensures InBox(from, to, w[k])
    {
      if k > 0 {
        assert w[k] == rest[k - 1];
      }
    }
  }


  lemma {:induction false} WalkAdjacent(from: Vec2, to: Vec2, x: int, y: int, n: int, error: int, st: Steps, i: int, j: int)
    requires WalkInv(from, to, x, y, n, error, st, i, j)
    ensures forall k :: 0 <= k < |Walk(to, x, y, n, error, st)| - 1 ==>
              Manhattan(Walk(to, x, y, n, error, st)[k], Walk(to, x, y, n, error, st)[k + 1]) == 1
    decreases n
  {
    if x == to.x && y == to.y {
      WalkEnd(from, to, x, y, n, error, st, i, j);
    } else {
      var x', y', e', i', j' := WalkNext(from, to, x, y, n, error, st, i, j);
      WalkAdjacent(from, to, x', y', n - 1, e', st, i', j');
      WalkLength(from, to, x', y', n - 1, e', st, i', j');
      AdjacentCons(Vec2(x, y), Walk(to, x', y', n - 1, e', st));
    }
  }

  /** Putting a neighbour of its first cell in front keeps a path connected. */
  lemma AdjacentCons(p: Vec2, rest: seq<Vec2>)
    requires |rest| > 0 && Manhattan(p, rest[0]) == 1
    requires forall k :: 0 <= k < |rest| - 1 ==> Manhattan(rest[k], rest[k + 1]) == 1
    ensures forall k :: 0 <= k < |[p] + rest| - 1 ==> Manhattan(([p] + rest)[k], ([p] + rest)[k + 1]) == 1
  {
    var w := [p] + rest;
    forall k | 0 <= k < |w| - 1
      ensures Manhattan(w[k], w[k + 1]) == 1
    {
      if k > 0 {
        assert w[k] == rest[k - 1] && w[k + 1] == rest[k];
      }
    }
  }


  /** The traced cells form a 4-connected walk of exactly 1 + dx + dy cells
      from `from` to `to`, inside their bounding box. */
  lemma TraceShape(from: Vec2, to: Vec2)
    ensures |Trace(from, to)| == 1 + Manhattan(from, to)
    ensures Trace(from, to)[0] == from
    ensures Trace(from, to)[|Trace(from, to)| - 1] == to
    ensures forall k :: 0 <= k < |Trace(from, to)| ==> InBox(from, to, Trace(from, to)[k])
    ensures forall k :: 0 <= k < |Trace(from, to)| - 1 ==> Manhattan(Trace(from, to)[k], Trace(from, to)[k + 1]) == 1
  {
    var dx: int := Abs(to.x - from.x);
    var dy: int := Abs(to.y - from.y);
    WalkLength(from, to, from.x, from.y, 1 + dx + dy, dx - dy, StepsOf(from, to), 0, 0);
    WalkInBox(from, to, from.x, from.y, 1 + dx + dy, dx - dy, StepsOf(from, to), 0, 0);
    WalkAdjacent(from, to, from.x, from.y, 1 + dx + dy, dx - dy, StepsOf(from, to), 0, 0);
  }

  /** A unit always sees its own cell, and seeing another cell requires that cell to be transparent. */
  lemma LosEndpoints(g: GridState, doors: Registry.Reg<Door>, from: Vec2, to: Vec2)
    ensures LineOfSight(g, doors, from, from)
    ensures LineOfSight(g, doors, from, to) && to != from ==> IsTransparent(g, to, doors)
  {
    LosMeansTrace(g, doors, from, from);
    TraceShape(from, from);
    LosMeansTrace(g, doors, from, to);
    TraceShape(from, to);
  }
}
