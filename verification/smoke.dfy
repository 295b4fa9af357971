/** Smoke clouds: laying a diamond of smoke around a point, and the timer
    that thins it out once per turn. */
module Smoke {
  import opened Common
  import opened State
  import opened Grid
  import Registry

  /** A queued cloud: every cell within `radius` steps of `center` gets `turns` of smoke. */
  datatype SmokeEntry = SmokeEntry(center: Vec2, radius: int, turns: int)

  /** A tile's smoke raised to at least `turns` (a missing timer counts as 0). */
  function Thicken(t: Tile, turns: int): (t': Tile)
    ensures t' == t.(smoke := t'.smoke) && t'.smoke.Some?
    ensures t'.smoke.value >= turns && (t.smoke.Some? ==> t'.smoke.value >= t.smoke.value)
  {
    t.(smoke := Some(Max(t.smoke.GetOr(0), turns)))
  }

  /** The cell the tile at index `i` stands for in a row-major grid. */
  function Cell(g: GridState, i: int): Vec2
    requires g.width > 0
  {
    Vec2(i % g.width, i / g.width)
  }

  /** The cloud reaches the tile at index `i`: the index lies inside the
      grid's cells and the tile list, and its cell is within the radius. */
  predicate Hit(g: GridState, e: SmokeEntry, i: int) {
    g.width > 0 && 0 <= i < |g.tiles| && i / g.width < g.height && Manhattan(e.center, Cell(g, i)) <= e.radius
  }

  /** The inner loop of `applySmoke`: row `y`, columns from `x` to the right edge of the box. */
  function SmokeRow(g: GridState, e: SmokeEntry, y: int, x: int): (g': GridState)
    ensures g'.width == g.width && g'.height == g.height && |g'.tiles| == |g.tiles|
    decreases e.center.x + e.radius - x + 1
  {
    if x > e.center.x + e.radius then g
    else
      var g1 := match GetTile(g, Vec2(x, y))
        case None => g
        case Some(t) =>
          if Abs(e.center.x - x) + Abs(e.center.y - y) <= e.radius then
            g.(tiles := g.tiles[y * g.width + x := Thicken(t, e.turns)])
          else g;
      SmokeRow(g1, e, y, x + 1)
  }

  /** The outer loop of `applySmoke`: rows from `y` to the bottom edge of the box. */
  function SmokeRows(g: GridState, e: SmokeEntry, y: int): (g': GridState)
    ensures g'.width == g.width && g'.height == g.height && |g'.tiles| == |g.tiles|
    decreases e.center.y + e.radius - y + 1
  {
    if y > e.center.y + e.radius then g
    else SmokeRows(SmokeRow(g, e, y, e.center.x - e.radius), e, y + 1)
  }

  lemma DivModParts(i: int, w: int)
    requires w > 0 && i >= 0
    ensures i == (i / w) * w + i % w && 0 <= i % w < w && i / w >= 0
  {
  }

  /** The row loop thickens exactly the hit tiles of row `y` from column `x` on. */
  lemma {:induction false} SmokeRowMeans(g: GridState, e: SmokeEntry, y: int, x: int, i: int)
    requires 0 <= i < |g.tiles|
    ensures SmokeRow(g, e, y, x).tiles[i] ==
              if Hit(g, e, i) && i / g.width == y && x <= i % g.width then Thicken(g.tiles[i], e.turns) else g.tiles[i]
    decreases e.center.x + e.radius - x + 1
  {
    if x <= e.center.x + e.radius {
      var g1 := match GetTile(g, Vec2(x, y))
        case None => g
        case Some(t) =>
          if Abs(e.center.x - x) + Abs(e.center.y - y) <= e.radius then
            g.(tiles := g.tiles[y * g.width + x := Thicken(t, e.turns)])
          else g;
      SmokeRowMeans(g1, e, y, x + 1, i);
      if g.width > 0 {
        DivModParts(i, g.width);
        var hereIsI := i / g.width == y && i % g.width == x;
        if hereIsI {
          assert i == y * g.width + x;
          assert InBounds(g, Vec2(x, y)) <==> i / g.width < g.height;
        } else if GetTile(g, Vec2(x, y)).Some? {
          if y * g.width + x == i {
            DivModUnique(i, g.width, x, y);
          }
          assert g1.tiles[i] == g.tiles[i];
        }
      }
    }
  }

  /** The row loops from row `y` on thicken exactly the hit tiles of those rows. */
  lemma {:induction false} SmokeRowsMeans(g: GridState, e: SmokeEntry, y: int, i: int)
    requires 0 <= i < |g.tiles|
    ensures SmokeRows(g, e, y).tiles[i] ==
              if Hit(g, e, i) && y <= i / g.width then Thicken(g.tiles[i], e.turns) else g.tiles[i]
    decreases e.center.y + e.radius - y + 1
  {
    if y <= e.center.y + e.radius {
      var g1 := SmokeRow(g, e, y, e.center.x - e.radius);
      SmokeRowMeans(g, e, y, e.center.x - e.radius, i);
      SmokeRowsMeans(g1, e, y + 1, i);
      if Hit(g, e, i) && i / g.width == y {
        assert Thicken(Thicken(g.tiles[i], e.turns), e.turns) == Thicken(g.tiles[i], e.turns);
      }
    } else if Hit(g, e, i) {
      assert i / g.width <= e.center.y + e.radius;
    }
  }

  /** One cloud of `applySmoke`: the box around the center, row by row. */
  function SmokeEntryApply(g: GridState, e: SmokeEntry): (g': GridState)
    ensures g'.width == g.width && g'.height == g.height && |g'.tiles| == |g.tiles|
  {
    SmokeRows(g, e, e.center.y - e.radius)
  }

  /** A cloud thickens exactly the tiles whose cells lie within its radius and on the grid. */
  lemma SmokeEntryMeans(g: GridState, e: SmokeEntry, i: int)
    requires 0 <= i < |g.tiles|
    ensures SmokeEntryApply(g, e).tiles[i] == if Hit(g, e, i) then Thicken(g.tiles[i], e.turns) else g.tiles[i]
  {
    SmokeRowsMeans(g, e, e.center.y - e.radius, i);
  }

  /** `applySmoke`: the queued clouds in order. */
  function ApplySmoke(g: GridState, entries: seq<SmokeEntry>): (g': GridState)
    ensures g'.width == g.width && g'.height == g.height && |g'.tiles| == |g.tiles|
    decreases |entries|
  {
    if |entries| == 0 then g else ApplySmoke(SmokeEntryApply(g, entries[0]), entries[1..])
  }

  /** Clouds change only smoke; a tile no cloud reaches is untouched, and a
      tile a cloud reaches holds at least that cloud's turns. */
  lemma {:induction false} ApplySmokeMeans(g: GridState, entries: seq<SmokeEntry>, i: int)
    requires 0 <= i < |g.tiles|
    ensures ApplySmoke(g, entries).tiles[i] == g.tiles[i].(smoke := ApplySmoke(g, entries).tiles[i].smoke)
    ensures (forall j :: 0 <= j < |entries| ==> !Hit(g, entries[j], i)) ==> ApplySmoke(g, entries).tiles[i] == g.tiles[i]
    ensures forall j :: 0 <= j < |entries| && Hit(g, entries[j], i) ==>
              ApplySmoke(g, entries).tiles[i].smoke.Some? && ApplySmoke(g, entries).tiles[i].smoke.value >= entries[j].turns
    ensures g.tiles[i].smoke.Some? ==>
              ApplySmoke(g, entries).tiles[i].smoke.Some? && ApplySmoke(g, entries).tiles[i].smoke.value >= g.tiles[i].smoke.value
    decreases |entries|
  {
    if |entries| > 0 {
      var g1 := SmokeEntryApply(g, entries[0]);
      SmokeEntryMeans(g, entries[0], i);
      ApplySmokeMeans(g1, entries[1..], i);
      assert forall j :: 1 <= j < |entries| ==> entries[1..][j - 1] == entries[j];
      assert forall j :: 0 <= j < |entries| ==> (Hit(g, entries[j], i) <==> Hit(g1, entries[j], i));
    }
  }

  /** One tile of `tickSmoke`: positive smoke loses a turn, then smoke at or
      below zero is removed. */
  function TickTile(t: Tile): (t': Tile)
    ensures t' == t.(smoke := t'.smoke)
    ensures t'.smoke == if t.smoke.Some? && t.smoke.value > 1 then Some(t.smoke.value - 1) else None
  {
    var dec := if t.smoke.Some? && t.smoke.value > 0 then Some(t.smoke.value - 1) else t.smoke;
    t.(smoke := if dec.Some? && dec.value <= 0 then None else dec)
  }

  /** `tickSmoke`: every tile's smoke timer advances. */
  function TickSmoke(g: GridState): (g': GridState)
    ensures g'.width == g.width && g'.height == g.height && |g'.tiles| == |g.tiles|
    ensures forall i :: 0 <= i < |g.tiles| ==> g'.tiles[i] == TickTile(g.tiles[i])
  {
    g.(tiles := seq(|g.tiles|, i requires 0 <= i < |g.tiles| => TickTile(g.tiles[i])))
  }

  /** Ticking never makes a cell opaque and never changes passability. */
  lemma TickKeepsSight(g: GridState, p: Vec2, doors: Registry.Reg<Door>)
    ensures IsTransparent(g, p, doors) ==> IsTransparent(TickSmoke(g), p, doors)
    ensures IsPassable(g, p, doors) == IsPassable(TickSmoke(g), p, doors)
  {
  }

  /** Clouds of one turn laid on clear or one-turn smoke are gone after the
      tick that ends the same step. */
  lemma OneTurnSmokeClears(g: GridState, entries: seq<SmokeEntry>, i: int)
    requires 0 <= i < |g.tiles|
    requires g.tiles[i].smoke.Some? ==> g.tiles[i].smoke.value <= 1
    requires forall j :: 0 <= j < |entries| ==> entries[j].turns <= 1
    ensures TickSmoke(ApplySmoke(g, entries)).tiles[i].smoke.None?
  {
    SmokeTurnsBound(g, entries, i, 1);
  }

  /** Clouds never raise a timer above the longest of the old one (or 0) and their own turns. */
  lemma {:induction false} SmokeTurnsBound(g: GridState, entries: seq<SmokeEntry>, i: int, bound: int)
    requires 0 <= i < |g.tiles| && bound >= 0
    requires g.tiles[i].smoke.Some? ==> g.tiles[i].smoke.value <= bound
    requires forall j :: 0 <= j < |entries| ==> entries[j].turns <= bound
    ensures ApplySmoke(g, entries).tiles[i].smoke.Some? ==> ApplySmoke(g, entries).tiles[i].smoke.value <= bound
    decreases |entries|
  {
    if |entries| > 0 {
      var g1 := SmokeEntryApply(g, entries[0]);
      SmokeEntryMeans(g, entries[0], i);
      SmokeTurnsBound(g1, entries[1..], i, bound);
    }
  }
}
