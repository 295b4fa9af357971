/** Breadth-first `findPath` over 4-connected passable cells, and the proof
    that it returns a shortest walk, or just the start when the target
    cannot be reached. */
module Pathfind {
  import opened Common
  import opened State
  import opened Grid
  import Registry

  /** The neighbour order of the search: right, left, down, up. */
  const Directions: seq<Vec2> := [Vec2(1, 0), Vec2(-1, 0), Vec2(0, 1), Vec2(0, -1)]

  function Neighbour(p: Vec2, d: nat): Vec2
    requires d < 4
  {
    Vec2(p.x + Directions[d].x, p.y + Directions[d].y)
  }

  lemma NeighbourMeans(p: Vec2, q: Vec2)
    ensures Manhattan(p, q) == 1 <==> exists d :: 0 <= d < 4 && q == Neighbour(p, d)
  {
    if Manhattan(p, q) == 1 {
      if q.x == p.x + 1 { assert q == Neighbour(p, 0); }
      else if q.x == p.x - 1 { assert q == Neighbour(p, 1); }
      else if q.y == p.y + 1 { assert q == Neighbour(p, 2); }
      else { assert q == Neighbour(p, 3); }
    }
  }

  /** The cells of the grid: a finite bound on what the search can discover. */
  function Cells(g: GridState): set<Vec2> {
    set x, y | 0 <= x < g.width && 0 <= y < g.height :: Vec2(x, y)
  }

  lemma PassableInCells(g: GridState, doors: Registry.Reg<Door>, p: Vec2)
    requires IsPassable(g, p, doors)
    ensures p in Cells(g)
  {
    assert InBounds(g, p);
    assert p == Vec2(p.x, p.y);
  }

  /** Tries the four neighbours of `cur` from direction `d` on, recording
      each passable cell not yet discovered with `cur` as its predecessor. */
  function Expand(g: GridState, doors: Registry.Reg<Door>, cur: Vec2, d: nat,
                  order: seq<Vec2>, parent: map<Vec2, Option<Vec2>>): (r: (seq<Vec2>, map<Vec2, Option<Vec2>>))
    requires d <= 4
    ensures |r.0| >= |order| && r.0[..|order|] == order
    ensures parent.Keys <= r.1.Keys
    ensures forall v :: v in r.1 && v !in parent ==> v in Cells(g)
    ensures r.1.Keys == parent.Keys ==> r.0 == order
    decreases 4 - d
  {
    if d == 4 then (order, parent)
    else
      var next := Neighbour(cur, d);
      if next in parent || !IsPassable(g, next, doors) then Expand(g, doors, cur, d + 1, order, parent)
      else
        PassableInCells(g, doors, next);
        var r := Expand(g, doors, cur, d + 1, order + [next], parent[next := Some(cur)]);
        assert r.0[..|order|] == (order + [next])[..|order|];
        r
  }

  /** The breadth-first loop: `order` lists the cells in discovery order and
      `order[head..]` is the queue; it stops when the queue empties or its
      front is the target. */
  function Search(g: GridState, doors: Registry.Reg<Door>, to: Vec2,
                  order: seq<Vec2>, head: nat, parent: map<Vec2, Option<Vec2>>): (r: (seq<Vec2>, nat, map<Vec2, Option<Vec2>>))
    requires head <= |order|
    ensures r.1 <= |r.0|
    decreases Cells(g) - parent.Keys, |order| - head
  {
    if head == |order| then (order, head, parent)
    else
      var cur := order[head];
      if cur == to then (order, head, parent)
      else
        var (order', parent') := Expand(g, doors, cur, 0, order, parent);
        if parent'.Keys == parent.Keys then
          Search(g, doors, to, order', head + 1, parent')
        else
          var v :| v in parent'.Keys && v !in parent.Keys;
          assert v in Cells(g) - parent.Keys && v !in Cells(g) - parent'.Keys;
          Search(g, doors, to, order', head + 1, parent')
  }

  /** Follows predecessors back from `cur` to the start and lists the cells
      start-first; `fuel` bounds the walk back. */
  function Reconstruct(parent: map<Vec2, Option<Vec2>>, cur: Vec2, fuel: nat): seq<Vec2>
    decreases fuel
  {
    if fuel == 0 || cur !in parent || parent[cur].None? then [cur]
    else Reconstruct(parent, parent[cur].value, fuel - 1) + [cur]
  }

  /** `findPath`: the breadth-first path from `from` to `to`, or `[from]`
      when the target was never discovered. */
  function FindPath(g: GridState, doors: Registry.Reg<Door>, from: Vec2, to: Vec2): seq<Vec2> {
    var (order, _, parent) := Search(g, doors, to, [from], 0, map[from := None]);
    if to !in parent then [from] else Reconstruct(parent, to, |order|)
  }

  // ---------------------------------------------------------------------
  // Correctness

  /** A walk: consecutive cells are 4-adjacent and every cell after the first is passable. */
  ghost predicate IsWalk(g: GridState, doors: Registry.Reg<Door>, w: seq<Vec2>) {
    && |w| >= 1
    && (forall k :: 0 <= k < |w| - 1 ==> Manhattan(w[k], w[k + 1]) == 1)
    && (forall k :: 1 <= k < |w| ==> IsPassable(g, w[k], doors))
  }

  ghost predicate Reachable(g: GridState, doors: Registry.Reg<Door>, from: Vec2, to: Vec2) {
    exists w :: IsWalk(g, doors, w) && w[0] == from && w[|w| - 1] == to
  }

  /** `order` lists exactly the discovered cells, once each, and `dist` is defined on them. */
  ghost predicate Discovered(order: seq<Vec2>, parent: map<Vec2, Option<Vec2>>, dist: map<Vec2, nat>) {
    && |order| >= 1
    && Distinct(order)
    && (forall k :: 0 <= k < |order| ==> order[k] in parent)
    && (forall v :: v in parent ==> v in order)
    && parent.Keys == dist.Keys
  }

  /** Predecessor links form a tree rooted at `from`, one step per link. */
  ghost predicate Tree(g: GridState, doors: Registry.Reg<Door>, from: Vec2,
                       order: seq<Vec2>, parent: map<Vec2, Option<Vec2>>, dist: map<Vec2, nat>)
    requires Discovered(order, parent, dist)
  {
    && order[0] == from
    && parent[from] == None && dist[from] == 0
    && forall v :: v in parent && v != from ==>
         && parent[v].Some?
         && parent[v].value in parent
         && dist[v] == dist[parent[v].value] + 1
         && Manhattan(parent[v].value, v) == 1
         && IsPassable(g, v, doors)
  }

  /** Distances never decrease along the discovery order, the queue spans at
      most two levels, and a cell's distance is at most its position. */
  ghost predicate Layered(order: seq<Vec2>, parent: map<Vec2, Option<Vec2>>, dist: map<Vec2, nat>, head: nat)
    requires Discovered(order, parent, dist)
  {
    && (forall a, b :: 0 <= a <= b < |order| ==> dist[order[a]] <= dist[order[b]])
    && (forall k :: 0 <= k < |order| ==> dist[order[k]] <= k)
    && (head < |order| ==> dist[order[|order| - 1]] <= dist[order[head]] + 1)
  }

  /** Every passable neighbour of the first `upto` cells was discovered at most one level further. */
  ghost predicate Closed(g: GridState, doors: Registry.Reg<Door>,
                         order: seq<Vec2>, parent: map<Vec2, Option<Vec2>>, dist: map<Vec2, nat>, upto: nat)
    requires Discovered(order, parent, dist) && upto <= |order|
  {
    forall k, d :: 0 <= k < upto && 0 <= d < 4 && IsPassable(g, Neighbour(order[k], d), doors) ==>
      Neighbour(order[k], d) in parent && dist[Neighbour(order[k], d)] <= dist[order[k]] + 1
  }

  ghost predicate SearchInv(g: GridState, doors: Registry.Reg<Door>, from: Vec2, to: Vec2,
                            order: seq<Vec2>, head: nat, parent: map<Vec2, Option<Vec2>>, dist: map<Vec2, nat>) {
    && head <= |order|
    && Discovered(order, parent, dist)
    && Tree(g, doors, from, order, parent, dist)
    && Layered(order, parent, dist, head)
    && Closed(g, doors, order, parent, dist, head)
    && (forall k :: 0 <= k < head ==> order[k] != to)
  }

  /** The inner loop's invariant while the neighbours of `order[head]` are tried. */
  ghost predicate ExpandInv(g: GridState, doors: Registry.Reg<Door>, from: Vec2, head: nat, dd: nat,
                            order: seq<Vec2>, parent: map<Vec2, Option<Vec2>>, dist: map<Vec2, nat>) {
    && head < |order|
    && Discovered(order, parent, dist)
    && Tree(g, doors, from, order, parent, dist)
    && (forall a, b :: 0 <= a <= b < |order| ==> dist[order[a]] <= dist[order[b]])
    && (forall k :: 0 <= k < |order| ==> dist[order[k]] <= k)
    && dist[order[|order| - 1]] <= dist[order[head]] + 1
    && Closed(g, doors, order, parent, dist, head)
    && dd <= 4
    && forall d :: 0 <= d < dd && IsPassable(g, Neighbour(order[head], d), doors) ==>
         Neighbour(order[head], d) in parent && dist[Neighbour(order[head], d)] <= dist[order[head]] + 1
  }

  lemma DiscoveredAppend(order: seq<Vec2>, parent: map<Vec2, Option<Vec2>>, dist: map<Vec2, nat>,
                         next: Vec2, link: Option<Vec2>, dn: nat)
    requires Discovered(order, parent, dist) && next !in parent
    ensures Discovered(order + [next], parent[next := link], dist[next := dn])
  {
    var order' := order + [next];
    assert forall k :: 0 <= k < |order| ==> order'[k] == order[k];
    assert order'[|order|] == next;
    forall v | v in parent[next := link]
      ensures v in order'
    {
      if v != next {
        assert v in order;
        var k :| 0 <= k < |order| && order[k] == v;
        assert order'[k] == v;
      }
    }
  }

  lemma TreeAppend(g: GridState, doors: Registry.Reg<Door>, from: Vec2, head: nat, dd: nat,
                   order: seq<Vec2>, parent: map<Vec2, Option<Vec2>>, dist: map<Vec2, nat>)
    requires head < |order| && Discovered(order, parent, dist) && Tree(g, doors, from, order, parent, dist) && dd < 4
    requires Neighbour(order[head], dd) !in parent && IsPassable(g, Neighbour(order[head], dd), doors)
    ensures Discovered(order + [Neighbour(order[head], dd)], parent[Neighbour(order[head], dd) := Some(order[head])],
                       dist[Neighbour(order[head], dd) := dist[order[head]] + 1])
    ensures Tree(g, doors, from, order + [Neighbour(order[head], dd)],
                 parent[Neighbour(order[head], dd) := Some(order[head])],
                 dist[Neighbour(order[head], dd) := dist[order[head]] + 1])
  {
    var cur := order[head];
    NeighbourManhattan(cur, dd);
    assert from in parent;
    TreeExtend(g, doors, from, order, parent, dist, cur, Neighbour(cur, dd));
  }

  /** Linking a fresh passable neighbour of a discovered cell keeps the tree. */
  lemma TreeExtend(g: GridState, doors: Registry.Reg<Door>, from: Vec2,
                   order: seq<Vec2>, parent: map<Vec2, Option<Vec2>>, dist: map<Vec2, nat>, cur: Vec2, next: Vec2)
    requires Discovered(order, parent, dist) && Tree(g, doors, from, order, parent, dist)
    requires cur in parent && next !in parent && Manhattan(cur, next) == 1 && IsPassable(g, next, doors)
    ensures Discovered(order + [next], parent[next := Some(cur)], dist[next := dist[cur] + 1])
    ensures Tree(g, doors, from, order + [next], parent[next := Some(cur)], dist[next := dist[cur] + 1])
  {
    DiscoveredAppend(order, parent, dist, next, Some(cur), dist[cur] + 1);
  }

  lemma LayeredAppend(g: GridState, doors: Registry.Reg<Door>, from: Vec2, head: nat, dd: nat,
                      order: seq<Vec2>, parent: map<Vec2, Option<Vec2>>, dist: map<Vec2, nat>)
    requires ExpandInv(g, doors, from, head, dd, order, parent, dist) && dd < 4
    requires Neighbour(order[head], dd) !in parent && IsPassable(g, Neighbour(order[head], dd), doors)
    ensures var next := Neighbour(order[head], dd);
            var order', dist' := order + [next], dist[next := dist[order[head]] + 1];
            && (forall k :: 0 <= k < |order'| ==> order'[k] in dist')
            && (forall a, b :: 0 <= a <= b < |order'| ==> dist'[order'[a]] <= dist'[order'[b]])
            && (forall k :: 0 <= k < |order'| ==> dist'[order'[k]] <= k)
            && dist'[order'[|order'| - 1]] <= dist'[order'[head]] + 1
  {
    var cur := order[head];
    var next := Neighbour(cur, dd);
    var order', dist' := order + [next], dist[next := dist[cur] + 1];
    assert forall k :: 0 <= k < |order| ==> order'[k] == order[k] && order[k] != next && order[k] in dist;
    assert order'[|order|] == next;
    assert dist'[cur] == dist[cur];
  }

  lemma ClosedAppend(g: GridState, doors: Registry.Reg<Door>, from: Vec2, head: nat, dd: nat,
                     order: seq<Vec2>, parent: map<Vec2, Option<Vec2>>, dist: map<Vec2, nat>)
    requires ExpandInv(g, doors, from, head, dd, order, parent, dist) && dd < 4
    requires Neighbour(order[head], dd) !in parent && IsPassable(g, Neighbour(order[head], dd), doors)
    requires Discovered(order + [Neighbour(order[head], dd)], parent[Neighbour(order[head], dd) := Some(order[head])],
                        dist[Neighbour(order[head], dd) := dist[order[head]] + 1])
    ensures var next := Neighbour(order[head], dd);
            var order', parent', dist' := order + [next], parent[next := Some(order[head])], dist[next := dist[order[head]] + 1];
            && Closed(g, doors, order', parent', dist', head)
            && forall d :: 0 <= d < dd + 1 && IsPassable(g, Neighbour(order'[head], d), doors) ==>
                 Neighbour(order'[head], d) in parent' && dist'[Neighbour(order'[head], d)] <= dist'[order'[head]] + 1
  {
    var cur := order[head];
    var next := Neighbour(cur, dd);
    ClosedKept(g, doors, order, parent, dist, head, next, Some(cur), dist[cur] + 1);
    HeadClosed(g, doors, order, parent, dist, head, dd);
  }

  /** Discovering a new cell keeps the cells already expanded closed. */
  lemma ClosedKept(g: GridState, doors: Registry.Reg<Door>, order: seq<Vec2>, parent: map<Vec2, Option<Vec2>>,
                   dist: map<Vec2, nat>, head: nat, next: Vec2, link: Option<Vec2>, dn: nat)
    requires Discovered(order, parent, dist) && head <= |order| && Closed(g, doors, order, parent, dist, head)
    requires next !in parent && Discovered(order + [next], parent[next := link], dist[next := dn])
    ensures Closed(g, doors, order + [next], parent[next := link], dist[next := dn], head)
  {
    var order' := order + [next];
    assert forall k :: 0 <= k < |order| ==> order'[k] == order[k] && order[k] in parent;
  }

  /** Discovering the neighbour in direction `dd` closes it for the cell at the head. */
  lemma HeadClosed(g: GridState, doors: Registry.Reg<Door>, order: seq<Vec2>, parent: map<Vec2, Option<Vec2>>,
                   dist: map<Vec2, nat>, head: nat, dd: nat)
    requires head < |order| && dd < 4 && order[head] in parent && order[head] in dist
    requires Neighbour(order[head], dd) !in parent
    requires forall d :: 0 <= d < dd && IsPassable(g, Neighbour(order[head], d), doors) ==>
               Neighbour(order[head], d) in parent && Neighbour(order[head], d) in dist &&
               dist[Neighbour(order[head], d)] <= dist[order[head]] + 1
    ensures var next := Neighbour(order[head], dd);
            var order', parent', dist' := order + [next], parent[next := Some(order[head])], dist[next := dist[order[head]] + 1];
            forall d :: 0 <= d < dd + 1 && IsPassable(g, Neighbour(order'[head], d), doors) ==>
              Neighbour(order'[head], d) in parent' && dist'[Neighbour(order'[head], d)] <= dist'[order'[head]] + 1
  {
    var next := Neighbour(order[head], dd);
    assert (order + [next])[head] == order[head];
  }


  lemma DiscoverOne(g: GridState, doors: Registry.Reg<Door>, from: Vec2, head: nat, dd: nat,
                    order: seq<Vec2>, parent: map<Vec2, Option<Vec2>>, dist: map<Vec2, nat>)
    requires ExpandInv(g, doors, from, head, dd, order, parent, dist) && dd < 4
    requires Neighbour(order[head], dd) !in parent && IsPassable(g, Neighbour(order[head], dd), doors)
    ensures ExpandInv(g, doors, from, head, dd + 1, order + [Neighbour(order[head], dd)],
                      parent[Neighbour(order[head], dd) := Some(order[head])],
                      dist[Neighbour(order[head], dd) := dist[order[head]] + 1])
  {
    TreeAppend(g, doors, from, head, dd, order, parent, dist);
    LayeredAppend(g, doors, from, head, dd, order, parent, dist);
    ClosedAppend(g, doors, from, head, dd, order, parent, dist);
  }

  lemma NeighbourManhattan(p: Vec2, d: nat)
    requires d < 4
    ensures Manhattan(p, Neighbour(p, d)) == 1
  {
  }

  lemma {:induction false} ExpandCorrect(g: GridState, doors: Registry.Reg<Door>, from: Vec2, head: nat, dd: nat,
                                         order: seq<Vec2>, parent: map<Vec2, Option<Vec2>>, dist: map<Vec2, nat>)
      returns (dist': map<Vec2, nat>)
    requires ExpandInv(g, doors, from, head, dd, order, parent, dist)
    ensures ExpandInv(g, doors, from, head, 4, Expand(g, doors, order[head], dd, order, parent).0,
                      Expand(g, doors, order[head], dd, order, parent).1, dist')
    decreases 4 - dd
  {
    if dd == 4 {
      dist' := dist;
    } else {
      var next := Neighbour(order[head], dd);
      if next in parent || !IsPassable(g, next, doors) {
        dist' := ExpandCorrect(g, doors, from, head, dd + 1, order, parent, dist);
      } else {
        DiscoverOne(g, doors, from, head, dd, order, parent, dist);
        var order1 := order + [next];
        assert order1[head] == order[head];
        dist' := ExpandCorrect(g, doors, from, head, dd + 1, order1, parent[next := Some(order[head])],
                               dist[next := dist[order[head]] + 1]);
      }
    }
  }

  lemma AdvanceHead(g: GridState, doors: Registry.Reg<Door>, from: Vec2, to: Vec2, head: nat,
                    order: seq<Vec2>, order': seq<Vec2>, parent': map<Vec2, Option<Vec2>>, dist': map<Vec2, nat>)
    requires ExpandInv(g, doors, from, head, 4, order', parent', dist')
    requires head < |order| <= |order'| && order'[..|order|] == order
    requires forall k :: 0 <= k <= head ==> order[k] != to
    ensures SearchInv(g, doors, from, to, order', head + 1, parent', dist')
  {
    assert forall k :: 0 <= k <= head ==> order'[k] == order[k];
    if head + 1 < |order'| {
      assert dist'[order'[head]] <= dist'[order'[head + 1]];
    }
  }

  lemma StartExpand(g: GridState, doors: Registry.Reg<Door>, from: Vec2, to: Vec2,
                    order: seq<Vec2>, head: nat, parent: map<Vec2, Option<Vec2>>, dist: map<Vec2, nat>)
    requires SearchInv(g, doors, from, to, order, head, parent, dist) && head < |order|
    ensures ExpandInv(g, doors, from, head, 0, order, parent, dist)
  {
  }

  lemma {:induction false} SearchCorrect(g: GridState, doors: Registry.Reg<Door>, from: Vec2, to: Vec2,
                                         order: seq<Vec2>, head: nat, parent: map<Vec2, Option<Vec2>>, dist: map<Vec2, nat>)
      returns (dist': map<Vec2, nat>)
    requires SearchInv(g, doors, from, to, order, head, parent, dist)
    ensures SearchInv(g, doors, from, to, Search(g, doors, to, order, head, parent).0,
                      Search(g, doors, to, order, head, parent).1, Search(g, doors, to, order, head, parent).2, dist')
    ensures Search(g, doors, to, order, head, parent).1 < |Search(g, doors, to, order, head, parent).0| ==>
              Search(g, doors, to, order, head, parent).0[Search(g, doors, to, order, head, parent).1] == to
    decreases Cells(g) - parent.Keys, |order| - head
  {
    if head == |order| || order[head] == to {
      dist' := dist;
    } else {
      var e := Expand(g, doors, order[head], 0, order, parent);
      var d1 := SearchStep(g, doors, from, to, order, head, parent, dist);
      dist' := SearchCorrect(g, doors, from, to, e.0, head + 1, e.1, d1);
    }
  }

  /** One turn of the search loop keeps its invariant and makes progress. */
  lemma SearchStep(g: GridState, doors: Registry.Reg<Door>, from: Vec2, to: Vec2,
                   order: seq<Vec2>, head: nat, parent: map<Vec2, Option<Vec2>>, dist: map<Vec2, nat>)
      returns (d1: map<Vec2, nat>)
    requires SearchInv(g, doors, from, to, order, head, parent, dist) && head < |order| && order[head] != to
    ensures var e := Expand(g, doors, order[head], 0, order, parent);
            && SearchInv(g, doors, from, to, e.0, head + 1, e.1, d1)
            && Search(g, doors, to, order, head, parent) == Search(g, doors, to, e.0, head + 1, e.1)
            && (Cells(g) - e.1.Keys < Cells(g) - parent.Keys ||
                (Cells(g) - e.1.Keys == Cells(g) - parent.Keys && |e.0| - (head + 1) < |order| - head))
  {
    d1 := SearchStepInv(g, doors, from, to, order, head, parent, dist);
    SearchProgress(g, doors, to, order, head, parent);
  }

  lemma SearchStepInv(g: GridState, doors: Registry.Reg<Door>, from: Vec2, to: Vec2,
                      order: seq<Vec2>, head: nat, parent: map<Vec2, Option<Vec2>>, dist: map<Vec2, nat>)
      returns (d1: map<Vec2, nat>)
    requires SearchInv(g, doors, from, to, order, head, parent, dist) && head < |order| && order[head] != to
    ensures var e := Expand(g, doors, order[head], 0, order, parent);
            SearchInv(g, doors, from, to, e.0, head + 1, e.1, d1)
  {
    var e := Expand(g, doors, order[head], 0, order, parent);
    StartExpand(g, doors, from, to, order, head, parent, dist);
    d1 := ExpandCorrect(g, doors, from, head, 0, order, parent, dist);
    AdvanceHead(g, doors, from, to, head, order, e.0, e.1, d1);
  }

  lemma SearchProgress(g: GridState, doors: Registry.Reg<Door>, to: Vec2,
                       order: seq<Vec2>, head: nat, parent: map<Vec2, Option<Vec2>>)
    requires head < |order| && order[head] != to
    ensures var e := Expand(g, doors, order[head], 0, order, parent);
            && Search(g, doors, to, order, head, parent) == Search(g, doors, to, e.0, head + 1, e.1)
            && (Cells(g) - e.1.Keys < Cells(g) - parent.Keys ||
                (Cells(g) - e.1.Keys == Cells(g) - parent.Keys && |e.0| - (head + 1) < |order| - head))
  {
    var e := Expand(g, doors, order[head], 0, order, parent);
    if e.1.Keys != parent.Keys {
      var v :| v in e.1.Keys && v !in parent.Keys;
      assert v in Cells(g) - parent.Keys && v !in Cells(g) - e.1.Keys;
    }
  }


  /** A walk's proper prefix is a walk. */
  lemma WalkPrefix(g: GridState, doors: Registry.Reg<Door>, w: seq<Vec2>)
    requires IsWalk(g, doors, w) && |w| >= 2
    ensures IsWalk(g, doors, w[..|w| - 1])
  {
  }

  /** Once the queue is empty, every walk from the start ends at a discovered cell. */
  lemma {:induction false} ExhaustedCoversWalks(g: GridState, doors: Registry.Reg<Door>, from: Vec2, to: Vec2,
                                                order: seq<Vec2>, parent: map<Vec2, Option<Vec2>>, dist: map<Vec2, nat>,
                                                w: seq<Vec2>)
    requires SearchInv(g, doors, from, to, order, |order|, parent, dist)
    requires IsWalk(g, doors, w) && w[0] == from
    ensures w[|w| - 1] in parent
    decreases |w|
  {
    if |w| >= 2 {
      WalkPrefix(g, doors, w);
      ExhaustedCoversWalks(g, doors, from, to, order, parent, dist, w[..|w| - 1]);
      var u, v := w[|w| - 2], w[|w| - 1];
      assert Manhattan(u, v) == 1 && IsPassable(g, v, doors);
      NeighbourMeans(u, v);
      var d :| 0 <= d < 4 && v == Neighbour(u, d);
      var k :| 0 <= k < |order| && order[k] == u;
    }
  }

  /** While the front of the queue is at distance D, every walk of at most D
      steps from the start ends at a discovered cell no further than its length. */
  lemma {:induction false} LevelBound(g: GridState, doors: Registry.Reg<Door>, from: Vec2, to: Vec2,
                                      order: seq<Vec2>, head: nat, parent: map<Vec2, Option<Vec2>>, dist: map<Vec2, nat>,
                                      w: seq<Vec2>)
    requires SearchInv(g, doors, from, to, order, head, parent, dist) && head < |order|
    requires IsWalk(g, doors, w) && w[0] == from && |w| - 1 <= dist[order[head]]
    ensures w[|w| - 1] in parent && dist[w[|w| - 1]] <= |w| - 1
    decreases |w|
  {
    if |w| >= 2 {
      WalkPrefix(g, doors, w);
      LevelBound(g, doors, from, to, order, head, parent, dist, w[..|w| - 1]);
      var u, v := w[|w| - 2], w[|w| - 1];
      assert Manhattan(u, v) == 1 && IsPassable(g, v, doors);
      NeighbourMeans(u, v);
      var d :| 0 <= d < 4 && v == Neighbour(u, d);
      var k :| 0 <= k < |order| && order[k] == u;
    }
  }

  /** Walking predecessors back from a discovered cell yields a walk from the
      start of exactly its distance. */
  lemma {:induction false} ReconstructCorrect(g: GridState, doors: Registry.Reg<Door>, from: Vec2,
                                              order: seq<Vec2>, parent: map<Vec2, Option<Vec2>>, dist: map<Vec2, nat>,
                                              cur: Vec2, fuel: nat)
    requires Discovered(order, parent, dist) && Tree(g, doors, from, order, parent, dist)
    requires cur in parent && dist[cur] <= fuel
    ensures IsWalk(g, doors, Reconstruct(parent, cur, fuel))
    ensures |Reconstruct(parent, cur, fuel)| == dist[cur] + 1
    ensures Reconstruct(parent, cur, fuel)[0] == from
    ensures Reconstruct(parent, cur, fuel)[dist[cur]] == cur
    decreases fuel
  {
    if cur != from {
      var u := parent[cur].value;
      ReconstructCorrect(g, doors, from, order, parent, dist, u, fuel - 1);
      var p := Reconstruct(parent, u, fuel - 1);
      assert Reconstruct(parent, cur, fuel) == p + [cur];
      WalkSnoc(g, doors, p, cur);
    }
  }

  /** A walk extended by a passable neighbour of its last cell is a walk. */
  lemma WalkSnoc(g: GridState, doors: Registry.Reg<Door>, p: seq<Vec2>, v: Vec2)
    requires IsWalk(g, doors, p) && Manhattan(p[|p| - 1], v) == 1 && IsPassable(g, v, doors)
    ensures IsWalk(g, doors, p + [v]) && (p + [v])[0] == p[0] && (p + [v])[|p|] == v
  {
    var w := p + [v];
    assert forall k :: 0 <= k < |p| ==> w[k] == p[k];
  }

  /** `findPath` returns `[from]` exactly when the target cannot be reached;
      otherwise it returns a walk from `from` to `to` no longer than any other. */
  lemma FindPathCorrect(g: GridState, doors: Registry.Reg<Door>, from: Vec2, to: Vec2)
    ensures !Reachable(g, doors, from, to) ==> FindPath(g, doors, from, to) == [from]
    ensures Reachable(g, doors, from, to) ==>
              var p := FindPath(g, doors, from, to);
              && IsWalk(g, doors, p) && p[0] == from && p[|p| - 1] == to
              && forall w :: IsWalk(g, doors, w) && w[0] == from && w[|w| - 1] == to ==> |p| <= |w|
  {
    var order0, parent0, dist0 := [from], map[from := None], map[from := 0];
    assert SearchInv(g, doors, from, to, order0, 0, parent0, dist0);
    var dist := SearchCorrect(g, doors, from, to, order0, 0, parent0, dist0);
    var (order, head, parent) := Search(g, doors, to, order0, 0, parent0);
    if head == |order| {
      assert to !in parent;
      if Reachable(g, doors, from, to) {
        var w :| IsWalk(g, doors, w) && w[0] == from && w[|w| - 1] == to;
        ExhaustedCoversWalks(g, doors, from, to, order, parent, dist, w);
        assert false;
      }
    } else {
      assert order[head] == to && to in parent;
      assert dist[to] <= head < |order|;
      ReconstructCorrect(g, doors, from, order, parent, dist, to, |order|);
      var p := Reconstruct(parent, to, |order|);
      assert Reachable(g, doors, from, to);
      forall w | IsWalk(g, doors, w) && w[0] == from && w[|w| - 1] == to
        ensures |p| <= |w|
      {
        if |w| - 1 < dist[to] {
          LevelBound(g, doors, from, to, order, head, parent, dist, w);
          assert false;
        }
      }
    }
  }
}
