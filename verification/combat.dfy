/** Shooting range checks, damage construction and application, knockback
    and status bookkeeping. */
module Combat {
  import opened Common
  import opened State
  import opened Grid
  import Registry
  import Config
  import opened Schemas

  /** A hit waiting to be applied at the end of the turn. */
  datatype PendingDamage = PendingDamage(
    targetId: string,
    sourcePos: Vec2,
    amount: int,
    status: Option<StatusOnHit>,
    knockback: Option<int>)

  /** What a shot is fired with: a catalog weapon or an enemy template's built-in weapon. */
  datatype DamageSource = FromItem(item: ItemDef) | FromEnemy(template: EnemyTemplate)

  // ---------------------------------------------------------------------
  // Range and sight

  /** `canShoot`: the target must be within the weapon's Manhattan range (a
      weapon without a range never fails that comparison) and in line of sight. */
  function CanShoot(s: GameState, attacker: Unit, target: Unit, range: Option<int>): (r: bool)
    ensures r <==>
              && (range.None? || Manhattan(attacker.pos, target.pos) <= range.value)
              && SeenThrough(s.grid, s.doors, attacker.pos, Trace(attacker.pos, target.pos))
    ensures r && target.pos != attacker.pos ==> IsTransparent(s.grid, target.pos, s.doors)
  {
    LosMeansTrace(s.grid, s.doors, attacker.pos, target.pos);
    LosEndpoints(s.grid, s.doors, attacker.pos, target.pos);
    if range.Some? && Manhattan(attacker.pos, target.pos) > range.value then false
    else LineOfSight(s.grid, s.doors, attacker.pos, target.pos)
  }

  // ---------------------------------------------------------------------
  // Statuses

  /** The turns of the first entry with this id, as `Array.prototype.find` sees it. */
  function StatusTurns(statuses: seq<StatusState>, id: StatusId): (o: Option<int>)
    ensures o.None? <==> forall i :: 0 <= i < |statuses| ==> statuses[i].id != id
    ensures o.Some? ==> exists i :: 0 <= i < |statuses| && statuses[i] == StatusState(id, o.value)
  {
    if |statuses| == 0 then None
    else if statuses[0].id == id then Some(statuses[0].turns)
    else StatusTurns(statuses[1..], id)
  }

  /** The value found is the turns of the first entry carrying the id. */
  lemma {:induction false} StatusTurnsFirst(statuses: seq<StatusState>, id: StatusId, i: nat)
    requires i < |statuses| && statuses[i].id == id
    requires forall j :: 0 <= j < i ==> statuses[j].id != id
    ensures StatusTurns(statuses, id) == Some(statuses[i].turns)
    decreases i
  {
    if i > 0 {
      StatusTurnsFirst(statuses[1..], id, i - 1);
    }
  }

  /** No status id appears twice. */
  predicate UniqueStatuses(statuses: seq<StatusState>) {
    forall i, j :: 0 <= i < j < |statuses| ==> statuses[i].id != statuses[j].id
  }

  /** `applyStatus`: raises the first entry with this id to at least `turns`,
      or appends a new entry when there is none. */
  function ApplyStatus(statuses: seq<StatusState>, id: StatusId, turns: int): (r: seq<StatusState>)
    ensures StatusTurns(r, id) ==
              Some(if StatusTurns(statuses, id).Some? then Max(StatusTurns(statuses, id).value, turns) else turns)
    ensures forall other :: other != id ==> StatusTurns(r, other) == StatusTurns(statuses, other)
    ensures |r| == if StatusTurns(statuses, id).Some? then |statuses| else |statuses| + 1
    decreases |statuses|
  {
    if |statuses| == 0 then [StatusState(id, turns)]
    else if statuses[0].id == id then [statuses[0].(turns := Max(statuses[0].turns, turns))] + statuses[1..]
    else [statuses[0]] + ApplyStatus(statuses[1..], id, turns)
  }

  /** `applyStatus` keeps every existing entry in place with at least its
      turns, and appends the new entry only when its id was absent. */
  lemma {:induction false} ApplyStatusPointwise(statuses: seq<StatusState>, id: StatusId, turns: int)
    ensures forall i :: 0 <= i < |statuses| ==>
              ApplyStatus(statuses, id, turns)[i].id == statuses[i].id &&
              ApplyStatus(statuses, id, turns)[i].turns >= statuses[i].turns
    ensures StatusTurns(statuses, id).None? ==> ApplyStatus(statuses, id, turns)[|statuses|] == StatusState(id, turns)
    decreases |statuses|
  {
    var r := ApplyStatus(statuses, id, turns);
    if |statuses| > 0 && statuses[0].id != id {
      var t := ApplyStatus(statuses[1..], id, turns);
      ApplyStatusPointwise(statuses[1..], id, turns);
      assert r == [statuses[0]] + t;
      assert StatusTurns(statuses, id) == StatusTurns(statuses[1..], id);
      forall i | 0 <= i < |statuses|
        ensures r[i].id == statuses[i].id && r[i].turns >= statuses[i].turns
      {
        if i > 0 {
          assert r[i] == t[i - 1] && statuses[i] == statuses[1..][i - 1];
        }
      }
      if StatusTurns(statuses, id).None? {
        assert r[|statuses|] == t[|statuses| - 1];
      }
    } else if |statuses| > 0 {
      assert r == [statuses[0].(turns := Max(statuses[0].turns, turns))] + statuses[1..];
      assert StatusTurns(statuses, id).Some?;
    }
  }

  /** `applyStatus` keeps ids unique, never deactivates a status, and leaves
      the applied one active when `turns` is positive. */
  lemma ApplyStatusKeeps(statuses: seq<StatusState>, id: StatusId, turns: int)
    ensures UniqueStatuses(statuses) ==> UniqueStatuses(ApplyStatus(statuses, id, turns))
    ensures forall other :: HasStatusIn(statuses, other) ==> HasStatusIn(ApplyStatus(statuses, id, turns), other)
    ensures turns > 0 ==> HasStatusIn(ApplyStatus(statuses, id, turns), id)
  {
    var r := ApplyStatus(statuses, id, turns);
    ApplyStatusPointwise(statuses, id, turns);
    forall other | HasStatusIn(statuses, other)
      ensures HasStatusIn(r, other)
    {
      var i :| 0 <= i < |statuses| && statuses[i].id == other && statuses[i].turns > 0;
      assert r[i].id == other && r[i].turns > 0;
    }
    if turns > 0 {
      var i :| 0 <= i < |r| && r[i] == StatusState(id, StatusTurns(r, id).value);
      assert r[i].turns > 0;
    }
  }

  lemma HasStatusInCons(head: StatusState, rest: seq<StatusState>, id: StatusId)
    ensures HasStatusIn([head] + rest, id) <==> (head.id == id && head.turns > 0) || HasStatusIn(rest, id)
  {
    var w := [head] + rest;
    if HasStatusIn(w, id) {
      var i :| 0 <= i < |w| && w[i].id == id && w[i].turns > 0;
      if i > 0 {
        assert rest[i - 1] == w[i];
      }
    }
    if head.id == id && head.turns > 0 {
      assert w[0] == head;
    }
    if HasStatusIn(rest, id) {
      var i :| 0 <= i < |rest| && rest[i].id == id && rest[i].turns > 0;
      assert w[i + 1] == rest[i];
    }
  }

  /** One turn passes for a status list: every entry loses a turn and the
      expired ones are dropped, keeping the order of the rest. */
  function TickStatusList(statuses: seq<StatusState>): (r: seq<StatusState>)
    ensures |r| <= |statuses|
    ensures forall i :: 0 <= i < |r| ==> r[i].turns > 0
    decreases |statuses|
  {
    if |statuses| == 0 then []
    else
      var head := statuses[0].(turns := statuses[0].turns - 1);
      if head.turns > 0 then [head] + TickStatusList(statuses[1..]) else TickStatusList(statuses[1..])
  }

  /** Ticking works entry by entry: a list ticks as its parts do, one after
      the other, and a single entry survives, one turn shorter, exactly when
      it had more than one turn left. So the survivors keep their order. */
  lemma {:induction false} TickStatusListAppend(a: seq<StatusState>, b: seq<StatusState>)
    ensures TickStatusList(a + b) == TickStatusList(a) + TickStatusList(b)
    ensures |a| == 1 ==> TickStatusList(a) == if a[0].turns > 1 then [a[0].(turns := a[0].turns - 1)] else []
    decreases |a|
  {
    if |a| > 0 {
      var head := a[0].(turns := a[0].turns - 1);
      var h := if head.turns > 0 then [head] else [];
      assert (a + b)[0] == a[0];
      assert (a + b)[1..] == a[1..] + b;
      assert TickStatusList(a + b) == h + TickStatusList(a[1..] + b);
      assert TickStatusList(a) == h + TickStatusList(a[1..]);
      TickStatusListAppend(a[1..], b);
      assert h + (TickStatusList(a[1..]) + TickStatusList(b)) == (h + TickStatusList(a[1..])) + TickStatusList(b);
      if |a| == 1 {
        assert TickStatusList(a[1..]) == [];
      }
    } else {
      assert a + b == b;
    }
  }

  /** Every surviving entry is an old entry one turn shorter. */
  lemma {:induction false} TickStatusListFrom(statuses: seq<StatusState>, k: int)
    requires 0 <= k < |TickStatusList(statuses)|
    ensures exists j :: 0 <= j < |statuses| &&
              statuses[j] == TickStatusList(statuses)[k].(turns := TickStatusList(statuses)[k].turns + 1)
    decreases |statuses|
  {
    var tail := statuses[1..];
    var rest := TickStatusList(tail);
    var r := TickStatusList(statuses);
    var head := statuses[0].(turns := statuses[0].turns - 1);
    if head.turns > 0 && k == 0 {
      assert statuses[0] == r[0].(turns := r[0].turns + 1);
    } else {
      var k' := if head.turns > 0 then k - 1 else k;
      assert r[k] == rest[k'];
      TickStatusListFrom(tail, k');
      var j :| 0 <= j < |tail| && tail[j] == rest[k'].(turns := rest[k'].turns + 1);
      assert statuses[j + 1] == tail[j];
    }
  }

  /** After a tick a status is active exactly when it had more than one turn left. */
  lemma {:induction false} TickStatusListActive(statuses: seq<StatusState>, id: StatusId)
    ensures HasStatusIn(TickStatusList(statuses), id) <==>
              exists i :: 0 <= i < |statuses| && statuses[i].id == id && statuses[i].turns > 1
    decreases |statuses|
  {
    if |statuses| > 0 {
      var tail := statuses[1..];
      var rest := TickStatusList(tail);
      TickStatusListActive(tail, id);
      var head := statuses[0].(turns := statuses[0].turns - 1);
      if head.turns > 0 {
        HasStatusInCons(head, rest, id);
      }
      if exists i :: 0 <= i < |statuses| && statuses[i].id == id && statuses[i].turns > 1 {
        var i :| 0 <= i < |statuses| && statuses[i].id == id && statuses[i].turns > 1;
        if i > 0 {
          assert tail[i - 1] == statuses[i];
        }
      }
      if exists i :: 0 <= i < |tail| && tail[i].id == id && tail[i].turns > 1 {
        var i :| 0 <= i < |tail| && tail[i].id == id && tail[i].turns > 1;
        assert statuses[i + 1] == tail[i];
      }
    }
  }

  /** A tick keeps status ids unique. */
  lemma {:induction false} TickStatusListUnique(statuses: seq<StatusState>)
    requires UniqueStatuses(statuses)
    ensures UniqueStatuses(TickStatusList(statuses))
    decreases |statuses|
  {
    if |statuses| > 0 {
      var tail := statuses[1..];
      var rest := TickStatusList(tail);
      TickStatusListUnique(tail);
      var r := TickStatusList(statuses);
      if statuses[0].turns - 1 > 0 {
        forall i, j | 0 <= i < j < |r|
          ensures r[i].id != r[j].id
        {
          if i == 0 {
            assert r[j] == rest[j - 1];
            TickStatusListFrom(tail, j - 1);
            var j' :| 0 <= j' < |tail| && tail[j'] == rest[j - 1].(turns := rest[j - 1].turns + 1);
            assert statuses[j' + 1].id == r[j].id;
          } else {
            assert r[i] == rest[i - 1] && r[j] == rest[j - 1];
          }
        }
      }
    }
  }

  /** `tickStatuses`: every unit's statuses age by one turn. */
  function TickStatuses(s: GameState): (s': GameState)
    ensures s'.units.keys == s.units.keys && s'.units.m.Keys == s.units.m.Keys
    ensures forall id :: id in s.units.m ==>
              s'.units.m[id] == s.units.m[id].(statuses := TickStatusList(s.units.m[id].statuses))
    ensures s' == s.(units := s'.units)
  {
    s.(units := Registry.MapValues(s.units, (u: Unit) => u.(statuses := TickStatusList(u.statuses))))
  }

  /** `applyMarked`: a marked target loses one point of cover, never below zero. */
  function ApplyMarked(target: Unit, cover: int): (r: int)
    ensures !HasStatus(target, MARKED) ==> r == cover
    ensures HasStatus(target, MARKED) ==> r >= 0 && (r == 0 || r == cover - Config.CoverHalf)
    ensures cover >= 0 ==> 0 <= r <= cover
  {
    if !HasStatus(target, MARKED) then cover else Max(0, cover - Config.CoverHalf)
  }

  /** Number of entries in the list with this id and positive turns. */
  function CountActive(statuses: seq<StatusState>, id: StatusId): (n: nat)
    ensures n <= |statuses|
    ensures n > 0 <==> HasStatusIn(statuses, id)
    decreases |statuses|
  {
    if |statuses| == 0 then 0
    else
      HasStatusInCons(statuses[0], statuses[1..], id);
      assert statuses == [statuses[0]] + statuses[1..];
      (if statuses[0].id == id && statuses[0].turns > 0 then 1 else 0) + CountActive(statuses[1..], id)
  }

  /** Each status id counts at most once in a list without repeated ids. */
  lemma {:induction false} CountActiveUnique(statuses: seq<StatusState>, id: StatusId)
    ensures UniqueStatuses(statuses) ==> CountActive(statuses, id) <= 1
    decreases |statuses|
  {
    if |statuses| > 0 && UniqueStatuses(statuses) {
      CountActiveUnique(statuses[1..], id);
    }
  }

  /** `getShredStacks`: active SHRED entries on the target. */
  function ShredStacks(target: Unit): (n: nat)
    ensures n > 0 <==> HasStatus(target, SHRED)
    ensures UniqueStatuses(target.statuses) ==> n <= 1
  {
    CountActiveUnique(target.statuses, SHRED);
    CountActive(target.statuses, SHRED)
  }

  // ---------------------------------------------------------------------
  // Building a hit

  /** The raw damage of the source: the enemy weapon's damage, or the item's damage with 0 for none. */
  function BaseDamage(src: DamageSource): int {
    match src
    case FromEnemy(t) => t.weapon.damage
    case FromItem(item) => item.damage.GetOr(0)
  }

  function SourceStatus(src: DamageSource): Option<StatusOnHit> {
    match src
    case FromEnemy(t) => t.statusOnHit
    case FromItem(item) => item.statusOnHit
  }

  /** Armor left after SHRED, never negative. */
  function ArmorReduction(target: Unit): (r: int)
    ensures r >= 0 && r >= target.armor - ShredStacks(target)
  {
    Max(0, target.armor - ShredStacks(target))
  }

  /** `buildDamage`: base damage less armor (reduced by SHRED) and cover
      (reduced by MARKED), floored at zero; the source's on-hit status; and
      a positive knockback only from an enemy template. */
  function BuildDamage(s: GameState, attacker: Unit, target: Unit, src: DamageSource): (p: PendingDamage)
    ensures p.targetId == target.id && p.sourcePos == attacker.pos
    ensures p.amount >= 0 && p.amount <= Max(0, BaseDamage(src))
    ensures p.amount == Max(0, BaseDamage(src) - ArmorReduction(target) - ApplyMarked(target, CoverReduction(s.grid, target.pos)))
    ensures p.status == SourceStatus(src)
    ensures p.knockback.Some? <==> src.FromEnemy? && src.template.knockback.Some? && src.template.knockback.value > 0
    ensures p.knockback.Some? ==> p.knockback == src.template.knockback
  {
    var coverReduction := ApplyMarked(target, CoverReduction(s.grid, target.pos));
    var damage := Max(0, BaseDamage(src) - ArmorReduction(target) - coverReduction);
    var knockback := if src.FromEnemy? && src.template.knockback.Some? && src.template.knockback.value != 0
                     then src.template.knockback.value else 0;
    PendingDamage(target.id, attacker.pos, damage, SourceStatus(src), if knockback > 0 then Some(knockback) else None)
  }

  /** More armor never lets more damage through. */
  lemma DamageMonotoneInArmor(s: GameState, attacker: Unit, target: Unit, src: DamageSource, extra: nat)
    ensures BuildDamage(s, attacker, target.(armor := target.armor + extra), src).amount <=
            BuildDamage(s, attacker, target, src).amount
  {
  }

  /** MARKED never lowers the damage a hit deals. */
  lemma MarkedNeverHelps(s: GameState, attacker: Unit, target: Unit, src: DamageSource)
    requires !HasStatus(target, MARKED)
    ensures BuildDamage(s, attacker, target.(statuses := target.statuses + [StatusState(MARKED, 1)]), src).amount >=
            BuildDamage(s, attacker, target, src).amount
  {
    var marked := target.(statuses := target.statuses + [StatusState(MARKED, 1)]);
    assert marked.statuses[|target.statuses|] == StatusState(MARKED, 1);
    assert HasStatus(marked, MARKED);
    var cover := CoverReduction(s.grid, target.pos);
    assert CountActive(marked.statuses, SHRED) == CountActive(target.statuses, SHRED) by {
      CountActiveAppend(target.statuses, StatusState(MARKED, 1), SHRED);
    }
  }

  lemma {:induction false} CountActiveAppend(statuses: seq<StatusState>, extra: StatusState, id: StatusId)
    ensures CountActive(statuses + [extra], id) ==
              CountActive(statuses, id) + (if extra.id == id && extra.turns > 0 then 1 else 0)
    decreases |statuses|
  {
    if |statuses| > 0 {
      assert (statuses + [extra])[1..] == statuses[1..] + [extra];
      CountActiveAppend(statuses[1..], extra, id);
    }
  }

  /** A target in the open, without armor, takes the source's full damage when it is positive. */
  lemma OpenGroundFullDamage(s: GameState, attacker: Unit, target: Unit, src: DamageSource)
    requires target.armor <= 0 && CoverReduction(s.grid, target.pos) == 0
    ensures BuildDamage(s, attacker, target, src).amount == Max(0, BaseDamage(src))
  {
  }

  // ---------------------------------------------------------------------
  // Applying hits

  /** The target ids of the pending hits, each once, in order of first appearance
      (the key order of the grouping map). */
  function GroupOrder(pending: seq<PendingDamage>): (ids: seq<string>)
    ensures Distinct(ids)
    ensures forall id :: id in ids <==> exists i :: 0 <= i < |pending| && pending[i].targetId == id
    decreases |pending|
  {
    if |pending| == 0 then []
    else
      var init := pending[..|pending| - 1];
      var ids := GroupOrder(init);
      assert forall i :: 0 <= i < |init| ==> init[i] == pending[i];
      if pending[|pending| - 1].targetId in ids then ids else ids + [pending[|pending| - 1].targetId]
  }

  /** The summed amount of the hits on one target. */
  function Total(pending: seq<PendingDamage>, id: string): int
    decreases |pending|
  {
    if |pending| == 0 then 0
    else (if pending[0].targetId == id then pending[0].amount else 0) + Total(pending[1..], id)
  }

  /** The on-hit statuses of the hits on one target, in order. */
  function StatusesFor(pending: seq<PendingDamage>, id: string): (r: seq<StatusOnHit>)
    ensures forall k :: 0 <= k < |r| ==> exists i :: 0 <= i < |pending| && pending[i].targetId == id && pending[i].status == Some(r[k])
    ensures forall i :: 0 <= i < |pending| && pending[i].targetId == id && pending[i].status.Some? ==> pending[i].status.value in r
    decreases |pending|
  {
    if |pending| == 0 then []
    else
      var rest := StatusesFor(pending[1..], id);
      assert forall i :: 1 <= i < |pending| ==> pending[1..][i - 1] == pending[i];
      if pending[0].targetId == id && pending[0].status.Some? then [pending[0].status.value] + rest else rest
  }

  function ApplyStatuses(statuses: seq<StatusState>, hits: seq<StatusOnHit>): (r: seq<StatusState>)
    ensures forall id :: HasStatusIn(statuses, id) ==> HasStatusIn(r, id)
    ensures forall k :: 0 <= k < |hits| && hits[k].turns > 0 ==> HasStatusIn(r, hits[k].status)
    ensures UniqueStatuses(statuses) ==> UniqueStatuses(r)
    decreases |hits|
  {
    if |hits| == 0 then statuses
    else
      ApplyStatusKeeps(statuses, hits[0].status, hits[0].turns);
      var r := ApplyStatuses(ApplyStatus(statuses, hits[0].status, hits[0].turns), hits[1..]);
      assert forall k :: 1 <= k < |hits| ==> hits[1..][k - 1] == hits[k];
      r
  }

  /** One group of `applyDamage` on the unit stored under `id`: the summed
      damage when it is non-zero, then each on-hit status in order. */
  function HitUnit(u: Unit, id: string, pending: seq<PendingDamage>): (u': Unit)
    ensures u' == u.(hp := u'.hp, statuses := u'.statuses)
  {
    var total := Total(pending, id);
    var hurt := if total != 0 then u.(hp := Max(0, u.hp - total)) else u;
    hurt.(statuses := ApplyStatuses(hurt.statuses, StatusesFor(pending, id)))
  }

  /** The events of one group: the damage event when the total is non-zero,
      then one status event per on-hit status. */
  function GroupEvents(id: string, total: int, hpLeft: int, hits: seq<StatusOnHit>): (evs: seq<Event>)
    ensures forall e :: e in evs ==> (e.DamageApplied? || e.StatusApplied?) && e.targetId == id
    ensures forall e :: e in evs && e.DamageApplied? ==> total != 0 && e.amount == total && e.hpLeft == hpLeft
    ensures total != 0 ==> DamageApplied(id, total, hpLeft) in evs
    ensures forall k :: 0 <= k < |hits| ==> StatusApplied(id, hits[k].status, hits[k].turns) in evs
  {
    (if total != 0 then [DamageApplied(id, total, hpLeft)] else []) + StatusEvents(id, hits)
  }

  function StatusEvents(id: string, hits: seq<StatusOnHit>): (evs: seq<Event>)
    ensures |evs| == |hits|
    ensures forall k :: 0 <= k < |hits| ==> evs[k] == StatusApplied(id, hits[k].status, hits[k].turns)
    decreases |hits|
  {
    if |hits| == 0 then [] else [StatusApplied(id, hits[0].status, hits[0].turns)] + StatusEvents(id, hits[1..])
  }

  /** The groups of `applyDamage` in `ids` order; a target missing from the registry is skipped. */
  function ApplyGroups(units: Registry.Reg<Unit>, pending: seq<PendingDamage>, ids: seq<string>)
    : (r: (Registry.Reg<Unit>, set<string>, seq<Event>))
    requires Distinct(ids)
    ensures r.0.keys == units.keys && r.0.m.Keys == units.m.Keys
    ensures forall k :: k in units.m ==>
              r.0.m[k] == if k in ids then HitUnit(units.m[k], k, pending) else units.m[k]
    decreases |ids|
  {
    if |ids| == 0 then (units, {}, [])
    else
      var id := ids[0];
      assert forall k :: k in ids[1..] ==> k in ids && k != id;
      if id !in units.m then
        ApplyGroups(units, pending, ids[1..])
      else
        var u' := HitUnit(units.m[id], id, pending);
        var total := Total(pending, id);
        var r := ApplyGroups(Registry.Put(units, id, u'), pending, ids[1..]);
        assert r.0.m[id] == u';
        (r.0, (if total != 0 then {id} else {}) + r.1, GroupEvents(id, total, u'.hp, StatusesFor(pending, id)) + r.2)
  }

  /** The touched set holds exactly the targets of `ids` present in the
      registry whose summed damage is non-zero. */
  lemma {:induction false} ApplyGroupsTouched(units: Registry.Reg<Unit>, pending: seq<PendingDamage>, ids: seq<string>)
    requires Distinct(ids)
    ensures ApplyGroups(units, pending, ids).1 == set k | k in ids && k in units.m && Total(pending, k) != 0
    decreases |ids|
  {
    if |ids| > 0 {
      var id := ids[0];
      assert forall k :: k in ids[1..] ==> k in ids && k != id;
      assert forall k :: k in ids ==> k == id || k in ids[1..];
      if id !in units.m {
        ApplyGroupsTouched(units, pending, ids[1..]);
      } else {
        var u' := HitUnit(units.m[id], id, pending);
        ApplyGroupsTouched(Registry.Put(units, id, u'), pending, ids[1..]);
      }
    }
  }

  /** The events of the groups name only targets of `ids` present in the
      registry, and each damage event reports the target's summed damage and
      its final hit points. */
  lemma {:induction false} ApplyGroupsEvents(units: Registry.Reg<Unit>, pending: seq<PendingDamage>, ids: seq<string>)
    requires Distinct(ids)
    ensures var r := ApplyGroups(units, pending, ids);
            forall e :: e in r.2 ==> (e.DamageApplied? || e.StatusApplied?) && e.targetId in ids && e.targetId in units.m
    ensures var r := ApplyGroups(units, pending, ids);
            forall e :: e in r.2 && e.DamageApplied? ==>
              e.targetId in r.1 && e.amount == Total(pending, e.targetId) && e.hpLeft == r.0.m[e.targetId].hp
    decreases |ids|
  {
    if |ids| > 0 {
      var id := ids[0];
      assert forall k :: k in ids[1..] ==> k in ids && k != id;
      if id !in units.m {
        ApplyGroupsEvents(units, pending, ids[1..]);
      } else {
        var u' := HitUnit(units.m[id], id, pending);
        ApplyGroupsEvents(Registry.Put(units, id, u'), pending, ids[1..]);
      }
    }
  }

  /** No hit in the list names this target, so its total is zero. */
  lemma {:induction false} TotalAbsent(pending: seq<PendingDamage>, id: string)
    requires forall i :: 0 <= i < |pending| ==> pending[i].targetId != id
    ensures Total(pending, id) == 0
    decreases |pending|
  {
    if |pending| > 0 {
      TotalAbsent(pending[1..], id);
    }
  }

  /** With non-negative amounts (as `BuildDamage` produces) every total is non-negative. */
  lemma {:induction false} TotalNonNegative(pending: seq<PendingDamage>, id: string)
    requires forall i :: 0 <= i < |pending| ==> pending[i].amount >= 0
    ensures Total(pending, id) >= 0
    decreases |pending|
  {
    if |pending| > 0 {
      TotalNonNegative(pending[1..], id);
    }
  }

  /** `applyDamage`: hits are grouped by target in order of first appearance;
      a target present in the registry loses its summed damage (never below
      zero hit points) when the sum is non-zero, then takes each on-hit
      status. Returns the ids whose hit points were touched and the events. */
  function ApplyDamage(s: GameState, pending: seq<PendingDamage>): (r: (GameState, set<string>, seq<Event>))
    ensures r.0 == s.(units := r.0.units)
    ensures r.0.units.keys == s.units.keys && r.0.units.m.Keys == s.units.m.Keys
    ensures forall k :: k in s.units.m ==>
              r.0.units.m[k] == s.units.m[k].(hp := r.0.units.m[k].hp, statuses := r.0.units.m[k].statuses)
    ensures forall k :: k in s.units.m ==>
              r.0.units.m[k].hp == if Total(pending, k) != 0 then Max(0, s.units.m[k].hp - Total(pending, k)) else s.units.m[k].hp
    ensures r.1 == set k | k in s.units.m && Total(pending, k) != 0
    ensures forall e :: e in r.2 ==> (e.DamageApplied? || e.StatusApplied?) && e.targetId in s.units.m
    ensures forall e :: e in r.2 && e.DamageApplied? ==>
              e.targetId in r.1 && e.amount == Total(pending, e.targetId) && e.hpLeft == r.0.units.m[e.targetId].hp
  {
    var ids := GroupOrder(pending);
    var g := ApplyGroups(s.units, pending, ids);
    ApplyGroupsEvents(s.units, pending, ids);
    AllGroups(s.units, pending);
    (s.(units := g.0), g.1, g.2)
  }

  /** Run over every target of the hits, the groups touch exactly the
      registered units with a non-zero sum and leave the hit points of the
      others alone. */
  lemma AllGroups(units: Registry.Reg<Unit>, pending: seq<PendingDamage>)
    ensures var g := ApplyGroups(units, pending, GroupOrder(pending));
            g.1 == set k | k in units.m && Total(pending, k) != 0
    ensures var g := ApplyGroups(units, pending, GroupOrder(pending));
            forall k :: k in units.m ==>
              g.0.m[k].hp == if Total(pending, k) != 0 then Max(0, units.m[k].hp - Total(pending, k)) else units.m[k].hp
  {
    var ids := GroupOrder(pending);
    ApplyGroupsTouched(units, pending, ids);
    forall k | k in units.m && k !in ids
      ensures Total(pending, k) == 0
    {
      TotalAbsent(pending, k);
    }
  }

  /** Damage never removes an active status, and every on-hit status with
      positive turns ends up active on a target that exists. */
  lemma DamageStatuses(s: GameState, pending: seq<PendingDamage>)
    ensures forall k, id :: k in s.units.m && HasStatus(s.units.m[k], id) ==>
              HasStatus(ApplyDamage(s, pending).0.units.m[k], id)
    ensures forall i :: 0 <= i < |pending| && pending[i].targetId in s.units.m && pending[i].status.Some? &&
                        pending[i].status.value.turns > 0 ==>
              HasStatus(ApplyDamage(s, pending).0.units.m[pending[i].targetId], pending[i].status.value.status)
  {
    var ids := GroupOrder(pending);
    var s' := ApplyDamage(s, pending).0;
    forall k | k in s.units.m && k in ids
      ensures s'.units.m[k] == HitUnit(s.units.m[k], k, pending)
    {
    }
    forall i | 0 <= i < |pending| && pending[i].targetId in s.units.m && pending[i].status.Some? &&
               pending[i].status.value.turns > 0
      ensures HasStatus(s'.units.m[pending[i].targetId], pending[i].status.value.status)
    {
      var k := pending[i].targetId;
      var hits := StatusesFor(pending, k);
      var j :| 0 <= j < |hits| && hits[j] == pending[i].status.value;
    }
  }

  /** With non-negative amounts a unit's hit points never grow and never drop below zero. */
  lemma DamageNeverHeals(s: GameState, pending: seq<PendingDamage>)
    requires forall i :: 0 <= i < |pending| ==> pending[i].amount >= 0
    ensures forall k :: k in s.units.m && s.units.m[k].hp >= 0 ==>
              0 <= ApplyDamage(s, pending).0.units.m[k].hp <= s.units.m[k].hp
  {
    forall k | k in s.units.m
      ensures Total(pending, k) >= 0
    {
      TotalNonNegative(pending, k);
    }
  }

  // ---------------------------------------------------------------------
  // Knockback

  /** The unit step away from `from` along the dominant axis of the offset
      to `to` (x on ties); none when the two coincide. */
  function KnockbackDirection(from: Vec2, to: Vec2): (d: Option<Vec2>)
    ensures d.None? <==> from == to
    ensures d.Some? ==> Abs(d.value.x) + Abs(d.value.y) == 1
    ensures d.Some? ==> (Abs(to.x - from.x) >= Abs(to.y - from.y) <==> d.value.y == 0)
    ensures d.Some? ==> Manhattan(from, Vec2(to.x + d.value.x, to.y + d.value.y)) == Manhattan(from, to) + 1
  {
    var dx := to.x - from.x;
    var dy := to.y - from.y;
    if dx == 0 && dy == 0 then None
    else if Abs(dx) >= Abs(dy) then Some(Vec2(Sign(dx), 0))
    else Some(Vec2(0, Sign(dy)))
  }

  /** The cell `i` steps from `p` along `dir`. */
  function Ahead(p: Vec2, dir: Vec2, i: int): Vec2 {
    Vec2(p.x + i * dir.x, p.y + i * dir.y)
  }

  lemma AheadShift(p: Vec2, dir: Vec2, i: int)
    ensures Ahead(Ahead(p, dir, 1), dir, i) == Ahead(p, dir, i + 1)
  {
    assert (i + 1) * dir.x == i * dir.x + dir.x;
    assert (i + 1) * dir.y == i * dir.y + dir.y;
  }

  /** The knockback loop: up to `k` steps along `dir`, stopping before an
      impassable or occupied cell, with the occupied set following the unit. */
  function Push(g: GridState, doors: Registry.Reg<Door>, occupied: set<Vec2>, cur: Vec2, dir: Vec2, k: int)
    : (r: (Vec2, set<Vec2>))
    decreases k
  {
    if k <= 0 then (cur, occupied)
    else
      var next := Vec2(cur.x + dir.x, cur.y + dir.y);
      if !IsPassable(g, next, doors) || next in occupied then (cur, occupied)
      else Push(g, doors, occupied - {cur} + {next}, next, dir, k - 1)
  }

  /** The push travels `m <= k` free, passable cells and stops only at the
      limit or in front of a blocked cell; the occupied set then holds the
      new cell instead of the old one. */
  lemma {:induction false} PushSteps(g: GridState, doors: Registry.Reg<Door>, occupied: set<Vec2>, cur: Vec2, dir: Vec2, k: int)
    returns (m: nat)
    requires Abs(dir.x) + Abs(dir.y) == 1
    ensures m <= Max(0, k)
    ensures Push(g, doors, occupied, cur, dir, k).0 == Ahead(cur, dir, m)
    ensures forall i :: 1 <= i <= m ==> IsPassable(g, Ahead(cur, dir, i), doors) && Ahead(cur, dir, i) !in occupied
    ensures m < k ==> !IsPassable(g, Ahead(cur, dir, m + 1), doors) || Ahead(cur, dir, m + 1) in occupied
    ensures Push(g, doors, occupied, cur, dir, k).1 ==
              if m == 0 then occupied else occupied - {cur} + {Ahead(cur, dir, m)}
    decreases k
  {
    var next := Vec2(cur.x + dir.x, cur.y + dir.y);
    assert Ahead(cur, dir, 1) == next && Ahead(cur, dir, 0) == cur;
    if k <= 0 || !IsPassable(g, next, doors) || next in occupied {
      m := 0;
    } else {
      var occ' := occupied - {cur} + {next};
      var m' := PushSteps(g, doors, occ', next, dir, k - 1);
      m := m' + 1;
      AheadShift(cur, dir, m');
      PushPrefix(g, doors, occupied, cur, dir, m');
      if m < k {
        AheadShift(cur, dir, m);
        AheadNotBack(cur, dir, m + 1);
      }
      if m' > 0 {
        MoveAgain(occupied, cur, next, Ahead(cur, dir, m));
      }
    }
  }

  /** Moving on from a cell just entered: the intermediate cell drops out again. */
  lemma MoveAgain<T>(occupied: set<T>, cur: T, next: T, last: T)
    requires next !in occupied
    ensures occupied - {cur} + {next} - {next} + {last} == occupied - {cur} + {last}
  {
  }

  /** The free run after the first step, seen from the start: every cell up
      to `m' + 1` steps ahead is passable and was free. */
  lemma PushPrefix(g: GridState, doors: Registry.Reg<Door>, occupied: set<Vec2>, cur: Vec2, dir: Vec2, m': int)
    requires Abs(dir.x) + Abs(dir.y) == 1 && m' >= 0
    requires IsPassable(g, Ahead(cur, dir, 1), doors) && Ahead(cur, dir, 1) !in occupied
    requires forall i :: 1 <= i <= m' ==>
               IsPassable(g, Ahead(Ahead(cur, dir, 1), dir, i), doors) &&
               Ahead(Ahead(cur, dir, 1), dir, i) !in occupied - {cur} + {Ahead(cur, dir, 1)}
    ensures forall i :: 1 <= i <= m' + 1 ==> IsPassable(g, Ahead(cur, dir, i), doors) && Ahead(cur, dir, i) !in occupied
  {
    forall i | 1 <= i <= m' + 1
      ensures IsPassable(g, Ahead(cur, dir, i), doors) && Ahead(cur, dir, i) !in occupied
    {
      if i > 1 {
        AheadShift(cur, dir, i - 1);
        AheadNotBack(cur, dir, i);
      }
    }
  }

  /** With a unit direction, one or more steps never return to the start. */
  lemma AheadNotBack(p: Vec2, dir: Vec2, i: int)
    requires Abs(dir.x) + Abs(dir.y) == 1 && i >= 1
    ensures Ahead(p, dir, i) != p
    ensures i >= 2 ==> Ahead(p, dir, i) != Ahead(p, dir, 1)
  {
    if dir.x != 0 {
      assert i * dir.x != 0;
      assert i * dir.x - dir.x == (i - 1) * dir.x;
      if i >= 2 { assert (i - 1) * dir.x != 0; }
    } else {
      assert i * dir.y != 0;
      assert i * dir.y - dir.y == (i - 1) * dir.y;
      if i >= 2 { assert (i - 1) * dir.y != 0; }
    }
  }

  /** The cells held by living units: the `occupied` set of `applyKnockback`. */
  function LivePositions(units: Registry.Reg<Unit>): set<Vec2> {
    set k | k in units.m && units.m[k].hp > 0 :: units.m[k].pos
  }

  /** No two living units share a cell. */
  ghost predicate Separated(units: Registry.Reg<Unit>) {
    forall a, b :: a in units.m && b in units.m && a != b && units.m[a].hp > 0 && units.m[b].hp > 0 ==>
      units.m[a].pos != units.m[b].pos
  }

  /** The entry loop of `applyKnockback` with the occupied set threaded through. */
  function KnockbackFrom(s: GameState, pending: seq<PendingDamage>, occupied: set<Vec2>): (s': GameState)
    ensures s' == s.(units := s'.units)
    ensures s'.units.keys == s.units.keys && s'.units.m.Keys == s.units.m.Keys
    ensures forall k :: k in s.units.m ==> s'.units.m[k] == s.units.m[k].(pos := s'.units.m[k].pos)
    decreases |pending|
  {
    if |pending| == 0 then s
    else
      var e := pending[0];
      if e.knockback.None? || e.knockback.value <= 0 || e.targetId !in s.units.m || s.units.m[e.targetId].hp <= 0 then
        KnockbackFrom(s, pending[1..], occupied)
      else
        var target := s.units.m[e.targetId];
        match KnockbackDirection(e.sourcePos, target.pos)
        case None => KnockbackFrom(s, pending[1..], occupied)
        case Some(dir) =>
          var pushed := Push(s.grid, s.doors, occupied, target.pos, dir, e.knockback.value);
          KnockbackFrom(PutUnit(s, e.targetId, target.(pos := pushed.0)), pending[1..], pushed.1)
  }

  /** `applyKnockback`: each hit with a positive knockback on a living target
      pushes it away from the shot's origin; only positions change. */
  function ApplyKnockback(s: GameState, pending: seq<PendingDamage>): (s': GameState)
    ensures s' == s.(units := s'.units)
    ensures s'.units.keys == s.units.keys && s'.units.m.Keys == s.units.m.Keys
    ensures forall k :: k in s.units.m ==> s'.units.m[k] == s.units.m[k].(pos := s'.units.m[k].pos)
  {
    KnockbackFrom(s, pending, LivePositions(s.units))
  }

  /** Without a positive knockback in the list nobody moves. */
  lemma {:induction false} NoKnockbackNoMove(s: GameState, pending: seq<PendingDamage>, occupied: set<Vec2>)
    requires forall i :: 0 <= i < |pending| ==> pending[i].knockback.None? || pending[i].knockback.value <= 0
    ensures KnockbackFrom(s, pending, occupied) == s
    decreases |pending|
  {
    if |pending| > 0 {
      NoKnockbackNoMove(s, pending[1..], occupied);
    }
  }

  /** Moving one living unit to its own cell or to a cell no living unit
      holds keeps living units apart, and the occupied set follows the move. */
  lemma MoveKeepsSeparated(units: Registry.Reg<Unit>, id: string, p: Vec2)
    requires id in units.m && units.m[id].hp > 0 && Separated(units)
    requires p == units.m[id].pos || p !in LivePositions(units)
    ensures var units' := Registry.Put(units, id, units.m[id].(pos := p));
            Separated(units') &&
            LivePositions(units') == if p == units.m[id].pos then LivePositions(units)
                                     else LivePositions(units) - {units.m[id].pos} + {p}
  {
    var u := units.m[id];
    var units' := Registry.Put(units, id, u.(pos := p));
    if p != u.pos {
      forall a, b | a in units'.m && b in units'.m && a != b && units'.m[a].hp > 0 && units'.m[b].hp > 0
        ensures units'.m[a].pos != units'.m[b].pos
      {
        if a == id {
          assert units.m[b].pos in LivePositions(units);
        } else if b == id {
          assert units.m[a].pos in LivePositions(units);
        }
      }
      forall c | c in LivePositions(units')
        ensures c in LivePositions(units) - {u.pos} + {p}
      {
        var k :| k in units'.m && units'.m[k].hp > 0 && units'.m[k].pos == c;
        if k != id {
          assert c in LivePositions(units);
        }
      }
      forall c | c in LivePositions(units) - {u.pos} + {p}
        ensures c in LivePositions(units')
      {
        if c == p {
          assert units'.m[id].pos == p;
        } else {
          var k :| k in units.m && units.m[k].hp > 0 && units.m[k].pos == c;
          assert k != id;
          assert units'.m[k].pos == c;
        }
      }
    } else {
      assert units'.m == units.m;
    }
  }

  /** Knockback never stacks two living units on one cell, and every unit it
      moves ends on a passable cell. */
  lemma {:induction false} KnockbackFromKeeps(s: GameState, pending: seq<PendingDamage>, occupied: set<Vec2>)
    requires Separated(s.units) && occupied == LivePositions(s.units)
    ensures Separated(KnockbackFrom(s, pending, occupied).units)
    ensures forall k :: k in s.units.m ==>
              KnockbackFrom(s, pending, occupied).units.m[k].pos == s.units.m[k].pos ||
              IsPassable(s.grid, KnockbackFrom(s, pending, occupied).units.m[k].pos, s.doors)
    decreases |pending|
  {
    if |pending| > 0 {
      var e := pending[0];
      if e.knockback.None? || e.knockback.value <= 0 || e.targetId !in s.units.m || s.units.m[e.targetId].hp <= 0 {
        KnockbackFromKeeps(s, pending[1..], occupied);
      } else {
        var target := s.units.m[e.targetId];
        match KnockbackDirection(e.sourcePos, target.pos)
        case None =>
          KnockbackFromKeeps(s, pending[1..], occupied);
        case Some(dir) =>
          var pushed := Push(s.grid, s.doors, occupied, target.pos, dir, e.knockback.value);
          var s1 := PushOne(s, e.targetId, dir, e.knockback.value, occupied);
          assert KnockbackFrom(s, pending, occupied) == KnockbackFrom(s1, pending[1..], pushed.1);
          KnockbackFromKeeps(s1, pending[1..], pushed.1);
      }
    }
  }

  /** One living unit pushed: the units stay apart, the occupied cells follow
      the move, and the unit either stays put or lands on a passable cell. */
  lemma PushOne(s: GameState, id: string, dir: Vec2, k: int, occupied: set<Vec2>) returns (s1: GameState)
    requires Separated(s.units) && occupied == LivePositions(s.units)
    requires id in s.units.m && s.units.m[id].hp > 0 && Abs(dir.x) + Abs(dir.y) == 1
    ensures var pushed := Push(s.grid, s.doors, occupied, s.units.m[id].pos, dir, k);
            && s1 == PutUnit(s, id, s.units.m[id].(pos := pushed.0))
            && Separated(s1.units) && pushed.1 == LivePositions(s1.units)
            && (pushed.0 == s.units.m[id].pos || IsPassable(s.grid, pushed.0, s.doors))
  {
    var target := s.units.m[id];
    var pushed := Push(s.grid, s.doors, occupied, target.pos, dir, k);
    var m := PushSteps(s.grid, s.doors, occupied, target.pos, dir, k);
    assert Ahead(target.pos, dir, 0) == target.pos;
    MoveKeepsSeparated(s.units, id, pushed.0);
    s1 := PutUnit(s, id, target.(pos := pushed.0));
  }

  /** `applyKnockback` keeps living units on distinct cells and moves units only onto passable cells. */
  lemma KnockbackKeepsApart(s: GameState, pending: seq<PendingDamage>)
    requires Separated(s.units)
    ensures Separated(ApplyKnockback(s, pending).units)
    ensures forall k :: k in s.units.m ==>
              ApplyKnockback(s, pending).units.m[k].pos == s.units.m[k].pos ||
              IsPassable(s.grid, ApplyKnockback(s, pending).units.m[k].pos, s.doors)
  {
    KnockbackFromKeeps(s, pending, LivePositions(s.units));
  }
}
