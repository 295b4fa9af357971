/** Preparing the turn's command list: keeping only commands addressed to
    drones, dropping repeated commands for one unit, and splitting movement
    from everything else. */
module Commands {
  import opened Common
  import opened State
  import opened Schemas

  /** The ids the commands address, in order. */
  function Ids(cs: seq<Command>): (ids: seq<string>)
    ensures |ids| == |cs| && forall i :: 0 <= i < |cs| ==> ids[i] == cs[i].droneId
  {
    seq(|cs|, i requires 0 <= i < |cs| => cs[i].droneId)
  }

  /** `Array.prototype.filter`: the elements satisfying `p`, in order. */
  function Filter<T>(s: seq<T>, p: T -> bool): (r: seq<T>)
    ensures |r| <= |s|
    ensures forall x :: x in r ==> x in s && p(x)
    ensures forall i :: 0 <= i < |s| && p(s[i]) ==> s[i] in r
    decreases |s|
  {
    if |s| == 0 then []
    else
      var rest := Filter(s[1..], p);
      assert forall i :: 1 <= i < |s| ==> s[i] == s[1..][i - 1];
      if p(s[0]) then [s[0]] + rest else rest
  }

  /** A single element is kept exactly when it satisfies the predicate. */
  lemma FilterOne<T>(x: T, p: T -> bool)
    ensures Filter([x], p) == (if p(x) then [x] else [])
  {
    assert [x][1..] == [];
  }

  /** Filtering distributes over concatenation: with FilterOne, the kept
      elements stay in input order. */
  lemma {:induction false} FilterAppend<T>(s: seq<T>, t: seq<T>, p: T -> bool)
    ensures Filter(s + t, p) == Filter(s, p) + Filter(t, p)
    decreases |s|
  {
    if |s| == 0 {
      assert s + t == t;
    } else {
      var st := s + t;
      assert st[0] == s[0];
      assert st[1..] == s[1..] + t;
      var head := if p(s[0]) then [s[0]] else [];
      assert Filter(st, p) == head + Filter(s[1..] + t, p);
      assert Filter(s, p) == head + Filter(s[1..], p);
      FilterAppend(s[1..], t, p);
    }
  }

  /** Filtering by a predicate and by its negation splits a list without losing or adding elements. */
  lemma {:induction false} FilterPartition<T>(s: seq<T>, p: T -> bool, q: T -> bool)
    requires forall x :: q(x) <==> !p(x)
    ensures multiset(Filter(s, p)) + multiset(Filter(s, q)) == multiset(s)
    decreases |s|
  {
    if |s| > 0 {
      FilterPartition(s[1..], p, q);
      assert s == [s[0]] + s[1..];
    }
  }

  /** The dedupe loop, with the ids already seen: the first command for
      each unsent id is kept, every later one is reported as a duplicate. */
  function DedupeFrom(cs: seq<Command>, seen: set<string>): (r: (seq<Command>, seq<Event>))
    ensures |r.0| + |r.1| == |cs|
    ensures forall j :: 0 <= j < |r.0| ==> r.0[j] in cs && r.0[j].droneId !in seen
    ensures forall e :: e in r.1 ==> e.CommandFailed? && e.reason == "duplicate_command"
    decreases |cs|
  {
    if |cs| == 0 then ([], [])
    else
      var c := cs[0];
      assert forall x :: x in cs[1..] ==> x in cs;
      if c.droneId in seen then
        var rest := DedupeFrom(cs[1..], seen);
        (rest.0, [CommandFailed(c.droneId, "duplicate_command")] + rest.1)
      else
        var rest := DedupeFrom(cs[1..], seen + {c.droneId});
        ([c] + rest.0, rest.1)
  }

  /** Every duplicate report names a unit already seen or one that keeps a command. */
  lemma {:induction false} DedupeReportsKept(cs: seq<Command>, seen: set<string>, e: Event)
    requires e in DedupeFrom(cs, seen).1
    ensures e.unitId in seen || e.unitId in Ids(DedupeFrom(cs, seen).0)
    decreases |cs|
  {
    var c := cs[0];
    if c.droneId in seen {
      var rest := DedupeFrom(cs[1..], seen);
      if e in rest.1 {
        DedupeReportsKept(cs[1..], seen, e);
      }
    } else {
      var rest := DedupeFrom(cs[1..], seen + {c.droneId});
      var kept := [c] + rest.0;
      assert DedupeFrom(cs, seen) == (kept, rest.1);
      DedupeReportsKept(cs[1..], seen + {c.droneId}, e);
      if e.unitId == c.droneId {
        assert Ids(kept)[0] == c.droneId;
      } else if e.unitId !in seen {
        var i :| 0 <= i < |rest.0| && Ids(rest.0)[i] == e.unitId;
        assert Ids(kept)[i + 1] == e.unitId;
      }
    }
  }

  /** One turn of the dedupe loop, as seen by the kept list. */
  lemma DedupeUnfold(cs: seq<Command>, seen: set<string>)
    requires |cs| > 0
    ensures cs[0].droneId in seen ==> DedupeFrom(cs, seen).0 == DedupeFrom(cs[1..], seen).0
    ensures cs[0].droneId !in seen ==> DedupeFrom(cs, seen).0 == [cs[0]] + DedupeFrom(cs[1..], seen + {cs[0].droneId}).0
  {
  }

  /** The kept commands address distinct units. */
  lemma {:induction false} DedupeFromDistinct(cs: seq<Command>, seen: set<string>)
    ensures Distinct(Ids(DedupeFrom(cs, seen).0))
    decreases |cs|
  {
    if |cs| > 0 {
      var c := cs[0];
      DedupeUnfold(cs, seen);
      if c.droneId in seen {
        DedupeFromDistinct(cs[1..], seen);
      } else {
        var rest := DedupeFrom(cs[1..], seen + {c.droneId}).0;
        DedupeFromDistinct(cs[1..], seen + {c.droneId});
        ConsDistinct(c, rest);
      }
    }
  }

  /** A command whose unit the rest never addresses extends a distinct list. */
  lemma ConsDistinct(c: Command, rest: seq<Command>)
    requires Distinct(Ids(rest)) && forall j :: 0 <= j < |rest| ==> rest[j].droneId != c.droneId
    ensures Distinct(Ids([c] + rest))
  {
    var ids := Ids([c] + rest);
    forall a, b | 0 <= a < b < |ids|
      ensures ids[a] != ids[b]
    {
      assert ids[b] == Ids(rest)[b - 1] == rest[b - 1].droneId;
      if a > 0 {
        assert ids[a] == Ids(rest)[a - 1];
      }
    }
  }

  /** One turn of the dedupe loop keeps every addressed unit covered:
      what the tail covers, together with the head, is covered by the whole. */
  lemma CoversStep(cs: seq<Command>, seen: set<string>, seen': set<string>, kept: seq<Command>, rest: seq<Command>)
    requires |cs| > 0
    requires cs[0].droneId in seen ==> kept == rest && seen' == seen
    requires cs[0].droneId !in seen ==> kept == [cs[0]] + rest && seen' == seen + {cs[0].droneId}
    requires forall i :: 0 <= i < |cs[1..]| ==> cs[1..][i].droneId in seen' || cs[1..][i].droneId in Ids(rest)
    ensures forall i :: 0 <= i < |cs| ==> cs[i].droneId in seen || cs[i].droneId in Ids(kept)
  {
    forall i | 0 <= i < |cs|
      ensures cs[i].droneId in seen || cs[i].droneId in Ids(kept)
    {
      if cs[0].droneId !in seen {
        assert Ids(kept)[0] == cs[0].droneId;
        forall k | 0 <= k < |rest|
          ensures rest[k].droneId in Ids(kept)
        {
          assert Ids(kept)[k + 1] == rest[k].droneId;
        }
      }
      if i > 0 {
        assert cs[i] == cs[1..][i - 1];
      }
    }
  }

  /** Every unit the input addresses is either already seen or kept. */
  lemma {:induction false} DedupeFromCovers(cs: seq<Command>, seen: set<string>)
    ensures forall i :: 0 <= i < |cs| ==> cs[i].droneId in seen || cs[i].droneId in Ids(DedupeFrom(cs, seen).0)
    decreases |cs|
  {
    if |cs| > 0 {
      var c := cs[0];
      DedupeUnfold(cs, seen);
      var seen' := if c.droneId in seen then seen else seen + {c.droneId};
      DedupeFromCovers(cs[1..], seen');
      CoversStep(cs, seen, seen', DedupeFrom(cs, seen).0, DedupeFrom(cs[1..], seen').0);
    }
  }

  /** No earlier command addresses the same unit as `cs[i]`. */
  predicate FirstFor(cs: seq<Command>, i: int)
    requires 0 <= i < |cs|
  {
    forall k :: 0 <= k < i ==> cs[k].droneId != cs[i].droneId
  }

  /** A command first for its unit in the tail, whose unit differs from the
      head's, is first for its unit in the whole list. */
  lemma FirstLift(cs: seq<Command>, i: int, x: Command)
    requires 0 <= i < |cs| - 1 && cs[1..][i] == x && FirstFor(cs[1..], i) && x.droneId != cs[0].droneId
    ensures cs[i + 1] == x && FirstFor(cs, i + 1)
  {
    forall k | 0 < k < i + 1
      ensures cs[k].droneId != cs[i + 1].droneId
    {
      assert cs[k] == cs[1..][k - 1];
    }
  }

  /** A head whose unit was already seen is dropped: the first command the
      tail keeps at `j` sits one place further on in the whole list. */
  lemma SkipHead(cs: seq<Command>, seen: set<string>, j: int, i: int)
    requires |cs| > 0 && cs[0].droneId in seen && 0 <= j < |DedupeFrom(cs[1..], seen).0|
    requires 0 <= i < |cs| - 1 && cs[1..][i] == DedupeFrom(cs[1..], seen).0[j] && FirstFor(cs[1..], i)
    ensures 0 <= j < |DedupeFrom(cs, seen).0|
    ensures cs[i + 1] == DedupeFrom(cs, seen).0[j] && FirstFor(cs, i + 1)
  {
    DedupeUnfold(cs, seen);
    FirstLift(cs, i, DedupeFrom(cs[1..], seen).0[j]);
  }

  /** A head with an unseen unit is kept: what the tail keeps at `j - 1`
      is kept at `j` and sits one place further on in the whole list. */
  lemma KeepHead(cs: seq<Command>, seen: set<string>, j: int, i: int)
    requires |cs| > 0 && cs[0].droneId !in seen
    requires 1 <= j <= |DedupeFrom(cs[1..], seen + {cs[0].droneId}).0|
    requires 0 <= i < |cs| - 1 && cs[1..][i] == DedupeFrom(cs[1..], seen + {cs[0].droneId}).0[j - 1] && FirstFor(cs[1..], i)
    ensures 0 <= j < |DedupeFrom(cs, seen).0|
    ensures cs[i + 1] == DedupeFrom(cs, seen).0[j] && FirstFor(cs, i + 1)
  {
    DedupeUnfold(cs, seen);
    var rest := DedupeFrom(cs[1..], seen + {cs[0].droneId}).0;
    assert rest[j - 1].droneId !in seen + {cs[0].droneId};
    KeptLift(cs, i, rest, j);
  }

  /** The lifting step for a kept head, over any tail list. */
  lemma KeptLift(cs: seq<Command>, i: int, rest: seq<Command>, j: int)
    requires 1 <= j <= |rest| && 0 <= i < |cs| - 1
    requires cs[1..][i] == rest[j - 1] && FirstFor(cs[1..], i) && rest[j - 1].droneId != cs[0].droneId
    ensures cs[i + 1] == ([cs[0]] + rest)[j] && FirstFor(cs, i + 1)
  {
    FirstLift(cs, i, rest[j - 1]);
  }

  /** Every kept command is the first one in the input for its unit. */
  lemma {:induction false} DedupeKeepsFirst(cs: seq<Command>, seen: set<string>, j: int)
    requires 0 <= j < |DedupeFrom(cs, seen).0|
    ensures exists i :: 0 <= i < |cs| && cs[i] == DedupeFrom(cs, seen).0[j] && FirstFor(cs, i)
    decreases |cs|
  {
    var c := cs[0];
    DedupeUnfold(cs, seen);
    if c.droneId in seen {
      DedupeKeepsFirst(cs[1..], seen, j);
      var i :| 0 <= i < |cs[1..]| && cs[1..][i] == DedupeFrom(cs[1..], seen).0[j] && FirstFor(cs[1..], i);
      SkipHead(cs, seen, j, i);
    } else if j == 0 {
      assert FirstFor(cs, 0) && cs[0] == DedupeFrom(cs, seen).0[0];
    } else {
      DedupeKeepsFirst(cs[1..], seen + {c.droneId}, j - 1);
      var i :| 0 <= i < |cs[1..]| && cs[1..][i] == DedupeFrom(cs[1..], seen + {c.droneId}).0[j - 1] && FirstFor(cs[1..], i);
      KeepHead(cs, seen, j, i);
    }
  }

  /** A list whose units are all distinct and unseen passes through unchanged and silently. */
  lemma {:induction false} DedupeDistinct(cs: seq<Command>, seen: set<string>)
    requires Distinct(Ids(cs)) && forall i :: 0 <= i < |cs| ==> cs[i].droneId !in seen
    ensures DedupeFrom(cs, seen) == (cs, [])
    decreases |cs|
  {
    if |cs| > 0 {
      var c := cs[0];
      assert Ids(cs[1..]) == Ids(cs)[1..];
      forall i | 0 <= i < |cs[1..]|
        ensures cs[1..][i].droneId !in seen + {c.droneId}
      {
        assert Ids(cs)[i + 1] != Ids(cs)[0];
      }
      DedupeDistinct(cs[1..], seen + {c.droneId});
      assert cs == [c] + cs[1..];
    }
  }

  /** `dedupeCommands`. */
  function Dedupe(cs: seq<Command>): (r: (seq<Command>, seq<Event>))
    ensures Distinct(Ids(r.0))
    ensures forall c :: c in r.0 ==> c in cs
    ensures forall i :: 0 <= i < |cs| ==> cs[i].droneId in Ids(r.0)
    ensures |r.1| == |cs| - |r.0|
  {
    DedupeFromDistinct(cs, {});
    DedupeFromCovers(cs, {});
    DedupeFrom(cs, {})
  }

  /** Deduplicating twice drops nothing more: the first pass already leaves one command per unit. */
  lemma DedupeIdempotent(cs: seq<Command>)
    ensures Dedupe(Dedupe(cs).0) == (Dedupe(cs).0, [])
  {
    DedupeDistinct(Dedupe(cs).0, {});
  }

  /** The command is addressed to a unit of the drone faction. */
  predicate ToDrone(units: map<string, Unit>, c: Command) {
    c.droneId in units && units[c.droneId].faction == Drone
  }

  /** The commands addressed to drones, in order. */
  function ToDrones(units: map<string, Unit>, cs: seq<Command>): (r: seq<Command>)
    ensures forall c :: c in r ==> c in cs && ToDrone(units, c)
    ensures forall i :: 0 <= i < |cs| && ToDrone(units, cs[i]) ==> cs[i] in r
  {
    Filter(cs, c => ToDrone(units, c))
  }

  /** One step of the drone filter. */
  lemma ToDronesUnfold(units: map<string, Unit>, cs: seq<Command>)
    requires |cs| > 0
    ensures ToDrones(units, cs) ==
              (if ToDrone(units, cs[0]) then [cs[0]] else []) + ToDrones(units, cs[1..])
  {
  }

  /** A command first for its drone in the tail is first in the whole list
      when the head is for another drone. */
  lemma FirstForShift(cs: seq<Command>, i: int)
    requires 0 <= i < |cs| - 1 && FirstFor(cs[1..], i) && cs[0].droneId != cs[i + 1].droneId
    ensures FirstFor(cs, i + 1)
  {
    forall k | 0 <= k < i + 1 ensures cs[k].droneId != cs[i + 1].droneId {
      if k > 0 {
        assert cs[k] == cs[1..][k - 1];
      }
    }
  }

  /** The first command for its drone among those addressed to drones is
      the first for that drone in the whole list: whether a command is
      addressed to a drone depends on its drone id alone. */
  lemma {:induction false} ToDronesFirst(units: map<string, Unit>, cs: seq<Command>, j: int)
    requires 0 <= j < |ToDrones(units, cs)| && FirstFor(ToDrones(units, cs), j)
    ensures exists i :: 0 <= i < |cs| && cs[i] == ToDrones(units, cs)[j] && FirstFor(cs, i)
    decreases |cs|
  {
    var f := ToDrones(units, cs);
    var rest := ToDrones(units, cs[1..]);
    var c := f[j];
    ToDronesUnfold(units, cs);
    if ToDrone(units, cs[0]) && j == 0 {
      assert cs[0] == c && FirstFor(cs, 0);
    } else {
      var jr := if ToDrone(units, cs[0]) then j - 1 else j;
      assert rest[jr] == c;
      assert FirstFor(rest, jr) by {
        forall k | 0 <= k < jr ensures rest[k].droneId != c.droneId {
          assert rest[k] == f[k + j - jr];
        }
      }
      ToDronesFirst(units, cs[1..], jr);
      var i :| 0 <= i < |cs[1..]| && cs[1..][i] == c && FirstFor(cs[1..], i);
      assert cs[i + 1] == c;
      assert cs[0].droneId != c.droneId by {
        if ToDrone(units, cs[0]) {
          assert f[0] == cs[0];
        } else {
          assert c in ToDrones(units, cs);
        }
      }
      FirstForShift(cs, i);
    }
  }

  /** First wins: every command `sanitizePlayerCommands` keeps is the first
      command in the input for its drone. */
  lemma SanitizeKeepsFirst(s: GameState, cs: seq<Command>, j: int)
    requires 0 <= j < |Sanitize(s, cs).0|
    ensures exists i :: 0 <= i < |cs| && cs[i] == Sanitize(s, cs).0[j] && FirstFor(cs, i)
  {
    var drones := ToDrones(s.units.m, cs);
    assert Sanitize(s, cs).0 == DedupeFrom(drones, {}).0;
    DedupeKeepsFirst(drones, {}, j);
    var i :| 0 <= i < |drones| && drones[i] == DedupeFrom(drones, {}).0[j] && FirstFor(drones, i);
    ToDronesFirst(s.units.m, cs, i);
  }

  /** `sanitizePlayerCommands`: commands for unknown units and for enemies
      are dropped silently, then repeats are reported and dropped. */
  function Sanitize(s: GameState, cs: seq<Command>): (r: (seq<Command>, seq<Event>))
    ensures forall c :: c in r.0 ==> c in cs && ToDrone(s.units.m, c)
    ensures Distinct(Ids(r.0))
    ensures forall i :: 0 <= i < |cs| && ToDrone(s.units.m, cs[i]) ==> cs[i].droneId in Ids(r.0)
    ensures |r.0| + |r.1| == |ToDrones(s.units.m, cs)|
    ensures forall e :: e in r.1 ==> e.CommandFailed? && e.reason == "duplicate_command" && e.unitId in Ids(r.0)
  {
    var drones := ToDrones(s.units.m, cs);
    var r := Dedupe(drones);
    forall e | e in r.1 ensures e.unitId in Ids(r.0) {
      DedupeReportsKept(drones, {}, e);
    }
    forall i | 0 <= i < |cs| && ToDrone(s.units.m, cs[i])
      ensures cs[i].droneId in Ids(r.0)
    {
      var j :| 0 <= j < |drones| && drones[j] == cs[i];
    }
    r
  }

  /** The MOVE and DASH commands, in order. */
  function MoveCommands(cs: seq<Command>): (r: seq<Command>)
    ensures forall c :: c in r ==> c in cs && IsMovement(c)
  {
    Filter(cs, IsMovement)
  }

  predicate IsOther(c: Command) {
    !IsMovement(c)
  }

  /** Every other command, in order. */
  function OtherCommands(cs: seq<Command>): (r: seq<Command>)
    ensures forall c :: c in r ==> c in cs && !IsMovement(c)
  {
    Filter(cs, IsOther)
  }

  /** Both halves of the split keep queue order: splitting a concatenation
      splits each part, and a single command goes to exactly one half. */
  lemma SplitInOrder(a: seq<Command>, b: seq<Command>, c: Command)
    ensures MoveCommands(a + b) == MoveCommands(a) + MoveCommands(b)
    ensures OtherCommands(a + b) == OtherCommands(a) + OtherCommands(b)
    ensures MoveCommands([c]) == (if IsMovement(c) then [c] else [])
    ensures OtherCommands([c]) == (if IsMovement(c) then [] else [c])
  {
    FilterAppend(a, b, IsMovement);
    FilterAppend(a, b, IsOther);
    FilterOne(c, IsMovement);
    FilterOne(c, IsOther);
  }

  /** Movement and the rest together are exactly the commands of the turn. */
  lemma SplitIsPartition(cs: seq<Command>)
    ensures multiset(MoveCommands(cs)) + multiset(OtherCommands(cs)) == multiset(cs)
  {
    FilterPartition(cs, IsMovement, IsOther);
  }
}
