/** The day-loop mini-game (`core/sim` of the scalar layer): one day of moves,
    extractions, hazards and skirmishes, each reduced to an outcome record of
    deltas that is then clamped into the game state. Only the state fields the
    day-loop functions read or write are modelled; the rest of the game state
    passes through untouched. All quantities are integers. Every random roll
    becomes a boolean parameter holding its result. */
module DayLoop {
  import opened Common

  datatype EndingPart = PartA | PartB | PartC

  datatype EndingParts = EndingParts(partA: bool, partB: bool, partC: bool) {
    predicate Has(k: EndingPart) {
      match k
      case PartA => partA
      case PartB => partB
      case PartC => partC
    }

    /** The same record with part `k` set to true. */
    function Grant(k: EndingPart): (p: EndingParts)
      ensures p.Has(k)
      ensures forall j :: j != k ==> (p.Has(j) <==> Has(j))
    {
      match k
      case PartA => this.(partA := true)
      case PartB => this.(partB := true)
      case PartC => this.(partC := true)
    }
  }

  datatype DroneStatus = Operational | Down

  datatype Scala = Scala(vitals: int, stress: int, trust: int)
  datatype InventoryState = InventoryState(power: int, supplies: int, parts: int, endingParts: EndingParts)
  datatype DroneState = DroneState(integrity: int, status: DroneStatus)

  datatype Speaker = CRYSTAL | SCALA | WARDEN | SYSTEM
  datatype LogLine = LogLine(day: int, speaker: Speaker, text: string)

  /** The day-loop game's `GameState`, reduced to the fields the step reads and writes. */
  datatype DayState = DayState(
    day: int,
    heat: int,
    scala: Scala,
    inventory: InventoryState,
    drone: DroneState,
    log: seq<LogLine>)

  datatype FailReason = Heat100 | Vitals0

  datatype DayFlags = DayFlags(lockdown: bool, traceArmed: bool)

  const MaxLog: nat := 200

  // ---------------------------------------------------------------- clamping

  /** `Math.max(lo, Math.min(hi, n))`: when the bounds cross, `lo` wins. */
  function Clamp(n: int, lo: int, hi: int): (r: int)
    ensures r >= lo
    ensures lo <= hi ==> r <= hi
    ensures lo <= n <= hi ==> r == n
    ensures n <= lo ==> r == lo
    ensures lo <= hi <= n ==> r == hi
  {
    Max(lo, Min(hi, n))
  }

  /** Every gauge of the day loop inside its range: heat, the three scala
      gauges and drone integrity in [0, 100], the three resources non-negative. */
  predicate Bounded(s: DayState) {
    0 <= s.heat <= 100 &&
    0 <= s.scala.vitals <= 100 && 0 <= s.scala.stress <= 100 && 0 <= s.scala.trust <= 100 &&
    s.inventory.power >= 0 && s.inventory.supplies >= 0 && s.inventory.parts >= 0 &&
    0 <= s.drone.integrity <= 100
  }

  // ------------------------------------------------------------ day flags

  /** The flags a day starts with: lockdown when heat is at least 40, trace
      disarmed. */
  function InitDayFlags(s: DayState): (f: DayFlags)
    ensures f.lockdown <==> s.heat >= 40
    ensures !f.traceArmed
  {
    DayFlags(s.heat >= 40, false)
  }

  // ------------------------------------------------------------------ log

  /** The last `n` entries of `xs`, or all of them when there are fewer. */
  function Latest<T>(xs: seq<T>, n: nat): (r: seq<T>)
    ensures |r| == Min(|xs|, n)
    ensures forall i :: 0 <= i < |r| ==> r[i] == xs[|xs| - |r| + i]
  {
    if |xs| > n then xs[|xs| - n..] else xs
  }

  /** Appends a line stamped with the current day, keeping only the most
      recent `MaxLog` lines. */
  function AppendLog(s: DayState, speaker: Speaker, text: string): (r: DayState)
    ensures r == s.(log := r.log)
    ensures |r.log| == Min(|s.log| + 1, MaxLog)
    ensures r.log[|r.log| - 1] == LogLine(s.day, speaker, text)
    ensures forall i :: 0 <= i < |r.log| - 1 ==> r.log[i] == s.log[|s.log| - (|r.log| - 1) + i]
  {
    s.(log := Latest(s.log + [LogLine(s.day, speaker, text)], MaxLog))
  }

  datatype Entry = Entry(speaker: Speaker, text: string)

  /** Appends each entry in turn. */
  function AppendAll(s: DayState, entries: seq<Entry>): (r: DayState)
    ensures r == s.(log := r.log)
    decreases |entries|
  {
    if |entries| == 0 then s
    else AppendAll(AppendLog(s, entries[0].speaker, entries[0].text), entries[1..])
  }

  /** The entries as log lines of day `day`. */
  function Stamp(day: int, entries: seq<Entry>): (r: seq<LogLine>)
    ensures |r| == |entries|
    ensures forall i :: 0 <= i < |r| ==> r[i] == LogLine(day, entries[i].speaker, entries[i].text)
  {
    seq(|entries|, i requires 0 <= i < |entries| => LogLine(day, entries[i].speaker, entries[i].text))
  }

  /** Taking the latest `n` of a sequence already cut to its latest `n`, with
      more appended, equals cutting once at the end. */
  lemma LatestAppend<T>(xs: seq<T>, ys: seq<T>, n: nat)
    ensures Latest(Latest(xs, n) + ys, n) == Latest(xs + ys, n)
  {
    var l := Latest(xs, n);
    if |xs| > n {
      var a := Latest(l + ys, n);
      var b := Latest(xs + ys, n);
      assert |a| == |b| == n;
      forall i | 0 <= i < n
        ensures a[i] == b[i]
      {
        var j := |ys| - n + i;
        assert a[i] == (l + ys)[n + j];
        assert b[i] == (xs + ys)[|xs| + j];
        if j < 0 {
          assert (l + ys)[n + j] == l[n + j] == xs[|xs| + j];
        }
      }
    }
  }

  /** Appending entries one at a time is appending them all and then keeping
      the latest `MaxLog` lines: the cap never loses a line that would
      otherwise have survived. */
  lemma {:induction false} AppendAllLatest(s: DayState, entries: seq<Entry>)
    requires |s.log| <= MaxLog || |entries| > 0
    ensures AppendAll(s, entries).log == Latest(s.log + Stamp(s.day, entries), MaxLog)
    decreases |entries|
  {
    if |entries| == 0 {
      assert s.log + Stamp(s.day, entries) == s.log;
    } else {
      var e := entries[0];
      var t := AppendLog(s, e.speaker, e.text);
      var line := LogLine(s.day, e.speaker, e.text);
      assert AppendAll(s, entries) == AppendAll(t, entries[1..]);
      assert t.day == s.day && t.log == Latest(s.log + [line], MaxLog);
      AppendAllLatest(t, entries[1..]);
      LatestAppend(s.log + [line], Stamp(s.day, entries[1..]), MaxLog);
      StampCons(s.log, s.day, entries);
    }
  }

  lemma StampCons(log: seq<LogLine>, day: int, entries: seq<Entry>)
    requires |entries| > 0
    ensures (log + [LogLine(day, entries[0].speaker, entries[0].text)]) + Stamp(day, entries[1..]) ==
            log + Stamp(day, entries)
  {
    var line := LogLine(day, entries[0].speaker, entries[0].text);
    assert Stamp(day, entries) == [line] + Stamp(day, entries[1..]);
  }

  // ------------------------------------------------------------ end of day

  /** Won once all three ending parts are held. */
  predicate IsWin(s: DayState) {
    s.inventory.endingParts.partA && s.inventory.endingParts.partB && s.inventory.endingParts.partC
  }

  /** Winning means holding every ending part there is. */
  lemma IsWinMeans(s: DayState)
    ensures IsWin(s) <==> forall k: EndingPart :: s.inventory.endingParts.Has(k)
  {
    if !IsWin(s) {
      var p := s.inventory.endingParts;
      assert !p.Has(PartA) || !p.Has(PartB) || !p.Has(PartC);
    }
  }

  /** Lost by heat first, then by vitals. */
  function IsFail(s: DayState): (r: Option<FailReason>)
    ensures r == Some(Heat100) <==> s.heat >= 100
    ensures r == Some(Vitals0) <==> s.heat < 100 && s.scala.vitals <= 0
    ensures r == None <==> s.heat < 100 && s.scala.vitals > 0
  {
    if s.heat >= 100 then Some(Heat100)
    else if s.scala.vitals <= 0 then Some(Vitals0)
    else None
  }

  datatype SimStepResult = SimStepResult(state: DayState, ended: bool, win: bool, failReason: Option<FailReason>)

  /** Checks whether the game is over; a loss takes precedence over a win and
      the state is handed back unchanged. */
  function StepAndCheckEnd(s: DayState): (r: SimStepResult)
    ensures r.state == s
    ensures r.ended <==> s.heat >= 100 || s.scala.vitals <= 0 || IsWin(s)
    ensures r.win <==> s.heat < 100 && s.scala.vitals > 0 && IsWin(s)
    ensures r.failReason.Some? <==> s.heat >= 100 || s.scala.vitals <= 0
    ensures r.failReason == Some(Heat100) <==> s.heat >= 100
    ensures r.win ==> r.failReason.None?
  {
    match IsFail(s)
    case Some(reason) => SimStepResult(s, true, false, Some(reason))
    case None =>
      if IsWin(s) then SimStepResult(s, true, true, None)
      else SimStepResult(s, false, false, None)
  }

  /** Holding all three parts is a win exactly when nothing fails first. */
  lemma WinNeedsNoFailure(s: DayState)
    requires IsWin(s)
    ensures StepAndCheckEnd(s).ended
    ensures StepAndCheckEnd(s).win <==> IsFail(s).None?
  {
  }

  // -------------------------------------------------------------- outcomes

  datatype ExtractOutcome = ExtractOutcome(
    ok: bool,
    deltaHeat: int,
    deltaVitals: int,
    deltaStress: int,
    deltaTrust: int,
    deltaPower: int,
    deltaSupplies: int,
    deltaParts: int,
    obtainedEndingPart: Option<EndingPart>,
    droneIntegrityDelta: int,
    droneDown: bool)

  datatype HazardKey = PatrolSweep | SurgicalLight

  datatype HazardOutcome = HazardOutcome(
    key: HazardKey,
    ok: bool,
    deltaHeat: int,
    deltaVitals: int,
    deltaStress: int,
    deltaTrust: int,
    droneIntegrityDelta: int,
    droneDown: bool)

  datatype CombatKey = WardenSkirmish

  datatype CombatOutcome = CombatOutcome(
    key: CombatKey,
    ok: bool,
    deltaHeat: int,
    deltaVitals: int,
    deltaStress: int,
    deltaTrust: int,
    deltaPower: int,
    deltaSupplies: int,
    deltaParts: int,
    droneIntegrityDelta: int,
    droneDown: bool)

  /** Shifts a gauge by `d` and clamps it into [0, 100]. */
  function Gauge(v: int, d: int): (r: int)
    ensures 0 <= r <= 100
    ensures 0 <= v + d <= 100 ==> r == v + d
    ensures d >= 0 && v <= 100 ==> r >= v
    ensures d <= 0 && v >= 0 ==> r <= v
  {
    Clamp(v + d, 0, 100)
  }

  /** Shifts a resource by `d`, never below zero. */
  function Stock(v: int, d: int): (r: int)
    ensures r >= 0
    ensures v + d >= 0 ==> r == v + d
    ensures d >= 0 && v >= 0 ==> r >= v
  {
    Max(0, v + d)
  }

  function ShiftScala(sc: Scala, dv: int, ds: int, dt: int): (r: Scala)
    ensures 0 <= r.vitals <= 100 && 0 <= r.stress <= 100 && 0 <= r.trust <= 100
  {
    Scala(Gauge(sc.vitals, dv), Gauge(sc.stress, ds), Gauge(sc.trust, dt))
  }

  /** The drone after an integrity delta; `down` knocks it down, otherwise
      its status is kept. */
  function ShiftDrone(d: DroneState, di: int, down: bool): (r: DroneState)
    ensures 0 <= r.integrity <= 100
    ensures r.status == Down <==> down || d.status == Down
  {
    DroneState(Gauge(d.integrity, di), if down then Down else d.status)
  }

  /** `v` is `x` brought into [0, 100]: unchanged inside, the nearer bound outside. */
  predicate ClampedTo(v: int, x: int) {
    (0 <= x <= 100 ==> v == x) && (x < 0 ==> v == 0) && (x > 100 ==> v == 100)
  }

  /** `v` is `x` raised to zero when negative. */
  predicate FlooredTo(v: int, x: int) {
    (x >= 0 ==> v == x) && (x < 0 ==> v == 0)
  }

  /** Applies an extraction outcome: gauges clamped into [0, 100], resources
      kept non-negative, the obtained ending part granted and no other part
      touched. */
  function ApplyExtractOutcome(s: DayState, o: ExtractOutcome): (r: DayState)
    ensures Bounded(r)
    ensures r.day == s.day && r.log == s.log
    ensures forall k :: r.inventory.endingParts.Has(k) <==>
                        s.inventory.endingParts.Has(k) || o.obtainedEndingPart == Some(k)
    ensures r.drone.status == Down <==> o.droneDown || s.drone.status == Down
    ensures ClampedTo(r.heat, s.heat + o.deltaHeat)
    ensures ClampedTo(r.scala.vitals, s.scala.vitals + o.deltaVitals)
    ensures ClampedTo(r.scala.stress, s.scala.stress + o.deltaStress)
    ensures ClampedTo(r.scala.trust, s.scala.trust + o.deltaTrust)
    ensures ClampedTo(r.drone.integrity, s.drone.integrity + o.droneIntegrityDelta)
    ensures FlooredTo(r.inventory.power, s.inventory.power + o.deltaPower)
    ensures FlooredTo(r.inventory.supplies, s.inventory.supplies + o.deltaSupplies)
    ensures FlooredTo(r.inventory.parts, s.inventory.parts + o.deltaParts)
  {
    var parts := s.inventory.endingParts;
    s.(heat := Gauge(s.heat, o.deltaHeat),
       scala := ShiftScala(s.scala, o.deltaVitals, o.deltaStress, o.deltaTrust),
       inventory := InventoryState(
         Stock(s.inventory.power, o.deltaPower),
         Stock(s.inventory.supplies, o.deltaSupplies),
         Stock(s.inventory.parts, o.deltaParts),
         if o.obtainedEndingPart.Some? then parts.Grant(o.obtainedEndingPart.value) else parts),
       drone := ShiftDrone(s.drone, o.droneIntegrityDelta, o.droneDown))
  }

  /** Applies a hazard outcome: the gauges move and are clamped, the inventory
      is left exactly as it was. */
  function ApplyHazardOutcome(s: DayState, o: HazardOutcome): (r: DayState)
    ensures r.inventory == s.inventory && r.day == s.day && r.log == s.log
    ensures 0 <= r.heat <= 100 && 0 <= r.drone.integrity <= 100
    ensures 0 <= r.scala.vitals <= 100 && 0 <= r.scala.stress <= 100 && 0 <= r.scala.trust <= 100
    ensures r.drone.status == Down <==> o.droneDown || s.drone.status == Down
  {
    s.(heat := Gauge(s.heat, o.deltaHeat),
       scala := ShiftScala(s.scala, o.deltaVitals, o.deltaStress, o.deltaTrust),
       drone := ShiftDrone(s.drone, o.droneIntegrityDelta, o.droneDown))
  }

  /** Applies a skirmish outcome: like an extraction that yields no ending
      part. */
  function ApplyCombatOutcome(s: DayState, o: CombatOutcome): (r: DayState)
    ensures Bounded(r)
    ensures r.inventory.endingParts == s.inventory.endingParts && r.day == s.day && r.log == s.log
    ensures r.drone.status == Down <==> o.droneDown || s.drone.status == Down
  {
    s.(heat := Gauge(s.heat, o.deltaHeat),
       scala := ShiftScala(s.scala, o.deltaVitals, o.deltaStress, o.deltaTrust),
       inventory := s.inventory.(
         power := Stock(s.inventory.power, o.deltaPower),
         supplies := Stock(s.inventory.supplies, o.deltaSupplies),
         parts := Stock(s.inventory.parts, o.deltaParts)),
       drone := ShiftDrone(s.drone, o.droneIntegrityDelta, o.droneDown))
  }

  /** The extraction outcome with the same deltas and no ending part. */
  function CombatAsExtract(o: CombatOutcome): ExtractOutcome {
    ExtractOutcome(o.ok, o.deltaHeat, o.deltaVitals, o.deltaStress, o.deltaTrust,
                   o.deltaPower, o.deltaSupplies, o.deltaParts, None,
                   o.droneIntegrityDelta, o.droneDown)
  }

  /** A skirmish changes the state exactly as the extraction with the same
      deltas and no part. */
  lemma CombatIsExtract(s: DayState, o: CombatOutcome)
    ensures ApplyCombatOutcome(s, o) == ApplyExtractOutcome(s, CombatAsExtract(o))
  {
  }

  /** The extraction outcome with the hazard's deltas and no resources. */
  function HazardAsExtract(o: HazardOutcome): ExtractOutcome {
    ExtractOutcome(o.ok, o.deltaHeat, o.deltaVitals, o.deltaStress, o.deltaTrust,
                   0, 0, 0, None, o.droneIntegrityDelta, o.droneDown)
  }

  /** On a state whose resources are non-negative, a hazard is the extraction
      with its deltas and nothing gained; on a state with a negative resource
      the two differ, since only the extraction lifts it to zero. */
  lemma HazardIsExtract(s: DayState, o: HazardOutcome)
    ensures ApplyHazardOutcome(s, o) == ApplyExtractOutcome(s, HazardAsExtract(o)) <==>
            s.inventory.power >= 0 && s.inventory.supplies >= 0 && s.inventory.parts >= 0
  {
    var a := ApplyHazardOutcome(s, o);
    var b := ApplyExtractOutcome(s, HazardAsExtract(o));
    if s.inventory.power >= 0 && s.inventory.supplies >= 0 && s.inventory.parts >= 0 {
      assert a.inventory == b.inventory;
    } else {
      assert a.inventory != b.inventory;
    }
  }

  /** The outcome that changes nothing. */
  const NoChange := ExtractOutcome(true, 0, 0, 0, 0, 0, 0, 0, None, 0, false)

  /** Applying no change leaves a state as it is exactly when every gauge is
      already in range: the clamps are the only other effect. */
  lemma NoChangeFixesBounded(s: DayState)
    ensures ApplyExtractOutcome(s, NoChange) == s <==> Bounded(s)
  {
    var r := ApplyExtractOutcome(s, NoChange);
    if Bounded(s) {
      assert r.inventory.endingParts == s.inventory.endingParts;
      assert r.drone == s.drone;
    }
  }

  /** No outcome takes an ending part away, so a won game stays won. */
  lemma ExtractKeepsWin(s: DayState, o: ExtractOutcome)
    requires IsWin(s)
    ensures IsWin(ApplyExtractOutcome(s, o))
  {
    var r := ApplyExtractOutcome(s, o);
    assert s.inventory.endingParts.Has(PartA) && s.inventory.endingParts.Has(PartB) &&
           s.inventory.endingParts.Has(PartC);
    assert r.inventory.endingParts.Has(PartA) && r.inventory.endingParts.Has(PartB) &&
           r.inventory.endingParts.Has(PartC);
  }

  // ------------------------------------------------------------ extraction

  datatype Reward = Reward(power: Option<int>, supplies: Option<int>, parts: Option<int>,
                           endingPart: Option<EndingPart>)

  datatype ExtractParams = ExtractParams(reward: Reward, heatGain: int, stressGainOnFail: int,
                                         integrityLossOnFail: int)

  /** `Math.ceil(h * 0.5)` for an integer `h`. */
  function HalfUp(h: int): (r: int)
    ensures h <= 2 * r <= h + 1
  {
    -((-h) / 2)
  }

  /** The outcome of an extraction whose success roll came out `ok`. A success
      brings the heat gain, the reward (a missing amount counts as zero), the
      reward's ending part and a point of trust once trust is at least 60. A
      failure costs the absolute integrity loss, half the heat gain rounded up
      (never negative) and the stress gain, and gains nothing; it downs the
      drone exactly when the loss would take integrity to zero. */
  function SimulateExtract(s: DayState, ok: bool, p: ExtractParams): (o: ExtractOutcome)
    ensures o.ok == ok
    ensures ok ==> o.deltaHeat == p.heatGain && o.deltaVitals == 0 && o.deltaStress == 0 &&
                   (o.deltaTrust == 1 <==> s.scala.trust >= 60) && 0 <= o.deltaTrust <= 1 &&
                   o.deltaPower == p.reward.power.GetOr(0) &&
                   o.deltaSupplies == p.reward.supplies.GetOr(0) &&
                   o.deltaParts == p.reward.parts.GetOr(0) &&
                   o.obtainedEndingPart == p.reward.endingPart &&
                   o.droneIntegrityDelta == 0 && !o.droneDown
    ensures !ok ==> o.deltaVitals == 0 && o.deltaTrust == 0 && o.deltaStress == p.stressGainOnFail &&
                    o.deltaPower == 0 && o.deltaSupplies == 0 && o.deltaParts == 0 &&
                    o.obtainedEndingPart.None?
    ensures !ok ==> o.droneIntegrityDelta <= 0 &&
                    (o.droneIntegrityDelta == p.integrityLossOnFail || o.droneIntegrityDelta == -p.integrityLossOnFail)
    ensures !ok ==> (o.droneDown <==> s.drone.integrity + o.droneIntegrityDelta <= 0)
    ensures !ok ==> o.deltaHeat >= 0 &&
                    (p.heatGain <= 0 ==> o.deltaHeat == 0) &&
                    (p.heatGain > 0 ==> p.heatGain <= 2 * o.deltaHeat <= p.heatGain + 1)
  {
    if ok then
      ExtractOutcome(true, p.heatGain, 0, 0, if s.scala.trust >= 60 then 1 else 0,
                     p.reward.power.GetOr(0), p.reward.supplies.GetOr(0), p.reward.parts.GetOr(0),
                     p.reward.endingPart, 0, false)
    else
      var loss: int := 0 - Abs(p.integrityLossOnFail);
      var projected := Clamp(s.drone.integrity + loss, 0, 100);
      ExtractOutcome(false, Max(0, HalfUp(p.heatGain)), 0, p.stressGainOnFail, 0, 0, 0, 0, None,
                     loss, projected <= 0)
  }

  /** After a failed extraction the drone is down if its integrity reached
      zero, and a state whose gauges were in range keeps its inventory. */
  lemma FailedExtract(s: DayState, p: ExtractParams)
    ensures var r := ApplyExtractOutcome(s, SimulateExtract(s, false, p));
            (r.drone.integrity == 0 ==> r.drone.status == Down) &&
            r.drone.integrity <= Max(s.drone.integrity, 0) &&
            (Bounded(s) ==> r.inventory == s.inventory)
  {
    var o := SimulateExtract(s, false, p);
    var r := ApplyExtractOutcome(s, o);
    if Bounded(s) {
      assert r.inventory.endingParts == s.inventory.endingParts;
    }
  }

  /** A successful extraction of the last missing ending part wins the game. */
  lemma ExtractCompletesSet(s: DayState, p: ExtractParams, k: EndingPart)
    requires p.reward.endingPart == Some(k)
    requires forall j :: j != k ==> s.inventory.endingParts.Has(j)
    ensures IsWin(ApplyExtractOutcome(s, SimulateExtract(s, true, p)))
  {
    var r := ApplyExtractOutcome(s, SimulateExtract(s, true, p));
    assert r.inventory.endingParts.Has(PartA) && r.inventory.endingParts.Has(PartB) &&
           r.inventory.endingParts.Has(PartC);
  }

  // ----------------------------------------------------------------- moves

  /** Pays a move's cost: heat clamped into [0, 100], power lowered by the
      cost's positive part and never below zero. */
  function ApplyMoveCost(s: DayState, heat: int, power: int): (r: DayState)
    ensures r == s.(heat := r.heat, inventory := s.inventory.(power := r.inventory.power))
    ensures 0 <= r.heat <= 100
    ensures r.inventory.power >= 0
    ensures s.inventory.power >= 0 ==> r.inventory.power <= s.inventory.power
    ensures power <= 0 && s.inventory.power >= 0 ==> r.inventory.power == s.inventory.power
    ensures 0 <= power <= s.inventory.power ==> r.inventory.power == s.inventory.power - power
  {
    s.(heat := Clamp(s.heat + heat, 0, 100),
       inventory := s.inventory.(power := Max(0, s.inventory.power - Max(0, power))))
  }

  datatype MoveCost = MoveCost(time: int, heat: int, power: int)

  datatype MoveOutcome = MoveOutcome(deltaHeat: int, deltaPower: int, time: int,
                                     blockedByLockdown: bool, enteredCombat: bool)

  datatype MoveResult = MoveResult(outcome: MoveOutcome, flags: DayFlags)

  /** The chance that a move runs into a lockdown: none below heat 40, 0.15
      from 40, 0.35 from 70. Below 40 no roll is drawn at all. */
  function LockdownChance(heat: int): (p: real)
    ensures 0.0 <= p < 1.0
    ensures p > 0.0 <==> heat >= 40
  {
    if heat >= 70 then 0.35 else if heat >= 40 then 0.15 else 0.0
  }

  /** Hotter is never safer. */
  lemma LockdownChanceMonotone(a: int, b: int)
    requires a <= b
    ensures LockdownChance(a) <= LockdownChance(b)
  {
  }

  /** The outcome of a move; `lockdownRoll` is the result of the lockdown roll,
      which only counts from heat 40. A lockdown blocks the move, adds 2 heat
      and 1 power to its cost and sets the day's lockdown flag. */
  function SimulateMove(s: DayState, lockdownRoll: bool, cost: MoveCost, flags: DayFlags,
                        enteredCombat: bool): (r: MoveResult)
    ensures r.outcome.deltaPower <= 0
    ensures r.outcome.time == cost.time && r.outcome.enteredCombat == enteredCombat
    ensures r.outcome.blockedByLockdown <==> s.heat >= 40 && lockdownRoll
    ensures r.outcome.blockedByLockdown ==>
              r.outcome.deltaHeat == cost.heat + 2 && r.outcome.deltaPower == -Max(0, cost.power + 1)
    ensures !r.outcome.blockedByLockdown ==>
              r.outcome.deltaHeat == cost.heat && r.outcome.deltaPower == -Max(0, cost.power) &&
              r.flags == flags
    ensures r.flags.lockdown <==> flags.lockdown || r.outcome.blockedByLockdown
    ensures r.flags.traceArmed == flags.traceArmed
  {
    var blocked := s.heat >= 40 && lockdownRoll;
    var heat := if blocked then cost.heat + 2 else cost.heat;
    var power := if blocked then cost.power + 1 else cost.power;
    MoveResult(MoveOutcome(heat, -Max(0, power), cost.time, blocked, enteredCombat),
               if blocked then flags.(lockdown := true) else flags)
  }

  /** Below heat 40 the lockdown roll has no effect on a move. */
  lemma NoLockdownWhenCool(s: DayState, cost: MoveCost, flags: DayFlags, enteredCombat: bool)
    requires s.heat < 40
    ensures SimulateMove(s, true, cost, flags, enteredCombat) == SimulateMove(s, false, cost, flags, enteredCombat)
  {
  }

  /** Starting from the day's own flags, a move leaves the lockdown flag set
      exactly when the day started hot, whatever the roll: a lockdown can only
      strike a day that already had one. */
  lemma LockdownFlagOfDay(s: DayState, roll: bool, cost: MoveCost, enteredCombat: bool)
    ensures SimulateMove(s, roll, cost, InitDayFlags(s), enteredCombat).flags.lockdown <==> s.heat >= 40
  {
  }

  /** A blocked move never costs less power, and costs exactly 2 more heat,
      than the same move let through. */
  lemma LockdownCostsMore(s: DayState, cost: MoveCost, flags: DayFlags, enteredCombat: bool)
    requires s.heat >= 40
    ensures var blocked := SimulateMove(s, true, cost, flags, enteredCombat).outcome;
            var free := SimulateMove(s, false, cost, flags, enteredCombat).outcome;
            blocked.deltaHeat == free.deltaHeat + 2 &&
            free.deltaPower - 1 <= blocked.deltaPower <= free.deltaPower
  {
  }

  /** Paying a simulated move's cost never raises power from a non-negative
      level, whatever the roll and the cost. */
  lemma MoveNeverRaisesPower(s: DayState, roll: bool, cost: MoveCost, flags: DayFlags, enteredCombat: bool)
    requires s.inventory.power >= 0
    ensures var o := SimulateMove(s, roll, cost, flags, enteredCombat).outcome;
            var r := ApplyMoveCost(s, o.deltaHeat, -o.deltaPower);
            r.inventory.power == Max(0, s.inventory.power + o.deltaPower) &&
            r.inventory.power <= s.inventory.power
  {
  }
}
