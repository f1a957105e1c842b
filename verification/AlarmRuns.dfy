/** Runs, from the start, in which a heater that is too cold or too hot takes its shelf down. */
module AlarmRuns {
  import opened DisabledPins
  import opened HeaterControl
  import opened HeaterTicks
  import opened Supervision
  import opened TopK

  /** How a heater stands to its setpoint: on it, or more than 11 degrees off. */
  datatype Drift = Steady | Cold | Hot

  predicate Drifts(x: Heater, d: Drift) {
    match d
    case Steady => x.temp == x.setpoint
    case Cold => x.setpoint - x.temp > 11
    case Hot => x.temp - x.setpoint > 11
  }

  /** The alarm of a heater that has been off for `n` evaluated ticks in a row. */
  function Counting(off: bool, n: nat): Alarm {
    if off then Alarm(0 < n, false, false, n) else QUIET
  }

  predicate Working(x: Heater, d: Drift, n: nat) {
    && x.enabled && !x.setpointChanged && Drifts(x, d)
    && x.undertemp == Counting(d.Cold?, n) && x.overtemp == Counting(d.Hot?, n)
  }

  function DriftOf(d: Drift, i: nat): Drift {
    if i == 0 then d else Steady
  }

  /** After startup, outside cleaning mode, with heater 0 off by that much and the others at their setpoints. */
  ghost predicate OneOff(s: State, d: Drift, n: nat) {
    && !s.g.initialStartup && s.g.startupComplete && !s.g.cleaning
    && forall i | 0 <= i < NUM_HEATERS :: Working(s.h[i], DriftOf(d, i), n)
  }

  lemma WorkingVisit(x: Heater, d: Drift, n: nat)
    requires Working(x, d, n) && n < 900
    ensures !Trips(x, true, false)
    ensures var y := Visited(x, true, false);
      y == x.(delta := y.delta, wasOn := y.wasOn, isOn := y.isOn,
              undertemp := Counting(d.Cold?, n + 1), overtemp := Counting(d.Hot?, n + 1))
  {
  }

  lemma OffTick(s: State, d: Drift, n: nat, volts: real, i: nat)
    requires OneOff(s, d, n) && n < 900 && i < NUM_HEATERS
    ensures Working(HeaterAfterTick(s, volts, i), DriftOf(d, i), n + 1)
  {
    WorkingVisit(s.h[i], DriftOf(d, i), n);
    WorkingVisit(s.h[Sibling(i)], DriftOf(d, Sibling(i)), n);
  }

  lemma OffStep(s: State, d: Drift, n: nat, volts: real, cfg: Config)
    requires cfg.Valid() && OneOff(s, d, n) && n < 900
    ensures OneOff(Step(s, HeaterTick(volts), cfg), d, n + 1)
  {
    var t := Step(s, HeaterTick(volts), cfg);
    forall i | 0 <= i < NUM_HEATERS ensures Working(t.h[i], DriftOf(d, i), n + 1) {
      OffTick(s, d, n, volts, i);
    }
  }

  function Ticking(volts: real, n: nat): seq<Event> {
    seq(n, _ => HeaterTick(volts))
  }

  lemma OneMoreTick(s: State, es: seq<Event>, cfg: Config, volts: real, n: nat)
    requires cfg.Valid()
    ensures Run(s, es + Ticking(volts, n + 1), cfg) == Step(Run(s, es + Ticking(volts, n), cfg), HeaterTick(volts), cfg)
  {
    assert es + Ticking(volts, n + 1) == es + Ticking(volts, n) + [HeaterTick(volts)];
    RunThen(s, es + Ticking(volts, n), HeaterTick(volts), cfg);
  }

  /** Heater 0 stays off, and its alarm counts every tick. */
  lemma {:induction false} OffTicks(s: State, es: seq<Event>, cfg: Config, d: Drift, volts: real, n: nat)
    requires cfg.Valid() && OneOff(Run(s, es, cfg), d, 0) && n <= 900
    ensures OneOff(Run(s, es + Ticking(volts, n), cfg), d, n)
  {
    if n == 0 {
      assert es + Ticking(volts, 0) == es;
    } else {
      OffTicks(s, es, cfg, d, volts, n - 1);
      var t := Run(s, es + Ticking(volts, n - 1), cfg);
      OffStep(t, d, n - 1, volts, cfg);
      OneMoreTick(s, es, cfg, volts, n - 1);
    }
  }

  /** The tick that follows disables both heaters of the shelf. */
  lemma The901stDisables(s: State, d: Drift, volts: real)
    requires OneOff(s, d, 900) && !d.Steady?
    ensures TickTrips(s, 0) && !HeaterAfterTick(s, volts, 0).enabled && !HeaterAfterTick(s, volts, 1).enabled
  {
    assert Working(s.h[0], d, 900);
    assert TickTrips(s, 0) && TickTrips(s, 1);
    TickHeater(s, volts, 0);
    TickHeater(s, volts, 1);
  }

  /** If heater 0 is too cold it is powered all the same. */
  lemma AlarmedHeaterIsPowered(s: State, volts: real)
    requires OneOff(s, Cold, 900)
    ensures DisabledAndPowered(HeaterAfterTick(s, volts, 0))
  {
    The901stDisables(s, Cold, volts);
    var d := DeltasBefore(s);
    assert Working(s.h[0], Cold, 900);
    assert d[0] == s.h[0].setpoint - s.h[0].temp;
    forall i | 1 <= i < NUM_HEATERS ensures d[i] <= 0 {
      assert Working(s.h[i], Steady, 900);
    }
    AllAtMost(d, d[0]);
    assert d[..0] == [];
    DisabledPinAfterTick(s, volts, 0);
  }

  // From the start to where heater 0 goes off.

  /** STARTUP in a cabinet that is at its setpoints: the phase ends with its first tick. */
  ghost predicate AllWarm(s: State) {
    !s.g.cleaning && forall i | 0 <= i < NUM_HEATERS :: Working(s.h[i], Steady, 0)
  }

  ghost predicate StartsWarm(s: State) {
    Initial(s) && forall i | 0 <= i < NUM_HEATERS :: s.h[i].temp == 165
  }

  lemma WarmStartup(s: State, g: Gui, cfg: Config)
    requires cfg.Valid() && StartsWarm(s)
    ensures var t := Step(s, Commanded(g, Startup), cfg);
      AllWarm(t) && t.r[0] == CLEAR_RTD && t.g.initialStartup && t.g.startupMessage && t.h[0].setpoint == 165
  {
  }

  lemma WarmStartupTick(s: State, volts: real, cfg: Config)
    requires cfg.Valid() && AllWarm(s) && s.g.initialStartup && s.g.startupMessage
    ensures var t := Step(s, HeaterTick(volts), cfg);
      AllWarm(t) && t.r == s.r && !t.g.initialStartup && t.h[0].setpoint == s.h[0].setpoint
  {
    var t := Step(s, HeaterTick(volts), cfg);
    assert t.r == s.r;
    assert AllEnabledAtTemperature(s.h);
  }

  lemma WarmScan(s: State, i: nat)
    requires AllWarm(s) && i < NUM_HEATERS
    ensures Working(TickScan(s)[i], Steady, 0) && TickScan(s)[i].setpoint == s.h[i].setpoint
  {
    if s.g.startupComplete {
      WorkingVisit(s.h[i], Steady, 0);
      WorkingVisit(s.h[Sibling(i)], Steady, 0);
    }
  }

  lemma WarmRegularTick(s: State, volts: real, cfg: Config)
    requires cfg.Valid() && AllWarm(s) && !s.g.initialStartup
    ensures var t := Step(s, HeaterTick(volts), cfg);
      && AllWarm(t) && t.r == s.r && !t.g.initialStartup && t.g.startupComplete
      && t.h[0].setpoint == s.h[0].setpoint
  {
    var t := Step(s, HeaterTick(volts), cfg);
    assert t.r == s.r;
    forall i | 0 <= i < NUM_HEATERS
      ensures Working(TickScan(s)[i], Steady, 0) && Working(t.h[i], Steady, 0) && t.h[i].setpoint == s.h[i].setpoint
    {
      WarmScan(s, i);
    }
    assert TickScan(s)[0].enabled;
    assert AllEnabledAtTemperature(TickScan(s));
  }

  /** The sample is stored as a temperature more than 11 degrees off the default setpoint. */
  predicate ReadsOff(t: RtdTable, sample: Sample, d: Drift) {
    match d
    case Steady => false
    case Cold => 165 - I16(Temperature(t, sample)) > 11
    case Hot => I16(Temperature(t, sample)) - 165 > 11
  }

  /** A failed read is stored as cold, with any table whose counts end below the narrowed -1. */
  lemma FailedReadReadsCold(t: RtdTable)
    requires t[|t| - 1].count < 0xFFFF
    ensures ReadsOff(t, NoData, Cold)
  {
  }

  lemma FirstFaultIsNotLate(t: RtdTable, sample: Sample)
    ensures !Faulty(CLEAR_RTD, t, sample)
  {
  }

  lemma OffReading(s: State, d: Drift, sample: Sample, cfg: Config)
    requires cfg.Valid() && AllWarm(s) && !s.g.initialStartup && s.g.startupComplete
    requires s.r[0] == CLEAR_RTD && s.h[0].setpoint == 165 && ReadsOff(cfg.tables[0], sample, d)
    ensures OneOff(Step(s, Reading(0, sample), cfg), d, 0)
  {
    FirstFaultIsNotLate(cfg.tables[0], sample);
    var c := I16(Temperature(cfg.tables[0], sample));
    forall i | 0 <= i < NUM_HEATERS
      ensures HeaterAfterReading(s, 0, sample, cfg, i) == if i == 0 then s.h[i].(temp := c) else s.h[i]
    {
    }
  }

  /** STARTUP, the tick that ends the startup phase, the one that completes it, and one such reading. */
  function StartThenRead(g: Gui, volts: real, sample: Sample): seq<Event> {
    [Commanded(g, Startup)] + [HeaterTick(volts)] + [HeaterTick(volts)] + [Reading(0, sample)]
  }

  lemma WarmStart(s: State, g: Gui, volts: real, cfg: Config)
    requires cfg.Valid() && StartsWarm(s)
    ensures var t := Run(s, [Commanded(g, Startup)] + [HeaterTick(volts)] + [HeaterTick(volts)], cfg);
      && AllWarm(t) && t.r[0] == CLEAR_RTD && t.h[0].setpoint == 165
      && !t.g.initialStartup && t.g.startupComplete
  {
    var start, tick := [Commanded(g, Startup)], HeaterTick(volts);
    var s1 := Step(s, Commanded(g, Startup), cfg);
    WarmStartup(s, g, cfg);
    WarmStartupTick(s1, volts, cfg);
    WarmRegularTick(Step(s1, tick, cfg), volts, cfg);
    assert [] + start == start;
    RunThen(s, [], Commanded(g, Startup), cfg);
    RunThen(s, start, tick, cfg);
    RunThen(s, start + [tick], tick, cfg);
  }

  lemma StartThenReadRuns(s: State, g: Gui, volts: real, d: Drift, sample: Sample, cfg: Config)
    requires cfg.Valid() && StartsWarm(s) && ReadsOff(cfg.tables[0], sample, d)
    ensures OneOff(Run(s, StartThenRead(g, volts, sample), cfg), d, 0)
  {
    var start := [Commanded(g, Startup)] + [HeaterTick(volts)] + [HeaterTick(volts)];
    WarmStart(s, g, volts, cfg);
    RunThen(s, start, Reading(0, sample), cfg);
    OffReading(Run(s, start, cfg), d, sample, cfg);
  }

  lemma After900Ticks(s: State, g: Gui, volts: real, d: Drift, sample: Sample, cfg: Config)
    requires cfg.Valid() && StartsWarm(s) && ReadsOff(cfg.tables[0], sample, d)
    ensures OneOff(Run(s, StartThenRead(g, volts, sample) + Ticking(volts, 900), cfg), d, 900)
  {
    StartThenReadRuns(s, g, volts, d, sample, cfg);
    OffTicks(s, StartThenRead(g, volts, sample), cfg, d, volts, 900);
  }

  lemma AlarmTickThenNext(s: State, volts: real, cfg: Config)
    requires cfg.Valid() && OneOff(s, Cold, 900)
    ensures var t := Step(s, HeaterTick(volts), cfg);
      DisabledAndPowered(t.h[0]) && !Step(t, HeaterTick(volts), cfg).h[0].pin
  {
    AlarmedHeaterIsPowered(s, volts);
    var t := Step(s, HeaterTick(volts), cfg);
    LatchStep(t, HeaterTick(volts), cfg, 0);
  }

  lemma AlarmedHeaterIsPoweredIn(s: State, es: seq<Event>, volts: real, cfg: Config)
    requires cfg.Valid() && OneOff(Run(s, es, cfg), Cold, 900)
    ensures DisabledAndPowered(Run(s, es + [HeaterTick(volts)], cfg).h[0])
    ensures !Run(s, es + [HeaterTick(volts)] + [HeaterTick(volts)], cfg).h[0].pin
  {
    var tick := HeaterTick(volts);
    RunThen(s, es, tick, cfg);
    RunThen(s, es + [tick], tick, cfg);
    AlarmTickThenNext(Run(s, es, cfg), volts, cfg);
  }

  /**
   901 ticks after a heater has been found cold it is disabled and powered, and only the tick after
   that drops its pin.
   */
  lemma AlarmedHeaterIsPoweredOnceMore(s: State, g: Gui, volts: real, cold: Sample, cfg: Config)
    requires cfg.Valid() && StartsWarm(s) && ReadsOff(cfg.tables[0], cold, Cold)
    ensures var es := StartThenRead(g, volts, cold) + Ticking(volts, 900) + [HeaterTick(volts)];
      && DisabledAndPowered(Run(s, es, cfg).h[0])
      && !Run(s, es + [HeaterTick(volts)], cfg).h[0].pin
  {
    After900Ticks(s, g, volts, Cold, cold, cfg);
    AlarmedHeaterIsPoweredIn(s, StartThenRead(g, volts, cold) + Ticking(volts, 900), volts, cfg);
  }

  lemma DownInOneTick(s: State, d: Drift, volts: real, cfg: Config)
    requires cfg.Valid() && OneOff(s, d, 900) && !d.Steady?
    ensures var u := Step(s, HeaterTick(volts), cfg);
      s.h[0].enabled && s.h[1].enabled && !u.h[0].enabled && !u.h[1].enabled
  {
    assert Working(s.h[0], d, 900) && Working(s.h[1], Steady, 900);
    The901stDisables(s, d, volts);
  }

  /**
   901 ticks after a heater has been found too cold, or too hot, both heaters of its shelf are
   disabled; after 900 they are not.
   */
  lemma ShelfGoesDownAtThe901st(s: State, g: Gui, volts: real, d: Drift, sample: Sample, cfg: Config)
    requires cfg.Valid() && StartsWarm(s) && ReadsOff(cfg.tables[0], sample, d)
    ensures var es := StartThenRead(g, volts, sample) + Ticking(volts, 900);
      var t, u := Run(s, es, cfg), Run(s, es + [HeaterTick(volts)], cfg);
      t.h[0].enabled && t.h[1].enabled && !u.h[0].enabled && !u.h[1].enabled
  {
    var es := StartThenRead(g, volts, sample) + Ticking(volts, 900);
    After900Ticks(s, g, volts, d, sample, cfg);
    RunThen(s, es, HeaterTick(volts), cfg);
    DownInOneTick(Run(s, es, cfg), d, volts, cfg);
  }
}
