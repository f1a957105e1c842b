/** Runs, from the start, in which an order to turn a heater off is overrun by the heater thread. */
module Overruns {
  import opened DisabledPins
  import opened HeaterControl
  import opened HeaterThread
  import opened HeaterTicks
  import opened TickPasses
  import opened TopK

  lemma InterleavedSnoc(m: Machine, actions: seq<Action>, a: Action, cfg: Config)
    requires cfg.Valid()
    ensures Interleaved(m, actions + [a], cfg) == Next(Interleaved(m, actions, cfg), a, cfg)
  {
    assert (actions + [a])[..|actions|] == actions;
  }

  // Up to the first on pass.

  /** Every heater is warm enough for the startup phase to end, and only heater 0 is below its setpoint. */
  predicate NearlyWarm(x: Heater, i: nat) {
    && x.setpoint == DEFAULT_SETPOINT
    && if i == 0 then x.setpoint - UPPER_HEATER_MARGIN <= x.temp < x.setpoint else x.temp == x.setpoint
  }

  ghost predicate AllNearlyWarm(s: State) {
    forall i | 0 <= i < NUM_HEATERS :: NearlyWarm(s.h[i], i)
  }

  ghost predicate AllEnabled(s: State) {
    forall i | 0 <= i < NUM_HEATERS :: s.h[i].enabled
  }

  lemma AfterStartupCommand(s: State, g: Gui, cfg: Config)
    requires cfg.Valid() && Initial(s)
    ensures var t := Step(s, Commanded(g, Startup), cfg);
      && AllEnabled(t)
      && (forall i | 0 <= i < NUM_HEATERS :: t.h[i].temp == s.h[i].temp && t.h[i].setpoint == s.h[i].setpoint)
      && t.g.initialStartup && t.g.startupMessage && !t.g.startupComplete
  {
  }

  lemma AfterStartupTick(s: State, volts: real, cfg: Config)
    requires cfg.Valid() && AllEnabled(s) && AllNearlyWarm(s)
    requires s.g.initialStartup && s.g.startupMessage && !s.g.startupComplete
    ensures var t := Step(s, HeaterTick(volts), cfg);
      AllEnabled(t) && AllNearlyWarm(t) && !t.g.initialStartup && !t.g.startupComplete
  {
    var t := Step(s, HeaterTick(volts), cfg);
    forall i | 0 <= i < NUM_HEATERS ensures t.h[i].enabled && NearlyWarm(t.h[i], i) {
      TickHeater(s, volts, i);
    }
    assert AllEnabledAtTemperature(s.h);
  }

  lemma ColdestIsMarked(s: State, k: nat)
    requires AllEnabled(s) && AllNearlyWarm(s) && !s.g.initialStartup && !s.g.startupComplete && 0 < k
    ensures var x := MarkedBank(TickScan(s), k)[0]; x.isOn && x.enabled
  {
    var d := DeltasBefore(s);
    DeltasAreKnownBefore(s);
    assert d[0] == s.h[0].setpoint - s.h[0].temp;
    assert forall i | 1 <= i < NUM_HEATERS :: d[i] <= 0;
    AllAtMost(d, d[0]);
    assert d[..0] == [];
    ScanHeater(s.h, 0, s.g.startupComplete, s.g.cleaning);
  }

  /** From the beginning of a regular tick to the first heater of its on pass. */
  lemma ToOnPass(m: Machine, volts: real) returns (n: nat)
    requires m.pc == Waiting && !m.s.g.initialStartup
    ensures var k := Uninterrupted(m, volts, n);
      k.pc == TurningOn(0) && k.s.h == Partially(MarkedBank(TickScan(m.s), Budget(volts)), NUM_HEATERS, TurnedOff)
  {
    var a := ScanningEnds(m, volts);
    var marked := ThreadStep(Uninterrupted(ThreadStep(m, volts), volts, a), volts);
    var b := TurningOffEnds(marked, volts);
    n := PrefixSteps(Stepping(volts), m, a, b);
  }

  lemma PrefixSteps<T>(f: T -> T, x: T, a: nat, b: nat) returns (steps: nat)
    ensures Iterate(f, x, steps) == Iterate(f, f(Iterate(f, f(x), a)), b)
  {
    assert f(x) == Iterate(f, x, 1) by {
      assert Iterate(f, x, 0) == x;
    }
    IterateAdds(f, x, 1, a);
    IterateAdds(f, x, 1 + a + 1, b);
    steps := 1 + a + 1 + b;
  }

  /** The heater thread stands before its on-write of heater 0, which is enabled. */
  ghost predicate AboutToTurnOn(m: Machine) {
    m.pc == TurningOn(0) && m.s.h[0].isOn && m.s.h[0].enabled
  }

  function StartupEvents(g: Gui, volts: real): seq<Event> {
    [] + [Commanded(g, Startup)] + [HeaterTick(volts)]
  }

  lemma AfterStartupEvents(s: State, g: Gui, volts: real, cfg: Config)
    requires cfg.Valid() && Initial(s) && AllNearlyWarm(s)
    ensures var t := Run(s, StartupEvents(g, volts), cfg);
      AllEnabled(t) && AllNearlyWarm(t) && !t.g.initialStartup && !t.g.startupComplete
  {
    AfterStartupCommand(s, g, cfg);
    AfterStartupTick(Step(s, Commanded(g, Startup), cfg), volts, cfg);
    RunThen(s, [], Commanded(g, Startup), cfg);
    RunThen(s, [] + [Commanded(g, Startup)], HeaterTick(volts), cfg);
  }

  lemma TurnsOnNext(m: Machine, volts: real) returns (n: nat)
    requires m.pc == Waiting && AllEnabled(m.s) && AllNearlyWarm(m.s) && !m.s.g.initialStartup && !m.s.g.startupComplete
    ensures AboutToTurnOn(Uninterrupted(m, volts, n))
  {
    ColdestIsMarked(m.s, Budget(volts));
    n := ToOnPass(m, volts);
    var marked := MarkedBank(TickScan(m.s), Budget(volts));
    assert Partially(marked, NUM_HEATERS, TurnedOff)[0] == TurnedOff(marked[0]);
  }

  lemma ReachesOnPass(m: Machine, g: Gui, volts: real, cfg: Config) returns (actions: seq<Action>)
    requires cfg.Valid() && Starting(m) && AllNearlyWarm(m.s)
    ensures AllAllowed(actions) && AboutToTurnOn(Interleaved(m, actions, cfg))
  {
    AfterStartupEvents(m.s, g, volts, cfg);
    var before := RunIsInterleaved(m, StartupEvents(g, volts), cfg);
    var n := TurnsOnNext(Interleaved(m, before, cfg), volts);
    UninterruptedIsInterleaved(Interleaved(m, before, cfg), volts, n, cfg);
    InterleavedAppend(m, before, Threads(volts, n), cfg);
    actions := before + Threads(volts, n);
  }

  /** EMERGENCY_STOP between the choice and the on pass: heater 0 ends disabled and powered. */
  lemma StopIsOverrun(m: Machine, g: Gui, volts: real, cfg: Config) returns (before: seq<Action>)
    requires cfg.Valid() && Starting(m) && AllNearlyWarm(m.s)
    ensures AllAllowed(before) && AboutToTurnOn(Interleaved(m, before, cfg))
    ensures var stop := Other(Commanded(g, EmergencyStop));
      DisabledAndPowered(Interleaved(m, before + [stop] + [Thread(volts)], cfg).s.h[0])
  {
    before := ReachesOnPass(m, g, volts, cfg);
    var stop := Other(Commanded(g, EmergencyStop));
    InterleavedSnoc(m, before, stop, cfg);
    InterleavedSnoc(m, before + [stop], Thread(volts), cfg);
    StopThenOn(Interleaved(m, before, cfg), g, volts, cfg);
  }

  lemma StopThenOn(m: Machine, g: Gui, volts: real, cfg: Config)
    requires cfg.Valid() && AboutToTurnOn(m)
    ensures DisabledAndPowered(Next(Next(m, Other(Commanded(g, EmergencyStop)), cfg), Thread(volts), cfg).s.h[0])
  {
  }

  /** HEATER_OFF with its two writes on either side of the on-write: likewise. */
  lemma HeaterOffIsOverrun(m: Machine, g: Gui, volts: real, cfg: Config) returns (before: seq<Action>)
    requires cfg.Valid() && Starting(m) && AllNearlyWarm(m.s)
    ensures AllAllowed(before) && AboutToTurnOn(Interleaved(m, before, cfg))
    ensures var drop, clear := Action.Write(DropPin(0)), Action.Write(ClearFlag(0));
      DisabledAndPowered(Interleaved(m, before + [drop] + [Thread(volts)] + [clear], cfg).s.h[0])
  {
    before := ReachesOnPass(m, g, volts, cfg);
    var drop, clear := Action.Write(DropPin(0)), Action.Write(ClearFlag(0));
    InterleavedSnoc(m, before, drop, cfg);
    InterleavedSnoc(m, before + [drop], Thread(volts), cfg);
    InterleavedSnoc(m, before + [drop] + [Thread(volts)], clear, cfg);
  }

  // Up to the first on-write of the startup pass.

  /** Begin, turn all off, test the first heater of the order. */
  lemma TestingSteps<T>(f: T -> T, x: T, begun: T, a: nat, cleared: T) returns (steps: nat)
    requires f(x) == begun && Iterate(f, begun, a) == cleared
    ensures Iterate(f, x, steps) == f(cleared)
  {
    assert f(x) == Iterate(f, x, 1) by {
      assert Iterate(f, x, 0) == x;
    }
    IterateAdds(f, x, 1, a);
    steps := 1 + a + 1;
  }

  lemma ToLighting(m: Machine, volts: real) returns (n: nat)
    requires m.pc == Waiting && m.s.g.initialStartup && m.s.g.startupMessage && Eligible(m.s.h[1])
    ensures Uninterrupted(m, volts, n)
         == InStartup(m, volts, Partially(m.s.h, NUM_HEATERS, Cleared), Lighting(0, 0, true))
  {
    var begun := InStartup(m, volts, m.s.h, AllOff(0));
    var cleared := InStartup(m, volts, Partially(m.s.h, NUM_HEATERS, Cleared), Testing(0, 0));
    var a := AllOffEnds(begun, volts);
    n := TestingSteps(Stepping(volts), m, begun, a, cleared);
    assert ThreadStep(cleared, volts) == cleared.(pc := Lighting(0, 0, true)) by {
      assert InOrder(0) == 1;
      assert cleared.s.h[1] == Cleared(m.s.h[1]);
    }
  }

  /** EMERGENCY_STOP between the test and the on-write of the startup pass: heater 1 ends disabled and powered. */
  lemma StopIsOverrunAtStartup(m: Machine, g: Gui, volts: real, cfg: Config) returns (before: seq<Action>)
    requires cfg.Valid() && Starting(m) && m.s.h[1].temp < DEFAULT_SETPOINT
    ensures AllAllowed(before) && Interleaved(m, before, cfg).pc == Lighting(0, 0, true)
    ensures var stop := Other(Commanded(g, EmergencyStop));
      DisabledAndPowered(Interleaved(m, before + [stop] + [Thread(volts)], cfg).s.h[1])
  {
    var start, stop := Other(Commanded(g, Startup)), Other(Commanded(g, EmergencyStop));
    AfterStartupCommand(m.s, g, cfg);
    InterleavedSnoc(m, [], start, cfg);
    var k := Interleaved(m, [] + [start], cfg);
    var n := ToLighting(k, volts);
    UninterruptedIsInterleaved(k, volts, n, cfg);
    InterleavedAppend(m, [] + [start], Threads(volts, n), cfg);
    before := [] + [start] + Threads(volts, n);
    InterleavedSnoc(m, before, stop, cfg);
    InterleavedSnoc(m, before + [stop], Thread(volts), cfg);
    StopThenLight(Interleaved(m, before, cfg), g, volts, cfg);
  }

  lemma StopThenLight(m: Machine, g: Gui, volts: real, cfg: Config)
    requires cfg.Valid() && m.pc == Lighting(0, 0, true)
    ensures DisabledAndPowered(Next(Next(m, Other(Commanded(g, EmergencyStop)), cfg), Thread(volts), cfg).s.h[1])
  {
    var stopped := Next(m, Other(Commanded(g, EmergencyStop)), cfg);
    assert InOrder(0) == 1;
    assert !stopped.s.h[1].enabled && stopped.pc == Lighting(0, 0, true);
    assert Next(stopped, Thread(volts), cfg).s.h[1] == Lit(stopped.s.h[1]);
  }
}
