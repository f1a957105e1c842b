/** Who can enable a heater, who can disable one, and what the GUI watchdog guarantees over every run. */
module Supervision {
  import opened HeaterControl
  import opened HeaterTicks

  /** Only these commands enable heater `i`, and only outside cleaning mode. */
  predicate Enables(s: State, e: Event, i: nat) {
    e.Commanded? && !s.g.cleaning && (e.command == HeaterOn(i) || e.command == Startup)
  }

  lemma OnlyReviveEnables(op: Operation, x: Heater)
    ensures if op.Revive? then Applied(op, x).enabled else Applied(op, x).enabled ==> x.enabled
  {
  }

  /** The latch, for one step: enabling commands enable, and nothing else does. */
  lemma OnlyCommandsEnable(s: State, e: Event, cfg: Config, i: nat)
    requires cfg.Valid() && i < NUM_HEATERS
    ensures if Enables(s, e, i) then HeaterAfter(s, e, cfg, i).enabled
            else HeaterAfter(s, e, cfg, i).enabled ==> s.h[i].enabled
  {
    match e
    case Commanded(_, c) => OnlyReviveEnables(Effect(s, c, cfg, i), s.h[i]);
    case HeaterTick(volts) => TickHeater(s, volts, i);
    case _ =>
  }

  /** What the other threads may do to a heater between two steps of the heater thread. */
  ghost predicate OnlyTurnedOff(x: Heater, y: Heater) {
    && (y.pin ==> x.pin)
    && y.isOn == x.isOn && y.wasOn == x.wasOn && y.delta == x.delta
  }

  lemma OperationOnlyTurnsOff(op: Operation, x: Heater)
    ensures OnlyTurnedOff(x, Applied(op, x))
  {
  }

  lemma ReadingOnlyTurnsOff(s: State, rtd: nat, sample: Sample, cfg: Config, i: nat)
    requires cfg.Valid() && i < NUM_HEATERS
    ensures OnlyTurnedOff(s.h[i], HeaterAfterReading(s, rtd, sample, cfg, i))
  {
  }

  /** Apart from the heater thread, nobody turns a pin on or touches what the heater thread owns. */
  lemma OthersOnlyTurnOff(s: State, e: Event, cfg: Config, i: nat)
    requires cfg.Valid() && i < NUM_HEATERS && !e.HeaterTick?
    ensures OnlyTurnedOff(s.h[i], HeaterAfter(s, e, cfg, i))
  {
    match e
    case Commanded(_, c) => OperationOnlyTurnsOff(Effect(s, c, cfg, i), s.h[i]);
    case Reading(rtd, sample) => ReadingOnlyTurnsOff(s, rtd, sample, cfg, i);
    case _ =>
  }

  /** A command that is answered with a failure did nothing, but that a refused STARTUP still counts as sent. */
  lemma RefusedCommandsDoNothing(s: State, c: Command, cfg: Config)
    requires Reply(s, c, cfg).Failure? || Reply(s, c, cfg).BadParameter?
    ensures Processed(s, c, cfg) ==
      if c == Startup then s.(g := s.g.(startupMessage := true)) else s
  {
    var t := Processed(s, c, cfg);
    assert forall i | 0 <= i < NUM_HEATERS :: Effect(s, c, cfg, i) == Keep && t.h[i] == s.h[i];
    assert t.h == s.h && t.r == s.r;
  }

  /** Outside cleaning mode, a command that should enable a heater and is answered with success has enabled it. */
  lemma AcceptedEnablingEnables(s: State, c: Command, cfg: Config, i: nat)
    requires i < NUM_HEATERS && Reply(s, c, cfg).Ok? && (c == HeaterOn(i) || c == Startup)
    ensures Processed(s, c, cfg).h[i].enabled
  {
  }

  ghost predicate NeverEnables(s: State, es: seq<Event>, cfg: Config, i: nat)
    requires cfg.Valid()
  {
    forall n | 0 <= n < |es| :: !Enables(Run(s, es[..n], cfg), es[n], i)
  }

  ghost predicate HasScheduled(s: State, es: seq<Event>, cfg: Config)
    requires cfg.Valid()
  {
    exists n | 0 <= n < |es| :: es[n].HeaterTick? && Schedules(Run(s, es[..n], cfg).g)
  }

  lemma LatchStep(s: State, e: Event, cfg: Config, i: nat)
    requires cfg.Valid() && i < NUM_HEATERS
    requires !s.h[i].enabled && !Enables(s, e, i)
    ensures var x := HeaterAfter(s, e, cfg, i);
      && !x.enabled
      && (x.pin ==> s.h[i].pin && !(e.HeaterTick? && Schedules(s.g)))
  {
    OnlyCommandsEnable(s, e, cfg, i);
    if e.HeaterTick? {
      TickHeater(s, e.volts, i);
    } else {
      OthersOnlyTurnOff(s, e, cfg, i);
    }
  }

  /**
   Disabling is a latch over every run: without an enabling command the heater stays disabled, and
   from the first scheduling pass on its pin stays off.
   */
  lemma {:induction false} DisableIsLatched(s: State, es: seq<Event>, cfg: Config, i: nat)
    requires cfg.Valid() && i < NUM_HEATERS
    requires !s.h[i].enabled && NeverEnables(s, es, cfg, i)
    ensures !Run(s, es, cfg).h[i].enabled
    ensures HasScheduled(s, es, cfg) ==> !Run(s, es, cfg).h[i].pin
  {
    if es != [] {
      var last := |es| - 1;
      var front := es[..last];
      assert forall n | 0 <= n < |front| :: front[..n] == es[..n];
      DisableIsLatched(s, front, cfg, i);
      LatchStep(Run(s, front, cfg), es[last], cfg, i);
      if HasScheduled(s, es, cfg) {
        var n :| 0 <= n < |es| && es[n].HeaterTick? && Schedules(Run(s, es[..n], cfg).g);
        assert n == last || front[n] == es[n];
      }
    }
  }

  lemma NothingOnStep(s: State, e: Event, cfg: Config, i: nat)
    requires cfg.Valid() && i < NUM_HEATERS && (Schedules(s.g) || !s.h[i].pin)
    ensures Schedules(GlobalsAfter(s, e, cfg)) || !HeaterAfter(s, e, cfg, i).pin
  {
    match e
    case HeaterTick(volts) => TickHeater(s, volts, i);
    case _ => OthersOnlyTurnOff(s, e, cfg, i);
  }

  /** Until the first STARTUP, while ticks return early and leave the pins alone, every pin is off. */
  lemma {:induction false} NothingIsOnBeforeStartup(s: State, es: seq<Event>, cfg: Config, i: nat)
    requires cfg.Valid() && i < NUM_HEATERS && Initial(s)
    ensures !Run(s, es, cfg).g.initialStartup || Run(s, es, cfg).g.startupMessage || !Run(s, es, cfg).h[i].pin
  {
    if es != [] {
      var last := |es| - 1;
      NothingIsOnBeforeStartup(s, es[..last], cfg, i);
      NothingOnStep(Run(s, es[..last], cfg), es[last], cfg, i);
    }
  }

  // The GUI watchdog.

  /** How one event moves a count of status ticks since GUI `g` was heard of. */
  function TicksAfter(n: nat, e: Event, g: Gui): nat {
    match e
    case StatusTick(_, _) => n + 1
    case Heard(from) => if from == g then 0 else n
    case Commanded(from, _) => if from == g then 0 else n
    case _ => n
  }

  /** The number of status ticks since GUI `g` was last heard of, or since the start. */
  function TicksSince(es: seq<Event>, g: Gui): nat {
    if es == [] then 0 else TicksAfter(TicksSince(es[..|es| - 1], g), es[|es| - 1], g)
  }

  /** The uptime that the last status tick sampled. */
  ghost function LastUptime(s: State, es: seq<Event>): int {
    if es == [] then s.g.uptime
    else if es[|es| - 1].StatusTick? then es[|es| - 1].uptime
    else LastUptime(s, es[..|es| - 1])
  }

  /** How one event moves the 32-bit counter of a GUI. */
  function CounterAfter(n: nat, e: Event, g: Gui): nat {
    if e.StatusTick? then U32(n + 1) else TicksAfter(n, e, g)
  }

  lemma CountersAfter(s: State, e: Event, cfg: Config)
    requires cfg.Valid()
    ensures var g := GlobalsAfter(s, e, cfg);
      && g.heard1 == CounterAfter(s.g.heard1, e, Gui1)
      && g.heard2 == CounterAfter(s.g.heard2, e, Gui2)
      && g.uptime == if e.StatusTick? then e.uptime else s.g.uptime
  {
    match e
    case HeaterTick(_) =>
    case _ =>
  }

  lemma U32Successor(n: nat)
    ensures U32(U32(n) + 1) == U32(n + 1)
  {
  }

  lemma CounterCounts(n: nat, e: Event, g: Gui)
    ensures U32(TicksAfter(n, e, g)) == CounterAfter(U32(n), e, g)
  {
    if e.StatusTick? {
      U32Successor(n);
    } else {
      assert TicksAfter(n, e, g) in {0, n};
    }
  }

  lemma {:induction false} CountersCountTicks(s: State, es: seq<Event>, cfg: Config)
    requires cfg.Valid() && Initial(s)
    ensures var g := Run(s, es, cfg).g;
      && g.heard1 == U32(TicksSince(es, Gui1))
      && g.heard2 == U32(TicksSince(es, Gui2))
      && g.uptime == LastUptime(s, es)
  {
    if es != [] {
      var last := |es| - 1;
      CountersCountTicks(s, es[..last], cfg);
      CountersAfter(Run(s, es[..last], cfg), es[last], cfg);
      CounterCounts(TicksSince(es[..last], Gui1), es[last], Gui1);
      CounterCounts(TicksSince(es[..last], Gui2), es[last], Gui2);
    }
  }

  /** A status tick at the end of a run: both GUIs have by then been silent for 180 status ticks. */
  ghost predicate BothSilent(es: seq<Event>) {
    U32(TicksSince(es, Gui1)) >= 180 && U32(TicksSince(es, Gui2)) >= 180
  }

  lemma StatusTickEffect(s: State, uptime: int, lost: bool, cfg: Config, j: nat)
    requires cfg.Valid() && j < NUM_HEATERS
    ensures var x := s.h[j];
      HeaterAfter(s, StatusTick(uptime, lost), cfg, j) ==
        if lost || (uptime > 120 && U32(s.g.heard1 + 1) >= 180 && U32(s.g.heard2 + 1) >= 180)
        then x.(enabled := false, pin := false) else x
  {
  }

  lemma SilenceIsCounted(s: State, es: seq<Event>, uptime: int, lost: bool, cfg: Config)
    requires cfg.Valid() && Initial(s)
    ensures var g := Run(s, es, cfg).g;
      BothSilent(es + [StatusTick(uptime, lost)]) <==> U32(g.heard1 + 1) >= 180 && U32(g.heard2 + 1) >= 180
  {
    CountersCountTicks(s, es, cfg);
    assert (es + [StatusTick(uptime, lost)])[..|es|] == es;
    U32Successor(TicksSince(es, Gui1));
    U32Successor(TicksSince(es, Gui2));
  }

  /**
   Over every run: a status tick disables every heater and drops its pin exactly if the network is
   lost, or the controller has been up for more than two minutes and both GUIs have been silent for 180
   status ticks; otherwise, and so with one GUI missing alone, it changes no heater.
   */
  lemma StatusTickDisablesExactlyWhen(s: State, es: seq<Event>, uptime: int, lost: bool, cfg: Config, j: nat)
    requires cfg.Valid() && j < NUM_HEATERS && Initial(s)
    ensures var t, tick := Run(s, es, cfg), StatusTick(uptime, lost);
      HeaterAfter(t, tick, cfg, j) ==
        if lost || (uptime > 120 && BothSilent(es + [tick])) then t.h[j].(enabled := false, pin := false) else t.h[j]
  {
    StatusTickEffect(Run(s, es, cfg), uptime, lost, cfg, j);
    SilenceIsCounted(s, es, uptime, lost, cfg);
  }

  /** The heater can be powered, or is: the two differ, for a disabled heater can end a tick powered. */
  predicate Live(x: Heater) {
    x.enabled || x.pin
  }

  ghost predicate SomeLive(h: Bank) {
    exists i | 0 <= i < NUM_HEATERS :: Live(h[i])
  }

  ghost predicate Supervised(s: State) {
    SomeLive(s.h) ==> s.g.uptime <= TWO_MINUTES_IN_SECONDS || !GuisMissing(s.g)
  }

  lemma LiveStep(s: State, e: Event, cfg: Config, i: nat)
    requires cfg.Valid() && i < NUM_HEATERS && Live(HeaterAfter(s, e, cfg, i))
    ensures Enables(s, e, i) || Live(s.h[i])
  {
    OnlyCommandsEnable(s, e, cfg, i);
    if e.HeaterTick? {
      TickHeater(s, e.volts, i);
    } else {
      OthersOnlyTurnOff(s, e, cfg, i);
    }
  }

  lemma SupervisionStep(s: State, e: Event, cfg: Config)
    requires cfg.Valid() && Supervised(s)
    ensures Supervised(Step(s, e, cfg))
  {
    CountersAfter(s, e, cfg);
    if i :| 0 <= i < NUM_HEATERS && Live(HeaterAfter(s, e, cfg, i)) {
      LiveStep(s, e, cfg, i);
      assert Enables(s, e, i) || SomeLive(s.h);
    }
  }

  lemma {:induction false} TicksWithinRun(es: seq<Event>, g: Gui)
    ensures TicksSince(es, g) <= |es|
  {
    if es != [] {
      TicksWithinRun(es[..|es| - 1], g);
    }
  }

  lemma {:induction false} AlwaysSupervised(s: State, es: seq<Event>, cfg: Config)
    requires cfg.Valid() && Initial(s)
    ensures Supervised(Run(s, es, cfg))
  {
    if es != [] {
      AlwaysSupervised(s, es[..|es| - 1], cfg);
      SupervisionStep(Run(s, es[..|es| - 1], cfg), es[|es| - 1], cfg);
    }
  }

  /**
   In every reachable state with a heater enabled or powered, the controller had been up for no more
   than two minutes when last sampled, or one of the GUIs was heard of fewer than 180 status ticks
   ago (counted, as the source does, in 32 bits).
   */
  lemma EnabledHeatersAreWatched(s: State, es: seq<Event>, cfg: Config)
    requires cfg.Valid() && Initial(s) && SomeLive(Run(s, es, cfg).h)
    ensures
      || LastUptime(s, es) <= TWO_MINUTES_IN_SECONDS
      || U32(TicksSince(es, Gui1)) < GUI_NO_COMMUNICATION_TIME_LIMIT
      || U32(TicksSince(es, Gui2)) < GUI_NO_COMMUNICATION_TIME_LIMIT
  {
    AlwaysSupervised(s, es, cfg);
    CountersCountTicks(s, es, cfg);
  }

  lemma NoWrap(es: seq<Event>, g: Gui)
    requires |es| < 0x1_0000_0000
    ensures U32(TicksSince(es, g)) == TicksSince(es, g)
  {
    TicksWithinRun(es, g);
  }

  /** The 32 bits are no matter for the first 2^32 events. */
  lemma WatchedWithoutWrap(s: State, es: seq<Event>, cfg: Config)
    requires cfg.Valid() && Initial(s) && SomeLive(Run(s, es, cfg).h) && |es| < 0x1_0000_0000
    ensures
      || LastUptime(s, es) <= TWO_MINUTES_IN_SECONDS
      || TicksSince(es, Gui1) < GUI_NO_COMMUNICATION_TIME_LIMIT
      || TicksSince(es, Gui2) < GUI_NO_COMMUNICATION_TIME_LIMIT
  {
    EnabledHeatersAreWatched(s, es, cfg);
    NoWrap(es, Gui1);
    NoWrap(es, Gui2);
  }
}
