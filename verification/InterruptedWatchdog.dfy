/** The GUI watchdog while the heater thread may be interrupted by the other threads' activities. */
module InterruptedWatchdog {
  import opened HeaterControl
  import opened HeaterThread
  import opened HeaterTicks
  import opened InterruptedTicks
  import opened Supervision

  /** The activities among the actions, in order. */
  function EventsOf(actions: seq<Action>): seq<Event> {
    if actions == [] then []
    else
      var es, last := EventsOf(actions[..|actions| - 1]), actions[|actions| - 1];
      if last.Other? then es + [last.e] else es
  }

  /** The other threads' activities are whole: the watchdog counts and disables in one. */
  ghost predicate WholeActivities(actions: seq<Action>) {
    forall a | a in actions :: Allowed(a) && !a.Write?
  }

  lemma ThreadLeavesCounters(m: Machine, volts: real)
    ensures var g, n := m.s.g, ThreadStep(m, volts).s.g;
      n.heard1 == g.heard1 && n.heard2 == g.heard2 && n.uptime == g.uptime
  {
  }

  lemma ThreadNeverEnables(m: Machine, volts: real, i: nat)
    requires i < NUM_HEATERS && ThreadStep(m, volts).s.h[i].enabled
    ensures m.s.h[i].enabled
  {
    match m.pc
    case Scanning(_) => VisitScans(m.s.h[i], m.s.g.startupComplete, m.s.g.cleaning);
    case _ =>
  }

  lemma CountersNext(es: seq<Event>, e: Event, g: Gui)
    ensures U32(TicksSince(es + [e], g)) == CounterAfter(U32(TicksSince(es, g)), e, g)
  {
    assert (es + [e])[..|es|] == es;
    CounterCounts(TicksSince(es, g), e, g);
  }

  lemma UptimeNext(s: State, es: seq<Event>, e: Event)
    ensures LastUptime(s, es + [e]) == if e.StatusTick? then e.uptime else LastUptime(s, es)
  {
    assert (es + [e])[..|es|] == es;
  }

  /** The counters count status ticks, whatever the heater thread does in between. */
  ghost predicate CountersAreTicks(s: State, g: Globals, es: seq<Event>) {
    && g.heard1 == U32(TicksSince(es, Gui1))
    && g.heard2 == U32(TicksSince(es, Gui2))
    && g.uptime == LastUptime(s, es)
  }

  lemma CountersAreTicksNext(s: State, t: State, es: seq<Event>, e: Event, cfg: Config)
    requires cfg.Valid() && CountersAreTicks(s, t.g, es)
    ensures CountersAreTicks(s, GlobalsAfter(t, e, cfg), es + [e])
  {
    CountersAfter(t, e, cfg);
    CountersNext(es, e, Gui1);
    CountersNext(es, e, Gui2);
    UptimeNext(s, es, e);
  }

  /** A heater is enabled only while a GUI is heard from, or in the first two minutes. */
  ghost predicate EnabledAreWatched(s: State) {
    SomeEnabled(s.h) ==> s.g.uptime <= TWO_MINUTES_IN_SECONDS || !GuisMissing(s.g)
  }

  lemma ActivityKeepsWatch(s: State, e: Event, cfg: Config)
    requires cfg.Valid() && EnabledAreWatched(s)
    ensures EnabledAreWatched(Step(s, e, cfg))
  {
    CountersAfter(s, e, cfg);
    if i :| 0 <= i < NUM_HEATERS && HeaterAfter(s, e, cfg, i).enabled {
      OnlyCommandsEnable(s, e, cfg, i);
      assert Enables(s, e, i) || SomeEnabled(s.h);
    }
  }

  lemma ThreadKeepsWatch(m: Machine, volts: real)
    requires EnabledAreWatched(m.s)
    ensures EnabledAreWatched(ThreadStep(m, volts).s)
  {
    ThreadLeavesCounters(m, volts);
    if i :| 0 <= i < NUM_HEATERS && ThreadStep(m, volts).s.h[i].enabled {
      ThreadNeverEnables(m, volts, i);
    }
  }

  lemma WatchNext(s: State, m: Machine, a: Action, es: seq<Event>, cfg: Config)
    requires cfg.Valid() && EnabledAreWatched(m.s) && CountersAreTicks(s, m.s.g, es) && !a.Write?
    ensures EnabledAreWatched(Next(m, a, cfg).s)
    ensures CountersAreTicks(s, Next(m, a, cfg).s.g, if a.Other? then es + [a.e] else es)
  {
    match a
    case Thread(volts) =>
      ThreadKeepsWatch(m, volts);
      ThreadLeavesCounters(m, volts);
    case Other(e) =>
      ActivityKeepsWatch(m.s, e, cfg);
      CountersAreTicksNext(s, m.s, es, e, cfg);
  }

  /**
   In every interleaving, at every point of a tick: if any heater is enabled, the controller had been
   up for no more than two minutes when last sampled, or one of the GUIs was heard of fewer than 180
   status ticks ago, counted in 32 bits.
   */
  lemma {:induction false} EnabledAreWatchedWhenInterrupted(m: Machine, actions: seq<Action>, cfg: Config)
    requires cfg.Valid() && Starting(m) && WholeActivities(actions)
    ensures var t, es := Interleaved(m, actions, cfg).s, EventsOf(actions);
      && EnabledAreWatched(t) && CountersAreTicks(m.s, t.g, es)
      && (SomeEnabled(t.h) ==>
            || LastUptime(m.s, es) <= TWO_MINUTES_IN_SECONDS
            || U32(TicksSince(es, Gui1)) < GUI_NO_COMMUNICATION_TIME_LIMIT
            || U32(TicksSince(es, Gui2)) < GUI_NO_COMMUNICATION_TIME_LIMIT)
  {
    if actions != [] {
      var last := |actions| - 1;
      assert actions[last] in actions;
      EnabledAreWatchedWhenInterrupted(m, actions[..last], cfg);
      WatchNext(m.s, Interleaved(m, actions[..last], cfg), actions[last], EventsOf(actions[..last]), cfg);
    }
  }

  ghost predicate NoCommands(actions: seq<Action>) {
    forall a | a in actions :: a.Other? ==> !a.e.Commanded?
  }

  /**
   Once both GUIs are missing no heater is enabled, and unless a command comes no pin is on after the
   next full tick either.
   */
  lemma MissingGuisTurnPinsOff(m: Machine, actions: seq<Action>, cfg: Config, within: nat, over: nat, i: nat)
    requires cfg.Valid() && m.pc == Waiting && EnabledAreWatched(m.s)
    requires m.s.g.uptime > TWO_MINUTES_IN_SECONDS && GuisMissing(m.s.g)
    requires WholeActivities(actions) && NoCommands(actions)
    requires within <= over <= |actions| && i < NUM_HEATERS
    requires Interleaved(m, actions[..within], cfg).pc != Waiting && Interleaved(m, actions[..over], cfg).pc == Waiting
    ensures !Interleaved(m, actions, cfg).s.h[i].pin && !Interleaved(m, actions, cfg).s.h[i].enabled
  {
    assert !m.s.h[i].enabled;
    assert NeverEnabled(m, actions, cfg, i) by {
      forall n | 0 <= n < |actions| ensures !SetsFlag(Interleaved(m, actions[..n], cfg).s, actions[n], i) {
        assert actions[n] in actions;
      }
    }
    PinIsOffAfterTick(m, actions, cfg, i, within, over);
    DisableIsLatchedWhenInterrupted(m, actions, cfg, i);
  }
}
