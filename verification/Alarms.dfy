/** What the under- and over-temperature counters measure over a run, and what their alarms take down. */
module Alarms {
  import opened HeaterControl
  import opened HeaterTicks
  import opened Supervision

  datatype Kind = Under | Over

  function AlarmOf(x: Heater, k: Kind): Alarm {
    match k case Under => x.undertemp case Over => x.overtemp
  }

  /** How many degrees too cold, or too hot, a heater is. */
  function Excess(x: Heater, k: Kind): int {
    match k case Under => x.setpoint - x.temp case Over => x.temp - x.setpoint
  }

  /** The deviation that an evaluated tick counts: 12 degrees or more; cleaning suspends the over-temperature alarm. */
  predicate Deviates(x: Heater, k: Kind, cleaning: bool) {
    Excess(x, k) > 11 && (k.Over? ==> !cleaning)
  }

  predicate FiresOf(x: Heater, k: Kind, cleaning: bool) {
    match k case Under => FiresUnder(x) case Over => FiresOver(x, cleaning)
  }

  /** The alarm checks of a heater's shelf have disabled it before its own iteration: its upper one has tripped. */
  predicate LostShelf(s: State, i: nat)
    requires i < NUM_HEATERS
  {
    !IsUpper(i) && Trips(s.h[i - 1], s.g.startupComplete, s.g.cleaning)
  }

  /**
   The event is a tick whose alarm checks reach heater `i`: startup is complete, and the heater is
   enabled, with no change of its setpoint yet to be met.
   */
  predicate Evaluates(s: State, e: Event, i: nat)
    requires i < NUM_HEATERS
  {
    && e.HeaterTick? && !s.g.initialStartup && s.g.startupComplete
    && s.h[i].enabled && !s.h[i].setpointChanged && !LostShelf(s, i)
  }

  /**
   The number of evaluated ticks in a row in which heater `i` deviated, since it was last enabled.
   Ticks that do not evaluate it freeze the count; an evaluated tick without the deviation ends it.
   */
  ghost function Streak(s: State, es: seq<Event>, cfg: Config, i: nat, k: Kind): nat
    requires cfg.Valid() && i < NUM_HEATERS
  {
    if es == [] then 0
    else
      var t, e := Run(s, es[..|es| - 1], cfg), es[|es| - 1];
      var n := Streak(s, es[..|es| - 1], cfg, i, k);
      if Enables(t, e, i) then 0
      else if !Evaluates(t, e, i) then n
      else if Deviates(t.h[i], k, t.g.cleaning) then n + 1 else 0
  }

  ghost predicate WithinLimit(a: Alarm, enabled: bool) {
    a.seconds <= 901 && (enabled ==> a.seconds <= 900 && !a.oneShot)
  }

  lemma CountedWithinLimit(a: Alarm, active: bool, deviates: bool)
    requires WithinLimit(a, true)
    ensures WithinLimit(Counted(a, active, deviates), !Fires(a, deviates))
    ensures Counted(a, active, deviates).seconds == if deviates then a.seconds + 1 else 0
    ensures Fires(a, deviates) <==> deviates && a.seconds == 900
  {
  }

  /** An own iteration of the delta loop, as one alarm sees it. */
  lemma VisitAlarm(x: Heater, complete: bool, cleaning: bool, k: Kind)
    ensures var y := Visited(x, complete, cleaning);
      if Evaluated(x, complete)
      then && AlarmOf(y, k) == Counted(AlarmOf(x, k), Excess(x, k) > 11, Deviates(x, k, cleaning))
           && (FiresOf(x, k, cleaning) <==> Fires(AlarmOf(x, k), Deviates(x, k, cleaning)))
           && (FiresOf(x, k, cleaning) ==> !y.enabled)
      else AlarmOf(y, k) == AlarmOf(x, k)
  {
  }

  /** After the whole scan a heater has the alarms of its own iteration, and no more than its `enabled`. */
  lemma ScanAlarm(h: Bank, i: nat, complete: bool, cleaning: bool, k: Kind)
    requires i < NUM_HEATERS
    ensures var x, y := AtVisit(h, i, complete, cleaning), Scan(h, NUM_HEATERS, complete, cleaning)[i];
      && AlarmOf(x, k) == AlarmOf(h[i], k)
      && AlarmOf(y, k) == AlarmOf(Visited(x, complete, cleaning), k)
      && (y.enabled ==> Visited(x, complete, cleaning).enabled)
  {
  }

  /** A heater comes to its own iteration as it was, but that it may have been disabled. */
  lemma AtVisitIsSame(s: State, i: nat, k: Kind)
    requires i < NUM_HEATERS
    ensures var c := s.g.cleaning;
      var x := AtVisit(s.h, i, s.g.startupComplete, c);
      && (Deviates(x, k, c) <==> Deviates(s.h[i], k, c)) && Excess(x, k) == Excess(s.h[i], k)
      && (FiresOf(x, k, c) <==> FiresOf(s.h[i], k, c))
      && (x.enabled ==> s.h[i].enabled)
  {
  }

  lemma EvaluatesIffEvaluated(s: State, volts: real, i: nat)
    requires i < NUM_HEATERS && !s.g.initialStartup
    ensures Evaluates(s, HeaterTick(volts), i)
       <==> Evaluated(AtVisit(s.h, i, s.g.startupComplete, s.g.cleaning), s.g.startupComplete)
  {
  }

  /** What a tick makes of an alarm: `deviates` counts it, `fires` reports it, `active` says how things are. */
  ghost predicate Ticked(a: Alarm, b: Alarm, active: bool, deviates: bool, fires: bool) {
    && b.active == active && b.css == (a.css || fires)
    && (!a.oneShot ==> b.oneShot == fires)
    && b.seconds == if deviates then a.seconds + 1 else 0
  }

  lemma CountedTicks(a: Alarm, active: bool, deviates: bool)
    requires WithinLimit(a, true)
    ensures Ticked(a, Counted(a, active, deviates), active, deviates, Fires(a, deviates))
  {
  }

  lemma RegularTickAlarm(s: State, volts: real, i: nat, k: Kind)
    requires i < NUM_HEATERS && !s.g.initialStartup
    requires WithinLimit(AlarmOf(s.h[i], k), s.h[i].enabled)
    ensures var x, y := s.h[i], TickScan(s)[i];
      && WithinLimit(AlarmOf(y, k), y.enabled)
      && if !Evaluates(s, HeaterTick(volts), i) then AlarmOf(y, k) == AlarmOf(x, k)
         else && Ticked(AlarmOf(x, k), AlarmOf(y, k), Excess(x, k) > 11, Deviates(x, k, s.g.cleaning),
                        FiresOf(x, k, s.g.cleaning))
              && (FiresOf(x, k, s.g.cleaning) <==> Deviates(x, k, s.g.cleaning) && AlarmOf(x, k).seconds == 900)
  {
    var x := AtVisit(s.h, i, s.g.startupComplete, s.g.cleaning);
    EvaluatesIffEvaluated(s, volts, i);
    AtVisitIsSame(s, i, k);
    ScanAlarm(s.h, i, s.g.startupComplete, s.g.cleaning, k);
    VisitAlarm(x, s.g.startupComplete, s.g.cleaning, k);
    if Evaluated(x, s.g.startupComplete) {
      CountedWithinLimit(AlarmOf(x, k), Excess(x, k) > 11, Deviates(x, k, s.g.cleaning));
      CountedTicks(AlarmOf(x, k), Excess(x, k) > 11, Deviates(x, k, s.g.cleaning));
    }
  }

  lemma TickAlarm(s: State, volts: real, i: nat, k: Kind)
    requires i < NUM_HEATERS
    requires WithinLimit(AlarmOf(s.h[i], k), s.h[i].enabled)
    ensures var x, y := s.h[i], HeaterAfterTick(s, volts, i);
      && WithinLimit(AlarmOf(y, k), y.enabled)
      && if !Evaluates(s, HeaterTick(volts), i) then AlarmOf(y, k) == AlarmOf(x, k)
         else && Ticked(AlarmOf(x, k), AlarmOf(y, k), Excess(x, k) > 11, Deviates(x, k, s.g.cleaning),
                        FiresOf(x, k, s.g.cleaning))
              && (FiresOf(x, k, s.g.cleaning) <==> Deviates(x, k, s.g.cleaning) && AlarmOf(x, k).seconds == 900)
  {
    if !s.g.initialStartup {
      RegularTickAlarm(s, volts, i, k);
    }
  }

  lemma OperationAlarm(op: Operation, x: Heater, k: Kind)
    ensures AlarmOf(Applied(op, x), k) == if op.Revive? then QUIET else AlarmOf(x, k)
    ensures Applied(op, x).enabled ==> op.Revive? || x.enabled
  {
  }

  lemma ReadingKeepsAlarm(s: State, rtd: nat, sample: Sample, cfg: Config, i: nat, k: Kind)
    requires cfg.Valid() && i < NUM_HEATERS
    ensures var y := HeaterAfterReading(s, rtd, sample, cfg, i);
      AlarmOf(y, k) == AlarmOf(s.h[i], k) && (y.enabled ==> s.h[i].enabled)
  {
  }

  lemma StepAlarm(s: State, e: Event, cfg: Config, i: nat, k: Kind)
    requires cfg.Valid() && i < NUM_HEATERS
    requires WithinLimit(AlarmOf(s.h[i], k), s.h[i].enabled)
    ensures var x, y := s.h[i], HeaterAfter(s, e, cfg, i);
      && WithinLimit(AlarmOf(y, k), y.enabled)
      && AlarmOf(y, k).seconds ==
         if Enables(s, e, i) then 0
         else if !Evaluates(s, e, i) then AlarmOf(x, k).seconds
         else if Deviates(x, k, s.g.cleaning) then AlarmOf(x, k).seconds + 1 else 0
  {
    match e
    case Commanded(_, c) => OperationAlarm(Effect(s, c, cfg, i), s.h[i], k);
    case Reading(rtd, sample) => ReadingKeepsAlarm(s, rtd, sample, cfg, i, k);
    case HeaterTick(volts) => TickAlarm(s, volts, i, k);
    case _ =>
  }

  /** Likewise for the flags that are published. */
  ghost predicate FlagsStepped(a: Alarm, b: Alarm, s: State, e: Event, i: nat, k: Kind)
    requires i < NUM_HEATERS
  {
    if Enables(s, e, i) then !b.active && !b.css && !b.oneShot
    else if Evaluates(s, e, i) then
      && b.active == (Excess(s.h[i], k) > 11)
      && b.css == (a.css || FiresOf(s.h[i], k, s.g.cleaning))
      && b.oneShot == FiresOf(s.h[i], k, s.g.cleaning)
    else b.active == a.active && b.css == a.css && b.oneShot == a.oneShot
  }

  lemma StepFlags(s: State, e: Event, cfg: Config, i: nat, k: Kind)
    requires cfg.Valid() && i < NUM_HEATERS
    requires WithinLimit(AlarmOf(s.h[i], k), s.h[i].enabled)
    ensures FlagsStepped(AlarmOf(s.h[i], k), AlarmOf(HeaterAfter(s, e, cfg, i), k), s, e, i, k)
  {
    match e
    case Commanded(_, c) => OperationAlarm(Effect(s, c, cfg, i), s.h[i], k);
    case Reading(rtd, sample) => ReadingKeepsAlarm(s, rtd, sample, cfg, i, k);
    case HeaterTick(volts) => TickAlarm(s, volts, i, k);
    case _ =>
  }

  /** The counters measure the streaks, stay within 901 in any run, and within 900 while enabled. */
  lemma {:induction false} CountersMeasureStreaks(s: State, es: seq<Event>, cfg: Config, i: nat, k: Kind)
    requires cfg.Valid() && i < NUM_HEATERS && Initial(s)
    ensures var x := Run(s, es, cfg).h[i];
      && WithinLimit(AlarmOf(x, k), x.enabled)
      && AlarmOf(x, k).seconds == Streak(s, es, cfg, i, k)
  {
    if es != [] {
      var last := |es| - 1;
      CountersMeasureStreaks(s, es[..last], cfg, i, k);
      StepAlarm(Run(s, es[..last], cfg), es[last], cfg, i, k);
    }
  }

  lemma FiringDisablesShelf(s: State, volts: real, i: nat, k: Kind)
    requires i < NUM_HEATERS && Evaluates(s, HeaterTick(volts), i) && FiresOf(s.h[i], k, s.g.cleaning)
    ensures !HeaterAfterTick(s, volts, i).enabled && !HeaterAfterTick(s, volts, Sibling(i)).enabled
  {
    TickHeater(s, volts, i);
    TickHeater(s, volts, Sibling(i));
  }

  lemma StreakAfterTick(s: State, es: seq<Event>, cfg: Config, volts: real, i: nat, k: Kind)
    requires cfg.Valid() && i < NUM_HEATERS && Evaluates(Run(s, es, cfg), HeaterTick(volts), i)
    ensures var t := Run(s, es, cfg);
      Streak(s, es + [HeaterTick(volts)], cfg, i, k)
        == if Deviates(t.h[i], k, t.g.cleaning) then Streak(s, es, cfg, i, k) + 1 else 0
  {
    assert (es + [HeaterTick(volts)])[..|es|] == es;
  }

  /**
   In any run, an alarm goes off exactly at the 901st evaluated tick in a row with the deviation,
   and it disables both heaters of the shelf.
   */
  lemma AlarmFiresAtThe901st(s: State, es: seq<Event>, cfg: Config, volts: real, i: nat, k: Kind)
    requires cfg.Valid() && i < NUM_HEATERS && Initial(s)
    requires Evaluates(Run(s, es, cfg), HeaterTick(volts), i)
    ensures var t := Run(s, es, cfg);
      && (FiresOf(t.h[i], k, t.g.cleaning) <==>
            Streak(s, es + [HeaterTick(volts)], cfg, i, k) == 901)
      && (FiresOf(t.h[i], k, t.g.cleaning) ==>
            !HeaterAfterTick(t, volts, i).enabled && !HeaterAfterTick(t, volts, Sibling(i)).enabled)
  {
    var t := Run(s, es, cfg);
    CountersMeasureStreaks(s, es, cfg, i, k);
    StreakAfterTick(s, es, cfg, volts, i, k);
    TickAlarm(t, volts, i, k);
    if FiresOf(t.h[i], k, t.g.cleaning) {
      FiringDisablesShelf(t, volts, i, k);
    }
  }

  // What a tick does to the flags, in terms of degrees and ticks.

  /** The tick is the 901st in a row to evaluate heater `j` and find it deviating, in one way or the other. */
  ghost predicate AlarmIsDue(s: State, es: seq<Event>, cfg: Config, volts: real, j: nat)
    requires cfg.Valid() && j < NUM_HEATERS
  {
    var tick := HeaterTick(volts);
    && Evaluates(Run(s, es, cfg), tick, j)
    && ( || Streak(s, es + [tick], cfg, j, Under) == 901
         || Streak(s, es + [tick], cfg, j, Over) == 901)
  }

  lemma DueIsFiring(s: State, es: seq<Event>, cfg: Config, volts: real, j: nat)
    requires cfg.Valid() && j < NUM_HEATERS && Initial(s)
    ensures var t := Run(s, es, cfg);
      AlarmIsDue(s, es, cfg, volts, j) <==>
        Evaluates(t, HeaterTick(volts), j) && (FiresUnder(t.h[j]) || FiresOver(t.h[j], t.g.cleaning))
  {
    var t := Run(s, es, cfg);
    if Evaluates(t, HeaterTick(volts), j) {
      AlarmFiresAtThe901st(s, es, cfg, volts, j, Under);
      AlarmFiresAtThe901st(s, es, cfg, volts, j, Over);
      assert FiresOf(t.h[j], Under, t.g.cleaning) == FiresUnder(t.h[j]);
      assert FiresOf(t.h[j], Over, t.g.cleaning) == FiresOver(t.h[j], t.g.cleaning);
    }
  }

  lemma TripIsFiring(s: State, volts: real, j: nat)
    requires j < NUM_HEATERS && !s.g.initialStartup
    ensures Trips(AtVisit(s.h, j, s.g.startupComplete, s.g.cleaning), s.g.startupComplete, s.g.cleaning)
       <==> Evaluates(s, HeaterTick(volts), j) && (FiresUnder(s.h[j]) || FiresOver(s.h[j], s.g.cleaning))
  {
    EvaluatesIffEvaluated(s, volts, j);
  }

  lemma TickTripsWhenDue(s: State, es: seq<Event>, cfg: Config, volts: real, i: nat)
    requires cfg.Valid() && i < NUM_HEATERS && Initial(s)
    ensures TickTrips(Run(s, es, cfg), i)
       <==> AlarmIsDue(s, es, cfg, volts, i) || AlarmIsDue(s, es, cfg, volts, Sibling(i))
  {
    var t := Run(s, es, cfg);
    DueIsFiring(s, es, cfg, volts, i);
    DueIsFiring(s, es, cfg, volts, Sibling(i));
    if !t.g.initialStartup {
      TripIsFiring(t, volts, i);
      TripIsFiring(t, volts, Sibling(i));
    }
  }

  /**
   Over every run: a heater tick disables a heater exactly if for one of the two of its shelf it is
   the 901st evaluated tick in a row to find it more than 11 degrees off, and enables none.
   */
  lemma TickDisablesWhenDue(s: State, es: seq<Event>, cfg: Config, volts: real, i: nat)
    requires cfg.Valid() && i < NUM_HEATERS && Initial(s)
    ensures var t := Run(s, es, cfg);
      HeaterAfterTick(t, volts, i).enabled <==>
        && t.h[i].enabled
        && !AlarmIsDue(s, es, cfg, volts, i) && !AlarmIsDue(s, es, cfg, volts, Sibling(i))
  {
    TickHeater(Run(s, es, cfg), volts, i);
    TickTripsWhenDue(s, es, cfg, volts, i);
  }

  /** The temperature is within 11 degrees of the setpoint. */
  predicate WithinEleven(x: Heater) {
    -11 <= x.temp - x.setpoint <= 11
  }

  /** A tick whose evaluated heaters of a shelf are within 11 degrees disables neither, whatever came before. */
  lemma WithinElevenNeverTrips(s: State, volts: real, i: nat)
    requires i < NUM_HEATERS
    requires Evaluates(s, HeaterTick(volts), i) ==> WithinEleven(s.h[i])
    requires Evaluates(s, HeaterTick(volts), Sibling(i)) ==> WithinEleven(s.h[Sibling(i)])
    ensures HeaterAfterTick(s, volts, i).enabled == s.h[i].enabled
  {
    TickHeater(s, volts, i);
    if !s.g.initialStartup {
      TripIsFiring(s, volts, i);
      TripIsFiring(s, volts, Sibling(i));
    }
  }

  /** What the last evaluation said, and whether an alarm has been reported, since the heater was last enabled. */
  ghost function WasOff(s: State, es: seq<Event>, cfg: Config, i: nat, k: Kind): bool
    requires cfg.Valid() && i < NUM_HEATERS
  {
    if es == [] then false
    else
      var front, e := es[..|es| - 1], es[|es| - 1];
      var t := Run(s, front, cfg);
      if Enables(t, e, i) then false
      else if Evaluates(t, e, i) then Excess(t.h[i], k) > 11
      else WasOff(s, front, cfg, i, k)
  }

  ghost function WasReported(s: State, es: seq<Event>, cfg: Config, i: nat, k: Kind): bool
    requires cfg.Valid() && i < NUM_HEATERS
  {
    if es == [] then false
    else
      var front, e := es[..|es| - 1], es[|es| - 1];
      var t := Run(s, front, cfg);
      !Enables(t, e, i)
      && (WasReported(s, front, cfg, i, k) || (Evaluates(t, e, i) && Streak(s, es, cfg, i, k) == 901))
  }

  lemma PublishedNext(s: State, es: seq<Event>, e: Event, cfg: Config, i: nat, k: Kind)
    requires cfg.Valid() && i < NUM_HEATERS && Initial(s)
    ensures var t := Run(s, es, cfg);
      var a, b := AlarmOf(t.h[i], k), AlarmOf(HeaterAfter(t, e, cfg, i), k);
      && b.active ==
         (if Enables(t, e, i) then false else if Evaluates(t, e, i) then Excess(t.h[i], k) > 11 else a.active)
      && b.css == (!Enables(t, e, i) && (a.css || (Evaluates(t, e, i) && Streak(s, es + [e], cfg, i, k) == 901)))
      && (a.oneShot == a.css ==> b.oneShot == b.css)
  {
    CountersMeasureStreaks(s, es, cfg, i, k);
    StepFlags(Run(s, es, cfg), e, cfg, i, k);
    if Evaluates(Run(s, es, cfg), e, i) {
      AlarmFiresAtThe901st(s, es, cfg, e.volts, i, k);
    }
  }

  /** The flags that are published: the deviation of the last evaluation, and that there has been an alarm. */
  lemma {:induction false} PublishedFlagsAreHistory(s: State, es: seq<Event>, cfg: Config, i: nat, k: Kind)
    requires cfg.Valid() && i < NUM_HEATERS && Initial(s)
    ensures var a := AlarmOf(Run(s, es, cfg).h[i], k);
      a.active == WasOff(s, es, cfg, i, k) && a.css == a.oneShot == WasReported(s, es, cfg, i, k)
  {
    if es != [] {
      var front, e := es[..|es| - 1], es[|es| - 1];
      var t := Run(s, front, cfg);
      PublishedFlagsAreHistory(s, front, cfg, i, k);
      PublishedNext(s, front, e, cfg, i, k);
      assert es == front + [e];
    }
  }
}
