/**
 When the pin of a disabled heater is on: exactly, for ticks that nothing interrupts and for the
 heater thread interleaved with the others; and how long it can stay on.
 */
module DisabledPins {
  import opened Alarms
  import opened HeaterControl
  import opened HeaterTicks
  import opened TopK

  predicate DisabledAndPowered(x: Heater) {
    !x.enabled && x.pin
  }

  // Atomic ticks.

  /** The deltas that a tick will record, read off the state before it. */
  function DeltasBefore(s: State): (d: seq<int>)
    ensures |d| == NUM_HEATERS
  {
    seq(NUM_HEATERS, i requires 0 <= i < NUM_HEATERS =>
      if AtVisit(s.h, i, s.g.startupComplete, s.g.cleaning).enabled then s.h[i].setpoint - s.h[i].temp
      else -350)
  }

  lemma RecordedDelta(h: Bank, i: nat, complete: bool, cleaning: bool)
    requires i < NUM_HEATERS
    ensures Scan(h, NUM_HEATERS, complete, cleaning)[i].delta ==
      if AtVisit(h, i, complete, cleaning).enabled then h[i].setpoint - h[i].temp else -350
  {
    VisitScans(AtVisit(h, i, complete, cleaning), complete, cleaning);
  }

  lemma DeltasAreKnownBefore(s: State)
    ensures Deltas(TickScan(s)) == DeltasBefore(s)
  {
    forall i | 0 <= i < NUM_HEATERS ensures Deltas(TickScan(s))[i] == DeltasBefore(s)[i] {
      RecordedDelta(s.h, i, s.g.startupComplete, s.g.cleaning);
    }
  }

  /** A regular tick powers no heater before one further below its setpoint, or as far with a lower index. */
  lemma TickPowersTheColdest(s: State, volts: real, i: nat, j: nat)
    requires i < NUM_HEATERS && j < NUM_HEATERS && !s.g.initialStartup && HeaterAfterTick(s, volts, j).pin
    ensures var d := DeltasBefore(s);
      && 0 < d[j]
      && (d[i] > d[j] || (d[i] == d[j] && i < j) ==> HeaterAfterTick(s, volts, i).pin)
  {
    TickHeater(s, volts, i);
    TickHeater(s, volts, j);
    DeltasAreKnownBefore(s);
    SelectionIsTheLargest(DeltasBefore(s), Budget(volts), i, j);
  }

  /**
   A heater ends an uninterrupted scheduling tick disabled and powered exactly when an alarm of its
   shelf goes off in that very tick and it has one of the largest positive deltas before it.
   */
  lemma DisabledPinAfterTick(s: State, volts: real, i: nat)
    requires i < NUM_HEATERS && Schedules(s.g)
    ensures DisabledAndPowered(HeaterAfterTick(s, volts, i))
       <==> TickTrips(s, i) && Selected(DeltasBefore(s), i, Budget(volts))
  {
    TickHeater(s, volts, i);
    DeltasAreKnownBefore(s);
  }

  /**
   Over every run: the next tick leaves a heater disabled and powered exactly when an alarm of its
   shelf is due in it and the heater has one of the largest positive deltas.
   */
  lemma DisabledPinInEveryRun(s: State, es: seq<Event>, cfg: Config, volts: real, i: nat)
    requires cfg.Valid() && i < NUM_HEATERS && Initial(s) && Schedules(Run(s, es, cfg).g)
    ensures var t := Run(s, es, cfg);
      DisabledAndPowered(HeaterAfterTick(t, volts, i)) <==>
        && (AlarmIsDue(s, es, cfg, volts, i) || AlarmIsDue(s, es, cfg, volts, Sibling(i)))
        && Selected(DeltasBefore(t), i, Budget(volts))
  {
    var t := Run(s, es, cfg);
    DisabledPinAfterTick(t, volts, i);
    TickTripsWhenDue(s, es, cfg, volts, i);
  }
}
