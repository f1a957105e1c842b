/** What one heater tick does to each heater, both of the startup kind and of the regular kind. */
module HeaterTicks {
  import opened HeaterControl

  /** Setpoints, temperature and the eco and change flags: no part of the scan touches these. */
  predicate SameSettings(x: Heater, y: Heater) {
    && x.setpoint == y.setpoint && x.saved == y.saved && x.eco == y.eco && x.temp == y.temp
    && x.ecoModeOn == y.ecoModeOn && x.ecoModeIsOn == y.ecoModeIsOn
  }

  /** What a scan that starts from `x` may leave, whatever the other heater of the shelf does. */
  ghost predicate ScannedFrom(x: Heater, y: Heater) {
    && SameSettings(x, y) && y.setpointChanged == x.setpointChanged
    && !y.isOn && (y.pin ==> x.pin)
    && (y.enabled ==> x.enabled)
    && (if x.enabled then y.delta in {MAX_NEGATIVE_DELTA_TEMP, x.setpoint - x.temp} && y.wasOn in {x.isOn, false}
        else y.delta == MAX_NEGATIVE_DELTA_TEMP && !y.wasOn)
    && (!y.wasOn ==> !y.pin || !x.isOn)
  }

  lemma VisitScans(x: Heater, complete: bool, cleaning: bool)
    ensures var y := Visited(x, complete, cleaning);
      && ScannedFrom(x, y)
      && (y.enabled <==> x.enabled && !Trips(x, complete, cleaning))
      && (x.enabled ==> y.delta == x.setpoint - x.temp && y.wasOn == x.isOn)
  {
  }

  lemma ScanUpper(h: Bank, i: nat, complete: bool, cleaning: bool)
    requires i < NUM_HEATERS && IsUpper(i)
    ensures var y := Scan(h, NUM_HEATERS, complete, cleaning)[i];
      && ScannedFrom(h[i], y)
      && (y.enabled <==> h[i].enabled && !ShelfTrips(h, i, complete, cleaning))
      && (h[i].enabled ==> y.delta == h[i].setpoint - h[i].temp)
  {
    VisitScans(h[i], complete, cleaning);
  }

  lemma ScanLower(h: Bank, i: nat, complete: bool, cleaning: bool)
    requires i < NUM_HEATERS && !IsUpper(i)
    ensures var y := Scan(h, NUM_HEATERS, complete, cleaning)[i];
      && ScannedFrom(h[i], y)
      && (y.enabled <==> h[i].enabled && !ShelfTrips(h, i, complete, cleaning))
      && (y.delta == MAX_NEGATIVE_DELTA_TEMP || (h[i].enabled && y.delta == h[i].setpoint - h[i].temp))
  {
    VisitScans(AtVisit(h, i, complete, cleaning), complete, cleaning);
  }

  /** The scan of a whole bank, heater by heater. */
  lemma ScanHeater(h: Bank, i: nat, complete: bool, cleaning: bool)
    requires i < NUM_HEATERS
    ensures var y := Scan(h, NUM_HEATERS, complete, cleaning)[i];
      && ScannedFrom(h[i], y)
      && (y.enabled <==> h[i].enabled && !ShelfTrips(h, i, complete, cleaning))
  {
    if IsUpper(i) {
      ScanUpper(h, i, complete, cleaning);
    } else {
      ScanLower(h, i, complete, cleaning);
    }
  }

  /** An alarm of heater `i`'s shelf goes off in this tick. */
  predicate TickTrips(s: State, i: nat)
    requires i < NUM_HEATERS
  {
    !s.g.initialStartup && ShelfTrips(s.h, i, s.g.startupComplete, s.g.cleaning)
  }

  /** The tick chooses to power heater `i`. */
  predicate Powered(s: State, i: nat, k: nat)
    requires i < NUM_HEATERS
  {
    if s.g.initialStartup then StartsFirst(s.h, i, k) else Chosen(s, i, k)
  }

  /** The effect of a tick on a heater: who stays enabled, and who ends it powered. */
  lemma TickHeater(s: State, volts: real, i: nat)
    requires i < NUM_HEATERS
    ensures var x, y := s.h[i], HeaterAfterTick(s, volts, i);
      && SameSettings(x, y)
      && (y.enabled <==> x.enabled && !TickTrips(s, i))
      && (if Schedules(s.g) then y.pin == y.isOn == Powered(s, i, Budget(volts)) && (y.pin ==> x.enabled) else y == x)
  {
    if !s.g.initialStartup {
      ScanHeater(s.h, i, s.g.startupComplete, s.g.cleaning);
    }
  }
}
