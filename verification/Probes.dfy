/** How long a probe must read out of range, or the heatsink be hot, for heaters to be disabled; the pins it drops. */
module Probes {
  import opened HeaterControl
  import opened Supervision
  import opened TemperatureLookup

  datatype Fault = Open | Shorted

  /** Open: a count above that of the row ten from the end of the table. Shorted: one below its first row. */
  predicate Shows(f: Fault, t: RtdTable, raw: int) {
    match f case Open => raw > t[|t| - 10].count case Shorted => raw < t[0].count
  }

  function Seconds(r: Rtd, f: Fault): nat {
    match f case Open => r.secondsOpen case Shorted => r.secondsShorted
  }

  /** Enabling a heater clears its probe's counters; nothing clears those of the heatsink's probe. */
  predicate ClearsProbe(s: State, e: Event, i: nat) {
    i < NUM_HEATERS && Enables(s, e, i)
  }

  /** How one event moves a count of the readings in a row of probe `i` that showed the fault. */
  function FaultsAfter(n: nat, s: State, e: Event, cfg: Config, i: nat, f: Fault): nat
    requires cfg.Valid() && i < NUM_RTDS
  {
    if ClearsProbe(s, e, i) then 0
    else if !(e.Reading? && e.rtd == i && e.sample.Counts?) then n
    else if Shows(f, cfg.tables[i], e.sample.raw) then n + 1 else 0
  }

  /**
   The number of readings in a row of probe `i` that showed the fault, since its heater, if any, was
   last enabled. The readings before the first event are those that the counter starts from.
   */
  ghost function FaultStreak(s: State, es: seq<Event>, cfg: Config, i: nat, f: Fault): nat
    requires cfg.Valid() && i < NUM_RTDS
  {
    if es == [] then Seconds(s.r[i], f)
    else
      var front := es[..|es| - 1];
      FaultsAfter(FaultStreak(s, front, cfg, i, f), Run(s, front, cfg), es[|es| - 1], cfg, i, f)
  }

  /** The counters of a probe are 16 bits wide. */
  predicate Fits(r: Rtd) {
    r.secondsOpen < 0x1_0000 && r.secondsShorted < 0x1_0000
  }

  lemma CheckedSeconds(r: Rtd, t: RtdTable, raw: int, f: Fault)
    ensures Seconds(Checked(r, t, raw), f) == if Shows(f, t, raw) then U16(Seconds(r, f) + 1) else 0
  {
  }

  lemma U16Successor(n: nat)
    ensures U16(U16(n) + 1) == U16(n + 1)
  {
  }

  lemma ProbeStep(s: State, e: Event, cfg: Config, i: nat, f: Fault)
    requires cfg.Valid() && i < NUM_RTDS
    ensures Seconds(RtdAfter(s, e, cfg, i), f) ==
      if ClearsProbe(s, e, i) then 0
      else if !(e.Reading? && e.rtd == i && e.sample.Counts?) then Seconds(s.r[i], f)
      else if Shows(f, cfg.tables[i], e.sample.raw) then U16(Seconds(s.r[i], f) + 1) else 0
  {
    if e.Reading? && e.rtd == i && e.sample.Counts? {
      CheckedSeconds(s.r[i], cfg.tables[i], e.sample.raw, f);
    }
  }

  lemma CounterNext(n: nat, s: State, e: Event, cfg: Config, i: nat, f: Fault)
    requires cfg.Valid() && i < NUM_RTDS && Seconds(s.r[i], f) == U16(n)
    ensures Seconds(RtdAfter(s, e, cfg, i), f) == U16(FaultsAfter(n, s, e, cfg, i, f))
  {
    ProbeStep(s, e, cfg, i, f);
    U16Successor(n);
  }

  /** The 16-bit counters of a probe measure its streaks, over any run. */
  lemma {:induction false} CountersMeasureFaultStreaks(s: State, es: seq<Event>, cfg: Config, i: nat, f: Fault)
    requires cfg.Valid() && i < NUM_RTDS && Fits(s.r[i])
    ensures Seconds(Run(s, es, cfg).r[i], f) == U16(FaultStreak(s, es, cfg, i, f))
  {
    if es != [] {
      var front := es[..|es| - 1];
      CountersMeasureFaultStreaks(s, front, cfg, i, f);
      CounterNext(FaultStreak(s, front, cfg, i, f), Run(s, front, cfg), es[|es| - 1], cfg, i, f);
    }
  }

  /** A reading is late that shows the fault after `n` in a row that did, if that makes more than three. */
  predicate Late(n: nat, f: Fault, t: RtdTable, raw: int) {
    Shows(f, t, raw) && U16(n + 1) > 3
  }

  lemma LateReading(n: nat, r: Rtd, t: RtdTable, raw: int, f: Fault)
    requires Seconds(r, f) == U16(n)
    ensures Late(n, f, t, raw) <==> Shows(f, t, raw) && Seconds(Checked(r, t, raw), f) > 3
  {
    CheckedSeconds(r, t, raw, f);
    U16Successor(n);
  }

  /** A sample is faulty exactly when it is late for one of the two faults. */
  lemma FaultyIsLate(open: nat, shorted: nat, r: Rtd, t: RtdTable, raw: int)
    requires r.secondsOpen == U16(open) && r.secondsShorted == U16(shorted)
    ensures Faulty(r, t, Counts(raw)) <==> Late(open, Open, t, raw) || Late(shorted, Shorted, t, raw)
  {
    LateReading(open, r, t, raw, Open);
    LateReading(shorted, r, t, raw, Shorted);
  }

  /** Over a run: the streaks of both faults decide whether the next sample is faulty. */
  ghost predicate FaultIsDue(s: State, es: seq<Event>, cfg: Config, i: nat, raw: int)
    requires cfg.Valid() && i < NUM_RTDS
  {
    || Late(FaultStreak(s, es, cfg, i, Open), Open, cfg.tables[i], raw)
    || Late(FaultStreak(s, es, cfg, i, Shorted), Shorted, cfg.tables[i], raw)
  }

  lemma FaultyWhenDue(s: State, es: seq<Event>, cfg: Config, i: nat, raw: int)
    requires cfg.Valid() && i < NUM_RTDS && Fits(s.r[i])
    ensures Faulty(Run(s, es, cfg).r[i], cfg.tables[i], Counts(raw)) <==> FaultIsDue(s, es, cfg, i, raw)
  {
    CountersMeasureFaultStreaks(s, es, cfg, i, Open);
    CountersMeasureFaultStreaks(s, es, cfg, i, Shorted);
    FaultyIsLate(FaultStreak(s, es, cfg, i, Open), FaultStreak(s, es, cfg, i, Shorted),
                 Run(s, es, cfg).r[i], cfg.tables[i], raw);
  }

  /** What a reading of a heater's own probe does to pins and flags, given whether it is faulty. */
  lemma ReadingDisables(t: State, cfg: Config, i: nat, raw: int, j: nat)
    requires cfg.Valid() && i < NUM_HEATERS && j < NUM_HEATERS
    ensures var late := Faulty(t.r[i], cfg.tables[i], Counts(raw));
      var x := HeaterAfter(t, Reading(i, Counts(raw)), cfg, j);
      && x.enabled == (t.h[j].enabled && !(late && j == i))
      && x.pin == (t.h[j].pin && !(late && j == 0))
  {
  }

  /**
   A reading disables its heater exactly when it is the fourth or later in a row to show one and the
   same fault, counted in 16 bits. The pin it drops is heater 0's; no other pin changes.
   */
  lemma ReadingDisablesWhenLate(s: State, es: seq<Event>, cfg: Config, i: nat, raw: int, j: nat)
    requires cfg.Valid() && i < NUM_HEATERS && j < NUM_HEATERS
    requires Fits(s.r[i])
    ensures var t := Run(s, es, cfg);
      var late := FaultIsDue(s, es, cfg, i, raw);
      var x := HeaterAfter(t, Reading(i, Counts(raw)), cfg, j);
      && x.enabled == (t.h[j].enabled && !(late && j == i))
      && x.pin == (t.h[j].pin && !(late && j == 0))
  {
    FaultyWhenDue(s, es, cfg, i, raw);
    ReadingDisables(Run(s, es, cfg), cfg, i, raw, j);
  }

  // The flags of a probe.

  /** The state of the fault, and that it has been reported: two flags that always agree. */
  predicate Flagged(r: Rtd, f: Fault, late: bool) {
    match f
    case Open => r.isOpen == late && r.openOneShot == late
    case Shorted => r.isShorted == late && r.shortedOneShot == late
  }

  lemma CheckedFlags(r: Rtd, t: RtdTable, raw: int, f: Fault, n: nat)
    requires Seconds(r, f) == U16(n) && Flagged(r, f, n > 3)
    ensures Flagged(Checked(r, t, raw), f, Shows(f, t, raw) && n + 1 > 3)
  {
  }

  lemma FlagsNext(n: nat, s: State, e: Event, cfg: Config, i: nat, f: Fault)
    requires cfg.Valid() && i < NUM_RTDS && Seconds(s.r[i], f) == U16(n) && Flagged(s.r[i], f, n > 3)
    ensures Flagged(RtdAfter(s, e, cfg, i), f, FaultsAfter(n, s, e, cfg, i, f) > 3)
  {
    if e.Reading? && e.rtd == i && e.sample.Counts? {
      CheckedFlags(s.r[i], cfg.tables[i], e.sample.raw, f, n);
    }
  }

  /** Over every run: a probe's flags say that its streak is longer than three readings, wrapped or not. */
  lemma {:induction false} FlagsSayLongerThanThree(s: State, es: seq<Event>, cfg: Config, i: nat, f: Fault)
    requires cfg.Valid() && i < NUM_RTDS && Fits(s.r[i]) && Flagged(s.r[i], f, Seconds(s.r[i], f) > 3)
    ensures Flagged(Run(s, es, cfg).r[i], f, FaultStreak(s, es, cfg, i, f) > 3)
  {
    if es != [] {
      var front := es[..|es| - 1];
      FlagsSayLongerThanThree(s, front, cfg, i, f);
      CountersMeasureFaultStreaks(s, front, cfg, i, f);
      FlagsNext(FaultStreak(s, front, cfg, i, f), Run(s, front, cfg), es[|es| - 1], cfg, i, f);
    }
  }

  // In terms of the rows of the table.

  /** A count of the table's range, from its first row to the one ten from its end. */
  predicate InProbeRange(t: RtdTable, raw: int) {
    t[0].count <= raw <= t[|t| - 10].count
  }

  /** With increasing counts, the rows of that range read as sound, and all later ones as open. */
  lemma RowsInRange(t: RtdTable, row: nat)
    requires CountsIncreasing(t) && row < |t|
    ensures InProbeRange(t, t[row].count) <==> row <= |t| - 10
    ensures Shows(Open, t, t[row].count) <==> row > |t| - 10
    ensures !Shows(Shorted, t, t[row].count)
  {
  }

  /** A reading in that range clears both counters of its probe, and disables nothing, whatever came before. */
  lemma SoundReading(s: State, cfg: Config, i: nat, raw: int, j: nat)
    requires cfg.Valid() && i < NUM_HEATERS && j < NUM_HEATERS && InProbeRange(cfg.tables[i], raw)
    ensures var r := RtdAfter(s, Reading(i, Counts(raw)), cfg, i);
      r.secondsOpen == 0 && r.secondsShorted == 0 && !r.isOpen && !r.isShorted
    ensures var x := HeaterAfter(s, Reading(i, Counts(raw)), cfg, j);
      x.enabled == s.h[j].enabled && x.pin == s.h[j].pin
  {
  }

  /** Likewise for the heatsink's probe: it is then the temperature alone that can disable. */
  lemma SoundHeatsinkReading(s: State, cfg: Config, raw: int, j: nat)
    requires cfg.Valid() && j < NUM_HEATERS && InProbeRange(cfg.tables[12], raw)
    ensures var r := RtdAfter(s, Reading(12, Counts(raw)), cfg, 12); r.secondsOpen == 0 && r.secondsShorted == 0
    ensures var x := HeaterAfter(s, Reading(12, Counts(raw)), cfg, j);
      x == if HeatsinkAlarms(s.g, cfg.tables[12], Counts(raw), cfg.heatsinkTimeLimit) then Disabled(s.h[j]) else s.h[j]
  {
  }

  /** A heater that is enabled has not had a fault for more than three readings in a row since. */
  predicate ShortStreak(x: Heater, n: nat) {
    x.enabled ==> n <= 3
  }

  lemma StreakStep(s: State, e: Event, cfg: Config, i: nat, f: Fault, n: nat)
    requires cfg.Valid() && i < NUM_HEATERS && Seconds(s.r[i], f) == U16(n) && ShortStreak(s.h[i], n)
    ensures ShortStreak(HeaterAfter(s, e, cfg, i), FaultsAfter(n, s, e, cfg, i, f))
  {
    OnlyCommandsEnable(s, e, cfg, i);
    if e.Reading? && e.rtd == i && e.sample.Counts? && s.h[i].enabled {
      LateReading(n, s.r[i], cfg.tables[i], e.sample.raw, f);
    }
  }

  /**
   Over every run: four readings in a row that show the same fault, with no enabling in between,
   leave the heater disabled. The counter may wrap after that, the heater stays disabled.
   */
  lemma {:induction false} FourFaultsDisable(s: State, es: seq<Event>, cfg: Config, i: nat, f: Fault)
    requires cfg.Valid() && i < NUM_HEATERS && Initial(s) && Fits(s.r[i])
    ensures FaultStreak(s, es, cfg, i, f) >= 4 ==> !Run(s, es, cfg).h[i].enabled
  {
    if es != [] {
      var front := es[..|es| - 1];
      FourFaultsDisable(s, front, cfg, i, f);
      CountersMeasureFaultStreaks(s, front, cfg, i, f);
      StreakStep(Run(s, front, cfg), es[|es| - 1], cfg, i, f, FaultStreak(s, front, cfg, i, f));
    }
  }

  lemma OneMoreFault(s: State, es: seq<Event>, cfg: Config, i: nat, raw: int, f: Fault)
    requires cfg.Valid() && i < NUM_RTDS && Shows(f, cfg.tables[i], raw)
    ensures FaultStreak(s, es + [Reading(i, Counts(raw))], cfg, i, f) == FaultStreak(s, es, cfg, i, f) + 1
  {
    assert (es + [Reading(i, Counts(raw))])[..|es|] == es;
  }

  /** Four readings at the count of a row after that range disable the heater, with increasing counts. */
  lemma FourLateRowsDisable(s: State, es: seq<Event>, cfg: Config, i: nat, row: nat)
    requires cfg.Valid() && i < NUM_HEATERS && Initial(s) && Fits(s.r[i])
    requires var t := cfg.tables[i]; CountsIncreasing(t) && |t| - 10 < row < |t|
    ensures var e := Reading(i, Counts(cfg.tables[i][row].count));
      !Run(s, es + [e] + [e] + [e] + [e], cfg).h[i].enabled
  {
    var t := cfg.tables[i];
    var raw := t[row].count;
    var e := Reading(i, Counts(raw));
    RowsInRange(t, row);
    OneMoreFault(s, es, cfg, i, raw, Open);
    OneMoreFault(s, es + [e], cfg, i, raw, Open);
    OneMoreFault(s, es + [e] + [e], cfg, i, raw, Open);
    OneMoreFault(s, es + [e] + [e] + [e], cfg, i, raw, Open);
    FourFaultsDisable(s, es + [e] + [e] + [e] + [e], cfg, i, Open);
  }

  // The temperature.

  /** A reading stores the temperature that the table gives for its count, and no other heater's. */
  lemma ReadingStoresTemperature(s: State, cfg: Config, i: nat, raw: int, j: nat)
    requires cfg.Valid() && i < NUM_HEATERS && j < NUM_HEATERS
    requires 0 <= raw < 0x1_0000 && Lookup(cfg.tables[i], raw) < 0x8000
    ensures HeaterAfter(s, Reading(i, Counts(raw)), cfg, j).temp ==
      if j == i then Lookup(cfg.tables[i], raw) else s.h[j].temp
  {
  }

  /** The heatsink is hot from 176 degrees on, and when its count is outside the table. */
  lemma HeatsinkIsHotFrom176(t: RtdTable, raw: int)
    requires 0 <= raw < 0x1_0000 && Lookup(t, raw) < 0x1_0000_0000
    ensures HeatsinkIsHot(t, Counts(raw)) <==> Lookup(t, raw) >= 176 || Lookup(t, raw) == -1
  {
  }

  // The heatsink.

  predicate ReadsHeatsink(e: Event) {
    e.Reading? && e.rtd == HEATSINK_RTD_INDEX
  }

  /** The number of readings in a row that found the heatsink hot. */
  ghost function HotStreak(es: seq<Event>, cfg: Config): nat
    requires cfg.Valid()
  {
    if es == [] then 0
    else
      var e, n := es[|es| - 1], HotStreak(es[..|es| - 1], cfg);
      if !ReadsHeatsink(e) then n
      else if HeatsinkIsHot(cfg.tables[HEATSINK_RTD_INDEX], e.sample) then n + 1 else 0
  }

  /** The reading at which a hot heatsink is reported: where the limit is reached, or the first if it is 0. */
  function AlarmReading(cfg: Config): nat {
    if cfg.heatsinkTimeLimit == 0 then 1 else cfg.heatsinkTimeLimit
  }

  /** A streak that has been reported; a limit that 32 bits do not reach never is. */
  predicate HasAlarmed(cfg: Config, n: nat) {
    cfg.heatsinkTimeLimit < 0x1_0000_0000 && AlarmReading(cfg) <= n
  }

  lemma HeatsinkKept(s: State, e: Event, cfg: Config)
    requires cfg.Valid() && !ReadsHeatsink(e)
    ensures var g := GlobalsAfter(s, e, cfg);
      g.heatsinkSeconds == s.g.heatsinkSeconds && g.heatsinkOneShot == s.g.heatsinkOneShot
  {
    match e
    case Commanded(_, c) => CommandKeepsHeatsink(s.g, c);
    case HeaterTick(_) =>
    case _ =>
  }

  lemma CommandKeepsHeatsink(g: Globals, c: Command)
    ensures var k := GlobalsAfterCommand(g, c);
      k.heatsinkSeconds == g.heatsinkSeconds && k.heatsinkOneShot == g.heatsinkOneShot
  {
  }

  /** The alarm of a hot reading that follows a streak of `n` of them. */
  lemma AlarmsAtLimit(n: nat, cfg: Config)
    ensures U32(n + 1) >= cfg.heatsinkTimeLimit && !HasAlarmed(cfg, n)
       <==> cfg.heatsinkTimeLimit < 0x1_0000_0000 && n + 1 == AlarmReading(cfg)
  {
  }

  lemma HeatsinkStep(s: State, e: Event, cfg: Config, n: nat)
    requires cfg.Valid() && ReadsHeatsink(e)
    requires s.g.heatsinkSeconds == U32(n) && s.g.heatsinkOneShot == HasAlarmed(cfg, n)
    ensures var g := GlobalsAfter(s, e, cfg);
      var next := if HeatsinkIsHot(cfg.tables[HEATSINK_RTD_INDEX], e.sample) then n + 1 else 0;
      g.heatsinkSeconds == U32(next) && g.heatsinkOneShot == HasAlarmed(cfg, next)
  {
    U32Successor(n);
    AlarmsAtLimit(n, cfg);
  }

  lemma {:induction false} HeatsinkMeasuresHotStreak(s: State, es: seq<Event>, cfg: Config)
    requires cfg.Valid() && s.g.heatsinkSeconds == 0 && !s.g.heatsinkOneShot
    ensures var g := Run(s, es, cfg).g;
      && g.heatsinkSeconds == U32(HotStreak(es, cfg))
      && g.heatsinkOneShot == HasAlarmed(cfg, HotStreak(es, cfg))
  {
    if es != [] {
      var last := |es| - 1;
      HeatsinkMeasuresHotStreak(s, es[..last], cfg);
      if ReadsHeatsink(es[last]) {
        HeatsinkStep(Run(s, es[..last], cfg), es[last], cfg, HotStreak(es[..last], cfg));
      } else {
        HeatsinkKept(Run(s, es[..last], cfg), es[last], cfg);
      }
    }
  }

  /** The reading is the one that completes a hot streak of the length that is reported. */
  ghost predicate HeatsinkIsDue(es: seq<Event>, cfg: Config, sample: Sample)
    requires cfg.Valid()
  {
    && HeatsinkIsHot(cfg.tables[HEATSINK_RTD_INDEX], sample)
    && cfg.heatsinkTimeLimit < 0x1_0000_0000 && HotStreak(es, cfg) + 1 == AlarmReading(cfg)
  }

  lemma HeatsinkAlarmsWhenDue(s: State, es: seq<Event>, cfg: Config, sample: Sample)
    requires cfg.Valid() && s.g.heatsinkSeconds == 0 && !s.g.heatsinkOneShot
    ensures HeatsinkAlarms(Run(s, es, cfg).g, cfg.tables[HEATSINK_RTD_INDEX], sample, cfg.heatsinkTimeLimit)
       <==> HeatsinkIsDue(es, cfg, sample)
  {
    HeatsinkMeasuresHotStreak(s, es, cfg);
    U32Successor(HotStreak(es, cfg));
    AlarmsAtLimit(HotStreak(es, cfg), cfg);
  }

  /**
   A reading of the heatsink disables every heater and drops every pin, exactly when its probe shows
   a fault for the fourth or later time in a row, or it completes a hot streak that is reported, once;
   otherwise it changes no heater.
   */
  lemma HeatsinkReadingDisablesWhenDue(s: State, es: seq<Event>, cfg: Config, raw: int, j: nat)
    requires cfg.Valid() && j < NUM_HEATERS
    requires Fits(s.r[HEATSINK_RTD_INDEX])
    requires s.g.heatsinkSeconds == 0 && !s.g.heatsinkOneShot
    ensures var i := HEATSINK_RTD_INDEX;
      var x := Run(s, es, cfg).h[j];
      HeaterAfter(Run(s, es, cfg), Reading(i, Counts(raw)), cfg, j) ==
        if FaultIsDue(s, es, cfg, i, raw) || HeatsinkIsDue(es, cfg, Counts(raw)) then Disabled(x) else x
  {
    FaultyWhenDue(s, es, cfg, HEATSINK_RTD_INDEX, raw);
    HeatsinkAlarmsWhenDue(s, es, cfg, Counts(raw));
  }
}
