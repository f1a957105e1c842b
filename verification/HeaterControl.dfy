/**
 The state that the controller's threads share, and what each atomic activity of theirs does to it:
 a command, a message from a GUI, a status tick, an RTD reading, a heater tick, a line voltage sag.
 */
module HeaterControl {
  import opened TemperatureLookup
  import opened TopK

  const NUM_HEATERS: nat := 12
  const NUM_RTDS: nat := 13
  const HEATSINK_RTD_INDEX: nat := 12

  const DEFAULT_SETPOINT := 165
  const CLEANING_MODE_SETPOINT := 120
  const DEFAULT_ECO_MODE_SETPOINT := 100
  const FIRST_TEMPERATURE_ENTRY := 32
  const DEFAULT_SETPOINT_LOW_LIMIT := 150
  const DEFAULT_SETPOINT_HIGH_LIMIT := 215

  const MAX_NEGATIVE_DELTA_TEMP := -350
  const DELTA_LIMIT_DEGREES := 11
  const DELTA_LIMIT_SECONDS := 900
  const SETPOINT_RANGE_PLUS_MINUS := 5
  const UPPER_HEATER_MARGIN := 10
  const MAX_STARTUP_REACH_SETPOINT_TIME := 3000
  const MAX_CONSECUTIVE_SECONDS_ERROR := 3
  const HEATSINK_MAX_TEMP := 176
  const GUI_NO_COMMUNICATION_TIME_LIMIT := 180
  const TWO_MINUTES_IN_SECONDS := 120

  // The machine widths at which the source narrows or counts.

  function U16(x: int): nat { x % 0x1_0000 }

  function U32(x: int): nat { x % 0x1_0000_0000 }

  function I16(x: int): int { (x + 0x8000) % 0x1_0000 - 0x8000 }

  /** They keep the values that fit, and are what the value differs from by a multiple of the width. */
  lemma U16IsResidue(x: int)
    ensures 0 <= U16(x) < 65536 && x == U16(x) + 65536 * (x / 65536)
    ensures 0 <= x < 65536 ==> U16(x) == x
  {
  }

  lemma U32IsResidue(x: int)
    ensures 0 <= U32(x) < 4294967296 && x == U32(x) + 4294967296 * (x / 4294967296)
    ensures 0 <= x < 4294967296 ==> U32(x) == x
  {
  }

  lemma I16IsResidue(x: int)
    ensures -32768 <= I16(x) < 32768 && x == I16(x) + 65536 * ((x + 32768) / 65536)
    ensures -32768 <= x < 32768 ==> I16(x) == x
  {
  }

  /** One of a heater's two alarms: whether it deviates now, for how long, and what was reported. */
  datatype Alarm = Alarm(active: bool, css: bool, oneShot: bool, seconds: nat)

  datatype Heater = Heater(
    pin: bool,
    setpoint: nat, saved: nat, eco: nat, temp: int,
    enabled: bool, isOn: bool, wasOn: bool,
    undertemp: Alarm, overtemp: Alarm,
    ecoModeOn: bool, ecoModeIsOn: bool, setpointChanged: bool,
    delta: int)

  const QUIET := Alarm(false, false, false, 0)

  datatype Rtd = Rtd(
    isOpen: bool, isShorted: bool, openOneShot: bool, shortedOneShot: bool,
    secondsOpen: nat, secondsShorted: nat)

  type Bank = h: seq<Heater> | |h| == NUM_HEATERS
    witness seq(NUM_HEATERS, i => Heater(false, 0, 0, 0, 0, false, false, false, QUIET, QUIET, false, false, false, 0))

  type Rtds = r: seq<Rtd> | |r| == NUM_RTDS
    witness seq(NUM_RTDS, i => Rtd(false, false, false, false, 0, 0))

  /** The flags and counters that are not part of a heater or a probe. */
  datatype Globals = Globals(
    cleaning: bool,
    initialStartup: bool, startupMessage: bool, startupComplete: bool, startupTime: nat,
    heard1: nat, heard2: nat, uptime: int,
    heatsinkSeconds: nat, heatsinkOneShot: bool)

  datatype State = State(h: Bank, r: Rtds, g: Globals)

  /** A table long enough for the entry that marks an open probe, ten rows from its end. */
  type RtdTable = t: Table | 10 <= |t| witness seq(10, i => Row(32, 1706))

  /** What is loaded once: the limits, a table for each RTD, and a time limit this repository leaves out. */
  datatype Config = Config(low: nat, high: nat, tables: seq<RtdTable>, heatsinkTimeLimit: nat) {
    ghost predicate Valid() {
      && DEFAULT_SETPOINT_LOW_LIMIT <= low < high <= DEFAULT_SETPOINT_HIGH_LIMIT
      && |tables| == NUM_RTDS
    }
  }

  datatype Gui = Gui1 | Gui2

  datatype Command =
    | HeaterOn(index: int)
    | HeaterOff(index: int)
    | ShutdownRequested
    | EmergencyStop
    | Startup
    | UpdateSlotTempSetpoint(slot: int, temperature: nat)
    | SetHeaterTempSetpoint(slot: int, upper: nat, lower: nat)
    | SetEcoModeTemp(temperature: nat)
    | EcoModeOn(slot: int)
    | EcoModeOff(slot: int)
    | CleaningModeOn
    | CleaningModeOff
    | FanCommand(succeeds: bool)
    | Acknowledged
    | EstablishLink
    | Unknown
    | Unrecognised

  datatype Response = Ok | BadParameter | ShutdownPending | Failure | LinkEstablished | UnknownCommand

  datatype Sample = NoData | Counts(raw: int)

  datatype Event =
    | Commanded(from: Gui, command: Command)
    | Heard(from: Gui)
    | StatusTick(uptime: int, ethernetLost: bool)
    | Reading(rtd: nat, sample: Sample)
    | HeaterTick(volts: real)
    | VoltageSag

  // Single heaters and probes.

  function Disabled(x: Heater): Heater {
    x.(enabled := false, pin := false)
  }

  /** Enabling clears every error state, and the eco flag with them. */
  function Revived(x: Heater): Heater {
    x.(enabled := true, undertemp := QUIET, overtemp := QUIET, ecoModeOn := false)
  }

  const CLEAR_RTD := Rtd(false, false, false, false, 0, 0)

  predicate IsHeater(i: int) {
    0 <= i < NUM_HEATERS
  }

  predicate IsUpper(i: int) {
    i % 2 == 0
  }

  /** The other heater of the same shelf. */
  function Sibling(i: nat): (j: nat)
    requires i < NUM_HEATERS
    ensures j < NUM_HEATERS && IsUpper(j) != IsUpper(i) && i / 2 == j / 2
  {
    if IsUpper(i) then i + 1 else i - 1
  }

  // Commands.

  /** The upper heater of a slot; slot numbers that do not exist fall through to slot 6. */
  function UpperHeater(slot: int): (i: nat)
    ensures i + 1 < NUM_HEATERS && IsUpper(i)
  {
    if 1 <= slot <= 6 then 2 * (slot - 1) else 10
  }

  predicate InSlot(i: nat, slot: int) {
    i == UpperHeater(slot) || i == UpperHeater(slot) + 1
  }

  /** What a command can do to one heater. */
  datatype Operation =
    | Keep
    | Revive
    | Disable
    | SetSetpoint(t: nat)
    | SetEco(t: nat)
    | EnterEco
    | LeaveEco
    | EnterCleaning
    | LeaveCleaning

  function Applied(op: Operation, x: Heater): Heater {
    match op
    case Keep => x
    case Revive => Revived(x)
    case Disable => Disabled(x)
    case SetSetpoint(t) => x.(setpoint := U16(t), saved := U16(t), setpointChanged := true)
    case SetEco(t) => x.(eco := t)
    case EnterEco =>
      x.(ecoModeIsOn := true, saved := x.setpoint, ecoModeOn := true, setpoint := x.eco, setpointChanged := true)
    case LeaveEco => x.(setpoint := x.saved, ecoModeOn := false, setpointChanged := true)
    case EnterCleaning => x.(saved := x.setpoint, setpoint := CLEANING_MODE_SETPOINT, setpointChanged := true)
    case LeaveCleaning => x.(setpoint := x.saved, setpointChanged := true)
  }

  predicate Accepts(cfg: Config, t: nat) {
    cfg.low <= t <= cfg.high
  }

  predicate SlotIsEco(h: Bank, slot: int) {
    h[UpperHeater(slot)].ecoModeIsOn || h[UpperHeater(slot) + 1].ecoModeIsOn
  }

  function EcoSetpoint(h: Bank, t: nat): nat {
    if FIRST_TEMPERATURE_ENTRY <= t <= h[0].setpoint then U16(t) else DEFAULT_ECO_MODE_SETPOINT
  }

  /** What a command does to heater `i`. */
  function Effect(s: State, c: Command, cfg: Config, i: nat): Operation {
    match c
    case HeaterOn(j) => if !s.g.cleaning && i == j then Revive else Keep
    case HeaterOff(j) => if i == j then Disable else Keep
    case ShutdownRequested => Disable
    case EmergencyStop => Disable
    case Startup => if s.g.cleaning then Keep else Revive
    case UpdateSlotTempSetpoint(slot, t) =>
      if !s.g.cleaning && Accepts(cfg, t) && 1 <= slot <= 6 && InSlot(i, slot) then SetSetpoint(t) else Keep
    case SetHeaterTempSetpoint(slot, upper, lower) =>
      if !s.g.cleaning && Accepts(cfg, upper) && Accepts(cfg, lower) && InSlot(i, slot)
      then SetSetpoint(if IsUpper(i) then upper else lower) else Keep
    case SetEcoModeTemp(t) => if s.g.cleaning then Keep else SetEco(EcoSetpoint(s.h, t))
    case EcoModeOn(slot) => if !s.g.cleaning && InSlot(i, slot) && !SlotIsEco(s.h, slot) then EnterEco else Keep
    case EcoModeOff(slot) => if InSlot(i, slot) && SlotIsEco(s.h, slot) then LeaveEco else Keep
    case CleaningModeOn => if s.g.cleaning then Keep else EnterCleaning
    case CleaningModeOff => if s.g.cleaning then LeaveCleaning else Keep
    case _ => Keep
  }

  /** Enabling a heater clears its probe's errors too. */
  function RtdAfterCommand(s: State, c: Command, i: nat): Rtd
    requires i < NUM_RTDS
  {
    if !s.g.cleaning && i < NUM_HEATERS && (c == Startup || c == HeaterOn(i)) then CLEAR_RTD else s.r[i]
  }

  function GlobalsAfterCommand(g: Globals, c: Command): Globals {
    match c
    case Startup =>
      g.(startupMessage := true, startupTime := if g.cleaning then g.startupTime else 0)
    case CleaningModeOn => g.(cleaning := true)
    case CleaningModeOff => g.(cleaning := false)
    case _ => g
  }

  function Reply(s: State, c: Command, cfg: Config): Response {
    match c
    case HeaterOn(i) => if s.g.cleaning || !IsHeater(i) then Failure else Ok
    case HeaterOff(i) => if IsHeater(i) then Ok else Failure
    case ShutdownRequested => ShutdownPending
    case Startup => if s.g.cleaning then Failure else Ok
    case UpdateSlotTempSetpoint(_, t) =>
      if s.g.cleaning then Failure else if Accepts(cfg, t) then Ok else BadParameter
    case SetHeaterTempSetpoint(_, upper, lower) =>
      if s.g.cleaning then Failure else if Accepts(cfg, upper) && Accepts(cfg, lower) then Ok else BadParameter
    case SetEcoModeTemp(_) => if s.g.cleaning then Failure else Ok
    case EcoModeOn(_) => if s.g.cleaning then Failure else Ok
    case FanCommand(succeeds) => if succeeds then Ok else Failure
    case EstablishLink => LinkEstablished
    case Unknown => UnknownCommand
    case Unrecognised => BadParameter
    case _ => Ok
  }

  /** The state after a command has been processed. */
  function Processed(s: State, c: Command, cfg: Config): State {
    State(seq(NUM_HEATERS, i requires 0 <= i < NUM_HEATERS => Applied(Effect(s, c, cfg, i), s.h[i])),
          seq(NUM_RTDS, i requires 0 <= i < NUM_RTDS => RtdAfterCommand(s, c, i)),
          GlobalsAfterCommand(s.g, c))
  }

  /** The receiving thread resets its GUI's counter after every message. */
  function HeardFrom(g: Globals, from: Gui): Globals {
    match from
    case Gui1 => g.(heard1 := 0)
    case Gui2 => g.(heard2 := 0)
  }

  // The status thread.

  predicate GuisMissing(g: Globals) {
    && g.heard1 >= GUI_NO_COMMUNICATION_TIME_LIMIT
    && g.heard2 >= GUI_NO_COMMUNICATION_TIME_LIMIT
  }

  function GlobalsAfterStatus(g: Globals, uptime: int): Globals {
    g.(heard1 := U32(g.heard1 + 1), heard2 := U32(g.heard2 + 1), uptime := uptime)
  }

  predicate StatusDisables(g: Globals, uptime: int, ethernetLost: bool) {
    (uptime > TWO_MINUTES_IN_SECONDS && GuisMissing(GlobalsAfterStatus(g, uptime))) || ethernetLost
  }

  // RTD readings.

  predicate ReadsOpen(t: RtdTable, raw: int) {
    raw > t[|t| - 10].count
  }

  predicate ReadsShorted(t: RtdTable, raw: int) {
    raw < t[0].count
  }

  function CheckedOpen(r: Rtd, open: bool): Rtd {
    if !open then r.(isOpen := false, openOneShot := false, secondsOpen := 0)
    else
      var n := U16(r.secondsOpen + 1);
      var late := n > MAX_CONSECUTIVE_SECONDS_ERROR;
      r.(secondsOpen := n, isOpen := r.isOpen || late, openOneShot := r.openOneShot || late)
  }

  function CheckedShorted(r: Rtd, shorted: bool): Rtd {
    if !shorted then r.(isShorted := false, shortedOneShot := false, secondsShorted := 0)
    else
      var n := U16(r.secondsShorted + 1);
      var late := n > MAX_CONSECUTIVE_SECONDS_ERROR;
      r.(secondsShorted := n, isShorted := r.isShorted || late, shortedOneShot := r.shortedOneShot || late)
  }

  function Checked(r: Rtd, t: RtdTable, raw: int): Rtd {
    CheckedShorted(CheckedOpen(r, ReadsOpen(t, raw)), ReadsShorted(t, raw))
  }

  /** The probe is found, by this sample, to have been out of range for too many readings in a row. */
  predicate Faulty(r: Rtd, t: RtdTable, sample: Sample) {
    && sample.Counts?
    && var q := Checked(r, t, sample.raw);
       q.secondsOpen > MAX_CONSECUTIVE_SECONDS_ERROR || q.secondsShorted > MAX_CONSECUTIVE_SECONDS_ERROR
  }

  /** A reading that fails is stored as the narrowed -1 and looked up all the same. */
  function Temperature(t: RtdTable, sample: Sample): int {
    Lookup(t, U16(match sample case NoData => -1 case Counts(raw) => raw))
  }

  /** The out-of-range value of the lookup is taken as an unsigned temperature. */
  predicate HeatsinkIsHot(t: RtdTable, sample: Sample) {
    U32(Temperature(t, sample)) >= HEATSINK_MAX_TEMP
  }

  predicate HeatsinkAlarms(g: Globals, t: RtdTable, sample: Sample, timeLimit: nat) {
    HeatsinkIsHot(t, sample) && U32(g.heatsinkSeconds + 1) >= timeLimit && !g.heatsinkOneShot
  }

  /**
   What a reading of probe `rtd` makes of heater `i`. A faulty probe disables its heater, but it is
   heater 0 whose pin is written: the shelf variables stay 0.
   */
  function HeaterAfterReading(s: State, rtd: nat, sample: Sample, cfg: Config, i: nat): Heater
    requires cfg.Valid() && i < NUM_HEATERS
  {
    var x := s.h[i];
    if rtd < NUM_HEATERS then
      var faulty := Faulty(s.r[rtd], cfg.tables[rtd], sample);
      x.(enabled := x.enabled && !(faulty && i == rtd),
         pin := x.pin && !(faulty && i == 0),
         temp := if i == rtd then I16(Temperature(cfg.tables[rtd], sample)) else x.temp)
    else if rtd == HEATSINK_RTD_INDEX && (Faulty(s.r[rtd], cfg.tables[rtd], sample)
                                          || HeatsinkAlarms(s.g, cfg.tables[rtd], sample, cfg.heatsinkTimeLimit))
    then Disabled(x) else x
  }

  function RtdAfterReading(s: State, rtd: nat, sample: Sample, cfg: Config, i: nat): Rtd
    requires cfg.Valid() && i < NUM_RTDS
  {
    if i == rtd && sample.Counts? then Checked(s.r[i], cfg.tables[i], sample.raw) else s.r[i]
  }

  function GlobalsAfterReading(g: Globals, rtd: nat, sample: Sample, cfg: Config): Globals
    requires cfg.Valid()
  {
    if rtd != HEATSINK_RTD_INDEX then g
    else if HeatsinkIsHot(cfg.tables[rtd], sample)
    then g.(heatsinkSeconds := U32(g.heatsinkSeconds + 1),
            heatsinkOneShot := g.heatsinkOneShot || HeatsinkAlarms(g, cfg.tables[rtd], sample, cfg.heatsinkTimeLimit))
    else g.(heatsinkSeconds := 0, heatsinkOneShot := false)
  }

  // The heater tick.

  /** How many heaters the line voltage allows at once; an unread voltage counts as the highest. */
  function Budget(volts: real): (k: nat)
    ensures k in {8, 9, 10}
  {
    if volts <= 0.0 then 8 else if volts <= 201.0 then 10 else if volts <= 221.0 then 9 else 8
  }

  function StartingIndex(volts: real): nat {
    if volts <= 0.0 then 4 else if volts <= 201.0 then 2 else if volts <= 221.0 then 3 else 4
  }

  predicate TooCold(x: Heater) {
    x.temp < x.setpoint - DELTA_LIMIT_DEGREES
  }

  predicate TooHot(x: Heater) {
    x.temp > x.setpoint + DELTA_LIMIT_DEGREES
  }

  /** The deviation has now lasted too long and has not been reported. */
  predicate Fires(a: Alarm, deviates: bool) {
    deviates && U32(a.seconds + 1) > DELTA_LIMIT_SECONDS && !a.oneShot
  }

  function Counted(a: Alarm, active: bool, deviates: bool): Alarm {
    if !deviates then Alarm(active, a.css, false, 0)
    else Alarm(active, a.css || Fires(a, true), a.oneShot || Fires(a, true), U32(a.seconds + 1))
  }

  /** Alarms are evaluated only after startup, and not while a changed setpoint has yet to be met. */
  predicate Evaluated(x: Heater, complete: bool) {
    x.enabled && complete && !x.setpointChanged
  }

  predicate FiresUnder(x: Heater) {
    Fires(x.undertemp, TooCold(x))
  }

  /** The over-temperature check comes second: it sees what the first one did to `enabled`. */
  predicate CountsOver(x: Heater, cleaning: bool) {
    TooHot(x) && !FiresUnder(x) && !cleaning
  }

  predicate FiresOver(x: Heater, cleaning: bool) {
    Fires(x.overtemp, CountsOver(x, cleaning))
  }

  /** An alarm of either kind goes off, which disables the whole shelf. */
  predicate Trips(x: Heater, complete: bool, cleaning: bool) {
    Evaluated(x, complete) && (FiresUnder(x) || FiresOver(x, cleaning))
  }

  /** The delta loop's own effect on a heater. */
  function Visited(x: Heater, complete: bool, cleaning: bool): Heater {
    if !x.enabled then
      x.(delta := MAX_NEGATIVE_DELTA_TEMP, wasOn := false, isOn := false, pin := false)
    else if !Evaluated(x, complete) then
      x.(delta := x.setpoint - x.temp, wasOn := x.isOn, isOn := false)
    else
      x.(delta := x.setpoint - x.temp, wasOn := x.isOn, isOn := false,
         undertemp := Counted(x.undertemp, TooCold(x), TooCold(x)),
         overtemp := Counted(x.overtemp, TooHot(x), CountsOver(x, cleaning)),
         enabled := !Trips(x, complete, cleaning),
         pin := x.pin && !Trips(x, complete, cleaning))
  }

  /** One iteration of the delta loop. */
  function ScanOne(h: Bank, i: nat, complete: bool, cleaning: bool): Bank
    requires i < NUM_HEATERS
  {
    var g: Bank := h[i := Visited(h[i], complete, cleaning)];
    if Trips(h[i], complete, cleaning) then g[Sibling(i) := Disabled(g[Sibling(i)])] else g
  }

  /** What a heater is when its own iteration starts: a lower heater may have lost its shelf already. */
  function AtVisit(h: Bank, i: nat, complete: bool, cleaning: bool): Heater
    requires i < NUM_HEATERS
  {
    if !IsUpper(i) && Trips(h[i - 1], complete, cleaning) then Disabled(h[i]) else h[i]
  }

  /** An alarm of heater `i`'s shelf goes off in this scan. */
  predicate ShelfTrips(h: Bank, i: nat, complete: bool, cleaning: bool)
    requires i < NUM_HEATERS
  {
    || Trips(AtVisit(h, i, complete, cleaning), complete, cleaning)
    || Trips(AtVisit(h, Sibling(i), complete, cleaning), complete, cleaning)
  }

  /** Heater `i` after the first `n` iterations. */
  function ScannedTo(h: Bank, n: nat, i: nat, complete: bool, cleaning: bool): Heater
    requires n <= NUM_HEATERS && i < NUM_HEATERS
  {
    var start := if IsUpper(i) || i <= n then AtVisit(h, i, complete, cleaning) else h[i];
    if n <= i then start
    else
      var visited := Visited(start, complete, cleaning);
      if IsUpper(i) && i + 1 < n && Trips(AtVisit(h, i + 1, complete, cleaning), complete, cleaning)
      then Disabled(visited) else visited
  }

  function Scan(h: Bank, n: nat, complete: bool, cleaning: bool): Bank
    requires n <= NUM_HEATERS
  {
    seq(NUM_HEATERS, i requires 0 <= i < NUM_HEATERS => ScannedTo(h, n, i, complete, cleaning))
  }

  function Deltas(h: Bank): (d: seq<int>)
    ensures |d| == NUM_HEATERS
  {
    seq(NUM_HEATERS, i requires 0 <= i < NUM_HEATERS => h[i].delta)
  }

  predicate InBand(x: Heater) {
    x.setpoint - SETPOINT_RANGE_PLUS_MINUS <= x.temp <= x.setpoint + SETPOINT_RANGE_PLUS_MINUS
  }

  predicate AtTemperature(x: Heater, upper: bool) {
    x.temp >= if upper then x.setpoint - UPPER_HEATER_MARGIN else x.setpoint
  }

  predicate AllEnabledAtTemperature(h: Bank) {
    forall i | 0 <= i < NUM_HEATERS && h[i].enabled :: AtTemperature(h[i], IsUpper(i))
  }

  predicate SomeEnabled(h: Bank) {
    exists i | 0 <= i < NUM_HEATERS :: h[i].enabled
  }

  /** What the rest of the tick makes of a scanned heater that is, or is not, chosen to be powered. */
  function Resolved(x: Heater, chosen: bool): Heater {
    x.(isOn := chosen, pin := chosen, delta := if chosen then 0 else x.delta,
       setpointChanged := x.setpointChanged && !InBand(x))
  }

  predicate ReachesTemperature(g: Bank) {
    SomeEnabled(g) && AllEnabledAtTemperature(g)
  }

  /** The bank as a regular tick's delta loop leaves it. */
  function TickScan(s: State): Bank {
    Scan(s.h, NUM_HEATERS, s.g.startupComplete, s.g.cleaning)
  }

  /** The choice is by rank: the `k` largest positive deltas, the lower index first among equals. */
  predicate Chosen(s: State, i: nat, k: nat)
    requires i < NUM_HEATERS
  {
    Selected(Deltas(TickScan(s)), i, k)
  }

  /** The order of the startup pass: the lower heaters of slots 1 to 6, then the upper ones of 6, 1, 5, 2, 3, 4. */
  const STARTUP_ORDER: seq<nat> := [1, 3, 5, 7, 9, 11, 10, 0, 8, 2, 4, 6]

  const STARTUP_POSITION: seq<nat> := [7, 0, 9, 1, 10, 2, 11, 3, 8, 4, 6, 5]

  function InOrder(p: nat): (i: nat)
    requires p < NUM_HEATERS
    ensures i < NUM_HEATERS && STARTUP_POSITION[i] == p
  {
    STARTUP_ORDER[p]
  }

  predicate Eligible(x: Heater) {
    x.enabled && x.temp < x.setpoint
  }

  function EligibleInOrder(h: Bank): (b: seq<bool>)
    ensures |b| == NUM_HEATERS
  {
    seq(NUM_HEATERS, p requires 0 <= p < NUM_HEATERS => Eligible(h[InOrder(p)]))
  }

  /** Heater `i` is one of the first `k` eligible heaters of the startup order. */
  predicate StartsFirst(h: Bank, i: nat, k: nat)
    requires i < NUM_HEATERS
  {
    var p := STARTUP_POSITION[i];
    Eligible(h[i]) && Count(EligibleInOrder(h)[..p]) < k
  }

  predicate LeavesStartup(h: Bank, startupTime: nat) {
    AllEnabledAtTemperature(h) || startupTime >= MAX_STARTUP_REACH_SETPOINT_TIME
  }

  /** The tick is one that schedules: it does not return while waiting for the first STARTUP. */
  predicate Schedules(g: Globals) {
    !g.initialStartup || g.startupMessage
  }

  function HeaterAfterTick(s: State, volts: real, i: nat): Heater
    requires i < NUM_HEATERS
  {
    if !Schedules(s.g) then s.h[i]
    else if s.g.initialStartup then
      var on := StartsFirst(s.h, i, Budget(volts));
      s.h[i].(pin := on, isOn := on, wasOn := false)
    else Resolved(TickScan(s)[i], Chosen(s, i, Budget(volts)))
  }

  function GlobalsAfterTick(s: State): Globals {
    if !Schedules(s.g) then s.g
    else if s.g.initialStartup then
      var t := U32(s.g.startupTime + 1);
      s.g.(startupTime := t, initialStartup := !LeavesStartup(s.h, t))
    else
      var complete := s.g.startupComplete || ReachesTemperature(TickScan(s));
      s.g.(startupComplete := complete, startupTime := if complete then 0 else U32(s.g.startupTime + 1))
  }

  // Steps and runs.

  function HeaterAfter(s: State, e: Event, cfg: Config, i: nat): Heater
    requires cfg.Valid() && i < NUM_HEATERS
  {
    match e
    case Commanded(_, c) => Applied(Effect(s, c, cfg, i), s.h[i])
    case Heard(_) => s.h[i]
    case StatusTick(uptime, lost) => if StatusDisables(s.g, uptime, lost) then Disabled(s.h[i]) else s.h[i]
    case Reading(rtd, sample) => HeaterAfterReading(s, rtd, sample, cfg, i)
    case HeaterTick(volts) => HeaterAfterTick(s, volts, i)
    case VoltageSag => Disabled(s.h[i])
  }

  function RtdAfter(s: State, e: Event, cfg: Config, i: nat): Rtd
    requires cfg.Valid() && i < NUM_RTDS
  {
    match e
    case Commanded(_, c) => RtdAfterCommand(s, c, i)
    case Reading(rtd, sample) => RtdAfterReading(s, rtd, sample, cfg, i)
    case _ => s.r[i]
  }

  function GlobalsAfter(s: State, e: Event, cfg: Config): Globals
    requires cfg.Valid()
  {
    match e
    case Commanded(from, c) => HeardFrom(GlobalsAfterCommand(s.g, c), from)
    case Heard(from) => HeardFrom(s.g, from)
    case StatusTick(uptime, _) => GlobalsAfterStatus(s.g, uptime)
    case Reading(rtd, sample) => GlobalsAfterReading(s.g, rtd, sample, cfg)
    case HeaterTick(_) => GlobalsAfterTick(s)
    case VoltageSag => s.g
  }

  function Step(s: State, e: Event, cfg: Config): State
    requires cfg.Valid()
  {
    State(seq(NUM_HEATERS, i requires 0 <= i < NUM_HEATERS => HeaterAfter(s, e, cfg, i)),
          seq(NUM_RTDS, i requires 0 <= i < NUM_RTDS => RtdAfter(s, e, cfg, i)),
          GlobalsAfter(s, e, cfg))
  }

  function Run(s: State, es: seq<Event>, cfg: Config): State
    requires cfg.Valid()
  {
    if es == [] then s else Step(Run(s, es[..|es| - 1], cfg), es[|es| - 1], cfg)
  }

  lemma RunThen(s: State, es: seq<Event>, e: Event, cfg: Config)
    requires cfg.Valid()
    ensures Run(s, es + [e], cfg) == Step(Run(s, es, cfg), e, cfg)
  {
    assert (es + [e])[..|es|] == es;
  }

  /** After initialisation: everything off and disabled at the default setpoints, probes as first read. */
  ghost predicate Initial(s: State) {
    && (forall i | 0 <= i < NUM_HEATERS ::
          var x := s.h[i];
          && x.setpoint == x.saved == DEFAULT_SETPOINT && x.eco == DEFAULT_ECO_MODE_SETPOINT
          && !x.pin && !x.enabled && !x.isOn && !x.wasOn
          && x.undertemp == x.overtemp == QUIET
          && !x.ecoModeOn && !x.ecoModeIsOn && !x.setpointChanged)
    && !s.g.cleaning
    && s.g.initialStartup && !s.g.startupMessage && !s.g.startupComplete && s.g.startupTime == 0
    && s.g.heard1 == s.g.heard2 == 0
  }
}
