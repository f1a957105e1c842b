/** What each command means for its sender: what it sets, where, and what it is answered. */
module Commands {
  import opened HeaterControl
  import opened HeaterTicks
  import opened Modes

  /** Heater `i` after the command. */
  function After(s: State, c: Command, cfg: Config, i: nat): Heater
    requires i < NUM_HEATERS
  {
    Processed(s, c, cfg).h[i]
  }

  // Setpoints.

  /**
   A setpoint command outside cleaning mode whose temperatures lie within the loaded limits sets the
   live and the saved setpoint of both heaters of its slot, in full, and marks the change. Any other
   one changes no heater.
   */
  lemma UpdateSlotSets(s: State, slot: int, t: nat, cfg: Config, i: nat)
    requires cfg.Valid() && i < NUM_HEATERS
    ensures var x := s.h[i];
      After(s, UpdateSlotTempSetpoint(slot, t), cfg, i) ==
        if !s.g.cleaning && cfg.low <= t <= cfg.high && 1 <= slot <= 6 && Reaches(slot, i)
        then x.(setpoint := t, saved := t, setpointChanged := true) else x
  {
    SlotsReachTwoHeaters(slot, i);
  }

  /** The other setpoint command reaches slot 6 by any number that is none. */
  lemma SetHeaterSets(s: State, slot: int, upper: nat, lower: nat, cfg: Config, i: nat)
    requires cfg.Valid() && i < NUM_HEATERS
    ensures var x, t := s.h[i], if i % 2 == 0 then upper else lower;
      After(s, SetHeaterTempSetpoint(slot, upper, lower), cfg, i) ==
        if !s.g.cleaning && cfg.low <= upper <= cfg.high && cfg.low <= lower <= cfg.high && Reaches(slot, i)
        then x.(setpoint := t, saved := t, setpointChanged := true) else x
  {
    SlotsReachTwoHeaters(slot, i);
  }

  /** An eco setpoint is taken from 32 degrees up to heater 0's setpoint; anything else sets 100. */
  lemma SetEcoSets(s: State, t: nat, cfg: Config, i: nat)
    requires cfg.Valid() && i < NUM_HEATERS && s.h[0].setpoint <= 215
    ensures var x := s.h[i];
      After(s, SetEcoModeTemp(t), cfg, i) ==
        if s.g.cleaning then x else x.(eco := if 32 <= t <= s.h[0].setpoint then t else 100)
  {
  }

  lemma OperationMarks(op: Operation, x: Heater)
    ensures var y := Applied(op, x);
      && (y.setpoint != x.setpoint ==> y.setpointChanged)
      && (x.setpointChanged ==> y.setpointChanged)
  {
    match op
    case SetSetpoint(_) =>
    case _ =>
  }

  /** Only commands touch a live setpoint, and any that changes it marks the change. */
  lemma SetpointChangesAreMarked(s: State, e: Event, cfg: Config, i: nat)
    requires cfg.Valid() && i < NUM_HEATERS && HeaterAfter(s, e, cfg, i).setpoint != s.h[i].setpoint
    ensures e.Commanded? && HeaterAfter(s, e, cfg, i).setpointChanged
  {
    if e.Commanded? {
      OperationMarks(Effect(s, e.command, cfg, i), s.h[i]);
    } else {
      OthersKeepSettings(s, e, cfg, i);
    }
  }

  lemma MarkAfterTick(s: State, volts: real, i: nat)
    requires i < NUM_HEATERS
    ensures HeaterAfterTick(s, volts, i).setpointChanged ==
      (s.h[i].setpointChanged && (s.g.initialStartup || !(-5 <= s.h[i].temp - s.h[i].setpoint <= 5)))
  {
    ScanHeater(s.h, i, s.g.startupComplete, s.g.cleaning);
  }

  /** The mark is cleared exactly by a regular tick that finds the heater within 5 degrees of its setpoint. */
  lemma MarkClearsWithinFive(s: State, e: Event, cfg: Config, i: nat)
    requires cfg.Valid() && i < NUM_HEATERS && s.h[i].setpointChanged
    ensures !HeaterAfter(s, e, cfg, i).setpointChanged
       <==> e.HeaterTick? && !s.g.initialStartup && -5 <= s.h[i].temp - s.h[i].setpoint <= 5
  {
    match e
    case Commanded(_, c) => OperationMarks(Effect(s, c, cfg, i), s.h[i]);
    case HeaterTick(volts) => MarkAfterTick(s, volts, i);
    case _ =>
  }

  // Eco and cleaning mode.

  lemma EcoOnSets(s: State, slot: int, cfg: Config, i: nat)
    requires i < NUM_HEATERS
    ensures var x := s.h[i];
      After(s, EcoModeOn(slot), cfg, i) ==
        if !s.g.cleaning && Reaches(slot, i) && !Latched(s.h, i)
        then x.(ecoModeIsOn := true, ecoModeOn := true, saved := x.setpoint, setpoint := x.eco, setpointChanged := true)
        else x
  {
    SlotsReachTwoHeaters(slot, i);
    if Reaches(slot, i) {
      LatchedIsSlot(s.h, slot, i);
    }
  }

  lemma EcoOffSets(s: State, slot: int, cfg: Config, i: nat)
    requires i < NUM_HEATERS
    ensures var x := s.h[i];
      After(s, EcoModeOff(slot), cfg, i) ==
        if Reaches(slot, i) && Latched(s.h, i) then x.(ecoModeOn := false, setpoint := x.saved, setpointChanged := true)
        else x
  {
    SlotsReachTwoHeaters(slot, i);
    if Reaches(slot, i) {
      LatchedIsSlot(s.h, slot, i);
    }
  }

  lemma CleaningSets(s: State, cfg: Config, i: nat)
    requires i < NUM_HEATERS
    ensures var x := s.h[i];
      && After(s, CleaningModeOn, cfg, i) ==
           (if s.g.cleaning then x else x.(saved := x.setpoint, setpoint := 120, setpointChanged := true))
      && After(s, CleaningModeOff, cfg, i) ==
           (if s.g.cleaning then x.(setpoint := x.saved, setpointChanged := true) else x)
  {
  }

  // Enabling and disabling.

  /** Enabling clears every error of the heater and its probe, and its eco flag. */
  function Fresh(x: Heater): Heater {
    x.(enabled := true, undertemp := Alarm(false, false, false, 0), overtemp := Alarm(false, false, false, 0),
       ecoModeOn := false)
  }

  lemma EnablingCommands(s: State, j: int, cfg: Config, i: nat)
    requires i < NUM_HEATERS
    ensures var c := s.g.cleaning;
      && After(s, HeaterOn(j), cfg, i) == (if !c && i == j then Fresh(s.h[i]) else s.h[i])
      && After(s, Startup, cfg, i) == (if c then s.h[i] else Fresh(s.h[i]))
    ensures var c, clear := s.g.cleaning, Rtd(false, false, false, false, 0, 0);
      && Processed(s, HeaterOn(j), cfg).r[i] == (if !c && i == j then clear else s.r[i])
      && Processed(s, Startup, cfg).r[i] == (if c then s.r[i] else clear)
  {
  }

  /** HEATER_OFF takes down its heater, SHUTDOWN and EMERGENCY_STOP all of them, in cleaning mode too. */
  lemma DisablingCommands(s: State, j: int, cfg: Config, i: nat)
    requires i < NUM_HEATERS
    ensures var down := s.h[i].(enabled := false, pin := false);
      && After(s, HeaterOff(j), cfg, i) == (if i == j then down else s.h[i])
      && After(s, ShutdownRequested, cfg, i) == down
      && After(s, EmergencyStop, cfg, i) == down
  {
  }

  // Answers.

  predicate RefusedWhileCleaning(c: Command) {
    match c
    case HeaterOn(_) => true
    case Startup => true
    case UpdateSlotTempSetpoint(_, _) => true
    case SetHeaterTempSetpoint(_, _, _) => true
    case SetEcoModeTemp(_) => true
    case EcoModeOn(_) => true
    case _ => false
  }

  /** A setpoint command with a temperature outside the limits. */
  predicate OutsideLimits(c: Command, cfg: Config) {
    match c
    case UpdateSlotTempSetpoint(_, t) => !(cfg.low <= t <= cfg.high)
    case SetHeaterTempSetpoint(_, upper, lower) => !(cfg.low <= upper <= cfg.high && cfg.low <= lower <= cfg.high)
    case _ => false
  }

  predicate NoSuchHeater(c: Command) {
    match c
    case HeaterOn(i) => !(0 <= i <= 11)
    case HeaterOff(i) => !(0 <= i <= 11)
    case _ => false
  }

  /** Which answer a command gets, each in terms of its sender's request. */
  lemma AnswersMean(s: State, c: Command, cfg: Config)
    ensures var r := Reply(s, c, cfg);
      && (r == Failure <==> (s.g.cleaning && RefusedWhileCleaning(c)) || NoSuchHeater(c) || c == FanCommand(false))
      && (r == BadParameter <==> c == Unrecognised || (!s.g.cleaning && OutsideLimits(c, cfg)))
      && (r == ShutdownPending <==> c == ShutdownRequested)
      && (r == LinkEstablished <==> c == EstablishLink)
      && (r == UnknownCommand <==> c == Unknown)
  {
  }
}
