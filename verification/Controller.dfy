/** The controller's global tables, updated in place by its threads as the source updates them. */
module Controllers {
  import opened HeaterControl
  import opened HeaterThread
  import opened HeaterTicks
  import opened PowerBudget
  import opened TemperatureLookup
  import opened TickPasses
  import opened TopK
  import opened StartupPhase

  class Controller {
    const cfg: Config
    const heaterInfo: array<Heater>
    const rtdMappings: array<Rtd>
    const tempDeltas: array<int>

    var inCleaningMode: bool
    var initialStartup: bool
    var startupMessageReceived: bool
    var startupComplete: bool
    var startupTimeSeconds: nat
    var lastTimeGui1Heard: nat
    var lastTimeGui2Heard: nat
    var systemUptime: int
    var heatsinkOvertempSeconds: nat
    var heatsinkOvertempOneShot: bool

    /** The most pins that have been on after any pin write since this was last set. */
    ghost var peak: nat

    ghost predicate Valid() {
      && cfg.Valid()
      && heaterInfo.Length == tempDeltas.Length == NUM_HEATERS
      && rtdMappings.Length == NUM_RTDS
    }

    ghost function Flags(): Globals
      reads this
    {
      Globals(inCleaningMode, initialStartup, startupMessageReceived, startupComplete, startupTimeSeconds,
              lastTimeGui1Heard, lastTimeGui2Heard, systemUptime, heatsinkOvertempSeconds, heatsinkOvertempOneShot)
    }

    ghost function Abs(): State
      requires Valid()
      reads this, heaterInfo, rtdMappings
    {
      State(heaterInfo[..], rtdMappings[..], Flags())
    }

    constructor (cfg: Config, temperatures: seq<int>, probes: Rtds)
      requires cfg.Valid() && |temperatures| == NUM_HEATERS
      ensures Valid() && this.cfg == cfg && fresh(heaterInfo) && fresh(rtdMappings) && fresh(tempDeltas)
      ensures Initial(Abs()) && Abs().r == probes
      ensures forall i | 0 <= i < NUM_HEATERS :: Abs().h[i].temp == temperatures[i]
    {
      this.cfg := cfg;
      heaterInfo := new Heater[NUM_HEATERS](i requires 0 <= i < NUM_HEATERS =>
        Heater(false, DEFAULT_SETPOINT, DEFAULT_SETPOINT, DEFAULT_ECO_MODE_SETPOINT, temperatures[i],
               false, false, false, QUIET, QUIET, false, false, false, DEFAULT_SETPOINT - temperatures[i]));
      rtdMappings := new Rtd[NUM_RTDS](i requires 0 <= i < NUM_RTDS => probes[i]);
      tempDeltas := new int[NUM_HEATERS](_ => 0);
      inCleaningMode, initialStartup, startupMessageReceived, startupComplete := false, true, false, false;
      startupTimeSeconds, lastTimeGui1Heard, lastTimeGui2Heard, systemUptime := 0, 0, 0, 0;
      heatsinkOvertempSeconds, heatsinkOvertempOneShot := 0, false;
      new;
      assert rtdMappings[..] == probes;
    }

    // Single heaters.

    method EnableDisableHeater(i: int, enabled: bool) returns (ret: int)
      requires Valid()
      modifies heaterInfo, rtdMappings
      ensures ret == if IsHeater(i) then 0 else 1
      ensures forall j | 0 <= j < NUM_HEATERS :: heaterInfo[j] ==
                if j != i then old(heaterInfo[j])
                else if enabled then Revived(old(heaterInfo[j])) else old(heaterInfo[j]).(enabled := false)
      ensures forall j | 0 <= j < NUM_RTDS :: rtdMappings[j] ==
                if j == i && IsHeater(i) && enabled then CLEAR_RTD else old(rtdMappings[j])
    {
      ret := 0;
      if 0 <= i < NUM_HEATERS {
        heaterInfo[i] := heaterInfo[i].(enabled := enabled);
        if enabled {
          heaterInfo[i] := heaterInfo[i].(undertemp := QUIET, overtemp := QUIET, ecoModeOn := false);
          rtdMappings[i] := CLEAR_RTD;
        }
      } else {
        ret := 1;
      }
    }

    method TurnHeaterOnOff(i: int, on: bool) returns (ret: int)
      requires Valid()
      modifies heaterInfo, `peak
      ensures peak == if IsHeater(i) then Max(old(peak), PinsOn(heaterInfo[..])) else old(peak)
      ensures ret == if IsHeater(i) then 0 else 1
      ensures forall j | 0 <= j < NUM_HEATERS :: heaterInfo[j] ==
                if j == i then old(heaterInfo[j]).(pin := on) else old(heaterInfo[j])
      ensures !on ==> PinsOn(heaterInfo[..]) <= PinsOn(old(heaterInfo[..]))
    {
      ret := 0;
      if 0 <= i < NUM_HEATERS {
        heaterInfo[i] := heaterInfo[i].(pin := on);
        peak := Max(peak, PinsOn(heaterInfo[..]));
        if !on {
          FewerPins(old(heaterInfo[..]), heaterInfo[..]);
        }
      } else {
        ret := 1;
      }
    }

    /** Every heater disabled and off: SHUTDOWN drops each pin first, all others clear each flag first. */
    method DisableAll(pinFirst: bool) returns (ret: int)
      requires Valid()
      modifies heaterInfo, rtdMappings, `peak
      ensures ret == 0
      ensures forall j | 0 <= j < NUM_HEATERS :: heaterInfo[j] == Disabled(old(heaterInfo[j]))
      ensures rtdMappings[..] == old(rtdMappings[..])
    {
      ret := 0;
      for i := 0 to NUM_HEATERS
        invariant ret == 0
        invariant forall j | 0 <= j < NUM_HEATERS ::
                    heaterInfo[j] == if j < i then Disabled(old(heaterInfo[j])) else old(heaterInfo[j])
        invariant forall j | 0 <= j < NUM_RTDS :: rtdMappings[j] == old(rtdMappings[j])
      {
        var r1, r2;
        if pinFirst {
          r1 := TurnHeaterOnOff(i, false);
          r2 := EnableDisableHeater(i, false);
        } else {
          r1 := EnableDisableHeater(i, false);
          r2 := TurnHeaterOnOff(i, false);
        }
        ret := ret + r1 + r2;
      }
    }

    // Commands.

    static lemma ProcessedByParts(s: State, c: Command, cfg: Config, t: State)
      requires forall i | 0 <= i < NUM_HEATERS :: t.h[i] == Applied(Effect(s, c, cfg, i), s.h[i])
      requires forall i | 0 <= i < NUM_RTDS :: t.r[i] == RtdAfterCommand(s, c, i)
      requires t.g == GlobalsAfterCommand(s.g, c)
      ensures t == Processed(s, c, cfg)
    {
    }

    method HeaterOnCommand(index: int) returns (response: Response)
      requires Valid()
      modifies this, heaterInfo, rtdMappings
      ensures response == Reply(old(Abs()), HeaterOn(index), cfg)
      ensures Abs() == Processed(old(Abs()), HeaterOn(index), cfg)
    {
      if inCleaningMode {
        response := Failure;
      } else {
        var ret := EnableDisableHeater(index, true);
        response := if ret == 0 then Ok else Failure;
      }
      ProcessedByParts(old(Abs()), HeaterOn(index), cfg, Abs());
    }

    method HeaterOffCommand(index: int) returns (response: Response)
      requires Valid()
      modifies this, heaterInfo, rtdMappings
      ensures response == Reply(old(Abs()), HeaterOff(index), cfg)
      ensures Abs() == Processed(old(Abs()), HeaterOff(index), cfg)
    {
      var r1 := TurnHeaterOnOff(index, false);
      var r2 := EnableDisableHeater(index, false);
      response := if r1 == 0 && r2 == 0 then Ok else Failure;
      ProcessedByParts(old(Abs()), HeaterOff(index), cfg, Abs());
    }

    method ShutdownCommand() returns (response: Response)
      requires Valid()
      modifies this, heaterInfo, rtdMappings
      ensures response == Reply(old(Abs()), ShutdownRequested, cfg)
      ensures Abs() == Processed(old(Abs()), ShutdownRequested, cfg)
    {
      var ret := DisableAll(true);
      response := if ret == 0 then ShutdownPending else Failure;
      ProcessedByParts(old(Abs()), ShutdownRequested, cfg, Abs());
    }

    method EmergencyStopCommand() returns (response: Response)
      requires Valid()
      modifies this, heaterInfo, rtdMappings
      ensures response == Reply(old(Abs()), EmergencyStop, cfg)
      ensures Abs() == Processed(old(Abs()), EmergencyStop, cfg)
    {
      var ret := DisableAll(false);
      response := if ret == 0 then Ok else Failure;
      ProcessedByParts(old(Abs()), EmergencyStop, cfg, Abs());
    }

    method StartupCommand() returns (response: Response)
      requires Valid()
      modifies this, heaterInfo, rtdMappings
      ensures response == Reply(old(Abs()), Startup, cfg)
      ensures Abs() == Processed(old(Abs()), Startup, cfg)
    {
      startupMessageReceived := true;
      if inCleaningMode {
        response := Failure;
      } else {
        var ret := 0;
        for i := 0 to NUM_HEATERS
          invariant ret == 0
          invariant Flags() == old(Flags()).(startupMessage := true)
          invariant forall j | 0 <= j < NUM_HEATERS ::
                      heaterInfo[j] == if j < i then Revived(old(heaterInfo[j])) else old(heaterInfo[j])
          invariant forall j | 0 <= j < NUM_RTDS ::
                      rtdMappings[j] == if j < i then CLEAR_RTD else old(rtdMappings[j])
        {
          var r := EnableDisableHeater(i, true);
          ret := ret + r;
        }
        if ret == 0 {
          response := Ok;
          startupTimeSeconds := 0;
        } else {
          response := Failure;
        }
      }
      ProcessedByParts(old(Abs()), Startup, cfg, Abs());
    }

    method SetSetpointHeater(i: int, setpoint: nat) returns (ret: int)
      requires Valid()
      modifies heaterInfo
      ensures ret == if IsHeater(i) then 0 else 1
      ensures forall j | 0 <= j < NUM_HEATERS :: heaterInfo[j] ==
                if j == i then old(heaterInfo[j]).(setpoint := U16(setpoint), setpointChanged := true)
                else old(heaterInfo[j])
    {
      ret := 0;
      if 0 <= i < NUM_HEATERS {
        heaterInfo[i] := heaterInfo[i].(setpoint := U16(setpoint));
        heaterInfo[i] := heaterInfo[i].(setpointChanged := true);
      } else {
        ret := 1;
      }
    }

    method UpdateSlotCommand(slot: int, temperature: nat) returns (response: Response)
      requires Valid()
      modifies this, heaterInfo
      ensures response == Reply(old(Abs()), UpdateSlotTempSetpoint(slot, temperature), cfg)
      ensures Abs() == Processed(old(Abs()), UpdateSlotTempSetpoint(slot, temperature), cfg)
    {
      if inCleaningMode {
        response := Failure;
      } else if temperature >= cfg.low && temperature <= cfg.high {
        SetSetpointSlot(slot, temperature);
        response := Ok;
      } else {
        response := BadParameter;
      }
      ProcessedByParts(old(Abs()), UpdateSlotTempSetpoint(slot, temperature), cfg, Abs());
    }

    method SetSetpointSlot(slot: int, setpoint: nat)
      requires Valid()
      modifies heaterInfo
      ensures forall i | 0 <= i < NUM_HEATERS ::
                heaterInfo[i] == if 1 <= slot <= 6 && InSlot(i, slot)
                                 then Applied(SetSetpoint(setpoint), old(heaterInfo[i])) else old(heaterInfo[i])
    {
      if 1 <= slot <= 6 {
        var upper := UpperHeater(slot);
        var lower := upper + 1;
        heaterInfo[upper] := heaterInfo[upper].(setpoint := U16(setpoint));
        heaterInfo[lower] := heaterInfo[lower].(setpoint := U16(setpoint));
        heaterInfo[upper] := heaterInfo[upper].(saved := U16(setpoint));
        heaterInfo[lower] := heaterInfo[lower].(saved := U16(setpoint));
        heaterInfo[upper] := heaterInfo[upper].(setpointChanged := true);
        heaterInfo[lower] := heaterInfo[lower].(setpointChanged := true);
      }
    }

    /** The heaters of a slot, each to its own setpoint. */
    method SetSlotHeaters(upper: nat, upperTemp: nat, lowerTemp: nat) returns (ret: int)
      requires Valid() && upper + 1 < NUM_HEATERS
      modifies heaterInfo
      ensures ret == 0
      ensures forall i | 0 <= i < NUM_HEATERS ::
                heaterInfo[i] == if i == upper then Applied(SetSetpoint(upperTemp), old(heaterInfo[i]))
                                 else if i == upper + 1 then Applied(SetSetpoint(lowerTemp), old(heaterInfo[i]))
                                 else old(heaterInfo[i])
    {
      var lower := upper + 1;
      ret := SetSetpointHeater(upper, upperTemp);
      var r := SetSetpointHeater(lower, lowerTemp);
      ret := ret + r;
      heaterInfo[upper] := heaterInfo[upper].(saved := U16(upperTemp));
      heaterInfo[lower] := heaterInfo[lower].(saved := U16(lowerTemp));
    }

    method SetHeaterCommand(slot: int, upperTemp: nat, lowerTemp: nat) returns (response: Response)
      requires Valid()
      modifies this, heaterInfo
      ensures response == Reply(old(Abs()), SetHeaterTempSetpoint(slot, upperTemp, lowerTemp), cfg)
      ensures Abs() == Processed(old(Abs()), SetHeaterTempSetpoint(slot, upperTemp, lowerTemp), cfg)
    {
      if inCleaningMode {
        response := Failure;
      } else if upperTemp >= cfg.low && upperTemp <= cfg.high && lowerTemp >= cfg.low && lowerTemp <= cfg.high {
        var ret := SetSlotHeaters(UpperHeater(slot), upperTemp, lowerTemp);
        response := if ret == 0 then Ok else Failure;
      } else {
        response := BadParameter;
      }
      ProcessedByParts(old(Abs()), SetHeaterTempSetpoint(slot, upperTemp, lowerTemp), cfg, Abs());
    }

    method SetEcoTempCommand(temperature: nat) returns (response: Response)
      requires Valid()
      modifies this, heaterInfo
      ensures response == Reply(old(Abs()), SetEcoModeTemp(temperature), cfg)
      ensures Abs() == Processed(old(Abs()), SetEcoModeTemp(temperature), cfg)
    {
      if inCleaningMode {
        response := Failure;
      } else {
        var newTemp := DEFAULT_ECO_MODE_SETPOINT;
        if temperature >= FIRST_TEMPERATURE_ENTRY && temperature <= heaterInfo[0].setpoint {
          newTemp := U16(temperature);
        }
        for i := 0 to NUM_HEATERS
          invariant Flags() == old(Flags())
          invariant forall j | 0 <= j < NUM_HEATERS ::
                      heaterInfo[j] == if j < i then Applied(SetEco(newTemp), old(heaterInfo[j]))
                                       else old(heaterInfo[j])
        {
          heaterInfo[i] := heaterInfo[i].(eco := newTemp);
        }
        response := Ok;
      }
      ProcessedByParts(old(Abs()), SetEcoModeTemp(temperature), cfg, Abs());
    }

    method EnterEcoMode(upper: nat)
      requires Valid() && upper + 1 < NUM_HEATERS
      modifies heaterInfo
      ensures forall i | 0 <= i < NUM_HEATERS ::
                heaterInfo[i] == if i == upper || i == upper + 1 then Applied(EnterEco, old(heaterInfo[i]))
                                 else old(heaterInfo[i])
    {
      var lower := upper + 1;
      heaterInfo[upper] := heaterInfo[upper].(ecoModeIsOn := true);
      heaterInfo[lower] := heaterInfo[lower].(ecoModeIsOn := true);
      heaterInfo[upper] := heaterInfo[upper].(saved := heaterInfo[upper].setpoint);
      heaterInfo[lower] := heaterInfo[lower].(saved := heaterInfo[lower].setpoint);
      heaterInfo[upper] := heaterInfo[upper].(ecoModeOn := true);
      heaterInfo[lower] := heaterInfo[lower].(ecoModeOn := true);
      heaterInfo[upper] := heaterInfo[upper].(setpoint := heaterInfo[upper].eco, setpointChanged := true);
      heaterInfo[lower] := heaterInfo[lower].(setpoint := heaterInfo[lower].eco, setpointChanged := true);
    }

    method EcoOnCommand(slot: int) returns (response: Response)
      requires Valid()
      modifies this, heaterInfo
      ensures response == Reply(old(Abs()), EcoModeOn(slot), cfg)
      ensures Abs() == Processed(old(Abs()), EcoModeOn(slot), cfg)
    {
      var upper := UpperHeater(slot);
      var lower := upper + 1;
      if inCleaningMode {
        response := Failure;
      } else if heaterInfo[upper].ecoModeIsOn || heaterInfo[lower].ecoModeIsOn {
        response := Ok;
      } else {
        EnterEcoMode(upper);
        response := Ok;
      }
      ProcessedByParts(old(Abs()), EcoModeOn(slot), cfg, Abs());
    }

    method LeaveEcoMode(upper: nat)
      requires Valid() && upper + 1 < NUM_HEATERS
      modifies heaterInfo
      ensures forall i | 0 <= i < NUM_HEATERS ::
                heaterInfo[i] == if i == upper || i == upper + 1 then Applied(LeaveEco, old(heaterInfo[i]))
                                 else old(heaterInfo[i])
    {
      var lower := upper + 1;
      heaterInfo[upper] := heaterInfo[upper].(setpoint := heaterInfo[upper].saved);
      heaterInfo[lower] := heaterInfo[lower].(setpoint := heaterInfo[lower].saved);
      heaterInfo[upper] := heaterInfo[upper].(ecoModeOn := false);
      heaterInfo[lower] := heaterInfo[lower].(ecoModeOn := false);
      heaterInfo[upper] := heaterInfo[upper].(setpointChanged := true);
      heaterInfo[lower] := heaterInfo[lower].(setpointChanged := true);
    }

    method EcoOffCommand(slot: int) returns (response: Response)
      requires Valid()
      modifies this, heaterInfo
      ensures response == Reply(old(Abs()), EcoModeOff(slot), cfg)
      ensures Abs() == Processed(old(Abs()), EcoModeOff(slot), cfg)
    {
      var upper := UpperHeater(slot);
      var lower := upper + 1;
      if heaterInfo[upper].ecoModeIsOn || heaterInfo[lower].ecoModeIsOn {
        LeaveEcoMode(upper);
      }
      response := Ok;
      ProcessedByParts(old(Abs()), EcoModeOff(slot), cfg, Abs());
    }

    method CleaningOnCommand() returns (response: Response)
      requires Valid()
      modifies this, heaterInfo
      ensures response == Reply(old(Abs()), CleaningModeOn, cfg)
      ensures Abs() == Processed(old(Abs()), CleaningModeOn, cfg)
    {
      if !inCleaningMode {
        for i := 0 to NUM_HEATERS
          invariant Flags() == old(Flags())
          invariant forall j | 0 <= j < NUM_HEATERS ::
                      heaterInfo[j] == if j < i then Applied(EnterCleaning, old(heaterInfo[j])) else old(heaterInfo[j])
        {
          heaterInfo[i] := heaterInfo[i].(saved := heaterInfo[i].setpoint);
          heaterInfo[i] := heaterInfo[i].(setpoint := CLEANING_MODE_SETPOINT);
          heaterInfo[i] := heaterInfo[i].(setpointChanged := true);
        }
      }
      response := Ok;
      inCleaningMode := true;
      ProcessedByParts(old(Abs()), CleaningModeOn, cfg, Abs());
    }

    method CleaningOffCommand() returns (response: Response)
      requires Valid()
      modifies this, heaterInfo
      ensures response == Reply(old(Abs()), CleaningModeOff, cfg)
      ensures Abs() == Processed(old(Abs()), CleaningModeOff, cfg)
    {
      if inCleaningMode {
        for i := 0 to NUM_HEATERS
          invariant Flags() == old(Flags())
          invariant forall j | 0 <= j < NUM_HEATERS ::
                      heaterInfo[j] == if j < i then Applied(LeaveCleaning, old(heaterInfo[j])) else old(heaterInfo[j])
        {
          heaterInfo[i] := heaterInfo[i].(setpoint := heaterInfo[i].saved);
          heaterInfo[i] := heaterInfo[i].(setpointChanged := true);
        }
      }
      response := Ok;
      inCleaningMode := false;
      ProcessedByParts(old(Abs()), CleaningModeOff, cfg, Abs());
    }

    method ProcessCommand(c: Command) returns (response: Response)
      requires Valid()
      modifies this, heaterInfo, rtdMappings
      ensures response == Reply(old(Abs()), c, cfg)
      ensures Abs() == Processed(old(Abs()), c, cfg)
    {
      match c {
        case HeaterOn(i) => response := HeaterOnCommand(i);
        case HeaterOff(i) => response := HeaterOffCommand(i);
        case ShutdownRequested => response := ShutdownCommand();
        case EmergencyStop => response := EmergencyStopCommand();
        case Startup => response := StartupCommand();
        case UpdateSlotTempSetpoint(slot, t) => response := UpdateSlotCommand(slot, t);
        case SetHeaterTempSetpoint(slot, upper, lower) => response := SetHeaterCommand(slot, upper, lower);
        case SetEcoModeTemp(t) => response := SetEcoTempCommand(t);
        case EcoModeOn(slot) => response := EcoOnCommand(slot);
        case EcoModeOff(slot) => response := EcoOffCommand(slot);
        case CleaningModeOn => response := CleaningOnCommand();
        case CleaningModeOff => response := CleaningOffCommand();
        case FanCommand(succeeds) =>
          response := if succeeds then Ok else Failure;
          ProcessedByParts(old(Abs()), c, cfg, Abs());
        case Acknowledged => response := Ok; ProcessedByParts(old(Abs()), c, cfg, Abs());
        case EstablishLink => response := LinkEstablished; ProcessedByParts(old(Abs()), c, cfg, Abs());
        case Unknown => response := UnknownCommand; ProcessedByParts(old(Abs()), c, cfg, Abs());
        case Unrecognised => response := BadParameter; ProcessedByParts(old(Abs()), c, cfg, Abs());
      }
    }

    static lemma SteppedByParts(s: State, e: Event, cfg: Config, t: State)
      requires cfg.Valid()
      requires forall i | 0 <= i < NUM_HEATERS :: t.h[i] == HeaterAfter(s, e, cfg, i)
      requires forall i | 0 <= i < NUM_RTDS :: t.r[i] == RtdAfter(s, e, cfg, i)
      requires t.g == GlobalsAfter(s, e, cfg)
      ensures t == Step(s, e, cfg)
    {
    }

    method ResetLastTimeHeard(from: Gui)
      modifies this
      ensures Flags() == HeardFrom(old(Flags()), from)
    {
      match from {
        case Gui1 => lastTimeGui1Heard := 0;
        case Gui2 => lastTimeGui2Heard := 0;
      }
    }

    /** One message of a command thread: the command is processed, then its sender counts as heard. */
    method CommandReceived(from: Gui, c: Command) returns (response: Response)
      requires Valid()
      modifies this, heaterInfo, rtdMappings
      ensures response == Reply(old(Abs()), c, cfg)
      ensures Abs() == Step(old(Abs()), Commanded(from, c), cfg)
    {
      response := ProcessCommand(c);
      ResetLastTimeHeard(from);
      SteppedByParts(old(Abs()), Commanded(from, c), cfg, Abs());
    }

    /** A heartbeat or a time synchronisation message. */
    method HeartbeatReceived(from: Gui)
      requires Valid()
      modifies this
      ensures Abs() == Step(old(Abs()), Heard(from), cfg)
    {
      ResetLastTimeHeard(from);
      SteppedByParts(old(Abs()), Heard(from), cfg, Abs());
    }

    method LineVoltageSagged()
      requires Valid()
      modifies heaterInfo, rtdMappings, `peak
      ensures Abs() == Step(old(Abs()), VoltageSag, cfg)
    {
      var _ := DisableAll(false);
      SteppedByParts(old(Abs()), VoltageSag, cfg, Abs());
    }

    method StatusPublisherTick(uptime: int, ethernetLost: bool)
      requires Valid()
      modifies this, heaterInfo, rtdMappings
      ensures Abs() == Step(old(Abs()), StatusTick(uptime, ethernetLost), cfg)
    {
      lastTimeGui1Heard := U32(lastTimeGui1Heard + 1);
      lastTimeGui2Heard := U32(lastTimeGui2Heard + 1);
      systemUptime := uptime;
      if uptime > TWO_MINUTES_IN_SECONDS {
        if lastTimeGui1Heard >= GUI_NO_COMMUNICATION_TIME_LIMIT
           && lastTimeGui2Heard >= GUI_NO_COMMUNICATION_TIME_LIMIT {
          var _ := DisableAll(false);
        }
      }
      if ethernetLost {
        var _ := DisableAll(false);
      }
      SteppedByParts(old(Abs()), StatusTick(uptime, ethernetLost), cfg, Abs());
    }

    // RTD readings.

    /** The counting of one kind of probe error; says whether it has now lasted too long. */
    method CountOpen(i: nat, open: bool) returns (late: bool)
      requires Valid() && i < NUM_RTDS
      modifies rtdMappings
      ensures rtdMappings[..] == old(rtdMappings[..])[i := CheckedOpen(old(rtdMappings[i]), open)]
      ensures late <==> open && CheckedOpen(old(rtdMappings[i]), open).secondsOpen > MAX_CONSECUTIVE_SECONDS_ERROR
    {
      late := false;
      if open {
        rtdMappings[i] := rtdMappings[i].(secondsOpen := U16(rtdMappings[i].secondsOpen + 1));
        if rtdMappings[i].secondsOpen > MAX_CONSECUTIVE_SECONDS_ERROR {
          late := true;
          rtdMappings[i] := rtdMappings[i].(isOpen := true, openOneShot := true);
        }
      } else {
        rtdMappings[i] := rtdMappings[i].(isOpen := false, openOneShot := false, secondsOpen := 0);
      }
    }

    method CountShorted(i: nat, shorted: bool) returns (late: bool)
      requires Valid() && i < NUM_RTDS
      modifies rtdMappings
      ensures rtdMappings[..] == old(rtdMappings[..])[i := CheckedShorted(old(rtdMappings[i]), shorted)]
      ensures late <==>
                shorted && CheckedShorted(old(rtdMappings[i]), shorted).secondsShorted > MAX_CONSECUTIVE_SECONDS_ERROR
    {
      late := false;
      if shorted {
        rtdMappings[i] := rtdMappings[i].(secondsShorted := U16(rtdMappings[i].secondsShorted + 1));
        if rtdMappings[i].secondsShorted > MAX_CONSECUTIVE_SECONDS_ERROR {
          late := true;
          rtdMappings[i] := rtdMappings[i].(isShorted := true, shortedOneShot := true);
        }
      } else {
        rtdMappings[i] := rtdMappings[i].(isShorted := false, shortedOneShot := false, secondsShorted := 0);
      }
    }

    /** The fault branch: the heater is disabled, and the pins of both shelf variables, still 0, are dropped. */
    method DisableFaulty(i: nat)
      requires Valid() && i < NUM_HEATERS
      modifies heaterInfo, `peak
      ensures forall j | 0 <= j < NUM_HEATERS :: heaterInfo[j] ==
                old(heaterInfo[j]).(enabled := old(heaterInfo[j]).enabled && j != i,
                                    pin := old(heaterInfo[j]).pin && j != 0)
    {
      var lowerHeaterThisShelf, upperHeaterThisShelf := 0, 0;
      heaterInfo[i] := heaterInfo[i].(enabled := false);
      var _ := TurnHeaterOnOff(lowerHeaterThisShelf, false);
      var _ := TurnHeaterOnOff(upperHeaterThisShelf, false);
    }

    method ReadHeaterRtd(i: nat, raw: int)
      requires Valid() && i < NUM_HEATERS
      modifies heaterInfo, rtdMappings, `peak
      ensures rtdMappings[..] == old(rtdMappings[..])[i := Checked(old(rtdMappings[i]), cfg.tables[i], raw)]
      ensures var faulty := Faulty(old(rtdMappings[i]), cfg.tables[i], Counts(raw));
        forall j | 0 <= j < NUM_HEATERS :: heaterInfo[j] ==
          old(heaterInfo[j]).(enabled := old(heaterInfo[j]).enabled && !(faulty && j == i),
                              pin := old(heaterInfo[j]).pin && !(faulty && j == 0))
    {
      var table := cfg.tables[i];
      var late := CountOpen(i, raw > table[|table| - 10].count);
      if late {
        DisableFaulty(i);
      }
      var lateShorted := CountShorted(i, raw < table[0].count);
      if lateShorted {
        DisableFaulty(i);
      }
    }

    method ReadHeatsinkRtd(raw: int)
      requires Valid()
      modifies heaterInfo, rtdMappings, `peak
      ensures rtdMappings[..] == old(rtdMappings[..])[HEATSINK_RTD_INDEX :=
                Checked(old(rtdMappings[HEATSINK_RTD_INDEX]), cfg.tables[HEATSINK_RTD_INDEX], raw)]
      ensures var faulty := Faulty(old(rtdMappings[HEATSINK_RTD_INDEX]), cfg.tables[HEATSINK_RTD_INDEX], Counts(raw));
        forall j | 0 <= j < NUM_HEATERS ::
          heaterInfo[j] == if faulty then Disabled(old(heaterInfo[j])) else old(heaterInfo[j])
    {
      var table := cfg.tables[HEATSINK_RTD_INDEX];
      var late := CountOpen(HEATSINK_RTD_INDEX, raw > table[|table| - 10].count);
      if late {
        var _ := DisableAll(false);
      }
      var lateShorted := CountShorted(HEATSINK_RTD_INDEX, raw < table[0].count);
      if lateShorted {
        var _ := DisableAll(false);
      }
    }

    method HeatsinkTemperature(temperature: int)
      requires Valid()
      modifies this, heaterInfo, rtdMappings
      ensures rtdMappings[..] == old(rtdMappings[..])
      ensures var hot := U32(temperature) >= HEATSINK_MAX_TEMP;
        var g := old(Flags());
        var alarms := hot && U32(g.heatsinkSeconds + 1) >= cfg.heatsinkTimeLimit && !g.heatsinkOneShot;
        && (Flags() == if hot then g.(heatsinkSeconds := U32(g.heatsinkSeconds + 1),
                                      heatsinkOneShot := g.heatsinkOneShot || alarms)
                       else g.(heatsinkSeconds := 0, heatsinkOneShot := false))
        && forall j | 0 <= j < NUM_HEATERS ::
             heaterInfo[j] == if alarms then Disabled(old(heaterInfo[j])) else old(heaterInfo[j])
    {
      if U32(temperature) >= HEATSINK_MAX_TEMP {
        heatsinkOvertempSeconds := U32(heatsinkOvertempSeconds + 1);
        if heatsinkOvertempSeconds >= cfg.heatsinkTimeLimit && !heatsinkOvertempOneShot {
          heatsinkOvertempOneShot := true;
          var _ := DisableAll(false);
        }
      } else {
        heatsinkOvertempOneShot := false;
        heatsinkOvertempSeconds := 0;
      }
    }

    /** The count of a sample, as it is stored: a read that fails leaves -1. */
    static function RawCount(sample: Sample): int {
      match sample case NoData => -1 case Counts(raw) => raw
    }

    method HeaterProbeReading(i: nat, sample: Sample)
      requires Valid() && i < NUM_HEATERS
      modifies heaterInfo, rtdMappings, `peak
      ensures Abs() == Step(old(Abs()), Reading(i, sample), cfg)
    {
      if sample.Counts? {
        ReadHeaterRtd(i, sample.raw);
      }
      var temperature := LookupTempFromRawCounts(cfg.tables[i], U16(RawCount(sample)));
      heaterInfo[i] := heaterInfo[i].(temp := I16(temperature));
      SteppedByParts(old(Abs()), Reading(i, sample), cfg, Abs());
    }

    method HeatsinkProbeReading(sample: Sample)
      requires Valid()
      modifies this, heaterInfo, rtdMappings
      ensures Abs() == Step(old(Abs()), Reading(HEATSINK_RTD_INDEX, sample), cfg)
    {
      if sample.Counts? {
        ReadHeatsinkRtd(sample.raw);
      }
      var temperature := LookupTempFromRawCounts(cfg.tables[HEATSINK_RTD_INDEX], U16(RawCount(sample)));
      HeatsinkTemperature(temperature);
      SteppedByParts(old(Abs()), Reading(HEATSINK_RTD_INDEX, sample), cfg, Abs());
    }

    /** One probe of the reading thread's round; the ambient probe, at index 13, touches none of this. */
    method RtdReading(i: nat, sample: Sample)
      requires Valid()
      modifies this, heaterInfo, rtdMappings
      ensures Abs() == Step(old(Abs()), Reading(i, sample), cfg)
    {
      if i < NUM_HEATERS {
        HeaterProbeReading(i, sample);
      } else if i == HEATSINK_RTD_INDEX {
        HeatsinkProbeReading(sample);
      } else {
        SteppedByParts(old(Abs()), Reading(i, sample), cfg, Abs());
      }
    }

    // The heater tick.

    // Updates that leave the pins alone.

    method MarkDisabled(i: nat)
      requires Valid() && i < NUM_HEATERS
      modifies heaterInfo
      ensures forall j | 0 <= j < NUM_HEATERS ::
                heaterInfo[j] == if j == i then old(heaterInfo[j]).(enabled := false) else old(heaterInfo[j])
      ensures PinsOn(heaterInfo[..]) == PinsOn(old(heaterInfo[..]))
    {
      heaterInfo[i] := heaterInfo[i].(enabled := false);
      assert Pins(heaterInfo[..]) == Pins(old(heaterInfo[..]));
    }

    method SetAlarms(i: nat, undertemp: Alarm, overtemp: Alarm)
      requires Valid() && i < NUM_HEATERS
      modifies heaterInfo
      ensures forall j | 0 <= j < NUM_HEATERS :: heaterInfo[j] ==
                if j == i then old(heaterInfo[j]).(undertemp := undertemp, overtemp := overtemp) else old(heaterInfo[j])
      ensures PinsOn(heaterInfo[..]) == PinsOn(old(heaterInfo[..]))
    {
      heaterInfo[i] := heaterInfo[i].(undertemp := undertemp);
      heaterInfo[i] := heaterInfo[i].(overtemp := overtemp);
      assert Pins(heaterInfo[..]) == Pins(old(heaterInfo[..]));
    }

    /** An alarm: the heater and the other one of its shelf are disabled and turned off. */
    method DisableShelf(i: nat)
      requires Valid() && i < NUM_HEATERS
      modifies heaterInfo, `peak
      ensures PinsOn(heaterInfo[..]) <= PinsOn(old(heaterInfo[..]))
      ensures peak <= Max(old(peak), PinsOn(old(heaterInfo[..])))
      ensures heaterInfo[i] == Disabled(old(heaterInfo[i]))
      ensures heaterInfo[Sibling(i)] == Disabled(old(heaterInfo[Sibling(i)]))
      ensures forall j | 0 <= j < NUM_HEATERS && j != i && j != Sibling(i) :: heaterInfo[j] == old(heaterInfo[j])
    {
      MarkDisabled(i);
      var lowerHeaterThisShelf, upperHeaterThisShelf;
      if !IsUpper(i) {
        upperHeaterThisShelf := i - 1;
        lowerHeaterThisShelf := i;
        MarkDisabled(i - 1);
      } else {
        lowerHeaterThisShelf := i + 1;
        upperHeaterThisShelf := i;
        MarkDisabled(i + 1);
      }
      var _ := TurnHeaterOnOff(lowerHeaterThisShelf, false);
      var _ := TurnHeaterOnOff(upperHeaterThisShelf, false);
    }

    /** The counting of one kind of alarm; says whether it goes off now. */
    static method CountAlarm(before: Alarm, deviates: bool) returns (a: Alarm, fires: bool)
      ensures a == Counted(before, before.active, deviates)
      ensures fires == Fires(before, deviates)
    {
      a, fires := before, false;
      if deviates {
        a := a.(seconds := U32(a.seconds + 1));
        if a.seconds > DELTA_LIMIT_SECONDS && !a.oneShot {
          a := a.(oneShot := true, css := true);
          fires := true;
        }
      } else {
        a := a.(oneShot := false, seconds := 0);
      }
    }

    method CheckUndertemp(i: nat)
      requires Valid() && i < NUM_HEATERS && heaterInfo[i].enabled
      modifies heaterInfo, `peak
      ensures PinsOn(heaterInfo[..]) <= PinsOn(old(heaterInfo[..]))
      ensures peak <= Max(old(peak), PinsOn(old(heaterInfo[..])))
      ensures var x := old(heaterInfo[i]);
        var fires := Fires(x.undertemp, x.undertemp.active);
        && heaterInfo[i] == x.(undertemp := Counted(x.undertemp, x.undertemp.active, x.undertemp.active),
                               enabled := !fires, pin := x.pin && !fires)
        && heaterInfo[Sibling(i)] == if fires then Disabled(old(heaterInfo[Sibling(i)]))
                                     else old(heaterInfo[Sibling(i)])
      ensures forall j | 0 <= j < NUM_HEATERS && j != i && j != Sibling(i) :: heaterInfo[j] == old(heaterInfo[j])
    {
      var alarm, fires := CountAlarm(heaterInfo[i].undertemp, heaterInfo[i].undertemp.active && heaterInfo[i].enabled);
      SetAlarms(i, alarm, heaterInfo[i].overtemp);
      if fires {
        DisableShelf(i);
      }
    }

    method CheckOvertemp(i: nat)
      requires Valid() && i < NUM_HEATERS
      modifies heaterInfo, `peak
      ensures PinsOn(heaterInfo[..]) <= PinsOn(old(heaterInfo[..]))
      ensures peak <= Max(old(peak), PinsOn(old(heaterInfo[..])))
      ensures var x := old(heaterInfo[i]);
        var counts := x.overtemp.active && x.enabled && !inCleaningMode;
        var fires := Fires(x.overtemp, counts);
        && heaterInfo[i] == x.(overtemp := Counted(x.overtemp, x.overtemp.active, counts),
                               enabled := x.enabled && !fires, pin := x.pin && !fires)
        && heaterInfo[Sibling(i)] == if fires then Disabled(old(heaterInfo[Sibling(i)]))
                                     else old(heaterInfo[Sibling(i)])
      ensures forall j | 0 <= j < NUM_HEATERS && j != i && j != Sibling(i) :: heaterInfo[j] == old(heaterInfo[j])
    {
      var counts := heaterInfo[i].overtemp.active && heaterInfo[i].enabled && !inCleaningMode;
      var alarm, fires := CountAlarm(heaterInfo[i].overtemp, counts);
      SetAlarms(i, heaterInfo[i].undertemp, alarm);
      if fires {
        DisableShelf(i);
      }
    }

    /** The limit checks of an evaluated heater, the under-temperature one first. */
    method CheckAlarms(i: nat)
      requires Valid() && i < NUM_HEATERS && heaterInfo[i].enabled
      modifies heaterInfo, `peak
      ensures PinsOn(heaterInfo[..]) <= PinsOn(old(heaterInfo[..]))
      ensures peak <= Max(old(peak), PinsOn(old(heaterInfo[..])))
      ensures var x := old(heaterInfo[i]);
        var fires := FiresUnder(x) || FiresOver(x, inCleaningMode);
        && heaterInfo[i] == x.(undertemp := Counted(x.undertemp, TooCold(x), TooCold(x)),
                               overtemp := Counted(x.overtemp, TooHot(x), CountsOver(x, inCleaningMode)),
                               enabled := !fires, pin := x.pin && !fires)
        && heaterInfo[Sibling(i)] == if fires then Disabled(old(heaterInfo[Sibling(i)]))
                                     else old(heaterInfo[Sibling(i)])
      ensures forall j | 0 <= j < NUM_HEATERS && j != i && j != Sibling(i) :: heaterInfo[j] == old(heaterInfo[j])
    {
      var cold := heaterInfo[i].temp < heaterInfo[i].setpoint - DELTA_LIMIT_DEGREES;
      var hot := heaterInfo[i].temp > heaterInfo[i].setpoint + DELTA_LIMIT_DEGREES;
      SetAlarms(i, heaterInfo[i].undertemp.(active := cold), heaterInfo[i].overtemp.(active := hot));
      CheckUndertemp(i);
      CheckOvertemp(i);
    }

    method RecordDelta(i: nat, delta: int, wasOn: bool)
      requires Valid() && i < NUM_HEATERS
      modifies heaterInfo, tempDeltas
      ensures forall j | 0 <= j < NUM_HEATERS :: heaterInfo[j] ==
                if j == i then old(heaterInfo[j]).(delta := delta, wasOn := wasOn, isOn := false)
                else old(heaterInfo[j])
      ensures tempDeltas[..] == old(tempDeltas[..])[i := delta]
      ensures PinsOn(heaterInfo[..]) <= PinsOn(old(heaterInfo[..]))
    {
      heaterInfo[i] := heaterInfo[i].(delta := delta);
      tempDeltas[i] := heaterInfo[i].delta;
      heaterInfo[i] := heaterInfo[i].(wasOn := wasOn);
      heaterInfo[i] := heaterInfo[i].(isOn := false);
      FewerPins(old(heaterInfo[..]), heaterInfo[..]);
    }

    /** An iteration of the delta loop. */
    method VisitHeater(i: nat)
      requires Valid() && i < NUM_HEATERS
      modifies heaterInfo, tempDeltas, `peak
      ensures peak <= Max(old(peak), PinsOn(old(heaterInfo[..])))
      ensures heaterInfo[i] == Visited(old(heaterInfo[i]), startupComplete, inCleaningMode)
      ensures heaterInfo[Sibling(i)] == if Trips(old(heaterInfo[i]), startupComplete, inCleaningMode)
                                        then Disabled(old(heaterInfo[Sibling(i)])) else old(heaterInfo[Sibling(i)])
      ensures forall j | 0 <= j < NUM_HEATERS && j != i && j != Sibling(i) :: heaterInfo[j] == old(heaterInfo[j])
      ensures tempDeltas[..] == old(tempDeltas[..])[i := heaterInfo[i].delta]
    {
      if !heaterInfo[i].enabled {
        RecordDelta(i, MAX_NEGATIVE_DELTA_TEMP, false);
        var _ := TurnHeaterOnOff(i, false);
      } else {
        RecordDelta(i, heaterInfo[i].setpoint - heaterInfo[i].temp, heaterInfo[i].isOn);
        if startupComplete && !heaterInfo[i].setpointChanged {
          CheckAlarms(i);
        }
      }
    }

    static lemma VisitedInPlace(h: Bank, i: nat, complete: bool, cleaning: bool, k: Bank)
      requires i < NUM_HEATERS && k[i] == Visited(h[i], complete, cleaning)
      requires k[Sibling(i)] == if Trips(h[i], complete, cleaning) then Disabled(h[Sibling(i)]) else h[Sibling(i)]
      requires forall j | 0 <= j < NUM_HEATERS && j != i && j != Sibling(i) :: k[j] == h[j]
      ensures k == ScanOne(h, i, complete, cleaning)
    {
    }

    method DeltaLoop()
      requires Valid()
      modifies heaterInfo, tempDeltas, `peak
      ensures peak <= Max(old(peak), PinsOn(old(heaterInfo[..])))
      ensures heaterInfo[..] == Scan(old(heaterInfo[..]), NUM_HEATERS, startupComplete, inCleaningMode)
      ensures tempDeltas[..] == Deltas(heaterInfo[..])
    {
      ScanNothing(heaterInfo[..], startupComplete, inCleaningMode);
      for i := 0 to NUM_HEATERS
        invariant heaterInfo[..] == Scan(old(heaterInfo[..]), i, startupComplete, inCleaningMode)
        invariant forall j | 0 <= j < i :: tempDeltas[j] == heaterInfo[j].delta
        invariant peak <= Max(old(peak), PinsOn(old(heaterInfo[..])))
      {
        ScanTurnsOff(old(heaterInfo[..]), i, startupComplete, inCleaningMode);
        ScanOneMore(old(heaterInfo[..]), i, startupComplete, inCleaningMode);
        ScanOneDeltas(heaterInfo[..], i, startupComplete, inCleaningMode);
        ghost var before := heaterInfo[..];
        VisitHeater(i);
        VisitedInPlace(before, i, startupComplete, inCleaningMode, heaterInfo[..]);
      }
    }

    static lemma ScanTurnsOff(h: Bank, n: nat, complete: bool, cleaning: bool)
      requires n <= NUM_HEATERS
      ensures PinsOn(Scan(h, n, complete, cleaning)) <= PinsOn(h)
    {
      FewerPins(h, Scan(h, n, complete, cleaning));
    }

    static lemma ScanOneDeltas(h: Bank, i: nat, complete: bool, cleaning: bool)
      requires i < NUM_HEATERS
      ensures forall j | 0 <= j < NUM_HEATERS && j != i :: ScanOne(h, i, complete, cleaning)[j].delta == h[j].delta
    {
    }

    /**
     Matches the sorted deltas from `startingIndex` on back to their heaters, and marks these. The
     comparison of the two totals is there, as in the source, but never what ends a search.
     */
    method MatchDeltas(startingIndex: nat, maxHeatersOn: nat)
      requires Valid() && startingIndex + maxHeatersOn == NUM_HEATERS
      requires Sorted(tempDeltas[..]) && multiset(tempDeltas[..]) == multiset(Deltas(heaterInfo[..]))
      modifies heaterInfo
      ensures heaterInfo[..] == MarkedBank(old(heaterInfo[..]), maxHeatersOn)
    {
      ghost var d, sorted := Deltas(heaterInfo[..]), tempDeltas[..];
      var totalHeatersOn: nat := 0;
      for j := startingIndex to NUM_HEATERS
        invariant totalHeatersOn <= j - startingIndex
        invariant forall k | 0 <= k < NUM_HEATERS ::
                    heaterInfo[k] == Marked(old(heaterInfo[k]), Taken(d, sorted[startingIndex..j], k))
      {
        assert totalHeatersOn < maxHeatersOn;
        totalHeatersOn := MatchDelta(startingIndex, j, maxHeatersOn, totalHeatersOn, old(heaterInfo[..]));
      }
      assert sorted[startingIndex..NUM_HEATERS] == sorted[|sorted| - maxHeatersOn..];
      forall k | 0 <= k < NUM_HEATERS
        ensures heaterInfo[k] == Marked(old(heaterInfo[k]), Selected(d, k, maxHeatersOn))
      {
        TakenIsSelected(d, sorted, maxHeatersOn, k);
      }
    }

    /** The search for the heater of one delta, among those not yet marked. */
    method MatchDelta(startingIndex: nat, j: nat, maxHeatersOn: nat, totalHeatersOn: nat, ghost h: Bank)
      returns (total: nat)
      requires Valid() && startingIndex <= j < NUM_HEATERS && totalHeatersOn < maxHeatersOn
      requires multiset(tempDeltas[..]) == multiset(Deltas(h))
      requires forall k | 0 <= k < NUM_HEATERS ::
                 heaterInfo[k] == Marked(h[k], Taken(Deltas(h), tempDeltas[..][startingIndex..j], k))
      modifies heaterInfo
      ensures total <= totalHeatersOn + 1
      ensures forall k | 0 <= k < NUM_HEATERS ::
                heaterInfo[k] == Marked(h[k], Taken(Deltas(h), tempDeltas[..][startingIndex..j + 1], k))
    {
      ghost var d, sorted := Deltas(h), tempDeltas[..];
      ghost var target := 0;
      if 0 < tempDeltas[j] {
        target := NextTaken(d, sorted, startingIndex, j);
      } else {
        NothingTaken(d, sorted, startingIndex, j);
      }
      total := totalHeatersOn;
      var found := false;
      var i := 0;
      while i < NUM_HEATERS && !found && total < maxHeatersOn
        invariant 0 <= i <= NUM_HEATERS
        invariant !found ==> total == totalHeatersOn && (0 < tempDeltas[j] ==> i <= target)
        invariant found ==> total == totalHeatersOn + 1 && 0 < tempDeltas[j]
        invariant forall k | 0 <= k < NUM_HEATERS :: heaterInfo[k] ==
                    Marked(h[k], Taken(d, sorted[startingIndex..j], k) || (found && k == target))
      {
        if tempDeltas[j] == heaterInfo[i].delta && tempDeltas[j] > 0 {
          assert d[i] == tempDeltas[j] && i == target;
          heaterInfo[i] := heaterInfo[i].(isOn := true);
          heaterInfo[i] := heaterInfo[i].(delta := 0);
          total := total + 1;
          found := true;
        }
        i := i + 1;
      }
    }

    method TurnOffPass()
      requires Valid()
      modifies heaterInfo, `peak
      ensures peak <= Max(old(peak), PinsOn(old(heaterInfo[..])))
      ensures heaterInfo[..] == Partially(old(heaterInfo[..]), NUM_HEATERS, TurnedOff)
    {
      for i := 0 to NUM_HEATERS
        invariant forall j | 0 <= j < NUM_HEATERS ::
                    heaterInfo[j] == if j < i then TurnedOff(old(heaterInfo[j])) else old(heaterInfo[j])
        invariant peak <= Max(old(peak), PinsOn(old(heaterInfo[..])))
      {
        if heaterInfo[i].wasOn && !heaterInfo[i].isOn {
          var _ := TurnHeaterOnOff(i, false);
          FewerPins(old(heaterInfo[..]), heaterInfo[..]);
        }
      }
    }

    method TurnOnPass()
      requires Valid()
      modifies heaterInfo, `peak
      ensures heaterInfo[..] == Partially(old(heaterInfo[..]), NUM_HEATERS, TurnedOn)
      ensures PinsAreOn(old(heaterInfo[..])) ==> peak <= Max(old(peak), Count(Ons(old(heaterInfo[..]))))
    {
      for i := 0 to NUM_HEATERS
        invariant forall j | 0 <= j < NUM_HEATERS ::
                    heaterInfo[j] == if j < i then TurnedOn(old(heaterInfo[j])) else old(heaterInfo[j])
        invariant PinsAreOn(old(heaterInfo[..])) ==> peak <= Max(old(peak), Count(Ons(old(heaterInfo[..]))))
      {
        if heaterInfo[i].isOn {
          var _ := TurnHeaterOnOff(i, true);
        } else {
          var _ := TurnHeaterOnOff(i, false);
        }
        if PinsAreOn(old(heaterInfo[..])) {
          CountIsMonotone(Pins(heaterInfo[..]), Ons(old(heaterInfo[..])));
        }
      }
    }

    method CountHeaters() returns (enabled: nat, atTemperature: nat)
      requires Valid()
      ensures enabled == EnabledCount(heaterInfo[..], NUM_HEATERS)
      ensures atTemperature == AtTemperatureCount(heaterInfo[..], NUM_HEATERS)
    {
      enabled, atTemperature := 0, 0;
      for i := 0 to NUM_HEATERS
        invariant enabled == EnabledCount(heaterInfo[..], i)
        invariant atTemperature == AtTemperatureCount(heaterInfo[..], i)
      {
        var x := heaterInfo[i];
        if x.enabled {
          enabled := enabled + 1;
        }
        if x.enabled && IsUpper(i) && x.temp >= x.setpoint - UPPER_HEATER_MARGIN {
          atTemperature := atTemperature + 1;
        }
        if x.enabled && !IsUpper(i) && x.temp >= x.setpoint {
          atTemperature := atTemperature + 1;
        }
      }
    }

    method SettleSetpoints()
      requires Valid()
      modifies heaterInfo
      ensures heaterInfo[..] == SettledBank(old(heaterInfo[..]))
    {
      for i := 0 to NUM_HEATERS
        invariant forall j | 0 <= j < NUM_HEATERS ::
                    heaterInfo[j] == if j < i then SettledHeater(old(heaterInfo[j])) else old(heaterInfo[j])
      {
        if heaterInfo[i].temp >= heaterInfo[i].setpoint - SETPOINT_RANGE_PLUS_MINUS
           && heaterInfo[i].temp <= heaterInfo[i].setpoint + SETPOINT_RANGE_PLUS_MINUS {
          heaterInfo[i] := heaterInfo[i].(setpointChanged := false);
        }
      }
    }

    method FinishRegularTick()
      requires Valid()
      modifies this, heaterInfo
      ensures peak == old(peak)
      ensures heaterInfo[..] == SettledBank(old(heaterInfo[..]))
      ensures Flags() == SettledGlobals(old(heaterInfo[..]), old(Flags()))
    {
      var enabled, atTemperature := CountHeaters();
      CountsAgreeIffAllAtTemperature(heaterInfo[..]);
      SettleSetpoints();
      if enabled != 0 && enabled == atTemperature {
        startupComplete := true;
        initialStartup := false;
      }
      if startupComplete {
        startupTimeSeconds := 0;
      } else {
        startupTimeSeconds := U32(startupTimeSeconds + 1);
      }
    }

    method HeatersAtStartup(maxHeatersOn: nat)
      requires Valid()
      modifies this, heaterInfo
      ensures heaterInfo[..] == LitUpTo(old(heaterInfo[..]), NUM_HEATERS, maxHeatersOn)
      ensures Flags() == old(Flags()).(initialStartup :=
                old(initialStartup) && !LeavesStartup(heaterInfo[..], startupTimeSeconds))
      ensures peak <= Max(old(peak), Max(PinsOn(old(heaterInfo[..])), maxHeatersOn))
    {
      AllHeatersOff();
      LightInOrder(maxHeatersOn, old(heaterInfo[..]));
      var enabled, atTemperature := CountHeaters();
      CountsAgreeIffAllAtTemperature(heaterInfo[..]);
      if enabled == atTemperature || startupTimeSeconds >= MAX_STARTUP_REACH_SETPOINT_TIME {
        initialStartup := false;
      }
    }

    method AllHeatersOff()
      requires Valid()
      modifies heaterInfo, `peak
      ensures peak <= Max(old(peak), PinsOn(old(heaterInfo[..])))
      ensures heaterInfo[..] == Partially(old(heaterInfo[..]), NUM_HEATERS, Cleared)
    {
      for i := 0 to NUM_HEATERS
        invariant forall j | 0 <= j < NUM_HEATERS ::
                    heaterInfo[j] == if j < i then Cleared(old(heaterInfo[j])) else old(heaterInfo[j])
        invariant peak <= Max(old(peak), PinsOn(old(heaterInfo[..])))
      {
        var _ := TurnHeaterOnOff(i, false);
        FewerPins(old(heaterInfo[..]), heaterInfo[..]);
        heaterInfo[i] := heaterInfo[i].(isOn := false);
        heaterInfo[i] := heaterInfo[i].(wasOn := false);
      }
    }

    /** From the cleared bank on: one heater after the other, in the fixed order, while there is room. */
    method LightInOrder(maxHeatersOn: nat, ghost h: Bank)
      requires Valid() && heaterInfo[..] == Partially(h, NUM_HEATERS, Cleared)
      modifies heaterInfo, `peak
      ensures heaterInfo[..] == LitUpTo(h, NUM_HEATERS, maxHeatersOn)
      ensures peak <= Max(old(peak), maxHeatersOn)
    {
      LitNothing(h, maxHeatersOn);
      var numHeatersOn := 0;
      for p := 0 to NUM_HEATERS
        invariant heaterInfo[..] == LitUpTo(h, p, maxHeatersOn)
        invariant numHeatersOn == LitCount(h, p, maxHeatersOn)
        invariant peak <= Max(old(peak), maxHeatersOn)
      {
        LitOneMore(h, p, maxHeatersOn);
        LitPins(h, p + 1, maxHeatersOn);
        numHeatersOn := LightIfEligible(InOrder(p), numHeatersOn, maxHeatersOn);
      }
    }

    /** The block that the startup algorithm repeats for each heater of its order. */
    method LightIfEligible(i: nat, numHeatersOn: nat, maxHeatersOn: nat) returns (n: nat)
      requires Valid() && i < NUM_HEATERS
      modifies heaterInfo, `peak
      ensures peak <= Max(old(peak), PinsOn(heaterInfo[..]))
      ensures var light := numHeatersOn < maxHeatersOn && Eligible(old(heaterInfo[i]));
        && n == (if light then numHeatersOn + 1 else numHeatersOn)
        && heaterInfo[..] == if light then old(heaterInfo[..])[i := Lit(old(heaterInfo[i]))] else old(heaterInfo[..])
    {
      n := numHeatersOn;
      if numHeatersOn < maxHeatersOn && heaterInfo[i].enabled && heaterInfo[i].temp < heaterInfo[i].setpoint {
        var _ := TurnHeaterOnOff(i, true);
        ghost var written := heaterInfo[..];
        heaterInfo[i] := heaterInfo[i].(wasOn := heaterInfo[i].isOn);
        heaterInfo[i] := heaterInfo[i].(isOn := true);
        n := n + 1;
        assert heaterInfo[..] == old(heaterInfo[..])[i := Lit(old(heaterInfo[i]))];
        FewerPins(heaterInfo[..], written);
      }
    }

    /** The delta loop, the sort and the matching: what is to be on is marked, no pin is turned on. */
    method ChooseHeaters(startingIndex: nat, maxHeatersOn: nat)
      requires Valid() && startingIndex + maxHeatersOn == NUM_HEATERS
      modifies heaterInfo, tempDeltas, `peak
      ensures heaterInfo[..] ==
        MarkedBank(Scan(old(heaterInfo[..]), NUM_HEATERS, startupComplete, inCleaningMode), maxHeatersOn)
      ensures peak <= Max(old(peak), PinsOn(old(heaterInfo[..])))
    {
      DeltaLoop();
      SelectionSort(tempDeltas);
      MatchDeltas(startingIndex, maxHeatersOn);
    }

    /** The two passes: heaters that are to go off go off before any goes on. */
    method DriveHeaters()
      requires Valid()
      modifies heaterInfo, `peak
      ensures heaterInfo[..] == Passed(old(heaterInfo[..]))
      ensures PinsWereOn(old(heaterInfo[..])) ==>
                peak <= Max(old(peak), Max(PinsOn(old(heaterInfo[..])), Count(Ons(old(heaterInfo[..])))))
    {
      OffPassKeepsMarks(heaterInfo[..]);
      TurnOffPass();
      TurnOnPass();
    }

    static predicate PinsWereOn(h: Bank) {
      forall i | 0 <= i < NUM_HEATERS :: h[i].pin ==> h[i].wasOn
    }

    static lemma OffPassKeepsMarks(h: Bank)
      ensures var off := Partially(h, NUM_HEATERS, TurnedOff);
        Ons(off) == Ons(h) && (PinsWereOn(h) ==> PinsAreOn(off))
    {
      assert forall i | 0 <= i < NUM_HEATERS :: Partially(h, NUM_HEATERS, TurnedOff)[i] == TurnedOff(h[i]);
    }

    /** What the passes start from: pins on only where heaters were, and marks within the budget. */
    static lemma MarksWithinBudget(h: Bank, k: nat, complete: bool, cleaning: bool)
      requires k <= NUM_HEATERS
      ensures var marked := MarkedBank(Scan(h, NUM_HEATERS, complete, cleaning), k);
        && PinsOn(marked) <= PinsOn(h)
        && Count(Ons(marked)) <= k
        && (PinsAreOn(h) ==> PinsWereOn(marked))
    {
      var g := Scan(h, NUM_HEATERS, complete, cleaning);
      var marked := MarkedBank(g, k);
      forall i | 0 <= i < NUM_HEATERS ensures ScannedFrom(h[i], g[i]) {
        ScanHeater(h, i, complete, cleaning);
      }
      MarksAreSelected(g, k);
      FewerPins(h, marked);
    }

    static lemma MarksAreSelected(g: Bank, k: nat)
      requires k <= NUM_HEATERS && forall i | 0 <= i < NUM_HEATERS :: !g[i].isOn
      ensures Count(Ons(MarkedBank(g, k))) <= k
    {
      assert Ons(MarkedBank(g, k)) == Selection(Deltas(g), k);
      SelectionCount(Deltas(g), k);
    }

    method RegularAlgorithm(startingIndex: nat, maxHeatersOn: nat)
      requires Valid() && startingIndex + maxHeatersOn == NUM_HEATERS
      modifies this, heaterInfo, tempDeltas
      ensures var on := Passed(MarkedBank(TickScan(old(Abs())), maxHeatersOn));
        Abs() == State(SettledBank(on), old(Abs()).r, SettledGlobals(on, old(Flags())))
      ensures PinsAreOn(old(heaterInfo[..])) ==>
                peak <= Max(old(peak), Max(PinsOn(old(heaterInfo[..])), maxHeatersOn))
    {
      MarksWithinBudget(heaterInfo[..], maxHeatersOn, startupComplete, inCleaningMode);
      ChooseHeaters(startingIndex, maxHeatersOn);
      DriveHeaters();
      FinishRegularTick();
    }

    /** A tick of the startup phase that does not wait for the first STARTUP. */
    method StartupTick(volts: real)
      requires Valid() && initialStartup && startupMessageReceived
      modifies this, heaterInfo
      ensures Abs() == Step(old(Abs()), HeaterTick(volts), cfg)
      ensures peak <= Max(old(peak), Max(PinsOn(old(heaterInfo[..])), Budget(volts)))
    {
      startupTimeSeconds := U32(startupTimeSeconds + 1);
      HeatersAtStartup(Budget(volts));
      StartupPasses(old(Abs()), volts, cfg);
    }

    method RegularTick(volts: real)
      requires Valid() && !initialStartup
      modifies this, heaterInfo, tempDeltas
      ensures Abs() == Step(old(Abs()), HeaterTick(volts), cfg)
      ensures PinsAreOn(old(heaterInfo[..])) ==>
                peak <= Max(old(peak), Max(PinsOn(old(heaterInfo[..])), Budget(volts)))
    {
      RegularAlgorithm(StartingIndex(volts), Budget(volts));
      RegularPasses(old(Abs()), volts, cfg);
    }

    /** The once-a-second tick of the heater thread, at the given line voltage. */
    method RunHeaterAlgorithm(volts: real)
      requires Valid()
      modifies this, heaterInfo, tempDeltas
      ensures Abs() == Step(old(Abs()), HeaterTick(volts), cfg)
      ensures PinsAreOn(old(heaterInfo[..])) ==> peak <= Max(PinsOn(old(heaterInfo[..])), Budget(volts))
    {
      peak := PinsOn(heaterInfo[..]);
      if initialStartup && !startupMessageReceived {
        SteppedByParts(old(Abs()), HeaterTick(volts), cfg, Abs());
      } else if initialStartup {
        StartupTick(volts);
      } else {
        RegularTick(volts);
      }
    }
  }

  // The setpoint limits.

  datatype FileContents = Unreadable | Number(value: int)

  function LimitOr(file: FileContents, default: nat): nat {
    match file case Unreadable => default case Number(v) => U16(v)
  }

  /**
   Whatever the two files hold, the limits loaded are proper and within the defaults. A limit that
   its default bounds is replaced by it alone; limits that still cross are replaced together.
   */
  method GetSetpointLimits(lowFile: FileContents, highFile: FileContents) returns (low: nat, high: nat)
    ensures DEFAULT_SETPOINT_LOW_LIMIT <= low < high <= DEFAULT_SETPOINT_HIGH_LIMIT
    ensures var l, h := LimitOr(lowFile, DEFAULT_SETPOINT_LOW_LIMIT), LimitOr(highFile, DEFAULT_SETPOINT_HIGH_LIMIT);
      var crossed := l >= h || l >= DEFAULT_SETPOINT_HIGH_LIMIT || h <= DEFAULT_SETPOINT_LOW_LIMIT;
      && (crossed ==> low == DEFAULT_SETPOINT_LOW_LIMIT && high == DEFAULT_SETPOINT_HIGH_LIMIT)
      && (!crossed ==> (low == l || (l < DEFAULT_SETPOINT_LOW_LIMIT && low == DEFAULT_SETPOINT_LOW_LIMIT))
                       && (high == h || (h > DEFAULT_SETPOINT_HIGH_LIMIT && high == DEFAULT_SETPOINT_HIGH_LIMIT)))
    ensures forall l, h | 150 <= l < h <= 215 && lowFile == Number(l) && highFile == Number(h) :: low == l && high == h
    ensures forall l | 150 <= l < 215 && lowFile == Number(l) && highFile == Unreadable :: low == l && high == 215
    ensures forall h | 150 < h <= 215 && lowFile == Unreadable && highFile == Number(h) :: low == 150 && high == h
    ensures lowFile == highFile == Unreadable ==> low == 150 && high == 215
  {
    low, high := LimitOr(lowFile, DEFAULT_SETPOINT_LOW_LIMIT), LimitOr(highFile, DEFAULT_SETPOINT_HIGH_LIMIT);
    if low < DEFAULT_SETPOINT_LOW_LIMIT {
      low := DEFAULT_SETPOINT_LOW_LIMIT;
    }
    if high > DEFAULT_SETPOINT_HIGH_LIMIT {
      high := DEFAULT_SETPOINT_HIGH_LIMIT;
    }
    if high <= low || low >= high {
      low := DEFAULT_SETPOINT_LOW_LIMIT;
      high := DEFAULT_SETPOINT_HIGH_LIMIT;
    }
  }
}
