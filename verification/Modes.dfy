/** Setpoints over whole runs: their range, cleaning mode, and eco mode. */
module Modes {
  import opened HeaterControl
  import opened HeaterTicks
  import opened Supervision

  /** Only commands touch setpoints and the eco flags. */
  lemma OthersKeepSettings(s: State, e: Event, cfg: Config, i: nat)
    requires cfg.Valid() && i < NUM_HEATERS && !e.Commanded?
    ensures var x, y := s.h[i], HeaterAfter(s, e, cfg, i);
      && y.setpoint == x.setpoint && y.saved == x.saved && y.eco == x.eco
      && y.ecoModeOn == x.ecoModeOn && y.ecoModeIsOn == x.ecoModeIsOn
    ensures GlobalsAfter(s, e, cfg).cleaning == s.g.cleaning
  {
    if e.HeaterTick? {
      TickHeater(s, e.volts, i);
    }
  }

  lemma CleaningAfter(s: State, e: Event, cfg: Config)
    requires cfg.Valid()
    ensures GlobalsAfter(s, e, cfg).cleaning ==
      if e.Commanded? && e.command == CleaningModeOn then true
      else if e.Commanded? && e.command == CleaningModeOff then false
      else s.g.cleaning
  {
  }

  // The range of setpoints.

  predicate InSetpointRange(t: nat) {
    32 <= t <= 215
  }

  predicate SetpointsInRange(x: Heater) {
    InSetpointRange(x.setpoint) && InSetpointRange(x.saved) && InSetpointRange(x.eco)
  }

  predicate OperationInRange(op: Operation) {
    match op
    case SetSetpoint(t) => InSetpointRange(t)
    case SetEco(t) => InSetpointRange(t)
    case _ => true
  }

  lemma EffectInRange(s: State, c: Command, cfg: Config, i: nat)
    requires cfg.Valid() && SetpointsInRange(s.h[0])
    ensures OperationInRange(Effect(s, c, cfg, i))
  {
  }

  lemma AppliedInRange(op: Operation, x: Heater)
    requires SetpointsInRange(x) && OperationInRange(op)
    ensures SetpointsInRange(Applied(op, x))
    ensures op.SetSetpoint? ==> Applied(op, x).setpoint == Applied(op, x).saved == op.t
  {
  }

  lemma StepInRange(s: State, e: Event, cfg: Config, i: nat)
    requires cfg.Valid() && i < NUM_HEATERS
    requires SetpointsInRange(s.h[0]) && SetpointsInRange(s.h[i])
    ensures SetpointsInRange(HeaterAfter(s, e, cfg, i))
  {
    if e.Commanded? {
      EffectInRange(s, e.command, cfg, i);
      AppliedInRange(Effect(s, e.command, cfg, i), s.h[i]);
    } else {
      OthersKeepSettings(s, e, cfg, i);
    }
  }

  /** In every reachable state all live, saved and eco setpoints are between 32 and 215 degrees. */
  lemma {:induction false} SetpointsStayInRange(s: State, es: seq<Event>, cfg: Config)
    requires cfg.Valid() && Initial(s)
    ensures forall i | 0 <= i < NUM_HEATERS :: SetpointsInRange(Run(s, es, cfg).h[i])
  {
    if es != [] {
      var last := |es| - 1;
      SetpointsStayInRange(s, es[..last], cfg);
      forall i | 0 <= i < NUM_HEATERS ensures SetpointsInRange(Run(s, es, cfg).h[i]) {
        StepInRange(Run(s, es[..last], cfg), es[last], cfg, i);
      }
    }
  }

  /** An accepted setpoint command stores, in 16 bits, exactly the temperature that it carries. */
  lemma AcceptedSetpointIsStored(s: State, c: Command, cfg: Config, i: nat)
    requires cfg.Valid() && i < NUM_HEATERS && Effect(s, c, cfg, i).SetSetpoint?
    ensures var x := Applied(Effect(s, c, cfg, i), s.h[i]);
      && x.setpoint == x.saved
      && match c
         case UpdateSlotTempSetpoint(_, t) => x.setpoint == t
         case SetHeaterTempSetpoint(_, upper, lower) => x.setpoint == if IsUpper(i) then upper else lower
         case _ => false
  {
  }

  // Cleaning mode.

  ghost predicate NoCommand(es: seq<Event>, c: Command) {
    forall e | e in es :: !(e.Commanded? && e.command == c)
  }

  lemma CleaningStep(s: State, e: Event, cfg: Config, i: nat)
    requires cfg.Valid() && i < NUM_HEATERS && s.g.cleaning
    requires !(e.Commanded? && e.command == CleaningModeOff)
    ensures GlobalsAfter(s, e, cfg).cleaning
    ensures HeaterAfter(s, e, cfg, i).saved == s.h[i].saved
    ensures HeaterAfter(s, e, cfg, i).enabled ==> s.h[i].enabled
  {
    CleaningAfter(s, e, cfg);
    OnlyCommandsEnable(s, e, cfg, i);
    if !e.Commanded? {
      OthersKeepSettings(s, e, cfg, i);
    }
  }

  lemma {:induction false} CleaningRun(s: State, es: seq<Event>, cfg: Config, i: nat)
    requires cfg.Valid() && i < NUM_HEATERS && s.g.cleaning && NoCommand(es, CleaningModeOff)
    ensures var t := Run(s, es, cfg);
      && t.g.cleaning && t.h[i].saved == s.h[i].saved
      && (t.h[i].enabled ==> s.h[i].enabled)
  {
    if es != [] {
      var last := |es| - 1;
      assert es[last] in es;
      CleaningRun(s, es[..last], cfg, i);
      CleaningStep(Run(s, es[..last], cfg), es[last], cfg, i);
    }
  }

  lemma CleaningBegins(s: State, g: Gui, cfg: Config, i: nat) returns (on: State)
    requires cfg.Valid() && i < NUM_HEATERS && !s.g.cleaning
    ensures on == Step(s, Commanded(g, CleaningModeOn), cfg)
    ensures on.g.cleaning && on.h[i] == Applied(EnterCleaning, s.h[i])
  {
    on := Step(s, Commanded(g, CleaningModeOn), cfg);
  }

  lemma CleaningEnds(s: State, g: Gui, cfg: Config, i: nat) returns (off: State)
    requires cfg.Valid() && i < NUM_HEATERS && s.g.cleaning
    ensures off == Step(s, Commanded(g, CleaningModeOff), cfg)
    ensures !off.g.cleaning && off.h[i] == Applied(LeaveCleaning, s.h[i])
  {
    off := Step(s, Commanded(g, CleaningModeOff), cfg);
  }

  /**
   Cleaning mode, then anything at all but the command that ends it, then that command: every
   setpoint is back, and no heater is enabled that was not before.
   */
  lemma CleaningRoundTrip(s: State, first: Gui, es: seq<Event>, second: Gui, cfg: Config, i: nat)
    requires cfg.Valid() && i < NUM_HEATERS && !s.g.cleaning && NoCommand(es, CleaningModeOff)
    ensures var on := Step(s, Commanded(first, CleaningModeOn), cfg);
      var off := Step(Run(on, es, cfg), Commanded(second, CleaningModeOff), cfg);
      && !off.g.cleaning
      && off.h[i].setpoint == s.h[i].setpoint
      && (off.h[i].enabled ==> s.h[i].enabled)
  {
    var on := CleaningBegins(s, first, cfg, i);
    CleaningRun(on, es, cfg, i);
    var _ := CleaningEnds(Run(on, es, cfg), second, cfg, i);
  }

  // The setpoint while cleaning.

  /** The heaters that a slot number reaches: two to a slot, and those of slot 6 for any number that is none. */
  predicate Reaches(slot: int, i: nat) {
    if 1 <= slot <= 6 then i == 2 * slot - 2 || i == 2 * slot - 1 else i == 10 || i == 11
  }

  lemma SlotsReachTwoHeaters(slot: int, i: nat)
    ensures InSlot(i, slot) <==> Reaches(slot, i)
  {
  }

  predicate LeavesEco(e: Event, i: nat) {
    e.Commanded? && e.command.EcoModeOff? && Reaches(e.command.slot, i)
  }

  /** The slot of heater `i` has been in eco mode. */
  predicate Latched(h: Bank, i: nat)
    requires i < NUM_HEATERS
  {
    h[i].ecoModeIsOn || h[Sibling(i)].ecoModeIsOn
  }

  lemma LatchedIsSlot(h: Bank, slot: int, i: nat)
    requires i < NUM_HEATERS && Reaches(slot, i)
    ensures SlotIsEco(h, slot) <==> Latched(h, i)
  {
  }

  lemma CleaningSetpointStep(s: State, e: Event, cfg: Config, i: nat)
    requires cfg.Valid() && i < NUM_HEATERS && s.g.cleaning
    requires !(e.Commanded? && e.command == CleaningModeOff)
    ensures var x, y := s.h[i], HeaterAfter(s, e, cfg, i);
      && y.setpoint == (if LeavesEco(e, i) && Latched(s.h, i) then x.saved else x.setpoint)
      && y.ecoModeIsOn == x.ecoModeIsOn
  {
    if !e.Commanded? {
      OthersKeepSettings(s, e, cfg, i);
    } else if e.command.EcoModeOff? {
      SlotsReachTwoHeaters(e.command.slot, i);
      if Reaches(e.command.slot, i) {
        LatchedIsSlot(s.h, e.command.slot, i);
      }
    }
  }

  ghost predicate HasLeftEco(es: seq<Event>, i: nat) {
    exists e | e in es :: LeavesEco(e, i)
  }

  lemma {:induction false} CleaningLatch(s: State, es: seq<Event>, cfg: Config, i: nat)
    requires cfg.Valid() && i < NUM_HEATERS && s.g.cleaning && NoCommand(es, CleaningModeOff)
    ensures Run(s, es, cfg).h[i].ecoModeIsOn == s.h[i].ecoModeIsOn
  {
    if es != [] {
      var last := |es| - 1;
      assert es[last] in es;
      CleaningLatch(s, es[..last], cfg, i);
      CleaningRun(s, es[..last], cfg, i);
      CleaningSetpointStep(Run(s, es[..last], cfg), es[last], cfg, i);
    }
  }

  lemma HasLeftEcoNext(es: seq<Event>, e: Event, i: nat)
    ensures HasLeftEco(es + [e], i) <==> HasLeftEco(es, i) || LeavesEco(e, i)
  {
    assert e in es + [e];
    assert forall x | x in es :: x in es + [e];
  }

  lemma {:induction false} CleaningSetpointRun(s: State, es: seq<Event>, cfg: Config, i: nat)
    requires cfg.Valid() && i < NUM_HEATERS && s.g.cleaning && NoCommand(es, CleaningModeOff)
    ensures Run(s, es, cfg).h[i].setpoint ==
      if Latched(s.h, i) && HasLeftEco(es, i) then s.h[i].saved else s.h[i].setpoint
  {
    if es != [] {
      var front, e := es[..|es| - 1], es[|es| - 1];
      assert e in es && es == front + [e];
      CleaningSetpointRun(s, front, cfg, i);
      CleaningRun(s, front, cfg, i);
      CleaningLatch(s, front, cfg, i);
      CleaningLatch(s, front, cfg, Sibling(i));
      CleaningSetpointStep(Run(s, front, cfg), e, cfg, i);
      HasLeftEcoNext(front, e, i);
    }
  }

  /**
   From CLEANING_ON, at every point until CLEANING_OFF, a heater's setpoint is 120 degrees; or its
   original one, exactly if an ECO_OFF has since reached its slot and that had been in eco mode before.
   */
  lemma CleaningSetpointIs120(s: State, g: Gui, es: seq<Event>, cfg: Config, i: nat)
    requires cfg.Valid() && i < NUM_HEATERS && !s.g.cleaning && NoCommand(es, CleaningModeOff)
    ensures var t := Run(Step(s, Commanded(g, CleaningModeOn), cfg), es, cfg);
      t.h[i].setpoint == if Latched(s.h, i) && HasLeftEco(es, i) then s.h[i].setpoint else 120
  {
    var on := CleaningBegins(s, g, cfg, i);
    var _ := CleaningBegins(s, g, cfg, Sibling(i));
    CleaningSetpointRun(on, es, cfg, i);
  }

  // Mode consistency.

  /** Outside cleaning and eco mode a heater works at its saved setpoint. */
  predicate Consistent(s: State, i: nat)
    requires i < NUM_HEATERS
  {
    s.g.cleaning || s.h[i].ecoModeOn || s.h[i].setpoint == s.h[i].saved
  }

  /** The event enables a heater that is still working at its eco setpoint. */
  predicate RevivesFromEco(s: State, e: Event, i: nat)
    requires i < NUM_HEATERS
  {
    Enables(s, e, i) && s.h[i].ecoModeOn && s.h[i].setpoint != s.h[i].saved
  }

  /** Enabling clears the eco flag without restoring the setpoint; nothing else breaks consistency. */
  lemma ConsistencyStep(s: State, e: Event, cfg: Config, i: nat)
    requires cfg.Valid() && i < NUM_HEATERS && Consistent(s, i)
    ensures Consistent(Step(s, e, cfg), i) <==> !RevivesFromEco(s, e, i)
  {
    CleaningAfter(s, e, cfg);
    if !e.Commanded? {
      OthersKeepSettings(s, e, cfg, i);
    }
  }

  lemma RunStep(s: State, es: seq<Event>, cfg: Config, n: nat)
    requires cfg.Valid() && n < |es|
    ensures Run(s, es[..n + 1], cfg) == Step(Run(s, es[..n], cfg), es[n], cfg)
  {
    assert es[..n + 1][..n] == es[..n];
  }

  lemma ConsistentNext(s: State, es: seq<Event>, cfg: Config, i: nat, n: nat)
    requires cfg.Valid() && i < NUM_HEATERS && n < |es| && Consistent(Run(s, es[..n], cfg), i)
    ensures Consistent(Run(s, es[..n + 1], cfg), i) <==> !RevivesFromEco(Run(s, es[..n], cfg), es[n], i)
  {
    RunStep(s, es, cfg, n);
    ConsistencyStep(Run(s, es[..n], cfg), es[n], cfg, i);
  }

  ghost predicate NeverRevivesFromEco(s: State, es: seq<Event>, cfg: Config, i: nat)
    requires cfg.Valid() && i < NUM_HEATERS
  {
    forall n | 0 <= n < |es| :: !RevivesFromEco(Run(s, es[..n], cfg), es[n], i)
  }

  lemma {:induction false} ConsistentUpTo(s: State, es: seq<Event>, cfg: Config, i: nat, n: nat)
    requires cfg.Valid() && i < NUM_HEATERS && n <= |es|
    requires Consistent(s, i) && NeverRevivesFromEco(s, es, cfg, i)
    ensures Consistent(Run(s, es[..n], cfg), i)
  {
    if 0 < n {
      ConsistentUpTo(s, es, cfg, i, n - 1);
      ConsistentNext(s, es, cfg, i, n - 1);
    }
  }

  /** A run is consistent throughout iff it never enables a heater that is at its eco setpoint. */
  lemma ConsistentIffNeverRevivedFromEco(s: State, es: seq<Event>, cfg: Config, i: nat)
    requires cfg.Valid() && i < NUM_HEATERS && Consistent(s, i)
    ensures (forall n | 0 <= n <= |es| :: Consistent(Run(s, es[..n], cfg), i)) <==> NeverRevivesFromEco(s, es, cfg, i)
  {
    if NeverRevivesFromEco(s, es, cfg, i) {
      forall n | 0 <= n <= |es| ensures Consistent(Run(s, es[..n], cfg), i) {
        ConsistentUpTo(s, es, cfg, i, n);
      }
    } else {
      var n :| 0 <= n < |es| && RevivesFromEco(Run(s, es[..n], cfg), es[n], i);
      if Consistent(Run(s, es[..n], cfg), i) {
        ConsistentNext(s, es, cfg, i, n);
      }
    }
  }

  /** A run that does break it: eco mode for slot 1, then heater 0 is turned on. */
  lemma EcoThenHeaterOnIsInconsistent(s: State, g: Gui, cfg: Config)
    requires cfg.Valid() && Initial(s)
    ensures var t := Step(Step(s, Commanded(g, EcoModeOn(1)), cfg), Commanded(g, HeaterOn(0)), cfg);
      && !Consistent(t, 0)
      && t.h[0].setpoint == DEFAULT_ECO_MODE_SETPOINT && t.h[0].saved == DEFAULT_SETPOINT
  {
  }

  // Eco mode.

  /** Slots do not overlap, so the eco flag of a heater in a slot is the flag of that slot. */
  lemma SameSlotIsEco(s: State, slot: int, i: nat)
    requires i < NUM_HEATERS && InSlot(i, slot) && s.h[i].ecoModeIsOn
    ensures forall other | InSlot(i, other) :: SlotIsEco(s.h, other)
  {
  }

  lemma EcoLatchStep(s: State, e: Event, cfg: Config, i: nat)
    requires cfg.Valid() && i < NUM_HEATERS && s.h[i].ecoModeIsOn
    ensures HeaterAfter(s, e, cfg, i).ecoModeIsOn
  {
    if !e.Commanded? {
      OthersKeepSettings(s, e, cfg, i);
    }
  }

  lemma {:induction false} EcoLatchNeverClears(s: State, es: seq<Event>, cfg: Config, i: nat)
    requires cfg.Valid() && i < NUM_HEATERS && s.h[i].ecoModeIsOn
    ensures Run(s, es, cfg).h[i].ecoModeIsOn
  {
    if es != [] {
      var last := |es| - 1;
      EcoLatchNeverClears(s, es[..last], cfg, i);
      EcoLatchStep(Run(s, es[..last], cfg), es[last], cfg, i);
    }
  }

  /** The commands that write a saved setpoint once eco mode has been entered. */
  predicate Stores(s: State, e: Event, cfg: Config, i: nat) {
    && e.Commanded?
    && var op := Effect(s, e.command, cfg, i);
       op.SetSetpoint? || op.EnterCleaning?
  }

  /** What they store: the temperature of an accepted setpoint command, or what is live when cleaning begins. */
  function Stored(s: State, e: Event, cfg: Config, i: nat): nat
    requires i < NUM_HEATERS && Stores(s, e, cfg, i)
  {
    match Effect(s, e.command, cfg, i)
    case SetSetpoint(t) => U16(t)
    case EnterCleaning => s.h[i].setpoint
  }

  lemma OperationStores(op: Operation, x: Heater)
    requires !op.EnterEco?
    ensures Applied(op, x).saved ==
      match op case SetSetpoint(t) => U16(t) case EnterCleaning => x.setpoint case _ => x.saved
    ensures Applied(op, x).ecoModeIsOn == x.ecoModeIsOn
  {
  }

  lemma StoreStep(s: State, e: Event, cfg: Config, slot: int, i: nat)
    requires cfg.Valid() && i < NUM_HEATERS && InSlot(i, slot) && s.h[i].ecoModeIsOn
    ensures HeaterAfter(s, e, cfg, i).ecoModeIsOn
    ensures HeaterAfter(s, e, cfg, i).saved == if Stores(s, e, cfg, i) then Stored(s, e, cfg, i) else s.h[i].saved
  {
    if e.Commanded? {
      assert !Effect(s, e.command, cfg, i).EnterEco? by { SameSlotIsEco(s, slot, i); }
      OperationStores(Effect(s, e.command, cfg, i), s.h[i]);
    } else {
      OthersKeepSettings(s, e, cfg, i);
    }
  }

  /** An event that replaces the saved setpoint by another one. */
  predicate LosesSaved(s: State, e: Event, cfg: Config, i: nat)
    requires i < NUM_HEATERS
  {
    Stores(s, e, cfg, i) && Stored(s, e, cfg, i) != s.h[i].saved
  }

  ghost predicate NeverLosesSaved(s: State, es: seq<Event>, cfg: Config, i: nat)
    requires cfg.Valid() && i < NUM_HEATERS
  {
    forall n | 0 <= n < |es| :: !LosesSaved(Run(s, es[..n], cfg), es[n], cfg, i)
  }

  lemma {:induction false} SavedUpTo(s: State, es: seq<Event>, cfg: Config, slot: int, i: nat, n: nat)
    requires cfg.Valid() && i < NUM_HEATERS && InSlot(i, slot) && s.h[i].ecoModeIsOn
    requires n <= |es| && NeverLosesSaved(s, es, cfg, i)
    ensures Run(s, es[..n], cfg).h[i].saved == s.h[i].saved
  {
    if 0 < n {
      SavedUpTo(s, es, cfg, slot, i, n - 1);
      RunStep(s, es, cfg, n - 1);
      EcoLatchNeverClears(s, es[..n - 1], cfg, i);
      StoreStep(Run(s, es[..n - 1], cfg), es[n - 1], cfg, slot, i);
    }
  }

  ghost predicate KeepsSaved(s: State, es: seq<Event>, cfg: Config, i: nat)
    requires cfg.Valid() && i < NUM_HEATERS
  {
    forall n | 0 <= n <= |es| :: Run(s, es[..n], cfg).h[i].saved == s.h[i].saved
  }

  /** In eco mode the saved setpoint survives a run throughout iff no event of it stores another. */
  lemma SavedKeptIffNeverLost(s: State, es: seq<Event>, cfg: Config, slot: int, i: nat)
    requires cfg.Valid() && i < NUM_HEATERS && InSlot(i, slot) && s.h[i].ecoModeIsOn
    ensures KeepsSaved(s, es, cfg, i) <==> NeverLosesSaved(s, es, cfg, i)
  {
    if NeverLosesSaved(s, es, cfg, i) {
      forall n | 0 <= n <= |es| ensures Run(s, es[..n], cfg).h[i].saved == s.h[i].saved {
        SavedUpTo(s, es, cfg, slot, i, n);
      }
    } else {
      var n :| 0 <= n < |es| && LosesSaved(Run(s, es[..n], cfg), es[n], cfg, i);
      RunStep(s, es, cfg, n);
      EcoLatchNeverClears(s, es[..n], cfg, i);
      StoreStep(Run(s, es[..n], cfg), es[n], cfg, slot, i);
      assert Run(s, es[..n + 1], cfg).h[i].saved != Run(s, es[..n], cfg).h[i].saved;
    }
  }

  /** Event `n` of the run stores a setpoint. */
  ghost predicate StoresAt(s: State, es: seq<Event>, cfg: Config, i: nat, n: nat)
    requires cfg.Valid() && n < |es|
  {
    Stores(Run(s, es[..n], cfg), es[n], cfg, i)
  }

  ghost predicate NothingStoredFrom(s: State, es: seq<Event>, cfg: Config, i: nat, from: nat)
    requires cfg.Valid()
  {
    forall n | from <= n < |es| :: !StoresAt(s, es, cfg, i, n)
  }

  /** Event `n` is the last of the run to store a setpoint, and stores `t`. */
  ghost predicate StoresLast(s: State, es: seq<Event>, cfg: Config, i: nat, n: nat, t: nat)
    requires cfg.Valid() && i < NUM_HEATERS && n < |es|
  {
    && StoresAt(s, es, cfg, i, n) && Stored(Run(s, es[..n], cfg), es[n], cfg, i) == t
    && NothingStoredFrom(s, es, cfg, i, n + 1)
  }

  lemma SavedAfterEvent(s: State, es: seq<Event>, cfg: Config, slot: int, i: nat, n: nat)
    requires cfg.Valid() && i < NUM_HEATERS && InSlot(i, slot) && s.h[i].ecoModeIsOn && n < |es|
    ensures Run(s, es[..n + 1], cfg).h[i].saved ==
      if StoresAt(s, es, cfg, i, n) then Stored(Run(s, es[..n], cfg), es[n], cfg, i)
      else Run(s, es[..n], cfg).h[i].saved
  {
    RunStep(s, es, cfg, n);
    EcoLatchNeverClears(s, es[..n], cfg, i);
    StoreStep(Run(s, es[..n], cfg), es[n], cfg, slot, i);
  }

  lemma {:induction false} SavedSince(s: State, es: seq<Event>, cfg: Config, slot: int, i: nat, from: nat)
    requires cfg.Valid() && i < NUM_HEATERS && InSlot(i, slot) && s.h[i].ecoModeIsOn
    requires from <= |es| && NothingStoredFrom(s, es, cfg, i, from)
    ensures Run(s, es, cfg).h[i].saved == Run(s, es[..from], cfg).h[i].saved
    decreases |es| - from
  {
    if from < |es| {
      SavedSince(s, es, cfg, slot, i, from + 1);
      SavedAfterEvent(s, es, cfg, slot, i, from);
    } else {
      assert es[..from] == es;
    }
  }

  lemma {:induction false} LastStore(s: State, es: seq<Event>, cfg: Config, i: nat, from: nat) returns (n: nat)
    requires cfg.Valid() && i < NUM_HEATERS && from <= |es|
    requires NothingStoredFrom(s, es, cfg, i, from) && !NothingStoredFrom(s, es, cfg, i, 0)
    ensures n < |es| && StoresAt(s, es, cfg, i, n) && NothingStoredFrom(s, es, cfg, i, n + 1)
    decreases from
  {
    n := from - 1;
    if !StoresAt(s, es, cfg, i, n) {
      n := LastStore(s, es, cfg, i, n);
    }
  }

  lemma LastStoreDecides(s: State, es: seq<Event>, cfg: Config, slot: int, i: nat, n: nat, t: nat)
    requires cfg.Valid() && i < NUM_HEATERS && InSlot(i, slot) && s.h[i].ecoModeIsOn
    requires n < |es| && StoresLast(s, es, cfg, i, n, t)
    ensures Run(s, es, cfg).h[i].saved == t
  {
    SavedAfterEvent(s, es, cfg, slot, i, n);
    SavedSince(s, es, cfg, slot, i, n + 1);
  }

  /** The run stores a setpoint, and `t` is what it stores last. */
  ghost predicate LastStored(s: State, es: seq<Event>, cfg: Config, i: nat, t: nat)
    requires cfg.Valid() && i < NUM_HEATERS
  {
    exists n | 0 <= n < |es| :: StoresLast(s, es, cfg, i, n, t)
  }

  lemma SomethingIsLastStored(s: State, es: seq<Event>, cfg: Config, slot: int, i: nat)
    requires cfg.Valid() && i < NUM_HEATERS && InSlot(i, slot) && s.h[i].ecoModeIsOn
    requires !NothingStoredFrom(s, es, cfg, i, 0)
    ensures LastStored(s, es, cfg, i, Run(s, es, cfg).h[i].saved)
  {
    var n := LastStore(s, es, cfg, i, |es|);
    var t := Stored(Run(s, es[..n], cfg), es[n], cfg, i);
    assert StoresLast(s, es, cfg, i, n, t);
    LastStoreDecides(s, es, cfg, slot, i, n, t);
  }

  /** In eco mode the saved setpoint is what was stored last, or what it was if nothing was. */
  lemma SavedIsLastStored(s: State, es: seq<Event>, cfg: Config, slot: int, i: nat)
    requires cfg.Valid() && i < NUM_HEATERS && InSlot(i, slot) && s.h[i].ecoModeIsOn
    ensures Run(s, es, cfg).h[i].saved == s.h[i].saved
       <==> NothingStoredFrom(s, es, cfg, i, 0) || LastStored(s, es, cfg, i, s.h[i].saved)
  {
    if NothingStoredFrom(s, es, cfg, i, 0) {
      SavedSince(s, es, cfg, slot, i, 0);
      assert es[..0] == [];
    } else {
      SomethingIsLastStored(s, es, cfg, slot, i);
      if LastStored(s, es, cfg, i, s.h[i].saved) {
        var n :| 0 <= n < |es| && StoresLast(s, es, cfg, i, n, s.h[i].saved);
        LastStoreDecides(s, es, cfg, slot, i, n, s.h[i].saved);
      }
    }
  }

  /** Heater `i`'s setpoint after an ECO_OFF of its slot that is received at `s`. */
  function EcoOffSetpoint(s: State, slot: int, cfg: Config, i: nat): nat
    requires i < NUM_HEATERS
  {
    Applied(Effect(s, EcoModeOff(slot), cfg, i), s.h[i]).setpoint
  }

  lemma EcoOffRestoresSaved(s: State, slot: int, cfg: Config, i: nat)
    requires i < NUM_HEATERS && InSlot(i, slot) && s.h[i].ecoModeIsOn
    ensures EcoOffSetpoint(s, slot, cfg, i) == s.h[i].saved
  {
    SameSlotIsEco(s, slot, i);
  }

  lemma EcoOffStep(s: State, g: Gui, slot: int, cfg: Config, i: nat)
    requires cfg.Valid() && i < NUM_HEATERS && InSlot(i, slot) && s.h[i].ecoModeIsOn
    ensures var x := Step(s, Commanded(g, EcoModeOff(slot)), cfg).h[i];
      x.setpoint == EcoOffSetpoint(s, slot, cfg, i) && !x.ecoModeOn
  {
    SameSlotIsEco(s, slot, i);
  }

  ghost predicate EcoOffAlwaysRestores(on: State, slot: int, es: seq<Event>, cfg: Config, i: nat, t: nat)
    requires cfg.Valid() && i < NUM_HEATERS
  {
    forall n | 0 <= n <= |es| :: EcoOffSetpoint(Run(on, es[..n], cfg), slot, cfg, i) == t
  }

  lemma RestoresWhileSaved(on: State, slot: int, es: seq<Event>, cfg: Config, i: nat)
    requires cfg.Valid() && i < NUM_HEATERS && InSlot(i, slot) && on.h[i].ecoModeIsOn
    ensures EcoOffAlwaysRestores(on, slot, es, cfg, i, on.h[i].saved) <==> KeepsSaved(on, es, cfg, i)
  {
    forall n | 0 <= n <= |es|
      ensures EcoOffSetpoint(Run(on, es[..n], cfg), slot, cfg, i) == Run(on, es[..n], cfg).h[i].saved
    {
      EcoLatchNeverClears(on, es[..n], cfg, i);
      EcoOffRestoresSaved(Run(on, es[..n], cfg), slot, cfg, i);
    }
  }

  lemma FirstEcoOn(s: State, g: Gui, slot: int, cfg: Config, i: nat) returns (on: State)
    requires cfg.Valid() && i < NUM_HEATERS && InSlot(i, slot) && !s.g.cleaning && !SlotIsEco(s.h, slot)
    ensures on == Step(s, Commanded(g, EcoModeOn(slot)), cfg)
    ensures on.h[i].saved == s.h[i].setpoint && on.h[i].setpoint == s.h[i].eco
    ensures on.h[i].ecoModeIsOn && on.h[i].ecoModeOn && !on.g.cleaning
  {
    on := Step(s, Commanded(g, EcoModeOn(slot)), cfg);
  }

  /**
   After the first ECO_ON of a slot, an ECO_OFF at any point of the run restores the original
   setpoint iff no event of the run stores another one than is saved.
   */
  lemma EcoOffRestoresIffNeverLost(s: State, g: Gui, slot: int, es: seq<Event>, cfg: Config, i: nat)
    requires cfg.Valid() && i < NUM_HEATERS && InSlot(i, slot) && !s.g.cleaning && !SlotIsEco(s.h, slot)
    ensures var on := Step(s, Commanded(g, EcoModeOn(slot)), cfg);
      EcoOffAlwaysRestores(on, slot, es, cfg, i, s.h[i].setpoint) <==> NeverLosesSaved(on, es, cfg, i)
  {
    var on := FirstEcoOn(s, g, slot, cfg, i);
    RestoresWhileSaved(on, slot, es, cfg, i);
    SavedKeptIffNeverLost(on, es, cfg, slot, i);
  }

  /**
   An ECO_OFF at the end of the run restores the original setpoint iff the last event of the run
   to store a setpoint, if any, stored that one.
   */
  lemma EcoOffRestoresIffLastStored(s: State, g: Gui, slot: int, es: seq<Event>, cfg: Config, i: nat)
    requires cfg.Valid() && i < NUM_HEATERS && InSlot(i, slot) && !s.g.cleaning && !SlotIsEco(s.h, slot)
    ensures var on := Step(s, Commanded(g, EcoModeOn(slot)), cfg);
      EcoOffSetpoint(Run(on, es, cfg), slot, cfg, i) == s.h[i].setpoint
      <==> NothingStoredFrom(on, es, cfg, i, 0) || LastStored(on, es, cfg, i, s.h[i].setpoint)
  {
    var on := FirstEcoOn(s, g, slot, cfg, i);
    EcoLatchNeverClears(on, es, cfg, i);
    EcoOffRestoresSaved(Run(on, es, cfg), slot, cfg, i);
    SavedIsLastStored(on, es, cfg, slot, i);
  }

  /** An accepted setpoint command that reaches heater `i`. */
  predicate SetsSetpoint(s: State, e: Event, cfg: Config, i: nat) {
    e.Commanded? && Effect(s, e.command, cfg, i).SetSetpoint?
  }

  ghost predicate NeverSetsSetpoint(s: State, es: seq<Event>, cfg: Config, i: nat)
    requires cfg.Valid()
  {
    forall n | 0 <= n < |es| :: !SetsSetpoint(Run(s, es[..n], cfg), es[n], cfg, i)
  }

  lemma EntersCleaningBy(s: State, e: Event, cfg: Config, i: nat)
    requires e.Commanded? && Effect(s, e.command, cfg, i).EnterCleaning?
    ensures e.command == CleaningModeOn
  {
  }

  /**
   The first ECO_ON of a slot, then any run without CLEANING_ON and without an accepted setpoint
   command for the heater, then ECO_OFF: the heater's original setpoint is back.
   */
  lemma EcoRoundTrip(s: State, first: Gui, slot: int, es: seq<Event>, second: Gui, cfg: Config, i: nat)
    requires cfg.Valid() && i < NUM_HEATERS && InSlot(i, slot)
    requires !s.g.cleaning && !SlotIsEco(s.h, slot) && NoCommand(es, CleaningModeOn)
    requires NeverSetsSetpoint(Step(s, Commanded(first, EcoModeOn(slot)), cfg), es, cfg, i)
    ensures var on := Step(s, Commanded(first, EcoModeOn(slot)), cfg);
      var off := Step(Run(on, es, cfg), Commanded(second, EcoModeOff(slot)), cfg);
      && on.h[i].setpoint == s.h[i].eco
      && off.h[i].setpoint == s.h[i].setpoint && !off.h[i].ecoModeOn
  {
    var on := FirstEcoOn(s, first, slot, cfg, i);
    assert NothingStoredFrom(on, es, cfg, i, 0) by {
      forall n | 0 <= n < |es| ensures !StoresAt(on, es, cfg, i, n) {
        assert es[n] in es && !SetsSetpoint(Run(on, es[..n], cfg), es[n], cfg, i);
        if StoresAt(on, es, cfg, i, n) {
          EntersCleaningBy(Run(on, es[..n], cfg), es[n], cfg, i);
        }
      }
    }
    EcoOffRestoresIffLastStored(s, first, slot, es, cfg, i);
    EcoLatchNeverClears(on, es, cfg, i);
    EcoOffStep(Run(on, es, cfg), second, slot, cfg, i);
  }

  lemma EcoLatchHolds(s: State, es: seq<Event>, slot: int, cfg: Config)
    requires cfg.Valid() && SlotIsEco(s.h, slot)
    ensures SlotIsEco(Run(s, es, cfg).h, slot)
  {
    var u := UpperHeater(slot);
    if s.h[u].ecoModeIsOn {
      EcoLatchNeverClears(s, es, cfg, u);
    } else {
      EcoLatchNeverClears(s, es, cfg, u + 1);
    }
  }

  /** The latch set by the first ECO_ON of a slot makes every later one a no-op, whatever happens between. */
  lemma OnlyTheFirstEcoOnCounts(s: State, first: Gui, slot: int, es: seq<Event>, cfg: Config, i: nat)
    requires cfg.Valid() && i < NUM_HEATERS && !s.g.cleaning
    ensures Effect(Run(Step(s, Commanded(first, EcoModeOn(slot)), cfg), es, cfg), EcoModeOn(slot), cfg, i) == Keep
  {
    EcoLatchHolds(Step(s, Commanded(first, EcoModeOn(slot)), cfg), es, slot, cfg);
  }

  /** An ECO_ON that reaches the heaters of this slot, outside cleaning mode. */
  predicate EntersEco(s: State, e: Event, slot: int) {
    && e.Commanded? && e.command.EcoModeOn? && !s.g.cleaning
    && UpperHeater(e.command.slot) == UpperHeater(slot)
  }

  lemma OperationEcoFlag(op: Operation, x: Heater)
    ensures Applied(op, x).ecoModeIsOn <==> x.ecoModeIsOn || op.EnterEco?
  {
    match op
    case EnterEco =>
    case _ =>
  }

  lemma EffectEntersEco(s: State, e: Event, cfg: Config, slot: int, i: nat)
    requires e.Commanded? && i < NUM_HEATERS && InSlot(i, slot)
    ensures Effect(s, e.command, cfg, i).EnterEco? <==> EntersEco(s, e, slot) && !SlotIsEco(s.h, slot)
  {
  }

  lemma EcoFlagAfter(s: State, e: Event, cfg: Config, slot: int, i: nat)
    requires cfg.Valid() && i < NUM_HEATERS && InSlot(i, slot)
    ensures HeaterAfter(s, e, cfg, i).ecoModeIsOn
       <==> s.h[i].ecoModeIsOn || (EntersEco(s, e, slot) && !SlotIsEco(s.h, slot))
  {
    if e.Commanded? {
      OperationEcoFlag(Effect(s, e.command, cfg, i), s.h[i]);
      EffectEntersEco(s, e, cfg, slot, i);
    } else {
      OthersKeepSettings(s, e, cfg, i);
    }
  }

  lemma EcoFlagStep(s: State, e: Event, cfg: Config, slot: int)
    requires cfg.Valid()
    ensures SlotIsEco(Step(s, e, cfg).h, slot) <==> SlotIsEco(s.h, slot) || EntersEco(s, e, slot)
  {
    EcoFlagAfter(s, e, cfg, slot, UpperHeater(slot));
    EcoFlagAfter(s, e, cfg, slot, UpperHeater(slot) + 1);
  }

  ghost predicate HasEnteredEco(s: State, es: seq<Event>, cfg: Config, slot: int)
    requires cfg.Valid()
  {
    exists n | 0 <= n < |es| :: EntersEco(Run(s, es[..n], cfg), es[n], slot)
  }

  /** The flag of a slot says exactly that an ECO_ON has reached it outside cleaning mode. */
  lemma {:induction false} EcoFlagIsHistory(s: State, es: seq<Event>, cfg: Config, slot: int)
    requires cfg.Valid() && Initial(s)
    ensures SlotIsEco(Run(s, es, cfg).h, slot) <==> HasEnteredEco(s, es, cfg, slot)
  {
    if es != [] {
      var last := |es| - 1;
      var front := es[..last];
      assert forall n | 0 <= n <= |front| :: front[..n] == es[..n];
      EcoFlagIsHistory(s, front, cfg, slot);
      EcoFlagStep(Run(s, front, cfg), es[last], cfg, slot);
      if HasEnteredEco(s, front, cfg, slot) {
        var n :| 0 <= n < |front| && EntersEco(Run(s, front[..n], cfg), front[n], slot);
        assert EntersEco(Run(s, es[..n], cfg), es[n], slot);
      }
      if HasEnteredEco(s, es, cfg, slot) {
        var n :| 0 <= n < |es| && EntersEco(Run(s, es[..n], cfg), es[n], slot);
        assert n == last || EntersEco(Run(s, front[..n], cfg), front[n], slot);
      }
    }
  }

  /** In any run, an ECO_ON acts exactly if it comes outside cleaning mode and is its slot's first to do so. */
  lemma EcoOnActsIffFirst(s: State, es: seq<Event>, slot: int, cfg: Config, i: nat)
    requires cfg.Valid() && i < NUM_HEATERS && Initial(s) && InSlot(i, slot)
    ensures var t := Run(s, es, cfg);
      Effect(t, EcoModeOn(slot), cfg, i) ==
        if !t.g.cleaning && !HasEnteredEco(s, es, cfg, slot) then EnterEco else Keep
  {
    EcoFlagIsHistory(s, es, cfg, slot);
  }

  lemma AfterCleaning(s: State, g: Gui, cfg: Config, i: nat) returns (t: State)
    requires cfg.Valid() && i < NUM_HEATERS && !s.g.cleaning
    ensures t == Step(Step(s, Commanded(g, CleaningModeOn), cfg), Commanded(g, CleaningModeOff), cfg)
    ensures t.h[i].saved == s.h[i].setpoint && t.h[i].ecoModeIsOn == s.h[i].ecoModeIsOn
  {
    var on := CleaningBegins(s, g, cfg, i);
    t := CleaningEnds(on, g, cfg, i);
  }

  /**
   Cleaning mode entered while eco mode is on saves the eco setpoint, and it is that which ECO_OFF
   then restores: the original setpoint is lost exactly if it was another one.
   */
  lemma CleaningDuringEcoSavesEco(s: State, g: Gui, slot: int, cfg: Config, i: nat) returns (cleaned: State)
    requires cfg.Valid() && i < NUM_HEATERS && InSlot(i, slot)
    requires !s.g.cleaning && !SlotIsEco(s.h, slot)
    ensures cleaned == Step(Step(Step(s, Commanded(g, EcoModeOn(slot)), cfg),
                                 Commanded(g, CleaningModeOn), cfg), Commanded(g, CleaningModeOff), cfg)
    ensures EcoOffSetpoint(cleaned, slot, cfg, i) == s.h[i].eco
  {
    var eco := FirstEcoOn(s, g, slot, cfg, i);
    cleaned := AfterCleaning(eco, g, cfg, i);
    EcoOffRestoresSaved(cleaned, slot, cfg, i);
  }
}
