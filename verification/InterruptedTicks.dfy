/**
 Disabled heaters while any write of another thread may come between any two steps of the heater
 thread: when one becomes powered, and from when on its pin stays off.
 */
module InterruptedTicks {
  import opened DisabledPins
  import opened HeaterControl
  import opened HeaterThread
  import opened HeaterTicks
  import opened Supervision

  // Which steps leave a heater disabled and powered.

  /** The heater thread writes the pin of heater `i` on: in its on pass, or in the startup pass after its test. */
  predicate TurnsOn(m: Machine, a: Action, i: nat)
    requires i < NUM_HEATERS
  {
    && a.Thread?
    && ( || (m.pc == TurningOn(i) && m.s.h[i].isOn)
         || (m.pc.Lighting? && m.pc.light && InOrder(m.pc.p) == i))
  }

  predicate EnabledAndPowered(x: Heater) {
    x.enabled && x.pin
  }

  /** A heater is turned on that has been disabled since it was chosen, or since it was tested. */
  predicate PowersDisabled(m: Machine, a: Action, i: nat)
    requires i < NUM_HEATERS
  {
    TurnsOn(m, a, i) && !m.s.h[i].enabled
  }

  /** An alarm of the delta loop clears the flags of a shelf before it drops the pins. */
  predicate AlarmsPowered(m: Machine, a: Action, i: nat)
    requires i < NUM_HEATERS
  {
    && a.Thread? && m.pc.Scanning? && (i == m.pc.i || i == Sibling(m.pc.i))
    && Trips(m.s.h[m.pc.i], m.s.g.startupComplete, m.s.g.cleaning) && EnabledAndPowered(m.s.h[i])
  }

  /** Another thread clears the flag of a powered heater. */
  predicate ClearsPowered(m: Machine, a: Action, i: nat)
    requires i < NUM_HEATERS
  {
    a == Action.Write(ClearFlag(i)) && EnabledAndPowered(m.s.h[i])
  }

  /** A late fault of the heater's own probe: the pin that the whole activity drops is heater 0's. */
  predicate FaultsPowered(m: Machine, a: Action, cfg: Config, i: nat)
    requires cfg.Valid() && i < NUM_HEATERS
  {
    && a.Other? && a.e.Reading? && a.e.rtd == i && i != 0
    && Faulty(m.s.r[i], cfg.tables[i], a.e.sample) && EnabledAndPowered(m.s.h[i])
  }

  predicate LeavesPowered(m: Machine, a: Action, cfg: Config, i: nat)
    requires cfg.Valid() && i < NUM_HEATERS
  {
    PowersDisabled(m, a, i) || AlarmsPowered(m, a, i) || ClearsPowered(m, a, i) || FaultsPowered(m, a, cfg, i)
  }

  lemma CommandKeepsOrder(op: Operation, x: Heater)
    requires !DisabledAndPowered(x)
    ensures !DisabledAndPowered(Applied(op, x))
  {
  }

  lemma OtherDisabledPin(m: Machine, e: Event, cfg: Config, i: nat)
    requires cfg.Valid() && i < NUM_HEATERS && !e.HeaterTick? && !DisabledAndPowered(m.s.h[i])
    ensures DisabledAndPowered(HeaterAfter(m.s, e, cfg, i)) <==> FaultsPowered(m, Other(e), cfg, i)
  {
    match e
    case Commanded(_, c) => CommandKeepsOrder(Effect(m.s, c, cfg, i), m.s.h[i]);
    case _ =>
  }

  lemma FlaggedDisabledPin(h: Bank, j: nat, complete: bool, cleaning: bool, i: nat)
    requires i < NUM_HEATERS && j < NUM_HEATERS && !DisabledAndPowered(h[i])
    ensures DisabledAndPowered(Flagged(h, j, complete, cleaning)[i])
       <==> (i == j || i == Sibling(j)) && Trips(h[j], complete, cleaning) && EnabledAndPowered(h[i])
  {
    VisitScans(h[i], complete, cleaning);
  }

  lemma ThreadDisabledPin(m: Machine, volts: real, i: nat)
    requires i < NUM_HEATERS && !DisabledAndPowered(m.s.h[i])
    ensures DisabledAndPowered(ThreadStep(m, volts).s.h[i])
       <==> PowersDisabled(m, Thread(volts), i) || AlarmsPowered(m, Thread(volts), i)
  {
    match m.pc
    case Scanning(j) => FlaggedDisabledPin(m.s.h, j, m.s.g.startupComplete, m.s.g.cleaning, i);
    case _ =>
  }

  lemma WriteDisabledPin(m: Machine, w: Write, i: nat)
    requires i < NUM_HEATERS && !DisabledAndPowered(m.s.h[i])
    ensures DisabledAndPowered(Written(m.s, w).h[i]) <==> ClearsPowered(m, Action.Write(w), i)
  {
  }

  /** The only ways for a heater to become disabled and powered, each by a condition on the state before it. */
  lemma BecomesDisabledAndPowered(m: Machine, a: Action, cfg: Config, i: nat)
    requires cfg.Valid() && i < NUM_HEATERS && Allowed(a) && !DisabledAndPowered(m.s.h[i])
    ensures DisabledAndPowered(Next(m, a, cfg).s.h[i]) <==> LeavesPowered(m, a, cfg, i)
  {
    match a
    case Thread(volts) => ThreadDisabledPin(m, volts, i);
    case Other(e) => OtherDisabledPin(m, e, cfg, i);
    case Write(w) => WriteDisabledPin(m, w, i);
  }

  ghost predicate NeverLeavesPowered(m: Machine, actions: seq<Action>, cfg: Config, i: nat)
    requires cfg.Valid() && i < NUM_HEATERS
  {
    forall n | 0 <= n < |actions| :: !LeavesPowered(Interleaved(m, actions[..n], cfg), actions[n], cfg, i)
  }

  lemma {:induction false} OrderedUpTo(m: Machine, actions: seq<Action>, cfg: Config, i: nat, n: nat)
    requires cfg.Valid() && i < NUM_HEATERS && n <= |actions| && !DisabledAndPowered(m.s.h[i])
    requires AllAllowed(actions) && NeverLeavesPowered(m, actions, cfg, i)
    ensures !DisabledAndPowered(Interleaved(m, actions[..n], cfg).s.h[i])
  {
    if 0 < n {
      OrderedUpTo(m, actions, cfg, i, n - 1);
      InterleavedThen(m, actions, cfg, n - 1);
      assert actions[n - 1] in actions;
      BecomesDisabledAndPowered(Interleaved(m, actions[..n - 1], cfg), actions[n - 1], cfg, i);
    }
  }

  /** A heater is never found disabled and powered, at any point of an interleaving, iff no such step occurs. */
  lemma OrderedIffNeverLeavesPowered(m: Machine, actions: seq<Action>, cfg: Config, i: nat)
    requires cfg.Valid() && i < NUM_HEATERS && !DisabledAndPowered(m.s.h[i]) && AllAllowed(actions)
    ensures (forall n | 0 <= n <= |actions| :: !DisabledAndPowered(Interleaved(m, actions[..n], cfg).s.h[i]))
       <==> NeverLeavesPowered(m, actions, cfg, i)
  {
    if NeverLeavesPowered(m, actions, cfg, i) {
      forall n | 0 <= n <= |actions| ensures !DisabledAndPowered(Interleaved(m, actions[..n], cfg).s.h[i]) {
        OrderedUpTo(m, actions, cfg, i, n);
      }
    } else {
      var n :| 0 <= n < |actions| && LeavesPowered(Interleaved(m, actions[..n], cfg), actions[n], cfg, i);
      InterleavedThen(m, actions, cfg, n);
      assert actions[n] in actions;
      if !DisabledAndPowered(Interleaved(m, actions[..n], cfg).s.h[i]) {
        BecomesDisabledAndPowered(Interleaved(m, actions[..n], cfg), actions[n], cfg, i);
      }
    }
  }

  // Which activities leave it so when they are over.

  /** An alarm does not: the thread's next step drops both pins of the shelf, whatever has come between. */
  lemma AlarmDropsNext(m: Machine, volts: real, i: nat)
    requires m.pc.Dropping? && m.pc.trips && (i == m.pc.i || i == Sibling(m.pc.i))
    ensures !ThreadStep(m, volts).s.h[i].pin
  {
  }

  /** Nor does an activity that clears the flag first: the pin is off when it is over. */
  lemma FlagFirstIsNotOverrun(m: Machine, between: seq<Action>, cfg: Config, i: HeaterIndex)
    requires cfg.Valid()
    ensures var n := Interleaved(Next(m, Action.Write(ClearFlag(i)), cfg), between, cfg);
      !Next(n, Action.Write(DropPin(i)), cfg).s.h[i].pin
  {
  }

  lemma PinNext(m: Machine, a: Action, cfg: Config, i: nat)
    requires cfg.Valid() && i < NUM_HEATERS && Allowed(a) && Next(m, a, cfg).s.h[i].pin && !m.s.h[i].pin
    ensures TurnsOn(m, a, i)
  {
    if a.Thread? {
      ThreadPinNext(m, a.volts, i);
    } else {
      OthersOnlyTurnOffHere(m, a, cfg, i);
    }
  }

  lemma FlaggedPin(h: Bank, j: nat, complete: bool, cleaning: bool, i: nat)
    requires i < NUM_HEATERS && j < NUM_HEATERS
    ensures Flagged(h, j, complete, cleaning)[i].pin ==> h[i].pin
  {
    VisitScans(h[i], complete, cleaning);
  }

  lemma ThreadPinNext(m: Machine, volts: real, i: nat)
    requires i < NUM_HEATERS && ThreadStep(m, volts).s.h[i].pin && !m.s.h[i].pin
    ensures TurnsOn(m, Thread(volts), i)
  {
    match m.pc
    case Scanning(j) => FlaggedPin(m.s.h, j, m.s.g.startupComplete, m.s.g.cleaning, i);
    case _ =>
  }

  lemma TurnedOnIsOn(m: Machine, a: Action, cfg: Config, i: nat)
    requires cfg.Valid() && i < NUM_HEATERS && TurnsOn(m, a, i)
    ensures Next(m, a, cfg).s.h[i].pin
  {
  }

  /** Step `n` turns heater `i` on, and every later one leaves it on. */
  ghost predicate TurnedOnAt(m: Machine, actions: seq<Action>, cfg: Config, i: nat, n: nat)
    requires cfg.Valid() && i < NUM_HEATERS && n < |actions|
  {
    && TurnsOn(Interleaved(m, actions[..n], cfg), actions[n], i)
    && forall k | n < k <= |actions| :: Interleaved(m, actions[..k], cfg).s.h[i].pin
  }

  /** A pin that is off at first is on at the end iff the heater thread turned it on and nobody off again. */
  lemma {:induction false} PinIsOnIffTurnedOn(m: Machine, actions: seq<Action>, cfg: Config, i: nat)
    requires cfg.Valid() && i < NUM_HEATERS && AllAllowed(actions) && !m.s.h[i].pin
    ensures Interleaved(m, actions, cfg).s.h[i].pin
       <==> exists n | 0 <= n < |actions| :: TurnedOnAt(m, actions, cfg, i, n)
  {
    assert actions[..|actions|] == actions;
    if Interleaved(m, actions, cfg).s.h[i].pin {
      var n := LastTurnedOn(m, actions, cfg, i, |actions|);
    }
  }

  lemma {:induction false} LastTurnedOn(m: Machine, actions: seq<Action>, cfg: Config, i: nat, since: nat)
    returns (n: nat)
    requires cfg.Valid() && i < NUM_HEATERS && AllAllowed(actions) && !m.s.h[i].pin && since <= |actions|
    requires forall k | since <= k <= |actions| :: Interleaved(m, actions[..k], cfg).s.h[i].pin
    ensures n < |actions| && TurnedOnAt(m, actions, cfg, i, n)
    decreases since
  {
    assert since != 0 by {
      assert actions[..0] == [];
    }
    n := since - 1;
    if Interleaved(m, actions[..n], cfg).s.h[i].pin {
      n := LastTurnedOn(m, actions, cfg, i, n);
    } else {
      InterleavedThen(m, actions, cfg, n);
      assert actions[n] in actions;
      PinNext(Interleaved(m, actions[..n], cfg), actions[n], cfg, i);
    }
  }

  /**
   HEATER_OFF and SHUTDOWN do, when the heater thread comes between their two writes: they leave the
   heater disabled and powered iff it has turned the heater on there, and nobody has turned it off again.
   */
  lemma PinFirstIsOverrunIff(m: Machine, between: seq<Action>, cfg: Config, i: HeaterIndex)
    requires cfg.Valid() && AllAllowed(between)
    ensures var dropped := Next(m, Action.Write(DropPin(i)), cfg);
      DisabledAndPowered(Next(Interleaved(dropped, between, cfg), Action.Write(ClearFlag(i)), cfg).s.h[i])
      <==> exists n | 0 <= n < |between| :: TurnedOnAt(dropped, between, cfg, i, n)
  {
    PinIsOnIffTurnedOn(Next(m, Action.Write(DropPin(i)), cfg), between, cfg, i);
  }

  // From when on the pin of a disabled heater stays off.

  predicate Dropped(x: Heater) {
    !x.pin && !x.isOn
  }

  /** By this phase the tick has dealt with every heater that was disabled when it began. */
  predicate PastDisabled(pc: Phase) {
    !pc.Waiting? && !pc.Scanning? && !pc.Dropping? && !pc.AllOff?
  }

  /** What each phase of a tick that began with heater `i` disabled knows of it. */
  predicate LatchedInPhase(x: Heater, i: nat, pc: Phase) {
    match pc
    case Waiting => true
    case Scanning(j) => i < j ==> Dropped(x) && x.delta <= 0
    case Dropping(j, _) => i <= j ==> Dropped(x) && x.delta <= 0
    case Choosing => Dropped(x) && x.delta <= 0
    case AllOff(j) => i < j ==> Dropped(x)
    case Lighting(p, _, light) => Dropped(x) && (light ==> InOrder(p) != i)
    case _ => Dropped(x)
  }

  ghost predicate Latched(m: Machine, i: nat)
    requires i < NUM_HEATERS
  {
    !m.s.h[i].enabled && LatchedInPhase(m.s.h[i], i, m.pc)
  }

  lemma FlaggedLatched(h: Bank, j: nat, complete: bool, cleaning: bool, i: nat)
    requires i < NUM_HEATERS && j < NUM_HEATERS && !h[i].enabled
    ensures var x := Flagged(h, j, complete, cleaning)[i];
      && !x.enabled && (x.pin ==> h[i].pin)
      && (if i == j then Dropped(x) && x.delta <= 0 else x.isOn == h[i].isOn && x.delta == h[i].delta)
  {
  }

  lemma ThreadKeepsLatch(m: Machine, volts: real, i: nat)
    requires i < NUM_HEATERS && Latched(m, i)
    ensures var n := ThreadStep(m, volts);
      && Latched(n, i)
      && (n.s.h[i].pin ==> m.s.h[i].pin && !PastDisabled(n.pc))
  {
    match m.pc
    case Scanning(j) => FlaggedLatched(m.s.h, j, m.s.g.startupComplete, m.s.g.cleaning, i);
    case _ =>
  }

  /** An action of another thread that sets the flag of heater `i`. */
  predicate SetsFlag(s: State, a: Action, i: nat)
    requires i < NUM_HEATERS
  {
    match a
    case Thread(_) => false
    case Other(e) => Enables(s, e, i)
    case Write(w) => w.Rest? && w.t.h[i].enabled
  }

  lemma OthersKeepLatch(m: Machine, a: Action, cfg: Config, i: nat)
    requires cfg.Valid() && i < NUM_HEATERS && Latched(m, i)
    requires Allowed(a) && !a.Thread? && !SetsFlag(m.s, a, i)
    ensures var n := Next(m, a, cfg);
      Latched(n, i) && (n.s.h[i].pin ==> m.s.h[i].pin)
  {
    OthersOnlyTurnOffHere(m, a, cfg, i);
    if a.Other? {
      OnlyCommandsEnable(m.s, a.e, cfg, i);
    }
  }

  ghost predicate NeverEnabled(m: Machine, actions: seq<Action>, cfg: Config, i: nat)
    requires cfg.Valid() && i < NUM_HEATERS
  {
    forall n | 0 <= n < |actions| :: !SetsFlag(Interleaved(m, actions[..n], cfg).s, actions[n], i)
  }

  /** At some point of the interleaving the thread was that far within a tick. */
  ghost predicate HasPassedDisabled(m: Machine, actions: seq<Action>, cfg: Config)
    requires cfg.Valid()
  {
    exists n | 0 <= n <= |actions| :: PastDisabled(Interleaved(m, actions[..n], cfg).pc)
  }

  lemma LatchNext(m: Machine, a: Action, cfg: Config, i: nat)
    requires cfg.Valid() && i < NUM_HEATERS && Latched(m, i) && Allowed(a) && !SetsFlag(m.s, a, i)
    ensures var n := Next(m, a, cfg);
      && Latched(n, i) && (n.s.h[i].pin ==> m.s.h[i].pin && !PastDisabled(n.pc))
  {
    if a.Thread? {
      ThreadKeepsLatch(m, a.volts, i);
    } else {
      OthersKeepLatch(m, a, cfg, i);
    }
  }

  /**
   The latch, over every interleaving: a heater that is disabled while the thread waits, and that no
   command enables, stays disabled; and once a tick has got past its scan, or past switching all
   heaters off, the pin is off and stays off, in that tick and in all that follow.
   */
  lemma {:induction false} DisableIsLatchedWhenInterrupted(m: Machine, actions: seq<Action>, cfg: Config, i: nat)
    requires cfg.Valid() && i < NUM_HEATERS && m.pc == Waiting && !m.s.h[i].enabled
    requires AllAllowed(actions) && NeverEnabled(m, actions, cfg, i)
    ensures var n := Interleaved(m, actions, cfg);
      Latched(n, i) && (HasPassedDisabled(m, actions, cfg) ==> !n.s.h[i].pin)
  {
    if actions != [] {
      var last := |actions| - 1;
      var front := actions[..last];
      assert forall n | 0 <= n <= |front| :: front[..n] == actions[..n];
      assert actions[last] in actions;
      DisableIsLatchedWhenInterrupted(m, front, cfg, i);
      LatchNext(Interleaved(m, front, cfg), actions[last], cfg, i);
      if HasPassedDisabled(m, actions, cfg) {
        var n :| 0 <= n <= |actions| && PastDisabled(Interleaved(m, actions[..n], cfg).pc);
        assert n <= last || actions[..n] == actions;
      }
    }
  }

  lemma StaysWithinTick(m: Machine, a: Action, cfg: Config)
    requires cfg.Valid()
    ensures StillWithin(m.pc, Next(m, a, cfg).pc)
  {
  }

  /** The phases that the thread goes through. */
  function Phases(m: Machine, actions: seq<Action>, cfg: Config): (phases: seq<Phase>)
    requires cfg.Valid()
    ensures |phases| == |actions| + 1
  {
    seq(|actions| + 1, n requires 0 <= n <= |actions| => Interleaved(m, actions[..n], cfg).pc)
  }

  /** A phase that is reached from one within a tick, short of where disabled heaters are dealt with. */
  predicate StillWithin(phase: Phase, next: Phase) {
    phase != Waiting && !PastDisabled(phase) ==> next != Waiting
  }

  lemma StillWithinTick(m: Machine, actions: seq<Action>, cfg: Config, n: nat)
    requires cfg.Valid() && n < |actions|
    ensures StillWithin(Interleaved(m, actions[..n], cfg).pc, Interleaved(m, actions[..n + 1], cfg).pc)
  {
    InterleavedThen(m, actions, cfg, n);
    StaysWithinTick(Interleaved(m, actions[..n], cfg), actions[n], cfg);
  }

  lemma {:induction false} PhasesPassDisabled(phases: seq<Phase>, within: nat, over: nat) returns (n: nat)
    requires within <= over < |phases| && phases[within] != Waiting && phases[over] == Waiting
    requires forall k | 0 <= k < |phases| - 1 :: StillWithin(phases[k], phases[k + 1])
    ensures n <= over && PastDisabled(phases[n])
    decreases over - within
  {
    n := within;
    if !PastDisabled(phases[within]) {
      assert StillWithin(phases[within], phases[within + 1]);
      n := PhasesPassDisabled(phases, within + 1, over);
    }
  }

  /** A tick does not end without having got that far. */
  lemma TicksPassDisabled(m: Machine, actions: seq<Action>, cfg: Config, within: nat, over: nat)
    requires cfg.Valid() && within <= over <= |actions|
    requires Interleaved(m, actions[..within], cfg).pc != Waiting && Interleaved(m, actions[..over], cfg).pc == Waiting
    ensures HasPassedDisabled(m, actions, cfg)
  {
    var phases := Phases(m, actions, cfg);
    forall k | 0 <= k < |phases| - 1 ensures StillWithin(phases[k], phases[k + 1]) {
      StillWithinTick(m, actions, cfg, k);
    }
    var n := PhasesPassDisabled(phases, within, over);
  }

  /** So a heater disabled before a tick, and not enabled since, has its pin off whenever that tick is over. */
  lemma PinIsOffAfterTick(m: Machine, actions: seq<Action>, cfg: Config, i: nat, within: nat, over: nat)
    requires cfg.Valid() && i < NUM_HEATERS && m.pc == Waiting && !m.s.h[i].enabled
    requires AllAllowed(actions) && NeverEnabled(m, actions, cfg, i)
    requires within <= over <= |actions|
    requires Interleaved(m, actions[..within], cfg).pc != Waiting && Interleaved(m, actions[..over], cfg).pc == Waiting
    ensures !Interleaved(m, actions, cfg).s.h[i].pin
  {
    TicksPassDisabled(m, actions, cfg, within, over);
    DisableIsLatchedWhenInterrupted(m, actions, cfg, i);
  }
}
