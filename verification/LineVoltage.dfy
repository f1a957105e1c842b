/** How many heaters which line voltage allows, and what that bounds: the load on the outlet. */
module LineVoltage {
  import opened HeaterControl
  import opened HeaterThread
  import opened PowerBudget
  import opened TickPasses
  import opened TopK

  /** The exact thresholds. A voltage that could not be read is 0 or less, and counts as the highest. */
  lemma BudgetThresholds(v: real)
    ensures Budget(v) == 10 <==> 0.0 < v <= 201.0
    ensures Budget(v) == 9 <==> 201.0 < v <= 221.0
    ensures Budget(v) == 8 <==> v <= 0.0 || 221.0 < v
  {
  }

  /** A higher voltage never allows more heaters, and an unread one no more than any. */
  lemma BudgetFallsAsVoltageRises(v: real, w: real)
    requires 0.0 < v <= w || w <= 0.0
    ensures Budget(w) <= Budget(v)
  {
  }

  /** Volts times heaters: the heaters are resistors, so this is what their current is proportional to. */
  function Load(heaters: nat, v: real): real {
    heaters as real * v
  }

  /** The budget keeps the load within that of ten heaters at 201 volts, exactly up to 251.25 volts. */
  lemma BudgetBoundsLoad(v: real)
    requires 0.0 < v
    ensures Load(Budget(v), v) <= 2010.0 <==> v <= 251.25
  {
  }

  /** And it allows as many heaters as it could at its three steps: one more would exceed it. */
  lemma BudgetIsUsedAtThresholds()
    ensures Load(Budget(201.0), 201.0) == 2010.0
    ensures Load(Budget(201.0) + 1, 201.0) > 2010.0
    ensures Load(Budget(221.0) + 1, 221.0) > 2010.0
    ensures Load(Budget(251.25) + 1, 251.25) > 2010.0
  {
  }

  lemma LoadOfFewer(n: nat, k: nat, v: real)
    requires n <= k && 0.0 < v <= 251.25 && k <= Budget(v)
    ensures Load(n, v) <= 2010.0
  {
    BudgetBoundsLoad(v);
    assert n as real * v <= Budget(v) as real * v;
  }

  // One tick.

  lemma TickWithinBudget(s: State, v: real, cfg: Config)
    requires cfg.Valid() && Schedules(s.g)
    ensures PinsOn(Step(s, HeaterTick(v), cfg).h) <= Budget(v)
  {
    if s.g.initialStartup {
      StartupPasses(s, v, cfg);
      LitPins(s.h, NUM_HEATERS, Budget(v));
    } else {
      RegularTickUsesTheBudget(s, v, cfg);
    }
  }

  /** The heaters that a scheduling tick leaves on do not load the outlet with more than that. */
  lemma TickBoundsLoad(s: State, v: real, cfg: Config)
    requires cfg.Valid() && Schedules(s.g) && 0.0 < v <= 251.25
    ensures Load(PinsOn(Step(s, HeaterTick(v), cfg).h), v) <= 2010.0
  {
    TickWithinBudget(s, v, cfg);
    LoadOfFewer(PinsOn(Step(s, HeaterTick(v), cfg).h), Budget(v), v);
  }

  /** With heaters enough to be turned on, a regular tick powers ten, nine or eight, by the voltage. */
  lemma TickPowersByVoltage(s: State, v: real, cfg: Config)
    requires cfg.Valid() && !s.g.initialStartup && CountGt(Deltas(TickScan(s)), 0) >= 10
    ensures var n := PinsOn(Step(s, HeaterTick(v), cfg).h);
      && (n == 10 <==> 0.0 < v <= 201.0)
      && (n == 9 <==> 201.0 < v <= 221.0)
      && (n == 8 <==> v <= 0.0 || 221.0 < v)
  {
    RegularTickUsesTheBudget(s, v, cfg);
    BudgetThresholds(v);
  }

  // Every interleaving.

  /** This action begins a tick. */
  predicate Begins(m: Machine, a: Action) {
    a.Thread? && m.pc == Waiting && Schedules(m.s.g)
  }

  /** The line voltage that the last tick began with, or 0 before the first. */
  ghost function TickVolts(m: Machine, actions: seq<Action>, cfg: Config): real
    requires cfg.Valid()
  {
    if actions == [] then 0.0
    else
      var front, last := actions[..|actions| - 1], actions[|actions| - 1];
      if Begins(Interleaved(m, front, cfg), last) then last.volts else TickVolts(m, front, cfg)
  }

  lemma BudgetNext(m: Machine, a: Action, cfg: Config)
    requires cfg.Valid()
    ensures Next(m, a, cfg).budget == if Begins(m, a) then Budget(a.volts) else m.budget
  {
  }

  lemma {:induction false} BudgetIsByVolts(m: Machine, actions: seq<Action>, cfg: Config)
    requires cfg.Valid() && m.budget == 0
    ensures Interleaved(m, actions, cfg).budget in {0, Budget(TickVolts(m, actions, cfg))}
  {
    if actions != [] {
      var front, last := actions[..|actions| - 1], actions[|actions| - 1];
      BudgetIsByVolts(m, front, cfg);
      BudgetNext(Interleaved(m, front, cfg), last, cfg);
    }
  }

  /**
   At every point of every interleaving, from the end of a tick's off pass to the next tick, the
   heaters that are on load the outlet with no more than ten at 201 volts, for any voltage up to 251.25
   that the tick began with; and their number is what that voltage allows.
   */
  lemma LoadHoldsAtEveryWrite(m: Machine, actions: seq<Action>, cfg: Config)
    requires cfg.Valid() && Starting(m) && AllAllowed(actions)
    ensures var n, v := Interleaved(m, actions, cfg), TickVolts(m, actions, cfg);
      OffPassDone(n.pc) ==>
        && PinsOn(n.s.h) <= Budget(v)
        && (0.0 < v <= 251.25 ==> Load(PinsOn(n.s.h), v) <= 2010.0)
  {
    var n, v := Interleaved(m, actions, cfg), TickVolts(m, actions, cfg);
    BudgetHoldsAtEveryWrite(m, actions, cfg);
    BudgetIsByVolts(m, actions, cfg);
    if OffPassDone(n.pc) && 0.0 < v <= 251.25 {
      LoadOfFewer(PinsOn(n.s.h), Budget(v), v);
    }
  }
}
