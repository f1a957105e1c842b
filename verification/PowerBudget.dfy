/** The power budget, over every interleaving of the heater thread with the writes of the other threads. */
module PowerBudget {
  import opened HeaterControl
  import opened HeaterTicks
  import opened HeaterThread
  import opened Supervision
  import opened TickPasses
  import opened TopK

  // The invariant.

  /** What each phase knows of heater `j`. */
  predicate HeaterOk(x: Heater, j: nat, pc: Phase) {
    match pc
    case Scanning(i) => if j < i then (x.pin ==> x.wasOn) && !x.isOn else x.pin ==> x.isOn
    case Dropping(i, _) => if j <= i then (x.pin ==> x.wasOn) && !x.isOn else x.pin ==> x.isOn
    case Choosing => (x.pin ==> x.wasOn) && !x.isOn
    case TurningOff(i) => if j < i then x.pin ==> x.isOn else x.pin ==> x.wasOn
    case AllOff(i) => if j < i then !x.pin && !x.isOn else x.pin ==> x.isOn
    case _ => x.pin ==> x.isOn
  }

  ghost predicate HeatersOk(h: Bank, pc: Phase) {
    forall j | 0 <= j < NUM_HEATERS :: HeaterOk(h[j], j, pc)
  }

  /** The phases in which no more heaters are meant to be on than the tick allows. */
  predicate ChoiceMade(pc: Phase) {
    || pc.TurningOff? || pc.TurningOn? || pc.Settling?
    || pc.Testing? || pc.Lighting? || pc.EndingStartup?
    || pc.Waiting?
  }

  /** The phases by which every pin that must go off has gone off. */
  predicate OffPassDone(pc: Phase) {
    ChoiceMade(pc) && !pc.TurningOff?
  }

  predicate OnsBounded(m: Machine) {
    match m.pc
    case Testing(_, lit) => Count(Ons(m.s.h)) <= lit <= m.budget
    case Lighting(_, lit, light) => Count(Ons(m.s.h)) <= lit <= m.budget && (light ==> lit < m.budget)
    case _ => ChoiceMade(m.pc) ==> Count(Ons(m.s.h)) <= m.budget
  }

  ghost predicate Inv(m: Machine) {
    && HeatersOk(m.s.h, m.pc)
    && OnsBounded(m)
    && m.atStart <= m.previous
    && (!OffPassDone(m.pc) ==> PinsOn(m.s.h) <= m.atStart)
  }

  lemma FewerPins(h: Bank, k: Bank)
    requires forall i | 0 <= i < NUM_HEATERS :: k[i].pin ==> h[i].pin
    ensures PinsOn(k) <= PinsOn(h)
  {
    CountIsMonotone(Pins(k), Pins(h));
  }

  lemma PinsWithinOns(h: Bank)
    requires PinsAreOn(h)
    ensures PinsOn(h) <= Count(Ons(h))
  {
    CountIsMonotone(Pins(h), Ons(h));
  }

  predicate PinsAreOn(h: Bank) {
    forall i | 0 <= i < NUM_HEATERS :: h[i].pin ==> h[i].isOn
  }

  /** The startup pass has no more pins on than heaters lit. */
  lemma {:induction false} LitPins(h: Bank, p: nat, k: nat)
    requires p <= NUM_HEATERS
    ensures PinsOn(LitUpTo(h, p, k)) <= LitCount(h, p, k) <= k
  {
    if p == 0 {
      CountNone(Pins(LitUpTo(h, 0, k)));
    } else {
      LitPins(h, p - 1, k);
      LitOneMore(h, p - 1, k);
      var i, b := InOrder(p - 1), LitUpTo(h, p - 1, k);
      CountUpdate(Pins(b), i, true);
      assert Pins(b[i := Lit(b[i])]) == Pins(b)[i := true];
    }
  }

  /** The budget: at most what was on at the start or what is allowed, and only the latter after the off pass. */
  lemma InvBoundsPins(m: Machine)
    requires Inv(m)
    ensures PinsOn(m.s.h) <= Max(m.atStart, m.budget)
    ensures OffPassDone(m.pc) ==> PinsOn(m.s.h) <= m.budget
  {
    if OffPassDone(m.pc) {
      assert forall i | 0 <= i < NUM_HEATERS :: HeaterOk(m.s.h[i], i, m.pc);
      PinsWithinOns(m.s.h);
    }
  }

  function Max(a: nat, b: nat): nat {
    if a <= b then b else a
  }

  // Every step keeps it.

  lemma FlaggedHeater(h: Bank, i: nat, complete: bool, cleaning: bool, j: nat)
    requires i < NUM_HEATERS && j < NUM_HEATERS && (h[i].pin ==> h[i].isOn)
    ensures var x, y := h[j], Flagged(h, i, complete, cleaning)[j];
      && (y.pin ==> x.pin)
      && (if j == i then (y.pin ==> y.wasOn) && !y.isOn else y.isOn == x.isOn && y.wasOn == x.wasOn)
  {
    VisitScans(h[i], complete, cleaning);
  }

  lemma ScanStep(m: Machine, volts: real)
    requires Inv(m) && m.pc.Scanning?
    ensures Inv(ThreadStep(m, volts))
  {
    var h, i := m.s.h, m.pc.i;
    var k := Flagged(h, i, m.s.g.startupComplete, m.s.g.cleaning);
    forall j | 0 <= j < NUM_HEATERS
      ensures k[j].pin ==> h[j].pin
      ensures HeaterOk(k[j], j, ThreadStep(m, volts).pc)
    {
      assert HeaterOk(h[i], i, m.pc) && HeaterOk(h[j], j, m.pc);
      FlaggedHeater(h, i, m.s.g.startupComplete, m.s.g.cleaning, j);
    }
    FewerPins(h, k);
  }

  lemma DropStep(m: Machine, volts: real)
    requires Inv(m) && m.pc.Dropping?
    ensures Inv(ThreadStep(m, volts))
  {
    var n := ThreadStep(m, volts);
    forall j | 0 <= j < NUM_HEATERS
      ensures n.s.h[j].pin ==> m.s.h[j].pin
      ensures HeaterOk(n.s.h[j], j, n.pc)
    {
      assert HeaterOk(m.s.h[j], j, m.pc);
    }
    FewerPins(m.s.h, n.s.h);
  }

  lemma ChooseStep(m: Machine, volts: real)
    requires Inv(m) && m.pc.Choosing? && m.budget <= NUM_HEATERS
    ensures Inv(ThreadStep(m, volts))
  {
    var h, k := m.s.h, MarkedBank(m.s.h, m.budget);
    forall j | 0 <= j < NUM_HEATERS
      ensures HeaterOk(k[j], j, TurningOff(0)) && k[j].isOn == Selection(Deltas(h), m.budget)[j]
    {
      assert HeaterOk(h[j], j, m.pc);
    }
    assert Ons(k) == Selection(Deltas(h), m.budget);
    SelectionCount(Deltas(h), m.budget);
    FewerPins(h, k);
  }

  /** A step of the two passes changes one heater only, and the choice not at all. */
  lemma OneHeaterStep(m: Machine, i: nat, x: Heater, pc: Phase)
    requires Inv(m) && i < NUM_HEATERS && (m.pc.TurningOff? || m.pc.TurningOn?)
    requires pc.TurningOn? || pc.Settling? || (pc.TurningOff? && m.pc.TurningOff? && (x.pin ==> m.s.h[i].pin))
    requires x.isOn == m.s.h[i].isOn && HeaterOk(x, i, pc)
    requires forall j | 0 <= j < NUM_HEATERS && j != i :: HeaterOk(m.s.h[j], j, pc)
    ensures Inv(m.(s := m.s.(h := m.s.h[i := x]), pc := pc))
  {
    var k: Bank := m.s.h[i := x];
    if pc.TurningOff? {
      FewerPins(m.s.h, k);
    }
    assert Ons(k) == Ons(m.s.h);
  }

  lemma PassStep(m: Machine, volts: real)
    requires Inv(m) && (m.pc.TurningOff? || m.pc.TurningOn?)
    ensures Inv(ThreadStep(m, volts))
  {
    var n := ThreadStep(m, volts);
    assert forall j | 0 <= j < NUM_HEATERS :: HeaterOk(m.s.h[j], j, m.pc);
    OneHeaterStep(m, m.pc.i, n.s.h[m.pc.i], n.pc);
  }

  lemma AllOffStep(m: Machine, volts: real)
    requires Inv(m) && m.pc.AllOff?
    ensures Inv(ThreadStep(m, volts))
  {
    var n := ThreadStep(m, volts);
    assert forall j | 0 <= j < NUM_HEATERS :: HeaterOk(m.s.h[j], j, m.pc);
    FewerPins(m.s.h, n.s.h);
    if n.pc.Testing? {
      CountNone(Ons(n.s.h));
    }
  }

  lemma TestingStep(m: Machine, volts: real)
    requires Inv(m) && m.pc.Testing?
    ensures Inv(ThreadStep(m, volts))
  {
    assert forall j | 0 <= j < NUM_HEATERS :: HeaterOk(m.s.h[j], j, m.pc);
  }

  lemma LightingStep(m: Machine, volts: real)
    requires Inv(m) && m.pc.Lighting?
    ensures Inv(ThreadStep(m, volts))
  {
    var i := InOrder(m.pc.p);
    assert forall j | 0 <= j < NUM_HEATERS :: HeaterOk(m.s.h[j], j, m.pc);
    CountUpdate(Ons(m.s.h), i, true);
    assert Ons(m.s.h[i := Lit(m.s.h[i])]) == Ons(m.s.h)[i := true];
  }

  lemma LastStep(m: Machine, volts: real)
    requires Inv(m) && (m.pc.Settling? || m.pc.EndingStartup?)
    ensures Inv(ThreadStep(m, volts))
  {
    assert forall j | 0 <= j < NUM_HEATERS :: HeaterOk(m.s.h[j], j, m.pc);
    assert Ons(SettledBank(m.s.h)) == Ons(m.s.h);
  }

  lemma BeginStep(m: Machine, volts: real)
    requires Inv(m) && m.pc.Waiting?
    ensures Inv(ThreadStep(m, volts))
  {
    assert forall j | 0 <= j < NUM_HEATERS :: HeaterOk(m.s.h[j], j, m.pc);
    InvBoundsPins(m);
  }

  /** Whatever the other threads write, as long as they turn no pin on and leave the heater thread's fields alone. */
  lemma OthersKeepInv(m: Machine, t: State)
    requires Inv(m) && forall i | 0 <= i < NUM_HEATERS :: OnlyTurnedOff(m.s.h[i], t.h[i])
    ensures Inv(m.(s := t))
  {
    forall j | 0 <= j < NUM_HEATERS
      ensures t.h[j].pin ==> m.s.h[j].pin
      ensures t.h[j].isOn == m.s.h[j].isOn
      ensures HeaterOk(t.h[j], j, m.pc)
    {
      assert OnlyTurnedOff(m.s.h[j], t.h[j]);
      assert HeaterOk(m.s.h[j], j, m.pc);
    }
    FewerPins(m.s.h, t.h);
    assert Ons(t.h) == Ons(m.s.h);
  }

  lemma OtherStep(m: Machine, a: Action, cfg: Config)
    requires cfg.Valid() && Inv(m) && Allowed(a) && !a.Thread?
    ensures Inv(Next(m, a, cfg))
  {
    forall i | 0 <= i < NUM_HEATERS ensures OnlyTurnedOff(m.s.h[i], Next(m, a, cfg).s.h[i]) {
      OthersOnlyTurnOffHere(m, a, cfg, i);
    }
    OthersKeepInv(m, Next(m, a, cfg).s);
  }

  const MOST_HEATERS_ON := 10

  predicate BudgetsSmall(m: Machine) {
    m.budget <= MOST_HEATERS_ON && m.previous <= MOST_HEATERS_ON
  }

  lemma BudgetsStaySmall(m: Machine, a: Action, cfg: Config)
    requires cfg.Valid() && BudgetsSmall(m)
    ensures BudgetsSmall(Next(m, a, cfg))
  {
  }

  lemma ThreadKeepsInv(m: Machine, volts: real)
    requires Inv(m) && BudgetsSmall(m)
    ensures Inv(ThreadStep(m, volts))
  {
    match m.pc
    case Waiting => BeginStep(m, volts);
    case Scanning(_) => ScanStep(m, volts);
    case Dropping(_, _) => DropStep(m, volts);
    case Choosing => ChooseStep(m, volts);
    case TurningOff(_) => PassStep(m, volts);
    case TurningOn(_) => PassStep(m, volts);
    case AllOff(_) => AllOffStep(m, volts);
    case Testing(_, _) => TestingStep(m, volts);
    case Lighting(_, _, _) => LightingStep(m, volts);
    case _ => LastStep(m, volts);
  }

  lemma NextKeepsInv(m: Machine, a: Action, cfg: Config)
    requires cfg.Valid() && Inv(m) && BudgetsSmall(m) && Allowed(a)
    ensures Inv(Next(m, a, cfg))
  {
    match a
    case Thread(volts) => ThreadKeepsInv(m, volts);
    case _ => OtherStep(m, a, cfg);
  }

  lemma {:induction false} InvHolds(m: Machine, actions: seq<Action>, cfg: Config)
    requires cfg.Valid() && Inv(m) && BudgetsSmall(m)
    requires AllAllowed(actions)
    ensures Inv(Interleaved(m, actions, cfg)) && BudgetsSmall(Interleaved(m, actions, cfg))
  {
    if actions != [] {
      var last := |actions| - 1;
      assert actions[last] in actions;
      InvHolds(m, actions[..last], cfg);
      NextKeepsInv(Interleaved(m, actions[..last], cfg), actions[last], cfg);
      BudgetsStaySmall(Interleaved(m, actions[..last], cfg), actions[last], cfg);
    }
  }

  /**
   The power budget, at every point of every interleaving, down to the single writes of the other
   threads: no more pins are on than were when the tick began or than it allows; once its off pass is
   done, no more than it allows; and a tick begins with no more pins on than the tick before allowed.
   So there are never more than ten.
   */
  lemma BudgetHoldsAtEveryWrite(m: Machine, actions: seq<Action>, cfg: Config)
    requires cfg.Valid() && Starting(m) && AllAllowed(actions)
    ensures var n := Interleaved(m, actions, cfg);
      && PinsOn(n.s.h) <= Max(n.atStart, n.budget)
      && (OffPassDone(n.pc) ==> PinsOn(n.s.h) <= n.budget)
      && n.atStart <= n.previous
      && PinsOn(n.s.h) <= MOST_HEATERS_ON
  {
    CountNone(Ons(m.s.h));
    CountNone(Pins(m.s.h));
    InvHolds(m, actions, cfg);
    InvBoundsPins(Interleaved(m, actions, cfg));
  }

  /** A regular tick powers as many heaters as its budget and the positive deltas allow. */
  lemma RegularTickUsesTheBudget(s: State, volts: real, cfg: Config)
    requires cfg.Valid() && !s.g.initialStartup
    ensures PinsOn(Step(s, HeaterTick(volts), cfg).h) == Min(Budget(volts), CountGt(Deltas(TickScan(s)), 0))
  {
    var h := Step(s, HeaterTick(volts), cfg).h;
    assert Pins(h) == Selection(Deltas(TickScan(s)), Budget(volts)) by {
      forall i | 0 <= i < NUM_HEATERS ensures h[i].pin == Chosen(s, i, Budget(volts)) {
        TickHeater(s, volts, i);
      }
    }
    SelectionCount(Deltas(TickScan(s)), Budget(volts));
  }

  lemma StepKeepsPinsOn(s: State, e: Event, cfg: Config)
    requires cfg.Valid() && PinsAreOn(s.h)
    ensures PinsAreOn(Step(s, e, cfg).h)
  {
    forall i | 0 <= i < NUM_HEATERS
      ensures Step(s, e, cfg).h[i].pin ==> Step(s, e, cfg).h[i].isOn
    {
      if e.HeaterTick? {
        TickHeater(s, e.volts, i);
      } else {
        OthersOnlyTurnOff(s, e, cfg, i);
      }
    }
  }

  /** Between two steps of a run a pin is on only where the heater thread knows its heater to be on. */
  lemma {:induction false} PinsAreOnInEveryRun(s: State, es: seq<Event>, cfg: Config)
    requires cfg.Valid() && Initial(s)
    ensures PinsAreOn(Run(s, es, cfg).h)
  {
    if es != [] {
      var last := |es| - 1;
      PinsAreOnInEveryRun(s, es[..last], cfg);
      StepKeepsPinsOn(Run(s, es[..last], cfg), es[last], cfg);
    }
  }
}
