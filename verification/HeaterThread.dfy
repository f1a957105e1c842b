/**
 The heater thread a write at a time, and what the other threads may do between any two of its steps:
 a whole activity, or any single write of one.
 */
module HeaterThread {
  import opened HeaterControl
  import opened Supervision
  import opened TickPasses
  import opened TopK

  type HeaterIndex = i: nat | i < NUM_HEATERS

  /**
   Where the heater thread is within a tick. It has tested a heater of the startup order before it
   writes its pin, and has cleared the flags of an alarmed shelf before it drops the pins.
   */
  datatype Phase =
    | Waiting
    | Scanning(i: HeaterIndex)
    | Dropping(i: HeaterIndex, trips: bool)
    | Choosing
    | TurningOff(i: HeaterIndex)
    | TurningOn(i: HeaterIndex)
    | Settling
    | AllOff(i: HeaterIndex)
    | Testing(p: HeaterIndex, lit: nat)
    | Lighting(p: HeaterIndex, lit: nat, light: bool)
    | EndingStartup

  /** The budgets are this tick's and the one before's; `atStart` is how many pins were on when it began. */
  datatype Machine = Machine(s: State, pc: Phase, budget: nat, previous: nat, atStart: nat)

  function Pins(h: Bank): (b: seq<bool>)
    ensures |b| == NUM_HEATERS
  {
    seq(NUM_HEATERS, i requires 0 <= i < NUM_HEATERS => h[i].pin)
  }

  function Ons(h: Bank): (b: seq<bool>)
    ensures |b| == NUM_HEATERS
  {
    seq(NUM_HEATERS, i requires 0 <= i < NUM_HEATERS => h[i].isOn)
  }

  function PinsOn(h: Bank): nat {
    Count(Pins(h))
  }

  /** The delta loop's work on heater `i`, short of dropping the pins of a shelf that it disables. */
  function Flagged(h: Bank, i: nat, complete: bool, cleaning: bool): Bank
    requires i < NUM_HEATERS
  {
    var x := Visited(h[i], complete, cleaning);
    if Trips(h[i], complete, cleaning) then
      h[i := x.(pin := h[i].pin)][Sibling(i) := h[Sibling(i)].(enabled := false)]
    else h[i := x]
  }

  function Unpowered(x: Heater): Heater {
    x.(pin := false)
  }

  function ShelfDropped(h: Bank, i: nat): Bank
    requires i < NUM_HEATERS
  {
    h[i := Unpowered(h[i])][Sibling(i) := Unpowered(h[Sibling(i)])]
  }

  /** Flags first, then pins: the iteration of the delta loop. */
  lemma FlagThenDrop(h: Bank, i: nat, complete: bool, cleaning: bool)
    requires i < NUM_HEATERS
    ensures ScanOne(h, i, complete, cleaning) ==
      if Trips(h[i], complete, cleaning) then ShelfDropped(Flagged(h, i, complete, cleaning), i)
      else Flagged(h, i, complete, cleaning)
  {
  }

  /** One step of the heater thread; each write that turns a pin on is a step of its own. */
  function ThreadStep(m: Machine, volts: real): Machine {
    var h, g := m.s.h, m.s.g;
    match m.pc
    case Waiting =>
      if !Schedules(g) then m
      else if g.initialStartup then
        Machine(m.s.(g := g.(startupTime := U32(g.startupTime + 1))), AllOff(0), Budget(volts), m.budget, PinsOn(h))
      else Machine(m.s, Scanning(0), Budget(volts), m.budget, PinsOn(h))
    case Scanning(i) =>
      m.(s := m.s.(h := Flagged(h, i, g.startupComplete, g.cleaning)),
         pc := Dropping(i, Trips(h[i], g.startupComplete, g.cleaning)))
    case Dropping(i, trips) =>
      m.(s := if trips then m.s.(h := ShelfDropped(h, i)) else m.s,
         pc := if i + 1 < NUM_HEATERS then Scanning(i + 1) else Choosing)
    case Choosing => m.(s := m.s.(h := MarkedBank(h, m.budget)), pc := TurningOff(0))
    case TurningOff(i) =>
      m.(s := m.s.(h := h[i := TurnedOff(h[i])]),
         pc := if i + 1 < NUM_HEATERS then TurningOff(i + 1) else TurningOn(0))
    case TurningOn(i) =>
      m.(s := m.s.(h := h[i := TurnedOn(h[i])]),
         pc := if i + 1 < NUM_HEATERS then TurningOn(i + 1) else Settling)
    case Settling => m.(s := m.s.(h := SettledBank(h), g := SettledGlobals(h, g)), pc := Waiting)
    case AllOff(i) =>
      m.(s := m.s.(h := h[i := Cleared(h[i])]),
         pc := if i + 1 < NUM_HEATERS then AllOff(i + 1) else Testing(0, 0))
    case Testing(p, lit) =>
      m.(pc := Lighting(p, lit, lit < m.budget && Eligible(h[InOrder(p)])))
    case Lighting(p, lit, light) =>
      var i := InOrder(p);
      var next := if light then lit + 1 else lit;
      m.(s := if light then m.s.(h := h[i := Lit(h[i])]) else m.s,
         pc := if p + 1 < NUM_HEATERS then Testing(p + 1, next) else EndingStartup)
    case EndingStartup =>
      m.(s := m.s.(g := g.(initialStartup := !LeavesStartup(h, g.startupTime))), pc := Waiting)
  }

  // The other threads.

  /**
   One write of another thread: a pin is dropped, a flag is cleared, or anything else takes its value
   from `t`. Only the heater thread turns pins on and writes what it decides by; flags may be set.
   */
  datatype Write =
    | DropPin(i: HeaterIndex)
    | ClearFlag(i: HeaterIndex)
    | Rest(t: State)

  function Overwritten(x: Heater, y: Heater): Heater {
    y.(pin := x.pin, isOn := x.isOn, wasOn := x.wasOn, delta := x.delta, enabled := x.enabled || y.enabled)
  }

  function Written(s: State, w: Write): State {
    match w
    case DropPin(i) => s.(h := s.h[i := s.h[i].(pin := false)])
    case ClearFlag(i) => s.(h := s.h[i := s.h[i].(enabled := false)])
    case Rest(t) => t.(h := seq(NUM_HEATERS, i requires 0 <= i < NUM_HEATERS => Overwritten(s.h[i], t.h[i])))
  }

  lemma WritesOnlyTurnOff(s: State, w: Write, i: nat)
    requires i < NUM_HEATERS
    ensures OnlyTurnedOff(s.h[i], Written(s, w).h[i])
  {
  }

  /** A step of the heater thread, a whole activity of another thread, or one write of one. */
  datatype Action = Thread(volts: real) | Other(e: Event) | Write(w: Write)

  predicate Allowed(a: Action) {
    a.Other? ==> !a.e.HeaterTick?
  }

  ghost predicate AllAllowed(actions: seq<Action>) {
    forall a | a in actions :: Allowed(a)
  }

  function Next(m: Machine, a: Action, cfg: Config): Machine
    requires cfg.Valid()
  {
    match a
    case Thread(volts) => ThreadStep(m, volts)
    case Other(e) => m.(s := Step(m.s, e, cfg))
    case Write(w) => m.(s := Written(m.s, w))
  }

  function Interleaved(m: Machine, actions: seq<Action>, cfg: Config): Machine
    requires cfg.Valid()
  {
    if actions == [] then m
    else Next(Interleaved(m, actions[..|actions| - 1], cfg), actions[|actions| - 1], cfg)
  }

  lemma OthersOnlyTurnOffHere(m: Machine, a: Action, cfg: Config, i: nat)
    requires cfg.Valid() && i < NUM_HEATERS && Allowed(a) && !a.Thread?
    ensures OnlyTurnedOff(m.s.h[i], Next(m, a, cfg).s.h[i])
  {
    match a
    case Other(e) => OthersOnlyTurnOff(m.s, e, cfg, i);
    case Write(w) => WritesOnlyTurnOff(m.s, w, i);
  }

  lemma InterleavedThen(m: Machine, actions: seq<Action>, cfg: Config, n: nat)
    requires cfg.Valid() && n < |actions|
    ensures Interleaved(m, actions[..n + 1], cfg) == Next(Interleaved(m, actions[..n], cfg), actions[n], cfg)
  {
    assert actions[..n + 1][..n] == actions[..n];
  }

  lemma {:induction false} InterleavedAppend(m: Machine, a: seq<Action>, b: seq<Action>, cfg: Config)
    requires cfg.Valid()
    ensures Interleaved(m, a + b, cfg) == Interleaved(Interleaved(m, a, cfg), b, cfg)
  {
    if b == [] {
      assert a + b == a;
    } else {
      var last := |b| - 1;
      assert (a + b)[..|a + b| - 1] == a + b[..last];
      InterleavedAppend(m, a, b[..last], cfg);
    }
  }

  /** Before the first tick. */
  ghost predicate Starting(m: Machine) {
    Initial(m.s) && m.pc == Waiting && m.budget == m.previous == m.atStart == 0
  }

  // A tick that nothing interrupts.

  function Iterate<T>(f: T -> T, x: T, n: nat): T {
    if n == 0 then x else f(Iterate(f, x, n - 1))
  }

  lemma {:induction false} IterateAdds<T>(f: T -> T, x: T, a: nat, b: nat)
    ensures Iterate(f, x, a + b) == Iterate(f, Iterate(f, x, a), b)
  {
    if 0 < b {
      IterateAdds(f, x, a, b - 1);
    }
  }

  function Stepping(volts: real): Machine -> Machine {
    m => ThreadStep(m, volts)
  }

  /** `n` steps of the heater thread in a row. */
  function Uninterrupted(m: Machine, volts: real, n: nat): Machine {
    Iterate(Stepping(volts), m, n)
  }

  /** Two steps of the thread are an iteration of the delta loop. */
  lemma ScanningStep(m: Machine, volts: real, h: Bank, n: nat)
    requires n < NUM_HEATERS && m.pc == Scanning(n)
    requires m.s.h == Scan(h, n, m.s.g.startupComplete, m.s.g.cleaning)
    ensures ThreadStep(ThreadStep(m, volts), volts) ==
      m.(s := m.s.(h := Scan(h, n + 1, m.s.g.startupComplete, m.s.g.cleaning)),
         pc := if n + 1 < NUM_HEATERS then Scanning(n + 1) else Choosing)
  {
    FlagThenDrop(m.s.h, n, m.s.g.startupComplete, m.s.g.cleaning);
    ScanOneMore(h, n, m.s.g.startupComplete, m.s.g.cleaning);
  }

  lemma {:induction false} ScanningPhase(m: Machine, volts: real, h: Bank, n: nat)
    requires m.pc == Scanning(0) && m.s.h == h && n <= NUM_HEATERS
    ensures Uninterrupted(m, volts, 2 * n) ==
      m.(s := m.s.(h := Scan(h, n, m.s.g.startupComplete, m.s.g.cleaning)),
         pc := if n < NUM_HEATERS then Scanning(n) else Choosing)
  {
    if n == 0 {
      ScanNothing(h, m.s.g.startupComplete, m.s.g.cleaning);
    } else {
      ScanningPhase(m, volts, h, n - 1);
      TwoMoreSteps(m, volts, n - 1);
      ScanningStep(Uninterrupted(m, volts, 2 * (n - 1)), volts, h, n - 1);
    }
  }

  lemma TwoMoreSteps(m: Machine, volts: real, n: nat)
    ensures Uninterrupted(m, volts, 2 * (n + 1)) == ThreadStep(ThreadStep(Uninterrupted(m, volts, 2 * n), volts), volts)
  {
    assert Uninterrupted(m, volts, 2 * n + 1) == ThreadStep(Uninterrupted(m, volts, 2 * n), volts);
  }

  /** A pass of the thread over the bank, from `m` where it stands at heater 0. */
  lemma {:induction false} TurningOffPhase(m: Machine, volts: real, n: nat)
    requires m.pc == TurningOff(0) && n <= NUM_HEATERS
    ensures Uninterrupted(m, volts, n) ==
      m.(s := m.s.(h := Partially(m.s.h, n, TurnedOff)), pc := if n < NUM_HEATERS then TurningOff(n) else TurningOn(0))
  {
    if n == 0 {
      PartiallyNothing(m.s.h, TurnedOff);
    } else {
      TurningOffPhase(m, volts, n - 1);
      PartiallyOneMore(m.s.h, n - 1, TurnedOff);
    }
  }

  lemma {:induction false} TurningOnPhase(m: Machine, volts: real, n: nat)
    requires m.pc == TurningOn(0) && n <= NUM_HEATERS
    ensures Uninterrupted(m, volts, n) ==
      m.(s := m.s.(h := Partially(m.s.h, n, TurnedOn)), pc := if n < NUM_HEATERS then TurningOn(n) else Settling)
  {
    if n == 0 {
      PartiallyNothing(m.s.h, TurnedOn);
    } else {
      TurningOnPhase(m, volts, n - 1);
      PartiallyOneMore(m.s.h, n - 1, TurnedOn);
    }
  }

  lemma {:induction false} AllOffPhase(m: Machine, volts: real, n: nat)
    requires m.pc == AllOff(0) && n <= NUM_HEATERS
    ensures Uninterrupted(m, volts, n) ==
      m.(s := m.s.(h := Partially(m.s.h, n, Cleared)), pc := if n < NUM_HEATERS then AllOff(n) else Testing(0, 0))
  {
    if n == 0 {
      PartiallyNothing(m.s.h, Cleared);
    } else {
      AllOffPhase(m, volts, n - 1);
      PartiallyOneMore(m.s.h, n - 1, Cleared);
    }
  }

  /** Two steps of the thread are the block of one heater of the startup order. */
  lemma LightingOne(m: Machine, volts: real, h: Bank, n: nat)
    requires n < NUM_HEATERS && m.pc == Testing(n, LitCount(h, n, m.budget)) && m.s.h == LitUpTo(h, n, m.budget)
    ensures ThreadStep(ThreadStep(m, volts), volts) ==
      m.(s := m.s.(h := LitUpTo(h, n + 1, m.budget)),
         pc := if n + 1 < NUM_HEATERS then Testing(n + 1, LitCount(h, n + 1, m.budget)) else EndingStartup)
  {
    LitOneMore(h, n, m.budget);
  }

  lemma {:induction false} LightingPhase(h: Bank, m: Machine, volts: real, n: nat)
    requires m.pc == Testing(0, 0) && m.s.h == Partially(h, NUM_HEATERS, Cleared) && n <= NUM_HEATERS
    ensures Uninterrupted(m, volts, 2 * n) ==
      m.(s := m.s.(h := LitUpTo(h, n, m.budget)),
         pc := if n < NUM_HEATERS then Testing(n, LitCount(h, n, m.budget)) else EndingStartup)
  {
    if n == 0 {
      LitNothing(h, m.budget);
    } else {
      LightingPhase(h, m, volts, n - 1);
      TwoMoreSteps(m, volts, n - 1);
      LightingOne(Uninterrupted(m, volts, 2 * (n - 1)), volts, h, n - 1);
    }
  }

  /** Begin, scan, choose, turn off, turn on, settle: the steps of a regular tick add up. */
  lemma RegularSteps<T>(f: T -> T, x: T, a: nat, b: nat, c: nat) returns (steps: nat)
    ensures Iterate(f, x, steps) == f(Iterate(f, Iterate(f, f(Iterate(f, f(x), a)), b), c))
  {
    assert f(x) == Iterate(f, x, 1) by {
      assert Iterate(f, x, 0) == x;
    }
    IterateAdds(f, x, 1, a);
    IterateAdds(f, x, 1 + a + 1, b);
    IterateAdds(f, x, 1 + a + 1 + b, c);
    steps := 1 + a + 1 + b + c + 1;
  }

  lemma ScanningEnds(m: Machine, volts: real) returns (n: nat)
    requires m.pc == Waiting && !m.s.g.initialStartup
    ensures Uninterrupted(ThreadStep(m, volts), volts, n)
         == Machine(m.s.(h := TickScan(m.s)), Choosing, Budget(volts), m.budget, PinsOn(m.s.h))
  {
    n := 2 * NUM_HEATERS;
    ScanningPhase(ThreadStep(m, volts), volts, m.s.h, NUM_HEATERS);
  }

  lemma TurningOffEnds(m: Machine, volts: real) returns (n: nat)
    requires m.pc == TurningOff(0)
    ensures Uninterrupted(m, volts, n) ==
      m.(s := m.s.(h := Partially(m.s.h, NUM_HEATERS, TurnedOff)), pc := TurningOn(0))
  {
    n := NUM_HEATERS;
    TurningOffPhase(m, volts, n);
  }

  lemma TurningOnEnds(m: Machine, volts: real) returns (n: nat)
    requires m.pc == TurningOn(0)
    ensures Uninterrupted(m, volts, n) == m.(s := m.s.(h := Partially(m.s.h, NUM_HEATERS, TurnedOn)), pc := Settling)
  {
    n := NUM_HEATERS;
    TurningOnPhase(m, volts, n);
  }

  lemma RegularRun(m: Machine, volts: real) returns (steps: nat)
    requires m.pc == Waiting && !m.s.g.initialStartup
    ensures var on := Passed(MarkedBank(TickScan(m.s), Budget(volts)));
      Uninterrupted(m, volts, steps) ==
        Machine(State(SettledBank(on), m.s.r, SettledGlobals(on, m.s.g)),
                Waiting, Budget(volts), m.budget, PinsOn(m.s.h))
  {
    var a := ScanningEnds(m, volts);
    var marked := ThreadStep(Uninterrupted(ThreadStep(m, volts), volts, a), volts);
    var b := TurningOffEnds(marked, volts);
    var c := TurningOnEnds(Uninterrupted(marked, volts, b), volts);
    steps := RegularSteps(Stepping(volts), m, a, b, c);
  }

  lemma AllOffEnds(m: Machine, volts: real) returns (n: nat)
    requires m.pc == AllOff(0)
    ensures Uninterrupted(m, volts, n) ==
      m.(s := m.s.(h := Partially(m.s.h, NUM_HEATERS, Cleared)), pc := Testing(0, 0))
  {
    n := NUM_HEATERS;
    AllOffPhase(m, volts, n);
  }

  lemma LightingEnds(h: Bank, m: Machine, volts: real) returns (n: nat)
    requires m.pc == Testing(0, 0) && m.s.h == Partially(h, NUM_HEATERS, Cleared)
    ensures Uninterrupted(m, volts, n) == m.(s := m.s.(h := LitUpTo(h, NUM_HEATERS, m.budget)), pc := EndingStartup)
  {
    n := 2 * NUM_HEATERS;
    LightingPhase(h, m, volts, NUM_HEATERS);
  }

  /** Begin, turn all off, light, end: the steps of a startup tick add up. */
  lemma StartupSteps<T>(f: T -> T, x: T, begun: T, a: nat, cleared: T, b: nat, lit: T) returns (steps: nat)
    requires f(x) == begun && Iterate(f, begun, a) == cleared && Iterate(f, cleared, b) == lit
    ensures Iterate(f, x, steps) == f(lit)
  {
    assert f(x) == Iterate(f, x, 1) by {
      assert Iterate(f, x, 0) == x;
    }
    IterateAdds(f, x, 1, a);
    IterateAdds(f, x, 1 + a, b);
    steps := 1 + a + b + 1;
  }

  /** The machine of a startup tick at `pc`, when the heaters are `h` and it began at `m`. */
  function InStartup(m: Machine, volts: real, h: Bank, pc: Phase): Machine {
    Machine(State(h, m.s.r, m.s.g.(startupTime := U32(m.s.g.startupTime + 1))),
            pc, Budget(volts), m.budget, PinsOn(m.s.h))
  }

  lemma StartupRun(m: Machine, volts: real) returns (steps: nat)
    requires m.pc == Waiting && m.s.g.initialStartup && m.s.g.startupMessage
    ensures Uninterrupted(m, volts, steps) ==
      ThreadStep(InStartup(m, volts, LitUpTo(m.s.h, NUM_HEATERS, Budget(volts)), EndingStartup), volts)
  {
    var begun := InStartup(m, volts, m.s.h, AllOff(0));
    var cleared := InStartup(m, volts, Partially(m.s.h, NUM_HEATERS, Cleared), Testing(0, 0));
    var lit := InStartup(m, volts, LitUpTo(m.s.h, NUM_HEATERS, Budget(volts)), EndingStartup);
    var a := AllOffEnds(begun, volts);
    var b := LightingEnds(m.s.h, cleared, volts);
    steps := StartupSteps(Stepping(volts), m, begun, a, cleared, b, lit);
  }

  /** The atomic heater tick of a run is the heater thread's steps with nothing in between. */
  lemma AtomicTickIsUninterrupted(m: Machine, volts: real, cfg: Config) returns (steps: nat)
    requires cfg.Valid() && m.pc == Waiting
    ensures Uninterrupted(m, volts, steps).s == Step(m.s, HeaterTick(volts), cfg)
    ensures Uninterrupted(m, volts, steps).pc == Waiting
  {
    if !m.s.g.initialStartup {
      steps := RegularRun(m, volts);
      RegularPasses(m.s, volts, cfg);
    } else if m.s.g.startupMessage {
      steps := StartupRun(m, volts);
      StartupPasses(m.s, volts, cfg);
    } else {
      steps := 0;
      var t := Step(m.s, HeaterTick(volts), cfg);
      assert t.h == m.s.h && t.r == m.s.r;
    }
  }

  // Atomic runs are interleavings.

  function Threads(volts: real, n: nat): (actions: seq<Action>)
    ensures AllAllowed(actions)
  {
    seq(n, _ => Thread(volts))
  }

  lemma {:induction false} UninterruptedIsInterleaved(m: Machine, volts: real, n: nat, cfg: Config)
    requires cfg.Valid()
    ensures Interleaved(m, Threads(volts, n), cfg) == Uninterrupted(m, volts, n)
  {
    if 0 < n {
      UninterruptedIsInterleaved(m, volts, n - 1, cfg);
      assert Threads(volts, n)[..n - 1] == Threads(volts, n - 1);
    }
  }

  /** One event of an atomic run, as actions. */
  lemma EventIsInterleaved(m: Machine, e: Event, cfg: Config) returns (actions: seq<Action>)
    requires cfg.Valid() && m.pc == Waiting
    ensures AllAllowed(actions)
    ensures Interleaved(m, actions, cfg).s == Step(m.s, e, cfg) && Interleaved(m, actions, cfg).pc == Waiting
  {
    if e.HeaterTick? {
      var n := AtomicTickIsUninterrupted(m, e.volts, cfg);
      actions := Threads(e.volts, n);
      UninterruptedIsInterleaved(m, e.volts, n, cfg);
    } else {
      actions := [Other(e)];
      InterleavedThen(m, actions, cfg, 0);
      assert actions[..0] == [] && actions[..1] == actions;
    }
  }

  /** Every atomic run is one of the interleavings. */
  lemma {:induction false} RunIsInterleaved(m: Machine, es: seq<Event>, cfg: Config) returns (actions: seq<Action>)
    requires cfg.Valid() && m.pc == Waiting
    ensures AllAllowed(actions)
    ensures Interleaved(m, actions, cfg).s == Run(m.s, es, cfg) && Interleaved(m, actions, cfg).pc == Waiting
  {
    if es == [] {
      actions := [];
    } else {
      var before := RunIsInterleaved(m, es[..|es| - 1], cfg);
      var last := EventIsInterleaved(Interleaved(m, before, cfg), es[|es| - 1], cfg);
      InterleavedAppend(m, before, last, cfg);
      actions := before + last;
    }
  }
}
