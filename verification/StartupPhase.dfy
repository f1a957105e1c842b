/** The startup phase: which heaters it powers, and that it ends. */
module StartupPhase {
  import opened HeaterControl
  import opened HeaterTicks
  import opened TopK

  // The choice.

  /** The first `k` set flags of a sequence. */
  function FirstSet(b: seq<bool>, k: nat): (r: seq<bool>)
    ensures |r| == |b|
  {
    seq(|b|, p requires 0 <= p < |b| => b[p] && Count(b[..p]) < k)
  }

  lemma {:induction false} FirstSetCount(b: seq<bool>, k: nat)
    ensures Count(FirstSet(b, k)) == Min(k, Count(b))
  {
    if b != [] {
      var last := |b| - 1;
      FirstSetCount(b[..last], k);
      assert forall p | 0 <= p < last :: b[..last][..p] == b[..p];
      assert FirstSet(b, k)[..last] == FirstSet(b[..last], k);
    }
  }

  lemma {:induction false} CountOfPrefix(b: seq<bool>, p: nat, q: nat)
    requires p <= q <= |b|
    ensures Count(b[..p]) <= Count(b[..q])
    decreases q
  {
    if p < q {
      CountOfPrefix(b, p, q - 1);
      assert b[..q][..q - 1] == b[..q - 1];
    }
  }

  /** The startup order lists every heater once. */
  lemma EveryHeaterIsInOrder(i: nat)
    requires i < NUM_HEATERS
    ensures STARTUP_POSITION[i] < NUM_HEATERS && InOrder(STARTUP_POSITION[i]) == i
  {
  }

  /** The order: the lower heaters of slots 1 to 6, then the upper ones of slots 6, 1, 5, 2, 3 and 4. */
  lemma StartupOrderIs(i: nat, j: nat)
    requires i < j < NUM_HEATERS
    ensures var p := STARTUP_POSITION;
      && (i % 2 == 1 && j % 2 == 1 ==> p[i] < p[j])
      && (i % 2 == 1 && j % 2 == 0 ==> p[i] < p[j])
      && (i % 2 == 0 && j % 2 == 1 ==> p[j] < p[i])
    ensures var p := STARTUP_POSITION; p[10] < p[0] < p[8] < p[2] < p[4] < p[6]
  {
  }

  /** An enabled heater below its setpoint. */
  predicate WantsHeat(x: Heater) {
    x.enabled && x.temp < x.setpoint
  }

  /**
   Greedy: a startup tick powers only eligible heaters, never one while an eligible heater earlier
   in the order is off, and as many as the budget and eligibility allow. Every heater has its place
   in the order, so this is said of every heater.
   */
  lemma StartupChoiceIsGreedy(h: Bank, k: nat)
    ensures var on := FirstSet(EligibleInOrder(h), k);
      && (forall i | 0 <= i < NUM_HEATERS :: StartsFirst(h, i, k) == on[STARTUP_POSITION[i]])
      && (forall i | 0 <= i < NUM_HEATERS :: EligibleInOrder(h)[STARTUP_POSITION[i]] == WantsHeat(h[i]))
      && (forall p | 0 <= p < NUM_HEATERS :: on[p] ==> WantsHeat(h[InOrder(p)]))
      && (forall p, q | 0 <= p < q < NUM_HEATERS :: on[q] && WantsHeat(h[InOrder(p)]) ==> on[p])
      && Count(on) == Min(k, Count(EligibleInOrder(h)))
    ensures forall i, j | 0 <= i < NUM_HEATERS && 0 <= j < NUM_HEATERS && STARTUP_POSITION[i] < STARTUP_POSITION[j] ::
      StartsFirst(h, j, k) && WantsHeat(h[i]) ==> StartsFirst(h, i, k)
  {
    forall i | 0 <= i < NUM_HEATERS
      ensures STARTUP_POSITION[i] < NUM_HEATERS && InOrder(STARTUP_POSITION[i]) == i
    {
      EveryHeaterIsInOrder(i);
    }
    var b := EligibleInOrder(h);
    forall p, q | 0 <= p < q < NUM_HEATERS && FirstSet(b, k)[q] && b[p] ensures FirstSet(b, k)[p] {
      CountOfPrefix(b, p, q);
    }
    FirstSetCount(b, k);
  }

  // The exit.

  /** How many of the first `n` heaters are enabled, and how many of those are at temperature. */
  function EnabledCount(h: Bank, n: nat): nat
    requires n <= NUM_HEATERS
  {
    if n == 0 then 0 else EnabledCount(h, n - 1) + if h[n - 1].enabled then 1 else 0
  }

  function AtTemperatureCount(h: Bank, n: nat): (c: nat)
    requires n <= NUM_HEATERS
    ensures c <= EnabledCount(h, n)
  {
    if n == 0 then 0
    else AtTemperatureCount(h, n - 1) +
         if h[n - 1].enabled && AtTemperature(h[n - 1], IsUpper(n - 1)) then 1 else 0
  }

  lemma {:induction false} CountsAgreeUpTo(h: Bank, n: nat)
    requires n <= NUM_HEATERS
    ensures EnabledCount(h, n) == AtTemperatureCount(h, n)
       <==> forall i | 0 <= i < n && h[i].enabled :: AtTemperature(h[i], IsUpper(i))
    ensures 0 < EnabledCount(h, n) <==> exists i | 0 <= i < n :: h[i].enabled
  {
    if 0 < n {
      CountsAgreeUpTo(h, n - 1);
    }
  }

  /** Comparing the two counts is asking whether every enabled heater is at temperature. */
  lemma CountsAgreeIffAllAtTemperature(h: Bank)
    ensures EnabledCount(h, NUM_HEATERS) == AtTemperatureCount(h, NUM_HEATERS) <==> AllEnabledAtTemperature(h)
    ensures 0 < EnabledCount(h, NUM_HEATERS) <==> SomeEnabled(h)
  {
    CountsAgreeUpTo(h, NUM_HEATERS);
  }

  /** Warm enough for the startup phase: a lower heater at its setpoint, an upper one within 10 degrees below it. */
  predicate WarmEnough(x: Heater, i: nat) {
    x.temp >= if i % 2 == 0 then x.setpoint - 10 else x.setpoint
  }

  lemma AtTemperatureIsWarmEnough(h: Bank)
    ensures AllEnabledAtTemperature(h) <==> forall i | 0 <= i < NUM_HEATERS && h[i].enabled :: WarmEnough(h[i], i)
  {
    assert forall i | 0 <= i < NUM_HEATERS :: AtTemperature(h[i], IsUpper(i)) == WarmEnough(h[i], i);
  }

  /** A STARTUP that is carried out: outside cleaning mode, it restarts the startup timer. */
  predicate AcceptsStartup(s: State, e: Event) {
    e.Commanded? && e.command == Startup && !s.g.cleaning
  }

  ghost predicate NeverAcceptsStartup(s: State, es: seq<Event>, cfg: Config)
    requires cfg.Valid()
  {
    forall n | 0 <= n < |es| :: !AcceptsStartup(Run(s, es[..n], cfg), es[n])
  }

  function Ticks(es: seq<Event>): nat {
    if es == [] then 0 else Ticks(es[..|es| - 1]) + if es[|es| - 1].HeaterTick? then 1 else 0
  }

  /** The startup phase, once the message has come, with its timer short of the limit. */
  predicate StartingUp(g: Globals) {
    g.initialStartup && g.startupMessage && g.startupTime < MAX_STARTUP_REACH_SETPOINT_TIME
  }

  lemma StartupStep(s: State, e: Event, cfg: Config)
    requires cfg.Valid() && !AcceptsStartup(s, e)
    ensures var g := GlobalsAfter(s, e, cfg);
      && (!s.g.initialStartup ==> !g.initialStartup)
      && (StartingUp(s.g) && g.initialStartup ==>
            StartingUp(g) && g.startupTime == s.g.startupTime + if e.HeaterTick? then 1 else 0)
  {
  }

  lemma {:induction false} StartupTimerRuns(s: State, es: seq<Event>, cfg: Config)
    requires cfg.Valid() && StartingUp(s.g) && NeverAcceptsStartup(s, es, cfg)
    ensures var g := Run(s, es, cfg).g;
      g.initialStartup ==> StartingUp(g) && g.startupTime == s.g.startupTime + Ticks(es)
  {
    if es != [] {
      var last := |es| - 1;
      var front := es[..last];
      assert forall n | 0 <= n < |front| :: front[..n] == es[..n];
      StartupTimerRuns(s, front, cfg);
      StartupStep(Run(s, front, cfg), es[last], cfg);
    }
  }

  /** Without a further STARTUP, the phase is over once the heater ticks have used up the timer. */
  lemma StartupTerminates(s: State, es: seq<Event>, cfg: Config)
    requires cfg.Valid() && StartingUp(s.g) && NeverAcceptsStartup(s, es, cfg)
    requires Ticks(es) >= MAX_STARTUP_REACH_SETPOINT_TIME - s.g.startupTime
    ensures !Run(s, es, cfg).g.initialStartup
  {
    StartupTimerRuns(s, es, cfg);
  }

  lemma InitialStartupStep(s: State, e: Event, cfg: Config)
    requires cfg.Valid()
    ensures GlobalsAfter(s, e, cfg).initialStartup ==> s.g.initialStartup
    ensures (s.g.initialStartup ==> s.g.startupTime < MAX_STARTUP_REACH_SETPOINT_TIME) ==>
      var g := GlobalsAfter(s, e, cfg);
      g.initialStartup ==> g.startupTime < MAX_STARTUP_REACH_SETPOINT_TIME
  {
  }

  /** With no heater enabled both counts are 0, and the first startup tick ends the phase. */
  lemma NothingEnabledEndsStartup(s: State, cfg: Config, volts: real)
    requires cfg.Valid() && StartingUp(s.g) && !SomeEnabled(s.h)
    ensures !GlobalsAfter(s, HeaterTick(volts), cfg).initialStartup
  {
    StartupEndsExactlyWhen(s, cfg, volts);
    CountsAgreeIffAllAtTemperature(s.h);
  }

  /** Once over, the startup phase never comes back; while it lasts, its timer is short of the limit. */
  lemma {:induction false} StartupNeverReturns(s: State, es: seq<Event>, cfg: Config)
    requires cfg.Valid()
    requires s.g.initialStartup ==> s.g.startupTime < MAX_STARTUP_REACH_SETPOINT_TIME
    ensures var g := Run(s, es, cfg).g;
      && (g.initialStartup ==> s.g.initialStartup && g.startupTime < MAX_STARTUP_REACH_SETPOINT_TIME)
  {
    if es != [] {
      var last := |es| - 1;
      StartupNeverReturns(s, es[..last], cfg);
      InitialStartupStep(Run(s, es[..last], cfg), es[last], cfg);
    }
  }

  /** A startup tick ends the phase exactly when every enabled heater is at temperature or time is up. */
  lemma StartupEndsExactlyWhen(s: State, cfg: Config, volts: real)
    requires cfg.Valid() && StartingUp(s.g)
    ensures !GlobalsAfter(s, HeaterTick(volts), cfg).initialStartup <==>
      || EnabledCount(s.h, NUM_HEATERS) == AtTemperatureCount(s.h, NUM_HEATERS)
      || s.g.startupTime == 2999
    ensures !GlobalsAfter(s, HeaterTick(volts), cfg).initialStartup <==>
      || (forall i | 0 <= i < NUM_HEATERS && s.h[i].enabled :: WarmEnough(s.h[i], i))
      || s.g.startupTime == 2999
  {
    CountsAgreeIffAllAtTemperature(s.h);
    AtTemperatureIsWarmEnough(s.h);
  }

  /** A STARTUP starts the phase by its message, and restarts its timer unless cleaning mode refuses it. */
  lemma StartupCommandStarts(g: Globals)
    ensures var k := GlobalsAfterCommand(g, Startup);
      k == g.(startupMessage := true, startupTime := if g.cleaning then g.startupTime else 0)
  {
  }

  /** Until the message has come a tick of the phase does nothing; any other sets every pin. */
  lemma TickWaitsForStartup(s: State, volts: real, cfg: Config)
    requires cfg.Valid()
    ensures s.g.initialStartup && !s.g.startupMessage ==> Step(s, HeaterTick(volts), cfg) == s
    ensures !s.g.initialStartup || s.g.startupMessage ==>
      forall i | 0 <= i < NUM_HEATERS ::
        var y := Step(s, HeaterTick(volts), cfg).h[i]; y.pin == y.isOn && (y.pin ==> s.h[i].enabled)
  {
    var t := Step(s, HeaterTick(volts), cfg);
    if s.g.initialStartup && !s.g.startupMessage {
      assert t.h == s.h && t.r == s.r;
    } else {
      forall i | 0 <= i < NUM_HEATERS ensures t.h[i].pin == t.h[i].isOn && (t.h[i].pin ==> s.h[i].enabled) {
        TickHeater(s, volts, i);
      }
    }
  }

  /** The timer of a regular tick, until startup is complete. */
  lemma TimerAfterTick(s: State, volts: real, cfg: Config)
    requires cfg.Valid() && !s.g.initialStartup && s.g.startupTime < 4294967295
    ensures var g := GlobalsAfter(s, HeaterTick(volts), cfg);
      g.startupTime == if g.startupComplete then 0 else s.g.startupTime + 1
  {
    U32IsResidue(s.g.startupTime + 1);
  }

  /**
   After the phase, startup is complete from the first tick on that leaves some heater enabled, and
   every one it leaves enabled warm enough.
   */
  lemma StartupCompletesExactlyWhen(s: State, volts: real, cfg: Config)
    requires cfg.Valid() && !s.g.initialStartup
    ensures var t := Step(s, HeaterTick(volts), cfg);
      t.g.startupComplete <==>
        || s.g.startupComplete
        || ( && (exists i | 0 <= i < NUM_HEATERS :: t.h[i].enabled)
             && (forall i | 0 <= i < NUM_HEATERS && t.h[i].enabled :: WarmEnough(s.h[i], i)))
  {
    var t, scan := Step(s, HeaterTick(volts), cfg), TickScan(s);
    AtTemperatureIsWarmEnough(scan);
    forall i | 0 <= i < NUM_HEATERS
      ensures t.h[i].enabled == scan[i].enabled && WarmEnough(scan[i], i) == WarmEnough(s.h[i], i)
    {
      ScanHeater(s.h, i, s.g.startupComplete, s.g.cleaning);
    }
  }
}
