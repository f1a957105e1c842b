/** The loops of a heater tick, each as a function of how far it has come, and their composition. */
module TickPasses {
  import opened HeaterControl
  import opened HeaterTicks
  import opened TopK

  // The passes that treat each heater on its own.

  /** The bank after `f` has been applied to its first `n` heaters. */
  function Partially(h: Bank, n: nat, f: Heater -> Heater): Bank {
    seq(NUM_HEATERS, i requires 0 <= i < NUM_HEATERS => if i < n then f(h[i]) else h[i])
  }

  lemma PartiallyNothing(h: Bank, f: Heater -> Heater)
    ensures Partially(h, 0, f) == h
  {
  }

  lemma PartiallyOneMore(h: Bank, n: nat, f: Heater -> Heater)
    requires n < NUM_HEATERS
    ensures var k := Partially(h, n, f); k[n := f(k[n])] == Partially(h, n + 1, f)
  {
  }

  function TurnedOff(x: Heater): Heater {
    if x.wasOn && !x.isOn then x.(pin := false) else x
  }

  function TurnedOn(x: Heater): Heater {
    x.(pin := x.isOn)
  }

  function Cleared(x: Heater): Heater {
    x.(pin := false, isOn := false, wasOn := false)
  }

  function Lit(x: Heater): Heater {
    x.(pin := true, wasOn := x.isOn, isOn := true)
  }

  function SettledHeater(x: Heater): Heater {
    x.(setpointChanged := x.setpointChanged && !InBand(x))
  }

  function SettledBank(h: Bank): Bank {
    seq(NUM_HEATERS, i requires 0 <= i < NUM_HEATERS => SettledHeater(h[i]))
  }

  function SettledGlobals(h: Bank, g: Globals): Globals {
    var complete := g.startupComplete || ReachesTemperature(h);
    g.(startupComplete := complete,
       initialStartup := g.initialStartup && !ReachesTemperature(h),
       startupTime := if complete then 0 else U32(g.startupTime + 1))
  }

  /** The marks that the matching loop leaves: chosen heaters have their delta zeroed. */
  function MarkedBank(h: Bank, k: nat): Bank {
    seq(NUM_HEATERS, i requires 0 <= i < NUM_HEATERS => Marked(h[i], Selected(Deltas(h), i, k)))
  }

  // The delta loop.

  lemma ScanNothing(h: Bank, complete: bool, cleaning: bool)
    ensures Scan(h, 0, complete, cleaning) == h
  {
  }

  lemma ScanOneMoreAt(h: Bank, n: nat, complete: bool, cleaning: bool, i: nat)
    requires n < NUM_HEATERS && i < NUM_HEATERS
    ensures ScanOne(Scan(h, n, complete, cleaning), n, complete, cleaning)[i]
         == ScannedTo(h, n + 1, i, complete, cleaning)
  {
    assert Scan(h, n, complete, cleaning)[n] == AtVisit(h, n, complete, cleaning);
  }

  /** One more iteration of the delta loop extends the closed form of the scan by one. */
  lemma ScanOneMore(h: Bank, n: nat, complete: bool, cleaning: bool)
    requires n < NUM_HEATERS
    ensures ScanOne(Scan(h, n, complete, cleaning), n, complete, cleaning) == Scan(h, n + 1, complete, cleaning)
  {
    forall i | 0 <= i < NUM_HEATERS
      ensures ScanOne(Scan(h, n, complete, cleaning), n, complete, cleaning)[i] == Scan(h, n + 1, complete, cleaning)[i]
    {
      ScanOneMoreAt(h, n, complete, cleaning, i);
    }
  }

  // The startup pass.

  /** How many heaters the startup pass has lit before position `p`. */
  function LitCount(h: Bank, p: nat, k: nat): nat
    requires p <= NUM_HEATERS
  {
    Min(k, Count(EligibleInOrder(h)[..p]))
  }

  /** The cleared bank after the startup pass has gone through the first `p` positions of its order. */
  function LitUpTo(h: Bank, p: nat, k: nat): Bank {
    seq(NUM_HEATERS, i requires 0 <= i < NUM_HEATERS =>
      if STARTUP_POSITION[i] < p && StartsFirst(h, i, k) then Lit(Cleared(h[i])) else Cleared(h[i]))
  }

  lemma LitNothing(h: Bank, k: nat)
    ensures LitUpTo(h, 0, k) == Partially(h, NUM_HEATERS, Cleared) && LitCount(h, 0, k) == 0
  {
  }

  lemma LitCountOneMore(h: Bank, p: nat, k: nat)
    requires p < NUM_HEATERS
    ensures var light := LitCount(h, p, k) < k && EligibleInOrder(h)[p];
      && LitCount(h, p + 1, k) == LitCount(h, p, k) + (if light then 1 else 0)
      && light == StartsFirst(h, InOrder(p), k)
  {
    var b := EligibleInOrder(h);
    assert b[..p + 1][..p] == b[..p];
  }

  /** One more position of the order: its heater is lit if there is room and it is eligible. */
  lemma LitOneMore(h: Bank, p: nat, k: nat)
    requires p < NUM_HEATERS
    ensures var i := InOrder(p);
      var b, lit := LitUpTo(h, p, k), LitCount(h, p, k);
      var light := lit < k && Eligible(b[i]);
      && LitUpTo(h, p + 1, k) == (if light then b[i := Lit(b[i])] else b)
      && LitCount(h, p + 1, k) == if light then lit + 1 else lit
  {
    LitCountOneMore(h, p, k);
    var i := InOrder(p);
    assert Eligible(LitUpTo(h, p, k)[i]) == EligibleInOrder(h)[p];
    assert forall j | 0 <= j < NUM_HEATERS && STARTUP_POSITION[j] == p :: j == i;
  }

  // Composition.

  function Marked(x: Heater, chosen: bool): Heater {
    if chosen then x.(isOn := true, delta := 0) else x
  }

  lemma PassesResolve(x: Heater, chosen: bool)
    requires !x.isOn
    ensures SettledHeater(TurnedOn(TurnedOff(Marked(x, chosen)))) == Resolved(x, chosen)
  {
  }

  lemma SameTemperatures(h: Bank, k: Bank)
    requires forall i | 0 <= i < NUM_HEATERS ::
      h[i].enabled == k[i].enabled && h[i].temp == k[i].temp && h[i].setpoint == k[i].setpoint
    ensures AllEnabledAtTemperature(h) == AllEnabledAtTemperature(k)
    ensures SomeEnabled(h) == SomeEnabled(k)
  {
  }

  /** The two passes over a marked bank. */
  function Passed(h: Bank): Bank {
    Partially(Partially(h, NUM_HEATERS, TurnedOff), NUM_HEATERS, TurnedOn)
  }

  lemma PassedIsResolved(s: State, volts: real, i: nat)
    requires i < NUM_HEATERS && !s.g.initialStartup
    ensures SettledHeater(Passed(MarkedBank(TickScan(s), Budget(volts)))[i]) == HeaterAfterTick(s, volts, i)
  {
    ScanHeater(s.h, i, s.g.startupComplete, s.g.cleaning);
    PassesResolve(TickScan(s)[i], Chosen(s, i, Budget(volts)));
  }

  lemma PassesKeepTemperatures(h: Bank, k: nat)
    ensures ReachesTemperature(Passed(MarkedBank(h, k))) == ReachesTemperature(h)
  {
    var on := Passed(MarkedBank(h, k));
    assert forall i | 0 <= i < NUM_HEATERS :: on[i] == TurnedOn(TurnedOff(MarkedBank(h, k)[i]));
    SameTemperatures(h, on);
  }

  /** The loops of a regular tick, one after the other, are the regular tick. */
  lemma RegularPasses(s: State, volts: real, cfg: Config)
    requires cfg.Valid() && !s.g.initialStartup
    ensures var on := Passed(MarkedBank(TickScan(s), Budget(volts)));
      Step(s, HeaterTick(volts), cfg) == State(SettledBank(on), s.r, SettledGlobals(on, s.g))
  {
    var on := Passed(MarkedBank(TickScan(s), Budget(volts)));
    var t := Step(s, HeaterTick(volts), cfg);
    assert t.r == s.r;
    assert t.h == SettledBank(on) by {
      forall i | 0 <= i < NUM_HEATERS ensures t.h[i] == SettledBank(on)[i] {
        PassedIsResolved(s, volts, i);
      }
    }
    PassesKeepTemperatures(TickScan(s), Budget(volts));
  }

  lemma LitIsStartup(s: State, volts: real, i: nat)
    requires i < NUM_HEATERS && s.g.initialStartup && s.g.startupMessage
    ensures LitUpTo(s.h, NUM_HEATERS, Budget(volts))[i] == HeaterAfterTick(s, volts, i)
  {
  }

  lemma LightingKeepsTemperatures(h: Bank, k: nat)
    ensures AllEnabledAtTemperature(LitUpTo(h, NUM_HEATERS, k)) == AllEnabledAtTemperature(h)
  {
    SameTemperatures(h, LitUpTo(h, NUM_HEATERS, k));
  }

  /** The loops of a startup tick, one after the other, are the startup tick. */
  lemma StartupPasses(s: State, volts: real, cfg: Config)
    requires cfg.Valid() && s.g.initialStartup && s.g.startupMessage
    ensures var lit := LitUpTo(s.h, NUM_HEATERS, Budget(volts));
      var t := U32(s.g.startupTime + 1);
      Step(s, HeaterTick(volts), cfg)
        == State(lit, s.r, s.g.(startupTime := t, initialStartup := !LeavesStartup(lit, t)))
  {
    var lit := LitUpTo(s.h, NUM_HEATERS, Budget(volts));
    var t := Step(s, HeaterTick(volts), cfg);
    assert t.r == s.r;
    assert t.h == lit by {
      forall i | 0 <= i < NUM_HEATERS ensures t.h[i] == lit[i] {
        LitIsStartup(s, volts, i);
      }
    }
    LightingKeepsTemperatures(s.h, Budget(volts));
  }
}
