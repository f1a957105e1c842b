/** The activities of the other threads as the sequences of writes that they are. */
module OtherThreads {
  import opened HeaterControl
  import opened HeaterThread
  import opened Supervision

  /** Writes with nothing in between. */
  function Performed(s: State, ws: seq<Write>): State {
    if ws == [] then s else Written(Performed(s, ws[..|ws| - 1]), ws[|ws| - 1])
  }

  lemma PerformedThen(s: State, ws: seq<Write>, w: Write)
    ensures Performed(s, ws + [w]) == Written(Performed(s, ws), w)
  {
    assert (ws + [w])[..|ws|] == ws;
  }

  function AsActions(ws: seq<Write>): (actions: seq<Action>)
    ensures |actions| == |ws| && AllAllowed(actions)
  {
    seq(|ws|, k requires 0 <= k < |ws| => Action.Write(ws[k]))
  }

  lemma {:induction false} PerformedIsInterleaved(m: Machine, ws: seq<Write>, cfg: Config)
    requires cfg.Valid()
    ensures Interleaved(m, AsActions(ws), cfg) == m.(s := Performed(m.s, ws))
  {
    if ws != [] {
      var front := ws[..|ws| - 1];
      PerformedIsInterleaved(m, front, cfg);
      assert AsActions(ws)[..|front|] == AsActions(front);
    }
  }

  // The writes in the order of the source.

  /** Two writes disable a heater: HEATER_OFF and SHUTDOWN drop the pin first, all others clear the flag first. */
  function Halves(i: HeaterIndex, pinFirst: bool): seq<Write> {
    if pinFirst then [DropPin(i)] + [ClearFlag(i)] else [ClearFlag(i)] + [DropPin(i)]
  }

  function AllHalves(n: nat, pinFirst: bool): seq<Write>
    requires n <= NUM_HEATERS
  {
    if n == 0 then [] else AllHalves(n - 1, pinFirst) + Halves(n - 1, pinFirst)
  }

  /** The fault branch of a heater's probe: its own flag, then twice the pin of heater 0. */
  function FaultWrites(i: HeaterIndex): seq<Write> {
    [ClearFlag(i)] + [DropPin(0)] + [DropPin(0)]
  }

  /** The pins and flags that an activity writes; what else it does is in one more write. */
  function DisablingWrites(s: State, e: Event, cfg: Config): seq<Write>
    requires cfg.Valid()
  {
    match e
    case Commanded(_, HeaterOff(i)) => if IsHeater(i) then Halves(i, true) else []
    case Commanded(_, ShutdownRequested) => AllHalves(NUM_HEATERS, true)
    case Commanded(_, EmergencyStop) => AllHalves(NUM_HEATERS, false)
    case StatusTick(uptime, lost) => if StatusDisables(s.g, uptime, lost) then AllHalves(NUM_HEATERS, false) else []
    case Reading(rtd, sample) =>
      if rtd < NUM_HEATERS then
        if Faulty(s.r[rtd], cfg.tables[rtd], sample) then FaultWrites(rtd) else []
      else if HeatsinkDisables(s, e, cfg) then AllHalves(NUM_HEATERS, false) else []
    case VoltageSag => AllHalves(NUM_HEATERS, false)
    case _ => []
  }

  predicate HeatsinkDisables(s: State, e: Event, cfg: Config)
    requires cfg.Valid() && e.Reading?
  {
    && e.rtd == HEATSINK_RTD_INDEX
    && (|| Faulty(s.r[e.rtd], cfg.tables[e.rtd], e.sample)
        || HeatsinkAlarms(s.g, cfg.tables[e.rtd], e.sample, cfg.heatsinkTimeLimit))
  }

  lemma HalvesDisable(s: State, i: HeaterIndex, pinFirst: bool)
    ensures Performed(s, Halves(i, pinFirst)) == s.(h := s.h[i := Disabled(s.h[i])])
  {
    var first, second := Halves(i, pinFirst)[0], Halves(i, pinFirst)[1];
    PerformedThen(s, [], first);
    PerformedThen(s, [] + [first], second);
    assert [] + [first] + [second] == Halves(i, pinFirst);
  }

  lemma {:induction false} PerformedAppend(s: State, a: seq<Write>, b: seq<Write>)
    ensures Performed(s, a + b) == Performed(Performed(s, a), b)
  {
    if b == [] {
      assert a + b == a;
    } else {
      var last := |b| - 1;
      assert (a + b)[..|a + b| - 1] == a + b[..last];
      PerformedAppend(s, a, b[..last]);
    }
  }

  lemma {:induction false} AllHalvesDisable(s: State, n: nat, pinFirst: bool)
    requires n <= NUM_HEATERS
    ensures var t := Performed(s, AllHalves(n, pinFirst));
      && t.r == s.r && t.g == s.g
      && forall j | 0 <= j < NUM_HEATERS :: t.h[j] == if j < n then Disabled(s.h[j]) else s.h[j]
  {
    if 0 < n {
      AllHalvesDisable(s, n - 1, pinFirst);
      PerformedAppend(s, AllHalves(n - 1, pinFirst), Halves(n - 1, pinFirst));
      HalvesDisable(Performed(s, AllHalves(n - 1, pinFirst)), n - 1, pinFirst);
    }
  }

  lemma FaultWritesDisable(s: State, i: HeaterIndex)
    ensures var t := Performed(s, FaultWrites(i));
      forall j | 0 <= j < NUM_HEATERS :: t.h[j] ==
        s.h[j].(enabled := s.h[j].enabled && j != i, pin := s.h[j].pin && j != 0)
  {
    PerformedThen(s, [], ClearFlag(i));
    PerformedThen(s, [] + [ClearFlag(i)], DropPin(0));
    PerformedThen(s, [] + [ClearFlag(i)] + [DropPin(0)], DropPin(0));
    assert [] + [ClearFlag(i)] + [DropPin(0)] + [DropPin(0)] == FaultWrites(i);
  }

  /** The last write finds pins and flags as the activity leaves them. */
  predicate PinsAndFlagsDone(x: Heater, y: Heater) {
    x.pin == y.pin && (x.enabled ==> y.enabled)
  }

  /** What the disabling writes leave of a heater, for the last write to finish. */
  ghost predicate AllButDone(x: Heater, before: Heater, after: Heater) {
    && PinsAndFlagsDone(x, after)
    && x.isOn == before.isOn && x.wasOn == before.wasOn && x.delta == before.delta
  }

  lemma DisablingWritesDone(s: State, e: Event, cfg: Config, j: nat)
    requires cfg.Valid() && j < NUM_HEATERS && !e.HeaterTick?
    ensures AllButDone(Performed(s, DisablingWrites(s, e, cfg)).h[j], s.h[j], HeaterAfter(s, e, cfg, j))
  {
    match e
    case Commanded(_, c) => CommandWritesDone(s, e, cfg, j);
    case Reading(_, _) => ReadingWritesDone(s, e, cfg, j);
    case _ => AllHalvesDisable(s, NUM_HEATERS, false);
  }

  lemma ReadingWritesDone(s: State, e: Event, cfg: Config, j: nat)
    requires cfg.Valid() && j < NUM_HEATERS && e.Reading?
    ensures AllButDone(Performed(s, DisablingWrites(s, e, cfg)).h[j], s.h[j], HeaterAfter(s, e, cfg, j))
  {
    if e.rtd < NUM_HEATERS {
      if Faulty(s.r[e.rtd], cfg.tables[e.rtd], e.sample) {
        FaultWritesDisable(s, e.rtd);
      }
    } else if HeatsinkDisables(s, e, cfg) {
      AllHalvesDisable(s, NUM_HEATERS, false);
    }
  }

  lemma CommandWritesDone(s: State, e: Event, cfg: Config, j: nat)
    requires cfg.Valid() && j < NUM_HEATERS && e.Commanded?
    ensures AllButDone(Performed(s, DisablingWrites(s, e, cfg)).h[j], s.h[j], HeaterAfter(s, e, cfg, j))
  {
    match e.command
    case HeaterOff(i) => HeaterOffWritesDone(s, e, cfg, j);
    case ShutdownRequested => AllHalvesDisable(s, NUM_HEATERS, true);
    case EmergencyStop => AllHalvesDisable(s, NUM_HEATERS, false);
    case _ =>
      assert DisablingWrites(s, e, cfg) == [];
      CommandKeepsPin(Effect(s, e.command, cfg, j), s.h[j]);
  }

  lemma HeaterOffWritesDone(s: State, e: Event, cfg: Config, j: nat)
    requires cfg.Valid() && j < NUM_HEATERS && e.Commanded? && e.command.HeaterOff?
    ensures AllButDone(Performed(s, DisablingWrites(s, e, cfg)).h[j], s.h[j], HeaterAfter(s, e, cfg, j))
  {
    var i := e.command.index;
    if IsHeater(i) {
      HalvesDisable(s, i, true);
    }
  }

  lemma CommandKeepsPin(op: Operation, x: Heater)
    requires !op.Disable?
    ensures PinsAndFlagsDone(x, Applied(op, x))
  {
  }

  function ActivityWrites(s: State, e: Event, cfg: Config): seq<Write>
    requires cfg.Valid()
  {
    DisablingWrites(s, e, cfg) + [Rest(Step(s, e, cfg))]
  }

  /** An activity of a run is its writes with nothing in between. */
  lemma ActivityIsItsWrites(s: State, e: Event, cfg: Config)
    requires cfg.Valid() && !e.HeaterTick?
    ensures Performed(s, ActivityWrites(s, e, cfg)) == Step(s, e, cfg)
  {
    var done, t := Performed(s, DisablingWrites(s, e, cfg)), Step(s, e, cfg);
    PerformedThen(s, DisablingWrites(s, e, cfg), Rest(t));
    forall j | 0 <= j < NUM_HEATERS ensures Overwritten(done.h[j], t.h[j]) == t.h[j] {
      DisablingWritesDone(s, e, cfg, j);
      OthersOnlyTurnOff(s, e, cfg, j);
    }
  }

  // Any conduct of the other threads.

  function TurnedDown(x: Heater, y: Heater): Heater {
    x.(pin := x.pin && y.pin, enabled := x.enabled && y.enabled)
  }

  function WritesDown(i: HeaterIndex, y: Heater): seq<Write> {
    if y.pin then if y.enabled then [] else [ClearFlag(i)]
    else if y.enabled then [DropPin(i)] else Halves(i, true)
  }

  lemma WritesDownTurnDown(s: State, i: HeaterIndex, y: Heater)
    ensures Performed(s, WritesDown(i, y)) == s.(h := s.h[i := TurnedDown(s.h[i], y)])
  {
    if !y.pin && !y.enabled {
      HalvesDisable(s, i, true);
    } else if y.pin && y.enabled {
      assert s.h[i := TurnedDown(s.h[i], y)] == s.h;
    } else {
      PerformedThen(s, [], if y.pin then ClearFlag(i) else DropPin(i));
    }
  }

  function WritesDownTo(t: State, n: nat): seq<Write>
    requires n <= NUM_HEATERS
  {
    if n == 0 then [] else WritesDownTo(t, n - 1) + WritesDown(n - 1, t.h[n - 1])
  }

  lemma {:induction false} WritesTurnDown(s: State, t: State, n: nat)
    requires n <= NUM_HEATERS
    ensures var u := Performed(s, WritesDownTo(t, n));
      forall j | 0 <= j < NUM_HEATERS :: u.h[j] == if j < n then TurnedDown(s.h[j], t.h[j]) else s.h[j]
  {
    if 0 < n {
      WritesTurnDown(s, t, n - 1);
      PerformedAppend(s, WritesDownTo(t, n - 1), WritesDown(n - 1, t.h[n - 1]));
      WritesDownTurnDown(Performed(s, WritesDownTo(t, n - 1)), n - 1, t.h[n - 1]);
    }
  }

  /**
   Nothing else is possible to the other threads: any move of theirs that turns no pin on and leaves
   the heater thread's fields alone is a sequence of their writes.
   */
  lemma EveryMoveIsWrites(s: State, t: State) returns (ws: seq<Write>)
    requires forall i | 0 <= i < NUM_HEATERS :: OnlyTurnedOff(s.h[i], t.h[i])
    ensures Performed(s, ws) == t
  {
    var front := WritesDownTo(t, NUM_HEATERS);
    ws := front + [Rest(t)];
    WritesTurnDown(s, t, NUM_HEATERS);
    PerformedThen(s, front, Rest(t));
    forall i | 0 <= i < NUM_HEATERS ensures Overwritten(TurnedDown(s.h[i], t.h[i]), t.h[i]) == t.h[i] {
      assert OnlyTurnedOff(s.h[i], t.h[i]);
    }
    assert Performed(s, ws).h == t.h;
  }
}
