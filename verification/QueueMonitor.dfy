/**
 The queue as its threads see it: every locked section is one step, and a thread whose predicate
 failed is blocked on the condition variable until it is notified, wakes up spuriously, or times out.
 */
module QueueMonitor {
  import opened SafeQueues

  datatype Thread<T> =
    | Running
    | AwaitingRoom(x: T, notified: bool)
    | AwaitingElement(notified: bool)

  datatype Monitor<T> = Monitor(capacity: nat, q: seq<T>, threads: map<nat, Thread<T>>)

  datatype Action<T> =
    | Put(x: T)
    | PutTimed(x: T)
    | Get
    | ShoveFront(x: T)
    | Wake
    | Expire

  /** What one step did to the queue; only the first three change it. */
  datatype Effect<T> =
    | Accepted(x: T)
    | Replaced(x: T)
    | Delivered(x: T)
    | Refused
    | TimedOut
    | Blocked
    | NotEnabled

  datatype Step<T> = Step(tid: nat, action: Action<T>)

  ghost predicate Initial<T>(m: Monitor<T>) {
    m.q == [] && forall t | t in m.threads :: m.threads[t] == Running
  }

  function Notified<T>(th: Thread<T>): Thread<T> {
    match th
    case Running => Running
    case AwaitingRoom(x, _) => AwaitingRoom(x, true)
    case AwaitingElement(_) => AwaitingElement(true)
  }

  /** A state change under the mutex: thread `t` runs on, and everybody waiting is notified. */
  function Change<T>(m: Monitor<T>, t: nat, q: seq<T>): Monitor<T> {
    m.(q := q, threads := (map u | u in m.threads :: Notified(m.threads[u]))[t := Running])
  }

  function Park<T>(m: Monitor<T>, t: nat, th: Thread<T>): Monitor<T> {
    m.(threads := m.threads[t := th])
  }

  /** The predicate of a waiting put, and what follows when it fails. */
  function PutOr<T>(m: Monitor<T>, t: nat, x: T, otherwise: (Monitor<T>, Effect<T>)): (Monitor<T>, Effect<T>) {
    if HasRoom(m.q, m.capacity) then (Change(m, t, m.q + [x]), Accepted(x)) else otherwise
  }

  function GetOr<T>(m: Monitor<T>, t: nat, otherwise: (Monitor<T>, Effect<T>)): (Monitor<T>, Effect<T>) {
    if m.q != [] then (Change(m, t, m.q[1..]), Delivered(m.q[0])) else otherwise
  }

  function Next<T>(m: Monitor<T>, s: Step<T>): (Monitor<T>, Effect<T>) {
    var t := s.tid;
    if t !in m.threads then (m, NotEnabled)
    else match (m.threads[t], s.action)
      case (Running, Put(x)) => PutOr(m, t, x, (m, Refused))
      case (Running, PutTimed(x)) => PutOr(m, t, x, (Park(m, t, AwaitingRoom(x, false)), Blocked))
      case (Running, Get) => GetOr(m, t, (Park(m, t, AwaitingElement(false)), Blocked))
      case (Running, ShoveFront(x)) =>
        (Change(m, t, Shoved(m.q, x)), if m.q == [] then Accepted(x) else Replaced(x))
      case (AwaitingRoom(x, _), Wake) => PutOr(m, t, x, (Park(m, t, AwaitingRoom(x, false)), Blocked))
      case (AwaitingRoom(x, _), Expire) => PutOr(m, t, x, (Park(m, t, Running), TimedOut))
      case (AwaitingElement(_), Wake) => GetOr(m, t, (Park(m, t, AwaitingElement(false)), Blocked))
      case (AwaitingElement(_), Expire) => GetOr(m, t, (Park(m, t, Running), TimedOut))
      case _ => (m, NotEnabled)
  }

  // The buffer under the mutex: each locked section does to it what the step says.

  ghost predicate Represents<T(0)>(queue: SafeQueue<T>, m: Monitor<T>)
    reads queue, queue.cells
  {
    queue.Valid() && queue.capacity == m.capacity && queue.Contents() == m.q
  }

  /** What a wait that has not succeeded is reported as: its thread blocks, unless its time is up. */
  function Waiting<T>(expired: bool): Effect<T> {
    if expired then TimedOut else Blocked
  }

  /** The predicate of a timed put is evaluated: the put goes on if it holds, or if the time is up. */
  method PutStep<T(0)>(queue: SafeQueue<T>, x: T, expired: bool) returns (effect: Effect<T>)
    requires queue.Valid()
    modifies queue`front, queue`rear, queue.cells
    ensures queue.Valid()
    ensures var room := HasRoom(old(queue.Contents()), queue.capacity);
      && effect == (if room then Accepted(x) else Waiting(expired))
      && queue.Contents() == if room then old(queue.Contents()) + [x] else old(queue.Contents())
  {
    effect := Blocked;
    if expired || !queue.IsFull() {
      var status := queue.PutAfterWait(x);
      effect := if status == 0 then Accepted(x) else TimedOut;
    }
  }

  method GetStep<T(0)>(queue: SafeQueue<T>, unset: T, expired: bool) returns (effect: Effect<T>)
    requires queue.Valid()
    modifies queue`front, queue`rear
    ensures queue.Valid()
    ensures var q := old(queue.Contents());
      if q == [] then effect == Waiting(expired) && queue.Contents() == q
      else effect == Delivered(q[0]) && queue.Contents() == q[1..]
  {
    effect := Blocked;
    if expired || !queue.IsEmpty() {
      var status, x := queue.GetAfterWait(unset);
      effect := if status == 0 then Delivered(x) else TimedOut;
    }
  }

  /**
   One step of a thread on the circular buffer: its methods do to the contents, and report, exactly
   what the state machine's step does to the sequence.
   */
  method Perform<T(0)>(queue: SafeQueue<T>, ghost m: Monitor<T>, s: Step<T>, th: Thread<T>, unset: T)
    returns (effect: Effect<T>)
    requires Represents(queue, m) && s.tid in m.threads && m.threads[s.tid] == th
    modifies queue`front, queue`rear, queue.cells
    ensures Represents(queue, Next(m, s).0) && effect == Next(m, s).1
  {
    effect := NotEnabled;
    match (th, s.action) {
      case (Running, Put(x)) =>
        var status := queue.Put(x);
        effect := if status == 0 then Accepted(x) else Refused;
      case (Running, PutTimed(x)) => effect := PutStep(queue, x, false);
      case (Running, Get) => effect := GetStep(queue, unset, false);
      case (Running, ShoveFront(x)) =>
        effect := if queue.IsEmpty() then Accepted(x) else Replaced(x);
        var _ := queue.ShoveFront(x);
      case (AwaitingRoom(x, _), Wake) => effect := PutStep(queue, x, false);
      case (AwaitingRoom(x, _), Expire) => effect := PutStep(queue, x, true);
      case (AwaitingElement(_), Wake) => effect := GetStep(queue, unset, false);
      case (AwaitingElement(_), Expire) => effect := GetStep(queue, unset, true);
      case _ =>
    }
  }

  function Run<T>(m: Monitor<T>, steps: seq<Step<T>>): (Monitor<T>, seq<Effect<T>>) {
    if steps == [] then (m, [])
    else
      var last := |steps| - 1;
      var (before, effects) := Run(m, steps[..last]);
      var (after, effect) := Next(before, steps[last]);
      (after, effects + [effect])
  }

  // The sequential account of a history: what was accepted, and what was delivered.

  datatype Ledger<T> = Ledger(accepted: seq<T>, delivered: seq<T>)

  /**
   Elements are entered in the order of their acceptance. A replacement rewrites the oldest entry
   that has not been delivered; a delivery is recorded as it was observed.
   */
  function Enter<T>(l: Ledger<T>, effect: Effect<T>): Ledger<T> {
    match effect
    case Accepted(x) => l.(accepted := l.accepted + [x])
    case Replaced(x) =>
      if |l.delivered| < |l.accepted| then l.(accepted := l.accepted[|l.delivered| := x]) else l
    case Delivered(x) => l.(delivered := l.delivered + [x])
    case _ => l
  }

  function Account<T>(effects: seq<Effect<T>>): Ledger<T> {
    if effects == [] then Ledger([], [])
    else Enter(Account(effects[..|effects| - 1]), effects[|effects| - 1])
  }

  // Safety over every interleaving.

  ghost predicate Bounded<T>(m: Monitor<T>) {
    |m.q| <= Limit(m.capacity)
  }

  /** Whoever is blocked without a pending notification has nothing to wake up for. */
  ghost predicate NoLostWakeup<T>(m: Monitor<T>) {
    forall t | t in m.threads ::
      match m.threads[t]
      case AwaitingRoom(_, false) => !HasRoom(m.q, m.capacity)
      case AwaitingElement(false) => m.q == []
      case _ => true
  }

  /** What each effect says about the queue; steps that fail or block leave it alone. */
  lemma EffectOfNext<T>(m: Monitor<T>, s: Step<T>)
    ensures var (n, effect) := Next(m, s);
      n.capacity == m.capacity &&
      match effect
      case Accepted(x) => n.q == m.q + [x]
      case Replaced(x) => m.q != [] && n.q == m.q[0 := x]
      case Delivered(x) => m.q == [x] + n.q
      case _ => n.q == m.q
  {
  }

  /** The thread's step evaluates the predicate of a wait: it begins to wait, or wakes up. */
  predicate Evaluates<T>(th: Thread<T>, a: Action<T>) {
    match (th, a)
    case (Running, PutTimed(_)) => true
    case (Running, Get) => true
    case (AwaitingRoom(_, _), Wake) => true
    case (AwaitingElement(_), Wake) => true
    case _ => false
  }

  /** The predicate that the thread's step is about: room for a put, an element for a get. */
  predicate Satisfied<T>(m: Monitor<T>, th: Thread<T>, a: Action<T>) {
    if a.Get? || th.AwaitingElement? then |m.q| > 0 else |m.q| < Limit(m.capacity)
  }

  /**
   Which steps do not succeed: a put that does not wait is refused exactly when there is no room, a
   waiting call blocks exactly while its predicate is false, and its expiry times it out exactly then.
   */
  lemma UnsuccessfulExactlyWhen<T>(m: Monitor<T>, s: Step<T>)
    requires s.tid in m.threads
    ensures var th, effect := m.threads[s.tid], Next(m, s).1;
      && (effect.Refused? <==> th.Running? && s.action.Put? && !Satisfied(m, th, s.action))
      && (effect.Blocked? <==> Evaluates(th, s.action) && !Satisfied(m, th, s.action))
      && (effect.TimedOut? <==> !th.Running? && s.action.Expire? && !Satisfied(m, th, s.action))
    ensures var th, n := m.threads[s.tid], Next(m, s);
      n.0.threads[s.tid] ==
        match n.1
        case Blocked => if th.AwaitingRoom? then AwaitingRoom(th.x, false)
                        else if s.action.PutTimed? then AwaitingRoom(s.action.x, false) else AwaitingElement(false)
        case NotEnabled => th
        case _ => Running
  {
  }

  lemma NextKeepsBound<T>(m: Monitor<T>, s: Step<T>)
    requires 2 <= m.capacity && Bounded(m)
    ensures Bounded(Next(m, s).0)
  {
  }

  lemma NextLosesNoWakeup<T>(m: Monitor<T>, s: Step<T>)
    requires NoLostWakeup(m)
    ensures NoLostWakeup(Next(m, s).0)
  {
  }

  lemma {:induction false} NoWakeupIsEverLost<T>(m: Monitor<T>, steps: seq<Step<T>>)
    requires 2 <= m.capacity && Initial(m)
    ensures var n := Run(m, steps).0;
      n.capacity == m.capacity && Bounded(n) && NoLostWakeup(n)
  {
    if steps != [] {
      var last := |steps| - 1;
      NoWakeupIsEverLost(m, steps[..last]);
      EffectOfNext(Run(m, steps[..last]).0, steps[last]);
      NextKeepsBound(Run(m, steps[..last]).0, steps[last]);
      NextLosesNoWakeup(Run(m, steps[..last]).0, steps[last]);
    }
  }

  ghost predicate Balanced<T>(l: Ledger<T>, q: seq<T>) {
    l.delivered + q == l.accepted
  }

  lemma NextKeepsBalance<T>(m: Monitor<T>, s: Step<T>, l: Ledger<T>)
    requires Balanced(l, m.q)
    ensures Balanced(Enter(l, Next(m, s).1), Next(m, s).0.q)
  {
    var (n, effect) := Next(m, s);
    EffectOfNext(m, s);
    if effect.Delivered? {
      assert l.delivered + ([effect.x] + n.q) == (l.delivered + [effect.x]) + n.q;
    }
  }

  /**
   Linearisability: over every interleaving, what was delivered followed by what is still queued
   is what was accepted, in the order of acceptance.
   */
  lemma {:induction false} DeliveredThenQueuedIsAccepted<T>(m: Monitor<T>, steps: seq<Step<T>>)
    requires Initial(m)
    ensures Balanced(Account(Run(m, steps).1), Run(m, steps).0.q)
  {
    if steps != [] {
      var last := |steps| - 1;
      DeliveredThenQueuedIsAccepted(m, steps[..last]);
      var (before, effects) := Run(m, steps[..last]);
      var effect := Next(before, steps[last]).1;
      assert (effects + [effect])[..|effects|] == effects;
      NextKeepsBalance(before, steps[last], Account(effects));
    }
  }

  ghost predicate NoShove<T>(steps: seq<Step<T>>) {
    forall s | s in steps :: !s.action.ShoveFront?
  }

  ghost predicate NoDelivery<T>(effects: seq<Effect<T>>) {
    forall e | e in effects :: !e.Delivered?
  }

  /** Until something is delivered or shoved, the shoved element stays in front. */
  lemma {:induction false} ShovedStaysInFront<T>(m: Monitor<T>, x: T, steps: seq<Step<T>>)
    requires m.q != [] && m.q[0] == x
    requires NoShove(steps) && NoDelivery(Run(m, steps).1)
    ensures var n := Run(m, steps).0; n.q != [] && n.q[0] == x
  {
    if steps != [] {
      var last := |steps| - 1;
      var (before, effects) := Run(m, steps[..last]);
      var effect := Next(before, steps[last]).1;
      assert Run(m, steps).1 == effects + [effect];
      assert effect in Run(m, steps).1;
      assert steps[last] in steps;
      ShovedStaysInFront(m, x, steps[..last]);
      EffectOfNext(before, steps[last]);
    }
  }

  /**
   Priority: whatever non-shoving steps come between, the next delivery after a shove is of the
   shoved element, and the next thread that asks or wakes up for one gets it without waiting.
   */
  lemma ShovedIsDeliveredNext<T>(m: Monitor<T>, stopper: nat, x: T, steps: seq<Step<T>>, next: Step<T>)
    requires stopper in m.threads && m.threads[stopper] == Running
    requires var shoved := Next(m, Step(stopper, ShoveFront(x))).0;
      NoShove(steps) && NoDelivery(Run(shoved, steps).1)
    ensures var shoved := Next(m, Step(stopper, ShoveFront(x))).0;
      var n := Run(shoved, steps).0;
      var effect := Next(n, next).1;
      && (effect.Delivered? ==> effect.x == x)
      && (next.tid in n.threads && n.threads[next.tid] == Running && next.action == Get ==> effect == Delivered(x))
      && (next.tid in n.threads && n.threads[next.tid].AwaitingElement? && next.action == Wake ==>
            effect == Delivered(x))
  {
    var shoved := Next(m, Step(stopper, ShoveFront(x))).0;
    ShovedStaysInFront(shoved, x, steps);
  }
}
