/** Runs of the scheduler: handler calls at arbitrary times, interleaved with threads yielding,
    sleeping, blocking, exiting, being woken, killed and created. The invariant holds in every
    reachable state, and every thread that wants the processor gets it within a bounded number
    of handler calls. */
module SchedulerRuns {
  import opened Basics
  import opened Threads
  import opened Scheduler

  datatype Action<T> =
    | Tick(now: nat)                          // timer interrupt or int 0x80
    | Yield                                   // thread_yield, up to its interrupt
    | Sleep(ms: nat, now: nat)                // thread_sleep or event_wait with a timeout, up to its yield
    | Block                                   // mutex_lock or event_wait without a timeout
    | Exit                                    // thread_exit
    | Wake(t: T)                              // event_signal or mutex_unlock reaching a waiter
    | Kill(t: T)                              // DestroyProcess
    | Create(t: T, priority: nat, now: nat)   // thread_create

  ghost predicate Enabled<T>(s: Sched<T>, a: Action<T>)
  {
    Shape(s) &&
    match a
    case Tick(now) => s.clock <= now
    case Yield => s.current != s.idle && s.threads[s.current].state == Running
    case Sleep(ms, now) => ms > 0 && s.clock <= now && s.current != s.idle && s.threads[s.current].state == Running
    case Block => s.current != s.idle && s.threads[s.current].state == Running
    case Exit => s.current != s.idle && s.threads[s.current].state == Running
    case Wake(t) => t in s.ring && (s.threads[t].state == Sleeping || s.threads[t].state == Blocked)
    case Kill(t) => t in s.ring
    case Create(t, priority, now) => t !in s.threads && s.clock <= now && PRIORITY_IDLE <= priority <= PRIORITY_REALTIME
  }

  function With<T>(s: Sched<T>, t: T, b: Thread): Sched<T> {
    s.(threads := s.threads[t := b])
  }

  ghost function Apply<T>(s: Sched<T>, a: Action<T>): Sched<T>
    requires Enabled(s, a)
  {
    match a
    case Tick(now) => HandlerStep(s, now)
    case Yield => With(s, s.current, s.threads[s.current].(ticks := 0))
    case Sleep(ms, now) =>
      With(s, s.current, s.threads[s.current].(state := Sleeping, wakeTick := now + ms, ticks := 0)).(clock := now)
    case Block => With(s, s.current, s.threads[s.current].(state := Blocked, ticks := 0))
    case Exit => With(s, s.current, s.threads[s.current].(state := Dead))
    case Wake(t) => With(s, t, s.threads[t].(state := Ready))
    case Kill(t) => With(s, t, s.threads[t].(state := Dead))
    case Create(t, priority, now) =>
      With(s, t, NewThread(priority, now)).(ring := s.ring + [t], clock := now)
  }

  // ---------------------------------------------------------------- safety

  /** Every action keeps the invariant. */
  lemma ActionKeepsInv<T>(s: Sched<T>, a: Action<T>)
    requires Inv(s) && Enabled(s, a)
    ensures Inv(Apply(s, a)) && Apply(s, a).clock >= s.clock
  {
    if a.Tick? { HandlerKeepsInv(s, a.now); }
  }

  ghost predicate IsRun<T>(s: Sched<T>, acts: seq<Action<T>>)
    decreases |acts|
  {
    acts == [] || (Enabled(s, acts[0]) && IsRun(Apply(s, acts[0]), acts[1..]))
  }

  ghost function After<T>(s: Sched<T>, acts: seq<Action<T>>): Sched<T>
    requires IsRun(s, acts)
    decreases |acts|
  {
    if acts == [] then s else After(Apply(s, acts[0]), acts[1..])
  }

  /** scheduler_init: the boot thread runs and is the whole queue; the idle thread stands by. */
  function Initial<T>(main: T, idle: T, now: nat): Sched<T> {
    Sched([main], map[main := NewThread(3, now).(state := Running), idle := NewThread(PRIORITY_IDLE, now)], main, idle, now, now)
  }

  lemma InitialInv<T>(main: T, idle: T, now: nat)
    requires main != idle
    ensures Inv(Initial(main, idle, now))
  {
  }

  /** Every run from the boot state keeps the invariant, and every handler call in it that finds
      a queue leaves exactly one running thread, of maximal effective priority. */
  lemma {:induction false} RunsAreSafe<T>(s: Sched<T>, acts: seq<Action<T>>, now: nat)
    requires Inv(s) && IsRun(s, acts)
    ensures Inv(After(s, acts))
    ensures now >= After(s, acts).clock && After(s, acts).ring != [] ==> Dispatched(HandlerStep(After(s, acts), now))
    decreases |acts|
  {
    if acts == [] {
      if now >= s.clock { HandlerKeepsInv(s, now); }
    } else {
      ActionKeepsInv(s, acts[0]);
      RunsAreSafe(Apply(s, acts[0]), acts[1..], now);
    }
  }

  // ---------------------------------------------------------------- the starvation boost

  /** t wants the processor in this state and has not got it. */
  ghost predicate Waiting<T>(s: Sched<T>, t: T) {
    t in s.ring && t in s.threads && s.threads[t].state == Ready && t != s.current
  }

  ghost predicate WaitsThroughout<T>(s: Sched<T>, acts: seq<Action<T>>, t: T)
    requires IsRun(s, acts)
    decreases |acts|
  {
    Waiting(s, t) && (acts == [] || WaitsThroughout(Apply(s, acts[0]), acts[1..], t))
  }

  /** What pass 1 makes of a waiting thread. */
  lemma WaiterSettles<T>(s: Sched<T>, now: nat, t: T)
    requires Inv(s) && s.clock <= now && Waiting(s, t)
    ensures var e := EndBoost(AfterPass1(s, now));
            && Settled(e) && t in e.ring && e.current == s.current
            && e.threads[t] == Settle(s.threads[t], now)
  {
    LiveFacts(s.ring, s.threads);
    AfterPass1IsSettled(s, now);
    EndBoostKeepsSettled(AfterPass1(s, now));
  }

  lemma ChooseLeavesWaiters<T>(s: Sched<T>, t: T)
    requires Settled(s) && t in s.ring && t != s.current
    ensures Choose(s).ring == s.ring
    ensures Choose(s).current != t ==> t in Choose(s).threads && Choose(s).threads[t] == s.threads[t]
  {
    MaxLevelIsReached(s.ring, s.threads);
  }

  /** A waiting thread leaves a handler call still waiting or as the current thread; while it
      waits its wait clock stands still, a boost sticks, and a boost is granted once the clock
      has run for SCHED_STARVATION_MS. */
  lemma TickWhileWaiting<T>(s: Sched<T>, now: nat, t: T)
    requires Inv(s) && s.clock <= now && Waiting(s, t)
    ensures var s' := HandlerStep(s, now);
            && t in s'.ring
            && (Waiting(s', t) || s'.current == t)
            && (Waiting(s', t) ==>
                  && s'.threads[t].waitMark == s.threads[t].waitMark
                  && (s.threads[t].boosted || now - s.threads[t].waitMark >= SCHED_STARVATION_MS ==> s'.threads[t].boosted))
  {
    WaiterSettles(s, now, t);
    SettleBounds(s.threads[t], now);
    var e := EndBoost(AfterPass1(s, now));
    assert HandlerStep(s, now) == Choose(e) by { hide Settled, EndBoost, Choose; }
    hide Choose, EndBoost, AfterPass1, Inv, Settled, HandlerStep, Settle;
    ChooseLeavesWaiters(e, t);
  }

  lemma ActionWhileWaiting<T>(s: Sched<T>, a: Action<T>, t: T)
    requires Inv(s) && Enabled(s, a) && Waiting(s, t) && !a.Tick? && a != Kill(t)
    ensures Waiting(Apply(s, a), t) && Apply(s, a).threads[t] == s.threads[t]
  {
  }

  // ---------------------------------------------------------------- the ranking function

  lemma PositionIs<T>(ring: seq<T>, t: T, i: nat)
    requires Distinct(ring) && i < |ring| && ring[i] == t
    ensures Position(ring, t) == i
  {
  }

  /** Links from the outgoing thread forward to t, counting as the search does. */
  ghost function Gap<T>(s: Sched<T>, t: T): (g: nat)
    requires t in s.ring
    ensures 1 <= g <= |s.ring|
  {
    Ahead(SearchStart(s), Position(s.ring, t), |s.ring|) + 1
  }

  ghost function QuantumLeft<T>(s: Sched<T>): nat {
    if s.current in s.ring && s.current in s.threads then s.threads[s.current].ticks else 0
  }

  function Bound(m: nat): nat {
    6 * (m * m) + 6 * m + 5
  }

  /** Queue length first, then ring distance, then what is left of the running quantum, folded
      into one number; r is how many threads may still be created. */
  ghost function RankOf(n: nat, r: nat, g: nat, q: nat): nat {
    6 * ((n + r) * (n + r)) + 6 * (g + r) + q
  }

  ghost function Rank<T>(s: Sched<T>, t: T, r: nat): nat
    requires t in s.ring
  {
    RankOf(|s.ring|, r, Gap(s, t), QuantumLeft(s))
  }

  lemma RankWithinBound<T>(s: Sched<T>, t: T, r: nat, m: nat)
    requires Inv(s) && t in s.ring && |s.ring| + r <= m
    ensures Rank(s, t, r) <= Bound(m)
  {
    QuantumAtMostFive(s);
    hide Inv, QuantumLeft, RankOf, Gap;
    var k := |s.ring| + r;
    SquareMonotone(k, m);
    LinearRank(|s.ring|, r, Gap(s, t), QuantumLeft(s), k * k);
  }

  lemma SquareMonotone(a: nat, b: nat)
    requires a <= b
    ensures a * a <= b * b
  {
    assert a * a <= a * b;
    assert a * b <= b * b;
  }

  /** A shorter queue outweighs any distance and any quantum. */
  lemma ShorterRanksLower(n: nat, n': nat, r: nat, g: nat, g': nat, q: nat, q': nat)
    requires n' < n && 1 <= g && g' <= n' && q' <= 5
    ensures RankOf(n', r, g', q') < RankOf(n, r, g, q)
  {
    SquareBelow(n' + r, n + r);
    hide RankOf;
    LinearRank(n', r, g', q', (n' + r) * (n' + r));
    LinearRank(n, r, g, q, (n + r) * (n + r));
  }

  lemma SquareBelow(a: nat, b: nat)
    requires a < b
    ensures a * a + 2 * b - 1 <= b * b
  {
    assert a * a <= a * (b - 1);
    assert a * (b - 1) <= (b - 1) * (b - 1);
    assert (b - 1) * (b - 1) == b * b - 2 * b + 1;
  }

  lemma LinearRank(n: nat, r: nat, g: nat, q: nat, sq: nat)
    requires sq == (n + r) * (n + r)
    ensures RankOf(n, r, g, q) == 6 * sq + 6 * (g + r) + q
  {
  }

  /** With a boosted thread waiting, the level chosen is the top one. */
  lemma TopLevel<T>(e: Sched<T>, t: T)
    requires Settled(e) && t in e.ring && e.threads[t].state == Ready && e.threads[t].boosted
    ensures MaxPriority(e.ring, e.threads) == PRIORITY_REALTIME
  {
    MaxLevelIsReached(e.ring, e.threads);
  }

  lemma AheadAfterSteps(n: nat, i: nat, p: nat, r: nat)
    requires i < n && p < n && r < Ahead(i, p, n)
    ensures var j := Wrap(i + r, n); 0 <= j < n && Ahead(Wrap(j + 1, n), p, n) == Ahead(i, p, n) - r - 1
  {
  }

  lemma AheadReached(n: nat, i: nat, p: nat)
    requires i < n && p < n
    ensures Wrap(i + Ahead(i, p, n), n) == p
  {
  }

  lemma ChooseSearches<T>(e: Sched<T>, t: T)
    requires Settled(e) && t in e.ring
    requires e.threads[t].state == Ready && e.threads[t].boosted
    requires !(Continues(e) && Effective(e.threads[e.current]) == PRIORITY_REALTIME)
    ensures var r := SearchSteps(e.ring, e.threads, PRIORITY_REALTIME, SearchStart(e), 0);
            && r <= Ahead(SearchStart(e), Position(e.ring, t), |e.ring|)
            && Choose(e).ring == e.ring
            && Choose(e).current == e.ring[Wrap(SearchStart(e) + r, |e.ring|)]
  {
    TopLevel(e, t);
    SearchReaches(e.ring, e.threads, PRIORITY_REALTIME, SearchStart(e), t);
  }

  /** The search brings the processor strictly closer to t along the ring. */
  lemma SearchApproaches<T>(e: Sched<T>, t: T)
    requires Settled(e) && t in e.ring
    requires e.threads[t].state == Ready && e.threads[t].boosted
    requires !(Continues(e) && Effective(e.threads[e.current]) == PRIORITY_REALTIME)
    ensures var c := Choose(e); c.current == t || (c.ring == e.ring && c.current in c.ring && Gap(c, t) < Gap(e, t))
  {
    ChooseSearches(e, t);
    assert Distinct(e.ring);
    hide Choose, Settled, Continues;
    var n, i, p := |e.ring|, SearchStart(e), Position(e.ring, t);
    var r := SearchSteps(e.ring, e.threads, PRIORITY_REALTIME, i, 0);
    if r == Ahead(i, p, n) {
      AheadReached(n, i, p);
    } else {
      AheadAfterSteps(n, i, p, r);
      var j := Wrap(i + r, n);
      PositionIs(e.ring, e.ring[j], j);
    }
  }

  lemma QuantumAtMostFive<T>(s: Sched<T>)
    requires Inv(s)
    ensures QuantumLeft(s) <= 5
  {
  }

  lemma CloserRanksLower(n: nat, r: nat, g: nat, g': nat, q: nat, q': nat)
    requires 6 * g' + q' < 6 * g + q
    ensures RankOf(n, r, g', q') < RankOf(n, r, g, q)
  {
  }

  /** Every handler call that leaves a boosted thread waiting lowers its rank. */
  lemma TickLowersRank<T>(s: Sched<T>, now: nat, t: T, r: nat)
    requires Inv(s) && s.clock <= now && Waiting(s, t) && s.threads[t].boosted
    requires Waiting(HandlerStep(s, now), t)
    ensures Rank(HandlerStep(s, now), t, r) < Rank(s, t, r)
  {
    var s' := HandlerStep(s, now);
    HandlerKeepsInv(s, now);
    assert Distinct(s.ring);
    LiveFacts(s.ring, s.threads);
    QuantumAtMostFive(s');
    assert s.ring != [] && s'.ring == Live(s.ring, s.threads);
    hide HandlerStep, Inv, QuantumLeft, Live, RankOf, Gap;
    if |s'.ring| < |s.ring| {
      ShorterRanksLower(|s.ring|, |s'.ring|, r, Gap(s, t), Gap(s', t), QuantumLeft(s), QuantumLeft(s'));
    } else {
      SameQueueLowersRank(s, now, t);
      CloserRanksLower(|s.ring|, r, Gap(s, t), Gap(s', t), QuantumLeft(s), QuantumLeft(s'));
    }
  }

  /** What the pass leaves of the outgoing thread when nobody has died. */
  lemma OutgoingAfterPass1<T>(s: Sched<T>, now: nat)
    requires Inv(s) && s.clock <= now && s.ring != []
    requires Live(s.ring, s.threads) == s.ring
    ensures var e := EndBoost(AfterPass1(s, now));
            && HandlerStep(s, now) == Choose(e)
            && e.ring == s.ring && e.current == s.current
            && QuantumLeft(e) == QuantumLeft(s)
  {
    LiveFacts(s.ring, s.threads);
    if s.current in s.ring { Pass1Bounds(s, s.current, now); }
  }

  lemma ContinueUsesQuantum<T>(e: Sched<T>)
    requires Settled(e) && MaxPriority(e.ring, e.threads) != -1
    requires Continues(e) && Effective(e.threads[e.current]) == MaxPriority(e.ring, e.threads)
    ensures Choose(e).ring == e.ring && Choose(e).current == e.current && QuantumLeft(Choose(e)) < QuantumLeft(e)
  {
  }

  lemma SameQueueLowersRank<T>(s: Sched<T>, now: nat, t: T)
    requires Inv(s) && s.clock <= now && Waiting(s, t) && s.threads[t].boosted
    requires Waiting(HandlerStep(s, now), t)
    requires Live(s.ring, s.threads) == s.ring
    ensures var s' := HandlerStep(s, now); |s'.ring| == |s.ring| && 6 * Gap(s', t) + QuantumLeft(s') < 6 * Gap(s, t) + QuantumLeft(s)
  {
    var e := EndBoost(AfterPass1(s, now));
    BoostedSettles(s, now, t);
    OutgoingAfterPass1(s, now);
    HandlerKeepsInv(s, now);
    hide Inv, HandlerStep, Choose, EndBoost, AfterPass1, QuantumLeft, Settled, Continues, MaxPriority, Gap;
    QuantumAtMostFive(HandlerStep(s, now));
    TopLevel(e, t);
    GapIs(s, e, t);
    if Continues(e) && Effective(e.threads[e.current]) == PRIORITY_REALTIME {
      ContinueUsesQuantum(e);
      GapIs(e, Choose(e), t);
    } else {
      SearchApproaches(e, t);
    }
  }

  /** The gap depends on the queue and the current thread alone. */
  lemma GapIs<T>(s: Sched<T>, e: Sched<T>, t: T)
    requires t in s.ring && e.ring == s.ring && e.current == s.current
    ensures Gap(e, t) == Gap(s, t)
  {
  }

  /** A boosted waiting thread is still one after pass 1. */
  lemma BoostedSettles<T>(s: Sched<T>, now: nat, t: T)
    requires Inv(s) && s.clock <= now && Waiting(s, t) && s.threads[t].boosted
    ensures var e := EndBoost(AfterPass1(s, now));
            Settled(e) && t in e.ring && e.current == s.current && t in e.threads && e.threads[t].state == Ready && e.threads[t].boosted
  {
    assert InBounds(s.threads[t], now);
    WaiterSettles(s, now, t);
    hide Inv, EndBoost, AfterPass1, Settled, Settle;
    SettleBounds(s.threads[t], now);
  }

  // ---------------------------------------------------------------- bounded waiting

  /** What the other actions do to the rank of a waiting thread: nothing, or, for a creation, no
      more than the creation was already accounted for. */
  lemma ActionKeepsRank<T>(s: Sched<T>, a: Action<T>, t: T, r: nat)
    requires Inv(s) && Enabled(s, a) && Waiting(s, t) && !a.Tick? && a != Kill(t)
    requires a.Create? ==> r > 0
    ensures t in Apply(s, a).ring
    ensures Rank(Apply(s, a), t, if a.Create? then r - 1 else r) <= Rank(s, t, r)
  {
    var s' := Apply(s, a);
    if a.Create? {
      CreationGap(s, a, t);
      assert QuantumLeft(s') == QuantumLeft(s);
    } else {
      assert s'.ring == s.ring && s'.current == s.current && QuantumLeft(s') <= QuantumLeft(s);
    }
  }

  lemma CreationGap<T>(s: Sched<T>, a: Action<T>, t: T)
    requires Inv(s) && Enabled(s, a) && a.Create? && t in s.ring
    ensures t in Apply(s, a).ring && Gap(Apply(s, a), t) <= Gap(s, t) + 1
  {
    var s' := Apply(s, a);
    var k := Position(s.ring, t);
    ActionKeepsInv(s, a);
    PositionIs(s'.ring, t, k);
    if s.current in s.ring { PositionIs(s'.ring, s.current, Position(s.ring, s.current)); }
  }

  function Ticks<T>(acts: seq<Action<T>>): nat {
    if acts == [] then 0 else (if acts[0].Tick? then 1 else 0) + Ticks(acts[1..])
  }

  function Creations<T>(acts: seq<Action<T>>): nat {
    if acts == [] then 0 else (if acts[0].Create? then 1 else 0) + Creations(acts[1..])
  }

  /** While a boosted thread keeps waiting, there are no more handler calls than its rank. */
  lemma {:induction false} BoostedWaitIsBounded<T>(s: Sched<T>, acts: seq<Action<T>>, t: T, r: nat)
    requires Inv(s) && IsRun(s, acts) && WaitsThroughout(s, acts, t)
    requires s.threads[t].boosted && Creations(acts) <= r
    ensures Ticks(acts) <= Rank(s, t, r)
    decreases |acts|
  {
    if acts != [] {
      var a, s' := acts[0], Apply(s, acts[0]);
      ActionKeepsInv(s, a);
      if a.Tick? {
        TickWhileWaiting(s, a.now, t);
        TickLowersRank(s, a.now, t, r);
        BoostedWaitIsBounded(s', acts[1..], t, r);
      } else {
        ActionWhileWaiting(s, a, t);
        ActionKeepsRank(s, a, t, r);
        BoostedWaitIsBounded(s', acts[1..], t, if a.Create? then r - 1 else r);
      }
    }
  }

  /** Bounded waiting. Take any run in which t keeps waiting, a handler call in it at least
      SCHED_STARVATION_MS after the run began, and let m bound the threads queued at the start
      plus those created on the way. Then at most Bound(m) handler calls follow. */
  lemma {:induction false} StarvationFreedom<T>(s: Sched<T>,
      before: seq<Action<T>>, now: nat, rest: seq<Action<T>>, t: T, since: nat, m: nat)
    requires Inv(s) && IsRun(s, before + [Tick(now)] + rest)
    requires WaitsThroughout(s, before + [Tick(now)] + rest, t)
    requires s.threads[t].waitMark <= since && now >= since + SCHED_STARVATION_MS
    requires |s.ring| + Creations(before + [Tick(now)] + rest) <= m
    ensures Ticks(rest) <= Bound(m)
    decreases |before|
  {
    var acts := before + [Tick(now)] + rest;
    var s' := Apply(s, acts[0]);
    ActionKeepsInv(s, acts[0]);
    if before == [] {
      assert acts[1..] == rest;
      TickWhileWaiting(s, now, t);
      TickKeepsQueueLength(s, now);
      BoostedWaitIsBounded(s', rest, t, Creations(rest));
      RankWithinBound(s', t, Creations(rest), m);
    } else {
      assert acts[1..] == before[1..] + [Tick(now)] + rest;
      if acts[0].Tick? {
        TickWhileWaiting(s, acts[0].now, t);
        TickKeepsQueueLength(s, acts[0].now);
      } else {
        ActionWhileWaiting(s, acts[0], t);
      }
      StarvationFreedom(s', before[1..], now, rest, t, since, m);
    }
  }

  lemma TickKeepsQueueLength<T>(s: Sched<T>, now: nat)
    requires Inv(s) && s.clock <= now
    ensures |HandlerStep(s, now).ring| <= |s.ring|
  {
    if s.ring != [] {
      HandlerKeepsInv(s, now);
      LiveFacts(s.ring, s.threads);
    }
  }

  /** t is the current thread in some state of the run. */
  ghost predicate GetsProcessor<T>(s: Sched<T>, acts: seq<Action<T>>, t: T)
    requires IsRun(s, acts)
    decreases |acts|
  {
    s.current == t || (acts != [] && GetsProcessor(Apply(s, acts[0]), acts[1..], t))
  }

  /** A thread that wants the processor and is not killed either gets it or is still waiting. */
  lemma {:induction false} WaitsOrGetsProcessor<T>(s: Sched<T>, acts: seq<Action<T>>, t: T)
    requires Inv(s) && IsRun(s, acts) && Waiting(s, t)
    requires Kill(t) !in acts
    ensures WaitsThroughout(s, acts, t) || GetsProcessor(s, acts, t)
    decreases |acts|
  {
    if acts != [] {
      ActionKeepsInv(s, acts[0]);
      if acts[0].Tick? { TickWhileWaiting(s, acts[0].now, t); } else { ActionWhileWaiting(s, acts[0], t); }
      if Waiting(Apply(s, acts[0]), t) { WaitsOrGetsProcessor(Apply(s, acts[0]), acts[1..], t); }
    }
  }

  /** The kernel's promise: whatever the load, a ready thread that nobody kills runs. In any run
      that makes a handler call SCHED_STARVATION_MS after its start and more than Bound(m) after
      that, the thread gets the processor. */
  lemma EveryReadyThreadRuns<T>(s: Sched<T>, before: seq<Action<T>>, now: nat, rest: seq<Action<T>>, t: T)
    requires Inv(s) && Waiting(s, t) && IsRun(s, before + [Tick(now)] + rest)
    requires now >= s.clock + SCHED_STARVATION_MS
    requires Kill(t) !in before + [Tick(now)] + rest
    requires Ticks(rest) > Bound(|s.ring| + Creations(before + [Tick(now)] + rest))
    ensures GetsProcessor(s, before + [Tick(now)] + rest, t)
  {
    hide Bound, IsRun, Creations, Ticks, GetsProcessor, WaitsThroughout;
    var acts := before + [Tick(now)] + rest;
    WaitsOrGetsProcessor(s, acts, t);
    if WaitsThroughout(s, acts, t) {
      StarvationFreedom(s, before, now, rest, t, s.clock, |s.ring| + Creations(acts));
    }
  }
}
