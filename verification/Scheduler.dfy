/** thread_handler_c (kernel/boot/x86/scheduler.c:450-571) as a step on the abstract state of
    the scheduler, and what every step keeps.

    The run queue is the cyclic sequence `ring`, whose element 0 is `thread_queue`; threads
    are named by values of an arbitrary type. Module RunQueue refines this step by a class
    over linked thread blocks. */
module Scheduler {
  import opened Basics
  import opened Threads

  datatype Sched<T(==)> = Sched(
    ring: seq<T>,
    threads: map<T, Thread>,    // the queued threads and the idle thread
    current: T,
    idle: T,
    lastMs: nat,                // sched_last_ms
    clock: nat)                 // latest time any step has read from the timer

  /** Every reference the step follows is to a thread that exists. */
  ghost predicate Shape<T>(s: Sched<T>) {
    && Distinct(s.ring)
    && s.idle !in s.ring
    && (s.current in s.ring || s.current == s.idle)
    && (forall t :: t in s.threads ==> t in s.ring || t == s.idle)
    && s.idle in s.threads
    && (forall t :: t in s.ring ==> t in s.threads)
    && s.lastMs <= s.clock
  }

  // ---------------------------------------------------------------- the step

  /** The live threads among the first i in the ring, in order. */
  function LiveUpTo<T>(ring: seq<T>, threads: map<T, Thread>, i: nat): seq<T>
    requires i <= |ring| && forall t :: t in ring ==> t in threads
  {
    if i == 0 then []
    else LiveUpTo(ring, threads, i - 1) + if threads[ring[i - 1]].state == Dead then [] else [ring[i - 1]]
  }

  function Live<T>(ring: seq<T>, threads: map<T, Thread>): seq<T>
    requires forall t :: t in ring ==> t in threads
  {
    LiveUpTo(ring, threads, |ring|)
  }

  /** Pass 1 on one entry of the thread table. */
  function Pass1<T>(s: Sched<T>, t: T, now: nat): Thread
    requires t in s.threads
  {
    if t == s.idle then s.threads[t]
    else
      var charged := if t == s.current then ChargeOutgoing(s.threads[t], (now - s.lastMs) % U32) else s.threads[t];
      if charged.state == Dead then charged else Settle(charged, now)
  }

  function AfterPass1<T>(s: Sched<T>, now: nat): Sched<T>
    requires Shape(s) && s.clock <= now
  {
    var ring := Live(s.ring, s.threads);
    s.(ring := ring,
       threads := map t | t in s.threads && (t in ring || t == s.idle) :: Pass1(s, t, now),
       lastMs := now, clock := now)
  }

  /** The outgoing thread may use the rest of its quantum. `s` is the state after pass 1, where
      a dead outgoing thread is no longer in the table. */
  predicate Continues<T>(s: Sched<T>) {
    s.current != s.idle && s.current in s.threads && s.threads[s.current].state == Running && s.threads[s.current].ticks > 1
  }

  /** A boost ends when the boosted thread leaves the processor. */
  function EndBoost<T>(s: Sched<T>): Sched<T> {
    if s.current != s.idle && s.current in s.threads && !Continues(s)
    then s.(threads := s.threads[s.current := s.threads[s.current].(boosted := false)])
    else s
  }

  /** Highest effective priority of a runnable thread among the first i in the ring, -1 if none. */
  function MaxUpTo<T>(ring: seq<T>, threads: map<T, Thread>, i: nat): int
    requires i <= |ring| && forall t :: t in ring ==> t in threads
  {
    if i == 0 then -1
    else
      var m, t := MaxUpTo(ring, threads, i - 1), threads[ring[i - 1]];
      if t.Runnable() && Effective(t) > m then Effective(t) else m
  }

  /** Pass 2. */
  function MaxPriority<T>(ring: seq<T>, threads: map<T, Thread>): int
    requires forall t :: t in ring ==> t in threads
  {
    MaxUpTo(ring, threads, |ring|)
  }

  predicate Eligible(t: Thread, level: int) {
    t.Runnable() && Effective(t) == level
  }

  function Wrap(i: int, n: nat): int {
    if i < n then i else i - n
  }

  predicate EligibleAt<T>(ring: seq<T>, threads: map<T, Thread>, level: int, i: nat, k: nat)
    requires i < |ring| && k < |ring|
    requires forall t :: t in ring ==> t in threads
  {
    Eligible(threads[ring[Wrap(i + k, |ring|)]], level)
  }

  /** How many links past position i the round-robin search goes, having already gone k. */
  function SearchSteps<T>(ring: seq<T>, threads: map<T, Thread>, level: int, i: nat, k: nat): (r: nat)
    requires i < |ring| && k < |ring|
    requires forall t :: t in ring ==> t in threads
    ensures k <= r < |ring|
    decreases |ring| - k
  {
    if EligibleAt(ring, threads, level, i, k) || k + 1 == |ring| then k
    else SearchSteps(ring, threads, level, i, k + 1)
  }

  ghost function Position<T>(ring: seq<T>, t: T): (i: nat)
    requires t in ring
    ensures i < |ring| && ring[i] == t
  {
    var i :| 0 <= i < |ring| && ring[i] == t;
    i
  }

  /** Where the search starts: after the outgoing thread, or at the queue head if that is the
      idle thread or has just been removed. */
  ghost function SearchStart<T>(s: Sched<T>): (i: nat)
    requires s.ring != []
    ensures i < |s.ring|
  {
    if s.current in s.ring then Wrap(Position(s.ring, s.current) + 1, |s.ring|) else 0
  }

  ghost function RoundRobin<T>(s: Sched<T>, level: int): (r: T)
    requires s.ring != [] && forall t :: t in s.ring ==> t in s.threads
    ensures r in s.ring
  {
    var i := SearchStart(s);
    s.ring[Wrap(i + SearchSteps(s.ring, s.threads, level, i, 0), |s.ring|)]
  }

  /** The outgoing thread gets a fresh quantum of its base length and stops running. */
  function Retire<T>(s: Sched<T>): Sched<T> {
    if s.current !in s.threads then s
    else
      var t := s.threads[s.current];
      var t' := if s.current != s.idle then t.(ticks := t.priority) else t;
      s.(threads := s.threads[s.current := if t'.state == Running then t'.(state := Ready) else t'])
  }

  function Dispatch<T>(s: Sched<T>, next: T): Sched<T>
    requires next in s.threads
  {
    s.(threads := s.threads[next := s.threads[next].(state := Running)], current := next)
  }

  ghost function Choose<T>(s: Sched<T>): Sched<T>
    requires Distinct(s.ring) && s.idle in s.threads && forall t :: t in s.ring ==> t in s.threads
  {
    var level := MaxPriority(s.ring, s.threads);
    if level == -1 then Dispatch(Retire(s), s.idle)
    else if Continues(s) && Effective(s.threads[s.current]) == level then
      s.(threads := s.threads[s.current := s.threads[s.current].(ticks := s.threads[s.current].ticks - 1)])
    else
      MaxLevelIsReached(s.ring, s.threads);
      Dispatch(Retire(s), RoundRobin(s, level))
  }

  ghost function HandlerStep<T>(s: Sched<T>, now: nat): Sched<T>
    requires Shape(s) && s.clock <= now
  {
    if s.ring == [] then s.(clock := now)
    else
      LiveFacts(s.ring, s.threads);
      Choose(EndBoost(AfterPass1(s, now)))
  }

  // ---------------------------------------------------------------- pass 1

  lemma {:induction false} LiveUpToFacts<T>(ring: seq<T>, threads: map<T, Thread>, i: nat)
    requires i <= |ring| && forall t :: t in ring ==> t in threads
    requires Distinct(ring)
    ensures var l := LiveUpTo(ring, threads, i);
            && Distinct(l) && |l| <= i && (|l| == i ==> l == ring[..i])
            && (forall j :: 0 <= j < i && threads[ring[j]].state != Dead ==> ring[j] in l)
            && (forall t :: t in l ==> t in ring[..i] && threads[t].state != Dead)
  {
    if i > 0 {
      LiveUpToFacts(ring, threads, i - 1);
      assert ring[..i] == ring[..i - 1] + [ring[i - 1]];
    }
  }

  lemma LiveFacts<T>(ring: seq<T>, threads: map<T, Thread>)
    requires forall t :: t in ring ==> t in threads
    requires Distinct(ring)
    ensures Distinct(Live(ring, threads))
    ensures forall t :: t in ring && threads[t].state != Dead ==> t in Live(ring, threads)
    ensures forall t :: t in Live(ring, threads) ==> t in ring && threads[t].state != Dead
    ensures |Live(ring, threads)| <= |ring|
    ensures |Live(ring, threads)| == |ring| ==> Live(ring, threads) == ring
  {
    LiveUpToFacts(ring, threads, |ring|);
    assert ring[..|ring|] == ring;
  }

  // ---------------------------------------------------------------- pass 2

  lemma {:induction false} MaxUpToIsReached<T>(ring: seq<T>, threads: map<T, Thread>, i: nat)
    requires i <= |ring| && forall t :: t in ring ==> t in threads
    ensures var m := MaxUpTo(ring, threads, i);
            && m >= -1
            && (forall j :: 0 <= j < i && threads[ring[j]].Runnable() ==> 0 <= Effective(threads[ring[j]]) <= m)
            && (m != -1 ==> exists j :: 0 <= j < i && Eligible(threads[ring[j]], m))
  {
    if i > 0 {
      MaxUpToIsReached(ring, threads, i - 1);
      var m := MaxUpTo(ring, threads, i - 1);
      if m != -1 {
        var j :| 0 <= j < i - 1 && Eligible(threads[ring[j]], m);
        assert 0 <= j < i && Eligible(threads[ring[j]], m);
      }
      assert Eligible(threads[ring[i - 1]], MaxUpTo(ring, threads, i)) || MaxUpTo(ring, threads, i) == m;
    }
  }

  /** The level of pass 2 bounds every runnable thread and, unless it is -1, some thread has it. */
  lemma MaxLevelIsReached<T>(ring: seq<T>, threads: map<T, Thread>)
    requires forall t :: t in ring ==> t in threads
    ensures forall t :: t in ring && threads[t].Runnable() ==> Effective(threads[t]) <= MaxPriority(ring, threads)
    ensures MaxPriority(ring, threads) >= -1
    ensures MaxPriority(ring, threads) != -1 ==> exists t :: t in ring && Eligible(threads[t], MaxPriority(ring, threads))
    ensures MaxPriority(ring, threads) == -1 ==> forall t :: t in ring ==> !threads[t].Runnable()
    ensures MaxPriority(ring, threads) != -1 ==> ring != []
  {
    MaxUpToIsReached(ring, threads, |ring|);
    if MaxPriority(ring, threads) != -1 {
      var j :| 0 <= j < |ring| && Eligible(threads[ring[j]], MaxPriority(ring, threads));
      assert ring[j] in ring;
    }
  }

  // ---------------------------------------------------------------- what every step keeps

  /** Between steps: only the current thread can be running, the idle thread runs exactly when it
      is current, and every queued thread is in bounds. The current thread itself may already
      have put itself to sleep, blocked or died. */
  ghost predicate Inv<T>(s: Sched<T>) {
    && Shape(s)
    && (forall t :: t in s.ring ==> InBounds(s.threads[t], s.clock))
    && (forall t :: t in s.threads && s.threads[t].state == Running ==> t == s.current)
    && s.threads[s.idle].state == (if s.current == s.idle then Running else Ready)
  }

  /** After pass 1: as Inv, but the dead are gone, so the outgoing thread may be missing. */
  ghost predicate Settled<T>(s: Sched<T>) {
    && Distinct(s.ring)
    && s.idle !in s.ring
    && (forall t :: t in s.threads ==> t in s.ring || t == s.idle)
    && s.idle in s.threads
    && (forall t :: t in s.ring ==> t in s.threads)
    && (forall t :: t in s.ring ==> InBounds(s.threads[t], s.clock) && s.threads[t].state != Dead)
    && (forall t :: t in s.threads && s.threads[t].state == Running ==> t == s.current)
    && s.threads[s.idle].state == (if s.current == s.idle then Running else Ready)
    && s.lastMs <= s.clock
  }

  /** What the kernel relies on once the handler has returned: exactly one thread runs and it is
      the current one; none with a higher effective priority is waiting; the idle thread runs
      only if no queued thread can; and no dead thread is left in the queue. */
  ghost predicate Dispatched<T>(s: Sched<T>) {
    && s.current in s.threads
    && (forall t :: t in s.ring ==> t in s.threads)
    && (forall t :: t in s.threads ==> (s.threads[t].state == Running <==> t == s.current))
    && (forall t :: t in s.ring && s.threads[t].Runnable() ==>
          s.current != s.idle && Effective(s.threads[t]) <= Effective(s.threads[s.current]))
    && (forall t :: t in s.ring ==> s.threads[t].state != Dead)
  }

  lemma Pass1Bounds<T>(s: Sched<T>, t: T, now: nat)
    requires Inv(s) && s.clock <= now && t in s.ring
    ensures var p := Pass1(s, t, now);
            && InBounds(p, now)
            && p.priority == s.threads[t].priority && p.ticks == s.threads[t].ticks
            && (s.threads[t].boosted ==> p.boosted)
            && p.state == (if s.threads[t].state == Sleeping && now >= s.threads[t].wakeTick then Ready else s.threads[t].state)
  {
    ChargeOutgoingKeeps(s.threads[t], (now - s.lastMs) % U32, now);
    var charged := if t == s.current then ChargeOutgoing(s.threads[t], (now - s.lastMs) % U32) else s.threads[t];
    SettleBounds(charged, now);
  }

  lemma AfterPass1IsSettled<T>(s: Sched<T>, now: nat)
    requires Inv(s) && s.clock <= now
    ensures Settled(AfterPass1(s, now))
  {
    LiveFacts(s.ring, s.threads);
    forall t | t in s.ring ensures InBounds(Pass1(s, t, now), now) && (Pass1(s, t, now).state == Running ==> s.threads[t].state == Running)
      && (s.threads[t].state != Dead ==> Pass1(s, t, now).state != Dead)
    {
      Pass1Bounds(s, t, now);
    }
  }

  lemma EndBoostKeepsSettled<T>(s: Sched<T>)
    requires Settled(s)
    ensures Settled(EndBoost(s))
  {
  }

  /** After the outgoing thread is retired nobody runs. */
  ghost predicate Parked<T>(s: Sched<T>) {
    && Distinct(s.ring)
    && s.idle !in s.ring
    && (forall t :: t in s.threads ==> t in s.ring || t == s.idle)
    && s.idle in s.threads
    && (forall t :: t in s.ring ==> t in s.threads)
    && (forall t :: t in s.ring ==> InBounds(s.threads[t], s.clock) && s.threads[t].state != Dead)
    && (forall t :: t in s.threads ==> s.threads[t].state != Running)
    && s.threads[s.idle].state == Ready
    && s.lastMs <= s.clock
  }

  lemma RetireParks<T>(s: Sched<T>)
    requires Settled(s)
    ensures Parked(Retire(s)) && Retire(s).ring == s.ring && Retire(s).threads.Keys == s.threads.Keys
    ensures forall t :: t in s.ring ==> Retire(s).threads[t].Runnable() == s.threads[t].Runnable()
                                        && Effective(Retire(s).threads[t]) == Effective(s.threads[t])
  {
  }

  lemma DispatchParked<T>(s: Sched<T>, next: T)
    requires Parked(s) && next in s.threads
    requires next == s.idle ==> forall t :: t in s.ring ==> !s.threads[t].Runnable()
    requires next != s.idle ==> forall t :: t in s.ring && s.threads[t].Runnable() ==> Effective(s.threads[t]) <= Effective(s.threads[next])
    ensures Inv(Dispatch(s, next)) && Dispatched(Dispatch(s, next))
  {
  }

  lemma ChooseIdle<T>(s: Sched<T>)
    requires Settled(s) && MaxPriority(s.ring, s.threads) == -1
    ensures Inv(Choose(s)) && Dispatched(Choose(s))
  {
    MaxLevelIsReached(s.ring, s.threads);
    RetireParks(s);
    DispatchParked(Retire(s), s.idle);
  }

  lemma ChooseSame<T>(s: Sched<T>)
    requires Settled(s) && MaxPriority(s.ring, s.threads) != -1
    requires Continues(s) && Effective(s.threads[s.current]) == MaxPriority(s.ring, s.threads)
    ensures Inv(Choose(s)) && Dispatched(Choose(s))
  {
    MaxLevelIsReached(s.ring, s.threads);
  }

  lemma ChooseNext<T>(s: Sched<T>)
    requires Settled(s) && MaxPriority(s.ring, s.threads) != -1
    requires !(Continues(s) && Effective(s.threads[s.current]) == MaxPriority(s.ring, s.threads))
    ensures Inv(Choose(s)) && Dispatched(Choose(s))
  {
    var level := MaxPriority(s.ring, s.threads);
    MaxLevelIsReached(s.ring, s.threads);
    var t :| t in s.ring && Eligible(s.threads[t], level);
    SearchReaches(s.ring, s.threads, level, SearchStart(s), t);
    var next := RoundRobin(s, level);
    assert next in s.ring && Eligible(s.threads[next], level);
    RetireParks(s);
    hide Settled, Inv, Dispatched, Parked, Retire;
    DispatchParked(Retire(s), next);
  }

  lemma ChooseDispatches<T>(s: Sched<T>)
    requires Settled(s)
    ensures Inv(Choose(s)) && Dispatched(Choose(s))
    ensures Choose(s).ring == s.ring && Choose(s).idle == s.idle && Choose(s).clock == s.clock
  {
    hide Inv, Dispatched;
    if MaxPriority(s.ring, s.threads) == -1 {
      ChooseIdle(s);
    } else if Continues(s) && Effective(s.threads[s.current]) == MaxPriority(s.ring, s.threads) {
      ChooseSame(s);
    } else {
      ChooseNext(s);
    }
  }

  /** Links from position i forward to position p. */
  function Ahead(i: nat, p: nat, n: nat): int
    requires i < n && p < n
  {
    if p >= i then p - i else p + n - i
  }

  /** The search ends on an eligible thread, no later than any eligible thread at hand, and passes
      over none before it. */
  lemma {:induction false} SearchFindsEligible<T>(ring: seq<T>, threads: map<T, Thread>, level: int, i: nat, k: nat,
      w: nat)
    requires i < |ring| && k <= w < |ring|
    requires forall t :: t in ring ==> t in threads
    requires EligibleAt(ring, threads, level, i, w)
    requires forall j :: 0 <= j < k ==> !EligibleAt(ring, threads, level, i, j)
    ensures var r := SearchSteps(ring, threads, level, i, k);
            && k <= r <= w
            && EligibleAt(ring, threads, level, i, r)
            && forall j :: 0 <= j < r ==> !EligibleAt(ring, threads, level, i, j)
    decreases |ring| - k
  {
    if !EligibleAt(ring, threads, level, i, k) {
      SearchFindsEligible(ring, threads, level, i, k + 1, w);
    }
  }

  lemma SearchReaches<T>(ring: seq<T>, threads: map<T, Thread>, level: int, i: nat, t: T)
    requires i < |ring| && t in ring
    requires forall t :: t in ring ==> t in threads
    requires Eligible(threads[t], level)
    ensures var r := SearchSteps(ring, threads, level, i, 0);
            && r <= Ahead(i, Position(ring, t), |ring|)
            && EligibleAt(ring, threads, level, i, r)
            && forall j :: 0 <= j < r ==> !EligibleAt(ring, threads, level, i, j)
  {
    var w := Ahead(i, Position(ring, t), |ring|);
    assert EligibleAt(ring, threads, level, i, w);
    SearchFindsEligible(ring, threads, level, i, 0, w);
  }

  /** Every handler call keeps the invariant, and when there is a queue at all it leaves exactly
      one thread running: the one of highest effective priority. */
  lemma HandlerKeepsInv<T>(s: Sched<T>, now: nat)
    requires Inv(s) && s.clock <= now
    ensures Inv(HandlerStep(s, now))
    ensures s.ring != [] ==> Dispatched(HandlerStep(s, now))
    ensures HandlerStep(s, now).clock == now && HandlerStep(s, now).idle == s.idle
    ensures s.ring != [] ==> HandlerStep(s, now).ring == Live(s.ring, s.threads)
  {
    if s.ring != [] {
      LiveFacts(s.ring, s.threads);
      AfterPass1IsSettled(s, now);
      EndBoostKeepsSettled(AfterPass1(s, now));
      ChooseDispatches(EndBoost(AfterPass1(s, now)));
    }
  }
}
