/** Why the waiting bound counts creations: a run in which one REALTIME thread is created before
    every handler call keeps a boosted thread waiting for as long as it goes on. */
module EndlessCreation {
  import opened Basics
  import opened Threads
  import opened Scheduler
  import opened SchedulerRuns

  /** A queued thread of the highest priority. */
  predicate Urgent(b: Thread) {
    b.state == Ready && b.priority == PRIORITY_REALTIME && b.dyn == PRIORITY_REALTIME
  }

  /** t waits at the queue head, the processor is at position p behind it, and everyone from there to
      the end of the ring is urgent. Names from k on are unused. */
  ghost predicate Flooded(s: Sched<nat>, t: nat, p: nat, k: nat) {
    && Inv(s) && 1 <= p < |s.ring| && s.ring[0] == t && s.ring[p] == s.current && Waiting(s, t)
    && (forall x :: x in s.ring ==> s.threads[x].state != Dead)
    && (forall j :: p < j < |s.ring| ==> Urgent(s.threads[s.ring[j]]))
    && (forall x :: x in s.threads ==> x < k)
  }

  /** One more urgent thread at the end of the ring. */
  ghost predicate FloodedMore(s: Sched<nat>, t: nat, p: nat, k: nat) {
    Flooded(s, t, p, k) && p + 1 < |s.ring|
  }

  lemma CreateFloods(s: Sched<nat>, t: nat, p: nat, k: nat, now: nat)
    requires Flooded(s, t, p, k) && now >= s.clock
    ensures var a := Create(k, PRIORITY_REALTIME, now);
            && Enabled(s, a) && FloodedMore(Apply(s, a), t, p, k + 1)
            && Apply(s, a).clock == now && Apply(s, a).threads[t] == s.threads[t]
  {
    var a := Action<nat>.Create(k, PRIORITY_REALTIME, now);
    ActionKeepsInv(s, a);
    var s' := Apply(s, a);
    assert forall j :: 0 <= j < |s.ring| ==> s'.ring[j] == s.ring[j] && s.ring[j] in s.ring;
  }

  /** Nobody leaves the ring in pass 1, and the urgent stay urgent. */
  lemma PassKeepsUrgent(s: Sched<nat>, t: nat, p: nat, k: nat, now: nat)
    requires FloodedMore(s, t, p, k) && now >= s.clock
    ensures var e := EndBoost(AfterPass1(s, now));
            && Settled(e) && e.ring == s.ring && e.current == s.current && HandlerStep(s, now) == Choose(e)
            && e.threads.Keys == s.threads.Keys
            && (forall j :: p < j < |e.ring| ==> e.ring[j] in e.threads && Urgent(e.threads[e.ring[j]]))
  {
    FloodedParts(s, t, p, k);
    hide *;
    LiveAll(s.ring, s.threads);
    OutgoingAfterPass1(s, now);
    PassKeys(s, now);
    WaiterSettles(s, now, t);
    forall j | p < j < |s.ring| ensures Urgent(EndBoost(AfterPass1(s, now)).threads[s.ring[j]]) {
      WaiterSettles(s, now, s.ring[j]);
      UrgentSettles(s.threads[s.ring[j]], now);
    }
  }

  lemma UrgentSettles(b: Thread, now: nat)
    requires Urgent(b)
    ensures Urgent(Settle(b, now))
  {
  }

  lemma PassKeys(s: Sched<nat>, now: nat)
    requires Inv(s) && s.clock <= now && Live(s.ring, s.threads) == s.ring
    ensures EndBoost(AfterPass1(s, now)).threads.Keys == s.threads.Keys
  {
    hide Pass1;
  }

  lemma FloodedParts(s: Sched<nat>, t: nat, p: nat, k: nat)
    requires Flooded(s, t, p, k)
    ensures Inv(s) && Shape(s) && Waiting(s, t) && t in s.threads && s.ring != []
    ensures forall x :: x in s.ring ==> x in s.threads && s.threads[x].state != Dead
    ensures forall j :: p < j < |s.ring| ==> Waiting(s, s.ring[j]) && Urgent(s.threads[s.ring[j]])
  {
    assert Distinct(s.ring);
  }

  lemma LiveAll(ring: seq<nat>, threads: map<nat, Thread>)
    requires forall x :: x in ring ==> x in threads && threads[x].state != Dead
    ensures Live(ring, threads) == ring
  {
    LiveUpToAll(ring, threads, |ring|);
    assert ring[..|ring|] == ring;
  }

  lemma {:induction false} LiveUpToAll(ring: seq<nat>, threads: map<nat, Thread>, i: nat)
    requires i <= |ring| && forall x :: x in ring ==> x in threads && threads[x].state != Dead
    ensures LiveUpTo(ring, threads, i) == ring[..i]
  {
    if i > 0 {
      LiveUpToAll(ring, threads, i - 1);
      assert ring[..i] == ring[..i - 1] + [ring[i - 1]];
    }
  }

  lemma UrgentLevel(e: Sched<nat>, x: nat)
    requires Settled(e) && x in e.ring && Urgent(e.threads[x])
    ensures MaxPriority(e.ring, e.threads) == PRIORITY_REALTIME
  {
    MaxLevelIsReached(e.ring, e.threads);
  }

  /** The processor stays where it is or moves on by one position. */
  lemma ChooseMovesOn(e: Sched<nat>, p: nat)
    requires Settled(e) && p + 1 < |e.ring| && e.ring[p] == e.current && Urgent(e.threads[e.ring[p + 1]])
    ensures Choose(e).ring == e.ring && (Choose(e).current == e.ring[p] || Choose(e).current == e.ring[p + 1])
  {
    UrgentLevel(e, e.ring[p + 1]);
    PositionIs(e.ring, e.current, p);
    assert EligibleAt(e.ring, e.threads, PRIORITY_REALTIME, p + 1, 0);
    hide Settled;
  }

  lemma TickFloods(s: Sched<nat>, t: nat, p: nat, k: nat, now: nat) returns (p': nat)
    requires FloodedMore(s, t, p, k) && now >= s.clock
    ensures Flooded(HandlerStep(s, now), t, p', k)
  {
    hide *;
    MoreParts(s, t, p, k);
    var e := EndBoost(AfterPass1(s, now));
    SettledShape(e, s, t, p, k, now);
    PassKeepsUrgent(s, t, p, k, now);
    ChooseMovesOn(e, p);
    HandlerKeepsInv(s, now);
    TickWhileWaiting(s, now, t);
    var s' := Choose(e);
    p' := if s'.current == e.ring[p] then p else p + 1;
    forall j | p' < j < |e.ring| ensures e.ring[j] in s'.threads && Urgent(s'.threads[e.ring[j]]) {
      DistinctAt(e.ring, p, j);
      DistinctAt(e.ring, p', j);
      ChooseLeavesWaiters(e, e.ring[j]);
    }
    ChooseKeys(e);
    FloodedOf(s', t, p', k);
  }

  lemma SettledShape(e: Sched<nat>, s: Sched<nat>, t: nat, p: nat, k: nat, now: nat)
    requires FloodedMore(s, t, p, k) && now >= s.clock && e == EndBoost(AfterPass1(s, now))
    ensures Settled(e) && Distinct(e.ring) && e.idle in e.threads && forall x :: x in e.ring ==> x in e.threads
  {
    PassKeepsUrgent(s, t, p, k, now);
    hide EndBoost, AfterPass1, HandlerStep, Choose;
  }

  lemma DistinctAt(ring: seq<nat>, i: nat, j: nat)
    requires Distinct(ring) && i < j < |ring|
    ensures ring[i] != ring[j]
  {
  }

  lemma FloodedOf(s: Sched<nat>, t: nat, p: nat, k: nat)
    requires Inv(s) && Dispatched(s) && 1 <= p < |s.ring| && s.ring[0] == t && s.ring[p] == s.current
    requires Waiting(s, t) || s.current == t
    requires forall j :: p < j < |s.ring| ==> s.ring[j] in s.threads && Urgent(s.threads[s.ring[j]])
    requires forall x :: x in s.threads ==> x < k
    ensures Flooded(s, t, p, k)
  {
    assert Distinct(s.ring);
  }

  lemma ChooseKeys(e: Sched<nat>)
    requires Settled(e)
    ensures Choose(e).threads.Keys <= e.threads.Keys
  {
    MaxLevelIsReached(e.ring, e.threads);
  }

  /** A run of n handler calls through which t waits. */
  ghost predicate WaitsFor(s: Sched<nat>, acts: seq<Action<nat>>, t: nat, n: nat) {
    IsRun(s, acts) && WaitsThroughout(s, acts, t) && Ticks(acts) == n && Creations(acts) == n
  }

  lemma {:induction false} FloodRun(s: Sched<nat>, t: nat, p: nat, k: nat, n: nat) returns (acts: seq<Action<nat>>)
    requires Flooded(s, t, p, k)
    ensures WaitsFor(s, acts, t, n)
    decreases n
  {
    if n == 0 {
      acts := [];
    } else {
      var now := s.clock;
      var a := Action<nat>.Create(k, PRIORITY_REALTIME, now);
      CreateFloods(s, t, p, k, now);
      var s1 := Apply(s, a);
      var p' := TickFloods(s1, t, p, k + 1, now);
      var more := FloodRun(HandlerStep(s1, now), t, p', k + 1, n - 1);
      acts := [a, Tick(now)] + more;
      TwoMore(s, a, now, more, t);
    }
  }

  lemma TwoMore(s: Sched<nat>, a: Action<nat>, now: nat, more: seq<Action<nat>>, t: nat)
    requires Enabled(s, a) && a.Create? && Shape(Apply(s, a)) && Apply(s, a).clock <= now
    requires Waiting(s, t) && Waiting(Apply(s, a), t)
    requires var s2 := HandlerStep(Apply(s, a), now); IsRun(s2, more) && WaitsThroughout(s2, more, t)
    ensures var acts := [a, Tick(now)] + more;
            IsRun(s, acts) && WaitsThroughout(s, acts, t) && Ticks(acts) == 1 + Ticks(more) && Creations(acts) == 1 + Creations(more)
  {
    hide HandlerStep, Waiting, Shape;
    var acts := [a, Tick(now)] + more;
    assert acts[1..] == [Tick(now)] + more && acts[1..][1..] == more;
    assert Enabled(Apply(s, a), Tick(now));
  }

  function Booted(): Sched<nat> {
    Initial(1, 0, 0)
  }

  lemma FirstCreation() returns (s: Sched<nat>)
    ensures var a := Action<nat>.Create(2, PRIORITY_REALTIME, 0); Enabled(Booted(), a) && s == Apply(Booted(), a)
    ensures Inv(s) && s.ring == [1, 2] && s.current == 1 && s.clock == 0 && s.idle == 0 && s.threads.Keys == {0, 1, 2}
    ensures Urgent(s.threads[2]) && s.threads[1] == NewThread(3, 0).(state := Running)
  {
    InitialInv<nat>(1, 0, 0);
    ActionKeepsInv(Booted(), Action<nat>.Create(2, PRIORITY_REALTIME, 0));
    s := Apply(Booted(), Create(2, PRIORITY_REALTIME, 0));
  }

  lemma FirstPass(s: Sched<nat>)
    requires Inv(s) && s.ring == [1, 2] && s.current == 1 && s.clock == 0 && s.idle == 0 && s.threads.Keys == {0, 1, 2}
    requires Urgent(s.threads[2]) && s.threads[1] == NewThread(3, 0).(state := Running)
    ensures var e := EndBoost(AfterPass1(s, 0));
            && Settled(e) && HandlerStep(s, 0) == Choose(e) && e.ring == s.ring && e.current == 1 && e.threads.Keys == {0, 1, 2}
            && Urgent(e.threads[2]) && e.threads[1].priority == 3 && !e.threads[1].boosted && e.threads[1].state == Running
            && e.threads[1].waitMark == 0 && e.threads[1].dyn <= 3
  {
    assert s.ring[1] == 2 && s.ring[0] == 1;
    assert Waiting(s, 2);
    LiveAll(s.ring, s.threads);
    OutgoingAfterPass1(s, 0);
    PassKeys(s, 0);
    FirstOutgoing(s);
    hide HandlerStep, Inv, EndBoost, AfterPass1, Settled, Live, Choose, QuantumLeft;
    WaiterSettles(s, 0, 2);
  }

  lemma FirstOutgoing(s: Sched<nat>)
    requires Inv(s) && s.ring != [] && s.current == 1 && 1 in s.ring && s.clock == 0 && Live(s.ring, s.threads) == s.ring
    requires s.threads[1] == NewThread(3, 0).(state := Running)
    ensures var e := EndBoost(AfterPass1(s, 0));
            && 1 in e.threads && e.threads[1].priority == 3 && !e.threads[1].boosted && e.threads[1].state == Running
            && e.threads[1].waitMark == 0 && e.threads[1].dyn <= 3
  {
    Pass1Bounds(s, 1, 0);
    assert Pass1(s, 1, 0).waitMark == 0 && !Pass1(s, 1, 0).boosted;
    hide Pass1, Inv, Live;
  }

  lemma FirstChoice(e: Sched<nat>)
    requires Settled(e) && e.ring == [1, 2] && e.current == 1 && e.threads.Keys == {0, 1, 2} && Urgent(e.threads[2])
    requires e.threads[1].priority == 3 && !e.threads[1].boosted && e.threads[1].state == Running && e.threads[1].dyn <= 3
    ensures var c := Choose(e);
            && c.ring == e.ring && c.current == 2 && c.threads.Keys == {0, 1, 2} && c.clock == e.clock && c.threads[1].state == Ready
            && c.threads[1].waitMark == e.threads[1].waitMark
  {
    assert e.ring[1] == 2;
    UrgentLevel(e, 2);
    ChooseMovesOn(e, 0);
    ChooseDispatches(e);
    assert 2 in e.ring && 1 in e.ring;
    var r := Retire(e);
    assert r.threads.Keys == e.threads.Keys && r.threads[1].state == Ready && Effective(e.threads[1]) <= 3;
    MaxLevelIsReached(e.ring, e.threads);
  }

  /** The first handler call after an urgent thread is created gives it the processor. */
  lemma FirstUrgent() returns (s1: Sched<nat>)
    ensures var a := Action<nat>.Create(2, PRIORITY_REALTIME, 0);
            Enabled(Booted(), a) && s1 == Apply(Booted(), a) && Enabled(s1, Tick(0))
    ensures var s := Apply(s1, Tick(0)); Flooded(s, 1, 1, 3) && s.clock == 0 && s.threads[1].waitMark == 0
  {
    s1 := FirstCreation();
    hide Choose, EndBoost, AfterPass1, Settled, Booted;
    FirstPass(s1);
    FirstChoice(EndBoost(AfterPass1(s1, 0)));
    HandlerKeepsInv(s1, 0);
    hide HandlerStep;
    var s := HandlerStep(s1, 0);
    assert s.ring[0] == 1 && s.ring[1] == 2;
    assert Apply(s1, Tick(0)) == s;
  }

  lemma FourSteps(s: Sched<nat>, a: Action<nat>, b: Action<nat>, c: Action<nat>, d: Action<nat>)
    requires Enabled(s, a) && Enabled(Apply(s, a), b) && Enabled(Apply(Apply(s, a), b), c)
    requires Enabled(Apply(Apply(Apply(s, a), b), c), d)
    ensures IsRun(s, [a, b, c, d]) && After(s, [a, b, c, d]) == Apply(Apply(Apply(Apply(s, a), b), c), d)
  {
    hide Enabled, Apply;
    var s1, s2 := Apply(s, a), Apply(Apply(s, a), b);
    var s3 := Apply(s2, c);
    var s4 := Apply(s3, d);
    assert IsRun(s4, []) && After(s4, []) == s4;
    assert [d][1..] == [] && [c, d][1..] == [d] && [b, c, d][1..] == [c, d] && [a, b, c, d][1..] == [b, c, d];
    assert IsRun(s3, [d]) && After(s3, [d]) == s4;
    assert IsRun(s2, [c, d]) && After(s2, [c, d]) == s4;
    assert IsRun(s1, [b, c, d]) && After(s1, [b, c, d]) == s4;
  }

  /** before leads from the boot state to one in which t is boosted, and acts from there through n
      handler calls during which it waits. */
  ghost predicate BoostedWaits(before: seq<Action<nat>>, acts: seq<Action<nat>>, t: nat, n: nat) {
    && IsRun(Booted(), before)
    && var s := After(Booted(), before);
    && t in s.threads && s.threads[t].boosted && WaitsFor(s, acts, t, n)
  }

  /** Two urgent threads and a hundred milliseconds later the boot thread waits with its boost. */
  lemma FirstBoost() returns (before: seq<Action<nat>>, p: nat)
    ensures IsRun(Booted(), before)
    ensures var s := After(Booted(), before); Flooded(s, 1, p, 4) && 1 in s.threads && s.threads[1].boosted
  {
    var now: nat := SCHED_STARVATION_MS;
    var a, b := Action<nat>.Create(2, PRIORITY_REALTIME, 0), Action<nat>.Create(3, PRIORITY_REALTIME, now);
    hide *;
    var s1 := FirstUrgent();
    var s2 := Apply(s1, Tick(0));
    CreateFloods(s2, 1, 1, 3, now);
    var s3 := Apply(s2, b);
    p := SecondTick(s3, now);
    before := [a, Tick(0), b, Tick(now)];
    MoreParts(s3, 1, 1, 4);
    ApplyTick(s3, now);
    FourSteps(Booted(), a, Tick(0), b, Tick(now));
  }

  lemma SecondTick(s: Sched<nat>, now: nat) returns (p: nat)
    requires FloodedMore(s, 1, 1, 4) && s.clock <= now && s.threads[1].waitMark + SCHED_STARVATION_MS <= now
    ensures var s' := HandlerStep(s, now); Flooded(s', 1, p, 4) && 1 in s'.threads && s'.threads[1].boosted
  {
    hide *;
    MoreParts(s, 1, 1, 4);
    p := TickFloods(s, 1, 1, 4, now);
    FloodedParts(HandlerStep(s, now), 1, p, 4);
    TickWhileWaiting(s, now, 1);
  }

  /** For every n, the boot thread can have its boost and wait through n more handler calls, one thread
      being created before each. */
  lemma BoostedThreadCanWait(n: nat)
    ensures exists before, acts :: BoostedWaits(before, acts, 1, n)
  {
    hide *;
    var before, p := FirstBoost();
    var acts := FloodRun(After(Booted(), before), 1, p, 4, n);
    BoostedWaitsOf(before, acts, 1, n);
  }

  lemma MoreParts(s: Sched<nat>, t: nat, p: nat, k: nat)
    requires FloodedMore(s, t, p, k)
    ensures Inv(s) && Shape(s) && Waiting(s, t) && t in s.threads && t in s.ring
    ensures Distinct(s.ring) && 1 <= p && p + 1 < |s.ring| && s.ring[0] == t && s.ring[p] == s.current
    ensures forall x :: x in s.threads ==> x < k
  {
  }

  lemma ApplyTick(s: Sched<nat>, now: nat)
    requires Shape(s) && s.clock <= now
    ensures Enabled(s, Tick(now)) && Apply(s, Tick(now)) == HandlerStep(s, now)
  {
  }

  lemma BoostedWaitsOf(before: seq<Action<nat>>, acts: seq<Action<nat>>, t: nat, n: nat)
    requires IsRun(Booted(), before)
    requires var s := After(Booted(), before); t in s.threads && s.threads[t].boosted && WaitsFor(s, acts, t, n)
    ensures BoostedWaits(before, acts, t, n)
  {
  }
}
