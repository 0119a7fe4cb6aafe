/** What one handler call does to the fields of every queued thread, and whom it dispatches
    (kernel/boot/x86/scheduler.c:83-131, 450-571), stated with the fields alone. */
module HandlerLaws {
  import opened Basics
  import opened Threads
  import opened Scheduler
  import opened SchedulerRuns

  /** What pass 1 leaves of a thread that is not dead, and the end of a boost after it. */
  lemma AfterPass1Of<T>(s: Sched<T>, now: nat, t: T)
    requires Inv(s) && s.clock <= now && t in s.ring && s.threads[t].state != Dead
    ensures Shape(s) && t in s.threads
    ensures var e := EndBoost(AfterPass1(s, now));
            && Settled(e) && HandlerStep(s, now) == Choose(e)
            && t in e.ring && e.current == s.current && e.lastMs == now
            && e.threads[t] == (if t == s.current && !(s.threads[t].state == Running && s.threads[t].ticks > 1)
                                then Pass1(s, t, now).(boosted := false) else Pass1(s, t, now))
  {
    LiveFacts(s.ring, s.threads);
    AfterPass1IsSettled(s, now);
    EndBoostKeepsSettled(AfterPass1(s, now));
    Pass1Bounds(s, t, now);
    hide Settled, Choose, Pass1;
  }

  /** Choosing another thread than one that may go on never comes back to that one. */
  lemma LeavesOne<T>(e: Sched<T>, level: int)
    requires Settled(e) && level == MaxPriority(e.ring, e.threads) && level != -1
    requires !(Continues(e) && Effective(e.threads[e.current]) == level)
    ensures Continues(e) ==> RoundRobin(e, level) != e.current
  {
    MaxLevelIsReached(e.ring, e.threads);
    var u :| u in e.ring && Eligible(e.threads[u], level);
    hide Settled;
    SearchReaches(e.ring, e.threads, level, SearchStart(e), u);
    assert Eligible(e.threads[RoundRobin(e, level)], level);
  }

  /** What choosing changes of a queued thread. */
  lemma ChoosingOf<T>(e: Sched<T>, t: T)
    requires Settled(e) && t in e.ring
    ensures var c, b := Choose(e), e.threads[t];
            && t in c.threads && c.lastMs == e.lastMs
            && c.threads[t] == b.(state := c.threads[t].state, ticks := c.threads[t].ticks)
            && c.threads[t].state == (if t == c.current then Running else if b.state == Running then Ready else b.state)
            && c.threads[t].ticks == (if t != e.current then b.ticks
                                      else if b.state == Running && b.ticks > 1 && c.current == t then b.ticks - 1
                                      else b.priority)
  {
    hide InBounds, Distinct, RoundRobin, Effective, MaxPriority;
    MaxLevelIsReached(e.ring, e.threads);
    var level := MaxPriority(e.ring, e.threads);
    if level != -1 && !(Continues(e) && Effective(e.threads[e.current]) == level) {
      LeavesOne(e, level);
    }
  }

  /** Recovery after not having run for a while. */
  lemma SettledAccount(b: Thread, now: nat)
    requires b.dyn <= b.priority
    ensures var p := Settle(b, now);
            if b.state != Running && now - b.recoverMark >= 20 then
              p.dyn == (if b.dyn < b.priority then b.dyn + 1 else b.priority) && p.cpuUsed == b.cpuUsed / 2
            else p.dyn == b.dyn && p.cpuUsed == b.cpuUsed
  {
  }

  lemma OutgoingSettled(b: Thread, ms: nat, now: nat)
    requires InBounds(b, now) && b.state != Dead
    ensures var due := (b.cpuUsed + ms) % 0x1_0000_0000;
            var cost := if b.priority < 5 then due / (2 * b.priority) else 0;
            var level := if cost < b.dyn then b.dyn - cost else 1;
            var owed := if b.priority < 5 && cost < b.dyn then due % (2 * b.priority) else 0;
            var wins := (if b.state == Sleeping || b.state == Blocked then 1 else 0)
                        + (if b.state != Running && now - b.recoverMark >= 20 then 1 else 0);
            var p := Settle(ChargeOutgoing(b, ms), now);
            && p.dyn == (if level + wins < b.priority then level + wins else b.priority)
            && p.cpuUsed == (if wins == 0 then owed else if wins == 1 then owed / 2 else owed / 2 / 2)
  {
    hide *;
    BoundsOf(b, now);
    ChargeOutgoingBounds(b, ms, now);
    SettledAccount(ChargeOutgoing(b, ms), now);
  }

  lemma OutgoingPass1<T>(s: Sched<T>, now: nat)
    requires Inv(s) && s.clock <= now && s.current in s.ring && s.threads[s.current].state != Dead
    ensures InBounds(s.threads[s.current], now)
    ensures Pass1(s, s.current, now) == Settle(ChargeOutgoing(s.threads[s.current], (now - s.lastMs) % 0x1_0000_0000), now)
  {
    assert InBounds(s.threads[s.current], now) && s.current != s.idle;
    ChargeOutgoingKeeps(s.threads[s.current], (now - s.lastMs) % U32, now);
    hide ChargeOutgoing, Settle;
  }

  /** What a handler call costs the outgoing thread. Below REALTIME it has used up the time since the
      last call; every 2 * priority ms it owes cost a level, down to IDLE, where the rest is waived.
      If it gave the processor up, it then wins back a level and half of what it still owes, and the
      same again if it has not run for 20 ms. */
  lemma OutgoingIsCharged<T>(s: Sched<T>, now: nat)
    requires Inv(s) && s.clock <= now && s.current in s.ring && s.threads[s.current].state != Dead
    ensures s.current in HandlerStep(s, now).threads
    ensures var b, q := s.threads[s.current], HandlerStep(s, now).threads[s.current];
            var due := (b.cpuUsed + (now - s.lastMs) % 0x1_0000_0000) % 0x1_0000_0000;
            var cost := if b.priority < 5 then due / (2 * b.priority) else 0;
            var level := if cost < b.dyn then b.dyn - cost else 1;
            var owed := if b.priority < 5 && cost < b.dyn then due % (2 * b.priority) else 0;
            var wins := (if b.state == Sleeping || b.state == Blocked then 1 else 0)
                        + (if b.state != Running && now - b.recoverMark >= 20 then 1 else 0);
            && q.dyn == (if level + wins < b.priority then level + wins else b.priority)
            && q.cpuUsed == (if wins == 0 then owed else if wins == 1 then owed / 2 else owed / 2 / 2)
  {
    hide *;
    AfterPass1Of(s, now, s.current);
    OutgoingPass1(s, now);
    OutgoingSettled(s.threads[s.current], (now - s.lastMs) % 0x1_0000_0000, now);
    ChoosingOf(EndBoost(AfterPass1(s, now)), s.current);
  }

  /** It costs nobody else anything, however long it was: what the others owe and their levels change
      only by the recovery every 20 ms. */
  lemma OthersAreNotCharged<T>(s: Sched<T>, now: nat, t: T)
    requires Inv(s) && s.clock <= now && t in s.ring && t != s.current && s.threads[t].state != Dead
    ensures t in HandlerStep(s, now).threads
    ensures var b, q := s.threads[t], HandlerStep(s, now).threads[t];
            if now - b.recoverMark >= 20 then
              q.dyn == (if b.dyn < b.priority then b.dyn + 1 else b.priority) && q.cpuUsed == b.cpuUsed / 2
            else q.dyn == b.dyn && q.cpuUsed == b.cpuUsed
  {
    AfterPass1Of(s, now, t);
    BoundsOf(s.threads[t], s.clock);
    SettledAccount(s.threads[t], now);
    assert Pass1(s, t, now) == Settle(s.threads[t], now) by { hide Settle, HandlerStep, Choose; }
    assert InBounds(s.threads[t], s.clock) && s.threads[t].state != Running;
    hide *;
    ChoosingOf(EndBoost(AfterPass1(s, now)), t);
  }

  lemma BoundsOf(b: Thread, clock: nat)
    requires InBounds(b, clock)
    ensures 1 <= b.dyn <= b.priority <= 5
  {
  }

  // ---------------------------------------------------------------- whom it dispatches

  predicate Wants(b: Thread) {
    b.state == Ready || b.state == Running
  }

  function LevelOf(b: Thread): nat {
    if b.boosted then 5 else b.dyn
  }

  /** Going round the queue from place i, c is met before anyone else who wants the processor at no
      lower level. */
  ghost predicate MetFirst<T>(s: Sched<T>, i: nat, c: T)
    requires c in s.threads && i < |s.ring| && forall t :: t in s.ring ==> t in s.threads
  {
    exists p: nat :: p < |s.ring| && s.ring[p] == c &&
      forall j: nat :: j < |s.ring| && (if i <= p then i <= j < p else i <= j || j < p) ==>
        Wants(s.threads[s.ring[j]]) ==> LevelOf(s.threads[s.ring[j]]) < LevelOf(s.threads[c])
  }

  /** Nobody in the queue who wants the processor has a higher level than c. */
  ghost predicate Highest<T>(s: Sched<T>, c: T)
    requires c in s.threads && forall t :: t in s.ring ==> t in s.threads
  {
    forall t :: t in s.ring && Wants(s.threads[t]) ==> LevelOf(s.threads[t]) <= LevelOf(s.threads[c])
  }

  /** t is queued and may go on with its quantum. */
  predicate GoesOn<T>(e: Sched<T>, t: T) {
    t in e.ring && t in e.threads && e.threads[t].state == Running && e.threads[t].ticks > 1
  }

  /** Place i comes after the outgoing thread, or is the head if that has left the queue. */
  predicate ComesNext<T>(s: Sched<T>, out: T, i: nat) {
    i < |s.ring| && if out in s.ring then s.ring[if i == 0 then |s.ring| - 1 else i - 1] == out else i == 0
  }

  lemma PicksHighest<T>(e: Sched<T>)
    requires Settled(e)
    ensures var c := Choose(e);
            && c.ring == e.ring && c.current in e.threads
            && (c.current == e.idle <==> forall t :: t in e.ring ==> !Wants(e.threads[t]))
            && (c.current != e.idle ==> c.current in e.ring && Wants(e.threads[c.current]) && Highest(e, c.current))
            && (GoesOn(e, e.current) && Highest(e, e.current) ==> c.current == e.current)
  {
    hide InBounds, Distinct, RoundRobin, MaxPriority;
    MaxLevelIsReached(e.ring, e.threads);
    var level := MaxPriority(e.ring, e.threads);
    if level != -1 {
      var u :| u in e.ring && Eligible(e.threads[u], level);
      if !(Continues(e) && Effective(e.threads[e.current]) == level) {
        RoundRobinFits(e, level, u);
      }
    }
  }

  lemma RoundRobinFits<T>(e: Sched<T>, level: int, u: T)
    requires Settled(e) && u in e.ring && Eligible(e.threads[u], level)
    ensures RoundRobin(e, level) in e.ring && Eligible(e.threads[RoundRobin(e, level)], level)
  {
    hide Settled;
    assert forall t :: t in e.ring ==> t in e.threads by { SettledParts(e); }
    SearchReaches(e.ring, e.threads, level, SearchStart(e), u);
  }

  lemma SettledParts<T>(e: Sched<T>)
    requires Settled(e)
    ensures Distinct(e.ring) && e.idle !in e.ring && e.idle in e.threads && forall t :: t in e.ring ==> t in e.threads
  {
  }

  lemma SearchStartIs<T>(e: Sched<T>, i: nat)
    requires Distinct(e.ring) && ComesNext(e, e.current, i)
    ensures SearchStart(e) == i
  {
  }

  /** Unless the outgoing thread goes on, the search decides. */
  lemma PicksSearched<T>(e: Sched<T>)
    requires Settled(e) && Choose(e).current != e.idle
    requires !(GoesOn(e, e.current) && Highest(e, e.current))
    ensures MaxPriority(e.ring, e.threads) != -1 && e.ring != []
    ensures Choose(e).current == RoundRobin(e, MaxPriority(e.ring, e.threads))
  {
    MaxLevelIsReached(e.ring, e.threads);
    hide InBounds, Distinct, RoundRobin, MaxPriority, ComesNext;
  }

  /** The search seen from the places it passes. */
  lemma SearchMeets<T>(e: Sched<T>, level: int, i: nat, r: nat)
    requires i < |e.ring| && r < |e.ring| && forall t :: t in e.ring ==> t in e.threads
    requires EligibleAt(e.ring, e.threads, level, i, r)
    requires forall t :: t in e.ring && e.threads[t].Runnable() ==> Effective(e.threads[t]) <= level
    requires forall j :: 0 <= j < r ==> !EligibleAt(e.ring, e.threads, level, i, j)
    ensures MetFirst(e, i, e.ring[Wrap(i + r, |e.ring|)])
  {
    var n, p: nat := |e.ring|, Wrap(i + r, |e.ring|);
    forall j: nat | j < n && (if i <= p then i <= j < p else i <= j || j < p) && Wants(e.threads[e.ring[j]])
      ensures LevelOf(e.threads[e.ring[j]]) < LevelOf(e.threads[e.ring[p]])
    {
      var k := if j >= i then j - i else j + n - i;
      assert !EligibleAt(e.ring, e.threads, level, i, k) && Wrap(i + k, n) == j;
    }
  }

  lemma RoundRobinIs<T>(e: Sched<T>, level: int)
    requires e.ring != [] && forall t :: t in e.ring ==> t in e.threads
    ensures RoundRobin(e, level)
            == e.ring[Wrap(SearchStart(e) + SearchSteps(e.ring, e.threads, level, SearchStart(e), 0), |e.ring|)]
  {
  }

  lemma RoundRobinIsFirst<T>(e: Sched<T>, i: nat)
    requires Distinct(e.ring) && ComesNext(e, e.current, i) && forall t :: t in e.ring ==> t in e.threads
    requires MaxPriority(e.ring, e.threads) != -1
    ensures e.ring != [] && i < |e.ring| && MetFirst(e, i, RoundRobin(e, MaxPriority(e.ring, e.threads)))
  {
    hide *;
    SearchStartIs(e, i);
    MaxLevelIsReached(e.ring, e.threads);
    var level := MaxPriority(e.ring, e.threads);
    RoundRobinIs(e, level);
    var u :| u in e.ring && Eligible(e.threads[u], level);
    SearchReaches(e.ring, e.threads, level, i, u);
    SearchMeets(e, level, i, SearchSteps(e.ring, e.threads, level, i, 0));
  }

  lemma PicksFirst<T>(e: Sched<T>, i: nat)
    requires Settled(e) && ComesNext(e, e.current, i) && Choose(e).current != e.idle
    requires !(GoesOn(e, e.current) && Highest(e, e.current))
    ensures Choose(e).current in e.threads && (forall t :: t in e.ring ==> t in e.threads) && i < |e.ring|
    ensures MetFirst(e, i, Choose(e).current)
  {
    PicksSearched(e);
    SettledParts(e);
    PicksHighest(e);
    hide *;
    RoundRobinIsFirst(e, i);
  }

  /** Choosing changes nobody's level, and nobody begins or stops wanting the processor by it. */
  lemma SameWishes<T>(e: Sched<T>)
    requires Settled(e)
    ensures var c := Choose(e);
            && c.ring == e.ring && c.current in c.threads && c.idle == e.idle && c.threads.Keys == e.threads.Keys
            && forall t :: t in e.ring ==>
                 && t in c.threads && t in e.threads
                 && Wants(c.threads[t]) == Wants(e.threads[t]) && LevelOf(c.threads[t]) == LevelOf(e.threads[t])
  {
    ChooseDispatches(e);
    PicksHighest(e);
    SettledParts(e);
    ChoosingKeys(e);
    hide Settled, Choose, Inv, Dispatched;
    forall t | t in e.ring
      ensures t in Choose(e).threads && Wants(Choose(e).threads[t]) == Wants(e.threads[t]) && LevelOf(Choose(e).threads[t]) == LevelOf(e.threads[t])
    {
      ChoosingOf(e, t);
    }
  }

  lemma ChoosingKeys<T>(e: Sched<T>)
    requires Settled(e)
    ensures Choose(e).threads.Keys == e.threads.Keys
  {
    MaxLevelIsReached(e.ring, e.threads);
    SettledParts(e);
    hide InBounds, Distinct, RoundRobin, MaxPriority;
    if MaxPriority(e.ring, e.threads) != -1 { assert RoundRobin(e, MaxPriority(e.ring, e.threads)) in e.ring; }
  }

  lemma HighestSame<T>(e: Sched<T>, c: Sched<T>, t: T)
    requires t in e.threads && t in c.threads && t in e.ring && c.ring == e.ring
    requires forall u :: u in e.ring ==>
               && u in c.threads && u in e.threads
               && Wants(c.threads[u]) == Wants(e.threads[u]) && LevelOf(c.threads[u]) == LevelOf(e.threads[u])
    ensures Highest(c, t) == Highest(e, t)
    ensures forall i: nat :: i < |e.ring| ==> MetFirst(c, i, t) == MetFirst(e, i, t)
  {
    hide Wants, LevelOf;
  }

  /** The outgoing thread as pass 1 leaves it. */
  lemma GoesOnAfterPass1<T>(s: Sched<T>, now: nat)
    requires Inv(s) && s.clock <= now && s.ring != []
    ensures Shape(s)
    ensures var e := EndBoost(AfterPass1(s, now));
            && Settled(e) && HandlerStep(s, now) == Choose(e) && e.current == s.current && e.idle == s.idle
            && GoesOn(e, s.current) == GoesOn(s, s.current)
  {
    var e := EndBoost(AfterPass1(s, now));
    LiveFacts(s.ring, s.threads);
    AfterPass1IsSettled(s, now);
    EndBoostKeepsSettled(AfterPass1(s, now));
    if s.current in s.ring && s.threads[s.current].state != Dead { Pass1Bounds(s, s.current, now); }
    hide Choose, Settled, Pass1;
  }

  /** Whom a handler call dispatches. The idle thread runs only if nobody in the queue can; otherwise
      it is one whose level nobody exceeds. While the outgoing thread has ticks left and nobody exceeds
      its level, it goes on. */
  lemma HandlerPicks<T>(s: Sched<T>, now: nat)
    requires Inv(s) && s.clock <= now && s.ring != []
    ensures var s' := HandlerStep(s, now);
            && s'.current in s'.threads && (forall t :: t in s'.ring ==> t in s'.threads)
            && (s'.current == s.idle <==> forall t :: t in s'.ring ==> !Wants(s'.threads[t]))
            && (s'.current != s.idle ==>
                  s'.current in s'.ring && Wants(s'.threads[s'.current]) && Highest(s', s'.current))
            && (GoesOn(s, s.current) ==> s.current in s'.ring && (Highest(s', s.current) ==> s'.current == s.current))
  {
    hide *;
    GoesOnAfterPass1(s, now);
    var e := EndBoost(AfterPass1(s, now));
    SettledParts(e);
    var c: Sched<T> := Choose(e);
    PicksHighest(e);
    SameWishes(e);
    if c.current != s.idle { HighestSame(e, c, c.current); }
    if GoesOn(s, s.current) {
      GoesOnIsQueued(e);
      HighestSame(e, c, s.current);
    }
  }

  lemma GoesOnIsQueued<T>(e: Sched<T>)
    requires GoesOn(e, e.current)
    ensures e.current in e.ring && e.current in e.threads
  {
  }

  /** Otherwise the processor goes round the queue: whoever gets it is met first, from the link after
      the outgoing thread on, among those whose level nobody exceeds. */
  lemma HandlerGoesRound<T>(s: Sched<T>, now: nat, i: nat)
    requires Inv(s) && s.clock <= now && s.ring != []
    requires HandlerStep(s, now).current != s.idle && ComesNext(HandlerStep(s, now), s.current, i)
    requires GoesOn(s, s.current) ==> HandlerStep(s, now).current != s.current
    ensures var s' := HandlerStep(s, now);
            && s'.current in s'.threads && (forall t :: t in s'.ring ==> t in s'.threads) && i < |s'.ring|
            && MetFirst(s', i, s'.current)
  {
    hide *;
    GoesOnAfterPass1(s, now);
    var e := EndBoost(AfterPass1(s, now));
    SettledParts(e);
    var c: Sched<T> := Choose(e);
    PicksHighest(e);
    SameWishes(e);
    NextIn(e, c, s.current, i);
    if GoesOn(e, e.current) { GoesOnIsQueued(e); }
    PicksFirst(e, i);
    HighestSame(e, c, c.current);
  }

  lemma NextIn<T>(e: Sched<T>, c: Sched<T>, out: T, i: nat)
    requires e.ring == c.ring && ComesNext(c, out, i)
    ensures ComesNext(e, out, i) && i < |e.ring|
  {
  }

  // ---------------------------------------------------------------- turns

  lemma SettledTurn(b: Thread, now: nat)
    ensures var p := Settle(b, now);
            var woken := b.state == Sleeping && now >= b.wakeTick;
            && p.priority == b.priority && p.wakeTick == b.wakeTick && p.ticks == b.ticks
            && p.state == (if woken then Ready else b.state)
            && p.boosted == (b.boosted || ((b.state == Ready || woken) && now - b.waitMark >= 100))
            && p.recoverMark == (if b.state == Running || now - b.recoverMark >= 20 then now else b.recoverMark)
            && p.waitMark == (if b.state == Ready || woken then b.waitMark else now)
  {
  }

  lemma Pass1Turn<T>(s: Sched<T>, now: nat, t: T)
    requires Inv(s) && s.clock <= now && t in s.ring && s.threads[t].state != Dead
    ensures var b, p := s.threads[t], Pass1(s, t, now);
            var woken := b.state == Sleeping && now >= b.wakeTick;
            && p.priority == b.priority && p.wakeTick == b.wakeTick && p.ticks == b.ticks
            && p.state == (if woken then Ready else b.state)
            && p.boosted == (b.boosted || ((b.state == Ready || woken) && now - b.waitMark >= 100))
            && p.recoverMark == (if b.state == Running || now - b.recoverMark >= 20 then now else b.recoverMark)
            && p.waitMark == (if b.state == Ready || woken then b.waitMark else now)
  {
    var b := s.threads[t];
    assert InBounds(b, now) && t != s.idle;
    ChargeOutgoingKeeps(b, (now - s.lastMs) % U32, now);
    hide Inv, ChargeOutgoing, Settle, InBounds;
    SettledTurn(if t == s.current then ChargeOutgoing(b, (now - s.lastMs) % U32) else b, now);
  }

  /** What else a handler call changes of a queued thread. A sleeper is woken when its time has come;
      the one dispatched runs and nobody else does; the outgoing thread uses up a tick if it goes on,
      and otherwise gets a fresh quantum; it keeps its boost only if it still had ticks to run; who
      has been ready for 100 ms without running is boosted. */
  lemma HandlerTurns<T>(s: Sched<T>, now: nat, t: T)
    requires Inv(s) && s.clock <= now && t in s.ring && s.threads[t].state != Dead
    ensures t in HandlerStep(s, now).threads && HandlerStep(s, now).lastMs == now
    ensures var c, b, q := HandlerStep(s, now).current, s.threads[t], HandlerStep(s, now).threads[t];
            var woken := b.state == Sleeping && now >= b.wakeTick;
            && q.priority == b.priority && q.wakeTick == b.wakeTick
            && q.state == (if t == c then Running else if woken || b.state == Running then Ready else b.state)
            && (t == c ==> b.state == Ready || b.state == Running || woken)
            && q.ticks == (if t != s.current then b.ticks
                           else if b.state == Running && b.ticks > 1 && t == c then b.ticks - 1
                           else b.priority)
            && q.boosted == if t == s.current && !(b.state == Running && b.ticks > 1) then false
                            else b.boosted || ((b.state == Ready || woken) && now - b.waitMark >= 100)
  {
    hide *;
    AfterPass1Of(s, now, t);
    Pass1Turn(s, now, t);
    ChoosingOf(EndBoost(AfterPass1(s, now)), t);
    if t == HandlerStep(s, now).current { OnlyTheWilling(s, now, t); }
  }

  /** Nobody is dispatched who sleeps or is blocked. */
  lemma OnlyTheWilling<T>(s: Sched<T>, now: nat, t: T)
    requires Inv(s) && s.clock <= now && t in s.ring && s.threads[t].state != Dead
    requires HandlerStep(s, now).current == t
    ensures Pass1(s, t, now).state == Ready || Pass1(s, t, now).state == Running
  {
    AfterPass1Of(s, now, t);
    PicksHighest(EndBoost(AfterPass1(s, now)));
    hide HandlerStep, Choose, Pass1, AfterPass1, Settled;
  }

  /** The two clocks of a queued thread: recovery counts from the last recovery or the last time it
      ran, waiting from the last time it was not ready. */
  lemma HandlerClocks<T>(s: Sched<T>, now: nat, t: T)
    requires Inv(s) && s.clock <= now && t in s.ring && s.threads[t].state != Dead
    ensures t in HandlerStep(s, now).threads
    ensures var b, q := s.threads[t], HandlerStep(s, now).threads[t];
            && q.recoverMark == (if b.state == Running || now - b.recoverMark >= 20 then now else b.recoverMark)
            && q.waitMark == (if b.state == Ready || (b.state == Sleeping && now >= b.wakeTick) then b.waitMark else now)
  {
    hide *;
    AfterPass1Of(s, now, t);
    Pass1Turn(s, now, t);
    ChoosingOf(EndBoost(AfterPass1(s, now)), t);
  }

  // ---------------------------------------------------------------- sleeping, blocking, yielding

  /** t sleeps until `due`, or is blocked. */
  ghost predicate OffUntil<T>(s: Sched<T>, t: T, due: Option<nat>) {
    && t in s.ring && t in s.threads
    && if due.None? then s.threads[t].state == Blocked
       else s.threads[t].state == Sleeping && s.threads[t].wakeTick == due.value
  }

  predicate Before(a: Action, due: Option<nat>) {
    a.Tick? && due.Some? ==> a.now < due.value
  }

  lemma TickWhileOff<T>(s: Sched<T>, now: nat, t: T, due: Option<nat>)
    requires Inv(s) && s.clock <= now && OffUntil(s, t, due)
    ensures var s' := HandlerStep(s, now);
            if due.Some? && now >= due.value then
              t in s'.ring && t in s'.threads && Wants(s'.threads[t])
            else OffUntil(s', t, due)
  {
    HandlerTurns(s, now, t);
    HandlerKeepsInv(s, now);
    LiveFacts(s.ring, s.threads);
    hide HandlerStep, Inv, Live;
  }

  lemma ActionWhileOff<T>(s: Sched<T>, a: Action<T>, t: T, due: Option<nat>)
    requires Inv(s) && Enabled(s, a) && OffUntil(s, t, due)
    requires a != Wake(t) && a != Kill(t) && Before(a, due)
    ensures OffUntil(Apply(s, a), t, due)
  {
    if a.Tick? { TickWhileOff(s, a.now, t, due); }
    hide HandlerStep;
  }

  /** A sleeping or blocked thread that nobody wakes or kills stays so as long as its time has not
      come; a blocked one for good. */
  lemma {:induction false} StaysOff<T>(s: Sched<T>, acts: seq<Action<T>>, t: T, due: Option<nat>)
    requires Inv(s) && IsRun(s, acts) && OffUntil(s, t, due)
    requires Wake(t) !in acts && Kill(t) !in acts && forall a :: a in acts ==> Before(a, due)
    ensures Inv(After(s, acts)) && OffUntil(After(s, acts), t, due)
    decreases |acts|
  {
    if acts != [] {
      ActionKeepsInv(s, acts[0]);
      ActionWhileOff(s, acts[0], t, due);
      StaysOff(Apply(s, acts[0]), acts[1..], t, due);
    }
  }

  /** thread_sleep(ms) at time `now`, and event_wait with that timeout: unless it is woken or killed,
      the thread sleeps through every handler call before now + ms, and the first one from then on
      makes it ready or lets it run. */
  lemma SleepsThatLong<T>(s: Sched<T>, ms: nat, now: nat, acts: seq<Action<T>>, late: nat)
    requires Inv(s) && Enabled(s, Sleep(ms, now)) && IsRun(Apply(s, Sleep(ms, now)), acts)
    requires Wake(s.current) !in acts && Kill(s.current) !in acts
    requires forall u: nat :: Tick(u) in acts ==> u < now + ms
    requires late >= After(Apply(s, Sleep(ms, now)), acts).clock && late >= now + ms
    ensures var e := After(Apply(s, Sleep(ms, now)), acts);
            && s.current in e.threads && e.threads[s.current].state == Sleeping
            && Shape(e)
            && var w := HandlerStep(e, late);
               s.current in w.ring && s.current in w.threads && Wants(w.threads[s.current])
  {
    ActionKeepsInv(s, Sleep(ms, now));
    StaysOff(Apply(s, Sleep(ms, now)), acts, s.current, Some(now + ms));
    TickWhileOff(After(Apply(s, Sleep(ms, now)), acts), late, s.current, Some(now + ms));
    hide HandlerStep;
  }

  /** mutex_lock and event_wait without a timeout: only a wake-up or a kill ends it. */
  lemma BlocksUntilWoken<T>(s: Sched<T>, acts: seq<Action<T>>)
    requires Inv(s) && Enabled(s, Block) && IsRun(Apply(s, Block), acts)
    requires Wake(s.current) !in acts && Kill(s.current) !in acts
    ensures var e := After(Apply(s, Block), acts); s.current in e.threads && e.threads[s.current].state == Blocked
  {
    ActionKeepsInv(s, Block);
    StaysOff(Apply(s, Block), acts, s.current, None);
  }

  /** A thread that exits or is killed is out of the queue and of the table after the next handler call. */
  lemma DeadAreGone<T>(s: Sched<T>, a: Action<T>, t: T, now: nat)
    requires Inv(s) && Enabled(s, a) && s.clock <= now
    requires a == Kill(t) || (a == Exit && t == s.current)
    ensures var y := Apply(s, a); Inv(y) && y.clock <= now && t !in HandlerStep(y, now).ring && t !in HandlerStep(y, now).threads
  {
    var y := Apply(s, a);
    ActionKeepsInv(s, a);
    HandlerKeepsInv(y, now);
    LiveFacts(y.ring, y.threads);
    assert t in y.ring && y.threads[t].state == Dead && t != y.idle;
    hide HandlerStep, Live;
  }

  /** A sleeping or blocked thread that is woken wants the processor from then on. */
  lemma WokenWaits<T>(s: Sched<T>, t: T)
    requires Inv(s) && Enabled(s, Wake(t))
    ensures var y := Apply(s, Wake(t)); Inv(y) && t in y.threads && y.threads[t].state == Ready && (t != s.current ==> Waiting(y, t))
  {
    ActionKeepsInv(s, Wake(t));
  }

  /** Whoever is met only after the whole round is above everyone else. */
  lemma MetLast<T>(s: Sched<T>, i: nat, c: T)
    requires Distinct(s.ring) && ComesNext(s, c, i) && c in s.ring && c in s.threads
    requires (forall t :: t in s.ring ==> t in s.threads) && MetFirst(s, i, c)
    ensures forall u :: u in s.ring && u != c && Wants(s.threads[u]) ==> LevelOf(s.threads[u]) < LevelOf(s.threads[c])
  {
    hide Wants, LevelOf;
    forall u | u in s.ring && u != c && Wants(s.threads[u]) ensures LevelOf(s.threads[u]) < LevelOf(s.threads[c]) {
      var k := Position(s.ring, u);
      assert Wants(s.threads[s.ring[k]]);
    }
  }

  lemma NextPlace<T>(s: Sched<T>, c: T) returns (i: nat)
    requires c in s.ring
    ensures ComesNext(s, c, i)
  {
    var p := Position(s.ring, c);
    i := if p + 1 == |s.ring| then 0 else p + 1;
  }

  lemma AfterYield<T>(s: Sched<T>, now: nat)
    requires Inv(s) && Enabled(s, Yield) && s.clock <= now
    ensures var y := Apply(s, Yield);
            && Inv(y) && y.clock <= now && y.ring != [] && !GoesOn(y, y.current) && y.current == s.current && y.idle != s.current
            && var s' := HandlerStep(y, now); Distinct(s'.ring) && s.current in s'.ring
  {
    var y := Apply(s, Yield);
    ActionKeepsInv(s, Yield);
    HandlerKeepsInv(y, now);
    LiveFacts(y.ring, y.threads);
    hide HandlerStep, Live;
  }

  /** A thread that yields gives way: it goes on only if everyone else who wants the processor is
      below it. */
  lemma YieldGivesWay<T>(s: Sched<T>, now: nat, u: T)
    requires Inv(s) && Enabled(s, Yield) && s.clock <= now
    requires HandlerStep(Apply(s, Yield), now).current == s.current
    requires u in HandlerStep(Apply(s, Yield), now).ring && u != s.current
    ensures var s' := HandlerStep(Apply(s, Yield), now);
            && u in s'.threads && s.current in s'.threads
            && (Wants(s'.threads[u]) ==> LevelOf(s'.threads[u]) < LevelOf(s'.threads[s.current]))
  {
    AfterYield(s, now);
    hide *;
    var s' := HandlerStep(Apply(s, Yield), now);
    var i := NextPlace(s', s.current);
    HandlerGoesRound(Apply(s, Yield), now, i);
    MetLast(s', i, s.current);
  }
}
