/** What the scheduler records about one thread (kernel/scheduler/scheduler.h) and the
    per-thread arithmetic of dynamic priorities (kernel/boot/x86/scheduler.c:60-131). */
module Threads {
  import opened Basics

  const PRIORITY_IDLE := 1
  const PRIORITY_REALTIME := 5
  const SCHED_TICK_MS := 1
  const SCHED_DEGRADE_QUANTA := 2
  const SCHED_RECOVER_MS := 20
  const SCHED_STARVATION_MS := 100

  datatype ThreadState = Ready | Running | Sleeping | Blocked | Dead

  datatype Thread = Thread(
    state: ThreadState,
    priority: nat,        // base priority, also the quantum in ticks
    ticks: nat,           // ticks left in the current quantum
    wakeTick: nat,
    dyn: nat,             // effective priority before the boost
    boosted: bool,
    cpuUsed: nat,
    recoverMark: nat,
    waitMark: nat)
  {
    predicate Runnable() { state == Ready || state == Running }
  }

  function Effective(t: Thread): nat {
    if t.boosted then PRIORITY_REALTIME else t.dyn
  }

  function Allotment(t: Thread): nat {
    t.priority * SCHED_DEGRADE_QUANTA * SCHED_TICK_MS
  }

  function NewThread(priority: nat, now: nat): Thread {
    Thread(Ready, priority, priority, 0, priority, false, 0, now, now)
  }

  /** One level lost for every full allotment used; at the floor the account is cleared. */
  function Degrade(t: Thread): Thread
    decreases t.dyn
  {
    if t.cpuUsed < Allotment(t) then t
    else if t.dyn <= PRIORITY_IDLE then t.(cpuUsed := 0)
    else Degrade(t.(dyn := t.dyn - 1, cpuUsed := t.cpuUsed - Allotment(t)))
  }

  /** thread_charge_cpu; the usage counter is a 32-bit word. */
  function Charge(t: Thread, ms: nat): Thread {
    if t.priority == PRIORITY_REALTIME then t.(cpuUsed := 0)
    else Degrade(t.(cpuUsed := (t.cpuUsed + ms) % U32))
  }

  /** thread_recover */
  function Recover(t: Thread): Thread {
    t.(cpuUsed := t.cpuUsed / 2, dyn := if t.dyn < t.priority then t.dyn + 1 else t.dyn)
  }

  /** thread_age */
  function Age(t: Thread, now: nat): Thread {
    if t.state == Running then t.(recoverMark := now, waitMark := now)
    else
      var r := if now - t.recoverMark >= SCHED_RECOVER_MS then Recover(t.(recoverMark := now)) else t;
      if r.state != Ready then r.(waitMark := now)
      else if !r.boosted && now - r.waitMark >= SCHED_STARVATION_MS then r.(boosted := true)
      else r
  }

  function WakeIfDue(t: Thread, now: nat): Thread {
    if t.state == Sleeping && now >= t.wakeTick then t.(state := Ready) else t
  }

  /** What one scheduler pass does to a thread that stays in the queue. */
  function Settle(t: Thread, now: nat): Thread {
    Age(WakeIfDue(t, now), now)
  }

  /** The outgoing thread is charged for the time since the last pass, and wins a level back
      if it gave the processor up. */
  function ChargeOutgoing(t: Thread, elapsed: nat): Thread {
    if t.state == Dead then t
    else
      var c := Charge(t, elapsed);
      if c.state == Sleeping || c.state == Blocked then Recover(c) else c
  }

  /** Bounds every queued thread keeps. */
  predicate InBounds(t: Thread, clock: nat) {
    && PRIORITY_IDLE <= t.dyn <= t.priority <= PRIORITY_REALTIME
    && t.ticks <= t.priority
    && t.cpuUsed < Allotment(t)
    && t.recoverMark <= clock && t.waitMark <= clock
  }

  lemma {:induction false} DegradeBounds(t: Thread)
    requires PRIORITY_IDLE <= t.dyn <= t.priority
    ensures var d := Degrade(t);
            && PRIORITY_IDLE <= d.dyn <= t.dyn && d.cpuUsed < Allotment(t)
            && d == t.(dyn := d.dyn, cpuUsed := d.cpuUsed)
    decreases t.dyn
  {
    if t.cpuUsed >= Allotment(t) && t.dyn > PRIORITY_IDLE {
      DegradeBounds(t.(dyn := t.dyn - 1, cpuUsed := t.cpuUsed - Allotment(t)));
    }
  }

  /** After k whole allotments and a remainder r the thread is k levels lower and owes r; if that
      would pass the floor it is at the floor and owes nothing. */
  lemma {:induction false} DegradeCountsAllotments(t: Thread, k: nat, r: nat)
    requires PRIORITY_IDLE <= t.dyn <= t.priority
    requires t.cpuUsed == k * Allotment(t) + r && r < Allotment(t)
    ensures Degrade(t) == if k <= t.dyn - PRIORITY_IDLE then t.(dyn := t.dyn - k, cpuUsed := r)
                          else t.(dyn := PRIORITY_IDLE, cpuUsed := 0)
    decreases t.dyn
  {
    hide Allotment;
    if k > 0 {
      OneAllotmentLess(k, Allotment(t));
      if t.dyn > PRIORITY_IDLE {
        var u := t.(dyn := t.dyn - 1, cpuUsed := t.cpuUsed - Allotment(t));
        SameAllotment(t, u);
        DegradeCountsAllotments(u, k - 1, r);
      }
    }
  }

  lemma OneAllotmentLess(k: nat, a: nat)
    requires k > 0
    ensures k * a == (k - 1) * a + a && k * a >= a
  {
  }

  lemma SameAllotment(t: Thread, u: Thread)
    requires t.priority == u.priority
    ensures Allotment(t) == Allotment(u)
  {
  }

  lemma DivMod(n: nat, a: nat)
    requires a > 0
    ensures n == n / a * a + n % a && n % a < a && n / a >= 0
  {
  }

  /** Charging keeps the bounds. The level drops by exactly the number of whole allotments used and
      the rest is owed; if that would pass the floor the thread is at the floor and owes nothing. A
      REALTIME thread never pays. */
  lemma ChargeBounds(t: Thread, ms: nat, clock: nat)
    requires InBounds(t, clock)
    ensures InBounds(Charge(t, ms), clock)
    ensures var used := (t.cpuUsed + ms) % U32;
            var k := used / Allotment(t);
            Charge(t, ms) == if t.priority == PRIORITY_REALTIME then t.(cpuUsed := 0)
                             else if k <= t.dyn - PRIORITY_IDLE then t.(dyn := t.dyn - k, cpuUsed := used % Allotment(t))
                             else t.(dyn := PRIORITY_IDLE, cpuUsed := 0)
  {
    if t.priority != PRIORITY_REALTIME {
      var used, a := (t.cpuUsed + ms) % U32, Allotment(t);
      var u := t.(cpuUsed := used);
      SameAllotment(t, u);
      hide Allotment;
      DegradeBounds(u);
      DivMod(used, a);
      DegradeCountsAllotments(u, used / a, used % a);
    }
  }

  lemma ChargeOutgoingKeeps(t: Thread, ms: nat, clock: nat)
    requires InBounds(t, clock)
    ensures InBounds(ChargeOutgoing(t, ms), clock)
    ensures var c := ChargeOutgoing(t, ms); c == t.(dyn := c.dyn, cpuUsed := c.cpuUsed)
  {
    ChargeBounds(t, ms, clock);
  }

  /** Accounting for the outgoing thread keeps the bounds and changes its level and debt alone: the
      time is charged, and a thread that gave the processor up then wins back a level and half the
      rest. */
  lemma ChargeOutgoingBounds(t: Thread, ms: nat, clock: nat)
    requires InBounds(t, clock)
    ensures InBounds(ChargeOutgoing(t, ms), clock)
    ensures var c := ChargeOutgoing(t, ms); c == t.(dyn := c.dyn, cpuUsed := c.cpuUsed)
    ensures t.state == Dead ==> ChargeOutgoing(t, ms) == t
    ensures t.state != Dead ==>
              var due := (t.cpuUsed + ms) % 0x1_0000_0000;
              var cost := if t.priority < 5 then due / (2 * t.priority) else 0;
              var level := if cost < t.dyn then t.dyn - cost else 1;
              var owed := if t.priority < 5 && cost < t.dyn then due % (2 * t.priority) else 0;
              var c := ChargeOutgoing(t, ms);
              if t.state == Sleeping || t.state == Blocked then
                c.dyn == (if level < t.priority then level + 1 else level) && c.cpuUsed == owed / 2
              else c.dyn == level && c.cpuUsed == owed
  {
    ChargeBounds(t, ms, clock);
    assert Allotment(t) == 2 * t.priority;
    hide Charge, Degrade;
  }

  lemma SettleBounds(t: Thread, now: nat)
    requires InBounds(t, now)
    ensures InBounds(Settle(t, now), now)
    ensures Settle(t, now).priority == t.priority && Settle(t, now).ticks == t.ticks
    ensures Settle(t, now).state == if t.state == Sleeping && now >= t.wakeTick then Ready else t.state
    ensures t.boosted ==> Settle(t, now).boosted
    ensures t.state == Ready && now - t.waitMark >= SCHED_STARVATION_MS ==> Settle(t, now).boosted
    ensures t.state == Ready ==> Settle(t, now).waitMark == t.waitMark
  {
  }
}
