/** The thread control block of kernel/scheduler/scheduler.h:79-105 and the updates of its
    priority fields, each refining its function in module Threads. */
module ThreadBlocks {
  import opened Basics
  import opened Threads

  class Event {
    var signaled: bool
    var waiters: ThreadBlock?

    constructor ()
      ensures !signaled && waiters == null
    {
      signaled, waiters := false, null;
    }
  }

  class ThreadBlock {
    const priority: nat
    var state: ThreadState
    var ticksRemaining: nat
    var wakeTick: nat
    var dynPriority: nat
    var boosted: bool
    var cpuUsed: nat
    var recoverMark: nat
    var waitMark: nat

    var next: ThreadBlock?        // run queue link (circular)
    var reapNext: ThreadBlock?    // reaper list link

    var waitEvent: Event?         // event this thread is queued on
    var waitNext: ThreadBlock?    // event wait list link
    var waitSignaled: bool

    constructor (priority: nat, now: nat)
      ensures View() == NewThread(priority, now)
      ensures this.priority == priority && dynPriority == priority && ticksRemaining == priority
      ensures state == Ready && !boosted && cpuUsed == 0 && recoverMark == now && waitMark == now
      ensures next == null && reapNext == null && waitEvent == null && waitNext == null && !waitSignaled
    {
      this.priority := priority;
      state, ticksRemaining, wakeTick := Ready, priority, 0;
      dynPriority, boosted, cpuUsed, recoverMark, waitMark := priority, false, 0, now, now;
      next, reapNext, waitEvent, waitNext, waitSignaled := null, null, null, null, false;
    }

    /** The fields the scheduler decides by. */
    ghost function View(): Thread
      reads this`state, this`ticksRemaining, this`wakeTick, this`dynPriority, this`boosted
      reads this`cpuUsed, this`recoverMark, this`waitMark
    {
      Thread(state, priority, ticksRemaining, wakeTick, dynPriority, boosted, cpuUsed, recoverMark, waitMark)
    }

    /** thread_effective */
    function EffectivePriority(): nat
      reads this`boosted, this`dynPriority
    {
      if boosted then PRIORITY_REALTIME else dynPriority
    }

    /** thread_charge_cpu */
    method ChargeCpu(ms: nat)
      requires priority >= PRIORITY_IDLE
      modifies this`cpuUsed, this`dynPriority
      ensures View() == Charge(old(View()), ms)
    {
      if priority == PRIORITY_REALTIME {
        cpuUsed := 0;
        return;
      }
      var allotment := priority * SCHED_DEGRADE_QUANTA * SCHED_TICK_MS;
      cpuUsed := (cpuUsed + ms) % U32;
      ghost var charged := View();
      while cpuUsed >= allotment
        invariant Degrade(View()) == Degrade(charged)
        invariant allotment == Allotment(View()) > 0
        invariant View() == charged.(dyn := dynPriority, cpuUsed := cpuUsed)
        decreases cpuUsed
      {
        if dynPriority <= PRIORITY_IDLE {
          cpuUsed := 0;
          break;
        }
        dynPriority := dynPriority - 1;
        cpuUsed := cpuUsed - allotment;
      }
    }

    /** thread_recover */
    method RecoverLevel()
      modifies this`cpuUsed, this`dynPriority
      ensures View() == Recover(old(View()))
    {
      cpuUsed := cpuUsed / 2;
      if dynPriority < priority {
        dynPriority := dynPriority + 1;
      }
    }

    /** The handler's accounting for the thread that just had the processor. */
    method LeaveCpu(ms: nat)
      requires priority >= PRIORITY_IDLE
      modifies this`cpuUsed, this`dynPriority
      ensures View() == ChargeOutgoing(old(View()), ms)
    {
      if state != Dead {
        ChargeCpu(ms);
        if state == Sleeping || state == Blocked {
          RecoverLevel();
        }
      }
    }

    /** thread_age */
    method AgeBy(now: nat)
      requires recoverMark <= now && waitMark <= now
      modifies this`recoverMark, this`waitMark, this`boosted, this`cpuUsed, this`dynPriority
      ensures View() == Age(old(View()), now)
    {
      if state == Running {
        recoverMark := now;
        waitMark := now;
        return;
      }
      if now - recoverMark >= SCHED_RECOVER_MS {
        recoverMark := now;
        RecoverLevel();
      }
      if state != Ready {
        waitMark := now;
        return;
      }
      if !boosted && now - waitMark >= SCHED_STARVATION_MS {
        boosted := true;
      }
    }
  }
}
