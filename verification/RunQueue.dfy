/** The scheduler over linked thread blocks: a circular run queue, a reaper list and the handler
    itself (kernel/boot/x86/scheduler.c:193-225, 395-427, 450-571), proved to compute exactly
    the step of module Scheduler. */
module RunQueue {
  import opened Basics
  import opened Threads
  import opened ThreadBlocks
  import opened Scheduler
  import SchedulerRuns

  function NextIndex(i: int, n: int): int {
    if i + 1 < n then i + 1 else 0
  }

  /** The blocks s follow one another along `reapNext` from head. */
  ghost predicate ReapChain(head: ThreadBlock?, s: seq<ThreadBlock>)
    reads s`reapNext
  {
    if s == [] then head == null else head == s[0] && ReapChain(s[0].reapNext, s[1..])
  }

  ghost predicate Apart(a: seq<ThreadBlock>, b: seq<ThreadBlock>) {
    forall x :: x in a ==> x !in b
  }

  /** A thread that stops running, with a fresh quantum unless it is the idle thread. */
  function StoodDown(t: Thread, idle: bool): Thread {
    var t' := if !idle then t.(ticks := t.priority) else t;
    if t'.state == Running then t'.(state := Ready) else t'
  }

  method StandDown(t: ThreadBlock, idle: bool)
    modifies t`ticksRemaining, t`state
    ensures t.View() == StoodDown(old(t.View()), idle)
  {
    if !idle {
      t.ticksRemaining := t.priority;
    }
    if t.state == Running {
      t.state := Ready;
    }
  }

  method Start(t: ThreadBlock)
    modifies t`state
    ensures t.View() == old(t.View()).(state := Running)
  {
    t.state := Running;
  }

  class RunQueue {
    var currentThread: ThreadBlock
    var threadQueue: ThreadBlock?
    var idleThread: ThreadBlock
    var reapList: ThreadBlock?
    var lastMs: nat
    ghost var ring: seq<ThreadBlock>      // the run queue, from threadQueue along `next`
    ghost var reaped: seq<ThreadBlock>    // the reaper list, from reapList along `reapNext`
    ghost var clock: nat

    ghost predicate Linked()
      reads this`ring, this`threadQueue, ring`next
    {
      && Distinct(ring)
      && threadQueue == (if ring == [] then null else ring[0])
      && forall i {:trigger ring[i].next} :: 0 <= i < |ring| ==> ring[i].next == ring[NextIndex(i, |ring|)]
    }

    ghost predicate ReapLinked()
      reads this`reaped, this`reapList, reaped`reapNext
    {
      Distinct(reaped) && ReapChain(reapList, reaped)
    }

    ghost function Views(): map<ThreadBlock, Thread>
      reads this`ring, this`idleThread, ring, idleThread
    {
      map t | t in ring + [idleThread] :: t.View()
    }

    ghost function State(): Sched<ThreadBlock>
      reads this, ring, idleThread
    {
      Sched(ring, Views(), currentThread, idleThread, lastMs, clock)
    }

    ghost predicate Valid()
      reads this, ring, idleThread, reaped
    {
      && Linked()
      && ReapLinked()
      && (forall t :: t in reaped ==> t !in ring && t != idleThread)
      && Inv(State())
    }

    /** scheduler_init, past its allocations. */
    constructor (now: nat)
      ensures Valid() && State() == SchedulerRuns.Initial(currentThread, idleThread, now)
      ensures ring == [currentThread] && currentThread.state == Running && currentThread.priority == 3
      ensures idleThread.state == Ready && idleThread.priority == 1
    {
      hide Inv;
      var main := new ThreadBlock(3, now);
      main.state := Running;
      main.next := main;
      var idle := new ThreadBlock(PRIORITY_IDLE, now);
      currentThread, threadQueue, idleThread, reapList := main, main, idle, null;
      lastMs, ring, reaped, clock := now, [main], [], now;
      new;
      SchedulerRuns.InitialInv(main, idle, now);
      hide ThreadBlock.View, SchedulerRuns.Initial, NewThread;
      InitialIs(main, idle, now);
    }

    lemma InitialIs(main: ThreadBlock, idle: ThreadBlock, now: nat)
      requires ring == [main] && idleThread == idle && currentThread == main && lastMs == now && clock == now && main != idle
      requires main.View() == NewThread(3, now).(state := Running) && idle.View() == NewThread(PRIORITY_IDLE, now)
      ensures State() == SchedulerRuns.Initial(main, idle, now)
    {
      hide ThreadBlock.View, NewThread;
      assert Views() == SchedulerRuns.Initial(main, idle, now).threads;
    }

    /** unlink_thread's walk to the block whose successor is `dead`. */
    method FindPrevious(dead: ThreadBlock, ghost k: nat) returns (prev: ThreadBlock, ghost p: nat)
      requires Linked() && k < |ring| && ring[k] == dead
      ensures p < |ring| && prev == ring[p] && NextIndex(p, |ring|) == k
    {
      prev, p := dead, k;
      ghost var left := |ring|;
      while prev.next != dead
        invariant p < |ring| && prev == ring[p]
        invariant 1 <= left <= |ring|
        invariant p == if k + (|ring| - left) < |ring| then k + (|ring| - left) else k - left
        decreases left
      {
        prev := prev.next;
        p := NextIndex(p, |ring|);
        left := left - 1;
      }
    }

    /** unlink_thread: take the block out of the ring; the head moves on if it was the head. */
    method UnlinkThread(dead: ThreadBlock, ghost k: nat)
      requires Linked() && k < |ring| && ring[k] == dead
      modifies this`ring, this`threadQueue, ring`next
      ensures Linked() && ring == old(ring)[..k] + old(ring)[k + 1..]
      ensures dead.next == old(dead.next)
    {
      assert ring[k].next == ring[NextIndex(k, |ring|)];
      if dead.next == dead {
        threadQueue := null;
        ring := [];
        return;
      }
      var prev, p := FindPrevious(dead, k);
      prev.next := dead.next;
      if threadQueue == dead {
        threadQueue := dead.next;
      }
      ghost var was := ring;
      ring := ring[..k] + ring[k + 1..];
      RemovedLinks(was, ring, k, p);
    }

    /** The links left after `dead` has been bypassed are those of the shorter ring. */
    lemma RemovedLinks(was: seq<ThreadBlock>, now: seq<ThreadBlock>, k: nat, p: nat)
      requires Distinct(was) && 2 <= |was| && k < |was| && p < |was| && NextIndex(p, |was|) == k
      requires now == was[..k] + was[k + 1..] && ring == now
      requires threadQueue == was[if k == 0 then 1 else 0]
      requires forall i :: 0 <= i < |was| ==> was[i].next == was[if i == p then NextIndex(k, |was|) else NextIndex(i, |was|)]
      ensures Linked()
    {
      forall j | 0 <= j < |ring| ensures ring[j].next == ring[NextIndex(j, |ring|)] {
        var i := if j < k then j else j + 1;
        assert ring[j] == was[i];
        assert was[i].next == was[if i == p then NextIndex(k, |was|) else NextIndex(i, |was|)];
      }
    }

    /** The count the handler takes before it starts unlinking. */
    method CountThreads() returns (count: nat)
      requires Linked() && ring != []
      ensures count == |ring|
    {
      count := 0;
      var t := threadQueue;
      while true
        invariant count < |ring| && t == ring[count]
        decreases |ring| - count
      {
        assert ring[count].next == ring[NextIndex(count, |ring|)];
        count := count + 1;
        t := t.next;
        if t == threadQueue { break; }
      }
    }

    /** Free every block unlinked on the previous pass: exactly the reaper list, each once. */
    method ReapThreads() returns (ghost freed: seq<ThreadBlock>)
      requires Valid()
      modifies this`reapList, this`reaped
      ensures Valid() && State() == old(State()) && reaped == [] && freed == old(reaped)
    {
      hide Linked, Inv, ReapLinked, Views, ReapChain, Distinct;
      freed := [];
      while reapList != null
        invariant ReapLinked()
        invariant freed + reaped == old(reaped)
        decreases |reaped|
      {
        ReapTail();
        var thread := reapList;
        reapList := thread.reapNext;
        freed, reaped := freed + [thread], reaped[1..];
        ReapOf();
      }
      ReapEnd();
    }

    lemma ReapTail()
      requires ReapLinked() && reapList != null
      ensures reaped != [] && reapList == reaped[0] && reaped == [reaped[0]] + reaped[1..]
      ensures Distinct(reaped[1..]) && ReapChain(reapList.reapNext, reaped[1..])
    {
      assert forall i :: 0 <= i < |reaped| - 1 ==> reaped[1..][i] == reaped[i + 1];
    }

    lemma ReapOf()
      requires Distinct(reaped) && ReapChain(reapList, reaped)
      ensures ReapLinked()
    {
    }

    lemma ReapEnd()
      requires ReapLinked() && reapList == null
      ensures reaped == []
    {
    }

    /** Pass 1 on one block: the dead move to the reaper list, the others wake and age. */
    method SettleOne(t: ThreadBlock, now: nat, ghost k: nat, ghost R: seq<ThreadBlock>)
      requires Linked() && ReapLinked() && k < |ring| && ring[k] == t
      requires Apart(reaped, ring)
      requires t.View().recoverMark <= now && t.View().waitMark <= now
      modifies this`ring, this`threadQueue, this`reaped, this`reapList, ring`next, t
      ensures Linked() && ReapLinked()
      ensures t.View() == SettleLive(old(t.View()), now)
      ensures forall x :: x in R && x != t ==> x.View() == old(x.View())
      ensures ring == if old(t.View()).state == Dead then old(ring)[..k] + old(ring)[k + 1..] else old(ring)
      ensures reaped == if old(t.View()).state == Dead then [t] + old(reaped) else old(reaped)
    {
      assert t !in reaped && t in ring;
      hide Linked, ReapLinked, Apart, ReapChain, Distinct;
      if t.state == Sleeping && now >= t.wakeTick {
        t.state := Ready;
      }
      if t.state == Dead {
        Bury(t, k);
      } else {
        t.AgeBy(now);
      }
    }

    /** A dead block moves from the ring to the front of the reaper list. */
    method Bury(t: ThreadBlock, ghost k: nat)
      requires Linked() && ReapLinked() && k < |ring| && ring[k] == t && t !in reaped
      modifies this`ring, this`threadQueue, this`reaped, this`reapList, ring`next, t`reapNext
      ensures Linked() && ReapLinked()
      ensures ring == old(ring)[..k] + old(ring)[k + 1..] && reaped == [t] + old(reaped)
    {
      hide Linked;
      UnlinkThread(t, k);
      t.reapNext := reapList;
      reapList := t;
      reaped := [t] + reaped;
      assert reaped[1..] == old(reaped);
    }

    /** Pass 1 has dealt with the first i of the blocks R, whose views were V, and is at t. */
    ghost predicate InPass(R: seq<ThreadBlock>, V: map<ThreadBlock, Thread>, P: seq<ThreadBlock>, i: nat,
        t: ThreadBlock, now: nat)
      reads this, ring, R, reaped
    {
      && i <= |R| && Distinct(R) && (forall x :: x in R ==> x in V) && (forall x :: x in P ==> x !in R)
      && Linked() && ReapLinked()
      && ring == LiveUpTo(R, V, i) + R[i..]
      && reaped == DeadUpTo(R, V, i) + P
      && (i < |R| ==> t == R[i])
      && ViewsInPass(R, V, i, now)
    }

    ghost predicate ViewsInPass(R: seq<ThreadBlock>, V: map<ThreadBlock, Thread>, i: nat, now: nat)
      requires forall x :: x in R ==> x in V
      reads R
    {
      forall j :: 0 <= j < |R| ==>
        && V[R[j]].recoverMark <= now && V[R[j]].waitMark <= now
        && R[j].View() == if j < i then SettleLive(V[R[j]], now) else V[R[j]]
    }

    /** One turn of pass 1. */
    method SettleNext(ghost R: seq<ThreadBlock>, ghost V: map<ThreadBlock, Thread>, ghost P: seq<ThreadBlock>,
                      ghost i: nat, t: ThreadBlock, now: nat) returns (following: ThreadBlock)
      requires InPass(R, V, P, i, t, now) && i < |R|
      modifies this`ring, this`threadQueue, this`reaped, this`reapList, R
      ensures InPass(R, V, P, i + 1, following, now)
    {
      hide *;
      PassParts(R, V, P, i, t, now);
      ghost var l, d := LiveUpTo(R, V, i), DeadUpTo(R, V, i);
      BeforeSettling(R, V, P, l, d, i);
      RingWithin(R, V, i);
      ViewOf(R, V, i, now);
      following := t.next;
      ghost var W := map x | x in R :: x.View();
      WereInPass(R, V, W, i, now);
      SettleOne(t, now, |l|, R);
      ViewsStep(R, V, W, i, now);
      UpToNext(R, V, i);
      PassWhole(R, V, P, i + 1, following, now);
    }

    lemma PassParts(R: seq<ThreadBlock>, V: map<ThreadBlock, Thread>, P: seq<ThreadBlock>, i: nat, t: ThreadBlock,
        now: nat)
      requires InPass(R, V, P, i, t, now)
      ensures i <= |R| && Distinct(R) && (forall x :: x in R ==> x in V) && (forall x :: x in P ==> x !in R)
      ensures Linked() && ReapLinked() && ring == LiveUpTo(R, V, i) + R[i..] && reaped == DeadUpTo(R, V, i) + P
      ensures (i < |R| ==> t == R[i]) && ViewsInPass(R, V, i, now)
    {
    }

    lemma PassWhole(R: seq<ThreadBlock>, V: map<ThreadBlock, Thread>, P: seq<ThreadBlock>, i: nat, t: ThreadBlock,
        now: nat)
      requires i <= |R| && Distinct(R) && (forall x :: x in R ==> x in V) && (forall x :: x in P ==> x !in R)
      requires Linked() && ReapLinked() && ring == LiveUpTo(R, V, i) + R[i..] && reaped == DeadUpTo(R, V, i) + P
      requires (i < |R| ==> t == R[i]) && ViewsInPass(R, V, i, now)
      ensures InPass(R, V, P, i, t, now)
    {
    }

    lemma UpToNext(R: seq<ThreadBlock>, V: map<ThreadBlock, Thread>, i: nat)
      requires i < |R| && forall x :: x in R ==> x in V
      ensures V[R[i]].state == Dead ==> LiveUpTo(R, V, i + 1) == LiveUpTo(R, V, i) && DeadUpTo(R, V, i + 1) == [R[i]] + DeadUpTo(R, V, i)
      ensures V[R[i]].state != Dead ==> LiveUpTo(R, V, i + 1) == LiveUpTo(R, V, i) + [R[i]] && DeadUpTo(R, V, i + 1) == DeadUpTo(R, V, i)
    {
    }

    lemma ViewOf(R: seq<ThreadBlock>, V: map<ThreadBlock, Thread>, i: nat, now: nat)
      requires i < |R| && (forall x :: x in R ==> x in V) && ViewsInPass(R, V, i, now)
      ensures R[i].View() == V[R[i]] && V[R[i]].recoverMark <= now && V[R[i]].waitMark <= now
    {
    }

    lemma WereInPass(R: seq<ThreadBlock>, V: map<ThreadBlock, Thread>, W: map<ThreadBlock, Thread>, i: nat, now: nat)
      requires (forall x :: x in R ==> x in V && x in W && W[x] == x.View()) && ViewsInPass(R, V, i, now)
      ensures MarksInPass(R, V, W, i, now)
    {
    }

    ghost predicate MarksInPass(R: seq<ThreadBlock>, V: map<ThreadBlock, Thread>, W: map<ThreadBlock, Thread>, i: nat,
        now: nat)
      requires forall x :: x in R ==> x in V && x in W
    {
      forall j :: 0 <= j < |R| ==>
        && V[R[j]].recoverMark <= now && V[R[j]].waitMark <= now
        && W[R[j]] == if j < i then SettleLive(V[R[j]], now) else V[R[j]]
    }

    lemma ViewsStep(R: seq<ThreadBlock>, V: map<ThreadBlock, Thread>, W: map<ThreadBlock, Thread>, i: nat, now: nat)
      requires i < |R| && (forall x :: x in R ==> x in V && x in W) && Distinct(R)
      requires MarksInPass(R, V, W, i, now)
      requires R[i].View() == SettleLive(V[R[i]], now)
      requires forall x :: x in R && x != R[i] ==> x.View() == W[x]
      ensures ViewsInPass(R, V, i + 1, now)
    {
      forall j | 0 <= j < |R| && j != i ensures R[j].View() == W[R[j]] {
        assert R[j] in R;
      }
    }

    lemma RingWithin(R: seq<ThreadBlock>, V: map<ThreadBlock, Thread>, i: nat)
      requires i <= |R| && Distinct(R) && forall x :: x in R ==> x in V
      requires ring == LiveUpTo(R, V, i) + R[i..]
      ensures forall k :: 0 <= k < |ring| ==> ring[k] in R
    {
      LiveUpToFacts(R, V, i);
      forall k | 0 <= k < |ring| ensures ring[k] in R { assert ring[k] in ring; }
    }

    /** What pass 1 needs, and what the handler has at that point. */
    ghost predicate ReadyForPass1(now: nat)
      reads this, ring, idleThread, reaped
    {
      && Linked() && ReapLinked() && ring != [] && idleThread !in ring
      && (currentThread in ring || currentThread == idleThread)
      && (forall t :: t in reaped ==> t !in ring)
      && (forall t :: t in ring ==> InBounds(t.View(), now))
      && lastMs <= now
    }

    /** Pass 1 is done: of the blocks R, whose views were C, the live ones are left in the ring and
        settled, and the dead ones have joined P on the reaper list. */
    ghost predicate Pass1Done(R: seq<ThreadBlock>, C: map<ThreadBlock, Thread>, P: seq<ThreadBlock>, now: nat)
      requires forall t :: t in R ==> t in C
      reads this, ring, R, reaped
    {
      && Linked() && ReapLinked()
      && ring == Live(R, C)
      && reaped == DeadUpTo(R, C, |R|) + P
      && forall t :: t in R ==> t.View() == SettleLive(C[t], now)
    }

    /** Pass 1: wake sleepers, unlink the dead onto the reaper list, age everyone else. */
    method WakeUnlinkAge(now: nat, ghost R: seq<ThreadBlock>, ghost V: map<ThreadBlock, Thread>,
        ghost P: seq<ThreadBlock>)
      requires ReadyForPass1(now) && R == ring && V == Views() && P == reaped && forall t :: t in R ==> t in V
      modifies this`ring, this`threadQueue, this`reaped, this`reapList, R
      ensures Pass1Done(R, V, P, now)
    {
      hide *;
      PassBegins(now);
      var count := CountThreads();
      var t: ThreadBlock := threadQueue;
      var i: nat := 0;
      while i < count && threadQueue != null
        invariant i <= |R| == count
        invariant InPass(R, V, P, i, t, now)
        decreases count - i
      {
        t := SettleNext(R, V, P, i, t, now);
        i := i + 1;
      }
      PassEnds(R, V, P, i, t, now);
    }

    lemma PassBegins(now: nat)
      requires ReadyForPass1(now)
      ensures Linked() && ring != [] && threadQueue != null && InPass(ring, Views(), reaped, 0, threadQueue, now)
      ensures forall t :: t in ring ==> t in Views()
    {
    }

    lemma PassEnds(R: seq<ThreadBlock>, V: map<ThreadBlock, Thread>, P: seq<ThreadBlock>, i: nat, t: ThreadBlock,
        now: nat)
      requires InPass(R, V, P, i, t, now) && (i == |R| || threadQueue == null)
      ensures (forall x :: x in R ==> x in V) && Pass1Done(R, V, P, now)
    {
      NullMeansEmpty();
      assert |ring| >= |R| - i;
    }

    lemma NullMeansEmpty()
      requires Linked()
      ensures threadQueue == null ==> ring == []
    {
    }

    lemma BeforeSettling(R: seq<ThreadBlock>, V: map<ThreadBlock, Thread>, P: seq<ThreadBlock>,
                         l: seq<ThreadBlock>, d: seq<ThreadBlock>, i: nat)
      requires Linked() && i < |R| && Distinct(R) && forall t :: t in R ==> t in V
      requires l == LiveUpTo(R, V, i) && d == DeadUpTo(R, V, i)
      requires ring == l + R[i..] && reaped == d + P && forall t :: t in P ==> t !in R
      ensures |l| < |ring| && ring[|l|] == R[i]
      ensures R[i].next != null && (i + 1 < |R| ==> R[i].next == R[i + 1])
      ensures ring[..|l|] + ring[|l| + 1..] == l + R[i + 1..]
      ensures ring == l + [R[i]] + R[i + 1..]
      ensures Apart(reaped, ring)
      ensures [R[i]] + reaped == ([R[i]] + d) + P
      ensures forall j :: 0 <= j < |R| && j != i ==> R[j] != R[i]
    {
      DistinctAt(R, i);
      hide Linked, Distinct, LiveUpTo, DeadUpTo;
      SplitAt(l, R, i, ring);
      NextInRing(|l|);
      Disjoint(R, V, P, i);
    }

    lemma NextInRing(k: nat)
      requires Linked() && k < |ring|
      ensures ring[k].next == ring[NextIndex(k, |ring|)]
    {
    }

    lemma DistinctAt(R: seq<ThreadBlock>, i: nat)
      requires i < |R| && Distinct(R)
      ensures forall j :: 0 <= j < |R| && j != i ==> R[j] != R[i]
    {
    }

    lemma Disjoint(R: seq<ThreadBlock>, V: map<ThreadBlock, Thread>, P: seq<ThreadBlock>, i: nat)
      requires i < |R| && Distinct(R) && forall t :: t in R ==> t in V
      requires forall t :: t in P ==> t !in R
      ensures forall t :: t in DeadUpTo(R, V, i) + P ==> t !in LiveUpTo(R, V, i) + R[i..]
    {
      LiveUpToFacts(R, V, i);
      DeadUpToFacts(R, V, i);
      assert R == R[..i] + R[i..];
      forall t | t in R[..i] ensures t !in R[i..] {}
    }

    lemma SplitAt(l: seq<ThreadBlock>, R: seq<ThreadBlock>, i: nat, q: seq<ThreadBlock>)
      requires i < |R| && q == l + R[i..]
      ensures |l| < |q| && q[|l|] == R[i] && q[..|l|] + q[|l| + 1..] == l + R[i + 1..] && q == l + [R[i]] + R[i + 1..]
      ensures i + 1 < |R| ==> |l| + 1 < |q| && q[|l| + 1] == R[i + 1]
    {
    }

    /** Everything since the last pass was spent running the outgoing thread. */
    method AccountTime(now: nat)
      requires ReadyForPass1(now)
      modifies this`lastMs, this`clock, ring`cpuUsed, ring`dynPriority
      ensures ReadyForPass1(now) && lastMs == now && clock == now
      ensures Views() == ChargedViews(old(Views()), currentThread, idleThread, (now - old(lastMs)) % U32)
    {
      hide ReapLinked, Linked, Charge, InBounds, ThreadBlock.View;
      ghost var V := Views();
      var elapsed := (now - lastMs) % U32;
      lastMs, clock := now, now;
      if currentThread != idleThread {
        BoundsOf(now);
        ChargeOutgoingKeeps(currentThread.View(), elapsed, now);
        currentThread.LeaveCpu(elapsed);
        assert forall t :: t in ring && t != currentThread ==> t.View() == V[t];
        assert idleThread.View() == V[idleThread];
      }
    }

    lemma BoundsOf(now: nat)
      requires ReadyForPass1(now)
      ensures forall t :: t in ring ==> InBounds(t.View(), now) && t.priority >= PRIORITY_IDLE
    {
    }

    /** The handler from its accounting to the end of pass 1. */
    method FirstPass(now: nat)
      requires Valid() && clock <= now && ring != [] && reaped == []
      modifies this`lastMs, this`clock, this`reapList, this`reaped, this`ring, this`threadQueue, ring
      ensures Linked() && ReapLinked()
      ensures State() == AfterPass1(old(State()), now)
      ensures reaped == old(DeadOnes())
      ensures forall t :: t in old(ring) && t !in ring ==> t.state == Dead
    {
      hide *;
      BeforePass1(now);
      ghost var s := State();
      AccountTime(now);
      ghost var C := Views();
      BlocksInViews();
      WakeUnlinkAge(now, ring, C, reaped);
      Pass1State(s, C, now);
    }

    lemma BlocksInViews()
      ensures forall t :: t in ring ==> t in Views()
    {
    }

    ghost function DeadOnes(): seq<ThreadBlock>
      reads this`ring, this`idleThread, ring, idleThread
    {
      DeadUpTo(ring, Views(), |ring|)
    }

    lemma BeforePass1(now: nat)
      requires Valid() && clock <= now && ring != []
      ensures ReadyForPass1(now) && idleThread !in ring
      ensures Inv(State()) && DeadOnes() == DeadUpTo(ring, State().threads, |ring|)
      ensures var s := State(); s.ring == ring && s.threads == Views() && s.current == currentThread && s.idle == idleThread
                                && s.lastMs == lastMs && s.clock == clock
      ensures idleThread.View() == Views()[idleThread]
      ensures forall t :: t in ring ==> t in Views()
    {
    }

    lemma ChargedFacts(R: seq<ThreadBlock>, V: map<ThreadBlock, Thread>, C: map<ThreadBlock, Thread>,
                       current: ThreadBlock, idle: ThreadBlock, elapsed: nat, now: nat)
      requires forall t :: t in R ==> t in V && InBounds(V[t], now)
      requires C == ChargedViews(V, current, idle, elapsed)
      ensures forall t :: t in R ==> t in C && C[t].recoverMark <= now && C[t].waitMark <= now
      ensures Live(R, C) == Live(R, V) && DeadUpTo(R, C, |R|) == DeadUpTo(R, V, |R|)
    {
      forall t | t in R ensures C[t].recoverMark <= now && C[t].waitMark <= now && C[t].state == V[t].state {
        ChargeOutgoingKeeps(V[t], elapsed, now);
      }
      SameDead(R, V, C, |R|);
    }

    lemma {:induction false} SameDead(R: seq<ThreadBlock>, V: map<ThreadBlock, Thread>, C: map<ThreadBlock, Thread>,
        i: nat)
      requires i <= |R| && forall t :: t in R ==> t in V && t in C && C[t].state == V[t].state
      ensures LiveUpTo(R, C, i) == LiveUpTo(R, V, i) && DeadUpTo(R, C, i) == DeadUpTo(R, V, i)
    {
      if i > 0 { SameDead(R, V, C, i - 1); }
    }

    lemma Pass1State(s: Sched<ThreadBlock>, C: map<ThreadBlock, Thread>, now: nat)
      requires Inv(s) && s.clock <= now
      requires C == ChargedViews(s.threads, s.current, s.idle, (now - s.lastMs) % U32)
      requires (forall t :: t in s.ring ==> t in C) && Pass1Done(s.ring, C, [], now)
      requires currentThread == s.current && idleThread == s.idle && lastMs == now && clock == now
      requires idleThread.View() == s.threads[s.idle]
      ensures State() == AfterPass1(s, now)
      ensures Linked() && ReapLinked() && reaped == DeadUpTo(s.ring, s.threads, |s.ring|)
      ensures forall t :: t in s.ring && t !in ring ==> t.state == Dead
    {
      hide Pass1, SettleLive, Live, DeadUpTo, Linked, ReapLinked, Inv, InBounds, ThreadBlock.View, Charge, Settle;
      var V, elapsed := s.threads, (now - s.lastMs) % U32;
      InvIs(s, now);
      ChargedFacts(s.ring, V, C, s.current, s.idle, elapsed, now);
      LiveFacts(s.ring, V);
      forall t | t in s.ring ensures SettleLive(C[t], now) == Pass1(s, t, now) {
        Pass1Of(s, V, C, elapsed, now, t);
      }
      IdlePass1(s, now);
      SettledDead(s, C, now);
      assert Views() == AfterPass1(s, now).threads;
    }

    lemma InvIs(s: Sched<ThreadBlock>, now: nat)
      requires Inv(s) && s.clock <= now
      ensures Shape(s) && forall t :: t in s.ring ==> t in s.threads && InBounds(s.threads[t], now)
    {
    }

    lemma IdlePass1(s: Sched<ThreadBlock>, now: nat)
      requires s.idle in s.threads
      ensures Pass1(s, s.idle, now) == s.threads[s.idle]
    {
    }

    /** A block of the old queue that is not in the live part is dead and stays so. */
    lemma SettledDead(s: Sched<ThreadBlock>, C: map<ThreadBlock, Thread>, now: nat)
      requires Distinct(s.ring) && (forall t :: t in s.ring ==> t in C) && (forall t :: t in s.ring ==> t.View() == SettleLive(C[t], now))
      ensures forall t :: t in s.ring && t !in Live(s.ring, C) ==> t.state == Dead
    {
      LiveFacts(s.ring, C);
      forall t | t in s.ring && t !in Live(s.ring, C) ensures t.state == Dead {
        assert t.View().state == Dead;
      }
    }

    lemma Pass1Of(s: Sched<ThreadBlock>, V: map<ThreadBlock, Thread>, C: map<ThreadBlock, Thread>, elapsed: nat,
        now: nat, t: ThreadBlock)
      requires Shape(s) && V == s.threads && elapsed == (now - s.lastMs) % U32 && t in s.ring
      requires C == ChargedViews(V, s.current, s.idle, elapsed)
      ensures SettleLive(C[t], now) == Pass1(s, t, now)
    {
      hide Settle, ChargeOutgoing;
      assert t != s.idle;
    }

    /** Pass 2: the highest effective priority of a runnable block, -1 if there is none. */
    method FindLevel() returns (level: int)
      requires Linked()
      ensures level == MaxPriority(ring, Views())
    {
      level := -1;
      if threadQueue == null { return; }
      var t := threadQueue;
      ghost var i := 0;
      while true
        invariant 0 <= i < |ring| && t == ring[i]
        invariant level == MaxUpTo(ring, Views(), i)
        decreases |ring| - i
      {
        assert ring[i].next == ring[NextIndex(i, |ring|)];
        if (t.state == Ready || t.state == Running) && t.EffectivePriority() > level {
          level := t.EffectivePriority();
        }
        t := t.next;
        i := i + 1;
        if t == threadQueue { break; }
      }
    }

    /** The round-robin search among blocks at `level`, from the block at position i onwards. */
    method FindNext(start: ThreadBlock, level: int, ghost i: nat, ghost w: nat) returns (next: ThreadBlock)
      requires Linked() && i < |ring| && ring[i] == start && w < |ring|
      requires EligibleAt(ring, Views(), level, i, w)
      ensures next == ring[Wrap(i + SearchSteps(ring, Views(), level, i, 0), |ring|)] && next in ring
    {
      hide Linked, SearchSteps, Distinct;
      ghost var R, V := ring, Views();
      ViewsAre();
      next := start;
      ghost var k: nat := 0;
      while !((next.state == Ready || next.state == Running) && next.EffectivePriority() == level)
        invariant k <= w && next == ring[Wrap(i + k, |ring|)]
        invariant forall j :: 0 <= j < k ==> !EligibleAt(R, V, level, i, j)
        decreases w - k
      {
        NextInRing(Wrap(i + k, |ring|));
        assert !EligibleAt(R, V, level, i, k);
        next := next.next;
        k := k + 1;
      }
      SearchIs(R, V, level, i, k, 0);
    }

    lemma {:induction false} SearchIs(R: seq<ThreadBlock>, V: map<ThreadBlock, Thread>, level: int, i: nat, k: nat,
        from: nat)
      requires i < |R| && from <= k < |R| && forall t :: t in R ==> t in V
      requires EligibleAt(R, V, level, i, k) && forall j :: from <= j < k ==> !EligibleAt(R, V, level, i, j)
      ensures SearchSteps(R, V, level, i, from) == k
      decreases k - from
    {
      if from < k { SearchIs(R, V, level, i, k, from + 1); }
    }

    /** What the rest of the handler starts from. */
    ghost predicate MidPass()
      reads this, ring, idleThread, currentThread
    {
      && Linked() && Settled(State())
      && (currentThread in ring || currentThread == idleThread || currentThread.state == Dead)
    }

    /** A starvation boost lasts one quantum. */
    method DropBoost() returns (continues: bool)
      requires MidPass()
      modifies currentThread`boosted
      ensures MidPass() && State() == EndBoost(old(State()))
      ensures continues == Continues(State())
    {
      hide Linked, InBounds, Distinct;
      continues := currentThread != idleThread && currentThread.state == Running && currentThread.ticksRemaining > 1;
      if currentThread != idleThread && !continues {
        currentThread.boosted := false;
      }
      EndBoostKeepsSettled(old(State()));
      assert Views() == EndBoost(old(State())).threads;
    }

    /** After a change to one block only its view is new. */
    lemma ViewsUpdated(V: map<ThreadBlock, Thread>, t: ThreadBlock)
      requires V.Keys == (set x | x in ring + [idleThread])
      requires forall x :: x in V && x != t ==> x.View() == V[x]
      ensures Views() == if t in V then V[t := t.View()] else V
    {
      hide ThreadBlock.View;
    }

    lemma ViewsAre()
      ensures Views().Keys == (set x | x in ring + [idleThread])
      ensures forall x :: x in Views() ==> Views()[x] == x.View()
    {
      hide ThreadBlock.View;
    }

    /** The outgoing thread stops running and gets a fresh quantum. */
    method RetireCurrent()
      requires MidPass()
      modifies currentThread`ticksRemaining, currentThread`state
      ensures State() == Retire(old(State())) && Linked()
    {
      MidPassLinked();
      hide *;
      ghost var s, V := State(), Views();
      ViewsAre();
      StandDown(currentThread, currentThread == idleThread);
      ViewsUpdated(V, currentThread);
      RetireIs(s);
      StateIs(s, V);
    }

    lemma MidPassLinked()
      requires MidPass()
      ensures Linked() && State() == Sched(ring, Views(), currentThread, idleThread, lastMs, clock)
    {
      hide Linked, Settled;
    }

    lemma StateIs(s: Sched<ThreadBlock>, V: map<ThreadBlock, Thread>)
      requires s.ring == ring && s.current == currentThread && s.idle == idleThread && s.lastMs == lastMs && s.clock == clock
      ensures State() == s.(threads := Views())
    {
      hide ThreadBlock.View;
    }

    lemma RetireIs(s: Sched<ThreadBlock>)
      ensures Retire(s) == if s.current !in s.threads then s
                           else s.(threads := s.threads[s.current := StoodDown(s.threads[s.current], s.current == s.idle)])
    {
    }

    method DispatchNext(next: ThreadBlock)
      requires Linked() && next in State().threads
      modifies this`currentThread, next`state
      ensures State() == Dispatch(old(State()), next) && Linked()
    {
      ViewsAre();
      hide Linked, Views, ThreadBlock.View;
      ghost var s, V := State(), Views();
      Start(next);
      currentThread := next;
      ViewsUpdated(V, next);
    }

    method UseQuantum()
      requires MidPass() && Continues(State())
      modifies currentThread`ticksRemaining
      ensures Linked()
      ensures var s := old(State()); State() == s.(threads := s.threads[s.current := s.threads[s.current].(ticks := s.threads[s.current].ticks - 1)])
    {
      hide InBounds, Distinct;
      ghost var s := State();
      currentThread.ticksRemaining := currentThread.ticksRemaining - 1;
      assert Views() == s.threads[s.current := s.threads[s.current].(ticks := s.threads[s.current].ticks - 1)];
    }

    /** Where the round-robin search starts. */
    method SearchFrom() returns (start: ThreadBlock)
      requires MidPass() && ring != []
      ensures start == ring[SearchStart(State())]
    {
      hide InBounds, Distinct, ThreadBlock.View;
      StartFacts();
      if currentThread == idleThread || currentThread.state == Dead {
        start := threadQueue;
      } else {
        start := currentThread.next;
      }
    }

    lemma StartFacts()
      requires MidPass() && ring != []
      ensures threadQueue == ring[0] && idleThread !in ring && SearchStart(State()) < |ring|
      ensures currentThread in ring ==> currentThread.state != Dead && currentThread.next == ring[SearchStart(State())]
      ensures currentThread !in ring ==> SearchStart(State()) == 0 && (currentThread == idleThread || currentThread.state == Dead)
    {
      if currentThread in ring {
        var p := Position(ring, currentThread);
        NextInRing(p);
        assert Views()[currentThread].state != Dead;
      }
    }

    /** The handler from pass 2 on: keep the outgoing thread or switch. */
    method ChooseThread(continues: bool)
      requires MidPass() && continues == Continues(State())
      modifies this`currentThread, ring`state, ring`ticksRemaining, idleThread`state, idleThread`ticksRemaining
      modifies currentThread`state, currentThread`ticksRemaining
      ensures Linked() && State() == Choose(old(State()))
    {
      hide *;
      ghost var s := State();
      MidPassFacts();
      var level := FindLevel();
      ChooseIs(s, level);
      if level == -1 {
        RetireCurrent();
        DispatchNext(idleThread);
      } else if continues && currentThread.EffectivePriority() == level {
        UseQuantum();
      } else {
        ghost var w := SomeEligible(level);
        var start := SearchFrom();
        var next := FindNext(start, level, SearchStart(s), w);
        RetireCurrent();
        DispatchNext(next);
      }
    }

    lemma ChooseIs(s: Sched<ThreadBlock>, level: int)
      requires MidPass() && s == State() && level == MaxPriority(ring, Views())
      ensures level == -1 ==> Choose(s) == Dispatch(Retire(s), idleThread) && idleThread in Retire(s).threads
      ensures level != -1 && Continues(s) && currentThread.EffectivePriority() == level ==>
                Choose(s) == s.(threads := s.threads[s.current := s.threads[s.current].(ticks := s.threads[s.current].ticks - 1)])
      ensures level != -1 && !(Continues(s) && currentThread.EffectivePriority() == level) ==>
                && ring != []
                && var next := ring[Wrap(SearchStart(s) + SearchSteps(ring, Views(), level, SearchStart(s), 0), |ring|)];
                   Choose(s) == Dispatch(Retire(s), next) && next in Retire(s).threads
    {
      hide InBounds, Linked, MaxPriority, SearchSteps, Retire, Dispatch;
      MaxLevelIsReached(ring, Views());
      RetireKeepsKeys(s);
      hide Distinct;
    }

    lemma RetireKeepsKeys(s: Sched<ThreadBlock>)
      ensures Retire(s).threads.Keys == s.threads.Keys
    {
    }

    lemma SomeEligible(level: int) returns (w: nat)
      requires MidPass() && level == MaxPriority(ring, Views()) && level != -1
      ensures w < |ring| && EligibleAt(ring, Views(), level, SearchStart(State()), w)
    {
      MaxLevelIsReached(ring, Views());
      var t :| t in ring && Eligible(Views()[t], level);
      SearchReaches(ring, Views(), level, SearchStart(State()), t);
      w := SearchSteps(ring, Views(), level, SearchStart(State()), 0);
    }

    lemma MidPassFacts()
      requires MidPass()
      ensures Linked() && Settled(State()) && State().ring == ring
      ensures forall t :: t in ring ==> t in Views()
      ensures MaxPriority(State().ring, State().threads) == MaxPriority(ring, Views())
      ensures Continues(State()) ==> currentThread in ring
    {
    }

    /** thread_handler_c: the whole handler is exactly one step of the abstract scheduler. The blocks
        it frees are those unlinked by the previous call, and the blocks it unlinks are the dead. */
    method ThreadHandler(now: nat) returns (ghost freed: seq<ThreadBlock>)
      requires Valid() && clock <= now
      modifies this, ring, idleThread
      ensures Valid() && State() == HandlerStep(old(State()), now)
      ensures old(ring) == [] ==> freed == [] && reaped == old(reaped)
      ensures old(ring) != [] ==> freed == old(reaped) && reaped == old(DeadOnes())
    {
      hide *;
      HandlerFacts();
      if threadQueue == null {
        freed := [];
        SkipPass(now);
        return;
      }
      ghost var s := State();
      freed := ReapThreads();
      HandlerFacts();
      FirstPass(now);
      AtMidPass(s, now);
      var continues := DropBoost();
      ChooseThread(continues);
      HandlerDone(s, now);
    }

    lemma HandlerFacts()
      requires Valid()
      ensures currentThread in ring || currentThread == idleThread
      ensures threadQueue == null <==> ring == []
      ensures Inv(State()) && State().clock == clock && State().ring == ring && State().idle == idleThread
      ensures DeadOnes() == DeadUpTo(State().ring, State().threads, |State().ring|)
      ensures State().current == currentThread && forall t :: t in ring ==> t in State().threads
    {
    }

    /** Without a queue the handler returns at once. */
    method SkipPass(now: nat)
      requires Valid() && clock <= now && ring == []
      modifies this`clock
      ensures Valid() && State() == HandlerStep(old(State()), now)
    {
      ghost var s := State();
      clock := now;
      assert State() == s.(clock := now);
    }

    lemma AtMidPass(s: Sched<ThreadBlock>, now: nat)
      requires Linked() && Inv(s) && s.clock <= now && State() == AfterPass1(s, now)
      requires currentThread in s.ring || currentThread == idleThread
      requires forall t :: t in s.ring && t !in ring ==> t.state == Dead
      ensures MidPass() && Settled(EndBoost(AfterPass1(s, now)))
      ensures forall k :: 0 <= k < |ring| ==> ring[k] in s.ring
    {
      AfterPass1IsSettled(s, now);
      EndBoostKeepsSettled(AfterPass1(s, now));
      LiveFacts(s.ring, s.threads);
      forall k | 0 <= k < |ring| ensures ring[k] in s.ring { assert ring[k] in Live(s.ring, s.threads); }
    }

    lemma HandlerDone(s: Sched<ThreadBlock>, now: nat)
      requires Linked() && ReapLinked() && Inv(s) && s.clock <= now && s.ring != []
      requires Settled(EndBoost(AfterPass1(s, now))) && State() == Choose(EndBoost(AfterPass1(s, now)))
      requires reaped == DeadUpTo(s.ring, s.threads, |s.ring|)
      requires idleThread == s.idle
      ensures Valid() && State() == HandlerStep(s, now)
    {
      HandlerKeepsInv(s, now);
      LiveFacts(s.ring, s.threads);
      DeadUpToFacts(s.ring, s.threads, |s.ring|);
      hide Linked, ReapLinked, Choose, EndBoost, AfterPass1, Live, DeadUpTo, Distinct, InBounds;
      assert State() == HandlerStep(s, now);
      assert ring == Live(s.ring, s.threads);
    }

    /** thread_create's walk to the last block of the ring. */
    method FindTail() returns (tail: ThreadBlock)
      requires Linked() && ring != []
      ensures tail == ring[|ring| - 1]
    {
      tail := threadQueue;
      ghost var i := 0;
      while tail.next != threadQueue
        invariant 0 <= i < |ring| && tail == ring[i]
        decreases |ring| - i
      {
        tail := tail.next;
        i := i + 1;
      }
    }

    method AppendBlock(thread: ThreadBlock)
      requires Linked() && thread !in ring
      modifies this`threadQueue, this`ring, ring`next, thread`next
      ensures Linked() && ring == old(ring) + [thread]
    {
      ghost var R := ring;
      if threadQueue == null {
        threadQueue := thread;
        thread.next := thread;
      } else {
        var tail := FindTail();
        tail.next := thread;
        thread.next := threadQueue;
      }
      ring := ring + [thread];
      AppendedLinks(R, thread);
    }

    /** thread_create, past its allocations: the new block goes in just before the queue head. */
    method ThreadCreate(priority: nat, now: nat) returns (thread: ThreadBlock)
      requires Valid() && clock <= now && PRIORITY_IDLE <= priority <= PRIORITY_REALTIME
      modifies this`threadQueue, this`ring, this`clock, ring`next
      ensures Valid() && fresh(thread) && ring == old(ring) + [thread] && reaped == old(reaped)
      ensures SchedulerRuns.Enabled(old(State()), SchedulerRuns.Create(thread, priority, now))
      ensures State() == SchedulerRuns.Apply(old(State()), SchedulerRuns.Create(thread, priority, now))
      ensures thread.priority == priority && thread.dynPriority == priority && thread.ticksRemaining == priority
      ensures thread.state == Ready && !thread.boosted && thread.cpuUsed == 0
      ensures thread.recoverMark == now && thread.waitMark == now
    {
      hide *;
      ghost var s := State();
      CreateFacts(now);
      thread := new ThreadBlock(priority, now);
      AppendBlock(thread);
      clock := now;
      CreateDone(s, thread, priority, now);
    }

    lemma CreateFacts(now: nat)
      requires Valid() && clock <= now
      ensures Linked() && ReapLinked() && Inv(State()) && idleThread !in ring
      ensures State() == Sched(ring, Views(), currentThread, idleThread, lastMs, clock)
      ensures forall t :: t in ring + [idleThread] ==> t in Views() && Views()[t] == t.View()
      ensures forall t :: t in reaped ==> t !in ring && t != idleThread
    {
    }

    lemma CreateDone(s: Sched<ThreadBlock>, thread: ThreadBlock, priority: nat, now: nat)
      requires Linked() && ReapLinked() && Inv(s) && s.clock <= now && PRIORITY_IDLE <= priority <= PRIORITY_REALTIME
      requires thread !in s.ring && thread != s.idle && thread !in reaped
      requires ring == s.ring + [thread] && idleThread == s.idle && currentThread == s.current && lastMs == s.lastMs && clock == now
      requires forall t :: t in s.ring + [s.idle] ==> t in s.threads && t.View() == s.threads[t]
      requires thread.View() == NewThread(priority, now)
      requires forall t :: t in reaped ==> t !in s.ring && t != s.idle
      ensures SchedulerRuns.Enabled(s, SchedulerRuns.Create(thread, priority, now))
      ensures Valid() && State() == SchedulerRuns.Apply(s, SchedulerRuns.Create(thread, priority, now))
    {
      assert Shape(s);
      hide InBounds, Linked, ReapLinked, Distinct, ThreadBlock.View;
      assert Views() == s.threads[thread := NewThread(priority, now)];
      SchedulerRuns.ActionKeepsInv(s, SchedulerRuns.Create(thread, priority, now));
    }

    lemma AppendedLinks(R: seq<ThreadBlock>, thread: ThreadBlock)
      requires Distinct(R) && thread !in R && ring == R + [thread]
      requires threadQueue == ring[0] && thread.next == threadQueue
      requires forall i {:trigger R[i].next} :: 0 <= i < |R| ==> R[i].next == if i + 1 < |R| then R[i + 1] else thread
      ensures Linked()
    {
      forall i | 0 <= i < |ring| ensures ring[i].next == ring[NextIndex(i, |ring|)] {
        if i < |R| { assert R[i].next == if i + 1 < |R| then R[i + 1] else thread; }
      }
    }
  }

  ghost function ChargedViews(V: map<ThreadBlock, Thread>, current: ThreadBlock, idle: ThreadBlock,
      elapsed: nat): map<ThreadBlock, Thread> {
    map t | t in V :: if t == current && t != idle then ChargeOutgoing(V[t], elapsed) else V[t]
  }

  /** Pass 1 leaves a dead thread as it is. */
  function SettleLive(t: Thread, now: nat): Thread {
    if t.state == Dead then t else Settle(t, now)
  }

  /** The dead among the first i in the ring, last one first, as the reaper list collects them. */
  ghost function DeadUpTo(ring: seq<ThreadBlock>, views: map<ThreadBlock, Thread>, i: nat): seq<ThreadBlock>
    requires i <= |ring| && forall t :: t in ring ==> t in views
  {
    if i == 0 then []
    else (if views[ring[i - 1]].state == Dead then [ring[i - 1]] else []) + DeadUpTo(ring, views, i - 1)
  }

  lemma {:induction false} DeadUpToFacts(R: seq<ThreadBlock>, V: map<ThreadBlock, Thread>, i: nat)
    requires i <= |R| && forall t :: t in R ==> t in V
    ensures forall t :: t in DeadUpTo(R, V, i) ==> t in R[..i] && V[t].state == Dead
    ensures forall j :: 0 <= j < i && V[R[j]].state == Dead ==> R[j] in DeadUpTo(R, V, i)
  {
    if i > 0 {
      DeadUpToFacts(R, V, i - 1);
      assert R[..i] == R[..i - 1] + [R[i - 1]];
    }
  }
}
