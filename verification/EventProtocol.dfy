/** Auto-reset events (kernel/boot/x86/scheduler.c:249-347) as a protocol between any number of
    threads and events. event_wait is split at its yield: Begin is everything before it, Finish
    everything after, and anything may happen in between. */
module EventProtocol {
  import opened Basics
  import opened Threads

  /** The part of a thread block that events read and write. */
  datatype Waiter<E> = Waiter(run: ThreadState, waitEvent: Option<E>, waitSignaled: bool)

  /** A waiter reached by a signal; one whose timeout already made it ready just keeps running. */
  function Notified<E>(w: Waiter<E>): Waiter<E> {
    Waiter(if w.run == Sleeping || w.run == Blocked then Ready else w.run, None, true)
  }

  /** The caller of event_wait, queued and about to yield. */
  function Queued<E>(w: Waiter<E>, e: E, timeout: bool): Waiter<E> {
    Waiter(if timeout then Sleeping else Blocked, Some(e), false)
  }

  datatype System<T(==), E(==)> = System(
    waiters: map<E, seq<T>>,       // latest waiter first
    signaled: map<E, bool>,
    threads: map<T, Waiter<E>>,
    waiting: map<T, Option<E>>)    // Some(e): the thread is between Begin and Finish of event_wait(e)

  datatype Action<T, E> =
    | Signal(e: E)
    | Begin(t: T, e: E, timeout: bool)
    | Timeout(t: T)                       // the handler finds a sleeper due
    | Finish(t: T)
    | Kill(t: T)                          // thread_detach_from_event, then DEAD
    | Elsewhere(t: T, run: ThreadState)   // sleeping or blocking on anything but an event, and waking

  ghost predicate Shape<T, E>(s: System<T, E>) {
    && s.waiters.Keys == s.signaled.Keys
    && s.threads.Keys == s.waiting.Keys
    && (forall t :: t in s.threads && s.threads[t].waitEvent.Some? ==> s.threads[t].waitEvent.value in s.waiters)
  }

  /** What one thread's fields say, given the event_wait it is inside of, if any: it is on a list
      only for that event; a live thread is on the list unless a signal took it off; and one that a
      signal took off is not left asleep. */
  predicate ThreadOk<E(==)>(w: Waiter<E>, waiting: Option<E>) {
    && (w.waitEvent.Some? ==> waiting == w.waitEvent)
    && (waiting.Some? && w.run != Dead ==> (w.waitEvent == None <==> w.waitSignaled))
    && (waiting.Some? && w.waitEvent == None ==> w.run == Ready || w.run == Dead)
    && (waiting.Some? ==> w.run != Running)
  }

  /** One event's list: nobody twice, everybody on it has wait_event set to it, and a remembered
      signal means nobody is waiting. */
  ghost predicate ListOk<T, E>(s: System<T, E>, e: E)
    requires e in s.waiters && e in s.signaled
  {
    && Distinct(s.waiters[e])
    && (forall t :: t in s.waiters[e] ==> t in s.threads && s.threads[t].waitEvent == Some(e))
    && (s.signaled[e] ==> s.waiters[e] == [])
  }

  /** A thread whose wait_event is set is on that event's list. */
  ghost predicate OnItsList<T, E>(s: System<T, E>, t: T)
    requires t in s.threads
  {
    s.threads[t].waitEvent.Some? ==> s.threads[t].waitEvent.value in s.waiters && t in s.waiters[s.threads[t].waitEvent.value]
  }

  /** The protocol's invariant. */
  ghost predicate Inv<T, E>(s: System<T, E>) {
    && Shape(s)
    && (forall e :: e in s.waiters ==> ListOk(s, e))
    && (forall t :: t in s.threads ==> OnItsList(s, t) && ThreadOk(s.threads[t], s.waiting[t]))
  }

  ghost predicate Enabled<T, E>(s: System<T, E>, a: Action<T, E>) {
    Shape(s) &&
    match a
    case Signal(e) => e in s.waiters
    case Begin(t, e, _) => t in s.threads && e in s.waiters && s.waiting[t] == None && s.threads[t].run == Running
    case Timeout(t) => t in s.threads && s.threads[t].run == Sleeping
    case Finish(t) => t in s.threads && s.waiting[t].Some? && s.threads[t].run == Ready
    case Kill(t) => t in s.threads
    case Elsewhere(t, run) => t in s.threads && s.waiting[t] == None && s.threads[t].run != Dead && run != Dead
  }

  ghost function Apply<T, E>(s: System<T, E>, a: Action<T, E>): System<T, E>
    requires Enabled(s, a)
  {
    match a
    case Signal(e) =>
      if s.waiters[e] == [] then s.(signaled := s.signaled[e := true])
      else s.(waiters := s.waiters[e := []],
              threads := map t | t in s.threads :: if t in s.waiters[e] then Notified(s.threads[t]) else s.threads[t])
    case Begin(t, e, timeout) =>
      if s.signaled[e] then s.(signaled := s.signaled[e := false])
      else s.(waiters := s.waiters[e := [t] + s.waiters[e]],
              threads := s.threads[t := Queued(s.threads[t], e, timeout)],
              waiting := s.waiting[t := Some(e)])
    case Timeout(t) => s.(threads := s.threads[t := s.threads[t].(run := Ready)])
    case Finish(t) =>
      Detach(s, t).(threads := Detach(s, t).threads[t := Waiter(Running, None, false)], waiting := s.waiting[t := None])
    case Kill(t) => Detach(s, t).(threads := Detach(s, t).threads[t := Detach(s, t).threads[t].(run := Dead)])
    case Elsewhere(t, run) => s.(threads := s.threads[t := s.threads[t].(run := run)])
  }

  /** event_remove_waiter, for whatever event the thread is queued on. */
  ghost function Detach<T, E>(s: System<T, E>, t: T): (r: System<T, E>)
    requires Shape(s) && t in s.threads
    ensures r.threads.Keys == s.threads.Keys
  {
    match s.threads[t].waitEvent
    case None => s
    case Some(e) => s.(waiters := s.waiters[e := Remove(s.waiters[e], t)], threads := s.threads[t := s.threads[t].(waitEvent := None)])
  }

  /** What event_wait returns: at once if the signal was already there, else at Finish. */
  ghost function Returns<T, E>(s: System<T, E>, a: Action<T, E>): bool
    requires Enabled(s, a)
  {
    (a.Begin? && s.signaled[a.e]) || (a.Finish? && s.threads[a.t].waitSignaled)
  }

  // ---------------------------------------------------------------- the invariant

  lemma DetachFacts<T, E>(s: System<T, E>, t: T)
    requires Inv(s) && t in s.threads
    ensures var d := Detach(s, t);
            && d.signaled == s.signaled && d.waiting == s.waiting && d.waiters.Keys == s.waiters.Keys
            && (forall e :: e in d.waiters ==> Distinct(d.waiters[e]))
            && (forall e :: e in d.waiters ==> forall x :: x in d.waiters[e] ==> x in s.waiters[e] && x != t)
            && (forall e :: e in d.waiters ==> forall x :: x in s.waiters[e] && x != t ==> x in d.waiters[e])
            && (forall e :: e in d.waiters && s.waiters[e] == [] ==> d.waiters[e] == [])
            && (forall x :: x in s.threads && x != t ==> d.threads[x] == s.threads[x])
            && d.threads[t] == s.threads[t].(waitEvent := None)
  {
    assert OnItsList(s, t);
    forall e | e in s.waiters ensures Distinct(s.waiters[e]) && (t in s.waiters[e] ==> s.threads[t].waitEvent == Some(e)) {
      assert ListOk(s, e);
    }
    if s.threads[t].waitEvent.Some? { RemoveFacts(s.waiters[s.threads[t].waitEvent.value], t); }
  }

  /** A step that touches one thread and, at most, takes it off its list. */
  lemma DetachKeepsInv<T, E>(s: System<T, E>, t: T, w: Waiter<E>, waiting: Option<E>)
    requires Inv(s) && t in s.threads && w.waitEvent == None && ThreadOk(w, waiting)
    ensures Inv(Detach(s, t).(threads := Detach(s, t).threads[t := w], waiting := s.waiting[t := waiting]))
  {
    var r := Detach(s, t).(threads := Detach(s, t).threads[t := w], waiting := s.waiting[t := waiting]);
    DetachFacts(s, t);
    hide Detach, Distinct, ThreadOk;
    forall e | e in r.waiters ensures ListOk(r, e) { assert ListOk(s, e); }
    forall x | x in r.threads ensures OnItsList(r, x) && ThreadOk(r.threads[x], r.waiting[x]) { assert OnItsList(s, x); }
  }

  lemma SignalKeepsInv<T, E>(s: System<T, E>, e: E)
    requires Inv(s) && e in s.waiters
    ensures Inv(Apply(s, Signal(e)))
  {
    var r := Apply(s, Signal(e));
    assert Shape(r) && r.waiters.Keys == s.waiters.Keys && r.threads.Keys == s.threads.Keys by { hide Notified, ThreadOk, ListOk, OnItsList; }
    hide Apply, ListOk, OnItsList, ThreadOk, Shape, Enabled;
    forall f | f in r.waiters ensures ListOk(r, f) { SignalList(s, e, f); }
    forall x | x in r.threads ensures OnItsList(r, x) && ThreadOk(r.threads[x], r.waiting[x]) { SignalThread(s, e, x); }
  }

  lemma SignalList<T, E>(s: System<T, E>, e: E, f: E)
    requires Inv(s) && e in s.waiters && f in s.waiters
    ensures var r := Apply(s, Signal(e)); f in r.waiters && f in r.signaled && ListOk(r, f)
  {
    assert ListOk(s, e) && ListOk(s, f);
    NothingIsDistinct<T>();
    hide Distinct, OnItsList, ThreadOk;
  }

  lemma SignalThread<T, E>(s: System<T, E>, e: E, x: T)
    requires Inv(s) && e in s.waiters && x in s.threads
    ensures var r := Apply(s, Signal(e)); x in r.threads && x in r.waiting && OnItsList(r, x) && ThreadOk(r.threads[x], r.waiting[x])
  {
    assert ListOk(s, e) && OnItsList(s, x) && ThreadOk(s.threads[x], s.waiting[x]);
    hide Distinct;
  }

  lemma NothingIsDistinct<T>()
    ensures Distinct<T>([])
  {
  }

  lemma PushDistinct<T>(s: seq<T>, t: T)
    requires Distinct(s) && t !in s
    ensures Distinct([t] + s)
  {
  }

  lemma BeginKeepsInv<T, E>(s: System<T, E>, a: Action<T, E>)
    requires Inv(s) && a.Begin? && Enabled(s, a)
    ensures Inv(Apply(s, a))
  {
    var r := Apply(s, a);
    assert Shape(r) && r.waiters.Keys == s.waiters.Keys && r.threads.Keys == s.threads.Keys by { hide Queued, ThreadOk, ListOk, OnItsList; }
    hide Apply, ListOk, OnItsList, ThreadOk, Shape;
    forall f | f in r.waiters ensures ListOk(r, f) { BeginList(s, a, f); }
    forall x | x in r.threads ensures OnItsList(r, x) && ThreadOk(r.threads[x], r.waiting[x]) { BeginThread(s, a, x); }
  }

  lemma BeginList<T, E>(s: System<T, E>, a: Action<T, E>, f: E)
    requires Inv(s) && a.Begin? && Enabled(s, a) && f in s.waiters
    ensures var r := Apply(s, a); f in r.waiters && f in r.signaled && ListOk(r, f)
  {
    assert OnItsList(s, a.t) && ListOk(s, a.e) && ThreadOk(s.threads[a.t], s.waiting[a.t]) && ListOk(s, f);
    PushDistinct(s.waiters[a.e], a.t);
    hide Distinct;
  }

  lemma BeginThread<T, E>(s: System<T, E>, a: Action<T, E>, x: T)
    requires Inv(s) && a.Begin? && Enabled(s, a) && x in s.threads
    ensures var r := Apply(s, a); x in r.threads && x in r.waiting && OnItsList(r, x) && ThreadOk(r.threads[x], r.waiting[x])
  {
    assert OnItsList(s, a.t) && OnItsList(s, x) && ThreadOk(s.threads[a.t], s.waiting[a.t]) && ThreadOk(s.threads[x], s.waiting[x]);
    hide Distinct, ListOk;
  }

  /** A step that changes only how one thread runs. */
  lemma RunStateKeepsInv<T, E>(s: System<T, E>, t: T, run: ThreadState)
    requires Inv(s) && t in s.threads && ThreadOk(s.threads[t].(run := run), s.waiting[t])
    ensures Inv(s.(threads := s.threads[t := s.threads[t].(run := run)]))
  {
    var r := s.(threads := s.threads[t := s.threads[t].(run := run)]);
    hide Distinct, ThreadOk;
    forall f | f in r.waiters ensures ListOk(r, f) { assert ListOk(s, f); }
    forall x | x in r.threads ensures OnItsList(r, x) && ThreadOk(r.threads[x], r.waiting[x]) { assert OnItsList(s, x); }
  }

  /** In every interleaving of signals, waits, timeouts and kills the invariant holds. */
  lemma ActionKeepsInv<T, E>(s: System<T, E>, a: Action<T, E>)
    requires Inv(s) && Enabled(s, a)
    ensures Inv(Apply(s, a))
  {
    hide ListOk, OnItsList, Distinct;
    match a
    case Signal(e) => SignalKeepsInv(s, e);
    case Begin(_, _, _) => BeginKeepsInv(s, a);
    case Finish(t) => DetachKeepsInv(s, t, Waiter(Running, None, false), None);
    case Kill(t) =>
      DetachFacts(s, t);
      DetachKeepsInv(s, t, Detach(s, t).threads[t].(run := Dead), s.waiting[t]);
      assert s.waiting[t := s.waiting[t]] == s.waiting;
    case Timeout(t) => RunStateKeepsInv(s, t, Ready);
    case Elsewhere(t, run) => RunStateKeepsInv(s, t, run);
  }

  ghost predicate IsRun<T, E>(s: System<T, E>, acts: seq<Action<T, E>>)
    decreases |acts|
  {
    acts == [] || (Enabled(s, acts[0]) && IsRun(Apply(s, acts[0]), acts[1..]))
  }

  ghost function After<T, E>(s: System<T, E>, acts: seq<Action<T, E>>): System<T, E>
    requires IsRun(s, acts)
    decreases |acts|
  {
    if acts == [] then s else After(Apply(s, acts[0]), acts[1..])
  }

  lemma {:induction false} RunKeepsInv<T, E>(s: System<T, E>, acts: seq<Action<T, E>>)
    requires Inv(s) && IsRun(s, acts)
    ensures Inv(After(s, acts))
    decreases |acts|
  {
    if acts != [] {
      ActionKeepsInv(s, acts[0]);
      RunKeepsInv(Apply(s, acts[0]), acts[1..]);
    }
  }

  /** event_init and thread_create: nobody waits, nothing is signalled. The maps name every event and
      thread there will be. */
  function Initial<T, E>(events: set<E>, threads: map<T, ThreadState>): System<T, E> {
    System(map e | e in events :: [], map e | e in events :: false,
           map t | t in threads :: Waiter(threads[t], None, false), map t | t in threads :: None)
  }

  /** So in every run from the start the protocol's invariant holds throughout. */
  lemma RunsFromStartAreSafe<T, E>(events: set<E>, threads: map<T, ThreadState>, acts: seq<Action<T, E>>)
    requires IsRun(Initial(events, threads), acts)
    ensures Inv(Initial(events, threads)) && Inv(After(Initial(events, threads), acts))
  {
    InitialInv(events, threads);
    RunKeepsInv(Initial(events, threads), acts);
  }

  lemma InitialInv<T, E>(events: set<E>, threads: map<T, ThreadState>)
    ensures Inv(Initial(events, threads))
  {
  }

  // ---------------------------------------------------------------- what event_wait returns

  ghost predicate InWait<T, E>(s: System<T, E>, t: T, e: E) {
    t in s.threads && t in s.waiting && s.waiting[t] == Some(e)
  }

  lemma StepWhileWaiting<T, E>(s: System<T, E>, a: Action<T, E>, t: T, e: E)
    requires Inv(s) && Enabled(s, a) && InWait(s, t, e) && s.threads[t].run != Dead
    requires a != Kill(t) && a != Finish(t)
    ensures var s' := Apply(s, a);
            && InWait(s', t, e) && s'.threads[t].run != Dead
            && s'.threads[t].waitSignaled == (s.threads[t].waitSignaled || a == Signal(e))
  {
    if a.Finish? || a.Kill? { DetachFacts(s, a.t); }
  }

  /** While a thread is inside event_wait(e), its signaled mark is set exactly by a signal of e,
      whatever else happens, its own timeout included. */
  lemma {:induction false} MarkedIffSignalled<T, E>(s: System<T, E>, acts: seq<Action<T, E>>, t: T, e: E)
    requires Inv(s) && IsRun(s, acts) && InWait(s, t, e) && s.threads[t].run != Dead
    requires Kill(t) !in acts && Finish(t) !in acts
    ensures InWait(After(s, acts), t, e) && After(s, acts).threads[t].run != Dead
    ensures After(s, acts).threads[t].waitSignaled == (s.threads[t].waitSignaled || Signal(e) in acts)
    decreases |acts|
  {
    if acts != [] {
      ActionKeepsInv(s, acts[0]);
      StepWhileWaiting(s, acts[0], t, e);
      MarkedIffSignalled(Apply(s, acts[0]), acts[1..], t, e);
      assert Signal(e) in acts <==> acts[0] == Signal(e) || Signal(e) in acts[1..];
    }
  }

  /** event_wait returns true exactly when a signal reached it: one already remembered when it was
      called, or one sent while it waited, even after its timeout had fired. */
  lemma EventWaitReturnsTrueIffSignalled<T, E>(s: System<T, E>, t: T, e: E, timeout: bool, during: seq<Action<T, E>>)
    requires Inv(s) && Enabled(s, Begin(t, e, timeout))
    ensures s.signaled[e] ==> Returns(s, Begin(t, e, timeout)) && !Apply(s, Begin(t, e, timeout)).signaled[e]
    ensures !s.signaled[e] && IsRun(Apply(s, Begin(t, e, timeout)), during + [Finish(t)]) && Kill(t) !in during && Finish(t) !in during ==>
              IsRun(Apply(s, Begin(t, e, timeout)), during) &&
              var end := After(Apply(s, Begin(t, e, timeout)), during);
              Enabled(end, Finish(t)) && (Returns(end, Finish(t)) <==> Signal(e) in during)
  {
    var b := Apply(s, Begin(t, e, timeout));
    if !s.signaled[e] && IsRun(b, during + [Finish(t)]) && Kill(t) !in during && Finish(t) !in during {
      ActionKeepsInv(s, Begin(t, e, timeout));
      RunPrefix(b, during, [Finish(t)]);
      MarkedIffSignalled(b, during, t, e);
    }
  }

  /** How a thread that nobody has signalled yet sits in event_wait(e). */
  ghost predicate Pending<T, E>(s: System<T, E>, t: T, e: E, timeout: bool) {
    && InWait(s, t, e) && !s.threads[t].waitSignaled
    && (s.threads[t].run == Blocked || (timeout && (s.threads[t].run == Sleeping || s.threads[t].run == Ready)))
    && (timeout ==> s.threads[t].run != Blocked)
  }

  lemma StepWhilePending<T, E>(s: System<T, E>, a: Action<T, E>, t: T, e: E, timeout: bool)
    requires Inv(s) && Enabled(s, a) && Pending(s, t, e, timeout)
    requires a != Kill(t) && a != Finish(t) && a != Signal(e)
    ensures Pending(Apply(s, a), t, e, timeout)
    ensures a != Timeout(t) ==> Apply(s, a).threads[t].run == s.threads[t].run
  {
    if a.Finish? || a.Kill? { DetachFacts(s, a.t); }
  }

  lemma {:induction false} PendingUntilSignalled<T, E>(s: System<T, E>, acts: seq<Action<T, E>>, t: T, e: E, timeout: bool)
    requires Inv(s) && IsRun(s, acts) && Pending(s, t, e, timeout)
    requires Kill(t) !in acts && Finish(t) !in acts && Signal(e) !in acts
    ensures Pending(After(s, acts), t, e, timeout)
    ensures Timeout(t) !in acts ==> After(s, acts).threads[t].run == s.threads[t].run
    decreases |acts|
  {
    if acts != [] {
      ActionKeepsInv(s, acts[0]);
      StepWhilePending(s, acts[0], t, e, timeout);
      PendingUntilSignalled(Apply(s, acts[0]), acts[1..], t, e, timeout);
    }
  }

  /** event_wait(e, 0) waits for a signal and nothing else: if it waits at all, then by the time it is
      ready to go on e has been signalled, and it returns true. */
  lemma WaitWithoutTimeoutNeedsSignal<T, E>(s: System<T, E>, t: T, e: E, during: seq<Action<T, E>>)
    requires Inv(s) && Enabled(s, Begin(t, e, false)) && !s.signaled[e]
    requires IsRun(Apply(s, Begin(t, e, false)), during) && Kill(t) !in during && Finish(t) !in during
    requires Enabled(After(Apply(s, Begin(t, e, false)), during), Finish(t))
    ensures Signal(e) in during
    ensures Returns(After(Apply(s, Begin(t, e, false)), during), Finish(t))
  {
    var b := Apply(s, Begin(t, e, false));
    ActionKeepsInv(s, Begin(t, e, false));
    MarkedIffSignalled(b, during, t, e);
    if Signal(e) !in during { PendingUntilSignalled(b, during, t, e, false); }
  }

  /** event_wait(e, ms) with a timeout that nobody signals sleeps until its time has come; then it is
      ready to go on, and returns false. */
  lemma WaitWithTimeoutTimesOut<T, E>(s: System<T, E>, t: T, e: E, during: seq<Action<T, E>>)
    requires Inv(s) && Enabled(s, Begin(t, e, true)) && !s.signaled[e]
    requires IsRun(Apply(s, Begin(t, e, true)), during) && Kill(t) !in during && Finish(t) !in during && Signal(e) !in during
    ensures var end := After(Apply(s, Begin(t, e, true)), during);
            && (Timeout(t) !in during ==> Enabled(end, Timeout(t)))
            && (Enabled(end, Timeout(t)) || Enabled(end, Finish(t)))
            && (Enabled(end, Finish(t)) ==> !Returns(end, Finish(t)))
  {
    var b := Apply(s, Begin(t, e, true));
    ActionKeepsInv(s, Begin(t, e, true));
    PendingUntilSignalled(b, during, t, e, true);
    RunKeepsInv(b, during);
  }

  lemma {:induction false} RunPrefix<T, E>(s: System<T, E>, a: seq<Action<T, E>>, b: seq<Action<T, E>>)
    requires IsRun(s, a + b)
    ensures IsRun(s, a) && IsRun(After(s, a), b)
    decreases |a|
  {
    if a == [] {
      assert a + b == b;
    } else {
      assert (a + b)[1..] == a[1..] + b;
      RunPrefix(Apply(s, a[0]), a[1..], b);
    }
  }

  // ---------------------------------------------------------------- no signal is lost

  /** A signal nobody was waiting for stays remembered until a wait on that event takes it. */
  lemma {:induction false} SignalStaysUntilTaken<T, E>(s: System<T, E>, acts: seq<Action<T, E>>, e: E)
    requires Inv(s) && IsRun(s, acts) && e in s.signaled && s.signaled[e]
    requires forall t, timeout :: Begin(t, e, timeout) !in acts
    ensures e in After(s, acts).signaled && After(s, acts).signaled[e]
    decreases |acts|
  {
    if acts != [] {
      ActionKeepsInv(s, acts[0]);
      if acts[0].Finish? || acts[0].Kill? { DetachFacts(s, acts[0].t); }
      SignalStaysUntilTaken(Apply(s, acts[0]), acts[1..], e);
    }
  }

  /** A signal wakes everyone waiting for it: none is left asleep, and each will return true. If it
      finds nobody it is remembered instead, so the next event_wait returns true at once. */
  lemma SignalReachesSomeone<T, E>(s: System<T, E>, e: E)
    requires Inv(s) && e in s.waiters
    ensures var s' := Apply(s, Signal(e));
            && (forall t :: t in s.threads && s.waiting[t] == Some(e) && s.threads[t].run != Dead ==>
                  Enabled(s', Finish(t)) && Returns(s', Finish(t)))
            && (s.waiters[e] == [] ==> forall t, timeout :: Enabled(s', Begin(t, e, timeout)) ==> Returns(s', Begin(t, e, timeout)))
  {
    ActionKeepsInv(s, Signal(e));
    forall t | t in s.threads && s.waiting[t] == Some(e) && s.threads[t].run != Dead
      ensures Enabled(Apply(s, Signal(e)), Finish(t)) && Returns(Apply(s, Signal(e)), Finish(t))
    {
      SignalReaches(s, e, t);
    }
    hide Inv;
  }

  lemma SignalReaches<T, E>(s: System<T, E>, e: E, t: T)
    requires Inv(s) && e in s.waiters && Inv(Apply(s, Signal(e)))
    requires t in s.threads && s.waiting[t] == Some(e) && s.threads[t].run != Dead
    ensures Enabled(Apply(s, Signal(e)), Finish(t)) && Returns(Apply(s, Signal(e)), Finish(t))
  {
    assert ListOk(s, e) && OnItsList(s, t) && ThreadOk(s.threads[t], s.waiting[t]);
    hide Distinct;
  }
}
