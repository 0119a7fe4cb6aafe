/** event_signal, event_remove_waiter and the two halves of event_wait over the linked wait lists
    of kernel/boot/x86/scheduler.c:249-347, each proved to make the change module EventProtocol
    gives it. */
module Events {
  import opened Basics
  import opened Threads
  import opened ThreadBlocks
  import EP = EventProtocol

  /** The blocks q follow one another along `waitNext` from head. */
  ghost predicate WaitChain(head: ThreadBlock?, q: seq<ThreadBlock>)
    reads q`waitNext
  {
    if q == [] then head == null else head == q[0] && WaitChain(q[0].waitNext, q[1..])
  }

  /** The wait list of e is q. */
  ghost predicate WaitList(e: Event, q: seq<ThreadBlock>)
    reads e, q`waitNext
  {
    Distinct(q) && WaitChain(e.waiters, q)
  }

  function Named(e: Event?): Option<Event> {
    if e == null then None else Some(e)
  }

  ghost function View(t: ThreadBlock): EP.Waiter<Event>
    reads t`state, t`waitEvent, t`waitSignaled
  {
    EP.Waiter(t.state, Named(t.waitEvent), t.waitSignaled)
  }

  /** event_signal's treatment of one waiter. */
  method Notify(t: ThreadBlock)
    modifies t`state, t`waitNext, t`waitEvent, t`waitSignaled
    ensures View(t) == EP.Notified(old(View(t))) && t.waitNext == null
    ensures t.waitEvent == null && t.waitSignaled
    ensures t.state == (if old(t.state) == Sleeping || old(t.state) == Blocked then Ready else old(t.state))
  {
    t.waitNext := null;
    t.waitEvent := null;
    t.waitSignaled := true;
    if t.state == Sleeping || t.state == Blocked {
      t.state := Ready;
    }
  }

  /** event_signal: with nobody waiting the signal is remembered; otherwise the whole list is taken
      off and everyone on it notified. */
  method EventSignal(e: Event, ghost q: seq<ThreadBlock>)
    requires WaitList(e, q)
    modifies e, q`state, q`waitNext, q`waitEvent, q`waitSignaled
    ensures WaitList(e, [])
    ensures e.signaled == (old(e.signaled) || q == [])
    ensures forall j :: 0 <= j < |q| ==> View(q[j]) == EP.Notified(old(View(q[j]))) && q[j].waitNext == null
  {
    hide View;
    if e.waiters == null {
      e.signaled := true;
      return;
    }
    var t := e.waiters;
    e.waiters := null;
    ghost var i := 0;
    while t != null
      invariant 0 <= i <= |q|
      invariant WaitChain(t, q[i..])
      invariant forall j :: 0 <= j < i ==> View(q[j]) == EP.Notified(old(View(q[j]))) && q[j].waitNext == null
      invariant forall j :: i <= j < |q| ==> View(q[j]) == old(View(q[j]))
      invariant e.waiters == null && e.signaled == old(e.signaled)
      decreases |q| - i
    {
      var following := t.waitNext;
      assert q[i..][1..] == q[i + 1..] && t == q[i];
      assert WaitChain(following, q[i + 1..]);
      Notify(t);
      t := following;
      i := i + 1;
    }
  }

  /** event_remove_waiter: unlink one thread, wherever on the list it is. */
  method EventRemoveWaiter(e: Event, thread: ThreadBlock, ghost q: seq<ThreadBlock>)
    requires WaitList(e, q)
    modifies e`waiters, q`waitNext, thread`waitNext, thread`waitEvent
    ensures WaitList(e, Remove(q, thread))
    ensures View(thread) == old(View(thread)).(waitEvent := None) && thread.waitNext == null
  {
    RemoveFacts(q, thread);
    if e.waiters == thread {
      e.waiters := thread.waitNext;
      assert q[0] == thread && WaitChain(e.waiters, q[1..]);
    } else if e.waiters != null {
      UnlinkAfter(e.waiters, thread, q);
    }
    ghost var r := Remove(q, thread);
    assert WaitChain(e.waiters, r);
    forall j | 0 <= j < |r| ensures r[j] != thread { assert r[j] in r; }
    thread.waitNext := null;
    assert WaitChain(e.waiters, r);
    thread.waitEvent := null;
  }

  /** The walk along `waitNext` links from a block that is not the one sought. */
  method UnlinkAfter(head: ThreadBlock, thread: ThreadBlock, ghost q: seq<ThreadBlock>)
    requires Distinct(q) && WaitChain(head, q) && head != thread
    modifies q`waitNext
    ensures WaitChain(head, Remove(q, thread)) && thread.waitNext == old(thread.waitNext)
  {
    var link := head;
    ghost var i := 0;
    while link.waitNext != null && link.waitNext != thread
      invariant 0 <= i < |q| && link == q[i] && WaitChain(link, q[i..])
      invariant forall j :: 0 <= j <= i ==> q[j] != thread
      invariant forall j :: 0 <= j < i ==> q[j].waitNext == q[j + 1]
      decreases |q| - i
    {
      assert q[i..][1..] == q[i + 1..];
      link := link.waitNext;
      i := i + 1;
    }
    assert q[i..][1..] == q[i + 1..];
    if link.waitNext == thread {
      assert q[i + 1..][1..] == q[i + 2..] && WaitChain(thread.waitNext, q[i + 2..]);
      link.waitNext := thread.waitNext;
      ChainBypass(q, i, thread);
    } else {
      assert |q| == i + 1;
      RemoveAbsent(q, thread);
    }
  }

  /** With q[i] relinked past q[i + 1], the list is q without it. */
  lemma {:induction false} ChainBypass(q: seq<ThreadBlock>, i: nat, thread: ThreadBlock)
    requires Distinct(q) && i + 1 < |q| && q[i + 1] == thread
    requires forall j :: 0 <= j < i ==> q[j].waitNext == q[j + 1]
    requires WaitChain(q[i].waitNext, q[i + 2..])
    ensures WaitChain(q[0], Remove(q, thread))
  {
    if i == 0 {
      assert q[1..][1..] == q[2..];
      assert Remove(q, thread) == [q[0]] + q[2..];
    } else {
      assert q[1..][(i - 1) + 2..] == q[i + 2..];
      ChainBypass(q[1..], i - 1, thread);
      assert q[0].waitNext == q[1];
      assert Remove(q, thread) == [q[0]] + Remove(q[1..], thread);
    }
  }

  /** event_wait up to its yield. True: the signal was already there and has been consumed. */
  method EventWaitBegin(e: Event, self: ThreadBlock, timeoutMs: nat, now: nat,
      ghost q: seq<ThreadBlock>) returns (done: bool)
    requires WaitList(e, q) && self !in q
    modifies e, self`state, self`wakeTick, self`waitNext, self`waitEvent, self`waitSignaled, self`ticksRemaining
    ensures done == old(e.signaled) && !e.signaled
    ensures done ==> WaitList(e, q) && View(self) == old(View(self))
    ensures !done ==> WaitList(e, [self] + q) && View(self) == EP.Queued(old(View(self)), e, timeoutMs != 0)
    ensures !done ==> self.state == (if timeoutMs == 0 then Blocked else Sleeping) && self.ticksRemaining == 0
    ensures !done ==> self.waitEvent == e && !self.waitSignaled
    ensures !done && timeoutMs != 0 ==> self.wakeTick == now + timeoutMs
  {
    if e.signaled {
      e.signaled := false;
      return true;
    }
    self.waitSignaled := false;
    self.waitEvent := e;
    self.waitNext := e.waiters;
    e.waiters := self;
    if timeoutMs == 0 {
      self.state := Blocked;
    } else {
      self.wakeTick := now + timeoutMs;
      self.state := Sleeping;
    }
    self.ticksRemaining := 0;
    return false;
  }

  /** event_wait from its resumption on. */
  method EventWaitFinish(e: Event, self: ThreadBlock, ghost q: seq<ThreadBlock>) returns (signaled: bool)
    requires WaitList(e, q) && (self in q <==> self.waitEvent == e)
    modifies e`waiters, q`waitNext, self`waitNext, self`waitEvent, self`waitSignaled
    ensures signaled == old(self.waitSignaled) && !self.waitSignaled
    ensures WaitList(e, Remove(q, self))
    ensures old(self.waitEvent) == e ==> self.waitEvent == null
    ensures old(self.waitEvent) != e ==> self.waitEvent == old(self.waitEvent)
  {
    if self.waitEvent == e {
      EventRemoveWaiter(e, self, q);
    } else {
      RemoveAbsent(q, self);
    }
    signaled := self.waitSignaled;
    self.waitSignaled := false;
  }
}
