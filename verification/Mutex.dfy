/** The kernel mutex (kernel/boot/x86/mutex.c): a FIFO queue of waiters and direct handoff. Each
    operation runs with interrupts disabled, so it is one atomic step; the step functions below
    are what the linked queue is proved against. */
module Mutex {
  import opened Basics
  import opened Threads
  import opened ThreadBlocks

  datatype MutexState<T(==)> = MutexState(owner: Option<T>, queue: seq<T>)

  ghost predicate Valid<T>(m: MutexState<T>) {
    && Distinct(m.queue)
    && (m.queue != [] ==> m.owner.Some?)
    && (m.owner.Some? ==> m.owner.value !in m.queue)
  }

  /** mutex_lock up to its yield: take a free mutex, else join the queue. */
  function Acquire<T>(m: MutexState<T>, t: T): MutexState<T> {
    if m.owner == None then m.(owner := Some(t)) else m.(queue := m.queue + [t])
  }

  /** mutex_unlock: only the owner releases; the first waiter, if any, becomes the owner. */
  function Release<T>(m: MutexState<T>, t: T): MutexState<T> {
    if m.owner != Some(t) then m
    else if m.queue != [] then MutexState(Some(m.queue[0]), m.queue[1..])
    else MutexState(None, [])
  }

  lemma AcquireKeepsValid<T>(m: MutexState<T>, t: T)
    requires Valid(m) && m.owner != Some(t) && t !in m.queue
    ensures Valid(Acquire(m, t))
  {
  }

  lemma ReleaseKeepsValid<T>(m: MutexState<T>, t: T)
    requires Valid(m)
    ensures Valid(Release(m, t))
  {
  }

  /** mutex_lock by a thread that already owns the mutex queues it behind itself, and then no
      release by anyone else can ever hand it over; one that already waits would be queued twice. The
      callers' duty to do neither is exact. */
  lemma OwnerQueuesBehindItself<T>(m: MutexState<T>, t: T)
    requires Valid(m)
    ensures Valid(Acquire(m, t)) <==> m.owner != Some(t) && t !in m.queue
    ensures m.owner == Some(t) ==> forall u :: u != t ==> Release(Acquire(m, t), u) == Acquire(m, t)
  {
    if t in m.queue {
      var i :| 0 <= i < |m.queue| && m.queue[i] == t;
      var q := Acquire(m, t).queue;
      assert q[i] == q[|m.queue|];
    }
  }

  // ---------------------------------------------------------------- the linked queue

  class MutexWaiter {
    const thread: ThreadBlock
    var next: MutexWaiter?

    constructor (thread: ThreadBlock)
      ensures this.thread == thread && next == null
    {
      this.thread := thread;
      next := null;
    }
  }

  class KernelMutex {
    var locked: bool
    var owner: ThreadBlock?
    var waitHead: MutexWaiter?
    var waitTail: MutexWaiter?
    ghost var nodes: seq<MutexWaiter>

    /** The nodes are linked in order, head and tail point at the ends, and only a held mutex has
        waiters. */
    ghost predicate Linked()
      reads this, nodes
    {
      && Distinct(nodes)
      && waitHead == (if nodes == [] then null else nodes[0])
      && waitTail == (if nodes == [] then null else nodes[|nodes| - 1])
      && (forall i {:trigger nodes[i].next} :: 0 <= i < |nodes| ==> nodes[i].next == if i + 1 < |nodes| then nodes[i + 1] else null)
      && (locked <==> owner != null)
      && (nodes != [] ==> locked)
    }

    ghost function State(): MutexState<ThreadBlock>
      reads this
    {
      MutexState(Named(owner), Threads(nodes))
    }

    static function Named(owner: ThreadBlock?): Option<ThreadBlock> {
      if owner == null then None else Some(owner)
    }

    static ghost function Threads(nodes: seq<MutexWaiter>): seq<ThreadBlock> {
      seq(|nodes|, i requires 0 <= i < |nodes| => nodes[i].thread)
    }

    /** mutex_init */
    constructor ()
      ensures Linked() && State() == MutexState(None, [])
    {
      locked, owner, waitHead, waitTail, nodes := false, null, null, null, [];
    }

    /** mutex_lock up to its yield. */
    method Lock(current: ThreadBlock) returns (blocked: bool)
      requires Linked()
      modifies this, nodes`next, current`state, current`ticksRemaining
      ensures Linked() && State() == Acquire(old(State()), current)
      ensures blocked <==> old(State()).owner.Some?
      ensures current.state == if blocked then Blocked else old(current.state)
      ensures !blocked ==> owner == current && nodes == old(nodes)
      ensures blocked ==>
                && owner == old(owner) && |nodes| == |old(nodes)| + 1 && nodes[..|old(nodes)|] == old(nodes)
                && nodes[|old(nodes)|].thread == current
      ensures forall w :: w in nodes ==> w in old(nodes) || fresh(w)
    {
      if !locked {
        locked := true;
        owner := current;
        return false;
      }
      var waiter := new MutexWaiter(current);
      if waitTail != null {
        waitTail.next := waiter;
      } else {
        waitHead := waiter;
      }
      waitTail := waiter;
      nodes := nodes + [waiter];
      current.state := Blocked;
      current.ticksRemaining := 0;
      return true;
    }

    /** mutex_trylock */
    method TryLock(current: ThreadBlock) returns (ok: bool)
      requires Linked()
      modifies this
      ensures Linked() && ok == (old(State()).owner == None)
      ensures State() == if ok then Acquire(old(State()), current) else old(State())
      ensures ok == (old(owner) == null) && owner == (if ok then current else old(owner)) && nodes == old(nodes)
    {
      if !locked {
        locked := true;
        owner := current;
        return true;
      }
      return false;
    }

    /** mutex_unlock: the new owner, if any, is made ready; nobody else's state changes. */
    method Unlock(current: ThreadBlock)
      requires Linked()
      modifies this, if nodes == [] then {} else {nodes[0].thread}
      ensures Linked() && State() == Release(old(State()), current)
      ensures old(owner) == current && old(nodes) != [] ==>
                owner == old(nodes)[0].thread && owner.state == Ready && nodes == old(nodes)[1..]
      ensures old(owner) == current && old(nodes) == [] ==> owner == null && !locked && nodes == []
      ensures old(owner) != current ==> owner == old(owner) && nodes == old(nodes)
      ensures old(owner) != current && old(nodes) != [] ==> old(nodes)[0].thread.state == old(nodes[0].thread.state)
    {
      if owner != current { return; }
      if waitHead != null {
        var nextWaiter := waitHead;
        assert nodes[0].next == if 1 < |nodes| then nodes[1] else null;
        waitHead := nextWaiter.next;
        if waitHead == null {
          waitTail := null;
        }
        owner := nextWaiter.thread;
        nextWaiter.thread.state := Ready;
        assert Threads(nodes)[1..] == Threads(nodes[1..]);
        ghost var was := nodes;
        nodes := nodes[1..];
        assert forall i :: 0 <= i < |nodes| ==> nodes[i] == was[i + 1];
      } else {
        locked := false;
        owner := null;
      }
    }
  }
}
