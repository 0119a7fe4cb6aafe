/** The recursive VFS lock (kernel/vfs/vfs_lock.c:34-54), step by step. Every read and write of
    vfs_depth and vfs_owner is a separate step, only mutex_lock and mutex_unlock are atomic, and
    the threads' steps interleave in any order. */
module VfsLock {
  import opened Basics
  import opened Mutex

  /** Where a thread is. A lock call goes LockDepth, LockOwner, then either LoadInc, StoreInc, or
      LockMutex, (Waiting,) SetOwner, SetDepth; an unlock call goes UnlockDepth, UnlockOwner,
      LoadDec, StoreDec and, if that was the outermost level, ClearOwner, UnlockMutex. */
  datatype Pc =
    | Outside
    | LockDepth | LockOwner | LoadInc | StoreInc(seen: nat) | LockMutex | Waiting | SetOwner | SetDepth
    | UnlockDepth | UnlockOwner | LoadDec | StoreDec(seen: nat) | ClearOwner | UnlockMutex

  datatype System<T(==)> = System(
    depth: nat,                // vfs_depth
    owner: Option<T>,          // vfs_owner
    mutex: MutexState<T>,      // vfs_mutex
    pc: map<T, Pc>,
    nest: map<T, nat>)         // vfs_lock calls completed minus the vfs_unlock calls that undid one

  datatype Action<T> = CallLock(t: T) | CallUnlock(t: T) | Step(t: T)

  ghost predicate Enabled<T>(s: System<T>, a: Action<T>) {
    && a.t in s.pc && a.t in s.nest
    && (match a
        case CallLock(t) => s.pc[t] == Outside
        case CallUnlock(t) => s.pc[t] == Outside
        // a thread in the mutex queue is BLOCKED and takes no step
        case Step(t) => s.pc[t] != Outside && (s.pc[t] == Waiting ==> t !in s.mutex.queue))
  }

  function Goto<T>(s: System<T>, t: T, pc: Pc): System<T> {
    s.(pc := s.pc[t := pc])
  }

  function Nested<T>(s: System<T>, t: T, n: nat): System<T> {
    s.(nest := s.nest[t := n])
  }

  ghost function Apply<T>(s: System<T>, a: Action<T>): System<T>
    requires Enabled(s, a)
  {
    match a
    case CallLock(t) => Goto(s, t, LockDepth)
    case CallUnlock(t) => Goto(s, t, UnlockDepth)
    case Step(t) =>
      match s.pc[t]
      case Outside => s
      case LockDepth => Goto(s, t, if s.depth != 0 then LockOwner else LockMutex)
      case LockOwner => Goto(s, t, if s.owner == Some(t) then LoadInc else LockMutex)
      case LoadInc => Goto(s, t, StoreInc(s.depth))
      case StoreInc(seen) => Nested(Goto(s, t, Outside).(depth := seen + 1), t, s.nest[t] + 1)
      case LockMutex =>
        Goto(s, t, if s.mutex.owner == None then SetOwner else Waiting).(mutex := Acquire(s.mutex, t))
      case Waiting => Goto(s, t, SetOwner)
      case SetOwner => Goto(s, t, SetDepth).(owner := Some(t))
      case SetDepth => Nested(Goto(s, t, Outside).(depth := 1), t, 1)
      case UnlockDepth => Goto(s, t, if s.depth == 0 then Outside else UnlockOwner)
      case UnlockOwner => Goto(s, t, if s.owner != Some(t) then Outside else LoadDec)
      case LoadDec => Goto(s, t, StoreDec(s.depth))
      case StoreDec(seen) =>
        if seen == 0 then s   // cannot happen
        else Nested(Goto(s, t, if seen - 1 != 0 then Outside else ClearOwner).(depth := seen - 1), t, seen - 1)
      case ClearOwner => Goto(s, t, UnlockMutex).(owner := None)
      case UnlockMutex => Goto(s, t, Outside).(mutex := Release(s.mutex, t))
  }

  // ---------------------------------------------------------------- the invariant

  /** The thread holds the mutex: some level of the lock is held, or it is on its way in or out. */
  predicate Inside(pc: Pc, nest: nat) {
    nest > 0 || pc in {SetOwner, SetDepth, ClearOwner, UnlockMutex}
  }

  /** What holds of one thread in relation to the shared variables. */
  ghost predicate ThreadOk<T>(s: System<T>, t: T)
    requires t in s.pc && t in s.nest
  {
    var pc, n := s.pc[t], s.nest[t];
    && (s.mutex.owner == Some(t) <==> Inside(pc, n) || (pc == Waiting && t !in s.mutex.queue))
    && (t in s.mutex.queue ==> pc == Waiting)
    // vfs_owner is t exactly while t is between SetOwner and ClearOwner
    && (s.owner == Some(t) <==> n > 0 || pc == SetDepth || pc == ClearOwner)
    // the holder's nesting is what vfs_depth says
    && (s.mutex.owner == Some(t) ==> s.depth == n)
    // only a thread that holds no level goes for the mutex, and only one that holds a level
    // changes the depth
    && (pc in {LockMutex, Waiting, SetOwner, SetDepth, ClearOwner, UnlockMutex} ==> n == 0)
    && (pc in {LoadInc, LoadDec} ==> n > 0)
    && (pc.StoreInc? || pc.StoreDec? ==> n > 0 && pc.seen == n)
  }

  ghost predicate Inv<T>(s: System<T>) {
    && s.pc.Keys == s.nest.Keys
    && Valid(s.mutex)
    && (forall t :: t in s.mutex.queue ==> t in s.pc)
    && (s.mutex.owner.Some? ==> s.mutex.owner.value in s.pc)
    && (s.owner.Some? ==> s.owner.value in s.pc)
    && (s.mutex.owner == None ==> s.depth == 0)
    && (forall t :: t in s.pc ==> ThreadOk(s, t))
  }

  function Initial<T>(threads: set<T>): System<T> {
    System(0, None, MutexState(None, []), map t | t in threads :: Outside, map t | t in threads :: 0)
  }

  lemma InitialInv<T>(threads: set<T>)
    ensures Inv(Initial(threads))
  {
  }

  /** A step that moves only one thread's program counter. */
  lemma GotoKeepsInv<T>(s: System<T>, t: T, pc: Pc)
    requires Inv(s) && t in s.pc && ThreadOk(Goto(s, t, pc), t)
    ensures Inv(Goto(s, t, pc))
  {
    forall u | u in s.pc && u != t ensures ThreadOk(Goto(s, t, pc), u) { assert ThreadOk(s, u); }
  }

  /** A step of the mutex holder that rewrites vfs_owner, vfs_depth and its own nesting. */
  lemma HolderKeepsInv<T>(s: System<T>, t: T, pc: Pc, owner: Option<T>, n: nat)
    requires Inv(s) && t in s.pc && s.mutex.owner == Some(t)
    requires owner == Some(t) || owner == None
    requires var s' := Nested(Goto(s, t, pc), t, n).(owner := owner, depth := n); ThreadOk(s', t)
    ensures Inv(Nested(Goto(s, t, pc), t, n).(owner := owner, depth := n))
  {
    var s' := Nested(Goto(s, t, pc), t, n).(owner := owner, depth := n);
    forall u | u in s.pc && u != t ensures ThreadOk(s', u) { assert ThreadOk(s, u); }
  }

  lemma AcquireKeepsInv<T>(s: System<T>, t: T)
    requires Inv(s) && t in s.pc && s.pc[t] == LockMutex
    ensures Inv(Apply(s, Step(t)))
  {
    assert ThreadOk(s, t);
    AcquireKeepsValid(s.mutex, t);
    var s' := Apply(s, Step(t));
    hide Valid;
    forall u | u in s.pc ensures ThreadOk(s', u) { assert ThreadOk(s, u); }
  }

  lemma ReleaseFacts<T>(m: MutexState<T>, t: T)
    requires Valid(m) && m.owner == Some(t)
    ensures var r := Release(m, t);
            && Valid(r)
            && (m.queue == [] ==> r == MutexState(None, []))
            && (m.queue != [] ==> r.owner == Some(m.queue[0]) && r.queue == m.queue[1..] && m.queue[0] !in m.queue[1..] && m.queue[0] != t)
            && (forall u :: u in m.queue && (m.queue == [] || u != m.queue[0]) ==> u in r.queue)
            && (forall u :: u in r.queue ==> u in m.queue)
  {
    if m.queue != [] { assert m.queue == [m.queue[0]] + m.queue[1..]; }
  }

  lemma ReleaseKeepsInv<T>(s: System<T>, t: T)
    requires Inv(s) && t in s.pc && s.pc[t] == UnlockMutex
    ensures Inv(Apply(s, Step(t)))
  {
    assert ThreadOk(s, t);
    ReleaseFacts(s.mutex, t);
    var s' := Apply(s, Step(t));
    assert s'.mutex == Release(s.mutex, t);
    hide Valid, Release;
    forall u | u in s.pc ensures ThreadOk(s', u) {
      assert ThreadOk(s, u);
      if s.mutex.queue != [] { assert ThreadOk(s, s.mutex.queue[0]); }
    }
  }

  predicate WritesShared(pc: Pc) {
    pc.StoreInc? || pc.SetOwner? || pc.SetDepth? || pc.StoreDec? || pc.ClearOwner?
  }

  lemma WriteKeepsInv<T>(s: System<T>, t: T)
    requires Inv(s) && Enabled(s, Step(t)) && WritesShared(s.pc[t])
    ensures Inv(Apply(s, Step(t)))
  {
    assert ThreadOk(s, t);
    hide Inv;
    var pc := s.pc[t];
    if pc.StoreInc? || pc.StoreDec? { StoreKeepsInv(s, t); }
    else if pc.SetOwner? || pc.SetDepth? { EnterKeepsInv(s, t); }
    else { HolderStep(s, t, UnlockMutex, None, 0); }
  }

  lemma EnterKeepsInv<T>(s: System<T>, t: T)
    requires Inv(s) && Enabled(s, Step(t)) && (s.pc[t].SetOwner? || s.pc[t].SetDepth?)
    ensures Inv(Apply(s, Step(t)))
  {
    assert ThreadOk(s, t);
    hide Inv;
    if s.pc[t].SetOwner? { HolderStep(s, t, SetDepth, Some(t), 0); }
    else { HolderStep(s, t, Outside, s.owner, 1); }
  }

  lemma StoreKeepsInv<T>(s: System<T>, t: T)
    requires Inv(s) && Enabled(s, Step(t)) && (s.pc[t].StoreInc? || s.pc[t].StoreDec?)
    ensures Inv(Apply(s, Step(t)))
  {
    assert ThreadOk(s, t);
    hide Inv;
    var pc := s.pc[t];
    if pc.StoreInc? { HolderStep(s, t, Outside, s.owner, pc.seen + 1); }
    else { HolderStep(s, t, if pc.seen - 1 != 0 then Outside else ClearOwner, s.owner, pc.seen - 1); }
  }

  lemma ReadKeepsInv<T>(s: System<T>, a: Action<T>)
    requires Inv(s) && Enabled(s, a)
    requires a.Step? ==> !WritesShared(s.pc[a.t]) && !s.pc[a.t].LockMutex? && !s.pc[a.t].UnlockMutex?
    ensures Inv(Apply(s, a))
  {
    assert ThreadOk(s, a.t);
    hide Inv;
    GotoKeepsInv(s, a.t, Apply(s, a).pc[a.t]);
  }

  /** Every step of every interleaving keeps the invariant. */
  lemma ActionKeepsInv<T>(s: System<T>, a: Action<T>)
    requires Inv(s) && Enabled(s, a)
    ensures Inv(Apply(s, a))
  {
    hide Inv, Apply, ThreadOk;
    if a.Step? && WritesShared(s.pc[a.t]) { WriteKeepsInv(s, a.t); }
    else if a.Step? && s.pc[a.t].LockMutex? { AcquireKeepsInv(s, a.t); }
    else if a.Step? && s.pc[a.t].UnlockMutex? { ReleaseKeepsInv(s, a.t); }
    else { ReadKeepsInv(s, a); }
  }

  /** HolderKeepsInv for a step that leaves what it does not name alone. */
  lemma HolderStep<T>(s: System<T>, t: T, pc: Pc, owner: Option<T>, n: nat)
    requires Inv(s) && t in s.pc && s.mutex.owner == Some(t)
    requires owner == Some(t) || owner == None
    requires var s' := Nested(Goto(s, t, pc), t, n).(owner := owner, depth := n); ThreadOk(s', t)
    ensures Inv(Nested(Goto(s, t, pc), t, n).(owner := owner, depth := n))
    ensures n == s.nest[t] ==> Nested(Goto(s, t, pc), t, n).(owner := owner, depth := n) == Goto(s, t, pc).(owner := owner)
    ensures owner == s.owner ==> Nested(Goto(s, t, pc), t, n).(owner := owner, depth := n) == Nested(Goto(s, t, pc), t, n).(depth := n)
  {
    HolderKeepsInv(s, t, pc, owner, n);
    assert ThreadOk(s, t);
    if n == s.nest[t] { assert s.nest[t := n] == s.nest; }
  }

  // ---------------------------------------------------------------- what the lock promises

  ghost predicate IsRun<T>(s: System<T>, acts: seq<Action<T>>)
    decreases |acts|
  {
    acts == [] || (Enabled(s, acts[0]) && IsRun(Apply(s, acts[0]), acts[1..]))
  }

  ghost function After<T>(s: System<T>, acts: seq<Action<T>>): System<T>
    requires IsRun(s, acts)
    decreases |acts|
  {
    if acts == [] then s else After(Apply(s, acts[0]), acts[1..])
  }

  lemma {:induction false} RunKeepsInv<T>(s: System<T>, acts: seq<Action<T>>)
    requires Inv(s) && IsRun(s, acts)
    ensures Inv(After(s, acts))
    decreases |acts|
  {
    if acts != [] {
      ActionKeepsInv(s, acts[0]);
      RunKeepsInv(Apply(s, acts[0]), acts[1..]);
    }
  }

  /** In every reachable state: no two threads hold the lock; a holder owns the underlying mutex;
      vfs_depth is the holder's nesting; the waiters are distinct, blocked and not the owner; and
      whenever anyone waits, the owner is a thread that is free to run. */
  lemma MutualExclusion<T>(threads: set<T>, acts: seq<Action<T>>, t: T, u: T)
    requires IsRun(Initial(threads), acts) && t in threads && u in threads
    ensures var s := After(Initial(threads), acts);
            && t in s.nest && u in s.nest && t in s.pc
            && (s.nest[t] > 0 && s.nest[u] > 0 ==> t == u)
            && (s.nest[t] > 0 ==> s.mutex.owner == Some(t) && s.depth == s.nest[t])
            && Distinct(s.mutex.queue)
            && (t in s.mutex.queue ==> s.pc[t] == Waiting && s.mutex.owner != Some(t) && s.nest[t] == 0)
            && (s.mutex.queue != [] ==> s.mutex.owner.Some? && s.mutex.owner.value !in s.mutex.queue)
  {
    InitialInv(threads);
    RunKeepsInv(Initial(threads), acts);
    ThreadsStay(Initial(threads), acts);
    var s := After(Initial(threads), acts);
    assert ThreadOk(s, t) && ThreadOk(s, u);
  }

  lemma {:induction false} ThreadsStay<T>(s: System<T>, acts: seq<Action<T>>)
    requires IsRun(s, acts)
    ensures After(s, acts).pc.Keys == s.pc.Keys && After(s, acts).nest.Keys == s.nest.Keys
    decreases |acts|
  {
    if acts != [] { ThreadsStay(Apply(s, acts[0]), acts[1..]); }
  }

  /** The unlocked test is sound and complete: at the moment a thread reads vfs_owner, it reads
      itself exactly when it holds the lock, however stale the depth it read before. */
  lemma UnlockedTestIsSound<T>(s: System<T>, t: T)
    requires Inv(s) && t in s.pc
    requires s.pc[t] == LockOwner || s.pc[t] == UnlockOwner
    ensures s.owner == Some(t) <==> s.nest[t] > 0
    ensures s.owner == Some(t) ==> s.mutex.owner == Some(t) && s.depth == s.nest[t] != 0
  {
    assert ThreadOk(s, t);
  }

  /** A thread that holds the lock never goes for the mutex, so it cannot queue behind itself. */
  lemma NeverQueuesBehindItself<T>(s: System<T>, t: T)
    requires Inv(s) && Enabled(s, Step(t)) && s.pc[t] == LockMutex
    ensures s.mutex.owner != Some(t) && t !in s.mutex.queue
  {
    assert ThreadOk(s, t);
  }

  /** vfs_unlock by a thread that does not hold the lock changes nothing: at every step of such a
      call the shared variables stay as they are. */
  lemma UnlockByOthersChangesNothing<T>(s: System<T>, t: T)
    requires Inv(s) && Enabled(s, Step(t)) && s.nest[t] == 0
    requires s.pc[t] == UnlockDepth || s.pc[t] == UnlockOwner
    ensures var s' := Apply(s, Step(t));
            && s'.depth == s.depth && s'.owner == s.owner && s'.mutex == s.mutex && s'.nest == s.nest
            && (s'.pc[t] == Outside || s'.pc[t] == UnlockOwner)
  {
    assert ThreadOk(s, t);
  }

  // ---------------------------------------------------------------- what a call achieves

  predicate InLock(pc: Pc) {
    pc in {LockDepth, LockOwner, LoadInc, LockMutex, Waiting, SetOwner, SetDepth} || pc.StoreInc?
  }

  predicate InUnlock(pc: Pc) {
    pc in {UnlockDepth, UnlockOwner, LoadDec, ClearOwner, UnlockMutex} || pc.StoreDec?
  }

  /** How many steps of its own are left of a call, at most. */
  function StepsLeft(pc: Pc): nat {
    match pc
    case Outside => 0
    case StoreInc(_) => 1 case SetDepth => 1 case UnlockMutex => 1
    case LoadInc => 2 case SetOwner => 2 case ClearOwner => 2
    case Waiting => 3 case StoreDec(_) => 3
    case LockMutex => 4 case LoadDec => 4
    case LockOwner => 5 case UnlockOwner => 5
    case LockDepth => 6 case UnlockDepth => 6
  }

  function OwnSteps<T(==)>(acts: seq<Action<T>>, t: T): nat {
    if acts == [] then 0 else (if acts[0] == Step(t) then 1 else 0) + OwnSteps(acts[1..], t)
  }

  /** t, which held n levels when it called vfs_lock, holds one more when it is done, and not before. */
  ghost predicate LockGoesOn<T>(s: System<T>, t: T, n: nat) {
    && t in s.pc && t in s.nest
    && (InLock(s.pc[t]) || s.pc[t] == Outside) && s.nest[t] == if s.pc[t] == Outside then n + 1 else n
  }

  /** t, which held n levels when it called vfs_unlock, holds one less when it is done, unless it held
      none; it gives up the last one on the way. */
  ghost predicate UnlockGoesOn<T>(s: System<T>, t: T, n: nat) {
    && t in s.pc && t in s.nest
    && (InUnlock(s.pc[t]) || s.pc[t] == Outside)
    && (s.pc[t] in {UnlockDepth, UnlockOwner, LoadDec} || s.pc[t].StoreDec? ==> s.nest[t] == n)
    && (s.pc[t] in {ClearOwner, UnlockMutex} ==> n == 1 && s.nest[t] == 0)
    && (s.pc[t] == Outside ==> s.nest[t] == if n == 0 then 0 else n - 1)
  }

  /** A step of another thread leaves t where it is. */
  lemma OtherStep<T>(s: System<T>, a: Action<T>, t: T)
    requires Enabled(s, a) && a.t != t && t in s.pc && t in s.nest
    ensures t in Apply(s, a).pc && t in Apply(s, a).nest && Apply(s, a).pc[t] == s.pc[t] && Apply(s, a).nest[t] == s.nest[t]
  {
  }

  lemma LockStep<T>(s: System<T>, t: T, n: nat)
    requires Inv(s) && Enabled(s, Step(t)) && LockGoesOn(s, t, n)
    ensures LockGoesOn(Apply(s, Step(t)), t, n)
  {
    assert ThreadOk(s, t);
    hide Inv;
  }

  lemma UnlockStep<T>(s: System<T>, t: T, n: nat)
    requires Inv(s) && Enabled(s, Step(t)) && UnlockGoesOn(s, t, n)
    ensures UnlockGoesOn(Apply(s, Step(t)), t, n)
  {
    assert ThreadOk(s, t);
    hide Inv;
  }

  lemma StepCounts<T>(s: System<T>, t: T)
    requires Inv(s) && Enabled(s, Step(t))
    ensures t in Apply(s, Step(t)).pc && StepsLeft(Apply(s, Step(t)).pc[t]) < StepsLeft(s.pc[t])
  {
    assert ThreadOk(s, t);
    assert s.pc[t].StoreDec? ==> s.pc[t].seen > 0;
    hide Inv, ThreadOk, Acquire, Release;
  }

  lemma GoesOnIs<T>(s: System<T>, s': System<T>, t: T, n: nat)
    requires t in s.pc && t in s.nest && t in s'.pc && t in s'.nest && s'.pc[t] == s.pc[t] && s'.nest[t] == s.nest[t]
    ensures LockGoesOn(s', t, n) == LockGoesOn(s, t, n) && UnlockGoesOn(s', t, n) == UnlockGoesOn(s, t, n)
  {
  }

  lemma CallStep<T>(s: System<T>, a: Action<T>, t: T, n: nat)
    requires Inv(s) && Enabled(s, a) && a != CallLock(t) && a != CallUnlock(t) && t in s.pc && t in s.nest
    ensures LockGoesOn(s, t, n) ==> LockGoesOn(Apply(s, a), t, n)
    ensures UnlockGoesOn(s, t, n) ==> UnlockGoesOn(Apply(s, a), t, n)
    ensures t in Apply(s, a).pc && StepsLeft(Apply(s, a).pc[t]) + (if a == Step(t) then 1 else 0) <= StepsLeft(s.pc[t])
  {
    hide *;
    if a == Step(t) {
      if LockGoesOn(s, t, n) { LockStep(s, t, n); }
      if UnlockGoesOn(s, t, n) { UnlockStep(s, t, n); }
      StepCounts(s, t);
    } else {
      OtherStep(s, a, t);
      GoesOnIs(s, Apply(s, a), t, n);
    }
  }

  lemma {:induction false} CallRun<T>(s: System<T>, acts: seq<Action<T>>, t: T, n: nat)
    requires Inv(s) && IsRun(s, acts) && CallLock(t) !in acts && CallUnlock(t) !in acts && t in s.pc
    ensures LockGoesOn(s, t, n) ==> LockGoesOn(After(s, acts), t, n)
    ensures UnlockGoesOn(s, t, n) ==> UnlockGoesOn(After(s, acts), t, n)
    ensures t in After(s, acts).pc && StepsLeft(After(s, acts).pc[t]) + OwnSteps(acts, t) <= StepsLeft(s.pc[t])
    decreases |acts|
  {
    if acts != [] {
      ActionKeepsInv(s, acts[0]);
      assert t in s.nest;
      CallStep(s, acts[0], t, n);
      hide Inv, Apply, Enabled, LockGoesOn, UnlockGoesOn, StepsLeft;
      CallRun(Apply(s, acts[0]), acts[1..], t, n);
    }
  }

  lemma CallStarts<T>(s: System<T>, t: T)
    requires Inv(s) && t in s.pc && s.pc[t] == Outside
    ensures Enabled(s, CallLock(t)) && Enabled(s, CallUnlock(t)) && t in s.nest
    ensures t in Apply(s, CallLock(t)).pc && StepsLeft(Apply(s, CallLock(t)).pc[t]) == 6
    ensures t in Apply(s, CallUnlock(t)).pc && StepsLeft(Apply(s, CallUnlock(t)).pc[t]) == 6
    ensures LockGoesOn(Apply(s, CallLock(t)), t, s.nest[t]) && UnlockGoesOn(Apply(s, CallUnlock(t)), t, s.nest[t])
  {
    hide Valid, ThreadOk;
  }

  lemma CallEnds<T>(s: System<T>, t: T, n: nat)
    requires Inv(s) && t in s.pc
    ensures StepsLeft(s.pc[t]) == 0 ==> s.pc[t] == Outside
    ensures LockGoesOn(s, t, n) ==> t in s.nest && (s.pc[t] == Outside ==> s.nest[t] == n + 1 && s.mutex.owner == Some(t))
    ensures UnlockGoesOn(s, t, n) ==>
              && t in s.nest && (s.pc[t] == Outside ==> s.nest[t] == if n == 0 then 0 else n - 1)
              && (s.pc[t] == Outside && n <= 1 ==> s.mutex.owner != Some(t))
  {
    assert ThreadOk(s, t);
    hide Inv;
  }

  lemma CallAllowed<T>(s: System<T>, a: Action<T>)
    requires Enabled(s, a) && !a.Step?
    ensures a.t in s.pc && s.pc[a.t] == Outside && a.t in s.nest
  {
  }

  /** vfs_lock takes at most six steps of its caller's, whatever the others do in between, and when it
      has returned the caller holds the lock, one level deeper than before. */
  lemma LockTakesEffect<T>(s: System<T>, acts: seq<Action<T>>, t: T)
    requires Inv(s) && Enabled(s, CallLock(t)) && IsRun(Apply(s, CallLock(t)), acts)
    requires CallLock(t) !in acts && CallUnlock(t) !in acts
    ensures OwnSteps(acts, t) <= 6
    ensures var end := After(Apply(s, CallLock(t)), acts);
            && t in end.pc && t in end.nest && t in s.nest
            && (end.pc[t] == Outside ==> end.nest[t] == s.nest[t] + 1 && end.mutex.owner == Some(t))
            && (OwnSteps(acts, t) == 6 ==> end.pc[t] == Outside)
  {
    hide *;
    CallAllowed(s, CallLock(t));
    CallStarts(s, t);
    ActionKeepsInv(s, CallLock(t));
    CallRun(Apply(s, CallLock(t)), acts, t, s.nest[t]);
    RunKeepsInv(Apply(s, CallLock(t)), acts);
    CallEnds(After(Apply(s, CallLock(t)), acts), t, s.nest[t]);
  }

  /** vfs_unlock likewise; when it has returned the caller is one level less deep, if it held any, and
      after its last level it no longer owns the mutex. */
  lemma UnlockTakesEffect<T>(s: System<T>, acts: seq<Action<T>>, t: T)
    requires Inv(s) && Enabled(s, CallUnlock(t)) && IsRun(Apply(s, CallUnlock(t)), acts)
    requires CallLock(t) !in acts && CallUnlock(t) !in acts
    ensures OwnSteps(acts, t) <= 6
    ensures var end := After(Apply(s, CallUnlock(t)), acts);
            && t in end.pc && t in end.nest && t in s.nest
            && (end.pc[t] == Outside ==> end.nest[t] == if s.nest[t] == 0 then 0 else s.nest[t] - 1)
            && (end.pc[t] == Outside && s.nest[t] <= 1 ==> end.mutex.owner != Some(t))
            && (OwnSteps(acts, t) == 6 ==> end.pc[t] == Outside)
  {
    hide *;
    CallAllowed(s, CallUnlock(t));
    CallStarts(s, t);
    ActionKeepsInv(s, CallUnlock(t));
    CallRun(Apply(s, CallUnlock(t)), acts, t, s.nest[t]);
    RunKeepsInv(Apply(s, CallUnlock(t)), acts);
    CallEnds(After(Apply(s, CallUnlock(t)), acts), t, s.nest[t]);
  }

  // ---------------------------------------------------------------- first come, first served

  /** This step passes the mutex to the first waiter. */
  ghost predicate HandsOff<T>(s: System<T>, a: Action<T>)
    requires Enabled(s, a)
  {
    a.Step? && s.pc[a.t] == UnlockMutex && s.mutex.queue != []
  }

  ghost function Handoffs<T>(s: System<T>, acts: seq<Action<T>>): nat
    requires IsRun(s, acts)
    decreases |acts|
  {
    if acts == [] then 0
    else (if HandsOff(s, acts[0]) then 1 else 0) + Handoffs(Apply(s, acts[0]), acts[1..])
  }

  lemma StepOnQueue<T>(s: System<T>, a: Action<T>)
    requires Inv(s) && Enabled(s, a)
    ensures var q, q' := s.mutex.queue, Apply(s, a).mutex.queue;
            && (HandsOff(s, a) ==> q != [] && q' == q[1..] && Apply(s, a).mutex.owner == Some(q[0]))
            && (!HandsOff(s, a) ==> q <= q')
            && (!HandsOff(s, a) && q != [] ==> Apply(s, a).mutex.owner == s.mutex.owner)
  {
    assert ThreadOk(s, a.t);
  }

  /** After h handoffs the thread at place k of queue q is at place k - h of queue q', behind the
      same threads in the same order. */
  ghost predicate Advanced<T>(q: seq<T>, q': seq<T>, k: nat, h: nat) {
    h <= k < |q| && q[h..] <= q' && k - h < |q'| && q'[k - h] == q[k]
  }

  lemma AdvancedIs<T>(q: seq<T>, q': seq<T>, k: nat, h: nat)
    requires Advanced(q, q', k, h)
    ensures h <= k < |q| && k - h < |q'| && q'[k - h] == q[k]
  {
  }

  lemma AdvancedNow<T>(q: seq<T>, k: nat)
    requires k < |q|
    ensures Advanced(q, q, k, 0)
  {
  }

  lemma AdvancedAfterHandoff<T>(q: seq<T>, q': seq<T>, k: nat, h: nat)
    requires 1 <= k < |q| && Advanced(q[1..], q', k - 1, h)
    ensures Advanced(q, q', k, h + 1)
  {
    assert q[1..][h..] == q[h + 1..];
  }

  lemma AdvancedAfterJoin<T>(q: seq<T>, r: seq<T>, q': seq<T>, k: nat, h: nat)
    requires k < |q| && q <= r && Advanced(r, q', k, h)
    ensures Advanced(q, q', k, h)
  {
    assert q[h..] <= r[h..];
  }

  /** A thread k places from the front stays in order behind the same k threads: after h <= k
      handoffs it is k - h places from the front. */
  lemma {:induction false} FirstComeFirstServed<T>(s: System<T>, acts: seq<Action<T>>, k: nat)
    requires Inv(s) && IsRun(s, acts) && k < |s.mutex.queue| && Handoffs(s, acts) <= k
    ensures Inv(After(s, acts)) && Advanced(s.mutex.queue, After(s, acts).mutex.queue, k, Handoffs(s, acts))
    decreases |acts|
  {
    hide Inv, Apply, HandsOff, Enabled, Advanced;
    if acts == [] {
      AdvancedNow(s.mutex.queue, k);
    } else {
      ActionKeepsInv(s, acts[0]);
      StepOnQueue(s, acts[0]);
      var s1, q := Apply(s, acts[0]), s.mutex.queue;
      if HandsOff(s, acts[0]) {
        FirstComeFirstServed(s1, acts[1..], k - 1);
        AdvancedAfterHandoff(q, After(s1, acts[1..]).mutex.queue, k, Handoffs(s1, acts[1..]));
      } else {
        FirstComeFirstServed(s1, acts[1..], k);
        AdvancedAfterJoin(q, s1.mutex.queue, After(s1, acts[1..]).mutex.queue, k, Handoffs(s1, acts[1..]));
      }
    }
  }

  /** The k-th waiter (counting from one) becomes the owner by exactly the k-th handoff. */
  lemma KthWaiterNeedsKHandoffs<T>(s: System<T>, acts: seq<Action<T>>, last: Action<T>, k: nat)
    requires Inv(s) && IsRun(s, acts) && 1 <= k <= |s.mutex.queue| && Handoffs(s, acts) < k
    requires Enabled(After(s, acts), last)
    ensures var t := s.mutex.queue[k - 1];
            && After(s, acts).mutex.owner != Some(t)
            && (HandsOff(After(s, acts), last) && Handoffs(s, acts) == k - 1 <==> Apply(After(s, acts), last).mutex.owner == Some(t))
  {
    hide *;
    FirstComeFirstServed(s, acts, k - 1);
    AdvancedIs(s.mutex.queue, After(s, acts).mutex.queue, k - 1, Handoffs(s, acts));
    WaiterNext(After(s, acts), last, s.mutex.queue[k - 1], k - 1 - Handoffs(s, acts));
  }

  /** A waiter at place i is not the owner, and becomes it in one step exactly by a handoff when it
      is first. */
  lemma WaiterNext<T>(m: System<T>, last: Action<T>, t: T, i: nat)
    requires Inv(m) && Enabled(m, last) && i < |m.mutex.queue| && m.mutex.queue[i] == t
    ensures m.mutex.owner != Some(t)
    ensures HandsOff(m, last) && i == 0 <==> Apply(m, last).mutex.owner == Some(t)
  {
    StepOnQueue(m, last);
    QueueApart(m, i);
    hide Inv, Apply, HandsOff, Enabled;
  }

  lemma QueueApart<T>(m: System<T>, i: nat)
    requires Inv(m) && i < |m.mutex.queue|
    ensures m.mutex.owner != Some(m.mutex.queue[i]) && (i > 0 ==> m.mutex.queue[i] != m.mutex.queue[0])
  {
  }
}
