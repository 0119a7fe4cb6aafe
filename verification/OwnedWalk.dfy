/** What the deleting walk keeps at every step (kernel/fs/basefs/directory.c:497-536): of what goes, part
    is gone, the rest is as it was but for entries already dealt with, and nothing else is touched. */
module OwnedWalk {
  import opened Basics
  import opened Volume
  import opened Directory
  import opened DirectoryOps
  import opened RecordChains
  import opened Ownership

  /** A directory that goes, halfway: gone with its whole chain, or still there with some of its references. */
  ghost predicate DirHalf(m0: Nodes, x0: Chains, m: Nodes, x: Chains, d: Addr) {
    if d in m then
      && m[d].DirNode? && d in m0 && m0[d].DirNode? && m[d].parent == m0[d].parent && DirOk(m, d, Ext(x, d))
      && (forall e :: e in Ext(x, d) ==> e in Ext(x0, d))
      && (forall e :: e in Ext(x0, d) && e !in Ext(x, d) ==> e !in m)
      && (forall r :: r in RefsOf(m, x, d) ==> r in RefsOf(m0, x0, d))
    else forall e :: e in ChainOf(x0, d) ==> e !in m
  }

  lemma HalfDir(m0: Nodes, x0: Chains, m: Nodes, x: Chains, d: Addr)
    requires DirHalf(m0, x0, m, x, d) && d in m
    ensures m[d].DirNode? && d in m0 && m0[d].DirNode? && m[d].parent == m0[d].parent
  {
    hide DirOk, RefsOf, ChainOf;
  }

  /** A file that goes is untouched or gone. */
  ghost predicate FileHalf(m0: Nodes, x0: Chains, m: Nodes, f: Addr) {
    if f in m then SameOn(m0, m, ChainOf(x0, f)) else forall e :: e in ChainOf(x0, f) ==> e !in m
  }

  /** What the walk still has to deal with is still listed. */
  ghost predicate Pending(m0: Nodes, x0: Chains, start: Addr, order: seq<Addr>, m: Nodes, x: Chains, d: Addr, r: Addr) {
    (r == FS_NULL || (r in m && (Lists(m0, x0, order, r) || OwnsSub(m0, x0, start, d, r)))) ==> d in m && r in RefsOf(m, x, d)
  }

  ghost predicate Half(m0: Nodes, x0: Chains, start: Addr, order: seq<Addr>, m: Nodes, x: Chains) {
    && FS_NULL !in m && m.Keys <= m0.Keys
    && (forall a :: a !in order ==> Ext(x, a) == Ext(x0, a))
    && (forall d :: d in order ==> DirHalf(m0, x0, m, x, d))
    && (forall f :: Lists(m0, x0, order, f) ==> FileHalf(m0, x0, m, f))
    && (forall b :: b !in Region(m0, x0, order) ==> (b in m <==> b in m0) && (b in m && b in m0 ==> m[b] == m0[b]))
    && (forall d, r :: d in order && r in RefsOf(m0, x0, d) ==> Pending(m0, x0, start, order, m, x, d, r))
  }

  lemma HalfIs(m0: Nodes, x0: Chains, start: Addr, order: seq<Addr>, m: Nodes, x: Chains, a: Addr)
    requires Half(m0, x0, start, order, m, x)
    ensures FS_NULL !in m && m.Keys <= m0.Keys
    ensures a in order ==> DirHalf(m0, x0, m, x, a)
    ensures Lists(m0, x0, order, a) ==> FileHalf(m0, x0, m, a)
  {
    hide DirHalf, FileHalf, Lists, RefsOf;
  }

  lemma HalfOf(m0: Nodes, x0: Chains, start: Addr, order: seq<Addr>, m: Nodes, x: Chains)
    requires FS_NULL !in m && m.Keys <= m0.Keys
    requires forall a :: a !in order ==> Ext(x, a) == Ext(x0, a)
    requires forall d :: d in order ==> DirHalf(m0, x0, m, x, d)
    requires forall f :: Lists(m0, x0, order, f) ==> FileHalf(m0, x0, m, f)
    requires forall b :: b !in Region(m0, x0, order) ==> (b in m <==> b in m0) && (b in m && b in m0 ==> m[b] == m0[b])
    requires forall d, r :: d in order && r in RefsOf(m0, x0, d) ==> Pending(m0, x0, start, order, m, x, d, r)
    ensures Half(m0, x0, start, order, m, x)
  {
    hide DirHalf, FileHalf, Pending, Lists, RefsOf, Region, Ext;
  }

  lemma PendingAt(m0: Nodes, x0: Chains, start: Addr, order: seq<Addr>, m: Nodes, x: Chains, d: Addr, r: Addr)
    requires Half(m0, x0, start, order, m, x) && d in order
    ensures r in RefsOf(m0, x0, d) ==> Pending(m0, x0, start, order, m, x, d, r)
  {
    hide DirHalf, FileHalf, Pending, Lists, RefsOf, Region, Ext;
  }

  lemma OutsideSame(m0: Nodes, x0: Chains, start: Addr, order: seq<Addr>, m: Nodes, x: Chains)
    requires Half(m0, x0, start, order, m, x)
    ensures forall b :: b !in Region(m0, x0, order) ==> (b in m <==> b in m0) && (b in m && b in m0 ==> m[b] == m0[b])
  {
    hide DirHalf, FileHalf, Pending, Lists, RefsOf, Region, Ext;
  }

  /** The directories the walk has descended through, each still listed by the one before. */
  ghost predicate Trail(m0: Nodes, x0: Chains, start: Addr, order: seq<Addr>, m: Nodes, x: Chains, path: seq<Addr>) {
    && path != [] && path[0] == start && Distinct(path)
    && (forall p :: p in path ==> p in order && p in m)
    && (forall i :: 0 < i < |path| ==> OwnsSub(m0, x0, start, path[i - 1], path[i]) && path[i] in RefsOf(m, x, path[i - 1]))
  }

  lemma StartsHalf(m: Nodes, x: Chains, start: Addr, order: seq<Addr>)
    requires Owned(m, x, start, order) && Sound(m, x, order)
    ensures Half(m, x, start, order, m, x) && Trail(m, x, start, order, m, x, [start])
  {
    forall d | d in order ensures DirHalf(m, x, m, x, d) { hide DirOk; }
    forall f | Lists(m, x, order, f) ensures FileHalf(m, x, m, f) { FileHeld(m, f, Ext(x, f)); }
    hide DirHalf, FileHalf, RefsOf, ChainOf;
    assert order[0] in order;
  }

  /** A directory or file that goes, while it is there: its chain is part of what it was. */
  lemma Now(m0: Nodes, x0: Chains, start: Addr, order: seq<Addr>, m: Nodes, x: Chains, a: Addr)
    requires Half(m0, x0, start, order, m, x) && Sound(m0, x0, order) && Goes(m0, x0, order, a) && a in m
    ensures ChainOf(x, a) <= ChainOf(x0, a) && ChainOf(x, a) <= m.Keys && a in m0
    ensures a in order ==> DirOk(m, a, Ext(x, a)) && m[a].DirNode?
    ensures a !in order ==> FileOk(m, a, Ext(x, a)) && m[a].FileNode? && Ext(x, a) == Ext(x0, a)
    ensures forall b :: b in ChainOf(x0, a) && b !in ChainOf(x, a) ==> b !in m
  {
    if a in order {
      assert DirHalf(m0, x0, m, x, a);
      DirHeld(m, a, Ext(x, a));
      hide Half, Sound, DirOk, RefsOf;
    } else {
      assert FileHalf(m0, x0, m, a) && FileOk(m0, a, Ext(x0, a));
      FileFrame(m0, m, a, Ext(x0, a));
      FileHeld(m, a, Ext(x, a));
      FileHas(m, a, Ext(x, a));
      hide Half, Sound, FileOk, RefsOf;
    }
  }

  // ---------------------------------------------------------------- one step

  /** m' is m with one reference to child cut out of directory d, whose extents are then ext, and the
      allocations in gone freed. */
  ghost predicate CutOut(m: Nodes, m': Nodes, x: Chains, d: Addr, ext: seq<Addr>, child: Addr, gone: set<Addr>) {
    && FS_NULL !in m' && m'.Keys <= m.Keys
    && d in m && d in m' && m[d].DirNode? && m'[d].DirNode? && m'[d].parent == m[d].parent
    && DirOk(m', d, ext) && Refs(m', d, ext) == Remove(RefsOf(m, x, d), child)
    && (forall e :: e in ext ==> e in Ext(x, d))
    && (forall e :: e in Ext(x, d) && e !in ext ==> e !in m')
    && (forall b :: b !in ChainOf(x, d) && b !in gone ==> (b in m' <==> b in m) && (b in m ==> m'[b] == m[b]))
    && (forall b :: b in gone ==> b !in m')
  }

  lemma CutOf(m: Nodes, m1: Nodes, m': Nodes, x: Chains, d: Addr, ext: seq<Addr>, child: Addr, gone: set<Addr>)
    requires Removed(m, m1, d, Ext(x, d), ext, child) && gone !! ChainOf(x, d) && m' == m1 - gone
    requires ChainOf(x, d) <= m.Keys
    ensures CutOut(m, m', x, d, ext, child, gone)
  {
    RemovedFacts(m, m1, d, Ext(x, d), ext, child);
    ChainShrinks(d, Ext(x, d), ext);
    RemovedKeys(m, m1, d, Ext(x, d), ext, child);
    DirSurvives(m1, d, ext, gone);
    RootInChain(d, ext);
    hide Removed, DirOk, Refs, Remove;
  }

  /** A step at d: the reference cut is no longer needed, and what is freed with it, if anything, is the
      whole of child, a file or an emptied directory that goes. */
  ghost predicate Step(m0: Nodes, x0: Chains, start: Addr, order: seq<Addr>, m: Nodes, x: Chains, m': Nodes, d: Addr,
      ext: seq<Addr>, child: Addr, gone: set<Addr>) {
    && d in order && CutOut(m, m', x, d, ext, child, gone)
    && (gone == {} || (child != d && child in m && Goes(m0, x0, order, child) && gone == ChainOf(x, child)
                       && (child in order ==> RefsOf(m, x, child) == [])))
    && child != FS_NULL && (child in m' ==> !Lists(m0, x0, order, child) && !OwnsSub(m0, x0, start, d, child))
  }

  lemma StepParts(m0: Nodes, x0: Chains, start: Addr, order: seq<Addr>, m: Nodes, x: Chains, m': Nodes, d: Addr,
      ext: seq<Addr>, child: Addr, gone: set<Addr>)
    requires Step(m0, x0, start, order, m, x, m', d, ext, child, gone)
    ensures d in order && d in m
    ensures gone != {} ==> child != d && child in m && Goes(m0, x0, order, child) && gone == ChainOf(x, child)
  {
    hide DirOk, Refs, RefsOf, ChainOf, Remove, Goes, Lists, OwnsSub;
  }

  lemma StepIs(m0: Nodes, x0: Chains, start: Addr, order: seq<Addr>, m: Nodes, x: Chains, m': Nodes, d: Addr,
      ext: seq<Addr>, child: Addr, gone: set<Addr>)
    requires Step(m0, x0, start, order, m, x, m', d, ext, child, gone)
    ensures FS_NULL !in m' && m'.Keys <= m.Keys && d in order
    ensures CutOut(m, m', x, d, ext, child, gone)
  {
    hide DirOk, Refs, RefsOf, ChainOf, Remove;
  }

  lemma CutElsewhere(m: Nodes, m': Nodes, x: Chains, d: Addr, ext: seq<Addr>, child: Addr, gone: set<Addr>,
      own: set<Addr>)
    requires CutOut(m, m', x, d, ext, child, gone) && ChainOf(x, d) !! own && gone !! own
    ensures forall b :: b in own ==> (b in m' <==> b in m) && (b in m ==> m'[b] == m[b])
  {
    hide DirOk, Refs, RefsOf, ChainOf, Remove;
  }

  /** Everything that goes and takes no part in the step is as it was. */
  lemma Untouched(m0: Nodes, x0: Chains, start: Addr, order: seq<Addr>, m: Nodes, x: Chains, m': Nodes, d: Addr,
      ext: seq<Addr>, child: Addr, gone: set<Addr>, a: Addr)
    requires Half(m0, x0, start, order, m, x) && Sound(m0, x0, order)
    requires Step(m0, x0, start, order, m, x, m', d, ext, child, gone)
    requires Goes(m0, x0, order, a) && a != d && (gone != {} ==> a != child)
    ensures forall b :: b in ChainOf(x0, a) ==> (b in m' <==> b in m) && (b in m ==> m'[b] == m[b])
    ensures Ext(x[d := ext], a) == Ext(x, a)
  {
    hide *;
    StepIs(m0, x0, start, order, m, x, m', d, ext, child, gone);
    StepParts(m0, x0, start, order, m, x, m', d, ext, child, gone);
    Going(m0, x0, order, d);
    Now(m0, x0, start, order, m, x, d);
    ApartNow(m0, x0, order, d, a, ChainOf(x, d), ChainOf(x0, a));
    if gone != {} {
      Now(m0, x0, start, order, m, x, child);
      ApartNow(m0, x0, order, child, a, gone, ChainOf(x0, a));
    }
    CutElsewhere(m, m', x, d, ext, child, gone, ChainOf(x0, a));
    OtherExt(x, d, ext, a);
  }

  lemma DirHalfFrame(m0: Nodes, x0: Chains, m: Nodes, x: Chains, m': Nodes, x': Chains, a: Addr)
    requires DirHalf(m0, x0, m, x, a) && Ext(x', a) == Ext(x, a) && FS_NULL !in m'
    requires forall b :: b in ChainOf(x0, a) ==> (b in m' <==> b in m) && (b in m ==> m'[b] == m[b])
    requires a in m ==> ChainOf(x, a) <= ChainOf(x0, a) && ChainOf(x, a) <= m.Keys
    ensures (a in m <==> a in m') && (a in m ==> RefsOf(m', x', a) == RefsOf(m, x, a)) && DirHalf(m0, x0, m', x', a)
  {
    RootInChain(a, Ext(x0, a));
    ChainMembers(a, Ext(x0, a));
    ChainHasAll(a, Ext(x0, a));
    if a in m { DirFrame(m, m', a, Ext(x, a)); }
    hide DirOk, Refs, Chain;
  }

  lemma StepDir(m0: Nodes, x0: Chains, start: Addr, order: seq<Addr>, m: Nodes, x: Chains, m': Nodes, d: Addr,
      ext: seq<Addr>, child: Addr, gone: set<Addr>, a: Addr)
    requires Half(m0, x0, start, order, m, x) && Sound(m0, x0, order)
    requires Step(m0, x0, start, order, m, x, m', d, ext, child, gone)
    requires a in order && a != d && (gone != {} ==> a != child)
    ensures (a in m <==> a in m') && (a in m ==> RefsOf(m', x[d := ext], a) == RefsOf(m, x, a))
    ensures DirHalf(m0, x0, m', x[d := ext], a)
  {
    hide *;
    HalfIs(m0, x0, start, order, m, x, a);
    StepIs(m0, x0, start, order, m, x, m', d, ext, child, gone);
    Going(m0, x0, order, a);
    if a in m { Now(m0, x0, start, order, m, x, a); }
    Untouched(m0, x0, start, order, m, x, m', d, ext, child, gone, a);
    DirHalfFrame(m0, x0, m, x, m', x[d := ext], a);
  }

  lemma CutSelf(m0: Nodes, x0: Chains, m: Nodes, m': Nodes, x: Chains, d: Addr, ext: seq<Addr>, child: Addr,
      gone: set<Addr>)
    requires CutOut(m, m', x, d, ext, child, gone) && DirHalf(m0, x0, m, x, d)
    ensures DirHalf(m0, x0, m', x[d := ext], d) && d in m && d in m'
    ensures RefsOf(m', x[d := ext], d) == Remove(RefsOf(m, x, d), child)
  {
    RemoveKeepsMembers(RefsOf(m, x, d), child);
    assert Ext(x[d := ext], d) == ext;
    hide DirOk, Refs, Remove, ChainOf, Ext;
  }

  lemma StepSelf(m0: Nodes, x0: Chains, start: Addr, order: seq<Addr>, m: Nodes, x: Chains, m': Nodes, d: Addr,
      ext: seq<Addr>, child: Addr, gone: set<Addr>)
    requires Half(m0, x0, start, order, m, x)
    requires Step(m0, x0, start, order, m, x, m', d, ext, child, gone)
    ensures DirHalf(m0, x0, m', x[d := ext], d) && d in m && d in m'
    ensures RefsOf(m', x[d := ext], d) == Remove(RefsOf(m, x, d), child)
  {
    hide *;
    StepIs(m0, x0, start, order, m, x, m', d, ext, child, gone);
    HalfIs(m0, x0, start, order, m, x, d);
    CutSelf(m0, x0, m, m', x, d, ext, child, gone);
  }

  lemma StepChild(m0: Nodes, x0: Chains, start: Addr, order: seq<Addr>, m: Nodes, x: Chains, m': Nodes, d: Addr,
      ext: seq<Addr>, child: Addr, gone: set<Addr>)
    requires Half(m0, x0, start, order, m, x) && Sound(m0, x0, order)
    requires Step(m0, x0, start, order, m, x, m', d, ext, child, gone) && gone != {}
    ensures child !in m' && child in m && forall e :: e in ChainOf(x0, child) ==> e !in m'
    ensures DirHalf(m0, x0, m', x[d := ext], child) && FileHalf(m0, x0, m', child)
  {
    Now(m0, x0, start, order, m, x, child);
    ChainHasAll(child, Ext(x, child));
    hide Half, Sound, DirOk, FileOk, Refs, Remove, Lists, Chain, RefsOf, SameOn;
  }

  lemma FileHalfFrame(m0: Nodes, x0: Chains, m: Nodes, m': Nodes, f: Addr)
    requires FileHalf(m0, x0, m, f)
    requires forall b :: b in ChainOf(x0, f) ==> (b in m' <==> b in m) && (b in m ==> m'[b] == m[b])
    ensures FileHalf(m0, x0, m', f)
  {
    ChainHasAll(f, Ext(x0, f));
    hide Chain;
  }

  lemma StepFile(m0: Nodes, x0: Chains, start: Addr, order: seq<Addr>, m: Nodes, x: Chains, m': Nodes, d: Addr,
      ext: seq<Addr>, child: Addr, gone: set<Addr>, f: Addr)
    requires Half(m0, x0, start, order, m, x) && Sound(m0, x0, order) && Owned(m0, x0, start, order)
    requires Step(m0, x0, start, order, m, x, m', d, ext, child, gone) && Lists(m0, x0, order, f)
    ensures FileHalf(m0, x0, m', f)
  {
    hide *;
    if gone != {} && f == child {
      StepChild(m0, x0, start, order, m, x, m', d, ext, child, gone);
    } else {
      StepIs(m0, x0, start, order, m, x, m', d, ext, child, gone);
      Going(m0, x0, order, f);
      NotDir(m0, x0, start, order, d, f);
      Untouched(m0, x0, start, order, m, x, m', d, ext, child, gone, f);
      HalfIs(m0, x0, start, order, m, x, f);
      FileHalfFrame(m0, x0, m, m', f);
    }
  }

  /** Outside of what goes nothing changes. */
  lemma StepOutside(m0: Nodes, x0: Chains, start: Addr, order: seq<Addr>, m: Nodes, x: Chains, m': Nodes, d: Addr,
      ext: seq<Addr>, child: Addr, gone: set<Addr>)
    requires Half(m0, x0, start, order, m, x) && Sound(m0, x0, order)
    requires Step(m0, x0, start, order, m, x, m', d, ext, child, gone)
    ensures forall b :: b !in Region(m0, x0, order) ==> (b in m' <==> b in m0) && (b in m' && b in m0 ==> m'[b] == m0[b])
  {
    Now(m0, x0, start, order, m, x, d);
    RegionHas(m0, x0, order, d);
    if gone != {} {
      Now(m0, x0, start, order, m, x, child);
      RegionHas(m0, x0, order, child);
    }
    hide Sound, DirOk, FileOk, Refs, Remove, Lists, Chain, ChainOf, RefsOf, Region, DirHalf, FileHalf;
  }

  /** What is still to be dealt with is still listed. */
  lemma StepPending(m0: Nodes, x0: Chains, start: Addr, order: seq<Addr>, m: Nodes, x: Chains, m': Nodes, d: Addr,
      ext: seq<Addr>, child: Addr, gone: set<Addr>, a: Addr, r: Addr)
    requires Half(m0, x0, start, order, m, x) && Sound(m0, x0, order)
    requires Step(m0, x0, start, order, m, x, m', d, ext, child, gone)
    requires a in order && r in RefsOf(m0, x0, a)
    ensures Pending(m0, x0, start, order, m', x[d := ext], a, r)
  {
    assert Pending(m0, x0, start, order, m, x, a, r);
    if a == d {
      StepSelf(m0, x0, start, order, m, x, m', d, ext, child, gone);
      RemoveKeepsMembers(RefsOf(m, x, d), child);
    } else if gone != {} && a == child {
    } else {
      StepDir(m0, x0, start, order, m, x, m', d, ext, child, gone, a);
    }
    hide Half, Sound, DirOk, FileOk, Refs, Remove, Lists, ChainOf, RefsOf, OwnsSub;
  }

  lemma StepExt(m0: Nodes, x0: Chains, start: Addr, order: seq<Addr>, m: Nodes, x: Chains, d: Addr, ext: seq<Addr>)
    requires Half(m0, x0, start, order, m, x) && d in order
    ensures forall a :: a !in order ==> Ext(x[d := ext], a) == Ext(x0, a)
  {
    hide DirHalf, FileHalf, Pending, Lists, RefsOf, Region;
  }

  /** Halfway remains halfway. */
  lemma StepHalf(m0: Nodes, x0: Chains, start: Addr, order: seq<Addr>, m: Nodes, x: Chains, m': Nodes, d: Addr,
      ext: seq<Addr>, child: Addr, gone: set<Addr>)
    requires Half(m0, x0, start, order, m, x) && Sound(m0, x0, order) && Owned(m0, x0, start, order)
    requires Step(m0, x0, start, order, m, x, m', d, ext, child, gone)
    ensures Half(m0, x0, start, order, m', x[d := ext])
  {
    hide *;
    var x' := x[d := ext];
    StepIs(m0, x0, start, order, m, x, m', d, ext, child, gone);
    HalfIs(m0, x0, start, order, m, x, d);
    StepExt(m0, x0, start, order, m, x, d, ext);
    StepOutside(m0, x0, start, order, m, x, m', d, ext, child, gone);
    forall a | a in order ensures DirHalf(m0, x0, m', x', a) {
      if a == d {
        StepSelf(m0, x0, start, order, m, x, m', d, ext, child, gone);
      } else if gone != {} && a == child {
        StepChild(m0, x0, start, order, m, x, m', d, ext, child, gone);
      } else {
        StepDir(m0, x0, start, order, m, x, m', d, ext, child, gone, a);
      }
    }
    forall f | Lists(m0, x0, order, f) ensures FileHalf(m0, x0, m', f) {
      StepFile(m0, x0, start, order, m, x, m', d, ext, child, gone, f);
    }
    forall a, r | a in order && r in RefsOf(m0, x0, a) ensures Pending(m0, x0, start, order, m', x', a, r) {
      StepPending(m0, x0, start, order, m, x, m', d, ext, child, gone, a, r);
    }
    HalfOf(m0, x0, start, order, m', x');
  }

  // ---------------------------------------------------------------- the trail

  /** Directories up to the last but one keep their references. */
  lemma TrailKept(m0: Nodes, x0: Chains, start: Addr, order: seq<Addr>, m: Nodes, x: Chains, m': Nodes, x': Chains,
      path: seq<Addr>, n: nat)
    requires Trail(m0, x0, start, order, m, x, path) && 1 <= n <= |path|
    requires forall i :: 0 <= i < n ==> path[i] in m'
    requires forall i :: 0 <= i < n - 1 ==> RefsOf(m', x', path[i]) == RefsOf(m, x, path[i])
    ensures Trail(m0, x0, start, order, m', x', path[..n])
  {
    hide RefsOf, OwnsSub;
    var w := path[..n];
    assert forall i :: 0 <= i < n ==> w[i] == path[i];
    forall i | 0 < i < |w| ensures OwnsSub(m0, x0, start, w[i - 1], w[i]) && w[i] in RefsOf(m', x', w[i - 1]) {
      assert w[i - 1] == path[i - 1];
    }
  }

  lemma TrailAt(m0: Nodes, x0: Chains, start: Addr, order: seq<Addr>, m: Nodes, x: Chains, path: seq<Addr>, i: nat)
    requires Trail(m0, x0, start, order, m, x, path) && i < |path|
    ensures path[i] in order && path[i] in m && forall j :: 0 <= j < |path| && j != i ==> path[j] != path[i]
    ensures i > 0 ==> OwnsSub(m0, x0, start, path[i - 1], path[i]) && path[i] in RefsOf(m, x, path[i - 1]) && path[i] != start
  {
    hide RefsOf;
  }

  /** After a step at the last directory of the trail, or at the last but one with the last one freed. */
  lemma StepTrail(m0: Nodes, x0: Chains, start: Addr, order: seq<Addr>, m: Nodes, x: Chains, m': Nodes, d: Addr,
      ext: seq<Addr>, child: Addr, gone: set<Addr>, path: seq<Addr>, n: nat)
    requires Half(m0, x0, start, order, m, x) && Sound(m0, x0, order) && Trail(m0, x0, start, order, m, x, path)
    requires Step(m0, x0, start, order, m, x, m', d, ext, child, gone)
    requires 1 <= n <= |path| && path[n - 1] == d && (gone != {} ==> child !in path[..n])
    ensures Trail(m0, x0, start, order, m', x[d := ext], path[..n])
  {
    hide *;
    forall i | 0 <= i < n ensures path[i] in m' {
      TrailAt(m0, x0, start, order, m, x, path, i);
      if i == n - 1 {
        StepSelf(m0, x0, start, order, m, x, m', d, ext, child, gone);
      } else {
        TrailAt(m0, x0, start, order, m, x, path, n - 1);
        assert path[..n][i] == path[i];
        StepDir(m0, x0, start, order, m, x, m', d, ext, child, gone, path[i]);
      }
    }
    forall i | 0 <= i < n - 1 ensures RefsOf(m', x[d := ext], path[i]) == RefsOf(m, x, path[i]) {
      TrailAt(m0, x0, start, order, m, x, path, i);
      TrailAt(m0, x0, start, order, m, x, path, n - 1);
      assert path[..n][i] == path[i];
      StepDir(m0, x0, start, order, m, x, m', d, ext, child, gone, path[i]);
    }
    TrailKept(m0, x0, start, order, m, x, m', x[d := ext], path, n);
  }

  /** Into a subdirectory the current one owns. It is not on the trail yet: everything on the trail is
      owned by the one before it. */
  lemma Descend(m0: Nodes, x0: Chains, start: Addr, order: seq<Addr>, m: Nodes, x: Chains, path: seq<Addr>, child: Addr)
    requires Trail(m0, x0, start, order, m, x, path) && child in order && child in m
    requires OwnsSub(m0, x0, start, path[|path| - 1], child) && child in RefsOf(m, x, path[|path| - 1])
    ensures Trail(m0, x0, start, order, m, x, path + [child])
  {
    hide RefsOf;
    forall i | 0 <= i < |path| ensures path[i] != child {
      if i > 0 { assert OwnsSub(m0, x0, start, path[i - 1], path[i]); }
    }
    var w := path + [child];
    assert forall i :: 0 <= i < |path| ==> w[i] == path[i];
    hide OwnsSub;
    forall i | 0 < i < |w| ensures OwnsSub(m0, x0, start, w[i - 1], w[i]) && w[i] in RefsOf(m, x, w[i - 1]) {
      assert w[i - 1] == path[i - 1];
    }
  }

  lemma TrailWork(m0: Nodes, x0: Chains, start: Addr, order: seq<Addr>, m: Nodes, x: Chains, path: seq<Addr>)
    requires Trail(m0, x0, start, order, m, x, path)
    ensures Work(m, x, order) >= |path|
  {
    WorkCovers(m, x, order, path);
  }

  // ---------------------------------------------------------------- the work that is left

  /** A step lowers the work left by one, or by two if it also frees a directory. */
  lemma StepWork(m0: Nodes, x0: Chains, start: Addr, order: seq<Addr>, m: Nodes, x: Chains, m': Nodes, d: Addr,
      ext: seq<Addr>, child: Addr, gone: set<Addr>)
    requires Half(m0, x0, start, order, m, x) && Sound(m0, x0, order) && Distinct(order)
    requires Step(m0, x0, start, order, m, x, m', d, ext, child, gone) && child in RefsOf(m, x, d)
    ensures Work(m', x[d := ext], order) + (if gone != {} && child in order then 2 else 1) == Work(m, x, order)
  {
    hide *;
    var x' := x[d := ext];
    StepIs(m0, x0, start, order, m, x, m', d, ext, child, gone);
    StepSelf(m0, x0, start, order, m, x, m', d, ext, child, gone);
    RemoveLength(RefsOf(m, x, d), child);
    ShareIs(m, x, d);
    ShareIs(m', x', d);
    forall a | a in order && a != d && (gone != {} ==> a != child) ensures Share(m', x', a) == Share(m, x, a) {
      StepDir(m0, x0, start, order, m, x, m', d, ext, child, gone, a);
      ShareIs(m, x, a);
      ShareIs(m', x', a);
    }
    if gone != {} && child in order {
      StepChild(m0, x0, start, order, m, x, m', d, ext, child, gone);
      FreedChild(m0, x0, start, order, m, x, m', d, ext, child, gone);
      ShareIs(m, x, child);
      ShareIs(m', x', child);
      WorkChangesTwice(m, x, m', x', order, d, child);
    } else {
      WorkChanges(m, x, m', x', order, d);
    }
  }

  lemma FreedChild(m0: Nodes, x0: Chains, start: Addr, order: seq<Addr>, m: Nodes, x: Chains, m': Nodes, d: Addr,
      ext: seq<Addr>, child: Addr, gone: set<Addr>)
    requires Step(m0, x0, start, order, m, x, m', d, ext, child, gone) && gone != {}
    ensures child != d && (child in order ==> RefsOf(m, x, child) == [])
  {
  }

  // ---------------------------------------------------------------- what an entry can be

  lemma OutsideIs(m0: Nodes, x0: Chains, start: Addr, order: seq<Addr>, m: Nodes, x: Chains, r: Addr)
    requires Half(m0, x0, start, order, m, x) && Sound(m0, x0, order) && r in m0 && (m0[r].DirNode? || m0[r].FileNode?)
    requires !Goes(m0, x0, order, r)
    ensures r in m ==> m[r] == m0[r]
  {
    if r in Region(m0, x0, order) {
      var a :| a in m0 && Goes(m0, x0, order, a) && r in ChainOf(x0, a);
      HeadOnly(m0, x0, start, order, a, r);
    }
    hide Sound, Goes, DirHalf, FileHalf, Pending;
  }

  /** What the walk finds at an entry of a directory it stands in. */
  lemma Entry(m0: Nodes, x0: Chains, start: Addr, order: seq<Addr>, m: Nodes, x: Chains, d: Addr, r: Addr)
    requires Half(m0, x0, start, order, m, x) && Sound(m0, x0, order) && Owned(m0, x0, start, order)
    requires d in order && d in m && r in RefsOf(m, x, d)
    ensures r in RefsOf(m0, x0, d) && Nameable(m, r) && FS_NULL !in m
    ensures r in m && m[r].FileNode? <==> r in m && Lists(m0, x0, order, r)
    ensures r in m && r != start && r != d && m[r].DirNode? && m[r].parent == d <==> r in m && OwnsSub(m0, x0, start, d, r)
    ensures OwnsSub(m0, x0, start, d, r) ==> r in order
  {
    assert DirHalf(m0, x0, m, x, d);
    assert r in RefsOf(m0, x0, d);
    if r in m {
      if r in order {
        assert DirHalf(m0, x0, m, x, r);
      } else if Lists(m0, x0, order, r) {
        assert FileHalf(m0, x0, m, r);
        ChainHasAll(r, Ext(x0, r));
      } else {
        OutsideIs(m0, x0, start, order, m, x, r);
      }
    }
    hide RefsOf, ChainOf, DirOk, FileOk, Region;
  }

  // ---------------------------------------------------------------- the end

  /** When the start has no entries left, every other directory that goes has gone. */
  lemma {:induction false} OthersGone(m0: Nodes, x0: Chains, start: Addr, order: seq<Addr>, m: Nodes, x: Chains, i: nat)
    requires Half(m0, x0, start, order, m, x) && Owned(m0, x0, start, order) && RefsOf(m, x, start) == [] && 0 < i < |order|
    ensures order[i] !in m
    decreases i
  {
    var j :| 0 <= j < i && OwnsSub(m0, x0, start, order[j], order[i]);
    assert order[j] in order && order[i] in RefsOf(m0, x0, order[j]);
    assert Pending(m0, x0, start, order, m, x, order[j], order[i]);
    if j > 0 { OthersGone(m0, x0, start, order, m, x, j); }
    hide Half, RefsOf, Lists;
  }

  lemma DirsGone(m0: Nodes, x0: Chains, start: Addr, order: seq<Addr>, m: Nodes, x: Chains)
    requires Half(m0, x0, start, order, m, x) && Owned(m0, x0, start, order) && RefsOf(m, x, start) == []
    ensures forall d :: d in order && d in m ==> d == start
  {
    hide Half, RefsOf;
    forall d | d in order ensures d in m ==> d == start {
      var i :| 0 <= i < |order| && order[i] == d;
      if i > 0 { OthersGone(m0, x0, start, order, m, x, i); }
    }
  }

  /** ... and every file they list, and none of them had a gap. */
  lemma FilesGone(m0: Nodes, x0: Chains, start: Addr, order: seq<Addr>, m: Nodes, x: Chains)
    requires Half(m0, x0, start, order, m, x) && Owned(m0, x0, start, order) && RefsOf(m, x, start) == []
    ensures forall f :: Lists(m0, x0, order, f) ==> f !in m
    ensures NoGaps(m0, x0, order)
  {
    DirsGone(m0, x0, start, order, m, x);
    hide Owned, DirHalf, FileHalf, OwnsSub, Region;
    forall f | Lists(m0, x0, order, f) ensures f !in m {
      var d :| d in order && f in RefsOf(m0, x0, d);
      assert Pending(m0, x0, start, order, m, x, d, f);
    }
    forall d | d in order ensures FS_NULL !in RefsOf(m0, x0, d) {
      PendingAt(m0, x0, start, order, m, x, d, FS_NULL);
    }
  }

  lemma GoneChain(m0: Nodes, x0: Chains, start: Addr, order: seq<Addr>, m: Nodes, x: Chains, a: Addr)
    requires Half(m0, x0, start, order, m, x) && Goes(m0, x0, order, a) && a !in m
    ensures forall b :: b in ChainOf(x0, a) ==> b !in m
  {
    if a in order { assert DirHalf(m0, x0, m, x, a); } else { assert FileHalf(m0, x0, m, a); }
    hide RefsOf, DirOk, ChainOf;
  }

  lemma SameMaps(m: Nodes, m0: Nodes, gone: set<Addr>)
    requires forall b :: b in m <==> b in m0 && b !in gone
    requires forall b :: b in m ==> m[b] == m0[b]
    ensures m == m0 - gone
  {
  }

  /** Freeing the start then leaves the volume without everything that goes. */
  lemma EndsEmpty(m0: Nodes, x0: Chains, start: Addr, order: seq<Addr>, m: Nodes, x: Chains)
    requires Half(m0, x0, start, order, m, x) && Owned(m0, x0, start, order) && Sound(m0, x0, order)
    requires start in m && RefsOf(m, x, start) == []
    ensures Freed(m, [start] + Ext(x, start)) == m0 - Region(m0, x0, order)
  {
    hide *;
    DirsGone(m0, x0, start, order, m, x);
    FilesGone(m0, x0, start, order, m, x);
    FreedMembers(m, start, Ext(x, start));
    StartGoes(m0, x0, start, order);
    Now(m0, x0, start, order, m, x, start);
    RegionHas(m0, x0, order, start);
    OutsideSame(m0, x0, start, order, m, x);
    ChainOfIs(x, start);
    forall b | b in Region(m0, x0, order) ensures b in m ==> b in ChainOf(x, start) {
      var a := RegionOf(m0, x0, order, b);
      GoesIs(m0, x0, order, a);
      if a != start { GoneChain(m0, x0, start, order, m, x, a); }
    }
    SameMaps(Freed(m, [start] + Ext(x, start)), m0, Region(m0, x0, order));
  }

  /** Only the start's own share of the work is left. */
  lemma WorkEnds(m0: Nodes, x0: Chains, start: Addr, order: seq<Addr>, m: Nodes, x: Chains)
    requires Half(m0, x0, start, order, m, x) && Owned(m0, x0, start, order) && start in m && RefsOf(m, x, start) == []
    ensures Work(m, x, order) == 1
  {
    hide *;
    DirsGone(m0, x0, start, order, m, x);
    OwnedDistinct(m0, x0, start, order);
    StartFirst(m0, x0, start, order);
    FirstAndRest(order);
    NoWork(m, x, order[1..]);
    WorkIs(m, x, order);
    ShareIs(m, x, start);
  }

  // ---------------------------------------------------------------- the two kinds of step

  /** Where the walk stands. */
  lemma Standing(m0: Nodes, x0: Chains, start: Addr, order: seq<Addr>, m: Nodes, x: Chains, path: seq<Addr>,
      current: Addr)
    requires Half(m0, x0, start, order, m, x) && Sound(m0, x0, order) && Trail(m0, x0, start, order, m, x, path)
    requires current == path[|path| - 1]
    ensures current in order && current in m && m[current].DirNode? && DirOk(m, current, Ext(x, current))
    ensures ChainOf(x, current) <= m.Keys && RefsOf(m, x, current) == Refs(m, current, Ext(x, current))
    ensures current == start <==> |path| == 1
  {
    TrailAt(m0, x0, start, order, m, x, path, |path| - 1);
    Going(m0, x0, order, current);
    Now(m0, x0, start, order, m, x, current);
    hide Half, Sound, OwnsSub, DirOk;
  }

  /** The parent field of an emptied directory leads back along the trail. */
  lemma Climbing(m0: Nodes, x0: Chains, start: Addr, order: seq<Addr>, m: Nodes, x: Chains, path: seq<Addr>,
      current: Addr)
    requires Half(m0, x0, start, order, m, x) && Sound(m0, x0, order) && Trail(m0, x0, start, order, m, x, path)
    requires current == path[|path| - 1] && |path| > 1
    ensures var up := path[|path| - 2];
            && current in m && m[current].DirNode? && m[current].parent == up && up != FS_NULL && current != FS_NULL && up != current
            && up in order && up in m && current in RefsOf(m, x, up) && OwnsSub(m0, x0, start, up, current)
            && current !in path[..|path| - 1]
  {
    hide *;
    var e: nat := |path| - 1;
    TrailAt(m0, x0, start, order, m, x, path, e);
    TrailAt(m0, x0, start, order, m, x, path, e - 1);
    HalfIs(m0, x0, start, order, m, x, current);
    OwnsIs(m0, x0, start, path[e - 1], current);
    HalfDir(m0, x0, m, x, current);
    assert forall j :: 0 <= j < e ==> path[..e][j] == path[j];
  }

  lemma Upwards(m0: Nodes, x0: Chains, start: Addr, order: seq<Addr>, m: Nodes, x: Chains, path: seq<Addr>, up: Addr)
    requires Half(m0, x0, start, order, m, x) && Sound(m0, x0, order) && Trail(m0, x0, start, order, m, x, path)
    requires |path| > 1 && up == path[|path| - 2]
    ensures IsDir(m, up) && Nameable(m, up) && DirOk(m, up, Ext(x, up)) && RefsOf(m, x, up) == Refs(m, up, Ext(x, up))
  {
    TrailAt(m0, x0, start, order, m, x, path, |path| - 2);
    Going(m0, x0, order, up);
    Now(m0, x0, start, order, m, x, up);
    hide Half, Sound, Trail, DirOk, Refs;
  }

  lemma StepOfDir(m0: Nodes, x0: Chains, start: Addr, order: seq<Addr>, m: Nodes, x: Chains, m': Nodes, d: Addr,
      ext: seq<Addr>, child: Addr, gone: set<Addr>)
    requires CutOut(m, m', x, d, ext, child, gone) && gone == ChainOf(x, child) && child in gone && d in order
    requires child != d && child in m && Goes(m0, x0, order, child) && child != FS_NULL
    requires child in order ==> RefsOf(m, x, child) == []
    ensures Step(m0, x0, start, order, m, x, m', d, ext, child, gone)
  {
    assert child !in m';
    hide DirOk, Refs, RefsOf, ChainOf, Goes, Lists, OwnsSub;
  }

  /** Climbing frees the emptied directory with its entry in the one above. */
  lemma ClimbStep(m0: Nodes, x0: Chains, start: Addr, order: seq<Addr>, m: Nodes, x: Chains, m1: Nodes, path: seq<Addr>,
      current: Addr, up: Addr, ext: seq<Addr>)
    requires Half(m0, x0, start, order, m, x) && Sound(m0, x0, order) && Owned(m0, x0, start, order)
    requires Trail(m0, x0, start, order, m, x, path)
    requires current == path[|path| - 1] && |path| > 1 && up == path[|path| - 2] && RefsOf(m, x, current) == []
    requires Removed(m, m1, up, Ext(x, up), ext, current)
    ensures var m' := m1 - ChainOf(x, current);
            && Half(m0, x0, start, order, m', x[up := ext]) && Trail(m0, x0, start, order, m', x[up := ext], path[..|path| - 1])
            && Work(m', x[up := ext], order) + 2 == Work(m, x, order)
    ensures DirOk(m1, current, Ext(x, current)) && current in m1 && m1[current].DirNode?
  {
    hide *;
    var gone := ChainOf(x, current);
    Climbing(m0, x0, start, order, m, x, path, current);
    Standing(m0, x0, start, order, m, x, path, current);
    Going(m0, x0, order, up);
    Going(m0, x0, order, current);
    Now(m0, x0, start, order, m, x, up);
    Now(m0, x0, start, order, m, x, current);
    ApartNow(m0, x0, order, up, current, ChainOf(x, up), gone);
    CutOf(m, m1, m1 - gone, x, up, ext, current, gone);
    ChainHas(x, current);
    StepOfDir(m0, x0, start, order, m, x, m1 - gone, up, ext, current, gone);
    StepHalf(m0, x0, start, order, m, x, m1 - gone, up, ext, current, gone);
    StepTrail(m0, x0, start, order, m, x, m1 - gone, up, ext, current, gone, path, |path| - 1);
    OwnedDistinct(m0, x0, start, order);
    StepWork(m0, x0, start, order, m, x, m1 - gone, up, ext, current, gone);
    ChainOfIs(x, up);
    ChainOfIs(x, current);
    OtherSurvives(m, m1, up, Ext(x, up), ext, current, current, Ext(x, current));
  }

  /** What a file entry takes with it. */
  ghost function Freeing(m: Nodes, x: Chains, child: Addr): set<Addr> {
    if child in m && m[child].FileNode? then ChainOf(x, child) else {}
  }

  lemma FreeingIs(m: Nodes, x: Chains, child: Addr)
    ensures Freeing(m, x, child) == if child in m && m[child].FileNode? then ChainOf(x, child) else {}
  {
  }

  lemma WholePath(path: seq<Addr>)
    ensures path[..|path|] == path
  {
  }

  lemma StepOfEntry(m0: Nodes, x0: Chains, start: Addr, order: seq<Addr>, m: Nodes, x: Chains, m': Nodes, d: Addr,
      ext: seq<Addr>, child: Addr, gone: set<Addr>)
    requires CutOut(m, m', x, d, ext, child, gone) && d in order && child != FS_NULL
    requires !(child in m && OwnsSub(m0, x0, start, d, child))
    requires child in m && m[child].FileNode? <==> child in m && Lists(m0, x0, order, child)
    requires if child in m && m[child].FileNode? then gone == ChainOf(x, child) && child in gone && child !in order && child != d && Goes(m0, x0, order, child)
             else gone == {}
    ensures Step(m0, x0, start, order, m, x, m', d, ext, child, gone)
  {
    hide DirOk, Refs, RefsOf, ChainOf, Goes, Lists, OwnsSub;
  }

  lemma NotOnTrail(m0: Nodes, x0: Chains, start: Addr, order: seq<Addr>, m: Nodes, x: Chains, path: seq<Addr>, f: Addr)
    requires Trail(m0, x0, start, order, m, x, path)
    ensures |path| > 0 && (f !in order ==> f !in path[..|path|])
  {
    hide RefsOf, OwnsSub;
    WholePath(path);
  }

  /** Unlinking any other entry, and freeing it if it is a file. */
  lemma UnlinkStep(m0: Nodes, x0: Chains, start: Addr, order: seq<Addr>, m: Nodes, x: Chains, m1: Nodes,
      path: seq<Addr>, d: Addr, child: Addr, ext: seq<Addr>)
    requires Half(m0, x0, start, order, m, x) && Sound(m0, x0, order) && Owned(m0, x0, start, order)
    requires Trail(m0, x0, start, order, m, x, path) && d == path[|path| - 1] && child in RefsOf(m, x, d) && child != FS_NULL
    requires !(child in m && OwnsSub(m0, x0, start, d, child))
    requires Removed(m, m1, d, Ext(x, d), ext, child)
    ensures var m' := m1 - Freeing(m, x, child);
            && Half(m0, x0, start, order, m', x[d := ext]) && Trail(m0, x0, start, order, m', x[d := ext], path)
            && Work(m', x[d := ext], order) + 1 == Work(m, x, order)
    ensures child in m1 && m1[child].FileNode? <==> child in m && m[child].FileNode?
    ensures Nameable(m1, child)
    ensures child in m1 && m1[child].FileNode? ==> FileOk(m1, child, Ext(x0, child)) && Ext(x0, child) == Ext(x, child)
  {
    hide *;
    var gone := Freeing(m, x, child);
    Standing(m0, x0, start, order, m, x, path, d);
    Entry(m0, x0, start, order, m, x, d, child);
    Going(m0, x0, order, d);
    Now(m0, x0, start, order, m, x, d);
    FreeingIs(m, x, child);
    ChainOfIs(x, d);
    ChainOfIs(x, child);
    if child in m && m[child].FileNode? {
      OwnedDirs(m0, x0, start, order, child);
      Going(m0, x0, order, child);
      Now(m0, x0, start, order, m, x, child);
      ApartNow(m0, x0, order, d, child, ChainOf(x, d), gone);
      ChainHas(x, child);
      FileSurvives(m, m1, d, Ext(x, d), ext, child, Ext(x, child));
    } else {
      StaysNoFile(m, m1, d, Ext(x, d), ext, child);
    }
    CutOf(m, m1, m1 - gone, x, d, ext, child, gone);
    StepOfEntry(m0, x0, start, order, m, x, m1 - gone, d, ext, child, gone);
    StepHalf(m0, x0, start, order, m, x, m1 - gone, d, ext, child, gone);
    NotOnTrail(m0, x0, start, order, m, x, path, child);
    StepTrail(m0, x0, start, order, m, x, m1 - gone, d, ext, child, gone, path, |path|);
    WholePath(path);
    OwnedDistinct(m0, x0, start, order);
    StepWork(m0, x0, start, order, m, x, m1 - gone, d, ext, child, gone);
  }
}
