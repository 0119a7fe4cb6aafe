/** The records of one directory or file as a set of addresses, and what changes elsewhere, or in
    another chain, leave alone. */
module RecordChains {
  import opened Basics
  import opened Volume
  import opened Directory
  import opened DirectoryOps

  /** The addresses of a record chain. */
  ghost function Chain(a: Addr, ext: seq<Addr>): set<Addr> {
    set x | x in [a] + ext
  }

  lemma RootInChain(a: Addr, ext: seq<Addr>)
    ensures a in Chain(a, ext)
  {
  }

  lemma ChainMembers(d: Addr, ext: seq<Addr>)
    ensures forall a :: a in Chain(d, ext) <==> a in [d] + ext
  {
  }

  lemma ChainHasAll(a: Addr, ext: seq<Addr>)
    ensures a in Chain(a, ext) && forall e :: e in ext ==> e in Chain(a, ext)
  {
    ChainMembers(a, ext);
    assert forall e :: e in ext ==> e in [a] + ext;
  }

  lemma ChainShrinks(d: Addr, ext: seq<Addr>, ext': seq<Addr>)
    requires forall a :: a in ext' ==> a in ext
    ensures Chain(d, ext') <= Chain(d, ext)
    ensures forall a :: a in Chain(d, ext) && a !in Chain(d, ext') ==> a in ext && a !in ext'
  {
  }

  ghost predicate SameOn(m: Nodes, m': Nodes, s: set<Addr>) {
    forall a :: a in s ==> a in m && a in m' && m'[a] == m[a]
  }

  lemma DirFrame(m: Nodes, m': Nodes, d: Addr, ext: seq<Addr>)
    requires DirOk(m, d, ext) && SameOn(m, m', Chain(d, ext)) && FS_NULL !in m'
    ensures DirOk(m', d, ext) && Refs(m', d, ext) == Refs(m, d, ext)
  {
    assert d in Chain(d, ext);
    assert forall a :: a in ext ==> a in Chain(d, ext);
    forall i | 0 <= i < |ext| ensures ExtentOk(m', d, ext, i) { assert ExtentOk(m, d, ext, i); }
    ExtRefsFrame(m, m', ext);
  }

  lemma FileFrame(m: Nodes, m': Nodes, f: Addr, ext: seq<Addr>)
    requires FileOk(m, f, ext) && SameOn(m, m', Chain(f, ext)) && FS_NULL !in m'
    ensures FileOk(m', f, ext)
  {
    assert f in Chain(f, ext);
    assert forall a :: a in ext ==> a in Chain(f, ext);
    forall i | 0 <= i < |ext| ensures FileExtentOk(m', ext, i) { assert FileExtentOk(m, ext, i); }
  }

  lemma DirHeld(m: Nodes, d: Addr, ext: seq<Addr>)
    requires DirOk(m, d, ext)
    ensures Chain(d, ext) <= m.Keys
  {
    forall a | a in Chain(d, ext) ensures a in m {
      if a != d {
        var i :| 0 <= i < |ext| && ext[i] == a;
        assert ExtentOk(m, d, ext, i);
      }
    }
  }

  lemma FileHeld(m: Nodes, f: Addr, ext: seq<Addr>)
    requires FileOk(m, f, ext)
    ensures Chain(f, ext) <= m.Keys
  {
    forall a | a in Chain(f, ext) ensures a in m {
      if a != f {
        var i :| 0 <= i < |ext| && ext[i] == a;
        assert FileExtentOk(m, ext, i);
      }
    }
  }

  lemma FileHas(m: Nodes, f: Addr, ext: seq<Addr>)
    requires FileOk(m, f, ext)
    ensures f in m && m[f].FileNode?
  {
  }

  lemma OnlyExtents(m: Nodes, d: Addr, ext: seq<Addr>, a: Addr)
    requires DirOk(m, d, ext)
    ensures a in Chain(d, ext) && a in m ==> a == d || m[a].DirExtent?
  {
    if a in ext {
      var i :| 0 <= i < |ext| && ext[i] == a;
      assert ExtentOk(m, d, ext, i);
    }
  }

  lemma OnlyFileExtents(m: Nodes, f: Addr, ext: seq<Addr>, a: Addr)
    requires FileOk(m, f, ext)
    ensures a in Chain(f, ext) && a in m ==> a == f || m[a].FileExtent?
  {
    if a in ext {
      var i :| 0 <= i < |ext| && ext[i] == a;
      assert FileExtentOk(m, ext, i);
    }
  }

  lemma ShortDir(m: Nodes, d: Addr)
    requires d in m && m[d].DirNode? && m[d].count <= |m[d].slots| && m[d].next == FS_NULL && FS_NULL !in m
    ensures DirOk(m, d, []) && Refs(m, d, []) == m[d].slots[..m[d].count]
  {
    assert [d] + [] == [d];
    assert ExtRefs(m, []) == [];
  }

  lemma FreedMembers(m: Nodes, a: Addr, ext: seq<Addr>)
    ensures forall x :: x in Freed(m, [a] + ext) <==> x in m && x !in Chain(a, ext)
    ensures forall x :: x in Freed(m, [a] + ext) ==> Freed(m, [a] + ext)[x] == m[x]
  {
  }

  /** A directory outside the freed allocations is unaffected. */
  lemma DirSurvives(m: Nodes, d: Addr, ext: seq<Addr>, gone: set<Addr>)
    requires DirOk(m, d, ext) && Chain(d, ext) !! gone
    ensures DirOk(m - gone, d, ext) && Refs(m - gone, d, ext) == Refs(m, d, ext)
    ensures IsDir(m - gone, d) && IsDir(m, d) && (m - gone)[d] == m[d]
  {
    DirHeld(m, d, ext);
    RootInChain(d, ext);
    DirFrame(m, m - gone, d, ext);
    DirOkHas(m, d, ext);
  }

  // ---------------------------------------------------------------- after unlinking an entry

  lemma RemovedFacts(m: Nodes, m1: Nodes, d: Addr, ext: seq<Addr>, ext': seq<Addr>, ref: Addr)
    requires Removed(m, m1, d, ext, ext', ref)
    ensures DirOk(m1, d, ext') && Refs(m1, d, ext') == Remove(Refs(m, d, ext), ref)
    ensures d in m && m[d].DirNode? && d in m1 && m1[d].DirNode? && m1[d].parent == m[d].parent && FS_NULL !in m1
    ensures forall a :: a !in Chain(d, ext) ==> (a in m <==> a in m1) && (a in m ==> m1[a] == m[a])
    ensures Chain(d, ext') <= Chain(d, ext)
    ensures forall a :: a in Chain(d, ext) && a !in Chain(d, ext') ==> a !in m1
  {
    DirOkHas(m1, d, ext');
    AtHeader(m1, d, ext');
    ChainShrinks(d, ext, ext');
    ChainMembers(d, ext);
    hide DirOk, Refs, Remove, Chain;
  }

  lemma RemovedKeys(m: Nodes, m1: Nodes, d: Addr, ext: seq<Addr>, ext': seq<Addr>, ref: Addr)
    requires Removed(m, m1, d, ext, ext', ref) && Chain(d, ext) <= m.Keys
    ensures m1.Keys <= m.Keys
    ensures forall e :: e in ext' ==> e in ext
    ensures forall e :: e in ext && e !in ext' ==> e !in m1
  {
    ChainMembers(d, ext);
    hide DirOk, Refs, Remove, Chain;
  }

  /** Unlinking an entry leaves a chain apart from the directory's as it was. */
  lemma OtherSurvives(m: Nodes, m1: Nodes, d: Addr, dext: seq<Addr>, dext': seq<Addr>, ref: Addr, a: Addr,
      ext: seq<Addr>)
    requires Removed(m, m1, d, dext, dext', ref) && Chain(a, ext) !! Chain(d, dext) && Chain(a, ext) <= m.Keys
    requires a in m && DirOk(m, a, ext)
    ensures DirOk(m1, a, ext) && a in m1 && m1[a].DirNode?
  {
    RemovedFacts(m, m1, d, dext, dext', ref);
    DirFrame(m, m1, a, ext);
    DirOkHas(m1, a, ext);
    hide Removed, DirOk, Refs, Remove;
  }

  lemma FileSurvives(m: Nodes, m1: Nodes, d: Addr, dext: seq<Addr>, dext': seq<Addr>, f: Addr, ext: seq<Addr>)
    requires Removed(m, m1, d, dext, dext', f) && Chain(f, ext) !! Chain(d, dext) && Chain(f, ext) <= m.Keys
    requires FileOk(m, f, ext)
    ensures FileOk(m1, f, ext) && f in m1 && m1[f].FileNode? && Nameable(m1, f) && f != d
  {
    RemovedFacts(m, m1, d, dext, dext', f);
    FileFrame(m, m1, f, ext);
    FileHas(m1, f, ext);
    hide Removed, DirOk, FileOk, Refs, Remove;
  }

  lemma StaysNoFile(m: Nodes, m1: Nodes, d: Addr, ext: seq<Addr>, ext': seq<Addr>, a: Addr)
    requires Removed(m, m1, d, ext, ext', a) && DirOk(m, d, ext) && Nameable(m, a) && !(a in m && m[a].FileNode?)
    requires Chain(d, ext) <= m.Keys
    ensures Nameable(m1, a) && !(a in m1 && m1[a].FileNode?)
  {
    RemovedFacts(m, m1, d, ext, ext', a);
    RemovedKeys(m, m1, d, ext, ext', a);
    OnlyExtents(m, d, ext, a);
    hide Removed, DirOk, Refs, Remove, Chain;
  }

  lemma {:induction false} RemoveKeepsMembers(s: seq<Addr>, x: Addr)
    ensures forall y :: y in Remove(s, x) ==> y in s
    ensures forall y :: y in s && y != x ==> y in Remove(s, x)
  {
    RemoveStep(s, x);
    hide Remove;
    if s != [] {
      RemoveKeepsMembers(s[1..], x);
      assert s == [s[0]] + s[1..];
    }
  }

  lemma {:induction false} RemoveLength(s: seq<Addr>, x: Addr)
    requires x in s
    ensures |Remove(s, x)| == |s| - 1
  {
    RemoveStep(s, x);
    hide Remove;
    if s[0] != x { RemoveLength(s[1..], x); }
  }
}
