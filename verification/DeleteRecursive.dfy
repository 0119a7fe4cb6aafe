/** fs_directory_delete_recursive (kernel/fs/basefs/directory.c:455-537): deleting a directory with
    everything it owns. The walk keeps nothing but the directory it stands in and climbs through parent
    fields. */
module DeleteRecursive {
  import opened Basics
  import opened Volume
  import opened Directory
  import opened DirectoryOps
  import opened RecordChains
  import opened Subtree
  import opened Ownership
  import opened OwnedWalk
  import opened TreeOwned

  method IsDirectory(s: Store, a: Addr) returns (r: bool)
    requires Nameable(s.nodes, a)
    ensures r == IsDir(s.nodes, a)
  {
    return a in s.nodes && s.nodes[a].DirNode?;
  }

  method GetParent(s: Store, a: Addr) returns (up: Addr)
    requires Nameable(s.nodes, a)
    ensures up == if IsDir(s.nodes, a) then s.nodes[a].parent else FS_NULL
  {
    return if a in s.nodes && s.nodes[a].DirNode? then s.nodes[a].parent else FS_NULL;
  }

  lemma DirIs(m: Nodes, a: Addr)
    ensures IsDir(m, a) <==> a in m && m[a].DirNode?
    ensures a in m && m[a].DirNode? ==> Nameable(m, a)
  {
  }

  lemma FreedIs(m: Nodes, a: Addr, x: Chains)
    ensures Freed(m, [a] + Ext(x, a)) == m - ChainOf(x, a)
  {
  }

  lemma NothingFreed(m: Nodes)
    ensures m - {} == m
  {
  }

  lemma WordSize()
    ensures U32 > 0
  {
  }

  /** fs_directory_delete_recursive below start, on any volume. x holds the extents of the directories and
      files that go, order the directories owned from start. It returns true exactly if none of these
      has an empty slot among its entries and its steps suffice for one step for each of them and one for each entry;
      then exactly they and the files they list are gone, and in no case is anything else touched. */
  method DeleteBelow(s: Store, start: Addr, ghost x0: Chains, ghost order: seq<Addr>) returns (done: bool)
    requires s.Valid() && Owned(s.nodes, x0, start, order) && Sound(s.nodes, x0, order)
    modifies s
    ensures s.Valid()
    ensures done <==> NoGaps(old(s.nodes), x0, order) && Work(old(s.nodes), x0, order) <= s.WalkLimit() * 4 % U32
    ensures done ==> s.nodes == old(s.nodes) - Region(old(s.nodes), x0, order)
    ensures forall b :: b !in Region(old(s.nodes), x0, order) ==>
              (b in s.nodes <==> b in old(s.nodes)) && (b in s.nodes ==> s.nodes[b] == old(s.nodes)[b])
  {
    hide *;
    ghost var m0 := s.nodes;
    ghost var x: Chains := x0;
    ghost var path: seq<Addr> := [start];
    StartsHalf(m0, x0, start, order);
    WordSize();
    var steps := s.WalkLimit() * 4 % U32;
    ghost var budget: nat := steps;
    var current := start;
    while steps > 0
      invariant s.Valid() && Half(m0, x0, start, order, s.nodes, x) && Trail(m0, x0, start, order, s.nodes, x, path)
      invariant |path| > 0 && current == path[|path| - 1]
      invariant Work(s.nodes, x, order) + budget + 1 == Work(m0, x0, order) + |path| + steps
    {
      steps := steps - 1;
      ghost var m := s.nodes;
      Standing(m0, x0, start, order, m, x, path, current);
      OutsideSame(m0, x0, start, order, m, x);
      DirIs(m, current);
      var count := s.GetReferenceCount(current, Ext(x, current));
      if count == 0 {
        if current == start {
          WorkEnds(m0, x0, start, order, m, x);
          FilesGone(m0, x0, start, order, m, x);
          EndsEmpty(m0, x0, start, order, m, x);
          done := s.DirectoryDelete(current, Ext(x, current));
          return true;
        }
        Climbing(m0, x0, start, order, m, x, path, current);
        var up := GetParent(s, current);
        Upwards(m0, x0, start, order, m, x, path, up);
        ghost var ext': seq<Addr> := [];
        var code: nat := 1;
        if up != FS_NULL { code, ext' := s.RemoveReference(up, current, Ext(x, up)); }
        if code != 0 { return false; }
        ClimbStep(m0, x0, start, order, m, x, s.nodes, path, current, up, ext');
        DirIs(s.nodes, current);
        FreedIs(s.nodes, current, x);
        var _ := s.DirectoryDelete(current, Ext(x, current));
        x, current, path := x[up := ext'], up, path[..|path| - 1];
      } else {
        var child := s.GetReference(current, count - 1, Ext(x, current));
        Entry(m0, x0, start, order, m, x, current, child);
        var isDir := IsDirectory(s, child);
        var parent := GetParent(s, child);
        DirIs(m, child);
        if child != FS_NULL && child != start && child != current && isDir && parent == current {
          Descend(m0, x0, start, order, m, x, path, child);
          current, path := child, path + [child];
        } else {
          var code, ext' := s.RemoveReference(current, child, Ext(x, current));
          if code != 0 {
            GapIs(m0, x0, order, current);
            return false;
          }
          UnlinkStep(m0, x0, start, order, m, x, s.nodes, path, current, child, ext');
          FreeingIs(m, x, child);
          FreedIs(s.nodes, child, x);
          NothingFreed(s.nodes);
          var _ := s.FileDelete(child, Ext(x0, child));
          x := x[current := ext'];
        }
      }
    }
    OutsideSame(m0, x0, start, order, s.nodes, x);
    TrailWork(m0, x0, start, order, s.nodes, x, path);
    return false;
  }

  // ---------------------------------------------------------------- with the entry in the parent

  /** From m to m' the allocations in gone are gone, with the one reference to address in the parent if
      that is a directory, and nothing else has changed. */
  ghost predicate Deleted(m: Nodes, m': Nodes, gone: set<Addr>, address: Addr, parent: Addr, pext: seq<Addr>,
      pext': seq<Addr>) {
    if !IsDir(m, parent) then m' == m - gone
    else
      && DirOk(m', parent, pext') && m'[parent].parent == m[parent].parent
      && Refs(m', parent, pext') == Remove(Refs(m, parent, pext), address)
      && (forall a :: a in gone ==> a !in m')
      && (forall a :: a !in gone && a !in Chain(parent, pext) ==> (a in m' <==> a in m) && (a in m' && a in m ==> m'[a] == m[a]))
  }

  /** The same, before anything is freed. */
  ghost predicate Unlisted(m: Nodes, m1: Nodes, address: Addr, parent: Addr, pext: seq<Addr>, pext': seq<Addr>) {
    if !IsDir(m, parent) then m1 == m
    else
      && DirOk(m, parent, pext) && DirOk(m1, parent, pext') && m1[parent].parent == m[parent].parent && m1.Keys <= m.Keys
      && Refs(m1, parent, pext') == Remove(Refs(m, parent, pext), address)
      && Chain(parent, pext') <= Chain(parent, pext)
      && (forall a :: a !in Chain(parent, pext) ==> (a in m1 <==> a in m) && (a in m1 && a in m ==> m1[a] == m[a]))
  }

  lemma UnlistedRemoved(m: Nodes, m1: Nodes, address: Addr, parent: Addr, pext: seq<Addr>, pext': seq<Addr>)
    requires Removed(m, m1, parent, pext, pext', address) && DirOk(m, parent, pext)
    ensures Unlisted(m, m1, address, parent, pext, pext') && IsDir(m, parent)
  {
    hide *;
    RemovedFacts(m, m1, parent, pext, pext', address);
    DirHeld(m, parent, pext);
    RemovedKeys(m, m1, parent, pext, pext', address);
    UnlistedOf(m, m1, address, parent, pext, pext');
  }

  lemma UnlistedOf(m: Nodes, m1: Nodes, address: Addr, parent: Addr, pext: seq<Addr>, pext': seq<Addr>)
    requires parent in m && m[parent].DirNode? && parent in m1 && m1[parent].DirNode? && m1[parent].parent == m[parent].parent
    requires DirOk(m, parent, pext) && DirOk(m1, parent, pext') && Refs(m1, parent, pext') == Remove(Refs(m, parent, pext), address)
    requires Chain(parent, pext') <= Chain(parent, pext) && m1.Keys <= m.Keys
    requires forall a :: a !in Chain(parent, pext) ==> (a in m <==> a in m1) && (a in m ==> m1[a] == m[a])
    ensures Unlisted(m, m1, address, parent, pext, pext') && IsDir(m, parent)
  {
    hide DirOk, Refs, Chain, Remove;
  }

  lemma UnlistedSame(m: Nodes, address: Addr, parent: Addr, pext: seq<Addr>)
    requires IsDir(m, parent) ==> DirOk(m, parent, pext) && address !in Refs(m, parent, pext)
    ensures Unlisted(m, m, address, parent, pext, pext)
  {
    if IsDir(m, parent) { RemoveAbsent(Refs(m, parent, pext), address); }
    hide DirOk, Refs, Chain, Remove;
  }

  lemma UnlistedDeleted(m: Nodes, m1: Nodes, gone: set<Addr>, address: Addr, parent: Addr, pext: seq<Addr>,
      pext': seq<Addr>)
    requires Unlisted(m, m1, address, parent, pext, pext') && (IsDir(m, parent) ==> Chain(parent, pext) !! gone)
    ensures Deleted(m, m1 - gone, gone, address, parent, pext, pext')
  {
    hide DirOk, Refs, Chain, Remove;
    if IsDir(m, parent) { DirSurvives(m1, parent, pext', gone); }
  }

  /** Unlinking address from a directory apart from all it owns leaves all that as it was. */
  lemma UnlistedRefs(m: Nodes, m1: Nodes, x: Chains, order: seq<Addr>, address: Addr, parent: Addr, pext: seq<Addr>,
      pext': seq<Addr>, d: Addr)
    requires Sound(m, x, order) && Unlisted(m, m1, address, parent, pext, pext') && d in order
    requires IsDir(m, parent) ==> Chain(parent, pext) !! Region(m, x, order)
    ensures DirOk(m, d, Ext(x, d)) && DirOk(m1, d, Ext(x, d)) && RefsOf(m1, x, d) == RefsOf(m, x, d)
    ensures d in m1 && d in m && m1[d].DirNode? && m[d].DirNode? && m1[d] == m[d]
  {
    DirHeld(m, d, Ext(x, d));
    DirOkHas(m, d, Ext(x, d));
    Going(m, x, order, d);
    RegionHas(m, x, order, d);
    ChainHas(x, d);
    UnlistedNull(m, m1, address, parent, pext, pext');
    hide Sound, DirOk, Refs, Region, Goes, Remove;
    DirFrame(m, m1, d, Ext(x, d));
    DirOkHas(m1, d, Ext(x, d));
  }

  lemma UnlistedNull(m: Nodes, m1: Nodes, address: Addr, parent: Addr, pext: seq<Addr>, pext': seq<Addr>)
    requires Unlisted(m, m1, address, parent, pext, pext') && FS_NULL !in m
    ensures FS_NULL !in m1
  {
    if IsDir(m, parent) { AtHeader(m1, parent, pext'); }
    hide DirOk, Refs, Remove;
  }

  /** A directory or file is still there, with the same parent field. */
  lemma UnlistedEntry(m: Nodes, m1: Nodes, address: Addr, parent: Addr, pext: seq<Addr>, pext': seq<Addr>, r: Addr)
    requires Unlisted(m, m1, address, parent, pext, pext')
    requires r in m ==> m[r].DirNode? || m[r].FileNode?
    ensures r in m1 <==> r in m
    ensures r in m ==> (m1[r].DirNode? <==> m[r].DirNode?) && (m1[r].FileNode? <==> m[r].FileNode?)
    ensures r in m && m[r].DirNode? ==> m1[r].parent == m[r].parent
  {
    if IsDir(m, parent) {
      OnlyExtents(m, parent, pext, r);
      DirOkHas(m1, parent, pext');
    }
    hide DirOk, Refs, Remove, Chain;
  }

  /** The parent, its entry for address gone, is apart from all that address owns. */
  ghost predicate Apart(m: Nodes, m1: Nodes, x: Chains, order: seq<Addr>, address: Addr, parent: Addr, pext: seq<Addr>,
      pext': seq<Addr>) {
    && Owned(m, x, address, order) && Sound(m, x, order) && Unlisted(m, m1, address, parent, pext, pext')
    && (IsDir(m, parent) ==> Chain(parent, pext) !! Region(m, x, order))
  }

  lemma ApartEntry(m: Nodes, m1: Nodes, x: Chains, order: seq<Addr>, address: Addr, parent: Addr, pext: seq<Addr>,
      pext': seq<Addr>, d: Addr, r: Addr)
    requires Apart(m, m1, x, order, address, parent, pext, pext') && d in order && r in RefsOf(m, x, d)
    ensures r in m ==> m[r].DirNode? || m[r].FileNode?
    ensures r in m1 <==> r in m
    ensures r in m ==> (m1[r].DirNode? <==> m[r].DirNode?) && (m1[r].FileNode? <==> m[r].FileNode?)
    ensures r in m && m[r].DirNode? ==> m1[r].parent == m[r].parent
  {
    hide Unlisted, Owned, Region, RefsOf, DirOk, Lists, Goes, Chain;
    UnlistedEntry(m, m1, address, parent, pext, pext', r);
  }

  lemma ApartDir(m: Nodes, m1: Nodes, x: Chains, order: seq<Addr>, address: Addr, parent: Addr, pext: seq<Addr>,
      pext': seq<Addr>, d: Addr)
    requires Apart(m, m1, x, order, address, parent, pext, pext') && d in order
    ensures DirOk(m1, d, Ext(x, d)) && RefsOf(m1, x, d) == RefsOf(m, x, d) && d in m && d in m1 && m1[d] == m[d] && m1[d].DirNode?
    ensures Share(m1, x, d) == Share(m, x, d)
  {
    hide Unlisted, Owned, Region, RefsOf, DirOk, Sound, Chain;
    UnlistedRefs(m, m1, x, order, address, parent, pext, pext', d);
  }

  lemma ApartOwns(m: Nodes, m1: Nodes, x: Chains, order: seq<Addr>, address: Addr, parent: Addr, pext: seq<Addr>,
      pext': seq<Addr>, d: Addr, c: Addr)
    requires Apart(m, m1, x, order, address, parent, pext, pext') && d in order
    ensures OwnsSub(m1, x, address, d, c) <==> OwnsSub(m, x, address, d, c)
  {
    hide Apart, RefsOf, DirOk;
    ApartDir(m, m1, x, order, address, parent, pext, pext', d);
    if c in RefsOf(m, x, d) { ApartEntry(m, m1, x, order, address, parent, pext, pext', d, c); }
  }

  lemma ApartLists(m: Nodes, m1: Nodes, x: Chains, order: seq<Addr>, address: Addr, parent: Addr, pext: seq<Addr>,
      pext': seq<Addr>, f: Addr)
    requires Apart(m, m1, x, order, address, parent, pext, pext')
    ensures Lists(m1, x, order, f) <==> Lists(m, x, order, f)
    ensures Goes(m1, x, order, f) <==> Goes(m, x, order, f)
  {
    hide Apart, RefsOf, DirOk;
    forall d | d in order ensures RefsOf(m1, x, d) == RefsOf(m, x, d) && (f in RefsOf(m, x, d) ==> (f in m1 && m1[f].FileNode? <==> f in m && m[f].FileNode?)) {
      ApartDir(m, m1, x, order, address, parent, pext, pext', d);
      if f in RefsOf(m, x, d) { ApartEntry(m, m1, x, order, address, parent, pext, pext', d, f); }
    }
  }

  lemma ApartFile(m: Nodes, m1: Nodes, x: Chains, order: seq<Addr>, address: Addr, parent: Addr, pext: seq<Addr>,
      pext': seq<Addr>, f: Addr)
    requires Apart(m, m1, x, order, address, parent, pext, pext') && Lists(m, x, order, f)
    ensures FileOk(m1, f, Ext(x, f))
  {
    assert FileOk(m, f, Ext(x, f));
    FileHeld(m, f, Ext(x, f));
    Going(m, x, order, f);
    FileHas(m, f, Ext(x, f));
    RegionHas(m, x, order, f);
    UnlistedNull(m, m1, address, parent, pext, pext');
    hide Owned, Sound, DirOk, Refs, Region, Goes, Remove, FileOk;
    FileFrame(m, m1, f, Ext(x, f));
  }

  lemma ApartOwned(m: Nodes, m1: Nodes, x: Chains, order: seq<Addr>, address: Addr, parent: Addr, pext: seq<Addr>,
      pext': seq<Addr>)
    requires Apart(m, m1, x, order, address, parent, pext, pext')
    ensures Owned(m1, x, address, order)
  {
    assert Owned(m, x, address, order);
    hide Apart, RefsOf, DirOk, OwnsSub;
    forall d | d in order ensures d in m1 && m1[d].DirNode? { ApartDir(m, m1, x, order, address, parent, pext, pext', d); }
    forall i | 0 < i < |order| ensures exists j :: 0 <= j < i && OwnsSub(m1, x, address, order[j], order[i]) {
      var j :| 0 <= j < i && OwnsSub(m, x, address, order[j], order[i]);
      ApartOwns(m, m1, x, order, address, parent, pext, pext', order[j], order[i]);
    }
    forall d, c | d in order && OwnsSub(m1, x, address, d, c) ensures c in order {
      ApartOwns(m, m1, x, order, address, parent, pext, pext', d, c);
    }
  }

  lemma ApartSound(m: Nodes, m1: Nodes, x: Chains, order: seq<Addr>, address: Addr, parent: Addr, pext: seq<Addr>,
      pext': seq<Addr>)
    requires Apart(m, m1, x, order, address, parent, pext, pext')
    ensures Sound(m1, x, order)
  {
    assert Sound(m, x, order);
    UnlistedNull(m, m1, address, parent, pext, pext');
    hide Apart, RefsOf, DirOk, FileOk, ChainOf, Goes, Lists;
    forall d | d in order ensures DirOk(m1, d, Ext(x, d)) { ApartDir(m, m1, x, order, address, parent, pext, pext', d); }
    forall f | Lists(m1, x, order, f) ensures FileOk(m1, f, Ext(x, f)) {
      ApartLists(m, m1, x, order, address, parent, pext, pext', f);
      ApartFile(m, m1, x, order, address, parent, pext, pext', f);
    }
    forall a, b | Goes(m1, x, order, a) && Goes(m1, x, order, b) && a != b ensures ChainOf(x, a) !! ChainOf(x, b) {
      ApartLists(m, m1, x, order, address, parent, pext, pext', a);
      ApartLists(m, m1, x, order, address, parent, pext, pext', b);
    }
    forall d, r | d in order && r in RefsOf(m1, x, d) && r in m1 ensures m1[r].DirNode? || m1[r].FileNode? {
      ApartDir(m, m1, x, order, address, parent, pext, pext', d);
      ApartEntry(m, m1, x, order, address, parent, pext, pext', d, r);
    }
  }

  lemma ApartSame(m: Nodes, m1: Nodes, x: Chains, order: seq<Addr>, address: Addr, parent: Addr, pext: seq<Addr>,
      pext': seq<Addr>)
    requires Apart(m, m1, x, order, address, parent, pext, pext')
    ensures Region(m1, x, order) == Region(m, x, order)
    ensures NoGaps(m1, x, order) <==> NoGaps(m, x, order)
    ensures Work(m1, x, order) == Work(m, x, order)
  {
    hide Apart, RefsOf, DirOk, ChainOf, Goes, Share, Work;
    forall d | d in order ensures RefsOf(m1, x, d) == RefsOf(m, x, d) && Share(m1, x, d) == Share(m, x, d) {
      ApartDir(m, m1, x, order, address, parent, pext, pext', d);
    }
    WorkSame(m, x, m1, x, order);
    forall a ensures a in m1 && Goes(m1, x, order, a) <==> a in m && Goes(m, x, order, a) {
      ApartGoes(m, m1, x, order, address, parent, pext, pext', a);
    }
  }

  lemma ApartGoes(m: Nodes, m1: Nodes, x: Chains, order: seq<Addr>, address: Addr, parent: Addr, pext: seq<Addr>,
      pext': seq<Addr>, a: Addr)
    requires Apart(m, m1, x, order, address, parent, pext, pext')
    ensures a in m1 && Goes(m1, x, order, a) <==> a in m && Goes(m, x, order, a)
  {
    hide Apart;
    ApartLists(m, m1, x, order, address, parent, pext, pext', a);
    if a in order { ApartDir(m, m1, x, order, address, parent, pext, pext', a); }
  }

  // ---------------------------------------------------------------- the operation

  /** fs_directory_delete_recursive, on any volume. It starts unless address is no directory, or the
      root; then it finishes exactly if no directory owned from address has a gap and the steps suffice.
      When it finishes, exactly these directories, the files they list and the one entry in the parent
      are gone; in no case is anything beyond them and the parent's own records touched. */
  method DeleteDirectory(s: Store, partitioned: bool, address: Addr, parent: Addr, ghost x: Chains,
      ghost order: seq<Addr>, ghost pext: seq<Addr>)
    returns (done: bool, ghost pext': seq<Addr>)
    requires s.Valid() && Nameable(s.nodes, address) && Nameable(s.nodes, parent)
    requires IsDir(s.nodes, address) ==> Owned(s.nodes, x, address, order) && Sound(s.nodes, x, order)
    requires IsDir(s.nodes, parent) ==> DirOk(s.nodes, parent, pext)
    requires IsDir(s.nodes, parent) && IsDir(s.nodes, address) ==> Chain(parent, pext) !! Region(s.nodes, x, order)
    modifies s
    ensures s.Valid()
    ensures done <==> old(&& IsDir(s.nodes, address) && partitioned && address != s.rootDirectory
                          && NoGaps(s.nodes, x, order) && Work(s.nodes, x, order) <= s.WalkLimit() * 4 % U32)
    ensures done ==> Deleted(old(s.nodes), s.nodes, Region(old(s.nodes), x, order), address, parent, pext, pext')
    ensures !old(IsDir(s.nodes, address) && partitioned && address != s.rootDirectory) ==> s.nodes == old(s.nodes)
    ensures forall b :: b !in Region(old(s.nodes), x, order) && b !in Chain(parent, pext) ==>
              (b in s.nodes <==> b in old(s.nodes)) && (b in s.nodes ==> s.nodes[b] == old(s.nodes)[b])
  {
    hide *;
    WordSize();
    pext' := pext;
    ghost var m := s.nodes;
    DirIs(m, address);
    NoNullDir(s, address);
    var isDir := IsDirectory(s, address);
    if address == FS_NULL || !isDir || !partitioned || address == s.rootDirectory { return false, pext; }
    var code: nat := 2;
    NoNullDir(s, parent);
    if parent != FS_NULL { code, pext' := s.RemoveReference(parent, address, pext); }
    if code == 0 {
      RemovedIsDir(m, s.nodes, parent, pext, pext', address);
      UnlistedRemoved(m, s.nodes, address, parent, pext, pext');
    } else {
      pext' := pext;
      UnlistedSame(m, address, parent, pext);
    }
    ghost var m1 := s.nodes;
    ApartOf(m, m1, x, order, address, parent, pext, pext');
    ApartOwned(m, m1, x, order, address, parent, pext, pext');
    ApartSound(m, m1, x, order, address, parent, pext, pext');
    ApartSame(m, m1, x, order, address, parent, pext, pext');
    UnlistedDeleted(m, m1, Region(m, x, order), address, parent, pext, pext');
    UnlistedOutside(m, m1, address, parent, pext, pext');
    done := DeleteBelow(s, address, x, order);
  }

  lemma NoNullDir(s: Store, a: Addr)
    requires s.Valid()
    ensures a == FS_NULL ==> !IsDir(s.nodes, a)
  {
  }

  lemma RemovedIsDir(m: Nodes, m1: Nodes, d: Addr, ext: seq<Addr>, ext': seq<Addr>, ref: Addr)
    requires Removed(m, m1, d, ext, ext', ref)
    ensures IsDir(m, d)
  {
  }

  lemma ApartOf(m: Nodes, m1: Nodes, x: Chains, order: seq<Addr>, address: Addr, parent: Addr, pext: seq<Addr>,
      pext': seq<Addr>)
    requires Owned(m, x, address, order) && Sound(m, x, order) && Unlisted(m, m1, address, parent, pext, pext')
    requires IsDir(m, parent) ==> Chain(parent, pext) !! Region(m, x, order)
    ensures Apart(m, m1, x, order, address, parent, pext, pext')
  {
  }

  lemma UnlistedOutside(m: Nodes, m1: Nodes, address: Addr, parent: Addr, pext: seq<Addr>, pext': seq<Addr>)
    requires Unlisted(m, m1, address, parent, pext, pext')
    ensures forall b :: b !in Chain(parent, pext) ==> (b in m1 <==> b in m) && (b in m1 && b in m ==> m1[b] == m[b])
  {
    hide DirOk, Refs, Remove, Chain;
  }

  /** On a tree, where entries do not repeat and parent fields are right, it always finishes, and exactly
      the tree is gone. */
  method DeleteTree(s: Store, partitioned: bool, address: Addr, parent: Addr, ghost t: Tree, ghost pext: seq<Addr>)
    returns (done: bool, ghost pext': seq<Addr>)
    requires s.Valid() && Nameable(s.nodes, address) && Nameable(s.nodes, parent)
    requires IsDir(s.nodes, address) ==> TreeOk(s.nodes, t) && t.Dir? && t.addr == address
    requires IsDir(s.nodes, parent) ==> DirOk(s.nodes, parent, pext)
    requires IsDir(s.nodes, parent) && IsDir(s.nodes, address) ==> Chain(parent, pext) !! Owns(t)
    modifies s
    ensures s.Valid()
    ensures done <==> old(IsDir(s.nodes, address)) && partitioned && address != s.rootDirectory
    ensures !done ==> s.nodes == old(s.nodes)
    ensures done ==> Deleted(old(s.nodes), s.nodes, Owns(t), address, parent, pext, pext')
  {
    hide *;
    DirIs(s.nodes, address);
    if address in s.nodes && s.nodes[address].DirNode? {
      TreeBudget(s, t);
      TreeIsOwned(s.nodes, t, s.blockCount);
    }
    done, pext' := DeleteDirectory(s, partitioned, address, parent, ChainsOf(t), DirsOf(t), pext);
  }

  lemma TreeBudget(s: Store, t: Tree)
    requires s.Valid() && TreeOk(s.nodes, t)
    ensures |s.nodes| <= s.blockCount && 2 * s.blockCount <= s.WalkLimit() * 4 % U32
  {
    TreeFits(s.nodes, t);
    assert Count(t) >= 1;
    hide TreeOk;
  }
}
