/** A directory with everything below it, as a tree of addresses. */
module Subtree {
  import opened Basics
  import opened Volume
  import opened Directory
  import opened DirectoryOps
  import opened RecordChains

  /** A directory or a file with its extents; a directory also has the trees of its entries. */
  datatype Tree =
    | Dir(addr: Addr, ext: seq<Addr>, kids: Forest)
    | File(addr: Addr, ext: seq<Addr>)

  datatype Forest = Nil | Snoc(init: Forest, last: Tree)

  ghost function Roots(f: Forest): seq<Addr> {
    match f
    case Nil => []
    case Snoc(init, last) => Roots(init) + [last.addr]
  }

  /** Every allocation of a tree. */
  ghost function Owns(t: Tree): set<Addr> {
    match t
    case Dir(a, ext, kids) => Chain(a, ext) + OwnsAll(kids)
    case File(a, ext) => Chain(a, ext)
  }

  ghost function OwnsAll(f: Forest): set<Addr> {
    match f
    case Nil => {}
    case Snoc(init, last) => OwnsAll(init) + Owns(last)
  }

  /** The volume holds exactly this tree at its root: entries in order, parent fields right, and no
      allocation shared. */
  ghost predicate TreeOk(m: Nodes, t: Tree)
    decreases t
  {
    match t
    case Dir(a, ext, kids) =>
      DirOk(m, a, ext) && Refs(m, a, ext) == Roots(kids) && ForestOk(m, a, kids) && Chain(a, ext) !! OwnsAll(kids)
    case File(a, ext) => FileOk(m, a, ext)
  }

  ghost predicate ForestOk(m: Nodes, d: Addr, f: Forest)
    decreases f
  {
    match f
    case Nil => true
    case Snoc(init, last) =>
      && ForestOk(m, d, init) && TreeOk(m, last) && Owns(last) !! OwnsAll(init)
      && (last.Dir? ==> last.addr in m && m[last.addr].DirNode? && m[last.addr].parent == d)
  }

  // ---------------------------------------------------------------- frames

  lemma {:induction false} TreeFrame(m: Nodes, m': Nodes, t: Tree)
    requires TreeOk(m, t) && SameOn(m, m', Owns(t)) && FS_NULL !in m'
    ensures TreeOk(m', t)
    decreases t
  {
    hide DirOk, FileOk, Chain, Refs;
    match t
    case Dir(a, ext, kids) => DirFrame(m, m', a, ext); ForestFrame(m, m', a, kids);
    case File(a, ext) => FileFrame(m, m', a, ext);
  }

  lemma {:induction false} ForestFrame(m: Nodes, m': Nodes, d: Addr, f: Forest)
    requires ForestOk(m, d, f) && SameOn(m, m', OwnsAll(f)) && FS_NULL !in m'
    ensures ForestOk(m', d, f)
    decreases f
  {
    match f
    case Nil =>
    case Snoc(init, last) =>
      ForestFrame(m, m', d, init);
      TreeFrame(m, m', last);
      RootOwned(last);
      hide TreeOk, Owns;
  }

  lemma RootOwned(t: Tree)
    ensures t.addr in Owns(t)
  {
    assert t.addr in Chain(t.addr, t.ext);
  }

  lemma {:induction false} OwnsHeld(m: Nodes, t: Tree)
    requires TreeOk(m, t)
    ensures Owns(t) <= m.Keys
    decreases t
  {
    match t
    case Dir(a, ext, kids) =>
      ForestHeld(m, a, kids);
      forall x | x in Chain(a, ext) ensures x in m {
        if x != a {
          var i :| 0 <= i < |ext| && ext[i] == x;
          assert ExtentOk(m, a, ext, i);
        }
      }
    case File(a, ext) =>
      forall x | x in Chain(a, ext) ensures x in m {
        if x != a {
          var i :| 0 <= i < |ext| && ext[i] == x;
          assert FileExtentOk(m, ext, i);
        }
      }
  }

  lemma {:induction false} ForestHeld(m: Nodes, d: Addr, f: Forest)
    requires ForestOk(m, d, f)
    ensures OwnsAll(f) <= m.Keys
    decreases f
  {
    match f
    case Nil =>
    case Snoc(init, last) => ForestHeld(m, d, init); OwnsHeld(m, last);
  }

  // ---------------------------------------------------------------- how many steps a tree takes

  ghost function Count(t: Tree): nat {
    match t
    case Dir(_, _, kids) => 1 + CountAll(kids)
    case File(_, _) => 1
  }

  ghost function CountAll(f: Forest): nat {
    match f
    case Nil => 0
    case Snoc(init, last) => CountAll(init) + Count(last)
  }

  lemma DisjointSize(a: set<Addr>, b: set<Addr>)
    requires a !! b
    ensures |a + b| == |a| + |b|
  {
  }

  lemma ChainSize(a: Addr, ext: seq<Addr>)
    ensures |Chain(a, ext)| >= 1
  {
    assert a in Chain(a, ext);
  }

  lemma {:induction false} CountOwned(m: Nodes, t: Tree)
    requires TreeOk(m, t)
    ensures Count(t) <= |Owns(t)|
    decreases t
  {
    match t
    case Dir(a, ext, kids) =>
      CountOwnedAll(m, a, kids);
      ChainSize(a, ext);
      DisjointSize(Chain(a, ext), OwnsAll(kids));
    case File(a, ext) => ChainSize(a, ext);
  }

  lemma {:induction false} CountOwnedAll(m: Nodes, d: Addr, f: Forest)
    requires ForestOk(m, d, f)
    ensures CountAll(f) <= |OwnsAll(f)|
    decreases f
  {
    match f
    case Nil =>
    case Snoc(init, last) =>
      CountOwnedAll(m, d, init);
      CountOwned(m, last);
      DisjointSize(OwnsAll(init), Owns(last));
  }

  // ---------------------------------------------------------------- an instance

  ghost predicate HoldsTree(m: Nodes, t: Tree, n: nat) {
    TreeOk(m, t) && t.Dir? && Count(t) == n
  }

  /** A directory with one entry. */
  lemma OnlyKid(m: Nodes, d: Addr, kid: Tree)
    requires DirOk(m, d, []) && Refs(m, d, []) == [kid.addr] && TreeOk(m, kid) && d !in Owns(kid)
    requires kid.Dir? ==> kid.addr in m && m[kid.addr].DirNode? && m[kid.addr].parent == d
    ensures var t := Dir(d, [], Snoc(Nil, kid)); TreeOk(m, t) && Owns(t) == {d} + Owns(kid) && Count(t) == 1 + Count(kid)
  {
    var kids := Snoc(Nil, kid);
    assert Chain(d, []) == {d};
    assert OwnsAll(Nil) == {} && OwnsAll(kids) == Owns(kid) && Roots(Nil) == [] && Roots(kids) == [kid.addr];
    assert ForestOk(m, d, Nil) && ForestOk(m, d, kids) && CountAll(Nil) == 0 && CountAll(kids) == Count(kid);
  }

  lemma OneFile(m: Nodes, f: Addr, e: Addr)
    requires f in m && m[f] == FileNode(e) && e in m && m[e] == FileExtent(FS_NULL) && f != e && FS_NULL !in m
    ensures TreeOk(m, File(f, [e])) && Owns(File(f, [e])) == {f, e} && Count(File(f, [e])) == 1
  {
    assert [f] + [e] == [f, e];
    assert FileExtentOk(m, [e], 0);
  }

  lemma ThreeLevels(m: Nodes, top: Addr, sub: Addr, f: Addr, e: Addr)
    requires DirOk(m, top, []) && Refs(m, top, []) == [sub] && DirOk(m, sub, []) && Refs(m, sub, []) == [f]
    requires TreeOk(m, File(f, [e])) && Owns(File(f, [e])) == {f, e} && Count(File(f, [e])) == 1
    requires sub in m && m[sub].DirNode? && m[sub].parent == top && Distinct([top, sub, f, e])
    ensures HoldsTree(m, Dir(top, [], Snoc(Nil, Dir(sub, [], Snoc(Nil, File(f, [e]))))), 3)
  {
    hide TreeOk, DirOk, Refs, Owns, Count;
    var all := [top, sub, f, e];
    assert all[0] != all[1] && all[0] != all[2] && all[0] != all[3] && all[1] != all[2] && all[1] != all[3];
    OnlyKid(m, sub, File(f, [e]));
    OnlyKid(m, top, Dir(sub, [], Snoc(Nil, File(f, [e]))));
  }

  /** A directory with a subdirectory that holds a file with one extent. */
  function Example(): Nodes {
    map[100 := DirNode(FS_NULL, FS_NULL, [200], 1), 200 := DirNode(100, FS_NULL, [300], 1),
        300 := FileNode(400), 400 := FileExtent(FS_NULL)]
  }

  lemma ExampleRecords()
    ensures var m := Example();
            && FS_NULL !in m && 100 in m && m[100] == DirNode(FS_NULL, FS_NULL, [200], 1)
            && 200 in m && m[200] == DirNode(100, FS_NULL, [300], 1)
            && 300 in m && m[300] == FileNode(400) && 400 in m && m[400] == FileExtent(FS_NULL)
  {
  }

  lemma TreesExist()
    ensures exists m, t :: HoldsTree(m, t, 3)
  {
    ExampleRecords();
    hide Example, TreeOk, DirOk, Refs, Owns, Count, HoldsTree;
    ShortDir(Example(), 100);
    ShortDir(Example(), 200);
    OneFile(Example(), 300, 400);
    ThreeLevels(Example(), 100, 200, 300, 400);
  }
}
