/** What a directory owns, on any volume: entries may repeat, lead nowhere, or name directories and files
    that belong elsewhere. A directory owns the subdirectories it lists whose parent field names it
    (kernel/fs/basefs/directory.c:519-525). */
module Ownership {
  import opened Basics
  import opened Volume
  import opened Directory
  import opened DirectoryOps
  import opened RecordChains

  /** The extents of each directory and file. */
  type Chains = map<Addr, seq<Addr>>

  function Ext(x: Chains, a: Addr): seq<Addr> {
    if a in x then x[a] else []
  }

  ghost function RefsOf(m: Nodes, x: Chains, a: Addr): seq<Addr> {
    Refs(m, a, Ext(x, a))
  }

  ghost function ChainOf(x: Chains, a: Addr): set<Addr> {
    Chain(a, Ext(x, a))
  }

  lemma ChainOfIs(x: Chains, a: Addr)
    ensures ChainOf(x, a) == Chain(a, Ext(x, a))
  {
  }

  lemma ChainHas(x: Chains, a: Addr)
    ensures a in ChainOf(x, a) && ChainOf(x, a) != {}
  {
    RootInChain(a, Ext(x, a));
  }

  lemma OtherExt(x: Chains, d: Addr, ext: seq<Addr>, a: Addr)
    requires a != d
    ensures Ext(x[d := ext], a) == Ext(x, a)
  {
  }

  /** d lists c, and c's parent field says so; the walk does not go back to its start or to d itself. */
  ghost predicate OwnsSub(m: Nodes, x: Chains, start: Addr, d: Addr, c: Addr) {
    c != start && c != d && c in m && m[c].DirNode? && m[c].parent == d && c in RefsOf(m, x, d)
  }

  lemma OwnsIs(m: Nodes, x: Chains, start: Addr, d: Addr, c: Addr)
    requires OwnsSub(m, x, start, d, c)
    ensures c != d && c in m && m[c].DirNode? && m[c].parent == d
  {
  }

  /** Some directory of order lists the file f. */
  ghost predicate Lists(m: Nodes, x: Chains, order: seq<Addr>, f: Addr) {
    f in m && m[f].FileNode? && exists d :: d in order && f in RefsOf(m, x, d)
  }

  /** order names the directories owned from start, each behind the one that owns it. */
  ghost predicate Owned(m: Nodes, x: Chains, start: Addr, order: seq<Addr>) {
    && order != [] && order[0] == start && Distinct(order)
    && (forall d :: d in order ==> d in m && m[d].DirNode?)
    && (forall i :: 0 < i < |order| ==> exists j :: 0 <= j < i && OwnsSub(m, x, start, order[j], order[i]))
    && (forall d, c :: d in order && OwnsSub(m, x, start, d, c) ==> c in order)
  }

  lemma OwnedDistinct(m: Nodes, x: Chains, start: Addr, order: seq<Addr>)
    requires Owned(m, x, start, order)
    ensures Distinct(order)
  {
  }

  lemma StartFirst(m: Nodes, x: Chains, start: Addr, order: seq<Addr>)
    requires Owned(m, x, start, order)
    ensures order != [] && order[0] == start
  {
  }

  lemma OwnedDirs(m: Nodes, x: Chains, start: Addr, order: seq<Addr>, f: Addr)
    requires Owned(m, x, start, order) && Lists(m, x, order, f)
    ensures f !in order
  {
  }

  lemma NotDir(m: Nodes, x: Chains, start: Addr, order: seq<Addr>, d: Addr, f: Addr)
    requires Owned(m, x, start, order) && d in order && Lists(m, x, order, f)
    ensures f != d
  {
  }

  /** What goes: an owned directory or a file one of them lists. */
  ghost predicate Goes(m: Nodes, x: Chains, order: seq<Addr>, a: Addr) {
    a in order || Lists(m, x, order, a)
  }

  lemma GoesIs(m: Nodes, x: Chains, order: seq<Addr>, a: Addr)
    ensures Goes(m, x, order, a) <==> a in order || Lists(m, x, order, a)
  {
    hide Lists;
  }

  lemma Going(m: Nodes, x: Chains, order: seq<Addr>, a: Addr)
    ensures a in order ==> Goes(m, x, order, a)
    ensures Lists(m, x, order, a) ==> Goes(m, x, order, a)
  {
    hide Lists;
  }

  lemma StartGoes(m: Nodes, x: Chains, start: Addr, order: seq<Addr>)
    requires Owned(m, x, start, order)
    ensures start in order && start in m && Goes(m, x, order, start)
  {
    assert order[0] in order;
    hide Lists, RefsOf;
  }

  /** The chains of what goes are as stored, and apart; references name directories, files or nothing. */
  ghost predicate Sound(m: Nodes, x: Chains, order: seq<Addr>) {
    && FS_NULL !in m
    && (forall d :: d in order ==> DirOk(m, d, Ext(x, d)))
    && (forall f :: Lists(m, x, order, f) ==> FileOk(m, f, Ext(x, f)))
    && (forall a, b :: Goes(m, x, order, a) && Goes(m, x, order, b) && a != b ==> ChainOf(x, a) !! ChainOf(x, b))
    && (forall d, r :: d in order && r in RefsOf(m, x, d) && r in m ==> m[r].DirNode? || m[r].FileNode?)
  }

  lemma ApartNow(m0: Nodes, x0: Chains, order: seq<Addr>, a: Addr, b: Addr, s: set<Addr>, t: set<Addr>)
    requires Sound(m0, x0, order) && Goes(m0, x0, order, a) && Goes(m0, x0, order, b) && a != b
    requires s <= ChainOf(x0, a) && t <= ChainOf(x0, b)
    ensures s !! t
  {
    hide Goes, ChainOf;
  }

  /** A directory or file inside a chain is the head of it. */
  lemma HeadOnly(m: Nodes, x: Chains, start: Addr, order: seq<Addr>, a: Addr, r: Addr)
    requires Sound(m, x, order) && Goes(m, x, order, a) && r in m && (m[r].DirNode? || m[r].FileNode?) && r in ChainOf(x, a)
    ensures r == a
  {
    if a in order {
      OnlyExtents(m, a, Ext(x, a), r);
    } else {
      OnlyFileExtents(m, a, Ext(x, a), r);
    }
  }

  /** Every allocation that goes. */
  ghost function Region(m: Nodes, x: Chains, order: seq<Addr>): set<Addr> {
    set a, b | a in m && Goes(m, x, order, a) && b in ChainOf(x, a) :: b
  }

  lemma RegionHas(m: Nodes, x: Chains, order: seq<Addr>, a: Addr)
    requires a in m && Goes(m, x, order, a)
    ensures ChainOf(x, a) <= Region(m, x, order)
  {
  }

  lemma RegionOf(m: Nodes, x: Chains, order: seq<Addr>, b: Addr) returns (a: Addr)
    requires b in Region(m, x, order)
    ensures a in m && Goes(m, x, order, a) && b in ChainOf(x, a)
  {
    hide ChainOf, Goes;
    a :| a in m && Goes(m, x, order, a) && b in ChainOf(x, a);
  }

  /** No directory that goes has an empty slot counted as an entry; such a slot cannot be removed. */
  ghost predicate NoGaps(m: Nodes, x: Chains, order: seq<Addr>) {
    forall d :: d in order ==> FS_NULL !in RefsOf(m, x, d)
  }

  lemma GapIs(m: Nodes, x: Chains, order: seq<Addr>, d: Addr)
    requires d in order && FS_NULL in RefsOf(m, x, d)
    ensures !NoGaps(m, x, order)
  {
  }

  // ---------------------------------------------------------------- how many steps it takes

  /** One for a directory and one for each entry it still lists. */
  ghost function Share(m: Nodes, x: Chains, d: Addr): nat {
    if d in m then |RefsOf(m, x, d)| + 1 else 0
  }

  lemma ShareIs(m: Nodes, x: Chains, d: Addr)
    ensures Share(m, x, d) == if d in m then |RefsOf(m, x, d)| + 1 else 0
  {
  }

  ghost function Work(m: Nodes, x: Chains, order: seq<Addr>): nat {
    if order == [] then 0 else Share(m, x, order[0]) + Work(m, x, order[1..])
  }

  lemma WorkIs(m: Nodes, x: Chains, order: seq<Addr>)
    requires order != []
    ensures Work(m, x, order) == Share(m, x, order[0]) + Work(m, x, order[1..])
  {
  }

  lemma {:induction false} NoWork(m: Nodes, x: Chains, order: seq<Addr>)
    requires forall d :: d in order ==> d !in m
    ensures Work(m, x, order) == 0
  {
    if order != [] { NoWork(m, x, order[1..]); }
  }

  lemma FirstAndRest(s: seq<Addr>)
    requires s != [] && Distinct(s)
    ensures s[0] !in s[1..] && forall y :: y in s[1..] ==> y in s
  {
    assert forall j :: 0 <= j < |s[1..]| ==> s[1..][j] == s[j + 1];
  }

  lemma LeftOut(s: seq<Addr>, i: nat)
    requires i < |s| && Distinct(s)
    ensures var w := s[..i] + s[i + 1..]; Distinct(w) && forall y :: y in w ==> y in s && y != s[i]
  {
    var w := s[..i] + s[i + 1..];
    assert forall j :: 0 <= j < |w| ==> w[j] == s[if j < i then j else j + 1];
  }

  lemma {:induction false} WorkSame(m: Nodes, x: Chains, m': Nodes, x': Chains, order: seq<Addr>)
    requires forall d :: d in order ==> Share(m', x', d) == Share(m, x, d)
    ensures Work(m', x', order) == Work(m, x, order)
  {
    if order != [] { WorkSame(m, x, m', x', order[1..]); }
  }

  /** Only one directory's share has changed. */
  lemma {:induction false} WorkChanges(m: Nodes, x: Chains, m': Nodes, x': Chains, order: seq<Addr>, a: Addr)
    requires Distinct(order) && a in order
    requires forall d :: d in order && d != a ==> Share(m', x', d) == Share(m, x, d)
    ensures Work(m', x', order) + Share(m, x, a) == Work(m, x, order) + Share(m', x', a)
  {
    hide Share;
    var rest := order[1..];
    assert order == [order[0]] + rest;
    assert Distinct(rest) && order[0] !in rest by { assert forall j :: 0 <= j < |rest| ==> rest[j] == order[j + 1]; }
    if order[0] == a {
      WorkSame(m, x, m', x', rest);
    } else {
      WorkChanges(m, x, m', x', rest, a);
    }
  }

  /** At most two directories' shares have changed. */
  lemma {:induction false} WorkChangesTwice(m: Nodes, x: Chains, m': Nodes, x': Chains, order: seq<Addr>, a: Addr,
      b: Addr)
    requires Distinct(order) && a in order && b in order && a != b
    requires forall d :: d in order && d != a && d != b ==> Share(m', x', d) == Share(m, x, d)
    ensures Work(m', x', order) + Share(m, x, a) + Share(m, x, b) == Work(m, x, order) + Share(m', x', a) + Share(m', x', b)
  {
    hide Share;
    var rest := order[1..];
    assert order == [order[0]] + rest;
    assert Distinct(rest) && order[0] !in rest by { assert forall j :: 0 <= j < |rest| ==> rest[j] == order[j + 1]; }
    if order[0] == a {
      WorkChanges(m, x, m', x', rest, b);
    } else if order[0] == b {
      WorkChanges(m, x, m', x', rest, a);
    } else {
      WorkChangesTwice(m, x, m', x', rest, a, b);
    }
  }

  /** The shares of the directories on a trail are all there. */
  lemma {:induction false} WorkCovers(m: Nodes, x: Chains, order: seq<Addr>, path: seq<Addr>)
    requires Distinct(path) && forall p :: p in path ==> p in order && p in m
    ensures Work(m, x, order) >= |path|
  {
    if path != [] {
      assert path[0] in order;
      var rest, a := order[1..], order[0];
      assert order == [a] + rest;
      if a in path {
        var i :| 0 <= i < |path| && path[i] == a;
        LeftOut(path, i);
        WorkCovers(m, x, rest, path[..i] + path[i + 1..]);
      } else {
        WorkCovers(m, x, rest, path);
      }
    }
  }

  // ---------------------------------------------------------------- every directory has such an order

  /** As Owned, but more may be owned. */
  ghost predicate Reached(m: Nodes, x: Chains, start: Addr, part: seq<Addr>) {
    && part != [] && part[0] == start && Distinct(part)
    && (forall d :: d in part ==> d in m && m[d].DirNode?)
    && (forall i :: 0 < i < |part| ==> exists j :: 0 <= j < i && OwnsSub(m, x, start, part[j], part[i]))
  }

  lemma OneMore(m: Nodes, x: Chains, start: Addr, part: seq<Addr>, d: Addr, c: Addr)
    requires Reached(m, x, start, part) && d in part && OwnsSub(m, x, start, d, c) && c !in part
    ensures Reached(m, x, start, part + [c])
  {
    OwnsIs(m, x, start, d, c);
    var w := part + [c];
    assert w[0] == start && Distinct(w);
    forall i | 0 < i < |w| ensures exists j :: 0 <= j < i && OwnsSub(m, x, start, w[j], w[i]) {
      OwnerIsEarlier(m, x, start, part, d, c, i);
    }
    hide OwnsSub, Distinct;
  }

  lemma OwnerIsEarlier(m: Nodes, x: Chains, start: Addr, part: seq<Addr>, d: Addr, c: Addr, i: nat)
    requires d in part && OwnsSub(m, x, start, d, c) && 0 < i <= |part|
    requires forall i :: 0 < i < |part| ==> exists j :: 0 <= j < i && OwnsSub(m, x, start, part[j], part[i])
    ensures exists j :: 0 <= j < i && OwnsSub(m, x, start, (part + [c])[j], (part + [c])[i])
  {
    hide OwnsSub;
    var w := part + [c];
    var j: nat;
    if i < |part| {
      j :| 0 <= j < i && OwnsSub(m, x, start, part[j], part[i]);
    } else {
      j :| 0 <= j < i && part[j] == d;
    }
    assert w[j] == part[j] && w[i] == if i < |part| then part[i] else c;
    assert OwnsSub(m, x, start, w[j], w[i]);
  }

  lemma {:induction false} Close(m: Nodes, x: Chains, start: Addr, part: seq<Addr>) returns (order: seq<Addr>)
    requires Reached(m, x, start, part)
    ensures Owned(m, x, start, order)
    decreases |m| - |part|
  {
    hide OwnsSub;
    DistinctFits(part, m);
    if d, c :| d in part && OwnsSub(m, x, start, d, c) && c !in part {
      OneMore(m, x, start, part, d, c);
      DistinctFits(part + [c], m);
      order := Close(m, x, start, part + [c]);
    } else {
      order := part;
    }
  }

  /** What a directory owns can always be listed that way. */
  lemma OrderExists(m: Nodes, x: Chains, start: Addr)
    requires start in m && m[start].DirNode?
    ensures exists order :: Owned(m, x, start, order)
  {
    var order := Close(m, x, start, [start]);
  }

  // ---------------------------------------------------------------- the steps can run out

  /** The walk below start does not finish on a volume of this many blocks. */
  ghost predicate RunsOut(m: Nodes, x: Chains, start: Addr, order: seq<Addr>, blocks: nat) {
    && Owned(m, x, start, order) && Sound(m, x, order) && NoGaps(m, x, order)
    && |m| < blocks && Work(m, x, order) > 4 * blocks
  }

  function DeadEntries(): (s: seq<Addr>)
    ensures |s| == 24
  {
    seq<Addr>(24, i => 1000)
  }

  /** One directory full of dead entries is more than a volume of two blocks allows for. */
  lemma WalkCanRunOut()
    ensures exists m, x, start, order :: RunsOut(m, x, start, order, 2)
  {
    var m: Nodes := map[100 := DirNode(FS_NULL, FS_NULL, DeadEntries(), 24)];
    var x: Chains := map[];
    ShortDir(m, 100);
    assert DeadEntries()[..24] == DeadEntries();
    assert forall r :: r in DeadEntries() ==> r == 1000;
    assert m.Keys == {100} && |m| == |m.Keys|;
    FullOfDead(m, x, 100, 1000);
    assert RunsOut(m, x, 100, [100], 2);
  }

  lemma FullOfDead(m: Nodes, x: Chains, d: Addr, dead: Addr)
    requires d in m && m[d].DirNode? && DirOk(m, d, []) && Ext(x, d) == [] && FS_NULL !in m && dead !in m && dead != FS_NULL
    requires forall r :: r in Refs(m, d, []) ==> r == dead
    ensures Owned(m, x, d, [d]) && Sound(m, x, [d]) && NoGaps(m, x, [d])
    ensures Work(m, x, [d]) == |Refs(m, d, [])| + 1
  {
    hide DirOk, Refs;
    assert [d][1..] == [];
    assert forall c :: !OwnsSub(m, x, d, d, c);
    assert forall f :: !Lists(m, x, [d], f);
  }
}
