/** Where entries do not repeat and parent fields are right, a directory with everything below it is a
    tree: what it owns is its subdirectories, and the walk's steps always suffice. */
module TreeOwned {
  import opened Basics
  import opened Volume
  import opened Directory
  import opened DirectoryOps
  import opened RecordChains
  import opened Subtree
  import opened Ownership

  /** The directories of a tree, each before those below it. */
  ghost function DirsOf(t: Tree): seq<Addr> {
    match t
    case Dir(a, _, kids) => [a] + DirsOfAll(kids)
    case File(_, _) => []
  }

  ghost function DirsOfAll(f: Forest): seq<Addr> {
    match f
    case Nil => []
    case Snoc(init, last) => DirsOfAll(init) + DirsOf(last)
  }

  /** Directories and files. */
  ghost function Heads(t: Tree): set<Addr> {
    match t
    case Dir(a, _, kids) => {a} + HeadsAll(kids)
    case File(a, _) => {a}
  }

  ghost function HeadsAll(f: Forest): set<Addr> {
    match f
    case Nil => {}
    case Snoc(init, last) => HeadsAll(init) + Heads(last)
  }

  /** x holds the extents of everything in the tree. */
  ghost predicate Holds(x: Chains, t: Tree) {
    t.addr in x && x[t.addr] == t.ext && (t.Dir? ==> HoldsAll(x, t.kids))
  }

  ghost predicate HoldsAll(x: Chains, f: Forest) {
    f.Snoc? ==> HoldsAll(x, f.init) && Holds(x, f.last)
  }

  ghost function ChainsOf(t: Tree): Chains {
    match t
    case Dir(a, ext, kids) => ChainsOfAll(kids)[a := ext]
    case File(a, ext) => map[a := ext]
  }

  ghost function ChainsOfAll(f: Forest): Chains {
    match f
    case Nil => map[]
    case Snoc(init, last) => ChainsOfAll(init) + ChainsOf(last)
  }

  lemma {:induction false} KeysAreHeads(t: Tree)
    ensures ChainsOf(t).Keys == Heads(t) && Heads(t) <= Owns(t)
    decreases t
  {
    RootOwned(t);
    match t
    case Dir(a, ext, kids) => KeysAreHeadsAll(kids);
    case File(a, ext) =>
  }

  lemma {:induction false} KeysAreHeadsAll(f: Forest)
    ensures ChainsOfAll(f).Keys == HeadsAll(f) && HeadsAll(f) <= OwnsAll(f)
    decreases f
  {
    match f
    case Nil =>
    case Snoc(init, last) => KeysAreHeadsAll(init); KeysAreHeads(last);
  }

  /** Only what x says about the tree's own addresses matters. */
  lemma {:induction false} HoldsFrame(x: Chains, y: Chains, t: Tree)
    requires Holds(x, t) && forall a :: a in Heads(t) ==> a in y && a in x && y[a] == x[a]
    ensures Holds(y, t)
    decreases t
  {
    if t.Dir? { HoldsFrameAll(x, y, t.kids); }
  }

  lemma {:induction false} HoldsFrameAll(x: Chains, y: Chains, f: Forest)
    requires HoldsAll(x, f) && forall a :: a in HeadsAll(f) ==> a in y && a in x && y[a] == x[a]
    ensures HoldsAll(y, f)
    decreases f
  {
    if f.Snoc? {
      HoldsFrameAll(x, y, f.init);
      HoldsFrame(x, y, f.last);
    }
  }

  lemma {:induction false} ChainsHold(m: Nodes, t: Tree)
    requires TreeOk(m, t)
    ensures Holds(ChainsOf(t), t)
    decreases t
  {
    if t.Dir? {
      ChainsHoldAll(m, t.addr, t.kids);
      KeysAreHeadsAll(t.kids);
      RootInChain(t.addr, t.ext);
      HoldsFrameAll(ChainsOfAll(t.kids), ChainsOf(t), t.kids);
    }
  }

  lemma {:induction false} ChainsHoldAll(m: Nodes, d: Addr, f: Forest)
    requires ForestOk(m, d, f)
    ensures HoldsAll(ChainsOfAll(f), f)
    decreases f
  {
    if f.Snoc? {
      ChainsHoldAll(m, d, f.init);
      ChainsHold(m, f.last);
      KeysAreHeadsAll(f.init);
      KeysAreHeads(f.last);
      HoldsFrameAll(ChainsOfAll(f.init), ChainsOfAll(f), f.init);
      HoldsFrame(ChainsOf(f.last), ChainsOfAll(f), f.last);
    }
  }

  // ---------------------------------------------------------------- one directory of a tree

  /** A directory of the tree lists the roots of trees of its own, which are in the tree with all they
      hold; those that are directories name it in their parent field. */
  lemma {:induction false} EachDir(m: Nodes, x: Chains, t: Tree, d: Addr) returns (kids: Forest)
    requires TreeOk(m, t) && Holds(x, t) && d in DirsOf(t)
    ensures d in m && m[d].DirNode? && d in Heads(t) && DirOk(m, d, Ext(x, d)) && RefsOf(m, x, d) == Roots(kids)
    ensures ForestOk(m, d, kids) && HoldsAll(x, kids) && d !in HeadsAll(kids)
    ensures HeadsAll(kids) <= Heads(t) && forall c :: c in DirsOfAll(kids) ==> c in DirsOf(t)
    decreases t
  {
    if d == t.addr {
      kids := t.kids;
      DirOkHas(m, d, t.ext);
      KeysAreHeadsAll(kids);
      RootInChain(d, t.ext);
      hide DirOk, Refs;
    } else {
      kids := EachDirAll(m, x, t.addr, t.kids, d);
    }
  }

  lemma {:induction false} EachDirAll(m: Nodes, x: Chains, up: Addr, f: Forest, d: Addr) returns (kids: Forest)
    requires ForestOk(m, up, f) && HoldsAll(x, f) && d in DirsOfAll(f)
    ensures d in m && m[d].DirNode? && d in HeadsAll(f) && DirOk(m, d, Ext(x, d)) && RefsOf(m, x, d) == Roots(kids)
    ensures ForestOk(m, d, kids) && HoldsAll(x, kids) && d !in HeadsAll(kids)
    ensures HeadsAll(kids) <= HeadsAll(f) && forall c :: c in DirsOfAll(kids) ==> c in DirsOfAll(f)
    decreases f
  {
    if d in DirsOf(f.last) {
      kids := EachDir(m, x, f.last, d);
    } else {
      kids := EachDirAll(m, x, up, f.init, d);
    }
    hide DirOk, RefsOf, ForestOk, HoldsAll;
  }

  /** One entry of such a directory. */
  lemma {:induction false} EachKid(m: Nodes, x: Chains, d: Addr, f: Forest, r: Addr)
    requires ForestOk(m, d, f) && HoldsAll(x, f) && r in Roots(f)
    ensures r in HeadsAll(f) && r in m && (m[r].DirNode? || m[r].FileNode?)
    ensures m[r].DirNode? ==> m[r].parent == d && r in DirsOfAll(f)
    ensures m[r].FileNode? ==> FileOk(m, r, Ext(x, r))
    decreases f
  {
    if r == f.last.addr {
      if f.last.File? { FileRoot(m, x, f.last); }
    } else {
      EachKid(m, x, d, f.init, r);
    }
    hide FileOk, DirOk;
  }

  lemma FileRoot(m: Nodes, x: Chains, t: Tree)
    requires t.File? && TreeOk(m, t) && Holds(x, t)
    ensures t.addr in m && m[t.addr].FileNode? && FileOk(m, t.addr, Ext(x, t.addr))
  {
  }

  // ---------------------------------------------------------------- a tree is what its root owns

  lemma {:induction false} DirsAreHeads(t: Tree)
    ensures forall d :: d in DirsOf(t) ==> d in Heads(t)
    decreases t
  {
    if t.Dir? { DirsAreHeadsAll(t.kids); }
  }

  lemma {:induction false} DirsAreHeadsAll(f: Forest)
    ensures forall d :: d in DirsOfAll(f) ==> d in HeadsAll(f)
    decreases f
  {
    if f.Snoc? {
      DirsAreHeadsAll(f.init);
      DirsAreHeads(f.last);
    }
  }

  lemma JoinDistinct(a: seq<Addr>, b: seq<Addr>)
    requires Distinct(a) && Distinct(b) && forall y :: y in a ==> y !in b
    ensures Distinct(a + b)
  {
    var w := a + b;
    forall i, j | 0 <= i < j < |w| ensures w[i] != w[j] {
      if i < |a| <= j { assert w[i] == a[i] && a[i] in a && w[j] == b[j - |a|] && b[j - |a|] in b; }
    }
  }

  lemma {:induction false} DirsDistinct(m: Nodes, t: Tree)
    requires TreeOk(m, t)
    ensures Distinct(DirsOf(t))
    decreases t
  {
    if t.Dir? {
      DirsDistinctAll(m, t.addr, t.kids);
      DirsAreHeadsAll(t.kids);
      KeysAreHeadsAll(t.kids);
      RootInChain(t.addr, t.ext);
      JoinDistinct([t.addr], DirsOfAll(t.kids));
    }
  }

  lemma {:induction false} DirsDistinctAll(m: Nodes, up: Addr, f: Forest)
    requires ForestOk(m, up, f)
    ensures Distinct(DirsOfAll(f))
    decreases f
  {
    if f.Snoc? {
      DirsDistinctAll(m, up, f.init);
      DirsDistinct(m, f.last);
      DirsAreHeadsAll(f.init);
      DirsAreHeads(f.last);
      KeysAreHeadsAll(f.init);
      KeysAreHeads(f.last);
      JoinDistinct(DirsOfAll(f.init), DirsOf(f.last));
    }
  }

  /** Something in front of position i owns what stands there. */
  ghost predicate OwnerBefore(m: Nodes, x: Chains, start: Addr, s: seq<Addr>, i: nat)
    requires i < |s|
  {
    exists j :: 0 <= j < i && OwnsSub(m, x, start, s[j], s[i])
  }

  lemma OwnerShift(m: Nodes, x: Chains, start: Addr, a: seq<Addr>, s: seq<Addr>, b: seq<Addr>, i: nat)
    requires i < |s| && OwnerBefore(m, x, start, s, i)
    ensures OwnerBefore(m, x, start, a + s + b, |a| + i)
  {
    hide OwnsSub;
    var j :| 0 <= j < i && OwnsSub(m, x, start, s[j], s[i]);
    var w := a + s + b;
    assert w[|a| + j] == s[j] && w[|a| + i] == s[i];
    assert OwnsSub(m, x, start, w[|a| + j], w[|a| + i]);
  }

  lemma {:induction false} Owners(m: Nodes, x: Chains, start: Addr, t: Tree, i: nat)
    requires TreeOk(m, t) && Holds(x, t) && 0 < i < |DirsOf(t)| && (t.Dir? ==> start !in DirsOfAll(t.kids))
    ensures OwnerBefore(m, x, start, DirsOf(t), i)
    decreases t
  {
    RootNotBelow(m, t);
    hide OwnsSub, DirOk, Refs;
    assert RefsOf(m, x, t.addr) == Roots(t.kids);
    OwnersAll(m, x, start, t.addr, t.kids, i - 1);
  }

  lemma RootNotBelow(m: Nodes, t: Tree)
    requires TreeOk(m, t) && t.Dir?
    ensures t.addr !in DirsOfAll(t.kids)
  {
    DirsAreHeadsAll(t.kids);
    KeysAreHeadsAll(t.kids);
    RootInChain(t.addr, t.ext);
    hide DirOk, Refs;
  }

  /** In a forest the owner may also be the directory that lists its roots. */
  lemma {:induction false} OwnersAll(m: Nodes, x: Chains, start: Addr, up: Addr, f: Forest, i: nat)
    requires ForestOk(m, up, f) && HoldsAll(x, f) && i < |DirsOfAll(f)| && start !in DirsOfAll(f) && up !in DirsOfAll(f)
    requires forall r :: r in Roots(f) ==> r in RefsOf(m, x, up)
    ensures OwnerBefore(m, x, start, [up] + DirsOfAll(f), i + 1)
    decreases f
  {
    hide *;
    ForestParts(m, up, x, f);
    var before, own := DirsOfAll(f.init), DirsOf(f.last);
    if i < |before| {
      OwnersAll(m, x, start, up, f.init, i);
      OwnerShift(m, x, start, [], [up] + before, own, i + 1);
      assert [] + ([up] + before) + own == [up] + DirsOfAll(f);
    } else if i == |before| {
      RootOwner(m, x, start, up, f);
    } else {
      Owners(m, x, start, f.last, i - |before|);
      OwnerShift(m, x, start, [up] + before, own, [], i - |before|);
      assert [up] + before + own + [] == [up] + DirsOfAll(f);
    }
  }

  lemma ForestParts(m: Nodes, up: Addr, x: Chains, f: Forest)
    requires ForestOk(m, up, f) && HoldsAll(x, f) && DirsOfAll(f) != []
    ensures f.Snoc? && ForestOk(m, up, f.init) && HoldsAll(x, f.init) && TreeOk(m, f.last) && Holds(x, f.last)
    ensures DirsOfAll(f) == DirsOfAll(f.init) + DirsOf(f.last)
    ensures forall y :: y in DirsOfAll(f.init) ==> y in DirsOfAll(f)
    ensures forall y :: y in DirsOf(f.last) ==> y in DirsOfAll(f)
    ensures f.last.Dir? ==> forall y :: y in DirsOfAll(f.last.kids) ==> y in DirsOf(f.last)
    ensures f.last.File? ==> DirsOf(f.last) == []
    ensures forall r :: r in Roots(f.init) ==> r in Roots(f)
  {
    hide TreeOk, Holds;
  }

  /** The last root is listed by the directory above. */
  lemma RootOwner(m: Nodes, x: Chains, start: Addr, up: Addr, f: Forest)
    requires ForestOk(m, up, f) && f.Snoc? && f.last.Dir? && start !in DirsOfAll(f) && up !in DirsOfAll(f)
    requires forall r :: r in Roots(f) ==> r in RefsOf(m, x, up)
    ensures |DirsOfAll(f.init)| < |DirsOfAll(f)| && OwnerBefore(m, x, start, [up] + DirsOfAll(f), |DirsOfAll(f.init)| + 1)
  {
    var own, w, i := DirsOf(f.last), [up] + DirsOfAll(f), |DirsOfAll(f.init)|;
    assert own[0] == f.last.addr && DirsOfAll(f)[i] == own[0] && w[i + 1] == own[0] && own[0] in DirsOfAll(f);
    assert Roots(f) == Roots(f.init) + [f.last.addr];
    assert f.last.addr in Roots(f);
    hide TreeOk, RefsOf;
    assert OwnsSub(m, x, start, w[0], w[i + 1]);
  }

  lemma TreeOwned(m: Nodes, x: Chains, t: Tree)
    requires TreeOk(m, t) && t.Dir? && Holds(x, t)
    ensures Owned(m, x, t.addr, DirsOf(t))
  {
    var order, start := DirsOf(t), t.addr;
    DirsDistinct(m, t);
    assert order[0] == start && order[1..] == DirsOfAll(t.kids);
    assert start !in DirsOfAll(t.kids) by { assert forall j :: 0 <= j < |order[1..]| ==> order[1..][j] == order[j + 1]; }
    forall d | d in order ensures d in m && m[d].DirNode? { var _ := EachDir(m, x, t, d); }
    forall i | 0 < i < |order| ensures exists j :: 0 <= j < i && OwnsSub(m, x, start, order[j], order[i]) {
      Owners(m, x, start, t, i);
    }
    forall d, c | d in order && OwnsSub(m, x, start, d, c) ensures c in order {
      var kids := EachDir(m, x, t, d);
      EachKid(m, x, d, kids, c);
    }
    hide TreeOk, OwnsSub, Holds, DirsOf, DirsOfAll;
  }

  // ---------------------------------------------------------------- nothing is shared in a tree

  lemma {:induction false} HeadChain(x: Chains, t: Tree, a: Addr)
    requires Holds(x, t) && a in Heads(t)
    ensures ChainOf(x, a) <= Owns(t)
    decreases t
  {
    if a != t.addr { HeadChainAll(x, t.kids, a); }
  }

  lemma {:induction false} HeadChainAll(x: Chains, f: Forest, a: Addr)
    requires HoldsAll(x, f) && a in HeadsAll(f)
    ensures ChainOf(x, a) <= OwnsAll(f)
    decreases f
  {
    if a in Heads(f.last) { HeadChain(x, f.last, a); } else { HeadChainAll(x, f.init, a); }
  }

  lemma {:induction false} HeadsApart(m: Nodes, x: Chains, t: Tree, a: Addr, b: Addr)
    requires TreeOk(m, t) && Holds(x, t) && a in Heads(t) && b in Heads(t) && a != b
    ensures ChainOf(x, a) !! ChainOf(x, b)
    decreases t
  {
    hide DirOk, Refs, Chain, FileOk;
    if a == t.addr {
      HeadChainAll(x, t.kids, b);
    } else if b == t.addr {
      HeadChainAll(x, t.kids, a);
    } else {
      HeadsApartAll(m, x, t.addr, t.kids, a, b);
    }
  }

  lemma {:induction false} HeadsApartAll(m: Nodes, x: Chains, up: Addr, f: Forest, a: Addr, b: Addr)
    requires ForestOk(m, up, f) && HoldsAll(x, f) && a in HeadsAll(f) && b in HeadsAll(f) && a != b
    ensures ChainOf(x, a) !! ChainOf(x, b)
    decreases f
  {
    hide ChainOf, TreeOk, Holds, Heads, Owns;
    if a in Heads(f.last) {
      HeadChain(x, f.last, a);
      if b in Heads(f.last) { HeadsApart(m, x, f.last, a, b); } else { HeadChainAll(x, f.init, b); }
    } else {
      HeadChainAll(x, f.init, a);
      if b in Heads(f.last) { HeadChain(x, f.last, b); } else { HeadsApartAll(m, x, up, f.init, a, b); }
    }
  }

  lemma GoesIsHead(m: Nodes, x: Chains, t: Tree, a: Addr)
    requires TreeOk(m, t) && Holds(x, t) && Goes(m, x, DirsOf(t), a)
    ensures a in Heads(t) && (a !in DirsOf(t) ==> FileOk(m, a, Ext(x, a)))
  {
    DirsAreHeads(t);
    if a !in DirsOf(t) {
      var d :| d in DirsOf(t) && a in RefsOf(m, x, d);
      var kids := EachDir(m, x, t, d);
      EachKid(m, x, d, kids, a);
    }
    hide TreeOk, Holds, Heads, DirsOf, FileOk;
  }

  lemma TreeSound(m: Nodes, x: Chains, t: Tree)
    requires TreeOk(m, t) && t.Dir? && Holds(x, t)
    ensures Sound(m, x, DirsOf(t)) && NoGaps(m, x, DirsOf(t))
  {
    var order := DirsOf(t);
    AtHeader(m, t.addr, t.ext);
    hide TreeOk, Holds, DirsOf, DirOk, FileOk, RefsOf, ChainOf, Goes;
    forall d | d in order ensures DirOk(m, d, Ext(x, d)) { var _ := EachDir(m, x, t, d); }
    forall f | Lists(m, x, order, f) ensures FileOk(m, f, Ext(x, f)) { ListedFile(m, x, t, f); }
    forall a, b | Goes(m, x, order, a) && Goes(m, x, order, b) && a != b ensures ChainOf(x, a) !! ChainOf(x, b) {
      GoesIsHead(m, x, t, a);
      GoesIsHead(m, x, t, b);
      HeadsApart(m, x, t, a, b);
    }
    forall d, r | d in order && r in RefsOf(m, x, d) ensures r in m && (m[r].DirNode? || m[r].FileNode?) {
      var kids := EachDir(m, x, t, d);
      EachKid(m, x, d, kids, r);
    }
    hide Lists;
  }

  lemma ListedFile(m: Nodes, x: Chains, t: Tree, f: Addr)
    requires TreeOk(m, t) && Holds(x, t) && Lists(m, x, DirsOf(t), f)
    ensures FileOk(m, f, Ext(x, f))
  {
    var d :| d in DirsOf(t) && f in RefsOf(m, x, d);
    var kids := EachDir(m, x, t, d);
    EachKid(m, x, d, kids, f);
    hide TreeOk, FileOk, RefsOf;
  }

  /** Every allocation of the tree is in the chain of a directory or file in it. */
  lemma {:induction false} OwnerOf(m: Nodes, x: Chains, t: Tree, b: Addr) returns (a: Addr)
    requires TreeOk(m, t) && Holds(x, t) && b in Owns(t)
    ensures b in ChainOf(x, a) && a in m
    ensures a in DirsOf(t) || (a == t.addr && t.File? && m[a].FileNode?)
         || (m[a].FileNode? && exists d :: d in DirsOf(t) && a in RefsOf(m, x, d))
    decreases t
  {
    if b in Chain(t.addr, t.ext) {
      a := t.addr;
      if t.Dir? { DirOkHas(m, a, t.ext); } else { FileRoot(m, x, t); }
    } else {
      a := OwnerOfAll(m, x, t.addr, t.kids, b);
      assert RefsOf(m, x, t.addr) == Roots(t.kids) by { assert Ext(x, t.addr) == t.ext; }
      if a in Roots(t.kids) { assert t.addr in DirsOf(t); }
    }
    hide Chain, DirOk, FileOk, RefsOf;
  }

  lemma {:induction false} OwnerOfAll(m: Nodes, x: Chains, up: Addr, f: Forest, b: Addr) returns (a: Addr)
    requires ForestOk(m, up, f) && HoldsAll(x, f) && b in OwnsAll(f)
    ensures b in ChainOf(x, a) && a in m
    ensures a in DirsOfAll(f) || (a in Roots(f) && m[a].FileNode?)
         || (m[a].FileNode? && exists d :: d in DirsOfAll(f) && a in RefsOf(m, x, d))
    decreases f
  {
    if b in Owns(f.last) {
      a := OwnerOf(m, x, f.last, b);
      assert Roots(f)[|Roots(f)| - 1] == f.last.addr;
    } else {
      a := OwnerOfAll(m, x, up, f.init, b);
    }
    hide ChainOf, RefsOf, TreeOk, Holds;
  }

  lemma TreeRegion(m: Nodes, x: Chains, t: Tree)
    requires TreeOk(m, t) && t.Dir? && Holds(x, t)
    ensures Region(m, x, DirsOf(t)) == Owns(t)
  {
    hide TreeOk, Holds, Owns, DirsOf, ChainOf, RefsOf;
    forall b | b in Region(m, x, DirsOf(t)) ensures b in Owns(t) {
      var a := RegionOf(m, x, DirsOf(t), b);
      GoesIsHead(m, x, t, a);
      HeadChain(x, t, a);
    }
    forall b | b in Owns(t) ensures b in Region(m, x, DirsOf(t)) {
      var a := OwnerOf(m, x, t, b);
      assert Goes(m, x, DirsOf(t), a);
    }
  }

  // ---------------------------------------------------------------- the steps suffice

  lemma {:induction false} WorkJoins(m: Nodes, x: Chains, a: seq<Addr>, b: seq<Addr>)
    ensures Work(m, x, a + b) == Work(m, x, a) + Work(m, x, b)
  {
    hide Share;
    if a == [] {
      assert a + b == b;
    } else {
      assert (a + b)[1..] == a[1..] + b;
      WorkJoins(m, x, a[1..], b);
    }
  }

  lemma {:induction false} TreeWork(m: Nodes, x: Chains, t: Tree)
    requires TreeOk(m, t) && Holds(x, t)
    ensures Work(m, x, DirsOf(t)) + 1 <= 2 * Count(t)
    decreases t
  {
    if t.Dir? {
      TreeWorkAll(m, x, t.addr, t.kids);
      WorkJoins(m, x, [t.addr], DirsOfAll(t.kids));
      assert [t.addr][1..] == [];
      hide DirOk, Refs, HeldAt, ExtRefs;
      assert RefsOf(m, x, t.addr) == Roots(t.kids);
    }
  }

  lemma {:induction false} TreeWorkAll(m: Nodes, x: Chains, up: Addr, f: Forest)
    requires ForestOk(m, up, f) && HoldsAll(x, f)
    ensures Work(m, x, DirsOfAll(f)) + |Roots(f)| <= 2 * CountAll(f)
    decreases f
  {
    if f.Snoc? {
      TreeWorkAll(m, x, up, f.init);
      TreeWork(m, x, f.last);
      WorkJoins(m, x, DirsOfAll(f.init), DirsOf(f.last));
      hide TreeOk, Holds, Work;
    }
  }

  /** A tree is a special case of what the walk handles, and its steps suffice. */
  lemma TreeIsOwned(m: Nodes, t: Tree, blocks: nat)
    requires TreeOk(m, t) && t.Dir? && |m| <= blocks
    ensures var x, order := ChainsOf(t), DirsOf(t);
            && Owned(m, x, t.addr, order) && Sound(m, x, order) && NoGaps(m, x, order)
            && Region(m, x, order) == Owns(t) && Work(m, x, order) <= 2 * blocks
  {
    hide *;
    var x := ChainsOf(t);
    ChainsHold(m, t);
    TreeOwned(m, x, t);
    TreeSound(m, x, t);
    TreeRegion(m, x, t);
    TreeWork(m, x, t);
    TreeFits(m, t);
  }

  /** A tree has no more nodes than the volume has allocations. */
  lemma TreeFits(m: Nodes, t: Tree)
    requires TreeOk(m, t)
    ensures Count(t) <= |m|
  {
    CountOwned(m, t);
    OwnsHeld(m, t);
    SubsetSize(Owns(t), m.Keys);
    assert |m| == |m.Keys|;
  }

  lemma SubsetSize(a: set<Addr>, b: set<Addr>)
    requires a <= b
    ensures |a| <= |b|
  {
    assert b == a + (b - a);
    DisjointSize(a, b - a);
  }
}
