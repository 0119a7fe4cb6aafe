/** The records of a basefs volume (kernel/fs/basefs/structs.h) by address: directory headers and
    their extents, file headers and theirs. Each live allocation holds one record; module
    AllocationMap says why writing one record cannot disturb another. */
module Volume {
  import opened Basics

  type Addr = nat

  const FS_NULL: Addr := 0xFFFF_FFFF
  const EXTENT_REFS: nat := 12      // references a new directory extent has room for

  datatype Node =
    | DirNode(parent: Addr, next: Addr, slots: seq<Addr>, count: nat)
    | DirExtent(prev: Addr, next: Addr, slots: seq<Addr>, count: nat)
    | FileNode(next: Addr)
    | FileExtent(next: Addr)

  type Nodes = map<Addr, Node>

  // ---------------------------------------------------------------- a directory as a sequence

  /** The i-th address of a chain, or the end marker. */
  function Link(ext: seq<Addr>, i: nat): Addr {
    if i < |ext| then ext[i] else FS_NULL
  }

  /** The i-th extent of directory d is linked between its neighbours and is neither empty nor
      overfull. */
  ghost predicate ExtentOk(m: Nodes, d: Addr, ext: seq<Addr>, i: nat)
    requires i < |ext|
  {
    && ext[i] in m && m[ext[i]].DirExtent?
    && m[ext[i]].prev == (if i == 0 then d else ext[i - 1])
    && m[ext[i]].next == Link(ext, i + 1)
    && 1 <= m[ext[i]].count <= |m[ext[i]].slots|
  }

  /** At d there is a directory whose extents, in order, are ext. */
  ghost predicate DirOk(m: Nodes, d: Addr, ext: seq<Addr>) {
    && d in m && m[d].DirNode? && m[d].count <= |m[d].slots|
    && m[d].next == Link(ext, 0)
    && Distinct([d] + ext)
    && FS_NULL !in m
    && forall i :: 0 <= i < |ext| ==> ExtentOk(m, d, ext, i)
  }

  /** The references one record holds. */
  function Held(n: Node): seq<Addr> {
    if (n.DirNode? || n.DirExtent?) && n.count <= |n.slots| then n.slots[..n.count] else []
  }

  function HeldAt(m: Nodes, a: Addr): seq<Addr> {
    if a in m then Held(m[a]) else []
  }

  function ExtRefs(m: Nodes, ext: seq<Addr>): seq<Addr> {
    if ext == [] then [] else HeldAt(m, ext[0]) + ExtRefs(m, ext[1..])
  }

  /** The directory's references, in order. */
  function Refs(m: Nodes, d: Addr, ext: seq<Addr>): seq<Addr> {
    HeldAt(m, d) + ExtRefs(m, ext)
  }

  lemma {:induction false} ExtRefsConcat(m: Nodes, a: seq<Addr>, b: seq<Addr>)
    ensures ExtRefs(m, a + b) == ExtRefs(m, a) + ExtRefs(m, b)
  {
    if a == [] {
      assert a + b == b;
    } else {
      assert (a + b)[1..] == a[1..] + b;
      ExtRefsConcat(m, a[1..], b);
    }
  }

  lemma {:induction false} ExtRefsFrame(m: Nodes, m': Nodes, ext: seq<Addr>)
    requires forall a :: a in ext ==> HeldAt(m', a) == HeldAt(m, a)
    ensures ExtRefs(m', ext) == ExtRefs(m, ext)
  {
    if ext != [] { ExtRefsFrame(m, m', ext[1..]); }
  }

  lemma ExtRefsOne(m: Nodes, a: Addr)
    ensures ExtRefs(m, [a]) == HeldAt(m, a)
  {
    assert ExtRefs(m, [a][1..]) == [];
  }

  lemma SplitRefs(m: Nodes, ext: seq<Addr>, i: nat)
    requires i < |ext|
    ensures ExtRefs(m, ext) == ExtRefs(m, ext[..i]) + HeldAt(m, ext[i]) + ExtRefs(m, ext[i + 1..])
    ensures ExtRefs(m, ext[..i + 1]) == ExtRefs(m, ext[..i]) + HeldAt(m, ext[i])
  {
    ExtRefsOne(m, ext[i]);
    ExtRefsConcat(m, ext[..i], [ext[i]]);
    ExtRefsConcat(m, ext[..i + 1], ext[i + 1..]);
    hide ExtRefs;
    assert ext[..i + 1] == ext[..i] + [ext[i]];
    assert ext == ext[..i + 1] + ext[i + 1..];
  }
}
