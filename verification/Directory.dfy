/** The directory operations of kernel/fs/basefs/directory.c:77-121, 169-436. A directory is a
    header and a doubly linked chain of extents, all holding references; the operations read and
    rewrite it in place, and what they do is stated on the one sequence it stands for. */
module Directory {
  import opened Basics
  import opened Volume

  ghost predicate SameOutside(m: Nodes, m': Nodes, own: seq<Addr>) {
    forall a :: a !in own ==> (a in m <==> a in m') && (a in m && a in m' ==> m'[a] == m[a])
  }

  /** m' is m with the first occurrence of ref gone from directory d; only the directory's own
      records change, and an extent that became empty is gone with it. */
  ghost predicate Removed(m: Nodes, m': Nodes, d: Addr, ext: seq<Addr>, ext': seq<Addr>, ref: Addr) {
    && DirOk(m', d, ext')
    && Refs(m', d, ext') == Remove(Refs(m, d, ext), ref)
    && d in m && m[d].DirNode? && m'[d].parent == m[d].parent
    && SameOutside(m, m', [d] + ext)
    && (forall a :: a in ext' ==> a in ext)
    && (forall a :: a in ext && a !in ext' ==> a !in m')
  }

  function WithSlots(n: Node, slots: seq<Addr>, count: nat): Node {
    match n
    case DirNode(parent, next, _, _) => DirNode(parent, next, slots, count)
    case DirExtent(prev, next, _, _) => DirExtent(prev, next, slots, count)
    case _ => n
  }

  /** A record with slot index taken out: later ones move down and the last becomes empty. */
  function Shifted(n: Node, index: nat): Node
    requires (n.DirNode? || n.DirExtent?) && index < n.count <= |n.slots|
  {
    WithSlots(n, n.slots[..index] + n.slots[index + 1..n.count] + [FS_NULL] + n.slots[n.count..], n.count - 1)
  }

  lemma ShiftedHolds(n: Node, index: nat)
    requires (n.DirNode? || n.DirExtent?) && index < n.count <= |n.slots|
    requires forall j :: 0 <= j < index ==> n.slots[j] != n.slots[index]
    ensures |Shifted(n, index).slots| == |n.slots|
    ensures Held(Shifted(n, index)) == Remove(Held(n), n.slots[index])
  {
    var kept, rest := n.slots[..index] + n.slots[index + 1..n.count], [FS_NULL] + n.slots[n.count..];
    assert Shifted(n, index).slots == kept + rest;
    assert (kept + rest)[..|kept|] == kept;
    assert Held(n)[..index] == n.slots[..index] && Held(n)[index + 1..] == n.slots[index + 1..n.count];
    RemoveAt(Held(n), index);
  }

  /** Rewriting the slots of a directory's own record, leaving its links. */
  lemma RewriteKeepsDir(m: Nodes, d: Addr, ext: seq<Addr>, a: Addr, n: Node)
    requires DirOk(m, d, ext) && a in [d] + ext && a in m
    requires a == d ==> n.DirNode? && n.parent == m[d].parent && n.next == m[d].next && n.count <= |n.slots|
    requires a != d ==> m[a].DirExtent? && n.DirExtent? && n.prev == m[a].prev && n.next == m[a].next && 1 <= n.count <= |n.slots|
    ensures DirOk(m[a := n], d, ext) && SameOutside(m, m[a := n], [d] + ext)
  {
    var m' := m[a := n];
    assert forall i :: 0 <= i < |ext| ==> ([d] + ext)[i + 1] == ext[i];
    forall i | 0 <= i < |ext| ensures ExtentOk(m', d, ext, i) { assert ExtentOk(m, d, ext, i); }
  }

  /** Taking the first occurrence of ref out of the header. */
  lemma HeaderRemove(m: Nodes, d: Addr, ext: seq<Addr>, index: nat)
    requires DirOk(m, d, ext) && index < m[d].count
    requires forall j :: 0 <= j < index ==> m[d].slots[j] != m[d].slots[index]
    ensures Removed(m, m[d := Shifted(m[d], index)], d, ext, ext, m[d].slots[index])
  {
    var ref, m' := m[d].slots[index], m[d := Shifted(m[d], index)];
    ShiftedHolds(m[d], index);
    RewriteKeepsDir(m, d, ext, d, Shifted(m[d], index));
    OwnAddresses(d, ext);
    ExtRefsFrame(m, m', ext);
    RemoveConcat(Held(m[d]), ExtRefs(m, ext), ref);
    assert ref in Held(m[d]) by { assert Held(m[d])[index] == ref; }
  }

  lemma OwnAddresses(d: Addr, ext: seq<Addr>)
    requires Distinct([d] + ext)
    ensures Distinct(ext) && d !in ext
  {
    var own := [d] + ext;
    assert own[0] == d && forall i :: 0 <= i < |ext| ==> own[i + 1] == ext[i];
    forall i, j | 0 <= i < j < |ext| ensures ext[i] != ext[j] { assert own[i + 1] != own[j + 1]; }
    forall i | 0 <= i < |ext| ensures ext[i] != d { assert own[i + 1] != own[0]; }
  }

  lemma FirstInExtent(m: Nodes, d: Addr, ext: seq<Addr>, i: nat, ref: Addr)
    requires i < |ext| && ref !in HeldAt(m, d) + ExtRefs(m, ext[..i]) && ref in HeldAt(m, ext[i])
    ensures Remove(Refs(m, d, ext), ref)
         == HeldAt(m, d) + ExtRefs(m, ext[..i]) + Remove(HeldAt(m, ext[i]), ref) + ExtRefs(m, ext[i + 1..])
  {
    hide ExtRefs, HeldAt, Remove;
    SplitRefs(m, ext, i);
    RemoveMiddle(HeldAt(m, d), ExtRefs(m, ext[..i]), HeldAt(m, ext[i]), ExtRefs(m, ext[i + 1..]), ref);
  }

  lemma RemoveMiddle(h: seq<Addr>, a: seq<Addr>, b: seq<Addr>, c: seq<Addr>, x: Addr)
    requires x !in h + a && x in b
    ensures Remove(h + (a + b + c), x) == h + a + Remove(b, x) + c
  {
    hide Remove;
    assert h + (a + b + c) == (h + a) + (b + c);
    RemoveConcat(h + a, b + c, x);
    RemoveConcat(b, c, x);
    assert (h + a) + (Remove(b, x) + c) == h + a + Remove(b, x) + c;
  }

  lemma ExtentFacts(m: Nodes, d: Addr, ext: seq<Addr>, i: nat)
    requires DirOk(m, d, ext) && i < |ext|
    ensures ext[i] in m && m[ext[i]].DirExtent? && 1 <= m[ext[i]].count <= |m[ext[i]].slots| && ext[i] != d && ext[i] != FS_NULL
    ensures m[ext[i]].prev == (if i == 0 then d else ext[i - 1]) && m[ext[i]].next == Link(ext, i + 1)
    ensures forall j :: 0 <= j < |ext| && j != i ==> ext[j] != ext[i]
    ensures Distinct(ext) && d !in ext
  {
    assert ExtentOk(m, d, ext, i);
    OwnAddresses(d, ext);
  }

  /** Rewriting one extent's slots changes what that extent holds and nothing else. */
  lemma RefsAfterRewrite(m: Nodes, d: Addr, ext: seq<Addr>, i: nat, n: Node)
    requires DirOk(m, d, ext) && i < |ext|
    ensures Refs(m[ext[i] := n], d, ext) == HeldAt(m, d) + ExtRefs(m, ext[..i]) + Held(n) + ExtRefs(m, ext[i + 1..])
  {
    hide *;
    ExtentFacts(m, d, ext, i);
    SplitRefs(m[ext[i] := n], ext, i);
    OtherRefs(m, ext[i], n, ext[..i]);
    OtherRefs(m, ext[i], n, ext[i + 1..]);
    HeldAfter(m, ext[i], n, d);
    HeldAfter(m, ext[i], n, ext[i]);
    RefsAre(m[ext[i] := n], d, ext);
    Regrouped(HeldAt(m, d), ExtRefs(m, ext[..i]), Held(n), ExtRefs(m, ext[i + 1..]));
  }

  lemma HeldAfter(m: Nodes, a: Addr, n: Node, x: Addr)
    ensures HeldAt(m[a := n], x) == if x == a then Held(n) else HeldAt(m, x)
  {
  }

  lemma OtherRefs(m: Nodes, a: Addr, n: Node, part: seq<Addr>)
    requires a !in part
    ensures ExtRefs(m[a := n], part) == ExtRefs(m, part)
  {
    ExtRefsFrame(m, m[a := n], part);
  }

  lemma RefsAre(m: Nodes, d: Addr, ext: seq<Addr>)
    ensures Refs(m, d, ext) == HeldAt(m, d) + ExtRefs(m, ext)
  {
  }

  lemma Regrouped(a: seq<Addr>, b: seq<Addr>, c: seq<Addr>, e: seq<Addr>)
    ensures a + (b + c + e) == a + b + c + e
  {
  }

  /** Taking ref out of an extent that holds more than one reference. */
  lemma ExtentShrink(m: Nodes, d: Addr, ext: seq<Addr>, i: nat, index: nat)
    requires DirOk(m, d, ext) && i < |ext| && ext[i] in m && m[ext[i]].DirExtent? && index < m[ext[i]].count <= |m[ext[i]].slots| && m[ext[i]].count > 1
    requires m[ext[i]].slots[index] !in HeldAt(m, d) + ExtRefs(m, ext[..i])
    requires forall j :: 0 <= j < index ==> m[ext[i]].slots[j] != m[ext[i]].slots[index]
    ensures Removed(m, m[ext[i] := Shifted(m[ext[i]], index)], d, ext, ext, m[ext[i]].slots[index])
  {
    var n, ref := Shifted(m[ext[i]], index), m[ext[i]].slots[index];
    ShiftedHolds(m[ext[i]], index);
    assert ref in HeldAt(m, ext[i]) by { assert Held(m[ext[i]])[index] == ref; }
    FirstInExtent(m, d, ext, i, ref);
    ExtentFacts(m, d, ext, i);
    RefsAfterRewrite(m, d, ext, i, n);
    RewriteKeepsDir(m, d, ext, ext[i], n);
    hide Refs, HeldAt, ExtRefs, Held, DirOk;
    assert m[ext[i] := n][d] == m[d];
  }

  // ---------------------------------------------------------------- unlinking an extent

  /** The records after fs_directory_extent_unlink_and_free on the i-th extent. */
  function Unlinked(m: Nodes, d: Addr, ext: seq<Addr>, i: nat): Nodes
    requires i < |ext|
  {
    var m1 := SetNext(m, if i == 0 then d else ext[i - 1], Link(ext, i + 1));
    var m2 := if i + 1 < |ext| then SetPrev(m1, ext[i + 1], if i == 0 then d else ext[i - 1]) else m1;
    m2 - {ext[i]}
  }

  function WithNext(n: Node, next: Addr): Node {
    match n
    case DirNode(parent, _, slots, count) => DirNode(parent, next, slots, count)
    case DirExtent(prev, _, slots, count) => DirExtent(prev, next, slots, count)
    case _ => n
  }

  function WithPrev(n: Node, prev: Addr): Node {
    match n
    case DirExtent(_, next, slots, count) => DirExtent(prev, next, slots, count)
    case _ => n
  }

  function SetNext(m: Nodes, a: Addr, next: Addr): Nodes {
    if a in m then m[a := WithNext(m[a], next)] else m
  }

  function SetPrev(m: Nodes, a: Addr, prev: Addr): Nodes {
    if a in m then m[a := WithPrev(m[a], prev)] else m
  }

  function Without<T>(s: seq<T>, i: nat): seq<T>
    requires i < |s|
  {
    s[..i] + s[i + 1..]
  }

  lemma UnlinkedAt(m: Nodes, d: Addr, ext: seq<Addr>, i: nat, j: nat)
    requires DirOk(m, d, ext) && i < |ext| && j < |ext| - 1
    ensures ExtentOk(Unlinked(m, d, ext, i), d, Without(ext, i), j)
  {
    var k := if j < i then j else j + 1;
    ExtentFacts(m, d, ext, i);
    ExtentFacts(m, d, ext, k);
    if i + 1 < |ext| { ExtentFacts(m, d, ext, i + 1); }
    if i > 0 { ExtentFacts(m, d, ext, i - 1); }
    assert Without(ext, i)[j] == ext[k];
  }

  /** Links apart, unlinking leaves every other record as it was. */
  lemma UnlinkedHolds(m: Nodes, d: Addr, ext: seq<Addr>, i: nat)
    requires DirOk(m, d, ext) && i < |ext|
    ensures var m' := Unlinked(m, d, ext, i);
            && ext[i] !in m' && d in m' && m'[d] == (if i == 0 then WithNext(m[d], Link(ext, 1)) else m[d])
            && (forall a :: a != ext[i] ==> HeldAt(m', a) == HeldAt(m, a))
            && FS_NULL !in m'
  {
    ExtentFacts(m, d, ext, i);
    if i + 1 < |ext| { ExtentFacts(m, d, ext, i + 1); }
    if i > 0 { ExtentFacts(m, d, ext, i - 1); }
  }

  lemma UnlinkedOutside(m: Nodes, d: Addr, ext: seq<Addr>, i: nat)
    requires DirOk(m, d, ext) && i < |ext|
    ensures SameOutside(m, Unlinked(m, d, ext, i), [d] + ext)
  {
    assert forall j :: 0 <= j < |ext| ==> ([d] + ext)[j + 1] == ext[j];
    assert ([d] + ext)[0] == d;
    hide DirOk, WithNext, WithPrev;
  }

  lemma WithoutFacts(d: Addr, ext: seq<Addr>, i: nat)
    requires i < |ext| && Distinct([d] + ext)
    ensures Distinct([d] + Without(ext, i)) && ext[i] !in Without(ext, i)
    ensures forall a :: a in Without(ext, i) ==> a in ext
    ensures forall a :: a in ext && a != ext[i] ==> a in Without(ext, i)
    ensures Link(Without(ext, i), 0) == if i == 0 then Link(ext, 1) else ext[0]
  {
    OwnAddresses(d, ext);
    var w := Without(ext, i);
    assert ext == ext[..i] + [ext[i]] + ext[i + 1..];
    assert forall j :: 0 <= j < |w| ==> w[j] == ext[if j < i then j else j + 1];
  }

  lemma UnlinkedRefs(m: Nodes, d: Addr, ext: seq<Addr>, i: nat)
    requires DirOk(m, d, ext) && i < |ext|
    ensures Refs(Unlinked(m, d, ext, i), d, Without(ext, i))
         == HeldAt(m, d) + ExtRefs(m, ext[..i]) + ExtRefs(m, ext[i + 1..])
  {
    var m' := Unlinked(m, d, ext, i);
    ExtentFacts(m, d, ext, i);
    UnlinkedHolds(m, d, ext, i);
    hide Unlinked, DirOk, HeldAt, ExtRefs;
    ExtRefsConcat(m', ext[..i], ext[i + 1..]);
    ExtRefsFrame(m, m', ext[..i]);
    ExtRefsFrame(m, m', ext[i + 1..]);
  }

  lemma UnlinkedIsDir(m: Nodes, d: Addr, ext: seq<Addr>, i: nat)
    requires DirOk(m, d, ext) && i < |ext|
    ensures DirOk(Unlinked(m, d, ext, i), d, Without(ext, i))
  {
    var m', w := Unlinked(m, d, ext, i), Without(ext, i);
    UnlinkedHolds(m, d, ext, i);
    WithoutFacts(d, ext, i);
    forall j | 0 <= j < |w| ensures ExtentOk(m', d, w, j) { UnlinkedAt(m, d, ext, i, j); }
    hide Unlinked, ExtentOk, Without, Distinct;
  }

  /** Taking out the only reference of an extent: the extent goes too. */
  lemma ExtentDrop(m: Nodes, d: Addr, ext: seq<Addr>, i: nat, ref: Addr)
    requires DirOk(m, d, ext) && i < |ext|
    requires HeldAt(m, ext[i]) == [ref] && ref !in HeldAt(m, d) + ExtRefs(m, ext[..i])
    ensures Removed(m, Unlinked(m, d, ext, i), d, ext, Without(ext, i), ref)
  {
    hide *;
    DirOkHas(m, d, ext);
    FirstInExtent(m, d, ext, i, ref);
    RemoveOnly(ref);
    UnlinkedRefs(m, d, ext, i);
    UnlinkedHolds(m, d, ext, i);
    UnlinkedOutside(m, d, ext, i);
    UnlinkedIsDir(m, d, ext, i);
    WithoutFacts(d, ext, i);
    KeepsParent(m[d], Link(ext, 1));
    RemovedOf(m, Unlinked(m, d, ext, i), d, ext, Without(ext, i), ref);
  }

  lemma RemovedOf(m: Nodes, m': Nodes, d: Addr, ext: seq<Addr>, ext': seq<Addr>, ref: Addr)
    requires DirOk(m, d, ext) && DirOk(m', d, ext') && Refs(m', d, ext') == Remove(Refs(m, d, ext), ref)
    requires d in m && d in m' && m[d].DirNode? && m'[d].DirNode? && m'[d].parent == m[d].parent
    requires SameOutside(m, m', [d] + ext)
    requires forall a :: a in ext' ==> a in ext
    requires forall a :: a in ext && a !in ext' ==> a !in m'
    ensures Removed(m, m', d, ext, ext', ref)
  {
    hide DirOk, Refs, Remove, SameOutside;
  }

  lemma KeepsParent(n: Node, next: Addr)
    requires n.DirNode?
    ensures WithNext(n, next).DirNode? && WithNext(n, next).parent == n.parent
  {
  }

  lemma RemoveOnly(ref: Addr)
    ensures Remove([ref], ref) == []
  {
  }

  lemma DirOkHas(m: Nodes, d: Addr, ext: seq<Addr>)
    requires DirOk(m, d, ext)
    ensures d in m && m[d].DirNode? && Distinct([d] + ext)
  {
  }
}
