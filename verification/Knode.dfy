/** Directories of kernel nodes (kernel/knode.c:24-58, 142-338). They are kept like directories on a
    volume, a header and linked extents, with other end markers and a tail pointer; seen through View
    they are such directories, and what is proved of those carries over. Here the duplicate check is
    complete, so a directory is a set. */
module Knode {
  import opened Basics
  import opened Volume
  import opened Directory
  import opened DirectoryAdd
  import DirectoryOps

  const KMALLOC_NULL: Addr := 0xFFFF_FFFF
  const DIRECTORY_REFS: nat := 6      // KDIRECTORY_REF_MAX
  const DIRECTORYEX_REFS: nat := 11   // KDIRECTORYEX_REF_MAX

  function NoRefs(): (s: seq<Addr>)
    ensures |s| == DIRECTORYEX_REFS
  {
    seq<Addr>(DIRECTORYEX_REFS, i => 0)
  }

  /** A chain ends with 0; prev of the first extent is 0; tail is the last extent or 0. */
  datatype KNode =
    | KDir(parent: Addr, next: Addr, tail: Addr, slots: seq<Addr>, size: nat)
    | KExt(prev: Addr, next: Addr, slots: seq<Addr>, size: nat)

  type KNodes = map<Addr, KNode>

  // ---------------------------------------------------------------- seen as a volume's directory

  function EndMark(a: Addr): Addr {
    if a == 0 then FS_NULL else a
  }

  function Padded(slots: seq<Addr>, size: nat): (s: seq<Addr>)
    requires size <= |slots|
    ensures |s| == |slots|
  {
    slots[..size] + seq<Addr>(|slots| - size, i => FS_NULL)
  }

  /** What a link or slot count may hold. */
  predicate RecordOk(n: KNode, d: Addr) {
    && n.size <= |n.slots| && n.next != FS_NULL
    && (match n
        case KDir(_, _, _, slots, _) => |slots| == DIRECTORY_REFS
        case KExt(prev, _, slots, _) => |slots| == DIRECTORYEX_REFS && prev != d && prev != FS_NULL)
  }

  function AsNode(n: KNode, d: Addr): Node
    requires n.size <= |n.slots|
  {
    match n
    case KDir(parent, next, _, slots, size) => DirNode(parent, EndMark(next), Padded(slots, size), size)
    case KExt(prev, next, slots, size) => DirExtent(if prev == 0 then d else prev, EndMark(next), Padded(slots, size), size)
  }

  ghost predicate RecordsOk(m: KNodes, d: Addr, own: seq<Addr>) {
    forall a :: a in own ==> a in m && RecordOk(m[a], d)
  }

  /** The records of one directory as a volume would hold them. */
  ghost function View(m: KNodes, d: Addr, own: seq<Addr>): Nodes
    requires RecordsOk(m, d, own)
  {
    map a | a in own :: AsNode(m[a], d)
  }

  function Last(ext: seq<Addr>): Addr {
    if ext == [] then 0 else ext[|ext| - 1]
  }

  /** At d there is a directory whose extents, in order, are ext. */
  ghost predicate KOk(m: KNodes, d: Addr, ext: seq<Addr>) {
    && RecordsOk(m, d, [d] + ext) && 0 !in m && FS_NULL !in m
    && DirOk(View(m, d, [d] + ext), d, ext)
    && d in m && m[d].KDir? && m[d].tail == Last(ext)
  }

  /** The directory's references, in order. */
  ghost function KRefs(m: KNodes, d: Addr, ext: seq<Addr>): seq<Addr>
    requires RecordsOk(m, d, [d] + ext)
  {
    Refs(View(m, d, [d] + ext), d, ext)
  }

  ghost predicate KSameOutside(m: KNodes, m': KNodes, own: seq<Addr>) {
    forall a :: a !in own ==> (a in m <==> a in m') && (a in m && a in m' ==> m'[a] == m[a])
  }

  /** Where a walk stands: the i-th extent, read as it is stored. */
  lemma AtKExtent(m: KNodes, d: Addr, ext: seq<Addr>, i: nat)
    requires KOk(m, d, ext) && i < |ext|
    ensures var e := ext[i];
            && e in m && m[e].KExt? && 1 <= m[e].size <= |m[e].slots| == DIRECTORYEX_REFS && e != d && e != 0 && e != FS_NULL
            && m[e].prev == (if i == 0 then 0 else ext[i - 1]) && m[e].next == (if i + 1 < |ext| then ext[i + 1] else 0)
            && HeldAt(View(m, d, [d] + ext), e) == m[e].slots[..m[e].size]
            && (HasRoom(View(m, d, [d] + ext), e) <==> m[e].size < DIRECTORYEX_REFS)
            && View(m, d, [d] + ext)[e] == AsNode(m[e], d)
  {
    var v := View(m, d, [d] + ext);
    ExtentFacts(v, d, ext, i);
    if i + 1 < |ext| { ExtentFacts(v, d, ext, i + 1); }
    if i > 0 { ExtentFacts(v, d, ext, i - 1); }
    var e := ext[i];
    assert ([d] + ext)[i + 1] == e;
    assert RecordOk(m[e], d);
    hide DirOk;
    assert Padded(m[e].slots, m[e].size)[..m[e].size] == m[e].slots[..m[e].size];
  }

  lemma AtKHeader(m: KNodes, d: Addr, ext: seq<Addr>)
    requires KOk(m, d, ext)
    ensures d in m && m[d].KDir? && m[d].size <= |m[d].slots| == DIRECTORY_REFS && m[d].next == (if ext == [] then 0 else ext[0])
    ensures m[d].tail == Last(ext)
    ensures HeldAt(View(m, d, [d] + ext), d) == m[d].slots[..m[d].size]
    ensures HasRoom(View(m, d, [d] + ext), d) <==> m[d].size < DIRECTORY_REFS
    ensures View(m, d, [d] + ext)[d] == AsNode(m[d], d) && DirOk(View(m, d, [d] + ext), d, ext)
    ensures Distinct([d] + ext) && d !in ext && d != 0
    ensures KRefs(m, d, ext) == HeldAt(View(m, d, [d] + ext), d) + ExtRefs(View(m, d, [d] + ext), ext)
    ensures ext[..0] == [] && ExtRefs(View(m, d, [d] + ext), ext[..0]) == []
  {
    var v := View(m, d, [d] + ext);
    DirectoryOps.AtHeader(v, d, ext);
    if ext != [] { ExtentFacts(v, d, ext, 0); assert ([d] + ext)[1] == ext[0]; }
    assert RecordOk(m[d], d);
    hide DirOk;
    assert Padded(m[d].slots, m[d].size)[..m[d].size] == m[d].slots[..m[d].size];
  }

  // ---------------------------------------------------------------- rewriting one record

  function WithRefs(n: KNode, slots: seq<Addr>, size: nat): KNode {
    match n
    case KDir(parent, next, tail, _, _) => KDir(parent, next, tail, slots, size)
    case KExt(prev, next, _, _) => KExt(prev, next, slots, size)
  }

  /** A record with slot index taken out and the slot freed by it cleared. */
  function KShifted(n: KNode, index: nat): KNode
    requires index < n.size <= |n.slots|
  {
    WithRefs(n, n.slots[..index] + n.slots[index + 1..n.size] + [0] + n.slots[n.size..], n.size - 1)
  }

  function KAppended(n: KNode, ref: Addr): KNode
    requires n.size < |n.slots|
  {
    WithRefs(n, n.slots[n.size := ref], n.size + 1)
  }

  lemma KShiftedView(n: KNode, d: Addr, index: nat)
    requires index < n.size <= |n.slots| && RecordOk(n, d)
    ensures RecordOk(KShifted(n, index), d) && AsNode(KShifted(n, index), d) == Shifted(AsNode(n, d), index)
  {
    PaddedShift(n.slots, n.size, index);
    hide Padded;
  }

  lemma PaddedShift(slots: seq<Addr>, size: nat, index: nat)
    requires index < size <= |slots|
    ensures var s := slots[..index] + slots[index + 1..size] + [0] + slots[size..]; var p := Padded(slots, size);
            |s| == |slots| && Padded(s, size - 1) == p[..index] + p[index + 1..size] + [FS_NULL] + p[size..]
  {
  }

  lemma KAppendedView(n: KNode, d: Addr, ref: Addr)
    requires n.size < |n.slots| && RecordOk(n, d)
    ensures RecordOk(KAppended(n, ref), d) && AsNode(KAppended(n, ref), d) == Appended(AsNode(n, d), ref)
  {
    PaddedAppend(n.slots, n.size, ref);
    hide Padded;
  }

  lemma PaddedAppend(slots: seq<Addr>, size: nat, ref: Addr)
    requires size < |slots|
    ensures Padded(slots[size := ref], size + 1) == Padded(slots, size)[size := ref]
  {
  }

  lemma ViewUpdate(m: KNodes, d: Addr, own: seq<Addr>, a: Addr, n: KNode)
    requires RecordsOk(m, d, own) && a in own && RecordOk(n, d)
    ensures RecordsOk(m[a := n], d, own) && View(m[a := n], d, own) == View(m, d, own)[a := AsNode(n, d)]
  {
    hide AsNode;
  }

  /** Rewriting the references of a directory's own record. */
  lemma RewriteKeepsK(m: KNodes, d: Addr, ext: seq<Addr>, a: Addr, n: KNode)
    requires KOk(m, d, ext) && a in [d] + ext && RecordOk(n, d)
    requires a == d ==> n.KDir? && n.tail == m[d].tail
    requires DirOk(View(m, d, [d] + ext)[a := AsNode(n, d)], d, ext)
    ensures KOk(m[a := n], d, ext) && KSameOutside(m, m[a := n], [d] + ext)
    ensures KRefs(m[a := n], d, ext) == Refs(View(m, d, [d] + ext)[a := AsNode(n, d)], d, ext)
  {
    hide DirOk, Refs, AsNode, RecordOk;
    ViewUpdate(m, d, [d] + ext, a, n);
  }

  // ---------------------------------------------------------------- removing

  /** m' is m with the first occurrence of ref gone from directory d; an emptied extent is gone too. */
  ghost predicate KRemoved(m: KNodes, m': KNodes, d: Addr, ext: seq<Addr>, ext': seq<Addr>, ref: Addr) {
    && KOk(m, d, ext) && KOk(m', d, ext') && KRefs(m', d, ext') == Remove(KRefs(m, d, ext), ref)
    && KSameOutside(m, m', [d] + ext)
    && (forall a :: a in ext' ==> a in ext) && (forall a :: a in ext && a !in ext' ==> a !in m')
  }

  lemma KHeaderRemove(m: KNodes, d: Addr, ext: seq<Addr>, index: nat)
    requires KOk(m, d, ext) && index < m[d].size && m[d].size <= |m[d].slots|
    requires forall j :: 0 <= j < index ==> m[d].slots[j] != m[d].slots[index]
    ensures KRemoved(m, m[d := KShifted(m[d], index)], d, ext, ext, m[d].slots[index])
  {
    var v := View(m, d, [d] + ext);
    AtKHeader(m, d, ext);
    assert RecordOk(m[d], d) by { assert ([d] + ext)[0] == d; }
    KShiftedView(m[d], d, index);
    assert forall j :: 0 <= j <= index ==> v[d].slots[j] == m[d].slots[j];
    HeaderRemove(v, d, ext, index);
    hide DirOk, Refs, AsNode, Remove, KOk, Shifted, RecordOk, KShifted;
    RewriteHeader(m, d, ext, index);
  }

  lemma RewriteHeader(m: KNodes, d: Addr, ext: seq<Addr>, index: nat)
    requires KOk(m, d, ext) && index < m[d].size && m[d].size <= |m[d].slots|
    requires RecordOk(KShifted(m[d], index), d) && DirOk(View(m, d, [d] + ext)[d := AsNode(KShifted(m[d], index), d)], d, ext)
    ensures var m' := m[d := KShifted(m[d], index)];
            && KOk(m', d, ext) && KSameOutside(m, m', [d] + ext)
            && KRefs(m', d, ext) == Refs(View(m, d, [d] + ext)[d := AsNode(KShifted(m[d], index), d)], d, ext)
  {
    assert ([d] + ext)[0] == d;
    assert KShifted(m[d], index).KDir? && KShifted(m[d], index).tail == m[d].tail;
    hide DirOk, Refs, AsNode, KOk, RecordOk, KShifted;
    RewriteKeepsK(m, d, ext, d, KShifted(m[d], index));
  }

  lemma KExtentShrink(m: KNodes, d: Addr, ext: seq<Addr>, i: nat, index: nat)
    requires KOk(m, d, ext) && i < |ext| && ext[i] in m && index < m[ext[i]].size <= |m[ext[i]].slots| && m[ext[i]].size > 1
    requires m[ext[i]].slots[index] !in HeldAt(View(m, d, [d] + ext), d) + ExtRefs(View(m, d, [d] + ext), ext[..i])
    requires forall j :: 0 <= j < index ==> m[ext[i]].slots[j] != m[ext[i]].slots[index]
    ensures KRemoved(m, m[ext[i] := KShifted(m[ext[i]], index)], d, ext, ext, m[ext[i]].slots[index])
  {
    var v, e := View(m, d, [d] + ext), ext[i];
    AtKHeader(m, d, ext);
    AtKExtent(m, d, ext, i);
    OwnMember(d, ext, i);
    assert RecordOk(m[e], d);
    KShiftedView(m[e], d, index);
    assert forall j :: 0 <= j <= index ==> v[e].slots[j] == m[e].slots[j];
    ExtentShrink(v, d, ext, i, index);
    hide DirOk, Refs, AsNode, Remove, KOk, Shifted, RecordOk, KShifted, HeldAt, ExtRefs;
    RewriteKeepsK(m, d, ext, e, KShifted(m[e], index));
  }

  // ---------------------------------------------------------------- unlinking an emptied extent

  function WithPrevious(n: KNode, prev: Addr): KNode {
    match n
    case KExt(_, next, slots, size) => KExt(prev, next, slots, size)
    case KDir(_, _, _, _, _) => n
  }

  function WithFollowing(n: KNode, next: Addr): KNode {
    match n
    case KExt(prev, _, slots, size) => KExt(prev, next, slots, size)
    case KDir(parent, _, tail, slots, size) => KDir(parent, next, tail, slots, size)
  }

  function WithTail(h: KNode, tail: Addr): KNode {
    match h
    case KDir(parent, next, _, slots, size) => KDir(parent, next, tail, slots, size)
    case KExt(_, _, _, _) => h
  }

  /** The header after an extent between prev and next (0 for none) is gone. */
  function HeaderWithout(h: KNode, prev: Addr, next: Addr): KNode
    requires h.KDir?
  {
    var first := if prev != 0 then h.next else next;
    var last := if next != 0 then h.tail else prev;
    KDir(h.parent, first, if first == 0 then 0 else last, h.slots, h.size)
  }

  /** The records after the extent at e is taken out of the chain and freed. */
  function KUnlinked(m: KNodes, d: Addr, e: Addr): KNodes
    requires d in m && m[d].KDir? && e in m && m[e].KExt?
  {
    var prev, next := m[e].prev, m[e].next;
    var m1 := if prev != 0 && prev in m then m[prev := WithFollowing(m[prev], next)] else m;
    var m2 := if next != 0 && next in m1 then m1[next := WithPrevious(m1[next], prev)] else m1;
    m2[d := HeaderWithout(m[d], prev, next)] - {e}
  }

  lemma FollowingView(n: KNode, d: Addr, next: Addr)
    requires n.size <= |n.slots|
    ensures WithFollowing(n, next).size == n.size && WithFollowing(n, next).slots == n.slots
    ensures AsNode(WithFollowing(n, next), d) == WithNext(AsNode(n, d), EndMark(next))
    ensures next != FS_NULL && RecordOk(n, d) ==> RecordOk(WithFollowing(n, next), d)
  {
  }

  lemma PreviousView(n: KNode, d: Addr, prev: Addr)
    requires n.size <= |n.slots| && n.KExt?
    ensures WithPrevious(n, prev).size == n.size && WithPrevious(n, prev).slots == n.slots
    ensures AsNode(WithPrevious(n, prev), d) == WithPrev(AsNode(n, d), if prev == 0 then d else prev)
    ensures prev != d && prev != FS_NULL && RecordOk(n, d) ==> RecordOk(WithPrevious(n, prev), d)
  {
  }

  lemma HeaderView(h: KNode, d: Addr, prev: Addr, next: Addr)
    requires h.KDir? && h.size <= |h.slots|
    ensures var n := HeaderWithout(h, prev, next);
            && n.KDir? && n.size == h.size && n.slots == h.slots
            && AsNode(n, d) == (if prev == 0 then WithNext(AsNode(h, d), EndMark(next)) else AsNode(h, d))
            && (next != FS_NULL && RecordOk(h, d) ==> RecordOk(n, d))
  {
  }

  lemma ViewSetNext(m: KNodes, d: Addr, own: seq<Addr>, a: Addr, next: Addr)
    requires RecordsOk(m, d, own) && a in own && next != FS_NULL
    ensures var m' := m[a := WithFollowing(m[a], next)];
            RecordsOk(m', d, own) && View(m', d, own) == SetNext(View(m, d, own), a, EndMark(next))
  {
    FollowingView(m[a], d, next);
    ViewUpdate(m, d, own, a, WithFollowing(m[a], next));
    hide AsNode, WithFollowing, WithNext;
  }

  lemma ViewSetPrev(m: KNodes, d: Addr, own: seq<Addr>, a: Addr, prev: Addr)
    requires RecordsOk(m, d, own) && a in own && m[a].KExt? && prev != d && prev != FS_NULL
    ensures var m' := m[a := WithPrevious(m[a], prev)];
            RecordsOk(m', d, own) && View(m', d, own) == SetPrev(View(m, d, own), a, if prev == 0 then d else prev)
  {
    PreviousView(m[a], d, prev);
    ViewUpdate(m, d, own, a, WithPrevious(m[a], prev));
    hide AsNode, WithPrevious, WithPrev;
  }

  lemma ViewSetHeader(m: KNodes, d: Addr, own: seq<Addr>, h: KNode, prev: Addr, next: Addr)
    requires RecordsOk(m, d, own) && d in own && h.KDir? && RecordOk(h, d) && AsNode(m[d], d) == AsNode(h, d) && next != FS_NULL
    ensures var m' := m[d := HeaderWithout(h, prev, next)];
            && RecordsOk(m', d, own)
            && View(m', d, own) == if prev == 0 then SetNext(View(m, d, own), d, EndMark(next)) else View(m, d, own)
  {
    HeaderView(h, d, prev, next);
    ViewUpdate(m, d, own, d, HeaderWithout(h, prev, next));
    hide AsNode, HeaderWithout, WithNext;
  }

  lemma ViewRemove(m: KNodes, d: Addr, own: seq<Addr>, own': seq<Addr>, e: Addr)
    requires RecordsOk(m, d, own) && e !in own' && (forall a :: a in own' ==> a in own) && (forall a :: a in own && a != e ==> a in own')
    ensures RecordsOk(m - {e}, d, own') && View(m - {e}, d, own') == View(m, d, own) - {e}
  {
    hide AsNode, RecordOk;
  }

  lemma SetCommutes(v: Nodes, a: Addr, next: Addr, b: Addr, prev: Addr)
    requires a != b
    ensures SetNext(SetPrev(v, b, prev), a, next) == SetPrev(SetNext(v, a, next), b, prev)
  {
    hide WithNext, WithPrev;
  }

  /** Taking the extent out on the stored records is taking it out on the view. */
  lemma UnlinkedView(m: KNodes, d: Addr, ext: seq<Addr>, i: nat)
    requires KOk(m, d, ext) && i < |ext| && ext[i] in m && m[ext[i]].KExt?
    ensures RecordsOk(KUnlinked(m, d, ext[i]), d, [d] + Without(ext, i))
    ensures View(KUnlinked(m, d, ext[i]), d, [d] + Without(ext, i)) == Unlinked(View(m, d, [d] + ext), d, ext, i)
  {
    hide *;
    var own, e := [d] + ext, ext[i];
    var prev, next := m[e].prev, m[e].next;
    Neighbours(m, d, ext, i);
    OwnWithout(d, ext, i);
    var v, p := View(m, d, own), if prev == 0 then d else prev;
    var m1 := if prev != 0 then m[prev := WithFollowing(m[prev], next)] else m;
    if prev != 0 { ViewSetNext(m, d, own, prev, next); }
    var m2 := if next != 0 then m1[next := WithPrevious(m1[next], prev)] else m1;
    if next != 0 {
      SameKind(m, prev, next);
      ViewSetPrev(m1, d, own, next, prev);
    }
    SameHeader(m, m2, d);
    ViewSetHeader(m2, d, own, m[d], prev, next);
    if next != 0 && prev == 0 { SetCommutes(v, d, EndMark(next), next, p); }
    ViewRemove(m2[d := HeaderWithout(m[d], prev, next)], d, own, [d] + Without(ext, i), e);
    UnlinkedSteps(v, d, ext, i);
    KUnlinkedSteps(m, d, e);
  }

  lemma UnlinkedSteps(v: Nodes, d: Addr, ext: seq<Addr>, i: nat)
    requires i < |ext|
    ensures var p := if i == 0 then d else ext[i - 1];
            var next := Link(ext, i + 1);
            Unlinked(v, d, ext, i)
            == (if i + 1 < |ext| then SetPrev(SetNext(v, p, next), ext[i + 1], p) else SetNext(v, p, next)) - {ext[i]}
  {
    hide SetNext, SetPrev, Link;
  }

  lemma KUnlinkedSteps(m: KNodes, d: Addr, e: Addr)
    requires d in m && m[d].KDir? && e in m && m[e].KExt?
    requires (m[e].prev != 0 ==> m[e].prev in m) && (m[e].next != 0 ==> m[e].next in m)
    ensures var prev, next := m[e].prev, m[e].next;
            var m1 := if prev != 0 then m[prev := WithFollowing(m[prev], next)] else m;
            var m2 := if next != 0 then m1[next := WithPrevious(m1[next], prev)] else m1;
            KUnlinked(m, d, e) == m2[d := HeaderWithout(m[d], prev, next)] - {e}
  {
    hide WithFollowing, WithPrevious, HeaderWithout;
  }

  lemma SameKind(m: KNodes, prev: Addr, next: Addr)
    requires next in m && m[next].KExt? && (prev != 0 ==> prev in m)
    ensures var m1 := if prev != 0 then m[prev := WithFollowing(m[prev], next)] else m; next in m1 && m1[next].KExt?
  {
  }

  lemma SameHeader(m: KNodes, m2: KNodes, d: Addr)
    requires d in m && d in m2 && m2[d] == m[d] && m[d].size <= |m[d].slots|
    ensures AsNode(m2[d], d) == AsNode(m[d], d)
  {
  }

  lemma OwnWithout(d: Addr, ext: seq<Addr>, i: nat)
    requires i < |ext| && Distinct([d] + ext)
    ensures ext[i] !in [d] + Without(ext, i) && ext[i] != d
    ensures forall a :: a in [d] + Without(ext, i) ==> a in [d] + ext
    ensures forall a :: a in [d] + ext && a != ext[i] ==> a in [d] + Without(ext, i)
  {
    WithoutFacts(d, ext, i);
    OwnAddresses(d, ext);
    hide Without, Distinct;
    assert forall a :: a in [d] + Without(ext, i) <==> a == d || a in Without(ext, i);
    assert forall a :: a in [d] + ext <==> a == d || a in ext;
  }

  /** What is stored next to the i-th extent. */
  lemma Neighbours(m: KNodes, d: Addr, ext: seq<Addr>, i: nat)
    requires KOk(m, d, ext) && i < |ext|
    ensures RecordsOk(m, d, [d] + ext) && Distinct([d] + ext) && d in [d] + ext && d in m && m[d].KDir? && RecordOk(m[d], d) && m[d].size <= |m[d].slots|
    ensures ext[i] in m && m[ext[i]].KExt?
    ensures var prev, next := m[ext[i]].prev, m[ext[i]].next;
            && prev == (if i == 0 then 0 else ext[i - 1]) && next == (if i + 1 < |ext| then ext[i + 1] else 0)
            && EndMark(next) == Link(ext, i + 1) && next != FS_NULL && prev != d && prev != FS_NULL && next != d
            && (prev != 0 ==> i > 0 && prev in [d] + ext && prev in m && m[prev].KExt?)
            && (next != 0 ==> i + 1 < |ext| && next in [d] + ext && next in m && m[next].KExt? && next != prev)
            && (i > 0 ==> prev != 0) && (i + 1 < |ext| ==> next != 0)
  {
    hide *;
    HeaderRecord(m, d, ext);
    AtKHeader(m, d, ext);
    AtKExtent(m, d, ext, i);
    if i > 0 { AtKExtent(m, d, ext, i - 1); OwnMember(d, ext, i - 1); }
    if i + 1 < |ext| { AtKExtent(m, d, ext, i + 1); OwnMember(d, ext, i + 1); }
    if 0 < i && i + 1 < |ext| { ApartInChain(d, ext, i - 1, i + 1); }
    EndMarkIs(ext, i + 1);
  }

  lemma ApartInChain(d: Addr, ext: seq<Addr>, i: nat, j: nat)
    requires Distinct([d] + ext) && i < j < |ext|
    ensures ext[i] != ext[j]
  {
    OwnAddresses(d, ext);
  }

  lemma EndMarkIs(ext: seq<Addr>, i: nat)
    ensures i < |ext| && ext[i] != 0 ==> EndMark(ext[i]) == Link(ext, i)
    ensures i >= |ext| ==> EndMark(0) == Link(ext, i)
    ensures 0 != FS_NULL
  {
  }

  lemma HeaderRecord(m: KNodes, d: Addr, ext: seq<Addr>)
    requires KOk(m, d, ext)
    ensures RecordsOk(m, d, [d] + ext) && d in [d] + ext && d in m && m[d].KDir? && RecordOk(m[d], d) && m[d].size <= |m[d].slots|
    ensures d != FS_NULL
  {
    assert ([d] + ext)[0] == d;
    hide DirOk, View;
  }

  /** The header's tail pointer is the last extent again. */
  lemma TailWithout(h: KNode, ext: seq<Addr>, i: nat, prev: Addr, next: Addr)
    requires h.KDir? && i < |ext| && h.next == ext[0] != 0 && h.tail == Last(ext)
    requires prev == (if i == 0 then 0 else ext[i - 1]) && next == (if i + 1 < |ext| then ext[i + 1] else 0)
    requires (i > 0 ==> prev != 0) && (i + 1 < |ext| ==> next != 0)
    ensures HeaderWithout(h, prev, next).tail == Last(Without(ext, i))
  {
    assert |Without(ext, i)| == |ext| - 1;
    if |ext| > 1 {
      assert Without(ext, i)[|ext| - 2] == if i < |ext| - 1 then ext[|ext| - 1] else ext[|ext| - 2];
    }
  }

  lemma UnlinkedElsewhere(m: KNodes, d: Addr, e: Addr, own: seq<Addr>)
    requires d in m && m[d].KDir? && e in m && m[e].KExt? && e != d && d in own && e in own && 0 !in m && FS_NULL !in m
    requires (m[e].prev != 0 ==> m[e].prev in own && m[e].prev in m) && (m[e].next != 0 ==> m[e].next in own && m[e].next in m)
    ensures var m' := KUnlinked(m, d, e);
            && d in m' && m'[d] == HeaderWithout(m[d], m[e].prev, m[e].next)
            && 0 !in m' && FS_NULL !in m' && KSameOutside(m, m', own) && e !in m'
  {
    hide HeaderWithout, WithFollowing, WithPrevious;
  }

  lemma UnlinkedTail(m: KNodes, d: Addr, ext: seq<Addr>, i: nat)
    requires KOk(m, d, ext) && i < |ext| && ext[i] in m && m[ext[i]].KExt?
    ensures var m' := KUnlinked(m, d, ext[i]);
            && d in m' && m'[d].KDir? && m'[d].tail == Last(Without(ext, i)) && 0 !in m' && FS_NULL !in m'
            && KSameOutside(m, m', [d] + ext) && ext[i] !in m'
  {
    Neighbours(m, d, ext, i);
    AtKHeader(m, d, ext);
    AtKExtent(m, d, ext, 0);
    OwnMember(d, ext, i);
    NoNull(m, d, ext);
    hide *;
    HeaderStays(m[d], m[ext[i]].prev, m[ext[i]].next);
    TailWithout(m[d], ext, i, m[ext[i]].prev, m[ext[i]].next);
    UnlinkedElsewhere(m, d, ext[i], [d] + ext);
  }

  lemma HeaderStays(h: KNode, prev: Addr, next: Addr)
    requires h.KDir?
    ensures HeaderWithout(h, prev, next).KDir?
  {
  }

  lemma NoNull(m: KNodes, d: Addr, ext: seq<Addr>)
    requires KOk(m, d, ext)
    ensures 0 !in m && FS_NULL !in m && d in m && m[d].KDir?
  {
  }

  /** Taking out the only reference of an extent: the extent goes too, from any place in the chain. */
  lemma KExtentDrop(m: KNodes, d: Addr, ext: seq<Addr>, i: nat, ref: Addr)
    requires KOk(m, d, ext) && i < |ext| && ext[i] in m && m[ext[i]].KExt?
    requires m[ext[i]].size == 1 <= |m[ext[i]].slots| && m[ext[i]].slots[0] == ref
    requires ref !in HeldAt(View(m, d, [d] + ext), d) + ExtRefs(View(m, d, [d] + ext), ext[..i])
    ensures KRemoved(m, KUnlinked(m, d, ext[i]), d, ext, Without(ext, i), ref)
  {
    var v := View(m, d, [d] + ext);
    AtKExtent(m, d, ext, i);
    AtKHeader(m, d, ext);
    assert HeldAt(v, ext[i]) == [ref];
    UnlinkedView(m, d, ext, i);
    UnlinkedTail(m, d, ext, i);
    WithoutFacts(d, ext, i);
    ExtentDrop(v, d, ext, i, ref);
    hide DirOk, View, HeldAt, Refs, ExtRefs, RecordsOk, Distinct, KUnlinked, Unlinked, Without, Remove, KSameOutside, Last, SameOutside;
  }

  // ---------------------------------------------------------------- adding

  /** What is listed up to and with the first record that has room. */
  ghost function KChecked(m: KNodes, d: Addr, ext: seq<Addr>): seq<Addr>
    requires RecordsOk(m, d, [d] + ext)
  {
    Checked(View(m, d, [d] + ext), [d] + ext)
  }

  /** m' is m with ref put in after that. */
  ghost predicate KAdded(m: KNodes, m': KNodes, d: Addr, ext: seq<Addr>, ext': seq<Addr>, ref: Addr) {
    && KOk(m, d, ext) && KOk(m', d, ext')
    && |KChecked(m, d, ext)| <= |KRefs(m, d, ext)|
    && KRefs(m', d, ext') == Inserted(KRefs(m, d, ext), |KChecked(m, d, ext)|, ref)
    && KSameOutside(m, m', [d] + ext')
  }

  lemma KHeaderAppend(m: KNodes, d: Addr, ext: seq<Addr>, ref: Addr)
    requires KOk(m, d, ext) && m[d].size < |m[d].slots|
    ensures KAdded(m, m[d := KAppended(m[d], ref)], d, ext, ext, ref)
  {
    AtKHeader(m, d, ext);
    assert ([d] + ext)[0] == d;
    assert RecordOk(m[d], d);
    KAppendedView(m[d], d, ref);
    HeaderAppend(View(m, d, [d] + ext), d, ext, ref);
    assert KAppended(m[d], ref).KDir? && KAppended(m[d], ref).tail == m[d].tail;
    hide DirOk, AsNode, RecordOk, KAppended, Appended, HeldAt, ExtRefs, Checked, Inserted, KSameOutside, SameOutside, HasRoom;
    RewriteKeepsK(m, d, ext, d, KAppended(m[d], ref));
  }

  lemma KExtentAppend(m: KNodes, d: Addr, ext: seq<Addr>, i: nat, ref: Addr)
    requires KOk(m, d, ext) && i < |ext| && ext[i] in m && m[ext[i]].size < |m[ext[i]].slots|
    requires var v := View(m, d, [d] + ext); Checked(v, [d] + ext) == HeldAt(v, d) + ExtRefs(v, ext[..i]) + HeldAt(v, ext[i])
    ensures KAdded(m, m[ext[i] := KAppended(m[ext[i]], ref)], d, ext, ext, ref)
  {
    AtKHeader(m, d, ext);
    AtKExtent(m, d, ext, i);
    OwnMember(d, ext, i);
    assert RecordOk(m[ext[i]], d);
    KAppendedView(m[ext[i]], d, ref);
    ExtentAppend(View(m, d, [d] + ext), d, ext, i, ref);
    hide DirOk, AsNode, RecordOk, KAppended, Appended, HeldAt, ExtRefs, Checked, Inserted, KSameOutside, SameOutside, HasRoom;
    RewriteKeepsK(m, d, ext, ext[i], KAppended(m[ext[i]], ref));
  }

  /** The header once the extent at spare follows the last one, or is the first. */
  function HeaderWith(h: KNode, prev: Addr, spare: Addr): KNode
    requires h.KDir?
  {
    KDir(h.parent, if prev != 0 then h.next else spare, spare, h.slots, h.size)
  }

  function KExtended(m: KNodes, d: Addr, prev: Addr, spare: Addr, node: KNode): KNodes
    requires d in m && m[d].KDir?
  {
    var m1 := m[spare := node];
    var m2 := if prev != 0 && prev in m1 then m1[prev := WithFollowing(m1[prev], spare)] else m1;
    m2[d := HeaderWith(m[d], prev, spare)]
  }

  lemma ViewInsert(m: KNodes, d: Addr, own: seq<Addr>, own': seq<Addr>, a: Addr, n: KNode)
    requires RecordsOk(m, d, own) && a !in own && RecordOk(n, d) && forall x :: x in own' <==> x in own || x == a
    ensures RecordsOk(m[a := n], d, own') && View(m[a := n], d, own') == View(m, d, own)[a := AsNode(n, d)]
  {
    hide AsNode, RecordOk;
  }

  lemma HeaderWithView(h: KNode, d: Addr, prev: Addr, spare: Addr)
    requires h.KDir? && h.size <= |h.slots|
    ensures var n := HeaderWith(h, prev, spare);
            && n.KDir? && n.size == h.size && n.slots == h.slots && n.tail == spare
            && AsNode(n, d) == (if prev == 0 then WithNext(AsNode(h, d), EndMark(spare)) else AsNode(h, d))
            && (spare != FS_NULL && RecordOk(h, d) ==> RecordOk(n, d))
  {
  }

  lemma ExtendedView(m: KNodes, d: Addr, ext: seq<Addr>, spare: Addr, node: KNode)
    requires KOk(m, d, ext) && spare !in m && spare != 0 && spare != FS_NULL && RecordOk(node, d) && node.KExt?
    requires node.prev == Last(ext)
    ensures d in m && m[d].KDir?
    ensures RecordsOk(KExtended(m, d, Last(ext), spare, node), d, [d] + (ext + [spare]))
    ensures View(KExtended(m, d, Last(ext), spare, node), d, [d] + (ext + [spare]))
         == Extended(View(m, d, [d] + ext), d, ext, spare, AsNode(node, d))
  {
    hide *;
    var own, own', prev := [d] + ext, [d] + (ext + [spare]), Last(ext);
    HeaderRecord(m, d, ext);
    RecordFits(node, d);
    var v := View(m, d, own);
    LastOwned(m, d, ext);
    LastIs(ext);
    NotOwned(m, d, own, spare);
    OwnWith(d, ext, spare);
    var m1 := m[spare := node];
    ViewInsert(m, d, own, own', spare, node);
    DirectoryOps.ExtendedSize(v, d, ext, spare, AsNode(node, d));
    EndMarkOf(spare);
    ExtendedSteps(m, d, prev, spare, node);
    if prev == 0 {
      FirstExtent(m1, d, own', spare);
      NextAndInsert(v, d, spare, AsNode(node, d));
    } else {
      FurtherExtent(m1, d, own', prev, spare);
      NextAndInsert(v, prev, spare, AsNode(node, d));
    }
  }

  lemma RecordFits(n: KNode, d: Addr)
    requires RecordOk(n, d)
    ensures n.size <= |n.slots|
  {
  }

  lemma EndMarkOf(a: Addr)
    requires a != 0
    ensures EndMark(a) == a
  {
  }

  lemma LastIs(ext: seq<Addr>)
    ensures Last(ext) == if ext == [] then 0 else ext[|ext| - 1]
  {
  }

  lemma OwnWith(d: Addr, ext: seq<Addr>, spare: Addr)
    ensures forall x :: x in [d] + (ext + [spare]) <==> x in [d] + ext || x == spare
  {
    assert [d] + (ext + [spare]) == ([d] + ext) + [spare];
  }

  lemma ExtendedSteps(m: KNodes, d: Addr, prev: Addr, spare: Addr, node: KNode)
    requires d in m && m[d].KDir? && (prev != 0 ==> prev in m)
    ensures KExtended(m, d, prev, spare, node)
         == if prev != 0 then m[spare := node][prev := WithFollowing(m[spare := node][prev], spare)][d := HeaderWith(m[d], prev, spare)]
            else m[spare := node][d := HeaderWith(m[d], prev, spare)]
  {
    hide WithFollowing, HeaderWith;
  }

  /** The header's own link changes. */
  lemma FirstExtent(m: KNodes, d: Addr, own: seq<Addr>, spare: Addr)
    requires RecordsOk(m, d, own) && d in own && m[d].KDir? && spare != FS_NULL
    ensures var m' := m[d := HeaderWith(m[d], 0, spare)];
            RecordsOk(m', d, own) && View(m', d, own) == SetNext(View(m, d, own), d, EndMark(spare))
  {
    ViewHas(m, d, own, d);
    HeaderWithView(m[d], d, 0, spare);
    ViewUpdate(m, d, own, d, HeaderWith(m[d], 0, spare));
    hide AsNode, HeaderWith, WithNext, View, RecordsOk, RecordOk;
  }

  /** The last extent's link changes, and of the header only the tail, which the view does not show. */
  lemma FurtherExtent(m: KNodes, d: Addr, own: seq<Addr>, prev: Addr, spare: Addr)
    requires RecordsOk(m, d, own) && d in own && m[d].KDir? && spare != FS_NULL && prev in own && prev != d && prev != 0
    ensures prev in m
    ensures var m' := m[prev := WithFollowing(m[prev], spare)][d := HeaderWith(m[d], prev, spare)];
            RecordsOk(m', d, own) && View(m', d, own) == SetNext(View(m, d, own), prev, EndMark(spare))
  {
    ViewSetNext(m, d, own, prev, spare);
    var m1 := m[prev := WithFollowing(m[prev], spare)];
    ViewHas(m1, d, own, d);
    HeaderWithView(m[d], d, prev, spare);
    ViewUpdate(m1, d, own, d, HeaderWith(m[d], prev, spare));
    hide AsNode, HeaderWith, WithNext, WithFollowing, View, RecordsOk, RecordOk;
  }

  lemma NotOwned(m: KNodes, d: Addr, own: seq<Addr>, a: Addr)
    requires RecordsOk(m, d, own) && a !in m
    ensures a !in own && a !in View(m, d, own)
  {
  }

  lemma ViewHas(m: KNodes, d: Addr, own: seq<Addr>, a: Addr)
    requires RecordsOk(m, d, own) && a in own
    ensures a in View(m, d, own) && a in m && m[a].size <= |m[a].slots| && View(m, d, own)[a] == AsNode(m[a], d)
    ensures RecordOk(m[a], d)
  {
  }

  lemma NextAndInsert(v: Nodes, a: Addr, spare: Addr, n: Node)
    requires a != spare
    ensures SetNext(v[spare := n], a, spare) == SetNext(v, a, spare)[spare := n]
  {
    hide WithNext;
  }

  lemma LastOwned(m: KNodes, d: Addr, ext: seq<Addr>)
    requires KOk(m, d, ext)
    ensures ext == [] <==> Last(ext) == 0
    ensures ext != [] ==> Last(ext) in m && Last(ext) in [d] + ext && m[Last(ext)].KExt? && Last(ext) != d && Last(ext) != FS_NULL
  {
    if ext != [] {
      AtKExtent(m, d, ext, |ext| - 1);
      OwnMember(d, ext, |ext| - 1);
    }
  }

  /** There was no room anywhere. */
  lemma KExtentNew(m: KNodes, d: Addr, ext: seq<Addr>, spare: Addr, node: KNode, ref: Addr)
    requires KOk(m, d, ext) && spare !in m && spare != 0 && spare != FS_NULL
    requires !AnyRoom(View(m, d, [d] + ext), [d] + ext)
    requires RecordOk(node, d) && node.KExt? && node.prev == Last(ext) && node.next == 0 && node.size == 1 && node.slots[0] == ref
    ensures d in m && m[d].KDir? && KAdded(m, KExtended(m, d, Last(ext), spare, node), d, ext, ext + [spare], ref)
  {
    AtKHeader(m, d, ext);
    LastOwned(m, d, ext);
    ExtendedView(m, d, ext, spare, node);
    NewNode(node, d, ref);
    var v := View(m, d, [d] + ext);
    NotOwned(m, d, [d] + ext, spare);
    ExtentNew(v, d, ext, spare, AsNode(node, d), ref);
    KExtendedRest(m, d, ext, spare, node);
    hide DirOk, View, HeldAt, Refs, ExtRefs, RecordsOk, Distinct, KExtended, Extended, KSameOutside, SameOutside, AnyRoom, Checked, Inserted, AsNode;
  }

  lemma NewNode(node: KNode, d: Addr, ref: Addr)
    requires RecordOk(node, d) && node.KExt? && node.next == 0 && node.size == 1 && node.slots[0] == ref
    ensures var n := AsNode(node, d);
            n.DirExtent? && n.count == 1 <= |n.slots| && n.next == FS_NULL && n.slots[0] == ref && n.prev == (if node.prev == 0 then d else node.prev)
  {
  }

  lemma KExtendedRest(m: KNodes, d: Addr, ext: seq<Addr>, spare: Addr, node: KNode)
    requires KOk(m, d, ext) && d in m && m[d].KDir? && spare != 0 && spare != FS_NULL && spare !in m
    ensures var m' := KExtended(m, d, Last(ext), spare, node);
            && d in m' && m'[d].KDir? && m'[d].tail == Last(ext + [spare]) && 0 !in m' && FS_NULL !in m'
            && KSameOutside(m, m', [d] + (ext + [spare]))
  {
    LastOwned(m, d, ext);
    var own' := [d] + (ext + [spare]);
    assert own' == ([d] + ext) + [spare] && own'[0] == d && own'[|own'| - 1] == spare;
    hide DirOk, View, Refs, RecordsOk, Distinct;
  }
}
