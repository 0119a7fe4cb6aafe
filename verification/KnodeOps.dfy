/** The operations on directories of kernel nodes (kernel/knode.c:24-58, 142-338), and what they
    amount to on the set of references a directory stands for. */
module KnodeOps {
  import opened Basics
  import opened Volume
  import opened Directory
  import opened DirectoryAdd
  import opened Knode
  import DirectoryOps

  ghost predicate IsKDir(m: KNodes, a: Addr) {
    a in m && m[a].KDir?
  }

  /** Where a walk over the extents stands: the i-th link of the chain. */
  function KLink(ext: seq<Addr>, i: nat): Addr {
    if i < |ext| then ext[i] else 0
  }

  lemma AtKLink(m: KNodes, d: Addr, ext: seq<Addr>, i: nat)
    requires KOk(m, d, ext) && i <= |ext|
    ensures KLink(ext, i) != 0 && KLink(ext, i) != KMALLOC_NULL <==> i < |ext|
    ensures RecordsOk(m, d, [d] + ext)
    ensures i < |ext| ==> var e, v := ext[i], View(m, d, [d] + ext);
      && e in m && m[e].KExt? && 1 <= m[e].size <= |m[e].slots| == DIRECTORYEX_REFS && e != d
      && m[e].next == KLink(ext, i + 1)
      && HeldAt(v, e) == m[e].slots[..m[e].size] && (HasRoom(v, e) <==> m[e].size < DIRECTORYEX_REFS)
      && ExtRefs(v, ext[..i + 1]) == ExtRefs(v, ext[..i]) + HeldAt(v, e)
      && KRefs(m, d, ext) == HeldAt(v, d) + ExtRefs(v, ext[..i]) + HeldAt(v, e) + ExtRefs(v, ext[i + 1..])
    ensures i == |ext| ==> var v := View(m, d, [d] + ext); KRefs(m, d, ext) == HeldAt(v, d) + ExtRefs(v, ext[..i])
  {
    OwnRecords(m, d, ext);
    var v := View(m, d, [d] + ext);
    if i < |ext| {
      AtKExtent(m, d, ext, i);
      RefsParts(v, d, ext, i);
      SplitRefs(v, ext, i);
      KRefsAre(m, d, ext);
      hide *;
      LinkAt(ext, i);
      LinkAt(ext, i + 1);
    } else {
      assert ext[..i] == ext;
      hide KOk, View, HeldAt, ExtRefs;
    }
  }

  lemma LinkAt(ext: seq<Addr>, i: nat)
    ensures KLink(ext, i) == if i < |ext| then ext[i] else 0
  {
  }

  lemma OwnRecords(m: KNodes, d: Addr, ext: seq<Addr>)
    requires KOk(m, d, ext)
    ensures RecordsOk(m, d, [d] + ext)
  {
  }

  lemma KRefsAre(m: KNodes, d: Addr, ext: seq<Addr>)
    requires RecordsOk(m, d, [d] + ext)
    ensures KRefs(m, d, ext) == Refs(View(m, d, [d] + ext), d, ext)
  {
  }

  lemma KDirIs(m: KNodes, a: Addr)
    ensures IsKDir(m, a) <==> a in m && m[a].KDir?
  {
  }

  // ---------------------------------------------------------------- a directory is a set

  /** The references are those of a set: none is listed twice, and none is null. */
  ghost predicate SetOk(m: KNodes, d: Addr, ext: seq<Addr>) {
    && KOk(m, d, ext) && Distinct(KRefs(m, d, ext))
    && 0 !in KRefs(m, d, ext) && KMALLOC_NULL !in KRefs(m, d, ext)
  }

  ghost function Members(m: KNodes, d: Addr, ext: seq<Addr>): set<Addr>
    requires RecordsOk(m, d, [d] + ext)
  {
    set a | a in KRefs(m, d, ext)
  }

  /** Adding a reference that is not listed keeps a set and puts exactly that reference in. */
  lemma AddIsUnion(m: KNodes, m': KNodes, d: Addr, ext: seq<Addr>, ext': seq<Addr>, ref: Addr)
    requires KAdded(m, m', d, ext, ext', ref) && SetOk(m, d, ext)
    requires ref != 0 && ref != KMALLOC_NULL && ref !in KRefs(m, d, ext)
    ensures SetOk(m', d, ext') && Members(m', d, ext') == Members(m, d, ext) + {ref}
  {
    OwnRecords(m, d, ext);
    OwnRecords(m', d, ext');
    hide KOk, KRefs, KChecked, Distinct, KSameOutside, RecordsOk, Inserted;
    var refs, at := KRefs(m, d, ext), |KChecked(m, d, ext)|;
    InsertedMembers(refs, at, ref);
    AddKeepsDistinctIff(refs, at, ref);
  }

  lemma InsertedMembers(refs: seq<Addr>, at: nat, ref: Addr)
    requires at <= |refs|
    ensures forall x :: x in Inserted(refs, at, ref) <==> x in refs || x == ref
    ensures forall x :: x in refs[at..] || x in refs[..at] ==> x in refs
  {
    assert refs == refs[..at] + refs[at..];
  }

  /** Removing a reference from a set takes exactly that reference out. */
  lemma RemoveIsDifference(m: KNodes, m': KNodes, d: Addr, ext: seq<Addr>, ext': seq<Addr>, ref: Addr)
    requires KRemoved(m, m', d, ext, ext', ref) && SetOk(m, d, ext)
    ensures SetOk(m', d, ext') && Members(m', d, ext') == Members(m, d, ext) - {ref}
  {
    OwnRecords(m, d, ext);
    OwnRecords(m', d, ext');
    hide KOk, KRefs, Distinct, KSameOutside, RecordsOk, Remove;
    RemoveFromDistinct(KRefs(m, d, ext), ref);
  }

  lemma {:induction false} RemoveFromDistinct(s: seq<Addr>, x: Addr)
    requires Distinct(s)
    ensures Distinct(Remove(s, x)) && forall y :: y in Remove(s, x) <==> y in s && y != x
  {
    RemoveStep(s, x);
    hide Remove;
    if s != [] {
      var rest := s[1..];
      assert s == [s[0]] + rest;
      assert Distinct(rest) && s[0] !in rest by { assert forall j :: 0 <= j < |rest| ==> rest[j] == s[j + 1]; }
      RemoveFromDistinct(rest, x);
    }
  }

  /** What was added can be removed again, and the enumeration is as before. */
  lemma AddThenRemoveK(m: KNodes, m1: KNodes, m2: KNodes, d: Addr, ext: seq<Addr>, ext1: seq<Addr>, ext2: seq<Addr>,
      ref: Addr)
    requires KAdded(m, m1, d, ext, ext1, ref) && KRemoved(m1, m2, d, ext1, ext2, ref)
    requires ref !in KRefs(m, d, ext)
    ensures KRefs(m2, d, ext2) == KRefs(m, d, ext)
  {
    OwnRecords(m, d, ext);
    OwnRecords(m1, d, ext1);
    OwnRecords(m2, d, ext2);
    hide KOk, KRefs, KChecked, KSameOutside, RecordsOk, Inserted, Remove;
    RemoveInserted(KRefs(m, d, ext), |KChecked(m, d, ext)|, ref);
  }

  /** Operations on one directory leave every other directory alone. */
  lemma OtherKnodeUnchanged(m: KNodes, m': KNodes, own: seq<Addr>, other: Addr, ext: seq<Addr>)
    requires KSameOutside(m, m', own) && KOk(m, other, ext) && 0 !in m' && FS_NULL !in m'
    requires forall a :: a in [other] + ext ==> a !in own
    ensures KOk(m', other, ext) && KRefs(m', other, ext) == KRefs(m, other, ext)
  {
    assert ([other] + ext)[0] == other;
    assert RecordsOk(m', other, [other] + ext);
    assert View(m', other, [other] + ext) == View(m, other, [other] + ext);
    hide DirOk, Refs, AsNode;
  }

  lemma NotHeld(m: KNodes, d: Addr, ext: seq<Addr>, ref: Addr)
    requires KOk(m, d, ext) && ref !in KRefs(m, d, ext)
    ensures RecordsOk(m, d, [d] + ext) && ref !in HeldAt(View(m, d, [d] + ext), d)
    ensures forall i :: 0 <= i < |ext| ==> ref !in HeldAt(View(m, d, [d] + ext), ext[i])
  {
    AtKHeader(m, d, ext);
    hide KOk, DirOk, View, HeldAt, ExtRefs, KRefs;
    forall i | 0 <= i < |ext| ensures ref !in HeldAt(View(m, d, [d] + ext), ext[i]) {
      AtKLink(m, d, ext, i);
    }
  }

  /** The first slot in use that holds ref, or the number of slots in use. */
  method FindSlot(n: KNode, ref: Addr) returns (index: nat)
    requires n.size <= |n.slots|
    ensures index <= n.size && (index < n.size ==> n.slots[index] == ref)
    ensures forall j :: 0 <= j < index ==> n.slots[j] != ref
    ensures index < n.size <==> ref in n.slots[..n.size]
  {
    index := 0;
    while index < n.size
      invariant index <= n.size
      invariant forall j :: 0 <= j < index ==> n.slots[j] != ref
    {
      if n.slots[index] == ref {
        assert n.slots[..n.size][index] == ref;
        return;
      }
      index := index + 1;
    }
  }

  /** The record with slot index taken out, as the loop computes it. */
  method ShiftOut(n: KNode, index: nat) returns (r: KNode)
    requires index < n.size <= |n.slots|
    ensures r == KShifted(n, index)
  {
    var slots := n.slots;
    var shift := index;
    while shift + 1 < n.size
      invariant index <= shift < n.size && |slots| == |n.slots|
      invariant forall j :: 0 <= j < index || shift <= j < |slots| ==> slots[j] == n.slots[j]
      invariant forall j :: index <= j < shift ==> slots[j] == n.slots[j + 1]
    {
      slots := slots[shift := slots[shift + 1]];
      shift := shift + 1;
    }
    slots := slots[n.size - 1 := 0];
    KShiftedSlots(n, index);
    assert slots == KShifted(n, index).slots;
    r := WithRefs(n, slots, n.size - 1);
  }

  lemma KShiftedSlots(n: KNode, index: nat)
    requires index < n.size <= |n.slots|
    ensures |KShifted(n, index).slots| == |n.slots|
    ensures forall j :: 0 <= j < |n.slots| ==>
      KShifted(n, index).slots[j]
        == if index <= j < n.size - 1 then n.slots[j + 1] else if j == n.size - 1 then 0 else n.slots[j]
    ensures KShifted(n, index) == WithRefs(n, KShifted(n, index).slots, n.size - 1)
  {
  }

  lemma Indexed(a: seq<Addr>, b: seq<Addr>, c: seq<Addr>, e: seq<Addr>, left: nat)
    requires left < |c|
    ensures |a| + |b| + left < |a + b + c + e| && (a + b + c + e)[|a| + |b| + left] == c[left]
  {
  }

  class Knodes {
    var nodes: KNodes

    method Contains(d: Addr, ref: Addr, ghost ext: seq<Addr>) returns (found: bool)
      requires IsKDir(nodes, d) ==> KOk(nodes, d, ext)
      ensures found <==> IsKDir(nodes, d) && ref != 0 && ref != KMALLOC_NULL && ref in KRefs(nodes, d, ext)
    {
      hide *;
      KDirIs(nodes, d);
      if d !in nodes || !nodes[d].KDir? { return false; }
      if ref == 0 || ref == KMALLOC_NULL { return false; }
      AtKHeader(nodes, d, ext);
      AtKLink(nodes, d, ext, 0);
      LinkAt(ext, 0);
      var index := FindSlot(nodes[d], ref);
      if index < nodes[d].size { return true; }
      var extent := nodes[d].next;
      ghost var i: nat := 0;
      while extent != 0 && extent != KMALLOC_NULL
        invariant i <= |ext| && extent == KLink(ext, i)
        invariant ref !in HeldAt(View(nodes, d, [d] + ext), d) + ExtRefs(View(nodes, d, [d] + ext), ext[..i])
        decreases |ext| - i
      {
        AtKLink(nodes, d, ext, i);
        LinkAt(ext, i);
        index := FindSlot(nodes[extent], ref);
        if index < nodes[extent].size { return true; }
        extent, i := nodes[extent].next, i + 1;
      }
      AtKLink(nodes, d, ext, i);
      return false;
    }

    method GetReference(d: Addr, index: nat, ghost ext: seq<Addr>) returns (address: Addr)
      requires IsKDir(nodes, d) ==> KOk(nodes, d, ext)
      ensures address == if IsKDir(nodes, d) && index < |KRefs(nodes, d, ext)| then KRefs(nodes, d, ext)[index] else KMALLOC_NULL
    {
      hide *;
      KDirIs(nodes, d);
      if d !in nodes || !nodes[d].KDir? { return KMALLOC_NULL; }
      AtKHeader(nodes, d, ext);
      AtKLink(nodes, d, ext, 0);
      LinkAt(ext, 0);
      if index < nodes[d].size { return nodes[d].slots[index]; }
      var left: nat := index - nodes[d].size;
      var extent := nodes[d].next;
      ghost var i: nat := 0;
      while extent != 0 && extent != KMALLOC_NULL
        invariant i <= |ext| && extent == KLink(ext, i)
        invariant index == left + |HeldAt(View(nodes, d, [d] + ext), d)| + |ExtRefs(View(nodes, d, [d] + ext), ext[..i])|
        decreases |ext| - i
      {
        AtKLink(nodes, d, ext, i);
        LinkAt(ext, i);
        if left < nodes[extent].size {
          Indexed(HeldAt(View(nodes, d, [d] + ext), d), ExtRefs(View(nodes, d, [d] + ext), ext[..i]), nodes[extent].slots[..nodes[extent].size],
            ExtRefs(View(nodes, d, [d] + ext), ext[i + 1..]), left);
          return nodes[extent].slots[left];
        }
        left := left - nodes[extent].size;
        extent, i := nodes[extent].next, i + 1;
      }
      AtKLink(nodes, d, ext, i);
      return KMALLOC_NULL;
    }

    method GetReferenceCount(d: Addr, ghost ext: seq<Addr>) returns (total: nat)
      requires IsKDir(nodes, d) ==> KOk(nodes, d, ext)
      ensures total == if IsKDir(nodes, d) then |KRefs(nodes, d, ext)| else KMALLOC_NULL
    {
      hide *;
      KDirIs(nodes, d);
      if d !in nodes || !nodes[d].KDir? { return KMALLOC_NULL; }
      AtKHeader(nodes, d, ext);
      AtKLink(nodes, d, ext, 0);
      LinkAt(ext, 0);
      total := nodes[d].size;
      var extent := nodes[d].next;
      ghost var i: nat := 0;
      while extent != 0 && extent != KMALLOC_NULL
        invariant i <= |ext| && extent == KLink(ext, i)
        invariant total == |HeldAt(View(nodes, d, [d] + ext), d)| + |ExtRefs(View(nodes, d, [d] + ext), ext[..i])|
        decreases |ext| - i
      {
        AtKLink(nodes, d, ext, i);
        LinkAt(ext, i);
        total := total + nodes[extent].size;
        extent, i := nodes[extent].next, i + 1;
      }
      AtKLink(nodes, d, ext, i);
    }

    /** Takes the i-th extent out of the chain and frees it; the header is written back last. */
    method UnlinkAndFree(d: Addr, extent: Addr, ghost ext: seq<Addr>, ghost i: nat)
      requires KOk(nodes, d, ext) && i < |ext| && extent == ext[i]
      modifies this
      ensures extent in old(nodes) && d in old(nodes) && old(nodes)[d].KDir? && old(nodes)[extent].KExt?
      ensures nodes == KUnlinked(old(nodes), d, extent)
    {
      Neighbours(nodes, d, ext, i);
      NoNull(nodes, d, ext);
      hide KOk, DirOk, RecordsOk, RecordOk, Distinct;
      var header := nodes[d];
      var prev, next := nodes[extent].prev, nodes[extent].next;
      if prev != 0 && prev != KMALLOC_NULL {
        nodes := nodes[prev := WithFollowing(nodes[prev], next)];
      } else {
        header := WithFollowing(header, next);
      }
      if next != 0 && next != KMALLOC_NULL {
        nodes := nodes[next := WithPrevious(nodes[next], prev)];
      } else {
        header := WithTail(header, prev);
      }
      if header.next == 0 || header.next == KMALLOC_NULL { header := WithTail(header, 0); }
      nodes := nodes[d := header];
      nodes := nodes - {extent};
    }

    method TakeFromExtent(d: Addr, extent: Addr, index: nat, ghost ext: seq<Addr>,
        ghost i: nat) returns (ghost ext': seq<Addr>)
      requires KOk(nodes, d, ext) && i < |ext| && extent == ext[i]
      requires extent in nodes && nodes[extent].KExt? && index < nodes[extent].size <= |nodes[extent].slots|
      requires nodes[extent].slots[index] !in HeldAt(View(nodes, d, [d] + ext), d) + ExtRefs(View(nodes, d, [d] + ext), ext[..i])
      requires forall j :: 0 <= j < index ==> nodes[extent].slots[j] != nodes[extent].slots[index]
      modifies this
      ensures KRemoved(old(nodes), nodes, d, ext, ext', old(nodes[extent].slots[index]))
    {
      ghost var ref := nodes[extent].slots[index];
      var record := ShiftOut(nodes[extent], index);
      ShiftedSize(nodes[extent], index);
      if record.size == 0 {
        KExtentDrop(nodes, d, ext, i, ref);
        hide KOk, KRemoved, KUnlinked, View, HeldAt, ExtRefs, KShifted, Without;
        ext' := Without(ext, i);
        UnlinkAndFree(d, extent, ext, i);
      } else {
        KExtentShrink(nodes, d, ext, i, index);
        hide KOk, KRemoved, View, HeldAt, ExtRefs, KShifted;
        ext' := ext;
        nodes := nodes[extent := record];
      }
    }

    /** Takes ref out of directory d. */
    method RemoveReference(d: Addr, ref: Addr, ghost ext: seq<Addr>) returns (done: bool, ghost ext': seq<Addr>)
      requires IsKDir(nodes, d) ==> KOk(nodes, d, ext)
      modifies this
      ensures done <==> old(IsKDir(nodes, d) && ref in KRefs(nodes, d, ext))
      ensures !done ==> nodes == old(nodes)
      ensures done ==> KRemoved(old(nodes), nodes, d, ext, ext', ref)
    {
      ext' := ext;
      if d !in nodes || !nodes[d].KDir? { return false, ext; }
      hide KOk, DirOk, RecordsOk, KRefs, View, HeldAt, ExtRefs, KLink, KRemoved, KShifted;
      AtKHeader(nodes, d, ext);
      AtKLink(nodes, d, ext, 0);
      LinkAt(ext, 0);
      var index := FindSlot(nodes[d], ref);
      if index < nodes[d].size {
        var record := ShiftOut(nodes[d], index);
        KHeaderRemove(nodes, d, ext, index);
        nodes := nodes[d := record];
        return true, ext;
      }
      var extent := nodes[d].next;
      ghost var i: nat := 0;
      while extent != 0 && extent != KMALLOC_NULL
        invariant nodes == old(nodes) && i <= |ext| && extent == KLink(ext, i)
        invariant ref !in HeldAt(View(nodes, d, [d] + ext), d) + ExtRefs(View(nodes, d, [d] + ext), ext[..i])
        decreases |ext| - i
      {
        AtKLink(nodes, d, ext, i);
        LinkAt(ext, i);
        index := FindSlot(nodes[extent], ref);
        if index < nodes[extent].size {
          ext' := TakeFromExtent(d, extent, index, ext, i);
          return true, ext';
        }
        extent, i := nodes[extent].next, i + 1;
      }
      AtKLink(nodes, d, ext, i);
      return false, ext;
    }

    /** A new extent holding ref alone, after the last one; spare is what the allocator answers. */
    method AddExtent(d: Addr, prev: Addr, ref: Addr, spare: Addr, ghost ext: seq<Addr>)
      requires KOk(nodes, d, ext) && prev == Last(ext) && !AnyRoom(View(nodes, d, [d] + ext), [d] + ext)
      requires spare !in nodes && spare != 0 && spare != KMALLOC_NULL
      modifies this
      ensures KAdded(old(nodes), nodes, d, ext, ext + [spare], ref)
    {
      hide *;
      ghost var m := nodes;
      NewExtent(m, d, ext, prev, ref, spare);
      ghost var node := KExt(prev, 0, NoRefs()[0 := ref], 1);
      var header := nodes[d];
      nodes := nodes[spare := KExt(0, 0, NoRefs(), 0)];
      nodes := nodes[spare := KExt(prev, 0, nodes[spare].slots[0 := ref], 1)];
      assert nodes == m[spare := node];
      if prev != 0 {
        nodes := nodes[prev := WithFollowing(nodes[prev], spare)];
      } else {
        header := WithFollowing(header, spare);
      }
      header := WithTail(header, spare);
      nodes := nodes[d := header];
      StoredSteps(m, d, prev, spare, node);
    }

    /** Puts ref into the first record with room, or into a new extent, unless it is listed anywhere. */
    method AddReference(d: Addr, ref: Addr, spare: Addr, ghost ext: seq<Addr>) returns (done: bool,
        ghost ext': seq<Addr>)
      requires IsKDir(nodes, d) ==> KOk(nodes, d, ext)
      requires spare != KMALLOC_NULL ==> spare !in nodes && spare != 0
      modifies this
      ensures done <==> old(&& IsKDir(nodes, d) && ref != 0 && ref != KMALLOC_NULL && ref !in KRefs(nodes, d, ext)
                            && (spare != KMALLOC_NULL || AnyRoom(View(nodes, d, [d] + ext), [d] + ext)))
      ensures !done ==> nodes == old(nodes)
      ensures done ==> KAdded(old(nodes), nodes, d, ext, ext', ref)
      ensures done ==> ext' == old(if AnyRoom(View(nodes, d, [d] + ext), [d] + ext) then ext else ext + [spare])
    {
      ext' := ext;
      if d !in nodes || !nodes[d].KDir? { return false, ext; }
      if ref == 0 || ref == KMALLOC_NULL { return false, ext; }
      var found := Contains(d, ref, ext);
      if found { return false, ext; }
      hide KOk, DirOk, RecordsOk, KRefs, View, HeldAt, ExtRefs, KLink, KAdded, KAppended, Passed, AnyRoom, HasRoom, Last, Checked;
      ghost var v := View(nodes, d, [d] + ext);
      AtKHeader(nodes, d, ext);
      NotHeld(nodes, d, ext, ref);
      if nodes[d].size < DIRECTORY_REFS {
        KHeaderAppend(nodes, d, ext, ref);
        DirectoryOps.HeaderChecked(v, d, ext);
        nodes := nodes[d := KAppended(nodes[d], ref)];
        return true, ext;
      }
      PassedStart(v, d, ext, ref);
      LinkAt(ext, 0);
      LastAt(ext, 0);
      var extent, prev := nodes[d].next, 0;
      ghost var i: nat := 0;
      while extent != 0 && extent != KMALLOC_NULL
        invariant nodes == old(nodes) && i <= |ext| && extent == KLink(ext, i) && prev == Last(ext[..i])
        invariant Passed(v, d, ext, i, ref)
        decreases |ext| - i
      {
        AtKLink(nodes, d, ext, i);
        LinkAt(ext, i);
        PassedFound(v, d, ext, i, ref);
        if nodes[extent].size < DIRECTORYEX_REFS {
          KExtentAppend(nodes, d, ext, i, ref);
          nodes := nodes[extent := KAppended(nodes[extent], ref)];
          return true, ext;
        }
        PassedStep(v, d, ext, i, ref);
        LastAt(ext, i + 1);
        prev, extent, i := extent, nodes[extent].next, i + 1;
      }
      AtKLink(nodes, d, ext, i);
      assert ext[..i] == ext;
      PassedEnd(v, d, ext, ref);
      if spare == KMALLOC_NULL { return false, ext; }
      AddExtent(d, prev, ref, spare, ext);
      return true, ext + [spare];
    }
  }

  lemma NewExtent(m: KNodes, d: Addr, ext: seq<Addr>, prev: Addr, ref: Addr, spare: Addr)
    requires KOk(m, d, ext) && prev == Last(ext) && !AnyRoom(View(m, d, [d] + ext), [d] + ext)
    requires spare !in m && spare != 0 && spare != KMALLOC_NULL
    ensures d in m && m[d].KDir? && (prev != 0 ==> prev in m) && |NoRefs()| > 0
    ensures KAdded(m, KExtended(m, d, prev, spare, KExt(prev, 0, NoRefs()[0 := ref], 1)), d, ext, ext + [spare], ref)
  {
    LastOwned(m, d, ext);
    AtKHeader(m, d, ext);
    hide KOk, View, AnyRoom, KAdded, Last, KExtended, NoRefs;
    KExtentNew(m, d, ext, spare, KExt(prev, 0, NoRefs()[0 := ref], 1), ref);
  }

  lemma StoredSteps(m: KNodes, d: Addr, prev: Addr, spare: Addr, node: KNode)
    requires d in m && m[d].KDir? && (prev != 0 ==> prev in m)
    ensures KExtended(m, d, prev, spare, node)
         == if prev != 0 then m[spare := node][prev := WithFollowing(m[spare := node][prev], spare)][d := WithTail(m[d], spare)]
            else m[spare := node][d := WithTail(WithFollowing(m[d], spare), spare)]
  {
  }

  lemma ShiftedSize(n: KNode, index: nat)
    requires index < n.size <= |n.slots|
    ensures KShifted(n, index).size == n.size - 1
  {
  }

  lemma LastAt(ext: seq<Addr>, i: nat)
    requires i <= |ext|
    ensures Last(ext[..i]) == if i == 0 then 0 else ext[i - 1]
  {
  }
}
