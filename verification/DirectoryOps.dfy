/** The directory operations themselves (kernel/fs/basefs/directory.c:77-390), working in place on
    the records of one volume. */
module DirectoryOps {
  import opened Basics
  import opened Volume
  import opened Directory
  import opened DirectoryAdd

  ghost predicate IsDir(m: Nodes, a: Addr) {
    a in m && m[a].DirNode?
  }

  /** What a caller names a directory by: nothing, a directory or a file, but never an extent. */
  ghost predicate Nameable(m: Nodes, a: Addr) {
    a in m ==> m[a].DirNode? || m[a].FileNode?
  }

  lemma WalkFits(m: Nodes, d: Addr, ext: seq<Addr>)
    requires DirOk(m, d, ext)
    ensures |ext| < |m|
  {
    var own := [d] + ext;
    forall k | k in own ensures k in m {
      if k != d {
        var i :| 0 <= i < |ext| && ext[i] == k;
        assert ExtentOk(m, d, ext, i);
      }
    }
    DistinctFits(own, m);
  }

  /** Where a walk over the extents stands: extent is the i-th link of the chain. */
  lemma AtExtent(m: Nodes, d: Addr, ext: seq<Addr>, i: nat)
    requires DirOk(m, d, ext) && i <= |ext|
    ensures Link(ext, i) != FS_NULL <==> i < |ext|
    ensures i < |ext| ==>
      var e := ext[i];
      && e in m && m[e].DirExtent? && 1 <= m[e].count <= |m[e].slots| && e != d
      && m[e].prev == (if i == 0 then d else ext[i - 1]) && m[e].next == Link(ext, i + 1)
      && HeldAt(m, e) == m[e].slots[..m[e].count]
      && ExtRefs(m, ext[..i + 1]) == ExtRefs(m, ext[..i]) + HeldAt(m, e)
      && ExtRefs(m, ext) == ExtRefs(m, ext[..i]) + HeldAt(m, e) + ExtRefs(m, ext[i + 1..])
    ensures i == |ext| ==> ExtRefs(m, ext[..i]) == ExtRefs(m, ext)
  {
    if i < |ext| {
      ExtentFacts(m, d, ext, i);
      SplitRefs(m, ext, i);
    } else {
      assert ext[..i] == ext;
    }
  }

  lemma AtHeader(m: Nodes, d: Addr, ext: seq<Addr>)
    requires DirOk(m, d, ext)
    ensures d in m && m[d].DirNode? && m[d].count <= |m[d].slots| && m[d].next == Link(ext, 0)
    ensures HeldAt(m, d) == m[d].slots[..m[d].count]
    ensures Refs(m, d, ext) == HeldAt(m, d) + ExtRefs(m, ext)
    ensures ext[..0] == [] && ExtRefs(m, ext[..0]) == []
    ensures |ext| < |m| && Distinct([d] + ext) && d !in ext && FS_NULL !in m
  {
    WalkFits(m, d, ext);
    OwnAddresses(d, ext);
  }

  lemma ShiftedSlots(n: Node, index: nat)
    requires (n.DirNode? || n.DirExtent?) && index < n.count <= |n.slots|
    ensures |Shifted(n, index).slots| == |n.slots|
    ensures forall j :: 0 <= j < |n.slots| ==>
      Shifted(n, index).slots[j]
        == if index <= j < n.count - 1 then n.slots[j + 1] else if j == n.count - 1 then FS_NULL else n.slots[j]
  {
  }

  lemma RewriteSize(m: Nodes, a: Addr, n: Node)
    requires a in m
    ensures |m[a := n]| == |m|
  {
    assert m[a := n].Keys == m.Keys;
    assert |m| == |m.Keys| && |m[a := n]| == |m[a := n].Keys|;
  }

  lemma ShiftTwoSteps(n: Node, index: nat)
    requires (n.DirNode? || n.DirExtent?) && index < n.count <= |n.slots|
    ensures var moved := WithSlots(n, Shifted(n, index).slots, n.count);
            && (moved.DirNode? || moved.DirExtent?) && moved.count == n.count
            && WithSlots(moved, moved.slots, n.count - 1) == Shifted(n, index)
  {
  }

  lemma SetNextElsewhere(m: Nodes, a: Addr, n: Node, p: Addr, next: Addr)
    requires p != a && a in m
    ensures SetNext(m[a := n], p, next) == SetNext(m, p, next)[a := n]
    ensures SetNext(m, p, next).Keys == m.Keys
  {
  }

  lemma SetPrevElsewhere(m: Nodes, a: Addr, n: Node, p: Addr, prev: Addr)
    requires p != a && a in m
    ensures SetPrev(m[a := n], p, prev) == SetPrev(m, p, prev)[a := n]
    ensures SetPrev(m, p, prev).Keys == m.Keys
  {
  }

  lemma RemoveOverwritten(m: Nodes, a: Addr, n: Node)
    requires a in m
    ensures m[a := n] - {a} == m - {a} && |m - {a}| == |m| - 1
  {
    var u := m - {a};
    assert u.Keys == m.Keys - {a};
    assert |u| == |u.Keys| && |m| == |m.Keys|;
  }

  /** What is written into an extent before it is unlinked does not matter, and unlinking frees one
      record. */
  lemma UnlinkedForgets(m: Nodes, d: Addr, ext: seq<Addr>, i: nat, n: Node)
    requires DirOk(m, d, ext) && i < |ext|
    ensures Unlinked(m[ext[i] := n], d, ext, i) == Unlinked(m, d, ext, i)
    ensures |Unlinked(m, d, ext, i)| == |m| - 1 && Unlinked(m, d, ext, i).Keys == m.Keys - {ext[i]}
  {
    ExtentFacts(m, d, ext, i);
    hide DirOk, WithNext, WithPrev, Link, SetNext, SetPrev;
    var p, next := if i == 0 then d else ext[i - 1], Link(ext, i + 1);
    SetNextElsewhere(m, ext[i], n, p, next);
    var m1 := SetNext(m, p, next);
    if i + 1 < |ext| { SetPrevElsewhere(m1, ext[i], n, ext[i + 1], p); }
    var m2 := if i + 1 < |ext| then SetPrev(m1, ext[i + 1], p) else m1;
    RemoveOverwritten(m2, ext[i], n);
    assert |m2| == |m2.Keys| && |m| == |m.Keys|;
  }

  lemma ExtentDrop1(m: Nodes, d: Addr, ext: seq<Addr>, i: nat, index: nat)
    requires DirOk(m, d, ext) && i < |ext|
    requires ext[i] in m && m[ext[i]].DirExtent? && index < m[ext[i]].count == 1 <= |m[ext[i]].slots|
    requires m[ext[i]].slots[index] !in HeldAt(m, d) + ExtRefs(m, ext[..i])
    ensures Removed(m, Unlinked(m, d, ext, i), d, ext, Without(ext, i), m[ext[i]].slots[index])
  {
    assert HeldAt(m, ext[i]) == [m[ext[i]].slots[index]];
    ExtentDrop(m, d, ext, i, m[ext[i]].slots[index]);
  }

  lemma ExtendedSize(m: Nodes, d: Addr, ext: seq<Addr>, spare: Addr, node: Node)
    requires spare !in m
    ensures |Extended(m, d, ext, spare, node)| == |m| + 1
    ensures Extended(m, d, ext, spare, node).Keys == m.Keys + {spare}
    ensures Extended(m, d, ext, spare, node) == SetNext(m, if ext == [] then d else ext[|ext| - 1], spare)[spare := node]
  {
    var m' := Extended(m, d, ext, spare, node);
    assert m'.Keys == m.Keys + {spare};
    assert |m'| == |m'.Keys| && |m| == |m.Keys|;
  }

  lemma LastRecord(m: Nodes, d: Addr, ext: seq<Addr>)
    requires DirOk(m, d, ext)
    ensures (if ext == [] then d else ext[|ext| - 1]) in m
  {
    AtHeader(m, d, ext);
    if ext != [] { AtExtent(m, d, ext, |ext| - 1); }
  }

  /** m once the allocations in chain are freed. */
  ghost function Freed(m: Nodes, chain: seq<Addr>): Nodes {
    m - (set a | a in chain)
  }

  lemma FreedNone(m: Nodes)
    ensures Freed(m, []) == m
  {
  }

  lemma FreedKeeps(m: Nodes, chain: seq<Addr>, a: Addr)
    requires a !in chain && a in m
    ensures a in Freed(m, chain) && Freed(m, chain)[a] == m[a]
  {
  }

  lemma FreedOneMore(m: Nodes, chain: seq<Addr>, a: Addr, more: seq<Addr>)
    requires forall x :: x in more <==> x in chain || x == a
    ensures Freed(m, more) == Freed(m, chain) - {a}
  {
    assert (set x | x in more) == (set x | x in chain) + {a};
  }

  lemma FreedSize(m: Nodes, chain: seq<Addr>)
    ensures |Freed(m, chain)| <= |m| && Freed(m, chain).Keys <= m.Keys
  {
    SmallerMap(m, set x | x in chain);
  }

  lemma FreedStep(m: Nodes, d: Addr, ext: seq<Addr>, i: nat)
    requires i < |ext| && Distinct([d] + ext) && ext[i] in m
    ensures ext[i] in Freed(m, ext[..i]) && Freed(m, ext[..i])[ext[i]] == m[ext[i]]
    ensures Freed(m, ext[..i + 1]) == Freed(m, ext[..i]) - {ext[i]}
  {
    hide Freed;
    OwnAddresses(d, ext);
    assert ext[i] !in ext[..i];
    FreedKeeps(m, ext[..i], ext[i]);
    assert ext[..i + 1] == ext[..i] + [ext[i]];
    FreedOneMore(m, ext[..i], ext[i], ext[..i + 1]);
  }

  lemma FreedEnd(m: Nodes, d: Addr, ext: seq<Addr>)
    ensures ext[..|ext|] == ext
    ensures Freed(m, [d] + ext) == Freed(m, ext) - {d}
    ensures |Freed(m, [d] + ext)| <= |m| && Freed(m, [d] + ext).Keys <= m.Keys
  {
    hide Freed;
    FreedOneMore(m, ext, d, [d] + ext);
    FreedSize(m, [d] + ext);
  }

  lemma SmallerMap(m: Nodes, gone: set<Addr>)
    ensures |m - gone| <= |m|
  {
    var u := m - gone;
    assert u.Keys == m.Keys - gone;
    assert |u| == |u.Keys| && |m| == |m.Keys|;
  }

  lemma HeaderChecked(m: Nodes, d: Addr, ext: seq<Addr>)
    ensures HasRoom(m, d) ==> AnyRoom(m, [d] + ext) && Checked(m, [d] + ext) == HeldAt(m, d)
    ensures forall ref :: ref in HeldAt(m, d) ==> ref in Checked(m, [d] + ext)
  {
  }

  /** The i-th extent of a file's chain. */
  ghost predicate FileExtentOk(m: Nodes, ext: seq<Addr>, i: nat)
    requires i < |ext|
  {
    ext[i] in m && m[ext[i]].FileExtent? && m[ext[i]].next == Link(ext, i + 1)
  }

  /** At f there is a file whose extents, in order, are ext. */
  ghost predicate FileOk(m: Nodes, f: Addr, ext: seq<Addr>) {
    && f in m && m[f].FileNode? && m[f].next == Link(ext, 0)
    && Distinct([f] + ext) && FS_NULL !in m
    && forall i :: 0 <= i < |ext| ==> FileExtentOk(m, ext, i)
  }

  lemma AtFileExtent(m: Nodes, f: Addr, ext: seq<Addr>, i: nat)
    requires FileOk(m, f, ext) && i <= |ext|
    ensures Link(ext, i) != FS_NULL <==> i < |ext|
    ensures i < |ext| ==> FileExtentOk(m, ext, i)
  {
    if i < |ext| { assert FileExtentOk(m, ext, i); }
  }

  class Store {
    var nodes: Nodes
    const blockCount: nat
    const rootDirectory: Addr

    /** Every allocation takes at least one block. */
    ghost predicate Valid()
      reads this
    {
      FS_NULL !in nodes && |nodes| <= blockCount < U32 / 4
    }

    function WalkLimit(): nat {
      if blockCount != 0 then blockCount else 0xFFFF
    }

    method GetReferenceCount(d: Addr, ghost ext: seq<Addr>) returns (total: nat)
      requires Valid() && Nameable(nodes, d) && (IsDir(nodes, d) ==> DirOk(nodes, d, ext))
      ensures total == if IsDir(nodes, d) then |Refs(nodes, d, ext)| else 0
    {
      if d !in nodes || !nodes[d].DirNode? { return 0; }
      hide DirOk, Refs, HeldAt, ExtRefs, Link;
      AtHeader(nodes, d, ext);
      total := nodes[d].count;
      var extent := nodes[d].next;
      var guard := WalkLimit();
      ghost var i := 0;
      while extent != FS_NULL && guard > 0
        invariant i <= |ext| && extent == Link(ext, i) && guard == WalkLimit() - i
        invariant total == |HeldAt(nodes, d)| + |ExtRefs(nodes, ext[..i])|
        decreases guard
      {
        AtExtent(nodes, d, ext, i);
        total := total + nodes[extent].count;
        extent, guard, i := nodes[extent].next, guard - 1, i + 1;
      }
      AtExtent(nodes, d, ext, i);
    }

    method GetReference(d: Addr, index: nat, ghost ext: seq<Addr>) returns (address: Addr)
      requires Valid() && Nameable(nodes, d) && (IsDir(nodes, d) ==> DirOk(nodes, d, ext))
      ensures address == if IsDir(nodes, d) && index < |Refs(nodes, d, ext)| then Refs(nodes, d, ext)[index] else FS_NULL
    {
      if d !in nodes || !nodes[d].DirNode? { return FS_NULL; }
      hide DirOk, Refs, HeldAt, ExtRefs, Link;
      AtHeader(nodes, d, ext);
      if index < nodes[d].count { return nodes[d].slots[index]; }
      var left: nat := index - nodes[d].count;
      var extent := nodes[d].next;
      var guard := WalkLimit();
      ghost var i := 0;
      while extent != FS_NULL && guard > 0
        invariant i <= |ext| && extent == Link(ext, i) && guard == WalkLimit() - i
        invariant index == left + |HeldAt(nodes, d)| + |ExtRefs(nodes, ext[..i])|
        decreases guard
      {
        AtExtent(nodes, d, ext, i);
        if left < nodes[extent].count { return nodes[extent].slots[left]; }
        left := left - nodes[extent].count;
        extent, guard, i := nodes[extent].next, guard - 1, i + 1;
      }
      AtExtent(nodes, d, ext, i);
      return FS_NULL;
    }

    /** The first slot in use that holds ref, or the number of slots in use. */
    method FindSlot(a: Addr, ref: Addr) returns (index: nat)
      requires a in nodes && (nodes[a].DirNode? || nodes[a].DirExtent?) && nodes[a].count <= |nodes[a].slots|
      ensures index <= nodes[a].count
      ensures index < nodes[a].count ==> nodes[a].slots[index] == ref
      ensures forall j :: 0 <= j < index ==> nodes[a].slots[j] != ref
      ensures index < nodes[a].count <==> ref in HeldAt(nodes, a)
    {
      index := 0;
      while index < nodes[a].count
        invariant index <= nodes[a].count
        invariant forall j :: 0 <= j < index ==> nodes[a].slots[j] != ref
      {
        if nodes[a].slots[index] == ref {
          assert HeldAt(nodes, a)[index] == ref;
          return;
        }
        index := index + 1;
      }
    }

    /** Moves the slots after index down by one and empties the last one in use. */
    method ShiftDown(a: Addr, index: nat)
      requires a in nodes && (nodes[a].DirNode? || nodes[a].DirExtent?) && index < nodes[a].count <= |nodes[a].slots|
      modifies this
      ensures nodes == old(nodes)[a := WithSlots(old(nodes[a]), Shifted(old(nodes[a]), index).slots, old(nodes[a].count))]
    {
      ghost var was := nodes[a];
      var count := nodes[a].count;
      var shift := index;
      ghost var slots: seq<Addr> := was.slots;
      while shift + 1 < count
        invariant index <= shift < count && |slots| == |was.slots|
        invariant nodes == old(nodes)[a := WithSlots(was, slots, count)]
        invariant forall j :: 0 <= j < index || shift <= j < |slots| ==> slots[j] == was.slots[j]
        invariant forall j :: index <= j < shift ==> slots[j] == was.slots[j + 1]
      {
        slots := slots[shift := slots[shift + 1]];
        nodes := nodes[a := WithSlots(nodes[a], nodes[a].slots[shift := nodes[a].slots[shift + 1]], count)];
        shift := shift + 1;
      }
      slots := slots[count - 1 := FS_NULL];
      nodes := nodes[a := WithSlots(nodes[a], nodes[a].slots[count - 1 := FS_NULL], count)];
      ShiftedSlots(was, index);
      assert slots == Shifted(was, index).slots;
    }

    method WriteCount(a: Addr, count: nat)
      requires a in nodes && (nodes[a].DirNode? || nodes[a].DirExtent?)
      modifies this
      ensures nodes == old(nodes)[a := WithSlots(old(nodes[a]), old(nodes[a].slots), count)]
    {
      nodes := nodes[a := WithSlots(nodes[a], nodes[a].slots, count)];
    }

    method WriteNext(a: Addr, next: Addr)
      modifies this
      ensures nodes == SetNext(old(nodes), a, next)
    {
      if a in nodes { nodes := nodes[a := WithNext(nodes[a], next)]; }
    }

    method WritePrev(a: Addr, prev: Addr)
      modifies this
      ensures nodes == SetPrev(old(nodes), a, prev)
    {
      if a in nodes { nodes := nodes[a := WithPrev(nodes[a], prev)]; }
    }

    method Free(a: Addr)
      modifies this
      ensures nodes == old(nodes) - {a}
    {
      nodes := nodes - {a};
    }

    method ExtentUnlinkAndFree(d: Addr, extent: Addr, ghost ext: seq<Addr>, ghost i: nat)
      requires DirOk(nodes, d, ext) && i < |ext| && extent == ext[i]
      modifies this
      ensures nodes == Unlinked(old(nodes), d, ext, i)
    {
      hide DirOk, WithNext, WithPrev, HeldAt, ExtRefs, Refs;
      AtHeader(nodes, d, ext);
      AtExtent(nodes, d, ext, i);
      AtExtent(nodes, d, ext, i + 1);
      if i > 0 { AtExtent(nodes, d, ext, i - 1); }
      var prev, next := nodes[extent].prev, nodes[extent].next;
      if prev == d {
        WriteNext(d, next);
      } else if prev != FS_NULL {
        WriteNext(prev, next);
      }
      if next != FS_NULL { WritePrev(next, prev); }
      Free(extent);
    }

    /** Takes slot index out of the i-th extent; an extent left empty is unlinked and freed. */
    method TakeFromExtent(d: Addr, extent: Addr, index: nat, ghost ext: seq<Addr>, ghost i: nat)
      returns (ghost ext': seq<Addr>)
      requires Valid() && DirOk(nodes, d, ext) && i < |ext| && extent == ext[i]
      requires extent in nodes && nodes[extent].DirExtent? && index < nodes[extent].count <= |nodes[extent].slots|
      requires nodes[extent].slots[index] !in HeldAt(nodes, d) + ExtRefs(nodes, ext[..i])
      requires forall j :: 0 <= j < index ==> nodes[extent].slots[j] != nodes[extent].slots[index]
      modifies this
      ensures Valid() && Removed(old(nodes), nodes, d, ext, ext', old(nodes[extent].slots[index]))
    {
      ghost var m := nodes;
      var count := nodes[extent].count - 1;
      if count == 0 {
        ExtentDrop1(m, d, ext, i, index);
        ShiftedSlots(m[extent], index);
        RewriteKeepsDir(m, d, ext, extent, WithSlots(m[extent], Shifted(m[extent], index).slots, m[extent].count));
        UnlinkedForgets(m, d, ext, i, WithSlots(m[extent], Shifted(m[extent], index).slots, m[extent].count));
        ext' := Without(ext, i);
        hide DirOk, HeldAt, ExtRefs, Removed, Shifted, Unlinked, Without;
        ShiftDown(extent, index);
        ExtentUnlinkAndFree(d, extent, ext, i);
      } else {
        ExtentShrink(m, d, ext, i, index);
        RewriteSize(m, extent, Shifted(m[extent], index));
        ShiftTwoSteps(m[extent], index);
        ext' := ext;
        hide DirOk, HeldAt, ExtRefs, Removed, Shifted, WithSlots;
        ShiftDown(extent, index);
        WriteCount(extent, count);
        assert nodes == m[extent := Shifted(m[extent], index)];
      }
    }

    /** Takes the first occurrence of ref out of directory d. */
    method RemoveReference(d: Addr, ref: Addr, ghost ext: seq<Addr>) returns (code: nat, ghost ext': seq<Addr>)
      requires Valid() && Nameable(nodes, d) && (IsDir(nodes, d) ==> DirOk(nodes, d, ext))
      modifies this
      ensures Valid()
      ensures code == if ref == FS_NULL then 1
                      else if !IsDir(old(nodes), d) then 2
                      else if ref !in old(Refs(nodes, d, ext)) then 4
                      else 0
      ensures code != 0 ==> nodes == old(nodes)
      ensures code == 0 ==> Removed(old(nodes), nodes, d, ext, ext', ref)
    {
      ext' := ext;
      if ref == FS_NULL { return 1, ext; }
      if d !in nodes || !nodes[d].DirNode? { return 2, ext; }
      hide DirOk, Refs, HeldAt, ExtRefs, Link, Removed, Shifted, Unlinked, WithSlots, Without, Held;
      AtHeader(nodes, d, ext);
      var index := FindSlot(d, ref);
      if index < nodes[d].count {
        HeaderRemove(nodes, d, ext, index);
        RewriteSize(nodes, d, Shifted(nodes[d], index));
        ShiftTwoSteps(nodes[d], index);
        ShiftDown(d, index);
        WriteCount(d, nodes[d].count - 1);
        assert nodes == old(nodes)[d := Shifted(old(nodes)[d], index)];
        return 0, ext;
      }
      code, ext' := RemoveFromExtents(d, ref, ext);
    }

    /** The same when the header does not list it. */
    method RemoveFromExtents(d: Addr, ref: Addr, ghost ext: seq<Addr>) returns (code: nat, ghost ext': seq<Addr>)
      requires Valid() && DirOk(nodes, d, ext) && ref !in HeldAt(nodes, d)
      modifies this
      ensures Valid()
      ensures code == if ref in old(Refs(nodes, d, ext)) then 0 else 4
      ensures code != 0 ==> nodes == old(nodes)
      ensures code == 0 ==> Removed(old(nodes), nodes, d, ext, ext', ref)
    {
      hide DirOk, Refs, HeldAt, ExtRefs, Removed, Without, Held;
      AtHeader(nodes, d, ext);
      var extent := nodes[d].next;
      var guard := WalkLimit();
      ghost var i := 0;
      while extent != FS_NULL && guard > 0
        invariant nodes == old(nodes) && i <= |ext| && extent == Link(ext, i) && guard == WalkLimit() - i
        invariant ref !in HeldAt(nodes, d) + ExtRefs(nodes, ext[..i])
        decreases guard
      {
        AtExtent(nodes, d, ext, i);
        var index := FindSlot(extent, ref);
        if index < nodes[extent].count {
          ext' := TakeFromExtent(d, extent, index, ext, i);
          return 0, ext';
        }
        extent, guard, i := nodes[extent].next, guard - 1, i + 1;
      }
      AtExtent(nodes, d, ext, i);
      return 4, ext;
    }

    /** Puts ref into slot count of a record with room. */
    method Append(a: Addr, ref: Addr)
      requires Valid() && HasRoom(nodes, a)
      modifies this
      ensures Valid() && nodes == old(nodes)[a := Appended(old(nodes[a]), ref)]
    {
      RewriteSize(nodes, a, Appended(nodes[a], ref));
      var count := nodes[a].count;
      nodes := nodes[a := WithSlots(nodes[a], nodes[a].slots[count := ref], count)];
      nodes := nodes[a := WithSlots(nodes[a], nodes[a].slots, count + 1)];
      assert nodes == old(nodes)[a := Appended(old(nodes[a]), ref)];
    }

    /** A new extent after prev holding ref alone; spare is what the allocator answers and payload
        what the new block held. */
    method AddExtent(prev: Addr, ref: Addr, spare: Addr, payload: seq<Addr>, d: Addr, ghost ext: seq<Addr>)
      requires Valid() && DirOk(nodes, d, ext) && prev == (if ext == [] then d else ext[|ext| - 1])
      requires spare !in nodes && spare != FS_NULL && |nodes| < blockCount && |payload| == EXTENT_REFS
      requires !AnyRoom(nodes, [d] + ext)
      modifies this
      ensures Valid() && Added(old(nodes), nodes, d, ext, ext + [spare], ref)
    {
      hide DirOk, Added, AnyRoom, Extended, WithNext;
      ghost var m := nodes;
      ghost var node := DirExtent(prev, FS_NULL, payload[0 := ref], 1);
      ExtentNew(m, d, ext, spare, node, ref);
      ExtendedSize(m, d, ext, spare, node);
      LastRecord(m, d, ext);
      nodes := nodes[spare := DirExtent(prev, FS_NULL, payload, 0)];
      WriteNext(prev, spare);
      nodes := nodes[spare := WithSlots(nodes[spare], nodes[spare].slots[0 := ref], nodes[spare].count)];
      WriteCount(spare, 1);
      assert nodes == SetNext(m, prev, spare)[spare := node];
    }

    /** Puts ref into the first record with room, or into a new extent if there is none. */
    method AddReference(d: Addr, ref: Addr, spare: Addr, payload: seq<Addr>, ghost ext: seq<Addr>)
      returns (code: nat, ghost ext': seq<Addr>)
      requires Valid() && Nameable(nodes, d) && (IsDir(nodes, d) ==> DirOk(nodes, d, ext))
      requires spare != FS_NULL ==> spare !in nodes && |nodes| < blockCount && |payload| == EXTENT_REFS
      modifies this
      ensures Valid()
      ensures code == if ref == FS_NULL then 1
                      else if !IsDir(old(nodes), d) then 2
                      else if ref in Checked(old(nodes), [d] + ext) || AnyRoom(old(nodes), [d] + ext) || spare != FS_NULL then 0
                      else if ext == [] then 4
                      else 7
      ensures code != 0 || ref in Checked(old(nodes), [d] + ext) ==> nodes == old(nodes)
      ensures code == 0 && ref !in Checked(old(nodes), [d] + ext) ==>
                && Added(old(nodes), nodes, d, ext, ext', ref)
                && ext' == if AnyRoom(old(nodes), [d] + ext) then ext else ext + [spare]
    {
      ext' := ext;
      if ref == FS_NULL { return 1, ext; }
      if d !in nodes || !nodes[d].DirNode? { return 2, ext; }
      hide DirOk, Refs, HeldAt, ExtRefs, Added, Appended, WithSlots, Checked, AnyRoom, Passed;
      AtHeader(nodes, d, ext);
      HeaderChecked(nodes, d, ext);
      var index := FindSlot(d, ref);
      if index < nodes[d].count { return 0, ext; }
      if nodes[d].count < |nodes[d].slots| {
        HeaderAppend(nodes, d, ext, ref);
        Append(d, ref);
        return 0, ext;
      }
      PassedStart(nodes, d, ext, ref);
      var extent := nodes[d].next;
      var guard := WalkLimit();
      ghost var i := 0;
      while extent != FS_NULL && guard > 0
        invariant nodes == old(nodes) && extent == Link(ext, i) && guard == WalkLimit() - i
        invariant Passed(nodes, d, ext, i, ref) && i <= |ext| && (i < |ext| || ext == [])
        decreases guard
      {
        guard := guard - 1;
        AtExtent(nodes, d, ext, i);
        PassedFound(nodes, d, ext, i, ref);
        index := FindSlot(extent, ref);
        if index < nodes[extent].count { return 0, ext; }
        if nodes[extent].count < |nodes[extent].slots| {
          ExtentAppend(nodes, d, ext, i, ref);
          Append(extent, ref);
          return 0, ext;
        }
        PassedStep(nodes, d, ext, i, ref);
        AtExtent(nodes, d, ext, i + 1);
        i := i + 1;
        if nodes[extent].next == FS_NULL { break; }
        extent := nodes[extent].next;
      }
      AtExtent(nodes, d, ext, i);
      PassedEnd(nodes, d, ext, ref);
      code, ext' := AddBehind(d, extent, ref, spare, payload, ext);
    }

    /** No record has room: a new extent goes behind the last one, or behind the header. */
    method AddBehind(d: Addr, extent: Addr, ref: Addr, spare: Addr, payload: seq<Addr>, ghost ext: seq<Addr>)
      returns (code: nat, ghost ext': seq<Addr>)
      requires Valid() && DirOk(nodes, d, ext) && !AnyRoom(nodes, [d] + ext)
      requires ext != [] ==> extent == ext[|ext| - 1]
      requires spare != FS_NULL ==> spare !in nodes && |nodes| < blockCount && |payload| == EXTENT_REFS
      modifies this
      ensures Valid() && code == if spare != FS_NULL then 0 else if ext == [] then 4 else 7
      ensures code != 0 ==> nodes == old(nodes)
      ensures code == 0 ==> Added(old(nodes), nodes, d, ext, ext', ref) && ext' == ext + [spare]
    {
      hide DirOk, Added, AnyRoom, HeldAt, ExtRefs, Refs;
      AtHeader(nodes, d, ext);
      AtExtent(nodes, d, ext, 0);
      if nodes[d].next == FS_NULL {
        if spare == FS_NULL { return 4, ext; }
        AddExtent(d, ref, spare, payload, d, ext);
        return 0, ext + [spare];
      }
      if spare == FS_NULL { return 7, ext; }
      AddExtent(extent, ref, spare, payload, d, ext);
      return 0, ext + [spare];
    }

    /** Frees a directory's extents and then its header. */
    method DirectoryDelete(d: Addr, ghost ext: seq<Addr>) returns (done: bool)
      requires Valid() && Nameable(nodes, d) && (IsDir(nodes, d) ==> DirOk(nodes, d, ext))
      modifies this
      ensures Valid() && done == IsDir(old(nodes), d)
      ensures nodes == if done then Freed(old(nodes), [d] + ext) else old(nodes)
    {
      if d !in nodes || !nodes[d].DirNode? { return false; }
      hide DirOk, Freed, HeldAt, ExtRefs, Refs;
      ghost var m := nodes;
      AtHeader(m, d, ext);
      FreedNone(m);
      var extent := nodes[d].next;
      var guard := WalkLimit();
      ghost var i := 0;
      while extent != FS_NULL && guard > 0
        invariant i <= |ext| && extent == Link(ext, i) && guard == WalkLimit() - i
        invariant nodes == Freed(m, ext[..i])
        decreases guard
      {
        AtExtent(m, d, ext, i);
        FreedStep(m, d, ext, i);
        var next := nodes[extent].next;
        Free(extent);
        extent, guard, i := next, guard - 1, i + 1;
      }
      AtExtent(m, d, ext, i);
      FreedEnd(m, d, ext);
      Free(d);
      return true;
    }

    /** Frees a file's extents and then its header; anything else is left alone. */
    method FileDelete(f: Addr, ghost ext: seq<Addr>) returns (done: bool)
      requires Valid() && Nameable(nodes, f) && (f in nodes && nodes[f].FileNode? ==> FileOk(nodes, f, ext))
      modifies this
      ensures Valid() && done == (f in old(nodes) && old(nodes[f]).FileNode?)
      ensures nodes == if done then Freed(old(nodes), [f] + ext) else old(nodes)
    {
      if f !in nodes || !nodes[f].FileNode? { return false; }
      hide Freed;
      ghost var m := nodes;
      OwnAddresses(f, ext);
      FreedNone(m);
      var extent := nodes[f].next;
      ghost var i := 0;
      while extent != FS_NULL
        invariant i <= |ext| && extent == Link(ext, i)
        invariant nodes == Freed(m, ext[..i])
        decreases |ext| - i
      {
        AtFileExtent(m, f, ext, i);
        FreedStep(m, f, ext, i);
        var next := nodes[extent].next;
        Free(extent);
        extent, i := next, i + 1;
      }
      AtFileExtent(m, f, ext, i);
      FreedEnd(m, f, ext);
      Free(f);
      return true;
    }
  }
}
