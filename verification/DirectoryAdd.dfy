/** Adding a reference (kernel/fs/basefs/directory.c:77-91, 169-260), stated on records. A new
    reference goes into the first record with room, and only what was read on the way there is
    checked for a duplicate. */
module DirectoryAdd {
  import opened Basics
  import opened Volume
  import opened Directory

  ghost predicate HasRoom(m: Nodes, a: Addr) {
    a in m && (m[a].DirNode? || m[a].DirExtent?) && m[a].count < |m[a].slots|
  }

  ghost predicate AnyRoom(m: Nodes, chain: seq<Addr>) {
    chain != [] && (HasRoom(m, chain[0]) || AnyRoom(m, chain[1..]))
  }

  /** What is read before a place for the reference is found. */
  ghost function Checked(m: Nodes, chain: seq<Addr>): seq<Addr> {
    if chain == [] then []
    else if HasRoom(m, chain[0]) then HeldAt(m, chain[0])
    else HeldAt(m, chain[0]) + Checked(m, chain[1..])
  }

  lemma {:induction false} CheckedIsPrefix(m: Nodes, chain: seq<Addr>)
    ensures Checked(m, chain) <= ExtRefs(m, chain)
    ensures !AnyRoom(m, chain) ==> Checked(m, chain) == ExtRefs(m, chain)
  {
    if chain != [] { CheckedIsPrefix(m, chain[1..]); }
  }

  /** Passing over records without room. */
  lemma CheckedStep(m: Nodes, chain: seq<Addr>, i: nat)
    requires i < |chain|
    ensures HasRoom(m, chain[i]) ==> AnyRoom(m, chain[i..]) && Checked(m, chain[i..]) == HeldAt(m, chain[i])
    ensures !HasRoom(m, chain[i]) ==>
      && (AnyRoom(m, chain[i..]) <==> AnyRoom(m, chain[i + 1..]))
      && Checked(m, chain[i..]) == HeldAt(m, chain[i]) + Checked(m, chain[i + 1..])
  {
    assert chain[i..][1..] == chain[i + 1..];
  }

  lemma ChainRefs(m: Nodes, d: Addr, ext: seq<Addr>)
    ensures Refs(m, d, ext) == ExtRefs(m, [d] + ext)
  {
    assert ([d] + ext)[1..] == ext;
  }

  ghost function Inserted(s: seq<Addr>, at: nat, ref: Addr): seq<Addr>
    requires at <= |s|
  {
    s[..at] + [ref] + s[at..]
  }

  lemma RemoveInserted(s: seq<Addr>, at: nat, ref: Addr)
    requires at <= |s| && ref !in s
    ensures Remove(Inserted(s, at, ref), ref) == s
  {
    hide Remove;
    RemoveConcat(s[..at], [ref] + s[at..], ref);
    RemoveStep([ref] + s[at..], ref);
    assert s[..at] + [ref] + s[at..] == s[..at] + ([ref] + s[at..]);
    assert ([ref] + s[at..])[1..] == s[at..];
    assert s == s[..at] + s[at..];
  }

  /** m' is m with ref put into directory d after what was checked, whose extents are then ext'. */
  ghost predicate Added(m: Nodes, m': Nodes, d: Addr, ext: seq<Addr>, ext': seq<Addr>, ref: Addr) {
    && DirOk(m', d, ext')
    && |Checked(m, [d] + ext)| <= |Refs(m, d, ext)|
    && Refs(m', d, ext') == Inserted(Refs(m, d, ext), |Checked(m, [d] + ext)|, ref)
    && d in m && m[d].DirNode? && m'[d].parent == m[d].parent
    && SameOutside(m, m', [d] + ext')
  }

  /** A record with ref in its first free slot. */
  function Appended(n: Node, ref: Addr): Node
    requires (n.DirNode? || n.DirExtent?) && n.count < |n.slots|
  {
    WithSlots(n, n.slots[n.count := ref], n.count + 1)
  }

  lemma AppendedHolds(n: Node, ref: Addr)
    requires (n.DirNode? || n.DirExtent?) && n.count < |n.slots|
    ensures Held(Appended(n, ref)) == Held(n) + [ref]
  {
    assert n.slots[n.count := ref][..n.count] == n.slots[..n.count];
  }

  lemma InsertedAt(a: seq<Addr>, b: seq<Addr>, ref: Addr)
    ensures Inserted(a + b, |a|, ref) == a + [ref] + b
  {
    assert (a + b)[..|a|] == a && (a + b)[|a|..] == b;
  }

  /** The header had room. */
  lemma HeaderAppend(m: Nodes, d: Addr, ext: seq<Addr>, ref: Addr)
    requires DirOk(m, d, ext) && HasRoom(m, d)
    ensures Added(m, m[d := Appended(m[d], ref)], d, ext, ext, ref)
  {
    var m' := m[d := Appended(m[d], ref)];
    AppendedHolds(m[d], ref);
    RewriteKeepsDir(m, d, ext, d, Appended(m[d], ref));
    OwnAddresses(d, ext);
    ExtRefsFrame(m, m', ext);
    InsertedAt(HeldAt(m, d), ExtRefs(m, ext), ref);
    assert Checked(m, [d] + ext) == HeldAt(m, d);
  }

  lemma AddedOf(m: Nodes, m': Nodes, d: Addr, ext: seq<Addr>, ext': seq<Addr>, ref: Addr, read: seq<Addr>,
      rest: seq<Addr>)
    requires DirOk(m, d, ext) && DirOk(m', d, ext')
    requires Checked(m, [d] + ext) == read && Refs(m, d, ext) == read + rest && Refs(m', d, ext') == read + [ref] + rest
    requires d in m && d in m' && m[d].DirNode? && m'[d].DirNode? && m'[d].parent == m[d].parent
    requires SameOutside(m, m', [d] + ext')
    ensures Added(m, m', d, ext, ext', ref)
  {
    InsertedAt(read, rest, ref);
    hide DirOk, Checked, Refs, SameOutside, Inserted;
  }

  lemma RefsParts(m: Nodes, d: Addr, ext: seq<Addr>, i: nat)
    requires i < |ext|
    ensures Refs(m, d, ext) == (HeldAt(m, d) + ExtRefs(m, ext[..i]) + HeldAt(m, ext[i])) + ExtRefs(m, ext[i + 1..])
  {
    SplitRefs(m, ext, i);
    hide HeldAt, ExtRefs;
  }

  /** Extent i was the first record with room. */
  lemma ExtentAppend(m: Nodes, d: Addr, ext: seq<Addr>, i: nat, ref: Addr)
    requires DirOk(m, d, ext) && i < |ext| && HasRoom(m, ext[i])
    requires Checked(m, [d] + ext) == HeldAt(m, d) + ExtRefs(m, ext[..i]) + HeldAt(m, ext[i])
    ensures Added(m, m[ext[i] := Appended(m[ext[i]], ref)], d, ext, ext, ref)
  {
    HasRoomIs(m, ext[i]);
    hide *;
    ExtentFacts(m, d, ext, i);
    AppendedHolds(m[ext[i]], ref);
    AppendedShape(m[ext[i]], ref);
    DirOkHas(m, d, ext);
    var n := Appended(m[ext[i]], ref);
    RefsAfterRewrite(m, d, ext, i, n);
    OwnMember(d, ext, i);
    RewriteKeepsDir(m, d, ext, ext[i], n);
    RefsParts(m, d, ext, i);
    var read, rest := HeldAt(m, d) + ExtRefs(m, ext[..i]) + HeldAt(m, ext[i]), ExtRefs(m, ext[i + 1..]);
    HeldIs(m, ext[i]);
    Regroup(HeldAt(m, d) + ExtRefs(m, ext[..i]), HeldAt(m, ext[i]), [ref], rest);
    assert Refs(m[ext[i] := n], d, ext) == read + [ref] + rest;
    AddedOf(m, m[ext[i] := n], d, ext, ext, ref, read, rest);
  }

  lemma HasRoomIs(m: Nodes, a: Addr)
    requires HasRoom(m, a)
    ensures a in m && (m[a].DirNode? || m[a].DirExtent?) && m[a].count < |m[a].slots|
  {
  }

  lemma AppendedShape(n: Node, ref: Addr)
    requires n.DirExtent? && n.count < |n.slots|
    ensures var p := Appended(n, ref);
            p.DirExtent? && p.prev == n.prev && p.next == n.next && p.count == n.count + 1 && |p.slots| == |n.slots|
  {
  }

  lemma OwnMember(d: Addr, ext: seq<Addr>, i: nat)
    requires i < |ext|
    ensures ext[i] in [d] + ext
  {
    assert ([d] + ext)[i + 1] == ext[i];
  }

  lemma HeldIs(m: Nodes, a: Addr)
    requires a in m
    ensures HeldAt(m, a) == Held(m[a])
  {
  }

  lemma Regroup(a: seq<Addr>, b: seq<Addr>, c: seq<Addr>, d: seq<Addr>)
    ensures a + (b + c) + d == a + b + c + d
  {
  }

  /** The records once a new extent at spare follows the last record of the directory. */
  function Extended(m: Nodes, d: Addr, ext: seq<Addr>, spare: Addr, node: Node): Nodes {
    var tail := if ext == [] then d else ext[|ext| - 1];
    SetNext(m, tail, spare)[spare := node]
  }

  lemma ExtendedAt(m: Nodes, d: Addr, ext: seq<Addr>, spare: Addr, node: Node, i: nat)
    requires DirOk(m, d, ext) && spare !in m && spare != FS_NULL && i <= |ext|
    requires node.DirExtent? && 1 <= node.count <= |node.slots| && node.next == FS_NULL
    requires node.prev == if ext == [] then d else ext[|ext| - 1]
    ensures ExtentOk(Extended(m, d, ext, spare, node), d, ext + [spare], i)
  {
    if i < |ext| { ExtentFacts(m, d, ext, i); }
    if ext != [] { ExtentFacts(m, d, ext, |ext| - 1); }
  }

  lemma ExtendedHolds(m: Nodes, d: Addr, ext: seq<Addr>, spare: Addr, node: Node)
    requires DirOk(m, d, ext) && spare !in m && spare != FS_NULL
    ensures var m' := Extended(m, d, ext, spare, node);
            && d in m' && m'[d] == (if ext == [] then WithNext(m[d], spare) else m[d])
            && (forall a :: a != spare ==> HeldAt(m', a) == HeldAt(m, a)) && HeldAt(m', spare) == Held(node)
            && FS_NULL !in m' && spare !in [d] + ext
            && SameOutside(m, m', [d] + (ext + [spare]))
  {
    if ext != [] { ExtentFacts(m, d, ext, |ext| - 1); }
    forall i | 0 <= i < |ext| ensures ext[i] != spare { ExtentFacts(m, d, ext, i); }
    var own := [d] + (ext + [spare]);
    assert own[0] == d && own[|ext|] == (if ext == [] then d else ext[|ext| - 1]) && own[|ext| + 1] == spare;
  }

  lemma ExtendedIsDir(m: Nodes, d: Addr, ext: seq<Addr>, spare: Addr, node: Node)
    requires DirOk(m, d, ext) && spare !in m && spare != FS_NULL
    requires node.DirExtent? && 1 <= node.count <= |node.slots| && node.next == FS_NULL
    requires node.prev == if ext == [] then d else ext[|ext| - 1]
    ensures DirOk(Extended(m, d, ext, spare, node), d, ext + [spare])
  {
    var m', w := Extended(m, d, ext, spare, node), ext + [spare];
    ExtendedHolds(m, d, ext, spare, node);
    assert [d] + w == ([d] + ext) + [spare];
    assert Distinct([d] + w);
    forall i | 0 <= i < |w| ensures ExtentOk(m', d, w, i) { ExtendedAt(m, d, ext, spare, node, i); }
    assert Link(w, 0) == if ext == [] then spare else Link(ext, 0);
    hide Extended, ExtentOk, Distinct;
  }

  /** There was no room anywhere. */
  lemma ExtentNew(m: Nodes, d: Addr, ext: seq<Addr>, spare: Addr, node: Node, ref: Addr)
    requires DirOk(m, d, ext) && spare !in m && spare != FS_NULL && !AnyRoom(m, [d] + ext)
    requires node.DirExtent? && node.count == 1 <= |node.slots| && node.next == FS_NULL && node.slots[0] == ref
    requires node.prev == if ext == [] then d else ext[|ext| - 1]
    ensures Added(m, Extended(m, d, ext, spare, node), d, ext, ext + [spare], ref)
  {
    var m', w := Extended(m, d, ext, spare, node), ext + [spare];
    ExtendedIsDir(m, d, ext, spare, node);
    ExtendedHolds(m, d, ext, spare, node);
    CheckedIsPrefix(m, [d] + ext);
    ChainRefs(m, d, ext);
    InsertedAt(Refs(m, d, ext), [], ref);
    ExtRefsConcat(m', ext, [spare]);
    ExtRefsOne(m', spare);
    ExtRefsFrame(m, m', ext);
    assert Held(node) == [ref];
    DirOkHas(m, d, ext);
    KeepsParent(m[d], spare);
    hide Extended, DirOk, ExtRefs, HeldAt, Held, Checked, Inserted, SameOutside, Distinct, AnyRoom;
    assert Refs(m, d, ext) + [] == Refs(m, d, ext);
  }

  // ---------------------------------------------------------------- the walk to the first room

  /** The records before extent i have no room and do not hold ref. */
  ghost predicate Passed(m: Nodes, d: Addr, ext: seq<Addr>, i: nat, ref: Addr) {
    && i <= |ext| && ref !in HeldAt(m, d) + ExtRefs(m, ext[..i])
    && Checked(m, [d] + ext) == HeldAt(m, d) + ExtRefs(m, ext[..i]) + Checked(m, ext[i..])
    && (AnyRoom(m, [d] + ext) <==> AnyRoom(m, ext[i..]))
  }

  lemma PassedStart(m: Nodes, d: Addr, ext: seq<Addr>, ref: Addr)
    requires !HasRoom(m, d) && ref !in HeldAt(m, d)
    ensures Passed(m, d, ext, 0, ref)
  {
    assert ext[0..] == ext && ([d] + ext)[1..] == ext && ext[..0] == [];
  }

  lemma PassedStep(m: Nodes, d: Addr, ext: seq<Addr>, i: nat, ref: Addr)
    requires Passed(m, d, ext, i, ref) && i < |ext| && !HasRoom(m, ext[i]) && ref !in HeldAt(m, ext[i])
    ensures Passed(m, d, ext, i + 1, ref)
  {
    hide HeldAt, ExtRefs, Checked, AnyRoom, HasRoom;
    CheckedStep(m, ext, i);
    SplitRefs(m, ext, i);
    var a, b, c := HeldAt(m, d), ExtRefs(m, ext[..i]), HeldAt(m, ext[i]);
    assert a + b + (c + Checked(m, ext[i + 1..])) == a + (b + c) + Checked(m, ext[i + 1..]);
  }

  lemma PassedEnd(m: Nodes, d: Addr, ext: seq<Addr>, ref: Addr)
    requires Passed(m, d, ext, |ext|, ref)
    ensures !AnyRoom(m, [d] + ext) && ref !in Checked(m, [d] + ext)
  {
    assert ext[..|ext|] == ext && ext[|ext|..] == [];
    assert !AnyRoom(m, []) && Checked(m, []) == [];
    hide HeldAt, ExtRefs, Checked, AnyRoom;
  }

  lemma PassedFound(m: Nodes, d: Addr, ext: seq<Addr>, i: nat, ref: Addr)
    requires Passed(m, d, ext, i, ref) && i < |ext|
    ensures ref in HeldAt(m, ext[i]) ==> ref in Checked(m, [d] + ext)
    ensures HasRoom(m, ext[i]) ==> AnyRoom(m, [d] + ext)
    ensures HasRoom(m, ext[i]) ==> Checked(m, [d] + ext) == HeldAt(m, d) + ExtRefs(m, ext[..i]) + HeldAt(m, ext[i])
    ensures HasRoom(m, ext[i]) && ref in Checked(m, [d] + ext) ==> ref in HeldAt(m, ext[i])
  {
    CheckedStep(m, ext, i);
    hide HeldAt, ExtRefs, Checked, AnyRoom, HasRoom;
  }

  /** The duplicate check is complete exactly when no copy lies beyond the record the reference
      would be put into. */
  lemma AddKeepsDistinctIff(refs: seq<Addr>, at: nat, ref: Addr)
    requires at <= |refs| && Distinct(refs) && ref !in refs[..at]
    ensures Distinct(Inserted(refs, at, ref)) <==> ref !in refs[at..]
  {
    var s := Inserted(refs, at, ref);
    assert s[at] == ref;
    assert forall j :: 0 <= j < |s| ==> s[j] == if j < at then refs[j] else if j == at then ref else refs[j - 1];
    if ref in refs[at..] {
      var k :| 0 <= k < |refs[at..]| && refs[at..][k] == ref;
      assert s[at + 1 + k] == s[at];
    } else {
      assert forall j :: at <= j < |refs| ==> refs[j] == refs[at..][j - at];
      assert forall j :: 0 <= j < at ==> refs[j] == refs[..at][j];
    }
  }
}
