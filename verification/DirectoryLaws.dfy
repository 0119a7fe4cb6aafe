/** What adding and removing references amount to on the sequence a directory stands for. */
module DirectoryLaws {
  import opened Basics
  import opened Volume
  import opened Directory
  import opened DirectoryAdd

  lemma CheckedInRefs(m: Nodes, d: Addr, ext: seq<Addr>)
    ensures Checked(m, [d] + ext) <= Refs(m, d, ext)
  {
    CheckedIsPrefix(m, [d] + ext);
    ChainRefs(m, d, ext);
  }

  /** Adding a reference that the duplicate check did not meet leaves a duplicate-free directory
      duplicate-free exactly when the directory did not list it anywhere. */
  lemma AddKeepsDistinct(m: Nodes, m': Nodes, d: Addr, ext: seq<Addr>, ext': seq<Addr>, ref: Addr)
    requires Added(m, m', d, ext, ext', ref) && Distinct(Refs(m, d, ext)) && ref !in Checked(m, [d] + ext)
    ensures Distinct(Refs(m', d, ext')) <==> ref !in Refs(m, d, ext)
  {
    CheckedInRefs(m, d, ext);
    hide DirOk, Refs, Checked, Distinct, SameOutside;
    var refs, read := Refs(m, d, ext), Checked(m, [d] + ext);
    assert refs[..|read|] == read;
    AddKeepsDistinctIff(refs, |read|, ref);
    assert refs == refs[..|read|] + refs[|read|..];
  }

  /** The check is complete when no record but the last has room: then it reads everything. */
  lemma {:induction false} CheckedIsAll(m: Nodes, chain: seq<Addr>)
    requires forall i :: 0 <= i < |chain| - 1 ==> !HasRoom(m, chain[i])
    ensures Checked(m, chain) == ExtRefs(m, chain)
  {
    if chain != [] {
      if |chain| == 1 {
        assert chain[1..] == [];
      } else {
        CheckedIsAll(m, chain[1..]);
      }
    }
  }

  /** What is checked before the j-th record, the first with room, is what the records up to it hold. */
  lemma {:induction false} CheckedIsUpToRoom(m: Nodes, chain: seq<Addr>, j: nat)
    requires j < |chain| && HasRoom(m, chain[j]) && forall i :: 0 <= i < j ==> !HasRoom(m, chain[i])
    ensures Checked(m, chain) == ExtRefs(m, chain[..j + 1])
  {
    hide HeldAt;
    if j == 0 {
      assert chain[..1] == [chain[0]];
      ExtRefsOne(m, chain[0]);
    } else {
      assert chain[..j + 1][1..] == chain[1..][..j];
      CheckedIsUpToRoom(m, chain[1..], j - 1);
    }
  }

  /** So a new reference ends up right behind those of the first record with room, or at the very end,
      and all others keep their order. */
  lemma AddedBehindRoom(m: Nodes, m': Nodes, d: Addr, ext: seq<Addr>, ext': seq<Addr>, ref: Addr, j: nat)
    requires Added(m, m', d, ext, ext', ref) && j <= |ext| + 1
    requires forall i :: 0 <= i < j ==> !HasRoom(m, ([d] + ext)[i])
    requires j <= |ext| ==> HasRoom(m, ([d] + ext)[j])
    ensures var n := if j <= |ext| then |ExtRefs(m, ([d] + ext)[..j + 1])| else |Refs(m, d, ext)|;
            && n <= |Refs(m, d, ext)|
            && Refs(m', d, ext') == Refs(m, d, ext)[..n] + [ref] + Refs(m, d, ext)[n..]
  {
    ChainRefs(m, d, ext);
    if j <= |ext| {
      CheckedIsUpToRoom(m, [d] + ext, j);
    } else {
      CheckedIsAll(m, [d] + ext);
    }
    hide Refs, ExtRefs, Checked, HasRoom, DirOk, SameOutside;
  }

  /** ref is listed once in a duplicate-free directory, beyond the first record with room. */
  ghost predicate Overlooked(m: Nodes, d: Addr, ext: seq<Addr>, ref: Addr) {
    && DirOk(m, d, ext) && Distinct(Refs(m, d, ext)) && HasRoom(m, d)
    && ref in Refs(m, d, ext) && ref !in Checked(m, [d] + ext)
  }

  /** A removal from the header makes room in front of an extent, and the next addition of a
      reference that extent lists is not noticed. */
  lemma AddCanDuplicate()
    ensures exists m, d, ext, ref :: Overlooked(m, d, ext, ref)
  {
    var m: Nodes := map[100 := DirNode(FS_NULL, 200, [10, FS_NULL], 1), 200 := DirExtent(100, FS_NULL, [11], 1)];
    var ext: seq<Addr> := [200];
    assert ExtentOk(m, 100, ext, 0);
    assert DirOk(m, 100, ext);
    ExtRefsOne(m, 200);
    assert Refs(m, 100, ext) == [10, 11];
    assert Refs(m, 100, ext)[1] == 11;
    assert Checked(m, [100] + ext) == [10];
    assert Overlooked(m, 100, ext, 11);
  }

  /** Adding an absent reference and removing it again gives back the sequence. */
  lemma AddThenRemove(m: Nodes, m1: Nodes, m2: Nodes, d: Addr, ext: seq<Addr>, ext1: seq<Addr>, ext2: seq<Addr>,
      ref: Addr)
    requires Added(m, m1, d, ext, ext1, ref) && Removed(m1, m2, d, ext1, ext2, ref)
    requires ref !in Refs(m, d, ext)
    ensures Refs(m2, d, ext2) == Refs(m, d, ext)
  {
    CheckedInRefs(m, d, ext);
    hide DirOk, Refs, Checked, SameOutside, Inserted, Remove;
    RemoveInserted(Refs(m, d, ext), |Checked(m, [d] + ext)|, ref);
  }

  /** Operations on one directory leave every other directory that shares no record with it alone. */
  lemma OtherDirectoryUnchanged(m: Nodes, m': Nodes, own: seq<Addr>, other: Addr, ext: seq<Addr>)
    requires SameOutside(m, m', own) && DirOk(m, other, ext) && FS_NULL !in m'
    requires forall a :: a in [other] + ext ==> a !in own
    ensures DirOk(m', other, ext) && Refs(m', other, ext) == Refs(m, other, ext)
  {
    assert ([other] + ext)[0] == other;
    assert forall i :: 0 <= i < |ext| ==> ([other] + ext)[i + 1] == ext[i];
    forall i | 0 <= i < |ext| ensures ExtentOk(m', other, ext, i) { assert ExtentOk(m, other, ext, i); }
    ExtRefsFrame(m, m', ext);
  }
}
