/** What a deletion means for the rest of the volume. Files listed by a deleted directory are freed whoever
    else lists them (kernel/fs/basefs/directory.c:529-533). */
module DeleteLaws {
  import opened Basics
  import opened Volume
  import opened Directory
  import opened DirectoryOps
  import opened RecordChains
  import opened Subtree
  import opened DeleteRecursive

  /** A deletion as DeleteDirectory does it: of the allocations in gone, below address, with the entry
      in a parent apart from them or in none. */
  ghost predicate Deletion(m: Nodes, m': Nodes, gone: set<Addr>, address: Addr, parent: Addr, pext: seq<Addr>,
      pext': seq<Addr>) {
    && FS_NULL !in m && gone <= m.Keys && Deleted(m, m', gone, address, parent, pext, pext')
    && (IsDir(m, parent) ==> DirOk(m, parent, pext) && Chain(parent, pext) !! gone)
  }

  /** Every reference is to a directory or a file that is there. */
  ghost predicate AllLive(m: Nodes, refs: seq<Addr>) {
    forall r :: r in refs ==> r in m && (m[r].DirNode? || m[r].FileNode?)
  }

  /** A directory or file survives exactly if it is not among what goes. */
  lemma LivesIffOutside(m: Nodes, m': Nodes, gone: set<Addr>, address: Addr, parent: Addr, pext: seq<Addr>,
      pext': seq<Addr>, r: Addr)
    requires Deletion(m, m', gone, address, parent, pext, pext') && r in m && (m[r].DirNode? || m[r].FileNode?)
    ensures r in m' && (m'[r].DirNode? || m'[r].FileNode?) <==> r !in gone
  {
    hide Refs, Remove, Chain;
    if IsDir(m, parent) { OnlyExtents(m, parent, pext, r); }
  }

  lemma OutsideIs(m: Nodes, m': Nodes, gone: set<Addr>, address: Addr, parent: Addr, pext: seq<Addr>, pext': seq<Addr>,
      own: set<Addr>)
    requires Deletion(m, m', gone, address, parent, pext, pext') && own <= m.Keys && own !! gone
    requires IsDir(m, parent) ==> own !! Chain(parent, pext)
    ensures SameOn(m, m', own) && FS_NULL !in m'
  {
    if IsDir(m, parent) { DirHeld(m, parent, pext); }
    hide Refs, Remove, DirOk, Chain;
  }

  /** Another directory keeps its references; they all still lead somewhere if and only if none of them
      led to something that went. */
  lemma OtherDirectoryAfter(m: Nodes, m': Nodes, gone: set<Addr>, address: Addr, parent: Addr, pext: seq<Addr>,
      pext': seq<Addr>, other: Addr, ext: seq<Addr>)
    requires Deletion(m, m', gone, address, parent, pext, pext')
    requires DirOk(m, other, ext) && AllLive(m, Refs(m, other, ext)) && Chain(other, ext) !! gone
    requires IsDir(m, parent) ==> Chain(other, ext) !! Chain(parent, pext)
    ensures DirOk(m', other, ext) && Refs(m', other, ext) == Refs(m, other, ext)
    ensures AllLive(m', Refs(m', other, ext)) <==> forall r :: r in Refs(m, other, ext) ==> r !in gone
  {
    hide DirOk, Chain, Refs, Deletion;
    DirHeld(m, other, ext);
    OutsideIs(m, m', gone, address, parent, pext, pext', Chain(other, ext));
    DirFrame(m, m', other, ext);
    EachLives(m, m', gone, address, parent, pext, pext', Refs(m, other, ext));
  }

  /** So do the references left in the parent; a second one to the deleted directory would not. */
  lemma ParentAfter(m: Nodes, m': Nodes, gone: set<Addr>, address: Addr, parent: Addr, pext: seq<Addr>,
      pext': seq<Addr>)
    requires Deletion(m, m', gone, address, parent, pext, pext') && IsDir(m, parent) && AllLive(m, Refs(m, parent, pext))
    ensures DirOk(m', parent, pext') && Refs(m', parent, pext') == Remove(Refs(m, parent, pext), address)
    ensures AllLive(m', Refs(m', parent, pext')) <==> forall r :: r in Remove(Refs(m, parent, pext), address) ==> r !in gone
  {
    RemoveKeepsMembers(Refs(m, parent, pext), address);
    EachLives(m, m', gone, address, parent, pext, pext', Remove(Refs(m, parent, pext), address));
    hide DirOk, Chain, Refs, Remove;
  }

  lemma EachLives(m: Nodes, m': Nodes, gone: set<Addr>, address: Addr, parent: Addr, pext: seq<Addr>, pext': seq<Addr>,
      refs: seq<Addr>)
    requires Deletion(m, m', gone, address, parent, pext, pext') && AllLive(m, refs)
    ensures AllLive(m', refs) <==> forall r :: r in refs ==> r !in gone
  {
    hide Deletion;
    forall r | r in refs ensures r in m' && (m'[r].DirNode? || m'[r].FileNode?) <==> r !in gone {
      LivesIffOutside(m, m', gone, address, parent, pext, pext', r);
    }
  }

  /** A tree that shares no record with what goes or with the parent is as it was. */
  lemma OtherTreeAfter(m: Nodes, m': Nodes, gone: set<Addr>, address: Addr, parent: Addr, pext: seq<Addr>,
      pext': seq<Addr>, u: Tree)
    requires Deletion(m, m', gone, address, parent, pext, pext') && TreeOk(m, u) && Owns(u) !! gone
    requires IsDir(m, parent) ==> Owns(u) !! Chain(parent, pext)
    ensures TreeOk(m', u)
  {
    hide TreeOk, Owns, Chain, Deletion;
    OwnsHeld(m, u);
    OutsideIs(m, m', gone, address, parent, pext, pext', Owns(u));
    TreeFrame(m, m', u);
  }

  /** other lists, outside the tree t, something that deleting t frees. */
  ghost predicate LosesEntry(m: Nodes, t: Tree, other: Addr) {
    && TreeOk(m, t) && t.Dir? && other !in Owns(t) && DirOk(m, other, []) && AllLive(m, Refs(m, other, []))
    && !AllLive(m - Owns(t), Refs(m - Owns(t), other, []))
  }

  /** Two directories that list the same file. */
  function SharedFile(): Nodes {
    map[200 := DirNode(FS_NULL, FS_NULL, [300], 1), 500 := DirNode(FS_NULL, FS_NULL, [300], 1),
        300 := FileNode(400), 400 := FileExtent(FS_NULL)]
  }

  lemma SharedRecords()
    ensures var m := SharedFile();
            && FS_NULL !in m && 200 in m && m[200] == DirNode(FS_NULL, FS_NULL, [300], 1)
            && 500 in m && m[500] == DirNode(FS_NULL, FS_NULL, [300], 1)
            && 300 in m && m[300] == FileNode(400) && 400 in m && m[400] == FileExtent(FS_NULL)
  {
  }

  /** It goes with the first of them. */
  lemma SharedFileIsLost()
    ensures exists m, t, other :: LosesEntry(m, t, other)
  {
    var m := SharedFile();
    var file := File(300, [400]);
    var t := Dir(200, [], Snoc(Nil, file));
    SharedRecords();
    hide SharedFile, TreeOk, DirOk, Refs, Owns;
    ShortDir(m, 200);
    ShortDir(m, 500);
    OneFile(m, 300, 400);
    OnlyKid(m, 200, file);
    ShortDir(m - Owns(t), 500);
    assert [300][0] == 300;
    assert 300 in Refs(m - Owns(t), 500, []) && 300 !in m - Owns(t);
    assert LosesEntry(m, t, 500);
  }
}
