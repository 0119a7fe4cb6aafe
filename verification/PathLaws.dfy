/** What the steps of the path walkers do (kernel/vfs/vfs_parse.c:14-109, 180-294), stated with the
    fields of the nodes alone. */
module PathLaws {
  import opened Basics
  import opened Tokens
  import opened PathWalk

  /** The kernel node above a: its parent if both are directories, else a itself; nothing above what
      is no directory. */
  lemma KParentIs(w: World, a: Addr)
    ensures a == 0 || a == NOWHERE || a !in w.knodes || !w.knodes[a].isDirectory ==> KParent(w, a) == NOWHERE
    ensures a != 0 && a != NOWHERE && a in w.knodes && w.knodes[a].isDirectory ==>
              var b := w.knodes[a].parent;
              KParent(w, a) == if b != 0 && b != NOWHERE && b in w.knodes && w.knodes[b].isDirectory then b else a
  {
  }

  /** Arriving at a kernel node ends there, unless a mounted volume takes the walk in or its partition
      cannot be read. */
  lemma ArriveIs(w: World, k: Addr)
    ensures !Diverts(w, k) ==> Arrive(w, k) == Some(Place(k, 0, false, 0))
    ensures Diverts(w, k) ==>
              var ctx := w.knodes[k].refs[1];
              Arrive(w, k) == if !w.devices[ctx].readable then None else Some(Place(k, w.devices[ctx].root, true, ctx))
  {
  }

  /** A name, from a kernel node: the first reference of that name, or failure. */
  lemma StepInKernel(w: World, p: Place, token: string)
    requires !p.inFs && token != ".."
    ensures (forall i: nat :: !FirstOf(w, p.knode, token, i)) ==> Step(w, p, token) == None
    ensures forall i: nat :: FirstOf(w, p.knode, token, i) ==> Step(w, p, token) == Arrive(w, w.knodes[p.knode].refs[i])
  {
    KFindIsFirst(w, p.knode, token);
    hide Arrive, KFind;
    forall i: nat | FirstOf(w, p.knode, token, i) ensures KFind(w, p.knode, token) == w.knodes[p.knode].refs[i] {
      assert KFind(w, p.knode, token) != NOWHERE;
      var j: nat :| FirstOf(w, p.knode, token, j) && w.knodes[p.knode].refs[j] == KFind(w, p.knode, token);
      OneFirstOf(w, p.knode, token, i, j);
    }
  }

  lemma OneFirstOf(w: World, a: Addr, name: string, i: nat, j: nat)
    requires FirstOf(w, a, name, i) && FirstOf(w, a, name, j)
    ensures i == j
  {
  }

  /** A name, inside a volume: the first entry of that name, or failure. */
  lemma StepInVolume(w: World, p: Place, token: string)
    requires p.inFs && p.ctx in w.devices && token != ".."
    ensures (forall i: nat :: !FirstSlot(w.devices[p.ctx], p.fsNode, token, i)) ==> Step(w, p, token) == None
    ensures forall i: nat :: FirstSlot(w.devices[p.ctx], p.fsNode, token, i) ==>
              var c := w.devices[p.ctx].nodes[p.fsNode].refs[i];
              Step(w, p, token) == if c == 0 then None else Some(Place(p.knode, c, true, p.ctx))
  {
    var d := w.devices[p.ctx];
    FirstEntryIsFirst(d, p.fsNode, token);
    hide FirstEntry;
    forall i: nat | FirstSlot(d, p.fsNode, token, i) ensures FirstEntry(d, FsRefs(d, p.fsNode), token) == d.nodes[p.fsNode].refs[i] {
      var j: nat :| FirstSlot(d, p.fsNode, token, j) && d.nodes[p.fsNode].refs[j] == FirstEntry(d, FsRefs(d, p.fsNode), token);
      OneFirstSlot(d, p.fsNode, token, i, j);
    }
  }

  lemma OneFirstSlot(d: Device, a: Addr, name: string, i: nat, j: nat)
    requires FirstSlot(d, a, name, i) && FirstSlot(d, a, name, j)
    ensures i == j
  {
    var x, y := d.nodes[a].refs[i], d.nodes[a].refs[j];
    assert x != NOWHERE && y != NOWHERE;
  }

  /** "..": outside volumes it arrives at the kernel node above; from the root of a volume it leaves for
      the kernel node above the mount, and does not enter again; elsewhere it follows the parent field. */
  lemma StepUp(w: World, p: Place)
    requires PlaceOk(w, p)
    ensures !p.inFs ==> Step(w, p, "..") == Arrive(w, KParent(w, p.knode))
    ensures p.inFs ==>
              var d := w.devices[p.ctx];
              Step(w, p, "..") ==
                if p.fsNode == d.root then Some(Place(KParent(w, p.knode), 0, false, 0))
                else if p.fsNode in d.nodes && d.nodes[p.fsNode].isDirectory
                then Some(Place(p.knode, d.nodes[p.fsNode].parent, true, p.ctx))
                else Some(Place(p.knode, NOWHERE, true, p.ctx))
  {
    hide Arrive, KParent;
  }

  /** "." goes nowhere, wherever in a path it stands. */
  lemma DotGoesNowhere(w: World, p: Place, a: seq<string>, b: seq<string>)
    ensures Walk(w, p, a + ["."] + b) == Walk(w, p, a + b)
  {
    WalkConcat(w, p, a, ["."] + b);
    WalkConcat(w, p, a, b);
    assert a + ["."] + b == a + (["."] + b);
    assert (["."] + b)[1..] == b;
    hide Step;
  }

  /** A walk is its steps. */
  lemma WalkIsSteps(w: World, p: Place, a: seq<string>, token: string)
    requires token != "."
    ensures Walk(w, p, []) == Some(p)
    ensures Walk(w, p, a + [token]) == if Walk(w, p, a).None? then None else Step(w, Walk(w, p, a).value, token)
  {
    WalkConcat(w, p, a, [token]);
    hide Step;
    if Walk(w, p, a).Some? {
      var q := Walk(w, p, a).value;
      assert [token][1..] == [];
      if Step(w, q, token).Some? { assert Walk(w, Step(w, q, token).value, []) == Step(w, q, token); }
    }
  }

  /** With VFS_OPEN_CREATE a file is created exactly if everything but the last name leads to a place
      inside a volume, the last name is missing there and has at most 15 characters, and the volume
      has room; and it is created in that place, under that name. */
  lemma {:induction false} CreatesExactly(w: World, p: Place, tokens: seq<string>, file: Addr)
    ensures var r := WalkCreate(w, p, tokens, true, file);
            if tokens == [] then r == Found(p)
            else
              var front, name := Walk(w, p, tokens[..|tokens| - 1]), tokens[|tokens| - 1];
              if front.Some? && front.value.inFs && name != "." && Step(w, front.value, name).None? && |name| <= 15 && file != NOWHERE
              then r == Created(front.value.(fsNode := file), front.value.fsNode, name)
              else !r.Created?
    decreases |tokens|
  {
    if |tokens| == 1 {
      hide Step;
      assert tokens[..0] == [];
      assert Walk(w, p, []) == Some(p);
    } else if |tokens| > 1 {
      var rest := tokens[1..];
      assert tokens[..|tokens| - 1][1..] == rest[..|rest| - 1] && rest[|rest| - 1] == tokens[|tokens| - 1];
      hide Step;
      if tokens[0] == "." {
        CreatesExactly(w, p, rest, file);
      } else if Step(w, p, tokens[0]).Some? {
        CreatesExactly(w, Step(w, p, tokens[0]).value, rest, file);
      }
    }
  }

  /** A path shorter than 256 characters is walked whole. */
  lemma ResolvedIs(w: World, path: string)
    requires path != "" && |path| <= 255
    ensures Resolved(w, path) ==
              var r := Walk(w, Start(w), Split(path));
              if r.None? then NOWHERE else if r.value.inFs then r.value.fsNode else r.value.knode
    ensures Start(w) == Place(w.root, 0, false, 0)
  {
    hide Walk, Split;
  }
}
