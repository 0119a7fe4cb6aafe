/** Walking a path over kernel nodes and mounted volumes (kernel/vfs/vfs_parse.c:14-109, 180-294,
    kernel/knode.c:348-390). */
module PathWalk {
  import opened Basics
  import opened Tokens

  type Addr = nat

  const NOWHERE: Addr := 0xFFFF_FFFF    // KNODE_NULL, FS_NULL and the failed resolution
  const SCRATCH: nat := 256
  const NAME_MAX: nat := 15             // VFS_NAME_MAX
  const LAST_TOKEN: nat := 32           // the parser's buffer for the name it may create

  /** A kernel node as path walking sees it. */
  datatype KNode = KNode(isDirectory: bool, isMount: bool, parent: Addr, refs: seq<Addr>, name: string)

  /** An entry of a volume; only directories have a parent field and references. */
  datatype FsNode = FsNode(isDirectory: bool, parent: Addr, refs: seq<Addr>, name: string)

  /** An opened device: whether its partition is readable and where its root directory is. */
  datatype Device = Device(isOpen: bool, readable: bool, root: Addr, nodes: map<Addr, FsNode>)

  datatype World = World(root: Addr, knodes: map<Addr, KNode>, devices: map<Addr, Device>)

  /** Where a walk stands. */
  datatype Place = Place(knode: Addr, fsNode: Addr, inFs: bool, ctx: Addr)

  predicate Null(a: Addr) {
    a == 0 || a == NOWHERE
  }

  // ---------------------------------------------------------------- kernel nodes

  predicate IsKDir(w: World, a: Addr) {
    !Null(a) && a in w.knodes && w.knodes[a].isDirectory
  }

  function KParent(w: World, a: Addr): Addr {
    if !IsKDir(w, a) then NOWHERE
    else if !IsKDir(w, w.knodes[a].parent) then a
    else w.knodes[a].parent
  }

  function KReference(w: World, a: Addr, i: nat): Addr {
    if IsKDir(w, a) && i < |w.knodes[a].refs| then w.knodes[a].refs[i] else NOWHERE
  }

  function KName(w: World, a: Addr): string {
    if a in w.knodes then w.knodes[a].name else ""
  }

  /** The first reference of that name, looking no further than a null one. */
  function FirstNamed(w: World, refs: seq<Addr>, name: string): Addr {
    if refs == [] || Null(refs[0]) then NOWHERE
    else if KName(w, refs[0]) == name then refs[0]
    else FirstNamed(w, refs[1..], name)
  }

  function KFind(w: World, a: Addr, name: string): Addr {
    if !IsKDir(w, a) || name == "" then NOWHERE else FirstNamed(w, w.knodes[a].refs, name)
  }

  /** The i-th reference of directory a is the first of that name, and none before it is null. */
  ghost predicate FirstOf(w: World, a: Addr, name: string, i: nat) {
    && a != 0 && a != NOWHERE && a in w.knodes && w.knodes[a].isDirectory && name != ""
    && i < |w.knodes[a].refs|
    && w.knodes[a].refs[i] in w.knodes && w.knodes[w.knodes[a].refs[i]].name == name
    && (forall j :: 0 <= j <= i ==> w.knodes[a].refs[j] != 0 && w.knodes[a].refs[j] != NOWHERE)
    && (forall j :: 0 <= j < i && w.knodes[a].refs[j] in w.knodes ==> w.knodes[w.knodes[a].refs[j]].name != name)
  }

  lemma {:induction false} FirstNamedFrom(w: World, a: Addr, name: string, i: nat)
    requires IsKDir(w, a) && name != "" && i <= |w.knodes[a].refs|
    requires forall j :: 0 <= j < i ==> !Null(w.knodes[a].refs[j]) && KName(w, w.knodes[a].refs[j]) != name
    ensures var r := FirstNamed(w, w.knodes[a].refs[i..], name);
            if r == NOWHERE then forall k: nat :: !FirstOf(w, a, name, k)
            else exists k: nat :: FirstOf(w, a, name, k) && w.knodes[a].refs[k] == r
    decreases |w.knodes[a].refs| - i
  {
    var refs := w.knodes[a].refs;
    if i < |refs| && !Null(refs[i]) {
      if KName(w, refs[i]) == name {
        assert FirstOf(w, a, name, i);
      } else {
        assert refs[i..][1..] == refs[i + 1..];
        FirstNamedFrom(w, a, name, i + 1);
      }
    }
  }

  /** The search finds the first reference of that name, if there is one before any null reference. */
  lemma KFindIsFirst(w: World, a: Addr, name: string)
    ensures if KFind(w, a, name) == NOWHERE then forall i: nat :: !FirstOf(w, a, name, i)
            else exists i: nat :: FirstOf(w, a, name, i) && w.knodes[a].refs[i] == KFind(w, a, name)
  {
    if IsKDir(w, a) && name != "" {
      assert w.knodes[a].refs[0..] == w.knodes[a].refs;
      FirstNamedFrom(w, a, name, 0);
    }
  }

  method KFindByName(w: World, a: Addr, name: string) returns (r: Addr)
    ensures r == KFind(w, a, name)
    ensures if r == NOWHERE then forall i: nat :: !FirstOf(w, a, name, i)
            else exists i: nat :: FirstOf(w, a, name, i) && w.knodes[a].refs[i] == r
  {
    KFindIsFirst(w, a, name);
    hide FirstOf;
    if !IsKDir(w, a) { return NOWHERE; }
    if name == "" { return NOWHERE; }
    var i := 0;
    ghost var refs := w.knodes[a].refs;
    assert refs[0..] == refs;
    while true
      invariant i <= |refs| && KFind(w, a, name) == FirstNamed(w, refs[i..], name)
      decreases |refs| - i
    {
      var reference := KReference(w, a, i);
      if Null(reference) { break; }
      assert refs[i..][1..] == refs[i + 1..];
      if KName(w, reference) == name { return reference; }
      i := i + 1;
    }
    return NOWHERE;
  }

  // ---------------------------------------------------------------- volumes

  function FsRefs(d: Device, a: Addr): seq<Addr> {
    if a in d.nodes && d.nodes[a].isDirectory then d.nodes[a].refs else []
  }

  function FsParent(d: Device, a: Addr): Addr {
    if a in d.nodes && d.nodes[a].isDirectory then d.nodes[a].parent else NOWHERE
  }

  function FsName(d: Device, a: Addr): string {
    if a in d.nodes then d.nodes[a].name else ""
  }

  /** The first entry of that name, passing over empty slots; 0 if there is none. */
  function FirstEntry(d: Device, refs: seq<Addr>, name: string): Addr {
    if refs == [] then 0
    else if refs[0] != NOWHERE && FsName(d, refs[0]) == name then refs[0]
    else FirstEntry(d, refs[1..], name)
  }

  /** The i-th slot of directory a is the first one in use whose entry has that name. */
  ghost predicate FirstSlot(d: Device, a: Addr, name: string, i: nat) {
    && a in d.nodes && d.nodes[a].isDirectory && i < |d.nodes[a].refs|
    && forall j :: 0 <= j <= i ==>
         var x := d.nodes[a].refs[j];
         (x != NOWHERE && name == (if x in d.nodes then d.nodes[x].name else "")) <==> j == i
  }

  lemma {:induction false} FirstEntryFrom(d: Device, a: Addr, name: string, i: nat)
    requires a in d.nodes && d.nodes[a].isDirectory && i <= |d.nodes[a].refs|
    requires forall j :: 0 <= j < i ==> !(d.nodes[a].refs[j] != NOWHERE && FsName(d, d.nodes[a].refs[j]) == name)
    ensures || (FirstEntry(d, d.nodes[a].refs[i..], name) == 0 && forall k: nat :: !FirstSlot(d, a, name, k))
            || exists k: nat :: FirstSlot(d, a, name, k) && d.nodes[a].refs[k] == FirstEntry(d, d.nodes[a].refs[i..], name)
    decreases |d.nodes[a].refs| - i
  {
    var refs := d.nodes[a].refs;
    if i < |refs| {
      assert refs[i..][1..] == refs[i + 1..];
      if refs[i] != NOWHERE && FsName(d, refs[i]) == name {
        assert FirstSlot(d, a, name, i);
      } else {
        FirstEntryFrom(d, a, name, i + 1);
      }
    }
  }

  /** The search finds the first entry of that name, if there is one. */
  lemma FirstEntryIsFirst(d: Device, a: Addr, name: string)
    ensures || (FirstEntry(d, FsRefs(d, a), name) == 0 && forall i: nat :: !FirstSlot(d, a, name, i))
            || exists i: nat :: FirstSlot(d, a, name, i) && d.nodes[a].refs[i] == FirstEntry(d, FsRefs(d, a), name)
  {
    if a in d.nodes && d.nodes[a].isDirectory {
      assert d.nodes[a].refs[0..] == d.nodes[a].refs;
      FirstEntryFrom(d, a, name, 0);
    }
  }

  method FindEntry(d: Device, a: Addr, name: string) returns (found: Addr)
    ensures found == FirstEntry(d, FsRefs(d, a), name)
    ensures || (found == 0 && forall i: nat :: !FirstSlot(d, a, name, i))
            || exists i: nat :: FirstSlot(d, a, name, i) && d.nodes[a].refs[i] == found
  {
    FirstEntryIsFirst(d, a, name);
    hide FirstSlot;
    var refs := FsRefs(d, a);
    found := 0;
    assert refs[0..] == refs;
    for i := 0 to |refs|
      invariant FirstEntry(d, refs, name) == FirstEntry(d, refs[i..], name) && found == 0
    {
      assert refs[i..][1..] == refs[i + 1..];
      if refs[i] == NOWHERE { continue; }
      if FsName(d, refs[i]) == name {
        found := refs[i];
        break;
      }
    }
  }

  // ---------------------------------------------------------------- one token

  /** What arriving at kernel node k leads to: inside the volume mounted there if it can be entered,
      nowhere if its partition is unreadable, and otherwise the node itself. */
  function Arrive(w: World, k: Addr): Option<Place> {
    var here := Place(k, 0, false, 0);
    if !(k in w.knodes && w.knodes[k].isMount) then Some(here)
    else
      var device, ctx := KReference(w, k, 0), KReference(w, k, 1);
      if Null(ctx) || Null(device) || ctx !in w.devices then Some(here)
      else if !w.devices[ctx].readable then None
      else if w.devices[ctx].isOpen then Some(Place(k, w.devices[ctx].root, true, ctx))
      else Some(here)
  }

  /** One token other than "." */
  function Step(w: World, p: Place, token: string): Option<Place> {
    if !p.inFs then
      if token == ".." then Arrive(w, KParent(w, p.knode))
      else
        var next := KFind(w, p.knode, token);
        if Null(next) then None else Arrive(w, next)
    else if p.ctx !in w.devices then None
    else
      var d := w.devices[p.ctx];
      if token == ".." then
        if p.fsNode == d.root then Some(Place(KParent(w, p.knode), 0, false, 0))
        else Some(p.(fsNode := FsParent(d, p.fsNode)))
      else
        var found := FirstEntry(d, FsRefs(d, p.fsNode), token);
        if Null(found) then None else Some(p.(fsNode := found))
  }

  /** All tokens in turn. */
  function Walk(w: World, p: Place, tokens: seq<string>): Option<Place>
    decreases |tokens|
  {
    if tokens == [] then Some(p)
    else if tokens[0] == "." then Walk(w, p, tokens[1..])
    else
      var next := Step(w, p, tokens[0]);
      if next.None? then None else Walk(w, next.value, tokens[1..])
  }

  function Start(w: World): Place {
    Place(w.root, 0, false, 0)
  }

  function Address(p: Place): Addr {
    if p.inFs then p.fsNode else p.knode
  }

  /** A walk stands in a volume only through its device, and outside it remembers none. */
  ghost predicate PlaceOk(w: World, p: Place) {
    && (p.inFs ==> p.ctx in w.devices)
    && (!p.inFs ==> p.fsNode == 0 && p.ctx == 0)
  }

  function Cut(path: string): (r: string)
    ensures r <= path && |r| == if |path| <= 255 then |path| else 255
  {
    if |path| < SCRATCH then path else path[..SCRATCH - 1]
  }

  // ---------------------------------------------------------------- laws of walking

  lemma {:induction false} WalkConcat(w: World, p: Place, a: seq<string>, b: seq<string>)
    ensures Walk(w, p, a + b) == if Walk(w, p, a).None? then None else Walk(w, Walk(w, p, a).value, b)
    decreases |a|
  {
    if a == [] {
      assert a + b == b;
    } else {
      assert (a + b)[1..] == a[1..] + b;
      if a[0] == "." {
        WalkConcat(w, p, a[1..], b);
      } else if Step(w, p, a[0]).Some? {
        WalkConcat(w, Step(w, p, a[0]).value, a[1..], b);
      }
    }
  }

  /** A longer path is the shorter one and then the rest from there. */
  lemma WalkJoined(w: World, p: Place, a: string, b: string)
    ensures Walk(w, p, Split(a + [SLASH] + b))
         == if Walk(w, p, Split(a)).None? then None else Walk(w, Walk(w, p, Split(a)).value, Split(b))
  {
    SplitJoined(a, b);
    WalkConcat(w, p, Split(a), Split(b));
  }

  /** Into an entry of a volume and out again. */
  lemma DownAndUp(w: World, p: Place, name: string)
    requires p.inFs && p.ctx in w.devices && name != "." && name != ".."
    requires var d := w.devices[p.ctx]; var c := FirstEntry(d, FsRefs(d, p.fsNode), name);
             !Null(c) && c != d.root && c in d.nodes && d.nodes[c].isDirectory && d.nodes[c].parent == p.fsNode
    ensures Walk(w, p, [name, ".."]) == Some(p)
  {
    var d := w.devices[p.ctx];
    var c := FirstEntry(d, FsRefs(d, p.fsNode), name);
    var q := p.(fsNode := c);
    assert Step(w, p, name) == Some(q) && Step(w, q, "..") == Some(p);
    TwoTokens(w, p, name, "..");
  }

  lemma TwoTokens(w: World, p: Place, a: string, b: string)
    requires a != "." && b != "." && Step(w, p, a).Some?
    ensures Walk(w, p, [a, b]) == Step(w, Step(w, p, a).value, b)
  {
    assert [a, b][1..] == [b] && [b][1..] == [];
    var q := Step(w, p, a).value;
    assert Walk(w, q, [b]) == Step(w, q, b) by { if Step(w, q, b).Some? { assert Walk(w, Step(w, q, b).value, []) == Step(w, q, b); } }
  }

  predicate Enterable(w: World, k: Addr) {
    Arrive(w, k).Some? && Arrive(w, k).value.inFs
  }

  /** Into a mounted volume and out again leads back to the kernel node it was entered from. */
  lemma CrossMountAndBack(w: World, p: Place, name: string)
    requires !p.inFs && p == Place(p.knode, 0, false, 0) && name != "." && name != ".."
    requires var m := KFind(w, p.knode, name); !Null(m) && Enterable(w, m) && KParent(w, m) == p.knode
    ensures Walk(w, p, [name]).Some? && Walk(w, p, [name]).value.inFs
    ensures Walk(w, p, [name, ".."]) == Some(p)
  {
    var m := KFind(w, p.knode, name);
    var q := Arrive(w, m).value;
    assert [name][1..] == [];
    assert Step(w, p, name) == Some(q) && Step(w, q, "..") == Some(p);
    TwoTokens(w, p, name, "..");
  }

  /** Kernel node k carries a mount through which a walk does not pass by: one whose partition is
      unreadable or whose device is open. */
  predicate Diverts(w: World, k: Addr) {
    && k in w.knodes && w.knodes[k].isMount && IsKDir(w, k) && |w.knodes[k].refs| >= 2
    && !Null(w.knodes[k].refs[0]) && !Null(w.knodes[k].refs[1]) && w.knodes[k].refs[1] in w.devices
    && (!w.devices[w.knodes[k].refs[1]].readable || w.devices[w.knodes[k].refs[1]].isOpen)
  }

  /** Between kernel nodes, down to one that does not divert the walk and up again comes back exactly
      when the upper one does not either. */
  lemma DownAndUpKernel(w: World, p: Place, name: string)
    requires !p.inFs && PlaceOk(w, p) && name != "." && name != ".."
    requires var c := KFind(w, p.knode, name); !Null(c) && !Diverts(w, c) && KParent(w, c) == p.knode
    ensures Walk(w, p, [name, ".."]) == Some(p) <==> !Diverts(w, p.knode)
  {
    TwoTokens(w, p, name, "..");
  }

  // ---------------------------------------------------------------- the two walkers

  /** What vfs_parse_path makes of a path: a place, a file newly created in one, or failure. */
  datatype Parsed = Found(place: Place) | Created(place: Place, parent: Addr, name: string) | Failed

  /** A name that would be cut short is refused. */
  function CreateFile(p: Place, name: string, file: Addr): Parsed {
    if |name| > NAME_MAX || file == NOWHERE then Failed else Created(p.(fsNode := file), p.fsNode, name)
  }

  /** One token other than "." with VFS_OPEN_CREATE: a name missing from a volume is created there, if
      it is short enough, when no token follows. file is what creating a file answers. */
  function StepCreate(w: World, p: Place, token: string, last: bool, create: bool, file: Addr): Parsed {
    if Step(w, p, token).Some? then Found(Step(w, p, token).value)
    else if create && p.inFs && last then CreateFile(p, token, file)
    else Failed
  }

  function WalkCreate(w: World, p: Place, tokens: seq<string>, create: bool, file: Addr): Parsed
    decreases |tokens|
  {
    if tokens == [] then Found(p)
    else if tokens[0] == "." then WalkCreate(w, p, tokens[1..], create, file)
    else
      var next := StepCreate(w, p, tokens[0], |tokens| == 1, create, file);
      if next.Found? then WalkCreate(w, next.place, tokens[1..], create, file) else next
  }

  lemma {:induction false} CreateOnlyMissing(w: World, p: Place, tokens: seq<string>, create: bool, file: Addr)
    ensures Walk(w, p, tokens).Some? <==> WalkCreate(w, p, tokens, create, file).Found?
    ensures Walk(w, p, tokens).Some? ==> WalkCreate(w, p, tokens, create, file) == Found(Walk(w, p, tokens).value)
    ensures !create ==> !WalkCreate(w, p, tokens, create, file).Created?
    decreases |tokens|
  {
    if tokens != [] {
      if tokens[0] == "." {
        CreateOnlyMissing(w, p, tokens[1..], create, file);
      } else if Step(w, p, tokens[0]).Some? {
        CreateOnlyMissing(w, Step(w, p, tokens[0]).value, tokens[1..], create, file);
      }
    }
  }

  /** resolve_path_to_address. */
  ghost function Resolved(w: World, path: string): Addr {
    if path == "" then NOWHERE
    else
      var r := Walk(w, Start(w), Split(Cut(path)));
      if r.None? then NOWHERE else Address(r.value)
  }

  /** vfs_parse_path. */
  ghost function ParsedPath(w: World, path: string, create: bool, file: Addr): Parsed {
    WalkCreate(w, Start(w), Split(Cut(path)), create, file)
  }

  /** The two walkers agree on every non-empty path; creating never hides an existing node. */
  lemma WalkersAgree(w: World, path: string, create: bool, file: Addr)
    requires path != ""
    ensures var q := ParsedPath(w, path, create, file);
            && (q.Found? ==> Resolved(w, path) == Address(q.place))
            && (!q.Found? ==> Resolved(w, path) == NOWHERE)
            && (!create ==> q.Found? || q.Failed?)
  {
    CreateOnlyMissing(w, Start(w), Split(Cut(path)), create, file);
  }

  lemma CutPlain(path: string)
    requires Plain(path)
    ensures Plain(Cut(path))
  {
  }

  /** The partition block of a device: whether it could be read, and the root directory it names. */
  method GetPartition(w: World, ctx: Addr) returns (ok: bool, root: Addr)
    requires ctx in w.devices
    ensures ok == w.devices[ctx].readable && root == w.devices[ctx].root
  {
    ok, root := w.devices[ctx].readable, w.devices[ctx].root;
  }

  /** resolve_path_to_address: entering a volume if one is mounted at the kernel node just reached. */
  method EnterMount(w: World, k: Addr) returns (ok: bool, p: Place)
    ensures ok == Arrive(w, k).Some? && (ok ==> p == Arrive(w, k).value && PlaceOk(w, p))
    ensures !Diverts(w, k) ==> ok && p == Place(k, 0, false, 0)
    ensures Diverts(w, k) ==>
              var ctx := w.knodes[k].refs[1];
              ok == w.devices[ctx].readable && (ok ==> p == Place(k, w.devices[ctx].root, true, ctx))
  {
    ok, p := true, Place(k, 0, false, 0);
    if k in w.knodes && w.knodes[k].isMount {
      var device := KReference(w, k, 0);
      var ctx := KReference(w, k, 1);
      if !Null(ctx) && ctx in w.devices {
        if !Null(device) {
          var readable, root := GetPartition(w, ctx);
          if !readable { return false, p; }
          if w.devices[ctx].isOpen { p := Place(k, root, true, ctx); }
        }
      }
    }
  }

  /** resolve_path_to_address: one token other than ".". */
  method ResolveToken(w: World, p: Place, token: string) returns (ok: bool, q: Place)
    requires PlaceOk(w, p)
    ensures ok == Step(w, p, token).Some? && (ok ==> q == Step(w, p, token).value && PlaceOk(w, q))
  {
    hide Arrive, KFind, FirstEntry, KParent;
    if !p.inFs {
      var next;
      if token == ".." {
        next := KParent(w, p.knode);
      } else {
        next := KFindByName(w, p.knode, token);
        if Null(next) { return false, p; }
      }
      ok, q := EnterMount(w, next);
    } else if token == ".." {
      var parent := FsParent(w.devices[p.ctx], p.fsNode);
      var _, root := GetPartition(w, p.ctx);
      if p.fsNode == root {
        return true, Place(KParent(w, p.knode), 0, false, 0);
      }
      return true, p.(fsNode := parent);
    } else {
      var found := FindEntry(w.devices[p.ctx], p.fsNode, token);
      if Null(found) { return false, p; }
      return true, p.(fsNode := found);
    }
  }

  /** vfs_parse_path: a token outside any volume, with the test for a mount as the one condition it is
      there. */
  method ParseKernelToken(w: World, p: Place, token: string) returns (r: Parsed)
    requires PlaceOk(w, p) && !p.inFs
    ensures r == if Step(w, p, token).None? then Failed else Found(Step(w, p, token).value)
    ensures r.Found? ==> PlaceOk(w, r.place)
  {
    hide KFind, KParent;
    var knode, fsNode, inFs, ctx := p.knode, p.fsNode, p.inFs, p.ctx;
    if token == ".." {
      knode := KParent(w, knode);
    } else {
      var next := KFindByName(w, knode, token);
      if next == NOWHERE || next == 0 { return Failed; }
      knode := next;
    }
    if knode in w.knodes && w.knodes[knode].isMount {
      var device := KReference(w, knode, 0);
      var context := KReference(w, knode, 1);
      if context != 0 && context != NOWHERE && device != NOWHERE && device != 0 && context in w.devices {
        var readable, root := GetPartition(w, context);
        if !readable { return Failed; }
        if w.devices[context].isOpen { fsNode, ctx, inFs := root, context, true; }
      }
    }
    return Found(Place(knode, fsNode, inFs, ctx));
  }

  /** vfs_parse_path: a token inside a volume, with its own search and the creation of a last name that
      is missing. */
  method ParseVolumeToken(w: World, tok: Tokenizer, p: Place, token: string, create: bool,
      file: Addr) returns (r: Parsed)
    requires PlaceOk(w, p) && p.inFs && tok.Valid()
    modifies tok, tok.buffer
    ensures r == StepCreate(w, p, token, old(tok.Pending()) == [], create, file)
    ensures r.Found? ==> PlaceOk(w, r.place) && tok.Valid() && tok.Pending() == old(tok.Pending())
  {
    hide FirstEntry, KParent, Split, Tokenizer.Valid, Tokenizer.Pending;
    var lastToken := if |token| < LAST_TOKEN then token else token[..LAST_TOKEN - 1];
    var knode, fsNode, inFs, ctx := p.knode, p.fsNode, p.inFs, p.ctx;
    if token == ".." {
      var parent := FsParent(w.devices[ctx], fsNode);
      var _, root := GetPartition(w, ctx);
      if fsNode == root {
        inFs, fsNode, ctx, knode := false, 0, 0, KParent(w, knode);
      } else {
        fsNode := parent;
      }
      return Found(Place(knode, fsNode, inFs, ctx));
    }
    var refs := FsRefs(w.devices[ctx], fsNode);
    var found, i := 0, 0;
    EntryStep(w.devices[ctx], refs, 0, token);
    while i < |refs|
      modifies {}
      invariant i <= |refs| && found == 0
      invariant FirstEntry(w.devices[ctx], refs, token) == FirstEntry(w.devices[ctx], refs[i..], token)
    {
      EntryStep(w.devices[ctx], refs, i, token);
      if refs[i] != NOWHERE {
        var itemName := FsName(w.devices[ctx], refs[i]);
        if itemName == token {
          found := refs[i];
          break;
        }
      }
      i := i + 1;
    }
    if i == |refs| { EntryStep(w.devices[ctx], refs, i, token); }
    assert found == FirstEntry(w.devices[ctx], refs, token);
    var parentFsNode := fsNode;
    if found == 0 || found == NOWHERE {
      var nextToken := tok.Next();
      if nextToken == None && inFs && create {
        if |token| > NAME_MAX || |token| >= LAST_TOKEN { return Failed; }
        if file == NOWHERE { return Failed; }
        fsNode := file;
        return Created(Place(knode, fsNode, inFs, ctx), parentFsNode, lastToken);
      }
      return Failed;
    }
    fsNode := found;
    return Found(Place(knode, fsNode, inFs, ctx));
  }

  lemma EntryStep(d: Device, refs: seq<Addr>, i: nat, name: string)
    requires i <= |refs|
    ensures i == 0 ==> refs[i..] == refs
    ensures i == |refs| ==> FirstEntry(d, refs[i..], name) == 0
    ensures i < |refs| ==>
      FirstEntry(d, refs[i..], name) == if refs[i] != NOWHERE && FsName(d, refs[i]) == name then refs[i] else FirstEntry(d, refs[i + 1..], name)
  {
    if i < |refs| { assert refs[i..][1..] == refs[i + 1..]; }
  }

  /** vfs_parse_path: one token other than ".". */
  method ParseToken(w: World, tok: Tokenizer, p: Place, token: string, create: bool, file: Addr) returns (r: Parsed)
    requires PlaceOk(w, p) && tok.Valid()
    modifies tok, tok.buffer
    ensures r == StepCreate(w, p, token, old(tok.Pending()) == [], create, file)
    ensures r.Found? ==> PlaceOk(w, r.place) && tok.Valid() && tok.Pending() == old(tok.Pending())
  {
    hide Step, Tokenizer.Valid, Tokenizer.Pending, Split;
    if !p.inFs {
      r := ParseKernelToken(w, p, token);
    } else {
      r := ParseVolumeToken(w, tok, p, token, create, file);
    }
  }

  ghost function Rest(token: Option<string>, pending: seq<string>): seq<string> {
    if token.Some? then [token.value] + pending else []
  }

  lemma RestHead(token: Option<string>, pending: seq<string>)
    ensures token.Some? ==> Rest(token, pending) != [] && Rest(token, pending)[0] == token.value && Rest(token, pending)[1..] == pending
    ensures token.None? ==> Rest(token, pending) == []
  {
  }

  lemma RestNext(before: seq<string>, token: Option<string>, pending: seq<string>)
    requires if before == [] then token == None else token == Some(before[0]) && pending == before[1..]
    ensures Rest(token, pending) == before
  {
  }

  lemma WalkStep(w: World, p: Place, tokens: seq<string>)
    ensures tokens == [] ==> Walk(w, p, tokens) == Some(p)
    ensures tokens != [] && tokens[0] == "." ==> Walk(w, p, tokens) == Walk(w, p, tokens[1..])
    ensures tokens != [] && tokens[0] != "." ==>
      Walk(w, p, tokens) == if Step(w, p, tokens[0]).None? then None else Walk(w, Step(w, p, tokens[0]).value, tokens[1..])
  {
  }

  method ResolvePath(w: World, path: string) returns (r: Addr)
    requires Plain(path)
    ensures r == Resolved(w, path) && (path == "" ==> r == NOWHERE)
  {
    if path == "" { return NOWHERE; }
    CutPlain(path);
    hide Split, Step, Walk, Rest, Cut, Plain, Tokenizer.Valid, Tokenizer.Pending;
    var p := Start(w);
    var tok := new Tokenizer(Cut(path));
    ghost var rest := Split(Cut(path));
    var token := tok.Next();
    RestNext(rest, token, tok.Pending());
    while token.Some?
      invariant tok.Valid() && fresh(tok) && fresh(tok.buffer) && PlaceOk(w, p)
      invariant rest == Rest(token, tok.Pending())
      invariant Walk(w, Start(w), Split(Cut(path))) == Walk(w, p, rest)
      decreases |rest|
    {
      RestHead(token, tok.Pending());
      WalkStep(w, p, rest);
      if token.value != "." {
        var ok, q := ResolveToken(w, p, token.value);
        if !ok { return NOWHERE; }
        p := q;
      }
      rest := rest[1..];
      token := tok.Next();
      RestNext(rest, token, tok.Pending());
    }
    RestHead(token, tok.Pending());
    WalkStep(w, p, []);
    return Address(p);
  }

  lemma WalkCreateStep(w: World, p: Place, tokens: seq<string>, create: bool, file: Addr)
    ensures tokens == [] ==> WalkCreate(w, p, tokens, create, file) == Found(p)
    ensures tokens != [] && tokens[0] == "." ==>
      WalkCreate(w, p, tokens, create, file) == WalkCreate(w, p, tokens[1..], create, file)
    ensures tokens != [] && tokens[0] != "." ==>
      var next := StepCreate(w, p, tokens[0], tokens[1..] == [], create, file);
      WalkCreate(w, p, tokens, create, file) == if next.Found? then WalkCreate(w, next.place, tokens[1..], create, file) else next
  {
  }

  /** file is where creating a file would put it, or NOWHERE. */
  method ParsePath(w: World, path: string, create: bool, file: Addr) returns (r: Parsed)
    requires Plain(path)
    ensures r == ParsedPath(w, path, create, file)
  {
    CutPlain(path);
    hide Split, Step, StepCreate, WalkCreate, Rest, Cut, CreateFile, Plain, PlaceOk, Tokenizer.Valid, Tokenizer.Pending;
    var p := Start(w);
    StartOk(w);
    var tok := new Tokenizer(Cut(path));
    ghost var rest := Split(Cut(path));
    var token := tok.Next();
    RestNext(rest, token, tok.Pending());
    while token.Some?
      invariant tok.Valid() && fresh(tok) && fresh(tok.buffer) && PlaceOk(w, p)
      invariant rest == Rest(token, tok.Pending())
      invariant WalkCreate(w, Start(w), Split(Cut(path)), create, file) == WalkCreate(w, p, rest, create, file)
      decreases |rest|
    {
      RestHead(token, tok.Pending());
      WalkCreateStep(w, p, rest, create, file);
      if token.value != "." {
        r := ParseToken(w, tok, p, token.value, create, file);
        if !r.Found? { return; }
        p := r.place;
      }
      rest := rest[1..];
      token := tok.Next();
      RestNext(rest, token, tok.Pending());
    }
    RestHead(token, tok.Pending());
    WalkCreateStep(w, p, [], create, file);
    return Found(p);
  }

  lemma StartOk(w: World)
    ensures PlaceOk(w, Start(w))
  {
  }

  /** The two walkers on one path: without creating, both fail or both give the same address; creating
      never hides an existing node, and creates only what the resolver does not find. */
  method BothWalkers(w: World, path: string, create: bool, file: Addr) returns (address: Addr, parsed: Parsed)
    requires Plain(path) && path != ""
    ensures parsed.Found? ==> address == Address(parsed.place)
    ensures !parsed.Found? ==> address == NOWHERE
    ensures !create ==> parsed.Found? || parsed.Failed?
  {
    hide Resolved, ParsedPath;
    address := ResolvePath(w, path);
    parsed := ParsePath(w, path, create, file);
    WalkersAgree(w, path, create, file);
  }
}
