/** Writing a hive to its file and reading it back, field by field
    (kernel/registry/registry.c:21-29, 153-400). */
module RegistryFile {
  import opened Basics
  import opened Registry
  import opened RegistryRoundTrip
  import opened RegistrySpelling

  const MAGIC: seq<byte> := [82, 69, 71, 33]     // "REG!"

  /** b with s written over it from position at on, growing if s goes past its end. */
  ghost function Put(b: seq<byte>, at: nat, s: seq<byte>): (r: seq<byte>)
    requires at <= |b|
    ensures |r| == if at + |s| <= |b| then |b| else at + |s|
  {
    b[..at] + s + if at + |s| <= |b| then b[at + |s|..] else []
  }

  lemma PutPut(b: seq<byte>, at: nat, s: seq<byte>, t: seq<byte>)
    requires at <= |b|
    ensures Put(Put(b, at, s), at + |s|, t) == Put(b, at, s + t)
  {
  }

  /** An open file: its bytes and the position of the next access. */
  class HiveFile {
    var bytes: seq<byte>
    var pos: nat

    ghost predicate Valid()
      reads this
    {
      pos <= |bytes|
    }

    ghost function Left(): seq<byte>
      requires Valid()
      reads this
    {
      bytes[pos..]
    }

    constructor (bytes: seq<byte>)
      ensures Valid() && this.bytes == bytes && pos == 0
    {
      this.bytes, pos := bytes, 0;
    }

    method Truncate(n: nat)
      modifies this
      ensures Valid() && pos == 0 && |bytes| == n
      ensures bytes == if n <= |old(bytes)| then old(bytes)[..n] else old(bytes) + Zeros(n - |old(bytes)|)
    {
      bytes := if n <= |bytes| then bytes[..n] else bytes + Zeros(n - |bytes|);
      pos := 0;
    }

    /** Writing past the end makes the file longer. */
    method WriteExact(s: seq<byte>)
      requires Valid()
      modifies this
      ensures Valid() && bytes == Put(old(bytes), old(pos), s) && pos == old(pos) + |s|
    {
      bytes := bytes[..pos] + s + if pos + |s| <= |bytes| then bytes[pos + |s|..] else [];
      pos := pos + |s|;
    }

    /** All n bytes or failure. */
    method ReadExact(n: nat) returns (ok: bool, data: seq<byte>)
      requires Valid()
      modifies this`pos
      ensures Valid() && ok == (n <= |old(Left())|)
      ensures ok ==> data == old(Left())[..n] && Left() == old(Left())[n..]
    {
      if pos + n > |bytes| {
        pos := |bytes|;
        return false, [];
      }
      data := bytes[pos..pos + n];
      pos := pos + n;
      return true, data;
    }
  }

  // ---------------------------------------------------------------- the size beforehand

  lemma {:induction false} ValuesSizeStep(vs: seq<Value>, i: nat)
    requires i < |vs|
    ensures ValuesSize(vs[i..]) == HEADER_SIZE + vs[i].length + ValuesSize(vs[i + 1..])
  {
    assert vs[i..][1..] == vs[i + 1..];
  }

  lemma {:induction false} KeysSizeStep(ks: seq<Key>, i: nat)
    requires i < |ks|
    ensures KeysSize(ks[i..]) == KeySize(ks[i]) + KeysSize(ks[i + 1..])
  {
    assert ks[i..][1..] == ks[i + 1..];
  }

  lemma AddWraps(exact: nat, c: nat)
    ensures (exact % U32 + c) % U32 == (exact + c) % U32
  {
  }

  lemma AddBothWrap(exact: nat, c: nat)
    ensures (exact % U32 + c % U32) % U32 == (exact + c) % U32
  {
  }

  /** Adds in size_t, which has 32 bits. */
  method CalculateKeySize(k: Key) returns (total: nat)
    ensures total == KeySize(k) % U32
    decreases k
  {
    total := NAME_LEN + 2 + 4;
    ghost var exact: nat := HEADER_SIZE;
    for i := 0 to |k.values|
      invariant total == exact % U32 && exact + ValuesSize(k.values[i..]) == HEADER_SIZE + ValuesSize(k.values)
    {
      ValuesSizeStep(k.values, i);
      AddWraps(exact, HEADER_SIZE + k.values[i].length);
      total := (total + NAME_LEN + 2 + 4 + k.values[i].length) % U32;
      exact := exact + HEADER_SIZE + k.values[i].length;
    }
    AddWraps(exact, 4);
    total := (total + 4) % U32;
    exact := exact + 4;
    for i := 0 to |k.kids|
      invariant total == exact % U32 && exact + KeysSize(k.kids[i..]) == KeySize(k)
    {
      KeysSizeStep(k.kids, i);
      var below := CalculateKeySize(k.kids[i]);
      AddBothWrap(exact, KeySize(k.kids[i]));
      total := (total + below) % U32;
      exact := exact + KeySize(k.kids[i]);
    }
  }

  // ---------------------------------------------------------------- saving

  lemma ExportValuesStep(vs: seq<Value>, i: nat)
    requires ValuesOk(vs) && i < |vs|
    ensures ValueOk(vs[i]) && ValuesOk(vs[i..]) && ValuesOk(vs[i + 1..])
    ensures ExportValues(vs[i..]) == ExportValue(vs[i]) + ExportValues(vs[i + 1..])
  {
    assert vs[i..][1..] == vs[i + 1..];
  }

  lemma ExportKeysStep(ks: seq<Key>, i: nat)
    requires KeysOk(ks) && i < |ks|
    ensures KeyOk(ks[i]) && KeysOk(ks[i..]) && KeysOk(ks[i + 1..])
    ensures ExportKeys(ks[i..]) == ExportKey(ks[i]) + ExportKeys(ks[i + 1..])
  {
    assert ks[i..][1..] == ks[i + 1..];
    hide KeyOk, ExportKey;
  }

  /** The file held base, and w was written over it from position at on. */
  ghost predicate Emitted(f: HiveFile, base: seq<byte>, at: nat, w: seq<byte>)
    reads f
  {
    at <= |base| && f.bytes == Put(base, at, w) && f.pos == at + |w|
  }

  method Emit(f: HiveFile, s: seq<byte>, ghost base: seq<byte>, ghost at: nat, ghost w: seq<byte>)
    requires Emitted(f, base, at, w)
    modifies f
    ensures Emitted(f, base, at, w + s)
  {
    PutPut(base, at, w, s);
    f.WriteExact(s);
  }

  method EmitHeader(f: HiveFile, name: seq<byte>, permissions: nat, n: nat, ghost base: seq<byte>, ghost at: nat,
      ghost w: seq<byte>)
    requires |name| == NAME_LEN && permissions < 0x1_0000 && n < U32
    requires Emitted(f, base, at, w)
    modifies f
    ensures Emitted(f, base, at, w + Header(name, permissions, n))
  {
    Emit(f, name, base, at, w);
    Emit(f, U16(permissions), base, at, w + name);
    Emit(f, Encode(n), base, at, w + name + U16(permissions));
    assert w + name + U16(permissions) + Encode(n) == w + Header(name, permissions, n);
  }

  method ExportValueTo(f: HiveFile, v: Value, ghost base: seq<byte>, ghost at: nat, ghost w: seq<byte>)
    requires ValueOk(v) && Emitted(f, base, at, w)
    modifies f
    ensures Emitted(f, base, at, w + ExportValue(v))
  {
    EmitHeader(f, v.name, v.permissions, v.length, base, at, w);
    ghost var h := Header(v.name, v.permissions, v.length);
    assert w + h + Payload(v) == w + ExportValue(v);
    if v.length > 0 && v.data.Some? {
      Emit(f, v.data.value, base, at, w + h);
    } else {
      assert w + h + [] == w + h;
    }
  }

  method ExportKeyTo(f: HiveFile, k: Key, ghost base: seq<byte>, ghost at: nat, ghost w: seq<byte>)
    requires KeyOk(k) && Emitted(f, base, at, w)
    modifies f
    ensures Emitted(f, base, at, w + ExportKey(k))
    decreases k
  {
    hide Emitted, ExportKey, ExportKeys, ExportValue, ExportValues, Header, Encode;
    ghost var all := w + ExportKey(k);
    KeyParts4(k);
    ghost var tail := Encode(|k.kids|) + ExportKeys(k.kids);
    ghost var done := w + Header(k.name, k.permissions, |k.values|);
    EmitHeader(f, k.name, k.permissions, |k.values|, base, at, w);
    assert k.values[0..] == k.values && k.kids[0..] == k.kids;
    for i := 0 to |k.values|
      invariant Emitted(f, base, at, done) && done + (ExportValues(k.values[i..]) + tail) == all
    {
      ExportValuesStep(k.values, i);
      ExportValueTo(f, k.values[i], base, at, done);
      done := done + ExportValue(k.values[i]);
    }
    NothingLeft(k.values, k.kids);
    Emit(f, Encode(|k.kids|), base, at, done);
    done := done + Encode(|k.kids|);
    for i := 0 to |k.kids|
      invariant Emitted(f, base, at, done) && done + ExportKeys(k.kids[i..]) == all
    {
      ExportKeysStep(k.kids, i);
      ExportKeyTo(f, k.kids[i], base, at, done);
      done := done + ExportKey(k.kids[i]);
    }
    assert done + [] == done;
  }

  lemma KeyParts4(k: Key)
    requires KeyOk(k)
    ensures NameOk(k.name) && k.permissions < 0x1_0000 && |k.values| < U32 && |k.kids| < U32
    ensures ValuesOk(k.values) && KeysOk(k.kids)
    ensures ExportKey(k) == Header(k.name, k.permissions, |k.values|) + (ExportValues(k.values) + (Encode(|k.kids|) + ExportKeys(k.kids)))
  {
    hide Header, ExportValues, ExportKeys, Encode, NameOk;
  }

  lemma NothingLeft(vs: seq<Value>, ks: seq<Key>)
    ensures ExportValues(vs[|vs|..]) == [] && ExportKeys(ks[|ks|..]) == []
  {
  }

  // ---------------------------------------------------------------- loading

  /** A name, permissions and a count or length. */
  method ReadHeader(f: HiveFile) returns (ok: bool, name: seq<byte>, permissions: nat, n: nat)
    requires f.Valid()
    modifies f`pos
    ensures f.Valid() && ok == (|old(f.Left())| >= HEADER_SIZE)
    ensures ok ==>
              && f.Left() == old(f.Left())[HEADER_SIZE..] && name == StoredName(old(f.Left())[..NAME_LEN - 1])
              && permissions == U16Of(old(f.Left())[NAME_LEN..NAME_LEN + 2])
              && n == Decode(old(f.Left())[NAME_LEN + 2..HEADER_SIZE])
  {
    ghost var b := f.Left();
    ok, name, permissions, n := false, [], 0, 0;
    var ok0, raw := f.ReadExact(NAME_LEN);
    if !ok0 { return; }
    var ok1, low := f.ReadExact(2);
    if !ok1 { return; }
    var ok2, count := f.ReadExact(4);
    if !ok2 { return; }
    assert raw[..NAME_LEN - 1] == b[..NAME_LEN - 1];
    assert low == b[NAME_LEN..NAME_LEN + 2];
    assert count == b[NAME_LEN + 2..HEADER_SIZE];
    return true, StoredName(raw[..NAME_LEN - 1]), U16Of(low), Decode(count);
  }

  method ImportValue(f: HiveFile) returns (r: Option<Value>)
    requires f.Valid()
    modifies f`pos
    ensures f.Valid()
    ensures var was := ParseValue(old(f.Left()));
            if was.None? then r == None else r == Some(was.value.0) && f.Left() == was.value.1
  {
    ghost var b := f.Left();
    var ok, name, permissions, length := ReadHeader(f);
    if !ok || length > MAX_VALUE_SIZE { return None; }
    var data: Option<seq<byte>> := None;
    if length > 0 {
      var got, bytes := f.ReadExact(length);
      if !got { return None; }
      data := Some(bytes);
      assert bytes == b[HEADER_SIZE..HEADER_SIZE + length];
    }
    assert f.Left() == b[HEADER_SIZE + length..];
    return Some(Value(name, permissions, length, data));
  }

  /** Reads a key and everything below it, each value and subkey linked in front of its siblings. */
  method ImportKey(f: HiveFile, depth: nat) returns (r: Option<Key>)
    requires f.Valid()
    modifies f`pos
    ensures f.Valid()
    ensures var was := ParseKey(old(f.Left()), depth);
            if was.None? then r == None else r == Some(was.value.0) && f.Left() == was.value.1
    decreases if depth <= MAX_DEPTH then MAX_DEPTH + 1 - depth else 0
  {
    hide HiveFile.Left;
    ghost var b := f.Left();
    if depth > MAX_DEPTH { return None; }
    var ok, name, permissions, count := ReadHeader(f);
    if !ok { return None; }
    ghost var afterHeader := f.Left();
    var values: seq<Value> := [];
    for i := 0 to count
      invariant f.Valid() && ParseValues(afterHeader, count, []) == ParseValues(f.Left(), count - i, values)
    {
      var v := ImportValue(f);
      if v.None? { return None; }
      values := [v.value] + values;
    }
    ghost var afterValues := f.Left();
    var ok4, raw := f.ReadExact(4);
    if !ok4 { return None; }
    var below := Decode(raw);
    ghost var afterCount := f.Left();
    var kids: seq<Key> := [];
    for i := 0 to below
      invariant f.Valid() && ParseKeys(afterCount, below, depth + 1, []) == ParseKeys(f.Left(), below - i, depth + 1, kids)
    {
      var c := ImportKey(f, depth + 1);
      if c.None? { return None; }
      kids := [c.value] + kids;
    }
    return Some(Key(name, permissions, values, kids));
  }

  // ---------------------------------------------------------------- whole hives

  ghost predicate RootOk(root: Option<Key>) {
    root.Some? ==> KeyOk(root.value)
  }

  /** What saving a hive writes. */
  ghost function HiveBytes(root: Option<Key>): (b: seq<byte>)
    requires RootOk(root)
  {
    MAGIC + if root.None? then [0] else [1] + ExportKey(root.value)
  }

  /** What the size of a hive comes to; the file is cut or filled to this modulo 2^32. */
  function HiveSize(root: Option<Key>): nat {
    4 + 1 + if root.None? then 0 else KeySize(root.value)
  }

  /** The bytes values of the hive claim and do not have. */
  function HiveMissing(root: Option<Key>): nat {
    if root.None? then 0 else Missing(root.value)
  }

  /** What loading makes of a file when the hive held before: success and the new root. */
  ghost function ParseHive(b: seq<byte>, before: Option<Key>): (bool, Option<Key>) {
    if |b| < 4 || b[..4] != MAGIC then (false, before)
    else if |b| < 5 then (false, None)
    else if b[4] == 0 then (true, None)
    else
      var r := ParseKey(b[5..], 0);
      if r.None? then (false, None) else (true, Some(r.value.0))
  }

  lemma HiveStart(root: Option<Key>)
    requires RootOk(root)
    ensures var b := HiveBytes(root);
            |b| >= 5 && b[0] == 82 && b[1] == 69 && b[2] == 71 && b[3] == 33 && b[4] == if root.Some? then 1 else 0
  {
    hide ExportKey;
  }

  class Hive {
    var root: Option<Key>

    constructor ()
      ensures root == None
    {
      root := None;
    }

    method TotalSize() returns (total: nat)
      requires RootOk(root)
      ensures total == HiveSize(root) % U32
    {
      hide KeySize, KeyOk;
      total := 1;
      if root.Some? {
        var size := CalculateKeySize(root.value);
        AddWraps(KeySize(root.value), 1);
        AddWraps(KeySize(root.value) + 1, 4);
        total := (total + size) % U32;
      }
      total := (total + 4) % U32;
    }

    /** The file is cut or filled to the computed size and then written from its start, growing again if
        that was too small. */
    method Export(f: HiveFile)
      requires f.Valid() && RootOk(root) && |HiveBytes(root)| < U32
      modifies f
      ensures |f.bytes| == if |HiveBytes(root)| <= HiveSize(root) % U32 then HiveSize(root) % U32 else |HiveBytes(root)|
      ensures f.Valid() && f.bytes[..|HiveBytes(root)|] == HiveBytes(root)
      ensures |f.bytes| >= 5 && f.bytes[..4] == [82, 69, 71, 33] && f.bytes[4] == if root.Some? then 1 else 0
    {
      hide ExportKey, KeySize, KeyOk, HiveSize;
      var total := TotalSize();
      f.Truncate(total);
      ghost var base := f.bytes;
      assert Emitted(f, base, 0, []);
      Emit(f, MAGIC, base, 0, []);
      assert [] + MAGIC == MAGIC;
      Emit(f, [if root.Some? then 1 else 0], base, 0, MAGIC);
      if root.Some? {
        ExportKeyTo(f, root.value, base, 0, MAGIC + [1]);
        assert MAGIC + [1] + ExportKey(root.value) == HiveBytes(root);
      }
      assert f.bytes == Put(base, 0, HiveBytes(root));
      HiveStart(root);
      assert forall i :: 0 <= i < 5 ==> f.bytes[i] == HiveBytes(root)[i];
    }

    /** A file without the magic leaves the hive alone; any other failure leaves it empty. */
    method Import(f: HiveFile) returns (ok: bool)
      requires f.Valid() && f.pos == 0
      modifies this, f`pos
      ensures (ok, root) == ParseHive(f.bytes, old(root))
      ensures |f.bytes| < 4 || f.bytes[..4] != [82, 69, 71, 33] ==> !ok && root == old(root)
      ensures |f.bytes| >= 4 && f.bytes[..4] == [82, 69, 71, 33] ==>
                if |f.bytes| == 4 then !ok && root == None
                else if f.bytes[4] == 0 then ok && root == None
                else ok <==> root.Some?
      ensures |f.bytes| > 4 && f.bytes[..4] == [82, 69, 71, 33] && f.bytes[4] != 0 ==>
                if ok then root.Some? && exists rest :: Begins(f.bytes[5..], Mirror(root.value), 0, rest)
                else forall k, rest :: !Begins(f.bytes[5..], k, 0, rest)
    {
      hide ParseKey, Begins, Mirror;
      ghost var b := f.bytes;
      assert f.Left() == b;
      var ok4, magic := f.ReadExact(4);
      if !ok4 || magic != MAGIC { return false; }
      root := None;
      var ok1, flag := f.ReadExact(1);
      if !ok1 { return false; }
      assert flag[0] == b[4] && f.Left() == b[5..];
      if flag[0] != 0 {
        FailsIffNotSpelled(b[5..], 0);
        root := ImportKey(f, 0);
        if root.None? { return false; }
        ParsesIffSpelled(b[5..], 0, root.value, f.Left());
      }
      return true;
    }
  }

  ghost predicate Loadable(root: Option<Key>) {
    root.Some? ==> KeyOk(root.value) && Complete(root.value) && Fits(root.value, 0)
  }

  function MirrorRoot(root: Option<Key>): Option<Key> {
    if root.None? then None else Some(Mirror(root.value))
  }

  /** Loading a saved hive, whatever the hive held and whatever follows in the file, succeeds exactly
      when the tree is within the limits and then gives its mirror image. */
  lemma SaveAndLoad(root: Option<Key>, before: Option<Key>, rest: seq<byte>)
    requires RootOk(root) && (root.Some? ==> Complete(root.value))
    ensures ParseHive(HiveBytes(root) + rest, before) == if Loadable(root) then (true, MirrorRoot(root)) else (false, None)
  {
    hide ExportKey, ParseKey, Mirror, KeyOk, Complete, Fits;
    var b := HiveBytes(root) + rest;
    assert b[..4] == MAGIC;
    if root.Some? {
      assert b[5..] == ExportKey(root.value) + rest;
      KeyRoundTrip(root.value, 0, rest);
    }
  }

  /** Two rounds of saving and loading restore the hive. */
  lemma SaveAndLoadTwice(root: Option<Key>, before: Option<Key>, rest: seq<byte>, rest': seq<byte>)
    requires Loadable(root)
    ensures var once := ParseHive(HiveBytes(root) + rest, before);
            once.0 && Loadable(once.1) && ParseHive(HiveBytes(once.1) + rest', before) == (true, root)
  {
    hide ExportKey, ParseKey, Mirror, KeyOk, Complete, Fits, ParseHive, HiveBytes;
    SaveAndLoad(root, before, rest);
    if root.Some? {
      MirrorIsOk(root.value, 0);
      MirrorTwice(root.value);
    }
    SaveAndLoad(MirrorRoot(root), before, rest');
  }

  /** The file holds the saved hive and no more exactly when the missing bytes, modulo 2^32, are none or
      make the size wrap. A hive that has all its bytes always fills its file; if no sum wraps, only
      such a hive does. */
  lemma FileIsExactIff(root: Option<Key>)
    requires RootOk(root) && |HiveBytes(root)| < U32
    ensures var n, m := |HiveBytes(root)|, HiveMissing(root) % U32;
            HiveSize(root) % U32 <= n <==> m == 0 || n + m >= U32
    ensures HiveSize(root) < U32 ==> (HiveSize(root) % U32 <= |HiveBytes(root)| <==> (root.Some? ==> Complete(root.value)))
  {
    HiveSizeIs(root);
    if root.Some? { MissingIsNone(root.value); }
    hide ExportKey, KeySize, KeyOk, Complete, Missing, HiveBytes, HiveSize, RootOk;
    AddWraps(HiveMissing(root), |HiveBytes(root)|);
  }

  lemma HiveSizeIs(root: Option<Key>)
    requires RootOk(root)
    ensures HiveSize(root) == |HiveBytes(root)| + HiveMissing(root)
  {
    hide ExportKey, KeySize, KeyOk, Missing;
    if root.Some? { KeySizeIs(root.value); }
  }

  // ---------------------------------------------------------------- building and searching

  /** A new subkey goes in front of its siblings. */
  method CreateKey(parent: Key, name: seq<byte>, permissions: nat) returns (r: Key)
    requires KeyOk(parent) && permissions < 0x1_0000 && |parent.kids| + 1 < U32
    ensures KeyOk(r) && r.name == parent.name && r.permissions == parent.permissions && r.values == parent.values
    ensures r.kids == [Key(StoredName(name), permissions, [], [])] + parent.kids
    ensures |CString(name)| < NAME_LEN ==> GetKey(r.kids, CString(name)) == Some(r.kids[0])
  {
    StoredNameOk(name);
    hide StoredName, NameOk;
    r := parent.(kids := [Key(StoredName(name), permissions, [], [])] + parent.kids);
  }

  method FindKey(ks: seq<Key>, name: seq<byte>) returns (r: Option<Key>)
    ensures r == GetKey(ks, name)
    ensures r.Some? ==> exists i: nat :: FirstKeyNamed(ks, name, i) && ks[i] == r.value
    ensures r == None ==> forall i :: 0 <= i < |ks| ==> CString(ks[i].name) != name
  {
    assert ks[0..] == ks;
    for i := 0 to |ks|
      invariant GetKey(ks, name) == GetKey(ks[i..], name)
      invariant forall j :: 0 <= j < i ==> CString(ks[j].name) != name
    {
      assert ks[i..][1..] == ks[i + 1..];
      if CString(ks[i].name) == name {
        assert FirstKeyNamed(ks, name, i);
        return Some(ks[i]);
      }
    }
    return None;
  }
}
