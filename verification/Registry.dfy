/** Registry hives (kernel/registry/registry.c): a tree of keys with values, and the byte stream it
    is saved as. Reading prepends to every list, so one save and load mirrors all sibling and value
    lists, and a second one restores them. */
module Registry {
  import opened Basics

  const NAME_LEN: nat := 16
  const MAX_VALUE_SIZE: nat := 0x1_0000
  const MAX_DEPTH: nat := 32
  const HEADER_SIZE: nat := NAME_LEN + 2 + 4

  /** length is what the value claims; data is absent when it was created without any. */
  datatype Value = Value(name: seq<byte>, permissions: nat, length: nat, data: Option<seq<byte>>)

  datatype Key = Key(name: seq<byte>, permissions: nat, values: seq<Value>, kids: seq<Key>)

  // ---------------------------------------------------------------- names

  /** A C string: what precedes the first zero byte. */
  function CString(s: seq<byte>): seq<byte> {
    if s == [] || s[0] == 0 then [] else [s[0]] + CString(s[1..])
  }

  /** How a name is kept: cut to 15 characters and filled up with zeros. */
  function StoredName(s: seq<byte>): seq<byte> {
    var c := CString(s);
    var cut := if |c| < NAME_LEN then c else c[..NAME_LEN - 1];
    cut + Zeros(NAME_LEN - |cut|)
  }

  ghost predicate NameOk(n: seq<byte>) {
    |n| == NAME_LEN && n[NAME_LEN - 1] == 0 && StoredName(n) == n
  }

  lemma {:induction false} CStringShort(s: seq<byte>)
    ensures |CString(s)| <= |s| && CString(s) == s[..|CString(s)|]
    ensures |CString(s)| < |s| ==> s[|CString(s)|] == 0
    ensures forall i :: 0 <= i < |CString(s)| ==> CString(s)[i] != 0
  {
    if s != [] && s[0] != 0 { CStringShort(s[1..]); }
  }

  lemma {:induction false} CStringPadded(c: seq<byte>, n: nat)
    requires forall i :: 0 <= i < |c| ==> c[i] != 0
    ensures CString(c + Zeros(n)) == c
  {
    if c == [] {
      assert c + Zeros(n) == Zeros(n);
    } else {
      assert (c + Zeros(n))[1..] == c[1..] + Zeros(n);
      CStringPadded(c[1..], n);
    }
  }

  /** A kept name is kept the same when read back, and compares equal to the cut original. */
  lemma StoredNameOk(s: seq<byte>)
    ensures NameOk(StoredName(s))
    ensures CString(StoredName(s)) == if |CString(s)| < NAME_LEN then CString(s) else CString(s)[..NAME_LEN - 1]
  {
    CStringShort(s);
    var c := CString(s);
    var cut := if |c| < NAME_LEN then c else c[..NAME_LEN - 1];
    CStringPadded(cut, NAME_LEN - |cut|);
  }

  /** Clearing the last byte of a kept name, as reading does, changes nothing. */
  lemma NameReadBack(n: seq<byte>)
    requires NameOk(n)
    ensures StoredName(n[..NAME_LEN - 1]) == n
  {
    CStringShort(n);
    var c := CString(n);
    assert |c| < NAME_LEN;
    assert n == c + Zeros(NAME_LEN - |c|);
    assert n[..NAME_LEN - 1] == c + Zeros(NAME_LEN - 1 - |c|);
    CStringPadded(c, NAME_LEN - 1 - |c|);
  }

  // ---------------------------------------------------------------- numbers and headers

  function U16(n: nat): (d: seq<byte>)
    requires n < 0x1_0000
  {
    [n % 256, n / 256]
  }

  function U16Of(d: seq<byte>): nat
    requires |d| == 2
  {
    d[0] as int + 256 * (d[1] as int)
  }

  /** Keys and values both start with a name, permissions and a count or length. */
  function Header(name: seq<byte>, permissions: nat, n: nat): (d: seq<byte>)
    requires |name| == NAME_LEN && permissions < 0x1_0000 && n < U32
    ensures |d| == HEADER_SIZE
  {
    name + U16(permissions) + Encode(n)
  }

  lemma HeaderRoundTrip(name: seq<byte>, permissions: nat, n: nat, rest: seq<byte>)
    requires |name| == NAME_LEN && permissions < 0x1_0000 && n < U32
    ensures var b := Header(name, permissions, n) + rest;
            && b[..NAME_LEN] == name && b[..NAME_LEN - 1] == name[..NAME_LEN - 1] && U16Of(b[NAME_LEN..NAME_LEN + 2]) == permissions
            && Decode(b[NAME_LEN + 2..HEADER_SIZE]) == n && b[HEADER_SIZE..] == rest
  {
    var b := Header(name, permissions, n) + rest;
    DecodeOfEncode(n);
    assert b[NAME_LEN..NAME_LEN + 2] == U16(permissions);
    assert b[NAME_LEN + 2..HEADER_SIZE] == Encode(n);
  }

  // ---------------------------------------------------------------- saving

  /** The C types: stored names, 16-bit permissions, 32-bit lengths and list lengths; bytes, if
      there are any, as many as claimed. */
  ghost predicate ValueOk(v: Value) {
    && NameOk(v.name) && v.permissions < 0x1_0000 && v.length < U32
    && (v.data.Some? ==> |v.data.value| == v.length > 0)
  }

  ghost predicate KeyOk(k: Key) {
    && NameOk(k.name) && k.permissions < 0x1_0000 && |k.values| < U32 && |k.kids| < U32
    && (forall v :: v in k.values ==> ValueOk(v))
    && (forall c :: c in k.kids ==> KeyOk(c))
  }

  ghost predicate KeysOk(ks: seq<Key>) {
    forall c :: c in ks ==> KeyOk(c)
  }

  ghost predicate ValuesOk(vs: seq<Value>) {
    forall v :: v in vs ==> ValueOk(v)
  }

  function Payload(v: Value): seq<byte> {
    if v.length > 0 && v.data.Some? then v.data.value else []
  }

  ghost function ExportValue(v: Value): seq<byte>
    requires ValueOk(v)
  {
    Header(v.name, v.permissions, v.length) + Payload(v)
  }

  ghost function ExportValues(vs: seq<Value>): seq<byte>
    requires ValuesOk(vs)
  {
    if vs == [] then [] else ExportValue(vs[0]) + ExportValues(vs[1..])
  }

  ghost function ExportKey(k: Key): seq<byte>
    requires KeyOk(k)
    decreases k, 1
  {
    Header(k.name, k.permissions, |k.values|) + ExportValues(k.values) + Encode(|k.kids|) + ExportKeys(k.kids)
  }

  ghost function ExportKeys(ks: seq<Key>): seq<byte>
    requires KeysOk(ks)
    decreases ks, 0
  {
    if ks == [] then [] else ExportKey(ks[0]) + ExportKeys(ks[1..])
  }

  // ---------------------------------------------------------------- the computed size

  function ValuesSize(vs: seq<Value>): nat {
    if vs == [] then 0 else HEADER_SIZE + vs[0].length + ValuesSize(vs[1..])
  }

  function KeySize(k: Key): nat
    decreases k, 1
  {
    HEADER_SIZE + ValuesSize(k.values) + 4 + KeysSize(k.kids)
  }

  function KeysSize(ks: seq<Key>): nat
    decreases ks, 0
  {
    if ks == [] then 0 else KeySize(ks[0]) + KeysSize(ks[1..])
  }

  /** How many claimed bytes are not there. */
  function ValuesMissing(vs: seq<Value>): nat {
    if vs == [] then 0 else (if vs[0].data.None? then vs[0].length else 0) + ValuesMissing(vs[1..])
  }

  function Missing(k: Key): nat
    decreases k, 1
  {
    ValuesMissing(k.values) + MissingAll(k.kids)
  }

  function MissingAll(ks: seq<Key>): nat
    decreases ks, 0
  {
    if ks == [] then 0 else Missing(ks[0]) + MissingAll(ks[1..])
  }

  lemma {:induction false} ValuesSizeIs(vs: seq<Value>)
    requires ValuesOk(vs)
    ensures |ExportValues(vs)| + ValuesMissing(vs) == ValuesSize(vs)
  {
    if vs != [] {
      assert ValueOk(vs[0]);
      ValuesSizeIs(vs[1..]);
    }
  }

  /** What is written falls short of the computed size by exactly the missing bytes. */
  lemma {:induction false} KeySizeIs(k: Key)
    requires KeyOk(k)
    ensures |ExportKey(k)| + Missing(k) == KeySize(k)
    decreases k, 1
  {
    ValuesSizeIs(k.values);
    KeysSizeIs(k.kids);
  }

  lemma {:induction false} KeysSizeIs(ks: seq<Key>)
    requires KeysOk(ks)
    ensures |ExportKeys(ks)| + MissingAll(ks) == KeysSize(ks)
    decreases ks, 0
  {
    if ks != [] {
      KeySizeIs(ks[0]);
      KeysSizeIs(ks[1..]);
    }
  }

  /** The size is computed in 32-bit words. It is exact precisely when the missing bytes come to a
      multiple of 2^32, which they do when no value claims bytes it does not have. */
  lemma SizeIsExactIff(k: Key)
    requires KeyOk(k) && |ExportKey(k)| < U32
    ensures KeySize(k) % U32 == |ExportKey(k)| <==> Missing(k) % U32 == 0
    ensures KeySize(k) == |ExportKey(k)| <==> Missing(k) == 0
    ensures Missing(k) == 0 <==> Complete(k)
  {
    KeySizeIs(k);
    MissingIsNone(k);
    hide ExportKey, KeySize, Missing, Complete, KeyOk;
    SumWraps(|ExportKey(k)|, Missing(k));
  }

  lemma SumWraps(n: nat, m: nat)
    requires n < U32
    ensures (n + m) % U32 == n <==> m % U32 == 0
  {
    assert (n + m) % U32 == (n + m % U32) % U32;
  }

  ghost predicate LooksExact(k: Key) {
    KeyOk(k) && !Complete(k) && KeySize(k) % U32 == |ExportKey(k)|
  }

  /** Two values that claim 2^31 bytes each and have none go unnoticed. */
  lemma SizeCanLookExact()
    ensures exists k :: LooksExact(k)
  {
    var name := Zeros(NAME_LEN);
    NoName();
    hide *;
    TwoHalves(name);
  }

  lemma NoName()
    ensures NameOk(Zeros(NAME_LEN))
  {
    CStringPadded([], NAME_LEN);
    assert [] + Zeros(NAME_LEN) == Zeros(NAME_LEN);
  }

  lemma TwoHalves(name: seq<byte>)
    requires NameOk(name)
    ensures var v := Value(name, 0, 0x8000_0000, None); LooksExact(Key(name, 0, [v, v], []))
  {
    hide NameOk, ExportKey, ValuesMissing, ValuesSize;
    var v := Value(name, 0, 0x8000_0000, None);
    var k := Key(name, 0, [v, v], []);
    TwoValues(v);
    KeySizeIs(k);
    assert v in k.values;
    assert Missing(k) == U32 && KeySize(k) == 3 * HEADER_SIZE + 4 + U32;
  }

  lemma TwoValues(v: Value)
    requires v.data.None?
    ensures ValuesMissing([v, v]) == 2 * v.length && ValuesSize([v, v]) == 2 * (HEADER_SIZE + v.length)
  {
    assert [v, v][1..] == [v] && [v][1..] == [];
    assert ValuesMissing([v]) == v.length && ValuesSize([v]) == HEADER_SIZE + v.length;
  }

  ghost predicate ValuesComplete(vs: seq<Value>) {
    forall v :: v in vs ==> v.length > 0 ==> v.data.Some?
  }

  ghost predicate Complete(k: Key)
  {
    ValuesComplete(k.values) && forall c :: c in k.kids ==> Complete(c)
  }

  lemma {:induction false} MissingIsNone(k: Key)
    ensures Missing(k) == 0 <==> Complete(k)
    decreases k, 1
  {
    ValuesMissingIsNone(k.values);
    MissingAllIsNone(k.kids);
  }

  lemma {:induction false} ValuesMissingIsNone(vs: seq<Value>)
    ensures ValuesMissing(vs) == 0 <==> ValuesComplete(vs)
  {
    if vs != [] {
      ValuesMissingIsNone(vs[1..]);
      assert vs == [vs[0]] + vs[1..];
    }
  }

  lemma {:induction false} MissingAllIsNone(ks: seq<Key>)
    ensures MissingAll(ks) == 0 <==> forall c :: c in ks ==> Complete(c)
    decreases ks, 0
  {
    if ks != [] {
      MissingIsNone(ks[0]);
      MissingAllIsNone(ks[1..]);
      assert ks == [ks[0]] + ks[1..];
    }
  }

  // ---------------------------------------------------------------- loading

  /** Reads one value; what follows it is left over. */
  function ParseValue(b: seq<byte>): Option<(Value, seq<byte>)> {
    if |b| < HEADER_SIZE then None
    else
      var length := Decode(b[NAME_LEN + 2..HEADER_SIZE]);
      if length > MAX_VALUE_SIZE || |b| < HEADER_SIZE + length then None
      else
        var data := if length > 0 then Some(b[HEADER_SIZE..HEADER_SIZE + length]) else None;
        Some((Value(StoredName(b[..NAME_LEN - 1]), U16Of(b[NAME_LEN..NAME_LEN + 2]), length, data), b[HEADER_SIZE + length..]))
  }

  /** Reads n values, each in front of those before it. */
  function ParseValues(b: seq<byte>, n: nat, before: seq<Value>): Option<(seq<Value>, seq<byte>)>
    decreases n
  {
    if n == 0 then Some((before, b))
    else match ParseValue(b)
      case None => None
      case Some((v, rest)) => ParseValues(rest, n - 1, [v] + before)
  }

  /** Reads a key with everything below it; nothing lies deeper than MAX_DEPTH below the root. */
  function ParseKey(b: seq<byte>, depth: nat): Option<(Key, seq<byte>)>
    decreases if depth <= MAX_DEPTH then MAX_DEPTH + 1 - depth else 0, 0, 0
  {
    if depth > MAX_DEPTH || |b| < HEADER_SIZE then None
    else match ParseValues(b[HEADER_SIZE..], Decode(b[NAME_LEN + 2..HEADER_SIZE]), [])
      case None => None
      case Some((values, rest)) =>
        if |rest| < 4 then None
        else match ParseKeys(rest[4..], Decode(rest[..4]), depth + 1, [])
          case None => None
          case Some((kids, left)) =>
            Some((Key(StoredName(b[..NAME_LEN - 1]), U16Of(b[NAME_LEN..NAME_LEN + 2]), values, kids), left))
  }

  function ParseKeys(b: seq<byte>, n: nat, depth: nat, before: seq<Key>): Option<(seq<Key>, seq<byte>)>
    decreases if depth <= MAX_DEPTH then MAX_DEPTH + 1 - depth else 0, 1, n
  {
    if n == 0 then Some((before, b))
    else match ParseKey(b, depth)
      case None => None
      case Some((k, rest)) => ParseKeys(rest, n - 1, depth, [k] + before)
  }
}
