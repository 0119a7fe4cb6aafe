/** Saving a hive and loading it again. */
module RegistryRoundTrip {
  import opened Basics
  import opened Registry

  // ---------------------------------------------------------------- mirror images

  function Reversed<T(!new)>(s: seq<T>): (r: seq<T>)
    ensures |r| == |s| && forall x :: x in r <==> x in s
  {
    if s == [] then [] else
      assert s == [s[0]] + s[1..];
      Reversed(s[1..]) + [s[0]]
  }

  /** Every list of values and of subkeys, at every level, back to front. */
  function Mirror(k: Key): Key
    decreases k, 1
  {
    Key(k.name, k.permissions, Reversed(k.values), MirrorAll(k.kids))
  }

  function MirrorAll(ks: seq<Key>): (r: seq<Key>)
    ensures |r| == |ks|
    decreases ks, 0
  {
    if ks == [] then [] else MirrorAll(ks[1..]) + [Mirror(ks[0])]
  }

  lemma {:induction false} ReversedConcat<T(!new)>(a: seq<T>, b: seq<T>)
    ensures Reversed(a + b) == Reversed(b) + Reversed(a)
  {
    if a == [] {
      assert a + b == b;
    } else {
      assert (a + b)[1..] == a[1..] + b;
      ReversedConcat(a[1..], b);
    }
  }

  lemma {:induction false} ReversedTwice<T(!new)>(s: seq<T>)
    ensures Reversed(Reversed(s)) == s
  {
    if s != [] {
      ReversedTwice(s[1..]);
      ReversedConcat(Reversed(s[1..]), [s[0]]);
    }
  }

  lemma {:induction false} MirrorAllConcat(a: seq<Key>, b: seq<Key>)
    ensures MirrorAll(a + b) == MirrorAll(b) + MirrorAll(a)
  {
    if a == [] {
      assert a + b == b;
    } else {
      assert (a + b)[1..] == a[1..] + b;
      MirrorAllConcat(a[1..], b);
    }
  }

  lemma {:induction false} MirrorTwice(k: Key)
    ensures Mirror(Mirror(k)) == k
    decreases k, 1
  {
    ReversedTwice(k.values);
    MirrorAllTwice(k.kids);
  }

  lemma {:induction false} MirrorAllTwice(ks: seq<Key>)
    ensures MirrorAll(MirrorAll(ks)) == ks
    decreases ks, 0
  {
    if ks != [] {
      MirrorTwice(ks[0]);
      MirrorAllTwice(ks[1..]);
      MirrorAllConcat(MirrorAll(ks[1..]), [Mirror(ks[0])]);
    }
  }

  // ---------------------------------------------------------------- what fits

  ghost predicate ValuesFit(vs: seq<Value>) {
    forall v :: v in vs ==> v.length <= MAX_VALUE_SIZE
  }

  /** No value is larger and no key, found at the given depth, lies deeper than loading accepts. */
  ghost predicate Fits(k: Key, depth: nat)
    decreases k, 1
  {
    depth <= MAX_DEPTH && ValuesFit(k.values) && KeysFit(k.kids, depth + 1)
  }

  ghost predicate KeysFit(ks: seq<Key>, depth: nat)
    decreases ks, 0
  {
    ks != [] ==> Fits(ks[0], depth) && KeysFit(ks[1..], depth)
  }

  // ---------------------------------------------------------------- round trips

  lemma ValueRoundTrip(v: Value, rest: seq<byte>)
    requires ValueOk(v) && (v.length > 0 ==> v.data.Some?)
    ensures ParseValue(ExportValue(v) + rest) == if v.length <= MAX_VALUE_SIZE then Some((v, rest)) else None
  {
    HeaderRoundTrip(v.name, v.permissions, v.length, Payload(v) + rest);
    NameReadBack(v.name);
    hide NameOk, StoredName, U16Of, Decode, Header;
    var b := Header(v.name, v.permissions, v.length) + (Payload(v) + rest);
    assert ExportValue(v) + rest == b;
    assert b[HEADER_SIZE..] == Payload(v) + rest;
    if v.length <= MAX_VALUE_SIZE {
      assert b[HEADER_SIZE..HEADER_SIZE + v.length] == b[HEADER_SIZE..][..v.length] == Payload(v);
      assert b[HEADER_SIZE + v.length..] == b[HEADER_SIZE..][v.length..] == rest;
    }
  }

  lemma ValuesStep(vs: seq<Value>, before: seq<Value>, rest: seq<byte>)
    requires ValuesOk(vs) && vs != []
    ensures ValueOk(vs[0]) && ValuesOk(vs[1..])
    ensures ParseValues(ExportValues(vs) + rest, |vs|, before) ==
      var r := ParseValue(ExportValue(vs[0]) + (ExportValues(vs[1..]) + rest));
      if r.None? then None else ParseValues(r.value.1, |vs| - 1, [r.value.0] + before)
    ensures Reversed(vs) + before == Reversed(vs[1..]) + ([vs[0]] + before)
  {
    assert ExportValues(vs) + rest == ExportValue(vs[0]) + (ExportValues(vs[1..]) + rest);
    hide ExportValue, ParseValue, ValueOk;
  }

  lemma ValuesParts(vs: seq<Value>)
    requires vs != []
    ensures ValuesFit(vs) <==> vs[0].length <= MAX_VALUE_SIZE && ValuesFit(vs[1..])
    ensures ValuesComplete(vs) <==> (vs[0].length > 0 ==> vs[0].data.Some?) && ValuesComplete(vs[1..])
  {
    assert vs == [vs[0]] + vs[1..];
  }

  lemma {:induction false} ValuesRoundTrip(vs: seq<Value>, before: seq<Value>, rest: seq<byte>)
    requires ValuesOk(vs) && ValuesComplete(vs)
    ensures ParseValues(ExportValues(vs) + rest, |vs|, before)
         == if ValuesFit(vs) then Some((Reversed(vs) + before, rest)) else None
  {
    if vs == [] {
      assert ExportValues(vs) + rest == rest && Reversed(vs) + before == before;
    } else {
      hide *;
      ValuesParts(vs);
      ValuesStep(vs, before, rest);
      ValueRoundTrip(vs[0], ExportValues(vs[1..]) + rest);
      ValuesRoundTrip(vs[1..], [vs[0]] + before, rest);
    }
  }

  /** What loading does with a key's first fields, whatever follows them. */
  lemma KeyStep(name: seq<byte>, permissions: nat, n: nat, tail: seq<byte>, depth: nat)
    requires NameOk(name) && permissions < 0x1_0000 && n < U32
    ensures ParseKey(Header(name, permissions, n) + tail, depth) ==
      var r := ParseValues(tail, n, []);
      if depth > MAX_DEPTH || r.None? || |r.value.1| < 4 then None
      else
        var below := ParseKeys(r.value.1[4..], Decode(r.value.1[..4]), depth + 1, []);
        if below.None? then None else Some((Key(name, permissions, r.value.0, below.value.0), below.value.1))
  {
    HeaderRoundTrip(name, permissions, n, tail);
    NameReadBack(name);
    hide NameOk, StoredName, U16Of, Decode, Header, ParseValues, ParseKeys;
  }

  /** What follows the values of a key when it is saved. */
  ghost function AfterValues(k: Key, rest: seq<byte>): (more: seq<byte>)
    requires KeyOk(k)
    ensures |more| >= 4
  {
    Encode(|k.kids|) + (ExportKeys(k.kids) + rest)
  }

  lemma KeyParts(k: Key, rest: seq<byte>)
    requires KeyOk(k)
    ensures ExportKey(k) + rest == Header(k.name, k.permissions, |k.values|) + (ExportValues(k.values) + AfterValues(k, rest))
    ensures Decode(AfterValues(k, rest)[..4]) == |k.kids| && AfterValues(k, rest)[4..] == ExportKeys(k.kids) + rest
  {
    DecodeOfEncode(|k.kids|);
    hide ExportValues, ExportKeys, Decode, Header;
    assert AfterValues(k, rest)[..4] == Encode(|k.kids|);
    hide Encode;
  }

  lemma KeyIsOk(k: Key)
    requires KeyOk(k) && Complete(k)
    ensures NameOk(k.name) && k.permissions < 0x1_0000 && |k.values| < U32 && |k.kids| < U32
    ensures ValuesOk(k.values) && ValuesComplete(k.values) && KeysOk(k.kids) && KeysComplete(k.kids)
  {
  }

  ghost predicate KeysComplete(ks: seq<Key>) {
    forall c :: c in ks ==> Complete(c)
  }

  lemma MirrorParts(k: Key, depth: nat)
    ensures Mirror(k) == Key(k.name, k.permissions, Reversed(k.values) + [], MirrorAll(k.kids) + [])
    ensures Fits(k, depth) <==> depth <= MAX_DEPTH && ValuesFit(k.values) && KeysFit(k.kids, depth + 1)
  {
    hide MirrorAll, Reversed, ValuesFit, KeysFit;
  }

  /** Loading what was saved, whatever follows it, reads exactly that and gives the mirror image;
      and it fails exactly when the tree is beyond the limits. */
  lemma {:induction false} KeyRoundTrip(k: Key, depth: nat, rest: seq<byte>)
    requires KeyOk(k) && Complete(k)
    ensures ParseKey(ExportKey(k) + rest, depth) == if Fits(k, depth) then Some((Mirror(k), rest)) else None
    decreases k, 1
  {
    hide *;
    KeyIsOk(k);
    KeyParts(k, rest);
    KeyStep(k.name, k.permissions, |k.values|, ExportValues(k.values) + AfterValues(k, rest), depth);
    ValuesRoundTrip(k.values, [], AfterValues(k, rest));
    KeysRoundTrip(k.kids, depth + 1, [], rest);
    MirrorParts(k, depth);
  }

  lemma KeysIsOk(ks: seq<Key>)
    requires KeysOk(ks) && KeysComplete(ks) && ks != []
    ensures KeyOk(ks[0]) && Complete(ks[0]) && KeysOk(ks[1..]) && KeysComplete(ks[1..])
  {
  }

  lemma KeysNone(depth: nat, before: seq<Key>, rest: seq<byte>)
    ensures ExportKeys([]) + rest == rest && MirrorAll([]) + before == before && KeysFit([], depth)
    ensures ParseKeys(rest, 0, depth, before) == Some((before, rest))
  {
  }

  lemma KeysFitStep(ks: seq<Key>, depth: nat)
    requires ks != []
    ensures KeysFit(ks, depth) <==> Fits(ks[0], depth) && KeysFit(ks[1..], depth)
  {
  }

  lemma {:induction false} KeysRoundTrip(ks: seq<Key>, depth: nat, before: seq<Key>, rest: seq<byte>)
    requires KeysOk(ks) && KeysComplete(ks)
    ensures ParseKeys(ExportKeys(ks) + rest, |ks|, depth, before)
         == if KeysFit(ks, depth) then Some((MirrorAll(ks) + before, rest)) else None
    decreases ks, 0
  {
    hide *;
    if ks == [] {
      KeysNone(depth, before, rest);
    } else {
      KeysIsOk(ks);
      KeysStep(ks, depth, before, rest);
      KeyRoundTrip(ks[0], depth, ExportKeys(ks[1..]) + rest);
      KeysRoundTrip(ks[1..], depth, [Mirror(ks[0])] + before, rest);
      KeysFitStep(ks, depth);
      MirrorStep(ks, before);
    }
  }

  lemma KeysStep(ks: seq<Key>, depth: nat, before: seq<Key>, rest: seq<byte>)
    requires KeysOk(ks) && ks != []
    ensures ParseKeys(ExportKeys(ks) + rest, |ks|, depth, before) ==
      var r := ParseKey(ExportKey(ks[0]) + (ExportKeys(ks[1..]) + rest), depth);
      if r.None? then None else ParseKeys(r.value.1, |ks| - 1, depth, [r.value.0] + before)
  {
    assert ExportKeys(ks) + rest == ExportKey(ks[0]) + (ExportKeys(ks[1..]) + rest);
    hide ExportKey, ParseKey, KeyOk;
  }

  lemma MirrorStep(ks: seq<Key>, before: seq<Key>)
    requires ks != []
    ensures MirrorAll(ks) + before == MirrorAll(ks[1..]) + ([Mirror(ks[0])] + before)
  {
  }

  // ---------------------------------------------------------------- twice

  lemma {:induction false} MirrorIsOk(k: Key, depth: nat)
    requires KeyOk(k) && Complete(k) && Fits(k, depth)
    ensures KeyOk(Mirror(k)) && Complete(Mirror(k)) && Fits(Mirror(k), depth)
    decreases k, 1
  {
    MirrorAllOk(k.kids, depth + 1);
  }

  lemma {:induction false} MirrorAllOk(ks: seq<Key>, depth: nat)
    requires KeysOk(ks) && KeysComplete(ks) && KeysFit(ks, depth)
    ensures KeysOk(MirrorAll(ks)) && KeysComplete(MirrorAll(ks)) && KeysFit(MirrorAll(ks), depth)
    decreases ks, 0
  {
    if ks != [] {
      assert ks == [ks[0]] + ks[1..];
      MirrorIsOk(ks[0], depth);
      MirrorAllOk(ks[1..], depth);
      KeysFitConcat(MirrorAll(ks[1..]), [Mirror(ks[0])], depth);
      hide KeyOk, Complete, Fits, Mirror;
    }
  }

  lemma {:induction false} KeysFitConcat(a: seq<Key>, b: seq<Key>, depth: nat)
    requires KeysFit(a, depth) && KeysFit(b, depth)
    ensures KeysFit(a + b, depth)
  {
    if a == [] {
      assert a + b == b;
    } else {
      assert (a + b)[1..] == a[1..] + b;
      KeysFitConcat(a[1..], b, depth);
      hide Fits;
    }
  }

  /** Saving and loading twice gives back the tree itself. */
  lemma TwiceIsIdentity(k: Key, rest: seq<byte>, rest': seq<byte>)
    requires KeyOk(k) && Complete(k) && Fits(k, 0)
    ensures var once := ParseKey(ExportKey(k) + rest, 0);
            && once.Some? && KeyOk(once.value.0)
            && ParseKey(ExportKey(once.value.0) + rest', 0) == Some((k, rest'))
  {
    KeyRoundTrip(k, 0, rest);
    MirrorIsOk(k, 0);
    MirrorTwice(k);
    hide KeyOk, Complete, Fits, Mirror, ExportKey, ParseKey;
    KeyRoundTrip(Mirror(k), 0, rest');
  }

  // ---------------------------------------------------------------- looking things up

  /** The first subkey of that name. */
  function GetKey(ks: seq<Key>, name: seq<byte>): Option<Key> {
    if ks == [] then None else if CString(ks[0].name) == name then Some(ks[0]) else GetKey(ks[1..], name)
  }

  function GetValue(vs: seq<Value>, name: seq<byte>): Option<Value> {
    if vs == [] then None else if CString(vs[0].name) == name then Some(vs[0]) else GetValue(vs[1..], name)
  }

  ghost predicate FirstKeyNamed(ks: seq<Key>, name: seq<byte>, i: nat) {
    i < |ks| && CString(ks[i].name) == name && forall j :: 0 <= j < i ==> CString(ks[j].name) != name
  }

  ghost predicate FirstValueNamed(vs: seq<Value>, name: seq<byte>, i: nat) {
    i < |vs| && CString(vs[i].name) == name && forall j :: 0 <= j < i ==> CString(vs[j].name) != name
  }

  lemma {:induction false} GetKeyIsFirst(ks: seq<Key>, name: seq<byte>)
    ensures GetKey(ks, name).None? <==> forall i :: 0 <= i < |ks| ==> CString(ks[i].name) != name
    ensures GetKey(ks, name).Some? ==> exists i: nat :: FirstKeyNamed(ks, name, i) && GetKey(ks, name) == Some(ks[i])
  {
    hide CString;
    if ks != [] {
      if CString(ks[0].name) == name {
        assert FirstKeyNamed(ks, name, 0);
      } else {
        GetKeyIsFirst(ks[1..], name);
        if GetKey(ks[1..], name).Some? {
          var i: nat :| FirstKeyNamed(ks[1..], name, i) && GetKey(ks[1..], name) == Some(ks[1..][i]);
          assert forall j :: 0 < j < i + 1 ==> ks[j] == ks[1..][j - 1];
          assert FirstKeyNamed(ks, name, i + 1);
        } else {
          assert forall i :: 0 < i < |ks| ==> ks[i] == ks[1..][i - 1];
        }
      }
    }
  }

  /** registry_get_value finds the first value of that name, and fails only if there is none. */
  lemma {:induction false} GetValueIsFirst(vs: seq<Value>, name: seq<byte>)
    ensures GetValue(vs, name).None? <==> forall i :: 0 <= i < |vs| ==> CString(vs[i].name) != name
    ensures GetValue(vs, name).Some? ==> exists i: nat :: FirstValueNamed(vs, name, i) && GetValue(vs, name) == Some(vs[i])
  {
    hide CString;
    if vs != [] {
      if CString(vs[0].name) == name {
        assert FirstValueNamed(vs, name, 0);
      } else {
        GetValueIsFirst(vs[1..], name);
        if GetValue(vs[1..], name).Some? {
          var i: nat :| FirstValueNamed(vs[1..], name, i) && GetValue(vs[1..], name) == Some(vs[1..][i]);
          assert forall j :: 0 < j < i + 1 ==> vs[j] == vs[1..][j - 1];
          assert FirstValueNamed(vs, name, i + 1);
        } else {
          assert forall i :: 0 < i < |vs| ==> vs[i] == vs[1..][i - 1];
        }
      }
    }
  }

  /** The value of that name in the key a path leads to. */
  function Lookup(k: Key, path: seq<seq<byte>>, name: seq<byte>): Option<Value>
    decreases |path|
  {
    if path == [] then GetValue(k.values, name)
    else match GetKey(k.kids, path[0])
      case None => None
      case Some(c) => Lookup(c, path[1..], name)
  }

  /** From k the names on the path lead, through the first subkey of each name, to d. */
  ghost predicate LeadsTo(k: Key, path: seq<seq<byte>>, d: Key)
    decreases |path|
  {
    if path == [] then d == k
    else exists i: nat :: FirstKeyNamed(k.kids, path[0], i) && LeadsTo(k.kids[i], path[1..], d)
  }

  /** A lookup finds a value exactly if the path leads to a key that has one of that name, and then the
      first such value. */
  lemma {:induction false} LookupFinds(k: Key, path: seq<seq<byte>>, name: seq<byte>, v: Value)
    ensures Lookup(k, path, name) == Some(v) <==>
            exists d, i: nat :: LeadsTo(k, path, d) && FirstValueNamed(d.values, name, i) && d.values[i] == v
    decreases |path|
  {
    if path == [] {
      GetValueIsFirst(k.values, name);
      assert LeadsTo(k, path, k);
      hide CString, GetValue;
    } else {
      GetKeyIsFirst(k.kids, path[0]);
      hide CString, GetKey, FirstKeyNamed;
      if GetKey(k.kids, path[0]).Some? {
        var i: nat :| FirstKeyNamed(k.kids, path[0], i) && GetKey(k.kids, path[0]) == Some(k.kids[i]);
        OneFirstKey(k.kids, path[0], i);
        LookupFinds(k.kids[i], path[1..], name, v);
        assert forall d :: LeadsTo(k, path, d) <==> LeadsTo(k.kids[i], path[1..], d);
      } else {
        NoFirstKey(k.kids, path[0]);
      }
    }
  }

  lemma OneFirstKey(ks: seq<Key>, name: seq<byte>, i: nat)
    requires FirstKeyNamed(ks, name, i)
    ensures i < |ks| && forall j: nat :: FirstKeyNamed(ks, name, j) ==> j == i
  {
  }

  lemma NoFirstKey(ks: seq<Key>, name: seq<byte>)
    requires forall i :: 0 <= i < |ks| ==> CString(ks[i].name) != name
    ensures forall j: nat :: !FirstKeyNamed(ks, name, j)
  {
  }

  ghost function KeyNames(ks: seq<Key>): (r: seq<seq<byte>>)
    ensures |r| == |ks| && forall i :: 0 <= i < |ks| ==> r[i] == CString(ks[i].name)
  {
    if ks == [] then [] else [CString(ks[0].name)] + KeyNames(ks[1..])
  }

  ghost function ValueNames(vs: seq<Value>): (r: seq<seq<byte>>)
    ensures |r| == |vs| && forall i :: 0 <= i < |vs| ==> r[i] == CString(vs[i].name)
  {
    if vs == [] then [] else [CString(vs[0].name)] + ValueNames(vs[1..])
  }

  /** No two siblings anywhere share a name. */
  ghost predicate Unique(k: Key) {
    Distinct(KeyNames(k.kids)) && Distinct(ValueNames(k.values)) && forall c :: c in k.kids ==> Unique(c)
  }

  lemma {:induction false} GetKeyConcat(a: seq<Key>, b: seq<Key>, name: seq<byte>)
    ensures GetKey(a + b, name) == if GetKey(a, name).Some? then GetKey(a, name) else GetKey(b, name)
  {
    if a == [] {
      assert a + b == b;
    } else {
      assert (a + b)[1..] == a[1..] + b;
      GetKeyConcat(a[1..], b, name);
    }
  }

  lemma {:induction false} GetValueConcat(a: seq<Value>, b: seq<Value>, name: seq<byte>)
    ensures GetValue(a + b, name) == if GetValue(a, name).Some? then GetValue(a, name) else GetValue(b, name)
  {
    if a == [] {
      assert a + b == b;
    } else {
      assert (a + b)[1..] == a[1..] + b;
      GetValueConcat(a[1..], b, name);
    }
  }

  lemma {:induction false} GetKeyAbsent(ks: seq<Key>, name: seq<byte>)
    ensures GetKey(ks, name).Some? ==> GetKey(ks, name).value in ks && name in KeyNames(ks)
  {
    if ks != [] && CString(ks[0].name) != name {
      GetKeyAbsent(ks[1..], name);
      assert ks == [ks[0]] + ks[1..];
    }
    if ks != [] { assert KeyNames(ks)[0] == CString(ks[0].name); }
  }

  lemma {:induction false} GetValueAbsent(vs: seq<Value>, name: seq<byte>)
    ensures GetValue(vs, name).Some? ==> name in ValueNames(vs)
  {
    if vs != [] && CString(vs[0].name) != name { GetValueAbsent(vs[1..], name); }
    if vs != [] { assert ValueNames(vs)[0] == CString(vs[0].name); }
  }

  lemma {:induction false} GetKeyMirrored(ks: seq<Key>, name: seq<byte>)
    requires Distinct(KeyNames(ks))
    ensures GetKey(MirrorAll(ks), name) == if GetKey(ks, name).None? then None else Some(Mirror(GetKey(ks, name).value))
  {
    if ks != [] {
      var k, more := ks[0], ks[1..];
      assert KeyNames(ks) == [CString(k.name)] + KeyNames(more);
      assert forall i :: 0 <= i < |more| ==> KeyNames(ks)[i + 1] == KeyNames(more)[i];
      GetKeyMirrored(more, name);
      GetKeyConcat(MirrorAll(more), [Mirror(k)], name);
      assert [Mirror(k)][1..] == [];
      if CString(k.name) == name { GetKeyAbsent(more, name); }
    }
  }

  lemma {:induction false} GetValueReversed(vs: seq<Value>, name: seq<byte>)
    requires Distinct(ValueNames(vs))
    ensures GetValue(Reversed(vs), name) == GetValue(vs, name)
  {
    if vs != [] {
      var v, more := vs[0], vs[1..];
      assert ValueNames(vs) == [CString(v.name)] + ValueNames(more);
      assert forall i :: 0 <= i < |more| ==> ValueNames(vs)[i + 1] == ValueNames(more)[i];
      GetValueReversed(more, name);
      GetValueConcat(Reversed(more), [v], name);
      assert [v][1..] == [];
      if CString(v.name) == name { GetValueAbsent(more, name); }
    }
  }

  /** With unique names among siblings, every value is found on the mirrored tree as on the
      original. */
  lemma {:induction false} LookupUnchanged(k: Key, path: seq<seq<byte>>, name: seq<byte>)
    requires Unique(k)
    ensures Lookup(Mirror(k), path, name) == Lookup(k, path, name)
    decreases |path|
  {
    if path == [] {
      GetValueReversed(k.values, name);
    } else {
      GetKeyMirrored(k.kids, path[0]);
      GetKeyAbsent(k.kids, path[0]);
      match GetKey(k.kids, path[0])
      case None =>
      case Some(c) => LookupUnchanged(c, path[1..], name);
    }
  }
}
