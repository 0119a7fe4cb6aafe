/** Exactly which bytes loading accepts (kernel/registry/registry.c:206-270): a relation between
    bytes and trees that says, field by field, what stands where, and the reader proved to accept
    a file exactly when it starts with bytes so related to some tree. */
module RegistrySpelling {
  import opened Basics
  import opened Registry
  import opened RegistryRoundTrip

  /** The 32-bit number at a position, least significant byte first. */
  ghost function Word(b: seq<byte>, at: nat): nat
    requires at + 4 <= |b|
  {
    b[at] as int + 0x100 * (b[at + 1] as int) + 0x1_0000 * (b[at + 2] as int) + 0x100_0000 * (b[at + 3] as int)
  }

  /** Sixteen bytes of name, of which the last does not matter, two of permissions and four of a
      count or length. */
  ghost predicate SpellsHeader(b: seq<byte>, name: seq<byte>, permissions: nat, n: nat) {
    && |b| >= 22
    && StoredName(b[..15]) == name
    && permissions == b[16] as int + 0x100 * (b[17] as int)
    && n == Word(b, 18)
  }

  /** A header and then the bytes of the value, at most 64 KiB of them. */
  ghost predicate SpellsValue(b: seq<byte>, v: Value) {
    && |b| == 22 + v.length && v.length <= 0x1_0000
    && SpellsHeader(b, v.name, v.permissions, v.length)
    && v.data == if v.length > 0 then Some(b[22..]) else None
  }

  ghost predicate SpellsValues(b: seq<byte>, vs: seq<Value>) {
    if vs == [] then b == []
    else 22 + vs[0].length <= |b| && SpellsValue(b[..22 + vs[0].length], vs[0]) && SpellsValues(b[22 + vs[0].length..], vs[1..])
  }

  /** A header with the number of values, the values, the number of subkeys, and those, at most 32
      levels below the root. */
  ghost predicate SpellsKey(b: seq<byte>, k: Key, depth: nat)
    decreases k, 1
  {
    var m := 22 + ValuesSize(k.values);
    && depth <= 32 && m + 4 <= |b|
    && SpellsHeader(b, k.name, k.permissions, |k.values|)
    && SpellsValues(b[22..m], k.values)
    && |k.kids| == Word(b, m)
    && SpellsKeys(b[m + 4..], k.kids, depth + 1)
  }

  ghost predicate SpellsKeys(b: seq<byte>, ks: seq<Key>, depth: nat)
    decreases ks, 0
  {
    if ks == [] then b == []
    else KeySize(ks[0]) <= |b| && SpellsKey(b[..KeySize(ks[0])], ks[0], depth) && SpellsKeys(b[KeySize(ks[0])..], ks[1..], depth)
  }

  /** b begins with bytes that spell k, and rest is what follows them. */
  ghost predicate Begins(b: seq<byte>, k: Key, depth: nat, rest: seq<byte>) {
    KeySize(k) <= |b| && SpellsKey(b[..KeySize(k)], k, depth) && rest == b[KeySize(k)..]
  }

  // ---------------------------------------------------------------- values

  /** Reading one value accepts exactly what spells one. */
  lemma ValueAccepted(b: seq<byte>, v: Value, rest: seq<byte>)
    ensures ParseValue(b) == Some((v, rest))
            <==> 22 + v.length <= |b| && SpellsValue(b[..22 + v.length], v) && rest == b[22 + v.length..]
  {
    if |b| >= HEADER_SIZE {
      var n := Decode(b[NAME_LEN + 2..HEADER_SIZE]);
      assert b[NAME_LEN + 2..HEADER_SIZE] == [b[18], b[19], b[20], b[21]];
      assert b[NAME_LEN..NAME_LEN + 2] == [b[16], b[17]];
      if 22 + v.length <= |b| {
        assert b[..22 + v.length][..15] == b[..15];
        assert b[..22 + v.length][22..] == b[22..22 + v.length];
      }
    }
    hide StoredName;
  }

  /** Values read so far stay behind the new ones. */
  lemma {:induction false} ParseValuesKeeps(b: seq<byte>, n: nat, before: seq<Value>)
    requires ParseValues(b, n, before).Some?
    ensures |ParseValues(b, n, before).value.0| == n + |before| && ParseValues(b, n, before).value.0[n..] == before
    decreases n
  {
    if n > 0 {
      var (v, rest) := ParseValue(b).value;
      ParseValuesKeeps(rest, n - 1, [v] + before);
      hide ParseValue;
      var vs: seq<Value> := ParseValues(b, n, before).value.0;
      assert vs[n - 1..] == [v] + before;
      assert vs[n..] == vs[n - 1..][1..] == before;
    }
  }

  lemma {:induction false} ParseValuesStep(b: seq<byte>, n: nat, before: seq<Value>)
    requires n > 0
    ensures ParseValues(b, n, before)
            == if ParseValue(b).None? then None else ParseValues(ParseValue(b).value.1, n - 1, [ParseValue(b).value.0] + before)
  {
    hide ParseValue;
  }

  lemma SpellsStep(b: seq<byte>, vs: seq<Value>)
    requires vs != []
    ensures var n := 22 + vs[0].length;
            && ValuesSize(vs) == n + ValuesSize(vs[1..]) && Reversed(vs) == Reversed(vs[1..]) + [vs[0]]
            && (ValuesSize(vs) <= |b| ==>
                 && b[ValuesSize(vs)..] == b[n..][ValuesSize(vs[1..])..]
                 && (SpellsValues(b[..ValuesSize(vs)], vs) <==> SpellsValue(b[..n], vs[0]) && SpellsValues(b[n..][..ValuesSize(vs[1..])], vs[1..])))
  {
    hide SpellsValue;
    var n := 22 + vs[0].length;
    if ValuesSize(vs) <= |b| {
      assert b[..ValuesSize(vs)][..n] == b[..n] && b[..ValuesSize(vs)][n..] == b[n..][..ValuesSize(vs[1..])];
    }
  }

  lemma LastOf<T>(a: seq<T>, v: T, w: T, c: seq<T>, k: nat)
    requires |a| == k && (a + ([v] + c))[k..] == [w] + c
    ensures v == w
  {
    assert (a + ([v] + c))[k..] == [v] + c;
    assert ([v] + c)[0] == ([w] + c)[0];
  }

  /** Reading a number of values accepts exactly what spells as many. */
  lemma {:induction false} ValuesAccepted(b: seq<byte>, vs: seq<Value>, rest: seq<byte>, before: seq<Value>)
    ensures ParseValues(b, |vs|, before) == Some((Reversed(vs) + before, rest))
            <==> ValuesSize(vs) <= |b| && SpellsValues(b[..ValuesSize(vs)], vs) && rest == b[ValuesSize(vs)..]
    decreases |vs|
  {
    if vs == [] {
      assert Reversed(vs) + before == before && b[0..] == b;
    } else {
      var v := vs[0];
      var n: nat := 22 + v.length;
      ParseValuesStep(b, |vs|, before);
      SpellsStep(b, vs);
      hide *;
      assert Reversed(vs[1..]) + [v] + before == Reversed(vs[1..]) + ([v] + before);
      if |b| >= n {
        ValueAccepted(b, v, b[n..]);
        ValuesAccepted(b[n..], vs[1..], rest, [v] + before);
      }
      if ParseValue(b).Some? {
        var w: Value, after: seq<byte> := ParseValue(b).value.0, ParseValue(b).value.1;
        ValueAccepted(b, w, after);
        if ParseValues(b, |vs|, before) == Some((Reversed(vs) + before, rest)) {
          ParseValuesKeeps(after, |vs| - 1, [w] + before);
          LastOf(Reversed(vs[1..]), v, w, before, |vs| - 1);
        }
      }
    }
  }

  // ---------------------------------------------------------------- keys

  lemma {:induction false} ParseKeysKeeps(b: seq<byte>, n: nat, depth: nat, before: seq<Key>)
    requires ParseKeys(b, n, depth, before).Some?
    ensures |ParseKeys(b, n, depth, before).value.0| == n + |before| && ParseKeys(b, n, depth, before).value.0[n..] == before
    decreases n
  {
    if n > 0 {
      var (k, rest) := ParseKey(b, depth).value;
      ParseKeysKeeps(rest, n - 1, depth, [k] + before);
      hide ParseKey;
      var ks: seq<Key> := ParseKeys(b, n, depth, before).value.0;
      assert ks[n - 1..] == [k] + before;
      assert ks[n..] == ks[n - 1..][1..] == before;
    }
  }

  /** What ParseKey reads first, second and third. */
  lemma ParseKeySteps(b: seq<byte>, depth: nat)
    ensures depth > 32 || |b| < 22 ==> ParseKey(b, depth).None?
    ensures depth <= 32 && |b| >= 22 ==>
              var r := ParseValues(b[22..], Word(b, 18), []);
              ParseKey(b, depth) ==
                if r.None? || |r.value.1| < 4 then None
                else
                  var below := ParseKeys(r.value.1[4..], Word(r.value.1, 0), depth + 1, []);
                  if below.None? then None
                  else Some((Key(StoredName(b[..15]), b[16] as int + 0x100 * (b[17] as int), r.value.0, below.value.0), below.value.1))
  {
    hide StoredName, ParseValues, ParseKeys;
    if depth <= 32 && |b| >= 22 {
      assert b[NAME_LEN + 2..HEADER_SIZE] == [b[18], b[19], b[20], b[21]];
      assert b[NAME_LEN..NAME_LEN + 2] == [b[16], b[17]];
      var r := ParseValues(b[22..], Word(b, 18), []);
      if r.Some? && |r.value.1| >= 4 {
        var c := r.value.1;
        assert c[..4] == [c[0], c[1], c[2], c[3]];
      }
    }
  }

  /** The fields of a beginning, each taken from the whole. */
  lemma BeginsParts(b: seq<byte>, k: Key, depth: nat, rest: seq<byte>)
    ensures var m := 22 + ValuesSize(k.values);
            Begins(b, k, depth, rest) <==>
              && depth <= 32 && KeySize(k) <= |b| && SpellsHeader(b, k.name, k.permissions, |k.values|)
              && SpellsValues(b[22..][..ValuesSize(k.values)], k.values)
              && |k.kids| == Word(b[m..], 0)
              && SpellsKeys(b[m..][4..][..KeysSize(k.kids)], k.kids, depth + 1) && rest == b[m..][4..][KeysSize(k.kids)..]
  {
    var m := 22 + ValuesSize(k.values);
    hide SpellsValues, SpellsKeys, StoredName, ValuesSize, KeysSize;
    KeySizeParts(k);
    if KeySize(k) <= |b| {
      var c := b[..KeySize(k)];
      assert c[22..m] == b[22..][..ValuesSize(k.values)];
      assert c[m + 4..] == b[m..][4..][..KeysSize(k.kids)];
      assert b[KeySize(k)..] == b[m..][4..][KeysSize(k.kids)..];
      assert c[..15] == b[..15];
    }
  }

  lemma KeySizeParts(k: Key)
    ensures KeySize(k) == 22 + ValuesSize(k.values) + 4 + KeysSize(k.kids)
  {
  }

  lemma MirrorIs(k: Key)
    ensures Mirror(k) == Key(k.name, k.permissions, Reversed(k.values) + [], MirrorAll(k.kids) + [])
    ensures |Reversed(k.values) + []| == |k.values| && |MirrorAll(k.kids) + []| == |k.kids|
  {
    hide MirrorAll, Reversed;
  }

  lemma HeaderIs(b: seq<byte>, name: seq<byte>, permissions: nat, n: nat)
    ensures SpellsHeader(b, name, permissions, n) <==>
              |b| >= 22 && StoredName(b[..15]) == name && permissions == b[16] as int + 0x100 * (b[17] as int) && n == Word(b, 18)
  {
    hide StoredName, Word;
  }

  /** Reading a key, with everything below it, accepts exactly what spells one: it is the mirror image
      of the tree that the bytes spell in the order they come in. */
  lemma {:induction false} KeyAccepted(b: seq<byte>, k: Key, depth: nat, rest: seq<byte>)
    ensures ParseKey(b, depth) == Some((Mirror(k), rest)) <==> Begins(b, k, depth, rest)
    decreases k, 2
  {
    hide *;
    ParseKeySteps(b, depth);
    BeginsParts(b, k, depth, rest);
    HeaderIs(b, k.name, k.permissions, |k.values|);
    MirrorIs(k);
    if depth <= 32 && |b| >= 22 && |k.values| == Word(b, 18) {
      KeyRestAccepted(b, k, depth, rest);
    } else if depth <= 32 && |b| >= 22 {
      if ParseValues(b[22..], Word(b, 18), []).Some? { ParseValuesKeeps(b[22..], Word(b, 18), []); }
    }
  }

  /** The part behind the header. */
  lemma {:induction false} KeyRestAccepted(b: seq<byte>, k: Key, depth: nat, rest: seq<byte>)
    requires depth <= 32 && |b| >= 22
    ensures (var r := ParseValues(b[22..], |k.values|, []);
             && r.Some? && |r.value.1| >= 4 && r.value.0 == Reversed(k.values) + []
             && ParseKeys(r.value.1[4..], Word(r.value.1, 0), depth + 1, []) == Some((MirrorAll(k.kids) + [], rest)))
            <==>
            (var m := 22 + ValuesSize(k.values);
             && KeySize(k) <= |b| && SpellsValues(b[22..][..ValuesSize(k.values)], k.values)
             && |k.kids| == Word(b[m..], 0)
             && SpellsKeys(b[m..][4..][..KeysSize(k.kids)], k.kids, depth + 1) && rest == b[m..][4..][KeysSize(k.kids)..])
    decreases k, 1
  {
    hide *;
    var m: nat := 22 + ValuesSize(k.values);
    KeySizeParts(k);
    MirrorIs(k);
    var r := ParseValues(b[22..], |k.values|, []);
    if r.Some? { ValuesAccepted(b[22..], k.values, r.value.1, []); }
    if m <= |b| {
      var c := b[m..];
      assert b[22..][ValuesSize(k.values)..] == c;
      ValuesAccepted(b[22..], k.values, c, []);
      if |c| >= 4 {
        KeysAccepted(c[4..], k.kids, depth + 1, rest, []);
        if ParseKeys(c[4..], Word(c, 0), depth + 1, []).Some? { ParseKeysKeeps(c[4..], Word(c, 0), depth + 1, []); }
      }
    }
  }

  lemma ParseKeysStep(b: seq<byte>, n: nat, depth: nat, before: seq<Key>)
    ensures ParseKeys(b, 0, depth, before) == Some((before, b))
    ensures n > 0 ==>
              var r := ParseKey(b, depth);
              ParseKeys(b, n, depth, before)
                == if r.None? then None else ParseKeys(r.value.1, n - 1, depth, [r.value.0] + before)
  {
    hide ParseKey;
  }

  lemma SpellsKeysStep(b: seq<byte>, ks: seq<Key>, depth: nat)
    ensures ks == [] ==> KeysSize(ks) == 0 && MirrorAll(ks) == [] && (SpellsKeys([], ks, depth))
    ensures ks != [] ==>
              var n := KeySize(ks[0]);
              && KeysSize(ks) == n + KeysSize(ks[1..]) && MirrorAll(ks) == MirrorAll(ks[1..]) + [Mirror(ks[0])]
              && (KeysSize(ks) <= |b| ==>
                   && b[KeysSize(ks)..] == b[n..][KeysSize(ks[1..])..]
                   && (SpellsKeys(b[..KeysSize(ks)], ks, depth)
                       <==> SpellsKey(b[..n], ks[0], depth) && SpellsKeys(b[n..][..KeysSize(ks[1..])], ks[1..], depth)))
  {
    hide SpellsKey, KeySize, Mirror;
    if ks != [] && KeysSize(ks) <= |b| {
      var n := KeySize(ks[0]);
      assert b[..KeysSize(ks)][..n] == b[..n] && b[..KeysSize(ks)][n..] == b[n..][..KeysSize(ks[1..])];
    }
  }

  lemma BeginsIs(b: seq<byte>, k: Key, depth: nat, rest: seq<byte>)
    ensures Begins(b, k, depth, rest) <==> KeySize(k) <= |b| && SpellsKey(b[..KeySize(k)], k, depth) && rest == b[KeySize(k)..]
  {
    hide KeySize, SpellsKey;
  }

  lemma {:induction false} KeysAccepted(b: seq<byte>, ks: seq<Key>, depth: nat, rest: seq<byte>, before: seq<Key>)
    ensures ParseKeys(b, |ks|, depth, before) == Some((MirrorAll(ks) + before, rest))
            <==> KeysSize(ks) <= |b| && SpellsKeys(b[..KeysSize(ks)], ks, depth) && rest == b[KeysSize(ks)..]
    decreases ks, 0
  {
    hide *;
    ParseKeysStep(b, |ks|, depth, before);
    SpellsKeysStep(b, ks, depth);
    if ks == [] {
      assert [] + before == before && b[..0] == [] && b[0..] == b;
    } else {
      var k := ks[0];
      var n: nat := KeySize(k);
      assert MirrorAll(ks[1..]) + [Mirror(k)] + before == MirrorAll(ks[1..]) + ([Mirror(k)] + before);
      if |b| >= n {
        KeyAccepted(b, k, depth, b[n..]);
        BeginsIs(b, k, depth, b[n..]);
        KeysAccepted(b[n..], ks[1..], depth, rest, [Mirror(k)] + before);
      }
      if ParseKey(b, depth).Some? {
        var w: Key, after: seq<byte> := ParseKey(b, depth).value.0, ParseKey(b, depth).value.1;
        KeyAccepted(b, k, depth, after);
        BeginsIs(b, k, depth, after);
        if ParseKeys(b, |ks|, depth, before) == Some((MirrorAll(ks) + before, rest)) {
          ParseKeysKeeps(after, |ks| - 1, depth, [w] + before);
          LastOf(MirrorAll(ks[1..]), Mirror(k), w, before, |ks| - 1);
        }
      }
    }
  }

  /** So reading succeeds exactly on bytes that begin with a spelling of some key, and what it gives is
      that key in mirror image. */
  lemma ParsesIffSpelled(b: seq<byte>, depth: nat, k: Key, rest: seq<byte>)
    ensures ParseKey(b, depth) == Some((k, rest)) <==> Begins(b, Mirror(k), depth, rest)
  {
    MirrorTwice(k);
    hide *;
    KeyAccepted(b, Mirror(k), depth, rest);
  }

  /** And it fails exactly on bytes that begin with no spelling. */
  lemma FailsIffNotSpelled(b: seq<byte>, depth: nat)
    ensures ParseKey(b, depth).None? <==> forall k, rest :: !Begins(b, k, depth, rest)
  {
    forall k, rest ensures ParseKey(b, depth) == Some((Mirror(k), rest)) <==> Begins(b, k, depth, rest) {
      KeyAccepted(b, k, depth, rest);
    }
    if ParseKey(b, depth).Some? {
      ParsesIffSpelled(b, depth, ParseKey(b, depth).value.0, ParseKey(b, depth).value.1);
    }
    hide *;
  }

  /** What saving writes spells the tree. */
  lemma SavedIsSpelled(k: Key, rest: seq<byte>)
    requires KeyOk(k) && Complete(k) && Fits(k, 0)
    ensures Begins(ExportKey(k) + rest, k, 0, rest)
  {
    hide *;
    KeyRoundTrip(k, 0, rest);
    KeyAccepted(ExportKey(k) + rest, k, 0, rest);
  }
}
