/** What several components share. */
module Basics {

  const U32: nat := 0x1_0000_0000

  type byte = x: int | 0 <= x < 256 witness 0

  function Zeros(n: nat): (d: seq<byte>)
    ensures |d| == n
  {
    seq<byte>(n, i => 0)
  }

  datatype Option<+T> = None | Some(value: T)

  /** A 32-bit number in memory, least significant byte first. */
  function Encode(n: nat): (d: seq<byte>)
    requires n < U32
    ensures |d| == 4
  {
    [n % 0x100, (n / 0x100) % 0x100, (n / 0x1_0000) % 0x100, (n / 0x100_0000) % 0x100]
  }

  function Decode(d: seq<byte>): (n: nat)
    requires |d| == 4
    ensures n < U32
  {
    d[0] as int + 0x100 * (d[1] as int) + 0x1_0000 * (d[2] as int) + 0x100_0000 * (d[3] as int)
  }

  lemma DecodeOfEncode(n: nat)
    requires n < U32
    ensures Decode(Encode(n)) == n
  {
    Digits(n);
  }

  lemma Digits(n: nat)
    requires n < U32
    ensures n == n % 0x100 + 0x100 * (n / 0x100 % 0x100) + 0x1_0000 * (n / 0x1_0000 % 0x100) + 0x100_0000 * (n / 0x100_0000 % 0x100)
  {
    var a, b, c := n / 0x100, n / 0x1_0000, n / 0x100_0000;
    assert n == 0x100 * a + n % 0x100 && a == 0x100 * b + a % 0x100 && b == 0x100 * c + b % 0x100;
    assert c < 0x100;
  }

  /** The bytes of a number, and no others, make it up: they are its digits to the base 256. */
  lemma LittleEndian(d: seq<byte>)
    requires |d| == 4
    ensures var n := Decode(d);
            && n % 0x100 == d[0] && n / 0x100 % 0x100 == d[1] && n / 0x1_0000 % 0x100 == d[2] && n / 0x100_0000 == d[3]
    ensures Encode(Decode(d)) == d
  {
    var n := Decode(d);
    assert n / 0x100 == d[1] as int + 0x100 * (d[2] as int) + 0x1_0000 * (d[3] as int);
    assert n / 0x1_0000 == d[2] as int + 0x100 * (d[3] as int);
  }

  lemma MulLe(a: int, b: int, c: nat)
    requires a <= b
    ensures a * c <= b * c
  {
  }

  /** Division is unique. */
  lemma Quotient(x: nat, d: nat, q: nat, r: nat)
    requires d > 0 && x == q * d + r && r < d
    ensures x / d == q
  {
    var k := x / d - q;
    assert k * d == r - x % d by { assert x == x / d * d + x % d; assert (x / d - q) * d == x / d * d - q * d; }
    assert (-k) * d == -(k * d);
    if k >= 1 { MulLe(1, k, d); } else if k <= -1 { MulLe(1, -k, d); }
  }

  ghost predicate Distinct<T>(s: seq<T>) {
    forall i, j :: 0 <= i < j < |s| ==> s[i] != s[j]
  }

  /** s without its first occurrence of x. */
  function Remove<T(==)>(s: seq<T>, x: T): seq<T> {
    if s == [] then [] else if s[0] == x then s[1..] else [s[0]] + Remove(s[1..], x)
  }

  lemma {:induction false} RemoveAbsent<T>(s: seq<T>, x: T)
    requires x !in s
    ensures Remove(s, x) == s
  {
    if s != [] { RemoveAbsent(s[1..], x); }
  }

  lemma RemoveStep<T>(s: seq<T>, x: T)
    ensures Remove<T>([], x) == []
    ensures s != [] ==> Remove(s, x) == if s[0] == x then s[1..] else [s[0]] + Remove(s[1..], x)
    ensures x in s <==> s != [] && (s[0] == x || x in s[1..])
  {
    if s != [] { assert s == [s[0]] + s[1..]; }
  }

  /** Removing from a duplicate-free sequence takes that element out and keeps it duplicate-free. */
  lemma {:induction false} RemoveFacts<T>(s: seq<T>, x: T)
    requires Distinct(s)
    ensures Distinct(Remove(s, x))
    ensures forall y :: y in s && y != x ==> y in Remove(s, x)
    ensures forall y :: y in Remove(s, x) ==> y in s && y != x
  {
    hide Remove, Distinct;
    RemoveStep(s, x);
    if s != [] {
      DistinctHead(s[0], s[1..]);
      assert s == [s[0]] + s[1..];
      RemoveFacts(s[1..], x);
      DistinctHead(s[0], Remove(s[1..], x));
    }
  }

  lemma DistinctHead<T>(x: T, s: seq<T>)
    ensures Distinct([x] + s) <==> x !in s && Distinct(s)
  {
    var t := [x] + s;
    assert forall i :: 0 <= i < |s| ==> t[i + 1] == s[i];
    if Distinct(t) {
      forall i, j | 0 <= i < j < |s| ensures s[i] != s[j] { assert t[i + 1] != t[j + 1]; }
      forall i | 0 <= i < |s| ensures s[i] != x { assert t[0] != t[i + 1]; }
    }
  }

  /** In a concatenation the first occurrence is in the first part if there is one there. */
  lemma {:induction false} RemoveConcat<T>(a: seq<T>, b: seq<T>, x: T)
    ensures Remove(a + b, x) == if x in a then Remove(a, x) + b else a + Remove(b, x)
  {
    hide Remove;
    RemoveStep(a, x);
    RemoveStep(a + b, x);
    if a == [] {
      assert a + b == b;
    } else {
      TailOfConcat(a, b);
      RemoveConcat(a[1..], b, x);
      InFrontOf(a[0], Remove(a[1..], x), b);
      InFrontOf(a[0], a[1..], Remove(b, x));
    }
  }

  lemma TailOfConcat<T>(a: seq<T>, b: seq<T>)
    requires a != []
    ensures (a + b)[0] == a[0] && (a + b)[1..] == a[1..] + b && [a[0]] + a[1..] == a
  {
  }

  lemma InFrontOf<T>(x: T, a: seq<T>, b: seq<T>)
    ensures [x] + (a + b) == ([x] + a) + b
  {
  }

  /** The first occurrence, by position. */
  lemma {:induction false} RemoveAt<T>(s: seq<T>, i: nat)
    requires i < |s| && forall j :: 0 <= j < i ==> s[j] != s[i]
    ensures Remove(s, s[i]) == s[..i] + s[i + 1..]
  {
    if i > 0 {
      RemoveAt(s[1..], i - 1);
      assert s[1..][..i - 1] == s[1..i];
      assert s[1..][i..] == s[i + 1..];
    }
  }

  /** A duplicate-free sequence of keys is no longer than the map. */
  lemma {:induction false} DistinctFits<K, V>(s: seq<K>, m: map<K, V>)
    requires Distinct(s) && forall k :: k in s ==> k in m
    ensures |s| <= |m|
  {
    if s != [] {
      var k, rest := s[|s| - 1], s[..|s| - 1];
      var m' := m - {k};
      assert m'.Keys == m.Keys - {k};
      assert |m'.Keys| == |m.Keys| - 1;
      DistinctFits(rest, m');
    }
  }
}
