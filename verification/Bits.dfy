/** Bitwise operators of C on unsigned words, digit by digit, and what they do to single bits. */
module Bits {

  function Pow2(k: nat): (p: nat)
    ensures p > 0
  {
    if k == 0 then 1 else 2 * Pow2(k - 1)
  }

  predicate Bit(a: nat, k: nat) {
    if k == 0 then a % 2 == 1 else Bit(a / 2, k - 1)
  }

  /** Bit k is the binary digit of weight 2^k. */
  lemma {:induction false} BitIsDigit(a: nat, k: nat) returns (high: nat, low: nat)
    ensures a == high * (2 * Pow2(k)) + (if Bit(a, k) then Pow2(k) else 0) + low && low < Pow2(k)
  {
    if k == 0 {
      return a / 2, 0;
    } else {
      var l;
      high, l := BitIsDigit(a / 2, k - 1);
      low := 2 * l + a % 2;
      assert high * (2 * Pow2(k)) == 2 * (high * (2 * Pow2(k - 1)));
    }
  }

  /** a | b */
  function BitOr(a: nat, b: nat): nat
    decreases a + b
  {
    if a == 0 && b == 0 then 0
    else (if a % 2 == 1 || b % 2 == 1 then 1 else 0) + 2 * BitOr(a / 2, b / 2)
  }

  /** a & b */
  function BitAnd(a: nat, b: nat): nat
    decreases a + b
  {
    if a == 0 || b == 0 then 0
    else (if a % 2 == 1 && b % 2 == 1 then 1 else 0) + 2 * BitAnd(a / 2, b / 2)
  }

  /** a & ~b */
  function BitAndNot(a: nat, b: nat): nat
    decreases a
  {
    if a == 0 then 0
    else (if a % 2 == 1 && b % 2 == 0 then 1 else 0) + 2 * BitAndNot(a / 2, b / 2)
  }

  lemma {:induction false} BitOfZero(k: nat)
    ensures !Bit(0, k)
  {
    if k > 0 { BitOfZero(k - 1); }
  }

  lemma {:induction false} BitOfPow2(k: nat, j: nat)
    ensures Bit(Pow2(k), j) == (j == k)
  {
    if j > 0 {
      if k == 0 { BitOfZero(j - 1); } else { BitOfPow2(k - 1, j - 1); }
    }
  }

  lemma {:induction false} OrBits(a: nat, b: nat, j: nat)
    ensures Bit(BitOr(a, b), j) == (Bit(a, j) || Bit(b, j))
    decreases j
  {
    if a == 0 && b == 0 { BitOfZero(j); }
    else if j > 0 { OrBits(a / 2, b / 2, j - 1); }
  }

  lemma {:induction false} AndNotBits(a: nat, b: nat, j: nat)
    ensures Bit(BitAndNot(a, b), j) == (Bit(a, j) && !Bit(b, j))
    decreases j
  {
    if a == 0 { BitOfZero(j); }
    else if j > 0 { AndNotBits(a / 2, b / 2, j - 1); }
  }

  /** Masking with one bit tests it. */
  lemma {:induction false} AndPow2(a: nat, k: nat)
    ensures BitAnd(a, Pow2(k)) != 0 <==> Bit(a, k)
    decreases k
  {
    if a == 0 { BitOfZero(k); }
    else if k == 0 { AndZero(a / 2); }
    else { AndPow2(a / 2, k - 1); }
  }

  lemma AndZero(a: nat)
    ensures BitAnd(a, 0) == 0
  {
  }

  lemma {:induction false} OrBound(a: nat, b: nat, n: nat)
    requires a < Pow2(n) && b < Pow2(n)
    ensures BitOr(a, b) < Pow2(n)
    decreases n
  {
    if n > 0 && !(a == 0 && b == 0) { OrBound(a / 2, b / 2, n - 1); }
  }

  lemma {:induction false} AndNotBound(a: nat, b: nat)
    ensures BitAndNot(a, b) <= a
  {
    if a != 0 { AndNotBound(a / 2, b / 2); }
  }

  lemma {:induction false} Pow2Monotone(j: nat, k: nat)
    requires j <= k
    ensures Pow2(j) <= Pow2(k)
  {
    if j < k { Pow2Monotone(j, k - 1); }
  }

  lemma {:induction false} OrWithNothing(a: nat)
    ensures BitOr(a, 0) == a
  {
    if a != 0 { OrWithNothing(a / 2); }
  }

  /** Or-ing in a bit below the lowest set bit is addition. */
  lemma {:induction false} OrIsSum(m: nat, k: nat)
    ensures BitOr(m * Pow2(k + 1), Pow2(k)) == m * Pow2(k + 1) + Pow2(k)
  {
    var a := m * Pow2(k + 1);
    assert a == 2 * (m * Pow2(k));
    if k == 0 {
      OrWithNothing(m);
    } else {
      assert Pow2(k) == 2 * Pow2(k - 1);
      OrIsSum(m, k - 1);
    }
  }
}
