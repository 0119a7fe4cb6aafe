/** Integer division and square root as the kernel computes them
    (kernel/util/div6432.c, kernel/util/math.c).

    Machine words are modelled as bounded integers; every shift, sum and "or" below is
    written with the truncation the C operator performs, and the proofs show that the
    truncation never loses a bit. */
module Division {
  import opened Basics
  import opened Bits

  const U64: nat := 0x1_0000_0000_0000_0000
  const I64: nat := 0x8000_0000_0000_0000

  // The shifts and the sum as the C operators compute them on unsigned words.

  function Quarter(x: nat): nat { x / 4 }

  function Half(x: nat): nat { x / 2 }

  function AddU32(x: nat, y: nat): nat { (x + y) % U32 }

  /** One position of the restoring loop: the quotient collected so far is m * 2^(k+1) and the
      part still to be divided is below twice the aligned divisor. */
  ghost predicate Position(num0: nat, den0: nat, num: nat, den: nat, quot: nat, m: nat, k: nat)
  {
    && den == den0 * Pow2(k)
    && num < 2 * den
    && quot == m * Pow2(k + 1)
    && num0 == quot * den0 + num
  }

  lemma StepTaken(num0: nat, den0: nat, num: nat, den: nat, quot: nat, m: nat, k: nat)
    requires Position(num0, den0, num, den, quot, m, k) && num >= den
    ensures BitOr(quot, Pow2(k)) == (2 * m + 1) * Pow2(k)
    ensures num0 == BitOr(quot, Pow2(k)) * den0 + (num - den)
  {
    OrIsSum(m, k);
    var p := Pow2(k);
    assert quot == (2 * m) * p by { Regroup(m, p); }
    Distribute(2 * m, 1, p);
    Distribute(quot, p, den0);
    assert p * den0 == den;
  }

  lemma StepSkipped(num0: nat, den0: nat, num: nat, den: nat, quot: nat, m: nat, k: nat)
    requires Position(num0, den0, num, den, quot, m, k)
    ensures quot == (2 * m) * Pow2(k)
  {
    Regroup(m, Pow2(k));
  }

  /** __udivmoddi4, first loop: shift the divisor up until it passes the numerator or its top
      bit would shift out. Nothing is lost: the result is exactly den0 * 2^k. */
  method AlignDivisor(num: nat, den0: nat) returns (den: nat, qbit: nat, ghost k: nat)
    requires num < U64 && 0 < den0 < U64
    ensures qbit == Pow2(k) && den == den0 * Pow2(k) && num < 2 * den
  {
    den, qbit, k := den0, 1, 0;
    while den < I64 && den <= num
      invariant qbit == Pow2(k) && den == den0 * Pow2(k)
      invariant den0 <= den < U64 && qbit <= den
      decreases U64 - den
    {
      DoubleRight(den0, Pow2(k));
      den := (den * 2) % U64;
      qbit := (qbit * 2) % U64;
      k := k + 1;
    }
  }

  lemma NextTaken(num0: nat, den0: nat, num: nat, den: nat, quot: nat, m: nat, k: nat)
    requires Position(num0, den0, num, den, quot, m, k) && num >= den && den0 > 0
    ensures k > 0 ==> Position(num0, den0, num - den, Half(den), BitOr(quot, Pow2(k)), 2 * m + 1, k - 1)
    ensures k > 0 ==> Half(Pow2(k)) == Pow2(k - 1)
    ensures k == 0 ==> IsQuotient(num0, den0, BitOr(quot, Pow2(k)), num - den) && Half(Pow2(k)) == 0
  {
    StepTaken(num0, den0, num, den, quot, m, k);
    HalveDivisor(den0, den, Pow2(k), k);
    LeProduct(BitOr(quot, Pow2(k)), den0);
  }

  lemma NextSkipped(num0: nat, den0: nat, num: nat, den: nat, quot: nat, m: nat, k: nat)
    requires Position(num0, den0, num, den, quot, m, k) && num < den && den0 > 0
    ensures k > 0 ==> Position(num0, den0, num, Half(den), quot, 2 * m, k - 1)
    ensures k > 0 ==> Half(Pow2(k)) == Pow2(k - 1)
    ensures k == 0 ==> IsQuotient(num0, den0, quot, num) && Half(Pow2(k)) == 0
  {
    StepSkipped(num0, den0, num, den, quot, m, k);
    HalveDivisor(den0, den, Pow2(k), k);
    LeProduct(quot, den0);
  }

  ghost predicate IsQuotient(num: nat, den: nat, quot: nat, rem: nat)
  {
    num == quot * den + rem && rem < den && quot <= num
  }

  /** __udivmoddi4: shift-subtract division. A zero divisor yields quotient 0 and leaves the
      numerator as remainder; otherwise this is Euclidean division. */
  method UDivMod(num0: nat, den0: nat) returns (quot: nat, rem: nat)
    requires num0 < U64 && den0 < U64
    ensures den0 == 0 ==> quot == 0 && rem == num0
    ensures den0 != 0 ==> IsQuotient(num0, den0, quot, rem)
  {
    hide *;
    if den0 == 0 { return 0, num0; }
    var den: nat, qbit: nat, k := AlignDivisor(num0, den0);
    var num: nat := num0;
    quot := 0;
    ghost var m: nat := 0;
    Start(num0, den0, den, k);
    while qbit > 0
      invariant qbit > 0 ==> qbit == Pow2(k) && Position(num0, den0, num, den, quot, m, k)
      invariant qbit == 0 ==> IsQuotient(num0, den0, quot, num)
      decreases qbit, k
    {
      if num >= den {
        NextTaken(num0, den0, num, den, quot, m, k);
        num := num - den;
        quot := BitOr(quot, qbit);
        m := 2 * m + 1;
      } else {
        NextSkipped(num0, den0, num, den, quot, m, k);
        m := 2 * m;
      }
      HalfIsLess(qbit);
      den, qbit := Half(den), Half(qbit);
      k := if k == 0 then 0 else k - 1;
    }
    rem := num;
  }

  lemma HalfIsLess(x: nat)
    requires x > 0
    ensures Half(x) < x
  {
  }

  lemma Start(num0: nat, den0: nat, den: nat, k: nat)
    requires den == den0 * Pow2(k) && num0 < 2 * den
    ensures Position(num0, den0, num0, den, 0, 0, k)
  {
  }

  lemma LeProduct(q: nat, d: nat)
    requires d > 0
    ensures q <= q * d
  {
  }

  lemma HalveDivisor(den0: nat, den: nat, qbit: nat, k: nat)
    requires qbit == Pow2(k) && den == den0 * qbit
    ensures k == 0 ==> qbit == 1 && den == den0 && qbit / 2 == 0
    ensures k > 0 ==> qbit / 2 == Pow2(k - 1) && den / 2 == den0 * Pow2(k - 1) && den == 2 * (den / 2) && qbit == 2 * (qbit / 2)
  {
    if k > 0 { DoubleRight(den0, Pow2(k - 1)); }
  }

  lemma Regroup(m: nat, p: nat)
    ensures m * (2 * p) == (2 * m) * p
  {
  }

  lemma Distribute(a: nat, b: nat, d: nat)
    ensures (a + b) * d == a * d + b * d
  {
  }

  /** State of the digit-by-digit root: r is the root of the digits done, s = 2^k the digit
      under trial, and the machine registers hold 2rs, s^2 and what is left of the number. */
  ghost predicate RootAt(num0: nat, num: nat, res: nat, bit: nat, r: nat, k: nat)
  {
    var s := Pow2(k);
    && bit == s * s
    && res == 2 * (r * s)
    && num + r * r == num0 < (r + 2 * s) * (r + 2 * s)
    && r + 2 * s <= 0x1_0000
  }

  lemma RootStep(num0: nat, num: nat, res: nat, bit: nat, r: nat, k: nat)
    requires RootAt(num0, num, res, bit, r, k)
    ensures AddU32(res, bit) == res + bit && AddU32(Half(res), bit) == Half(res) + bit
    ensures num >= res + bit && k > 0 ==> RootAt(num0, num - (res + bit), Half(res) + bit, Quarter(bit), r + Pow2(k), k - 1)
    ensures num < res + bit && k > 0 ==> RootAt(num0, num, Half(res), Quarter(bit), r, k - 1)
    ensures num >= res + bit && k == 0 ==> IsRoot(num0, Half(res) + bit)
    ensures num < res + bit && k == 0 ==> IsRoot(num0, Half(res))
    ensures k == 0 <==> Quarter(bit) == 0
    ensures Quarter(bit) < bit
  {
    hide *;
    NoCarry(num0, num, res, bit, r, k);
    if k > 0 { RootGoesOn(num0, num, res, bit, r, k); } else { RootEnds(num0, num, res, bit, r); }
  }

  lemma NoCarry(num0: nat, num: nat, res: nat, bit: nat, r: nat, k: nat)
    requires RootAt(num0, num, res, bit, r, k)
    ensures AddU32(res, bit) == res + bit && AddU32(Half(res), bit) == Half(res) + bit
  {
    NoOverflow(r, Pow2(k));
  }

  lemma RootGoesOn(num0: nat, num: nat, res: nat, bit: nat, r: nat, k: nat)
    requires RootAt(num0, num, res, bit, r, k) && k > 0
    ensures num >= res + bit ==> RootAt(num0, num - (res + bit), Half(res) + bit, Quarter(bit), r + Pow2(k), k - 1)
    ensures num < res + bit ==> RootAt(num0, num, Half(res), Quarter(bit), r, k - 1)
    ensures 0 < Quarter(bit) < bit
  {
    var s, h := Pow2(k), Pow2(k - 1);
    SquareSum(r, s);
    QuarterSquare(s, h);
    DoubleRight(r, h);
    DoubleRight(r + s, h);
    LeProduct(h, h);
  }

  lemma RootEnds(num0: nat, num: nat, res: nat, bit: nat, r: nat)
    requires RootAt(num0, num, res, bit, r, 0)
    ensures num >= res + bit ==> IsRoot(num0, Half(res) + bit)
    ensures num < res + bit ==> IsRoot(num0, Half(res))
    ensures Quarter(bit) == 0 < bit
  {
    SquareSum(r, 1);
  }

  ghost predicate IsRoot(num: nat, r: nat)
  {
    r * r <= num < (r + 1) * (r + 1)
  }

  lemma StartRoot(num: nat)
    requires num < U32
    ensures RootAt(num, num, 0, 0x4000_0000, 0, 15)
  {
    Pow2Fifteen();
  }

  lemma SkipHighBit(num: nat, bit: nat, k: nat)
    requires RootAt(num, num, 0, bit, 0, k) && bit > num
    ensures k > 0 ==> RootAt(num, num, 0, Quarter(bit), 0, k - 1)
    ensures k == 0 ==> num == 0
    ensures k == 0 <==> Quarter(bit) == 0
    ensures Quarter(bit) < bit
  {
    if k > 0 { QuarterSquare(Pow2(k), Pow2(k - 1)); }
  }

  lemma RootOfZero()
    ensures IsRoot(0, 0)
  {
  }

  /** isqrt on a 32-bit unsigned int: the digit-by-digit method returns the integer root. */
  method ISqrt(num0: nat) returns (res: nat)
    requires num0 < U32
    ensures IsRoot(num0, res)
  {
    hide *;
    var num: nat, bit: nat := num0, 0x4000_0000;
    res := 0;
    ghost var k: nat, r: nat := 15, 0;
    StartRoot(num);
    RootOfZero();
    while bit > num
      invariant bit > 0 ==> RootAt(num, num, 0, bit, 0, k)
      invariant bit == 0 ==> num == 0
      decreases bit
    {
      SkipHighBit(num, bit, k);
      k := if k == 0 then 0 else k - 1;
      bit := Quarter(bit);
    }
    while bit != 0
      invariant bit > 0 ==> RootAt(num0, num, res, bit, r, k)
      invariant bit == 0 ==> IsRoot(num0, res)
      decreases bit
    {
      RootStep(num0, num, res, bit, r, k);
      if num >= AddU32(res, bit) {
        num := num - AddU32(res, bit);
        res := AddU32(Half(res), bit);
        r := r + Pow2(k);
      } else {
        res := Half(res);
      }
      bit := Quarter(bit);
      k := if k == 0 then 0 else k - 1;
    }
  }

  lemma Pow2Fifteen()
    ensures Pow2(15) == 0x8000
  {
    assert Pow2(5) == 32;
    assert Pow2(10) == 1024 by { assert Pow2(8) == 256; }
    assert Pow2(13) == 8192;
  }

  lemma DoubleRight(r: nat, p: nat)
    ensures r * (2 * p) == 2 * (r * p)
  {
  }

  lemma QuarterSquare(s: nat, h: nat)
    requires s == 2 * h
    ensures (s * s) / 4 == h * h && (s * s) % 4 == 0 && s / 2 == h
  {
    assert s * s == 4 * (h * h);
  }

  lemma SquareSum(r: nat, s: nat)
    ensures (r + s) * (r + s) == r * r + 2 * (r * s) + s * s
    ensures (r + s + s) * (r + s + s) == (r + 2 * s) * (r + 2 * s)
    ensures (r + s) * s == r * s + s * s
  {
    assert (r + s) * (r + s) == r * (r + s) + s * (r + s);
  }

  /** The trial value 2rs + s^2 and the new root rs + s^2 fit a 32-bit word whenever they are formed. */
  lemma NoOverflow(r: nat, s: nat)
    requires 0 < s && r + 2 * s <= 0x1_0000
    ensures 2 * (r * s) + s * s < U32 && r * s + s * s < U32
  {
    var x := r + s;
    assert x * x <= 0xFFFF * 0xFFFF by { SquareMonotone(x, 0xFFFF); }
    SquareSum(r, s);
  }

  lemma SquareMonotone(x: nat, y: nat)
    requires x <= y
    ensures x * x <= y * y
  {
    assert x * x <= x * y;
    assert x * y <= y * y;
  }
}
