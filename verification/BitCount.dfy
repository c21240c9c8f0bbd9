/** Counting set bits with octal masks. */
module BitCount {
  function BitAnd(p: nat, q: nat): nat {
    if p == 1 && q == 1 then 1 else 0
  }

  /** Bitwise `&` of non-negative integers. */
  function And(x: nat, y: nat): nat {
    if x == 0 || y == 0 then 0 else BitAnd(x % 2, y % 2) + 2 * And(x / 2, y / 2)
  }

  function Ones(n: nat): nat {
    if n == 0 then 0 else n % 2 + Ones(n / 2)
  }

  /** Octal 3333333333. */
  const LOW_TWO: nat := 0x1B6D_B6DB
  /** Octal 0707070707. */
  const EVEN_DIGITS: nat := 0x71C_71C7

  /** `count_bits` of a small non-negative `int`, for which the shifts are divisions. */
  function CountBits(n: nat): int
    requires n < 512
  {
    var sum := And(n / 2, LOW_TWO);
    DifferencesFit(n);
    var digits := n - sum - And(sum / 2, LOW_TWO);
    And(digits + digits / 8, EVEN_DIGITS) % 63
  }

  /** One bit at a time. */
  lemma AndBit(a: nat, p: nat, b: nat, q: nat, x: nat, y: nat)
    requires p < 2 && q < 2 && x == 2 * a + p && y == 2 * b + q
    ensures And(x, y) == 2 * And(a, b) + BitAnd(p, q)
  {
    assert x / 2 == a && x % 2 == p && y / 2 == b && y % 2 == q;
    assert a == 0 ==> And(a, b) == 0;
    assert b == 0 ==> And(a, b) == 0;
  }

  lemma AndThreeBits(a: nat, p2: nat, p1: nat, p0: nat, b: nat, q2: nat, q1: nat, q0: nat)
    requires p2 < 2 && p1 < 2 && p0 < 2 && q2 < 2 && q1 < 2 && q0 < 2
    ensures And(8 * a + 4 * p2 + 2 * p1 + p0, 8 * b + 4 * q2 + 2 * q1 + q0)
            == 8 * And(a, b) + 4 * BitAnd(p2, q2) + 2 * BitAnd(p1, q1) + BitAnd(p0, q0)
  {
    var a1, b1 := 2 * a + p2, 2 * b + q2;
    var a2, b2 := 2 * a1 + p1, 2 * b1 + q1;
    AndBit(a, p2, b, q2, a1, b1);
    AndBit(a1, p1, b1, q1, a2, b2);
    AndBit(a2, p0, b2, q0, 8 * a + 4 * p2 + 2 * p1 + p0, 8 * b + 4 * q2 + 2 * q1 + q0);
  }

  lemma Bits(d: nat) returns (p2: nat, p1: nat, p0: nat)
    requires d < 8
    ensures p2 < 2 && p1 < 2 && p0 < 2 && d == 4 * p2 + 2 * p1 + p0
  {
    p2, p1, p0 := d / 4, d / 2 % 2, d % 2;
  }

  /** One octal digit at a time. */
  lemma AndDigit(a: nat, d: nat, b: nat, e: nat)
    requires d < 8 && e < 8
    ensures And(8 * a + d, 8 * b + e) == 8 * And(a, b) + And(d, e)
  {
    var p2, p1, p0 := Bits(d);
    var q2, q1, q0 := Bits(e);
    AndThreeBits(a, p2, p1, p0, b, q2, q1, q0);
    AndThreeBits(0, p2, p1, p0, 0, q2, q1, q0);
  }

  lemma AndThree(d: nat)
    requires d < 8
    ensures And(d, 3) == d % 4
  {
    var p2, p1, p0 := Bits(d);
    AndThreeBits(0, p2, p1, p0, 0, 0, 1, 1);
  }

  lemma AndSeven(d: nat)
    requires d < 8
    ensures And(d, 7) == d
  {
    var p2, p1, p0 := Bits(d);
    AndThreeBits(0, p2, p1, p0, 0, 1, 1, 1);
  }

  /** Three octal digits against a mask, digit by digit. */
  lemma AndThreeDigits(d0: nat, d1: nat, d2: nat, e0: nat, e1: nat, e2: nat, m: nat)
    requires d0 < 8 && d1 < 8 && d2 < 8 && e0 < 8 && e1 < 8 && e2 < 8
    ensures And(d0 + 8 * d1 + 64 * d2, e0 + 8 * e1 + 64 * e2 + 512 * m)
            == And(d0, e0) + 8 * And(d1, e1) + 64 * And(d2, e2)
  {
    AndDigit(d1 + 8 * d2, d0, e1 + 8 * e2 + 64 * m, e0);
    AndDigit(d2, d1, e2 + 8 * m, e1);
    AndDigit(0, d2, m, e2);
    assert And(0, m) == 0;
  }

  /** The first mask keeps the low two bits of each octal digit. */
  lemma MaskLowTwo(d0: nat, d1: nat, d2: nat)
    requires d0 < 8 && d1 < 8 && d2 < 8
    ensures And(d0 + 8 * d1 + 64 * d2, LOW_TWO) == d0 % 4 + 8 * (d1 % 4) + 64 * (d2 % 4)
  {
    AndThreeDigits(d0, d1, d2, 3, 3, 3, LOW_TWO / 512);
    AndThree(d0);
    AndThree(d1);
    AndThree(d2);
  }

  /** The second mask keeps every other octal digit. */
  lemma MaskEvenDigits(d0: nat, d1: nat, d2: nat)
    requires d0 < 8 && d1 < 8 && d2 < 8
    ensures And(d0 + 8 * d1 + 64 * d2, EVEN_DIGITS) == d0 + 64 * d2
  {
    AndThreeDigits(d0, d1, d2, 7, 0, 7, EVEN_DIGITS / 512);
    AndSeven(d0);
    AndSeven(d2);
  }

  /** Shifting right moves a bit of each digit into the place the mask clears. */
  lemma HalfDigits(d0: nat, d1: nat, d2: nat) returns (c0: nat, c1: nat, c2: nat)
    requires d0 < 8 && d1 < 8 && d2 < 8
    ensures c0 < 8 && c1 < 8 && c2 < 8 && c0 % 4 == d0 / 2 && c1 % 4 == d1 / 2 && c2 % 4 == d2 / 2
    ensures (d0 + 8 * d1 + 64 * d2) / 2 == c0 + 8 * c1 + 64 * c2
  {
    c0, c1, c2 := d0 / 2 + 4 * (d1 % 2), d1 / 2 + 4 * (d2 % 2), d2 / 2;
  }

  /** What shifting right and masking leaves of each digit. */
  lemma Halves(n: nat, d0: nat, d1: nat, d2: nat)
    requires d0 < 8 && d1 < 8 && d2 < 8 && n == d0 + 8 * d1 + 64 * d2
    ensures And(n / 2, LOW_TWO) == d0 / 2 + 8 * (d1 / 2) + 64 * (d2 / 2)
  {
    var c0, c1, c2 := HalfDigits(d0, d1, d2);
    MaskLowTwo(c0, c1, c2);
  }

  /** The number of bits of one octal digit. */
  function DigitOnes(d: nat): nat
    requires d < 8
  {
    d - d / 2 - d / 2 / 2
  }

  /** The two subtractions leave each digit's number of bits in its place. */
  lemma Differences(n: nat, d0: nat, d1: nat, d2: nat)
    requires d0 < 8 && d1 < 8 && d2 < 8 && n == d0 + 8 * d1 + 64 * d2
    ensures var sum := And(n / 2, LOW_TWO);
      n - sum - And(sum / 2, LOW_TWO) == DigitOnes(d0) + 8 * DigitOnes(d1) + 64 * DigitOnes(d2)
  {
    var e0, e1, e2 := d0 / 2, d1 / 2, d2 / 2;
    Halves(n, d0, d1, d2);
    Halves(e0 + 8 * e1 + 64 * e2, e0, e1, e2);
  }

  lemma Digits(n: nat) returns (d0: nat, d1: nat, d2: nat)
    requires n < 512
    ensures d0 < 8 && d1 < 8 && d2 < 8 && n == d0 + 8 * d1 + 64 * d2
  {
    d0, d1, d2 := n % 8, n / 8 % 8, n / 64;
  }

  lemma DifferencesFit(n: nat)
    requires n < 512
    ensures var sum := And(n / 2, LOW_TWO); n - sum - And(sum / 2, LOW_TWO) >= 0
  {
    var d0, d1, d2 := Digits(n);
    Differences(n, d0, d1, d2);
  }

  lemma OnesHalf(n: nat)
    ensures Ones(n) == n % 2 + Ones(n / 2)
  {
  }

  lemma BitsOfDigit(d: nat, a: nat, n: nat)
    requires d < 8 && n == d + 8 * a
    ensures n / 2 / 2 / 2 == a && n % 2 + n / 2 % 2 + n / 2 / 2 % 2 == DigitOnes(d)
  {
  }

  lemma OnesAboveDigit(d: nat, a: nat, n: nat)
    requires d < 8 && n == d + 8 * a
    ensures Ones(n) == DigitOnes(d) + Ones(a)
  {
    BitsOfDigit(d, a, n);
    OnesHalf(n);
    OnesHalf(n / 2);
    OnesHalf(n / 2 / 2);
  }

  lemma OnesOfDigits(n: nat, d0: nat, d1: nat, d2: nat)
    requires d0 < 8 && d1 < 8 && d2 < 8 && n == d0 + 8 * d1 + 64 * d2
    ensures Ones(n) == DigitOnes(d0) + DigitOnes(d1) + DigitOnes(d2)
  {
    OnesAboveDigit(d0, d1 + 8 * d2, n);
    OnesAboveDigit(d1, d2, d1 + 8 * d2);
    OnesAboveDigit(d2, 0, d2);
  }

  lemma Neighbours(digits: nat, p0: nat, p1: nat, p2: nat)
    requires p0 <= 3 && p1 <= 3 && p2 <= 3 && digits == p0 + 8 * p1 + 64 * p2
    ensures digits + digits / 8 == (p0 + p1) + 8 * (p1 + p2) + 64 * p2
  {
  }

  lemma CastingOut(a: nat, b: nat, x: nat)
    requires a + b < 63 && x == a + 64 * b
    ensures x % 63 == a + b
  {
  }

  /** Adding neighbours and taking the remainder by 63 adds up the digits. */
  lemma SumOfDigits(digits: nat, p0: nat, p1: nat, p2: nat)
    requires p0 <= 3 && p1 <= 3 && p2 <= 3 && digits == p0 + 8 * p1 + 64 * p2
    ensures And(digits + digits / 8, EVEN_DIGITS) % 63 == p0 + p1 + p2
  {
    var masked := And(digits + digits / 8, EVEN_DIGITS);
    Neighbours(digits, p0, p1, p2);
    MaskEvenDigits(p0 + p1, p1 + p2, p2);
    CastingOut(p0 + p1, p2, masked);
  }

  lemma DigitOnesFit(d: nat)
    requires d < 8
    ensures 0 <= DigitOnes(d) <= 3
  {
  }

  lemma CountBitsMasks(n: nat, digits: nat, masked: nat)
    requires n < 512 && digits == (var sum := And(n / 2, LOW_TWO); n - sum - And(sum / 2, LOW_TWO))
    requires masked == And(digits + digits / 8, EVEN_DIGITS)
    ensures CountBits(n) == masked % 63
  {
  }

  lemma CountBitsIs(n: nat, digits: nat, p0: nat, p1: nat, p2: nat)
    requires n < 512 && p0 <= 3 && p1 <= 3 && p2 <= 3 && digits == p0 + 8 * p1 + 64 * p2
    requires digits == (var sum := And(n / 2, LOW_TWO); n - sum - And(sum / 2, LOW_TWO))
    ensures CountBits(n) == p0 + p1 + p2
  {
    CountBitsMasks(n, digits, And(digits + digits / 8, EVEN_DIGITS));
    SumOfDigits(digits, p0, p1, p2);
  }

  lemma CountBitsOfDigits(n: nat, d0: nat, d1: nat, d2: nat)
    requires n < 512 && d0 < 8 && d1 < 8 && d2 < 8 && n == d0 + 8 * d1 + 64 * d2
    ensures CountBits(n) == DigitOnes(d0) + DigitOnes(d1) + DigitOnes(d2)
  {
    DigitOnesFit(d0);
    DigitOnesFit(d1);
    DigitOnesFit(d2);
    Differences(n, d0, d1, d2);
    CountBitsIs(n, DigitOnes(d0) + 8 * DigitOnes(d1) + 64 * DigitOnes(d2),
                DigitOnes(d0), DigitOnes(d1), DigitOnes(d2));
  }

  /** Main result: the masks count the bits. */
  lemma CountBitsCounts(n: nat)
    requires n < 512
    ensures CountBits(n) == Ones(n)
  {
    var d0, d1, d2 := Digits(n);
    CountBitsOfDigits(n, d0, d1, d2);
    OnesOfDigits(n, d0, d1, d2);
  }
}
