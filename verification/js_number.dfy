/** The integer semantics of the JavaScript operators the persona chooser uses:
    ToInt32 (section 7.1.6 of ECMA-262), the shift-left and bitwise-and
    operators on 32-bit patterns, the truncating remainder operator `%`, and
    the decimal rendering of a non-negative integral Number.

    Every value here is an integral Number whose magnitude is at most 2^53,
    so double-precision arithmetic on it is exact and is modelled with
    Dafny's unbounded `int`.
 */
module JsNumber {

  const TwoTo31: int := 0x8000_0000
  const TwoTo32: int := 0x1_0000_0000
  const TwoTo53: int := 0x20_0000_0000_0000

  /** A non-negative integer that is exactly a Number, as every integer up to
      2^53 is. */
  type SafeNat = n: nat | n <= TwoTo53

  /** `x` is a value of a signed 32-bit integer. */
  predicate IsInt32(x: int) {
    -TwoTo31 <= x < TwoTo31
  }

  /** `x` and `y` leave the same bit pattern in 32 bits. */
  predicate Congruent32(x: int, y: int) {
    (x - y) % TwoTo32 == 0
  }

  /** ToInt32: the signed 32-bit integer with the same low 32 bits as `x`. */
  function ToInt32(x: int): (r: int)
    ensures IsInt32(r)
    ensures Congruent32(x, r)
  {
    (x + TwoTo31) % TwoTo32 - TwoTo31
  }

  /** ToUint32: the unsigned 32-bit integer with the same low 32 bits as `x`. */
  function ToUint32(x: int): (r: int)
    ensures 0 <= r < TwoTo32
    ensures Congruent32(x, r)
  {
    x % TwoTo32
  }

  // ---------------------------------------------------------------------------
  // Congruence modulo 2^32

  lemma CongruentByWitness(x: int, y: int, k: int)
    requires x - y == k * TwoTo32
    ensures Congruent32(x, y)
  {
  }

  lemma WitnessOfCongruent(x: int, y: int) returns (k: int)
    requires Congruent32(x, y)
    ensures x - y == k * TwoTo32
  {
    k := (x - y) / TwoTo32;
  }

  lemma CongruentSymmetric(x: int, y: int)
    requires Congruent32(x, y)
    ensures Congruent32(y, x)
  {
    var k := WitnessOfCongruent(x, y);
    CongruentByWitness(y, x, -k);
  }

  lemma CongruentTransitive(x: int, y: int, z: int)
    requires Congruent32(x, y) && Congruent32(y, z)
    ensures Congruent32(x, z)
  {
    var k := WitnessOfCongruent(x, y);
    var l := WitnessOfCongruent(y, z);
    CongruentByWitness(x, z, k + l);
  }

  /** Adding the same amount to both sides keeps the low 32 bits equal. */
  lemma CongruentAdd(x: int, y: int, c: int)
    requires Congruent32(x, y)
    ensures Congruent32(x + c, y + c)
  {
    var k := WitnessOfCongruent(x, y);
    CongruentByWitness(x + c, y + c, k);
  }

  /** Multiplying both sides by the same factor keeps the low 32 bits equal. */
  lemma CongruentMul(x: int, y: int, m: int)
    requires Congruent32(x, y)
    ensures Congruent32(x * m, y * m)
  {
    var k := WitnessOfCongruent(x, y);
    calc {
      x * m - y * m;
      (x - y) * m;
      (k * TwoTo32) * m;
      (k * m) * TwoTo32;
    }
    CongruentByWitness(x * m, y * m, k * m);
  }

  /** Two signed 32-bit integers with the same low 32 bits are equal. */
  lemma Int32Unique(r: int, s: int)
    requires IsInt32(r) && IsInt32(s) && Congruent32(r, s)
    ensures r == s
  {
    var k := WitnessOfCongruent(r, s);
  }

  /** ToInt32 identifies exactly the integers with equal low 32 bits. */
  lemma ToInt32Congruent(x: int, y: int)
    ensures ToInt32(x) == ToInt32(y) <==> Congruent32(x, y)
  {
    var rx, ry := ToInt32(x), ToInt32(y);
    if Congruent32(x, y) {
      CongruentSymmetric(x, rx);
      CongruentTransitive(rx, x, y);
      CongruentTransitive(rx, y, ry);
      Int32Unique(rx, ry);
    }
    if rx == ry {
      CongruentSymmetric(y, ry);
      CongruentTransitive(x, rx, y);
    }
  }

  /** ToInt32 leaves a signed 32-bit integer unchanged. */
  lemma ToInt32OfInt32(x: int)
    requires IsInt32(x)
    ensures ToInt32(x) == x
  {
    CongruentSymmetric(x, ToInt32(x));
    Int32Unique(ToInt32(x), x);
  }

  // ---------------------------------------------------------------------------
  // Bitwise operators

  /** 2 to the power `n`. */
  function Pow2(n: nat): (p: int)
    ensures p >= 1
  {
    if n == 0 then 1 else 2 * Pow2(n - 1)
  }

  /** `x << n`: both operands are converted to 32-bit integers, only the low
      five bits of the shift count are used, and the shifted pattern is read
      back as a signed 32-bit integer. */
  function ShiftLeft(x: int, n: int): (r: int)
    ensures IsInt32(r)
    ensures Congruent32(r, x * Pow2(ToUint32(n) % 32))
  {
    var p := Pow2(ToUint32(n) % 32);
    var r := ToInt32(ToInt32(x) * p);
    CongruentMul(x, ToInt32(x), p);
    CongruentSymmetric(x * p, ToInt32(x) * p);
    CongruentSymmetric(ToInt32(x) * p, r);
    CongruentTransitive(r, ToInt32(x) * p, x * p);
    r
  }

  /** The bitwise and of the low `width` bits of `x` and `y`, least
      significant bit first. */
  function AndBits(x: nat, y: nat, width: nat): (r: nat)
    ensures r < Pow2(width)
  {
    if width == 0 then 0
    else
      var low := if x % 2 == 1 && y % 2 == 1 then 1 else 0;
      AndBits(x / 2, y / 2, width - 1) * 2 + low
  }

  /** `x & y`: the bitwise and of the two 32-bit patterns, read back as a
      signed 32-bit integer. */
  function BitAnd(x: int, y: int): (r: int)
    ensures IsInt32(r)
  {
    ToInt32(AndBits(ToUint32(x), ToUint32(y), 32))
  }

  /** Splitting off the lowest bit of a remainder modulo 2p. */
  lemma RemDoubling(x: nat, p: int)
    requires p >= 1
    ensures x % (2 * p) == (x / 2) % p * 2 + x % 2
  {
    var q, m := (x / 2) / p, (x / 2) % p;
    assert x / 2 == q * p + m;
    assert x == (2 * p) * q + (2 * m + x % 2);
    EuclideanUnique(x, 2 * p, q, 2 * m + x % 2);
  }

  /** A pattern and-ed with itself keeps its low `width` bits. */
  lemma {:induction false} AndBitsSelf(x: nat, width: nat)
    ensures AndBits(x, x, width) == x % Pow2(width)
  {
    if width == 0 {
      assert x % 1 == 0;
    } else {
      AndBitsSelf(x / 2, width - 1);
      RemDoubling(x, Pow2(width - 1));
    }
  }

  lemma {:induction false} Pow2Add(m: nat, n: nat)
    ensures Pow2(m + n) == Pow2(m) * Pow2(n)
  {
    if m > 0 {
      Pow2Add(m - 1, n);
    }
  }

  lemma Pow2Of32()
    ensures Pow2(32) == TwoTo32
  {
    assert Pow2(4) == 16;
    Pow2Add(4, 4);
    Pow2Add(8, 8);
    Pow2Add(16, 16);
  }

  lemma AndBitsSelfBelow(u: nat, width: nat)
    requires u < Pow2(width)
    ensures AndBits(u, u, width) == u
  {
    AndBitsSelf(u, width);
  }

  /** `x & x` is ToInt32(x): the and of a pattern with itself is the pattern. */
  lemma BitAndSelf(x: int)
    ensures BitAnd(x, x) == ToInt32(x)
  {
    var u := ToUint32(x);
    Pow2Of32();
    AndBitsSelfBelow(u, 32);
    CongruentSymmetric(x, u);
    ToInt32Congruent(u, x);
  }

  // ---------------------------------------------------------------------------
  // The remainder operator

  function Abs(x: int): (a: int)
    ensures a >= 0 && (a == x || a == -x)
  {
    if x < 0 then -x else x
  }

  /** `a % d` on integral Numbers: the remainder of the division truncated
      toward zero, which takes the sign of the dividend. */
  function TruncRem(a: int, d: int): (r: int)
    requires d != 0
    ensures a >= 0 ==> 0 <= r < Abs(d)
    ensures a < 0 ==> -Abs(d) < r <= 0
    ensures (a - r) % Abs(d) == 0
  {
    var n := Abs(d);
    if a >= 0 then
      EuclideanUnique(a - a % n, n, a / n, 0);
      a % n
    else
      EuclideanUnique(a + (-a) % n, n, -((-a) / n), 0);
      -((-a) % n)
  }

  /** How the truncating remainder relates to Dafny's Euclidean one: they
      agree on a non-negative dividend and on a multiple of the divisor, and
      otherwise differ by exactly the divisor. */
  lemma TruncRemVersusEuclidean(a: int, d: int)
    requires d > 0
    ensures a >= 0 || a % d == 0 ==> TruncRem(a, d) == a % d
    ensures a < 0 && a % d != 0 ==> TruncRem(a, d) == a % d - d
  {
    if a < 0 {
      var q, m := (-a) / d, (-a) % d;
      assert a == (-q) * d - m;
      if m == 0 {
        EuclideanUnique(a, d, -q, 0);
      } else {
        EuclideanUnique(a, d, -q - 1, d - m);
      }
    }
  }

  /** Multiplying a positive factor by at least one does not shrink it. */
  lemma MulAtLeastOne(k: int, d: int)
    requires k >= 1 && d > 0
    ensures k * d >= d
  {
    var j := k - 1;
    assert k * d == j * d + d;
  }

  /** A quotient and remainder in [0, d) are Euclid's. */
  lemma EuclideanUnique(a: int, d: int, q: int, r: int)
    requires d > 0 && 0 <= r < d && a == q * d + r
    ensures r == a % d && q == a / d
  {
    var q', r' := a / d, a % d;
    assert (q - q') * d == r' - r;
    if q > q' {
      MulAtLeastOne(q - q', d);
    } else if q < q' {
      MulAtLeastOne(q' - q, d);
    }
  }

  // ---------------------------------------------------------------------------
  // Decimal rendering of non-negative integral Numbers

  predicate IsDigit(c: char) {
    '0' <= c <= '9'
  }

  function DigitChar(n: nat): (c: char)
    requires n < 10
    ensures IsDigit(c)
  {
    ('0' as int + n) as char
  }

  function DigitValue(c: char): (n: nat)
    requires IsDigit(c)
    ensures n < 10 && DigitChar(n) == c
  {
    c as int - '0' as int
  }

  /** The value of a string of decimal digits, most significant first. */
  function DecimalValue(s: string): nat
    requires forall i :: 0 <= i < |s| ==> IsDigit(s[i])
  {
    if s == [] then 0 else DecimalValue(s[..|s| - 1]) * 10 + DigitValue(s[|s| - 1])
  }

  /** A decimal numeral as Number::toString writes one: at least one digit
      and no leading zero unless the numeral is "0". */
  predicate IsCanonicalDecimal(s: string) {
    && |s| >= 1
    && (forall i :: 0 <= i < |s| ==> IsDigit(s[i]))
    && (|s| > 1 ==> s[0] != '0')
  }

  /** String(n) for a non-negative integral Number `n` up to 2^53. (From
      1e21 on JavaScript writes exponent notation, and above 2^53 not every
      integer is a Number; callers pass a `SafeNat`.) */
  function NatToDecimal(n: nat): (s: string)
    ensures IsCanonicalDecimal(s)
    ensures DecimalValue(s) == n
  {
    if n < 10 then [DigitChar(n)]
    else
      var p := NatToDecimal(n / 10);
      var s := p + [DigitChar(n % 10)];
      assert s[..|s| - 1] == p;
      s
  }

  /** A canonical numeral with more than one digit is worth at least 10. */
  lemma {:induction false} CanonicalValueLowerBound(s: string)
    requires IsCanonicalDecimal(s) && |s| > 1
    ensures DecimalValue(s) >= 10
  {
    var p := s[..|s| - 1];
    if |p| == 1 {
      assert p[0] == s[0];
    } else {
      CanonicalValueLowerBound(p);
    }
  }

  /** Rendering inverts reading on canonical numerals. */
  lemma {:induction false} NatToDecimalOfValue(s: string)
    requires IsCanonicalDecimal(s)
    ensures NatToDecimal(DecimalValue(s)) == s
  {
    var v := DecimalValue(s);
    if |s| > 1 {
      var p := s[..|s| - 1];
      CanonicalValueLowerBound(s);
      NatToDecimalOfValue(p);
      assert v / 10 == DecimalValue(p);
      assert v % 10 == DigitValue(s[|s| - 1]);
      assert s == p + [s[|s| - 1]];
    }
  }
}
