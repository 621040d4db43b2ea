/**
 IEEE 754 binary64 values as 64-bit patterns.

 A pattern is an unsigned integer below 2^64.  `Denote` gives the number a
 non-NaN pattern stands for (section 3.4 of IEEE 754-2019); every comparison in
 the model goes through it.  `OrderedBits` is the key encoding used by the
 ordered index.
 */
module Float64 {

  const TWO52: int := 0x10_0000_0000_0000
  const TWO63: int := 0x8000_0000_0000_0000
  const TWO64: int := 0x1_0000_0000_0000_0000

  type F64 = b: int | 0 <= b < TWO64

  const PlusZero: F64 := 0
  const MinusZero: F64 := TWO63
  /** The smallest positive number is two to the power of minus SCALE. */
  const SCALE: nat := 1074

  const QuietNaN: F64 := 0x7FF8_0000_0000_0000

  function Pow2(n: nat): (p: nat)
    ensures p >= 1
  {
    if n == 0 then 1 else 2 * Pow2(n - 1)
  }

  // ---- fields of the interchange format ----

  predicate SignBit(b: F64) { b >= TWO63 }

  function Exponent(b: F64): nat { (b / TWO52) % 2048 }

  function Fraction(b: F64): nat { b % TWO52 }

  predicate IsNaN(b: F64) { Exponent(b) == 2047 && Fraction(b) != 0 }

  predicate IsZero(b: F64) { b == PlusZero || b == MinusZero }

  // ---- the number a pattern denotes ----

  datatype Number = MinusInfinity | Finite(value: real) | PlusInfinity

  predicate Less(x: Number, y: Number) {
    match (x, y)
    case (Finite(a), Finite(b)) => a < b
    case (MinusInfinity, _) => y != MinusInfinity
    case (_, PlusInfinity) => x != PlusInfinity
    case _ => false
  }

  /** The magnitude of a finite pattern in units of 2^-1074, the smallest subnormal. */
  function Units(b: F64): nat { UnitsFrom(Exponent(b), Fraction(b)) }

  /** Each exponent past the first doubles the significand. */
  function UnitsFrom(exponent: nat, fraction: nat): nat {
    if exponent == 0 then fraction
    else if exponent == 1 then TWO52 + fraction
    else 2 * UnitsFrom(exponent - 1, fraction)
  }

  /** `x` halved `n` times. */
  function Halved(x: real, n: nat): real { if n == 0 then x else Halved(x, n - 1) / 2.0 }

  /** A number of units as a real. */
  function Magnitude(units: nat): real { Halved(units as real, SCALE) }

  function Denote(b: F64): Number
    requires !IsNaN(b)
  {
    if Exponent(b) == 2047 then if SignBit(b) then MinusInfinity else PlusInfinity
    else
      Finite(if SignBit(b) then -Magnitude(Units(b)) else Magnitude(Units(b)))
  }

  // ---- the comparison operators: false as soon as an operand is NaN ----

  predicate Lt(a: F64, b: F64) { !IsNaN(a) && !IsNaN(b) && Less(Denote(a), Denote(b)) }

  predicate Eq(a: F64, b: F64) { !IsNaN(a) && !IsNaN(b) && Denote(a) == Denote(b) }

  predicate Le(a: F64, b: F64) { Lt(a, b) || Eq(a, b) }

  // ---- f64_to_ordered_bits ----

  /** Flip the sign bit of non-negative patterns, every bit of negative ones. */
  function OrderedBits(b: F64): F64 {
    if !SignBit(b) then b + TWO63 else TWO64 - 1 - b
  }

  function Bit(n: nat, i: nat): nat { n / Pow2(i) % 2 }

  lemma {:induction false} ComplementFlipsBits(n: nat, width: nat, i: nat)
    requires n < Pow2(width) && i < width
    ensures Bit(Pow2(width) - 1 - n, i) == 1 - Bit(n, i)
    decreases width
  {
    var m := Pow2(width) - 1 - n;
    if i > 0 {
      ComplementFlipsBits(n / 2, width - 1, i - 1);
      assert m / 2 == Pow2(width - 1) - 1 - n / 2;
      HalfBit(n, i);
      HalfBit(m, i);
    }
  }

  lemma HalfBit(n: nat, i: nat)
    requires i > 0
    ensures Bit(n, i) == Bit(n / 2, i - 1)
  {
    DivDiv(n, Pow2(i - 1));
  }

  lemma DivDiv(n: nat, d: nat)
    requires d > 0
    ensures n / (2 * d) == n / 2 / d
  {
    var h := n / 2;
    var q := h / d;
    assert h == q * d + h % d;
    assert n == 2 * d * q + (2 * (h % d) + n % 2);
    QuotientUnique(n, 2 * d, q, 2 * (h % d) + n % 2);
  }

  lemma QuotientUnique(n: int, d: int, q: int, r: int)
    requires d > 0 && n == d * q + r && 0 <= r < d
    ensures n / d == q
  {
    var e := n / d - q;
    assert n == d * (n / d) + n % d;
    assert d * e == r - n % d by { assert d * e == d * (n / d) - d * q; }
    MultipleBound(d, e);
  }

  lemma MultipleBound(d: int, e: int)
    requires d > 0
    ensures e > 0 ==> d * e >= d
    ensures e < 0 ==> d * e <= -d
  {
  }

  /** Adding 2^width to a number below it sets bit `width` and changes no lower bit. */
  lemma SettingTopBit(n: nat, width: nat, i: nat)
    requires n < Pow2(width) && i <= width
    ensures Bit(n + Pow2(width), i) == if i == width then 1 else Bit(n, i)
  {
    if i == width {
      QuotientUnique(n + Pow2(width), Pow2(width), 1, n);
    } else {
      HigherPower(width, i);
      ShiftKeepsBit(n, Pow2(i), Pow2(width - i - 1));
    }
  }

  lemma HigherPower(width: nat, i: nat)
    requires i < width
    ensures Pow2(width) == Pow2(i) * (2 * Pow2(width - i - 1))
  {
    Pow2Add(i, width - i);
  }

  lemma ShiftKeepsBit(n: nat, d: nat, k: nat)
    requires d > 0
    ensures (n + d * (2 * k)) / d % 2 == n / d % 2
  {
    AddMultiple(n, d, 2 * k);
  }

  lemma AddMultiple(n: int, d: int, k: int)
    requires d > 0
    ensures (n + d * k) / d == n / d + k
  {
    assert d * (n / d + k) == d * (n / d) + d * k;
    QuotientUnique(n + d * k, d, n / d + k, n % d);
  }

  lemma {:induction false} Pow2Add(i: nat, j: nat)
    ensures Pow2(i + j) == Pow2(i) * Pow2(j)
    decreases i
  {
    if i > 0 { Pow2Add(i - 1, j); }
  }

  lemma Pow2Small()
    ensures Pow2(3) == 8 && Pow2(4) == 16 && Pow2(16) == 0x1_0000
  {
    Pow2Add(4, 4);
    Pow2Add(8, 8);
  }

  lemma Pow2Values()
    ensures Pow2(52) == TWO52 && Pow2(63) == TWO63 && Pow2(64) == TWO64
  {
    Pow2Small();
    Pow2Add(16, 16);
    Pow2Add(32, 16);
    Pow2Add(48, 4);
    Pow2Add(48, 16);
    Pow2Add(60, 3);
    Pow2Add(60, 4);
  }

  /** The arithmetic form of `OrderedBits` is the bitwise one of the source. */
  lemma OrderedBitsIsBitwise(b: F64, i: nat)
    requires i < 64
    ensures Bit(OrderedBits(b), i) ==
            if !SignBit(b) && i != 63 then Bit(b, i) else 1 - Bit(b, i)
  {
    Pow2Values();
    if SignBit(b) {
      ComplementFlipsBits(b, 64, i);
    } else {
      SettingTopBit(b, 63, i);
      if i == 63 { QuotientUnique(b, TWO63, 0, b); }
    }
  }

  // ---- order of the encoding ----

  /** The significand of a normal number times its power of two. */
  lemma {:induction false} UnitsAreScaled(exponent: nat, fraction: nat)
    requires exponent >= 1
    ensures UnitsFrom(exponent, fraction) == (TWO52 + fraction) * Pow2(exponent - 1)
  {
    if exponent > 1 { UnitsAreScaled(exponent - 1, fraction); }
  }

  lemma {:induction false} LargerFraction(exponent: nat, fa: nat, fb: nat)
    requires fa < fb
    ensures UnitsFrom(exponent, fa) < UnitsFrom(exponent, fb)
  {
    if exponent > 1 { LargerFraction(exponent - 1, fa, fb); }
  }

  lemma {:induction false} WithinOneBinade(exponent: nat, fa: nat, fb: nat)
    requires exponent >= 1 && fa < TWO52
    ensures UnitsFrom(exponent, fa) < 2 * UnitsFrom(exponent, fb)
  {
    if exponent > 1 { WithinOneBinade(exponent - 1, fa, fb); }
  }

  lemma {:induction false} LargerExponent(ea: nat, fa: nat, eb: nat, fb: nat)
    requires ea < eb && fa < TWO52
    ensures UnitsFrom(ea, fa) < UnitsFrom(eb, fb)
  {
    if ea < eb - 1 {
      LargerExponent(ea, fa, eb - 1, fb);
    } else if ea >= 1 {
      WithinOneBinade(ea, fa, fb);
    }
  }

  lemma UnitsStrictlyMonotone(a: F64, b: F64)
    requires a < b < TWO63
    ensures Units(a) < Units(b)
  {
    var ea, eb, fa, fb := Exponent(a), Exponent(b), Fraction(a), Fraction(b);
    assert a == ea * TWO52 + fa && b == eb * TWO52 + fb;
    if ea == eb { LargerFraction(ea, fa, fb); } else { LargerExponent(ea, fa, eb, fb); }
  }

  lemma {:induction false} HalvedMonotone(x: real, y: real, n: nat)
    requires x < y
    ensures Halved(x, n) < Halved(y, n)
  {
    if n > 0 { HalvedMonotone(x, y, n - 1); }
  }

  lemma {:induction false} HalvedZero(n: nat)
    ensures Halved(0.0, n) == 0.0
  {
    if n > 0 { HalvedZero(n - 1); }
  }

  /** Halving `n` times divides by two to the power of `n`. */
  lemma {:induction false} HalvedDivides(x: real, n: nat)
    ensures Halved(x, n) * Pow2(n) as real == x
  {
    if n > 0 {
      HalvedDivides(x, n - 1);
      var h, p := Halved(x, n - 1), Pow2(n - 1) as real;
      assert Pow2(n) as real == 2.0 * p;
      HalfTimesDouble(h, p);
    }
  }

  lemma HalfTimesDouble(h: real, p: real)
    ensures (h / 2.0) * (2.0 * p) == h * p
  {
  }

  /** The magnitude of a pattern does not depend on its sign bit. */
  lemma SignSplit(b: F64)
    requires SignBit(b)
    ensures Exponent(b) == Exponent(b - TWO63) && Fraction(b) == Fraction(b - TWO63)
    ensures Units(b) == Units(b - TWO63)
  {
  }

  /** Below a pattern that is not NaN, every pattern is finite. */
  lemma FiniteBelow(a: F64, b: F64)
    requires a < b < TWO63 && !IsNaN(b)
    ensures Exponent(a) < 2047
  {
    assert a == Exponent(a) * TWO52 + Fraction(a) && b == Exponent(b) * TWO52 + Fraction(b);
  }

  lemma MagnitudeMonotone(x: nat, y: nat)
    requires x < y
    ensures Magnitude(x) < Magnitude(y)
  {
    HalvedMonotone(x as real, y as real, SCALE);
  }

  lemma NonNegativeOrder(a: F64, b: F64)
    requires !IsNaN(a) && !IsNaN(b) && a < b < TWO63
    ensures Less(Denote(a), Denote(b))
  {
    UnitsStrictlyMonotone(a, b);
    FiniteBelow(a, b);
    MagnitudeMonotone(Units(a), Units(b));
  }

  lemma NegativeOrder(a: F64, b: F64)
    requires !IsNaN(a) && !IsNaN(b) && TWO63 <= a < b
    ensures Less(Denote(b), Denote(a))
  {
    SignSplit(a);
    SignSplit(b);
    NonNegativeOrder(a - TWO63, b - TWO63);
  }

  lemma PositiveMagnitude(b: F64)
    requires b < TWO63
    ensures b > 0 ==> Magnitude(Units(b)) > 0.0
    ensures b == 0 ==> Magnitude(Units(b)) == 0.0
  {
    HalvedZero(SCALE);
    if b > 0 {
      UnitsStrictlyMonotone(0, b);
      HalvedMonotone(0.0, Units(b) as real, SCALE);
    }
  }

  lemma MixedOrder(a: F64, b: F64)
    requires !IsNaN(a) && !IsNaN(b) && SignBit(a) && !SignBit(b)
    ensures Less(Denote(a), Denote(b)) || (a == MinusZero && b == PlusZero)
  {
    SignSplit(a);
    PositiveMagnitude(a - TWO63);
    PositiveMagnitude(b);
  }

  /** totalOrder restricted to non-NaN operands (section 5.10 of IEEE 754-2019). */
  predicate TotalOrder(a: F64, b: F64)
    requires !IsNaN(a) && !IsNaN(b)
  {
    Less(Denote(a), Denote(b)) || (Denote(a) == Denote(b) && (SignBit(a) || !SignBit(b)))
  }

  lemma ZeroesAreEqual()
    ensures !IsNaN(PlusZero) && !IsNaN(MinusZero) && Denote(PlusZero) == Denote(MinusZero)
  {
    SignSplit(MinusZero);
    PositiveMagnitude(PlusZero);
  }

  lemma LessIsStrict(x: Number, y: Number)
    ensures !(Less(x, y) && Less(y, x)) && (Less(x, y) ==> x != y)
    ensures Less(x, y) || Less(y, x) || x == y
  {
  }

  /** Smaller encodings are smaller numbers, except that -0 comes just before +0. */
  lemma EncodedOrder(a: F64, b: F64)
    requires !IsNaN(a) && !IsNaN(b) && OrderedBits(a) < OrderedBits(b)
    ensures Less(Denote(a), Denote(b)) || (a == MinusZero && b == PlusZero)
  {
    if SignBit(a) && SignBit(b) {
      NegativeOrder(b, a);
    } else if SignBit(a) {
      MixedOrder(a, b);
    } else {
      NonNegativeOrder(a, b);
    }
  }

  /** Equal numbers have equal patterns, the two zeroes excepted. */
  lemma EqualNumbers(a: F64, b: F64)
    requires !IsNaN(a) && !IsNaN(b) && Denote(a) == Denote(b)
    ensures a == b || (IsZero(a) && IsZero(b))
  {
    if OrderedBits(a) < OrderedBits(b) {
      EncodedOrder(a, b);
      LessIsStrict(Denote(a), Denote(b));
    } else if OrderedBits(b) < OrderedBits(a) {
      EncodedOrder(b, a);
      LessIsStrict(Denote(b), Denote(a));
    }
  }

  /** The encoding is injective and its integer order is exactly totalOrder. */
  lemma OrderedBitsIsTotalOrder(a: F64, b: F64)
    requires !IsNaN(a) && !IsNaN(b)
    ensures OrderedBits(a) == OrderedBits(b) <==> a == b
    ensures OrderedBits(a) <= OrderedBits(b) <==> TotalOrder(a, b)
  {
    ZeroesAreEqual();
    LessIsStrict(Denote(a), Denote(b));
    if OrderedBits(a) < OrderedBits(b) {
      EncodedOrder(a, b);
    } else if OrderedBits(b) < OrderedBits(a) {
      EncodedOrder(b, a);
      if Denote(a) == Denote(b) { EqualNumbers(a, b); }
    }
  }

  /** Numeric order survives the encoding; it is reflected away from zero. */
  lemma OrderedBitsFollowsNumbers(a: F64, b: F64)
    requires !IsNaN(a) && !IsNaN(b)
    ensures Lt(a, b) ==> OrderedBits(a) < OrderedBits(b)
    ensures OrderedBits(a) < OrderedBits(b) ==> Lt(a, b) || (a == MinusZero && b == PlusZero)
    ensures OrderedBits(a) <= OrderedBits(b) ==> Le(a, b)
  {
    OrderedBitsIsTotalOrder(a, b);
    OrderedBitsIsTotalOrder(b, a);
    LessIsStrict(Denote(a), Denote(b));
    ZeroesAreEqual();
    if OrderedBits(a) < OrderedBits(b) { EncodedOrder(a, b); }
  }

  /** The one pair on which `<=` and the order of the keys disagree. */
  lemma LeAgainstKeys(a: F64, b: F64)
    requires !IsNaN(a) && !IsNaN(b)
    ensures Le(a, b) <==> OrderedBits(a) <= OrderedBits(b) || (a == PlusZero && b == MinusZero)
  {
    OrderedBitsFollowsNumbers(a, b);
    ZeroesAreEqual();
    if Eq(a, b) { EqualNumbers(a, b); }
  }

  lemma EqAgainstKeys(a: F64, b: F64)
    requires !IsNaN(a) && !IsNaN(b)
    ensures Eq(a, b) <==> a == b || (IsZero(a) && IsZero(b))
  {
    ZeroesAreEqual();
    if Eq(a, b) { EqualNumbers(a, b); }
  }
}
