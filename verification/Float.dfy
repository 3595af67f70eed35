/**
  float_i2f of bits.c: the single-precision pattern of a 32-bit integer. A pattern has its sign in bit 31, eight bits of
  biased exponent from bit 23 and 23 bits of fraction (section 3.4 of IEEE 754-2008).
 */
module Float {
  import opened Powers
  import opened Rounding

  const P: nat := 24

  function Exponent(r: nat): nat {
    r / 0x80_0000 % 256
  }

  function Fraction(r: nat): nat {
    r % 0x80_0000
  }

  predicate Finite(r: nat) {
    r < 0x1_0000_0000 && Exponent(r) < 255
  }

  // The stored significand and the power of two it is scaled by; subnormals have no hidden digit.
  function Digits(r: nat): nat {
    if Exponent(r) == 0 then Fraction(r) else 0x80_0000 + Fraction(r)
  }

  function Power(r: nat): int {
    (if Exponent(r) == 0 then 1 else Exponent(r)) - 150
  }

  function Halved(x: real, k: nat): real {
    if k == 0 then x else Halved(x, k - 1) / 2.0
  }

  // q * 2^e
  function RealScaled(q: nat, e: int): real {
    if e >= 0 then Scaled(q, e) as real else Halved(q as real, -e)
  }

  function Magnitude(r: nat): real {
    RealScaled(Digits(r), Power(r))
  }

  function Value(r: nat): real {
    if r >= 0x8000_0000 then -Magnitude(r) else Magnitude(r)
  }

  function Abs(x: int): nat {
    if x < 0 then -x else x
  }

  function RoundInt(x: int): int {
    if x < 0 then -(Round(-x, P) as int) else Round(x, P)
  }

  predicate IsInt32(x: int) {
    -0x8000_0000 <= x < 0x8000_0000
  }

  // Pattern r is the integer x rounded to 24 digits.
  ghost predicate Converts(x: int, r: nat) {
    && Finite(r) && (r >= 0x8000_0000 <==> x < 0)
    && Value(r) == RoundInt(x) as real
    && (Bits(Abs(x)) > P ==> r % 2 == Significand(Abs(x), P) % 2)
  }

  method FloatI2F(x: int) returns (r: nat)
    requires IsInt32(x)
    ensures Converts(x, r)
  {
    hide Significand, Bits, Converts, Excess, Pow2;
    var sign, t := 0, x;
    if x < 0 {
      sign := 0x8000_0000;
      t := -x;
    }
    var b, s, f := Normalize(t, P);
    var exponent: int := b;
    if b == 0 {
      exponent := -126;
    }
    FieldsInRange(t, b);
    r := sign + Scaled(f, s) % 0x80_0000 + (exponent + 126) * 0x80_0000;
    Packed(x, t, sign, b, s, f, r);
  }

  lemma Constants()
    ensures Pow2(23) == 0x80_0000 && Pow2(24) == 0x100_0000 && Pow2(32) == 0x1_0000_0000
  {
    assert Pow2(8) == 256;
    Pow2Adds(8, 8);
    Pow2Adds(8, 16);
    Pow2Adds(8, 24);
    assert Pow2(24) == 2 * Pow2(23);
  }

  lemma FieldsInRange(t: nat, b: nat)
    requires t <= 0x8000_0000 && b <= Bits(t) + 1
    ensures b <= 33 && (Bits(t) == 0 <==> t == 0)
  {
    Constants();
    BitsFit(t, 32);
  }

  // Packing puts each field where decoding finds it, and their value is that of the rounded integer.
  lemma Packed(x: int, t: nat, sign: nat, b: nat, s: nat, f: nat, r: nat)
    requires IsInt32(x) && t == Abs(x) && sign == (if x < 0 then 0x8000_0000 else 0)
    requires f == Significand(t, P) && s == (if Bits(t) < P then P - Bits(t) else 0)
    requires b == Bits(t) + (if f == Pow2(P) then 1 else 0)
    requires r == sign + Scaled(f, s) % 0x80_0000 + (if b == 0 then 0 else b + 126) * 0x80_0000
    ensures Converts(x, r)
  {
    hide Bits, Significand, Pow2, RealScaled, Scaled, Exponent, Fraction, Round;
    FieldsInRange(t, b);
    var frac := Scaled(f, s) % 0x80_0000;
    Unpacked(sign, if b == 0 then 0 else b + 126, frac);
    PackedMagnitude(t, b, s, f, frac);
  }

  lemma Unpacked(sign: nat, e: nat, frac: nat)
    requires (sign == 0 || sign == 0x8000_0000) && e < 255 && frac < 0x80_0000
    ensures var r := sign + frac + e * 0x80_0000;
      Finite(r) && Exponent(r) == e && Fraction(r) == frac && (r >= 0x8000_0000 <==> sign == 0x8000_0000) && r % 2 == frac % 2
  {
  }

  lemma PackedMagnitude(t: nat, b: nat, s: nat, f: nat, frac: nat)
    requires f == Significand(t, P) && s == (if Bits(t) < P then P - Bits(t) else 0)
    requires b == Bits(t) + (if f == Pow2(P) then 1 else 0) && frac == Scaled(f, s) % 0x80_0000
    ensures b > 0 ==> RealScaled(0x80_0000 + frac, b - P) == Round(t, P) as real
    ensures b == 0 ==> RealScaled(frac, 1 - 150) == Round(t, P) as real
    ensures Bits(t) > P ==> frac % 2 == f % 2
  {
    hide Bits, Significand, Pow2;
    Constants();
    SignificandRange(t, P);
    if Bits(t) <= P {
      RoundIsExact(t, P);
      if b > 0 {
        ShiftedUp(t, s);
      } else {
        assert t == 0 by { BitsFit(t, 0); }
        ScaledZero(s);
        HalvedZero(149);
      }
    } else {
      ShortAndCarried(f, Excess(t, P));
    }
  }

  // A short number is shifted up until its first digit is the hidden one.
  lemma ShiftedUp(t: nat, s: nat)
    requires 1 <= Bits(t) <= P && s == P - Bits(t)
    ensures 0x80_0000 + Scaled(t, s) % 0x80_0000 == Scaled(t, s)
    ensures RealScaled(Scaled(t, s), -(s as int)) == t as real
  {
    hide Bits, Pow2, Scaled;
    Constants();
    ScaledPow2(Bits(t) - 1, s);
    ScaledPow2(Bits(t), s);
    BitsFit(t, Bits(t) - 1);
    BitsFit(t, Bits(t));
    ScaledMonotone(Pow2(Bits(t) - 1), t, s);
    ScaledMonotone(t + 1, Pow2(Bits(t)), s);
    ScaledNext(t, s);
    HalvedScaled(t, s);
    if s == 0 {
      ScaledNotAtAll(Scaled(t, s));
    }
  }

  lemma ScaledNotAtAll(q: nat)
    ensures Scaled(q, 0) == q && Halved(q as real, 0) == q as real
  {
  }

  // Halving undoes scaling.
  lemma {:induction false} HalvedScaled(q: nat, k: nat)
    ensures Halved(Scaled(q, k) as real, k) == q as real
  {
    if k > 0 {
      HalvedScaled(q, k - 1);
      HalvedDifference(Scaled(q, k) as real, Scaled(q, k - 1) as real, k - 1);
    }
  }

  lemma {:induction false} HalvedDifference(x: real, y: real, k: nat)
    ensures Halved(x - y, k) == Halved(x, k) - Halved(y, k)
    ensures x < y ==> Halved(x, k) < Halved(y, k)
  {
    if k > 0 { HalvedDifference(x, y, k - 1); }
  }

  // Without a shift the significand has its hidden digit, or it is 2^24, whose fraction is 0.
  lemma ShortAndCarried(f: nat, k: nat)
    requires 0x80_0000 <= f <= 0x100_0000
    ensures Scaled(f, 0) == f
    ensures f < 0x100_0000 ==> 0x80_0000 + f % 0x80_0000 == f && RealScaled(f, k) == Scaled(f, k) as real
    ensures f == 0x100_0000 ==> f % 0x80_0000 == 0 && RealScaled(0x80_0000, k + 1) == Scaled(f, k) as real
    ensures f % 0x80_0000 % 2 == f % 2
  {
    ScaledSum(0x80_0000, 0x80_0000, k);
  }

  // ----- what the conversion promises -----

  function Gap(v: real, x: int): real {
    if v < x as real then x as real - v else v - x as real
  }

  // No single-precision number is nearer to x, and if another is as near the result has an even significand.
  lemma ConversionIsNearest(x: int, r: nat, other: nat)
    requires Converts(x, r) && Finite(other)
    ensures Gap(Value(r), x) <= Gap(Value(other), x)
    ensures Value(other) != Value(r) && Gap(Value(other), x) == Gap(Value(r), x) ==> r % 2 == 0
  {
    hide Round, Significand, Bits, Magnitude, Pow2, Exponent;
    MagnitudeIsNearest(Abs(x), other);
    ZeroIsNoNearer(Abs(x));
    RoundIsExact(Abs(x), P);
    RealDistance(Round(Abs(x), P), Abs(x));
  }

  lemma RealDistance(v: nat, m: nat)
    ensures Gap(v as real, m) == Distance(v, m) as real
  {
  }

  lemma ZeroIsNoNearer(m: nat)
    ensures Distance(Round(m, P), m) <= m
    ensures Round(m, P) != 0 && Distance(Round(m, P), m) == m ==> Significand(m, P) % 2 == 0
  {
    ScaledZero(0);
    assert Representable(0, P);
    RoundIsNearest(m, P, 0);
  }

  lemma MagnitudeIsNearest(m: nat, r: nat)
    requires Finite(r)
    ensures Magnitude(r) >= 0.0
    ensures Gap(Round(m, P) as real, m) <= Gap(Magnitude(r), m)
    ensures Magnitude(r) != Round(m, P) as real && Gap(Magnitude(r), m) == Gap(Round(m, P) as real, m)
            ==> Significand(m, P) % 2 == 0
  {
    hide Round, Significand;
    Constants();
    var q, e := Digits(r), Power(r);
    assert q < Pow2(P);
    if e >= 0 {
      assert Representable(Scaled(q, e), P);
      RoundIsNearest(m, P, Scaled(q, e));
    } else {
      RoundIsNearestFraction(m, P, q, -e);
      FractionGap(Round(m, P), m, q, -e);
    }
  }

  // Comparing gaps of a fraction is comparing them after multiplying by the denominator.
  lemma FractionGap(v: nat, m: nat, q: nat, k: nat)
    ensures var u := Halved(q as real, k);
      && u >= 0.0
      && (Scaled(Distance(v, m), k) <= Distance(q, Scaled(m, k)) ==> Gap(v as real, m) <= Gap(u, m))
      && (Gap(u, m) == Gap(v as real, m) ==> Distance(q, Scaled(m, k)) == Scaled(Distance(v, m), k))
      && (q == Scaled(v, k) ==> u == v as real)
  {
    hide Halved, Scaled, Gap, Distance;
    HalvedZero(k);
    HalvedDifference(0.0, q as real, k);
    HalvedScaled(v, k);
    HalvedGap(q, m, k);
    HalvedGap(Scaled(v, k), m, k);
    ScaledDistance(v, m, k);
    HalvedOrder(Scaled(Distance(v, m), k), Distance(q, Scaled(m, k)), k);
  }

  lemma {:induction false} HalvedZero(k: nat)
    ensures Halved(0.0, k) == 0.0
  {
    if k > 0 { HalvedZero(k - 1); }
  }

  lemma HalvedOrder(a: nat, b: nat, k: nat)
    ensures a <= b <==> Halved(a as real, k) <= Halved(b as real, k)
    ensures a == b <==> Halved(a as real, k) == Halved(b as real, k)
  {
    HalvedDifference(a as real, b as real, k);
    HalvedDifference(b as real, a as real, k);
  }

  lemma HalvedGap(q: nat, m: nat, k: nat)
    ensures Gap(Halved(q as real, k), m) == Halved(Distance(q, Scaled(m, k)) as real, k)
  {
    hide Scaled, Halved;
    var n := Scaled(m, k);
    HalvedScaled(m, k);
    HalvedDifference(q as real, n as real, k);
    HalvedDifference(n as real, q as real, k);
    assert (n - q) as real == n as real - q as real && (q - n) as real == q as real - n as real;
  }

  lemma ConversionIsMonotone(x: int, y: int, r: nat, w: nat)
    requires Converts(x, r) && Converts(y, w) && x <= y
    ensures Value(r) <= Value(w)
  {
    if x >= 0 {
      RoundIsMonotone(x, y, P);
    } else if y < 0 {
      RoundIsMonotone(-y, -x, P);
    }
  }

  // The conversion is exact for the integers that have at most 24 significant digits, and only for them.
  lemma ConversionIsExact(x: int, r: nat)
    requires Converts(x, r)
    ensures Value(r) == x as real <==> Representable(Abs(x), P)
    ensures Abs(x) <= 0x100_0000 ==> Value(r) == x as real
  {
    Constants();
    RoundIsExact(Abs(x), P);
    RoundIsIdentity(Abs(x), P);
    if Abs(x) == Pow2(P) {
      ScaledPow2(23, 1);
    }
  }
}
