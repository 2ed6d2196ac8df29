/** Where the exponents the bigints of the digit generator are stored with make no difference,
    and a value in a given number of digits where they do. */
module DragonLimits {
  import opened Powers
  import opened Rationals
  import opened DigitStrings
  import opened Shortest
  import opened Rounding
  import opened Dragon
  import opened DragonFormat

  /** Inverting both sides of a comparison of powers. */
  lemma InvertOrder(a: real, p: real, b: real, q: real)
    requires p > 0.0 && q > 0.0 && a * p == 1.0 && b * q == 1.0 && a < b
    ensures q < p
  {
    assert b > 0.0 by {
      if b <= 0.0 {
        RMulLe(b, 0.0, q);
      }
    }
    RMulLt(a, b, p);
    if p <= q {
      RMulLe(p, q, b);
    }
  }

  /** A value below 10^(1 - k) has a binary exponent below 1 - k. */
  lemma SmallValueExponent(fp: Fp, k: nat)
    requires fp.f > 0 && fp.e < 0 && k > 0 && ValueOf(fp) < RPow10(1 - k)
    ensures k <= 1 - fp.e
  {
    var n: nat := 0 - fp.e;
    if k > n + 1 {
      hide RPow10, RPow2;
      assert RPow2(fp.e) <= ValueOf(fp) by {
        RMulLe(1.0, fp.f as real, RPow2(fp.e));
      }
      RPow2Inverse(n);
      RPow10Split(0, k - 1);
      assert RPow10(0) == 1.0 by {
        RPow10OfNat(0);
      }
      InvertOrder(RPow2(fp.e), Pow2(n) as real, RPow10(1 - k), Pow10(k - 1) as real);
      TwosBelowTens(n);
      Pow10Monotone(n, k - 1);
    }
  }

  /** For fractions, and integral values shifted by less than a bigit, the lower end is
      compared exactly: it belongs to the interval if and only if the significand is even. */
  lemma LowerEndExact(fp: Fp, closer: bool, x: int)
    requires fp.f > 0 && (fp.e >= 0 ==> x >= 0) && ValueOf(fp) < RPow10(x + 1)
    requires fp.e < 0 || fp.e + Shift(closer) < 32
    ensures NumerStays(fp, closer, x) == LowerExp(fp, x)
  {
    if fp.e < 0 && x < 0 {
      SmallValueExponent(fp, 0 - x);
      DivLe(0 - x, Shift(closer) - fp.e, 32);
    }
  }

  lemma {:induction false} Pow5Monotone(m: nat, n: nat)
    requires m <= n
    ensures Pow5(m) <= Pow5(n)
    decreases n
  {
    if m < n {
      Pow5Monotone(m, n - 1);
    }
  }

  lemma {:induction false} Pow5Odd(n: nat)
    ensures Pow5(n) % 2 == 1
  {
    if n > 0 {
      Pow5Odd(n - 1);
      FiveTimesOdd(Pow5(n - 1));
    }
  }

  lemma FiveTimesOdd(a: nat)
    requires a % 2 == 1
    ensures (5 * a) % 2 == 1
  {
  }

  /** An integral value and half its last place reach 10^t only with many significant bits. */
  lemma ManyBits(f: nat, e: nat, t: nat)
    requires e <= t && RAtLeast(ValueOf(Fp(f, e)) + UpperGap(Fp(f, e)), RPow10(t), true)
    ensures f >= Pow5(t)
  {
    hide RPow10, RPow2, Pow5, Pow2, Pow10;
    RPow2OfNat(e);
    RPow10OfNat(t);
    RPow2Step(e - 1);
    RealProduct(f, Pow2(e));
    TenIsFiveTwos(t);
    var p, q := Pow2(e), Pow5(t);
    assert 2 * (f * p) + p >= 2 * Pow10(t);
    assert Pow10(t) >= q * p by {
      Pow2Monotone(e, t);
      MulLe(p, Pow2(t), q);
    }
    if f < q {
      MulLe(f + 1, q, p);
      MulDist(f, 1, p);
    }
  }

  /** Significands of at most 69 bits never make the test of the lower end fail. */
  lemma NoMisalignment(fp: Fp, closer: bool, x: int)
    requires 0 < fp.f < Pow5(30) && (fp.e >= 0 ==> x >= 0)
    requires RAtLeast(ValueOf(fp) + UpperGap(fp), RPow10(x - 1), true)
    ensures NumerStays(fp, closer, x) <= LowerExp(fp, x)
  {
    if fp.e >= 0 && x / 32 > fp.e / 32 {
      assert x >= 32 && x > fp.e;
      ManyBits(fp.f, fp.e, x - 1);
      Pow5Monotone(30, x - 1);
    }
  }

  lemma EvenMultiple(f: nat, k: nat)
    requires k > 0
    ensures (f * Pow2(k)) % 2 == 0
  {
    MulPull(f, 2, Pow2(k - 1));
  }

  /** f * 2^e is 10^t only if f has all of 5^t. */
  lemma PowerOfTen(f: nat, e: nat, t: nat)
    requires f * Pow2(e) == Pow10(t)
    ensures e <= t && f >= Pow5(t)
  {
    hide Pow2, Pow5, Pow10;
    TenIsFiveTwos(t);
    if e > t {
      Pow2Add(t, e - t);
      MulPull(f, Pow2(t), Pow2(e - t));
      Cancel(f * Pow2(e - t), Pow5(t), Pow2(t));
      Pow5Odd(t);
      EvenMultiple(f, e - t);
    } else {
      Pow2Add(e, t - e);
      MulPull(Pow5(t), Pow2(e), Pow2(t - e));
      Cancel(f, Pow5(t) * Pow2(t - e), Pow2(e));
      MulLe(1, Pow2(t - e), Pow5(t));
    }
  }

  lemma Cancel(a: int, b: int, c: nat)
    requires a * c == b * c && c > 0
    ensures a == b
  {
    if a < b {
      MulLt(a, b, c);
    } else if b < a {
      MulLt(b, a, c);
    }
  }

  lemma {:induction false} NegativePower(k: nat)
    requires k > 0
    ensures RPow10(0 - k) < 1.0
  {
    if k > 1 {
      NegativePower(k - 1);
    }
  }

  lemma IntegralTen(f: nat, e: nat, t: int)
    requires f > 0 && ValueOf(Fp(f, e)) == RPow10(t)
    ensures 0 <= t && e <= t && f >= Pow5(t) && f * Pow2(e) == Pow10(t)
  {
    hide RPow10, RPow2, Pow5, Pow2, Pow10;
    RPow2OfNat(e);
    RealProduct(f, Pow2(e));
    MulLe(1, f, Pow2(e));
    if t < 0 {
      NegativePower(0 - t);
    } else {
      RPow10OfNat(t);
      PowerOfTen(f, e, t);
    }
  }

  /** A ten that the estimate allows is not above it. */
  lemma TenBelow(v: real, x: int, place: int, count: int) returns (t: int)
    requires place <= x && IsTenWithin(v, place, count)
    ensures v == RPow10(t) && t <= x
  {
    var j: nat :| j < count && IsTen(v, place, j);
    t := place - j;
  }

  /** A significand of at most 69 bits or a normalized one of 113 bits, or a fraction: all values
      of floating-point types with 24, 53, 64 or 113 bits, the subnormal ones included. */
  predicate OfFloatingType(fp: Fp)
  {
    0 < fp.f && (fp.e < 0 || FewOrAllBits(fp.f))
  }

  predicate FewOrAllBits(f: nat)
  {
    f < Pow5(30) || Pow2(112) <= f < Pow2(113)
  }

  lemma FivesAndTwos()
    ensures 2 * Pow5(47) < Pow2(112) < Pow2(113) < Pow5(49)
  {
    hide Pow2, Pow5;
    LiteralPowers();
    Pow2Add(56, 56);
    Pow5Add(16, 16);
    Pow5Add(32, 15);
    Pow5Add(32, 17);
    Pow2Add(112, 1);
  }

  lemma LiteralPowers()
    ensures Pow2(1) == 2 && Pow2(56) == 0x100_0000_0000_0000
    ensures Pow5(15) == 30517578125 && Pow5(16) == 152587890625 && Pow5(17) == 762939453125
  {
    Pow2Of32();
    assert Pow2(8) == 256;
    Pow2Add(8, 8);
    Pow2Add(8, 16);
    Pow2Add(32, 24);
    assert Pow5(4) == 625;
    Pow5Add(4, 4);
    Pow5Add(8, 8);
    assert 5 * Pow5(15) == Pow5(16) && Pow5(17) == 5 * Pow5(16);
  }

  /** A power of ten with such a significand has few fives. */
  lemma FewFives(f: nat, t: nat)
    requires FewOrAllBits(f) && f >= Pow5(t)
    ensures t <= 48 && (f < Pow5(30) ==> t < 30)
  {
    hide Pow2, Pow5;
    FivesAndTwos();
    if t >= 30 {
      Pow5Monotone(30, t);
    }
    if t >= 49 {
      Pow5Monotone(30, 49);
      Pow5Monotone(49, t);
    }
  }

  lemma SameBigit(e: nat, s: nat, t: nat, x: nat)
    requires e <= t <= x && s <= 2
    requires t < 30 || t == 48 || t > e + 1
    ensures (e + s) / 32 <= x / 32
  {
  }

  /** Its exponent stays in the same bigit as the decimal one. */
  lemma TenSameBigit(f: nat, e: nat, s: nat, t: nat, x: nat)
    requires FewOrAllBits(f) && f * Pow2(e) == Pow10(t) && t <= x && s <= 2
    ensures (e + s) / 32 <= x / 32
  {
    hide Pow2, Pow5, Pow10;
    PowerOfTen(f, e, t);
    FewFives(f, t);
    if t <= e + 1 && f >= Pow5(30) {
      FewTwos(f, e, t);
      FivesAndTwos();
      if t <= 47 {
        Pow5Monotone(t, 47);
      }
    }
    SameBigit(e, s, t, x);
  }

  lemma FewTwos(f: nat, e: nat, t: nat)
    requires f * Pow2(e) == Pow10(t) && e <= t <= e + 1
    ensures f <= 2 * Pow5(t)
  {
    TenIsFiveTwos(t);
    if t == e {
      Cancel(f, Pow5(t), Pow2(e));
    } else {
      MulPull(Pow5(t), 2, Pow2(e));
      Cancel(f, 2 * Pow5(t), Pow2(e));
    }
  }

  /** The fixed mode, for the values of floating-point types: always decimal digits. */
  lemma FloatingTypeFixed(fp: Fp, closer: bool, x: int, place: int, count: int, fixed: bool,
                          text: seq<char>, exp10: int)
    requires OfFloatingType(fp) && (fp.e >= 0 ==> x >= 0) && ValueOf(fp) < RPow10(x + 1)
    requires place <= x && PrintsFixed(fp, closer, x, place, count, fixed, text, exp10)
    ensures AllDigits(text)
  {
    hide RoundedTo, AllDigits, IsTenWithin, RPow10, RPow2, Pow5, Pow2, Pow10, RoundsToPlace;
    if IsTenWithin(ValueOf(fp), place, count - 1) {
      if fp.e >= 0 {
        var t := TenBelow(ValueOf(fp), x, place, count - 1);
        IntegralTen(fp.f, fp.e, t);
        TenSameBigit(fp.f, fp.e, Shift(closer), t, x);
      } else {
        LowerEndExact(fp, closer, x);
      }
    }
  }

  /** 10^31 written as 5^31 * 2^31: two or more digits come out as a zero and a character
      that is not a digit. */
  lemma TenOverlooked(fp: Fp, count: int, fixed: bool, text: seq<char>, exp10: int)
    requires fp == Fp(Pow5(31), 31) && count >= 2
    requires PrintsFixed(fp, false, 31, 31, count, fixed, text, exp10)
    ensures ValueOf(fp) == RPow10(31) && !AllDigits(text)
  {
    hide RPow2, RPow10, Pow5, Pow2, Pow10, RoundedTo, AllDigits;
    RPow2OfNat(31);
    RPow10OfNat(31);
    TenIsFiveTwos(31);
    RealProduct(Pow5(31), Pow2(31));
    assert IsTen(ValueOf(fp), 31, 0);
    assert IsTenWithin(ValueOf(fp), 31, count - 1);
  }

  /** The characters of 10^31 in a given number of digits. */
  method PrintTen(count: nat) returns (r: Printed)
    requires count >= 2
    ensures r.Digits? && !AllDigits(r.text) && |r.text| == count && Number(r.text) >= 0
    ensures RoundedTo(RPow10(31), Decimal(Number(r.text), r.exp10), 32 - count)
  {
    hide PrintsShortest, RPow10, RPow2, Pow5, RoundedTo, AllDigits;
    var fp := Fp(4656612873077392578125, 31);
    FivesTo31();
    TenPlace();
    r := FormatDragon(fp, false, false, false, count, 31);
    TenOverlooked(fp, count, false, r.text, r.exp10);
  }

  lemma FivesTo31()
    ensures Pow5(31) == 4656612873077392578125
  {
    assert Pow5(4) == 625 && Pow5(3) == 125;
    Pow5Add(4, 4);
    Pow5Add(8, 8);
    Pow5Add(16, 8);
    Pow5Add(24, 4);
    Pow5Add(28, 3);
  }

  lemma TenPlace()
    ensures ValueOf(Fp(Pow5(31), 31)) == RPow10(31) < RPow10(32)
  {
    hide RPow2, RPow10, Pow5, Pow2, Pow10;
    RPow2OfNat(31);
    RPow10OfNat(31);
    RPow10Step(31);
    TenIsFiveTwos(31);
    RealProduct(Pow5(31), Pow2(31));
  }
}
