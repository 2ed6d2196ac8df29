/** The whole routine on single values: where it prints something else than its documentation
    says, and one whose shortest decimal is an end of its interval. */
module DragonMisses {
  import opened Powers
  import opened Rationals
  import opened DigitStrings
  import opened Shortest
  import opened Rounding
  import opened Dragon
  import opened DragonFormat
  import opened DragonLimits
  import opened LowerEnds

  lemma TenLiterals()
    ensures Pow10(9) == 1000000000 && Pow10(10) == 10000000000
    ensures Pow10(26) == 100000000000000000000000000 && Pow10(27) == 1000000000000000000000000000
    ensures Pow10(4) == 10000 && Pow10(28) == 10000000000000000000000000000 && Pow10(29) == 100000000000000000000000000000
    ensures Pow10(22) == 10000000000000000000000
    ensures Pow10(30) == 1000000000000000000000000000000
    ensures Pow10(31) == 10000000000000000000000000000000
    ensures Pow10(43) == 10000000000000000000000000000000000000000000
    ensures Pow10(44) == 100000000000000000000000000000000000000000000
  {
    hide Pow10;
    SmallTens();
    Pow10Add(5, 5);
    Pow10Add(10, 10);
    Pow10Add(20, 2);
    Pow10Add(20, 10);
    Pow10Add(20, 9);
    Pow10Add(20, 8);
    Pow10Add(20, 7);
    Pow10Add(20, 6);
    Pow10Add(5, 1);
    Pow10Add(5, 2);
    Pow10Add(4, 4);
    Pow10Add(30, 1);
    Pow10Add(31, 2);
    Pow10Add(33, 10);
    Pow10Add(43, 1);
    Pow10Add(4, 5);
  }

  lemma SmallTens()
    ensures Pow10(1) == 10 && Pow10(2) == 100 && Pow10(4) == 10000 && Pow10(5) == 100000
  {
  }

  lemma TwoLiterals()
    ensures Pow2(1) == 2 && Pow2(26) == 67108864 && Pow2(27) == 134217728 && Pow2(29) == 536870912 && Pow2(30) == 1073741824 && Pow2(31) == 2147483648 && Pow2(32) == 4294967296
  {
    Pow2Of32();
    assert Pow2(32) == 2 * Pow2(31) && Pow2(31) == 2 * Pow2(30) && Pow2(30) == 2 * Pow2(29);
    assert Pow2(29) == 2 * Pow2(28) && Pow2(28) == 2 * Pow2(27) && Pow2(27) == 2 * Pow2(26);
  }

  /** The first place is known from where the upper end lies. */
  lemma PlacedAt(fp: Fp, place: int, at: int)
    requires Placed(fp, place) && RPow10(at) < ValueOf(fp) + UpperGap(fp) < RPow10(at + 1)
    ensures place == at
  {
    hide RPow10, ValueOf, UpperGap;
    RPow10Order(place, at + 1);
    RPow10Order(at, place + 1);
  }

  /** The upper end as an integer, compared with powers of ten. */
  lemma TopBetween(fp: Fp, closer: bool, at: nat)
    requires fp.f > 0 && fp.e >= Shift(closer)
    requires Pow10(at) < LowerEnd(fp, closer) + Width(fp, closer) < Pow10(at + 1)
    ensures RPow10(at) < ValueOf(fp) + UpperGap(fp) < RPow10(at + 1)
    ensures ValueOf(fp) < RPow10(at + 1)
  {
    hide RPow10, Pow10, ValueOf, LowerGap, UpperGap, LowerEnd, Width, LowerDistance, Places;
    LargeIntegral(fp, closer);
    GapAbove(fp);
    RPow10OfNat(at);
    RPow10OfNat(at + 1);
  }

  // ----- an even significand whose lower end is left out -----

  /** A double whose interval starts with 3584 * 10^22. */
  function Boundary(): Fp { Fp(8344650268554688, 32) }

  lemma BoundaryNumbers()
    ensures Boundary().f % 2 == 0
    ensures LowerEnd(Boundary(), false) == 35840000000000000000000000
    ensures LowerDistance(Boundary(), false) == 2147483648 && Width(Boundary(), false) == 4294967296
  {
    hide Pow2;
    TwoLiterals();
  }

  /** Strictly above the start the best multiple of a power of ten has 17 digits. */
  lemma BoundaryChosen(m: nat, x: nat)
    requires Chosen(35840000000000000000000000, 2147483648, 4294967296, false, true, m, x)
    ensures m == 35840000000000002 && x == 9
  {
    hide Pow10;
    TenLiterals();
    assert In(35840000000000000000000000, 4294967296, false, true, Ten(35840000000000002, 9));
    assert x >= 9;
    MultipleOf(m, x, if x >= 10 then 10 else 9);
    assert x == 9;
    assert Ten(m, 9) == m * 1000000000;
    var v := 35840000000000000000000000 + 2147483648;
    assert Abs(Ten(m, x) - v) <= Abs(Ten(35840000000000002, x) - v);
  }

  /** With the estimate the caller makes, or an exact one, seventeen digits are printed although
      the interval includes its lower end, a decimal of four. */
  lemma LowerEndMissed(x: int, text: seq<char>, exp10: int)
    requires 25 <= x <= 26 && PrintsShortest(Boundary(), false, x, text, exp10)
    ensures Number(text) == 35840000000000002 && exp10 == 9 && |text| == 17
    ensures Boundary().f % 2 == 0 && Decimal(3584, 22) == ValueOf(Boundary()) - LowerGap(Boundary(), false)
  {
    hide RPow10, RPow2, Pow10, Pow2, Places, Chosen, IsShortest, Placed, ValueOf, UpperGap, LowerGap, LowerEnd, Width;
    hide LowerDistance, Number, AllDigits, ZeroFollows;
    BoundaryPlace();
    BoundaryNumbers();
    assert NoZeroFollows(Boundary(), false, x) by {
      NotStoredAbove(Boundary(), false, x);
    }
    assert !IncludesLow(Boundary(), false, x);
    PlacedAt(Boundary(), exp10 + |text| - 1, 25);
    ReachesPlaces(Boundary(), false, false, Number(text), exp10, |text| - 1);
    ShortestIsChosen(Boundary(), false, false, Number(text), exp10, |text| - 1);
    BoundaryChosen(Number(text), exp10);
    LargeExponent(Boundary(), false);
    TenLiterals();
    TenAtReal(3584, 22);
  }

  lemma NotStoredAbove(fp: Fp, closer: bool, x: int)
    requires (fp.e >= 0 ==> x >= 0) && NumerStays(fp, closer, x) <= LowerExp(fp, x)
    ensures NoZeroFollows(fp, closer, x)
  {
  }

  lemma BoundaryPlace()
    ensures RPow10(25) < ValueOf(Boundary()) + UpperGap(Boundary()) < RPow10(26)
  {
    hide Pow10, LowerEnd, Width, ValueOf, UpperGap, RPow10;
    BoundaryNumbers();
    TenLiterals();
    assert Pow10(25) == 10000000000000000000000000 && Pow10(26) == 100000000000000000000000000 by {
      SmallTens();
      Pow10Add(22, 2);
      Pow10Add(24, 1);
      Pow10Add(25, 1);
    }
    TopBetween(Boundary(), false, 25);
  }

  /** The digits of that double, in the shortest mode as it is called. */
  method PrintBoundary() returns (r: Printed)
    ensures r.Digits? && Number(r.text) == 35840000000000002 && r.exp10 == 9 && |r.text| == 17
    ensures Decimal(3584, 22) == ValueOf(Boundary()) - LowerGap(Boundary(), false)
  {
    hide PrintsShortest, PrintsFixed, RPow10, RPow2, ValueOf, UpperGap, LowerGap;
    BoundaryPlace();
    BoundaryNumbers();
    RPow10Step(26);
    r := FormatDragon(Boundary(), false, true, false, -1, 26);
    LowerEndMissed(26, r.text, r.exp10);
  }

  // ----- an odd significand whose lower end is printed -----

  /** An odd significand of 113 bits, (11200000000061 * 5^30 + 1) / 2. */
  function OddBoundary(): Fp { Fp(5215406417875085026025772094726563, 31) }

  lemma OddNumbers()
    ensures OddBoundary().f % 2 == 1
    ensures LowerEnd(OddBoundary(), false) == 11200000000061000000000000000000000000000000
    ensures LowerDistance(OddBoundary(), false) == 1073741824 && Width(OddBoundary(), false) == 2147483648
  {
    hide Pow2;
    TwoLiterals();
  }

  lemma OddWins()
    ensures LowerEndWins(OddBoundary(), false)
  {
    hide Pow2, Pow10, Places, LowerEnd, Width, LowerDistance;
    OddNumbers();
    assert Places(2147483648) == 10 by {
      TenLiterals();
      PlacesIs(2147483648, 10);
    }
    TenLiterals();
  }

  lemma PlacesIs(n: nat, y: nat)
    requires y > 0 && Pow10(y - 1) <= n < Pow10(y)
    ensures Places(n) == y
  {
    hide Pow10;
    if Places(n) < y {
      Pow10Monotone(Places(n), y - 1);
    } else if y < Places(n) {
      Pow10Monotone(y, Places(n) - 1);
    }
  }

  /** The lower end does not belong to the interval, and it is what is printed. */
  lemma LowerEndPrinted(text: seq<char>, exp10: int)
    requires PrintsShortest(OddBoundary(), false, 44, text, exp10)
    ensures Number(text) == 11200000000061 && exp10 == 30 && |text| == 14
    ensures OddBoundary().f % 2 == 1
    ensures Decimal(11200000000061, 30) == ValueOf(OddBoundary()) - LowerGap(OddBoundary(), false)
  {
    hide RPow10, RPow2, Pow10, Pow2, Places, Chosen, IsShortest, Placed, ValueOf, UpperGap, LowerGap, LowerEnd, Width;
    hide LowerDistance, Number, AllDigits, ZeroFollows, LowerEndWins, Decimal;
    OddPlace();
    OddNumbers();
    assert NoZeroFollows(OddBoundary(), false, 44) by {
      OddNotDigit();
    }
    assert IncludesLow(OddBoundary(), false, 44);
    PlacedAt(OddBoundary(), exp10 + |text| - 1, 43);
    ReachesPlaces(OddBoundary(), false, true, Number(text), exp10, |text| - 1);
    ShortestIsChosen(OddBoundary(), false, true, Number(text), exp10, |text| - 1);
    EndTaken(OddBoundary(), false, Number(text), exp10, |text| - 1);
    OddWins();
    LargeExponent(OddBoundary(), false);
    TenAtReal(Number(text), exp10);
    OddChosen(Number(text), exp10);
  }

  lemma OddChosen(m: nat, x: nat)
    requires Chosen(11200000000061000000000000000000000000000000, 1073741824, 2147483648, true, false, m, x)
    requires Ten(m, x) == 11200000000061000000000000000000000000000000
    ensures m == 11200000000061 && x == 30
  {
    hide Pow10;
    TenLiterals();
    assert In(11200000000061000000000000000000000000000000, 2147483648, true, false, Ten(11200000000061, 30));
    assert x >= 30;
    MultipleOf(m, x, if x >= 31 then 31 else 30);
    assert x == 30;
    assert Ten(m, 30) == m * 1000000000000000000000000000000;
  }

  lemma OddNotDigit()
    ensures NoZeroFollows(OddBoundary(), false, 44)
  {
    hide RPow10, ValueOf, UpperGap;
    OddPlace();
    GapAbove(OddBoundary());
    forall d: nat
      ensures !ZeroFollows(OddBoundary(), false, 44, d)
    {
      if d > 0 {
        DigitNotBelow(d, 44);
      }
    }
  }

  lemma OddPlace()
    ensures RPow10(43) < ValueOf(OddBoundary()) + UpperGap(OddBoundary()) < RPow10(44)
  {
    hide Pow10, LowerEnd, Width, ValueOf, UpperGap, RPow10;
    OddNumbers();
    TenLiterals();
    TopBetween(OddBoundary(), false, 43);
  }

  method PrintOddBoundary() returns (r: Printed)
    ensures r.Digits? && Number(r.text) == 11200000000061 && r.exp10 == 30 && |r.text| == 14
    ensures Decimal(11200000000061, 30) == ValueOf(OddBoundary()) - LowerGap(OddBoundary(), false)
  {
    hide PrintsShortest, PrintsFixed, RPow10, RPow2, ValueOf, UpperGap, LowerGap, Decimal;
    OddPlace();
    OddNumbers();
    RPow10Step(44);
    r := FormatDragon(OddBoundary(), false, true, false, -1, 44);
    LowerEndPrinted(r.text, r.exp10);
  }

  // ----- a digit with a needless zero -----

  /** 2 * 10^43, as 2^13 * 5^43 * 2^31. */
  function TwoTens(): Fp { Fp(9313225746154785156250000000000000, 31) }

  lemma TwoTensValue()
    ensures ValueOf(TwoTens()) == Decimal(2, 43)
    ensures LowerEnd(TwoTens(), false) + Width(TwoTens(), false) == 20000000000000000000000000000000001073741824
  {
    hide Pow10, Pow2, RPow2, RPow10;
    TwoLiterals();
    TenLiterals();
    RPow2OfNat(31);
    RPow10OfNat(43);
  }

  /** With an exact estimate the digit 2 is printed with a zero, although it is the value. */
  method PrintTwoTens() returns (r: Printed)
    ensures r == Digits("20", 42) && ValueOf(TwoTens()) == Decimal(2, 43)
  {
    hide PrintsFixed, RPow10, RPow2, ValueOf, UpperGap, LowerGap, Decimal, Placed, LowerEnd, Width, IsShortest;
    TwoTensValue();
    TenLiterals();
    TopBetween(TwoTens(), false, 43);
    RPow10Step(42);
    r := FormatDragon(TwoTens(), false, true, false, -1, 43);
    assert ZeroFollows(TwoTens(), false, 43, 2);
  }

  // ----- a leading zero in a given number of digits -----

  /** The 64-bit significand nearest to 10^28, which is 2^28 less. */
  function BelowTen(): Fp { Fp(9313225746154785156, 30) }

  lemma BelowTenNumbers()
    ensures ValueOf(BelowTen()) == 9999999999999999999731564544.0
    ensures LowerEnd(BelowTen(), false) + Width(BelowTen(), false) == 10000000000000000000268435456
    ensures RPow10(4) == 10000.0 && RPow10(28) == 10000000000000000000000000000.0
  {
    hide Pow10, Pow2, RPow2, RPow10;
    TwoLiterals();
    TenLiterals();
    RPow2OfNat(30);
    RPow10OfNat(4);
    RPow10OfNat(28);
  }

  lemma BelowTenPlace()
    ensures RPow10(28) < ValueOf(BelowTen()) + UpperGap(BelowTen()) < RPow10(29) && ValueOf(BelowTen()) < RPow10(29)
  {
    hide Pow10, LowerEnd, Width, ValueOf, UpperGap, RPow10;
    BelowTenNumbers();
    TenLiterals();
    TopBetween(BelowTen(), false, 28);
  }

  lemma BelowTenNearest()
    ensures IsRounded(ValueOf(BelowTen()), 999999999999999999973156, 4)
  {
    hide RPow10, ValueOf;
    BelowTenNumbers();
  }

  /** Rounded at the last of 25 places from the 28th on it has 24 digits. */
  lemma BelowTenRounded(m: int, y: int)
    requires m >= 0 && 4 <= y <= 5 && RoundedTo(ValueOf(BelowTen()), Decimal(m, y), 4)
    ensures m == 999999999999999999973156 && y == 4
  {
    hide RPow10, ValueOf, IsRounded, Decimal;
    var p: nat :| IsRounded(ValueOf(BelowTen()), p, 4) && Decimal(m, y) == Decimal(p, 4);
    BelowTenNearest();
    RoundedUnique(ValueOf(BelowTen()), p, 999999999999999999973156, 4);
    SameDecimal(m, y);
  }

  lemma SameDecimal(m: nat, y: int)
    requires 4 <= y <= 5 && Decimal(m, y) == Decimal(999999999999999999973156, 4)
    ensures m == 999999999999999999973156 && y == 4
  {
    hide RPow10;
    BelowTenNumbers();
    RPow10Step(4);
  }

  /** In 25 digits, with the estimate the caller makes, the first one is a zero. */
  method PrintBelowTen() returns (r: Printed)
    ensures r.Digits? && |r.text| == 25 && AllDigits(r.text) && r.text[0] == '0'
    ensures Number(r.text) == 999999999999999999973156 && r.exp10 == 4
  {
    hide PrintsShortest, RPow10, RPow2, Pow5, ValueOf, UpperGap, AllDigits, RoundedTo, Number, IsTenWithin;
    BelowTenNumbers();
    BelowTenPlace();
    r := FormatDragon(BelowTen(), false, true, false, 25, 28);
    BelowTenRounded(Number(r.text), r.exp10);
    SixtyFourBits();
    FloatingTypeFixed(BelowTen(), false, 28, 28, 25, false, r.text, r.exp10);
  }

  lemma SixtyFourBits()
    ensures OfFloatingType(BelowTen())
  {
    hide Pow5;
    LiteralPowers();
    Pow5Add(15, 15);
  }

  // ----- an even significand whose upper end is printed -----

  /** 1.3 * 10^27 as a long double, an even significand that is no multiple of four. Its interval
      ends exactly there. */
  function Thirteen(): Fp { Fp(9685754776000976562, 27) }

  lemma ThirteenNumbers()
    ensures LowerEnd(Thirteen(), false) == 1299999999999999999865782272
    ensures LowerDistance(Thirteen(), false) == 67108864 && Width(Thirteen(), false) == 134217728
  {
    hide Pow2;
    TwoLiterals();
  }

  lemma ThirteenPlace()
    ensures RPow10(27) < ValueOf(Thirteen()) + UpperGap(Thirteen()) < RPow10(28) && ValueOf(Thirteen()) < RPow10(28)
  {
    hide Pow10, LowerEnd, Width, ValueOf, UpperGap, RPow10;
    ThirteenNumbers();
    TenLiterals();
    TopBetween(Thirteen(), false, 27);
  }

  /** Only 13 * 10^26 has as few digits. */
  lemma ThirteenShortest(m: nat, x: int, k: nat)
    requires IsShortest(ValueOf(Thirteen()), LowerGap(Thirteen(), false), UpperGap(Thirteen()), true, true, m, x, k)
    requires x + k == 27
    ensures m == 13 && k == 1
  {
    hide RPow10, Pow10, Pow2, ValueOf, LowerGap, UpperGap, LowerEnd, LowerDistance, Width, Between, RAbs;
    var v, rlo, rhi := ValueOf(Thirteen()), LowerGap(Thirteen(), false), UpperGap(Thirteen());
    ThirteenNumbers();
    LargeIntegral(Thirteen(), false);
    TenLiterals();
    InAtReal(v, rlo, rhi, 1299999999999999999865782272, 67108864, 134217728, true, true, 13, 26);
    assert Between(Decimal(13, 26), v, rlo, rhi, true, true);
    if k > 1 {
      ThreeDigits(k);
    }
    InAtReal(v, rlo, rhi, 1299999999999999999865782272, 67108864, 134217728, true, true, m, x);
    assert Ten(m, x) == if x == 26 then m * 100000000000000000000000000 else m * 1000000000000000000000000000;
  }

  lemma ThreeDigits(k: nat)
    requires k >= 2
    ensures Pow10(k) >= 100
  {
    Pow10Monotone(2, k);
    assert Pow10(2) == 100;
  }

  lemma ThirteenText(text: seq<char>)
    requires AllDigits(text) && |text| == 2 && Number(text) == 13
    ensures text == "13"
  {
    assert text[..1] == [text[0]] && text[..1][..0] == [];
  }

  /** The shortest mode as it is called prints that end. */
  method PrintThirteen() returns (r: Printed)
    ensures r == Digits("13", 26) && Thirteen().f % 2 == 0
    ensures Decimal(13, 26) == ValueOf(Thirteen()) + UpperGap(Thirteen())
  {
    hide PrintsFixed, RPow10, RPow2, ValueOf, UpperGap, LowerGap, Decimal, Placed, LowerEnd, Width, LowerDistance;
    hide IsShortest, ZeroFollows, Number, AllDigits, Pow10, Pow2;
    ThirteenPlace();
    RPow10Step(27);
    RPow10Step(28);
    r := FormatDragon(Thirteen(), false, true, false, -1, 28);
    PlacedAt(Thirteen(), r.exp10 + |r.text| - 1, 27);
    LowerEndExact(Thirteen(), false, 28);
    NotStoredAbove(Thirteen(), false, 28);
    ThirteenShortest(Number(r.text), r.exp10, |r.text| - 1);
    ThirteenText(r.text);
    ThirteenNumbers();
    LargeIntegral(Thirteen(), false);
    TenLiterals();
    TenAtReal(13, 26);
  }
}
