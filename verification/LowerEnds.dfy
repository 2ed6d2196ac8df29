/** Exactly when the digit generator prints a shortest decimal of the documented interval, which
    includes both ends if the significand is even and neither if it is odd. */
module LowerEnds {
  import opened Powers
  import opened Rationals
  import opened DigitStrings
  import opened Shortest
  import opened Dragon
  import opened DragonFormat
  import opened DragonLimits

  /** The number of decimal places of n, or the least power of ten above it. */
  function Places(n: nat): (y: nat)
    ensures n < Pow10(y) && (y > 0 ==> Pow10(y - 1) <= n)
  {
    if n == 0 then 0 else Places(n / 10) + 1
  }

  // ----- the condition, on the significand and the exponent -----

  /** The distance to the lower end, the lower end, and the width of the interval, all
      integral unless the exponent is very small. */
  function LowerDistance(fp: Fp, closer: bool): (lo: nat)
    requires fp.e >= Shift(closer)
    ensures lo > 0
  {
    Pow2(fp.e - Shift(closer))
  }

  function LowerEnd(fp: Fp, closer: bool): nat
    requires fp.f > 0 && fp.e >= Shift(closer)
  {
    (fp.f * Pow2(Shift(closer)) - 1) * LowerDistance(fp, closer)
  }

  function Width(fp: Fp, closer: bool): nat
    requires fp.e >= Shift(closer)
  {
    (1 + UpperUnits(closer)) * LowerDistance(fp, closer)
  }

  /** Among the multiples of 10^y in an interval of width w that starts at l, the first is the
      one with the fewest digits: there is no other, or the other is not a multiple of more. */
  predicate StartWins(l: nat, w: nat, y: nat)
  {
    l % Pow10(y) == 0 && !(Pow10(y) < w && (l + Pow10(y)) % Pow10(y + 1) == 0)
  }

  /** The lower end is a multiple of the least power of ten above twice the lower distance, and
      better than its neighbour. */
  predicate LowerEndWins(fp: Fp, closer: bool)
    requires fp.f > 0
  {
    fp.e >= Shift(closer)
    && StartWins(LowerEnd(fp, closer), Width(fp, closer), Places(2 * LowerDistance(fp, closer)))
  }

  /** With equal distances to both ends there is no neighbour. */
  lemma LowerEndWinsSymmetric(fp: Fp)
    requires fp.f > 0 && fp.e >= 1
    ensures LowerEndWins(fp, false) <==> LowerEnd(fp, false) % Pow10(Places(Pow2(fp.e))) == 0
  {
    assert 2 * LowerDistance(fp, false) == Width(fp, false) == Pow2(fp.e);
  }

  // ----- the choice of a shortest and closest multiple of a power of ten -----

  function Ten(q: nat, i: nat): nat { q * Pow10(i) }

  ghost predicate In(l: nat, w: nat, inLow: bool, inHigh: bool, z: nat)
  {
    AtLeast(z, l, inLow) && AtLeast(l + w, z, inHigh)
  }

  /** m * 10^x is in the interval, nothing in it is a multiple of a higher power of ten, and no
      multiple of the same is closer to the value l + lo. */
  ghost predicate Chosen(l: nat, lo: nat, w: nat, inLow: bool, inHigh: bool, m: nat, x: nat)
  {
    && In(l, w, inLow, inHigh, Ten(m, x))
    && (forall q: nat, i: nat :: q > 0 && In(l, w, inLow, inHigh, Ten(q, i)) ==> i <= x)
    && (forall q: nat :: In(l, w, inLow, inHigh, Ten(q, x)) ==>
          Abs(Ten(m, x) - (l + lo)) <= Abs(Ten(q, x) - (l + lo)))
  }

  /** The width is two or three times the lower distance; y is its power of ten, which equals
      neither of the two. */
  ghost predicate Scaled(l: nat, lo: nat, w: nat, y: nat)
  {
    && l > 0 && lo > 0 && 2 * lo <= w <= 3 * lo
    && y > 0 && Pow10(y - 1) < 2 * lo < Pow10(y) && w != Pow10(y)
  }

  lemma MultipleOf(q: nat, i: nat, j: nat)
    requires j <= i
    ensures Ten(q, i) % Pow10(j) == 0
  {
    Pow10Add(j, i - j);
    MulPull(q, Pow10(j), Pow10(i - j));
    DivExact(Pow10(j), q * Pow10(i - j));
  }

  lemma AsTen(z: nat, j: nat) returns (q: nat)
    requires z % Pow10(j) == 0
    ensures z == Ten(q, j) && (z > 0 ==> q > 0)
  {
    DivMod(z, Pow10(j));
    q := z / Pow10(j);
  }

  /** Two multiples of p one step apart are not both multiples of 10 * p. */
  lemma NotBoth(l: nat, y: nat)
    ensures !(l % Pow10(y + 1) == 0 && (l + Pow10(y)) % Pow10(y + 1) == 0)
  {
    if l % Pow10(y + 1) == 0 {
      DivMod(l, Pow10(y + 1));
      DivUnique(Pow10(y + 1), l / Pow10(y + 1), Pow10(y));
    }
  }

  /** Multiples of p less than two steps above another. */
  lemma NextOrSame(a: nat, b: nat, p: nat)
    requires p > 0 && a % p == 0 && b % p == 0 && a <= b < a + 2 * p
    ensures b == a || b == a + p
  {
    DivMod(a, p);
    DivMod(b, p);
    var c, d := a / p, b / p;
    MulDist(c, 2, p);
    MulDist(c, 1, p);
    if d < c {
      MulLt(d, c, p);
    } else if d >= c + 2 {
      MulLe(c + 2, d, p);
    }
  }

  lemma NextTen(q: nat, i: nat)
    ensures Ten(q + 1, i) == Ten(q, i) + Pow10(i)
  {
    MulDist(q, 1, Pow10(i));
  }

  /** A lower end that counts as inside and wins is chosen. */
  lemma WinnerTaken(l: nat, lo: nat, w: nat, y: nat, inHigh: bool, m: nat, x: nat)
    requires Scaled(l, lo, w, y) && Chosen(l, lo, w, true, inHigh, m, x) && StartWins(l, w, y)
    ensures Ten(m, x) == l
  {
    hide Ten, Pow10;
    var c := AsTen(l, y);
    assert y <= x;
    assert x == y ==> Abs(Ten(m, x) - (l + lo)) <= Abs(Ten(c, x) - (l + lo));
    MultipleOf(m, x, y);
    NextOrSame(l, Ten(m, x), Pow10(y));
    if x > y {
      MultipleOf(m, x, y + 1);
    }
  }

  /** A lower end that is chosen wins. */
  lemma TakenWins(l: nat, lo: nat, w: nat, y: nat, inHigh: bool, m: nat, x: nat)
    requires Scaled(l, lo, w, y) && Chosen(l, lo, w, true, inHigh, m, x) && x >= y - 1
    requires Ten(m, x) == l
    ensures StartWins(l, w, y)
  {
    hide Ten, Pow10;
    var q: nat := m + 1;
    NextTen(m, x);
    assert x == y - 1 ==> In(l, w, true, inHigh, Ten(q, x));
    assert x >= y;
    MultipleOf(m, x, y);
    if Pow10(y) < w && (l + Pow10(y)) % Pow10(y + 1) == 0 {
      var c := AsTen(l + Pow10(y), y + 1);
      assert y + 1 <= x;
      MultipleOf(m, x, y + 1);
      NotBoth(l, y);
    }
  }

  /** A lower end that is left out and does not win would not have been chosen: it is no
      multiple of a higher power of ten, and at the same one it is farther away. */
  lemma LoserIgnored(l: nat, lo: nat, w: nat, y: nat, m: nat, x: nat, p: nat, i: nat)
    requires Scaled(l, lo, w, y) && Chosen(l, lo, w, false, true, m, x) && x >= y - 1
    requires !StartWins(l, w, y) && Ten(p, i) == l
    ensures i <= x && (i == x ==> Abs(Ten(m, x) - (l + lo)) < lo)
  {
    hide Ten, Pow10;
    if i >= y {
      MultipleOf(p, i, y);
      var c := AsTen(l + Pow10(y), y + 1);
      assert y + 1 <= x;
      if i >= x {
        MultipleOf(p, i, y + 1);
        NotBoth(l, y);
      }
    } else if i == x {
      NextTen(p, i);
      assert Abs(Ten(m, x) - (l + lo)) <= Abs(Ten(p + 1, x) - (l + lo));
    }
  }

  // ----- the same for the real interval -----

  ghost predicate Integral(v: real, rlo: real, rhi: real, l: nat, lo: nat, w: nat)
  {
    v == (l + lo) as real && rlo == lo as real && rhi == w as real - lo as real
  }

  lemma TenAtReal(q: nat, i: nat)
    ensures Decimal(q, i) == Ten(q, i) as real
  {
    RPow10OfNat(i);
    RealProduct(q, Pow10(i));
  }

  lemma InAtReal(v: real, rlo: real, rhi: real, l: nat, lo: nat, w: nat, inLow: bool, inHigh: bool, q: nat, i: nat)
    requires Integral(v, rlo, rhi, l, lo, w)
    ensures Between(Decimal(q, i), v, rlo, rhi, inLow, inHigh) == In(l, w, inLow, inHigh, Ten(q, i))
    ensures RAbs(Decimal(q, i) - v) == Abs(Ten(q, i) - (l + lo)) as real
  {
    hide Decimal, Ten;
    TenAtReal(q, i);
  }

  lemma RPow10Order(a: int, b: int)
    requires RPow10(a) < RPow10(b)
    ensures a < b
  {
    if b <= a {
      RPow10Monotone(b, a - b);
    }
  }

  /** A number of k + 1 digits or more at the decimal exponent i, below 10^(x + k + 1). */
  lemma ExponentBounded(q: nat, i: int, k: nat, x: int)
    requires Pow10(k) <= q && Decimal(q, i) < RPow10(x + k + 1)
    ensures i <= x
  {
    hide RPow10, Pow10;
    RPow10Split(i + k, k);
    assert RPow10(i + k) <= Decimal(q, i) by {
      RMulLe(Pow10(k) as real, q as real, RPow10(i));
    }
    RPow10Order(i + k, x + k + 1);
  }

  /** Nothing in the interval is a multiple of a higher power of ten than a shortest decimal
      whose first digit is at the first place. */
  lemma Capped(fp: Fp, closer: bool, inLow: bool, m: nat, x: int, k: nat, q: nat, i: int)
    requires IsShortest(ValueOf(fp), LowerGap(fp, closer), UpperGap(fp), inLow, fp.f % 2 == 0, m, x, k)
    requires Placed(fp, x + k)
    requires q > 0 && Between(Decimal(q, i), ValueOf(fp), LowerGap(fp, closer), UpperGap(fp), inLow, fp.f % 2 == 0)
    ensures i <= x
  {
    hide RPow10, Pow10, ValueOf, LowerGap, UpperGap, Decimal;
    ExponentBounded(q, i, k, x);
  }

  lemma {:induction false} NotFive(k: nat)
    ensures Pow2(k) % 5 != 0
  {
    if k > 0 {
      NotFive(k - 1);
    }
  }

  /** Twice or three times a power of two is no power of ten. */
  lemma NeverTen(k: nat, j: nat)
    requires j > 0
    ensures 2 * Pow2(k) != Pow10(j) && 3 * Pow2(k) != Pow10(j)
  {
    NotFive(k);
    assert Pow10(j) % 5 == 0;
  }

  /** The numbers of the interval, for an exponent of 30 or more. */
  lemma LargeExponent(fp: Fp, closer: bool)
    requires fp.f > 0 && fp.e >= 30
    ensures var l, lo, w := LowerEnd(fp, closer), LowerDistance(fp, closer), Width(fp, closer);
            && Scaled(l, lo, w, Places(2 * lo))
            && Integral(ValueOf(fp), LowerGap(fp, closer), UpperGap(fp), l, lo, w)
  {
    LargeScaled(fp, closer);
    LargeIntegral(fp, closer);
  }

  lemma LargeScaled(fp: Fp, closer: bool)
    requires fp.f > 0 && fp.e >= 30
    ensures Scaled(LowerEnd(fp, closer), LowerDistance(fp, closer), Width(fp, closer),
                   Places(2 * LowerDistance(fp, closer)))
  {
    hide Places, Pow10, Pow2, LowerEnd;
    var k, lo := fp.e - Shift(closer), LowerDistance(fp, closer);
    SmallPowers();
    Pow2Monotone(3, k);
    NeverTen(k, Places(2 * lo));
    if Places(2 * lo) > 1 {
      NeverTen(k, Places(2 * lo) - 1);
    }
    LowerEndPositive(fp, closer);
  }

  lemma SmallPowers()
    ensures Pow10(0) == 1 && Pow10(1) == 10 && Pow2(1) == 2 && Pow2(2) == 4 && Pow2(3) == 8
  {
  }

  lemma LowerEndPositive(fp: Fp, closer: bool)
    requires fp.f > 0 && fp.e >= Shift(closer)
    ensures LowerEnd(fp, closer) > 0
  {
    hide Pow2;
    SmallPowers();
    MulLe(1, fp.f, Pow2(Shift(closer)));
    MulLe(1, fp.f * Pow2(Shift(closer)) - 1, LowerDistance(fp, closer));
  }

  lemma LargeIntegral(fp: Fp, closer: bool)
    requires fp.f > 0 && fp.e >= Shift(closer)
    ensures Integral(ValueOf(fp), LowerGap(fp, closer), UpperGap(fp),
                     LowerEnd(fp, closer), LowerDistance(fp, closer), Width(fp, closer))
  {
    hide RPow2, Pow2;
    var lo, n := LowerDistance(fp, closer), fp.f * Pow2(Shift(closer));
    RPow2OfNat(fp.e - Shift(closer));
    ValueFromGap(fp, closer);
    MulLe(1, fp.f, Pow2(Shift(closer)));
    RealProduct(lo, n);
    MulSub(n, 1, lo);
    assert LowerEnd(fp, closer) + lo == lo * n;
  }

  /** The exponent of a shortest decimal is not far below the size of the interval. */
  lemma ReachesPlaces(fp: Fp, closer: bool, inLow: bool, m: nat, x: int, k: nat)
    requires fp.f > 0 && fp.e >= 30 && Placed(fp, x + k)
    requires IsShortest(ValueOf(fp), LowerGap(fp, closer), UpperGap(fp), inLow, fp.f % 2 == 0, m, x, k)
    ensures x >= Places(2 * LowerDistance(fp, closer)) - 1 >= 0
  {
    hide IsShortest, Placed, ValueOf, LowerGap, UpperGap, LowerEnd, LowerDistance, Width, Decimal, Pow10, Places, Between;
    LargeExponent(fp, closer);
    var l, lo, w := LowerEnd(fp, closer), LowerDistance(fp, closer), Width(fp, closer);
    var i := Places(2 * lo) - 1;
    var q := NextMultiple(l, Pow10(i));
    InAtReal(ValueOf(fp), LowerGap(fp, closer), UpperGap(fp), l, lo, w, inLow, fp.f % 2 == 0, q, i);
    Capped(fp, closer, inLow, m, x, k, q, i);
  }

  lemma NextMultiple(l: nat, p: nat) returns (q: nat)
    requires p > 0
    ensures q > 0 && l < q * p <= l + p
  {
    DivMod(l, p);
    q := l / p + 1;
    MulDist(l / p, 1, p);
  }

  lemma ShortestIsChosen(fp: Fp, closer: bool, inLow: bool, m: nat, x: nat, k: nat)
    requires fp.f > 0 && fp.e >= 30 && Placed(fp, x + k)
    requires IsShortest(ValueOf(fp), LowerGap(fp, closer), UpperGap(fp), inLow, fp.f % 2 == 0, m, x, k)
    ensures Chosen(LowerEnd(fp, closer), LowerDistance(fp, closer), Width(fp, closer), inLow, fp.f % 2 == 0, m, x)
  {
    hide Placed, ValueOf, LowerGap, UpperGap, LowerEnd, LowerDistance, Width, Decimal, Ten, Pow10, Places, Between, In, RAbs;
    LargeExponent(fp, closer);
    var v, rlo, rhi := ValueOf(fp), LowerGap(fp, closer), UpperGap(fp);
    var l, lo, w := LowerEnd(fp, closer), LowerDistance(fp, closer), Width(fp, closer);
    InAtReal(v, rlo, rhi, l, lo, w, inLow, fp.f % 2 == 0, m, x);
    forall q: nat, i: nat | q > 0 && In(l, w, inLow, fp.f % 2 == 0, Ten(q, i))
      ensures i <= x
    {
      InAtReal(v, rlo, rhi, l, lo, w, inLow, fp.f % 2 == 0, q, i);
      Capped(fp, closer, inLow, m, x, k, q, i);
    }
    forall q: nat | In(l, w, inLow, fp.f % 2 == 0, Ten(q, x))
      ensures Abs(Ten(m, x) - (l + lo)) <= Abs(Ten(q, x) - (l + lo))
    {
      InAtReal(v, rlo, rhi, l, lo, w, inLow, fp.f % 2 == 0, q, x);
    }
  }

  /** Where the lower end is taken for inside although it is not: the result is a shortest
      decimal of the interval without it exactly if it is not the end itself. */
  lemma EndTaken(fp: Fp, closer: bool, m: nat, x: int, k: nat)
    requires fp.f > 0 && fp.e >= 30 && Placed(fp, x + k)
    requires IsShortest(ValueOf(fp), LowerGap(fp, closer), UpperGap(fp), true, fp.f % 2 == 0, m, x, k)
    ensures Decimal(m, x) == ValueOf(fp) - LowerGap(fp, closer) <==> LowerEndWins(fp, closer)
  {
    hide IsShortest, Placed, ValueOf, LowerGap, UpperGap, LowerEnd, LowerDistance, Width, Decimal, Ten, Places;
    hide Chosen, Scaled;
    ReachesPlaces(fp, closer, true, m, x, k);
    ShortestIsChosen(fp, closer, true, m, x, k);
    LargeExponent(fp, closer);
    TenAtReal(m, x);
    var l, lo, w := LowerEnd(fp, closer), LowerDistance(fp, closer), Width(fp, closer);
    if LowerEndWins(fp, closer) {
      WinnerTaken(l, lo, w, Places(2 * lo), fp.f % 2 == 0, m, x);
    }
    if Ten(m, x) == l {
      TakenWins(l, lo, w, Places(2 * lo), fp.f % 2 == 0, m, x);
    }
  }

  /** The lower end, where it is a decimal, is no better choice than m * 10^x with its k + 1
      digits: it has as many digits, and is not closer at the same exponent. */
  ghost predicate LowerEndLoses(v: real, lo: real, m: nat, x: int, k: nat)
  {
    forall p: nat, y: int :: p > 0 && Decimal(p, y) == v - lo ==>
      && Pow10(k) <= p
      && (y == x ==> RAbs(Decimal(m, x) - v) <= lo && (p != m && m % 2 == 1 ==> RAbs(Decimal(m, x) - v) < lo))
  }

  /** A result that leaves out the lower end is right with it exactly if the lower end loses. */
  lemma LowerEndDecides(v: real, lo: real, hi: real, inHigh: bool, m: nat, x: int, k: nat)
    requires IsShortest(v, lo, hi, false, inHigh, m, x, k) && 0.0 < lo < v && hi > 0.0
    ensures IsShortest(v, lo, hi, true, inHigh, m, x, k) <==> LowerEndLoses(v, lo, m, x, k)
  {
    hide RPow10, Pow10;
    if IsShortest(v, lo, hi, true, inHigh, m, x, k) {
      forall p: nat, y: int | p > 0 && Decimal(p, y) == v - lo
        ensures Pow10(k) <= p
        ensures y == x ==> RAbs(Decimal(m, x) - v) <= lo && (p != m && m % 2 == 1 ==> RAbs(Decimal(m, x) - v) < lo)
      {
        assert Between(Decimal(p, y), v, lo, hi, true, inHigh);
      }
    }
    if LowerEndLoses(v, lo, m, x, k) {
      forall p: nat, y: int | p > 0 && Between(Decimal(p, y), v, lo, hi, true, inHigh)
        ensures Pow10(k) <= p
      {
        assert Decimal(p, y) == v - lo || Between(Decimal(p, y), v, lo, hi, false, inHigh);
      }
      forall p: nat | Between(Decimal(p, x), v, lo, hi, true, inHigh)
        ensures RAbs(Decimal(m, x) - v) <= RAbs(Decimal(p, x) - v)
        ensures p != m && m % 2 == 1 ==> RAbs(Decimal(m, x) - v) < RAbs(Decimal(p, x) - v)
      {
        assert Decimal(p, x) == v - lo || Between(Decimal(p, x), v, lo, hi, false, inHigh);
        assert Decimal(0, x) == 0.0;
      }
    }
  }

  lemma GapBelowValue(fp: Fp, closer: bool)
    requires fp.f > 0
    ensures 0.0 < LowerGap(fp, closer) < ValueOf(fp)
  {
    hide RPow2;
    ValueFromGap(fp, closer);
    var g, k := LowerGap(fp, closer), fp.f * Pow2(Shift(closer));
    assert k >= 2 by {
      assert Pow2(Shift(closer)) >= 2;
      MulLe(1, fp.f, Pow2(Shift(closer)));
    }
    RMulLt(1.0, k as real, g);
  }

  /** A lower end that leaves at least the printed places has at least the printed digits. */
  lemma EnoughForEnd(v: real, lo: real, hi: real, m: nat, x: int, k: nat, p: nat, i: int)
    requires IsShortest(v, lo, hi, false, true, m, x, k) && v + hi >= RPow10(x + k)
    requires p > 0 && i <= x && Decimal(p, i) == v - lo
    ensures Pow10(k) <= p
  {
    hide RPow10, Pow10;
    if RPow10(x + k) > v - lo {
      assert Decimal(1, x + k) == RPow10(x + k);
      assert Between(Decimal(1, x + k), v, lo, hi, false, true);
    } else if p < Pow10(k) {
      RPow10Split(i + k, k);
      RMulLt(p as real, Pow10(k) as real, RPow10(i));
      RPow10Monotone(i + k, x - i);
    }
  }

  /** Where the lower end is left out although it is inside: the result is a shortest decimal
      of the interval with it exactly if it does not win. */
  lemma EndLeftOut(fp: Fp, closer: bool, m: nat, x: int, k: nat)
    requires fp.f > 0 && fp.e >= 30 && Placed(fp, x + k) && fp.f % 2 == 0
    requires IsShortest(ValueOf(fp), LowerGap(fp, closer), UpperGap(fp), false, true, m, x, k)
    ensures IsShortest(ValueOf(fp), LowerGap(fp, closer), UpperGap(fp), true, true, m, x, k)
       <==> !LowerEndWins(fp, closer)
  {
    hide IsShortest, ValueOf, LowerGap, UpperGap, LowerEndWins, LowerEndLoses, RPow10, Placed;
    var v, lo, hi := ValueOf(fp), LowerGap(fp, closer), UpperGap(fp);
    AboveLowerEnd(v, lo, hi, true, m, x, k);
    if IsShortest(v, lo, hi, true, true, m, x, k) {
      EndTaken(fp, closer, m, x, k);
    }
    if !LowerEndWins(fp, closer) {
      EndLoses(fp, closer, m, x, k);
      GapBelowValue(fp, closer);
      GapAbove(fp);
      LowerEndDecides(v, lo, hi, true, m, x, k);
    }
  }

  lemma GapAbove(fp: Fp)
    ensures UpperGap(fp) > 0.0
  {
  }

  lemma AboveLowerEnd(v: real, lo: real, hi: real, inHigh: bool, m: nat, x: int, k: nat)
    requires IsShortest(v, lo, hi, false, inHigh, m, x, k)
    ensures Decimal(m, x) > v - lo
  {
  }

  lemma EndLoses(fp: Fp, closer: bool, m: nat, x: int, k: nat)
    requires fp.f > 0 && fp.e >= 30 && Placed(fp, x + k) && fp.f % 2 == 0
    requires IsShortest(ValueOf(fp), LowerGap(fp, closer), UpperGap(fp), false, true, m, x, k)
    requires !LowerEndWins(fp, closer)
    ensures LowerEndLoses(ValueOf(fp), LowerGap(fp, closer), m, x, k)
  {
    hide IsShortest, ValueOf, LowerGap, UpperGap, LowerEnd, LowerDistance, Width, Places, StartWins, Decimal, RPow10, Pow10;
    hide RAbs, Chosen, Scaled, Ten;
    var v, rlo := ValueOf(fp), LowerGap(fp, closer);
    var l, lo, w := LowerEnd(fp, closer), LowerDistance(fp, closer), Width(fp, closer);
    ReachesPlaces(fp, closer, false, m, x, k);
    ShortestIsChosen(fp, closer, false, m, x, k);
    LargeExponent(fp, closer);
    InAtReal(v, rlo, UpperGap(fp), l, lo, w, false, true, m, x);
    forall p: nat, i: int | p > 0 && Decimal(p, i) == v - rlo
      ensures Pow10(k) <= p && (i == x ==> RAbs(Decimal(m, x) - v) < rlo)
    {
      if i >= 0 {
        TenAtReal(p, i);
        LoserIgnored(l, lo, w, Places(2 * lo), m, x, p, i);
      }
      EnoughForEnd(v, rlo, UpperGap(fp), m, x, k, p, i);
    }
  }

  /** Where the lower end is taken for inside although it is not. */
  lemma WithoutEnd(v: real, lo: real, hi: real, inHigh: bool, m: nat, x: int, k: nat)
    requires IsShortest(v, lo, hi, true, inHigh, m, x, k)
    ensures IsShortest(v, lo, hi, false, inHigh, m, x, k) <==> Decimal(m, x) != v - lo
  {
    hide RPow10, Pow10;
    if Decimal(m, x) != v - lo {
      forall p: nat, y: int | Between(Decimal(p, y), v, lo, hi, false, inHigh)
        ensures Between(Decimal(p, y), v, lo, hi, true, inHigh)
      {
      }
    }
  }

  /** The stored exponents differ only for multiples of 2^30. */
  lemma MisjudgedIsLarge(fp: Fp, closer: bool, x: int)
    requires fp.f > 0 && (fp.e >= 0 ==> x >= 0) && ValueOf(fp) < RPow10(x + 1)
    requires IncludesLow(fp, closer, x) != (fp.f % 2 == 0)
    ensures fp.e >= 30
    ensures fp.f % 2 == 0 ==> NumerStays(fp, closer, x) < LowerExp(fp, x)
    ensures fp.f % 2 == 1 ==> NumerStays(fp, closer, x) > LowerExp(fp, x)
  {
    if fp.e < 30 {
      LowerEndExact(fp, closer, x);
    }
  }

  /** The shortest mode, for every significand and exponent: what is printed is a shortest
      decimal of the documented interval unless a needless zero follows, or the lower end, the
      best choice if it is inside, is wrongly taken for inside or for outside. */
  lemma DocumentedShortest(fp: Fp, closer: bool, x: int, text: seq<char>, exp10: int)
    requires fp.f > 0 && (fp.e >= 0 ==> x >= 0) && ValueOf(fp) < RPow10(x + 1)
    requires PrintsShortest(fp, closer, x, text, exp10)
    ensures IsShortest(ValueOf(fp), LowerGap(fp, closer), UpperGap(fp), fp.f % 2 == 0, fp.f % 2 == 0,
                       Number(text), exp10, |text| - 1)
       <==> NoZeroFollows(fp, closer, x)
            && (IncludesLow(fp, closer, x) == (fp.f % 2 == 0) || !LowerEndWins(fp, closer))
  {
    hide IsShortest, Placed, ValueOf, LowerGap, UpperGap, LowerEndWins, IncludesLow, ZeroFollows, RPow10, Number, AllDigits;
    var v, lo, hi, m, k := ValueOf(fp), LowerGap(fp, closer), UpperGap(fp), Number(text), |text| - 1;
    if !NoZeroFollows(fp, closer, x) {
      var d: nat :| ZeroFollows(fp, closer, x, d);
      NeedlessZero(fp, closer, x, d, m, exp10);
    } else if IncludesLow(fp, closer, x) != (fp.f % 2 == 0) {
      MisjudgedIsLarge(fp, closer, x);
      if fp.f % 2 == 0 {
        EndLeftOut(fp, closer, m, exp10, k);
      } else {
        EndTaken(fp, closer, m, exp10, k);
        WithoutEnd(v, lo, hi, false, m, exp10, k);
      }
    }
  }

  /** With the zero the digit has one place too many. */
  lemma NeedlessZero(fp: Fp, closer: bool, x: int, d: nat, m: nat, exp10: int)
    requires fp.f > 0 && (fp.e >= 0 ==> x >= 0) && ZeroFollows(fp, closer, x, d)
    ensures !IsShortest(ValueOf(fp), LowerGap(fp, closer), UpperGap(fp), fp.f % 2 == 0, fp.f % 2 == 0, m, exp10, 1)
  {
    hide NumerStays, LowerExp, NumerExp, DenomExp, RPow2, RPow10;
    assert Pow10(1) == 10;
    assert Between(Decimal(d, x), ValueOf(fp), LowerGap(fp, closer), UpperGap(fp), fp.f % 2 == 0, fp.f % 2 == 0);
  }

  /** For significands of at most 69 bits the result is always a shortest decimal of the
      interval with or without its lower end; the documented one unless an even significand's
      winning lower end is left out. */
  lemma SmallSignificandShortest(fp: Fp, closer: bool, x: int, text: seq<char>, exp10: int)
    requires 0 < fp.f < Pow5(30) && (fp.e >= 0 ==> x >= 0) && ValueOf(fp) < RPow10(x + 1)
    requires RAtLeast(ValueOf(fp) + UpperGap(fp), RPow10(x - 1), true)
    requires PrintsShortest(fp, closer, x, text, exp10)
    ensures IsShortest(ValueOf(fp), LowerGap(fp, closer), UpperGap(fp), IncludesLow(fp, closer, x), fp.f % 2 == 0,
                       Number(text), exp10, |text| - 1)
    ensures fp.f % 2 == 1 || fp.e < 0 || fp.e + Shift(closer) < 32 ==> IncludesLow(fp, closer, x) == (fp.f % 2 == 0)
    ensures IsShortest(ValueOf(fp), LowerGap(fp, closer), UpperGap(fp), fp.f % 2 == 0, fp.f % 2 == 0,
                       Number(text), exp10, |text| - 1)
       <==> IncludesLow(fp, closer, x) == (fp.f % 2 == 0) || !LowerEndWins(fp, closer)
  {
    hide IsShortest, NumerExp, LowerExp, DenomExp, LowerEndWins, RPow2, RPow10, Placed, Pow5;
    NoMisalignment(fp, closer, x);
    DocumentedShortest(fp, closer, x, text, exp10);
    if fp.e < 0 || fp.e + Shift(closer) < 32 {
      LowerEndExact(fp, closer, x);
    }
  }

  // ----- values of floating-point types, and the estimate made for them -----

  lemma UnitBelowValue(fp: Fp)
    requires fp.f > 0
    ensures RPow2(fp.e) <= ValueOf(fp)
  {
    hide RPow2;
    RMulLe(1.0, fp.f as real, RPow2(fp.e));
  }

  lemma {:induction false} RPow2Below(k: int)
    requires k < 0
    ensures RPow2(k + 1) <= 1.0
    decreases -k
  {
    if k < -1 {
      RPow2Below(k + 1);
      RPow2Step(k + 1);
    }
  }

  /** The estimate for an integral value is not negative. */
  lemma IntegralEstimate(fp: Fp, x: int, k: int)
    ensures fp.f > 0 && fp.e >= 0 && ValueOf(fp) < RPow2(k + 1) && RPow2(k) <= RPow10(x) ==> x >= 0
  {
    hide RPow2, RPow10;
    if fp.f > 0 && fp.e >= 0 && ValueOf(fp) < RPow2(k + 1) && x < 0 {
      UnitBelowValue(fp);
      RPow2OfNat(fp.e);
      if k < 0 {
        RPow2Below(k);
      } else {
        RPow2OfNat(k);
      }
      NegativePower(-x);
    }
  }

  /** The estimate comes from the highest power of two in the value: the least power of ten
      that is not below it. */
  ghost predicate Estimated(fp: Fp, x: int, k: int): (b: bool)
    ensures b && fp.f > 0 && fp.e >= 0 ==> x >= 0
  {
    IntegralEstimate(fp, x, k);
    RPow2(k) <= ValueOf(fp) < RPow2(k + 1) && RPow10(x - 1) < RPow2(k) <= RPow10(x)
  }

  /** The neighbour below is closer only to a power of two. */
  ghost predicate CloserAllowed(f: nat, closer: bool)
  {
    closer ==> exists j: nat :: f == Pow2(j)
  }

  lemma FivesAgainstTwos()
    ensures Pow5(43) < Pow2(100) < Pow5(44)
  {
    hide Pow2, Pow5;
    LiteralPowers();
    Pow2Add(56, 44);
    Pow2Add(44, 12);
    TwosOf44();
    Pow5Add(16, 16);
    Pow5Add(32, 11);
    Pow5Add(43, 1);
    Pow5Add(11, 4);
    FivesOf11();
  }

  lemma TwosOf44()
    ensures Pow2(44) == 0x1000_0000_0000
  {
    Pow2Of32();
    assert Pow2(12) == 0x1000;
    Pow2Add(32, 12);
  }

  lemma FivesOf11()
    ensures Pow5(11) == 48828125 && Pow5(1) == 5
  {
    assert Pow5(4) == 625 && Pow5(3) == 125;
    Pow5Add(4, 4);
    Pow5Add(8, 3);
  }

  /** No power of ten has a significand of 113 bits and the exponent 31. */
  lemma NoTenAt31(f: nat, x: nat)
    requires Pow2(112) <= f < Pow2(113)
    ensures f * Pow2(31) != Pow10(x)
  {
    hide Pow2, Pow5, Pow10;
    FivesAgainstTwos();
    Pow2Add(112, 31);
    Pow2Add(113, 31);
    Pow2Add(100, 43);
    Pow2Add(100, 44);
    TenIsFiveTwos(43);
    TenIsFiveTwos(44);
    MulLe(Pow2(112), f, Pow2(31));
    MulLt(f, Pow2(113), Pow2(31));
    MulLt(Pow5(43), Pow2(100), Pow2(43));
    MulLt(Pow2(100), Pow5(44), Pow2(44));
    if x <= 43 {
      Pow10Monotone(x, 43);
    } else {
      Pow10Monotone(44, x);
    }
  }

  lemma NotTwo(j: nat, x: nat)
    requires x > 0
    ensures Pow2(j) != Pow10(x)
  {
    NotFive(j);
    assert Pow10(x) % 5 == 0;
  }

  /** A ten whose numerator is stored above the lower distance is not such a value. */
  lemma NoTenStoredAbove(fp: Fp, closer: bool, x: int)
    requires OfFloatingType(fp) && CloserAllowed(fp.f, closer) && (fp.e >= 0 ==> x >= 0)
    requires NumerStays(fp, closer, x) > LowerExp(fp, x)
    ensures ValueOf(fp) != RPow10(x)
  {
    hide Pow2, Pow5, Pow10, RPow2, RPow10;
    StoredAbove(fp, closer, x);
    if ValueOf(fp) == RPow10(x) {
      assert x >= 32;
      IntegralTen(fp.f, fp.e, x);
      FewFives(fp.f, x);
      if closer {
        var j: nat :| fp.f == Pow2(j);
        Pow2Add(j, fp.e);
        NotTwo(j + fp.e, x);
      } else {
        NoTenAt31(fp.f, x);
      }
    }
  }

  lemma OneFits(d: nat, t: real, p: real, v: real)
    requires d > 0 && v == d as real * t && 0.0 < p <= t && v < 2.0 * p
    ensures d == 1
  {
    if d > 1 {
      RMulLe(2.0, d as real, t);
    }
  }

  /** With that estimate no needless zero is printed for them. */
  lemma EstimatedNoZero(fp: Fp, closer: bool, x: int, k: int)
    requires OfFloatingType(fp) && CloserAllowed(fp.f, closer) && Estimated(fp, x, k)
    ensures NoZeroFollows(fp, closer, x)
  {
    hide Pow2, Pow5, RPow2, RPow10, NumerStays, NumerExp, LowerExp, DenomExp, CloserAllowed, OfFloatingType;
    forall d: nat | ZeroFollows(fp, closer, x, d)
      ensures d == 1
    {
      RPow2Step(k);
      OneFits(d, RPow10(x), RPow2(k), ValueOf(fp));
    }
    if NumerStays(fp, closer, x) > LowerExp(fp, x) {
      NoTenStoredAbove(fp, closer, x);
      assert Decimal(1, x) == RPow10(x);
    }
  }

  /** The shortest mode, with the estimate its only caller makes, for all values of
      floating-point types: the result is a shortest decimal of the documented interval unless
      the lower end is misjudged and wins. */
  lemma FloatingTypeShortest(fp: Fp, closer: bool, x: int, k: int, text: seq<char>, exp10: int)
    requires OfFloatingType(fp) && CloserAllowed(fp.f, closer)
    requires Estimated(fp, x, k) && PrintsShortest(fp, closer, x, text, exp10)
    ensures IsShortest(ValueOf(fp), LowerGap(fp, closer), UpperGap(fp), fp.f % 2 == 0, fp.f % 2 == 0,
                       Number(text), exp10, |text| - 1)
       <==> IncludesLow(fp, closer, x) == (fp.f % 2 == 0) || !LowerEndWins(fp, closer)
  {
    hide IsShortest, LowerEndWins, IncludesLow, NoZeroFollows, Estimated, CloserAllowed, PrintsShortest, RPow10, Pow2, Pow5;
    EstimatedNoZero(fp, closer, x, k);
    EstimateFits(fp, x, k);
    DocumentedShortest(fp, closer, x, text, exp10);
  }

  /** The estimate is exact, or one too high. */
  lemma EstimateFits(fp: Fp, x: int, k: int)
    requires fp.f > 0 && Estimated(fp, x, k)
    ensures ValueOf(fp) < RPow10(x + 1)
    ensures RPow10(x - 1) < ValueOf(fp) + UpperGap(fp) < RPow10(x + 1)
  {
    hide RPow2, RPow10, ValueOf;
    RPow2Step(k);
    RPow10Step(x);
    UnitBelowValue(fp);
    assert RPow2(fp.e) == 2.0 * RPow2(fp.e - 1) by {
      RPow2Step(fp.e - 1);
      assert fp.e - 1 + 1 == fp.e;
    }
    assert UpperGap(fp) <= RPow2(fp.e) <= ValueOf(fp) < 2.0 * RPow10(x);
  }

  /** The shortest mode as its caller uses it. */
  method FormatShortest(fp: Fp, closer: bool, x: int, ghost k: int) returns (r: Printed)
    requires OfFloatingType(fp) && fp.f < 0x1_0000_0000_0000_0000_0000_0000_0000_0000
    requires CloserAllowed(fp.f, closer) && Estimated(fp, x, k)
    requires -0x8000_0000 < x < 0x7fff_ffff
    ensures r.Digits? && r.text != [] && AllDigits(r.text) && r.text[0] != '0' && Number(r.text) > 0
    ensures IsShortest(ValueOf(fp), LowerGap(fp, closer), UpperGap(fp), fp.f % 2 == 0, fp.f % 2 == 0,
                       Number(r.text), r.exp10, |r.text| - 1)
       <==> IncludesLow(fp, closer, x) == (fp.f % 2 == 0) || !LowerEndWins(fp, closer)
  {
    hide IsShortest, PrintsFixed, LowerEndWins, IncludesLow, NoZeroFollows, Estimated, CloserAllowed, Placed, RPow10, RPow2;
    hide OfFloatingType, ValueOf, UpperGap, LowerGap, AllDigits, Pow10, ZeroFollows;
    assert fp.f > 0 by {
      PositiveType(fp);
    }
    EstimateFits(fp, x, k);
    r := FormatDragon(fp, closer, true, false, -1, x);
    NumberLowerBound(r.text);
    FloatingTypeShortest(fp, closer, x, k, r.text, r.exp10);
  }

  lemma PositiveType(fp: Fp)
    requires OfFloatingType(fp)
    ensures fp.f > 0
  {
  }
}
