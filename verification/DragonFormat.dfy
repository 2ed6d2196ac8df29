/** The digit generator as a whole: setup, correction of the estimated exponent, and the
    shortest or a given number of digits. */
module DragonFormat {
  import opened Powers
  import opened Rationals
  import opened DigitStrings
  import opened Shortest
  import opened Bigits
  import opened Bigints
  import opened Rounding
  import opened Dragon
  import opened FixedDigits

  /** The digits and the exponent of the last one, or the error for a precision beyond int. */
  datatype Printed = Digits(text: seq<char>, exp10: int) | TooBig

  /** The decimal place of the first digit, once the estimate x has been corrected. */
  ghost function FirstPlace(fp: Fp, fixup: bool, x: int): int
  {
    if fixup && !RAtLeast(ValueOf(fp) + UpperGap(fp), RPow10(x), fp.f % 2 == 0) then x - 1 else x
  }

  // ----- correcting the estimate -----

  function Rescaled(b: Bounds, scaled: bool): Bounds
  {
    if scaled then Bounds(10 * b.n, b.d, 10 * b.l, 10 * b.u) else b
  }

  lemma RescaledDescribes(b: Bounds, scaled: bool, v: real, lo: real, hi: real, x: int)
    requires WellFormed(b) && Describes(b, v, lo, hi, x)
    ensures WellFormed(Rescaled(b, scaled)) && Describes(Rescaled(b, scaled), v, lo, hi, if scaled then x - 1 else x)
  {
    hide RPow10, IsRatio;
    assert Pow10(1) == 10;
    ShiftPoint(v, b.n, b.d, x, 1);
    ShiftPoint(lo, b.l, b.d, x, 1);
    ShiftPoint(hi, b.u, b.d, x, 1);
  }

  /** How the value, or the upper end, compares with a power of ten. */
  lemma UpperEnd(b: Bounds, v: real, lo: real, hi: real, x: int, even: bool)
    requires WellFormed(b) && Describes(b, v, lo, hi, x)
    ensures RAtLeast(v + hi, RPow10(x), even) == AtLeast(b.n + b.u, b.d, even)
    ensures RAtLeast(RPow10(x + 1), v + hi, even) == AtLeast(10 * b.d, b.n + b.u, even)
    ensures (v < RPow10(x + 1)) == (b.n < 10 * b.d)
  {
    hide RPow10, IsRatio;
    RPow10Step(x);
    assert Decimal(1, x) == RPow10(x) && Decimal(10, x) == RPow10(x + 1) && Pow10(0) == 1;
    RatioSum(v, b.n, hi, b.u, b.d, x);
    CompareDecimal(v + hi, b.n + b.u, b.d, x, 1, 0);
    CompareDecimal(v + hi, b.n + b.u, b.d, x, 10, 0);
    CompareDecimal(v, b.n, b.d, x, 10, 0);
  }

  /** The corrected numbers are what the digit loops ask for. */
  lemma RescaledFits(b: Bounds, fixup: bool, scaled: bool, v: real, lo: real, hi: real, x: int, even: bool)
    requires WellFormed(b) && Describes(b, v, lo, hi, x)
    requires scaled == (fixup && !AtLeast(b.n + b.u, b.d, even))
    ensures scaled == (fixup && !RAtLeast(v + hi, RPow10(x), even)) && (scaled ==> v < RPow10(x))
    ensures var c := Rescaled(b, scaled);
            && WellFormed(c) && Describes(c, v, lo, hi, if scaled then x - 1 else x)
            && IsRatio(v, c.n, c.d, if scaled then x - 1 else x)
            && (v < RPow10(x + 1) ==> c.n < 10 * c.d)
            && (RAtLeast(RPow10(x + 1), v + hi, !even) ==> AtLeast(10 * c.d, c.n + c.u, !even))
            && (RAtLeast(v + hi, RPow10(if fixup then x - 1 else x), even) ==> AtLeast(c.n + c.u, c.d, even))
  {
    hide RPow10, IsRatio, RAtLeast;
    RescaledDescribes(b, scaled, v, lo, hi, x);
    UpperEnd(b, v, lo, hi, x, even);
    UpperEnd(b, v, lo, hi, x, !even);
    if scaled {
      UpperEnd(Rescaled(b, scaled), v, lo, hi, x - 1, even);
    }
  }

  method Fixup(num: Bigint, den: Bigint, low: Bigint, up: Bigint, even: bool, shortest: bool, ghost b: Bounds)
    returns (scaled: bool)
    requires Separate(num, den, low, up) && Holds(num, den, low, up, b)
    modifies num, low, up
    ensures scaled == !AtLeast(b.n + b.u, b.d, even)
    ensures num.Val() == Rescaled(b, scaled).n && num.Positive()
    ensures shortest ==> Holds(num, den, low, up, Rescaled(b, scaled))
    ensures num.exp == old(num.exp) && low.exp == old(low.exp)
  {
    var c := Bigint.AddCompare(num, up, den);
    scaled := c + (if even then 1 else 0) <= 0;
    if scaled {
      num.Multiply(10);
      if shortest {
        low.Multiply(10);
        if up != low {
          up.Multiply(10);
        }
      }
    }
  }

  /** Makes a precision behind the point relative to the first digit, if an int can hold it. */
  method AdjustPrecision(precision: int, exp10: int) returns (ok: bool, adjusted: int)
    ensures ok <==> exp10 <= 0 || precision + exp10 <= 0x7fff_ffff
    ensures ok ==> adjusted == precision + exp10
  {
    if exp10 > 0 && precision > 0x7fff_ffff - exp10 {
      return false, precision;
    }
    return true, precision + exp10;
  }

  // ----- shortest -----

  /** The exponent of the numerator while digits are taken out of it. */
  function NumerStays(fp: Fp, closer: bool, x: int): nat
    requires fp.e >= 0 ==> x >= 0
  {
    AlignedExp(NumerExp(fp, closer, x), DenomExp(fp, closer, x))
  }

  /** Whether the lower end counts as inside: for an even significand if the numerator and the
      lower distance are stored with the same exponent, and always if the numerator is stored
      above it. */
  predicate IncludesLow(fp: Fp, closer: bool, x: int)
    requires fp.e >= 0 ==> x >= 0
  {
    TieIsLow(NumerStays(fp, closer, x), LowerExp(fp, x), fp.f % 2 == 0)
  }

  /** The value is the digit d at the estimated place, and the zero that digit leaves, stored
      above the lower distance, is not seen to be low. It is not reached for the value 1 at that
      place if the division overlooks that this is the divisor. */
  ghost predicate ZeroFollows(fp: Fp, closer: bool, x: int, d: nat)
    requires fp.e >= 0 ==> x >= 0
  {
    && NumerStays(fp, closer, x) > LowerExp(fp, x)
    && 0 < d <= 9 && ValueOf(fp) == Decimal(d, x)
    && (d > 1 || NumerExp(fp, closer, x) <= DenomExp(fp, closer, x))
  }

  ghost predicate NoZeroFollows(fp: Fp, closer: bool, x: int)
    requires fp.e >= 0 ==> x >= 0
  {
    forall d: nat :: !ZeroFollows(fp, closer, x, d)
  }

  /** The first place of the upper end of the interval. */
  ghost predicate Placed(fp: Fp, place: int)
  {
    var top := ValueOf(fp) + UpperGap(fp);
    RAtLeast(top, RPow10(place), fp.f % 2 == 0) && RAtLeast(RPow10(place + 1), top, fp.f % 2 == 1)
  }

  /** What the shortest mode promises: digits from the first place of the upper end that are a
      shortest decimal of the interval, or the one digit of the value and a needless zero. */
  ghost predicate PrintsShortest(fp: Fp, closer: bool, x: int, text: seq<char>, exp10: int)
    requires fp.e >= 0 ==> x >= 0
  {
    var v, lo, hi := ValueOf(fp), LowerGap(fp, closer), UpperGap(fp);
    && text != [] && AllDigits(text) && text[0] != '0' && Number(text) >= 0
    && Placed(fp, exp10 + |text| - 1)
    && (NoZeroFollows(fp, closer, x) ==>
          IsShortest(v, lo, hi, IncludesLow(fp, closer, x), fp.f % 2 == 0, Number(text), exp10, |text| - 1))
    && (forall d: nat :: ZeroFollows(fp, closer, x, d) ==> text == [DigitChar(d), '0'] && exp10 == x - 1)
  }

  /** If the numerator is stored above the lower distance, then by one bigit, so that after one
      multiplication by ten the distance reaches up to it; and the upper distance is small. */
  lemma StoredAbove(fp: Fp, closer: bool, x: int)
    requires (fp.e >= 0 ==> x >= 0) && NumerStays(fp, closer, x) > LowerExp(fp, x)
    ensures fp.e >= 0 && fp.e + Shift(closer) >= 32
    ensures Setting(fp, closer, x).l < BasePow(NumerStays(fp, closer, x)) <= 4 * Setting(fp, closer, x).l
    ensures 10 * Setting(fp, closer, x).u < Setting(fp, closer, x).d
  {
    var e, s, ne := fp.e, Shift(closer), NumerStays(fp, closer, x);
    assert e >= 0 && x > e && e < 32 * ne <= e + s;
    BaseIsPow2(ne);
    Pow2Monotone(e + 1, 32 * ne);
    Pow2Monotone(32 * ne, e + 2);
    assert Pow2(e + 1) == 2 * Pow2(e) && Pow2(e + 2) == 4 * Pow2(e);
    TwosBelowTens(e);
    Pow10Monotone(e + 1, x);
    assert Pow10(e + 1) == 10 * Pow10(e) && Pow2(1) == 2 && Pow2(2) == 4;
  }

  lemma {:induction false} TwosBelowTens(k: nat)
    ensures Pow2(k) <= Pow10(k)
  {
    if k > 0 {
      TwosBelowTens(k - 1);
    }
  }

  lemma DigitNotBelow(d: nat, x: int)
    requires d > 0
    ensures Decimal(d, x) >= RPow10(x)
  {
    if d > 1 {
      RMulLt(1.0, d as real, RPow10(x));
    }
  }

  /** The digit that leaves a missed zero, seen from the numbers and from the value. */
  lemma MissedZero(fp: Fp, closer: bool, x: int, scaled: bool, b: Bounds, ne: nat, d: nat)
    requires fp.f > 0 && (fp.e >= 0 ==> x >= 0) && (scaled ==> ValueOf(fp) < RPow10(x))
    requires b == Rescaled(Setting(fp, closer, x), scaled) && ne == NumerStays(fp, closer, x)
    requires ne <= LowerExp(fp, x) ==> BasePow(ne) <= b.l
    ensures BasePow(ne) <= 10 * b.l && (b.l < BasePow(ne) ==> b.u < b.d)
    ensures ZeroFollows(fp, closer, x, d) <==>
              LeavesMissed(b, d, ne) && !(b.n == b.d && NumerExp(fp, closer, x) > DenomExp(fp, closer, x))
    ensures ZeroFollows(fp, closer, x, d) ==> !scaled
  {
    hide RPow10, RPow2, Setting, NumerExp, DenomExp, LowerExp, IsRatio, BasePow;
    var b0 := Setting(fp, closer, x);
    SettingDescribes(fp, closer, x);
    if d > 0 {
      DigitNotBelow(d, x);
    }
    if ne > LowerExp(fp, x) {
      StoredAbove(fp, closer, x);
      CompareDecimal(ValueOf(fp), b0.n, b0.d, x, d, 0);
      assert Pow10(0) == 1 && x - 0 == x;
      if d > 1 {
        MulLt(1, d, b0.d);
      }
    }
  }

  lemma UpperEndPlaced(fp: Fp, closer: bool, b: Bounds, place: int)
    requires WellFormed(b) && Describes(b, ValueOf(fp), LowerGap(fp, closer), UpperGap(fp), place)
    requires AtLeast(10 * b.d, b.n + b.u, fp.f % 2 == 1) && AtLeast(b.n + b.u, b.d, fp.f % 2 == 0)
    ensures Placed(fp, place)
  {
    hide RPow10, IsRatio, RPow2;
    UpperEnd(b, ValueOf(fp), LowerGap(fp, closer), UpperGap(fp), place, true);
    UpperEnd(b, ValueOf(fp), LowerGap(fp, closer), UpperGap(fp), place, false);
  }

  // ----- a given number of digits -----

  ghost predicate IsTen(v: real, x: int, j: nat)
  {
    v == RPow10(x - j)
  }

  /** v is a power of ten, at one of i places from x downwards. */
  ghost predicate IsTenWithin(v: real, x: int, i: int)
  {
    exists j: nat :: j < i && IsTen(v, x, j)
  }

  lemma ReachesTenIsTen(v: real, n: nat, d: nat, x: int, i: int)
    requires d > 0 && IsRatio(v, n, d, x)
    ensures ReachesTen(n, d, i) == IsTenWithin(v, x, i)
  {
    hide RPow10, IsRatio;
    forall j: nat
      ensures IsTen(v, x, j) == (n * Pow10(j) == d)
    {
      CompareDecimal(v, n, d, x, 1, j);
      assert Decimal(1, x - j) == RPow10(x - j);
    }
    if ReachesTen(n, d, i) {
      var j: nat :| j < i && n * Pow10(j) == d;
      assert IsTen(v, x, j);
    }
  }

  /** The text is v rounded to p at the last of count places from the given one. A carry out of
      the first place makes the text longer, or goes to the exponent. */
  ghost predicate SpellsRounded(v: real, p: nat, place: int, count: int, fixed: bool, text: seq<char>, exp10: int)
  {
    var y := place - count + 1;
    && IsRounded(v, p, y) && exp10 >= y && Number(text) * Pow10(exp10 - y) == p
    && if count <= 0 then |text| == 1 && exp10 == y
       else
         && |text| == count + (if fixed && p == Pow10(count) then 1 else 0)
         && exp10 == y + if !fixed && p == Pow10(count) then 1 else 0
  }

  /** What the fixed mode promises for count digits from the given first place. The string is
      not a number only if the division of an equal but differently stored number is reached
      before the last place. */
  ghost predicate PrintsFixed(fp: Fp, closer: bool, x: int, place: int, count: int, fixed: bool,
                              text: seq<char>, exp10: int)
    requires fp.e >= 0 ==> x >= 0
  {
    && Number(text) >= 0 && RoundedTo(ValueOf(fp), Decimal(Number(text), exp10), place - count + 1)
    && (exists p: nat :: SpellsRounded(ValueOf(fp), p, place, count, fixed, text, exp10))
    && (count > 0 && AllDigits(text) ==> (text[0] != '0' <==> RoundsToPlace(ValueOf(fp), place, count)))
    && (AllDigits(text) <==> !(NumerExp(fp, closer, x) > DenomExp(fp, closer, x)
                               && IsTenWithin(ValueOf(fp), place, count - 1)))
  }

  lemma FewDigitsRatio(v: real, n: nat, d: nat, x: int, k: nat)
    requires IsRatio(v, n, d, x)
    ensures IsRatio(v, n, d * Pow10(k), x + k)
  {
    hide RPow10, Pow10;
    var p, r := Pow10(k) as real, RPow10(x);
    RPow10Split(x + k, k);
    RealProduct(d, Pow10(k));
    assert v * (d as real * p) == n as real * (r * p) by {
      RMulAssoc(v, d as real, p);
      RMulAssoc(n as real, r, p);
    }
  }

  /** Rounding where no digit is asked for. */
  lemma FewDigitsRounded(n: nat, d: nat, k: nat, p: nat)
    requires k > 0 && n < 10 * d && p == if k == 1 && 2 * n > 10 * d then 1 else 0
    ensures d * Pow10(k) > 0 && IsNearest(n, d * Pow10(k), p)
  {
    assert Pow10(1) == 10;
    if k > 1 {
      Pow10Monotone(2, k);
      MulLe(100, Pow10(k), d);
    }
  }

  method PrintFew(num: Bigint, den: Bigint, count: int, ghost n: nat, ghost d: nat)
    returns (text: seq<char>, ghost p: nat)
    requires num != den && count <= 0 && num.Positive() && den.Positive()
    requires num.Val() == n && den.Val() == d && d > 0 && n < 10 * d
    modifies den
    ensures |text| == 1 && AllDigits(text) && Number(text) == p
    ensures d * Pow10(1 - count) > 0 && IsNearest(n, d * Pow10(1 - count), p)
  {
    var digit := '0';
    if count == 0 {
      den.Multiply(10);
      var c := Bigint.AddCompare(num, num, den);
      digit := if c > 0 then '1' else '0';
    }
    text := [digit];
    p := DigitOf(digit);
    assert text[..0] == [];
    FewDigitsRounded(n, d, 1 - count, p);
  }

  /** A given number of digits, for a value below the place above the first one. */
  method PrintFixed(num: Bigint, den: Bigint, count: int, fixed: bool, place: int,
                    ghost fp: Fp, ghost closer: bool, ghost x: int, ghost n: nat)
    returns (text: seq<char>, exp10: int)
    requires fp.e >= 0 ==> x >= 0
    requires num != den && num.Positive() && den.Positive() && num.Val() == n && n < 10 * den.Val()
    requires IsRatio(ValueOf(fp), n, den.Val(), place)
    requires num.exp == NumerExp(fp, closer, x) && den.exp == DenomExp(fp, closer, x)
    modifies num, den
    ensures PrintsFixed(fp, closer, x, place, count, fixed, text, exp10)
  {
    hide IsRatio, IsNearest, ReachesTen, IsTenWithin, AllDigits, RoundedTo, RoundsToPlace, IsRounded, Bigint.Val, Number;
    ghost var v, d, p := ValueOf(fp), den.Val(), 0;
    assert d > 0;
    exp10 := place - (count - 1);
    if count <= 0 {
      text, p := PrintFew(num, den, count, n, d);
      FewDigitsRatio(v, n, d, place, 1 - count);
      RoundedDecimal(v, n, d * Pow10(1 - count), p, exp10, p, 0);
      NearestIsRounded(v, n, d * Pow10(1 - count), p, exp10);
      assert Pow10(0) == 1;
      assert SpellsRounded(v, p, place, count, fixed, text, exp10);
      NotTen(v, place, count - 1);
    } else {
      var inc;
      text, inc, p := GenerateDigits(num, den, count, fixed, n, d);
      ShiftPoint(v, n, d, place, count - 1);
      PositiveFactor(Number(text), Pow10(inc), p);
      RoundedDecimal(v, n * Pow10(count - 1), d, p, exp10, Number(text), inc);
      NearestIsRounded(v, n * Pow10(count - 1), d, p, exp10);
      RoundedReaches(v, p, place, count);
      if AllDigits(text) {
        FirstCharacter(text, inc, p, count, fixed);
      }
      ReachesTenIsTen(v, n, d, place, count - 1);
      assert SpellsRounded(v, p, place, count, fixed, text, exp10 + inc);
      exp10 := exp10 + inc;
    }
  }

  lemma NotTen(v: real, x: int, i: int)
    requires i <= 0
    ensures !IsTenWithin(v, x, i)
  {
  }

  lemma PositiveFactor(m: int, k: nat, p: nat)
    requires m * k == p && k > 0
    ensures m >= 0
  {
    if m < 0 {
      MulLe(m, -1, k);
    }
  }

  method PrintShortest(num: Bigint, den: Bigint, low: Bigint, up: Bigint, place: int,
                       ghost fp: Fp, ghost closer: bool, ghost x: int, even: bool, ghost scaled: bool, ghost b: Bounds)
    returns (text: seq<char>, exp10: int)
    requires fp.f > 0 && (fp.e >= 0 ==> x >= 0) && even == (fp.f % 2 == 0)
    requires b == Rescaled(Setting(fp, closer, x), scaled) && place == if scaled then x - 1 else x
    requires scaled ==> ValueOf(fp) < RPow10(x)
    requires Separate(num, den, low, up) && Holds(num, den, low, up, b) && WellFormed(b)
    requires Describes(b, ValueOf(fp), LowerGap(fp, closer), UpperGap(fp), place)
    requires AtLeast(10 * b.d, b.n + b.u, !even) && AtLeast(b.n + b.u, b.d, even)
    requires num.exp == NumerExp(fp, closer, x) && den.exp == DenomExp(fp, closer, x) && low.exp == LowerExp(fp, x)
    modifies num, low, up
    ensures PrintsShortest(fp, closer, x, text, exp10) && exp10 + |text| - 1 == place
  {
    hide Inside, NoneShorter, ClosestInside, Describes, WellFormed, IsShortest, AllDigits, Placed, AtLeast;
    hide Setting, Rescaled, NumerExp, DenomExp, LowerExp, ValueOf, UpperGap, LowerGap, ZeroFollows, LeavesMissed, Bigint.Val, RPow10;
    assert Pow10(0) == 1;
    ghost var m, ne := 0, NumerStays(fp, closer, x);
    ReachesOwnBigit(low, ne);
    MissedZero(fp, closer, x, scaled, b, ne, 0);
    forall d: nat
      ensures ZeroFollows(fp, closer, x, d) <==> LeavesMissed(b, d, ne) && !Stale(num, den)
      ensures ZeroFollows(fp, closer, x, d) ==> !scaled
    {
      MissedZero(fp, closer, x, scaled, b, ne, d);
    }
    text, m := ShortestDigits(num, den, low, up, even, b);
    exp10 := place - (|text| - 1);
    UpperEndPlaced(fp, closer, b, place);
    if NoZeroFollows(fp, closer, x) {
      ShortestAtReal(b, ValueOf(fp), LowerGap(fp, closer), UpperGap(fp), place, IncludesLow(fp, closer, x), even,
                     m, |text| - 1);
    }
  }

  lemma ReachesOwnBigit(low: Bigint, ne: nat)
    requires low.Positive()
    ensures ne <= low.exp ==> BasePow(ne) <= low.Val()
  {
    ScaleBound(low.bigits, low.exp);
    if ne <= low.exp {
      BaseMonotone(ne, low.NumBigits() - 1);
    }
  }

  /** The whole routine. The estimate of the first place may be one too high if fixup is set. */
  method FormatDragon(fp: Fp, closer: bool, fixup: bool, fixed: bool, numDigits: int, x: int)
    returns (r: Printed)
    requires 0 < fp.f < 0x1_0000_0000_0000_0000_0000_0000_0000_0000
    requires -0x8000_0000 < x < 0x7fff_ffff && (fp.e >= 0 ==> x >= 0)
    requires var top, even := ValueOf(fp) + UpperGap(fp), fp.f % 2 == 0;
             if numDigits < 0 then
               RAtLeast(RPow10(x + 1), top, !even) && RAtLeast(top, RPow10(if fixup then x - 1 else x), even)
             else
               ValueOf(fp) < RPow10(x + 1)
    ensures numDigits < 0 ==> r.Digits? && PrintsShortest(fp, closer, x, r.text, r.exp10)
    ensures numDigits < 0 ==> r.exp10 + |r.text| - 1 == FirstPlace(fp, fixup, x)
    ensures var place := FirstPlace(fp, fixup, x);
            var count := if fixup && fixed then numDigits + (place + 1) else numDigits;
            && (r.TooBig? <==> fixup && fixed && place + 1 > 0 && count > 0x7fff_ffff)
            && (numDigits >= 0 && r.Digits? ==>
                  PrintsFixed(fp, closer, x, place, count, fixed, r.text, r.exp10))
  {
    hide PrintsShortest, PrintsFixed, Describes, WellFormed, AtLeast, RAtLeast, RPow10, RPow2, Setting, Bigint.Val;
    hide NumerExp, DenomExp, LowerExp;
    var num, den, low, up := Setup(fp, closer, x);
    var even := fp.f % 2 == 0;
    ghost var b, v, lo, hi := Setting(fp, closer, x), ValueOf(fp), LowerGap(fp, closer), UpperGap(fp);
    SettingDescribes(fp, closer, x);
    var place, count, scaled := x, numDigits, false;
    if fixup {
      scaled := Fixup(num, den, low, up, even, numDigits < 0, b);
      place := if scaled then x - 1 else x;
      if fixed {
        var ok;
        ok, count := AdjustPrecision(numDigits, place + 1);
        if !ok {
          RescaledFits(b, fixup, scaled, v, lo, hi, x, even);
          return TooBig;
        }
      }
    }
    RescaledFits(b, fixup, scaled, v, lo, hi, x, even);
    ghost var b' := Rescaled(b, scaled);
    var text, exp10;
    if numDigits < 0 {
      text, exp10 := PrintShortest(num, den, low, up, place, fp, closer, x, even, scaled, b');
    } else {
      text, exp10 := PrintFixed(num, den, count, fixed, place, fp, closer, x, b'.n);
    }
    r := Digits(text, exp10);
  }
}