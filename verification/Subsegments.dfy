/** Printing up to eighteen digits of a 19-digit segment by fixed-point multiplications, and
    rounding by the fraction that is left. */
module Subsegments {
  import opened Powers
  import opened Rationals
  import opened DigitStrings
  import opened Shortest
  import opened Rounding

  // ----- the fixed-point fraction -----

  /** prod is r/unit as a fixed-point number with 32 fractional bits, too large by less than
      one unit in the last place times 1/unit. */
  ghost predicate Tracks(prod: nat, unit: nat, r: nat, error: nat)
  {
    prod * unit == 0x1_0000_0000 * r + error && 0 < error < 0x1_0000_0000
  }

  /** The integer part is the quotient, and the fraction tracks the remainder. */
  lemma SplitFraction(prod: nat, unit: nat, r: nat, error: nat)
    requires unit > 0 && Tracks(prod, unit, r, error)
    ensures prod / 0x1_0000_0000 == r / unit && Tracks(prod % 0x1_0000_0000, unit, r % unit, error)
  {
    var q, f := prod / 0x1_0000_0000, prod % 0x1_0000_0000;
    MulDist(0x1_0000_0000 * q, f, unit);
    MulAssoc(0x1_0000_0000, q, unit);
    var rest := r - q * unit;
    assert f * unit == 0x1_0000_0000 * rest + error;
    MulLt(f, 0x1_0000_0000, unit);
    DivUnique(unit, q, rest);
  }

  /** One more pair of digits. */
  lemma NextPair(f: nat, unit: nat, r: nat, error: nat)
    requires Tracks(f, 100 * unit, r, error)
    ensures Tracks(f * 100, unit, r, error)
  {
    MulAssoc(f, 100, unit);
  }

  lemma PairOfQuotient(n: nat, unit: nat)
    requires unit > 0
    ensures n / unit == 100 * (n / (100 * unit)) + n % (100 * unit) / unit
    ensures n % (100 * unit) % unit == n % unit && n % (100 * unit) / unit < 100
  {
    var q, r := n / (100 * unit), n % (100 * unit);
    DivMod(n, 100 * unit);
    DivMod(r, unit);
    var h, l := r / unit, r % unit;
    assert n == unit * (100 * q + h) + l by {
      MulDist(100 * q, h, unit);
      MulPull(unit, 100, q);
      MulAssoc(100, unit, q);
    }
    DivUnique(unit, 100 * q + h, l);
    if h >= 100 {
      MulLe(100, h, unit);
    }
  }

  // ----- the digits -----

  /** Two digits at once. */
  function TwoDigits(value: nat): (s: seq<char>)
    requires value < 100
    ensures |s| == 2 && AllDigits(s) && Number(s) == value
  {
    assert [DigitChar(value / 10)] == [] + [DigitChar(value / 10)];
    NumberSnoc([], DigitChar(value / 10));
    NumberSnoc([DigitChar(value / 10)], DigitChar(value % 10));
    assert [DigitChar(value / 10), DigitChar(value % 10)] == [DigitChar(value / 10)] + [DigitChar(value % 10)];
    [DigitChar(value / 10), DigitChar(value % 10)]
  }

  lemma LastPairParity(m: int, value: nat)
    ensures (100 * m + value) % 2 == value % 2
  {
    DivMod(value, 2);
    DivUnique(2, 50 * m + value / 2, value % 2);
  }

  lemma AppendPair(s: seq<char>, value: nat)
    requires AllDigits(s) && value < 100
    ensures AllDigits(s + TwoDigits(value)) && Number(s + TwoDigits(value)) == 100 * Number(s) + value
    ensures Number(s + TwoDigits(value)) % 2 == value % 2
  {
    NumberConcat(s, TwoDigits(value));
    assert Pow10(2) == 100;
    LastPairParity(Number(s), value);
  }

  /** The digits s of n down to the given unit, with the last product and last digits. */
  ghost predicate Printed(n: nat, unit: nat, s: seq<char>, prod: nat, digits: nat, error: nat)
    requires unit > 0
  {
    && AllDigits(s) && Number(s) == n / unit && digits % 2 == Number(s) % 2
    && Tracks(prod % 0x1_0000_0000, unit, n % unit, error)
  }

  /** 720575941 is just above 2^56 / 10^8. */
  lemma FirstDigit(n: nat, prod: nat, digits: nat) returns (error: nat)
    requires n < 1_000_000_000 && prod == n * 720575941 / 0x100_0000 + 1 && digits == prod / 0x1_0000_0000
    ensures digits <= 9 && Printed(n, Pow10(8), [DigitChar(digits)], prod, digits, error)
  {
    error := prod * 1_0000_0000 - 0x1_0000_0000 * n;
    SplitFraction(prod, 1_0000_0000, n, error);
    NumberSnoc([], DigitChar(prod / 0x1_0000_0000));
    assert [] + [DigitChar(prod / 0x1_0000_0000)] == [DigitChar(prod / 0x1_0000_0000)];
    assert Pow10(4) == 1_0000;
    Pow10Add(4, 4);
  }

  /** 450359963 is just above 2^52 / 10^7. */
  lemma FirstPair(n: nat, prod: nat, digits: nat) returns (error: nat)
    requires n < 1_000_000_000 && prod == n * 450359963 / 0x10_0000 + 1 && digits == prod / 0x1_0000_0000
    ensures digits < 100 && Printed(n, Pow10(7), TwoDigits(digits), prod, digits, error)
  {
    error := prod * 1000_0000 - 0x1_0000_0000 * n;
    SplitFraction(prod, 1000_0000, n, error);
    assert Pow10(3) == 1000 && Pow10(4) == 1_0000;
    Pow10Add(3, 4);
  }

  lemma PrintedPair(n: nat, unit: nat, s: seq<char>, prod: nat, digits: nat, error: nat, next: nat, pair: nat)
    requires unit > 0 && Printed(n, 100 * unit, s, prod, digits, error)
    requires next == prod % 0x1_0000_0000 * 100 && pair == next / 0x1_0000_0000
    ensures pair < 100 && Printed(n, unit, s + TwoDigits(pair), next, pair, error)
  {
    hide Tracks, AllDigits, Number;
    var q, r := n / (100 * unit), n % (100 * unit);
    assert pair == r / unit && Tracks(next % 0x1_0000_0000, unit, r % unit, error) by {
      NextPair(prod % 0x1_0000_0000, unit, r, error);
      SplitFraction(next, unit, r, error);
    }
    assert n / unit == 100 * q + pair && r % unit == n % unit && pair < 100 by {
      PairOfQuotient(n, unit);
    }
    AppendPair(s, pair);
  }

  lemma HundredUnits(k: nat)
    requires k >= 2
    ensures Pow10(k) == 100 * Pow10(k - 2)
  {
  }

  /** The first digit or the first two, so that an even number of digits is left to write. */
  method StartSubsegment(n: nat, count: nat) returns (s: seq<char>, prod: nat, digits: nat, ghost error: nat)
    requires n < 1_000_000_000 && count > 0
    ensures 1 <= |s| <= 2 && (count - |s|) % 2 == 0 && Printed(n, Pow10(9 - |s|), s, prod, digits, error)
  {
    hide Printed, Pow10, AllDigits, Number, TwoDigits, DigitChar;
    if count % 2 != 0 {
      prod := n * 720575941 / 0x100_0000 + 1;
      digits := prod / 0x1_0000_0000;
      error := FirstDigit(n, prod, digits);
      s := [DigitChar(digits)];
    } else {
      prod := n * 450359963 / 0x10_0000 + 1;
      digits := prod / 0x1_0000_0000;
      error := FirstPair(n, prod, digits);
      s := TwoDigits(digits);
    }
  }

  /** Writes the count leading digits of a number below 10^9, and returns them with the last
      product, whose fraction tracks what is left, and the digits written last. */
  method PrintSubsegment(n: nat, count: nat) returns (s: seq<char>, prod: nat, digits: nat, ghost error: nat)
    requires n < 1_000_000_000 && 1 <= count <= 9
    ensures |s| == count && Printed(n, Pow10(9 - count), s, prod, digits, error)
  {
    hide Printed, Pow10, AllDigits, Number, TwoDigits, DigitChar;
    s, prod, digits, error := StartSubsegment(n, count);
    while |s| < count
      invariant 1 <= |s| <= count && (count - |s|) % 2 == 0 && Printed(n, Pow10(9 - |s|), s, prod, digits, error)
    {
      HundredUnits(9 - |s|);
      ghost var before := prod;
      prod := prod % 0x1_0000_0000 * 100;
      PrintedPair(n, Pow10(7 - |s|), s, before, digits, error, prod, prod / 0x1_0000_0000);
      digits := prod / 0x1_0000_0000;
      s := s + TwoDigits(digits);
    }
  }

  // ----- rounding by the fraction -----

  /** The smallest fraction, of 2^32, that shows that more than half of 10^(index + 1) is left. */
  function Threshold(index: nat): nat
    requires index < 8
  {
    [0x9999_999a, 0x828f_5c29, 0x8041_8938, 0x8006_8db9, 0x8000_a7c6, 0x8000_10c7, 0x8000_01ae, 0x8000_002b][index]
  }

  lemma ThresholdValue(index: nat)
    requires index < 8
    ensures var d := Pow10(index + 1);
            (Threshold(index) - 1) * d < 0x8000_0000 * d + 0x1_0000_0000 <= Threshold(index) * d
  {
    assert Pow10(1) == 10 && Pow10(2) == 100 && Pow10(3) == 1000 && Pow10(4) == 1_0000;
    assert Pow10(5) == 10 * Pow10(4) && Pow10(6) == 10 * Pow10(5);
    assert Pow10(7) == 10 * Pow10(6) && Pow10(8) == 10 * Pow10(7);
  }

  /** Comparing the fraction decides exactly how the remainder compares with one half. */
  lemma FractionTest(f: nat, d: nat, r: nat, error: nat, t: nat)
    requires Tracks(f, d, r, error) && d % 2 == 0 && d > 0
    requires (t - 1) * d < 0x8000_0000 * d + 0x1_0000_0000 <= t * d
    ensures f >= t <==> 2 * r > d
    ensures f >= 0x8000_0000 <==> 2 * r >= d
  {
    if f >= t {
      MulLe(t, f, d);
    } else {
      MulLe(f, t - 1, d);
    }
    if f >= 0x8000_0000 {
      MulLe(0x8000_0000, f, d);
    } else {
      MulLt(f, 0x8000_0000, d);
    }
  }

  /** Whether t and the rest rho, out of d, are rounded up half to even after an odd or even digit. */
  ghost predicate Upwards(d: nat, t: nat, rho: real, odd: bool)
  {
    var twice := 2.0 * (t as real + rho);
    twice > d as real || (twice == d as real && odd)
  }

  /** The first r of d units decide, unless they are exactly half; w is what a unit holds. */
  lemma LeadingPartDecides(r: nat, d: nat, w: nat, t: nat, rho: real, odd: bool)
    requires d % 2 == 0 && w > 0 && rho >= 0.0 && t as real + rho < w as real
    ensures Upwards(d * w, r * w + t, rho, odd) <==> 2 * r > d || (2 * r == d && (odd || t > 0 || rho > 0.0))
  {
    var rest := t as real + rho;
    assert (r * w + t) as real == (r * w) as real + t as real;
    if 2 * r > d {
      MulLe(d + 2, 2 * r, w);
      MulDist(d, 2, w);
      MulAssoc(2, r, w);
    } else if 2 * r < d {
      MulLe(2 * r + 2, d, w);
      MulDist(2 * r, 2, w);
      MulAssoc(2, r, w);
    } else {
      MulAssoc(2, r, w);
      assert 2 * (r * w) == d * w;
    }
  }

  /** The rest above a multiple a of the unit decides between it and the next one. */
  lemma RoundRest(v: real, a: real, unit: real, rest: real, q: nat, up: bool)
    requires v == a + rest && 0.0 <= rest < unit
    requires up == (2.0 * rest > unit || (2.0 * rest == unit && q % 2 == 1))
    ensures var twice := 2.0 * RAbs((if up then a + unit else a) - v);
            twice <= unit && (twice == unit ==> (if up then q + 1 else q) % 2 == 0)
  {
  }

  lemma MultipleOfUnit(q: nat, d: nat, y: int)
    requires d as real == RPow10(y)
    ensures Decimal(q, y) == (q * d) as real && Decimal(q + 1, y) == (q * d) as real + d as real
  {
    hide RPow10;
    RealProduct(q, d);
    RealProduct(q + 1, d);
    MulDist(q, 1, d);
  }

  lemma RoundSegment(segment: nat, rho: real, d: nat, q: nat, t: nat, up: bool, y: int)
    requires segment == q * d + t && rho >= 0.0 && t as real + rho < d as real == RPow10(y)
    requires up == Upwards(d, t, rho, q % 2 == 1)
    ensures IsRounded(segment as real + rho, if up then q + 1 else q, y)
  {
    MultipleOfUnit(q, d, y);
    hide RPow10, Decimal, RAbs;
    RoundRest(segment as real + rho, (q * d) as real, d as real, t as real + rho, q, up);
  }

  /** Rounding the remainder of n by d half to even, if more may follow it, after the digits m. */
  ghost predicate RoundsInside(n: nat, d: nat, m: int, more: bool)
    requires d > 0
  {
    2 * (n % d) > d || (2 * (n % d) == d && (m % 2 == 1 || more))
  }

  lemma ThresholdTest(f: nat, count: nat, n: nat, error: nat)
    requires 1 <= count <= 8 && Tracks(f, Pow10(9 - count), n % Pow10(9 - count), error)
    ensures f >= Threshold(8 - count) <==> 2 * (n % Pow10(9 - count)) > Pow10(9 - count)
    ensures f >= 0x8000_0000 <==> 2 * (n % Pow10(9 - count)) >= Pow10(9 - count)
  {
    hide Tracks, Threshold, Pow10;
    EvenPower(9 - count);
    ThresholdValue(8 - count);
    FractionTest(f, Pow10(9 - count), n % Pow10(9 - count), error, Threshold(8 - count));
  }

  /** The rounding decision inside a subsegment, from the digits s printed of n; more says
      whether anything but zeros follows n. */
  method RoundInside(prod: nat, digits: nat, count: nat, more: bool, ghost n: nat, ghost s: seq<char>, ghost error: nat)
    returns (up: bool)
    requires 1 <= count <= 8 && Printed(n, Pow10(9 - count), s, prod, digits, error)
    ensures up == RoundsInside(n, Pow10(9 - count), Number(s), more)
  {
    hide Tracks, Threshold, Pow10, Number, AllDigits;
    var fractional := prod % 0x1_0000_0000;
    ThresholdTest(fractional, count, n, error);
    up := fractional >= Threshold(8 - count) || (fractional / 0x8000_0000 != 0 && (digits % 2 != 0 || more));
  }

  /** The digits s of the segment down to the unit d, and whether what follows rounds them up. */
  ghost predicate Decided(segment: nat, rho: real, d: nat, s: seq<char>, up: bool)
  {
    var t := segment - Number(s) * d;
    AllDigits(s) && t >= 0 && t as real + rho < d as real && up == Upwards(d, t, rho, Number(s) % 2 == 1)
  }

  lemma InsideDecided(segment: nat, m: int, d: nat, r: nat, w: nat, t: nat, rho: real, s: seq<char>, up: bool)
    requires AllDigits(s) && Number(s) == m && segment == (m * d + r) * w + t
    requires r < d && d % 2 == 0 && w > 0 && rho >= 0.0 && t as real + rho < w as real
    requires up <==> 2 * r > d || (2 * r == d && (m % 2 == 1 || t > 0 || rho > 0.0))
    ensures Decided(segment, rho, d * w, s, up)
  {
    hide AllDigits, Number;
    LeadingPartDecides(r, d, w, t, rho, m % 2 == 1);
    var unit, rest := d * w, r * w + t;
    assert segment == m * unit + rest by {
      MulDist(m * d, r, w);
      MulAssoc(m, d, w);
    }
    assert rest as real + rho < unit as real by {
      MulLe(r + 1, d, w);
      MulDist(r, 1, w);
    }
  }

  /** At the end of a subsegment what follows is compared with one half directly. */
  lemma BoundaryDecided(segment: nat, m: int, w: nat, t: nat, rho: real, s: seq<char>, up: bool)
    requires AllDigits(s) && Number(s) == m && segment == m * w + t
    requires w % 2 == 0 && 0.0 <= rho && t as real + rho < w as real
    requires rho < 1.0 || (t % 10 == 0 && w % 20 == 0 && rho < 10.0)
    requires up <==> t > w / 2 || (t == w / 2 && (m % 2 == 1 || rho > 0.0))
    ensures Decided(segment, rho, w, s, up)
  {
    assert w == 2 * (w / 2);
    if t < w / 2 && rho >= 1.0 {
      assert t + 10 <= w / 2;
    }
  }

  lemma FirstDivision(segment: nat)
    requires segment < 10_000_000_000_000_000_000
    ensures segment * 7922816251426433760 / 0x1_0000_0000_0000_0000 / 0x1_0000_0000 == segment / 10_000_000_000
  {
    var q, r := segment / 10_000_000_000, segment % 10_000_000_000;
    var rest := q * 6456049664 + r * 7922816251426433760;
    assert segment * 7922816251426433760 == 0x1_0000_0000_0000_0000_0000_0000 * q + rest;
    DivUnique(0x1_0000_0000_0000_0000_0000_0000, q, rest);
    DivDiv(segment * 7922816251426433760, 0x1_0000_0000_0000_0000, 0x1_0000_0000);
  }

  /** The first nine digits of a segment. */
  function FirstPart(segment: nat): (first: nat)
    requires segment < 10_000_000_000_000_000_000
    ensures first == segment / 10_000_000_000
  {
    FirstDivision(segment);
    segment * 7922816251426433760 / 0x1_0000_0000_0000_0000 / 0x1_0000_0000 % 0x1_0000_0000
  }

  lemma SecondDivision(st: nat)
    requires st < 10_000_000_000
    ensures st * 1844674407370955162 / 0x1_0000_0000_0000_0000 == st / 10
    ensures (st % 0x1_0000_0000 - st / 10 * 10) % 0x1_0000_0000 == st % 10
  {
    var q, r := st / 10, st % 10;
    var rest := q * 4 + r * 1844674407370955162;
    assert st * 1844674407370955162 == 0x1_0000_0000_0000_0000 * q + rest;
    DivUnique(0x1_0000_0000_0000_0000, q, rest);
  }

  /** How much may follow the segment: less than one, or less than ten behind a zero added to
      align a segment of 18 digits, of which then at most 17 are printed. */
  ghost predicate Follows(segment: nat, more: bool, rho: real, precision: int)
  {
    && more == (rho > 0.0) && rho >= 0.0
    && (rho < 1.0 || (rho < 10.0 && segment % 10 == 0 && precision <= 17))
  }

  lemma EvenPower(k: nat)
    requires k > 0
    ensures Pow10(k) % 2 == 0
  {
  }

  lemma FirstDecided(first: nat, secondThird: nat, more: bool, precision: nat, segment: nat, rho: real,
                     s: seq<char>, up: bool)
    requires 1 <= precision <= 8 && secondThird < 10_000_000_000 && segment == first * 10_000_000_000 + secondThird
    requires Follows(segment, more, rho, precision)
    requires AllDigits(s) && Number(s) == first / Pow10(9 - precision)
    requires up == RoundsInside(first, Pow10(9 - precision), Number(s), secondThird != 0 || more)
    ensures Decided(segment, rho, Pow10(9 - precision) * 10_000_000_000, s, up)
  {
    hide Decided, AllDigits, Number, Pow10;
    var d := Pow10(9 - precision);
    var m, r := first / d, first % d;
    EvenPower(9 - precision);
    assert first == m * d + r && r < d by {
      DivMod(first, d);
    }
    InsideDecided(segment, m, d, r, 10_000_000_000, secondThird, rho, s, up);
  }

  /** Up to nine digits come from the first subsegment. */
  method PrintFirst(first: nat, secondThird: nat, more: bool, precision: nat, ghost segment: nat, ghost rho: real)
    returns (s: seq<char>, up: bool)
    requires first < 1_000_000_000 && secondThird < 10_000_000_000 && segment == first * 10_000_000_000 + secondThird
    requires 1 <= precision <= 9 && Follows(segment, more, rho, precision)
    ensures |s| == precision && Decided(segment, rho, Pow10(9 - precision) * 10_000_000_000, s, up)
  {
    hide Decided, RoundsInside, Tracks, AllDigits, Number, Follows;
    var prod, digits;
    ghost var error;
    s, prod, digits, error := PrintSubsegment(first, precision);
    if precision < 9 {
      up := RoundInside(prod, digits, precision, secondThird != 0 || more, first, s, error);
      FirstDecided(first, secondThird, more, precision, segment, rho, s, up);
    } else {
      up := secondThird > 5_000_000_000 || (secondThird == 5_000_000_000 && (digits % 2 != 0 || more));
      NineDecided(first, secondThird, more, segment, rho, s, up);
    }
  }

  lemma NineDecided(first: nat, secondThird: nat, more: bool, segment: nat, rho: real, s: seq<char>, up: bool)
    requires secondThird < 10_000_000_000 && segment == first * 10_000_000_000 + secondThird
    requires Follows(segment, more, rho, 9) && AllDigits(s) && Number(s) == first / Pow10(0)
    requires up == (secondThird > 5_000_000_000 || (secondThird == 5_000_000_000 && (Number(s) % 2 != 0 || more)))
    ensures Decided(segment, rho, Pow10(0) * 10_000_000_000, s, up)
  {
    hide Decided, AllDigits, Number, Pow10;
    assert Number(s) == first && Pow10(0) * 10_000_000_000 == 10_000_000_000 by {
      NineIsAll(first);
    }
    BoundaryDecided(segment, first, 10_000_000_000, secondThird, rho, s, up);
  }

  /** The digits of both subsegments. */
  lemma JoinDigits(first: nat, second: nat, count: nat, s1: seq<char>, s2: seq<char>)
    requires 1 <= count <= 9 && |s2| == count && AllDigits(s1) && AllDigits(s2)
    requires Number(s1) == first && Number(s2) == second / Pow10(9 - count)
    ensures AllDigits(s1 + s2) && Number(s1 + s2) == first * Pow10(count) + second / Pow10(9 - count)
    ensures Number(s1 + s2) * Pow10(9 - count) + second % Pow10(9 - count) == first * 1_000_000_000 + second
  {
    var d := Pow10(9 - count);
    NumberConcat(s1, s2);
    DivMod(second, d);
    MulDist(first * Pow10(count), second / d, d);
    MulAssoc(first, Pow10(count), d);
    Pow10Add(count, 9 - count);
    assert Pow10(9) == 1_000_000_000 by {
      Pow10Add(4, 5);
      assert Pow10(4) == 1_0000 && Pow10(5) == 10_0000;
    }
  }

  lemma LastParity(first: nat, count: nat, m: int)
    requires count > 0
    ensures (first * Pow10(count) + m) % 2 == m % 2
  {
    MulPull(first, 10, Pow10(count - 1));
    LastDigitEven(first * Pow10(count - 1), m);
  }

  lemma LastDigitEven(x: nat, m: int)
    ensures (10 * x + m) % 2 == m % 2
  {
  }

  lemma BothDecided(first: nat, second: nat, third: nat, more: bool, precision: nat, segment: nat, rho: real,
                    s1: seq<char>, s2: seq<char>, up: bool)
    requires third < 10 && segment == (first * 1_000_000_000 + second) * 10 + third
    requires 10 <= precision <= 17 && |s2| == precision - 9 && Follows(segment, more, rho, precision)
    requires AllDigits(s1) && AllDigits(s2) && Number(s1) == first && Number(s2) == second / Pow10(18 - precision)
    requires up == RoundsInside(second, Pow10(18 - precision), Number(s2), third != 0 || more)
    ensures Decided(segment, rho, Pow10(18 - precision) * 10, s1 + s2, up)
  {
    hide Decided, AllDigits, Number, Pow10;
    var d, s := Pow10(18 - precision), s1 + s2;
    var r := second % d;
    EvenPower(18 - precision);
    assert r < d by {
      DivMod(second, d);
    }
    JoinDigits(first, second, precision - 9, s1, s2);
    assert Number(s) % 2 == Number(s2) % 2 by {
      LastParity(first, precision - 9, Number(s2));
    }
    InsideDecided(segment, Number(s), d, r, 10, third, rho, s, up);
  }

  lemma EighteenDecided(first: nat, second: nat, third: nat, more: bool, segment: nat, rho: real,
                        s1: seq<char>, s2: seq<char>, up: bool)
    requires third < 10 && segment == (first * 1_000_000_000 + second) * 10 + third
    requires |s2| == 9 && Follows(segment, more, rho, 18)
    requires AllDigits(s1) && AllDigits(s2) && Number(s1) == first && Number(s2) == second / Pow10(0)
    requires up == (third > 5 || (third == 5 && (Number(s2) % 2 != 0 || more)))
    ensures Decided(segment, rho, Pow10(0) * 10, s1 + s2, up)
  {
    hide Decided, AllDigits, Number, Pow10;
    NineIsAll(second);
    JoinDigits(first, second, 9, s1, s2);
    assert Number(s1 + s2) % 2 == second % 2 by {
      LastParity(first, 9, second);
    }
    BoundaryDecided(segment, Number(s1 + s2), 10, third, rho, s1 + s2, up);
  }

  /** Ten to eighteen digits come from both subsegments. */
  method PrintBoth(first: nat, secondThird: nat, more: bool, precision: nat, ghost segment: nat, ghost rho: real)
    returns (s: seq<char>, up: bool)
    requires first < 1_000_000_000 && secondThird < 10_000_000_000 && segment == first * 10_000_000_000 + secondThird
    requires 10 <= precision <= 18 && Follows(segment, more, rho, precision)
    ensures |s| == precision && Decided(segment, rho, Pow10(18 - precision) * 10, s, up)
  {
    hide Decided, RoundsInside, Tracks, AllDigits, Number, Follows, Pow10;
    var second := secondThird * 1844674407370955162 / 0x1_0000_0000_0000_0000 % 0x1_0000_0000;
    var third := (secondThird % 0x1_0000_0000 - second * 10) % 0x1_0000_0000;
    SecondDivision(secondThird);
    var s1, s2, prod, digits;
    ghost var error;
    s1, prod, digits, error := PrintSubsegment(first, 9);
    s2, prod, digits, error := PrintSubsegment(second, precision - 9);
    s := s1 + s2;
    NineIsAll(first);
    if precision < 18 {
      up := RoundInside(prod, digits, precision - 9, third != 0 || more, second, s2, error);
      BothDecided(first, second, third, more, precision, segment, rho, s1, s2, up);
    } else {
      up := third > 5 || (third == 5 && (digits % 2 != 0 || more));
      EighteenDecided(first, second, third, more, segment, rho, s1, s2, up);
    }
  }

  lemma NineIsAll(n: nat)
    ensures Pow10(0) == 1 && n / Pow10(0) == n && n % Pow10(0) == 0
  {
    assert Pow10(0) == 1;
  }

  // ----- the whole segment -----

  lemma DecidedRounds(segment: nat, rho: real, d: nat, s: seq<char>, up: bool, y: nat) returns (p: nat)
    requires Decided(segment, rho, d, s, up) && rho >= 0.0 && d == Pow10(y)
    ensures p == Number(s) + (if up then 1 else 0) && IsRounded(segment as real + rho, p, y)
  {
    hide IsRounded, RPow10, Pow10;
    NumberBound(s);
    RPow10OfNat(y);
    RoundSegment(segment, rho, d, Number(s), segment - Number(s) * d, up, y);
    p := Number(s) + if up then 1 else 0;
  }

  /** The digits, once the carry has been propagated, as a rounded decimal. */
  lemma CarriedRounds(v: real, p: nat, y: int, m: int, inc: nat)
    requires IsRounded(v, p, y) && m * Pow10(inc) == p
    ensures m >= 0 && RoundedTo(v, Decimal(m, y + inc), y)
  {
    if m < 0 {
      MulLe(m, -1, Pow10(inc));
    }
    DecimalScale(m, y, inc);
  }

  lemma BumpLastDigit(s: seq<char>)
    requires s != [] && AllDigits(s)
    ensures var t := s[|s| - 1 := DigitChar(DigitOf(s[|s| - 1]) + 1)];
            Number(t) == Number(s) + 1 && AllDigits(t[..|t| - 1]) && '0' <= t[|t| - 1] <= DigitChar(10)
  {
    NumberUpdate(s, |s| - 1, DigitChar(DigitOf(s[|s| - 1]) + 1));
    assert Pow10(0) == 1;
  }

  lemma SegmentUnits(precision: nat)
    ensures precision <= 9 ==> Pow10(9 - precision) * 10_000_000_000 == Pow10(19 - precision)
    ensures precision <= 18 ==> Pow10(18 - precision) * 10 == Pow10(19 - precision)
  {
    if precision <= 9 {
      assert Pow10(5) == 10_0000;
      Pow10Add(5, 5);
      Pow10Add(9 - precision, 10);
    }
  }

  /** Nothing but the decision whether to round up to one. */
  lemma NoDigits(segment: nat, rho: real, precision: int, p: nat)
    requires segment < 10_000_000_000_000_000_000 && precision <= 0 && 0.0 <= rho < 10.0
    requires rho < 1.0 || segment % 10 == 0
    requires p == if precision == 0 && (segment > 5_000_000_000_000_000_000
                                        || (segment == 5_000_000_000_000_000_000 && rho > 0.0)) then 1 else 0
    ensures IsRounded(segment as real + rho, p, 19 - precision)
  {
    RPow10OfNat(19 - precision);
    assert Pow10(9) == 1_000_000_000 by {
      Pow10Add(4, 5);
      assert Pow10(4) == 1_0000 && Pow10(5) == 10_0000;
    }
    Pow10Add(9, 9);
    assert Pow10(19) == 10 * Pow10(18);
    if precision < 0 {
      Pow10Monotone(20, 19 - precision);
    }
  }

  lemma SmallNumber(buf: seq<char>) returns (p: nat)
    requires |buf| <= 1 && forall i :: 0 <= i < |buf| ==> '0' <= buf[i] <= '1'
    ensures AllDigits(buf) && Number(buf) * Pow10(0) == p && p == if |buf| == 1 && buf[0] == '1' then 1 else 0
  {
    assert Pow10(0) == 1;
    if |buf| == 1 {
      NumberSnoc([], buf[0]);
      assert buf == [] + [buf[0]];
    } else {
      assert buf == [];
    }
    p := Number(buf);
  }

  lemma DecidedDigits(segment: nat, rho: real, d: nat, s: seq<char>, up: bool)
    requires Decided(segment, rho, d, s, up)
    ensures AllDigits(s)
  {
  }

  lemma NoCarry(m: int)
    ensures m * Pow10(0) == m
  {
    assert Pow10(0) == 1;
  }

  /** The or of a number and a bit. */
  function OrBit(n: nat, bit: bool): nat { if bit && n % 2 == 0 then n + 1 else n }

  /** Prints no digit of a segment, or the one it is rounded up to. */
  method PrintNoDigits(segment: nat, more: bool, precision: int, ghost rho: real)
    returns (buf: seq<char>, ghost p: nat)
    requires 1_000_000_000_000_000_000 <= segment < 10_000_000_000_000_000_000
    requires precision <= 0 && Follows(segment, more, rho, precision)
    ensures |buf| == (if precision == 0 then 1 else 0) && AllDigits(buf) && Number(buf) * Pow10(0) == p
    ensures IsRounded(segment as real + rho, p, 19 - precision)
  {
    hide IsRounded, Pow10, AllDigits, Number;
    buf := [];
    if precision == 0 {
      buf := [if OrBit(segment, more) > 5_000_000_000_000_000_000 then '1' else '0'];
    }
    p := SmallNumber(buf);
    NoDigits(segment, rho, precision, p);
  }

  /** Prints at most 18 of the 19 digits of a segment, rounded half to even by all that follows
      them: the other digits, and the rest rho that the flag more only tells to be positive. */
  method PrintSegment(segment: nat, more: bool, precision: int, fixed: bool, ghost rho: real)
    returns (buf: seq<char>, inc: nat, ghost p: nat)
    requires 1_000_000_000_000_000_000 <= segment < 10_000_000_000_000_000_000
    requires precision <= 18 && Follows(segment, more, rho, precision)
    ensures AllDigits(buf) && Number(buf) * Pow10(inc) == p && IsRounded(segment as real + rho, p, 19 - precision)
    ensures RoundedTo(segment as real + rho, Decimal(Number(buf), 19 - precision + inc), 19 - precision)
    ensures precision > 0 ==>
              && |buf| == precision + (if fixed && p == Pow10(precision) then 1 else 0) && buf[0] != '0'
              && inc == if !fixed && p == Pow10(precision) then 1 else 0
    ensures precision <= 0 ==> inc == 0 && |buf| == if precision == 0 then 1 else 0
  {
    hide Decided, IsRounded, RoundedTo, Pow10, RPow10, AllDigits, FirstPart, Follows, Number;
    ghost var v, y := segment as real + rho, 19 - precision;
    inc := 0;
    RestNotNegative(segment, more, rho, precision);
    if precision <= 0 {
      buf, p := PrintNoDigits(segment, more, precision, rho);
    } else {
      var first := FirstPart(segment);
      var secondThird := segment - first * 10_000_000_000;
      SegmentUnits(precision);
      var up;
      if precision <= 9 {
        buf, up := PrintFirst(first, secondThird, more, precision, segment, rho);
      } else {
        buf, up := PrintBoth(first, secondThird, more, precision, segment, rho);
      }
      p := DecidedRounds(segment, rho, Pow10(y), buf, up, y);
      DecidedDigits(segment, rho, Pow10(y), buf, up);
      NumberBound(buf);
      if up {
        BumpLastDigit(buf);
        buf := buf[precision - 1 := DigitChar(DigitOf(buf[precision - 1]) + 1)];
        buf, inc := PropagateCarry(buf, fixed);
      } else {
        NoCarry(Number(buf));
      }
      NoLeadingZero(v, p, precision);
      FirstCharacter(buf, inc, p, precision, fixed);
    }
    CarriedRounds(v, p, y, Number(buf), inc);
  }

  lemma RestNotNegative(segment: nat, more: bool, rho: real, precision: int)
    requires Follows(segment, more, rho, precision)
    ensures rho >= 0.0
  {
  }

  /** A value of 19 digits keeps its first one. */
  lemma NoLeadingZero(v: real, p: nat, precision: nat)
    requires 1 <= precision <= 18 && v >= 1_000_000_000_000_000_000.0 && IsRounded(v, p, 19 - precision)
    ensures p >= Pow10(precision - 1)
  {
    hide RPow10, Pow10, IsRounded;
    RPow10OfNat(18);
    Eighteen();
    RoundedReaches(v, p, 18, precision);
  }

  lemma Eighteen()
    ensures Pow10(18) == 1_000_000_000_000_000_000
  {
    assert Pow10(4) == 1_0000 && Pow10(5) == 10_0000;
    Pow10Add(4, 5);
    Pow10Add(9, 9);
  }
}
