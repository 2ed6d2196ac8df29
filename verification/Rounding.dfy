/** What correct rounding of a decimal means, and the carry it can cause in the digits. */
module Rounding {
  import opened Powers
  import opened Rationals
  import opened DigitStrings
  import opened Shortest

  /** p is n/d rounded to the nearest integer, and to the even one if two are as near. */
  ghost predicate IsNearest(n: nat, d: nat, p: nat)
  {
    var twice := 2 * Abs(p * d - n);
    twice <= d && (twice == d ==> p % 2 == 0)
  }

  /** p * 10^y is v rounded half to even at the decimal place y. */
  ghost predicate IsRounded(v: real, p: nat, y: int)
  {
    var twice := 2.0 * RAbs(Decimal(p, y) - v);
    twice <= RPow10(y) && (twice == RPow10(y) ==> p % 2 == 0)
  }

  lemma NearestIsRounded(v: real, n: nat, d: nat, p: nat, y: int)
    requires d > 0 && IsRatio(v, n, d, y) && IsNearest(n, d, p)
    ensures IsRounded(v, p, y)
  {
    hide RPow10, IsRatio;
    var w, gap := RAbs(Decimal(p, y) - v), Abs(p * d - n);
    DecimalRatio(p, d, y);
    Distance(v, n, Decimal(p, y), p * d, d, y);
    RatioSum(w, gap, w, gap, d, y);
    DecimalRatio(1, d, y);
    assert 2.0 * w == w + w && 1 as real * RPow10(y) == RPow10(y);
    RatioOrder(w + w, gap + gap, RPow10(y), d, d, y);
  }

  /** There is only one correctly rounded result. */
  lemma RoundedUnique(v: real, p: nat, q: nat, y: int)
    requires IsRounded(v, p, y) && IsRounded(v, q, y)
    ensures p == q
  {
    if p < q {
      RoundedOrder(v, p, q, y);
    } else if q < p {
      RoundedOrder(v, q, p, y);
    }
  }

  /** Between neighbouring decimals only the middle is as near to one as to the other. */
  lemma Midpoint(v: real, a: real, b: real, unit: real)
    requires b - a == unit && 2.0 * RAbs(a - v) <= unit && 2.0 * RAbs(b - v) <= unit
    ensures 2.0 * RAbs(a - v) == unit && 2.0 * RAbs(b - v) == unit
  {
  }

  lemma RoundedOrder(v: real, p: nat, q: nat, y: int)
    requires IsRounded(v, p, y) && IsRounded(v, q, y)
    ensures p >= q
  {
    if p < q {
      DecimalGap(p, q, y);
      if q == p + 1 {
        Midpoint(v, Decimal(p, y), Decimal(q, y), RPow10(y));
      }
    }
  }

  lemma DecimalGap(p: nat, q: nat, y: int)
    requires p < q
    ensures q == p + 1 ==> Decimal(q, y) - Decimal(p, y) == RPow10(y)
    ensures q > p + 1 ==> Decimal(q, y) - Decimal(p, y) > RPow10(y)
  {
    hide RPow10;
    var unit, steps := RPow10(y), q as real - p as real;
    RMulDist(q as real, p as real, unit);
    assert Decimal(q, y) - Decimal(p, y) == steps * unit;
    if q > p + 1 {
      RMulLt(1.0, steps, unit);
    } else {
      assert steps == 1.0;
    }
  }

  /** w is v rounded half to even at the decimal place y. */
  ghost predicate RoundedTo(v: real, w: real, y: int)
  {
    exists p: nat :: IsRounded(v, p, y) && w == Decimal(p, y)
  }

  /** The digits as a decimal, with the carry in the exponent. */
  lemma RoundedDecimal(v: real, n: nat, d: nat, p: nat, y: int, m: nat, inc: nat)
    requires d > 0 && IsRatio(v, n, d, y) && IsNearest(n, d, p) && m * Pow10(inc) == p
    ensures RoundedTo(v, Decimal(m, y + inc), y)
  {
    NearestIsRounded(v, n, d, p, y);
    DecimalScale(m, y, inc);
  }

  /** A value below the place above is not rounded below the place itself, in count digits: it
      reaches the place, or misses it by less than half the last of them, or by the half if the
      power of ten is an even multiple of it. */
  ghost predicate RoundsToPlace(v: real, place: int, count: int)
  {
    RAtLeast(RPow10(place - count + 1), 2.0 * (RPow10(place) - v), count > 1)
  }

  /** p steps of size unit from v, rounded to the nearest, against t steps. */
  lemma RoundedAgainst(v: real, unit: real, p: nat, t: nat, w: real, top: real)
    requires w == p as real * unit && top == t as real * unit && unit > 0.0
    requires 2.0 * RAbs(w - v) <= unit && (2.0 * RAbs(w - v) == unit ==> p % 2 == 0)
    ensures p >= t <==> RAtLeast(unit, 2.0 * (top - v), t % 2 == 0)
  {
    var steps := p as real - t as real;
    RMulDist(p as real, t as real, unit);
    assert w - top == steps * unit;
    if p > t {
      AtLeastUnit(steps, unit);
    } else if p < t {
      StepsBelow(-steps, unit, top - w);
      assert p + 1 < t || p % 2 != t % 2;
    }
  }

  lemma StepsBelow(k: real, unit: real, gap: real)
    requires k >= 1.0 && unit > 0.0 && -gap == -k * unit
    ensures gap >= unit && (k > 1.0 ==> gap > unit)
  {
  }

  lemma AtLeastUnit(k: real, unit: real)
    requires k >= 1.0 && unit > 0.0
    ensures k * unit >= unit
  {
  }

  lemma EvenTen(k: nat)
    ensures Pow10(k) % 2 == 0 <==> k > 0
  {
  }

  lemma RoundedReaches(v: real, p: nat, place: int, count: nat)
    requires count > 0 && IsRounded(v, p, place - count + 1)
    ensures p >= Pow10(count - 1) <==> RoundsToPlace(v, place, count)
  {
    hide RPow10, Pow10;
    var y, t := place - count + 1, Pow10(count - 1);
    RPow10Split(place, count - 1);
    assert RPow10(place) == t as real * RPow10(y);
    EvenTen(count - 1);
    RoundedAgainst(v, RPow10(y), p, t, Decimal(p, y), RPow10(place));
  }

  lemma FirstCharacter(text: seq<char>, inc: nat, p: nat, count: nat, fixed: bool)
    requires AllDigits(text) && count > 0 && Number(text) * Pow10(inc) == p
    requires |text| == count + (if fixed && p == Pow10(count) then 1 else 0)
    requires inc == (if !fixed && p == Pow10(count) then 1 else 0)
    ensures text[0] != '0' <==> p >= Pow10(count - 1)
  {
    LeadingDigit(text);
    assert Pow10(0) == 1 && Pow10(1) == 10;
  }

  // ----- the carry -----

  /** Carrying ten from place i to the place before it does not change the number. */
  lemma CarryDigit(t: seq<char>, i: nat)
    requires 0 < i < |t| && t[i] == DigitChar(10) && '0' <= t[i - 1] <= '9'
    ensures Number(t[i := '0'][i - 1 := DigitChar(DigitOf(t[i - 1]) + 1)]) == Number(t)
  {
    NumberUpdate(t, i, '0');
    NumberUpdate(t[i := '0'], i - 1, DigitChar(DigitOf(t[i - 1]) + 1));
  }

  /** A carry out of the first place leaves only zeros behind it. */
  lemma CarriedOut(t: seq<char>)
    requires t != [] && t[0] == DigitChar(10) && forall k :: 0 < k < |t| ==> t[k] == '0'
    ensures Number(t) == Pow10(|t|) && Number(t[0 := '1']) == Pow10(|t| - 1)
    ensures Number(t[0 := '1'] + ['0']) == Pow10(|t|)
  {
    assert t == [t[0]] + t[1..];
    NumberConcat([t[0]], t[1..]);
    NumberZeros(t[1..]);
    NumberSnoc([], t[0]);
    assert [] + [t[0]] == [t[0]];
    NumberUpdate(t, 0, '1');
    NumberSnoc(t[0 := '1'], '0');
  }

  /** A last digit bumped past nine carries over to the digits before it. */
  method PropagateCarry(s: seq<char>, fixed: bool) returns (t: seq<char>, inc: nat)
    requires s != [] && AllDigits(s[..|s| - 1]) && '0' <= s[|s| - 1] <= DigitChar(10)
    ensures AllDigits(t) && Number(t) * Pow10(inc) == Number(s)
    ensures |t| == |s| + if fixed && Number(s) == Pow10(|s|) then 1 else 0
    ensures inc == if !fixed && Number(s) == Pow10(|s|) then 1 else 0
  {
    t, inc := s, 0;
    var i := |s| - 1;
    while i > 0 && t[i] == DigitChar(10)
      invariant 0 <= i < |t| == |s| && Number(t) == Number(s)
      invariant forall k :: 0 <= k < |t| && k != i ==> '0' <= t[k] <= '9'
      invariant '0' <= t[i] <= DigitChar(10)
      invariant forall k :: i < k < |t| ==> t[k] == '0'
    {
      CarryDigit(t, i);
      t := t[i := '0'];
      t := t[i - 1 := DigitChar(DigitOf(t[i - 1]) + 1)];
      i := i - 1;
    }
    assert Pow10(0) == 1 && Pow10(1) == 10;
    if t[0] == DigitChar(10) {
      CarriedOut(t);
      t := t[0 := '1'];
      if fixed {
        t := t + ['0'];
      } else {
        inc := 1;
      }
    } else {
      NumberBound(t);
    }
  }
}
