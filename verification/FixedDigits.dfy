/** The digit generator's other mode: a given number of digits, correctly rounded. */
module FixedDigits {
  import opened Powers
  import opened Rationals
  import opened DigitStrings
  import opened Shortest
  import opened Rounding
  import opened Bigints
  import opened Dragon

  /** Rounding the quotient q by the remainder r, which may be all of d. */
  lemma RoundQuotient(n: nat, d: nat, q: nat, r: nat, p: nat)
    requires d > 0 && n == q * d + r && r <= d && (r == d ==> q == 0)
    requires p == if RoundsUp(d, r, q) then q + 1 else q
    ensures IsNearest(n, d, p)
  {
    MulDist(q, 1, d);
  }

  // ----- the digits before the last one -----

  /** The value is a power of ten that the generator reaches within i places. */
  ghost predicate ReachesTen(n: nat, d: nat, i: int)
  {
    exists j: nat :: j < i && n * Pow10(j) == d
  }

  /** The digits s have been taken out of n/d and w is left. If the numerator is stored above
      the denominator (gap), the division by an equal denominator is overlooked, and the next
      digit becomes ten. */
  ghost predicate Generated(n: nat, d: nat, gap: bool, s: seq<char>, w: nat)
  {
    && Number(s) >= 0 && n * Pow10(|s|) == 10 * (Number(s) * d) + w
    && w <= 10 * d && (w == 10 * d ==> gap && Number(s) == 0)
    && (w == 10 * d <==> gap && |s| > 0 && n * Pow10(|s| - 1) == d)
    && (!AllDigits(s) ==> w == 0)
    && (AllDigits(s) <==> !(gap && ReachesTen(n, d, |s| - 1)))
  }

  lemma GeneratedStart(n: nat, d: nat, gap: bool)
    requires n < 10 * d
    ensures Generated(n, d, gap, [], n) && Number([]) == 0
  {
    assert Pow10(0) == 1;
  }

  lemma GeneratedBound(n: nat, d: nat, gap: bool, s: seq<char>, w: nat)
    requires Generated(n, d, gap, s, w)
    ensures w <= 10 * d && Number(s) >= 0
  {
  }

  /** What one division gives: the remainder is d if it was overlooked. */
  ghost predicate Divided(d: nat, gap: bool, m: nat, w: nat, digit: nat, r: nat)
  {
    if w == d && m == 0 && gap then digit == 0 && r == d else w == digit * d + r && r < d
  }

  lemma DigitAtMostTen(d: nat, digit: nat, r: nat, w: nat)
    requires d > 0 && w == digit * d + r && r < d && w <= 10 * d
    ensures digit <= 10 && (digit == 10 <==> w == 10 * d) && (digit == 10 ==> r == 0)
  {
    if digit > 10 {
      MulLe(11, digit, d);
    } else if digit < 10 {
      MulLe(digit, 9, d);
    }
  }

  lemma DividedDigit(d: nat, gap: bool, m: nat, w: nat, digit: nat, r: nat)
    requires d > 0 && w <= 10 * d && Divided(d, gap, m, w, digit, r)
    ensures digit <= 10 && r <= d && (digit == 10 <==> w == 10 * d)
    ensures r == d <==> w == d && m == 0 && gap
    ensures digit == 10 || w == 0 ==> r == 0
    ensures w == digit * d + r
  {
    if !(w == d && m == 0 && gap) {
      DigitAtMostTen(d, digit, r, w);
    } else {
      assert digit * d == 0;
    }
  }

  /** The number including the new digit. */
  lemma QuotientStep(n: nat, d: nat, m: nat, i: nat, w: nat, digit: nat, r: nat)
    requires n * Pow10(i) == 10 * (m * d) + w && w == digit * d + r
    ensures n * Pow10(i) == (10 * m + digit) * d + r
    ensures n * Pow10(i + 1) == 10 * ((10 * m + digit) * d) + 10 * r
  {
    MulDist(10 * m, digit, d);
    MulAssoc(10, m, d);
    MulPull(10, n, Pow10(i));
  }

  /** If the value is exactly d at this place, nothing has been taken out before. */
  lemma ExactPlace(d: nat, m: nat, w: nat)
    requires d > 0 && d == 10 * (m * d) + w
    ensures m == 0 && w == d
  {
    if m > 0 {
      MulLe(1, m, d);
    }
  }

  lemma AllDigitsSnoc(s: seq<char>, c: char)
    ensures AllDigits(s + [c]) <==> AllDigits(s) && '0' <= c <= '9'
  {
    var t := s + [c];
    if AllDigits(t) {
      assert t[|s|] == c;
      forall i | 0 <= i < |s|
        ensures '0' <= s[i] <= '9'
      {
        assert t[i] == s[i];
      }
    }
  }

  lemma ReachesTenStep(n: nat, d: nat, i: nat)
    ensures ReachesTen(n, d, i) <==> ReachesTen(n, d, i - 1) || (i > 0 && n * Pow10(i - 1) == d)
  {
    if ReachesTen(n, d, i) {
      var j: nat :| j < i && n * Pow10(j) == d;
      assert j == i - 1 || j < i - 1;
    }
    if i > 0 && n * Pow10(i - 1) == d {
      assert ReachesTen(n, d, i);
    }
  }

  lemma GeneratedDigit(n: nat, d: nat, gap: bool, s: seq<char>, w: nat, digit: nat, r: nat)
    requires d > 0 && Generated(n, d, gap, s, w) && Divided(d, gap, Number(s), w, digit, r)
    ensures digit <= 10 && r <= d
    ensures var t := s + [DigitChar(digit)];
            && Number(t) == 10 * Number(s) + digit && n * Pow10(|s|) == Number(t) * d + r
            && (AllDigits(t) <==> !(gap && ReachesTen(n, d, |s|)))
            && (!AllDigits(t) ==> r == 0) && (r == d ==> Number(t) == 0)
  {
    hide ReachesTen, AllDigits, Pow10, Number;
    var m := Number(s);
    DividedDigit(d, gap, m, w, digit, r);
    QuotientStep(n, d, m, |s|, w, digit, r);
    NumberSnoc(s, DigitChar(digit));
    AllDigitsSnoc(s, DigitChar(digit));
    ReachesTenStep(n, d, |s|);
  }

  lemma GeneratedStep(n: nat, d: nat, gap: bool, s: seq<char>, w: nat, digit: nat, r: nat)
    requires d > 0 && Generated(n, d, gap, s, w) && Divided(d, gap, Number(s), w, digit, r)
    ensures digit <= 10 && Generated(n, d, gap, s + [DigitChar(digit)], 10 * r)
  {
    hide ReachesTen, AllDigits, Number;
    var m := Number(s);
    DividedDigit(d, gap, m, w, digit, r);
    GeneratedDigit(n, d, gap, s, w, digit, r);
    QuotientStep(n, d, m, |s|, w, digit, r);
    if n * Pow10(|s|) == d {
      ExactPlace(d, m, w);
    }
  }

  // ----- the last digit and the carry -----

  /** One division step; gap says that the numerator is stored above the denominator. */
  method DivideDigit(num: Bigint, den: Bigint, ghost m: nat, ghost gap: bool, ghost start: nat) returns (digit: nat)
    requires num != den && Dividable(num, den) && 0 <= num.Val() <= 10 * den.Val() && den.Val() > 0
    requires gap == (start > den.exp) && num.exp == if m == 0 then start else AlignedExp(start, den.exp)
    modifies num
    ensures Dividable(num, den) && Divided(den.Val(), gap, m, old(num.Val()), digit, num.Val())
    ensures num.exp == if m == 0 && digit == 0 then start else AlignedExp(start, den.exp)
  {
    digit := num.DivmodAssign(den);
  }

  lemma BelowCount(n: nat, d: nat, q: nat, r: nat, i: nat)
    requires d > 0 && n < 10 * d && n * Pow10(i) == q * d + r
    ensures q < Pow10(i + 1)
  {
    if q >= Pow10(i + 1) {
      MulLe(Pow10(i + 1), q, d);
      MulLt(n, 10 * d, Pow10(i));
      MulSwap(10, d, Pow10(i));
    }
  }

  /** The last digit is kept: the remainder is at most half. */
  lemma LastKept(n: nat, d: nat, gap: bool, s: seq<char>, w: nat, digit: nat, r: nat)
    requires d > 0 && n < 10 * d && Generated(n, d, gap, s, w) && Divided(d, gap, Number(s), w, digit, r)
    requires !RoundsUp(d, r, digit)
    ensures digit <= 10 && var t := s + [DigitChar(digit)];
            && 0 <= Number(t) < Pow10(|s| + 1) && IsNearest(n * Pow10(|s|), d, Number(t))
            && (AllDigits(t) <==> !(gap && ReachesTen(n, d, |s|)))
  {
    hide Generated, Divided, ReachesTen, IsNearest, AllDigits, Number, Pow10;
    GeneratedBound(n, d, gap, s, w);
    GeneratedDigit(n, d, gap, s, w, digit, r);
    LastDigitParity(Number(s), digit);
    var q := Number(s + [DigitChar(digit)]);
    RoundQuotient(n * Pow10(|s|), d, q, r, q);
    BelowCount(n, d, q, r, |s|);
  }

  /** The last digit is bumped: more than half, or half of an odd quotient, remains. */
  lemma LastBumped(n: nat, d: nat, gap: bool, s: seq<char>, w: nat, digit: nat, r: nat)
    requires d > 0 && n < 10 * d && Generated(n, d, gap, s, w) && Divided(d, gap, Number(s), w, digit, r)
    requires RoundsUp(d, r, digit)
    ensures digit <= 9 && AllDigits(s) && var t := s + [DigitChar(digit + 1)];
            && 0 <= Number(t) <= Pow10(|s| + 1) && IsNearest(n * Pow10(|s|), d, Number(t))
            && !(gap && ReachesTen(n, d, |s|)) && (digit < 9 ==> AllDigits(t) && Number(t) < Pow10(|s| + 1))
  {
    hide Generated, Divided, ReachesTen, IsNearest, AllDigits, Number, Pow10;
    GeneratedBound(n, d, gap, s, w);
    GeneratedDigit(n, d, gap, s, w, digit, r);
    LastDigitParity(Number(s), digit);
    AllDigitsSnoc(s, DigitChar(digit));
    var q := Number(s + [DigitChar(digit)]);
    RoundQuotient(n * Pow10(|s|), d, q, r, q + 1);
    BelowCount(n, d, q, r, |s|);
    NumberSnoc(s, DigitChar(digit + 1));
    AllDigitsSnoc(s, DigitChar(digit + 1));
    if digit < 9 {
      NumberBound(s + [DigitChar(digit + 1)]);
    }
  }

  /** What the fixed mode promises: the digits, with the carry out of the first place either
      as one more digit or in the exponent, are n/d rounded at the last of count places; they
      are decimal digits unless a division was overlooked before the last place. */
  ghost predicate Rounded(n: nat, d: nat, gap: bool, count: nat, fixed: bool, buf: seq<char>, inc: nat, p: nat)
    requires count > 0
  {
    && IsNearest(n * Pow10(count - 1), d, p) && Number(buf) * Pow10(inc) == p
    && |buf| == count + (if fixed && p == Pow10(count) then 1 else 0)
    && inc == (if !fixed && p == Pow10(count) then 1 else 0)
    && (AllDigits(buf) <==> !(gap && ReachesTen(n, d, count - 1)))
  }

  /** The last place, with the rounding. */
  method FinishDigits(num: Bigint, den: Bigint, digits: seq<char>, fixed: bool,
                      ghost n: nat, ghost d: nat, ghost gap: bool, ghost start: nat)
    returns (buf: seq<char>, inc: nat, ghost p: nat)
    requires num != den && Dividable(num, den) && den.Val() == d && d > 0 && n < 10 * d
    requires digits != [] && Generated(n, d, gap, digits[..|digits| - 1], num.Val())
    requires gap == (start > den.exp)
    requires num.exp == if Number(digits[..|digits| - 1]) == 0 then start else AlignedExp(start, den.exp)
    modifies num
    ensures Rounded(n, d, gap, |digits|, fixed, buf, inc, p)
  {
    hide Generated, Divided, ReachesTen, Bigint.Val, IsNearest, AllDigits, Number;
    ghost var s, w := digits[..|digits| - 1], num.Val();
    GeneratedBound(n, d, gap, s, w);
    var digit := DivideDigit(num, den, Number(s), gap, start);
    var result := Bigint.AddCompare(num, num, den);
    var up := result > 0 || (result == 0 && digit % 2 != 0);
    if up {
      LastBumped(n, d, gap, s, w, digit, num.Val());
      p := Number(s + [DigitChar(digit + 1)]);
    } else {
      LastKept(n, d, gap, s, w, digit, num.Val());
      p := Number(s + [DigitChar(digit)]);
    }
    if up && digit == 9 {
      buf := digits[|digits| - 1 := DigitChar(10)];
      assert buf == s + [DigitChar(10)] && buf[..|buf| - 1] == s;
      buf, inc := PropagateCarry(buf, fixed);
    } else {
      if up {
        digit := digit + 1;
      }
      buf, inc := digits[|digits| - 1 := DigitChar(digit)], 0;
      assert buf == s + [DigitChar(digit)];
      assert Pow10(0) == 1;
    }
  }

  /** The loop of the fixed mode. */
  method GenerateDigits(num: Bigint, den: Bigint, count: nat, fixed: bool, ghost n: nat, ghost d: nat)
    returns (buf: seq<char>, inc: nat, ghost p: nat)
    requires num != den && Dividable(num, den) && num.Val() == n && den.Val() == d
    requires count > 0 && d > 0 && n < 10 * d
    modifies num
    ensures Rounded(n, d, old(num.exp) > den.exp, count, fixed, buf, inc, p)
  {
    hide Generated, Divided, Bigint.Val, Dividable, Number, Rounded;
    ghost var start := num.exp;
    ghost var gap := start > den.exp;
    buf := seq(count, _ => ' ');
    GeneratedStart(n, d, gap);
    assert buf[..0] == [];
    for i := 0 to count - 1
      invariant |buf| == count && den.Val() == d && Dividable(num, den)
      invariant Generated(n, d, gap, buf[..i], num.Val())
      invariant num.exp == if Number(buf[..i]) == 0 then start else AlignedExp(start, den.exp)
    {
      ghost var s, w := buf[..i], num.Val();
      GeneratedBound(n, d, gap, s, w);
      var digit := DivideDigit(num, den, Number(s), gap, start);
      GeneratedStep(n, d, gap, s, w, digit, num.Val());
      NumberSnoc(s, DigitChar(digit));
      buf := buf[i := DigitChar(digit)];
      assert buf[..i + 1] == s + [DigitChar(digit)];
      NextPlace(num, den);
    }
    buf, inc, p := FinishDigits(num, den, buf, fixed, n, d, gap, start);
  }
}
