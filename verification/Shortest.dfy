/** What it means for a printed decimal to be the shortest one in a rounding interval, and
    why generating digits until the interval is reached gives it. */
module Shortest {
  import opened Powers
  import opened Rationals

  /** A value n/d with the distances l/d and u/d to the ends of its rounding interval. */
  datatype Bounds = Bounds(n: nat, d: nat, l: nat, u: nat)

  ghost predicate WellFormed(b: Bounds)
  {
    b.d > 0 && b.l > 0 && b.u > 0 && 2 * b.l <= b.n
  }

  ghost predicate AtLeast(x: int, y: int, inclusive: bool)
  {
    if inclusive then x >= y else x > y
  }

  /** The decimal m * 10^-j lies in the interval; each end belongs to it or not. */
  ghost predicate Inside(b: Bounds, inLow: bool, inHigh: bool, m: nat, j: nat)
  {
    && AtLeast(m * b.d, (b.n - b.l) * Pow10(j), inLow)
    && AtLeast((b.n + b.u) * Pow10(j), m * b.d, inHigh)
  }

  /** After the digits m, with j of them behind the point, the remainder is r. */
  ghost predicate Remains(b: Bounds, m: nat, j: nat, r: nat)
  {
    r < b.d && b.n * Pow10(j) == m * b.d + r
  }

  ghost predicate Low(b: Bounds, j: nat, r: nat, inLow: bool)
  {
    AtLeast(b.l * Pow10(j), r, inLow)
  }

  ghost predicate High(b: Bounds, j: nat, r: nat, inHigh: bool)
  {
    AtLeast(r + b.u * Pow10(j), b.d, inHigh)
  }

  /** The ends of the interval, seen from the digits and the remainder. */
  lemma Ends(b: Bounds, m: nat, j: nat, r: nat)
    requires WellFormed(b) && Remains(b, m, j, r)
    ensures (b.n - b.l) * Pow10(j) == m * b.d + r - b.l * Pow10(j)
    ensures (b.n + b.u) * Pow10(j) == m * b.d + r + b.u * Pow10(j)
    ensures b.l * Pow10(j) > 0 && b.u * Pow10(j) > 0
    ensures (m + 1) * b.d == m * b.d + b.d
  {
    MulSub(b.n, b.l, Pow10(j));
    MulDist(b.n, b.u, Pow10(j));
    MulDist(m, 1, b.d);
    MulLt(0, b.l, Pow10(j));
    MulLt(0, b.u, Pow10(j));
  }

  /** While neither test holds, no decimal of this length is in the interval. */
  lemma NoneYet(b: Bounds, inLow: bool, inHigh: bool, m: nat, j: nat, r: nat, x: nat)
    requires WellFormed(b) && Remains(b, m, j, r)
    ensures !Low(b, j, r, inLow) && x <= m ==> !Inside(b, inLow, inHigh, x, j)
    ensures !High(b, j, r, inHigh) && x > m ==> !Inside(b, inLow, inHigh, x, j)
  {
    Ends(b, m, j, r);
    if x <= m {
      MulLe(x, m, b.d);
    } else {
      MulLe(m + 1, x, b.d);
    }
  }

  /** Where a test holds, the digits, or the digits plus one, are in the interval. */
  lemma Reached(b: Bounds, inLow: bool, inHigh: bool, m: nat, j: nat, r: nat)
    requires WellFormed(b) && Remains(b, m, j, r)
    ensures Low(b, j, r, inLow) ==> Inside(b, inLow, inHigh, m, j)
    ensures High(b, j, r, inHigh) ==> Inside(b, inLow, inHigh, m + 1, j)
  {
    Ends(b, m, j, r);
  }

  function Abs(x: int): int { if x < 0 then -x else x }

  /** No decimal of this length in the interval is closer, and a tie goes to the even one. */
  ghost predicate ClosestInside(b: Bounds, inLow: bool, inHigh: bool, m: nat, j: nat)
  {
    forall x: nat :: Inside(b, inLow, inHigh, x, j) && x != m ==>
      Abs(m * b.d - b.n * Pow10(j)) < Abs(x * b.d - b.n * Pow10(j)) + (if m % 2 == 0 then 1 else 0)
  }

  /** Where the multiples of d lie around the m-th. */
  lemma Multiples(d: nat, m: nat, x: nat)
    ensures x < m ==> x * d <= m * d - d
    ensures x == m + 1 ==> x * d == m * d + d
    ensures x > m + 1 ==> x * d >= m * d + 2 * d
  {
    MulDist(m, 1, d);
    MulDist(m, 2, d);
    MulSub(m, 1, d);
    if x < m {
      MulLe(x, m - 1, d);
    } else if x > m + 1 {
      MulLe(m + 2, x, d);
    }
  }

  lemma CloserThan(b: Bounds, inLow: bool, inHigh: bool, m: nat, j: nat, r: nat, up: bool, x: nat)
    requires WellFormed(b) && Remains(b, m, j, r)
    requires up ==> !Low(b, j, r, inLow) || 2 * r > b.d || (2 * r == b.d && m % 2 == 1)
    requires !up ==> !High(b, j, r, inHigh) || 2 * r < b.d || (2 * r == b.d && m % 2 == 0)
    requires Inside(b, inLow, inHigh, x, j) && x != if up then m + 1 else m
    ensures var e := if up then m + 1 else m;
            Abs(e * b.d - b.n * Pow10(j)) < Abs(x * b.d - b.n * Pow10(j)) + (if e % 2 == 0 then 1 else 0)
  {
    NoneYet(b, inLow, inHigh, m, j, r, x);
    Multiples(b.d, m, x);
    Multiples(b.d, m, m + 1);
    var t, q := b.n * Pow10(j), m * b.d;
    assert t == q + r;
    if up {
      assert Abs((m + 1) * b.d - t) == b.d - r;
    } else {
      assert Abs(m * b.d - t) == r;
    }
  }

  /** Rounding to the nearer candidate picks the closest decimal of this length. */
  lemma Closest(b: Bounds, inLow: bool, inHigh: bool, m: nat, j: nat, r: nat, up: bool)
    requires WellFormed(b) && Remains(b, m, j, r)
    requires up ==> !Low(b, j, r, inLow) || 2 * r > b.d || (2 * r == b.d && m % 2 == 1)
    requires !up ==> !High(b, j, r, inHigh) || 2 * r < b.d || (2 * r == b.d && m % 2 == 0)
    ensures ClosestInside(b, inLow, inHigh, if up then m + 1 else m, j)
  {
    forall x: nat | Inside(b, inLow, inHigh, x, j) && x != if up then m + 1 else m
      ensures var e := if up then m + 1 else m;
              Abs(e * b.d - b.n * Pow10(j)) < Abs(x * b.d - b.n * Pow10(j)) + (if e % 2 == 0 then 1 else 0)
    {
      CloserThan(b, inLow, inHigh, m, j, r, up, x);
    }
  }

  ghost predicate NoneShorter(b: Bounds, inLow: bool, inHigh: bool, k: nat)
  {
    forall m: nat, j: nat :: j < k ==> !Inside(b, inLow, inHigh, m, j)
  }

  /** If no decimal with fewer than k places is in the interval, and the first place is
      used, a decimal in the interval has more than k significant digits. */
  lemma SignificantDigits(b: Bounds, inLow: bool, inHigh: bool, k: nat, m: nat, j: nat)
    requires WellFormed(b) && NoneShorter(b, inLow, inHigh, k) && (k > 0 ==> b.n >= b.d)
    requires m > 0 && Inside(b, inLow, inHigh, m, j)
    ensures Pow10(k) <= m
  {
    if k > 0 && m < Pow10(k) {
      Pow10Monotone(k, j);
      assert !Inside(b, inLow, inHigh, 1, 0);
      assert m < Pow10(j);
      MulLt(m, Pow10(j), b.d);
      if b.n - b.l >= b.d {
        MulLe(b.d, b.n - b.l, Pow10(j));
      }
    }
  }

  // ----- the same for real values -----

  ghost predicate RAtLeast(x: real, y: real, inclusive: bool)
  {
    if inclusive then x >= y else x > y
  }

  /** y lies between v - lo and v + hi. */
  ghost predicate Between(y: real, v: real, lo: real, hi: real, inLow: bool, inHigh: bool)
  {
    RAtLeast(y, v - lo, inLow) && RAtLeast(v + hi, y, inHigh)
  }

  function RAbs(x: real): real { if x < 0.0 then -x else x }

  function Decimal(m: nat, x: int): real
  {
    m as real * RPow10(x)
  }

  /** m * 10^x, a decimal of k + 1 digits, is in the interval; every decimal in the interval
      has at least k + 1 digits; m * 10^x is as close to v as any of its length there, and even
      if there is a tie. */
  ghost predicate IsShortest(v: real, lo: real, hi: real, inLow: bool, inHigh: bool, m: nat, x: int, k: nat)
  {
    && Between(Decimal(m, x), v, lo, hi, inLow, inHigh)
    && (forall p: nat, y: int :: p > 0 && Between(Decimal(p, y), v, lo, hi, inLow, inHigh) ==> Pow10(k) <= p)
    && (forall p: nat :: Between(Decimal(p, x), v, lo, hi, inLow, inHigh) ==>
          RAbs(Decimal(m, x) - v) <= RAbs(Decimal(p, x) - v))
    && (forall p: nat :: Between(Decimal(p, x), v, lo, hi, inLow, inHigh) && p != m && m % 2 == 1 ==>
          RAbs(Decimal(m, x) - v) < RAbs(Decimal(p, x) - v))
  }

  /** b gives v, lo and hi as fractions at the decimal exponent x. */
  ghost predicate Describes(b: Bounds, v: real, lo: real, hi: real, x: int)
  {
    IsRatio(v, b.n, b.d, x) && IsRatio(lo, b.l, b.d, x) && IsRatio(hi, b.u, b.d, x)
  }

  /** A fraction over d at exponent x, compared with a decimal j places further down. */
  lemma CompareDecimal(w: real, n: nat, d: nat, x: int, m: nat, j: nat)
    requires d > 0 && IsRatio(w, n, d, x)
    ensures (w < Decimal(m, x - j)) == (n * Pow10(j) < m * d)
    ensures (w == Decimal(m, x - j)) == (n * Pow10(j) == m * d)
  {
    ShiftPoint(w, n, d, x, j);
    DecimalRatio(m, d, x - j);
    RatioOrder(w, n * Pow10(j), Decimal(m, x - j), m * d, d, x - j);
  }

  lemma InsideIsBetween(b: Bounds, v: real, lo: real, hi: real, x: int, inLow: bool, inHigh: bool, m: nat, j: nat)
    requires WellFormed(b) && Describes(b, v, lo, hi, x)
    ensures Inside(b, inLow, inHigh, m, j) == Between(Decimal(m, x - j), v, lo, hi, inLow, inHigh)
  {
    RatioSum(v, b.n, lo, b.l, b.d, x);
    CompareDecimal(v - lo, b.n - b.l, b.d, x, m, j);
    RatioSum(v, b.n, hi, b.u, b.d, x);
    CompareDecimal(v + hi, b.n + b.u, b.d, x, m, j);
  }

  /** The difference of two fractions, measured in the numerators. */
  lemma Distance(v: real, q: nat, w: real, p: nat, d: nat, x: int)
    requires d > 0 && IsRatio(v, q, d, x) && IsRatio(w, p, d, x)
    ensures IsRatio(RAbs(w - v), Abs(p - q), d, x)
  {
    RatioOrder(w, p, v, q, d, x);
    if p >= q {
      RatioSum(w, p, v, q, d, x);
    } else {
      RatioSum(v, q, w, p, d, x);
    }
  }

  lemma DistanceRatio(b: Bounds, v: real, x: int, m: nat, j: nat)
    requires b.d > 0 && IsRatio(v, b.n, b.d, x)
    ensures IsRatio(RAbs(Decimal(m, x - j) - v), Abs(m * b.d - b.n * Pow10(j)), b.d, x - j)
  {
    hide RPow10, Pow10, IsRatio, RAbs, Abs;
    ShiftPoint(v, b.n, b.d, x, j);
    DecimalRatio(m, b.d, x - j);
    Distance(v, b.n * Pow10(j), Decimal(m, x - j), m * b.d, b.d, x - j);
  }

  lemma DecimalScale(p: nat, x: int, i: nat)
    ensures Decimal(p * Pow10(i), x) == Decimal(p, x + i)
  {
    hide RPow10, Pow10;
    var t := Pow10(i) as real;
    RPow10Split(x + i, i);
    RealProduct(p, Pow10(i));
    assert (p as real * t) * RPow10(x) == p as real * (RPow10(x) * t) by {
      RMulSwap(p as real, t, RPow10(x));
      RMulAssoc(p as real, RPow10(x), t);
    }
  }

  lemma ShortestAtReal(b: Bounds, v: real, lo: real, hi: real, x: int, inLow: bool, inHigh: bool, m: nat, k: nat)
    requires WellFormed(b) && Describes(b, v, lo, hi, x)
    requires Inside(b, inLow, inHigh, m, k) && NoneShorter(b, inLow, inHigh, k) && (k > 0 ==> b.n >= b.d)
    requires ClosestInside(b, inLow, inHigh, m, k)
    ensures IsShortest(v, lo, hi, inLow, inHigh, m, x - k, k)
  {
    hide RPow10, Pow10, IsRatio, Inside, Between, RAbs, Decimal;
    InsideIsBetween(b, v, lo, hi, x, inLow, inHigh, m, k);
    forall p: nat, y: int | p > 0 && Between(Decimal(p, y), v, lo, hi, inLow, inHigh)
      ensures Pow10(k) <= p
    {
      EnoughDigits(b, v, lo, hi, x, inLow, inHigh, k, p, y);
    }
    var y := x - k;
    forall p: nat | Between(Decimal(p, y), v, lo, hi, inLow, inHigh)
      ensures RAbs(Decimal(m, y) - v) <= RAbs(Decimal(p, y) - v)
      ensures p != m && m % 2 == 1 ==> RAbs(Decimal(m, y) - v) < RAbs(Decimal(p, y) - v)
    {
      InsideIsBetween(b, v, lo, hi, x, inLow, inHigh, p, k);
      if p != m {
        CloserAtReal(b, v, x, m, p, k);
      }
    }
  }

  lemma CloserAtReal(b: Bounds, v: real, x: int, m: nat, p: nat, j: nat)
    requires b.d > 0 && IsRatio(v, b.n, b.d, x)
    ensures (RAbs(Decimal(m, x - j) - v) <= RAbs(Decimal(p, x - j) - v))
         == (Abs(m * b.d - b.n * Pow10(j)) <= Abs(p * b.d - b.n * Pow10(j)))
    ensures (RAbs(Decimal(m, x - j) - v) < RAbs(Decimal(p, x - j) - v))
         == (Abs(m * b.d - b.n * Pow10(j)) < Abs(p * b.d - b.n * Pow10(j)))
  {
    DistanceRatio(b, v, x, m, j);
    DistanceRatio(b, v, x, p, j);
    RatioOrder(RAbs(Decimal(m, x - j) - v), Abs(m * b.d - b.n * Pow10(j)),
               RAbs(Decimal(p, x - j) - v), Abs(p * b.d - b.n * Pow10(j)), b.d, x - j);
  }

  lemma EnoughDigits(b: Bounds, v: real, lo: real, hi: real, x: int, inLow: bool, inHigh: bool, k: nat, p: nat, y: int)
    requires WellFormed(b) && Describes(b, v, lo, hi, x)
    requires NoneShorter(b, inLow, inHigh, k) && (k > 0 ==> b.n >= b.d)
    requires p > 0 && Between(Decimal(p, y), v, lo, hi, inLow, inHigh)
    ensures Pow10(k) <= p
  {
    if y <= x {
      InsideIsBetween(b, v, lo, hi, x, inLow, inHigh, p, x - y);
      SignificantDigits(b, inLow, inHigh, k, p, x - y);
    } else if k > 0 {
      DecimalScale(p, x, y - x);
      InsideIsBetween(b, v, lo, hi, x, inLow, inHigh, p * Pow10(y - x), 0);
    }
  }
}
