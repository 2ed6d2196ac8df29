/** The arbitrary-precision integer used for exact floating-point printing.
    A bigint is the number bigits[N - 1] ... bigits[0] in base 2^32, times (2^32)^exp.
    Machine integers are modelled on int with every wrap-around or truncation written out. */
module Bigints {
  import opened Powers
  import opened Bigits
  import opened Squares

  /** Truncation to a 32-bit bigit, and 64- and 128-bit unsigned wrap-around. */
  function Low32(x: int): bigit { x % 0x1_0000_0000 }
  function U64(x: int): nat { x % 0x1_0000_0000_0000_0000 }
  function U128(x: int): nat { x % 0x1_0000_0000_0000_0000_0000_0000_0000_0000 }

  function Sign(x: int): int { if x > 0 then 1 else if x < 0 then -1 else 0 }

  // ----- arithmetic of one loop step -----

  /** The low i bigits of s, with a carry into place i, hold k times the low i bigits of b. */
  ghost predicate Scaled(b: seq<bigit>, s: seq<bigit>, i: nat, k: nat, carry: nat)
    requires i <= |b| == |s|
  {
    Value(s[..i]) + BasePow(i) * carry == Value(b[..i]) * k
  }

  lemma CarryStep(p: int, lo: int, v: int, x: int, k: int, carry: int, r: int, c: int)
    requires lo + p * carry == v * k
    requires x * k + carry == r + 0x1_0000_0000 * c
    ensures (lo + p * r) + (0x1_0000_0000 * p) * c == (v + p * x) * k
  {
    MulDist(v, p * x, k);
    MulAssoc(p, x, k);
    MulDist(x * k, carry, p);
    MulDist(r, 0x1_0000_0000 * c, p);
    assert p * (0x1_0000_0000 * c) == (0x1_0000_0000 * p) * c;
  }

  lemma ScaledStep(b: seq<bigit>, s: seq<bigit>, i: nat, k: nat, carry: nat, r: bigit, c: nat)
    requires i < |b| == |s| && Scaled(b, s, i, k, carry)
    requires b[i] * k + carry == r + 0x1_0000_0000 * c
    ensures Scaled(b, s[i := r], i + 1, k, c)
  {
    ValuePrefix(b, i);
    ValuePrefix(s[i := r], i);
    assert s[i := r][..i] == s[..i];
    CarryStep(BasePow(i), Value(s[..i]), Value(b[..i]), b[i], k, carry, r, c);
  }

  /** The bigits with the final carry pushed, as the loops push it. */
  function WithCarry(s: seq<bigit>, carry: bigit): (t: seq<bigit>)
    ensures Value(t) == Value(s) + BasePow(|s|) * carry
  {
    ValueSnoc(s, carry);
    if carry != 0 then s + [carry] else s
  }

  lemma SmallU64(x: int)
    requires 0 <= x < 0x1_0000_0000_0000_0000
    ensures U64(x) == x
  {
  }

  lemma Split64(r: nat)
    requires r < 0x1_0000_0000_0000_0000
    ensures U64(r) == r == Low32(r) + 0x1_0000_0000 * Low32(r / 0x1_0000_0000)
  {
  }

  /** A product of two 32-bit numbers plus a carry fits in 64 bits, and splits into two bigits. */
  lemma WideProduct(x: bigit, k: bigit, carry: bigit)
    ensures var r := x * k + carry; U64(r) == r == Low32(r) + 0x1_0000_0000 * Low32(r / 0x1_0000_0000)
  {
    MulLe(0, x, k);
    MulLe(x, 0xffff_ffff, k);
    Split64(x * k + carry);
  }

  // ----- wide multiplication -----

  /** The two halves of a wide factor, and the carry they produce. */
  lemma WideHalves(half: nat, lower: nat, upper: nat, x: bigit, carry: nat)
    requires half == 0x1_0000_0000 || half == 0x1_0000_0000_0000_0000
    requires lower < half
    requires carry < half * upper + lower
    ensures 0 <= lower * x && lower * x + Low32(carry) < 0x1_0000_0000 * half
    ensures var next := upper * x * (half / 0x1_0000_0000)
                        + (lower * x + Low32(carry)) / 0x1_0000_0000 + carry / 0x1_0000_0000;
            && 0 <= upper * x * (half / 0x1_0000_0000)
            && x * (half * upper + lower) + carry == Low32(lower * x + Low32(carry)) + 0x1_0000_0000 * next
            && next < half * upper + lower
  {
    var l, u, value := lower * x, upper * x, half * upper + lower;
    MulLe(0, x, lower);
    MulLe(x, 0xffff_ffff, lower);
    MulLe(0, x, upper);
    MulLe(x, 0xffff_ffff, value);
    MulDist(half * upper, lower, x);
    MulAssoc(half, upper, x);
  }

  lemma WideStep(half: nat, value: nat, x: bigit, carry: nat)
    requires half == 0x1_0000_0000 || half == 0x1_0000_0000_0000_0000
    requires carry < value < half * half
    ensures var lower, upper, shift, wide := value % half, value / half, half / 0x1_0000_0000, half * half;
            var result := (lower * x + Low32(carry)) % wide;
            var next := ((upper * x * shift) % wide + result / 0x1_0000_0000 + carry / 0x1_0000_0000) % wide;
            && next < value
            && x * value + carry == Low32(result) + 0x1_0000_0000 * next
  {
    var lower, upper, shift, wide := value % half, value / half, half / 0x1_0000_0000, half * half;
    assert value == half * upper + lower;
    WideHalves(half, lower, upper, x, carry);
    var r := lower * x + Low32(carry);
    hide Low32;
    DivSmall(r, wide);
    DivSmall(upper * x * shift, wide);
    DivSmall(upper * x * shift + r / 0x1_0000_0000 + carry / 0x1_0000_0000, wide);
  }

  lemma CarrySplit(p: int, v: int, m: int)
    ensures v + p * Low32(m) + (0x1_0000_0000 * p) * (m / 0x1_0000_0000) == v + p * m
  {
    MulDist(Low32(m), 0x1_0000_0000 * (m / 0x1_0000_0000), p);
    MulAssoc(0x1_0000_0000, p, m / 0x1_0000_0000);
    MulAssoc(p, 0x1_0000_0000, m / 0x1_0000_0000);
  }

  /** Moving the lowest bigit of m onto the end of t. */
  lemma PushStep(t: seq<bigit>, m: nat)
    ensures Value(t + [Low32(m)]) + BasePow(|t| + 1) * (m / 0x1_0000_0000) == Value(t) + BasePow(|t|) * m
  {
    ValueSnoc(t, Low32(m));
    CarrySplit(BasePow(|t|), Value(t), m);
  }

  /** Appending the bigits of a wide carry, least significant first. */
  method PushBigits(s: seq<bigit>, n: nat) returns (t: seq<bigit>)
    ensures Value(t) == Value(s) + BasePow(|s|) * n
    ensures s <= t && (n == 0 ==> t == s) && (n > 0 ==> t[|t| - 1] != 0)
  {
    var m: nat := n;
    t := s;
    while m != 0
      invariant s <= t && (n == 0 ==> t == s)
      invariant Value(t) + BasePow(|t|) * m == Value(s) + BasePow(|s|) * n
      invariant n > 0 && m == 0 ==> t[|t| - 1] != 0
    {
      PushStep(t, m);
      t := t + [Low32(m)];
      m := m / 0x1_0000_0000;
    }
  }

  // ----- shifting -----

  /** Shifting one bigit left: t and r are the powers of two that split it. */
  lemma ShiftSplit(t: nat, r: nat, x: bigit, carry: nat)
    requires t * r == 0x1_0000_0000 && r > 0 && carry < t <= 0x1_0000_0000
    ensures x / r < t
    ensures var low := Low32(Low32(x * t) + carry);
            && x * t + carry == low + 0x1_0000_0000 * (x / r)
            && (x != 0 && x / r == 0 ==> low != 0)
  {
    var hi, lo := x / r, x % r;
    var y := lo * t;
    assert x * t == 0x1_0000_0000 * hi + y by {
      MulDist(r * hi, lo, t);
      MulSwap(r, hi, t);
    }
    assert 0 <= y <= 0x1_0000_0000 - t by {
      MulLe(lo, r - 1, t);
      MulLe(0, lo, t);
      MulSub(r, 1, t);
    }
    assert Low32(x * t) == y by {
      DivUnique(0x1_0000_0000, hi, y);
    }
    assert hi < t by {
      if t <= hi {
        MulLe(t, hi, r);
      }
    }
    assert x != 0 && hi == 0 ==> y > 0 by {
      if x != 0 && hi == 0 {
        MulLe(1, lo, t);
      }
    }
  }

  lemma TwoTo32(k: nat)
    requires k <= 32
    ensures Pow2(32) == 0x1_0000_0000
    ensures Pow2(k) * Pow2(32 - k) == 0x1_0000_0000 && Pow2(k) <= 0x1_0000_0000
  {
    Pow2Add(k, 32 - k);
    Pow2Monotone(k, 32);
    Pow2Of32();
  }

  lemma ShiftStep(k: nat, x: bigit, carry: nat)
    requires 0 < k < 32 && carry < Pow2(k)
    ensures var out, low := x / Pow2(32 - k), Low32(Low32(x * Pow2(k)) + carry);
            && out < Pow2(k)
            && x * Pow2(k) + carry == low + 0x1_0000_0000 * out
            && (x != 0 && out == 0 ==> low != 0)
  {
    TwoTo32(k);
    ShiftSplit(Pow2(k), Pow2(32 - k), x, carry);
  }

  /** Shifting by bigits moves the exponent; shifting by the remaining bits scales the bigits. */
  lemma ShiftedValue(v: nat, e: nat, shift: nat)
    ensures (v * Pow2(shift % 32)) * BasePow(e + shift / 32) == (v * BasePow(e)) * Pow2(shift)
  {
    var k, q := shift % 32, shift / 32;
    BaseAdd(e, q);
    Pow2Add(k, 32 * q);
    BaseIsPow2(q);
    MulInterchange(v, Pow2(k), BasePow(e), BasePow(q));
  }

  lemma ScaledAll(b: seq<bigit>, s: seq<bigit>, k: nat, carry: nat)
    requires |b| == |s| && Scaled(b, s, |s|, k, carry)
    ensures Value(s) + BasePow(|s|) * carry == Value(b) * k
  {
    assert s[..|s|] == s && b[..|b|] == b;
  }

  /** The loop of the shift by less than a bigit; a nonzero top bigit stays or is pushed. */
  method ShiftBigits(b: seq<bigit>, k: nat) returns (s: seq<bigit>)
    requires 0 < k < 32
    ensures Value(s) == Value(b) * Pow2(k) && |b| <= |s| && (|s| > |b| ==> s[|s| - 1] != 0)
    ensures b != [] && b[|b| - 1] != 0 ==> s[|s| - 1] != 0
  {
    hide Scaled, Pow2, Value;
    s := b;
    var carry: bigit := 0;
    var n, i: nat := |b|, 0;
    NothingShifted(b, Pow2(k));
    while i < n
      invariant i <= n == |s| == |b|
      invariant forall j :: i <= j < n ==> s[j] == b[j]
      invariant carry < Pow2(k) && Scaled(b, s, i, Pow2(k), carry)
      invariant i > 0 && carry == 0 && b[i - 1] != 0 ==> s[i - 1] != 0
    {
      assert s[i] == b[i];
      ShiftStep(k, b[i], carry);
      var c := s[i] / Pow2(32 - k);
      var r := Low32(Low32(s[i] * Pow2(k)) + carry);
      ScaledStep(b, s, i, Pow2(k), carry, r, c);
      s := s[i := r];
      carry := c;
      i := i + 1;
    }
    ScaledAll(b, s, Pow2(k), carry);
    s := WithCarry(s, carry);
  }

  lemma NothingShifted(b: seq<bigit>, k: nat)
    ensures Scaled(b, b, 0, k, 0)
  {
    assert b[..0] == [];
  }

  // ----- comparison -----

  /** The sign of x - y, with ties broken by the exponents the two are stored with:
      the one with the smaller exponent has more bigits. */
  function Order(x: int, y: int, e: nat, f: nat): int
  {
    if x != y then Sign(x - y) else Sign(f - e)
  }

  /** The order of two numbers that occupy different ranges of places. */
  lemma LongerIsLarger(s: seq<bigit>, e: nat, t: seq<bigit>, f: nat)
    requires t != [] && t[|t| - 1] != 0
    requires |s| + e < |t| + f
    ensures Scale(s, e) < Scale(t, f)
  {
    ScaleBound(s, e);
    ScaleBound(t, f);
    BaseMonotone(|s| + e, |t| + f - 1);
  }

  /** Suffixes that agree place by place have the same floor. */
  lemma SameFloor(s: seq<bigit>, e: nat, t: seq<bigit>, f: nat, i: nat, j: nat)
    requires i <= |s| && j <= |t| && i + e == j + f && s[i..] == t[j..]
    ensures Floor(s, e, i + e) == Floor(t, f, i + e)
  {
    FloorHigh(s, e, i + e);
    FloorHigh(t, f, i + e);
  }

  /** Once a bigit differs, its sign is the order. */
  lemma DecidedAt(s: seq<bigit>, e: nat, t: seq<bigit>, f: nat, i: nat, j: nat)
    requires i < |s| && j < |t| && i + e == j + f && s[i + 1..] == t[j + 1..]
    ensures s[i] > t[j] ==> Order(Scale(s, e), Scale(t, f), e, f) == 1
    ensures s[i] < t[j] ==> Order(Scale(s, e), Scale(t, f), e, f) == -1
  {
    SameFloor(s, e, t, f, i + 1, j + 1);
    if s[i] > t[j] {
      TopDiffers(s, e, t, f, i + e);
    } else if s[i] < t[j] {
      TopDiffers(t, f, s, e, i + e);
    }
  }

  /** When t ends exactly where the common part ends, s is at least t. */
  lemma PrefixIsLarger(s: seq<bigit>, e: nat, t: seq<bigit>, f: nat)
    requires |t| <= |s| && |s| + e == |t| + f && s[|s| - |t|..] == t
    ensures Scale(s, e) >= Scale(t, f)
  {
    assert t[0..] == t;
    SameFloor(s, e, t, f, |s| - |t|, 0);
    FloorLow(t, f, f);
    ScaleShift(t, f, f);
    assert Scale(s, e) >= BasePow(f) * Floor(s, e, f);
  }

  lemma PrefixOrder(s: seq<bigit>, e: nat, t: seq<bigit>, f: nat)
    requires |s| + e == |t| + f
    requires |t| <= |s| ==> s[|s| - |t|..] == t
    requires |s| <= |t| ==> t[|t| - |s|..] == s
    ensures Order(Scale(s, e), Scale(t, f), e, f) == Sign(|s| - |t|)
  {
    if |t| <= |s| {
      PrefixIsLarger(s, e, t, f);
    }
    if |s| <= |t| {
      PrefixIsLarger(t, f, s, e);
    }
  }

  lemma CanonicalOrder(b1: Bigint, b2: Bigint)
    requires b1.Canonical() && b2.Canonical() && b1.NumBigits() != b2.NumBigits()
    ensures Order(b1.Val(), b2.Val(), b1.exp, b2.exp) == Sign(b1.NumBigits() - b2.NumBigits())
  {
    if b1.NumBigits() < b2.NumBigits() {
      LongerIsLarger(b1.bigits, b1.exp, b2.bigits, b2.exp);
    } else {
      LongerIsLarger(b2.bigits, b2.exp, b1.bigits, b1.exp);
    }
  }

  lemma QuotientSum(d: nat, x: int, y: int, z: int, p: nat, q: nat, r: nat)
    requires p < d && q < d && r < d
    ensures x + y > z ==> (d * x + p) + (d * y + q) > d * z + r
    ensures x + y + 1 < z ==> (d * x + p) + (d * y + q) < d * z + r
  {
    MulDist(x, y, d);
    if x + y > z {
      MulLe(z + 1, x + y, d);
    } else if x + y + 1 < z {
      MulLe(x + y + 2, z, d);
    }
  }

  /** The difference of the floors is 0 or 1, or it decides the comparison. */
  lemma AddFloors(a: nat, b: nat, c: nat, d: nat)
    requires d > 0
    ensures a / d + b / d > c / d ==> a + b > c
    ensures a / d + b / d + 1 < c / d ==> a + b < c
  {
    DivMod(a, d);
    DivMod(b, d);
    DivMod(c, d);
    QuotientSum(d, a / d, b / d, c / d, a % d, b % d, c % d);
  }

  lemma ExactFloors(a: nat, b: nat, c: nat, d: nat)
    requires d > 0 && a % d == 0 && b % d == 0 && c % d == 0
    ensures Sign(a + b - c) == Sign(a / d + b / d - c / d)
  {
    var x, y, z := a / d, b / d, c / d;
    DivMod(a, d);
    DivMod(b, d);
    DivMod(c, d);
    MulDist(x, y, d);
    if x + y > z {
      MulLt(z, x + y, d);
    } else if x + y < z {
      MulLt(x + y, z, d);
    }
  }

  /** Above its top bigit a number has nothing; at or below its exponent nothing is cut off. */
  lemma FloorTop(s: seq<bigit>, e: nat, i: nat)
    requires |s| + e <= i
    ensures Floor(s, e, i) == 0
  {
    ScaleBound(s, e);
    BaseMonotone(|s| + e, i);
    DivSmall(Scale(s, e), BasePow(i));
  }

  lemma FloorBottom(s: seq<bigit>, e: nat, i: nat)
    requires i <= e
    ensures Scale(s, e) % BasePow(i) == 0
  {
    ScaleShift(s, e, i);
    DivExact(BasePow(i), Scale(s, e - i));
  }

  lemma SumTooShort(lhs1: Bigint, lhs2: Bigint, rhs: Bigint, m: nat)
    requires rhs.Positive() && lhs1.NumBigits() <= m && lhs2.NumBigits() <= m && m + 1 < rhs.NumBigits()
    ensures lhs1.Val() + lhs2.Val() < rhs.Val()
  {
    ScaleBound(lhs1.bigits, lhs1.exp);
    ScaleBound(lhs2.bigits, lhs2.exp);
    ScaleBound(rhs.bigits, rhs.exp);
    BaseMonotone(lhs1.NumBigits(), m);
    BaseMonotone(lhs2.NumBigits(), m);
    BaseMonotone(m + 1, rhs.NumBigits() - 1);
  }

  /** A sum two places short of c, or an addend a place longer than c, decides at once. */
  lemma LengthDecides(lhs1: Bigint, lhs2: Bigint, rhs: Bigint, m: nat)
    requires rhs.Canonical() && lhs1.NumBigits() <= m && lhs2.NumBigits() <= m
    ensures m + 1 < rhs.NumBigits() ==> lhs1.Val() + lhs2.Val() < rhs.Val()
    ensures lhs1.Positive() && lhs1.NumBigits() > rhs.NumBigits() ==> lhs1.Val() > rhs.Val()
    ensures lhs2.Positive() && lhs2.NumBigits() > rhs.NumBigits() ==> lhs2.Val() > rhs.Val()
  {
    if m + 1 < rhs.NumBigits() {
      SumTooShort(lhs1, lhs2, rhs, m);
    }
    if lhs1.Positive() && lhs1.NumBigits() > rhs.NumBigits() {
      LongerIsLarger(rhs.bigits, rhs.exp, lhs1.bigits, lhs1.exp);
    }
    if lhs2.Positive() && lhs2.NumBigits() > rhs.NumBigits() {
      LongerIsLarger(rhs.bigits, rhs.exp, lhs2.bigits, lhs2.exp);
    }
  }

  /** How far the floors of a + b fall short of the floor of c at place i. */
  ghost function Gap(a: nat, b: nat, c: nat, i: nat): int
  {
    c / BasePow(i) - a / BasePow(i) - b / BasePow(i)
  }

  /** Looking at one more place multiplies the gap by the base and adds the bigits there. */
  lemma GapStep(x: Bigint, y: Bigint, z: Bigint, i: nat)
    ensures Gap(x.Val(), y.Val(), z.Val(), i)
         == 0x1_0000_0000 * Gap(x.Val(), y.Val(), z.Val(), i + 1) + z.GetBigit(i) - x.GetBigit(i) - y.GetBigit(i)
    ensures Gap(x.Val(), y.Val(), z.Val(), i) < 0 ==> x.Val() + y.Val() > z.Val()
    ensures Gap(x.Val(), y.Val(), z.Val(), i) > 1 ==> x.Val() + y.Val() < z.Val()
  {
    FloorStep(x.bigits, x.exp, i);
    FloorStep(y.bigits, y.exp, i);
    FloorStep(z.bigits, z.exp, i);
    AddFloors(x.Val(), y.Val(), z.Val(), BasePow(i));
  }

  /** Above all three numbers there is no gap; where nothing is cut off the gap is the answer. */
  lemma GapEnds(x: Bigint, y: Bigint, z: Bigint, top: nat, bottom: nat)
    requires x.NumBigits() <= top && y.NumBigits() <= top && z.NumBigits() <= top
    requires bottom <= x.exp && bottom <= y.exp && bottom <= z.exp
    ensures Gap(x.Val(), y.Val(), z.Val(), top) == 0
    ensures Sign(x.Val() + y.Val() - z.Val()) == Sign(-Gap(x.Val(), y.Val(), z.Val(), bottom))
  {
    FloorTop(x.bigits, x.exp, top);
    FloorTop(y.bigits, y.exp, top);
    FloorTop(z.bigits, z.exp, top);
    FloorBottom(x.bigits, x.exp, bottom);
    FloorBottom(y.bigits, y.exp, bottom);
    FloorBottom(z.bigits, z.exp, bottom);
    ExactFloors(x.Val(), y.Val(), z.Val(), BasePow(bottom));
  }

  // ----- squaring and powers of ten -----

  /** The first k columns written out, with sum carried into place k. */
  ghost predicate Summed(n: seq<bigit>, s: seq<bigit>, k: nat, sum: nat)
    requires k <= |s|
  {
    Value(s[..k]) + BasePow(k) * sum == Columns(n, |n|, k)
  }

  lemma ColumnAdded(v: int, p: int, carry: int, c: int, sum: int)
    requires sum == carry + c
    ensures v + p * sum == v + p * carry + c * p
  {
    MulDist(carry, c, p);
  }

  lemma SummedStep(n: seq<bigit>, s: seq<bigit>, k: nat, carry: nat, sum: nat)
    requires k < |s| && Summed(n, s, k, carry) && sum == carry + Column(n, |n|, k)
    ensures Summed(n, s[k := Low32(sum)], k + 1, sum / 0x1_0000_0000)
  {
    var t, c := s[k := Low32(sum)], Column(n, |n|, k);
    assert Columns(n, |n|, k + 1) == Columns(n, |n|, k) + c * BasePow(k);
    assert BasePow(k + 1) == 0x1_0000_0000 * BasePow(k);
    assert t[k] == Low32(sum) && t[..k] == s[..k];
    hide Value, BasePow, Column, Columns, Low32;
    ValuePrefix(t, k);
    CarrySplit(BasePow(k), Value(s[..k]), sum);
    ColumnAdded(Value(s[..k]), BasePow(k), carry, c, sum);
  }

  /** No carry is left over: a square of N bigits fits in 2N. */
  lemma SummedEnd(n: seq<bigit>, s: seq<bigit>, sum: nat)
    requires |s| == 2 * |n| && Summed(n, s, |s|, sum)
    ensures sum == 0 && Value(s) == Value(n) * Value(n)
  {
    SquareByColumns(n);
    SquareBound(n);
    assert s[..|s|] == s;
    if sum > 0 {
      MulLe(1, sum, BasePow(|s|));
    }
  }

  /** Adds the products n[i] * n[j] with i + j == k, i upwards and j downwards, to sum:
      all of them, for a column of the bottom half. */
  method AddLowColumn(n: seq<bigit>, k: nat, carry: nat) returns (sum: nat)
    requires k < |n| < 0x4000_0000 && carry <= |n| * 0x2_0000_0000
    ensures sum == carry + Column(n, |n|, k)
  {
    sum := carry;
    var i, j := 0, k;
    while j >= 0
      invariant 0 <= i <= k + 1 && j == k - i
      invariant sum == carry + Column(n, i, k)
    {
      sum := U128(sum + Product(n[i], n[j]));
      i, j := i + 1, j - 1;
    }
    ColumnTail(n, k + 1, |n|, k);
  }

  /** The same for a column of the top half. */
  method AddHighColumn(n: seq<bigit>, k: nat, carry: nat) returns (sum: nat)
    requires |n| <= k < 2 * |n| && |n| < 0x4000_0000 && carry <= |n| * 0x2_0000_0000
    ensures sum == carry + Column(n, |n|, k)
  {
    sum := carry;
    var j := |n| - 1;
    var i := k - j;
    ColumnTail(n, 0, i, k);
    while i < |n|
      invariant k - |n| + 1 <= i <= |n| && j == k - i
      invariant sum == carry + Column(n, i, k)
    {
      sum := U128(sum + Product(n[i], n[j]));
      i, j := i + 1, j - 1;
    }
  }

  method SquareBigits(n: seq<bigit>) returns (s: seq<bigit>)
    requires |n| < 0x4000_0000
    ensures Value(s) == Value(n) * Value(n) && |s| == 2 * |n|
  {
    var numBigits := |n|;
    var numResultBigits := 2 * numBigits;
    s := seq(numResultBigits, (_) => 0 as bigit);
    var sum: nat := 0;
    for k := 0 to numBigits
      invariant |s| == numResultBigits && Summed(n, s, k, sum) && sum <= numBigits * 0x2_0000_0000
    {
      ghost var carry := sum;
      sum := AddLowColumn(n, k, sum);
      SummedStep(n, s, k, carry, sum);
      s := s[k := Low32(sum)];
      sum := sum / 0x1_0000_0000;
    }
    for k := numBigits to numResultBigits
      invariant |s| == numResultBigits && Summed(n, s, k, sum) && sum <= numBigits * 0x2_0000_0000
    {
      ghost var carry := sum;
      sum := AddHighColumn(n, k, sum);
      SummedStep(n, s, k, carry, sum);
      s := s[k := Low32(sum)];
      sum := sum / 0x1_0000_0000;
    }
    SummedEnd(n, s, sum);
  }

  /** The largest power of two not above n: 1 << (31 - countl_zero(n)). */
  function HighBit(n: nat): (b: nat)
    requires n > 0
    ensures 0 < b <= n < 2 * b
  {
    if n == 1 then 1 else 2 * HighBit(n / 2)
  }

  lemma {:induction false} HighBitIsPow2(n: nat) returns (t: nat)
    requires n > 0
    ensures HighBit(n) == Pow2(t)
  {
    if n == 1 {
      t := 0;
    } else {
      t := HighBitIsPow2(n / 2);
      t := t + 1;
    }
  }

  lemma {:induction false} FiveBelowEight(k: nat)
    ensures Pow5(k) <= Pow2(3 * k)
  {
    if k > 0 {
      FiveBelowEight(k - 1);
      assert Pow2(3 * k) == 2 * Pow2(3 * k - 1) == 4 * Pow2(3 * k - 2) == 8 * Pow2(3 * k - 3);
    }
  }

  /** A power of five below 5^(2^31) has fewer than 2^30 bigits. */
  lemma FewBigits(s: seq<bigit>, k: nat)
    requires s != [] && s[|s| - 1] > 0 && Value(s) == Pow5(k) && k < 0x8000_0000
    ensures |s| < 0x4000_0000
  {
    ValueLowerBound(s);
    FiveBelowEight(k);
    BaseIsPow2(|s| - 1);
    if 32 * (|s| - 1) > 3 * k {
      Pow2Monotone(3 * k + 1, 32 * (|s| - 1));
    }
  }

  lemma SquareScale(v: nat, e: nat)
    ensures (v * v) * BasePow(2 * e) == (v * BasePow(e)) * (v * BasePow(e))
  {
    BaseAdd(e, e);
    MulInterchange(v, v, BasePow(e), BasePow(e));
  }

  /** n without its t lowest bits. */
  function Drop(n: nat, t: nat): (d: nat)
    ensures d <= n
  {
    if t == 0 then n else Drop(n, t - 1) / 2
  }

  lemma {:induction false} DropIsShift(n: nat, t: nat)
    ensures Drop(n, t) == n / Pow2(t)
  {
    if t > 0 {
      DropIsShift(n, t - 1);
      DivDiv(n, Pow2(t - 1), 2);
    }
  }

  // ----- subtraction and division -----

  /** One bigit of a subtraction with a borrow: 64-bit wrap-around leaves the new borrow in the top bit. */
  lemma BorrowStep(x: bigit, y: bigit, borrow: nat)
    requires borrow <= 1
    ensures var result := U64(x - y - borrow);
            var out := Low32(result / 0x8000_0000_0000_0000);
            out <= 1 && Low32(result) - 0x1_0000_0000 * out == x - y - borrow
  {
    var d := x - y - borrow;
    if d >= 0 {
      SmallU64(d);
    } else {
      assert U64(d) == d + 0x1_0000_0000_0000_0000;
    }
  }

  /** b minus the low j bigits of o placed at off, with a borrow still owed at place off + j. */
  ghost predicate Reduced(b: seq<bigit>, s: seq<bigit>, o: seq<bigit>, off: nat, j: nat, borrow: nat)
    requires j <= |o|
  {
    Value(s) == Value(b) - Scale(o[..j], off) + if borrow == 0 then 0 else BasePow(off + j)
  }

  lemma ReducedAlgebra(p: int, q: int, vs: int, vb: int, vo: int, x: int, y: int, borrow: int, low: int, out: int)
    requires vs == vb - vo * p + (p * q) * borrow
    requires low - x == 0x1_0000_0000 * out - y - borrow
    ensures vs + (p * q) * (low - x) == vb - (vo + q * y) * p + (0x1_0000_0000 * (p * q)) * out
  {
    var r := p * q;
    MulDist(vo, q * y, p);
    MulAssoc(p, q, y);
    MulSub(0x1_0000_0000 * out, y + borrow, r);
    MulDist(y, borrow, r);
    MulAssoc(0x1_0000_0000, r, out);
  }

  lemma ReducedStep(b: seq<bigit>, s: seq<bigit>, o: seq<bigit>, off: nat, j: nat, borrow: nat, low: bigit, out: nat)
    requires j < |o| && off + j < |s| && borrow <= 1 && out <= 1 && Reduced(b, s, o, off, j, borrow)
    requires low - 0x1_0000_0000 * out == s[off + j] - o[j] - borrow
    ensures Reduced(b, s[off + j := low], o, off, j + 1, out)
  {
    ValueUpdate(s, off + j, low);
    ValuePrefix(o, j);
    BaseAdd(off, j);
    ReducedAlgebra(BasePow(off), BasePow(j), Value(s), Value(b), Value(o[..j]), s[off + j], o[j], borrow, low, out);
  }

  /** What the borrow owed at the end is paid from: the one bigit past the subtrahend. */
  lemma BorrowPayable(s: seq<bigit>, i: nat)
    requires |s| <= i + 1 && Value(s) >= BasePow(i)
    ensures |s| == i + 1 && s[i] > 0
  {
    ValueBound(s);
    if |s| <= i {
      BaseMonotone(|s|, i);
    } else {
      assert s == s[..i] + [s[i]];
      ValueSnoc(s[..i], s[i]);
      ValueBound(s[..i]);
    }
  }

  lemma OneLess(s: seq<bigit>, i: nat)
    requires i < |s| && s[i] > 0
    ensures Value(s[i := s[i] - 1]) == Value(s) - BasePow(i)
  {
    hide Value, BasePow;
    var x: bigit := s[i] - 1;
    ValueUpdate(s, i, x);
    TimesMinusOne(BasePow(i), x - s[i]);
  }

  lemma TimesMinusOne(p: int, d: int)
    requires d == -1
    ensures p * d == -p
  {
  }

  lemma BorrowEnd(s: seq<bigit>, i: nat, minuend: nat, subtrahend: nat, borrow: nat)
    requires borrow <= 1 && |s| <= i + 1 && subtrahend <= minuend
    requires Value(s) == minuend - subtrahend + if borrow == 0 then 0 else BasePow(i)
    ensures borrow == 1 ==> |s| == i + 1 && s[i] > 0 && Value(s[i := s[i] - 1]) == minuend - subtrahend
  {
    if borrow == 1 {
      hide Value, BasePow;
      BorrowPayable(s, i);
      OneLess(s, i);
    }
  }

  lemma CancelFactor(vb: int, x: int, p: nat, so: int)
    requires p > 0 && so == p * x && so <= vb * p
    ensures x <= vb && (vb - x) * p == vb * p - so
  {
    if vb < x {
      MulLt(vb, x, p);
    }
    MulSub(vb, x, p);
  }

  /** Subtracting below a common exponent. */
  lemma AlignedDifference(b: seq<bigit>, e: nat, o: seq<bigit>, f: nat, t: seq<bigit>)
    requires e <= f && Scale(o, f) <= Scale(b, e)
    ensures Scale(o, f - e) <= Value(b)
    ensures Value(t) == Value(b) - Scale(o, f - e) ==> Scale(t, e) == Scale(b, e) - Scale(o, f)
  {
    ScaleShift(o, f, e);
    CancelFactor(Value(b), Scale(o, f - e), BasePow(e), Scale(o, f));
  }

  /** Comparing a zero that reaches no higher than d with d. */
  lemma ZeroIsSmaller(x: Bigint, d: Bigint)
    requires x.Normal() && d.Positive()
    requires x.Positive() || x.NumBigits() <= d.NumBigits()
    ensures (x.NumBigits() == d.NumBigits() || (x.Canonical() && d.Canonical()))
         || (x.Val() < d.Val() && x.NumBigits() < d.NumBigits())
    ensures x.Positive() == (x.Val() > 0) && d.Val() > 0
  {
    x.NormalPositive();
    d.NormalPositive();
  }

  /** A number below 2^32 times another is at most one bigit longer. */
  lemma AtMostOneLonger(x: Bigint, d: Bigint)
    requires x.Positive() && x.Val() < 0x1_0000_0000 * d.Val()
    ensures x.NumBigits() <= d.NumBigits() + 1
  {
    ScaleBound(x.bigits, x.exp);
    ScaleBound(d.bigits, d.exp);
    if x.NumBigits() > d.NumBigits() + 1 {
      BaseMonotone(d.NumBigits() + 1, x.NumBigits() - 1);
    }
  }

  class Bigint {
    var bigits: seq<bigit>
    var exp: nat

    ghost function Val(): (v: nat)
      reads this
    {
      Scale(bigits, exp)
    }

    function NumBigits(): nat
      reads this
    {
      |bigits| + exp
    }

    /** No leading zeros: what every operation leaves behind. */
    ghost predicate Normal()
      reads this
    {
      bigits != [] && (|bigits| > 1 ==> bigits[|bigits| - 1] != 0)
    }

    /** A nonzero top bigit. */
    ghost predicate Positive()
      reads this
    {
      bigits != [] && bigits[|bigits| - 1] != 0
    }

    /** Normal, and zero is only written as [0] with exponent 0. */
    ghost predicate Canonical()
      reads this
    {
      Normal() && (bigits[|bigits| - 1] == 0 ==> exp == 0)
    }

    lemma NormalPositive()
      requires Normal()
      ensures Positive() == (Val() > 0)
    {
      if bigits[|bigits| - 1] == 0 {
        assert bigits == [0];
        assert Value(bigits) == 0;
      } else {
        ScaleBound(bigits, exp);
      }
    }

    constructor ()
      ensures bigits == [] && exp == 0
    {
      bigits, exp := [], 0;
    }

    method Assign(n: nat)
      modifies this
      ensures exp == 0 && Val() == n && Canonical()
      ensures n > 0 ==> Positive()
    {
      var m: nat := n;
      var s: seq<bigit> := [];
      while m != 0 || s == []
        invariant Value(s) + BasePow(|s|) * m == n
        invariant |s| > 1 && m == 0 ==> s[|s| - 1] != 0
        decreases m, |s| == 0
      {
        PushStep(s, m);
        s := s + [Low32(m)];
        m := m / 0x1_0000_0000;
      }
      bigits, exp := s, 0;
      assert BasePow(0) == 1;
    }

    method AssignFrom(other: Bigint)
      modifies this
      ensures bigits == old(other.bigits) && exp == old(other.exp)
    {
      bigits, exp := other.bigits, other.exp;
    }

    method Multiply(value: bigit)
      requires value > 0
      modifies this
      ensures exp == old(exp) && Val() == old(Val()) * value
      ensures old(Normal()) ==> Normal()
      ensures old(Positive()) ==> Positive()
    {
      var carry: bigit := 0;
      var n, i := |bigits|, 0;
      ghost var b := bigits;
      while i < n
        invariant 0 <= i <= n == |bigits| == |b| && exp == old(exp)
        invariant forall k :: i <= k < n ==> bigits[k] == b[k]
        invariant Scaled(b, bigits, i, value, carry)
        invariant i > 0 && carry == 0 && b[i - 1] != 0 ==> bigits[i - 1] != 0
      {
        assert bigits[i] == b[i];
        WideProduct(b[i], value, carry);
        var result := U64(bigits[i] * value + carry);
        ScaledStep(b, bigits, i, value, carry, Low32(result), Low32(result / 0x1_0000_0000));
        if b[i] != 0 {
          MulLe(1, b[i], value);
        }
        bigits := bigits[i := Low32(result)];
        carry := Low32(result / 0x1_0000_0000);
        i := i + 1;
      }
      assert bigits[..n] == bigits && b[..n] == b;
      bigits := WithCarry(bigits, carry);
      MulSwap(Value(b), value, BasePow(exp));
    }

    /** Multiplication by a 64-bit (half == 2^32) or a 128-bit (half == 2^64) integer. */
    method MultiplyWide(value: nat, half: nat)
      requires half == 0x1_0000_0000 || half == 0x1_0000_0000_0000_0000
      requires 0 < value < half * half
      modifies this
      ensures exp == old(exp) && Val() == old(Val()) * value
      ensures old(Normal()) ==> Normal()
      ensures old(Positive()) ==> Positive()
    {
      var wide, shift := half * half, half / 0x1_0000_0000;
      var lower, upper := value % half, value / half;
      var carry: nat := 0;
      var n, i := |bigits|, 0;
      ghost var b := bigits;
      while i < n
        invariant 0 <= i <= n == |bigits| == |b| && exp == old(exp)
        invariant forall k :: i <= k < n ==> bigits[k] == b[k]
        invariant carry < value && Scaled(b, bigits, i, value, carry)
        invariant i > 0 && carry == 0 && b[i - 1] != 0 ==> bigits[i - 1] != 0
      {
        assert bigits[i] == b[i];
        WideStep(half, value, b[i], carry);
        var result := (lower * bigits[i] + Low32(carry)) % wide;
        ghost var last := carry;
        carry := ((upper * bigits[i] * shift) % wide + result / 0x1_0000_0000 + carry / 0x1_0000_0000) % wide;
        ScaledStep(b, bigits, i, value, last, Low32(result), carry);
        if b[i] != 0 {
          MulLe(1, b[i], value);
        }
        bigits := bigits[i := Low32(result)];
        i := i + 1;
      }
      assert bigits[..n] == bigits && b[..n] == b;
      bigits := PushBigits(bigits, carry);
      MulSwap(Value(b), value, BasePow(exp));
    }

    method ShiftLeft(shift: nat)
      modifies this
      ensures Val() == old(Val()) * Pow2(shift)
      ensures exp == old(exp) + shift / 32
      ensures old(Normal()) ==> Normal()
      ensures old(Positive()) ==> Positive()
    {
      exp := exp + shift / 32;
      var k := shift % 32;
      ghost var b := bigits;
      ShiftedValue(Value(b), old(exp), shift);
      if k == 0 {
        return;
      }
      bigits := ShiftBigits(bigits, k);
    }

    /** The sign of b1 - b2; equal values stored at different alignments compare by length. */
    static method Compare(b1: Bigint, b2: Bigint) returns (r: int)
      requires b1.bigits != [] && b2.bigits != []
      ensures b1.NumBigits() != b2.NumBigits() ==> r == Sign(b1.NumBigits() - b2.NumBigits())
      ensures b1.NumBigits() == b2.NumBigits() || (b1.Canonical() && b2.Canonical()) ==>
                r == Order(b1.Val(), b2.Val(), b1.exp, b2.exp)
    {
      ghost var s, e, t, f := b1.bigits, b1.exp, b2.bigits, b2.exp;
      if b1.NumBigits() != b2.NumBigits() {
        if b1.Canonical() && b2.Canonical() {
          CanonicalOrder(b1, b2);
        }
        return if b1.NumBigits() > b2.NumBigits() then 1 else -1;
      }
      var i, j := |b1.bigits| - 1, |b2.bigits| - 1;
      var end := i - j;
      if end < 0 {
        end := 0;
      }
      while i >= end
        invariant end - 1 <= i < |s| && i + e == j + f && |s| + e == |t| + f
        invariant s[i + 1..] == t[j + 1..]
      {
        if b1.bigits[i] != b2.bigits[j] {
          DecidedAt(s, e, t, f, i, j);
          return if b1.bigits[i] > b2.bigits[j] then 1 else -1;
        }
        i, j := i - 1, j - 1;
      }
      PrefixOrder(s, e, t, f);
      return if i != j then (if i > j then 1 else -1) else 0;
    }

    function GetBigit(i: int): bigit
      reads this
    {
      if exp <= i < NumBigits() then bigits[i - exp] else 0
    }

    /** The sign of (lhs1 + lhs2) - rhs, without forming the sum. A left-hand side may be
        a zero with an exponent as long as it does not reach above the right-hand side. */
    static method AddCompare(lhs1: Bigint, lhs2: Bigint, rhs: Bigint) returns (r: int)
      requires rhs.Canonical()
      requires lhs1.Positive() || (lhs1.bigits != [] && lhs1.NumBigits() <= rhs.NumBigits())
      requires lhs2.Positive() || (lhs2.bigits != [] && lhs2.NumBigits() <= rhs.NumBigits())
      ensures r == Sign(lhs1.Val() + lhs2.Val() - rhs.Val())
    {
      var maxLhs := if lhs1.NumBigits() > lhs2.NumBigits() then lhs1.NumBigits() else lhs2.NumBigits();
      var numRhs := rhs.NumBigits();
      ghost var a, b, c := lhs1.Val(), lhs2.Val(), rhs.Val();
      LengthDecides(lhs1, lhs2, rhs, maxLhs);
      if maxLhs + 1 < numRhs {
        return -1;
      }
      if maxLhs > numRhs {
        return 1;
      }
      var borrow: nat := 0;
      var minExp := if lhs1.exp < lhs2.exp then lhs1.exp else lhs2.exp;
      minExp := if minExp < rhs.exp then minExp else rhs.exp;
      var i := numRhs - 1;
      GapEnds(lhs1, lhs2, rhs, numRhs, minExp);
      ghost var gap := Gap(a, b, c, numRhs);
      while i >= minExp
        invariant minExp - 1 <= i
        invariant 0 <= gap <= 1 && gap == Gap(a, b, c, i + 1) && borrow == 0x1_0000_0000 * gap
      {
        GapStep(lhs1, lhs2, rhs, i);
        var sum := lhs1.GetBigit(i) + lhs2.GetBigit(i);
        var rhsBigit := rhs.GetBigit(i);
        gap := Gap(a, b, c, i);
        if sum > rhsBigit + borrow {
          return 1;
        }
        SmallU64(rhsBigit + borrow - sum);
        borrow := U64(rhsBigit + borrow - sum);
        if borrow > 1 {
          return -1;
        }
        SmallU64(borrow * 0x1_0000_0000);
        borrow := U64(borrow * 0x1_0000_0000);
        i := i - 1;
      }
      return if borrow != 0 then -1 else 0;
    }

    method RemoveLeadingZeros()
      requires bigits != []
      modifies this
      ensures exp == old(exp) && Value(bigits) == old(Value(bigits)) && Normal()
    {
      var numBigits := |bigits| - 1;
      assert bigits[..numBigits + 1] == bigits;
      while numBigits > 0 && bigits[numBigits] == 0
        invariant 0 <= numBigits < |bigits| && bigits == old(bigits) && exp == old(exp)
        invariant Value(bigits[..numBigits + 1]) == Value(bigits)
        invariant numBigits + 1 < |bigits| || bigits[..numBigits + 1] == bigits
      {
        ValuePrefix(bigits, numBigits);
        numBigits := numBigits - 1;
      }
      bigits := bigits[..numBigits + 1];
    }

    method SubtractBigits(index: nat, other: bigit, borrow: nat) returns (out: nat)
      requires index < |bigits| && borrow <= 1
      modifies this
      ensures exp == old(exp) && out <= 1
      ensures |bigits| == |old(bigits)| && bigits == old(bigits)[index := bigits[index]]
      ensures bigits[index] - 0x1_0000_0000 * out == old(bigits[index]) - other - borrow
    {
      BorrowStep(bigits[index], other, borrow);
      var result := U64(bigits[index] - other - borrow);
      bigits := bigits[index := Low32(result)];
      out := Low32(result / 0x8000_0000_0000_0000);
    }

    /** Subtraction for aligned operands; a borrow goes at most one bigit past the subtrahend. */
    method SubtractAligned(other: Bigint)
      requires this != other && Positive() && other.Positive()
      requires exp <= other.exp && other.Val() <= Val() && NumBigits() <= other.NumBigits() + 1
      modifies this
      ensures exp == old(exp) && Normal() && Val() == old(Val()) - other.Val()
    {
      ghost var b, o, off := bigits, other.bigits, other.exp - exp;
      if NumBigits() < other.NumBigits() {
        LongerIsLarger(bigits, exp, o, other.exp);
      }
      AlignedDifference(b, exp, o, other.exp, b);
      var borrow: nat := 0;
      var i, j, n := other.exp - exp, 0, |other.bigits|;
      assert Value(o[..0]) == 0;
      while j != n
        invariant 0 <= j <= n == |o| && i == off + j && exp == old(exp) && borrow <= 1
        invariant |bigits| == |b| && other.bigits == o && Reduced(b, bigits, o, off, j, borrow)
      {
        ghost var s, owed := bigits, borrow;
        borrow := SubtractBigits(i, other.bigits[j], borrow);
        ReducedStep(b, s, o, off, j, owed, bigits[i], borrow);
        i, j := i + 1, j + 1;
      }
      assert o[..n] == o;
      BorrowEnd(bigits, i, Value(b), Scale(o, off), borrow);
      if borrow != 0 {
        borrow := SubtractBigits(i, 0, borrow);
      }
      assert borrow == 0;
      AlignedDifference(b, exp, o, other.exp, bigits);
      RemoveLeadingZeros();
    }

    /** Rewrites this number with other's exponent if its own is larger. */
    method Align(other: Bigint)
      requires this != other
      modifies this
      ensures Val() == old(Val())
      ensures exp == if old(exp) > other.exp then other.exp else old(exp)
      ensures old(Positive()) ==> Positive()
      ensures NumBigits() == old(NumBigits())
    {
      var expDifference := exp - other.exp;
      if expDifference <= 0 {
        return;
      }
      ghost var b := bigits;
      var numBigits := |bigits|;
      var junk: seq<bigit> :| |junk| == expDifference by {
        assert |seq(expDifference, (_) => 0 as bigit)| == expDifference;
      }
      bigits := bigits + junk;
      var i, j := numBigits - 1, numBigits - 1 + expDifference;
      while i >= 0
        invariant -1 <= i < numBigits && j == i + expDifference && |bigits| == numBigits + expDifference
        invariant exp == old(exp)
        invariant forall k :: 0 <= k <= i ==> bigits[k] == b[k]
        invariant forall k :: i < k < numBigits ==> bigits[k + expDifference] == b[k]
      {
        bigits := bigits[j := bigits[i]];
        i, j := i - 1, j - 1;
      }
      assert bigits[expDifference..] == b;
      var zeros := seq(expDifference, (_) => 0 as bigit);
      bigits := zeros + bigits[expDifference..];
      exp := exp - expDifference;
      ValueZeros(zeros);
      ValueConcat(zeros, b);
      ScaleShift(b, old(exp), expDifference);
      MulSwap(BasePow(expDifference), Value(b), BasePow(exp));
      MulAssoc(BasePow(expDifference), Value(b), BasePow(exp));
    }

    /** One round of the division: takes the divisor out once, and says whether it goes on. */
    method TakeOut(divisor: Bigint) returns (more: bool)
      requires this != divisor && Positive() && divisor.Positive() && exp <= divisor.exp
      requires divisor.Val() <= Val() < 0x8000_0000 * divisor.Val()
      modifies this
      ensures exp == old(exp) && Normal() && Val() == old(Val()) - divisor.Val()
      ensures more == (Val() >= divisor.Val()) && (Positive() || (!more && NumBigits() <= divisor.NumBigits()))
    {
      hide Val;
      AtMostOneLonger(this, divisor);
      SubtractAligned(divisor);
      NormalPositive();
      ZeroIsSmaller(this, divisor);
      var c := Compare(this, divisor);
      more := c >= 0;
    }

    /** Division with remainder: the remainder stays here. It is Euclidean division except
        when the operands are equal and this one is stored with the larger exponent: then
        the opening comparison goes by length and 0 is returned. */
    method DivmodAssign(divisor: Bigint) returns (quotient: nat)
      requires this != divisor && divisor.Positive()
      requires Positive() || (Normal() && NumBigits() <= divisor.NumBigits())
      requires Val() < 0x8000_0000 * divisor.Val()
      modifies this
      ensures Normal() && (Positive() || NumBigits() <= divisor.NumBigits())
      ensures quotient == 0 ==> exp == old(exp)
      ensures quotient > 0 ==> exp == if old(exp) > divisor.exp then divisor.exp else old(exp)
      ensures old(Val() == divisor.Val() && exp > divisor.exp) ==> quotient == 0 && Val() == old(Val())
      ensures !old(Val() == divisor.Val() && exp > divisor.exp) ==>
                old(Val()) == quotient * divisor.Val() + Val() && Val() < divisor.Val()
    {
      hide Val;
      ghost var d := divisor.Val();
      ZeroIsSmaller(this, divisor);
      var c := Compare(this, divisor);
      if c < 0 {
        return 0;
      }
      Align(divisor);
      quotient := 0;
      var more := true;
      ghost var taken := 0;
      while more
        invariant exp == if old(exp) > divisor.exp then divisor.exp else old(exp)
        invariant Normal() && (more ==> Positive() && Val() >= d)
        invariant !more ==> quotient > 0 && Val() < d && (Positive() || NumBigits() <= divisor.NumBigits())
        invariant taken == quotient * d && old(Val()) == taken + Val()
        decreases Val(), more
      {
        MulDist(quotient, 1, d);
        taken := taken + d;
        more := TakeOut(divisor);
        quotient := quotient + 1;
      }
    }

    /** Squaring by column sums with a 128-bit accumulator. The source keeps twice the
        number of bigits in an int. */
    method Square()
      requires bigits != [] && |bigits| < 0x4000_0000
      modifies this
      ensures exp == 2 * old(exp) && Val() == old(Val()) * old(Val())
      ensures Normal()
    {
      var n := bigits;
      var numBigits := |bigits|;
      bigits := SquareBigits(n);
      RemoveLeadingZeros();
      exp := 2 * exp;
      SquareScale(Value(n), old(exp));
    }

    /** From 5^k to 5^(2k) or 5^(2k + 1): one round of repeated squaring. */
    method SquareAndMultiply(odd: bool, ghost k: nat)
      requires exp == 0 && Positive() && Val() == Pow5(k) && k < 0x8000_0000
      modifies this
      ensures exp == 0 && Positive() && Val() == Pow5(2 * k + if odd then 1 else 0)
    {
      FewBigits(bigits, k);
      Pow5Add(k, k);
      Square();
      NormalPositive();
      if odd {
        Multiply(5);
      }
    }

    /** Assigns 10^n: 5^n by repeated squaring over the bits of n, then a shift by n bits. */
    method AssignPow10(n: nat)
      requires n < 0x8000_0000
      modifies this
      ensures Val() == Pow10(n) && Positive() && exp == n / 32
    {
      if n == 0 {
        Assign(1);
        return;
      }
      var bitmask := HighBit(n);
      ghost var t := HighBitIsPow2(n);
      DropIsShift(n, t);
      DivUnique(bitmask, 1, n - bitmask);
      Assign(5);
      bitmask := bitmask / 2;
      while bitmask != 0
        invariant bitmask == if t == 0 then 0 else Pow2(t - 1)
        invariant exp == 0 && Positive() && Val() == Pow5(Drop(n, t))
        decreases t
      {
        DropIsShift(n, t - 1);
        SquareAndMultiply((n / bitmask) % 2 != 0, Drop(n, t));
        t := t - 1;
        bitmask := bitmask / 2;
      }
      ShiftLeft(n);
      TenIsFiveTwos(n);
    }
  }
}
