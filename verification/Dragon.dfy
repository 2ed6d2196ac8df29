/** Exact printing of a binary floating-point number f * 2^e in decimal: the digit
    generator of Steele & White run on bigints. */
module Dragon {
  import opened Powers
  import opened Rationals
  import opened DigitStrings
  import opened Shortest
  import opened Bigits
  import opened Bigints

  /** A significand and a binary exponent. */
  datatype Fp = Fp(f: nat, e: int)

  function ValueOf(fp: Fp): real { fp.f as real * RPow2(fp.e) }

  /** One more bit than half a unit in the last place needs, when the neighbour below is closer. */
  function Shift(closer: bool): nat { if closer then 2 else 1 }

  /** The upper distance in units of the lower one. */
  function UpperUnits(closer: bool): nat { if closer then 2 else 1 }

  /** The distances from the value to the ends of its rounding interval: half a unit in the last
      place, and half as much to a closer neighbour below. */
  function LowerGap(fp: Fp, closer: bool): real { if closer then RPow2(fp.e - 2) else RPow2(fp.e - 1) }
  function UpperGap(fp: Fp): real { RPow2(fp.e - 1) }

  // ----- the numbers the setup builds -----

  function Unit(fp: Fp, x: int): (u: nat)
    ensures u > 0
  {
    if fp.e >= 0 then Pow2(fp.e) else if x < 0 then Pow10(-x) else 1
  }

  function Denom(fp: Fp, closer: bool, x: int): (d: nat)
    requires fp.e >= 0 ==> x >= 0
  {
    if fp.e >= 0 then Pow10(x) * Pow2(Shift(closer))
    else if x < 0 then Pow2(Shift(closer) - fp.e)
    else Pow10(x) * Pow2(Shift(closer) - fp.e)
  }

  function Setting(fp: Fp, closer: bool, x: int): Bounds
    requires fp.e >= 0 ==> x >= 0
  {
    var u := Unit(fp, x);
    Bounds(u * (fp.f * Pow2(Shift(closer))), Denom(fp, closer, x), u, u * UpperUnits(closer))
  }

  lemma RPow2Split(x: int, k: nat)
    ensures RPow2(x) == RPow2(x - k) * Pow2(k) as real
    decreases k
  {
    hide RPow2;
    if k == 0 {
      assert Pow2(0) as real == 1.0 && x - 0 == x;
    } else {
      RPow2Split(x - 1, k - 1);
      RPow2Step(x - 1);
      TwoFold(k);
      hide Pow2;
      assert x - 1 - (k - 1) == x - k && x - 1 + 1 == x;
      MoveInto(RPow2(x - 1), RPow2(x), 2.0, RPow2(x - k), Pow2(k - 1) as real, Pow2(k) as real);
    }
  }

  lemma TwoFold(k: nat)
    requires k > 0
    ensures Pow2(k) as real == 2.0 * Pow2(k - 1) as real
  {
  }

  lemma RPow2Step(x: int)
    ensures RPow2(x + 1) == 2.0 * RPow2(x)
  {
  }

  lemma RatioScale(v: real, n: nat, d: nat, x: int, k: nat)
    requires IsRatio(v, n, d, x)
    ensures IsRatio(v * k as real, n * k, d, x)
  {
    RealProduct(n, k);
    RMulSwap(n as real, k as real, RPow10(x));
    RMulSwap(v, k as real, d as real);
  }

  lemma UnitAlgebra(u: real, t: real, g: real, p: real)
    requires u == g * p
    ensures u * t == g * (t * p)
  {
    RMulSwap(g, p, t);
    RMulAssoc(g, t, p);
  }

  /** A unit u that is g at the scale p is a ratio over t * p, at the decimal exponent of t. */
  lemma UnitOver(g: real, u: nat, t: nat, p: nat, x: int)
    requires u as real == g * p as real && RPow10(x) == t as real
    ensures IsRatio(g, u, t * p, x)
  {
    RealProduct(t, p);
    UnitAlgebra(u as real, t as real, g, p as real);
  }

  lemma UnitRatioIntegral(e: nat, s: nat, x: nat)
    ensures IsRatio(RPow2(e - s), Pow2(e), Pow10(x) * Pow2(s), x)
  {
    hide RPow2, RPow10, Pow2, Pow10, IsRatio;
    var g, u, t, p := RPow2(e - s), Pow2(e), Pow10(x), Pow2(s);
    assert RPow2(e) == g * p as real by { RPow2Split(e, s); }
    assert RPow2(e) == u as real by { RPow2OfNat(e); }
    assert RPow10(x) == t as real by { RPow10OfNat(x); }
    UnitOver(g, u, t, p, x);
  }

  lemma UnitRatioSmall(k: nat, x: int)
    requires x < 0
    ensures IsRatio(RPow2(0 - k), Pow10(-x), Pow2(k), x)
  {
    RPow2Inverse(k);
    RPow10Split(0, -x);
  }

  lemma UnitRatioMixed(k: nat, x: nat)
    ensures IsRatio(RPow2(0 - k), 1, Pow10(x) * Pow2(k), x)
  {
    RPow2Inverse(k);
    RPow10OfNat(x);
    UnitOver(RPow2(0 - k), 1, Pow10(x), Pow2(k), x);
  }

  /** The smallest distance is one unit over the denominator, in each of the three cases. */
  lemma UnitRatio(fp: Fp, closer: bool, x: int)
    requires fp.e >= 0 ==> x >= 0
    ensures IsRatio(LowerGap(fp, closer), Unit(fp, x), Denom(fp, closer, x), x)
  {
    var s := Shift(closer);
    if fp.e >= 0 {
      UnitRatioIntegral(fp.e, s, x);
    } else if x < 0 {
      assert 0 - (s - fp.e) == fp.e - s;
      UnitRatioSmall(s - fp.e, x);
    } else {
      assert 0 - (s - fp.e) == fp.e - s;
      UnitRatioMixed(s - fp.e, x);
    }
  }

  lemma ValueFromGap(fp: Fp, closer: bool)
    ensures ValueOf(fp) == LowerGap(fp, closer) * (fp.f * Pow2(Shift(closer))) as real
    ensures UpperGap(fp) == LowerGap(fp, closer) * UpperUnits(closer) as real
  {
    var s, g := Shift(closer), LowerGap(fp, closer);
    RPow2Step(fp.e - 2);
    RPow2Split(fp.e, s);
    RealProduct(fp.f, Pow2(s));
    RMulPull(fp.f as real, g, Pow2(s) as real);
    RMulAssoc(fp.f as real, g, Pow2(s) as real);
  }

  lemma SettingDescribes(fp: Fp, closer: bool, x: int)
    requires fp.f > 0 && (fp.e >= 0 ==> x >= 0)
    ensures WellFormed(Setting(fp, closer, x))
    ensures Describes(Setting(fp, closer, x), ValueOf(fp), LowerGap(fp, closer), UpperGap(fp), x)
  {
    hide RPow2, RPow10, IsRatio, Unit, Denom;
    SettingPositive(fp, closer, x);
    var u, d, g := Unit(fp, x), Denom(fp, closer, x), LowerGap(fp, closer);
    UnitRatio(fp, closer, x);
    ValueFromGap(fp, closer);
    var k: nat := fp.f * Pow2(Shift(closer));
    assert ValueOf(fp) == g * k as real;
    RatioScale(g, u, d, x, k);
    RatioScale(g, u, d, x, UpperUnits(closer));
  }

  lemma SettingPositive(fp: Fp, closer: bool, x: int)
    requires fp.f > 0 && (fp.e >= 0 ==> x >= 0)
    ensures WellFormed(Setting(fp, closer, x))
  {
    var b, s := Setting(fp, closer, x), Shift(closer);
    assert Pow2(s) >= 2;
    MulLe(1, fp.f, Pow2(s));
    MulLe(2, fp.f * Pow2(s), Unit(fp, x));
    if fp.e >= 0 {
      MulLt(0, Pow10(x), Pow2(s));
    } else if x >= 0 {
      MulLt(0, Pow10(x), Pow2(s - fp.e));
    }
  }

  // ----- the exponents the setup leaves the bigints with -----

  function NumerExp(fp: Fp, closer: bool, x: int): nat
  {
    if fp.e >= 0 then (fp.e + Shift(closer)) / 32 else if x < 0 then (-x) / 32 else 0
  }

  function LowerExp(fp: Fp, x: int): nat
  {
    if fp.e >= 0 then fp.e / 32 else if x < 0 then (-x) / 32 else 0
  }

  function DenomExp(fp: Fp, closer: bool, x: int): nat
    requires fp.e >= 0 ==> x >= 0
  {
    if fp.e >= 0 then x / 32
    else if x < 0 then (Shift(closer) - fp.e) / 32
    else x / 32 + (Shift(closer) - fp.e) / 32
  }

  /** Numerator, denominator and the two distances, as the generator works on them. */
  ghost predicate Holds(num: Bigint, den: Bigint, low: Bigint, up: Bigint, b: Bounds)
    reads num, den, low, up
  {
    && num.Val() == b.n && den.Val() == b.d && low.Val() == b.l && up.Val() == b.u
    && num.Positive() && den.Positive() && low.Positive() && up.Positive()
  }

  /** The upper distance is kept apart only when it differs from the lower one. */
  ghost predicate Separate(num: Bigint, den: Bigint, low: Bigint, up: Bigint)
  {
    num != den && num != low && num != up && den != low && den != up
  }

  /** An integral value. */
  method SetupIntegral(fp: Fp, closer: bool, x: int, num: Bigint, den: Bigint, low: Bigint, store: Bigint)
    requires 0 < fp.f < 0x1_0000_0000_0000_0000_0000_0000_0000_0000
    requires -0x8000_0000 < x < 0x8000_0000 && x >= 0 && fp.e >= 0
    requires num != den && num != low && num != store && den != low && den != store && low != store
    modifies num, den, low, store
    ensures Holds(num, den, low, if closer then store else low, Setting(fp, closer, x))
    ensures num.exp == NumerExp(fp, closer, x) && low.exp == LowerExp(fp, x)
    ensures den.exp == DenomExp(fp, closer, x)
  {
    var shift := Shift(closer);
    num.Assign(fp.f);
    num.ShiftLeft(fp.e + shift);
    low.Assign(1);
    low.ShiftLeft(fp.e);
    if closer {
      store.Assign(1);
      store.ShiftLeft(fp.e + 1);
    }
    den.AssignPow10(x);
    den.ShiftLeft(shift);
    assert Pow2(fp.e + 1) == 2 * Pow2(fp.e);
    Pow2Add(fp.e, shift);
    MulPull(fp.f, Pow2(fp.e), Pow2(shift));
  }

  /** A negative decimal exponent: the power of ten goes to the numerator. */
  method SetupSmall(fp: Fp, closer: bool, x: int, num: Bigint, den: Bigint, low: Bigint, store: Bigint)
    requires 0 < fp.f < 0x1_0000_0000_0000_0000_0000_0000_0000_0000
    requires -0x8000_0000 < x < 0x8000_0000 && x < 0 && fp.e < 0
    requires num != den && num != low && num != store && den != low && den != store && low != store
    modifies num, den, low, store
    ensures Holds(num, den, low, if closer then store else low, Setting(fp, closer, x))
    ensures num.exp == NumerExp(fp, closer, x) && low.exp == LowerExp(fp, x)
    ensures den.exp == DenomExp(fp, closer, x)
  {
    var shift := Shift(closer);
    num.AssignPow10(-x);
    low.AssignFrom(num);
    if closer {
      store.AssignFrom(num);
      store.ShiftLeft(1);
    }
    assert Pow2(1) == 2;
    num.MultiplyWide(fp.f, 0x1_0000_0000_0000_0000);
    num.ShiftLeft(shift);
    den.Assign(1);
    den.ShiftLeft(shift - fp.e);
    MulAssoc(Pow10(-x), fp.f, Pow2(shift));
  }

  /** A fraction with a decimal exponent that is not negative. */
  method SetupMixed(fp: Fp, closer: bool, x: int, num: Bigint, den: Bigint, low: Bigint, store: Bigint)
    requires 0 < fp.f < 0x1_0000_0000_0000_0000_0000_0000_0000_0000
    requires -0x8000_0000 < x < 0x8000_0000 && x >= 0 && fp.e < 0
    requires num != den && num != low && num != store && den != low && den != store && low != store
    modifies num, den, low, store
    ensures Holds(num, den, low, if closer then store else low, Setting(fp, closer, x))
    ensures num.exp == NumerExp(fp, closer, x) && low.exp == LowerExp(fp, x)
    ensures den.exp == DenomExp(fp, closer, x)
  {
    var shift := Shift(closer);
    num.Assign(fp.f);
    num.ShiftLeft(shift);
    den.AssignPow10(x);
    den.ShiftLeft(shift - fp.e);
    low.Assign(1);
    if closer {
      store.Assign(2);
    }
  }

  /** The three-way setup, for a power of ten that an int can hold. */
  method Setup(fp: Fp, closer: bool, x: int)
    returns (num: Bigint, den: Bigint, low: Bigint, up: Bigint)
    requires 0 < fp.f < 0x1_0000_0000_0000_0000_0000_0000_0000_0000
    requires -0x8000_0000 < x < 0x8000_0000 && (fp.e >= 0 ==> x >= 0)
    ensures fresh({num, den, low, up}) && Separate(num, den, low, up) && (closer == (up != low))
    ensures Holds(num, den, low, up, Setting(fp, closer, x))
    ensures num.exp == NumerExp(fp, closer, x) && low.exp == LowerExp(fp, x)
    ensures den.exp == DenomExp(fp, closer, x)
  {
    num := new Bigint();
    den := new Bigint();
    low := new Bigint();
    var upperStore := new Bigint();
    up := if closer then upperStore else low;
    if fp.e >= 0 {
      SetupIntegral(fp, closer, x, num, den, low, upperStore);
    } else if x < 0 {
      SetupSmall(fp, closer, x, num, den, low, upperStore);
    } else {
      SetupMixed(fp, closer, x, num, den, low, upperStore);
    }
  }

  // ----- generating digits -----

  /** The numerator, which can become zero, is not stored longer than it may be. */
  ghost predicate Dividable(num: Bigint, den: Bigint)
    reads num, den
  {
    den.Positive() && num.Normal() && (num.Positive() || num.NumBigits() <= den.NumBigits())
  }

  /** What the generator keeps between digits. */
  ghost predicate Ready(num: Bigint, den: Bigint, low: Bigint, up: Bigint)
    reads num, den, low, up
  {
    low.Positive() && up.Positive() && Dividable(num, den)
  }

  /** Divides numerator and denominator bigints that are equal but stored so that
      the division overlooks it. */
  ghost predicate Stale(num: Bigint, den: Bigint)
    reads num, den
  {
    num.Val() == den.Val() && num.exp > den.exp
  }

  /** The exponent of the numerator once a nonzero digit has been taken out. */
  function AlignedExp(n: nat, d: nat): nat { if n > d then d else n }

  /** Whether compare takes a numerator equal to the lower distance for low: the one stored with
      the larger exponent has fewer bigits and counts as the smaller. */
  predicate TieIsLow(numExp: nat, lowExp: nat, even: bool)
  {
    numExp > lowExp || (even && numExp == lowExp)
  }

  /** A zero remainder stored at the bigit exponent e counts as above the distance l, for
      compare, if l does not reach that bigit. */
  predicate ZeroMissed(l: nat, e: nat, r: nat)
  {
    r == 0 && l < BasePow(e)
  }

  /** numerator <[=] lower, as compare decides it. */
  method IsLow(num: Bigint, den: Bigint, low: Bigint, up: Bigint, even: bool) returns (isLow: bool)
    requires Ready(num, den, low, up)
    ensures isLow == (AtLeast(low.Val(), num.Val(), TieIsLow(num.exp, low.exp, even))
                      && !ZeroMissed(low.Val(), num.exp, num.Val()))
    ensures num.Val() < den.Val() <= low.Val() ==> isLow
  {
    NumeratorOrder(num, den, low);
    var c := Bigint.Compare(num, low);
    isLow := c - (if even then 1 else 0) < 0;
  }

  /** A positive numerator is compared by value, a zero by the places it is stored with. */
  lemma NumeratorOrder(num: Bigint, den: Bigint, low: Bigint)
    requires Dividable(num, den) && low.Positive()
    ensures num.Positive() == (num.Val() > 0) && low.Val() > 0
    ensures num.Positive() ==> num.Canonical() && low.Canonical()
    ensures !num.Positive() ==> num.NumBigits() == num.exp + 1
    ensures (num.exp < low.NumBigits()) == (BasePow(num.exp) <= low.Val())
    ensures !num.Positive() && den.Val() <= low.Val() ==> num.exp < low.NumBigits()
  {
    num.NormalPositive();
    low.NormalPositive();
    ScaleBound(low.bigits, low.exp);
    if num.exp < low.NumBigits() {
      BaseMonotone(num.exp, low.NumBigits() - 1);
    } else {
      BaseMonotone(low.NumBigits(), num.exp);
    }
    if !num.Positive() && den.Val() <= low.Val() && low.NumBigits() < num.NumBigits() {
      LongerIsLarger(low.bigits, low.exp, den.bigits, den.exp);
    }
  }

  /** One digit of the shortest representation, and whether the ends of the interval are reached. */
  method NextDigit(num: Bigint, den: Bigint, low: Bigint, up: Bigint, even: bool)
    returns (digit: nat, isLow: bool, isHigh: bool)
    requires Separate(num, den, low, up) && Ready(num, den, low, up)
    requires num.Val() < 10 * den.Val()
    modifies num
    ensures Ready(num, den, low, up) && num.Val() <= den.Val()
    ensures old(Stale(num, den)) ==> digit == 0 && num.Val() == den.Val()
    ensures !old(Stale(num, den)) ==> old(num.Val()) == digit * den.Val() + num.Val() && num.Val() < den.Val()
    ensures num.exp == if digit == 0 then old(num.exp) else AlignedExp(old(num.exp), den.exp)
    ensures isLow == (AtLeast(low.Val(), num.Val(), TieIsLow(num.exp, low.exp, even))
                      && !ZeroMissed(low.Val(), num.exp, num.Val()))
    ensures num.Val() < den.Val() <= low.Val() ==> isLow
    ensures isHigh == AtLeast(num.Val() + up.Val(), den.Val(), even)
  {
    digit := num.DivmodAssign(den);
    isLow := IsLow(num, den, low, up, even);
    var c := Bigint.AddCompare(num, up, den);
    isHigh := c + (if even then 1 else 0) > 0;
  }

  /** m * 10^-k is the shortest decimal in the interval and the closest of that length. */
  ghost predicate ShortestIn(b: Bounds, inLow: bool, inHigh: bool, m: nat, k: nat)
  {
    && Inside(b, inLow, inHigh, m, k) && ClosestInside(b, inLow, inHigh, m, k)
    && NoneShorter(b, inLow, inHigh, k) && (k > 0 ==> b.n >= b.d)
  }

  /** The digits q are the digits m and one more. */
  ghost predicate Continues(q: nat, m: nat, digit: nat)
  {
    q == 10 * m + digit && q % 2 == digit % 2
  }

  lemma LastDigitParity(m: nat, digit: nat)
    ensures (10 * m + digit) % 2 == digit % 2
  {
  }

  lemma DigitTaken(b: Bounds, m: nat, j: nat, w: nat, digit: nat, r: nat)
    requires b.n * Pow10(j) == 10 * (m * b.d) + w && w == digit * b.d + r && r < b.d
    ensures Remains(b, 10 * m + digit, j, r)
  {
    MulDist(10 * m, digit, b.d);
    MulAssoc(10, m, b.d);
  }

  /** The bound that keeps digits below ten, and lets them be bumped. */
  lemma DigitFits(d: nat, digit: nat, r: nat, u: nat, even: bool)
    requires d > 0 && u > 0 && AtLeast(10 * d, digit * d + r + u, !even)
    ensures digit <= 9
    ensures AtLeast(r + u, d, even) ==> digit < 9
  {
    if digit >= 10 {
      MulLe(10, digit, d);
    } else if digit == 9 {
      assert digit * d == 9 * d;
    }
  }

  lemma NoneThisLong(b: Bounds, inLow: bool, inHigh: bool, m: nat, j: nat, r: nat)
    requires WellFormed(b) && Remains(b, m, j, r) && NoneShorter(b, inLow, inHigh, j)
    requires !Low(b, j, r, inLow) && !High(b, j, r, inHigh)
    ensures NoneShorter(b, inLow, inHigh, j + 1)
  {
    forall x: nat, i: nat | i < j + 1
      ensures !Inside(b, inLow, inHigh, x, i)
    {
      if i == j {
        NoneYet(b, inLow, inHigh, m, j, r, x);
      }
    }
  }

  /** Rounding half to even: the remainder r over d, after the digits m. */
  predicate RoundsUp(d: nat, r: nat, m: nat)
  {
    2 * r > d || (2 * r == d && m % 2 == 1)
  }

  /** Stopping with the digits so far, or with the last one bumped. */
  lemma Stopped(b: Bounds, inLow: bool, inHigh: bool, m: nat, j: nat, r: nat, bump: bool)
    requires WellFormed(b) && Remains(b, m, j, r)
    requires Low(b, j, r, inLow) || High(b, j, r, inHigh)
    requires bump == (!Low(b, j, r, inLow) || (High(b, j, r, inHigh) && RoundsUp(b.d, r, m)))
    ensures var p := if bump then m + 1 else m;
            Inside(b, inLow, inHigh, p, j) && ClosestInside(b, inLow, inHigh, p, j)
  {
    Reached(b, inLow, inHigh, m, j, r);
    Closest(b, inLow, inHigh, m, j, r, bump);
  }

  /** Whether the last digit is bumped: always when only the upper end is reached, and by
      rounding half to even when both are. */
  method BumpLast(num: Bigint, den: Bigint, digit: nat, isLow: bool, isHigh: bool) returns (bump: bool)
    requires isLow || isHigh
    requires Dividable(num, den)
    ensures bump == (!isLow || (isHigh && RoundsUp(den.Val(), num.Val(), digit)))
  {
    bump := false;
    if !isLow {
      bump := true;
    } else if isHigh {
      var result := Bigint.AddCompare(num, num, den);
      bump := result > 0 || (result == 0 && digit % 2 != 0);
    }
  }

  /** After j digits with the number m: what is left of b in the numerator and the distances. */
  ghost predicate Progress(b: Bounds, m: nat, j: nat, w: nat, l: nat, u: nat, even: bool)
  {
    && b.n * Pow10(j) == 10 * (m * b.d) + w
    && l == b.l * Pow10(j) && u == b.u * Pow10(j)
    && AtLeast(10 * b.d, w + u, !even)
  }

  lemma ProgressStart(b: Bounds, inLow: bool, even: bool)
    requires AtLeast(10 * b.d, b.n + b.u, !even)
    ensures Progress(b, 0, 0, b.n, b.l, b.u, even)
    ensures NoneShorter(b, inLow, even, 0)
  {
    assert Pow10(0) == 1;
  }

  lemma ProgressBound(b: Bounds, m: nat, j: nat, w: nat, l: nat, u: nat, even: bool)
    requires WellFormed(b) && Progress(b, m, j, w, l, u, even)
    ensures w < 10 * b.d
  {
    MulLt(0, b.u, Pow10(j));
  }

  lemma ProgressStep(b: Bounds, m: nat, j: nat, r: nat, l: nat, u: nat, even: bool)
    requires Remains(b, m, j, r) && Grown(b, j, l, u)
    requires !High(b, j, r, even)
    ensures Progress(b, m, j + 1, 10 * r, 10 * l, 10 * u, even)
  {
    MulPull(10, b.n, Pow10(j));
    MulPull(10, b.l, Pow10(j));
    MulPull(10, b.u, Pow10(j));
  }

  /** The facts about one division step: the digit fits, and if it is the first and zero,
      or the division overlooked an equal divisor, the generator stops at once. */
  lemma FirstStep(b: Bounds, j: nat, m: nat, w: nat, digit: nat, r: nat, l: nat, u: nat,
                  stale: bool, isLow: bool, isHigh: bool, even: bool)
    requires WellFormed(b) && Progress(b, m, j, w, l, u, even)
    requires stale ==> j == 0 && digit == 0 && r == b.d && w == b.d
    requires !stale ==> w == digit * b.d + r && r < b.d
    requires j == 0 ==> w == b.n && m == 0
    requires b.n < b.d ==> High(b, 0, b.n, even)
    requires r > l ==> !isLow
    requires r < b.d <= l ==> isLow
    requires isHigh == AtLeast(r + u, b.d, even)
    ensures digit <= 9 && (isHigh ==> digit < 9)
    ensures j == 0 && digit == 0 ==> isHigh && !isLow && r > l
    ensures stale ==> isHigh && !isLow
    ensures j == 0 && digit > 0 ==> b.n >= b.d
    ensures !isLow && !isHigh ==> l < b.d
    ensures l > 0 && u > 0
    ensures w == 0 ==> digit == 0 && r == 0
  {
    MulLt(0, b.l, Pow10(j));
    MulLt(0, b.u, Pow10(j));
    assert Pow10(0) == 1;
    if !stale {
      DigitFits(b.d, digit, r, u, even);
      if digit > 0 {
        MulLe(1, digit, b.d);
      }
    }
  }

  /** A value that equals the power of ten is printed as 1. */
  lemma ExactlyOne(b: Bounds, inLow: bool, inHigh: bool)
    requires WellFormed(b) && b.n == b.d
    ensures Final(b, 1, 0, inLow, inHigh)
  {
    assert Pow10(0) == 1;
    assert Remains(b, 1, 0, 0);
    Reached(b, inLow, inHigh, 1, 0, 0);
    Closest(b, inLow, inHigh, 1, 0, 0, false);
  }

  /** Multiplying a zero leaves it as it is. */
  lemma ZeroStaysShort(num: Bigint, before: seq<bigit>)
    requires |before| > 0 && num.Normal() && num.Val() == 0
    ensures |num.bigits| <= |before|
  {
    num.NormalPositive();
  }

  /** Moves the numerator on to the next decimal place. */
  method NextPlace(num: Bigint, den: Bigint)
    requires num != den && Dividable(num, den)
    modifies num
    ensures Dividable(num, den) && num.exp == old(num.exp) && num.Val() == 10 * old(num.Val())
  {
    num.NormalPositive();
    num.Multiply(10);
    num.NormalPositive();
    if num.Val() == 0 {
      ZeroStaysShort(num, old(num.bigits));
    }
  }

  /** Moves on to the next decimal place. */
  method TimesTen(num: Bigint, den: Bigint, low: Bigint, up: Bigint)
    requires Separate(num, den, low, up) && Ready(num, den, low, up)
    modifies num, low, up
    ensures Ready(num, den, low, up)
    ensures num.exp == old(num.exp) && low.exp == old(low.exp)
    ensures num.Val() == 10 * old(num.Val()) && low.Val() == 10 * old(low.Val()) && up.Val() == 10 * old(up.Val())
  {
    NextPlace(num, den);
    low.Multiply(10);
    if up != low {
      up.Multiply(10);
    }
  }

  /** m followed by the digit p is in the interval and the closest of its length there. */
  ghost predicate Final(b: Bounds, p: nat, j: nat, inLow: bool, inHigh: bool)
  {
    Inside(b, inLow, inHigh, p, j) && ClosestInside(b, inLow, inHigh, p, j)
  }

  /** The last digit; q are the digits including it, p the digits printed. If the only digit
      left nothing and the generator went on, a zero follows. */
  method LastDigit(num: Bigint, den: Bigint, digit: nat, isLow: bool, isHigh: bool,
                   ghost low: Bigint, ghost up: Bigint, ghost b: Bounds, ghost m: nat, ghost q: nat, ghost j: nat,
                   ghost stale: bool, ghost inLow: bool, ghost even: bool, ghost missed: bool)
    returns (last: nat, ghost p: nat)
    requires Ready(num, den, low, up)
    requires WellFormed(b) && den.Val() == b.d
    requires stale ==> j == 0 && q == 0 && digit == 0 && b.n == b.d && isHigh && !isLow && !missed
    requires !stale ==> Remains(b, q, j, num.Val()) && isHigh == High(b, j, num.Val(), even)
    requires !stale ==> isLow == Low(b, j, num.Val(), inLow)
    requires Continues(q, m, digit)
    requires digit <= 9 && (isHigh ==> digit < 9) && (isLow || isHigh)
    requires missed ==> digit == 0 && num.Val() == 0 && isLow
    ensures last <= 9 && (!isLow || digit > 0 ==> last > 0)
    ensures p == 10 * m + last && Final(b, p, j, inLow, even)
    ensures missed ==> last == 0
  {
    var bump := BumpLast(num, den, digit, isLow, isHigh);
    last := if bump then digit + 1 else digit;
    p := if bump then q + 1 else q;
    if stale {
      ExactlyOne(b, inLow, even);
    } else {
      Stopped(b, inLow, even, q, j, num.Val(), bump);
    }
  }

  /** The distances after j digits. */
  ghost predicate Grown(b: Bounds, j: nat, l: nat, u: nat)
  {
    l == b.l * Pow10(j) && u == b.u * Pow10(j)
  }

  /** The same facts about the digits q that include the new one. */
  lemma TakenStep(b: Bounds, j: nat, m: nat, w: nat, digit: nat, q: nat, r: nat, l: nat, u: nat, stale: bool,
                  isLow: bool, isHigh: bool, even: bool, inLow: bool, missed: bool)
    requires Progress(b, m, j, w, l, u, even) && q == 10 * m + digit
    requires stale ==> j == 0 && digit == 0 && w == b.d
    requires !stale ==> w == digit * b.d + r && r < b.d
    requires j == 0 ==> w == b.n && m == 0
    requires j == 0 && digit == 0 ==> !isLow && r > l
    requires j > 0 || digit > 0 ==> isLow == (AtLeast(l, r, inLow) && !missed)
    requires isHigh == AtLeast(r + u, b.d, even)
    ensures q % 2 == digit % 2 && Grown(b, j, l, u)
    ensures stale ==> j == 0 && q == 0 && b.n == b.d
    ensures !stale ==> Remains(b, q, j, r) && isHigh == High(b, j, r, even)
    ensures !stale ==> isLow == (Low(b, j, r, inLow) && !missed)
  {
    LastDigitParity(m, digit);
    if !stale {
      DigitTaken(b, m, j, w, digit, r);
    }
  }

  /** Divides out one digit and says how it continues the digits m. */
  method TakeDigit(num: Bigint, den: Bigint, low: Bigint, up: Bigint, even: bool,
                   ghost b: Bounds, ghost m: nat, ghost j: nat, ghost ne: nat)
    returns (digit: nat, isLow: bool, isHigh: bool, ghost q: nat)
    requires Separate(num, den, low, up) && Ready(num, den, low, up)
    requires WellFormed(b) && den.Val() == b.d && (b.n < b.d ==> High(b, 0, b.n, even))
    requires Progress(b, m, j, num.Val(), low.Val(), up.Val(), even)
    requires j == 0 ==> ne == AlignedExp(num.exp, den.exp) && num.Val() == b.n && m == 0
    requires j > 0 ==> ne == num.exp <= den.exp
    modifies num
    ensures Ready(num, den, low, up)
    ensures digit <= 9 && (isHigh ==> digit < 9) && (j == 0 && digit == 0 ==> isHigh && !isLow)
    ensures Continues(q, m, digit)
    ensures old(num.Val()) == 0 ==> digit == 0 && num.Val() == 0
    ensures Grown(b, j, low.Val(), up.Val()) && low.Val() > 0
    ensures old(Stale(num, den)) ==> j == 0 && q == 0 && digit == 0 && b.n == b.d && isHigh && !isLow
    ensures old(Stale(num, den)) ==> num.Val() > 0
    ensures !old(Stale(num, den)) ==> Remains(b, q, j, num.Val()) && isHigh == High(b, j, num.Val(), even)
    ensures !old(Stale(num, den)) ==>
              isLow == (Low(b, j, num.Val(), TieIsLow(ne, low.exp, even)) && !ZeroMissed(low.Val(), ne, num.Val()))
    ensures !isLow && !isHigh ==> num.exp == ne && low.Val() < b.d && (j == 0 ==> b.n >= b.d)
  {
    hide Progress, Remains, Low, High, Grown, WellFormed, AtLeast, Bigint.Val;
    ghost var w, stale := num.Val(), Stale(num, den);
    ProgressBound(b, m, j, w, low.Val(), up.Val(), even);
    digit, isLow, isHigh := NextDigit(num, den, low, up, even);
    q := 10 * m + digit;
    AboveIsNotLow(low.Val(), num.Val());
    FirstStep(b, j, m, w, digit, num.Val(), low.Val(), up.Val(), stale, isLow, isHigh, even);
    TakenStep(b, j, m, w, digit, q, num.Val(), low.Val(), up.Val(), stale, isLow, isHigh, even,
              TieIsLow(ne, low.exp, even), ZeroMissed(low.Val(), ne, num.Val()));
  }

  lemma AboveIsNotLow(l: nat, r: nat)
    ensures r > l ==> !AtLeast(l, r, true) && !AtLeast(l, r, false)
  {
  }

  // ----- a first digit that leaves nothing -----

  /** The value is the digit d, and what is left, stored at the bigit exponent ne, is missed. */
  ghost predicate LeavesMissed(b: Bounds, d: nat, ne: nat)
  {
    0 < d <= 9 && b.n == d * b.d && b.l < BasePow(ne)
  }

  ghost predicate NoneMissed(b: Bounds, ne: nat)
  {
    forall d: nat :: !LeavesMissed(b, d, ne)
  }

  lemma SameDigit(d: int, c: int, q: int, r: int)
    requires c * d == q * d + r && 0 <= r < d
    ensures c == q && r == 0
  {
    DivUnique(d, c, 0);
    DivUnique(d, q, r);
  }

  /** The first digit, q, leaves such a zero exactly if its remainder is missed, and then the
      generator goes on. */
  lemma FirstMissed(b: Bounds, q: nat, r: nat, l: nat, u: nat, ne: nat, isHigh: bool, even: bool)
    requires WellFormed(b) && Remains(b, q, 0, r) && Grown(b, 0, l, u) && q <= 9
    requires isHigh == High(b, 0, r, even) && (b.l < BasePow(ne) ==> b.u < b.d)
    ensures !ZeroMissed(l, ne, r) ==> NoneMissed(b, ne)
    ensures ZeroMissed(l, ne, r) ==> LeavesMissed(b, q, ne) && !isHigh
  {
    assert Pow10(0) == 1;
    assert b.n == q * b.d + r && l == b.l && u == b.u;
    forall d: nat | LeavesMissed(b, d, ne)
      ensures ZeroMissed(l, ne, r)
    {
      SameDigit(b.d, d, q, r);
    }
  }

  /** A zero is low. */
  lemma ZeroIsLow(b: Bounds, j: nat, inLow: bool)
    requires WellFormed(b)
    ensures Low(b, j, 0, inLow)
  {
    MulLt(0, b.l, Pow10(j));
  }

  /** After the first digit the lower distance reaches the bigit a zero is stored at. */
  lemma NextReaches(b: Bounds, j: nat, l: nat, u: nat, ne: nat)
    requires Grown(b, j, l, u) && BasePow(ne) <= 10 * b.l
    ensures BasePow(ne) <= 10 * l
  {
    MulLe(1, Pow10(j), b.l);
  }

  lemma NotMissed(l: nat, ne: nat, r: nat)
    ensures BasePow(ne) <= l || r > 0 ==> !ZeroMissed(l, ne, r)
  {
  }

  lemma MissedPrinted(b: Bounds, d: nat, ne: nat, digits: seq<char>)
    requires WellFormed(b) && LeavesMissed(b, d, ne)
    requires |digits| == 2 && digits[0] == DigitChar(d) && DigitOf(digits[1]) == 0
    ensures !NoneMissed(b, ne)
    ensures forall c: nat :: LeavesMissed(b, c, ne) ==> digits == [DigitChar(c), '0']
  {
    forall c: nat | LeavesMissed(b, c, ne)
      ensures c == d
    {
      SameDigit(b.d, c, d, 0);
    }
    assert digits == [DigitChar(d), '0'];
  }

  lemma FinalIsShortest(b: Bounds, p: nat, j: nat, ne: nat, inLow: bool, inHigh: bool)
    requires Final(b, p, j, inLow, inHigh) && NoneShorter(b, inLow, inHigh, j) && (j > 0 ==> b.n >= b.d)
    ensures ShortestIn(b, inLow, inHigh, p, j)
    ensures NoneMissed(b, ne) ==> forall d: nat :: !LeavesMissed(b, d, ne)
  {
  }

  lemma NoDigitsYet()
    ensures AllDigits([]) && Number([]) == 0
  {
  }

  lemma Continued(q: nat, m: nat, digit: nat)
    requires Continues(q, m, digit)
    ensures q == 10 * m + digit
  {
  }

  lemma HoldsReady(num: Bigint, den: Bigint, low: Bigint, up: Bigint, b: Bounds)
    requires Holds(num, den, low, up, b)
    ensures Ready(num, den, low, up)
    ensures num.Val() == b.n && den.Val() == b.d && low.Val() == b.l && up.Val() == b.u
  {
  }

  /** The loop of the shortest mode. The result is a shortest decimal of the interval, where
      the lower end counts as the stored exponents have it, unless the first digit leaves
      nothing and that is missed: then a zero follows. */
  method ShortestDigits(num: Bigint, den: Bigint, low: Bigint, up: Bigint, even: bool, ghost b: Bounds)
    returns (digits: seq<char>, ghost m: nat)
    requires Separate(num, den, low, up) && Holds(num, den, low, up, b) && WellFormed(b)
    requires AtLeast(10 * b.d, b.n + b.u, !even)
    requires b.n < b.d ==> High(b, 0, b.n, even)
    requires var top := BasePow(AlignedExp(num.exp, den.exp)); top <= 10 * b.l && (b.l < top ==> b.u < b.d)
    modifies num, low, up
    ensures digits != [] && AllDigits(digits) && digits[0] != '0' && Number(digits) == m
    ensures var ne, le := AlignedExp(old(num.exp), den.exp), old(low.exp);
            && Final(b, m, |digits| - 1, TieIsLow(ne, le, even), even)
            && (old(Stale(num, den)) || NoneMissed(b, ne) ==>
                  ShortestIn(b, TieIsLow(ne, le, even), even, m, |digits| - 1))
            && (!old(Stale(num, den)) ==>
                  forall d: nat :: LeavesMissed(b, d, ne) ==> digits == [DigitChar(d), '0'])
  {
    hide Inside, NoneShorter, ClosestInside, Progress, Remains, Low, High, WellFormed, Grown, Stale, Bigint.Val;
    hide LeavesMissed, NoneMissed, ZeroMissed;
    hide TieIsLow, ShortestIn, Final, Continues, Ready, Holds, AllDigits, Number, DigitChar, AtLeast;
    NoDigitsYet();
    HoldsReady(num, den, low, up, b);
    digits, m := [], 0;
    ghost var ne, le := AlignedExp(num.exp, den.exp), low.exp;
    ghost var inLow, missed := TieIsLow(ne, le, even), false;
    ProgressStart(b, inLow, even);
    while true
      invariant AllDigits(digits) && Number(digits) == m && (digits != [] ==> digits[0] != '0')
      invariant Ready(num, den, low, up) && den.Val() == b.d && low.exp == le
      invariant Progress(b, m, |digits|, num.Val(), low.Val(), up.Val(), even)
      invariant digits == [] ==> num.exp == old(num.exp) && num.Val() == b.n && m == 0 && !missed
      invariant digits == [] ==> Stale(num, den) == old(Stale(num, den))
      invariant digits != [] ==> num.exp == ne && b.n >= b.d && BasePow(ne) <= low.Val()
      invariant !missed ==> NoneShorter(b, inLow, even, |digits|)
      invariant digits != [] && !missed ==> NoneMissed(b, ne)
      invariant missed ==> !old(Stale(num, den)) && m <= 9 && digits == [DigitChar(m)]
      invariant missed ==> num.Val() == 0 && LeavesMissed(b, m, ne)
      decreases 10 * b.d - low.Val()
    {
      ghost var stale, j, q := Stale(num, den), |digits|, 0;
      var digit, isLow, isHigh;
      digit, isLow, isHigh, q := TakeDigit(num, den, low, up, even, b, m, j, ne);
      Continued(q, m, digit);
      ghost var zero := ZeroMissed(low.Val(), ne, num.Val());
      NotMissed(low.Val(), ne, num.Val());
      ZeroIsLow(b, j, inLow);
      if j == 0 && !stale {
        FirstMissed(b, q, num.Val(), low.Val(), up.Val(), ne, isHigh, even);
      }
      if isLow || isHigh {
        ghost var first := m;
        digit, m := LastDigit(num, den, digit, isLow, isHigh, low, up, b, m, q, j, stale, inLow, even, missed);
        digits := Append(digits, digit);
        if missed {
          MissedPrinted(b, first, ne, digits);
        } else {
          FinalIsShortest(b, m, j, ne, inLow, even);
        }
        return;
      }
      digits := Append(digits, digit);
      m := q;
      ProgressStep(b, m, j, num.Val(), low.Val(), up.Val(), even);
      NextReaches(b, j, low.Val(), up.Val(), ne);
      if !zero {
        NoneThisLong(b, inLow, even, m, j, num.Val());
      }
      missed := zero;
      TimesTen(num, den, low, up);
    }
  }
}
