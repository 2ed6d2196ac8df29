/** Powers of two and ten with integer exponents, as reals, and scaled comparisons. */
module Rationals {
  import opened Powers

  function RPow10(x: int): (r: real)
    ensures r > 0.0
    decreases if x < 0 then -x else x
  {
    if x == 0 then 1.0 else if x > 0 then 10.0 * RPow10(x - 1) else RPow10(x + 1) / 10.0
  }

  function RPow2(x: int): (r: real)
    ensures r > 0.0
    decreases if x < 0 then -x else x
  {
    if x == 0 then 1.0 else if x > 0 then 2.0 * RPow2(x - 1) else RPow2(x + 1) / 2.0
  }

  lemma RPow10Step(x: int)
    ensures RPow10(x + 1) == 10.0 * RPow10(x)
  {
  }

  lemma {:induction false} RPow10OfNat(k: nat)
    ensures RPow10(k) == Pow10(k) as real
  {
    if k > 0 {
      RPow10OfNat(k - 1);
    }
  }

  lemma {:induction false} RPow2OfNat(k: nat)
    ensures RPow2(k) == Pow2(k) as real
  {
    if k > 0 {
      RPow2OfNat(k - 1);
    }
  }

  lemma {:induction false} RPow2Inverse(k: nat)
    ensures RPow2(0 - k) * Pow2(k) as real == 1.0
  {
    if k > 0 {
      RPow2Inverse(k - 1);
      TakeFactor(1.0, RPow2(1 - k), Pow2(k - 1) as real, RPow2(0 - k), Pow2(k) as real, 2.0);
    }
  }

  lemma TakeFactor(r: real, a: real, p: real, b: real, q: real, c: real)
    requires r == a * p && a == c * b && q == c * p
    ensures r == b * q
  {
    RMulPull(c, b, p);
  }

  lemma TenFold(k: nat)
    requires k > 0
    ensures Pow10(k) as real == 10.0 * Pow10(k - 1) as real
  {
  }

  lemma MoveInto(r: real, s: real, c: real, b: real, p: real, q: real)
    requires s == c * r && r == b * p && q == c * p
    ensures s == b * q
  {
    RMulPull(c, b, p);
  }

  /** Ten to the x as a multiple of a smaller power of ten. */
  lemma {:induction false} RPow10Split(x: int, k: nat)
    ensures RPow10(x) == RPow10(x - k) * Pow10(k) as real
    decreases k
  {
    hide RPow10;
    if k == 0 {
      assert Pow10(0) as real == 1.0 && x - 0 == x;
    } else {
      RPow10Split(x - 1, k - 1);
      RPow10Step(x - 1);
      TenFold(k);
      hide Pow10;
      assert x - 1 - (k - 1) == x - k && x - 1 + 1 == x;
      MoveInto(RPow10(x - 1), RPow10(x), 10.0, RPow10(x - k), Pow10(k - 1) as real, Pow10(k) as real);
    }
  }

  lemma RPow10Monotone(x: int, k: nat)
    ensures RPow10(x) <= RPow10(x + k)
    decreases k
  {
    if k > 0 {
      RPow10Monotone(x, k - 1);
      RPow10Step(x + k - 1);
    }
  }

  lemma RMulLe(a: real, b: real, c: real)
    requires a <= b && c >= 0.0
    ensures a * c <= b * c && c * a <= c * b
  {
  }

  lemma RMulPull(a: real, b: real, c: real)
    ensures (a * b) * c == b * (a * c)
  {
  }

  lemma RMulSwap(a: real, b: real, c: real)
    ensures (a * b) * c == (a * c) * b
  {
  }

  lemma RMulDist(a: real, b: real, c: real)
    ensures (a + b) * c == a * c + b * c
    ensures (a - b) * c == a * c - b * c
  {
  }

  lemma RMulLt(a: real, b: real, c: real)
    requires a < b && c > 0.0
    ensures a * c < b * c
  {
  }

  /** Scaling two numbers by positive factors keeps their order. */
  lemma ScaledOrder(a: real, b: real, r: real, y: real, z: real, s: real)
    requires r > 0.0 && s > 0.0 && a * r == y * s && b * r == z * s
    ensures (a < b) == (y < z)
    ensures (a == b) == (y == z)
  {
    if a < b {
      RMulLt(a, b, r);
    } else if b < a {
      RMulLt(b, a, r);
    }
    if y < z {
      RMulLt(y, z, s);
    } else if z < y {
      RMulLt(z, y, s);
    }
  }

  /** v is n/d at the decimal exponent x. */
  ghost predicate IsRatio(v: real, n: nat, d: nat, x: int)
  {
    n as real * RPow10(x) == v * d as real
  }

  lemma MoveFactor(n: real, p: real, r: real, q: real, w: real)
    requires n * r == w && r == q * p
    ensures (n * p) * q == w
  {
    RMulSwap(n, p, q);
    RMulAssoc(n, q, p);
  }

  /** Moving the decimal point: n * 10^k / d is v seen at exponent x - k. */
  lemma ShiftPoint(v: real, n: nat, d: nat, x: int, k: nat)
    requires IsRatio(v, n, d, x)
    ensures IsRatio(v, n * Pow10(k), d, x - k)
  {
    hide RPow10, Pow10;
    RPow10Split(x, k);
    RealProduct(n, Pow10(k));
    MoveFactor(n as real, Pow10(k) as real, RPow10(x), RPow10(x - k), v * d as real);
  }

  lemma RMulAssoc(a: real, b: real, c: real)
    ensures (a * b) * c == a * (b * c)
  {
  }

  lemma {:induction false} RealProduct(a: nat, b: nat)
    ensures (a * b) as real == a as real * b as real
  {
    if a > 0 {
      RealProduct(a - 1, b);
      MulSub(a, 1, b);
      RMulDist(a as real, 1.0, b as real);
    }
  }

  /** Two numbers given as fractions over d at the same exponent are ordered by their numerators. */
  lemma RatioOrder(v: real, n: nat, w: real, m: nat, d: nat, x: int)
    requires d > 0 && IsRatio(v, n, d, x) && IsRatio(w, m, d, x)
    ensures (v < w) == (n < m) && (v == w) == (n == m)
  {
    ScaledOrder(n as real, m as real, RPow10(x), v, w, d as real);
  }

  lemma RatioSum(v: real, n: nat, w: real, m: nat, d: nat, x: int)
    requires IsRatio(v, n, d, x) && IsRatio(w, m, d, x)
    ensures IsRatio(v + w, n + m, d, x)
    ensures n >= m ==> IsRatio(v - w, n - m, d, x)
  {
    RMulDist(v, w, d as real);
    RMulDist(n as real, m as real, RPow10(x));
  }

  /** The decimal m * 10^x as a fraction over d. */
  lemma DecimalRatio(m: nat, d: nat, x: int)
    ensures IsRatio(m as real * RPow10(x), m * d, d, x)
  {
    RealProduct(m, d);
    RMulSwap(m as real, d as real, RPow10(x));
  }
}
