/** Powers of the bases that occur here, and the few facts about multiplication and
    division that the rest of the project leans on. Each base has its own function so
    that unfolding one multiplies by a literal. */
module Powers {

  function Pow2(e: nat): (p: nat)
    ensures p > 0
  {
    if e == 0 then 1 else 2 * Pow2(e - 1)
  }

  function Pow5(e: nat): (p: nat)
    ensures p > 0
  {
    if e == 0 then 1 else 5 * Pow5(e - 1)
  }

  function Pow10(e: nat): (p: nat)
    ensures p > 0
  {
    if e == 0 then 1 else 10 * Pow10(e - 1)
  }

  /** Powers of 2^32. */
  function BasePow(e: nat): (p: nat)
    ensures p > 0
  {
    if e == 0 then 1 else 0x1_0000_0000 * BasePow(e - 1)
  }

  lemma {:induction false} Pow2Add(m: nat, n: nat)
    ensures Pow2(m + n) == Pow2(m) * Pow2(n)
  {
    if m > 0 {
      Pow2Add(m - 1, n);
      MulAssoc(2, Pow2(m - 1), Pow2(n));
    }
  }

  lemma {:induction false} Pow5Add(m: nat, n: nat)
    ensures Pow5(m + n) == Pow5(m) * Pow5(n)
  {
    if m > 0 {
      Pow5Add(m - 1, n);
      MulAssoc(5, Pow5(m - 1), Pow5(n));
    }
  }

  lemma {:induction false} Pow10Add(m: nat, n: nat)
    ensures Pow10(m + n) == Pow10(m) * Pow10(n)
  {
    if m > 0 {
      Pow10Add(m - 1, n);
      MulAssoc(10, Pow10(m - 1), Pow10(n));
    }
  }

  lemma {:induction false} BaseAdd(m: nat, n: nat)
    ensures BasePow(m + n) == BasePow(m) * BasePow(n)
  {
    if m > 0 {
      BaseAdd(m - 1, n);
      MulAssoc(0x1_0000_0000, BasePow(m - 1), BasePow(n));
    }
  }

  lemma {:induction false} Pow2Monotone(m: nat, n: nat)
    requires m <= n
    ensures Pow2(m) <= Pow2(n)
  {
    if m < n {
      Pow2Monotone(m, n - 1);
    }
  }

  lemma {:induction false} Pow10Monotone(m: nat, n: nat)
    requires m <= n
    ensures Pow10(m) <= Pow10(n)
  {
    if m < n {
      Pow10Monotone(m, n - 1);
    }
  }

  lemma {:induction false} BaseMonotone(m: nat, n: nat)
    requires m <= n
    ensures BasePow(m) <= BasePow(n)
  {
    if m < n {
      BaseMonotone(m, n - 1);
    }
  }

  lemma {:induction false} TenIsFiveTwos(e: nat)
    ensures Pow10(e) == Pow5(e) * Pow2(e)
  {
    if e > 0 {
      TenIsFiveTwos(e - 1);
      MulInterchange(5, Pow5(e - 1), 2, Pow2(e - 1));
    }
  }

  lemma Pow2Of32()
    ensures Pow2(32) == 0x1_0000_0000
  {
    assert Pow2(8) == 0x100;
    Pow2Add(8, 8);
    Pow2Add(16, 16);
  }

  lemma {:induction false} BaseIsPow2(e: nat)
    ensures BasePow(e) == Pow2(32 * e)
  {
    if e > 0 {
      BaseIsPow2(e - 1);
      Pow2Of32();
      Pow2Add(32, 32 * (e - 1));
    }
  }

  lemma MulAssoc(a: int, b: int, c: int)
    ensures (a * b) * c == a * (b * c)
  {
  }

  /** Two factors may change places. */
  lemma MulSwap(a: int, b: int, c: int)
    ensures (a * b) * c == (a * c) * b
  {
  }

  lemma MulPull(a: int, b: int, c: int)
    ensures a * (b * c) == b * (a * c)
  {
    MulAssoc(a, b, c);
    MulAssoc(b, a, c);
  }

  lemma MulInterchange(a: int, b: int, c: int, d: int)
    ensures (a * b) * (c * d) == (a * c) * (b * d)
  {
    MulAssoc(a * b, c, d);
    MulSwap(a, b, c);
    MulAssoc(a * c, b, d);
  }

  lemma MulDist(a: int, b: int, c: int)
    ensures (a + b) * c == a * c + b * c && c * (a + b) == c * a + c * b
  {
  }

  lemma MulSub(a: int, b: int, c: int)
    ensures (a - b) * c == a * c - b * c && c * (a - b) == c * a - c * b
  {
  }

  lemma MulLe(a: int, b: int, c: nat)
    requires a <= b
    ensures a * c <= b * c
  {
  }

  lemma MulLt(a: int, b: int, c: nat)
    requires a < b && c > 0
    ensures a * c < b * c
  {
  }

  /** The quotient and the remainder are determined by the equation they satisfy. */
  lemma DivUnique(d: int, q: int, r: int)
    requires 0 <= r < d
    ensures (d * q + r) / d == q && (d * q + r) % d == r
  {
    var x := d * q + r;
    var q', r' := x / d, x % d;
    assert x == d * q' + r';
    if q < q' {
      MulLe(q + 1, q', d);
    } else if q' < q {
      MulLe(q' + 1, q, d);
    }
  }

  lemma DivMod(x: int, d: int)
    requires d > 0
    ensures x == d * (x / d) + x % d && 0 <= x % d < d
  {
  }

  lemma DivExact(d: int, q: int)
    requires d > 0
    ensures (d * q) / d == q && (q * d) / d == q && (d * q) % d == 0
  {
    assert d * q + 0 == d * q == q * d;
    DivUnique(d, q, 0);
  }

  /** A dividend below the divisor. */
  lemma DivSmall(x: nat, d: nat)
    requires x < d
    ensures x / d == 0 && x % d == x
  {
    DivUnique(d, 0, x);
  }

  /** Dividing twice is dividing by the product. */
  lemma DivDiv(x: nat, c: nat, d: nat)
    requires c > 0 && d > 0
    ensures c * d > 0 && x / c / d == x / (c * d)
  {
    var q, a := x / c, x % c;
    var s, b := q / d, q % d;
    assert x == c * (d * s + b) + a;
    MulLe(b, d - 1, c);
    assert 0 <= c * b + a < c * d;
    assert x == (c * d) * s + (c * b + a);
    DivUnique(c * d, s, c * b + a);
  }

  /** Division is monotone in the dividend. */
  lemma DivLe(x: nat, y: nat, d: nat)
    requires d > 0 && x <= y
    ensures x / d <= y / d
  {
    if y / d < x / d {
      MulLe(y / d + 1, x / d, d);
    }
  }
}
