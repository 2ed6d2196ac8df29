/** Removing trailing decimal zeros with modular inverses and rotations instead of division. */
module TrailingZeros {
  import opened Powers

  /** A word of the width 2^w == full with its low bits, those below shift, moved to the top.
      They come in where the other operand of the source's or has none, so it is a sum. */
  function RotateRight(n: nat, shift: nat, full: nat): nat
    requires shift > 0
  {
    n / shift + n % shift * (full / shift)
  }

  /** Rotation right by r bits. */
  function Rotr(n: nat, r: nat, width: nat): nat
    requires width > 0
  {
    RotateRight(n, Pow2(r % width), Pow2(width))
  }

  lemma Pow2Of64()
    ensures Pow2(64) == 0x1_0000_0000_0000_0000
  {
    Pow2Of32();
    Pow2Add(32, 32);
  }

  lemma RotrShift(n: nat, r: nat, width: nat)
    requires r < width
    ensures Rotr(n, r, width) == RotateRight(n, Pow2(r), Pow2(width))
  {
    DivSmall(r, width);
  }

  lemma InverseTimes(m: int, a: int, inv: int, full: int, c: int, n: int)
    requires a * inv == 1 + full * c && full > 0 && m == (n * inv) % full
    ensures (a * m - n) % full == 0
  {
    var t := n * inv / full;
    assert m == n * inv - full * t by {
      DivMod(n * inv, full);
    }
    assert a * (n * inv) == n + full * (c * n) by {
      MulPull(a, n, inv);
      MulDist(1, full * c, n);
      MulAssoc(full, c, n);
    }
    assert a * m == a * (n * inv) - full * (a * t) by {
      MulSub(n * inv, full * t, a);
      MulPull(a, full, t);
    }
    MultipleOf(a * m - n, full, c * n, a * t);
  }

  lemma MultipleOf(x: int, full: int, u: int, v: int)
    requires full > 0 && x == full * u - full * v
    ensures x % full == 0
  {
    MulSub(u, v, full);
    DivExact(full, u - v);
  }

  /** Two numbers below full that differ by a multiple of it are equal. */
  lemma SameResidue(x: nat, y: nat, full: nat)
    requires x < full && y < full && (x - y) % full == 0
    ensures x == y
  {
    var t := (x - y) / full;
    assert x - y == full * t;
    if t >= 1 {
      MulLe(1, t, full);
    } else if t <= -1 {
      MulLe(t, -1, full);
    }
  }

  /** Multiplying a * x by the inverse of a gives x back. */
  lemma InverseCancels(x: nat, a: nat, full: nat, inv: nat, c: nat)
    requires a * inv == 1 + full * c && x < full
    ensures ((a * x) * inv) % full == x
  {
    assert (a * x) * inv == full * (c * x) + x by {
      MulSwap(a, x, inv);
      MulDist(1, full * c, x);
      MulAssoc(full, c, x);
    }
    DivUnique(full, c * x, x);
  }

  lemma RotateSmall(m: nat, s: nat, h: nat, full: nat, q: nat)
    requires s > 0 && full == s * h && q == RotateRight(m, s, full)
    ensures q < h ==> m == s * q
    ensures m % s == 0 ==> q == m / s
  {
    DivExact(s, h);
    DivMod(m, s);
    if m % s > 0 {
      MulLe(1, m % s, h);
    }
  }

  lemma Quotient(x: nat, d: nat, k: nat)
    requires d > 0
    ensures k <= x / d <==> d * k <= x
  {
    DivMod(x, d);
    if k <= x / d {
      MulLe(k, x / d, d);
    } else {
      MulLe(x / d + 1, k, d);
      MulDist(x / d, 1, d);
    }
  }

  /** A multiple of d == a * s loses a in the product and s in the rotation. */
  lemma MultiplePasses(k: nat, a: nat, s: nat, h: nat, full: nat, d: nat, inv: nat, c: nat)
    requires s > 0 && a > 0 && full == s * h && d == a * s > 0
    requires a * inv == 1 + full * c && d * k < full
    ensures RotateRight(((d * k) * inv) % full, s, full) == k && k <= (full - 1) / d
  {
    var x := s * k;
    assert d * k == a * x by {
      MulAssoc(a, s, k);
    }
    assert x < full by {
      MulLe(1, a, x);
    }
    InverseCancels(x, a, full, inv, c);
    DivExact(s, k);
    RotateSmall(x, s, h, full, RotateRight(x, s, full));
    Quotient(full - 1, d, k);
  }

  /** What passes the test is a multiple of d. */
  lemma PassedIsMultiple(n: nat, a: nat, s: nat, h: nat, full: nat, d: nat, inv: nat, c: nat, q: nat)
    requires s > 0 && a > 1 && h > 0 && full == s * h && d == a * s > 0
    requires n < full && a * inv == 1 + full * c
    requires q == RotateRight((n * inv) % full, s, full) && q <= (full - 1) / d
    ensures n == d * q
  {
    var m := (n * inv) % full;
    assert d * q < full by {
      Quotient(full - 1, d, q);
    }
    assert q < h by {
      Quotient(full - 1, d, h);
      MulLe(1, a, full);
      MulAssoc(a, s, h);
    }
    assert m == s * q by {
      RotateSmall(m, s, h, full, q);
    }
    assert a * m == d * q by {
      MulAssoc(a, s, q);
    }
    InverseTimes(m, a, inv, full, c, n);
    SameResidue(d * q, n, full);
  }

  /** The test holds exactly for the multiples of d, and gives the quotient. */
  lemma RotateTest(n: nat, a: nat, s: nat, h: nat, full: nat, d: nat, inv: nat, c: nat, q: nat)
    requires s > 0 && a > 1 && h > 0 && full == s * h && d == a * s > 0
    requires n < full && a * inv == 1 + full * c
    requires q == RotateRight((n * inv) % full, s, full)
    ensures q <= (full - 1) / d <==> n % d == 0
    ensures n % d == 0 ==> n == d * q
  {
    hide RotateRight;
    if n % d == 0 {
      var k := n / d;
      assert n == d * k by {
        DivMod(n, d);
      }
      MultiplePasses(k, a, s, h, full, d, inv, c);
    }
    if q <= (full - 1) / d {
      PassedIsMultiple(n, a, s, h, full, d, inv, c, q);
      DivExact(d, q);
    }
  }

  /** What is left of n and the number of zeros taken off. */
  ghost predicate Stripped(n: nat, rest: nat, zeros: nat)
  {
    n == rest * Pow10(zeros)
  }

  lemma StripMore(n: nat, rest: nat, zeros: nat, more: nat, q: nat)
    requires Stripped(n, rest, zeros) && rest == Pow10(more) * q
    ensures Stripped(n, q, zeros + more)
  {
    Pow10Add(more, zeros);
    MulAssoc(q, Pow10(more), Pow10(zeros));
  }

  lemma NotTen(rest: nat, q: nat)
    requires rest % 100 != 0 && rest == 10 * q
    ensures q % 10 != 0
  {
  }

  lemma Hundreds32(n: nat)
    requires n < 0x1_0000_0000
    ensures var q := Rotr((n * 0xc28f5c29) % 0x1_0000_0000, 2, 32);
            (q <= 0xffff_ffff / 100 <==> n % 100 == 0) && (n % 100 == 0 ==> n == 100 * q)
  {
    var m := (n * 0xc28f5c29) % 0x1_0000_0000;
    Pow2Of32();
    assert Pow2(2) == 4;
    RotrShift(m, 2, 32);
    RotateTest(n, 25, 4, 0x4000_0000, 0x1_0000_0000, 100, 0xc28f5c29, 19, Rotr(m, 2, 32));
  }

  lemma Tens32(n: nat)
    requires n < 0x1_0000_0000
    ensures var q := Rotr((n * 0xcccccccd) % 0x1_0000_0000, 1, 32);
            (q <= 0xffff_ffff / 10 <==> n % 10 == 0) && (n % 10 == 0 ==> n == 10 * q)
  {
    var m := (n * 0xcccccccd) % 0x1_0000_0000;
    Pow2Of32();
    assert Pow2(1) == 2;
    RotrShift(m, 1, 32);
    RotateTest(n, 5, 2, 0x8000_0000, 0x1_0000_0000, 10, 0xcccccccd, 4, Rotr(m, 1, 32));
  }

  lemma Hundreds64(n: nat)
    requires n < 0x1_0000_0000_0000_0000
    ensures var q := Rotr((n * 0x8f5c28f5c28f5c29) % 0x1_0000_0000_0000_0000, 2, 64);
            (q <= 0xffff_ffff_ffff_ffff / 100 <==> n % 100 == 0) && (n % 100 == 0 ==> n == 100 * q)
  {
    var m := (n * 0x8f5c28f5c28f5c29) % 0x1_0000_0000_0000_0000;
    Pow2Of64();
    assert Pow2(2) == 4;
    RotrShift(m, 2, 64);
    RotateTest(n, 25, 4, 0x4000_0000_0000_0000, 0x1_0000_0000_0000_0000, 100, 0x8f5c28f5c28f5c29, 14, Rotr(m, 2, 64));
  }

  lemma Tens64(n: nat)
    requires n < 0x1_0000_0000_0000_0000
    ensures var q := Rotr((n * 0xcccccccccccccccd) % 0x1_0000_0000_0000_0000, 1, 64);
            (q <= 0xffff_ffff_ffff_ffff / 10 <==> n % 10 == 0) && (n % 10 == 0 ==> n == 10 * q)
  {
    var m := (n * 0xcccccccccccccccd) % 0x1_0000_0000_0000_0000;
    Pow2Of64();
    assert Pow2(1) == 2;
    RotrShift(m, 1, 64);
    RotateTest(n, 5, 2, 0x8000_0000_0000_0000, 0x1_0000_0000_0000_0000, 10, 0xcccccccccccccccd, 4, Rotr(m, 1, 64));
  }

  /** The 32-bit variant; s counts the zeros already taken off. */
  method RemoveTrailingZeros32(n: nat, s: nat) returns (rest: nat, zeros: nat)
    requires 0 < n < 0x1_0000_0000 && s % 2 == 0
    ensures zeros >= s && n == rest * Pow10(zeros - s) && rest % 10 != 0 && 0 < rest <= n
  {
    hide Rotr, Pow10;
    StripNone(n);
    rest, zeros := n, s;
    TwoTens();
    while true
      invariant 0 < rest < 0x1_0000_0000 && rest <= n && zeros % 2 == 0 && zeros >= s && Stripped(n, rest, zeros - s)
      decreases rest
    {
      var q := Rotr((rest * 0xc28f5c29) % 0x1_0000_0000, 2, 32);
      Hundreds32(rest);
      if q > 0xffff_ffff / 100 {
        break;
      }
      StripMore(n, rest, zeros - s, 2, q);
      rest := q;
      zeros := zeros + 2;
    }
    var q := Rotr((rest * 0xcccccccd) % 0x1_0000_0000, 1, 32);
    Tens32(rest);
    if q <= 0xffff_ffff / 10 {
      StripMore(n, rest, zeros - s, 1, q);
      NotTen(rest, q);
      rest := q;
      zeros := zeros - zeros % 2 + 1;
    }
  }

  lemma StripNone(n: nat)
    ensures Stripped(n, n, 0)
  {
    assert Pow10(0) == 1;
  }

  lemma TwoTens()
    ensures Pow10(1) == 10 && Pow10(2) == 100
  {
  }

  /** Multiplying by ceil(2^90 / 10^8): the low 90 bits tell whether 10^8 divides n, and the
      bits above them are the quotient. */
  lemma MagicTest(n: nat)
    requires n < 0x1_0000_0000_0000_0000
    ensures var nm := n * 12379400392853802749;
            && (nm % 0x400_0000_0000_0000_0000_0000 < 12379400392853802749 <==> n % 1_0000_0000 == 0)
            && nm / 0x400_0000_0000_0000_0000_0000 == n / 1_0000_0000
  {
    var k, r := n / 1_0000_0000, n % 1_0000_0000;
    var low := k * 875776 + r * 12379400392853802749;
    assert n * 12379400392853802749 == 0x400_0000_0000_0000_0000_0000 * k + low;
    DivUnique(0x400_0000_0000_0000_0000_0000, k, low);
  }

  /** The test as the code makes it, on the halves of the 128-bit product. */
  lemma HighAndLow(nm: nat)
    ensures var high, low := nm / 0x1_0000_0000_0000_0000, nm % 0x1_0000_0000_0000_0000;
            && (high % 0x400_0000 == 0 && low < 12379400392853802749
                <==> nm % 0x400_0000_0000_0000_0000_0000 < 12379400392853802749)
            && high / 0x400_0000 == nm / 0x400_0000_0000_0000_0000_0000
  {
    var high, low := nm / 0x1_0000_0000_0000_0000, nm % 0x1_0000_0000_0000_0000;
    var top, middle := high / 0x400_0000, high % 0x400_0000;
    assert nm == 0x400_0000_0000_0000_0000_0000 * top + (0x1_0000_0000_0000_0000 * middle + low);
    DivUnique(0x400_0000_0000_0000_0000_0000, top, 0x1_0000_0000_0000_0000 * middle + low);
  }

  lemma EighthTest(n: nat, high: nat, low: nat)
    requires n < 0x1_0000_0000_0000_0000
    requires high == n * 12379400392853802749 / 0x1_0000_0000_0000_0000
    requires low == n * 12379400392853802749 % 0x1_0000_0000_0000_0000
    ensures high % 0x400_0000 == 0 && low < 12379400392853802749 <==> n % 1_0000_0000 == 0
    ensures high / 0x400_0000 == n / 1_0000_0000
  {
    MagicTest(n);
    HighAndLow(n * 12379400392853802749);
  }

  /** What the 64-bit variant leaves: a quotient by 10^8 beyond 32 bits is truncated, and then,
      and only then, the result is wrong. */
  ghost predicate StrippedInWords(n: nat, rest: nat, zeros: nat)
  {
    var k := n / 1_0000_0000;
    && (n == rest * Pow10(zeros) <==> n % 1_0000_0000 != 0 || k < 0x1_0000_0000)
    && (n % 1_0000_0000 == 0 ==> zeros >= 8 && k % 0x1_0000_0000 == rest * Pow10(zeros - 8))
  }

  lemma EightZeros(n: nat, rest: nat, k: nat, zeros: nat)
    requires n == 1_0000_0000 * k && zeros >= 8 && k % 0x1_0000_0000 == rest * Pow10(zeros - 8)
    ensures StrippedInWords(n, rest, zeros)
  {
    assert Pow10(4) == 1_0000;
    Pow10Add(4, 4);
    Pow10Add(zeros - 8, 8);
    MulAssoc(rest, Pow10(zeros - 8), 1_0000_0000);
  }

  lemma NotEightZeros(n: nat, rest: nat, zeros: nat)
    requires n % 1_0000_0000 != 0 && Stripped(n, rest, zeros)
    ensures StrippedInWords(n, rest, zeros)
  {
  }

  /** The loop of the 64-bit variant. */
  method RemovePairs64(n: nat) returns (rest: nat, zeros: nat)
    requires 0 < n < 0x1_0000_0000_0000_0000
    ensures Stripped(n, rest, zeros) && rest % 10 != 0 && 0 < rest <= n
  {
    hide Rotr, Pow10, Stripped;
    TwoTens();
    StripNone(n);
    rest, zeros := n, 0;
    while true
      invariant 0 < rest < 0x1_0000_0000_0000_0000 && rest <= n && zeros % 2 == 0 && Stripped(n, rest, zeros)
      decreases rest
    {
      var q := Rotr((rest * 0x8f5c28f5c28f5c29) % 0x1_0000_0000_0000_0000, 2, 64);
      Hundreds64(rest);
      if q > 0xffff_ffff_ffff_ffff / 100 {
        break;
      }
      StripMore(n, rest, zeros, 2, q);
      rest := q;
      zeros := zeros + 2;
    }
    var q := Rotr((rest * 0xcccccccccccccccd) % 0x1_0000_0000_0000_0000, 1, 64);
    Tens64(rest);
    if q <= 0xffff_ffff_ffff_ffff / 10 {
      StripMore(n, rest, zeros, 1, q);
      NotTen(rest, q);
      rest := q;
      zeros := zeros - zeros % 2 + 1;
    }
  }

  /** The 64-bit variant. The 32-bit one it hands a quotient to demands that it is not zero. */
  method RemoveTrailingZeros64(n: nat) returns (rest: nat, zeros: nat)
    requires 0 < n < 0x1_0000_0000_0000_0000
    requires n % 1_0000_0000 == 0 ==> (n / 1_0000_0000) % 0x1_0000_0000 != 0
    ensures StrippedInWords(n, rest, zeros)
    ensures rest % 10 != 0 && 0 < rest <= n
  {
    hide Pow10, StrippedInWords, Stripped;
    var nm := n * 12379400392853802749;
    var high, low := nm / 0x1_0000_0000_0000_0000, nm % 0x1_0000_0000_0000_0000;
    EighthTest(n, high, low);
    if high % 0x400_0000 == 0 && low < 12379400392853802749 {
      var n32 := high / 0x400_0000 % 0x1_0000_0000;
      rest, zeros := RemoveTrailingZeros32(n32, 8);
      EightZeros(n, rest, n / 1_0000_0000, zeros);
      return;
    }
    rest, zeros := RemovePairs64(n);
    NotEightZeros(n, rest, zeros);
  }

  /** (2^32 + 1) * 10^8: whatever the 64-bit variant says about it is that it is 1 with eight
      zeros. */
  lemma QuotientTruncated(rest: nat, zeros: nat)
    requires StrippedInWords(4294967297_0000_0000, rest, zeros)
    ensures rest == 1 && zeros == 8 && 4294967297_0000_0000 != rest * Pow10(zeros)
  {
    var p := Pow10(zeros - 8);
    assert rest * p == 1;
    OnlyFactors(rest, p);
  }

  lemma OnlyFactors(a: nat, b: nat)
    requires a * b == 1
    ensures a == 1 && b == 1
  {
    if a > 1 && b > 0 {
      MulLe(2, a, b);
    }
  }

  method StripTruncated() returns (rest: nat, zeros: nat)
    ensures rest == 1 && zeros == 8
  {
    rest, zeros := RemoveTrailingZeros64(4294967297_0000_0000);
    QuotientTruncated(rest, zeros);
  }
}
