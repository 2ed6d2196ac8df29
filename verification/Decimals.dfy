/** Counting, writing and reading the decimal digits of unsigned integers. */
module Decimals {
  import opened Powers
  import opened DigitStrings

  /** n has k decimal digits, and zero has one. */
  ghost predicate HasDigits(n: nat, k: nat)
  {
    k >= 1 && n < Pow10(k) && (k > 1 ==> Pow10(k - 1) <= n)
  }

  lemma HasDigitsUnique(n: nat, j: nat, k: nat)
    requires HasDigits(n, j) && HasDigits(n, k)
    ensures j == k
  {
    if j < k {
      Pow10Monotone(j, k - 1);
    } else if k < j {
      Pow10Monotone(k, j - 1);
    }
  }

  // ----- counting in groups of four digits -----

  lemma GroupOfFour(n: nat, count: nat, left: nat)
    requires count >= 1 && left == n / Pow10(count - 1)
    ensures left / 1_0000 == n / Pow10(count + 3)
  {
    assert Pow10(4) == 1_0000;
    Pow10Add(count - 1, 4);
    DivDiv(n, Pow10(count - 1), 1_0000);
  }

  /** The digits of what is left, after those taken off. */
  lemma DigitsAbove(n: nat, count: nat, left: nat, more: nat)
    requires count >= 1 && left == n / Pow10(count - 1) && HasDigits(left, more + 1) && (count > 1 ==> left > 0)
    ensures HasDigits(n, count + more)
  {
    var unit := Pow10(count - 1);
    DivMod(n, unit);
    Pow10Add(more + 1, count - 1);
    MulLe(left + 1, Pow10(more + 1), unit);
    MulDist(left, 1, unit);
    if more > 0 {
      Pow10Add(more, count - 1);
      MulLe(Pow10(more), left, unit);
    } else if count > 1 {
      MulLe(1, left, unit);
    }
  }

  method CountDigitsFallback(value: nat) returns (count: nat)
    ensures HasDigits(value, count)
  {
    var n := value;
    count := 1;
    assert Pow10(0) == 1;
    assert Pow10(1) == 10 && Pow10(2) == 100 && Pow10(3) == 1000 && Pow10(4) == 1_0000;
    while true
      invariant count >= 1 && n == value / Pow10(count - 1) && (count > 1 ==> n > 0)
      decreases n
    {
      if n < 10 {
        DigitsAbove(value, count, n, 0);
        return count;
      }
      if n < 100 {
        DigitsAbove(value, count, n, 1);
        return count + 1;
      }
      if n < 1000 {
        DigitsAbove(value, count, n, 2);
        return count + 2;
      }
      if n < 1_0000 {
        DigitsAbove(value, count, n, 3);
        return count + 3;
      }
      GroupOfFour(value, count, n);
      n := n / 1_0000;
      count := count + 4;
    }
  }

  // ----- counting with tables indexed by the highest bit -----

  /** The index of the highest bit set. */
  function HighestBit(n: nat): (b: nat)
    requires n > 0
    ensures Pow2(b) <= n < Pow2(b + 1)
  {
    if n == 1 then 0 else 1 + HighestBit(n / 2)
  }

  function OrOne(n: nat): (m: nat)
    ensures m == n || (n % 2 == 0 && m == n + 1)
  {
    if n % 2 == 0 then n + 1 else n
  }

  lemma {:induction false} HighestBitBelow(n: nat, k: nat)
    requires 0 < n < Pow2(k)
    ensures HighestBit(n) < k
  {
    if HighestBit(n) >= k {
      Pow2Monotone(k, HighestBit(n));
    }
  }

  /** The numbers with the highest bit b have t digits, or one less. */
  ghost predicate Straddles(b: nat, t: nat)
  {
    t >= 1 && Pow2(b + 1) <= Pow10(t) && (t > 2 ==> Pow10(t - 2) <= Pow2(b))
  }

  lemma StraddlesDecides(n: nat, t: nat)
    requires Straddles(HighestBit(OrOne(n)), t)
    ensures t > 1 && n < Pow10(t - 1) ==> HasDigits(n, t - 1)
    ensures t == 1 || n >= Pow10(t - 1) ==> HasDigits(n, t)
  {
    var b := HighestBit(OrOne(n));
    assert OrOne(n) < Pow2(b + 1);
    if n == 0 {
      assert Pow10(0) == 1;
      if t > 2 {
        Pow10Monotone(1, t - 2);
      }
    } else {
      OddBound(n, b);
    }
  }

  /** Setting the lowest bit does not change the highest. */
  lemma OddBound(n: nat, b: nat)
    requires n > 0 && Pow2(b) <= OrOne(n) < Pow2(b + 1)
    ensures Pow2(b) <= n < Pow2(b + 1)
  {
    if b > 0 {
      assert Pow2(b) == 2 * Pow2(b - 1);
    }
  }

  /** The number of digits of 2^(b + 1) - 1, in four rows of a table. */
  function Bsr2Log10(b: nat): nat
    requires b < 64
  {
    if b < 16 then [1, 1, 1, 2, 2, 2, 3, 3, 3, 4, 4, 4, 4, 5, 5, 5][b]
    else if b < 32 then [6, 6, 6, 7, 7, 7, 7, 8, 8, 8, 9, 9, 9, 10, 10, 10][b - 16]
    else if b < 48 then [10, 11, 11, 11, 12, 12, 12, 13, 13, 13, 13, 14, 14, 14, 15, 15][b - 32]
    else [15, 16, 16, 16, 16, 17, 17, 17, 18, 18, 18, 19, 19, 19, 19, 20][b - 48]
  }

  function ZeroOrPowerOf10(t: nat): nat
    requires t <= 20
  {
    if t < 11 then
      [0, 0, 10, 100, 1000, 1_0000, 10_0000, 100_0000, 1000_0000, 1_0000_0000, 10_0000_0000][t]
    else
      [100_0000_0000, 1000_0000_0000, 1_0000_0000_0000, 10_0000_0000_0000, 100_0000_0000_0000,
       1000_0000_0000_0000, 1_0000_0000_0000_0000, 10_0000_0000_0000_0000, 100_0000_0000_0000_0000,
       1000_0000_0000_0000_0000][t - 11]
  }

  /** Powers of two at the bits where the tabulated number of digits changes. */
  lemma TwosAtBoundaries()
    ensures Pow2(3) == 8 && Pow2(6) == 64 && Pow2(9) == 512 && Pow2(13) == 8192
    ensures Pow2(16) == 65536 && Pow2(19) == 524288 && Pow2(23) == 8388608 && Pow2(26) == 67108864
    ensures Pow2(29) == 536870912 && Pow2(33) == 8589934592 && Pow2(36) == 68719476736 && Pow2(39) == 549755813888
    ensures Pow2(43) == 8796093022208 && Pow2(46) == 70368744177664
    ensures Pow2(49) == 562949953421312 && Pow2(53) == 9007199254740992
    ensures Pow2(56) == 72057594037927936 && Pow2(59) == 576460752303423488
    ensures Pow2(63) == 9223372036854775808 && Pow2(64) == 18446744073709551616
  {
    assert Pow2(3) == 8 && Pow2(4) == 16 && Pow2(1) == 2;
    Pow2Add(3, 3);
    Pow2Add(6, 3);
    Pow2Add(9, 4);
    Pow2Add(13, 3);
    Pow2Add(16, 3);
    Pow2Add(19, 4);
    Pow2Add(23, 3);
    Pow2Add(26, 3);
    Pow2Add(29, 4);
    Pow2Add(33, 3);
    Pow2Add(36, 3);
    Pow2Add(39, 4);
    Pow2Add(43, 3);
    Pow2Add(46, 3);
    Pow2Add(49, 4);
    Pow2Add(53, 3);
    Pow2Add(56, 3);
    Pow2Add(59, 4);
    Pow2Add(63, 1);
  }

  lemma TenPowers()
    ensures Pow10(0) == 1 && Pow10(1) == 10 && Pow10(2) == 100 && Pow10(3) == 1000
    ensures Pow10(4) == 10000 && Pow10(5) == 100000 && Pow10(6) == 1000000 && Pow10(7) == 10000000
    ensures Pow10(8) == 100000000 && Pow10(9) == 1000000000 && Pow10(10) == 10000000000 && Pow10(11) == 100000000000
    ensures Pow10(12) == 1000000000000 && Pow10(13) == 10000000000000
    ensures Pow10(14) == 100000000000000 && Pow10(15) == 1000000000000000
    ensures Pow10(16) == 10000000000000000 && Pow10(17) == 100000000000000000
    ensures Pow10(18) == 1000000000000000000 && Pow10(19) == 10000000000000000000
    ensures Pow10(20) == 100000000000000000000
  {
    assert Pow10(4) == 10000;
    Pow10Add(4, 4);
    Pow10Add(8, 4);
    Pow10Add(12, 4);
    Pow10Add(16, 4);
    Pow10Step(4);
    Pow10Step(8);
    Pow10Step(12);
    Pow10Step(16);
  }

  lemma Pow10Step(k: nat)
    ensures Pow10(k + 1) == 10 * Pow10(k) && Pow10(k + 2) == 100 * Pow10(k) && Pow10(k + 3) == 1000 * Pow10(k)
  {
  }

  lemma StraddlesRange(b: nat, low: nat, high: nat, t: nat)
    requires t >= 1 && low <= b < high && Pow2(high) <= Pow10(t) && (t > 2 ==> Pow10(t - 2) <= Pow2(low))
    ensures Straddles(b, t)
  {
    Pow2Monotone(low, b);
    Pow2Monotone(b + 1, high);
  }

  lemma BsrTableLow(b: nat)
    requires 0 <= b < 32
    ensures 1 <= Bsr2Log10(b) <= 20 && Straddles(b, Bsr2Log10(b))
  {
    hide Straddles, Pow2, Pow10;
    TwosAtBoundaries();
    TenPowers();
    Pow2Zero();
    if b < 3 {
      StraddlesRange(b, 0, 3, 1);
    } else if b < 6 {
      StraddlesRange(b, 3, 6, 2);
    } else if b < 9 {
      StraddlesRange(b, 6, 9, 3);
    } else if b < 13 {
      StraddlesRange(b, 9, 13, 4);
    } else if b < 16 {
      StraddlesRange(b, 13, 16, 5);
    } else if b < 19 {
      StraddlesRange(b, 16, 19, 6);
    } else if b < 23 {
      StraddlesRange(b, 19, 23, 7);
    } else if b < 26 {
      StraddlesRange(b, 23, 26, 8);
    } else if b < 29 {
      StraddlesRange(b, 26, 29, 9);
    } else {
      StraddlesRange(b, 29, 33, 10);
    }
  }

  lemma BsrTableHigh(b: nat)
    requires 32 <= b < 64
    ensures 1 <= Bsr2Log10(b) <= 20 && Straddles(b, Bsr2Log10(b))
  {
    hide Straddles, Pow2, Pow10;
    TwosAtBoundaries();
    TenPowers();
    if b < 33 {
      StraddlesRange(b, 29, 33, 10);
    } else if b < 36 {
      StraddlesRange(b, 33, 36, 11);
    } else if b < 39 {
      StraddlesRange(b, 36, 39, 12);
    } else if b < 43 {
      StraddlesRange(b, 39, 43, 13);
    } else if b < 46 {
      StraddlesRange(b, 43, 46, 14);
    } else if b < 49 {
      StraddlesRange(b, 46, 49, 15);
    } else if b < 53 {
      StraddlesRange(b, 49, 53, 16);
    } else if b < 56 {
      StraddlesRange(b, 53, 56, 17);
    } else if b < 59 {
      StraddlesRange(b, 56, 59, 18);
    } else if b < 63 {
      StraddlesRange(b, 59, 63, 19);
    } else {
      StraddlesRange(b, 63, 64, 20);
    }
  }

  lemma BsrTable(b: nat)
    requires b < 64
    ensures 1 <= Bsr2Log10(b) <= 20 && Straddles(b, Bsr2Log10(b))
  {
    if b < 32 {
      BsrTableLow(b);
    } else {
      BsrTableHigh(b);
    }
  }

  lemma Pow2Zero()
    ensures Pow2(0) == 1
  {
  }

  lemma PowersTable(t: nat)
    requires t <= 20
    ensures ZeroOrPowerOf10(t) == if t < 2 then 0 else Pow10(t - 1)
  {
    TenPowers();
  }

  /** The 64-bit count. */
  method DoCountDigits64(n: nat) returns (count: nat)
    requires n < 0x1_0000_0000_0000_0000
    ensures HasDigits(n, count)
  {
    HighestBitBelow64(n);
    BsrTable(HighestBit(OrOne(n)));
    var t := Bsr2Log10(HighestBit(OrOne(n)));
    PowersTable(t);
    StraddlesDecides(n, t);
    count := t - if n < ZeroOrPowerOf10(t) then 1 else 0;
  }

  lemma HighestBitBelow64(n: nat)
    requires n < 0x1_0000_0000_0000_0000
    ensures HighestBit(OrOne(n)) < 64
  {
    TwosAtBoundaries();
    HighestBitBelow(OrOne(n), 64);
  }

  /** In the upper half, the digits of a power of ten; adding a number at least as large
      carries into it, and a smaller one does not. */
  function Increment(digits: nat, power: nat): int
  {
    digits * 0x1_0000_0000 - power
  }

  function IncrementTable(b: nat): int
    requires b < 32
  {
    if b < 12 then
      [Increment(1, 0), Increment(1, 0), Increment(1, 0), Increment(2, 10), Increment(2, 10), Increment(2, 10),
       Increment(3, 100), Increment(3, 100), Increment(3, 100), Increment(4, 1000), Increment(4, 1000),
       Increment(4, 1000)][b]
    else if b < 24 then
      [Increment(5, 1_0000), Increment(5, 1_0000), Increment(5, 1_0000),
       Increment(6, 10_0000), Increment(6, 10_0000), Increment(6, 10_0000),
       Increment(7, 100_0000), Increment(7, 100_0000), Increment(7, 100_0000),
       Increment(8, 1000_0000), Increment(8, 1000_0000), Increment(8, 1000_0000)][b - 12]
    else
      [Increment(9, 1_0000_0000), Increment(9, 1_0000_0000), Increment(9, 1_0000_0000),
       Increment(10, 10_0000_0000), Increment(10, 10_0000_0000), Increment(10, 10_0000_0000),
       Increment(10, 10_0000_0000), Increment(10, 10_0000_0000)][b - 24]
  }

  /** The number of digits the table gives, before a carry fails to happen. */
  function TableDigits(b: nat): nat
  {
    if b < 30 then b / 3 + 1 else 10
  }

  lemma IncrementEntry(b: nat)
    requires b < 32
    ensures 1 <= TableDigits(b) <= 10
    ensures IncrementTable(b) == Increment(TableDigits(b), if TableDigits(b) == 1 then 0 else Pow10(TableDigits(b) - 1))
  {
    hide Pow10;
    TenPowers();
  }

  lemma IncrementStraddles(b: nat, t: nat)
    requires b < 32 && t == TableDigits(b)
    ensures Straddles(b, t)
  {
    hide Straddles;
    EightsAndTens(t);
    if b < 30 {
      StraddlesRange(b, 3 * t - 3, 3 * t, t);
    } else {
      TwosAtBoundaries();
      TenPowers();
      assert Pow2(32) <= Pow2(33) by {
        Pow2Monotone(32, 33);
      }
      StraddlesRange(b, 29, 33, 10);
    }
  }

  lemma {:induction false} EightsAndTens(t: nat)
    requires 1 <= t <= 10
    ensures Pow2(3 * t) <= Pow10(t)
    ensures t > 2 ==> Pow10(t - 2) <= Pow2(3 * t - 3)
  {
    TwosAtBoundaries();
    TenPowers();
    if t > 1 {
      EightsAndTens(t - 1);
    }
  }

  /** Whether the addition carries into the upper half. */
  lemma CarryCounts(n: nat, t: nat, power: nat)
    requires n < 0x1_0000_0000 && power < 0x1_0000_0000 && 1 <= t <= 10
    ensures (n + Increment(t, power)) % 0x1_0000_0000_0000_0000 / 0x1_0000_0000 == if n < power then t - 1 else t
  {
  }

  lemma IncrementCounts(n: nat)
    requires n < 0x1_0000_0000 && HighestBit(OrOne(n)) < 32
    ensures HasDigits(n, (n + IncrementTable(HighestBit(OrOne(n)))) % 0x1_0000_0000_0000_0000 / 0x1_0000_0000)
  {
    hide HasDigits, Straddles, Pow10, IncrementTable, Increment, TableDigits;
    var b := HighestBit(OrOne(n));
    IncrementEntry(b);
    var t := TableDigits(b);
    IncrementStraddles(b, t);
    StraddlesDecides(n, t);
    PowerBelow32(t);
    CarryCounts(n, t, if t == 1 then 0 else Pow10(t - 1));
  }

  lemma PowerBelow32(t: nat)
    requires 1 <= t <= 10
    ensures Pow10(t - 1) < 0x1_0000_0000
  {
    TenPowers();
    Pow10Monotone(t - 1, 9);
  }

  /** The 32-bit count. */
  method DoCountDigits32(n: nat) returns (count: nat)
    requires n < 0x1_0000_0000
    ensures HasDigits(n, count)
  {
    HighestBitBelow32(n);
    IncrementCounts(n);
    var inc := IncrementTable(HighestBit(OrOne(n)));
    count := (n + inc) % 0x1_0000_0000_0000_0000 / 0x1_0000_0000;
  }

  lemma HighestBitBelow32(n: nat)
    requires n < 0x1_0000_0000
    ensures HighestBit(OrOne(n)) < 32
  {
    Pow2Of32();
    HighestBitBelow(OrOne(n), 32);
  }

  // ----- writing -----

  /** The digits s are written, and v is still to be written in front of them. */
  ghost predicate Written(value: nat, v: nat, s: seq<char>)
  {
    AllDigits(s) && value == v * Pow10(|s|) + Number(s)
  }

  /** The digits are written from the end of the given size backwards, two at a time; the
      elements before them and behind the size are not touched. */
  method DoFormatDecimal(out: array<char>, value: nat, size: nat, ghost count: nat) returns (n: nat)
    requires HasDigits(value, count) && count <= size <= out.Length
    modifies out
    ensures n == size - count
    ensures AllDigits(out[n..size]) && Number(out[n..size]) == value
    ensures forall i :: 0 <= i < out.Length && !(n <= i < size) ==> out[i] == old(out[i])
  {
    hide HasDigits, Written, AllDigits, Number;
    n := size;
    var v: nat := value;
    ghost var left: nat := count;
    NothingWritten(value, out[n..size], count);
    while v >= 100
      invariant 1 <= left <= n <= size && n - left == size - count && HasDigits(v, left)
      invariant Written(value, v, out[n..size])
      invariant forall i :: 0 <= i < out.Length && !(n <= i < size) ==> out[i] == old(out[i])
    {
      TwoFewer(v, left);
      ghost var before := out[n..size];
      n := n - 2;
      out[n], out[n + 1] := DigitChar(v % 100 / 10), DigitChar(v % 100 % 10);
      assert out[n..size] == [DigitChar(v % 100 / 10), DigitChar(v % 100 % 10)] + before;
      PairBefore(v, before, value);
      v := v / 100;
      left := left - 2;
    }
    ghost var before := out[n..size];
    if v >= 10 {
      LastPair(v, left, before, value);
      n := n - 2;
      out[n], out[n + 1] := DigitChar(v / 10), DigitChar(v % 10);
      assert out[n..size] == [DigitChar(v / 10), DigitChar(v % 10)] + before;
    } else {
      LastDigit(v, left, before, value);
      n := n - 1;
      out[n] := DigitChar(v);
      assert out[n..size] == [DigitChar(v)] + before;
    }
  }

  lemma NothingWritten(value: nat, s: seq<char>, count: nat)
    requires s == [] && HasDigits(value, count)
    ensures Written(value, value, s) && count >= 1
  {
    assert Pow10(0) == 1;
  }

  lemma TwoFewer(v: nat, left: nat)
    requires v >= 100 && HasDigits(v, left)
    ensures left > 2 && HasDigits(v / 100, left - 2)
  {
    assert Pow10(1) == 10 && Pow10(2) == 100;
    if left <= 2 {
      Pow10Monotone(left, 2);
    } else {
      Pow10Step(left - 2);
      if left > 3 {
        Pow10Step(left - 3);
      }
    }
  }

  lemma TwoDigitNumber(a: nat, b: nat)
    requires a <= 9 && b <= 9
    ensures Number([DigitChar(a), DigitChar(b)]) == 10 * a + b && AllDigits([DigitChar(a), DigitChar(b)])
  {
    NumberSnoc([], DigitChar(a));
    NumberSnoc([DigitChar(a)], DigitChar(b));
    assert [] + [DigitChar(a)] == [DigitChar(a)];
    assert [DigitChar(a)] + [DigitChar(b)] == [DigitChar(a), DigitChar(b)];
  }

  /** Two digits in front of those written. */
  lemma PairBefore(v: nat, s: seq<char>, value: nat)
    requires Written(value, v, s)
    ensures Written(value, v / 100, [DigitChar(v % 100 / 10), DigitChar(v % 100 % 10)] + s)
  {
    var pair := [DigitChar(v % 100 / 10), DigitChar(v % 100 % 10)];
    TwoDigitNumber(v % 100 / 10, v % 100 % 10);
    NumberConcat(pair, s);
    MulDist(100 * (v / 100), v % 100, Pow10(|s|));
    MulPull(v / 100, 100, Pow10(|s|));
    MulAssoc(100, v / 100, Pow10(|s|));
    Pow10Step(|s|);
  }

  lemma LastPair(v: nat, left: nat, s: seq<char>, value: nat)
    requires 10 <= v < 100 && HasDigits(v, left) && Written(value, v, s)
    ensures var t := [DigitChar(v / 10), DigitChar(v % 10)] + s;
            left == 2 && AllDigits(t) && value == Number(t)
  {
    TwoDigitNumber(v / 10, v % 10);
    NumberConcat([DigitChar(v / 10), DigitChar(v % 10)], s);
    assert Pow10(1) == 10 && Pow10(2) == 100;
    HasDigitsUnique(v, 2, left);
  }

  lemma LastDigit(v: nat, left: nat, s: seq<char>, value: nat)
    requires v < 10 && HasDigits(v, left) && Written(value, v, s)
    ensures var t := [DigitChar(v)] + s;
            left == 1 && AllDigits(t) && value == Number(t)
  {
    NumberSnoc([], DigitChar(v));
    assert [] + [DigitChar(v)] == [DigitChar(v)];
    NumberConcat([DigitChar(v)], s);
    assert Pow10(1) == 10;
    HasDigitsUnique(v, 1, left);
  }

  // ----- reading -----

  predicate IsDigit(c: char) { '0' <= c <= '9' }

  /** The length of the digits a string starts with. */
  function DigitPrefix(s: seq<char>): (k: nat)
    ensures k <= |s| && AllDigits(s[..k]) && (k < |s| ==> !IsDigit(s[k]))
  {
    if s == [] || !IsDigit(s[0]) then 0 else
      var k := DigitPrefix(s[1..]);
      assert s[..1 + k] == [s[0]] + s[1..][..k];
      1 + k
  }

  /** The value is right if there are at most nine digits, or ten that fit an int; everything
      else is an error, even if only leading zeros make it that long. */
  function Parsed(digits: seq<char>, errorValue: int): int
  {
    if |digits| <= 9 || (|digits| == 10 && Number(digits) <= 0x7fff_ffff) then Number(digits) else errorValue
  }

  lemma LowWord(digits: seq<char>, value: nat)
    requires AllDigits(digits) && value == Number(digits) % 0x1_0000_0000
    ensures |digits| <= 9 || Number(digits) <= 0x7fff_ffff ==> value == Number(digits)
  {
    NumberBound(digits);
    if |digits| <= 9 {
      TenPowers();
      Pow10Monotone(|digits|, 9);
    }
  }

  lemma NextWord(m: int, d: int)
    ensures (m % 0x1_0000_0000 * 10 + d) % 0x1_0000_0000 == (10 * m + d) % 0x1_0000_0000
  {
  }

  /** Reads the digits a string starts with, on 32-bit unsigned integers. */
  method ParseNonnegativeInt(s: seq<char>, errorValue: int) returns (r: int, end: nat)
    requires s != [] && IsDigit(s[0])
    ensures end == DigitPrefix(s) > 0 && r == Parsed(s[..end], errorValue)
  {
    hide Number, AllDigits, DigitPrefix;
    var value, prev := 0, 0;
    end := 0;
    NoDigitsYet(s);
    while true
      invariant end < |s| && IsDigit(s[end]) && end < DigitPrefix(s) && AllDigits(s[..end])
      invariant value == Number(s[..end]) % 0x1_0000_0000
      decreases |s| - end
    {
      assert s[..end + 1] == s[..end] + [s[end]];
      NumberSnoc(s[..end], s[end]);
      NextWord(Number(s[..end]), DigitOf(s[end]));
      OneMoreDigit(s, end);
      prev := value;
      value := (value * 10 + (s[end] as int - 48)) % 0x1_0000_0000;
      end := end + 1;
      PrefixEnds(s, end);
      if end == |s| || !IsDigit(s[end]) {
        break;
      }
    }
    ghost var digits, before := s[..end], s[..end - 1];
    OneMoreDigit(s, end - 1);
    LowWord(digits, value);
    LowWord(before, prev);
    if end <= 9 {
      return value, end;
    }
    if end == 10 && prev * 10 + (s[end - 1] as int - 48) <= 0x7fff_ffff {
      return value, end;
    }
    return errorValue, end;
  }

  lemma NoDigitsYet(s: seq<char>)
    requires s != [] && IsDigit(s[0])
    ensures AllDigits(s[..0]) && Number(s[..0]) == 0 && DigitPrefix(s) > 0
  {
  }

  lemma OneMoreDigit(s: seq<char>, end: nat)
    requires end < |s| && IsDigit(s[end])
    ensures AllDigits(s[..end]) <==> AllDigits(s[..end + 1])
    ensures Number(s[..end + 1]) == 10 * Number(s[..end]) + DigitOf(s[end])
  {
    assert s[..end + 1][..end] == s[..end];
    if AllDigits(s[..end + 1]) {
      forall i | 0 <= i < end
        ensures '0' <= s[..end][i] <= '9'
      {
        assert s[..end + 1][i] == s[i];
      }
    }
  }

  lemma {:induction false} PrefixEnds(s: seq<char>, end: nat)
    requires end <= |s| && AllDigits(s[..end])
    ensures end <= DigitPrefix(s) && (end == DigitPrefix(s) <==> end == |s| || !IsDigit(s[end]))
  {
    if end > 0 {
      assert s[..end][0] == s[0] && s[1..][..end - 1] == s[..end][1..];
      PrefixEnds(s[1..], end - 1);
    }
  }

  /** Without a leading zero the value decides alone whether it is read or an error. */
  lemma NoLeadingZeroParsed(digits: seq<char>, errorValue: int)
    requires AllDigits(digits) && digits != [] && (|digits| > 1 ==> digits[0] != '0')
    ensures Parsed(digits, errorValue) == if Number(digits) <= 0x7fff_ffff then Number(digits) else errorValue
  {
    NumberBound(digits);
    TenPowers();
    if |digits| > 10 {
      NumberLowerBound(digits);
      Pow10Monotone(10, |digits| - 1);
    } else if |digits| < 10 {
      Pow10Monotone(|digits|, 9);
    }
  }

  /** The number, or the error if it does not fit an int: what is returned for up to ten digits
      and for numbers that do not fit, and for others only if the error happens to be the number. */
  lemma ParsedRight(digits: seq<char>, errorValue: int)
    requires AllDigits(digits)
    ensures Parsed(digits, errorValue) == (if Number(digits) <= 0x7fff_ffff then Number(digits) else errorValue)
       <==> |digits| <= 10 || Number(digits) > 0x7fff_ffff || Number(digits) == errorValue
    ensures Parsed(digits, errorValue) == Number(digits) || Parsed(digits, errorValue) == errorValue
  {
    NumberBound(digits);
    TenPowers();
    if |digits| <= 9 {
      Pow10Monotone(|digits|, 9);
    }
  }

  /** One, written with ten zeros in front of it, is an error. */
  lemma ZerosOverflow(errorValue: int)
    ensures AllDigits("00000000001") && Number("00000000001") == 1 && DigitPrefix("00000000001") == 11
    ensures Parsed("00000000001", errorValue) == errorValue
  {
    var s := "00000000001";
    assert s == s[..10] + ['1'];
    NumberZeros(s[..10]);
    NumberSnoc(s[..10], '1');
    assert s[..11] == s;
    PrefixEnds(s, 11);
  }

  method ParseZeros() returns (r: int, end: nat)
    ensures r == -1 && end == 11
  {
    ZerosOverflow(-1);
    r, end := ParseNonnegativeInt("00000000001", -1);
    assert "00000000001"[..11] == "00000000001";
  }

  /** What DoFormatDecimal writes is read back. */
  lemma WrittenIsRead(n: nat, count: nat, digits: seq<char>, errorValue: int)
    requires n <= 0x7fff_ffff && HasDigits(n, count)
    requires |digits| == count && AllDigits(digits) && Number(digits) == n
    ensures Parsed(digits, errorValue) == n
    ensures forall rest :: (rest != [] ==> !IsDigit(rest[0])) ==> DigitPrefix(digits + rest) == count
  {
    TenPowers();
    if count > 10 {
      Pow10Monotone(10, count - 1);
    }
    forall rest | rest != [] ==> !IsDigit(rest[0])
      ensures DigitPrefix(digits + rest) == count
    {
      assert (digits + rest)[..count] == digits;
      PrefixEnds(digits + rest, count);
    }
  }
}
