/** Little-endian sequences of 32-bit "bigits" and the natural numbers they stand for. */
module Bigits {
  import opened Powers

  type bigit = x: int | 0 <= x < 0x1_0000_0000

  function Value(s: seq<bigit>): (v: nat)
  {
    if s == [] then 0 else s[0] + 0x1_0000_0000 * Value(s[1..])
  }

  lemma {:induction false} ValueConcat(s: seq<bigit>, t: seq<bigit>)
    ensures Value(s + t) == Value(s) + BasePow(|s|) * Value(t)
  {
    if s == [] {
      assert s + t == t;
    } else {
      ValueConcat(s[1..], t);
      assert (s + t)[1..] == s[1..] + t;
      MulAssoc(0x1_0000_0000, BasePow(|s| - 1), Value(t));
    }
  }

  lemma ValueSnoc(s: seq<bigit>, x: bigit)
    ensures Value(s + [x]) == Value(s) + BasePow(|s|) * x
  {
    ValueConcat(s, [x]);
    assert Value([x]) == x by {
      assert [x][1..] == [];
    }
  }

  /** A prefix one bigit longer adds that bigit at its place. */
  lemma ValuePrefix(s: seq<bigit>, i: nat)
    requires i < |s|
    ensures Value(s[..i + 1]) == Value(s[..i]) + BasePow(i) * s[i]
  {
    assert s[..i + 1] == s[..i] + [s[i]];
    ValueSnoc(s[..i], s[i]);
  }

  lemma {:induction false} ValueBound(s: seq<bigit>)
    ensures Value(s) < BasePow(|s|)
  {
    if s != [] {
      ValueBound(s[1..]);
    }
  }

  /** A sequence with a nonzero top bigit needs all of its places. */
  lemma ValueLowerBound(s: seq<bigit>)
    requires s != [] && s[|s| - 1] > 0
    ensures BasePow(|s| - 1) <= Value(s)
  {
    var n := |s| - 1;
    assert s == s[..n] + [s[n]];
    ValueSnoc(s[..n], s[n]);
    MulLe(1, s[n], BasePow(n));
  }

  lemma {:induction false} ValueZeros(s: seq<bigit>)
    requires forall i :: 0 <= i < |s| ==> s[i] == 0
    ensures Value(s) == 0
  {
    if s != [] {
      ValueZeros(s[1..]);
    }
  }

  /** Overwriting one bigit changes the value by the difference, at that bigit's place. */
  lemma ValueUpdate(s: seq<bigit>, i: nat, x: bigit)
    requires i < |s|
    ensures Value(s[i := x]) == Value(s) + BasePow(i) * (x - s[i])
  {
    var t := s[i := x];
    assert s == (s[..i] + [s[i]]) + s[i + 1..];
    assert t == (s[..i] + [x]) + s[i + 1..];
    ValueConcat(s[..i] + [s[i]], s[i + 1..]);
    ValueConcat(s[..i] + [x], s[i + 1..]);
    ValueSnoc(s[..i], s[i]);
    ValueSnoc(s[..i], x);
    var p := BasePow(i);
    assert p * x - p * s[i] == p * (x - s[i]);
  }

  /** Splitting a sequence is dividing its value by the power at the cut. */
  lemma ValueSplit(s: seq<bigit>, i: nat)
    requires i <= |s|
    ensures Value(s) / BasePow(i) == Value(s[i..])
    ensures Value(s) % BasePow(i) == Value(s[..i])
  {
    assert s == s[..i] + s[i..];
    ValueConcat(s[..i], s[i..]);
    ValueBound(s[..i]);
    var p, lo, hi := BasePow(i), Value(s[..i]), Value(s[i..]);
    DivUnique(p, hi, lo);
  }

  // ----- bigits with an exponent -----

  /** The value of bigits s scaled by (2^32)^e. */
  function Scale(s: seq<bigit>, e: nat): nat
  {
    Value(s) * BasePow(e)
  }

  /** The bigit at absolute place i, zero outside the stored range. */
  function BigitAt(s: seq<bigit>, e: nat, i: int): bigit
  {
    if e <= i < |s| + e then s[i - e] else 0
  }

  /** The number with everything below place i cut off. */
  function Floor(s: seq<bigit>, e: nat, i: nat): int
  {
    Scale(s, e) / BasePow(i)
  }

  lemma ScaleShift(s: seq<bigit>, e: nat, i: nat)
    requires i <= e
    ensures Scale(s, e) == BasePow(i) * Scale(s, e - i)
  {
    BaseAdd(i, e - i);
    MulPull(Value(s), BasePow(i), BasePow(e - i));
  }

  lemma FloorLow(s: seq<bigit>, e: nat, i: nat)
    requires i <= e
    ensures Floor(s, e, i) == Scale(s, e - i)
  {
    ScaleShift(s, e, i);
    DivExact(BasePow(i), Scale(s, e - i));
  }

  lemma FloorAbove(s: seq<bigit>, e: nat, k: nat)
    ensures Floor(s, e, e + k) == Value(s) / BasePow(k)
  {
    BaseAdd(e, k);
    DivDiv(Scale(s, e), BasePow(e), BasePow(k));
    DivExact(BasePow(e), Value(s));
  }

  lemma FloorHigh(s: seq<bigit>, e: nat, i: nat)
    requires e <= i
    ensures Floor(s, e, i) == if i - e <= |s| then Value(s[i - e..]) else 0
  {
    var k := i - e;
    FloorAbove(s, e, k);
    if k <= |s| {
      ValueSplit(s, k);
    } else {
      ValueBound(s);
      BaseMonotone(|s|, k);
      DivSmall(Value(s), BasePow(k));
    }
  }

  /** Uncovering one more place. */
  lemma FloorStep(s: seq<bigit>, e: nat, i: nat)
    ensures Floor(s, e, i) == 0x1_0000_0000 * Floor(s, e, i + 1) + BigitAt(s, e, i)
  {
    if e <= i {
      FloorHigh(s, e, i);
      FloorHigh(s, e, i + 1);
      if i - e < |s| {
        assert s[i - e..][1..] == s[i + 1 - e..];
      }
    } else {
      FloorLow(s, e, i);
      FloorLow(s, e, i + 1);
      ScaleShift(s, e - i, 1);
      assert BasePow(1) == 0x1_0000_0000;
    }
  }

  lemma ScaleBound(s: seq<bigit>, e: nat)
    ensures Scale(s, e) < BasePow(|s| + e)
    ensures s != [] && s[|s| - 1] > 0 ==> BasePow(|s| + e - 1) <= Scale(s, e)
  {
    ValueBound(s);
    BaseAdd(|s|, e);
    MulLt(Value(s), BasePow(|s|), BasePow(e));
    if s != [] && s[|s| - 1] > 0 {
      ValueLowerBound(s);
      BaseAdd(|s| - 1, e);
      MulLe(BasePow(|s| - 1), Value(s), BasePow(e));
    }
  }

  /** Two numbers that agree above some place are ordered by their bigits there. */
  lemma TopDiffers(s: seq<bigit>, e: nat, t: seq<bigit>, f: nat, i: nat)
    requires Floor(s, e, i + 1) == Floor(t, f, i + 1)
    requires BigitAt(s, e, i) > BigitAt(t, f, i)
    ensures Scale(s, e) > Scale(t, f)
  {
    FloorStep(s, e, i);
    FloorStep(t, f, i);
    FloorLess(Scale(s, e), Scale(t, f), BasePow(i));
  }

  lemma FloorLess(x: nat, y: nat, d: nat)
    requires d > 0 && x / d > y / d
    ensures x > y
  {
    if x <= y {
      DivLe(x, y, d);
    }
  }
}
