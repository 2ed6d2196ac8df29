/** Strings of decimal digits and the numbers they denote. */
module DigitStrings {
  import opened Powers

  function DigitChar(d: nat): (c: char)
    requires d <= 10
    ensures DigitOf(c) == d
  {
    (48 + d) as char
  }

  /** The weight of a character counted from '0'; the character after '9' counts ten. */
  function DigitOf(c: char): int
  {
    c as int - 48
  }

  ghost predicate AllDigits(s: seq<char>)
  {
    forall i :: 0 <= i < |s| ==> '0' <= s[i] <= '9'
  }

  function Number(s: seq<char>): int
  {
    if s == [] then 0 else 10 * Number(s[..|s| - 1]) + DigitOf(s[|s| - 1])
  }

  lemma NumberSnoc(s: seq<char>, c: char)
    ensures Number(s + [c]) == 10 * Number(s) + DigitOf(c)
  {
    assert (s + [c])[..|s|] == s;
  }

  /** Writing one more digit. */
  function Append(s: seq<char>, d: nat): (t: seq<char>)
    requires AllDigits(s) && d <= 9
    ensures |t| == |s| + 1 && AllDigits(t) && Number(t) == 10 * Number(s) + d
    ensures t[0] == if s == [] then DigitChar(d) else s[0]
    ensures t[0] == '0' <==> if s == [] then d == 0 else s[0] == '0'
    ensures DigitOf(t[|s|]) == d
  {
    NumberSnoc(s, DigitChar(d));
    s + [DigitChar(d)]
  }

  lemma {:induction false} NumberConcat(s: seq<char>, t: seq<char>)
    ensures Number(s + t) == Number(s) * Pow10(|t|) + Number(t)
  {
    if t == [] {
      assert s + t == s;
    } else {
      var u := t[..|t| - 1];
      NumberConcat(s, u);
      assert s + t == (s + u) + [t[|t| - 1]];
      NumberSnoc(s + u, t[|t| - 1]);
      MulPull(10, Number(s), Pow10(|u|));
    }
  }

  lemma {:induction false} NumberBound(s: seq<char>)
    requires AllDigits(s)
    ensures 0 <= Number(s) < Pow10(|s|)
  {
    if s != [] {
      NumberBound(s[..|s| - 1]);
    }
  }

  /** Without a leading zero all places are needed. */
  lemma {:induction false} NumberLowerBound(s: seq<char>)
    requires AllDigits(s) && s != [] && s[0] != '0'
    ensures Pow10(|s| - 1) <= Number(s)
  {
    if |s| > 1 {
      NumberLowerBound(s[..|s| - 1]);
    } else {
      assert s[..0] == [];
    }
  }

  lemma {:induction false} NumberZeros(s: seq<char>)
    requires forall i :: 0 <= i < |s| ==> s[i] == '0'
    ensures Number(s) == 0
  {
    if s != [] {
      NumberZeros(s[..|s| - 1]);
    }
  }

  lemma LeadingZero(s: seq<char>)
    requires AllDigits(s) && s != [] && s[0] == '0'
    ensures Number(s) < Pow10(|s| - 1)
  {
    hide Number, Pow10;
    assert s == ['0'] + s[1..];
    NumberConcat(['0'], s[1..]);
    NumberZeros(['0']);
    NumberBound(s[1..]);
  }

  /** The first digit is zero exactly if fewer places would do. */
  lemma LeadingDigit(s: seq<char>)
    requires AllDigits(s) && s != []
    ensures s[0] != '0' <==> Number(s) >= Pow10(|s| - 1)
  {
    hide Number, Pow10;
    if s[0] != '0' {
      NumberLowerBound(s);
    } else {
      LeadingZero(s);
    }
  }

  /** Writing one character changes the number by the difference, at that place. */
  lemma {:induction false} NumberUpdate(s: seq<char>, i: nat, c: char)
    requires i < |s|
    ensures Number(s[i := c]) == Number(s) + (DigitOf(c) - DigitOf(s[i])) * Pow10(|s| - 1 - i)
  {
    var n := |s| - 1;
    if i == n {
      assert s[i := c][..n] == s[..n];
    } else {
      NumberUpdate(s[..n], i, c);
      assert s[i := c][..n] == s[..n][i := c];
      MulPull(10, DigitOf(c) - DigitOf(s[i]), Pow10(n - 1 - i));
    }
  }
}
