/** Inserting thousands separators into a string of digits by the rules of a locale. */
module Grouping {

  /** A char of the grouping string: the size of a group, counted from the right. */
  type GroupSize = x: int | -128 <= x <= 127

  const MAX_INT := 0x7fff_ffff

  datatype DigitGrouping = DigitGrouping(grouping: seq<GroupSize>, thousandsSep: string)

  /** The next group, and the number of digits to the right of the last separator. */
  datatype NextState = NextState(group: nat, pos: int)

  /** A group without limit ends the grouping. */
  predicate Unlimited(size: GroupSize) { size <= 0 || size == 127 }

  /** A separator needs at least one group size. */
  predicate Usable(d: DigitGrouping) { d.thousandsSep != "" ==> d.grouping != [] }

  // ----- where separators belong -----

  /** The size of the i-th group: the last size given is repeated. */
  function SizeOf(g: seq<GroupSize>, i: nat): GroupSize
    requires g != []
  {
    if i < |g| then g[i] else g[|g| - 1]
  }

  /** The first j groups are all limited, so that j separators are possible. */
  ghost predicate Reaches(g: seq<GroupSize>, j: nat)
  {
    forall i :: 0 <= i < j && i < |g| ==> 0 < g[i] < 127
  }

  /** The number of digits to the right of the j-th separator. */
  function Position(g: seq<GroupSize>, j: nat): int
    requires g != []
  {
    if j == 0 then 0 else Position(g, j - 1) + SizeOf(g, j - 1)
  }

  ghost predicate IsSeparator(d: DigitGrouping, j: nat, right: int)
    requires Usable(d) && d.thousandsSep != ""
  {
    j >= 1 && Reaches(d.grouping, j) && Position(d.grouping, j) == right
  }

  /** A separator belongs where this many digits are to its right. */
  ghost predicate Separated(d: DigitGrouping, right: int)
    requires Usable(d)
  {
    d.thousandsSep != "" && exists j: nat :: IsSeparator(d, j, right)
  }

  /** The first count digits of the string, with a separator in front of every digit, other
      than the first, where one belongs. */
  ghost function Grouped(d: DigitGrouping, digits: string, count: nat): string
    requires Usable(d) && count <= |digits|
  {
    if count == 0 then "" else
      var i := count - 1;
      Grouped(d, digits, i) + (if i > 0 && Separated(d, |digits| - i) then d.thousandsSep else "") + [digits[i]]
  }

  lemma {:induction false} PositionGrows(g: seq<GroupSize>, j: nat, k: nat)
    requires g != [] && j < k && Reaches(g, k)
    ensures Position(g, j) < Position(g, k)
    decreases k
  {
    if j < k - 1 {
      PositionGrows(g, j, k - 1);
    }
    if k - 1 >= |g| {
      assert !Unlimited(g[|g| - 1]);
    }
  }

  lemma PositionOrder(g: seq<GroupSize>, j: nat, k: nat)
    requires g != [] && Reaches(g, j) && Reaches(g, k)
    ensures j < k <==> Position(g, j) < Position(g, k)
    ensures j == k <==> Position(g, j) == Position(g, k)
  {
    if j < k {
      PositionGrows(g, j, k);
    } else if k < j {
      PositionGrows(g, k, j);
    }
  }

  function Sum(g: seq<GroupSize>): int
  {
    if g == [] then 0 else Sum(g[..|g| - 1]) + g[|g| - 1]
  }

  /** The j-th separator is behind the first j groups; once they are used up, the last one is
      repeated. */
  lemma {:induction false} PositionMeans(g: seq<GroupSize>, j: nat)
    requires g != []
    ensures Position(g, j) == if j <= |g| then Sum(g[..j]) else Sum(g) + (j - |g|) * g[|g| - 1]
  {
    if j > 0 {
      PositionMeans(g, j - 1);
      assert j <= |g| ==> g[..j][..j - 1] == g[..j - 1];
      assert g[..|g|] == g;
      NextMultiple(j - |g|, g[|g| - 1]);
    }
  }

  lemma NextMultiple(k: int, x: int)
    ensures (k - 1) * x + x == k * x
  {
  }

  /** A separator belongs exactly behind some number of groups, all of which have a size from 1 to
      126, if there is one to write. */
  lemma SeparatedMeans(d: DigitGrouping, right: int)
    requires d.thousandsSep != "" ==> d.grouping != []
    ensures Separated(d, right) <==>
              && d.thousandsSep != ""
              && exists j: nat :: 0 < j && (forall i :: 0 <= i < j && i < |d.grouping| ==> 0 < d.grouping[i] < 127)
                   && right == Position(d.grouping, j)
  {
    if Separated(d, right) {
      var j: nat :| IsSeparator(d, j, right);
      assert right == Position(d.grouping, j);
    } else if d.thousandsSep != "" {
      assert forall j: nat :: right == Position(d.grouping, j) ==> !IsSeparator(d, j, right);
    }
  }

  // ----- finding the positions -----

  ghost predicate At(d: DigitGrouping, s: NextState, j: nat)
    requires Usable(d)
  {
    d.thousandsSep != "" ==>
      && Reaches(d.grouping, j) && s.pos == Position(d.grouping, j)
      && s.group == if j < |d.grouping| then j else |d.grouping|
  }

  /** There is a j-th separator. */
  ghost predicate HasSeparator(d: DigitGrouping, j: nat)
    requires Usable(d)
  {
    d.thousandsSep != "" && Reaches(d.grouping, j)
  }

  /** The next separator position, or the largest int if there is none. */
  method Next(d: DigitGrouping, s: NextState, ghost j: nat) returns (pos: int, t: NextState)
    requires Usable(d) && At(d, s, j)
    ensures if HasSeparator(d, j + 1) then At(d, t, j + 1) && pos == Position(d.grouping, j + 1)
            else pos == MAX_INT && t == s
  {
    t := s;
    if d.thousandsSep == "" {
      return MAX_INT, t;
    }
    if s.group == |d.grouping| {
      t := t.(pos := s.pos + d.grouping[|d.grouping| - 1]);
      return t.pos, t;
    }
    if Unlimited(d.grouping[s.group]) {
      return MAX_INT, t;
    }
    t := NextState(s.group + 1, s.pos + d.grouping[s.group]);
    return t.pos, t;
  }

  /** Exactly the first count separators have fewer than n digits to their right. */
  ghost predicate SeparatorsBelow(d: DigitGrouping, n: int, count: nat)
    requires Usable(d)
  {
    && (count > 0 ==> HasSeparator(d, count) && Position(d.grouping, count) < n)
    && (HasSeparator(d, count + 1) ==> n <= Position(d.grouping, count + 1))
  }

  method CountSeparators(d: DigitGrouping, numDigits: int) returns (count: nat)
    requires Usable(d) && numDigits <= MAX_INT
    ensures SeparatorsBelow(d, numDigits, count)
  {
    count := 0;
    var state := NextState(0, 0);
    var pos;
    pos, state := Next(d, state, 0);
    while numDigits > pos
      invariant if HasSeparator(d, count + 1) then At(d, state, count + 1) && pos == Position(d.grouping, count + 1)
                else pos == MAX_INT
      invariant count > 0 ==> HasSeparator(d, count) && Position(d.grouping, count) < numDigits
      decreases numDigits - pos
    {
      assert HasSeparator(d, count + 2) ==> Position(d.grouping, count + 2) > pos by {
        if HasSeparator(d, count + 2) {
          PositionGrows(d.grouping, count + 1, count + 2);
        }
      }
      count := count + 1;
      pos, state := Next(d, state, count);
    }
  }

  // ----- applying them -----

  /** Only the next separator to be placed can belong in front of the next digit. */
  lemma SeparatedNext(d: DigitGrouping, n: int, count: nat, k: nat, right: int)
    requires Usable(d) && SeparatorsBelow(d, n, count) && k <= count && 0 < right < n
    requires k > 0 ==> right >= Position(d.grouping, k)
    requires k < count ==> right < Position(d.grouping, k + 1)
    ensures Separated(d, right) <==> k > 0 && right == Position(d.grouping, k)
  {
    if k > 0 && right == Position(d.grouping, k) {
      assert IsSeparator(d, k, right);
    }
    if Separated(d, right) {
      var j: nat :| IsSeparator(d, j, right);
      if j > count {
        if j > count + 1 {
          PositionGrows(d.grouping, count + 1, j);
        }
      } else {
        PositionOrder(d.grouping, j, k);
        if k < count {
          PositionOrder(d.grouping, j, k + 1);
        }
      }
    }
  }

  /** The positions of all separators, from the right, behind a sentinel. */
  ghost predicate Collected(d: DigitGrouping, n: int, separators: seq<int>)
    requires Usable(d)
  {
    && separators != [] && separators[0] == 0 && SeparatorsBelow(d, n, |separators| - 1)
    && forall k :: 0 < k < |separators| ==> HasSeparator(d, k) && separators[k] == Position(d.grouping, k)
  }

  lemma NextIsLarger(d: DigitGrouping, j: nat)
    requires Usable(d)
    ensures HasSeparator(d, j + 1) ==>
              Position(d.grouping, j) < Position(d.grouping, j + 1) && 0 < Position(d.grouping, j + 1)
  {
    if HasSeparator(d, j + 1) {
      PositionGrows(d.grouping, j, j + 1);
      PositionGrows(d.grouping, 0, j + 1);
    }
  }

  method CollectSeparators(d: DigitGrouping, numDigits: int) returns (separators: seq<int>)
    requires Usable(d) && 0 <= numDigits <= MAX_INT
    ensures Collected(d, numDigits, separators)
  {
    separators := [0];
    var state := NextState(0, 0);
    var i;
    assert At(d, state, 0);
    hide At, HasSeparator, Position;
    i, state := Next(d, state, 0);
    NextIsLarger(d, 0);
    while i != 0
      invariant separators != [] && separators[0] == 0 && i != 0
      invariant if HasSeparator(d, |separators|) then At(d, state, |separators|) && i == Position(d.grouping, |separators|)
                else i == MAX_INT
      invariant forall k :: 0 < k < |separators| ==> HasSeparator(d, k) && separators[k] == Position(d.grouping, k)
      invariant |separators| > 1 ==> 0 < separators[|separators| - 1] < numDigits
      decreases numDigits - i
    {
      if i >= numDigits {
        break;
      }
      NextIsLarger(d, |separators|);
      separators := separators + [i];
      i, state := Next(d, state, |separators| - 1);
    }
  }

  lemma CollectedGrow(d: DigitGrouping, n: int, separators: seq<int>, k: nat)
    requires Usable(d) && Collected(d, n, separators) && 0 < k < |separators|
    ensures separators[k - 1] < separators[k]
  {
    PositionGrows(d.grouping, k - 1, k);
  }

  /** What remains to be placed: the first sepIndex separators, the others are further left. */
  ghost predicate Remaining(separators: seq<int>, sepIndex: int, right: int)
  {
    && 0 <= sepIndex < |separators| && (sepIndex > 0 ==> separators[sepIndex] <= right)
    && (sepIndex + 1 < |separators| ==> right < separators[sepIndex + 1])
  }

  lemma PlaceSeparator(d: DigitGrouping, digits: string, separators: seq<int>, index: nat, sepIndex: int)
    requires Usable(d) && Collected(d, |digits|, separators) && index < |digits|
    requires Remaining(separators, sepIndex, |digits| - index)
    ensures var here := |digits| - index == separators[sepIndex];
            && Grouped(d, digits, index + 1) ==
                 Grouped(d, digits, index) + (if here then d.thousandsSep else "") + [digits[index]]
            && Remaining(separators, if here then sepIndex - 1 else sepIndex, |digits| - index - 1)
  {
    var right := |digits| - index;
    if sepIndex > 0 {
      CollectedGrow(d, |digits|, separators, sepIndex);
    }
    if index > 0 {
      SeparatedNext(d, |digits|, |separators| - 1, sepIndex, right);
    } else if sepIndex > 0 {
      SeparatorBelow(d, |digits|, |separators| - 1, sepIndex);
    }
  }

  lemma SeparatorBelow(d: DigitGrouping, n: int, count: nat, k: nat)
    requires Usable(d) && SeparatorsBelow(d, n, count) && 0 < k <= count
    ensures Position(d.grouping, k) < n
  {
    PositionOrder(d.grouping, k, count);
  }

  /** Collects the separator positions from the right, and writes the digits from the left. */
  method Apply(d: DigitGrouping, digits: string) returns (out: string)
    requires Usable(d) && |digits| <= MAX_INT
    ensures out == Grouped(d, digits, |digits|)
  {
    hide Grouped, Collected;
    var numDigits := |digits|;
    var separators := CollectSeparators(d, numDigits);
    NothingGrouped(d, digits, separators);
    out := "";
    var i, sepIndex := 0, |separators| - 1;
    while i < numDigits
      invariant 0 <= i <= numDigits && out == Grouped(d, digits, i)
      invariant i < numDigits ==> Remaining(separators, sepIndex, numDigits - i)
    {
      PlaceSeparator(d, digits, separators, i, sepIndex);
      if numDigits - i == separators[sepIndex] {
        out := out + d.thousandsSep;
        sepIndex := sepIndex - 1;
      }
      out := out + [digits[i]];
      i := i + 1;
    }
  }

  lemma NothingGrouped(d: DigitGrouping, digits: string, separators: seq<int>)
    requires Usable(d) && Collected(d, |digits|, separators)
    ensures Grouped(d, digits, 0) == "" && separators != [] && Remaining(separators, |separators| - 1, |digits|)
  {
  }

  // ----- what the result looks like -----

  /** Leaves out the characters of a separator. */
  function Erased(s: string, sep: string): string
  {
    if s == "" then "" else Erased(s[..|s| - 1], sep) + if s[|s| - 1] in sep then "" else [s[|s| - 1]]
  }

  lemma {:induction false} ErasedConcat(s: string, t: string, sep: string)
    ensures Erased(s + t, sep) == Erased(s, sep) + Erased(t, sep)
  {
    if t == "" {
      assert s + t == s;
    } else {
      var u := t[..|t| - 1];
      ErasedConcat(s, u, sep);
      assert (s + t)[..|s + t| - 1] == s + u;
    }
  }

  lemma {:induction false} ErasedSeparator(t: string, sep: string)
    requires forall c :: c in t ==> c in sep
    ensures Erased(t, sep) == ""
  {
    if t != "" {
      ErasedSeparator(t[..|t| - 1], sep);
    }
  }

  lemma ErasedDigit(s: string, t: string, c: char, sep: string)
    requires (forall x :: x in t ==> x in sep) && c !in sep
    ensures Erased(s + t + [c], sep) == Erased(s, sep) + [c]
  {
    ErasedConcat(s, t, sep);
    ErasedSeparator(t, sep);
    assert (s + t + [c])[..|s + t|] == s + t;
  }

  /** Grouping only inserts separators. */
  lemma {:induction false} GroupedErased(d: DigitGrouping, digits: string, count: nat)
    requires Usable(d) && count <= |digits| && forall c :: c in d.thousandsSep ==> c !in digits
    ensures Erased(Grouped(d, digits, count), d.thousandsSep) == digits[..count]
  {
    hide Separated, Erased;
    if count == 0 {
      ErasedSeparator("", d.thousandsSep);
    } else {
      var i := count - 1;
      GroupedErased(d, digits, i);
      assert digits[i] in digits;
      ErasedDigit(Grouped(d, digits, i), if i > 0 && Separated(d, |digits| - i) then d.thousandsSep else "",
                  digits[i], d.thousandsSep);
      assert digits[..count] == digits[..i] + [digits[i]];
    }
  }

  lemma {:induction false} GroupedLength(d: DigitGrouping, digits: string, separators: seq<int>, i: nat, sepIndex: int)
    requires Usable(d) && Collected(d, |digits|, separators) && i <= |digits|
    requires i < |digits| ==> Remaining(separators, sepIndex, |digits| - i)
    requires i == |digits| ==> sepIndex == 0
    ensures |Grouped(d, digits, |digits|)| ==
              |Grouped(d, digits, i)| + (|digits| - i) + sepIndex * |d.thousandsSep|
    decreases |digits| - i
  {
    if i < |digits| {
      PlaceSeparator(d, digits, separators, i, sepIndex);
      var next := if |digits| - i == separators[sepIndex] then sepIndex - 1 else sepIndex;
      if i + 1 == |digits| && next > 0 {
        assert Remaining(separators, next, 0);
        assert HasSeparator(d, next);
        PositionGrows(d.grouping, 0, next);
      }
      GroupedLength(d, digits, separators, i + 1, next);
      OneLess(sepIndex, |d.thousandsSep|);
    }
  }

  /** There are as many separators as CountSeparators finds. */
  lemma AppliedLength(d: DigitGrouping, digits: string, count: nat)
    requires Usable(d) && SeparatorsBelow(d, |digits|, count)
    ensures |Grouped(d, digits, |digits|)| == |digits| + count * |d.thousandsSep|
  {
    var separators := seq(count + 1, k requires 0 <= k => if k == 0 then 0 else Position(Groups(d), k));
    if count > 0 {
      PositionGrows(d.grouping, 0, count);
    }
    assert Collected(d, |digits|, separators);
    NothingGrouped(d, digits, separators);
    GroupedLength(d, digits, separators, 0, count);
  }

  function Groups(d: DigitGrouping): (g: seq<GroupSize>)
    requires Usable(d)
    ensures g != [] && (d.thousandsSep != "" ==> g == d.grouping)
  {
    if d.thousandsSep == "" then [1] else d.grouping
  }

  lemma OneLess(k: int, n: nat)
    ensures k * n == (k - 1) * n + n
  {
  }

  /** The result from a digit on: the separator before it, if one belongs there, and the rest. */
  lemma {:induction false} GroupedFrom(d: DigitGrouping, digits: string, i: nat) returns (rest: string)
    requires Usable(d) && i < |digits| && forall c :: c in d.thousandsSep ==> c !in digits
    ensures Grouped(d, digits, |digits|) ==
              Grouped(d, digits, i) + (if i > 0 && Separated(d, |digits| - i) then d.thousandsSep else "") + rest
    ensures Erased(rest, d.thousandsSep) == digits[i..] && rest != "" && rest[0] == digits[i]
    decreases |digits| - i
  {
    hide Separated, Erased;
    var sep := d.thousandsSep;
    var before := Grouped(d, digits, i) + (if i > 0 && Separated(d, |digits| - i) then sep else "");
    assert digits[i] in digits;
    ErasedDigit("", "", digits[i], sep);
    ErasedSeparator("", sep);
    assert "" + "" + [digits[i]] == [digits[i]];
    if i == |digits| - 1 {
      rest := [digits[i]];
      assert digits[i..] == [digits[i]];
    } else {
      var more := GroupedFrom(d, digits, i + 1);
      var gap := if Separated(d, |digits| - i - 1) then sep else "";
      rest := [digits[i]] + (gap + more);
      assert before + [digits[i]] + gap + more == before + rest;
      ErasedConcat([digits[i]], gap + more, sep);
      ErasedConcat(gap, more, sep);
      ErasedSeparator(gap, sep);
      assert "" + Erased(more, sep) == Erased(more, sep);
      assert digits[i..] == [digits[i]] + digits[i + 1..];
    }
  }

  /** Between any two digits of the result there is a separator exactly if one belongs there, and
      nothing else. */
  lemma SeparatorStands(d: DigitGrouping, digits: string, right: nat) returns (left: string, rest: string)
    requires Usable(d) && 0 < right < |digits| && forall c :: c in d.thousandsSep ==> c !in digits
    ensures Grouped(d, digits, |digits|) == left + (if Separated(d, right) then d.thousandsSep else "") + rest
    ensures var i := |digits| - right;
            && Erased(left, d.thousandsSep) == digits[..i] && left != "" && left[|left| - 1] == digits[i - 1]
            && Erased(rest, d.thousandsSep) == digits[i..] && rest != "" && rest[0] == digits[i]
  {
    hide Separated, Erased;
    var i := |digits| - right;
    left := Grouped(d, digits, i);
    GroupedErased(d, digits, i);
    rest := GroupedFrom(d, digits, i);
  }

  /** A million with groups of three. */
  lemma MillionGrouped()
    ensures Grouped(DigitGrouping([3], ","), "1234567", 7) == "1,234,567"
  {
    var d := DigitGrouping([3], ",");
    GroupsOfThree(d);
    var digits := "1234567";
    assert Grouped(d, digits, 1) == "1";
    assert Grouped(d, digits, 2) == "1,2";
    assert Grouped(d, digits, 3) == "1,23";
    assert Grouped(d, digits, 4) == "1,234";
    assert Grouped(d, digits, 5) == "1,234,5";
    assert Grouped(d, digits, 6) == "1,234,56";
  }

  lemma GroupsOfThree(d: DigitGrouping)
    requires d == DigitGrouping([3], ",")
    ensures forall right :: Separated(d, right) <==> right > 0 && right % 3 == 0
  {
    forall right
      ensures Separated(d, right) <==> right > 0 && right % 3 == 0
    {
      if right > 0 && right % 3 == 0 {
        ThreePosition(right / 3);
        assert IsSeparator(d, right / 3, right);
      } else if Separated(d, right) {
        var j: nat :| IsSeparator(d, j, right);
        ThreePosition(j);
      }
    }
  }

  lemma {:induction false} ThreePosition(j: nat)
    ensures Position([3], j) == 3 * j
  {
    if j > 0 {
      ThreePosition(j - 1);
    }
  }
}
