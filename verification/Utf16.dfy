/** Conversion between UTF-16, as in section 2 of RFC 2781, and UTF-8. */
module Utf16 {
  import opened Utf8

  type unit = bv16

  predicate IsSurrogate(u: unit) { 0xd800 <= u <= 0xdfff }
  predicate IsHigh(u: unit) { u & 0xfc00 == 0xd800 }
  predicate IsLow(u: unit) { u & 0xfc00 == 0xdc00 }

  /** The code point of a surrogate pair: the constant takes off both marks. */
  function PairValue(high: unit, low: unit): bv32
  {
    (high as bv32 << 10) + low as bv32 - 0x35fdc00
  }

  const REPLACEMENT: bv32 := 0xfffd

  // ----- what a string of units means -----

  /** A code point, or a surrogate without its other half. */
  datatype Item = Scalar(cp: bv32) | Unpaired

  /** The number of units the first item of a string takes. */
  function FirstLength(s: seq<unit>): (n: nat)
    requires s != []
    ensures 1 <= n <= |s|
  {
    if IsHigh(s[0]) && |s| > 1 && IsLow(s[1]) then 2 else 1
  }

  function FirstItem(s: seq<unit>): Item
    requires s != []
  {
    if !IsSurrogate(s[0]) then Scalar(s[0] as bv32)
    else if FirstLength(s) == 2 then Scalar(PairValue(s[0], s[1]))
    else Unpaired
  }

  function Items(s: seq<unit>): seq<Item>
    decreases |s|
  {
    if s == [] then [] else [FirstItem(s)] + Items(s[FirstLength(s)..])
  }

  predicate WellFormed(s: seq<unit>)
  {
    Unpaired !in Items(s)
  }

  /** The code point, or the replacement character for an unpaired surrogate. */
  function Replaced(item: Item): bv32 { if item.Scalar? then item.cp else REPLACEMENT }

  function CodePoints(items: seq<Item>): (cps: seq<bv32>)
    ensures |cps| == |items| && forall i :: 0 <= i < |items| ==> cps[i] == Replaced(items[i])
  {
    if items == [] then [] else [Replaced(items[0])] + CodePoints(items[1..])
  }

  // ----- code points as units -----

  function HighOf(cp: bv32): unit
    requires 0xffff < cp <= 0x10ffff
  {
    (0xd800 + ((cp - 0x10000) >> 10)) as unit
  }

  function LowOf(cp: bv32): unit
    requires 0xffff < cp <= 0x10ffff
  {
    (0xdc00 + ((cp - 0x10000) & 0x3ff)) as unit
  }

  /** A code point as one unit, or as a surrogate pair. */
  function UnitsOf(cp: bv32): seq<unit>
    requires IsScalar(cp)
  {
    if cp <= 0xffff then [cp as unit] else [HighOf(cp), LowOf(cp)]
  }

  function AllUnits(cps: seq<bv32>): seq<unit>
    requires AllScalar(cps)
  {
    if cps == [] then [] else UnitsOf(cps[0]) + AllUnits(cps[1..])
  }

  lemma PairBits(h: unit, l: unit)
    requires h & 0xfc00 == 0xd800 && l & 0xfc00 == 0xdc00
    ensures var cp := (h as bv32 << 10) + l as bv32 - 0x35fdc00;
            && 0xffff < cp <= 0x10ffff && !(0xd800 <= cp <= 0xdfff) && 0xd800 <= h <= 0xdfff
            && (0xd800 + ((cp - 0x10000) >> 10)) as unit == h && (0xdc00 + ((cp - 0x10000) & 0x3ff)) as unit == l
  {
  }

  lemma MarkBits(cp: bv32)
    requires 0xffff < cp <= 0x10ffff
    ensures var h, l := (0xd800 + ((cp - 0x10000) >> 10)) as unit, (0xdc00 + ((cp - 0x10000) & 0x3ff)) as unit;
            && h & 0xfc00 == 0xd800 && l & 0xfc00 == 0xdc00 && 0xd800 <= h <= 0xdfff
            && (h as bv32 << 10) + l as bv32 - 0x35fdc00 == cp
  {
  }

  lemma SingleBits(u: unit)
    requires !(0xd800 <= u <= 0xdfff)
    ensures var cp := u as bv32;
            cp <= 0xffff && cp <= 0x10ffff && !(0xd800 <= cp <= 0xdfff) && cp as unit == u && u & 0xfc00 != 0xd800
  {
  }

  lemma UnitBits(cp: bv32)
    requires cp <= 0xffff && !(0xd800 <= cp <= 0xdfff)
    ensures var u := cp as unit;
            !(0xd800 <= u <= 0xdfff) && u as bv32 == cp && u & 0xfc00 != 0xd800
  {
  }

  /** A pair is a code point, and its units are the pair. */
  lemma PairIsScalar(high: unit, low: unit)
    requires IsHigh(high) && IsLow(low)
    ensures IsSurrogate(high) && IsScalar(PairValue(high, low)) && UnitsOf(PairValue(high, low)) == [high, low]
  {
    PairBits(high, low);
  }

  lemma SingleIsScalar(u: unit)
    requires !IsSurrogate(u)
    ensures IsScalar(u as bv32) && UnitsOf(u as bv32) == [u] && !IsHigh(u)
  {
    SingleBits(u);
  }

  lemma MarkedPair(cp: bv32)
    requires 0xffff < cp <= 0x10ffff
    ensures IsHigh(HighOf(cp)) && IsLow(LowOf(cp)) && IsSurrogate(HighOf(cp)) && PairValue(HighOf(cp), LowOf(cp)) == cp
  {
    MarkBits(cp);
  }

  lemma UnitOfSingle(cp: bv32)
    requires cp <= 0xffff && IsScalar(cp)
    ensures !IsSurrogate(cp as unit) && !IsHigh(cp as unit) && (cp as unit) as bv32 == cp
  {
    UnitBits(cp);
  }

  /** The first item, if it is a code point, is what its units stand for. */
  lemma FirstItemScalar(s: seq<unit>)
    requires s != []
    ensures var item, n := FirstItem(s), FirstLength(s);
            item.Scalar? ==> IsScalar(item.cp) && UnitsOf(item.cp) == s[..n]
  {
    hide UnitsOf, IsScalar, PairValue, IsHigh, IsLow, IsSurrogate;
    if !IsSurrogate(s[0]) {
      SingleIsScalar(s[0]);
      assert s[..1] == [s[0]];
    } else if FirstLength(s) == 2 {
      PairIsScalar(s[0], s[1]);
      assert s[..2] == [s[0], s[1]];
    }
  }

  /** The units of a code point are read as that code point. */
  lemma FirstOfUnits(cp: bv32, rest: seq<unit>)
    requires IsScalar(cp)
    ensures var s := UnitsOf(cp) + rest;
            s != [] && FirstItem(s) == Scalar(cp) && FirstLength(s) == |UnitsOf(cp)|
  {
    hide PairValue, IsHigh, IsLow, IsSurrogate, HighOf, LowOf;
    if cp <= 0xffff {
      UnitOfSingle(cp);
    } else {
      MarkedPair(cp);
    }
  }

  lemma ItemsStep(s: seq<unit>)
    requires s != []
    ensures var rest := Items(s[FirstLength(s)..]);
            && Items(s) == [FirstItem(s)] + rest
            && CodePoints(Items(s)) == [Replaced(FirstItem(s))] + CodePoints(rest)
            && (WellFormed(s) ==> FirstItem(s).Scalar? && WellFormed(s[FirstLength(s)..]))
  {
    hide FirstItem, FirstLength;
    var rest := Items(s[FirstLength(s)..]);
    assert Items(s)[1..] == rest;
    if WellFormed(s) {
      assert Items(s)[0] == FirstItem(s);
      forall i | 0 <= i < |rest|
        ensures rest[i] != Unpaired
      {
        assert Items(s)[1 + i] == rest[i];
      }
    }
  }

  lemma {:induction false} ItemsScalar(s: seq<unit>)
    ensures AllScalar(CodePoints(Items(s)))
    decreases |s|
  {
    hide FirstItem, FirstLength, UnitsOf, IsScalar, Items, WellFormed;
    if s == [] {
      NoItems(s);
    } else {
      ItemsScalar(s[FirstLength(s)..]);
      FirstItemScalar(s);
      ReplacementIsScalar();
      ItemsStep(s);
    }
  }

  /** Well-formed UTF-16 is what its code points are written as. */
  lemma {:induction false} UnitsOfItems(s: seq<unit>)
    requires WellFormed(s)
    ensures AllScalar(CodePoints(Items(s))) && AllUnits(CodePoints(Items(s))) == s
    decreases |s|
  {
    hide FirstItem, FirstLength, UnitsOf, IsScalar, Items, WellFormed;
    ItemsScalar(s);
    if s == [] {
      NoItems(s);
    } else {
      var n := FirstLength(s);
      ItemsStep(s);
      ItemsScalar(s[n..]);
      UnitsOfItems(s[n..]);
      FirstItemScalar(s);
      assert s == s[..n] + s[n..];
    }
  }

  lemma NoItems(s: seq<unit>)
    requires s == []
    ensures Items(s) == [] && CodePoints(Items(s)) == [] && WellFormed(s)
  {
  }

  lemma ReplacementIsScalar()
    ensures IsScalar(REPLACEMENT)
  {
  }

  /** Units of code points are well-formed, and mean those code points. */
  lemma {:induction false} ItemsOfUnits(cps: seq<bv32>)
    requires AllScalar(cps)
    ensures WellFormed(AllUnits(cps)) && CodePoints(Items(AllUnits(cps))) == cps
  {
    hide FirstItem, FirstLength, UnitsOf, IsScalar;
    if cps != [] {
      var rest := AllUnits(cps[1..]);
      ItemsOfUnits(cps[1..]);
      FirstOfUnits(cps[0], rest);
      var s := UnitsOf(cps[0]) + rest;
      assert s[FirstLength(s)..] == rest;
      assert Items(s) == [Scalar(cps[0])] + Items(rest);
      assert cps == [cps[0]] + cps[1..];
    }
  }

  // ----- what RFC 2781 says -----

  /** The halves of surrogate pairs. */
  lemma SurrogatesMean(u: unit)
    ensures IsHigh(u) <==> 0xd800 <= u <= 0xdbff
    ensures IsLow(u) <==> 0xdc00 <= u <= 0xdfff
    ensures IsSurrogate(u) <==> 0xd800 <= u <= 0xdfff
  {
  }

  /** The value of a pair (section 2.2): ten bits of each half, so that nothing wraps. */
  lemma PairMeans(high: unit, low: unit)
    requires 0xd800 <= high <= 0xdbff && 0xdc00 <= low <= 0xdfff
    ensures high as bv32 - 0xd800 <= 0x3ff && low as bv32 - 0xdc00 <= 0x3ff
    ensures PairValue(high, low) == 0x10000 + (high as bv32 - 0xd800) * 0x400 + (low as bv32 - 0xdc00)
  {
  }

  /** The units of a code point (section 2.1): itself, or a pair of that value. */
  lemma UnitsMean(cp: bv32)
    requires cp <= 0x10ffff && !(0xd800 <= cp <= 0xdfff)
    ensures IsScalar(cp)
    ensures var s := UnitsOf(cp);
            if cp <= 0xffff then |s| == 1 && s[0] as bv32 == cp && !(0xd800 <= s[0] <= 0xdfff)
            else |s| == 2 && 0xd800 <= s[0] <= 0xdbff && 0xdc00 <= s[1] <= 0xdfff
                 && cp == 0x10000 + (s[0] as bv32 - 0xd800) * 0x400 + (s[1] as bv32 - 0xdc00)
  {
    hide PairValue, IsHigh, IsLow, IsSurrogate, HighOf, LowOf;
    if cp > 0xffff {
      MarkedPair(cp);
      SurrogatesMean(HighOf(cp));
      SurrogatesMean(LowOf(cp));
      PairMeans(HighOf(cp), LowOf(cp));
    } else {
      UnitBits(cp);
    }
  }

  /** The string is made up of the units of the code points and of single surrogates, none of
      which stands at the start of a pair. */
  ghost predicate MadeOf(s: seq<unit>, items: seq<Item>)
    decreases |items|
  {
    if items == [] then s == []
    else if items[0].Scalar? then
      IsScalar(items[0].cp) && UnitsOf(items[0].cp) <= s && MadeOf(s[|UnitsOf(items[0].cp)|..], items[1..])
    else
      && s != [] && 0xd800 <= s[0] <= 0xdfff
      && !(s[0] <= 0xdbff && |s| > 1 && 0xdc00 <= s[1] <= 0xdfff) && MadeOf(s[1..], items[1..])
  }

  lemma UnpairedMeans(s: seq<unit>)
    requires s != []
    ensures FirstItem(s) == Unpaired <==>
              0xd800 <= s[0] <= 0xdfff && !(s[0] <= 0xdbff && |s| > 1 && 0xdc00 <= s[1] <= 0xdfff)
    ensures FirstItem(s) == Unpaired ==> FirstLength(s) == 1
  {
    hide IsHigh, IsLow, IsSurrogate, PairValue;
    SurrogatesMean(s[0]);
    if |s| > 1 {
      SurrogatesMean(s[1]);
    }
  }

  /** The items of a string are what it is made of, and it is not made of anything else. */
  lemma {:induction false} ItemsMean(s: seq<unit>, items: seq<Item>)
    ensures MadeOf(s, items) <==> items == Items(s)
    decreases |s|
  {
    hide FirstItem, FirstLength, UnitsOf, IsScalar;
    if s != [] {
      var n := FirstLength(s);
      UnpairedMeans(s);
      FirstItemScalar(s);
      if items != [] {
        ItemsMean(s[n..], items[1..]);
        if items[0].Scalar? && IsScalar(items[0].cp) && UnitsOf(items[0].cp) <= s {
          var k := |UnitsOf(items[0].cp)|;
          assert s == UnitsOf(items[0].cp) + s[k..];
          FirstOfUnits(items[0].cp, s[k..]);
        }
        if items == Items(s) {
          assert items[1..] == Items(s[n..]);
        }
      }
    } else if items != [] && items[0].Scalar? && IsScalar(items[0].cp) {
      FirstOfUnits(items[0].cp, []);
      assert UnitsOf(items[0].cp) + [] == UnitsOf(items[0].cp);
    }
  }

  function Occurrences<T(==)>(x: T, s: seq<T>): nat
  {
    if s == [] then 0 else (if s[0] == x then 1 else 0) + Occurrences(x, s[1..])
  }

  /** There is one replacement character for every unpaired surrogate, besides those of the text. */
  lemma {:induction false} OneReplacementEach(items: seq<Item>)
    ensures Occurrences(0xfffd, CodePoints(items)) ==
              Occurrences(Unpaired, items) + Occurrences(Scalar(0xfffd), items)
  {
    if items != [] {
      OneReplacementEach(items[1..]);
      assert CodePoints(items)[1..] == CodePoints(items[1..]);
    }
  }

  // ----- UTF-16 to UTF-8 -----

  datatype ErrorPolicy = Abort | Replace

  /** The shifts and masks of the conversion are those of the encoding. */
  lemma ThreeByteMasks(c: bv32)
    requires c <= 0xffff
    ensures (c & 0xfff) >> 6 == (c >> 6) & 0x3f
  {
  }

  lemma FourByteMasks(c: bv32)
    requires c <= 0x10ffff
    ensures (c & 0x3ffff) >> 12 == (c >> 12) & 0x3f && (c & 0xfff) >> 6 == (c >> 6) & 0x3f
  {
  }

  /** The bytes pushed for a code point. */
  method PushCodePoint(buf: seq<byte>, c: bv32) returns (ok: bool, out: seq<byte>)
    ensures ok == IsScalar(c)
    ensures out == buf + if IsScalar(c) then Encode(c) else []
  {
    ok, out := true, buf;
    if c < 0x80 {
      out := out + [c as byte];
    } else if c < 0x800 {
      out := out + [0xc0 | (c >> 6) as byte];
      out := out + [0x80 | (c & 0x3f) as byte];
    } else if 0x800 <= c <= 0xd7ff || 0xe000 <= c <= 0xffff {
      ThreeByteMasks(c);
      out := out + [0xe0 | (c >> 12) as byte];
      out := out + [0x80 | ((c & 0xfff) >> 6) as byte];
      out := out + [0x80 | (c & 0x3f) as byte];
    } else if 0x10000 <= c <= 0x10ffff {
      FourByteMasks(c);
      out := out + [0xf0 | (c >> 18) as byte];
      out := out + [0x80 | ((c & 0x3ffff) >> 12) as byte];
      out := out + [0x80 | ((c & 0xfff) >> 6) as byte];
      out := out + [0x80 | (c & 0x3f) as byte];
    } else {
      ok := false;
    }
  }

  lemma {:induction false} EncodeAllConcat(a: seq<bv32>, b: seq<bv32>)
    requires AllScalar(a) && AllScalar(b)
    ensures AllScalar(a + b) && EncodeAll(a + b) == EncodeAll(a) + EncodeAll(b)
  {
    hide Encode, IsScalar;
    if a == [] {
      assert a + b == b;
    } else {
      EncodeAllConcat(a[1..], b);
      assert (a + b)[1..] == a[1..] + b;
    }
  }

  /** The code points converted so far, cps, are those before position p. */
  ghost predicate Converted(s: seq<unit>, p: nat, cps: seq<bv32>, buf: seq<byte>, policy: ErrorPolicy)
  {
    && p <= |s| && AllScalar(cps) && buf == EncodeAll(cps)
    && CodePoints(Items(s)) == cps + CodePoints(Items(s[p..]))
    && (policy == Abort ==> WellFormed(s) == WellFormed(s[p..]))
  }

  lemma NothingConverted(s: seq<unit>, policy: ErrorPolicy)
    ensures Converted(s, 0, [], [], policy)
  {
    assert s[0..] == s;
  }

  lemma ConvertedStep(s: seq<unit>, p: nat, cps: seq<bv32>, buf: seq<byte>, policy: ErrorPolicy)
    requires Converted(s, p, cps, buf, policy) && p < |s|
    requires policy == Abort ==> FirstItem(s[p..]).Scalar?
    ensures var n, cp := FirstLength(s[p..]), Replaced(FirstItem(s[p..]));
            IsScalar(cp) && Converted(s, p + n, cps + [cp], buf + Encode(cp), policy)
  {
    hide FirstItem, FirstLength, IsScalar, Items, CodePoints, WellFormed, Encode;
    var rest := s[p..];
    var cp := Replaced(FirstItem(rest));
    FirstItemScalar(rest);
    ReplacementIsScalar();
    ItemsStep(rest);
    WellFormedStep(rest);
    EncodeAllConcat(cps, [cp]);
    EncodeOne(cp);
    assert rest[FirstLength(rest)..] == s[p + FirstLength(rest)..];
    assert cps + ([cp] + CodePoints(Items(s[p + FirstLength(rest)..]))) ==
           cps + [cp] + CodePoints(Items(s[p + FirstLength(rest)..]));
  }

  lemma EncodeOne(cp: bv32)
    requires IsScalar(cp)
    ensures EncodeAll([cp]) == Encode(cp)
  {
    assert EncodeAll([cp][1..]) == [];
  }

  lemma WellFormedStep(s: seq<unit>)
    requires s != []
    ensures WellFormed(s) <==> FirstItem(s).Scalar? && WellFormed(s[FirstLength(s)..])
  {
    ItemsStep(s);
  }

  lemma ConvertedEnd(s: seq<unit>, cps: seq<bv32>, buf: seq<byte>, policy: ErrorPolicy)
    requires Converted(s, |s|, cps, buf, policy)
    ensures AllScalar(cps) && buf == EncodeAll(cps) && cps == CodePoints(Items(s))
    ensures policy == Abort ==> WellFormed(s)
  {
    assert s[|s|..] == [];
  }

  lemma NotConvertible(s: seq<unit>, p: nat, cps: seq<bv32>, buf: seq<byte>)
    requires Converted(s, p, cps, buf, Abort) && p < |s| && FirstItem(s[p..]).Unpaired?
    ensures !WellFormed(s)
  {
    WellFormedStep(s[p..]);
  }

  /** Converts 16-bit units. An unpaired surrogate ends the conversion, or is replaced by the
      replacement character. */
  method Convert(s: seq<unit>, policy: ErrorPolicy) returns (ok: bool, buf: seq<byte>)
    ensures ok <==> policy == Replace || WellFormed(s)
    ensures AllScalar(CodePoints(Items(s))) && (ok ==> buf == EncodeAll(CodePoints(Items(s))))
  {
    hide Converted, FirstItem, FirstLength, IsSurrogate, IsHigh, IsLow, PairValue, Items, CodePoints, WellFormed;
    hide Encode, IsScalar, PairValue;
    buf := [];
    ghost var cps := [];
    var p: nat := 0;
    NothingConverted(s, policy);
    ItemsScalar(s);
    while p < |s|
      invariant p <= |s| && Converted(s, p, cps, buf, policy)
    {
      FirstOfTail(s, p);
      if policy == Replace || FirstItem(s[p..]).Scalar? {
        ConvertedStep(s, p, cps, buf, policy);
      } else {
        NotConvertible(s, p, cps, buf);
      }
      var c := s[p] as bv32;
      if IsSurrogate(s[p]) {
        p := p + 1;
        if p == |s| || !IsHigh(s[p - 1]) || !IsLow(s[p]) {
          if policy == Abort {
            return false, buf;
          }
          ReplacementBytes();
          buf := buf + [0xef, 0xbf, 0xbd];
          cps := cps + [REPLACEMENT];
          continue;
        } else {
          c := PairValue(s[p - 1], s[p]);
        }
      }
      var pushed;
      pushed, buf := PushCodePoint(buf, c);
      cps := cps + [c];
      p := p + 1;
      if !pushed {
        return false, buf;
      }
    }
    ConvertedEnd(s, cps, buf, policy);
    ok := true;
  }

  lemma FirstOfTail(s: seq<unit>, p: nat)
    requires p < |s|
    ensures var item, n := FirstItem(s[p..]), FirstLength(s[p..]);
            if !IsSurrogate(s[p]) then item == Scalar(s[p] as bv32) && n == 1
            else if p + 1 < |s| && IsHigh(s[p]) && IsLow(s[p + 1]) then item == Scalar(PairValue(s[p], s[p + 1])) && n == 2
            else item == Unpaired && n == 1
  {
    hide IsSurrogate, IsHigh, IsLow, PairValue;
    if !IsSurrogate(s[p]) {
      SingleIsScalar(s[p]);
    }
  }

  lemma ReplacementBytes()
    ensures IsScalar(REPLACEMENT) && Encode(REPLACEMENT) == [0xef, 0xbf, 0xbd]
  {
  }

  // ----- UTF-8 to UTF-16 -----

  datatype Utf16Text = Valid(units: seq<unit>) | InvalidUtf8

  /** The callback stops, by an exception, at the first invalid code point. */
  function Proceed(calls: seq<Call>): bool
  {
    calls == [] || calls[|calls| - 1].cp != INVALID_CODE_POINT
  }

  /** The buffer with the units of one code point. */
  method PushUnits(buf: seq<unit>, cp: bv32) returns (out: seq<unit>)
    requires IsScalar(cp)
    ensures out == buf + UnitsOf(cp)
  {
    hide HighOf, LowOf;
    if cp <= 0xffff {
      out := buf + [cp as unit];
    } else {
      out := buf + [HighOf(cp)];
      out := out + [LowOf(cp)];
    }
  }

  /** The code points a run has given. */
  function CallPoints(calls: seq<Call>): (cps: seq<bv32>)
    ensures |cps| == |calls| && forall i :: 0 <= i < |calls| ==> cps[i] == calls[i].cp
  {
    if calls == [] then [] else [calls[0].cp] + CallPoints(calls[1..])
  }

  lemma CallPointsSnoc(calls: seq<Call>, c: Call)
    ensures CallPoints(calls + [c]) == CallPoints(calls) + [c.cp]
  {
  }

  /** A run without an invalid code point has decoded all of the text. */
  lemma {:induction false} RunDecodes(s: seq<byte>, pos: nat, calls: seq<Call>)
    requires pos <= |s| && AllScalar(CallPoints(calls)) && s[..pos] == EncodeAll(CallPoints(calls))
    ensures var all := Run(s, pos, calls, Proceed);
            Proceed(all) ==> AllScalar(CallPoints(all)) && s == EncodeAll(CallPoints(all))
    decreases |s| - pos
  {
    hide Step, IsScalar, Encode, EncodedLength, CallPoints, EncodedAt;
    if pos == |s| {
      assert s[..pos] == s;
    } else {
      var c := Step(s, pos);
      StepMeaning(s, pos);
      if Proceed(calls + [c]) {
        assert (calls + [c])[|calls|] == c;
        OneMoreEncoded(s, pos, CallPoints(calls), c.cp);
        CallPointsSnoc(calls, c);
        RunDecodes(s, pos + c.len, calls + [c]);
      }
    }
  }

  lemma OneMoreEncoded(s: seq<byte>, pos: nat, cps: seq<bv32>, cp: bv32)
    requires pos <= |s| && AllScalar(cps) && s[..pos] == EncodeAll(cps) && EncodedAt(s, pos, cp)
    ensures AllScalar(cps + [cp]) && s[..pos + EncodedLength(cp)] == EncodeAll(cps + [cp])
  {
    EncodeAllConcat(cps, [cp]);
    EncodeOne(cp);
    var end := pos + EncodedLength(cp);
    assert s[..end] == s[..pos] + s[pos..end];
  }

  /** Encoded text is decoded without an invalid code point, to the code points it encodes. */
  lemma EncodedRuns(s: seq<byte>, cps: seq<bv32>)
    requires AllScalar(cps) && s == EncodeAll(cps)
    ensures Proceed(Run(s, 0, [], Proceed)) && CallPoints(Run(s, 0, [], Proceed)) == cps
  {
    assert GoesOn(Proceed);
    RunOfEncoded([], cps, [], Proceed);
    assert [] + s == s && [] + CallsOf(cps, 0) == CallsOf(cps, 0);
    CallsOfPoints(cps, 0);
  }

  lemma {:induction false} CallsOfPoints(cps: seq<bv32>, pos: nat)
    requires AllScalar(cps)
    ensures CallPoints(CallsOf(cps, pos)) == cps && Proceed(CallsOf(cps, pos))
    decreases |cps|
  {
    if cps != [] {
      assert cps[0] in cps;
      ScalarIsValid(cps[0]);
      CallsOfPoints(cps[1..], pos + EncodedLength(cps[0]));
      var calls := CallsOf(cps, pos);
      assert calls[1..] == CallsOf(cps[1..], pos + EncodedLength(cps[0]));
      assert calls[0].cp == cps[0] && cps == [cps[0]] + cps[1..];
      if |calls| > 1 {
        assert calls[|calls| - 1] == calls[1..][|calls| - 2];
      }
    }
  }

  lemma ScalarIsValid(cp: bv32)
    requires IsScalar(cp)
    ensures cp != INVALID_CODE_POINT
  {
  }

  /** Encoding is injective. */
  lemma EncodeAllInjective(a: seq<bv32>, b: seq<bv32>)
    requires AllScalar(a) && AllScalar(b) && EncodeAll(a) == EncodeAll(b)
    ensures a == b
  {
    EncodedRuns(EncodeAll(a), a);
    EncodedRuns(EncodeAll(b), b);
  }

  lemma {:induction false} AllUnitsSnoc(cps: seq<bv32>, cp: bv32)
    requires AllScalar(cps) && IsScalar(cp)
    ensures AllScalar(cps + [cp]) && AllUnits(cps + [cp]) == AllUnits(cps) + UnitsOf(cp)
  {
    hide IsScalar, UnitsOf;
    if cps == [] {
      assert cps + [cp] == [cp];
    } else {
      AllUnitsSnoc(cps[1..], cp);
      assert (cps + [cp])[1..] == cps[1..] + [cp];
    }
  }

  /** What the calls of a run push. */
  method PushAll(calls: seq<Call>) returns (buffer: seq<unit>)
    requires AllScalar(CallPoints(calls))
    ensures buffer == AllUnits(CallPoints(calls))
  {
    hide IsScalar, UnitsOf;
    ghost var cps := CallPoints(calls);
    buffer := [];
    for i := 0 to |calls|
      invariant AllScalar(cps[..i]) && buffer == AllUnits(cps[..i])
    {
      AllUnitsSnoc(cps[..i], cps[i]);
      assert cps[..i + 1] == cps[..i] + [cps[i]];
      buffer := PushUnits(buffer, calls[i].cp);
    }
    assert cps[..|calls|] == cps;
  }

  /** Converts valid UTF-8, which encodes cps, to their units; anything else is an error. */
  method Utf8ToUtf16(s: seq<byte>) returns (r: Utf16Text, ghost cps: seq<bv32>)
    ensures r.Valid? ==> AllScalar(cps) && s == EncodeAll(cps) && r.units == AllUnits(cps)
    ensures r.InvalidUtf8? ==> !exists any :: AllScalar(any) && s == EncodeAll(any)
  {
    hide IsScalar, AllUnits, Run, EncodeAll, CallPoints, Proceed, AllScalar;
    var calls := ForEachCodepoint(s, Proceed);
    cps := CallPoints(calls);
    NothingDecoded(s);
    RunDecodes(s, 0, []);
    if !Proceed(calls) {
      forall any | AllScalar(any) && s == EncodeAll(any)
        ensures false
      {
        EncodedRuns(s, any);
      }
      return InvalidUtf8, cps;
    }
    var buffer := PushAll(calls);
    r := Valid(buffer);
  }

  lemma NothingDecoded(s: seq<byte>)
    ensures AllScalar(CallPoints([])) && s[..0] == EncodeAll(CallPoints([]))
  {
  }

  /** Well-formed UTF-16 comes back from UTF-8. */
  method RoundTrip(s: seq<unit>) returns (r: Utf16Text)
    requires WellFormed(s)
    ensures r == Valid(s)
  {
    hide EncodeAll, AllUnits, Items, CodePoints;
    var ok, buf := Convert(s, Abort);
    ghost var cps;
    r, cps := Utf8ToUtf16(buf);
    UnitsOfItems(s);
    if r.Valid? {
      EncodeAllInjective(cps, CodePoints(Items(s)));
    }
  }
}
