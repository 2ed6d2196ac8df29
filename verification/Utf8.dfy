/** Encoding and decoding of UTF-8, as in section 3 of RFC 3629. */
module Utf8 {

  type byte = bv8

  /** The code points UTF-8 can encode. */
  predicate IsScalar(cp: bv32)
  {
    cp <= 0x10ffff && !(0xd800 <= cp <= 0xdfff)
  }

  /** The number of bytes a code point takes. */
  function EncodedLength(cp: bv32): (n: nat)
    ensures 1 <= n <= 4
  {
    if cp < 0x80 then 1 else if cp < 0x800 then 2 else if cp < 0x10000 then 3 else 4
  }

  /** A code point as a sequence of bytes. */
  function Encode(cp: bv32): (s: seq<byte>)
    requires IsScalar(cp)
    ensures |s| == EncodedLength(cp)
  {
    if cp < 0x80 then [cp as byte]
    else if cp < 0x800 then [0xc0 | (cp >> 6) as byte, 0x80 | (cp & 0x3f) as byte]
    else if cp < 0x10000 then
      [0xe0 | (cp >> 12) as byte, 0x80 | ((cp >> 6) & 0x3f) as byte, 0x80 | (cp & 0x3f) as byte]
    else
      [0xf0 | (cp >> 18) as byte, 0x80 | ((cp >> 12) & 0x3f) as byte,
       0x80 | ((cp >> 6) & 0x3f) as byte, 0x80 | (cp & 0x3f) as byte]
  }

  /** The length the first byte announces, or zero for a byte no sequence starts with. */
  function LengthOf(first: byte): nat
  {
    var i := first >> 3;
    if i < 16 then 1 else if i < 24 then 0 else if i < 28 then 2 else if i < 30 then 3 else if i < 31 then 4 else 0
  }

  function Masks(len: nat): byte
  {
    if len == 0 then 0x00 else if len == 1 then 0x7f else if len == 2 then 0x1f else if len == 3 then 0x0f else 0x07
  }

  function Mins(len: nat): bv32
  {
    if len == 0 then 4194304 else if len == 1 then 0 else if len == 2 then 128 else if len == 3 then 2048 else 65536
  }

  /** The branchless decoding of four bytes: the number of bytes to go on, the code point, and
      a nonzero error. */
  datatype Decoded = Decoded(next: nat, cp: bv32, error: bv32)

  function Shift(len: nat, c: bv32): bv32
  {
    if len == 1 then c >> 18 else if len == 2 then c >> 12 else if len == 3 then c >> 6 else c
  }

  function ShiftError(len: nat, e: bv32): bv32
  {
    if len == 1 then e >> 6 else if len == 2 then e >> 4 else if len == 3 then e >> 2 else e
  }

  /** The payload of four bytes, before the unused ones are shifted out. */
  function Payload(lead: byte, s1: byte, s2: byte, s3: byte): bv32
  {
    (lead as bv32 << 18) | ((s1 & 0x3f) as bv32 << 12) | ((s2 & 0x3f) as bv32 << 6) | (s3 & 0x3f) as bv32
  }

  /** The first two bits of three tail bytes. */
  function TailMarks(s1: byte, s2: byte, s3: byte): bv32
  {
    ((s1 & 0xc0) as bv32 >> 2) | ((s2 & 0xc0) as bv32 >> 4) | (s3 as bv32 >> 6)
  }

  /** Non-canonical encoding, surrogate half, out of range. */
  function ValueErrors(c: bv32, min: bv32): bv32
  {
    (if c < min then 1 << 6 else 0) | (if c >> 11 == 0x1b then 1 << 7 else 0) | (if c > 0x10ffff then 1 << 8 else 0)
  }

  function Utf8Decode(s0: byte, s1: byte, s2: byte, s3: byte): Decoded
  {
    var len := LengthOf(s0);
    var c := Shift(len, Payload(s0 & Masks(len), s1, s2, s3));
    var e := ValueErrors(c, Mins(len)) | TailMarks(s1, s2, s3);
    Decoded(len + (if len == 0 then 1 else 0), c, ShiftError(len, e ^ 0x2a))
  }

  /** Four bytes start with those of the code point. */
  predicate StartsWith(cp: bv32, s0: byte, s1: byte, s2: byte, s3: byte)
    requires IsScalar(cp)
  {
    var n, bytes := EncodedLength(cp), Encode(cp);
    s0 == bytes[0] && (n > 1 ==> s1 == bytes[1]) && (n > 2 ==> s2 == bytes[2]) && (n > 3 ==> s3 == bytes[3])
  }

  predicate Bytes1(cp: bv32, s0: byte)
  {
    && cp < 0x80
    && s0 == cp as byte
  }

  predicate Bytes2(cp: bv32, s0: byte, s1: byte)
  {
    && 0x80 <= cp < 0x800
    && s0 == 0xc0 | (cp >> 6) as byte && s1 == 0x80 | (cp & 0x3f) as byte
  }

  predicate Bytes3(cp: bv32, s0: byte, s1: byte, s2: byte)
  {
    && 0x800 <= cp < 0x10000 && IsScalar(cp)
    && s0 == 0xe0 | (cp >> 12) as byte && s1 == 0x80 | ((cp >> 6) & 0x3f) as byte
    && s2 == 0x80 | (cp & 0x3f) as byte
  }

  predicate Bytes4(cp: bv32, s0: byte, s1: byte, s2: byte, s3: byte)
  {
    && 0x10000 <= cp <= 0x10ffff
    && s0 == 0xf0 | (cp >> 18) as byte && s1 == 0x80 | ((cp >> 12) & 0x3f) as byte
    && s2 == 0x80 | ((cp >> 6) & 0x3f) as byte && s3 == 0x80 | (cp & 0x3f) as byte
  }

  lemma DecodeSound1(s0: byte, s1: byte, s2: byte, s3: byte)
    requires LengthOf(s0) == 1 && Utf8Decode(s0, s1, s2, s3).error == 0
    ensures Utf8Decode(s0, s1, s2, s3).next == 1 && Bytes1(Utf8Decode(s0, s1, s2, s3).cp, s0)
  {
  }

  lemma DecodeComplete1(cp: bv32, s0: byte, s1: byte, s2: byte, s3: byte)
    requires Bytes1(cp, s0)
    ensures Utf8Decode(s0, s1, s2, s3) == Decoded(1, cp, 0)
  {
  }

  lemma StartsWith1(cp: bv32, s0: byte, s1: byte, s2: byte, s3: byte)
    ensures Bytes1(cp, s0) <==> IsScalar(cp) && EncodedLength(cp) == 1 && StartsWith(cp, s0, s1, s2, s3)
  {
  }

  lemma DecodeSound2(s0: byte, s1: byte, s2: byte, s3: byte)
    requires LengthOf(s0) == 2 && Utf8Decode(s0, s1, s2, s3).error == 0
    ensures Utf8Decode(s0, s1, s2, s3).next == 2 && Bytes2(Utf8Decode(s0, s1, s2, s3).cp, s0, s1)
  {
  }

  lemma DecodeComplete2(cp: bv32, s0: byte, s1: byte, s2: byte, s3: byte)
    requires Bytes2(cp, s0, s1)
    ensures Utf8Decode(s0, s1, s2, s3) == Decoded(2, cp, 0)
  {
  }

  lemma StartsWith2(cp: bv32, s0: byte, s1: byte, s2: byte, s3: byte)
    ensures Bytes2(cp, s0, s1) <==> IsScalar(cp) && EncodedLength(cp) == 2 && StartsWith(cp, s0, s1, s2, s3)
  {
  }

  lemma DecodeSound3(s0: byte, s1: byte, s2: byte, s3: byte)
    requires LengthOf(s0) == 3 && Utf8Decode(s0, s1, s2, s3).error == 0
    ensures Utf8Decode(s0, s1, s2, s3).next == 3 && Bytes3(Utf8Decode(s0, s1, s2, s3).cp, s0, s1, s2)
  {
  }

  lemma PayloadBits(cp: bv32, s3: byte)
    requires cp < 0x10000
    ensures Shift(3, Payload((0xe0 | (cp >> 12) as byte) & 0x0f, 0x80 | ((cp >> 6) & 0x3f) as byte,
                             0x80 | (cp & 0x3f) as byte, s3)) == cp
    ensures LengthOf(0xe0 | (cp >> 12) as byte) == 3
  {
  }

  lemma PayloadOfThree(cp: bv32, s0: byte, s1: byte, s2: byte, s3: byte)
    requires Bytes3(cp, s0, s1, s2)
    ensures Shift(3, Payload(s0 & 0x0f, s1, s2, s3)) == cp && LengthOf(s0) == 3
  {
    hide Payload, Shift, LengthOf;
    PayloadBits(cp, s3);
  }

  lemma ErrorsOfThree(cp: bv32, s0: byte, s1: byte, s2: byte, s3: byte)
    requires Bytes3(cp, s0, s1, s2)
    ensures ShiftError(3, (ValueErrors(cp, 2048) | TailMarks(s1, s2, s3)) ^ 0x2a) == 0
  {
  }

  lemma DecodeComplete3(cp: bv32, s0: byte, s1: byte, s2: byte, s3: byte)
    requires Bytes3(cp, s0, s1, s2)
    ensures Utf8Decode(s0, s1, s2, s3) == Decoded(3, cp, 0)
  {
    hide Payload, TailMarks, ValueErrors, LengthOf, Shift, ShiftError, Bytes3;
    PayloadOfThree(cp, s0, s1, s2, s3);
    ErrorsOfThree(cp, s0, s1, s2, s3);
  }

  lemma StartsWith3(cp: bv32, s0: byte, s1: byte, s2: byte, s3: byte)
    ensures Bytes3(cp, s0, s1, s2) <==> IsScalar(cp) && EncodedLength(cp) == 3 && StartsWith(cp, s0, s1, s2, s3)
  {
  }

  lemma DecodeSound4(s0: byte, s1: byte, s2: byte, s3: byte)
    requires LengthOf(s0) == 4 && Utf8Decode(s0, s1, s2, s3).error == 0
    ensures Utf8Decode(s0, s1, s2, s3).next == 4 && Bytes4(Utf8Decode(s0, s1, s2, s3).cp, s0, s1, s2, s3)
  {
  }

  lemma PayloadOfFour(cp: bv32, s0: byte, s1: byte, s2: byte, s3: byte)
    requires Bytes4(cp, s0, s1, s2, s3)
    ensures Payload(s0 & 0x07, s1, s2, s3) == cp && LengthOf(s0) == 4
  {
  }

  lemma ErrorsOfFour(cp: bv32, s0: byte, s1: byte, s2: byte, s3: byte)
    requires Bytes4(cp, s0, s1, s2, s3)
    ensures (ValueErrors(cp, 65536) | TailMarks(s1, s2, s3)) ^ 0x2a == 0
  {
  }

  lemma DecodeComplete4(cp: bv32, s0: byte, s1: byte, s2: byte, s3: byte)
    requires Bytes4(cp, s0, s1, s2, s3)
    ensures Utf8Decode(s0, s1, s2, s3) == Decoded(4, cp, 0)
  {
    hide Payload, TailMarks, ValueErrors, LengthOf, Bytes4;
    PayloadOfFour(cp, s0, s1, s2, s3);
    ErrorsOfFour(cp, s0, s1, s2, s3);
  }

  lemma StartsWith4(cp: bv32, s0: byte, s1: byte, s2: byte, s3: byte)
    ensures Bytes4(cp, s0, s1, s2, s3) <==> IsScalar(cp) && EncodedLength(cp) == 4 && StartsWith(cp, s0, s1, s2, s3)
  {
  }

  lemma LengthBound(s0: byte, s1: byte, s2: byte, s3: byte)
    ensures LengthOf(s0) <= 4
    ensures LengthOf(s0) == 0 ==> Utf8Decode(s0, s1, s2, s3).error != 0
  {
  }

  /** There is no error exactly if the bytes start with a code point, and it is the one decoded. */
  lemma DecodeSound(s0: byte, s1: byte, s2: byte, s3: byte)
    requires Utf8Decode(s0, s1, s2, s3).error == 0
    ensures var d := Utf8Decode(s0, s1, s2, s3);
            IsScalar(d.cp) && StartsWith(d.cp, s0, s1, s2, s3) && d.next == EncodedLength(d.cp)
  {
    hide Utf8Decode, LengthOf, StartsWith, IsScalar, EncodedLength, Bytes1, Bytes2, Bytes3, Bytes4;
    LengthBound(s0, s1, s2, s3);
    var n, cp := LengthOf(s0), Utf8Decode(s0, s1, s2, s3).cp;
    if n == 1 {
      DecodeSound1(s0, s1, s2, s3);
      StartsWith1(cp, s0, s1, s2, s3);
    } else if n == 2 {
      DecodeSound2(s0, s1, s2, s3);
      StartsWith2(cp, s0, s1, s2, s3);
    } else if n == 3 {
      DecodeSound3(s0, s1, s2, s3);
      StartsWith3(cp, s0, s1, s2, s3);
    } else if n == 4 {
      DecodeSound4(s0, s1, s2, s3);
      StartsWith4(cp, s0, s1, s2, s3);
    }
  }

  lemma DecodeComplete(cp: bv32, s0: byte, s1: byte, s2: byte, s3: byte)
    requires IsScalar(cp) && StartsWith(cp, s0, s1, s2, s3)
    ensures Utf8Decode(s0, s1, s2, s3) == Decoded(EncodedLength(cp), cp, 0)
  {
    hide Utf8Decode, StartsWith, IsScalar, EncodedLength, Bytes1, Bytes2, Bytes3, Bytes4;
    if EncodedLength(cp) == 1 {
      StartsWith1(cp, s0, s1, s2, s3);
      DecodeComplete1(cp, s0, s1, s2, s3);
    } else if EncodedLength(cp) == 2 {
      StartsWith2(cp, s0, s1, s2, s3);
      DecodeComplete2(cp, s0, s1, s2, s3);
    } else if EncodedLength(cp) == 3 {
      StartsWith3(cp, s0, s1, s2, s3);
      DecodeComplete3(cp, s0, s1, s2, s3);
    } else {
      StartsWith4(cp, s0, s1, s2, s3);
      DecodeComplete4(cp, s0, s1, s2, s3);
    }
  }

  // ----- the octets of RFC 3629 -----

  predicate IsTail(b: byte)
  {
    0x80 <= b <= 0xbf
  }

  /** The syntax of section 4: the first of these bytes, or the first two, three or four. */
  predicate OneOctet(s0: byte)
  {
    s0 <= 0x7f
  }

  predicate TwoOctets(s0: byte, s1: byte)
  {
    0xc2 <= s0 <= 0xdf && IsTail(s1)
  }

  predicate ThreeOctets(s0: byte, s1: byte, s2: byte)
  {
    && IsTail(s2)
    && (|| (s0 == 0xe0 && 0xa0 <= s1 <= 0xbf)
        || (0xe1 <= s0 <= 0xec && IsTail(s1))
        || (s0 == 0xed && 0x80 <= s1 <= 0x9f)
        || (0xee <= s0 <= 0xef && IsTail(s1)))
  }

  predicate FourOctets(s0: byte, s1: byte, s2: byte, s3: byte)
  {
    && IsTail(s2) && IsTail(s3)
    && (|| (s0 == 0xf0 && 0x90 <= s1 <= 0xbf)
        || (0xf1 <= s0 <= 0xf3 && IsTail(s1))
        || (s0 == 0xf4 && 0x80 <= s1 <= 0x8f))
  }

  lemma OneOctetDecoded(s0: byte, s1: byte, s2: byte, s3: byte)
    requires LengthOf(s0) <= 1
    ensures var d := Utf8Decode(s0, s1, s2, s3);
            (d.error == 0 <==> OneOctet(s0)) && (OneOctet(s0) ==> d.next == 1 && d.cp == s0 as bv32)
    ensures !TwoOctets(s0, s1) && !ThreeOctets(s0, s1, s2) && !FourOctets(s0, s1, s2, s3)
  {
  }

  lemma TwoOctetsDecoded(s0: byte, s1: byte, s2: byte, s3: byte)
    requires LengthOf(s0) == 2
    ensures var d := Utf8Decode(s0, s1, s2, s3);
            && (d.error == 0 <==> TwoOctets(s0, s1))
            && (TwoOctets(s0, s1) ==> d.next == 2 && d.cp == (s0 as bv32 - 0xc0) * 0x40 + (s1 as bv32 - 0x80))
    ensures !OneOctet(s0) && !ThreeOctets(s0, s1, s2) && !FourOctets(s0, s1, s2, s3)
  {
  }

  lemma ThreeOctetsDecoded(s0: byte, s1: byte, s2: byte, s3: byte)
    requires LengthOf(s0) == 3
    ensures var d := Utf8Decode(s0, s1, s2, s3);
            && (d.error == 0 <==> ThreeOctets(s0, s1, s2))
            && (ThreeOctets(s0, s1, s2) ==>
                  d.next == 3 && d.cp == (s0 as bv32 - 0xe0) * 0x1000 + (s1 as bv32 - 0x80) * 0x40 + (s2 as bv32 - 0x80))
    ensures !OneOctet(s0) && !TwoOctets(s0, s1) && !FourOctets(s0, s1, s2, s3)
  {
  }

  lemma FourOctetsDecoded(s0: byte, s1: byte, s2: byte, s3: byte)
    requires LengthOf(s0) == 4
    ensures var d := Utf8Decode(s0, s1, s2, s3);
            && (d.error == 0 <==> FourOctets(s0, s1, s2, s3))
            && (FourOctets(s0, s1, s2, s3) ==>
                  && d.next == 4
                  && d.cp == (s0 as bv32 - 0xf0) * 0x40000 + (s1 as bv32 - 0x80) * 0x1000
                             + (s2 as bv32 - 0x80) * 0x40 + (s3 as bv32 - 0x80))
    ensures !OneOctet(s0) && !TwoOctets(s0, s1) && !ThreeOctets(s0, s1, s2)
  {
  }

  /** The value that bytes of this syntax stand for, by section 3. */
  function OctetsValue(n: nat, s0: byte, s1: byte, s2: byte, s3: byte): bv32
  {
    var b0, b1, b2, b3 := s0 as bv32, s1 as bv32 - 0x80, s2 as bv32 - 0x80, s3 as bv32 - 0x80;
    if n == 1 then b0
    else if n == 2 then (b0 - 0xc0) * 0x40 + b1
    else if n == 3 then (b0 - 0xe0) * 0x1000 + b1 * 0x40 + b2
    else (b0 - 0xf0) * 0x40000 + b1 * 0x1000 + b2 * 0x40 + b3
  }

  /** Decoding finds no error exactly in bytes of that syntax, and then gives their number and
      their value. */
  lemma OctetsDecoded(s0: byte, s1: byte, s2: byte, s3: byte)
    ensures var d := Utf8Decode(s0, s1, s2, s3);
            && (d.error == 0 <==> OneOctet(s0) || TwoOctets(s0, s1) || ThreeOctets(s0, s1, s2) || FourOctets(s0, s1, s2, s3))
            && (OneOctet(s0) ==> d.next == 1) && (TwoOctets(s0, s1) ==> d.next == 2)
            && (ThreeOctets(s0, s1, s2) ==> d.next == 3) && (FourOctets(s0, s1, s2, s3) ==> d.next == 4)
            && (d.error == 0 ==> d.cp == OctetsValue(d.next, s0, s1, s2, s3))
  {
    hide Utf8Decode, OneOctet, TwoOctets, ThreeOctets, FourOctets;
    LengthBound(s0, s1, s2, s3);
    if LengthOf(s0) <= 1 {
      OneOctetDecoded(s0, s1, s2, s3);
    } else if LengthOf(s0) == 2 {
      TwoOctetsDecoded(s0, s1, s2, s3);
    } else if LengthOf(s0) == 3 {
      ThreeOctetsDecoded(s0, s1, s2, s3);
    } else {
      FourOctetsDecoded(s0, s1, s2, s3);
    }
  }

  /** Every code point but the surrogates is encoded by bytes of that syntax, as many as its value
      needs, which have its value. */
  lemma OctetsEncoded(cp: bv32)
    requires cp <= 0x10ffff && !(0xd800 <= cp <= 0xdfff)
    ensures IsScalar(cp)
    ensures var s := Encode(cp);
            if cp <= 0x7f then
              |s| == 1 && OneOctet(s[0]) && cp == OctetsValue(1, s[0], 0, 0, 0)
            else if cp <= 0x7ff then
              |s| == 2 && TwoOctets(s[0], s[1]) && cp == OctetsValue(2, s[0], s[1], 0, 0)
            else if cp <= 0xffff then
              |s| == 3 && ThreeOctets(s[0], s[1], s[2]) && cp == OctetsValue(3, s[0], s[1], s[2], 0)
            else
              |s| == 4 && FourOctets(s[0], s[1], s[2], s[3]) && cp == OctetsValue(4, s[0], s[1], s[2], s[3])
  {
    hide Encode, Utf8Decode, OneOctet, TwoOctets, ThreeOctets, FourOctets, OctetsValue;
    var s := Encode(cp);
    var s1, s2, s3 := ByteAt(s, 1), ByteAt(s, 2), ByteAt(s, 3);
    DecodeComplete(cp, s[0], s1, s2, s3);
    OctetsDecoded(s[0], s1, s2, s3);
  }

  /** Two of the examples in section 7. */
  lemma ExamplesEncoded()
    ensures var text := [0x41, 0x2262, 0x391, 0x2e];
            AllScalar(text) && EncodeAll(text) == [0x41, 0xe2, 0x89, 0xa2, 0xce, 0x91, 0x2e]
    ensures IsScalar(0x233b4) && Encode(0x233b4) == [0xf0, 0xa3, 0x8e, 0xb4]
  {
    var text: seq<bv32> := [0x41, 0x2262, 0x391, 0x2e];
    assert AllScalar(text);
    assert text[1..] == [0x2262, 0x391, 0x2e] && text[1..][1..] == [0x391, 0x2e] && text[1..][1..][1..] == [0x2e];
    assert EncodeAll([0x2e]) == [0x2e];
    assert EncodeAll([0x391, 0x2e]) == [0xce, 0x91, 0x2e];
    assert EncodeAll([0x2262, 0x391, 0x2e]) == [0xe2, 0x89, 0xa2, 0xce, 0x91, 0x2e];
  }

  // ----- decoding a string -----

  const INVALID_CODE_POINT: bv32 := 0xffff_ffff

  /** The string continued by zeros. */
  function ByteAt(s: seq<byte>, i: nat): byte
  {
    if i < |s| then s[i] else 0
  }

  function DecodeAt(s: seq<byte>, pos: nat): Decoded
  {
    Utf8Decode(ByteAt(s, pos), ByteAt(s, pos + 1), ByteAt(s, pos + 2), ByteAt(s, pos + 3))
  }

  /** A code point is encoded at this position of the string. */
  predicate EncodedAt(s: seq<byte>, pos: nat, cp: bv32)
  {
    IsScalar(cp) && pos + EncodedLength(cp) <= |s| && s[pos..pos + EncodedLength(cp)] == Encode(cp)
  }

  lemma TailsAreNotZero(cp: bv32)
    requires IsScalar(cp)
    ensures forall i :: 0 < i < EncodedLength(cp) ==> Encode(cp)[i] != 0
  {
  }

  lemma StartsEncoded(s: seq<byte>, pos: nat, cp: bv32)
    requires pos < |s| && IsScalar(cp)
    ensures EncodedAt(s, pos, cp) <==>
              StartsWith(cp, ByteAt(s, pos), ByteAt(s, pos + 1), ByteAt(s, pos + 2), ByteAt(s, pos + 3))
  {
    hide Encode, IsScalar;
    TailsAreNotZero(cp);
    var n := EncodedLength(cp);
    if EncodedAt(s, pos, cp) {
      var view := s[pos..pos + n];
      assert forall i :: 0 <= i < n ==> view[i] == ByteAt(s, pos + i);
    }
  }

  /** One step of the decoding: what the callback is given. */
  datatype Call = Call(cp: bv32, pos: nat, len: nat)

  function Step(s: seq<byte>, pos: nat): (c: Call)
    requires pos < |s|
    ensures c.len > 0
  {
    var d := DecodeAt(s, pos);
    if d.error != 0 then Call(INVALID_CODE_POINT, pos, 1) else Call(d.cp, pos, d.next)
  }

  /** A step gives the code point encoded at the position, and exactly if there is none, the
      invalid one and a single byte. */
  lemma StepMeaning(s: seq<byte>, pos: nat)
    requires pos < |s|
    ensures var c := Step(s, pos);
            && c.pos == pos && pos + c.len <= |s|
            && (if exists cp :: EncodedAt(s, pos, cp) then EncodedAt(s, pos, c.cp) && c.len == EncodedLength(c.cp)
                else c.cp == 0xffff_ffff && c.len == 1)
  {
    hide Utf8Decode, StartsWith, Encode;
    var d := DecodeAt(s, pos);
    var s0, s1, s2, s3 := ByteAt(s, pos), ByteAt(s, pos + 1), ByteAt(s, pos + 2), ByteAt(s, pos + 3);
    if d.error == 0 {
      DecodeSound(s0, s1, s2, s3);
      StartsEncoded(s, pos, d.cp);
    }
    if cp :| EncodedAt(s, pos, cp) {
      StartsEncoded(s, pos, cp);
      DecodeComplete(cp, s0, s1, s2, s3);
    }
  }

  /** Decoding one step after the other, until the end or until the callback says stop. */
  function Run(s: seq<byte>, pos: nat, calls: seq<Call>, more: seq<Call> -> bool): seq<Call>
    decreases |s| - pos
  {
    if pos >= |s| then calls else
      var c := Step(s, pos);
      if more(calls + [c]) then Run(s, pos + c.len, calls + [c], more) else calls + [c]
  }

  /** The views are in order and together make up the string from start to end. */
  ghost predicate Covers(calls: seq<Call>, start: nat, end: nat)
  {
    if calls == [] then start == end else
      calls[0].pos == start && calls[0].len > 0 && Covers(calls[1..], start + calls[0].len, end)
  }

  /** Without a stop the views cover the string, and each carries what is encoded there. */
  lemma {:induction false} RunCovers(s: seq<byte>, pos: nat, calls: seq<Call>)
    requires pos <= |s|
    ensures var all := Run(s, pos, calls, _ => true);
            && |calls| <= |all| && all[..|calls|] == calls && Covers(all[|calls|..], pos, |s|)
            && forall i :: |calls| <= i < |all| ==> all[i].pos < |s| && all[i] == Step(s, all[i].pos)
    decreases |s| - pos
  {
    hide Step;
    if pos < |s| {
      var c := Step(s, pos);
      StepMeaning(s, pos);
      var next := calls + [c];
      RunCovers(s, pos + c.len, next);
      var all := Run(s, pos, calls, _ => true);
      assert all == Run(s, pos + c.len, next, _ => true);
      assert all[|calls|] == all[..|next|][|calls|] == c;
      assert all[|calls|..][1..] == all[|next|..];
      assert all[..|calls|] == all[..|next|][..|calls|] == next[..|calls|];
    }
  }

  /** A run with a callback that stops is the beginning of the whole run, up to the first call at
      which it stops, or all of it if it never does. */
  lemma {:induction false} RunStops(s: seq<byte>, pos: nat, calls: seq<Call>, more: seq<Call> -> bool)
    requires pos <= |s|
    ensures var got, all := Run(s, pos, calls, more), Run(s, pos, calls, _ => true);
            && calls <= got <= all
            && (forall k :: |calls| < k < |got| ==> more(got[..k]))
            && (got == all || !more(got))
    decreases |s| - pos
  {
    hide Step;
    if pos < |s| {
      var c := Step(s, pos);
      var next := calls + [c];
      StepMeaning(s, pos);
      RunStops(s, pos + c.len, next, more);
      var got, all := Run(s, pos, calls, more), Run(s, pos, calls, _ => true);
      assert all == Run(s, pos + c.len, next, _ => true);
      assert next <= all && calls <= next;
      if more(next) {
        assert got == Run(s, pos + c.len, next, more);
        assert got[..|next|] == next;
      }
    }
  }

  /** Decodes the next four bytes that are in the buffer. */
  method DecodeCall(buf: seq<byte>, i: nat, pos: nat) returns (c: Call)
    requires i + 4 <= |buf|
    ensures var d := Utf8Decode(buf[i], buf[i + 1], buf[i + 2], buf[i + 3]);
            c == if d.error != 0 then Call(INVALID_CODE_POINT, pos, 1) else Call(d.cp, pos, d.next)
  {
    hide Utf8Decode;
    var d := Utf8Decode(buf[i], buf[i + 1], buf[i + 2], buf[i + 3]);
    c := Call(if d.error != 0 then INVALID_CODE_POINT else d.cp, pos, if d.error != 0 then 1 else d.next);
  }

  /** Decodes blocks of four bytes while there are four left, and the rest from a buffer padded
      with zeros. The callback sees all calls so far and says whether to go on. */
  method ForEachCodepoint(s: seq<byte>, more: seq<Call> -> bool) returns (calls: seq<Call>)
    ensures calls == Run(s, 0, [], more)
  {
    hide Utf8Decode, Run;
    var p: nat := 0;
    calls := [];
    if |s| >= 4 {
      while p < |s| - 4 + 1
        invariant p <= |s| && Run(s, 0, [], more) == Run(s, p, calls, more)
      {
        var c := DecodeCall(s, p, p);
        RunStep(s, p, calls, more);
        calls := calls + [c];
        if !more(calls) {
          return;
        }
        p := p + c.len;
      }
    }
    var left := |s| - p;
    RunEnd(s, calls, more);
    if left == 0 {
      return;
    }
    ghost var start := p;
    var buf := s[p..] + seq(7 - left, _ => 0);
    var i: nat := 0;
    while true
      invariant p == start + i < |s| && Run(s, 0, [], more) == Run(s, p, calls, more)
      decreases |s| - p
    {
      assert forall k :: i <= k < i + 4 ==> buf[k] == ByteAt(s, start + k);
      var c := DecodeCall(buf, i, p);
      RunStep(s, p, calls, more);
      calls := calls + [c];
      if !more(calls) {
        return;
      }
      p := p + c.len;
      i := i + c.len;
      if i >= left {
        break;
      }
    }
    RunEnd(s, calls, more);
  }

  lemma RunStep(s: seq<byte>, pos: nat, calls: seq<Call>, more: seq<Call> -> bool)
    requires pos < |s|
    ensures pos + Step(s, pos).len <= |s|
    ensures var next := calls + [Step(s, pos)];
            Run(s, pos, calls, more) == if more(next) then Run(s, pos + Step(s, pos).len, next, more) else next
  {
    StepMeaning(s, pos);
  }

  lemma RunEnd(s: seq<byte>, calls: seq<Call>, more: seq<Call> -> bool)
    ensures Run(s, |s|, calls, more) == calls
  {
  }

  // ----- encoded text -----

  ghost predicate AllScalar(cps: seq<bv32>)
  {
    forall cp :: cp in cps ==> IsScalar(cp)
  }

  function EncodeAll(cps: seq<bv32>): seq<byte>
    requires AllScalar(cps)
  {
    if cps == [] then [] else Encode(cps[0]) + EncodeAll(cps[1..])
  }

  /** The calls that decoding these code points gives. */
  function CallsOf(cps: seq<bv32>, pos: nat): seq<Call>
  {
    if cps == [] then [] else
      [Call(cps[0], pos, EncodedLength(cps[0]))] + CallsOf(cps[1..], pos + EncodedLength(cps[0]))
  }

  lemma CallsOfStep(calls: seq<Call>, cps: seq<bv32>, pos: nat)
    requires cps != []
    ensures var n := EncodedLength(cps[0]);
            calls + [Call(cps[0], pos, n)] + CallsOf(cps[1..], pos + n) == calls + CallsOf(cps, pos)
  {
  }

  /** The callback does not stop after a valid code point. */
  ghost predicate GoesOn(more: seq<Call> -> bool)
  {
    forall cs: seq<Call> :: cs != [] && IsScalar(cs[|cs| - 1].cp) ==> more(cs)
  }

  lemma GoesOnAfter(more: seq<Call> -> bool, calls: seq<Call>, c: Call)
    requires GoesOn(more) && IsScalar(c.cp)
    ensures more(calls + [c])
  {
    assert (calls + [c])[|calls + [c]| - 1] == c;
  }

  /** Decoding encoded text gives back its code points, one call for each. */
  lemma {:induction false} RunOfEncoded(before: seq<byte>, cps: seq<bv32>, calls: seq<Call>, more: seq<Call> -> bool)
    requires AllScalar(cps) && GoesOn(more)
    ensures Run(before + EncodeAll(cps), |before|, calls, more) == calls + CallsOf(cps, |before|)
    decreases |cps|
  {
    hide Run, Step, Encode, EncodedLength, IsScalar, GoesOn, CallsOf;
    var s, pos := before + EncodeAll(cps), |before|;
    if cps == [] {
      assert s == before;
      RunEnd(s, calls, more);
      NoCalls(calls, cps, pos);
    } else {
      var cp, rest := cps[0], cps[1..];
      var c, next := Call(cp, pos, EncodedLength(cp)), before + Encode(cp);
      assert s == next + EncodeAll(rest);
      StepIsEncoded(before, cp, EncodeAll(rest));
      RunStep(s, pos, calls, more);
      GoesOnAfter(more, calls, c);
      RunOfEncoded(next, rest, calls + [c], more);
      CallsOfStep(calls, cps, pos);
    }
  }

  lemma NoCalls(calls: seq<Call>, cps: seq<bv32>, pos: nat)
    requires cps == []
    ensures calls + CallsOf(cps, pos) == calls
  {
  }

  lemma StepIsEncoded(before: seq<byte>, cp: bv32, rest: seq<byte>)
    requires IsScalar(cp)
    ensures var s, pos := before + Encode(cp) + rest, |before|;
            |before + Encode(cp)| == pos + EncodedLength(cp) && pos < |s|
            && Step(s, pos) == Call(cp, pos, EncodedLength(cp))
  {
    hide Utf8Decode, StartsWith, Encode;
    var s, pos := before + Encode(cp) + rest, |before|;
    assert s[pos..pos + EncodedLength(cp)] == Encode(cp);
    StartsEncoded(s, pos, cp);
    DecodeComplete(cp, ByteAt(s, pos), ByteAt(s, pos + 1), ByteAt(s, pos + 2), ByteAt(s, pos + 3));
  }
}
