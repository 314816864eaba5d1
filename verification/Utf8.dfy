/** UTF-8 as RFC 3629 defines it, and the range-table decoder that meets it. */
module Utf8 {
  import opened Bytes

  // ---------------------------------------------------------------------------
  // RFC 3629
  // ---------------------------------------------------------------------------

  /** Unicode scalar values: every code point but the surrogates. */
  predicate IsScalar(codepoint: nat) {
    codepoint <= 0xD7FF || 0xE000 <= codepoint <= 0x10FFFF
  }

  predicate IsTail(c: Byte) {
    0x80 <= c <= 0xBF
  }

  /** The length of the UTF8-char production (section 4) at `pos`, or 0 where none matches. */
  function CharLength(text: Text, pos: nat): (n: nat)
    ensures n > 0 ==> pos < |text| || n == 1
  {
    var c0, c1, c2, c3 := Peek(text, pos), Peek(text, pos + 1), Peek(text, pos + 2), Peek(text, pos + 3);
    if c0 <= 0x7F then 1
    else if 0xC2 <= c0 <= 0xDF && IsTail(c1) then 2
    else if c0 == 0xE0 && 0xA0 <= c1 <= 0xBF && IsTail(c2) then 3
    else if 0xE1 <= c0 <= 0xEC && IsTail(c1) && IsTail(c2) then 3
    else if c0 == 0xED && 0x80 <= c1 <= 0x9F && IsTail(c2) then 3
    else if 0xEE <= c0 <= 0xEF && IsTail(c1) && IsTail(c2) then 3
    else if c0 == 0xF0 && 0x90 <= c1 <= 0xBF && IsTail(c2) && IsTail(c3) then 4
    else if 0xF1 <= c0 <= 0xF3 && IsTail(c1) && IsTail(c2) && IsTail(c3) then 4
    else if c0 == 0xF4 && 0x80 <= c1 <= 0x8F && IsTail(c2) && IsTail(c3) then 4
    else 0
  }

  /** The bits the octets of a character of length `n` carry (section 3). */
  function CharValue(text: Text, pos: nat, n: nat): nat {
    var c0, c1, c2, c3 := Peek(text, pos), Peek(text, pos + 1), Peek(text, pos + 2), Peek(text, pos + 3);
    if n <= 1 then c0
    else if n == 2 then (c0 % 0x20) * 0x40 + c1 % 0x40
    else if n == 3 then (c0 % 0x10) * 0x1000 + (c1 % 0x40) * 0x40 + c2 % 0x40
    else (c0 % 8) * 0x4_0000 + (c1 % 0x40) * 0x1000 + (c2 % 0x40) * 0x40 + c3 % 0x40
  }

  /** A string that is a sequence of UTF8-char productions. */
  predicate IsValid(text: Text, pos: nat)
    decreases |text| - pos
  {
    pos >= |text| || (CharLength(text, pos) > 0 && IsValid(text, pos + CharLength(text, pos)))
  }

  // ---------------------------------------------------------------------------
  // Validity of a concatenation
  // ---------------------------------------------------------------------------

  lemma CharacterFits(text: Text, pos: nat)
    requires pos < |text| && CharLength(text, pos) > 0
    ensures pos + CharLength(text, pos) <= |text|
  {}

  /** A character that fits in `a` does not depend on what follows. */
  lemma SameLength(a: Text, b: Text, pos: nat)
    requires pos < |a| && (pos + CharLength(a + b, pos) <= |a| || CharLength(a, pos) > 0)
    ensures CharLength(a + b, pos) == CharLength(a, pos)
  {
    forall k | pos <= k < |a|
      ensures Peek(a + b, k) == Peek(a, k)
    {}
  }

  /** A valid string in front does not matter. */
  lemma {:induction false} ValidPrefix(a: Text, b: Text, pos: nat)
    requires pos <= |a| && IsValid(a, pos)
    ensures IsValid(a + b, pos) <==> IsValid(b, 0)
    decreases |a| - pos
  {
    hide CharLength;
    if pos < |a| {
      CharacterFits(a, pos);
      SameLength(a, b, pos);
      ValidPrefix(a, b, pos + CharLength(a, pos));
    } else {
      ValidShift(a, b, 0);
    }
  }

  lemma {:induction false} ValidShift(a: Text, b: Text, pos: nat)
    ensures IsValid(a + b, |a| + pos) <==> IsValid(b, pos)
    decreases |b| - pos
  {
    if pos < |b| {
      SameShift(a, b, pos);
      hide CharLength;
      if CharLength(b, pos) > 0 {
        ValidShift(a, b, pos + CharLength(b, pos));
      }
    }
  }

  lemma SameShift(a: Text, b: Text, pos: nat)
    ensures CharLength(a + b, |a| + pos) == CharLength(b, pos)
  {
    assert Peek(a + b, |a| + (pos + 1)) == Peek(b, pos + 1);
    assert Peek(a + b, |a| + (pos + 2)) == Peek(b, pos + 2);
    assert Peek(a + b, |a| + (pos + 3)) == Peek(b, pos + 3);
  }

  /** Where no character begins with a tail octet, two strings are valid together exactly when each is. */
  lemma {:induction false} ValidApart(a: Text, b: Text, pos: nat)
    requires pos <= |a| && !IsTail(Peek(b, 0))
    ensures IsValid(a + b, pos) <==> IsValid(a, pos) && IsValid(b, 0)
    decreases |a| - pos
  {
    hide CharLength;
    if pos == |a| {
      ValidShift(a, b, 0);
    } else if CharLength(a + b, pos) > 0 || CharLength(a, pos) > 0 {
      NotAcross(a, b, pos);
      CharacterFits(a, pos);
      ValidApart(a, b, pos + CharLength(a, pos));
    }
  }

  lemma NotAcross(a: Text, b: Text, pos: nat)
    requires pos < |a| && !IsTail(Peek(b, 0)) && (CharLength(a + b, pos) > 0 || CharLength(a, pos) > 0)
    ensures CharLength(a + b, pos) == CharLength(a, pos)
  {
    assert Peek(a + b, |a|) == Peek(b, 0);
    SameLength(a, b, pos);
  }

  // ---------------------------------------------------------------------------
  // Encoding
  // ---------------------------------------------------------------------------

  /** UTF8::Encode. */
  function Encode(codepoint: nat): (octets: Text)
    requires codepoint <= 0x10FFFF
    ensures 1 <= |octets| <= 4
  {
    if codepoint <= 0x7F then
      [codepoint]
    else if codepoint <= 0x7FF then
      [0xC0 + codepoint / 0x40, 0x80 + codepoint % 0x40]
    else if codepoint <= 0xFFFF then
      [0xE0 + codepoint / 0x1000, 0x80 + codepoint / 0x40 % 0x40, 0x80 + codepoint % 0x40]
    else
      [0xF0 + codepoint / 0x4_0000, 0x80 + codepoint / 0x1000 % 0x40, 0x80 + codepoint / 0x40 % 0x40, 0x80 + codepoint % 0x40]
  }

  /** Six-bit digits of a two-octet value. */
  lemma Pack2(x: nat, y: nat)
    requires 2 <= x < 0x20 && y < 0x40
    ensures Encode(x * 0x40 + y) == [0xC0 + x, 0x80 + y]
  {
    var v := x * 0x40 + y;
    assert v / 0x40 == x && v % 0x40 == y;
  }

  /** Six-bit digits of a three-octet value. */
  lemma Pack3(x: nat, y: nat, z: nat)
    requires x < 0x10 && y < 0x40 && z < 0x40 && (x == 0 ==> y >= 0x20)
    ensures x * 0x1000 + y * 0x40 + z <= 0x10FFFF
    ensures Encode(x * 0x1000 + y * 0x40 + z) == [0xE0 + x, 0x80 + y, 0x80 + z]
  {
    var v := x * 0x1000 + y * 0x40 + z;
    assert v / 0x40 == x * 0x40 + y && v % 0x40 == z;
    assert v / 0x1000 == x;
  }

  /** Base-64 digits of a four-digit value. */
  lemma Digits4(w: nat, x: nat, y: nat, z: nat)
    requires x < 0x40 && y < 0x40 && z < 0x40
    ensures var v := w * 0x4_0000 + x * 0x1000 + y * 0x40 + z;
      && v % 0x40 == z
      && v / 0x40 % 0x40 == y
      && v / 0x1000 % 0x40 == x
      && v / 0x4_0000 == w
  {
    var v := w * 0x4_0000 + x * 0x1000 + y * 0x40 + z;
    var v1 := w * 0x1000 + x * 0x40 + y;
    var v2 := w * 0x40 + x;
    assert v == v1 * 0x40 + z;
    assert v / 0x40 == v1;
    assert v == v2 * 0x1000 + (y * 0x40 + z);
    assert v / 0x1000 == v2;
  }

  /** Six-bit digits of a four-octet value. */
  lemma Pack4(w: nat, x: nat, y: nat, z: nat)
    requires w <= 4 && x < 0x40 && y < 0x40 && z < 0x40 && (w == 0 ==> x >= 0x10) && (w == 4 ==> x < 0x10)
    ensures 0x1_0000 <= w * 0x4_0000 + x * 0x1000 + y * 0x40 + z <= 0x10FFFF
    ensures Encode(w * 0x4_0000 + x * 0x1000 + y * 0x40 + z) == [0xF0 + w, 0x80 + x, 0x80 + y, 0x80 + z]
  {
    Digits4(w, x, y, z);
  }

  /** The stream shows `octets` from `pos` on. */
  predicate Shows(text: Text, pos: nat, octets: Text) {
    forall k :: 0 <= k < |octets| ==> Peek(text, pos + k) == octets[k]
  }

  lemma ShowsIsAt(text: Text, pos: nat, octets: Text)
    requires |octets| > 0 && Shows(text, pos, octets) && octets[|octets| - 1] > 0
    ensures At(text, pos, octets)
  {
    assert Peek(text, pos + (|octets| - 1)) > 0;
    assert text[pos..pos + |octets|] == octets;
  }

  lemma AtShows(text: Text, pos: nat, octets: Text)
    requires At(text, pos, octets)
    ensures Shows(text, pos, octets)
  {
    forall k | 0 <= k < |octets|
      ensures Peek(text, pos + k) == octets[k]
    {
      AtPeek(text, pos, octets, k);
    }
  }

  /** The value of a character of each length, in base-64 digits. */
  lemma ValueDigits(text: Text, pos: nat)
    requires CharLength(text, pos) > 1
    ensures var c0, c1, c2, c3 := Peek(text, pos), Peek(text, pos + 1), Peek(text, pos + 2), Peek(text, pos + 3);
      var n := CharLength(text, pos);
      && (n == 2 ==> CharValue(text, pos, n) == (c0 - 0xC0) * 0x40 + (c1 - 0x80))
      && (n == 3 ==> CharValue(text, pos, n) == (c0 - 0xE0) * 0x1000 + (c1 - 0x80) * 0x40 + (c2 - 0x80))
      && (n == 4 ==> CharValue(text, pos, n) == (c0 - 0xF0) * 0x4_0000 + (c1 - 0x80) * 0x1000 + (c2 - 0x80) * 0x40 + (c3 - 0x80))
  {
    forall c: Byte | IsTail(c) ensures c % 0x40 == c - 0x80 {}
  }

  /** Encoding a character's value shows its octets again. */
  lemma OctetsOfValue(text: Text, pos: nat)
    requires CharLength(text, pos) > 0
    ensures var n := CharLength(text, pos);
      var v := CharValue(text, pos, n);
      v <= 0x10FFFF && |Encode(v)| == n && Shows(text, pos, Encode(v))
  {
    var n := CharLength(text, pos);
    if n == 2 {
      OctetsOfTwo(text, pos);
    } else if n == 3 {
      OctetsOfThree(text, pos);
    } else if n == 4 {
      OctetsOfFour(text, pos);
    }
  }

  lemma OctetsOfTwo(text: Text, pos: nat)
    requires CharLength(text, pos) == 2
    ensures var v := CharValue(text, pos, 2); v <= 0x10FFFF && |Encode(v)| == 2 && Shows(text, pos, Encode(v))
  {
    ValueDigits(text, pos);
    Pack2(Peek(text, pos) - 0xC0, Peek(text, pos + 1) - 0x80);
  }

  lemma OctetsOfThree(text: Text, pos: nat)
    requires CharLength(text, pos) == 3
    ensures var v := CharValue(text, pos, 3); v <= 0x10FFFF && |Encode(v)| == 3 && Shows(text, pos, Encode(v))
  {
    ValueDigits(text, pos);
    Pack3(Peek(text, pos) - 0xE0, Peek(text, pos + 1) - 0x80, Peek(text, pos + 2) - 0x80);
  }

  lemma OctetsOfFour(text: Text, pos: nat)
    requires CharLength(text, pos) == 4
    ensures var v := CharValue(text, pos, 4); v <= 0x10FFFF && |Encode(v)| == 4 && Shows(text, pos, Encode(v))
  {
    ValueDigits(text, pos);
    Pack4(Peek(text, pos) - 0xF0, Peek(text, pos + 1) - 0x80, Peek(text, pos + 2) - 0x80, Peek(text, pos + 3) - 0x80);
  }

  /** Every character of a text is the encoding of one scalar value. */
  lemma DecodeThenEncode(text: Text, pos: nat)
    requires pos < |text| && CharLength(text, pos) > 0
    ensures var n := CharLength(text, pos);
      var v := CharValue(text, pos, n);
      IsScalar(v) && |Encode(v)| == n && At(text, pos, Encode(v))
  {
    OctetsOfValue(text, pos);
    var n := CharLength(text, pos);
    var v := CharValue(text, pos, n);
    if n == 1 {
      assert text[pos..pos + 1] == Encode(v);
    } else {
      ValueDigits(text, pos);
      ShowsIsAt(text, pos, Encode(v));
    }
  }

  lemma LengthOfThree(text: Text, pos: nat, x: nat, y: nat, z: nat)
    requires x < 0x10 && y < 0x40 && z < 0x40 && (x == 0 ==> y >= 0x20) && (x == 0xD ==> y < 0x20)
    requires Peek(text, pos) == 0xE0 + x && Peek(text, pos + 1) == 0x80 + y && Peek(text, pos + 2) == 0x80 + z
    ensures CharLength(text, pos) == 3
  {}

  lemma LengthOfFour(text: Text, pos: nat, w: nat, x: nat, y: nat, z: nat)
    requires w <= 4 && x < 0x40 && y < 0x40 && z < 0x40 && (w == 0 ==> x >= 0x10) && (w == 4 ==> x < 0x10)
    requires Peek(text, pos) == 0xF0 + w && Peek(text, pos + 1) == 0x80 + x
    requires Peek(text, pos + 2) == 0x80 + y && Peek(text, pos + 3) == 0x80 + z
    ensures CharLength(text, pos) == 4
  {}

  /** The lead and tail octets of an encoding fix its length. */
  lemma EncodedLength(text: Text, pos: nat, codepoint: nat)
    requires IsScalar(codepoint) && Shows(text, pos, Encode(codepoint))
    ensures CharLength(text, pos) == |Encode(codepoint)|
  {
    var octets := Encode(codepoint);
    assert Peek(text, pos + 0) == octets[0];
    CodepointDigits(codepoint);
    if |octets| == 2 {
      assert Peek(text, pos + 1) == octets[1];
    } else if |octets| > 2 {
      hide CharLength;
      assert Peek(text, pos + 1) == octets[1];
      assert Peek(text, pos + 2) == octets[2];
      if |octets| == 3 {
        LengthOfThree(text, pos, codepoint / 0x1000, codepoint / 0x40 % 0x40, codepoint % 0x40);
      } else {
        assert Peek(text, pos + 3) == octets[3];
        LengthOfFour(text, pos, codepoint / 0x4_0000, codepoint / 0x1000 % 0x40, codepoint / 0x40 % 0x40, codepoint % 0x40);
      }
    }
  }

  /** The base-64 digits of a code point. */
  lemma CodepointDigits(codepoint: nat)
    ensures codepoint == codepoint / 0x40 * 0x40 + codepoint % 0x40
    ensures codepoint / 0x40 == codepoint / 0x1000 * 0x40 + codepoint / 0x40 % 0x40
    ensures codepoint / 0x1000 == codepoint / 0x4_0000 * 0x40 + codepoint / 0x1000 % 0x40
  {}

  /** The value shown by the octets of an encoding. */
  lemma EncodedValue(text: Text, pos: nat, codepoint: nat)
    requires IsScalar(codepoint) && Shows(text, pos, Encode(codepoint))
    ensures CharValue(text, pos, |Encode(codepoint)|) == codepoint
  {
    var octets := Encode(codepoint);
    assert Peek(text, pos + 0) == octets[0];
    if |octets| > 1 {
      EncodedLength(text, pos, codepoint);
      ValueDigits(text, pos);
      CodepointDigits(codepoint);
      assert Peek(text, pos + 1) == octets[1];
      if |octets| == 3 {
        assert Peek(text, pos + 2) == octets[2];
      } else if |octets| == 4 {
        assert Peek(text, pos + 2) == octets[2];
        assert Peek(text, pos + 3) == octets[3];
      }
    }
  }

  /** Every scalar value is read back from its encoding. */
  lemma EncodeThenDecode(text: Text, pos: nat, codepoint: nat)
    requires IsScalar(codepoint) && At(text, pos, Encode(codepoint))
    ensures CharLength(text, pos) == |Encode(codepoint)|
    ensures CharValue(text, pos, CharLength(text, pos)) == codepoint
  {
    AtShows(text, pos, Encode(codepoint));
    EncodedLength(text, pos, codepoint);
    EncodedValue(text, pos, codepoint);
  }

  // ---------------------------------------------------------------------------
  // The range-table decoder
  // ---------------------------------------------------------------------------

  /** UTF8::GetRange: lead types as numbers, tail ranges as bits 0x10, 0x20 and 0x40. */
  function GetRange(c: Byte): bv8 {
    if c <= 0x7F then 0
    else if c <= 0x8F then 0x10
    else if c <= 0x9F then 0x40
    else if c <= 0xBF then 0x20
    else if c <= 0xC1 then 8
    else if c <= 0xDF then 2
    else if c == 0xE0 then 10
    else if c <= 0xEC then 3
    else if c == 0xED then 4
    else if c <= 0xEF then 3
    else if c == 0xF0 then 11
    else if c <= 0xF3 then 6
    else if c == 0xF4 then 5
    else 8
  }

  predicate InRange(c: Byte, mask: bv8) {
    GetRange(c) & mask != 0
  }

  lemma RangeMasks(c: Byte)
    ensures InRange(c, 0x70) <==> IsTail(c)
    ensures InRange(c, 0x50) <==> 0x80 <= c <= 0x9F
    ensures InRange(c, 0x10) <==> 0x80 <= c <= 0x8F
    ensures InRange(c, 0x20) <==> 0xA0 <= c <= 0xBF
    ensures InRange(c, 0x60) <==> 0x90 <= c <= 0xBF
  {}

  /** The tests the decoder makes for each lead type decide the production. */
  lemma LengthByLead(text: Text, pos: nat)
    ensures var c0, c1, c2, c3 := Peek(text, pos), Peek(text, pos + 1), Peek(text, pos + 2), Peek(text, pos + 3);
      var lead := GetRange(c0);
      CharLength(text, pos) ==
      if c0 < 0x80 then 1
      else if lead == 2 then if InRange(c1, 0x70) then 2 else 0
      else if lead == 3 then if InRange(c1, 0x70) && InRange(c2, 0x70) then 3 else 0
      else if lead == 4 then if InRange(c1, 0x50) && InRange(c2, 0x70) then 3 else 0
      else if lead == 10 then if InRange(c1, 0x20) && InRange(c2, 0x70) then 3 else 0
      else if lead == 5 then if InRange(c1, 0x10) && InRange(c2, 0x70) && InRange(c3, 0x70) then 4 else 0
      else if lead == 6 then if InRange(c1, 0x70) && InRange(c2, 0x70) && InRange(c3, 0x70) then 4 else 0
      else if lead == 11 then if InRange(c1, 0x60) && InRange(c2, 0x70) && InRange(c3, 0x70) then 4 else 0
      else 0
  {
    hide GetRange, InRange;
    LeadTypes(Peek(text, pos));
    RangeMasks(Peek(text, pos + 1));
    RangeMasks(Peek(text, pos + 2));
    RangeMasks(Peek(text, pos + 3));
  }

  /** The lead bits the decoder keeps are the ones the value uses. */
  lemma LeadBits(c: Byte)
    ensures GetRange(c) == 2 ==> c % 0x40 == c % 0x20
    ensures GetRange(c) == 3 ==> c % 0x20 == c % 0x10
    ensures GetRange(c) == 6 ==> c % 4 == c % 8
    ensures GetRange(c) == 10 ==> c % 0x10 == 0
    ensures GetRange(c) == 11 ==> c % 8 == 0
  {
    LeadTypes(c);
  }

  lemma LeadTypes(c: Byte)
    ensures GetRange(c) == 2 <==> 0xC2 <= c <= 0xDF
    ensures GetRange(c) == 3 <==> 0xE1 <= c <= 0xEC || 0xEE <= c <= 0xEF
    ensures GetRange(c) == 4 <==> c == 0xED
    ensures GetRange(c) == 5 <==> c == 0xF4
    ensures GetRange(c) == 6 <==> 0xF1 <= c <= 0xF3
    ensures GetRange(c) == 10 <==> c == 0xE0
    ensures GetRange(c) == 11 <==> c == 0xF0
  {}

  /** One COPY and TRANS step of the decoder. */
  method TakeTail(text: Text, pos: nat, mask: bv8, codepoint: nat, ok: bool) returns (next: nat, updated: nat, stillOk: bool)
    ensures next == pos + 1
    ensures updated == codepoint * 0x40 + Peek(text, pos) % 0x40
    ensures stillOk <==> ok && InRange(Peek(text, pos), mask)
  {
    var c := Peek(text, pos);
    next, updated, stillOk := pos + 1, codepoint * 0x40 + c % 0x40, ok && InRange(c, mask);
  }

  /** UTF8::Decode accepts exactly the characters of RFC 3629 and computes their value. */
  method Decode(text: Text, start: nat) returns (ok: bool, codepoint: nat, pos: nat)
    ensures ok <==> CharLength(text, start) > 0
    ensures ok ==> codepoint == CharValue(text, start, CharLength(text, start))
    ensures ok ==> pos == start + CharLength(text, start)
  {
    hide GetRange, InRange, CharLength;
    LengthByLead(text, start);
    var c := Peek(text, start);
    pos := start + 1;
    if c < 0x80 {
      return true, c, pos;
    }
    LeadBits(c);
    var lead := GetRange(c);
    ok := true;
    if lead == 2 {
      codepoint := c % 0x40;
      pos, codepoint, ok := TakeTail(text, pos, 0x70, codepoint, ok);
    } else if lead == 3 {
      codepoint := c % 0x20;
      pos, codepoint, ok := TakeTail(text, pos, 0x70, codepoint, ok);
      pos, codepoint, ok := TakeTail(text, pos, 0x70, codepoint, ok);
    } else if lead == 4 {
      codepoint := c % 0x10;
      pos, codepoint, ok := TakeTail(text, pos, 0x50, codepoint, ok);
      pos, codepoint, ok := TakeTail(text, pos, 0x70, codepoint, ok);
    } else if lead == 5 {
      codepoint := c % 8;
      pos, codepoint, ok := TakeTail(text, pos, 0x10, codepoint, ok);
      pos, codepoint, ok := TakeTail(text, pos, 0x70, codepoint, ok);
      pos, codepoint, ok := TakeTail(text, pos, 0x70, codepoint, ok);
    } else if lead == 6 {
      codepoint := c % 4;
      pos, codepoint, ok := TakeTail(text, pos, 0x70, codepoint, ok);
      pos, codepoint, ok := TakeTail(text, pos, 0x70, codepoint, ok);
      pos, codepoint, ok := TakeTail(text, pos, 0x70, codepoint, ok);
    } else if lead == 10 {
      codepoint := 0;
      pos, codepoint, ok := TakeTail(text, pos, 0x20, codepoint, ok);
      pos, codepoint, ok := TakeTail(text, pos, 0x70, codepoint, ok);
    } else if lead == 11 {
      codepoint := 0;
      pos, codepoint, ok := TakeTail(text, pos, 0x60, codepoint, ok);
      pos, codepoint, ok := TakeTail(text, pos, 0x70, codepoint, ok);
      pos, codepoint, ok := TakeTail(text, pos, 0x70, codepoint, ok);
    } else {
      ok, codepoint := false, 0;
    }
  }

  /** One COPY and TRANS step of the validator. */
  method CopyTail(text: Text, pos: nat, mask: bv8, copied: Text, ok: bool) returns (next: nat, more: Text, stillOk: bool)
    ensures next == pos + 1
    ensures more == copied + [Peek(text, pos)]
    ensures stillOk <==> ok && InRange(Peek(text, pos), mask)
  {
    var c := Peek(text, pos);
    next, more, stillOk := pos + 1, copied + [c], ok && InRange(c, mask);
  }

  /** UTF8::Validate accepts exactly the same characters and copies the octets it takes. */
  method Validate(text: Text, start: nat) returns (ok: bool, copied: Text, pos: nat)
    ensures ok <==> CharLength(text, start) > 0
    ensures ok ==> |copied| == CharLength(text, start)
    ensures pos == start + |copied| && Shows(text, start, copied)
  {
    hide GetRange, InRange, CharLength;
    LengthByLead(text, start);
    var c := Peek(text, start);
    pos, copied, ok := start + 1, [c], true;
    if c < 0x80 {
      return;
    }
    var lead := GetRange(c);
    if lead == 2 {
      pos, copied, ok := CopyTail(text, pos, 0x70, copied, ok);
    } else if lead == 3 || lead == 4 || lead == 10 {
      pos, copied, ok := CopyTail(text, pos, if lead == 3 then 0x70 else if lead == 4 then 0x50 else 0x20, copied, ok);
      pos, copied, ok := CopyTail(text, pos, 0x70, copied, ok);
    } else if lead == 5 || lead == 6 || lead == 11 {
      pos, copied, ok := CopyTail(text, pos, if lead == 5 then 0x10 else if lead == 6 then 0x70 else 0x60, copied, ok);
      pos, copied, ok := CopyTail(text, pos, 0x70, copied, ok);
      pos, copied, ok := CopyTail(text, pos, 0x70, copied, ok);
    } else {
      ok := false;
    }
  }
}
