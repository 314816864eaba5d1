/** Strings written for an ASCII target: every non-ASCII character becomes unicode escapes. */
module AsciiStrings {
  import opened Bytes
  import opened Events
  import opened Printing
  import opened StringLexer
  import opened Utf8
  import RoundTrip

  /** Four hexadecimal digits. */
  function Hex4(n: nat): Text
    requires n < 0x1_0000
  {
    [HexDigit(n / 0x1000), HexDigit(n / 0x100 % 0x10), HexDigit(n / 0x10 % 0x10), HexDigit(n % 0x10)]
  }

  function Lead(codepoint: nat): nat {
    (codepoint - 0x1_0000) / 0x400 + 0xD800
  }

  function Trail(codepoint: nat): nat {
    (codepoint - 0x1_0000) % 0x400 + 0xDC00
  }

  /** One escape, or a surrogate pair of them. */
  function CodepointEscape(codepoint: nat): (t: Text)
    requires IsScalar(codepoint)
    ensures |t| <= 12
  {
    if codepoint <= 0xFFFF then [BACKSLASH, LOWER_U] + Hex4(codepoint)
    else [BACKSLASH, LOWER_U] + Hex4(Lead(codepoint)) + [BACKSLASH, LOWER_U] + Hex4(Trail(codepoint))
  }

  lemma ScalarValue(bytes: Text, pos: nat)
    requires pos < |bytes| && CharLength(bytes, pos) > 0
    ensures IsScalar(CharValue(bytes, pos, CharLength(bytes, pos)))
    ensures pos + CharLength(bytes, pos) <= |bytes|
  {
    DecodeThenEncode(bytes, pos);
  }

  /** The body of the literal for the characters of `bytes` from `pos` on. */
  function AsciiText(bytes: Text, pos: nat): (t: Text)
    requires IsValid(bytes, pos)
    decreases |bytes| - pos
  {
    if pos >= |bytes| then []
    else if bytes[pos] < 0x80 then Escaped(bytes[pos]) + AsciiText(bytes, pos + 1)
    else
      var n := CharLength(bytes, pos);
      ScalarValue(bytes, pos);
      CodepointEscape(CharValue(bytes, pos, n)) + AsciiText(bytes, pos + n)
  }

  lemma IsValidNext(bytes: Text, pos: nat)
    requires IsValid(bytes, pos) && pos < |bytes| && bytes[pos] < 0x80
    ensures CharLength(bytes, pos) == 1 && IsValid(bytes, pos + 1)
  {}

  predicate AllAscii(text: Text) {
    forall k :: 0 <= k < |text| ==> text[k] < 0x80
  }

  /** Only ASCII is written, at most twelve bytes for each byte of the string. */
  lemma {:induction false} AsciiOnly(bytes: Text, pos: nat)
    requires IsValid(bytes, pos) && pos <= |bytes|
    ensures AllAscii(AsciiText(bytes, pos))
    ensures |AsciiText(bytes, pos)| <= 12 * (|bytes| - pos)
    decreases |bytes| - pos
  {
    hide CharLength, CharValue, Escaped, CodepointEscape;
    if pos < |bytes| {
      if bytes[pos] < 0x80 {
        EscapedAscii(bytes[pos]);
        IsValidNext(bytes, pos);
        AsciiOnly(bytes, pos + 1);
      } else {
        ScalarValue(bytes, pos);
        var codepoint := CharValue(bytes, pos, CharLength(bytes, pos));
        EscapeAscii(codepoint);
        AsciiOnly(bytes, pos + CharLength(bytes, pos));
      }
    }
  }

  lemma EscapedAscii(c: Byte)
    requires c < 0x80
    ensures AllAscii(Escaped(c))
  {}

  lemma EscapeAscii(codepoint: nat)
    requires IsScalar(codepoint)
    ensures AllAscii(CodepointEscape(codepoint))
  {}

  // ---------------------------------------------------------------------------
  // Reading the escapes back
  // ---------------------------------------------------------------------------

  lemma HexDigitValue(d: nat)
    requires d < 0x10
    ensures HexValue(HexDigit(d)) == d
  {}

  lemma Hex4Scan(text: Text, pos: nat, n: nat, escape: nat)
    requires n < 0x1_0000 && At(text, pos, Hex4(n))
    ensures Hex4At(text, pos, escape) == Found(n, pos + 4)
  {
    hide HexValue, HexDigit;
    var h := Hex4(n);
    AtPeek(text, pos, h, 0);
    AtPeek(text, pos, h, 1);
    AtPeek(text, pos, h, 2);
    AtPeek(text, pos, h, 3);
    HexDigitValue(n / 0x1000);
    HexDigitValue(n / 0x100 % 0x10);
    HexDigitValue(n / 0x10 % 0x10);
    HexDigitValue(n % 0x10);
    assert HexRun(text, pos, 1) == n / 0x1000;
    assert HexRun(text, pos, 2) == n / 0x100;
    assert HexRun(text, pos, 3) == n / 0x10;
    assert HexRun(text, pos, 4) == n;
  }

  /** An escape, or a pair, is read back as the encoding of its code point. */
  lemma CodepointScan(text: Text, pos: nat, codepoint: nat)
    requires IsScalar(codepoint) && At(text, pos, CodepointEscape(codepoint))
    ensures EscapeAt(text, pos) == Found(Encode(codepoint), pos + |CodepointEscape(codepoint)|)
    ensures Peek(text, pos) == BACKSLASH
  {
    hide Hex4At, Encode, HexDigit;
    var u := [BACKSLASH, LOWER_U];
    if codepoint <= 0xFFFF {
      AtSplit(text, pos, u, Hex4(codepoint));
      AtPeek(text, pos, u, 0);
      AtPeek(text, pos, u, 1);
      Hex4Scan(text, pos + 2, codepoint, pos);
    } else {
      var lead, trail := Hex4(Lead(codepoint)), Hex4(Trail(codepoint));
      assert CodepointEscape(codepoint) == u + (lead + (u + trail));
      AtSplit(text, pos, u, lead + (u + trail));
      AtSplit(text, pos + 2, lead, u + trail);
      AtSplit(text, pos + 6, u, trail);
      AtPeek(text, pos, u, 0);
      AtPeek(text, pos, u, 1);
      AtPeek(text, pos + 6, u, 0);
      AtPeek(text, pos + 6, u, 1);
      Hex4Scan(text, pos + 2, Lead(codepoint), pos);
      Hex4Scan(text, pos + 8, Trail(codepoint), pos);
      SurrogatePair(codepoint);
    }
  }

  lemma SurrogatePair(codepoint: nat)
    requires 0x1_0000 <= codepoint <= 0x10FFFF
    ensures 0xD800 <= Lead(codepoint) <= 0xDBFF && 0xDC00 <= Trail(codepoint) <= 0xDFFF
    ensures (Lead(codepoint) - 0xD800) * 0x400 + (Trail(codepoint) - 0xDC00) + 0x1_0000 == codepoint
  {}

  /** The ASCII form of a valid string is read back as the same bytes. */
  lemma {:induction false} AsciiRoundTrip(text: Text, start: nat, bytes: Text, pos: nat)
    requires IsValid(bytes, pos) && pos <= |bytes|
    requires At(text, start, AsciiText(bytes, pos) + [QUOTE])
    ensures CharsAt(text, start) == Found(bytes[pos..], start + |AsciiText(bytes, pos)| + 1)
    decreases |bytes| - pos
  {
    hide CharsAt, CharLength, CharValue, Escaped, CodepointEscape, Encode, AsciiText, IsValid;
    Nothing(bytes, |bytes|);
    if pos == |bytes| {
      AtPeek(text, start, AsciiText(bytes, pos) + [QUOTE], 0);
      RoundTrip.ClosingQuote(text, start);
      assert bytes[pos..] == [];
    } else if bytes[pos] < 0x80 {
      NarrowParts(bytes, pos);
      var head, tail := Escaped(bytes[pos]), AsciiText(bytes, pos + 1) + [QUOTE];
      assert AsciiText(bytes, pos) + [QUOTE] == head + tail;
      AtSplit(text, start, head, tail);
      AsciiRoundTrip(text, start + |head|, bytes, pos + 1);
      NarrowStep(text, start, bytes, pos);
    } else {
      WideParts(bytes, pos);
      var n := CharLength(bytes, pos);
      var head, tail := CodepointEscape(CharValue(bytes, pos, n)), AsciiText(bytes, pos + n) + [QUOTE];
      assert AsciiText(bytes, pos) + [QUOTE] == head + tail;
      AtSplit(text, start, head, tail);
      AsciiRoundTrip(text, start + |head|, bytes, pos + n);
      WideStep(text, start, bytes, pos, n);
    }
  }

  lemma NarrowStep(text: Text, start: nat, bytes: Text, pos: nat)
    requires pos < |bytes| && bytes[pos] < 0x80 && At(text, start, Escaped(bytes[pos]))
    requires CharsAt(text, start + |Escaped(bytes[pos])|).Found?
      && CharsAt(text, start + |Escaped(bytes[pos])|).value == bytes[pos + 1..]
    ensures CharsAt(text, start) == Found(bytes[pos..], CharsAt(text, start + |Escaped(bytes[pos])|).next)
  {
    hide CharsAt, Escaped;
    RoundTrip.EscapedByte(text, start, bytes[pos]);
    assert [bytes[pos]] + bytes[pos + 1..] == bytes[pos..];
  }

  lemma WideStep(text: Text, start: nat, bytes: Text, pos: nat, n: nat)
    requires n >= 1 && pos + n <= |bytes| && IsScalar(CharValue(bytes, pos, n))
    requires var codepoint := CharValue(bytes, pos, n);
      && At(bytes, pos, Encode(codepoint)) && |Encode(codepoint)| == n
      && At(text, start, CodepointEscape(codepoint))
      && CharsAt(text, start + |CodepointEscape(codepoint)|).Found?
      && CharsAt(text, start + |CodepointEscape(codepoint)|).value == bytes[pos + n..]
    ensures CharsAt(text, start)
      == Found(bytes[pos..], CharsAt(text, start + |CodepointEscape(CharValue(bytes, pos, n))|).next)
  {
    hide CharsAt, CharValue, CodepointEscape, Encode;
    var codepoint := CharValue(bytes, pos, n);
    CodepointScan(text, start, codepoint);
    EscapeRead(text, start);
    SplitAt(bytes, pos, Encode(codepoint));
  }

  lemma NarrowParts(bytes: Text, pos: nat)
    requires pos < |bytes| && bytes[pos] < 0x80 && IsValid(bytes, pos)
    ensures IsValid(bytes, pos + 1) && AsciiText(bytes, pos) == Escaped(bytes[pos]) + AsciiText(bytes, pos + 1)
  {
    hide CharValue, Escaped, CodepointEscape;
    IsValidNext(bytes, pos);
  }

  lemma WideParts(bytes: Text, pos: nat)
    requires pos < |bytes| && bytes[pos] >= 0x80 && IsValid(bytes, pos)
    ensures var n := CharLength(bytes, pos);
      var codepoint := CharValue(bytes, pos, n);
      && n >= 1 && pos + n <= |bytes| && IsValid(bytes, pos + n) && IsScalar(codepoint)
      && AsciiText(bytes, pos) == CodepointEscape(codepoint) + AsciiText(bytes, pos + n)
      && At(bytes, pos, Encode(codepoint)) && |Encode(codepoint)| == n
  {
    hide CharLength, CharValue, Escaped, CodepointEscape, Encode;
    ScalarValue(bytes, pos);
    DecodeThenEncode(bytes, pos);
  }

  lemma SplitAt(bytes: Text, pos: nat, piece: Text)
    requires At(bytes, pos, piece)
    ensures piece + bytes[pos + |piece|..] == bytes[pos..]
  {
    assert bytes[pos..] == bytes[pos..pos + |piece|] + bytes[pos + |piece|..];
  }

  lemma EscapeRead(text: Text, pos: nat)
    requires Peek(text, pos) == BACKSLASH && EscapeAt(text, pos).Found?
    ensures CharsAt(text, pos) == Before(EscapeAt(text, pos).value, CharsAt(text, EscapeAt(text, pos).next))
  {
    hide EscapeAt;
  }

  // ---------------------------------------------------------------------------
  // One character of WriteString
  // ---------------------------------------------------------------------------

  lemma Nothing(bytes: Text, pos: nat)
    requires pos >= |bytes|
    ensures IsValid(bytes, pos) && AsciiText(bytes, pos) == []
  {}

  lemma ManyBytes(bytes: Text, pos: nat)
    requires pos < |bytes| && bytes[pos] >= 0x80 && CharLength(bytes, pos) > 0
    ensures CharLength(bytes, pos) >= 2
  {}

  lemma WideCharacter(done: Text, bytes: Text, pos: nat)
    requires pos < |bytes| && bytes[pos] >= 0x80 && CharLength(bytes, pos) > 0
    ensures IsScalar(CharValue(bytes, pos, CharLength(bytes, pos)))
    ensures IsValid(bytes, pos) <==> IsValid(bytes, pos + CharLength(bytes, pos))
    ensures IsValid(bytes, pos) ==>
      var n := CharLength(bytes, pos);
      done + AsciiText(bytes, pos) == (done + CodepointEscape(CharValue(bytes, pos, n))) + AsciiText(bytes, pos + n)
  {
    hide CharLength, CharValue, CodepointEscape;
    ScalarValue(bytes, pos);
  }

  lemma AsciiCharacter(done: Text, bytes: Text, pos: nat)
    requires pos < |bytes| && bytes[pos] < 0x80
    ensures IsValid(bytes, pos) <==> IsValid(bytes, pos + 1)
    ensures IsValid(bytes, pos) ==> done + AsciiText(bytes, pos) == (done + Escaped(bytes[pos])) + AsciiText(bytes, pos + 1)
  {
    hide CharValue, Escaped, CodepointEscape;
    assert CharLength(bytes, pos) == 1;
  }
}
