/** When the strings the reader delivers are valid UTF-8. */
module ParsedStrings {
  import opened Bytes
  import opened Events
  import opened Grammar
  import opened StringLexer
  import opened Utf8
  import AsciiStrings
  import Printing

  /** A byte of a literal that is copied as it is. */
  predicate IsRaw(c: Byte) {
    c >= 0x20 && c != BACKSLASH && c != QUOTE
  }

  /** The end of the run of copied bytes from `pos` on. */
  function RawEnd(text: Text, pos: nat): (end: nat)
    ensures pos <= end && (pos < end ==> end <= |text|)
    ensures !IsRaw(Peek(text, end))
    decreases |text| - pos
  {
    if IsRaw(Peek(text, pos)) then RawEnd(text, pos + 1) else pos
  }

  /** The bytes of that run. */
  function RawRun(text: Text, pos: nat): Text {
    if pos < RawEnd(text, pos) then text[pos..RawEnd(text, pos)] else []
  }

  /** The escape at the backslash `pos` is a low surrogate that no high surrogate precedes. */
  predicate LoneLow(text: Text, pos: nat) {
    && Peek(text, pos + 1) == LOWER_U && Hex4At(text, pos + 2, pos).Found?
    && 0xDC00 <= Hex4At(text, pos + 2, pos).value <= 0xDFFF
  }

  /** Every run of copied bytes of the literal is valid UTF-8, and no escape of it is a lone low surrogate. */
  predicate WellEncoded(text: Text, pos: nat)
    decreases |text| - pos
  {
    var end := RawEnd(text, pos);
    && IsValid(RawRun(text, pos), 0)
    && (Peek(text, end) == BACKSLASH && EscapeAt(text, end).Found? ==>
          !LoneLow(text, end) && WellEncoded(text, EscapeAt(text, end).next))
  }

  /** No escape of the literal is a lone low surrogate. */
  predicate NoLoneLow(text: Text, pos: nat)
    decreases |text| - pos
  {
    var end := RawEnd(text, pos);
    Peek(text, end) == BACKSLASH && EscapeAt(text, end).Found? ==>
      !LoneLow(text, end) && NoLoneLow(text, EscapeAt(text, end).next)
  }

  // ---------------------------------------------------------------------------
  // One literal
  // ---------------------------------------------------------------------------

  lemma {:induction false} RunScan(text: Text, pos: nat)
    ensures CharsAt(text, pos) == Before(RawRun(text, pos), CharsAt(text, RawEnd(text, pos)))
    decreases |text| - pos
  {
    hide EscapeAt;
    if IsRaw(Peek(text, pos)) {
      RunScan(text, pos + 1);
      assert RawRun(text, pos) == [Peek(text, pos)] + RawRun(text, pos + 1);
      BeforeBefore([Peek(text, pos)], RawRun(text, pos + 1), CharsAt(text, RawEnd(text, pos)));
    } else {
      BeforeNothing(CharsAt(text, pos));
    }
  }

  lemma EncodedHead(codepoint: nat)
    requires codepoint <= 0x10FFFF
    ensures !IsTail(Encode(codepoint)[0])
    ensures IsValid(Encode(codepoint), 0) <==> IsScalar(codepoint)
    ensures forall rest :: !IsScalar(codepoint) ==> !IsValid(Encode(codepoint) + rest, 0)
  {
    var octets := Encode(codepoint);
    if IsScalar(codepoint) {
      assert octets[0..|octets|] == octets;
      EncodeThenDecode(octets, 0, codepoint);
    } else {
      forall rest ensures !IsValid(octets + rest, 0) {
        assert Peek(octets + rest, 0) == 0xED && Peek(octets + rest, 1) >= 0xA0;
      }
      assert octets + [] == octets;
    }
  }

  /** An escape stands for a whole character, unless it is a lone low surrogate. */
  lemma EscapeValue(text: Text, pos: nat)
    requires EscapeAt(text, pos).Found?
    ensures var bytes := EscapeAt(text, pos).value;
      && bytes != [] && !IsTail(bytes[0])
      && (!LoneLow(text, pos) ==> IsValid(bytes, 0))
      && (LoneLow(text, pos) ==> forall rest :: !IsValid(bytes + rest, 0))
  {
    hide Hex4At, Encode, IsValid;
    var e := Peek(text, pos + 1);
    if SimpleEscape(e) != 0 {
      SingleByte(SimpleEscape(e));
    } else {
      var lead := Hex4At(text, pos + 2, pos);
      if lead.value < 0xD800 || lead.value > 0xDBFF {
        EncodedHead(lead.value);
      } else {
        var trail := Hex4At(text, lead.next + 2, pos);
        EncodedHead((lead.value - 0xD800) * 0x400 + (trail.value - 0xDC00) + 0x1_0000);
      }
    }
  }

  lemma SingleByte(c: Byte)
    requires c <= 0x7F
    ensures IsValid([c], 0)
  {}

  /** The value of a literal, taken apart at its first escape. */
  lemma LiteralParts(text: Text, pos: nat)
    requires CharsAt(text, pos).Found?
    ensures var end := RawEnd(text, pos);
      if Peek(text, end) == BACKSLASH then
        && EscapeAt(text, end).Found? && CharsAt(text, EscapeAt(text, end).next).Found?
        && CharsAt(text, pos).value
          == RawRun(text, pos) + (EscapeAt(text, end).value + CharsAt(text, EscapeAt(text, end).next).value)
      else
        Peek(text, end) == QUOTE && CharsAt(text, pos).value == RawRun(text, pos) + []
  {
    hide EscapeAt;
    RunScan(text, pos);
  }

  /**
   * What a literal stands for is valid UTF-8 exactly when its copied runs are and no escape is a lone low surrogate:
   * the default parse flags check neither.
   */
  lemma {:induction false} LiteralIsValid(text: Text, pos: nat)
    requires CharsAt(text, pos).Found?
    ensures IsValid(CharsAt(text, pos).value, 0) <==> WellEncoded(text, pos)
    decreases |text| - pos
  {
    hide CharsAt, EscapeAt, RawEnd, RawRun, IsValid, LoneLow;
    LiteralParts(text, pos);
    var end := RawEnd(text, pos);
    var run := RawRun(text, pos);
    if Peek(text, end) == BACKSLASH {
      var escape := EscapeAt(text, end);
      var rest := CharsAt(text, escape.next).value;
      EscapeValue(text, end);
      ValidApart(run, escape.value + rest, 0);
      LiteralIsValid(text, escape.next);
      if !LoneLow(text, end) {
        ValidPrefix(escape.value, rest, 0);
      }
    } else {
      assert run + [] == run;
    }
  }

  // ---------------------------------------------------------------------------
  // A text that is valid UTF-8
  // ---------------------------------------------------------------------------

  /** Valid text stays valid behind ASCII bytes. */
  lemma {:induction false} ValidBehind(text: Text, pos: nat, n: nat)
    requires IsValid(text, pos) && pos + n <= |text| && forall k :: pos <= k < pos + n ==> text[k] <= 0x7F
    ensures IsValid(text, pos + n)
    decreases n
  {
    if n > 0 {
      assert CharLength(text, pos) == 1;
      ValidBehind(text, pos + 1, n - 1);
    }
  }

  lemma HexIsAscii(text: Text, pos: nat, escape: nat)
    requires Hex4At(text, pos, escape).Found?
    ensures forall k :: pos <= k < pos + 4 ==> Peek(text, k) <= 0x7F
  {
    forall k | pos <= k < pos + 4
      ensures Peek(text, k) <= 0x7F
    {
      assert HexValue(Peek(text, k)) >= 0;
    }
  }

  lemma EscapeIsAscii(text: Text, pos: nat)
    requires Peek(text, pos) == BACKSLASH && EscapeAt(text, pos).Found?
    ensures pos <= EscapeAt(text, pos).next <= |text|
    ensures forall k :: pos <= k < EscapeAt(text, pos).next ==> text[k] <= 0x7F
  {
    hide Hex4At, Encode;
    if SimpleEscape(Peek(text, pos + 1)) == 0 {
      var lead := Hex4At(text, pos + 2, pos);
      HexIsAscii(text, pos + 2, pos);
      assert forall k :: pos + 2 <= k < pos + 6 ==> text[k] == Peek(text, k);
      if 0xD800 <= lead.value <= 0xDBFF {
        HexIsAscii(text, pos + 8, pos);
        assert forall k :: pos + 8 <= k < pos + 12 ==> text[k] == Peek(text, k);
      }
    }
  }

  /** In valid text a run of copied bytes is valid, and so is what follows it. */
  lemma RunIsValid(text: Text, pos: nat)
    requires pos <= |text| && IsValid(text, pos)
    ensures IsValid(RawRun(text, pos), 0) && IsValid(text, RawEnd(text, pos))
  {
    hide IsValid, CharLength;
    var end := RawEnd(text, pos);
    var run := RawRun(text, pos);
    assert text[..pos] + text[pos..] == text && text[..end] + text[end..] == text;
    assert text[pos..] == run + text[end..];
    ValidShift(text[..pos], text[pos..], 0);
    ValidShift(text[..end], text[end..], 0);
    assert Peek(text[end..], 0) == Peek(text, end);
    ValidApart(run, text[end..], 0);
  }

  /** In text that is valid UTF-8 itself, only lone low surrogates make a string invalid. */
  lemma LiteralOfValidText(text: Text, pos: nat)
    requires pos <= |text| && IsValid(text, pos) && CharsAt(text, pos).Found?
    ensures IsValid(CharsAt(text, pos).value, 0) <==> NoLoneLow(text, pos)
    decreases |text| - pos
  {
    LiteralIsValid(text, pos);
    WellEncodedIfValid(text, pos);
  }

  lemma {:induction false} WellEncodedIfValid(text: Text, pos: nat)
    requires pos <= |text| && IsValid(text, pos)
    ensures WellEncoded(text, pos) <==> NoLoneLow(text, pos)
    decreases |text| - pos
  {
    hide EscapeAt, RawEnd, RawRun, IsValid, LoneLow;
    RunIsValid(text, pos);
    var end := RawEnd(text, pos);
    if Peek(text, end) == BACKSLASH && EscapeAt(text, end).Found? {
      EscapeIsAscii(text, end);
      ValidBehind(text, end, EscapeAt(text, end).next - end);
      WellEncodedIfValid(text, EscapeAt(text, end).next);
    }
  }

  // ---------------------------------------------------------------------------
  // The events of a document
  // ---------------------------------------------------------------------------

  /** The literal whose contents start at `pos` stands for `bytes`. */
  predicate IsLiteral(text: Text, pos: nat, bytes: Text) {
    pos > 0 && Peek(text, pos - 1) == QUOTE && CharsAt(text, pos).Found? && CharsAt(text, pos).value == bytes
  }

  ghost predicate FromText(text: Text, event: Event) {
    event.String? || event.Key? ==> exists pos: nat :: IsLiteral(text, pos, event.bytes)
  }

  ghost predicate AllFromText(text: Text, events: seq<Event>) {
    forall i :: 0 <= i < |events| ==> FromText(text, events[i])
  }

  lemma ScalarFromText(text: Text, pos: nat)
    requires ScalarAt(text, pos).Found?
    ensures FromText(text, ScalarAt(text, pos).value)
  {
    hide CharsAt;
    if ScalarAt(text, pos).value.String? {
      assert Peek(text, pos) == QUOTE;
      assert IsLiteral(text, pos + 1, ScalarAt(text, pos).value.bytes);
    }
  }

  lemma {:induction false} ValueFromText(text: Text, pos: nat)
    ensures AllFromText(text, ValueAt(text, pos).events)
    decreases |text| - pos, 2
  {
    if Peek(text, pos) == LBRACE || Peek(text, pos) == LBRACKET {
      ContainerParts(text, pos);
      hide ValueAt, MembersAt, ElementsAt;
      var first := SkipSpace(text, pos + 1);
      if Peek(text, pos) == LBRACE && Peek(text, first) != RBRACE {
        MembersFromText(text, first, 0);
      } else if Peek(text, pos) == LBRACKET && Peek(text, first) != RBRACKET {
        ElementsFromText(text, first, 0);
      }
    } else {
      ScalarParts(text, pos);
      hide ValueAt, ScalarAt;
      if ScalarAt(text, pos).Found? {
        ScalarFromText(text, pos);
      }
    }
  }

  lemma {:induction false} MembersFromText(text: Text, pos: nat, count: nat)
    ensures AllFromText(text, MembersAt(text, pos, count).events)
    decreases |text| - pos, 1
  {
    MembersParts(text, pos, count);
    hide MembersAt, MemberRest, CharsAt;
    var name := CharsAt(text, pos + 1);
    if Peek(text, pos) == QUOTE && name.Found? {
      assert IsLiteral(text, pos + 1, name.value);
      MemberRestFromText(text, SkipSpace(text, name.next), count);
    }
  }

  lemma {:induction false} MemberRestFromText(text: Text, colon: nat, count: nat)
    ensures AllFromText(text, MemberRest(text, colon, count).events)
    decreases |text| - colon, 1
  {
    MemberRestParts(text, colon, count);
    hide MemberRest, MemberEnd, ValueAt;
    if Peek(text, colon) == COLON {
      var value := ValueAt(text, SkipSpace(text, colon + 1));
      ValueFromText(text, SkipSpace(text, colon + 1));
      if value.outcome.Accepted? {
        MemberEndFromText(text, SkipSpace(text, value.outcome.pos), count);
      }
    }
  }

  lemma {:induction false} MemberEndFromText(text: Text, end: nat, count: nat)
    ensures AllFromText(text, MemberEnd(text, end, count).events)
    decreases |text| - end, 1
  {
    MemberEndParts(text, end, count);
    hide MemberEnd, MembersAt;
    if Peek(text, end) == COMMA {
      MembersFromText(text, SkipSpace(text, end + 1), count + 1);
    }
  }

  lemma {:induction false} ElementsFromText(text: Text, pos: nat, count: nat)
    ensures AllFromText(text, ElementsAt(text, pos, count).events)
    decreases |text| - pos, 3
  {
    ElementsParts(text, pos, count);
    hide ElementsAt, ElementEnd, ValueAt;
    ValueFromText(text, pos);
    var value := ValueAt(text, pos);
    if value.outcome.Accepted? {
      ElementEndFromText(text, SkipSpace(text, value.outcome.pos), count);
    }
  }

  lemma {:induction false} ElementEndFromText(text: Text, end: nat, count: nat)
    ensures AllFromText(text, ElementEnd(text, end, count).events)
    decreases |text| - end, 1
  {
    ElementEndParts(text, end, count);
    hide ElementEnd, ElementsAt;
    if Peek(text, end) == COMMA {
      ElementsFromText(text, SkipSpace(text, end + 1), count + 1);
    }
  }

  lemma QuoteIsBoundary(text: Text, pos: nat)
    requires IsValid(text, 0) && pos > 0 && Peek(text, pos - 1) == QUOTE
    ensures pos <= |text| && IsValid(text, pos)
  {
    var front, rest := text[..pos - 1], text[pos - 1..];
    assert front + rest == text;
    ValidApart(front, rest, 0);
    ValidShift(front, rest, 0);
    ValidBehind(text, pos - 1, 1);
  }

  /**
   * Every string and name delivered while a text is parsed comes from a literal and is valid UTF-8 exactly when that is
   * well encoded; if the text as a whole is valid UTF-8, exactly when no escape in it is a lone low surrogate.
   */
  lemma EventIsValid(text: Text, i: nat) returns (pos: nat)
    requires i < |DocumentAt(text).events|
    ensures var event := DocumentAt(text).events[i];
      event.String? || event.Key? ==>
        && IsLiteral(text, pos, event.bytes)
        && (IsValid(event.bytes, 0) <==> WellEncoded(text, pos))
        && (IsValid(text, 0) ==> (IsValid(event.bytes, 0) <==> NoLoneLow(text, pos)))
  {
    hide ValueAt, IsValid, CharsAt, WellEncoded, NoLoneLow;
    ValueFromText(text, SkipSpace(text, 0));
    var event := DocumentAt(text).events[i];
    pos := 0;
    if event.String? || event.Key? {
      assert FromText(text, event);
      pos :| IsLiteral(text, pos, event.bytes);
      LiteralIsValid(text, pos);
      if IsValid(text, 0) {
        QuoteIsBoundary(text, pos);
        LiteralOfValidText(text, pos);
      }
    }
  }

  // ---------------------------------------------------------------------------
  // Accepted texts whose strings are not UTF-8
  // ---------------------------------------------------------------------------

  /** A document that is one literal. */
  lemma LiteralDocument(text: Text)
    requires Peek(text, 0) == QUOTE && CharsAt(text, 1).Found? && CharsAt(text, 1).next == |text|
    ensures DocumentAt(text) == Trace([String(CharsAt(text, 1).value)], Accepted(|text|))
  {
    hide CharsAt;
    assert SkipSpace(text, 0) == 0;
    assert ScalarAt(text, 0) == Found(String(CharsAt(text, 1).value), |text|);
    ScalarParts(text, 0);
    assert SkipSpace(text, |text|) == |text|;
  }

  /** For every low surrogate, the document that is its escape alone is accepted, and its string is not UTF-8. */
  lemma LoneLowSurrogate(n: nat)
    requires 0xDC00 <= n <= 0xDFFF
    ensures DocumentAt([QUOTE, BACKSLASH, LOWER_U] + AsciiStrings.Hex4(n) + [QUOTE]) == Trace([String(Encode(n))], Accepted(8))
    ensures !IsValid(Encode(n), 0)
  {
    hide Hex4At, Printing.HexDigit, Encode, DocumentAt;
    var text := [QUOTE, BACKSLASH, LOWER_U] + AsciiStrings.Hex4(n) + [QUOTE];
    assert text[3..7] == AsciiStrings.Hex4(n);
    AsciiStrings.Hex4Scan(text, 3, n, 1);
    assert EscapeAt(text, 1) == Found(Encode(n), 7);
    assert CharsAt(text, 7) == Found([], 8);
    assert Encode(n) + [] == Encode(n);
    assert CharsAt(text, 1) == Found(Encode(n), 8);
    LiteralDocument(text);
    EncodedHead(n);
  }

  /** A byte that no UTF-8 text holds is copied. */
  lemma RawByte()
    ensures DocumentAt([QUOTE, 0xFF, QUOTE]) == Trace([String([0xFF])], Accepted(3))
    ensures !IsValid([0xFF], 0)
  {
    hide DocumentAt;
    var text: Text := [QUOTE, 0xFF, QUOTE];
    assert CharsAt(text, 2) == Found([], 3);
    assert CharsAt(text, 1) == Before([text[1]], Found([], 3));
    assert [text[1]] + [] == [0xFF];
    LiteralDocument(text);
  }
}
