/** String literals as section 7 of RFC 8259 spells them, against what the reader makes of them. */
module Spellings {
  import opened Bytes
  import opened Events
  import opened Grammar
  import opened StringLexer
  import opened Utf8
  import AsciiStrings
  import ParsedStrings
  import Printing
  import RoundTrip

  // ---------------------------------------------------------------------------
  // RFC 8259, section 7
  // ---------------------------------------------------------------------------

  /** The two-character escapes: `\"` `\\` `\/` `\b` `\f` `\n` `\r` `\t`. */
  const SHORT_ESCAPES: map<Byte, Byte> :=
    map[0x22 := 0x22, 0x5C := 0x5C, 0x2F := 0x2F, 0x62 := 0x08, 0x66 := 0x0C, 0x6E := 0x0A, 0x72 := 0x0D, 0x74 := 0x09]

  /** `0123456789abcdef` */
  const LOWER_DIGITS: Text :=
    [0x30, 0x31, 0x32, 0x33, 0x34, 0x35, 0x36, 0x37, 0x38, 0x39, 0x61, 0x62, 0x63, 0x64, 0x65, 0x66]

  /** `0123456789ABCDEF` */
  const UPPER_DIGITS: Text :=
    [0x30, 0x31, 0x32, 0x33, 0x34, 0x35, 0x36, 0x37, 0x38, 0x39, 0x41, 0x42, 0x43, 0x44, 0x45, 0x46]

  predicate SpellsDigit(c: Byte, d: nat) {
    d < 0x10 && (c == LOWER_DIGITS[d] || c == UPPER_DIGITS[d])
  }

  /** Hexadecimal digits of either case, the most significant first. */
  predicate SpellsHex(t: Text, n: nat)
    decreases |t|
  {
    if t == [] then n == 0
    else SpellsDigit(t[|t| - 1], n % 0x10) && SpellsHex(t[..|t| - 1], n / 0x10)
  }

  /** A backslash, `u` and the four digits of `n`. */
  predicate SpellsUnit(t: Text, n: nat) {
    |t| == 6 && t[0] == 0x5C && t[1] == 0x75 && SpellsHex(t[2..], n)
  }

  predicate HighSurrogate(n: nat) {
    0xD800 <= n <= 0xDBFF
  }

  /** One character of a literal, and the bytes it stands for. */
  ghost predicate SpellsOne(t: Text, b: Text) {
    || (|t| == 1 && b == t && t[0] >= 0x20 && t[0] != 0x22 && t[0] != 0x5C)
    || (|t| == 2 && t[0] == 0x5C && t[1] in SHORT_ESCAPES && b == [SHORT_ESCAPES[t[1]]])
    || (exists n: nat :: n <= 0xFFFF && !HighSurrogate(n) && SpellsUnit(t, n) && b == Encode(n))
    || (exists n: nat :: 0x1_0000 <= n <= 0x10FFFF && SpellsPair(t, n) && b == Encode(n))
  }

  /** The UTF-16 surrogate pair of a character beyond the Basic Multilingual Plane. */
  predicate SpellsPair(t: Text, n: nat)
    requires n >= 0x1_0000
  {
    && |t| == 12
    && SpellsUnit(t[..6], 0xD800 + (n - 0x1_0000) / 0x400) && SpellsUnit(t[6..], 0xDC00 + (n - 0x1_0000) % 0x400)
  }

  /** A whole literal between its quotes. */
  ghost predicate Spells(t: Text, b: Text)
    decreases |t|
  {
    if t == [] then b == []
    else exists i: nat, j: nat ::
      0 < i <= |t| && j <= |b| && SpellsOne(t[..i], b[..j]) && Spells(t[i..], b[j..])
  }

  // ---------------------------------------------------------------------------
  // What is spelled is read
  // ---------------------------------------------------------------------------

  lemma DigitMeans(c: Byte, d: nat)
    ensures SpellsDigit(c, d) <==> HexValue(c) == d
  {}

  lemma {:induction false} HexMeans(text: Text, pos: nat, k: nat, n: nat)
    requires pos + k <= |text|
    ensures SpellsHex(text[pos..pos + k], n) <==> AllHex(text, pos, k) && HexRun(text, pos, k) == n
    decreases k
  {
    hide HexValue, SpellsDigit;
    var t := text[pos..pos + k];
    if k > 0 {
      assert t[..k - 1] == text[pos..pos + (k - 1)] && t[k - 1] == Peek(text, pos + k - 1);
      HexMeans(text, pos, k - 1, n / 0x10);
      DigitMeans(t[k - 1], n % 0x10);
      HexDigits(text, pos, k, n);
    }
  }

  lemma HexDigits(text: Text, pos: nat, k: nat, n: nat)
    requires k > 0
    ensures AllHex(text, pos, k) <==> AllHex(text, pos, k - 1) && HexValue(Peek(text, pos + k - 1)) >= 0
    ensures AllHex(text, pos, k) ==>
      (HexRun(text, pos, k) == n <==> HexRun(text, pos, k - 1) == n / 0x10 && HexValue(Peek(text, pos + k - 1)) == n % 0x10)
  {
    hide HexValue;
    if AllHex(text, pos, k) {
      var v, d := HexRun(text, pos, k - 1), HexValue(Peek(text, pos + k - 1));
      assert HexRun(text, pos, k) == 0x10 * v + d;
      assert (0x10 * v + d) / 0x10 == v && (0x10 * v + d) % 0x10 == d;
    }
  }

  /** A spelled code unit, and only one, is what the reader takes for four hexadecimal digits. */
  lemma UnitMeans(text: Text, pos: nat, n: nat, escape: nat)
    requires pos + 6 <= |text|
    ensures SpellsUnit(text[pos..pos + 6], n) <==>
      text[pos] == BACKSLASH && text[pos + 1] == LOWER_U && Hex4At(text, pos + 2, escape) == Found(n, pos + 6)
  {
    hide HexRun, AllHex, SpellsHex;
    var t := text[pos..pos + 6];
    assert t[2..] == text[pos + 2..pos + 2 + 4];
    HexMeans(text, pos + 2, 4, n);
  }

  lemma ShortMeans(c: Byte)
    ensures c in SHORT_ESCAPES <==> SimpleEscape(c) != 0
    ensures c in SHORT_ESCAPES ==> SHORT_ESCAPES[c] == SimpleEscape(c)
  {}

  lemma PairMeans(lead: nat, trail: nat, n: nat)
    requires 0x1_0000 <= n
    ensures HighSurrogate(lead) && 0xDC00 <= trail <= 0xDFFF ==>
      ((lead - 0xD800) * 0x400 + (trail - 0xDC00) + 0x1_0000 == n <==>
         lead == 0xD800 + (n - 0x1_0000) / 0x400 && trail == 0xDC00 + (n - 0x1_0000) % 0x400)
    ensures n <= 0x10FFFF ==> HighSurrogate(0xD800 + (n - 0x1_0000) / 0x400) && 0xDC00 <= 0xDC00 + (n - 0x1_0000) % 0x400 <= 0xDFFF
  {}

  lemma EscapeMeans(text: Text, pos: nat, t: Text, b: Text)
    requires At(text, pos, t) && SpellsOne(t, b) && |t| > 1
    ensures Peek(text, pos) == BACKSLASH && EscapeAt(text, pos) == Found(b, pos + |t|)
  {
    hide Hex4At, Encode, SpellsHex;
    AtPeek(text, pos, t, 0);
    AtPeek(text, pos, t, 1);
    ShortMeans(t[1]);
    if |t| == 6 {
      var n: nat :| n <= 0xFFFF && !HighSurrogate(n) && SpellsUnit(t, n) && b == Encode(n);
      UnitMeans(text, pos, n, pos);
    } else if |t| == 12 {
      var n: nat :| 0x1_0000 <= n <= 0x10FFFF && SpellsPair(t, n) && b == Encode(n);
      assert t[..6] == text[pos..pos + 6] && t[6..] == text[pos + 6..pos + 6 + 6];
      var lead, trail := 0xD800 + (n - 0x1_0000) / 0x400, 0xDC00 + (n - 0x1_0000) % 0x400;
      UnitMeans(text, pos, lead, pos);
      UnitMeans(text, pos + 6, trail, pos);
      PairMeans(lead, trail, n);
    }
  }

  lemma OneMeans(text: Text, pos: nat, t: Text, b: Text)
    requires At(text, pos, t) && SpellsOne(t, b)
    ensures 0 < |t| && CharsAt(text, pos) == Before(b, CharsAt(text, pos + |t|))
  {
    hide EscapeAt, Encode, SpellsHex;
    AtPeek(text, pos, t, 0);
    if |t| > 1 {
      EscapeMeans(text, pos, t, b);
    } else {
      assert t == [t[0]];
    }
  }

  /** A literal that is spelled stands for its bytes, wherever it is. */
  lemma {:induction false} SpelledIsRead(text: Text, pos: nat, t: Text, b: Text)
    requires At(text, pos, t + [QUOTE]) && Spells(t, b)
    ensures CharsAt(text, pos) == Found(b, pos + |t| + 1)
    decreases |t|
  {
    hide CharsAt, SpellsOne;
    if t == [] {
      AtPeek(text, pos, t + [QUOTE], 0);
      LiteralEnd(text, pos);
    } else {
      var i: nat, j: nat :| 0 < i <= |t| && j <= |b| && SpellsOne(t[..i], b[..j]) && Spells(t[i..], b[j..]);
      assert t + [QUOTE] == t[..i] + (t[i..] + [QUOTE]);
      AtSplit(text, pos, t[..i], t[i..] + [QUOTE]);
      OneMeans(text, pos, t[..i], b[..j]);
      SpelledIsRead(text, pos + i, t[i..], b[j..]);
      assert b[..j] + b[j..] == b;
    }
  }

  lemma LiteralEnd(text: Text, pos: nat)
    requires Peek(text, pos) == QUOTE
    ensures CharsAt(text, pos) == Found([], pos + 1)
  {}

  // ---------------------------------------------------------------------------
  // What is read is spelled
  // ---------------------------------------------------------------------------

  lemma EscapeIsSpelled(text: Text, pos: nat)
    requires Peek(text, pos) == BACKSLASH && EscapeAt(text, pos).Found?
    ensures SpellsOne(text[pos..EscapeAt(text, pos).next], EscapeAt(text, pos).value)
  {
    hide Hex4At, Encode, SpellsHex;
    var c, next := Peek(text, pos + 1), EscapeAt(text, pos).next;
    var t := text[pos..next];
    ShortMeans(c);
    if SimpleEscape(c) == 0 {
      var lead := Hex4At(text, pos + 2, pos);
      UnitMeans(text, pos, lead.value, pos);
      if HighSurrogate(lead.value) {
        var trail := Hex4At(text, pos + 8, pos);
        UnitMeans(text, pos + 6, trail.value, pos);
        var n := (lead.value - 0xD800) * 0x400 + (trail.value - 0xDC00) + 0x1_0000;
        PairMeans(lead.value, trail.value, n);
        assert t[..6] == text[pos..pos + 6] && t[6..] == text[pos + 6..pos + 6 + 6];
        assert SpellsPair(t, n);
      } else {
        assert SpellsUnit(t, lead.value);
      }
    }
  }

  /** Every accepted literal is a spelling of what it stands for. */
  lemma {:induction false} ReadIsSpelled(text: Text, pos: nat)
    requires CharsAt(text, pos).Found?
    ensures var r := CharsAt(text, pos);
      text[r.next - 1] == QUOTE && Spells(text[pos..r.next - 1], r.value)
    decreases |text| - pos
  {
    hide EscapeAt, SpellsOne, Encode;
    var c, r := Peek(text, pos), CharsAt(text, pos);
    if c == BACKSLASH {
      var escape := EscapeAt(text, pos);
      EscapeIsSpelled(text, pos);
      ReadIsSpelled(text, escape.next);
      Longer(text, pos, escape.next, r.next - 1, escape.value, CharsAt(text, escape.next).value);
    } else if c == QUOTE {
      assert text[pos..pos] == [];
    } else {
      RawIsSpelled(c);
      ReadIsSpelled(text, pos + 1);
      assert text[pos..pos + 1] == [c];
      Longer(text, pos, pos + 1, r.next - 1, [c], CharsAt(text, pos + 1).value);
    }
  }

  lemma RawIsSpelled(c: Byte)
    requires c >= 0x20 && c != QUOTE && c != BACKSLASH
    ensures SpellsOne([c], [c])
  {}

  lemma Longer(text: Text, pos: nat, mid: nat, end: nat, head: Text, rest: Text)
    requires pos < mid <= end <= |text| && SpellsOne(text[pos..mid], head) && Spells(text[mid..end], rest)
    ensures Spells(text[pos..end], head + rest)
  {
    hide SpellsOne;
    var t, b := text[pos..end], head + rest;
    assert t[..mid - pos] == text[pos..mid] && t[mid - pos..] == text[mid..end];
    assert b[..|head|] == head && b[|head|..] == rest;
  }

  // ---------------------------------------------------------------------------
  // Documents
  // ---------------------------------------------------------------------------

  /**
   * The document that is `t` in quotes is accepted as the string `b` exactly when RFC 8259 spells `b` so. (A low surrogate
   * may be escaped on its own, and raw bytes are not checked.)
   */
  lemma StringDocument(t: Text, b: Text)
    ensures var text := [QUOTE] + t + [QUOTE];
      DocumentAt(text) == Trace([String(b)], Accepted(|text|)) <==> Spells(t, b)
  {
    hide CharsAt, Spells;
    var text := [QUOTE] + t + [QUOTE];
    if Spells(t, b) {
      assert text[1..1 + |t + [QUOTE]|] == t + [QUOTE];
      SpelledIsRead(text, 1, t, b);
      ParsedStrings.LiteralDocument(text);
    }
    if DocumentAt(text) == Trace([String(b)], Accepted(|text|)) {
      var r := CharsAt(text, 1);
      QuotedDocument(text, b);
      ReadIsSpelled(text, 1);
      assert text[1..|text| - 1] == t;
    }
  }

  /** A document that is one string, in quotes at both ends, is one literal. */
  lemma QuotedDocument(text: Text, b: Text)
    requires |text| > 1 && text[0] == QUOTE && text[|text| - 1] == QUOTE
    requires DocumentAt(text) == Trace([String(b)], Accepted(|text|))
    ensures CharsAt(text, 1) == Found(b, |text|)
  {
    hide CharsAt, ScalarAt;
    assert SkipSpace(text, 0) == 0;
    ScalarParts(text, 0);
    QuotedScalar(text);
    var next := CharsAt(text, 1).next;
    assert SkipSpace(text, next) == |text|;
    assert next < |text| ==> IsSpace(Peek(text, |text| - 1));
  }

  lemma QuotedScalar(text: Text)
    requires Peek(text, 0) == QUOTE
    ensures var r := CharsAt(text, 1);
      ScalarAt(text, 0) == if r.Failed? then Failed(r.code, r.offset) else Found(String(r.value), r.next)
  {
    hide CharsAt;
  }

  // ---------------------------------------------------------------------------
  // What the writer spells
  // ---------------------------------------------------------------------------

  lemma {:induction false} EscapedConcat(a: Text, b: Text)
    ensures Printing.EscapedAll(a + b) == Printing.EscapedAll(a) + Printing.EscapedAll(b)
    decreases |a|
  {
    hide Printing.Escaped;
    if a == [] {
      assert a + b == b;
    } else {
      assert (a + b)[0] == a[0] && (a + b)[1..] == a[1..] + b;
      EscapedConcat(a[1..], b);
    }
  }

  lemma {:induction false} RawStays(b: Text)
    requires forall k :: 0 <= k < |b| ==> b[k] >= 0x80
    ensures Printing.EscapedAll(b) == b
    decreases |b|
  {
    if b != [] {
      RawStays(b[1..]);
    }
  }

  lemma OneIsShort(t: Text, b: Text)
    requires SpellsOne(t, b)
    ensures |Printing.EscapedAll(b)| <= |t|
  {
    hide SpellsHex, Printing.HexDigit;
    if |b| == 1 {
      assert b[1..] == [];
      ShortestByte(b[0]);
    } else {
      RawStays(b);
    }
  }

  lemma ShortestByte(c: Byte)
    ensures |Printing.Escaped(c)| <= if c >= 0x20 && c != QUOTE && c != BACKSLASH then 1 else if c in SHORT_ESCAPES.Values then 2 else 6
  {
    assert c == 0x08 || c == 0x09 || c == 0x0A || c == 0x0C || c == 0x0D ==> SHORT_ESCAPES[0x62] == 0x08;
    assert forall x :: x in SHORT_ESCAPES.Values ==>
      x == 0x22 || x == 0x5C || x == 0x2F || x == 0x08 || x == 0x0C || x == 0x0A || x == 0x0D || x == 0x09;
  }

  /** What the writer puts between the quotes spells the string, and no spelling of it is shorter. */
  lemma {:induction false} ShortestSpelling(t: Text, b: Text)
    requires Spells(t, b)
    ensures |Printing.EscapedAll(b)| <= |t|
    decreases |t|
  {
    hide SpellsOne, Printing.EscapedAll;
    if t == [] {
      assert Printing.EscapedAll(b) == [] by { NothingEscaped(); }
    } else {
      var i: nat, j: nat :| 0 < i <= |t| && j <= |b| && SpellsOne(t[..i], b[..j]) && Spells(t[i..], b[j..]);
      OneIsShort(t[..i], b[..j]);
      ShortestSpelling(t[i..], b[j..]);
      EscapedConcat(b[..j], b[j..]);
      assert b[..j] + b[j..] == b;
    }
  }

  lemma NothingEscaped()
    ensures Printing.EscapedAll([]) == []
  {}

  lemma WriterSpells(b: Text)
    ensures Spells(Printing.EscapedAll(b), b)
  {
    hide CharsAt, Spells, Printing.EscapedAll;
    var text := Printing.Quoted(b);
    assert text[0..|text|] == text;
    RoundTrip.QuotedString(text, 0, b);
    ReadIsSpelled(text, 1);
    assert text[1..|text| - 1] == Printing.EscapedAll(b);
  }

  lemma AsciiOne(bytes: Text, pos: nat, t: Text, b: Text)
    requires pos < |bytes| && IsValid(bytes, pos) && At(bytes, pos, b) && SpellsOne(t, b) && AsciiStrings.AllAscii(t)
    ensures b != [] && IsValid(bytes, pos + |b|)
    ensures |AsciiStrings.AsciiText(bytes, pos)| <= |t| + |AsciiStrings.AsciiText(bytes, pos + |b|)|
  {
    hide SpellsHex, Printing.HexDigit, Encode, IsValid, AsciiStrings.AsciiText;
    AtPeek(bytes, pos, b, 0);
    if bytes[pos] < 0x80 {
      AsciiByte(t, b);
      AsciiStrings.NarrowParts(bytes, pos);
      ShortestByte(bytes[pos]);
    } else {
      assert t[0] == 0x5C;
      var n: nat :| n <= 0x10FFFF && b == Encode(n)
        && ((n <= 0xFFFF && |t| == 6) || (n >= 0x1_0000 && |t| == 12) || n < 0x80);
      NoSurrogate(bytes, pos, n);
      EncodeThenDecode(bytes, pos, n);
      AsciiStrings.WideParts(bytes, pos);
      WideSize(n, b);
    }
  }

  /** A spelled byte below 0x80 is spelled alone, in no less than the writer needs for it. */
  lemma AsciiByte(t: Text, b: Text)
    requires SpellsOne(t, b) && b[0] < 0x80
    ensures |b| == 1 && |Printing.Escaped(b[0])| <= |t|
  {
    hide SpellsHex, Printing.HexDigit;
    assert |b| == 1;
    ShortestByte(b[0]);
  }

  lemma WideSize(n: nat, b: Text)
    requires IsScalar(n) && b == Encode(n) && b[0] >= 0x80
    ensures n >= 0x80 && |AsciiStrings.CodepointEscape(n)| == if n <= 0xFFFF then 6 else 12
  {}

  lemma NoSurrogate(bytes: Text, pos: nat, n: nat)
    requires n <= 0x10FFFF && IsValid(bytes, pos) && At(bytes, pos, Encode(n))
    ensures IsScalar(n)
  {
    hide Encode, IsValid, CharLength;
    var front, rest := bytes[..pos], bytes[pos + |Encode(n)|..];
    assert bytes == front + (Encode(n) + rest);
    ValidShift(front, Encode(n) + rest, 0);
    ParsedStrings.EncodedHead(n);
  }

  /** What the writer puts between the quotes for an ASCII target is the shortest spelling that is ASCII throughout. */
  lemma {:induction false} ShortestAsciiSpelling(t: Text, bytes: Text, pos: nat)
    requires pos <= |bytes| && IsValid(bytes, pos) && Spells(t, bytes[pos..]) && AsciiStrings.AllAscii(t)
    ensures |AsciiStrings.AsciiText(bytes, pos)| <= |t|
    decreases |t|
  {
    hide SpellsOne, AsciiStrings.AsciiText, IsValid;
    if t == [] {
      AsciiStrings.Nothing(bytes, pos);
    } else {
      var i: nat, j: nat :|
        0 < i <= |t| && j <= |bytes[pos..]| && SpellsOne(t[..i], bytes[pos..][..j]) && Spells(t[i..], bytes[pos..][j..]);
      var b := bytes[pos..][..j];
      assert At(bytes, pos, b) && bytes[pos..][j..] == bytes[pos + j..];
      assert SpellsOne(t[..i], b) ==> b != [] by { SpelledIsSome(t[..i], b); }
      AsciiOne(bytes, pos, t[..i], b);
      ShortestAsciiSpelling(t[i..], bytes, pos + j);
    }
  }

  lemma SpelledIsSome(t: Text, b: Text)
    ensures SpellsOne(t, b) ==> b != []
  {
    hide SpellsHex, Encode;
  }
}
