/** Bytes, texts and the character-level helpers the JSON reader is built on. */
module Bytes {
  /** One `char` of the source, read as an unsigned code unit. */
  type Byte = b: int | 0 <= b < 0x100

  /** A C string without its terminator. */
  type Text = seq<Byte>

  const TAB: Byte := 0x09
  const LINEFEED: Byte := 0x0A
  const RETURN: Byte := 0x0D
  const SPACE: Byte := 0x20
  const QUOTE: Byte := 0x22
  const PLUS: Byte := 0x2B
  const COMMA: Byte := 0x2C
  const MINUS: Byte := 0x2D
  const PERIOD: Byte := 0x2E
  const SOLIDUS: Byte := 0x2F
  const ZERO: Byte := 0x30
  const NINE: Byte := 0x39
  const COLON: Byte := 0x3A
  const LBRACKET: Byte := 0x5B
  const BACKSLASH: Byte := 0x5C
  const RBRACKET: Byte := 0x5D
  const LBRACE: Byte := 0x7B
  const RBRACE: Byte := 0x7D
  const TILDE: Byte := 0x7E

  const LOWER_A: Byte := 0x61
  const LOWER_B: Byte := 0x62
  const LOWER_E: Byte := 0x65
  const LOWER_F: Byte := 0x66
  const LOWER_L: Byte := 0x6C
  const LOWER_N: Byte := 0x6E
  const LOWER_R: Byte := 0x72
  const LOWER_S: Byte := 0x73
  const LOWER_T: Byte := 0x74
  const LOWER_U: Byte := 0x75
  const UPPER_E: Byte := 0x45

  /** What the stream shows at `pos`; a terminated string shows NUL at its end. */
  function Peek(text: Text, pos: nat): Byte {
    if pos < |text| then text[pos] else 0
  }

  predicate IsSpace(c: Byte) {
    c == SPACE || c == LINEFEED || c == RETURN || c == TAB
  }

  predicate IsDigit(c: Byte) {
    ZERO <= c <= NINE
  }

  function DigitOf(c: Byte): nat {
    if IsDigit(c) then c - ZERO else 0
  }

  /** The first position at or after `pos` that is not white space. */
  function SkipSpace(text: Text, pos: nat): (next: nat)
    ensures pos <= next
    ensures pos <= |text| ==> next <= |text|
    ensures !IsSpace(Peek(text, next))
    ensures forall k :: pos <= k < next ==> IsSpace(Peek(text, k))
    decreases |text| - pos
  {
    if IsSpace(Peek(text, pos)) then SkipSpace(text, pos + 1) else pos
  }

  predicate NoNul(text: Text) {
    forall k :: 0 <= k < |text| ==> text[k] != 0
  }

  /** What a `const char*` to the text shows: everything before the first NUL. */
  function CString(text: Text): Text {
    if text == [] || text[0] == 0 then [] else [text[0]] + CString(text[1..])
  }

  lemma {:induction false} CStringWhole(text: Text)
    requires NoNul(text)
    ensures CString(text) == text
    decreases |text|
  {
    if text != [] {
      CStringWhole(text[1..]);
    }
  }

  lemma {:induction false} CStringIsWhole(text: Text)
    ensures CString(text) == text <==> NoNul(text)
    decreases |text|
  {
    if NoNul(text) {
      CStringWhole(text);
    } else {
      CStringShorter(text);
    }
  }

  lemma {:induction false} CStringShorter(text: Text)
    ensures |CString(text)| <= |text|
    ensures !NoNul(text) ==> |CString(text)| < |text|
    decreases |text|
  {
    if text != [] {
      CStringShorter(text[1..]);
      assert !NoNul(text) && text[0] != 0 ==> !NoNul(text[1..]) by {
        if !NoNul(text) && text[0] != 0 {
          var k: nat :| k < |text| && text[k] == 0;
          assert text[1..][k - 1] == 0;
        }
      }
    }
  }

  /** `piece` is written in `text` starting at `pos`. */
  predicate At(text: Text, pos: nat, piece: Text) {
    pos + |piece| <= |text| && text[pos..pos + |piece|] == piece
  }

  lemma AtSplit(text: Text, pos: nat, a: Text, b: Text)
    ensures At(text, pos, a + b) <==> At(text, pos, a) && At(text, pos + |a|, b)
  {
    if At(text, pos, a) && At(text, pos + |a|, b) {
      assert text[pos..pos + |a + b|] == text[pos..pos + |a|] + text[pos + |a|..pos + |a| + |b|];
    }
    if At(text, pos, a + b) {
      assert text[pos..pos + |a|] == (a + b)[..|a|] == a;
      assert text[pos + |a|..pos + |a| + |b|] == (a + b)[|a|..] == b;
    }
  }

  lemma AtPeek(text: Text, pos: nat, piece: Text, k: nat)
    requires At(text, pos, piece) && k < |piece|
    ensures pos + k < |text| && Peek(text, pos + k) == piece[k]
  {
    assert text[pos..pos + |piece|][k] == text[pos + k];
  }
}
