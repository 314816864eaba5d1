/** String literals as the reader decodes them. */
module StringLexer {
  import opened Bytes
  import opened Events
  import opened Utf8

  /** The value of a hexadecimal digit, or -1. */
  function HexValue(c: Byte): (v: int)
    ensures -1 <= v < 0x10
  {
    if ZERO <= c <= NINE then c - ZERO
    else if 0x41 <= c <= 0x46 then c - 0x41 + 10
    else if 0x61 <= c <= 0x66 then c - 0x61 + 10
    else -1
  }

  /** The value of the hexadecimal digits in [pos, pos + n). */
  function HexRun(text: Text, pos: nat, n: nat): nat
    decreases n
  {
    if n == 0 then 0
    else
      var digit := HexValue(Peek(text, pos + n - 1));
      0x10 * HexRun(text, pos, n - 1) + if digit < 0 then 0 else digit
  }

  predicate AllHex(text: Text, pos: nat, n: nat) {
    forall k :: pos <= k < pos + n ==> HexValue(Peek(text, k)) >= 0
  }

  /** Four hexadecimal digits of a unicode escape. */
  function Hex4At(text: Text, pos: nat, escape: nat): (r: Scan<nat>)
    ensures r.Found? ==> r.next == pos + 4 <= |text| && r.value < 0x1_0000
  {
    if AllHex(text, pos, 4) then
      assert HexValue(Peek(text, pos + 3)) >= 0;
      assert HexRun(text, pos, 1) < 0x10 && HexRun(text, pos, 2) < 0x100 && HexRun(text, pos, 3) < 0x1000;
      Found(HexRun(text, pos, 4), pos + 4)
    else
      Failed(StringUnicodeEscapeInvalidHex, escape)
  }

  /** The reader's table of two-character escapes; 0 where there is none. */
  function SimpleEscape(c: Byte): Byte {
    if c == QUOTE || c == SOLIDUS || c == BACKSLASH then c
    else if c == LOWER_B then 0x08
    else if c == LOWER_F then 0x0C
    else if c == LOWER_N then 0x0A
    else if c == LOWER_R then 0x0D
    else if c == LOWER_T then 0x09
    else 0
  }

  /** The bytes one unicode escape stands for; `pos` is just after the `u`. */
  function UnicodeEscapeAt(text: Text, pos: nat, escape: nat): (r: Scan<Text>)
    ensures r.Found? ==> pos < r.next <= |text|
  {
    match Hex4At(text, pos, escape)
    case Failed(code, offset) => Failed(code, offset)
    case Found(lead, next) =>
      if lead < 0xD800 || lead > 0xDBFF then Found(Encode(lead), next)
      else if Peek(text, next) != BACKSLASH || Peek(text, next + 1) != LOWER_U then
        Failed(StringUnicodeSurrogateInvalid, escape)
      else
        match Hex4At(text, next + 2, escape)
        case Failed(code, offset) => Failed(code, offset)
        case Found(trail, end) =>
          if trail < 0xDC00 || trail > 0xDFFF then Failed(StringUnicodeSurrogateInvalid, escape)
          else Found(Encode((lead - 0xD800) * 0x400 + (trail - 0xDC00) + 0x1_0000), end)
  }

  /** The bytes the escape at the backslash `pos` stands for. */
  function EscapeAt(text: Text, pos: nat): (r: Scan<Text>)
    ensures r.Found? ==> pos < r.next <= |text|
  {
    var e := Peek(text, pos + 1);
    if SimpleEscape(e) != 0 then Found([SimpleEscape(e)], pos + 2)
    else if e == LOWER_U then UnicodeEscapeAt(text, pos + 2, pos)
    else Failed(StringEscapeInvalid, pos)
  }

  function Before(bytes: Text, r: Scan<Text>): Scan<Text> {
    match r
    case Found(rest, next) => Found(bytes + rest, next)
    case Failed(_, _) => r
  }

  /** The contents of a string literal from `pos` to its closing quote. */
  function CharsAt(text: Text, pos: nat): (r: Scan<Text>)
    ensures r.Found? ==> pos < r.next <= |text|
    decreases |text| - pos
  {
    var c := Peek(text, pos);
    if c == BACKSLASH then
      match EscapeAt(text, pos)
      case Failed(code, offset) => Failed(code, offset)
      case Found(bytes, next) => Before(bytes, CharsAt(text, next))
    else if c == QUOTE then Found([], pos + 1)
    else if c == 0 then Failed(StringMissQuotationMark, pos)
    else if c < 0x20 then Failed(StringInvalidEncoding, pos)
    else Before([c], CharsAt(text, pos + 1))
  }

  /** ParseHex4: accumulates four digits, four bits at a time. */
  method ParseHex4(text: Text, start: nat, escape: nat) returns (r: Scan<nat>)
    ensures r == Hex4At(text, start, escape)
  {
    hide HexValue;
    var codepoint, i := 0, 0;
    while i < 4
      invariant 0 <= i <= 4
      invariant AllHex(text, start, i) && codepoint == HexRun(text, start, i)
    {
      var digit := HexValue(Peek(text, start + i));
      if digit < 0 {
        return Failed(StringUnicodeEscapeInvalidHex, escape);
      }
      codepoint := codepoint * 0x10 + digit;
      i := i + 1;
    }
    return Found(codepoint, start + 4);
  }

  /** One unicode escape, with its surrogate pair. */
  method ParseUnicodeEscape(text: Text, start: nat, escape: nat) returns (r: Scan<Text>)
    ensures r == UnicodeEscapeAt(text, start, escape)
  {
    var lead := ParseHex4(text, start, escape);
    if lead.Failed? {
      return Failed(lead.code, lead.offset);
    }
    var codepoint, pos := lead.value, lead.next;
    if 0xD800 <= codepoint <= 0xDBFF {
      if Peek(text, pos) != BACKSLASH || Peek(text, pos + 1) != LOWER_U {
        return Failed(StringUnicodeSurrogateInvalid, escape);
      }
      var trail := ParseHex4(text, pos + 2, escape);
      if trail.Failed? {
        return Failed(trail.code, trail.offset);
      }
      if trail.value < 0xDC00 || trail.value > 0xDFFF {
        return Failed(StringUnicodeSurrogateInvalid, escape);
      }
      codepoint, pos := (codepoint - 0xD800) * 0x400 + (trail.value - 0xDC00) + 0x1_0000, trail.next;
    }
    return Found(Encode(codepoint), pos);
  }

  /** ParseStringToStream: decodes up to the closing quote. */
  method ParseStringToStream(text: Text, start: nat) returns (r: Scan<Text>)
    ensures r == CharsAt(text, start)
  {
    var os: Text, pos := [], start;
    BeforeNothing(CharsAt(text, start));
    while true
      invariant CharsAt(text, start) == Before(os, CharsAt(text, pos))
      decreases |text| - pos
    {
      var c := Peek(text, pos);
      var chunk: Text, next;
      if c == BACKSLASH {
        var e := Peek(text, pos + 1);
        if SimpleEscape(e) != 0 {
          chunk, next := [SimpleEscape(e)], pos + 2;
        } else if e == LOWER_U {
          var escape := ParseUnicodeEscape(text, pos + 2, pos);
          if escape.Failed? {
            return Failed(escape.code, escape.offset);
          }
          chunk, next := escape.value, escape.next;
        } else {
          return Failed(StringEscapeInvalid, pos);
        }
      } else if c == QUOTE {
        assert os + [] == os;
        return Found(os, pos + 1);
      } else if c < 0x20 {
        return Failed(if c == 0 then StringMissQuotationMark else StringInvalidEncoding, pos);
      } else {
        chunk, next := [c], pos + 1;
      }
      BeforeBefore(os, chunk, CharsAt(text, next));
      os, pos := os + chunk, next;
    }
  }

  lemma BeforeNothing(r: Scan<Text>)
    ensures Before([], r) == r
  {
    assert r.Found? ==> [] + r.value == r.value;
  }

  lemma BeforeBefore(a: Text, b: Text, r: Scan<Text>)
    ensures Before(a, Before(b, r)) == Before(a + b, r)
  {
    if r.Found? {
      assert a + (b + r.value) == (a + b) + r.value;
    }
  }
}
