/** What an error of the reader says: where the text stops being JSON, and what was missing there. */
module Faults {
  import opened Bytes
  import opened Events
  import opened Grammar
  import opened Numbers
  import NumberLiterals
  import opened Spellings
  import opened StringLexer
  import Utf8

  // ---------------------------------------------------------------------------
  // Strings
  // ---------------------------------------------------------------------------

  /** Four hexadecimal digits of the number `n`. */
  predicate HexAt(text: Text, i: nat, n: nat) {
    i + 4 <= |text| && SpellsHex(text[i..i + 4], n)
  }

  ghost predicate SomeHexAt(text: Text, i: nat) {
    exists n: nat :: HexAt(text, i, n)
  }

  /** A surrogate of the first half, and of the second. */
  ghost predicate HighAt(text: Text, i: nat) {
    exists n: nat :: HexAt(text, i, n) && HighSurrogate(n)
  }

  ghost predicate LowAt(text: Text, i: nat) {
    exists n: nat :: HexAt(text, i, n) && 0xDC00 <= n <= 0xDFFF
  }

  /** Why no escape begins at the backslash `i`. */
  ghost predicate EscapeFaulty(text: Text, i: nat, code: ErrorCode) {
    var unit := Peek(text, i + 1) == 0x75;
    var second := Peek(text, i + 6) == 0x5C && Peek(text, i + 7) == 0x75;
    match code
    case StringEscapeInvalid => Peek(text, i + 1) !in SHORT_ESCAPES && !unit
    case StringUnicodeEscapeInvalidHex =>
      unit && (!SomeHexAt(text, i + 2) || (HighAt(text, i + 2) && second && !SomeHexAt(text, i + 8)))
    case StringUnicodeSurrogateInvalid =>
      unit && HighAt(text, i + 2) && (second ==> SomeHexAt(text, i + 8) && !LowAt(text, i + 8))
    case _ => false
  }

  /** Why no character of a string begins at `i`. */
  ghost predicate StringFaulty(text: Text, i: nat, code: ErrorCode) {
    match code
    case StringMissQuotationMark => Peek(text, i) == 0
    case StringInvalidEncoding => 0 < Peek(text, i) < 0x20
    case _ => Peek(text, i) == 0x5C && EscapeFaulty(text, i, code)
  }

  lemma HexIs(text: Text, i: nat, escape: nat)
    ensures var r := Hex4At(text, i, escape);
      && (r.Found? ==> SomeHexAt(text, i) && (HighAt(text, i) <==> HighSurrogate(r.value)))
      && (r.Found? ==> (LowAt(text, i) <==> 0xDC00 <= r.value <= 0xDFFF))
      && (r.Failed? ==> !SomeHexAt(text, i) && !HighAt(text, i) && r == Failed(StringUnicodeEscapeInvalidHex, escape))
  {
    TooShortForHex(text, i);
    hide SpellsHex, HexRun, AllHex;
    forall n: nat
      ensures HexAt(text, i, n) <==> i + 4 <= |text| && AllHex(text, i, 4) && HexRun(text, i, 4) == n
    {
      if i + 4 <= |text| {
        HexMeans(text, i, 4, n);
      }
    }
    assert AllHex(text, i, 4) ==> HexAt(text, i, HexRun(text, i, 4));
  }

  lemma TooShortForHex(text: Text, i: nat)
    ensures AllHex(text, i, 4) ==> i + 4 <= |text|
  {
    assert AllHex(text, i, 4) ==> HexValue(Peek(text, i + 3)) >= 0;
  }

  lemma EscapeFault(text: Text, i: nat, code: ErrorCode)
    requires Peek(text, i) == BACKSLASH
    ensures EscapeAt(text, i) == Failed(code, i) <==> EscapeFaulty(text, i, code)
    ensures EscapeAt(text, i).Failed? ==> EscapeAt(text, i).offset == i
  {
    hide Hex4At, SomeHexAt, HighAt, LowAt, Utf8.Encode;
    HexIs(text, i + 2, i);
    HexIs(text, i + 8, i);
    ShortMeans(Peek(text, i + 1));
    hide SimpleEscape;
  }

  /** No character begins at `i`, and the string does not end there. */
  lemma StringStops(text: Text, i: nat, code: ErrorCode)
    ensures StringFaulty(text, i, code) ==> CharsAt(text, i) == Failed(code, i)
    ensures Peek(text, i) < 0x20 || (Peek(text, i) == BACKSLASH && EscapeAt(text, i).Failed?) ==>
      CharsAt(text, i).Failed? && CharsAt(text, i).offset == i && StringFaulty(text, i, CharsAt(text, i).code)
  {
    hide EscapeFaulty, EscapeAt;
    if Peek(text, i) == BACKSLASH {
      EscapeFault(text, i, code);
      if EscapeAt(text, i).Failed? {
        EscapeFault(text, i, EscapeAt(text, i).code);
        EscapeFaults(text, i, EscapeAt(text, i).code);
      }
    }
  }

  lemma EscapeFaults(text: Text, i: nat, code: ErrorCode)
    requires EscapeFaulty(text, i, code)
    ensures code != StringMissQuotationMark && code != StringInvalidEncoding
  {}

  /** A part of a text that spells some bytes. */
  ghost predicate Spelled(text: Text, lo: nat, hi: nat) {
    lo <= hi <= |text| && exists b :: Spells(text[lo..hi], b)
  }

  /** A literal fails just behind its longest part that is spelled, and for what stands there. */
  lemma {:induction false} StringFault(text: Text, pos: nat, code: ErrorCode, i: nat)
    requires pos <= |text|
    ensures CharsAt(text, pos) == Failed(code, i) <==>
      Spelled(text, pos, i) && StringFaulty(text, i, code)
  {
    hide CharsAt, Spells, StringFaulty;
    if CharsAt(text, pos) == Failed(code, i) {
      var b := FaultIsBehind(text, pos);
    }
    if Spelled(text, pos, i) && StringFaulty(text, i, code) {
      var b :| Spells(text[pos..i], b);
      SpelledThenStops(text, pos, i, b, code);
    }
  }

  lemma {:induction false} FaultIsBehind(text: Text, pos: nat) returns (b: Text)
    requires pos <= |text| && CharsAt(text, pos).Failed?
    ensures var r := CharsAt(text, pos);
      pos <= r.offset <= |text| && Spells(text[pos..r.offset], b) && StringFaulty(text, r.offset, r.code)
    decreases |text| - pos
  {
    hide EscapeAt, SpellsOne, StringFaulty;
    var c, r := Peek(text, pos), CharsAt(text, pos);
    if c == BACKSLASH && EscapeAt(text, pos).Found? {
      var escape := EscapeAt(text, pos);
      EscapeIsSpelled(text, pos);
      var rest := FaultIsBehind(text, escape.next);
      Longer(text, pos, escape.next, r.offset, escape.value, rest);
      b := escape.value + rest;
    } else if c >= 0x20 && c != BACKSLASH {
      RawIsSpelled(c);
      var rest := FaultIsBehind(text, pos + 1);
      assert text[pos..pos + 1] == [c];
      Longer(text, pos, pos + 1, r.offset, [c], rest);
      b := [c] + rest;
    } else {
      StringStops(text, pos, r.code);
      assert text[pos..pos] == [];
      b := [];
    }
  }

  lemma {:induction false} SpelledThenStops(text: Text, pos: nat, i: nat, b: Text, code: ErrorCode)
    requires pos <= i <= |text| && Spells(text[pos..i], b) && StringFaulty(text, i, code)
    ensures CharsAt(text, pos) == Failed(code, i)
    decreases i - pos
  {
    hide CharsAt, SpellsOne, StringFaulty;
    var t := text[pos..i];
    if pos == i {
      StringStops(text, i, code);
    } else {
      var k: nat, j: nat :| 0 < k <= |t| && j <= |b| && SpellsOne(t[..k], b[..j]) && Spells(t[k..], b[j..]);
      assert t[..k] == text[pos..pos + k] && t[k..] == text[pos + k..i];
      OneMeans(text, pos, t[..k], b[..j]);
      SpelledThenStops(text, pos + k, i, b[j..], code);
    }
  }

  // ---------------------------------------------------------------------------
  // Numbers and literal names
  // ---------------------------------------------------------------------------

  /** A sign, a point, an exponent letter or a digit. */
  predicate NumberByte(c: Byte) {
    IsDigit(c) || c in {0x2B, 0x2D, 0x2E, 0x45, 0x65}
  }

  /** Behind a minus sign, a point or an exponent letter with or without its sign there is no digit; or the number is too big. */
  predicate NumberFaulty(text: Text, start: nat, code: ErrorCode, offset: nat) {
    var c := Peek(text, offset);
    && start <= offset && (forall k :: start <= k < offset ==> NumberByte(Peek(text, k)))
    && match code
       case ValueInvalid => !IsDigit(c) && if Peek(text, start) == 0x2D then offset == start + 1 else offset == start
       case NumberMissFraction => !IsDigit(c) && offset > start && Peek(text, offset - 1) == 0x2E
       case NumberMissExponent =>
         && !IsDigit(c) && offset > start
         && (Peek(text, offset - 1) in {0x45, 0x65}
             || (offset > start + 1 && Peek(text, offset - 1) in {0x2B, 0x2D} && Peek(text, offset - 2) in {0x45, 0x65}))
       case NumberTooBig => offset == start
       case _ => false
  }

  lemma DigitsAreNumberBytes(text: Text, lo: nat)
    ensures forall k :: lo <= k < DigitsEnd(text, lo) ==> NumberByte(Peek(text, k))
  {}

  lemma ExponentFault(text: Text, pos: nat, start: nat, taken: nat)
    requires Peek(text, pos) == LOWER_E || Peek(text, pos) == UPPER_E
    requires start < pos && forall k :: start <= k < pos ==> NumberByte(Peek(text, k))
    ensures var r := ExponentAt(text, pos, start, taken);
      r.Failed? ==> NumberFaulty(text, start, r.code, r.offset)
  {
    NumberLiterals.ExponentMeans(text, pos, start, taken);
    hide ExponentAt, DigitsEnd, DecimalValue;
  }

  lemma FinishFault(text: Text, start: nat, negative: bool, v: nat, f: Fraction, double: bool)
    requires start < f.next <= |text| && forall k :: start <= k < f.next ==> NumberByte(Peek(text, k))
    ensures var r := FinishNumber(text, start, negative, v, f, double);
      r.Failed? ==> NumberFaulty(text, start, r.code, r.offset)
  {
    hide ExponentAt, NumberFaulty;
    if Peek(text, f.next) == LOWER_E || Peek(text, f.next) == UPPER_E {
      ExponentFault(text, f.next, start, f.taken);
    }
  }

  /** What a number literal that fails lacks. */
  lemma NumberFault(text: Text, start: nat)
    ensures var r := NumberAt(text, start);
      r.Failed? ==> NumberFaulty(text, start, r.code, r.offset)
  {
    hide FinishNumber, DecimalValue, FractionAt, Scale, DigitsEnd, NumberLiterals.Counts;
    var negative := Peek(text, start) == MINUS;
    var first := if negative then start + 1 else start;
    if IsDigit(Peek(text, first)) {
      var end := IntegerEnd(text, first);
      var v := DecimalValue(text, first, end);
      var wide := Wide(negative, v);
      var digits := if wide then 17 else end - first - 1;
      IntegerBytes(text, start, first);
      hide IntegerEnd, Wide;
      if Peek(text, end) != PERIOD {
        FinishFault(text, start, negative, v, Fraction(v as real, 0, end), wide);
      } else if IsDigit(Peek(text, end + 1)) {
        FractionBytes(text, end + 1, v, wide, digits, first, negative);
        FinishFault(text, start, negative, v, FractionAt(text, end + 1, v, wide, digits), true);
      }
    }
  }

  lemma IntegerBytes(text: Text, start: nat, first: nat)
    requires IsDigit(Peek(text, first)) && first == (if Peek(text, start) == MINUS then start + 1 else start)
    ensures forall k :: start <= k < IntegerEnd(text, first) ==> NumberByte(Peek(text, k))
  {
    DigitsAreNumberBytes(text, first);
  }

  lemma FractionBytes(text: Text, lo: nat, v: nat, wide: bool, digits: nat, first: nat, negative: bool)
    requires IsDigit(Peek(text, first)) && lo == IntegerEnd(text, first) + 1
    requires v == DecimalValue(text, first, lo - 1) && wide == Wide(negative, v) && digits == if wide then 17 else lo - 1 - first - 1
    ensures forall k :: lo <= k < FractionAt(text, lo, v, wide, digits).next ==> NumberByte(Peek(text, k))
  {
    hide FractionAt, IntegerEnd, DecimalValue, NumberLiterals.Counts;
    NumberLiterals.IntegerCounts(text, first, negative);
    NumberLiterals.FractionMeans(text, lo, v, wide, digits);
    DigitsAreNumberBytes(text, lo);
  }

  /** `null`, `true` and `false` by their first letter. */
  const LITERAL_NAMES: map<Byte, Text> :=
    map[0x6E := [0x6E, 0x75, 0x6C, 0x6C], 0x74 := [0x74, 0x72, 0x75, 0x65], 0x66 := [0x66, 0x61, 0x6C, 0x73, 0x65]]

  /** The first letter that differs. */
  predicate NameFaulty(text: Text, start: nat, name: Text, offset: nat) {
    && start <= offset < start + |name| && offset <= |text|
    && text[start..offset] == name[..offset - start] && Peek(text, offset) != name[offset - start]
  }

  lemma {:induction false} NameFault(text: Text, pos: nat, rest: Text, event: Event)
    requires pos <= |text| && NoNul(rest)
    ensures var r := LiteralAt(text, pos, rest, event);
      r.Failed? ==> r.code == ValueInvalid && NameFaulty(text, pos, rest, r.offset)
    decreases |rest|
  {
    var r := LiteralAt(text, pos, rest, event);
    if r.Failed? && r.offset != pos {
      NameFault(text, pos + 1, rest[1..], event);
      assert text[pos..r.offset] == [text[pos]] + text[pos + 1..r.offset];
      assert rest[..r.offset - pos] == [rest[0]] + rest[1..][..r.offset - pos - 1];
    } else if r.Failed? {
      if rest[0] != 0 && Peek(text, pos) == rest[0] {
        NameFault(text, pos + 1, rest[1..], event);
      }
      assert text[pos..pos] == rest[..0];
    }
  }

  /** What is wrong with the name, string or number that begins at `start`. */
  ghost predicate ScalarFaulty(text: Text, start: nat, code: ErrorCode, offset: nat) {
    && start <= offset <= |text|
    && if Peek(text, start) in LITERAL_NAMES then
         code == ValueInvalid && start < offset && NameFaulty(text, start, LITERAL_NAMES[Peek(text, start)], offset)
       else if Peek(text, start) == 0x22 then
         start < offset && Spelled(text, start + 1, offset) && StringFaulty(text, offset, code)
       else NumberFaulty(text, start, code, offset)
  }

  lemma QuotedFault(text: Text, start: nat)
    requires start < |text| && text[start] == QUOTE
    ensures var r := CharsAt(text, start + 1);
      r.Failed? ==> ScalarFaulty(text, start, r.code, r.offset)
  {
    hide CharsAt, Spells, StringFaulty;
    if CharsAt(text, start + 1).Failed? {
      var b := FaultIsBehind(text, start + 1);
    }
  }

  lemma WordFault(text: Text, start: nat, rest: Text, event: Event)
    requires start < |text| && text[start] in LITERAL_NAMES && LITERAL_NAMES[text[start]] == [text[start]] + rest && NoNul(rest)
    ensures var r := LiteralAt(text, start + 1, rest, event);
      r.Failed? ==> ScalarFaulty(text, start, r.code, r.offset)
  {
    NameFault(text, start + 1, rest, event);
    var r := LiteralAt(text, start + 1, rest, event);
    if r.Failed? {
      assert text[start..r.offset] == [text[start]] + text[start + 1..r.offset];
      assert ([text[start]] + rest)[..r.offset - start] == [text[start]] + rest[..r.offset - start - 1];
    }
  }

  lemma NumberFaultWithin(text: Text, start: nat)
    requires start <= |text|
    ensures NumberAt(text, start).Failed? ==> start <= NumberAt(text, start).offset <= |text|
  {
    hide NumberAt;
    NumberFault(text, start);
    var r := NumberAt(text, start);
    assert r.Failed? && r.offset > start ==> NumberByte(Peek(text, r.offset - 1));
  }

  lemma ScalarFault(text: Text, start: nat)
    requires start <= |text|
    ensures var r := ScalarAt(text, start);
      r.Failed? ==> ScalarFaulty(text, start, r.code, r.offset)
  {
    hide CharsAt, NumberAt, LiteralAt, StringFaulty, NumberFaulty, NameFaulty, Spells;
    var c := Peek(text, start);
    if c == LOWER_N {
      WordFault(text, start, ULL, Null);
    } else if c == LOWER_T {
      WordFault(text, start, RUE, Bool(true));
    } else if c == LOWER_F {
      WordFault(text, start, ALSE, Bool(false));
    } else if c == QUOTE {
      QuotedFault(text, start);
    } else {
      NumberFault(text, start);
      NumberFaultWithin(text, start);
    }
  }

  // ---------------------------------------------------------------------------
  // Documents
  // ---------------------------------------------------------------------------

  /** Which containers are open, objects and arrays, and whether a name waits for its value. */
  datatype Where = Where(open: seq<bool>, named: bool)

  function Next(w: Where, e: Event): Where {
    match e
    case StartObject => Where(w.open + [true], false)
    case StartArray => Where(w.open + [false], false)
    case EndObject(_) => Where(if w.open == [] then [] else w.open[..|w.open| - 1], false)
    case EndArray(_) => Where(if w.open == [] then [] else w.open[..|w.open| - 1], false)
    case Key(_) => Where(w.open, true)
    case _ => Where(w.open, false)
  }

  /** Where the reader is when it has sent the events. */
  function Seen(w: Where, events: seq<Event>): Where
    decreases |events|
  {
    if events == [] then w else Seen(Next(w, events[0]), events[1..])
  }

  predicate Inside(w: Where, braces: bool) {
    w.open != [] && w.open[|w.open| - 1] == braces
  }

  /** What the error says is so: in the innermost container the reader lacks just that, or the scalar it is in is wrong. */
  ghost predicate Faulty(text: Text, w: Where, code: ErrorCode, offset: nat) {
    var c := Peek(text, offset);
    && offset <= |text|
    && match code
       case ObjectMissName => Inside(w, true) && !w.named && c != 0x22
       case ObjectMissColon => Inside(w, true) && w.named && c != 0x3A
       case ObjectMissCommaOrCurlyBracket => Inside(w, true) && !w.named && c != 0x2C && c != 0x7D
       case ArrayMissCommaOrSquareBracket => Inside(w, false) && !w.named && c != 0x2C && c != 0x5D
       case DocumentEmpty => false
       case DocumentRootNotSingular => false
       case _ =>
         exists start: nat :: ScalarFaulty(text, start, code, offset) && Peek(text, start) != 0x7B && Peek(text, start) != 0x5B
  }

  /** What a production that begins with the reader at `w` leaves behind, or says. */
  ghost predicate Tells(text: Text, w: Where, trace: Trace, end: Where) {
    match trace.outcome
    case Accepted(_) => Seen(w, trace.events) == end
    case Rejected(code, offset) => Faulty(text, Seen(w, trace.events), code, offset)
  }

  lemma {:induction false} SeenConcat(w: Where, a: seq<Event>, b: seq<Event>)
    ensures Seen(w, a + b) == Seen(Seen(w, a), b)
    decreases |a|
  {
    if a == [] {
      assert a + b == b;
    } else {
      assert (a + b)[0] == a[0] && (a + b)[1..] == a[1..] + b;
      SeenConcat(Next(w, a[0]), a[1..], b);
    }
  }

  lemma TellsAfter(text: Text, w: Where, events: seq<Event>, trace: Trace, end: Where)
    requires Tells(text, Seen(w, events), trace, end)
    ensures Tells(text, w, After(events, trace), end)
  {
    hide Faulty;
    SeenConcat(w, events, trace.events);
  }

  lemma OneSeen(w: Where, e: Event)
    ensures Seen(w, [e]) == Next(w, e)
  {
    assert [e][1..] == [];
  }

  predicate Structural(code: ErrorCode) {
    || code == ObjectMissName || code == ObjectMissColon || code == ObjectMissCommaOrCurlyBracket
    || code == ArrayMissCommaOrSquareBracket || code == DocumentEmpty || code == DocumentRootNotSingular
  }

  lemma ScalarCodes(text: Text, start: nat, code: ErrorCode, offset: nat)
    requires ScalarFaulty(text, start, code, offset)
    ensures !Structural(code)
  {
    hide Spelled, NameFaulty, SomeHexAt, HighAt, LowAt, HexAt;
  }

  lemma ScalarIsFaulty(text: Text, start: nat, w: Where, code: ErrorCode, offset: nat)
    requires ScalarFaulty(text, start, code, offset) && Peek(text, start) != LBRACE && Peek(text, start) != LBRACKET
    ensures Faulty(text, w, code, offset)
  {
    ScalarCodes(text, start, code, offset);
    assert offset <= |text|;
    hide ScalarFaulty;
  }

  lemma ScalarStops(text: Text, start: nat, w: Where, code: ErrorCode, offset: nat, end: Where)
    requires ScalarFaulty(text, start, code, offset) && Peek(text, start) != LBRACE && Peek(text, start) != LBRACKET
    ensures Tells(text, w, Trace([], Rejected(code, offset)), end)
  {
    ScalarIsFaulty(text, start, w, code, offset);
    Stops(text, w, code, offset, end);
  }

  lemma ScalarTells(text: Text, pos: nat, w: Where)
    requires pos <= |text| && Peek(text, pos) != LBRACE && Peek(text, pos) != LBRACKET
    ensures Tells(text, w, ValueAt(text, pos), Where(w.open, false))
  {
    hide ScalarAt, ValueAt, ScalarFaulty;
    ScalarParts(text, pos);
    ScalarFault(text, pos);
    var r := ScalarAt(text, pos);
    if r.Found? {
      OneSeen(w, r.value);
    } else {
      ScalarStops(text, pos, w, r.code, r.offset, Where(w.open, false));
    }
  }

  lemma Empty(w: Where, start: Event, end: Event)
    requires (start == StartObject && end.EndObject?) || (start == StartArray && end.EndArray?)
    ensures Seen(w, [start, end]) == Where(w.open, false)
  {
    assert [start, end][0] == start && [start, end][1..] == [end];
    OneSeen(Next(w, start), end);
    var open := Next(w, start).open;
    assert open[..|open| - 1] == w.open;
  }

  lemma Stops(text: Text, w: Where, code: ErrorCode, offset: nat, end: Where)
    requires Faulty(text, w, code, offset)
    ensures Tells(text, w, Trace([], Rejected(code, offset)), end)
  {
    hide Faulty;
  }

  lemma {:induction false} TellsValue(text: Text, pos: nat, w: Where)
    requires pos <= |text|
    ensures Tells(text, w, ValueAt(text, pos), Where(w.open, false))
    decreases |text| - pos, 2
  {
    hide Tells, ValueAt, MembersAt, ElementsAt, SkipSpace, Seen;
    if Peek(text, pos) != LBRACE && Peek(text, pos) != LBRACKET {
      ScalarTells(text, pos, w);
    } else {
      ContainerParts(text, pos);
      var first := SkipSpace(text, pos + 1);
      var start := if Peek(text, pos) == LBRACE then StartObject else StartArray;
      OneSeen(w, start);
      if Peek(text, pos) == LBRACE {
        if Peek(text, first) == RBRACE {
          EmptyTells(text, w, StartObject, EndObject(0), first + 1);
        } else {
          TellsMembers(text, first, 0, w.open);
          TellsAfter(text, w, [StartObject], MembersAt(text, first, 0), Where(w.open, false));
        }
      } else if Peek(text, first) == RBRACKET {
        EmptyTells(text, w, StartArray, EndArray(0), first + 1);
      } else {
        TellsElements(text, first, 0, w.open);
        TellsAfter(text, w, [StartArray], ElementsAt(text, first, 0), Where(w.open, false));
      }
    }
  }

  lemma EmptyTells(text: Text, w: Where, start: Event, end: Event, pos: nat)
    requires (start == StartObject && end.EndObject?) || (start == StartArray && end.EndArray?)
    ensures Tells(text, w, Trace([start, end], Accepted(pos)), Where(w.open, false))
  {
    Empty(w, start, end);
    hide Seen;
  }

  lemma Ends(text: Text, outer: seq<bool>, braces: bool, end: Event, pos: nat)
    requires end.EndObject? || end.EndArray?
    ensures Tells(text, Where(outer + [braces], false), Trace([end], Accepted(pos)), Where(outer, false))
  {
    OneSeen(Where(outer + [braces], false), end);
    hide Seen;
    assert (outer + [braces])[..|outer|] == outer;
  }

  lemma {:induction false} TellsMembers(text: Text, pos: nat, count: nat, outer: seq<bool>)
    requires pos <= |text|
    ensures Tells(text, Where(outer + [true], false), MembersAt(text, pos, count), Where(outer, false))
    decreases |text| - pos, 1
  {
    hide Tells, MembersAt, MemberRest, SkipSpace, Seen, CharsAt, ScalarFaulty;
    MembersParts(text, pos, count);
    var w := Where(outer + [true], false);
    if Peek(text, pos) != QUOTE {
      Stops(text, w, ObjectMissName, pos, Where(outer, false));
    } else {
      var name := CharsAt(text, pos + 1);
      if name.Failed? {
        NameStops(text, pos, w, Where(outer, false));
      } else {
        OneSeen(w, Key(name.value));
        TellsRest(text, SkipSpace(text, name.next), count, outer);
        TellsAfter(text, w, [Key(name.value)], MemberRest(text, SkipSpace(text, name.next), count), Where(outer, false));
      }
    }
  }

  lemma NameStops(text: Text, pos: nat, w: Where, end: Where)
    requires pos < |text| && text[pos] == QUOTE && CharsAt(text, pos + 1).Failed?
    ensures Tells(text, w, Trace([], Rejected(CharsAt(text, pos + 1).code, CharsAt(text, pos + 1).offset)), end)
  {
    hide CharsAt, ScalarFaulty;
    QuotedFault(text, pos);
    ScalarStops(text, pos, w, CharsAt(text, pos + 1).code, CharsAt(text, pos + 1).offset, end);
  }

  lemma {:induction false} TellsRest(text: Text, colon: nat, count: nat, outer: seq<bool>)
    requires colon <= |text|
    ensures Tells(text, Where(outer + [true], true), MemberRest(text, colon, count), Where(outer, false))
    decreases |text| - colon, 1
  {
    hide Tells, MemberRest, MemberEnd, ValueAt, SkipSpace, Seen, ScalarFaulty;
    MemberRestParts(text, colon, count);
    var w := Where(outer + [true], true);
    if Peek(text, colon) != COLON {
      Stops(text, w, ObjectMissColon, colon, Where(outer, false));
    } else {
      var value := ValueAt(text, SkipSpace(text, colon + 1));
      TellsValue(text, SkipSpace(text, colon + 1), w);
      if value.outcome.Rejected? {
        Rejects(text, w, value, Where(outer + [true], false), Where(outer, false));
      } else {
        TellsEnd(text, SkipSpace(text, value.outcome.pos), count, outer);
        Accepts(text, w, value, Where(outer + [true], false));
        TellsAfter(text, w, value.events, MemberEnd(text, SkipSpace(text, value.outcome.pos), count), Where(outer, false));
      }
    }
  }

  lemma Rejects(text: Text, w: Where, trace: Trace, end: Where, other: Where)
    requires trace.outcome.Rejected? && Tells(text, w, trace, end)
    ensures Tells(text, w, trace, other)
  {
    hide Faulty;
  }

  lemma Accepts(text: Text, w: Where, trace: Trace, end: Where)
    requires trace.outcome.Accepted? && Tells(text, w, trace, end)
    ensures Seen(w, trace.events) == end
  {}

  lemma {:induction false} TellsEnd(text: Text, end: nat, count: nat, outer: seq<bool>)
    requires end <= |text|
    ensures Tells(text, Where(outer + [true], false), MemberEnd(text, end, count), Where(outer, false))
    decreases |text| - end, 1
  {
    hide Tells, MembersAt, MemberEnd, SkipSpace, Seen, ScalarFaulty;
    MemberEndParts(text, end, count);
    var w := Where(outer + [true], false);
    if Peek(text, end) == COMMA {
      TellsMembers(text, SkipSpace(text, end + 1), count + 1, outer);
    } else if Peek(text, end) == RBRACE {
      Ends(text, outer, true, EndObject(count + 1), end + 1);
    } else {
      Stops(text, w, ObjectMissCommaOrCurlyBracket, end, Where(outer, false));
    }
  }

  lemma {:induction false} TellsElements(text: Text, pos: nat, count: nat, outer: seq<bool>)
    requires pos <= |text|
    ensures Tells(text, Where(outer + [false], false), ElementsAt(text, pos, count), Where(outer, false))
    decreases |text| - pos, 3
  {
    hide Tells, ElementsAt, ElementEnd, ValueAt, SkipSpace, Seen;
    ElementsParts(text, pos, count);
    var w, value := Where(outer + [false], false), ValueAt(text, pos);
    TellsValue(text, pos, w);
    if value.outcome.Rejected? {
      Rejects(text, w, value, w, Where(outer, false));
    } else {
      TellsElementEnd(text, SkipSpace(text, value.outcome.pos), count, outer);
      Accepts(text, w, value, w);
      TellsAfter(text, w, value.events, ElementEnd(text, SkipSpace(text, value.outcome.pos), count), Where(outer, false));
    }
  }

  lemma {:induction false} TellsElementEnd(text: Text, end: nat, count: nat, outer: seq<bool>)
    requires end <= |text|
    ensures Tells(text, Where(outer + [false], false), ElementEnd(text, end, count), Where(outer, false))
    decreases |text| - end, 1
  {
    hide Tells, ElementsAt, ElementEnd, SkipSpace, Seen, ScalarFaulty;
    ElementEndParts(text, end, count);
    var w := Where(outer + [false], false);
    if Peek(text, end) == COMMA {
      TellsElements(text, SkipSpace(text, end + 1), count + 1, outer);
    } else if Peek(text, end) == RBRACKET {
      Ends(text, outer, false, EndArray(count + 1), end + 1);
    } else {
      Stops(text, w, ArrayMissCommaOrSquareBracket, end, Where(outer, false));
    }
  }

  /**
   * A rejected text has the error it is rejected with, at the offset reported: there is nothing but white space, or a second
   * value behind the first, or what the code names is missing in the innermost container that the events sent leave open, or
   * a name, string or number goes wrong there.
   */
  lemma ErrorTells(text: Text)
    requires DocumentAt(text).outcome.Rejected?
    ensures var events, code, offset := DocumentAt(text).events, DocumentAt(text).outcome.code, DocumentAt(text).outcome.offset;
      var w := Seen(Where([], false), events);
      match code
      case DocumentEmpty =>
        events == [] && offset <= |text| && Peek(text, offset) == 0 && forall k :: 0 <= k < offset ==> IsSpace(text[k])
      case DocumentRootNotSingular =>
        events != [] && w == Where([], false) && offset <= |text| && Peek(text, offset) != 0 && !IsSpace(Peek(text, offset))
      case _ => Faulty(text, w, code, offset)
  {
    hide ValueAt, Faulty, Seen;
    var start := SkipSpace(text, 0);
    if Peek(text, start) != 0 {
      TellsValue(text, start, Where([], false));
      var value := ValueAt(text, start);
      if value.outcome.Accepted? {
        SomethingSent(text, start);
      } else {
        NotWhole(text, Seen(Where([], false), value.events), value.outcome.code, value.outcome.offset);
      }
    } else {
      assert forall k :: 0 <= k < start ==> IsSpace(Peek(text, k)) && text[k] == Peek(text, k);
    }
  }

  lemma NotWhole(text: Text, w: Where, code: ErrorCode, offset: nat)
    requires Faulty(text, w, code, offset)
    ensures code != DocumentEmpty && code != DocumentRootNotSingular
  {}

  lemma SomethingSent(text: Text, pos: nat)
    requires ValueAt(text, pos).outcome.Accepted?
    ensures ValueAt(text, pos).events != []
  {
    hide MembersAt, ElementsAt, ScalarAt;
  }
}
