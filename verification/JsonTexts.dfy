/** JSON texts as section 2 of RFC 8259 allows them, with white space between any two tokens. */
module JsonTexts {
  import opened Bytes
  import opened Events
  import opened Grammar
  import opened Values
  import Decimal
  import Documents
  import Numbers
  import opened Printing
  import RoundTrip
  import Spellings
  import StringLexer

  // ---------------------------------------------------------------------------
  // RFC 8259, section 2
  // ---------------------------------------------------------------------------

  /** Space, horizontal tab, line feed or carriage return, and nothing else in [lo, hi). */
  predicate Blank(text: Text, lo: nat, hi: nat) {
    lo <= hi <= |text| && forall k :: lo <= k < hi ==> text[k] == 0x20 || text[k] == 0x09 || text[k] == 0x0A || text[k] == 0x0D
  }

  predicate Is(text: Text, pos: nat, c: Byte) {
    pos < |text| && text[pos] == c
  }

  /** `v` is written in [pos, end). */
  ghost predicate Written(text: Text, pos: nat, end: nat, v: Value)
    decreases v, 1
  {
    match v
    case Null => end == pos + 4 && At(text, pos, [0x6E, 0x75, 0x6C, 0x6C])
    case Bool(true) => end == pos + 4 && At(text, pos, [0x74, 0x72, 0x75, 0x65])
    case Bool(false) => end == pos + 5 && At(text, pos, [0x66, 0x61, 0x6C, 0x73, 0x65])
    case Integer(n) => IntegerWritten(text, pos, end, n)
    case Double(_, _, _) => false
    case String(bytes) => LiteralWritten(text, pos, end, bytes)
    case Array(elements) =>
      && Is(text, pos, 0x5B)
      && if elements == [] then pos + 2 <= end && Blank(text, pos + 1, end - 1) && Is(text, end - 1, 0x5D)
         else ElementsWritten(text, pos + 1, end, elements)
    case Object(members) =>
      && Is(text, pos, 0x7B)
      && if members == [] then pos + 2 <= end && Blank(text, pos + 1, end - 1) && Is(text, end - 1, 0x7D)
         else MembersWritten(text, pos + 1, end, members)
  }

  /** A sign if negative, and digits without leading zeros; zero may have a sign too. */
  predicate IntegerWritten(text: Text, pos: nat, end: nat, n: int) {
    || (end == pos + |Decimal.Signed(n)| && At(text, pos, Decimal.Signed(n)))
    || (end == pos + 2 && At(text, pos, [0x2D, 0x30]) && n == 0)
  }

  /** A string in quotes. */
  ghost predicate LiteralWritten(text: Text, pos: nat, end: nat, bytes: Text) {
    pos + 2 <= end <= |text| && text[pos] == 0x22 && text[end - 1] == 0x22 && Spellings.Spells(text[pos + 1..end - 1], bytes)
  }

  /** Elements with commas between them up to the closing bracket, and white space around each. */
  ghost predicate ElementsWritten(text: Text, pos: nat, end: nat, elements: seq<Value>)
    decreases elements, 0
  {
    elements != [] &&
    exists a: nat, b: nat, c: nat ::
      ElementWritten(text, pos, a, b, c, elements[0]) &&
      if |elements| == 1 then Is(text, c, 0x5D) && end == c + 1
      else Is(text, c, 0x2C) && ElementsWritten(text, c + 1, end, elements[1..])
  }

  /** An element in [a, b), and white space up to `c`. */
  ghost predicate ElementWritten(text: Text, pos: nat, a: nat, b: nat, c: nat, v: Value)
    decreases v, 2
  {
    Blank(text, pos, a) && Written(text, a, b, v) && Blank(text, b, c)
  }

  /** Members, likewise, up to the closing brace. */
  ghost predicate MembersWritten(text: Text, pos: nat, end: nat, members: seq<Member>)
    decreases members, 0
  {
    members != [] &&
    exists a: nat, b: nat, c: nat, d: nat ::
      MemberWritten(text, pos, a, b, c, d, members[0].name, members[0].value) &&
      if |members| == 1 then Is(text, d, 0x7D) && end == d + 1
      else Is(text, d, 0x2C) && MembersWritten(text, d + 1, end, members[1..])
  }

  /** A name in [a, b), a colon at `c`, a value behind it, and white space up to `d`. */
  ghost predicate MemberWritten(text: Text, pos: nat, a: nat, b: nat, c: nat, d: nat, name: Text, v: Value)
    decreases v, 4
  {
    && Blank(text, pos, a) && LiteralWritten(text, a, b, name) && Blank(text, b, c) && Is(text, c, 0x3A)
    && Spaced(text, c + 1, d, v)
  }

  /** A value with white space around it in [lo, hi). */
  ghost predicate Spaced(text: Text, lo: nat, hi: nat, v: Value)
    decreases v, 3
  {
    exists a: nat, b: nat :: ElementWritten(text, lo, a, b, hi, v)
  }

  /** A whole text: one value with white space around it. */
  ghost predicate Document(text: Text, v: Value) {
    Spaced(text, 0, |text|, v)
  }

  // ---------------------------------------------------------------------------
  // What is written is read
  // ---------------------------------------------------------------------------

  /** White space is skipped up to the next token, or the end of the text. */
  lemma {:induction false} BlankSkipped(text: Text, lo: nat, hi: nat)
    requires Blank(text, lo, hi) && !IsSpace(Peek(text, hi))
    ensures SkipSpace(text, lo) == hi
    decreases hi - lo
  {
    if lo < hi {
      BlankSkipped(text, lo + 1, hi);
    }
  }

  /** What follows a value cannot continue a number. */
  lemma BlankEndsNumber(text: Text, lo: nat, hi: nat)
    requires Blank(text, lo, hi) && RoundTrip.EndsNumber(Peek(text, hi))
    ensures RoundTrip.EndsNumber(Peek(text, lo))
  {}

  lemma IntegerStart(text: Text, pos: nat, end: nat, n: int)
    requires IntegerWritten(text, pos, end, n)
    ensures pos < |text| && (IsDigit(Peek(text, pos)) || Peek(text, pos) == MINUS)
  {
    hide Decimal.Signed;
    RoundTrip.SignedStart(n);
    if At(text, pos, Decimal.Signed(n)) {
      AtPeek(text, pos, Decimal.Signed(n), 0);
    } else {
      AtPeek(text, pos, [0x2D, 0x30], 0);
    }
  }

  lemma IntegerIsRead(text: Text, pos: nat, end: nat, n: int)
    requires IntegerWritten(text, pos, end, n) && Fits64(n) && RoundTrip.EndsNumber(Peek(text, end))
    ensures var r := ScalarAt(text, pos);
      r.Found? && r.next == end && CanonicalAll([r.value]) == [Event.Integer(AcceptKind(n), n)]
  {
    hide Decimal.Signed;
    if end == pos + |Decimal.Signed(n)| && At(text, pos, Decimal.Signed(n)) {
      RoundTrip.IntegerRead(text, pos, n);
    } else {
      MinusZero(text, pos);
    }
  }

  lemma MinusZero(text: Text, pos: nat)
    requires At(text, pos, [0x2D, 0x30]) && RoundTrip.EndsNumber(Peek(text, pos + 2))
    ensures ScalarAt(text, pos) == Found(Event.Integer(Int32, 0), pos + 2)
    ensures CanonicalAll([Event.Integer(Int32, 0)]) == [Event.Integer(AcceptKind(0), 0)]
  {
    AtPeek(text, pos, [0x2D, 0x30], 0);
    AtPeek(text, pos, [0x2D, 0x30], 1);
    Numbers.IntegerLiteral(text, pos);
    assert Numbers.DecimalValue(text, pos + 1, pos + 1) == 0;
    CanonicalOne(Event.Integer(Int32, 0));
  }

  /** The first byte of a value begins a token. */
  lemma WrittenStart(text: Text, pos: nat, end: nat, v: Value)
    requires Written(text, pos, end, v)
    ensures pos < |text| && !IsSpace(Peek(text, pos)) && Peek(text, pos) != 0
    ensures Peek(text, pos) != RBRACKET && Peek(text, pos) != RBRACE
    ensures Peek(text, pos) == LBRACE <==> v.Object?
    ensures Peek(text, pos) == LBRACKET <==> v.Array?
  {
    hide IntegerWritten, ElementsWritten, MembersWritten, Spellings.Spells;
    if v.Integer? {
      IntegerStart(text, pos, end, v.n);
    } else if v.Null? {
      AtPeek(text, pos, [0x6E, 0x75, 0x6C, 0x6C], 0);
    } else if v.Bool? {
      AtPeek(text, pos, if v.b then [0x74, 0x72, 0x75, 0x65] else [0x66, 0x61, 0x6C, 0x73, 0x65], 0);
    }
  }

  lemma LiteralIsRead(text: Text, pos: nat, end: nat, bytes: Text)
    requires LiteralWritten(text, pos, end, bytes)
    ensures Peek(text, pos) == QUOTE && StringLexer.CharsAt(text, pos + 1) == Found(bytes, end)
  {
    hide Spellings.Spells;
    var t := text[pos + 1..end - 1];
    assert text[pos + 1..pos + 1 + |t + [QUOTE]|] == t + [QUOTE];
    Spellings.SpelledIsRead(text, pos + 1, t, bytes);
  }

  lemma ScalarIsRead(text: Text, pos: nat, end: nat, v: Value)
    requires DoubleFree(v) && !v.Array? && !v.Object?
    requires Written(text, pos, end, v) && RoundTrip.EndsNumber(Peek(text, end))
    ensures RoundTrip.Tells(ValueAt(text, pos), EventsOf(v), end)
  {
    hide ValueAt, ScalarAt, IntegerWritten, LiteralWritten;
    WrittenStart(text, pos, end, v);
    ScalarParts(text, pos);
    if v.Integer? {
      IntegerIsRead(text, pos, end, v.n);
    } else if v.String? {
      LiteralIsRead(text, pos, end, v.bytes);
      StringScalar(text, pos, v.bytes, end);
      CanonicalSame(EventsOf(v));
    } else {
      RoundTrip.LiteralRead(text, pos, v);
      CanonicalSame(EventsOf(v));
      assert [EventsOf(v)[0]] == EventsOf(v);
    }
  }

  lemma StringScalar(text: Text, pos: nat, bytes: Text, end: nat)
    requires Peek(text, pos) == QUOTE && StringLexer.CharsAt(text, pos + 1) == Found(bytes, end)
    ensures ScalarAt(text, pos) == Found(Event.String(bytes), end)
  {
    hide StringLexer.CharsAt;
  }

  /** A value written anywhere is read there, up to its end. */
  lemma {:induction false} WrittenIsRead(text: Text, pos: nat, end: nat, v: Value)
    requires DoubleFree(v) && Written(text, pos, end, v) && RoundTrip.EndsNumber(Peek(text, end))
    ensures RoundTrip.Tells(ValueAt(text, pos), EventsOf(v), end)
    decreases v, 2
  {
    hide ValueAt, SkipSpace;
    if v.Array? {
      ArrayIsRead(text, pos, end, v.elements);
    } else if v.Object? {
      ObjectIsRead(text, pos, end, v.members);
    } else {
      ScalarIsRead(text, pos, end, v);
    }
  }

  lemma {:induction false} ArrayIsRead(text: Text, pos: nat, end: nat, elements: seq<Value>)
    requires AllDoubleFree(elements) && Written(text, pos, end, Value.Array(elements))
    ensures RoundTrip.Tells(ValueAt(text, pos), EventsOf(Value.Array(elements)), end)
    decreases elements, 3
  {
    hide ValueAt, SkipSpace, ElementsWritten, EventsOf, CanonicalAll, DoubleFree;
    ContainerParts(text, pos);
    CanonicalSame([StartArray]);
    ArrayEvents(elements);
    if elements == [] {
      BlankSkipped(text, pos + 1, end - 1);
      CanonicalSame([StartArray, EndArray(0)]);
    } else {
      var first := SkipSpace(text, pos + 1);
      ElementsAreRead(text, pos + 1, end, elements, 0);
      var events := ElementEvents(elements) + [EndArray(|elements|)];
      RoundTrip.TellsAfter([StartArray], ElementsAt(text, first, 0), events, end);
      assert [StartArray] + events == [StartArray] + ElementEvents(elements) + [EndArray(|elements|)];
    }
  }

  lemma ArrayEvents(elements: seq<Value>)
    ensures EventsOf(Value.Array(elements)) == [StartArray] + ElementEvents(elements) + [EndArray(|elements|)]
  {}

  lemma ObjectEvents(members: seq<Member>)
    ensures EventsOf(Value.Object(members)) == [StartObject] + MemberEvents(members) + [EndObject(|members|)]
  {
    hide MemberEvents, ElementEvents;
  }

  lemma ElementIsRead(text: Text, pos: nat, a: nat, b: nat, c: nat, v: Value)
    requires DoubleFree(v) && ElementWritten(text, pos, a, b, c, v) && RoundTrip.EndsNumber(Peek(text, c)) && !IsSpace(Peek(text, c))
    ensures SkipSpace(text, pos) == a && RoundTrip.Tells(ValueAt(text, a), EventsOf(v), b) && SkipSpace(text, b) == c
    ensures Peek(text, a) != RBRACKET && Peek(text, a) != RBRACE
    decreases v, 4
  {
    hide ValueAt, SkipSpace, Written, EventsOf, CanonicalAll, Blank, DoubleFree;
    WrittenStart(text, a, b, v);
    BlankSkipped(text, pos, a);
    BlankSkipped(text, b, c);
    BlankEndsNumber(text, b, c);
    WrittenIsRead(text, a, b, v);
  }

  lemma ElementsTell(text: Text, a: nat, b: nat, c: nat, first: seq<Event>, rest: seq<Event>, end: nat, count: nat)
    requires RoundTrip.Tells(ValueAt(text, a), first, b) && SkipSpace(text, b) == c
    requires RoundTrip.Tells(ElementEnd(text, c, count), rest, end)
    ensures RoundTrip.Tells(ElementsAt(text, a, count), first + rest, end)
  {
    hide ValueAt, ElementsAt, ElementEnd, SkipSpace, CanonicalAll;
    ElementsParts(text, a, count);
    RoundTrip.TellsAfter(ValueAt(text, a).events, ElementEnd(text, c, count), rest, end);
  }

  lemma LastElement(text: Text, c: nat, count: nat)
    requires Is(text, c, 0x5D)
    ensures RoundTrip.Tells(ElementEnd(text, c, count), [EndArray(count + 1)], c + 1)
  {
    hide ElementsAt, SkipSpace;
    CanonicalSame([EndArray(count + 1)]);
  }

  lemma NextElement(text: Text, c: nat, count: nat)
    requires Is(text, c, 0x2C)
    ensures ElementEnd(text, c, count) == ElementsAt(text, SkipSpace(text, c + 1), count + 1)
  {
    hide ElementsAt, SkipSpace;
  }

  /** From just behind a bracket or comma: the white space and the elements. */
  lemma {:induction false} ElementsAreRead(text: Text, pos: nat, end: nat, elements: seq<Value>, count: nat)
    requires AllDoubleFree(elements) && ElementsWritten(text, pos, end, elements)
    ensures var first := SkipSpace(text, pos);
      && Peek(text, first) != RBRACKET
      && RoundTrip.Tells(ElementsAt(text, first, count), ElementEvents(elements) + [EndArray(count + |elements|)], end)
    decreases elements, 2
  {
    hide ValueAt, ElementsAt, ElementEnd, SkipSpace, ElementWritten, EventsOf, CanonicalAll, DoubleFree, RoundTrip.Tells;
    var a: nat, b: nat, c: nat :|
      ElementWritten(text, pos, a, b, c, elements[0]) &&
      if |elements| == 1 then Is(text, c, 0x5D) && end == c + 1
      else Is(text, c, 0x2C) && ElementsWritten(text, c + 1, end, elements[1..]);
    hide ElementsWritten;
    var rest := elements[1..];
    var events := ElementEvents(rest) + [EndArray(count + |elements|)];
    ElementIsRead(text, pos, a, b, c, elements[0]);
    if rest == [] {
      LastElement(text, c, count);
      assert events == [EndArray(count + 1)];
    } else {
      ElementsAreRead(text, c + 1, end, rest, count + 1);
      NextElement(text, c, count);
    }
    ElementsTell(text, a, b, c, EventsOf(elements[0]), events, end, count);
    assert EventsOf(elements[0]) + events == ElementEvents(elements) + [EndArray(count + |elements|)];
  }

  lemma {:induction false} ObjectIsRead(text: Text, pos: nat, end: nat, members: seq<Member>)
    requires MembersDoubleFree(members) && Written(text, pos, end, Value.Object(members))
    ensures RoundTrip.Tells(ValueAt(text, pos), EventsOf(Value.Object(members)), end)
    decreases members, 3
  {
    hide ValueAt, SkipSpace, MembersWritten, EventsOf, CanonicalAll, DoubleFree;
    ContainerParts(text, pos);
    CanonicalSame([StartObject]);
    ObjectEvents(members);
    if members == [] {
      BlankSkipped(text, pos + 1, end - 1);
      CanonicalSame([StartObject, EndObject(0)]);
    } else {
      var first := SkipSpace(text, pos + 1);
      MembersAreRead(text, pos + 1, end, members, 0);
      var events := MemberEvents(members) + [EndObject(|members|)];
      RoundTrip.TellsAfter([StartObject], MembersAt(text, first, 0), events, end);
      assert [StartObject] + events == [StartObject] + MemberEvents(members) + [EndObject(|members|)];
    }
  }

  /** The name, the colon and the value of a member, with the white space around them. */
  lemma MemberIsRead(text: Text, pos: nat, a: nat, b: nat, c: nat, d: nat, m: Member, rest: seq<Event>, end: nat, count: nat)
    requires DoubleFree(m.value) && MemberWritten(text, pos, a, b, c, d, m.name, m.value)
    requires RoundTrip.EndsNumber(Peek(text, d)) && !IsSpace(Peek(text, d))
    requires RoundTrip.Tells(MemberEnd(text, d, count), rest, end)
    ensures SkipSpace(text, pos) == a && Peek(text, a) == QUOTE
    ensures RoundTrip.Tells(MembersAt(text, a, count), [Key(m.name)] + (EventsOf(m.value) + rest), end)
    decreases m.value, 5
  {
    hide ValueAt, MembersAt, MemberRest, MemberEnd, SkipSpace, ElementWritten, EventsOf, CanonicalAll, Blank, LiteralWritten, DoubleFree,
      StringLexer.CharsAt;
    var e: nat, f: nat :| ElementWritten(text, c + 1, e, f, d, m.value);
    ElementIsRead(text, c + 1, e, f, d, m.value);
    LiteralIsRead(text, a, b, m.name);
    BlankSkipped(text, pos, a);
    BlankSkipped(text, b, c);
    MembersParts(text, a, count);
    MemberRestParts(text, c, count);
    RoundTrip.TellsAfter(ValueAt(text, e).events, MemberEnd(text, d, count), rest, end);
    CanonicalSame([Key(m.name)]);
    RoundTrip.TellsAfter([Key(m.name)], MemberRest(text, c, count), EventsOf(m.value) + rest, end);
  }

  lemma LastMember(text: Text, d: nat, count: nat)
    requires Is(text, d, 0x7D)
    ensures RoundTrip.Tells(MemberEnd(text, d, count), [EndObject(count + 1)], d + 1)
  {
    hide MembersAt, SkipSpace;
    CanonicalSame([EndObject(count + 1)]);
  }

  lemma NextMember(text: Text, d: nat, count: nat)
    requires Is(text, d, 0x2C)
    ensures MemberEnd(text, d, count) == MembersAt(text, SkipSpace(text, d + 1), count + 1)
  {
    hide MembersAt, SkipSpace;
  }

  /** From just behind a brace or comma: the white space and the members. */
  lemma {:induction false} MembersAreRead(text: Text, pos: nat, end: nat, members: seq<Member>, count: nat)
    requires MembersDoubleFree(members) && MembersWritten(text, pos, end, members)
    ensures var first := SkipSpace(text, pos);
      && Peek(text, first) == QUOTE
      && RoundTrip.Tells(MembersAt(text, first, count), MemberEvents(members) + [EndObject(count + |members|)], end)
    decreases members, 2
  {
    hide ValueAt, MembersAt, MemberRest, MemberEnd, SkipSpace, MemberWritten, EventsOf, CanonicalAll, DoubleFree, RoundTrip.Tells;
    var a: nat, b: nat, c: nat, d: nat :|
      MemberWritten(text, pos, a, b, c, d, members[0].name, members[0].value) &&
      if |members| == 1 then Is(text, d, 0x7D) && end == d + 1
      else Is(text, d, 0x2C) && MembersWritten(text, d + 1, end, members[1..]);
    hide MembersWritten;
    var m, rest := members[0], members[1..];
    var events := MemberEvents(rest) + [EndObject(count + |members|)];
    if rest == [] {
      LastMember(text, d, count);
      assert events == [EndObject(count + 1)];
    } else {
      MembersAreRead(text, d + 1, end, rest, count + 1);
      NextMember(text, d, count);
    }
    MemberIsRead(text, pos, a, b, c, d, m, events, end, count);
    RoundTrip.MemberEventsParts(members);
    assert [Key(m.name)] + (EventsOf(m.value) + events) == MemberEvents(members) + [EndObject(count + |members|)];
  }

  /** Every text that RFC 8259 allows for a double-free value, wherever it has white space, is accepted with the value's events. */
  lemma DocumentIsRead(text: Text, v: Value)
    requires DoubleFree(v) && Document(text, v)
    ensures DocumentAt(text).outcome == Accepted(|text|) && CanonicalAll(DocumentAt(text).events) == EventsOf(v)
  {
    hide ValueAt, SkipSpace, Written, EventsOf, CanonicalAll, DoubleFree;
    assert Spaced(text, 0, |text|, v);
    var a: nat, b: nat :| ElementWritten(text, 0, a, b, |text|, v);
    WrittenStart(text, a, b, v);
    ElementIsRead(text, 0, a, b, |text|, v);
  }

  // ---------------------------------------------------------------------------
  // What is read is written
  // ---------------------------------------------------------------------------

  /** White space is all that is skipped. */
  lemma {:induction false} SkippedIsBlank(text: Text, pos: nat)
    requires pos <= |text|
    ensures Blank(text, pos, SkipSpace(text, pos))
    decreases |text| - pos
  {
    if IsSpace(Peek(text, pos)) {
      SkippedIsBlank(text, pos + 1);
    }
  }

  lemma {:induction false} DigitsAreWritten(text: Text, lo: nat, hi: nat)
    requires lo < hi <= |text| && forall k :: lo <= k < hi ==> IsDigit(Peek(text, k))
    requires hi - lo > 1 ==> Peek(text, lo) != ZERO
    ensures text[lo..hi] == Decimal.Digits(Numbers.DecimalValue(text, lo, hi))
    ensures Peek(text, lo) != ZERO ==> Numbers.DecimalValue(text, lo, hi) > 0
    decreases hi - lo
  {
    var d := Peek(text, hi - 1);
    if hi - lo == 1 {
      assert Numbers.DecimalValue(text, lo, lo) == 0;
      assert text[lo..hi] == [d];
    } else {
      DigitsAreWritten(text, lo, hi - 1);
      var n := Numbers.DecimalValue(text, lo, hi - 1);
      assert Numbers.DecimalValue(text, lo, hi) == 10 * n + DigitOf(d);
      assert (10 * n + DigitOf(d)) / 10 == n && (10 * n + DigitOf(d)) % 10 == DigitOf(d);
      assert text[lo..hi] == text[lo..hi - 1] + [d];
    }
  }

  lemma IntegerIsWritten(text: Text, pos: nat)
    requires Numbers.NumberAt(text, pos).Found? && Numbers.NumberAt(text, pos).value.Integer?
    ensures var r := Numbers.NumberAt(text, pos); Fits64(r.value.n) && IntegerWritten(text, pos, r.next, r.value.n)
  {
    hide Numbers.DecimalValue, Numbers.Scale, Numbers.FractionAt, Numbers.ExponentAt, Numbers.DigitsEnd, Decimal.Digits;
    var negative := Peek(text, pos) == MINUS;
    var first := if negative then pos + 1 else pos;
    var end := Numbers.IntegerEnd(text, first);
    var v := Numbers.DecimalValue(text, first, end);
    assert Peek(text, end) !in {PERIOD, LOWER_E, UPPER_E};
    Numbers.IntegerLiteral(text, pos);
    IntegerDigits(text, first);
    DigitsAreWritten(text, first, end);
    if negative {
      assert text[pos..end] == [MINUS] + text[first..end];
      if v == 0 {
        ZeroDigits();
        assert text[pos..pos + 2] == [0x2D, 0x30];
      }
    }
  }

  lemma ZeroDigits()
    ensures Decimal.Digits(0) == [ZERO]
  {}

  lemma IntegerDigits(text: Text, first: nat)
    requires IsDigit(Peek(text, first))
    ensures var end := Numbers.IntegerEnd(text, first);
      && first < end <= |text| && (forall k :: first <= k < end ==> IsDigit(Peek(text, k)))
      && (end - first > 1 ==> Peek(text, first) != ZERO)
  {}

  lemma {:induction false} LiteralIsThere(text: Text, pos: nat, rest: Text, event: Event)
    requires pos <= |text| && LiteralAt(text, pos, rest, event).Found?
    ensures At(text, pos, rest) && LiteralAt(text, pos, rest, event).next == pos + |rest|
    decreases |rest|
  {
    if rest != [] {
      LiteralIsThere(text, pos + 1, rest[1..], event);
      assert text[pos..pos + |rest|] == [text[pos]] + text[pos + 1..pos + |rest|];
      assert rest == [rest[0]] + rest[1..];
    }
  }

  lemma WordIsWritten(text: Text, pos: nat, first: Byte, rest: Text, event: Event)
    requires Peek(text, pos) == first && first != 0 && LiteralAt(text, pos + 1, rest, event).Found?
    ensures At(text, pos, [first] + rest) && LiteralAt(text, pos + 1, rest, event).next == pos + 1 + |rest|
  {
    LiteralIsThere(text, pos + 1, rest, event);
    assert text[pos..pos + 1] == [first];
    AtSplit(text, pos, [first], rest);
  }

  /** No number of the events is a double. */
  predicate NoDouble(events: seq<Event>) {
    forall i :: 0 <= i < |events| ==> !events[i].Double?
  }

  lemma NoDoubleConcat(a: seq<Event>, b: seq<Event>)
    ensures NoDouble(a + b) <==> NoDouble(a) && NoDouble(b)
  {
    assert forall i :: 0 <= i < |a| ==> (a + b)[i] == a[i];
    assert forall i :: 0 <= i < |b| ==> (a + b)[|a| + i] == b[i];
  }

  lemma ScalarIsWritten(text: Text, pos: nat) returns (v: Value)
    requires ScalarAt(text, pos).Found? && !ScalarAt(text, pos).value.Double?
    ensures DoubleFree(v) && Written(text, pos, ScalarAt(text, pos).next, v)
    ensures CanonicalAll([ScalarAt(text, pos).value]) == EventsOf(v)
  {
    hide StringLexer.CharsAt, Numbers.NumberAt, LiteralAt, Spellings.Spells, IntegerWritten;
    var c, r := Peek(text, pos), ScalarAt(text, pos);
    CanonicalOne(r.value);
    if c == LOWER_N {
      v := Value.Null;
      WordIsWritten(text, pos, c, ULL, Event.Null);
      assert [c] + ULL == [0x6E, 0x75, 0x6C, 0x6C];
    } else if c == LOWER_T {
      v := Value.Bool(true);
      WordIsWritten(text, pos, c, RUE, Event.Bool(true));
      assert [c] + RUE == [0x74, 0x72, 0x75, 0x65];
    } else if c == LOWER_F {
      v := Value.Bool(false);
      WordIsWritten(text, pos, c, ALSE, Event.Bool(false));
      assert [c] + ALSE == [0x66, 0x61, 0x6C, 0x73, 0x65];
    } else if c == QUOTE {
      v := Value.String(r.value.bytes);
      StringIsWritten(text, pos);
    } else {
      v := Value.Integer(r.value.n);
      IntegerIsWritten(text, pos);
    }
  }

  lemma StringIsWritten(text: Text, pos: nat)
    requires Peek(text, pos) == QUOTE && StringLexer.CharsAt(text, pos + 1).Found?
    ensures LiteralWritten(text, pos, StringLexer.CharsAt(text, pos + 1).next, StringLexer.CharsAt(text, pos + 1).value)
  {
    hide StringLexer.CharsAt, Spellings.Spells;
    Spellings.ReadIsSpelled(text, pos + 1);
  }

  lemma {:induction false} ValueIsWritten(text: Text, pos: nat) returns (v: Value)
    requires ValueAt(text, pos).outcome.Accepted? && NoDouble(ValueAt(text, pos).events)
    ensures DoubleFree(v) && Written(text, pos, ValueAt(text, pos).outcome.pos, v)
    ensures CanonicalAll(ValueAt(text, pos).events) == EventsOf(v)
    decreases |text| - pos, 2
  {
    if Peek(text, pos) == LBRACKET || Peek(text, pos) == LBRACE {
      ContainerParts(text, pos);
      hide ValueAt, ElementsAt, MembersAt, SkipSpace, CanonicalAll, EventsOf, Written;
      var first := SkipSpace(text, pos + 1);
      if Peek(text, pos) == LBRACKET && Peek(text, first) == RBRACKET {
        v := Value.Array([]);
        EmptyIsWritten(text, pos, v);
      } else if Peek(text, pos) == LBRACKET {
        NoDoubleConcat([StartArray], ElementsAt(text, first, 0).events);
        v := ArrayIsWritten(text, pos);
      } else if Peek(text, first) == RBRACE {
        v := Value.Object([]);
        EmptyIsWritten(text, pos, v);
      } else {
        NoDoubleConcat([StartObject], MembersAt(text, first, 0).events);
        v := ObjectIsWritten(text, pos);
      }
    } else {
      ScalarParts(text, pos);
      hide ValueAt, ScalarAt;
      assert ValueAt(text, pos).events[0] == ScalarAt(text, pos).value;
      v := ScalarIsWritten(text, pos);
    }
  }

  lemma ArrayIs(text: Text, pos: nat, end: nat, elements: seq<Value>)
    requires Is(text, pos, 0x5B) && AllDoubleFree(elements)
    requires if elements == [] then pos + 2 <= end && Blank(text, pos + 1, end - 1) && Is(text, end - 1, 0x5D)
      else ElementsWritten(text, pos + 1, end, elements)
    ensures DoubleFree(Value.Array(elements)) && Written(text, pos, end, Value.Array(elements))
  {
    hide MembersWritten, ElementsWritten, Blank;
  }

  lemma EmptyIsWritten(text: Text, pos: nat, v: Value)
    requires var close := SkipSpace(text, pos + 1);
      || (v == Value.Array([]) && Is(text, pos, 0x5B) && Is(text, close, 0x5D))
      || (v == Value.Object([]) && Is(text, pos, 0x7B) && Is(text, close, 0x7D))
    ensures DoubleFree(v) && Written(text, pos, SkipSpace(text, pos + 1) + 1, v)
    ensures EventsOf(v) == CanonicalAll(if v.Array? then [StartArray, EndArray(0)] else [StartObject, EndObject(0)])
  {
    hide SkipSpace, ElementsWritten, MembersWritten;
    SkippedIsBlank(text, pos + 1);
    if v.Array? {
      ArrayIs(text, pos, SkipSpace(text, pos + 1) + 1, []);
      CanonicalSame([StartArray, EndArray(0)]);
    } else {
      ObjectIs(text, pos, SkipSpace(text, pos + 1) + 1, []);
      CanonicalSame([StartObject, EndObject(0)]);
    }
  }

  lemma {:induction false} ArrayIsWritten(text: Text, pos: nat) returns (v: Value)
    requires Peek(text, pos) == LBRACKET
    requires var r := ElementsAt(text, SkipSpace(text, pos + 1), 0); r.outcome.Accepted? && NoDouble(r.events)
    ensures var r := ElementsAt(text, SkipSpace(text, pos + 1), 0);
      DoubleFree(v) && Written(text, pos, r.outcome.pos, v) && CanonicalAll([StartArray] + r.events) == EventsOf(v)
    decreases |text| - pos, 1
  {
    hide ElementsAt, CanonicalAll, ElementsWritten, SkipSpace, Written, EventsOf, DoubleFree;
    var r := ElementsAt(text, SkipSpace(text, pos + 1), 0);
    var elements := ElementsAreWritten(text, pos + 1, 0);
    v := Value.Array(elements);
    ArrayEvents(elements);
    ArrayIs(text, pos, r.outcome.pos, elements);
    CanonicalSame([StartArray]);
    CanonicalConcat([StartArray], r.events);
    assert [StartArray] + (ElementEvents(elements) + [EndArray(|elements|)])
      == [StartArray] + ElementEvents(elements) + [EndArray(|elements|)];
  }

  lemma JoinElements(text: Text, from: nat, a: nat, b: nat, c: nat, end: nat, v: Value, more: seq<Value>)
    requires ElementWritten(text, from, a, b, c, v)
    requires if more == [] then Is(text, c, 0x5D) && end == c + 1 else Is(text, c, 0x2C) && ElementsWritten(text, c + 1, end, more)
    ensures ElementsWritten(text, from, end, [v] + more)
    ensures ElementEvents([v] + more) == EventsOf(v) + ElementEvents(more)
  {
    hide ElementWritten, EventsOf;
    var elements := [v] + more;
    assert elements[0] == v && elements[1..] == more;
    if more != [] {
      hide ElementEvents;
      assert ElementWritten(text, from, a, b, c, elements[0]) && |elements| != 1;
    }
  }

  /** What follows an element: the others and their events. */
  lemma {:induction false} ElementEndIsWritten(text: Text, c: nat, count: nat) returns (more: seq<Value>)
    requires ElementEnd(text, c, count).outcome.Accepted? && NoDouble(ElementEnd(text, c, count).events)
    ensures AllDoubleFree(more)
    ensures var r := ElementEnd(text, c, count);
      && (if more == [] then Is(text, c, 0x5D) && r.outcome.pos == c + 1
          else Is(text, c, 0x2C) && ElementsWritten(text, c + 1, r.outcome.pos, more))
      && CanonicalAll(r.events) == ElementEvents(more) + [EndArray(count + 1 + |more|)]
    decreases |text| - c, 1
  {
    ElementEndParts(text, c, count);
    hide ElementsAt, ElementEnd, SkipSpace, ElementsWritten, CanonicalAll, DoubleFree;
    if Peek(text, c) == COMMA {
      more := ElementsAreWritten(text, c + 1, count + 1);
    } else {
      more := [];
      CanonicalSame([EndArray(count + 1)]);
      assert [] + [EndArray(count + 1)] == [EndArray(count + 1)];
    }
  }

  lemma {:induction false} ElementsAreWritten(text: Text, from: nat, count: nat) returns (elements: seq<Value>)
    requires from <= |text|
    requires var r := ElementsAt(text, SkipSpace(text, from), count); r.outcome.Accepted? && NoDouble(r.events)
    ensures elements != [] && AllDoubleFree(elements)
    ensures var r := ElementsAt(text, SkipSpace(text, from), count);
      && ElementsWritten(text, from, r.outcome.pos, elements)
      && CanonicalAll(r.events) == ElementEvents(elements) + [EndArray(count + |elements|)]
    decreases |text| - SkipSpace(text, from), 3
  {
    var a := SkipSpace(text, from);
    ElementsParts(text, a, count);
    hide ValueAt, ElementsAt, ElementEnd, CanonicalAll, Written, ElementsWritten, EventsOf, ElementEvents, DoubleFree, SkipSpace, Blank;
    var value := ValueAt(text, a);
    var b := value.outcome.pos;
    var c := SkipSpace(text, b);
    var rest := ElementEnd(text, c, count);
    NoDoubleConcat(value.events, rest.events);
    var v := ValueIsWritten(text, a);
    SkippedIsBlank(text, from);
    SkippedIsBlank(text, b);
    assert ElementWritten(text, from, a, b, c, v);
    CanonicalConcat(value.events, rest.events);
    var more := ElementEndIsWritten(text, c, count);
    elements := [v] + more;
    JoinElements(text, from, a, b, c, rest.outcome.pos, v, more);
    assert EventsOf(v) + (ElementEvents(more) + [EndArray(count + |elements|)])
      == (EventsOf(v) + ElementEvents(more)) + [EndArray(count + |elements|)];
  }

  lemma ObjectIs(text: Text, pos: nat, end: nat, members: seq<Member>)
    requires Is(text, pos, 0x7B) && MembersDoubleFree(members)
    requires if members == [] then pos + 2 <= end && Blank(text, pos + 1, end - 1) && Is(text, end - 1, 0x7D)
      else MembersWritten(text, pos + 1, end, members)
    ensures DoubleFree(Value.Object(members)) && Written(text, pos, end, Value.Object(members))
  {
    hide MembersWritten, ElementsWritten, Blank;
  }

  lemma {:induction false} ObjectIsWritten(text: Text, pos: nat) returns (v: Value)
    requires Peek(text, pos) == LBRACE
    requires var r := MembersAt(text, SkipSpace(text, pos + 1), 0); r.outcome.Accepted? && NoDouble(r.events)
    ensures var r := MembersAt(text, SkipSpace(text, pos + 1), 0);
      DoubleFree(v) && Written(text, pos, r.outcome.pos, v) && CanonicalAll([StartObject] + r.events) == EventsOf(v)
    decreases |text| - pos, 1
  {
    hide MembersAt, CanonicalAll, MembersWritten, SkipSpace, Written, EventsOf, DoubleFree;
    var r := MembersAt(text, SkipSpace(text, pos + 1), 0);
    var members := MembersAreWritten(text, pos + 1, 0);
    v := Value.Object(members);
    ObjectEvents(members);
    ObjectIs(text, pos, r.outcome.pos, members);
    CanonicalSame([StartObject]);
    CanonicalConcat([StartObject], r.events);
    assert [StartObject] + (MemberEvents(members) + [EndObject(|members|)])
      == [StartObject] + MemberEvents(members) + [EndObject(|members|)];
  }

  lemma JoinMembers(text: Text, from: nat, a: nat, b: nat, c: nat, d: nat, end: nat, m: Member, more: seq<Member>)
    requires MemberWritten(text, from, a, b, c, d, m.name, m.value)
    requires if more == [] then Is(text, d, 0x7D) && end == d + 1 else Is(text, d, 0x2C) && MembersWritten(text, d + 1, end, more)
    ensures MembersWritten(text, from, end, [m] + more)
    ensures MemberEvents([m] + more) == [Key(m.name)] + (EventsOf(m.value) + MemberEvents(more))
  {
    hide MemberWritten, EventsOf;
    var members := [m] + more;
    assert members[0] == m && members[1..] == more;
    RoundTrip.MemberEventsParts(members);
    if more != [] {
      hide MemberEvents;
      assert MemberWritten(text, from, a, b, c, d, members[0].name, members[0].value) && |members| != 1;
    }
  }

  /** What follows a member: the others and their events. */
  lemma {:induction false} MemberEndIsWritten(text: Text, d: nat, count: nat) returns (more: seq<Member>)
    requires MemberEnd(text, d, count).outcome.Accepted? && NoDouble(MemberEnd(text, d, count).events)
    ensures MembersDoubleFree(more)
    ensures var r := MemberEnd(text, d, count);
      && (if more == [] then Is(text, d, 0x7D) && r.outcome.pos == d + 1
          else Is(text, d, 0x2C) && MembersWritten(text, d + 1, r.outcome.pos, more))
      && CanonicalAll(r.events) == MemberEvents(more) + [EndObject(count + 1 + |more|)]
    decreases |text| - d, 1
  {
    MemberEndParts(text, d, count);
    hide MembersAt, MemberEnd, SkipSpace, MembersWritten, CanonicalAll, DoubleFree;
    if Peek(text, d) == COMMA {
      more := MembersAreWritten(text, d + 1, count + 1);
    } else {
      more := [];
      CanonicalSame([EndObject(count + 1)]);
      assert [] + [EndObject(count + 1)] == [EndObject(count + 1)];
    }
  }

  /** From the colon on: the value and what follows it. */
  lemma {:induction false} MemberRestIsWritten(text: Text, c: nat, count: nat) returns (d: nat, v: Value, more: seq<Member>)
    requires MemberRest(text, c, count).outcome.Accepted? && NoDouble(MemberRest(text, c, count).events)
    ensures Is(text, c, 0x3A) && DoubleFree(v) && MembersDoubleFree(more) && Spaced(text, c + 1, d, v)
    ensures var r := MemberRest(text, c, count);
      && (if more == [] then Is(text, d, 0x7D) && r.outcome.pos == d + 1
          else Is(text, d, 0x2C) && MembersWritten(text, d + 1, r.outcome.pos, more))
      && CanonicalAll(r.events) == EventsOf(v) + (MemberEvents(more) + [EndObject(count + 1 + |more|)])
    decreases |text| - c, 0
  {
    MemberRestParts(text, c, count);
    hide ValueAt, MemberRest, MemberEnd, CanonicalAll, Written, MembersWritten, EventsOf, DoubleFree, SkipSpace, Blank;
    var e := SkipSpace(text, c + 1);
    var value := ValueAt(text, e);
    var f := value.outcome.pos;
    d := SkipSpace(text, f);
    var rest := MemberEnd(text, d, count);
    NoDoubleConcat(value.events, rest.events);
    v := ValueIsWritten(text, e);
    SkippedIsBlank(text, c + 1);
    SkippedIsBlank(text, f);
    assert ElementWritten(text, c + 1, e, f, d, v);
    CanonicalConcat(value.events, rest.events);
    more := MemberEndIsWritten(text, d, count);
  }

  lemma {:induction false} MembersAreWritten(text: Text, from: nat, count: nat) returns (members: seq<Member>)
    requires from <= |text|
    requires var r := MembersAt(text, SkipSpace(text, from), count); r.outcome.Accepted? && NoDouble(r.events)
    ensures members != [] && MembersDoubleFree(members)
    ensures var r := MembersAt(text, SkipSpace(text, from), count);
      && MembersWritten(text, from, r.outcome.pos, members)
      && CanonicalAll(r.events) == MemberEvents(members) + [EndObject(count + |members|)]
    decreases |text| - SkipSpace(text, from), 1
  {
    var a := SkipSpace(text, from);
    MembersParts(text, a, count);
    hide MembersAt, MemberRest, StringLexer.CharsAt, CanonicalAll, MembersWritten, EventsOf, MemberEvents, DoubleFree, SkipSpace, Blank,
      Spaced, LiteralWritten;
    var name, b := StringLexer.CharsAt(text, a + 1).value, StringLexer.CharsAt(text, a + 1).next;
    var c := SkipSpace(text, b);
    StringIsWritten(text, a);
    SkippedIsBlank(text, from);
    SkippedIsBlank(text, b);
    var rest := MemberRest(text, c, count);
    NoDoubleConcat([Key(name)], rest.events);
    var d, v, more := MemberRestIsWritten(text, c, count);
    var m := Member(name, v);
    assert MemberWritten(text, from, a, b, c, d, name, v);
    CanonicalConcat([Key(name)], rest.events);
    CanonicalSame([Key(name)]);
    members := [m] + more;
    JoinMembers(text, from, a, b, c, d, rest.outcome.pos, m, more);
    var end := [EndObject(count + |members|)];
    assert [Key(name)] + (EventsOf(v) + (MemberEvents(more) + end)) == ([Key(name)] + (EventsOf(v) + MemberEvents(more))) + end;
  }

  /** Every accepted text without doubles writes a value, up to its first NUL if it has one, and that value's events are sent. */
  lemma DocumentIsWritten(text: Text) returns (v: Value)
    requires DocumentAt(text).outcome.Accepted? && NoDouble(DocumentAt(text).events)
    ensures DocumentAt(text).outcome.pos <= |text| && Peek(text, DocumentAt(text).outcome.pos) == 0
    ensures DoubleFree(v) && Spaced(text, 0, DocumentAt(text).outcome.pos, v)
    ensures CanonicalAll(DocumentAt(text).events) == EventsOf(v)
  {
    hide ValueAt, SkipSpace, Written, CanonicalAll, EventsOf, DoubleFree, Blank;
    var a := SkipSpace(text, 0);
    v := ValueIsWritten(text, a);
    SkippedIsBlank(text, 0);
    SkippedIsBlank(text, ValueAt(text, a).outcome.pos);
    assert ElementWritten(text, 0, a, ValueAt(text, a).outcome.pos, DocumentAt(text).outcome.pos, v);
  }

  lemma {:induction false} ValueHasNoDouble(v: Value)
    requires DoubleFree(v)
    ensures NoDouble(EventsOf(v))
    decreases v, 1
  {
    match v {
      case Array(elements) =>
        ElementsHaveNoDouble(elements);
        NoDoubleConcat([StartArray], ElementEvents(elements));
        NoDoubleConcat([StartArray] + ElementEvents(elements), [EndArray(|elements|)]);
      case Object(members) =>
        MembersHaveNoDouble(members);
        NoDoubleConcat([StartObject], MemberEvents(members));
        NoDoubleConcat([StartObject] + MemberEvents(members), [EndObject(|members|)]);
      case _ =>
    }
  }

  lemma {:induction false} ElementsHaveNoDouble(elements: seq<Value>)
    requires AllDoubleFree(elements)
    ensures NoDouble(ElementEvents(elements))
    decreases elements, 0
  {
    hide EventsOf, DoubleFree;
    if elements != [] {
      ValueHasNoDouble(elements[0]);
      ElementsHaveNoDouble(elements[1..]);
      NoDoubleConcat(EventsOf(elements[0]), ElementEvents(elements[1..]));
    }
  }

  lemma {:induction false} MembersHaveNoDouble(members: seq<Member>)
    requires MembersDoubleFree(members)
    ensures NoDouble(MemberEvents(members))
    decreases members, 0
  {
    hide EventsOf, DoubleFree;
    if members != [] {
      ValueHasNoDouble(members[0].value);
      MembersHaveNoDouble(members[1..]);
      RoundTrip.MemberEventsParts(members);
      NoDoubleConcat(EventsOf(members[0].value), MemberEvents(members[1..]));
      NoDoubleConcat([Key(members[0].name)], EventsOf(members[0].value) + MemberEvents(members[1..]));
    }
  }

  lemma {:induction false} CanonicalHasNoDouble(events: seq<Event>)
    ensures NoDouble(CanonicalAll(events)) <==> NoDouble(events)
    decreases |events|
  {
    if events != [] {
      CanonicalHasNoDouble(events[1..]);
      NoDoubleConcat([events[0]], events[1..]);
      NoDoubleConcat([Canonical(events[0])], CanonicalAll(events[1..]));
      assert [events[0]] + events[1..] == events;
      assert [events[0]][0] == events[0] && [Canonical(events[0])][0] == Canonical(events[0]);
    }
  }

  /** The reader takes a whole text for a value exactly when RFC 8259 lets the text stand for it. */
  lemma ReadsExactly(text: Text, v: Value)
    requires DoubleFree(v)
    ensures Document(text, v) <==>
      DocumentAt(text).outcome == Accepted(|text|) && CanonicalAll(DocumentAt(text).events) == EventsOf(v)
  {
    hide DocumentAt, Spaced, CanonicalAll, EventsOf, DoubleFree, NoDouble;
    if Document(text, v) {
      DocumentIsRead(text, v);
    }
    if DocumentAt(text).outcome == Accepted(|text|) && CanonicalAll(DocumentAt(text).events) == EventsOf(v) {
      ValueHasNoDouble(v);
      CanonicalHasNoDouble(DocumentAt(text).events);
      var w := DocumentIsWritten(text);
      Documents.EventsDetermineTree(v, w);
    }
  }
}
