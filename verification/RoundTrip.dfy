/** Reading back what the writer wrote. */
module RoundTrip {
  import opened Bytes
  import opened Events
  import opened Grammar
  import opened Values
  import opened Printing
  import Decimal
  import Documents
  import Numbers
  import StringLexer
  import Utf8

  // ---------------------------------------------------------------------------
  // Strings
  // ---------------------------------------------------------------------------

  /** One escaped byte is read back as that byte. */
  lemma EscapedByte(text: Text, pos: nat, c: Byte)
    requires At(text, pos, Escaped(c))
    ensures StringLexer.CharsAt(text, pos) == StringLexer.Before([c], StringLexer.CharsAt(text, pos + |Escaped(c)|))
  {
    var e := Escaped(c);
    AtPeek(text, pos, e, 0);
    if EscapeCode(c) == LOWER_U {
      UnicodeEscape(text, pos, c);
    } else if EscapeCode(c) != 0 {
      AtPeek(text, pos, e, 1);
    }
  }

  /** \u00XX is read back as one byte. */
  lemma UnicodeEscape(text: Text, pos: nat, c: Byte)
    requires At(text, pos, Escaped(c)) && EscapeCode(c) == LOWER_U
    ensures StringLexer.EscapeAt(text, pos) == Found([c], pos + 6)
  {
    var e := Escaped(c);
    AtPeek(text, pos, e, 1);
    AtPeek(text, pos, e, 2);
    AtPeek(text, pos, e, 3);
    AtPeek(text, pos, e, 4);
    AtPeek(text, pos, e, 5);
    assert StringLexer.HexRun(text, pos + 2, 1) == 0;
    assert StringLexer.HexRun(text, pos + 2, 2) == 0;
    assert StringLexer.HexRun(text, pos + 2, 3) == c / 0x10;
    assert StringLexer.HexRun(text, pos + 2, 4) == c;
    assert StringLexer.Hex4At(text, pos + 2, pos) == Found(c as nat, pos + 6);
    assert Utf8.Encode(c) == [c];
  }

  lemma {:induction false} EscapedString(text: Text, pos: nat, bytes: Text)
    requires At(text, pos, EscapedAll(bytes) + [QUOTE])
    ensures StringLexer.CharsAt(text, pos) == Found(bytes, pos + |EscapedAll(bytes)| + 1)
    decreases |bytes|
  {
    hide StringLexer.CharsAt, Escaped;
    if bytes == [] {
      AtPeek(text, pos, EscapedAll(bytes) + [QUOTE], 0);
      ClosingQuote(text, pos);
    } else {
      var head, tail := Escaped(bytes[0]), EscapedAll(bytes[1..]);
      assert EscapedAll(bytes) + [QUOTE] == head + (tail + [QUOTE]);
      AtSplit(text, pos, head, tail + [QUOTE]);
      EscapedByte(text, pos, bytes[0]);
      EscapedString(text, pos + |head|, bytes[1..]);
      assert [bytes[0]] + bytes[1..] == bytes;
    }
  }

  lemma ClosingQuote(text: Text, pos: nat)
    requires Peek(text, pos) == QUOTE
    ensures StringLexer.CharsAt(text, pos) == Found([], pos + 1)
  {}

  lemma QuotedString(text: Text, pos: nat, bytes: Text)
    requires At(text, pos, Quoted(bytes))
    ensures Peek(text, pos) == QUOTE
    ensures StringLexer.CharsAt(text, pos + 1) == Found(bytes, pos + |Quoted(bytes)|)
  {
    hide StringLexer.CharsAt;
    AtPeek(text, pos, Quoted(bytes), 0);
    assert Quoted(bytes) == [QUOTE] + (EscapedAll(bytes) + [QUOTE]);
    AtSplit(text, pos, [QUOTE], EscapedAll(bytes) + [QUOTE]);
    EscapedString(text, pos + 1, bytes);
  }

  // ---------------------------------------------------------------------------
  // Numbers
  // ---------------------------------------------------------------------------

  /** A byte that cannot continue a number literal. */
  predicate EndsNumber(c: Byte) {
    !IsDigit(c) && c != PERIOD && c != LOWER_E && c != UPPER_E
  }

  lemma {:induction false} DigitsScan(text: Text, pos: nat, n: nat)
    requires At(text, pos, Decimal.Digits(n))
    ensures Numbers.DecimalValue(text, pos, pos + |Decimal.Digits(n)|) == n
    ensures forall k :: pos <= k < pos + |Decimal.Digits(n)| ==> IsDigit(Peek(text, k))
    ensures n > 0 ==> Peek(text, pos) != ZERO
    decreases n
  {
    var d := Decimal.Digits(n);
    AtPeek(text, pos, d, |d| - 1);
    if n < 10 {
      assert Numbers.DecimalValue(text, pos, pos) == 0;
    } else {
      AtSplit(text, pos, Decimal.Digits(n / 10), [ZERO + n % 10]);
      DigitsScan(text, pos, n / 10);
    }
  }

  lemma {:induction false} DigitsRun(text: Text, pos: nat, end: nat)
    requires pos <= end && !IsDigit(Peek(text, end))
    requires forall k :: pos <= k < end ==> IsDigit(Peek(text, k))
    ensures Numbers.DigitsEnd(text, pos) == end
    decreases end - pos
  {
    if pos < end {
      DigitsRun(text, pos + 1, end);
    }
  }

  lemma NumberScan(text: Text, pos: nat, n: int)
    requires At(text, pos, Decimal.Signed(n)) && Fits64(n)
    requires EndsNumber(Peek(text, pos + |Decimal.Signed(n)|))
    ensures var r := Numbers.NumberAt(text, pos);
      r.Found? && r.next == pos + |Decimal.Signed(n)| && r.value.Integer? && r.value.n == n
  {
    hide Decimal.Digits, Numbers.DecimalValue, Numbers.Scale, Numbers.FractionAt, Numbers.ExponentAt, Numbers.IntegerEnd;
    var magnitude: nat := if n < 0 then -n else n;
    var first := if n < 0 then pos + 1 else pos;
    if n < 0 {
      AtSplit(text, pos, [MINUS], Decimal.Digits(magnitude));
      AtPeek(text, pos, Decimal.Signed(n), 0);
    }
    DigitsScan(text, first, magnitude);
    var end := first + |Decimal.Digits(magnitude)|;
    IntegerScan(text, first, end, magnitude);
    assert IsDigit(Peek(text, first));
  }

  lemma IntegerScan(text: Text, first: nat, end: nat, n: nat)
    requires At(text, first, Decimal.Digits(n)) && end == first + |Decimal.Digits(n)| && !IsDigit(Peek(text, end))
    ensures IsDigit(Peek(text, first)) && Numbers.IntegerEnd(text, first) == end
  {
    DigitsScan(text, first, n);
    DigitsRun(text, first, end);
    if n == 0 {
      AtPeek(text, first, Decimal.Digits(n), 0);
    }
  }

  // ---------------------------------------------------------------------------
  // Values
  // ---------------------------------------------------------------------------

  /** The first byte of a printed value, and that it never starts with white space or a closing bracket. */
  lemma PrintedStart(v: Value)
    requires DoubleFree(v)
    ensures Print(v) != []
    ensures var c := Print(v)[0];
      && !IsSpace(c) && c != RBRACKET && c != RBRACE && c != COMMA && c != COLON && c != 0
      && (c == LBRACE <==> v.Object?) && (c == LBRACKET <==> v.Array?)
  {
    if v.Integer? {
      SignedStart(v.n);
    }
  }

  lemma {:induction false} DigitsStart(n: nat)
    ensures IsDigit(Decimal.Digits(n)[0])
    decreases n
  {
    if n >= 10 {
      DigitsStart(n / 10);
    }
  }

  lemma SignedStart(n: int)
    ensures |Decimal.Signed(n)| > 0 && (IsDigit(Decimal.Signed(n)[0]) || Decimal.Signed(n)[0] == MINUS)
  {
    DigitsStart(if n < 0 then -n else n);
  }

  lemma NoSpace(text: Text, pos: nat)
    requires !IsSpace(Peek(text, pos))
    ensures SkipSpace(text, pos) == pos
  {}

  /** A trace that ends at `end` having told exactly `events`, up to number kinds. */
  ghost predicate Tells(trace: Trace, events: seq<Event>, end: nat) {
    trace.outcome == Accepted(end) && CanonicalAll(trace.events) == events
  }

  lemma TellsAfter(a: seq<Event>, trace: Trace, events: seq<Event>, end: nat)
    requires Tells(trace, events, end)
    ensures Tells(After(a, trace), CanonicalAll(a) + events, end)
  {
    CanonicalConcat(a, trace.events);
  }

  /** A scalar is read back. */
  lemma ScalarScan(text: Text, pos: nat, v: Value)
    requires DoubleFree(v) && !v.Array? && !v.Object?
    requires At(text, pos, Print(v)) && EndsNumber(Peek(text, pos + |Print(v)|))
    ensures Tells(ValueAt(text, pos), EventsOf(v), pos + |Print(v)|)
  {
    hide ValueAt, ScalarAt, Decimal.Signed, Quoted;
    PrintedStart(v);
    AtPeek(text, pos, Print(v), 0);
    ScalarParts(text, pos);
    if v.Integer? {
      IntegerRead(text, pos, v.n);
    } else if v.String? {
      StringRead(text, pos, v.bytes);
      CanonicalSame(EventsOf(v));
    } else {
      LiteralRead(text, pos, v);
      CanonicalSame(EventsOf(v));
      assert [EventsOf(v)[0]] == EventsOf(v);
    }
  }

  lemma IntegerRead(text: Text, pos: nat, n: int)
    requires At(text, pos, Decimal.Signed(n)) && Fits64(n)
    requires EndsNumber(Peek(text, pos + |Decimal.Signed(n)|))
    ensures var r := ScalarAt(text, pos);
      r.Found? && r.next == pos + |Decimal.Signed(n)| && CanonicalAll([r.value]) == [Event.Integer(AcceptKind(n), n)]
  {
    hide Numbers.NumberAt, Decimal.Signed;
    SignedStart(n);
    AtPeek(text, pos, Decimal.Signed(n), 0);
    NumberScan(text, pos, n);
  }

  lemma StringRead(text: Text, pos: nat, bytes: Text)
    requires At(text, pos, Quoted(bytes))
    ensures ScalarAt(text, pos) == Found(Event.String(bytes), pos + |Quoted(bytes)|)
  {
    hide StringLexer.CharsAt, Quoted;
    QuotedString(text, pos, bytes);
  }

  lemma LiteralRead(text: Text, pos: nat, v: Value)
    requires v.Null? || v.Bool?
    requires At(text, pos, Print(v))
    ensures ScalarAt(text, pos) == Found(EventsOf(v)[0], pos + |Print(v)|)
  {
    hide LiteralAt;
    AtPeek(text, pos, Print(v), 0);
    if v.Null? {
      assert NULL == [LOWER_N] + ULL;
      LiteralScan(text, pos, LOWER_N, ULL, Event.Null);
    } else if v.b {
      assert TRUE == [LOWER_T] + RUE;
      LiteralScan(text, pos, LOWER_T, RUE, Event.Bool(true));
    } else {
      assert FALSE == [LOWER_F] + ALSE;
      LiteralScan(text, pos, LOWER_F, ALSE, Event.Bool(false));
    }
  }

  lemma {:induction false} LiteralRest(text: Text, pos: nat, rest: Text, event: Event)
    requires At(text, pos, rest) && forall k :: 0 <= k < |rest| ==> rest[k] != 0
    ensures LiteralAt(text, pos, rest, event) == Found(event, pos + |rest|)
    decreases |rest|
  {
    if rest != [] {
      assert rest == [rest[0]] + rest[1..];
      AtSplit(text, pos, [rest[0]], rest[1..]);
      AtPeek(text, pos, rest, 0);
      LiteralRest(text, pos + 1, rest[1..], event);
    }
  }

  lemma LiteralScan(text: Text, pos: nat, first: Byte, rest: Text, event: Event)
    requires At(text, pos, [first] + rest) && forall k :: 0 <= k < |rest| ==> rest[k] != 0
    ensures LiteralAt(text, pos + 1, rest, event) == Found(event, pos + 1 + |rest|)
  {
    AtSplit(text, pos, [first], rest);
    LiteralRest(text, pos + 1, rest, event);
  }

  /** A printed value is read back as the same value. */
  lemma {:induction false} ValueScan(text: Text, pos: nat, v: Value)
    requires DoubleFree(v)
    requires At(text, pos, Print(v)) && EndsNumber(Peek(text, pos + |Print(v)|))
    ensures Tells(ValueAt(text, pos), EventsOf(v), pos + |Print(v)|)
    decreases v, 2
  {
    hide ValueAt, SkipSpace;
    if v.Array? {
      ArrayScan(text, pos, v.elements);
    } else if v.Object? {
      ObjectScan(text, pos, v.members);
    } else {
      ScalarScan(text, pos, v);
    }
  }

  lemma {:induction false} ArrayScan(text: Text, pos: nat, elements: seq<Value>)
    requires AllDoubleFree(elements)
    requires At(text, pos, [LBRACKET] + ElementsText(elements, true) + [RBRACKET])
    ensures Tells(ValueAt(text, pos), [StartArray] + ElementEvents(elements) + [EndArray(|elements|)],
                  pos + |ElementsText(elements, true)| + 2)
    decreases elements, 1
  {
    hide ValueAt, SkipSpace, Print, EventsOf, CanonicalAll;
    assert [LBRACKET] + ElementsText(elements, true) + [RBRACKET] == [LBRACKET] + (ElementsText(elements, true) + [RBRACKET]);
    ContainerStart(text, pos, LBRACKET, ElementsText(elements, true), RBRACKET);
    ContainerParts(text, pos);
    CanonicalSame([StartArray]);
    if elements == [] {
      AtPeek(text, pos + 1, [RBRACKET], 0);
      NoSpace(text, pos + 1);
      CanonicalSame([StartArray, EndArray(0)]);
    } else {
      ElementsStart(text, pos + 1, elements);
      NoSpace(text, pos + 1);
      ElementsScan(text, pos + 1, elements, 0);
      var events := ElementEvents(elements) + [EndArray(|elements|)];
      TellsAfter([StartArray], ElementsAt(text, pos + 1, 0), events, pos + |ElementsText(elements, true)| + 2);
      assert [StartArray] + events == [StartArray] + ElementEvents(elements) + [EndArray(|elements|)];
    }
  }

  lemma {:induction false} ObjectScan(text: Text, pos: nat, members: seq<Member>)
    requires MembersDoubleFree(members)
    requires At(text, pos, [LBRACE] + MembersText(members, true) + [RBRACE])
    ensures Tells(ValueAt(text, pos), [StartObject] + MemberEvents(members) + [EndObject(|members|)],
                  pos + |MembersText(members, true)| + 2)
    decreases members, 2
  {
    hide ValueAt, SkipSpace, Print, EventsOf, CanonicalAll, Quoted;
    assert [LBRACE] + MembersText(members, true) + [RBRACE] == [LBRACE] + (MembersText(members, true) + [RBRACE]);
    ContainerStart(text, pos, LBRACE, MembersText(members, true), RBRACE);
    ContainerParts(text, pos);
    CanonicalSame([StartObject]);
    if members == [] {
      AtPeek(text, pos + 1, [RBRACE], 0);
      NoSpace(text, pos + 1);
      CanonicalSame([StartObject, EndObject(0)]);
    } else {
      MembersStart(text, pos + 1, members);
      NoSpace(text, pos + 1);
      MembersScan(text, pos + 1, members, 0);
      var events := MemberEvents(members) + [EndObject(|members|)];
      TellsAfter([StartObject], MembersAt(text, pos + 1, 0), events, pos + |MembersText(members, true)| + 2);
      assert [StartObject] + events == [StartObject] + MemberEvents(members) + [EndObject(|members|)];
    }
  }

  lemma ContainerStart(text: Text, pos: nat, opening: Byte, inner: Text, closing: Byte)
    requires At(text, pos, [opening] + (inner + [closing]))
    ensures Peek(text, pos) == opening && At(text, pos + 1, inner + [closing])
  {
    AtSplit(text, pos, [opening], inner + [closing]);
    AtPeek(text, pos, [opening], 0);
  }

  lemma ElementsStart(text: Text, pos: nat, elements: seq<Value>)
    requires elements != [] && AllDoubleFree(elements) && At(text, pos, ElementsText(elements, true) + [RBRACKET])
    ensures !IsSpace(Peek(text, pos)) && Peek(text, pos) != RBRACKET
  {
    var head := Print(elements[0]);
    PrintedStart(elements[0]);
    assert ElementsText(elements, true)[0] == head[0];
    AtPeek(text, pos, ElementsText(elements, true) + [RBRACKET], 0);
  }

  lemma MembersStart(text: Text, pos: nat, members: seq<Member>)
    requires members != [] && MembersDoubleFree(members) && At(text, pos, MembersText(members, true) + [RBRACE])
    ensures Peek(text, pos) == QUOTE
  {
    assert MembersText(members, true)[0] == Quoted(members[0].name)[0] == QUOTE;
    AtPeek(text, pos, MembersText(members, true) + [RBRACE], 0);
  }

  lemma Assoc(a: Text, b: Text, c: Text)
    ensures (a + b) + c == a + (b + c)
  {}

  lemma ElementsTextParts(elements: seq<Value>)
    requires elements != [] && AllDoubleFree(elements)
    ensures ElementsText(elements, true) + [RBRACKET] == Print(elements[0]) + (ElementsText(elements[1..], false) + [RBRACKET])
    ensures ElementsText(elements, false) + [RBRACKET] == [COMMA] + (ElementsText(elements, true) + [RBRACKET])
    ensures ElementEvents(elements) == EventsOf(elements[0]) + ElementEvents(elements[1..])
  {
    hide Print, EventsOf, DoubleFree;
    var head, rest := Print(elements[0]), ElementsText(elements[1..], false);
    assert [] + head == head;
    Assoc(head, rest, [RBRACKET]);
    Assoc([COMMA], head, rest);
    Assoc([COMMA], head + rest, [RBRACKET]);
  }

  lemma {:induction false} ElementsScan(text: Text, pos: nat, elements: seq<Value>, count: nat)
    requires elements != [] && AllDoubleFree(elements)
    requires At(text, pos, ElementsText(elements, true) + [RBRACKET])
    ensures Tells(ElementsAt(text, pos, count), ElementEvents(elements) + [EndArray(count + |elements|)],
                  pos + |ElementsText(elements, true)| + 1)
    decreases elements, 0
  {
    hide ValueAt, ElementsAt, ElementEnd, SkipSpace, Print, EventsOf, ElementsText, ElementEvents, CanonicalAll;
    var head, rest := Print(elements[0]), elements[1..];
    var end := pos + |head|;
    var tail := ElementsText(rest, false) + [RBRACKET];
    ElementsTextParts(elements);
    AtSplit(text, pos, head, tail);
    ElementsTailStart(rest);
    AtPeek(text, end, tail, 0);
    ValueScan(text, pos, elements[0]);
    NoSpace(text, end);
    ElementsParts(text, pos, count);
    ElementEndScan(text, end, rest, count);
    var events := ElementEvents(rest) + [EndArray(count + |elements|)];
    TellsAfter(ValueAt(text, pos).events, ElementEnd(text, end, count), events, end + |tail|);
    assert EventsOf(elements[0]) + events == ElementEvents(elements) + [EndArray(count + |elements|)];
  }

  lemma ElementsTailStart(rest: seq<Value>)
    requires AllDoubleFree(rest)
    ensures var c := (ElementsText(rest, false) + [RBRACKET])[0]; c == COMMA || c == RBRACKET
  {
    hide Print;
  }

  /** After an element: the array closes or another element follows. */
  lemma {:induction false} ElementEndScan(text: Text, end: nat, rest: seq<Value>, count: nat)
    requires AllDoubleFree(rest) && At(text, end, ElementsText(rest, false) + [RBRACKET])
    ensures Tells(ElementEnd(text, end, count), ElementEvents(rest) + [EndArray(count + 1 + |rest|)],
                  end + |ElementsText(rest, false)| + 1)
    decreases rest, 1
  {
    hide ElementsAt, SkipSpace, Print, EventsOf, CanonicalAll;
    ElementEndParts(text, end, count);
    AtPeek(text, end, ElementsText(rest, false) + [RBRACKET], 0);
    if rest == [] {
      CanonicalSame([EndArray(count + 1)]);
    } else {
      ElementsTextParts(rest);
      AtSplit(text, end, [COMMA], ElementsText(rest, true) + [RBRACKET]);
      ElementsStart(text, end + 1, rest);
      NoSpace(text, end + 1);
      ElementsScan(text, end + 1, rest, count + 1);
    }
  }

  /** The grouping of one member's text. */
  lemma MemberGrouping(name: Text, value: Text, rest: Text, end: Text)
    ensures (([] + name + [COLON] + value) + rest) + end == name + ([COLON] + (value + (rest + end)))
    ensures (([COMMA] + name + [COLON] + value) + rest) + end == [COMMA] + (name + ([COLON] + (value + (rest + end))))
  {
    assert [] + name == name;
    var colon := [COLON];
    Assoc(name + colon, value, rest);
    Assoc(name + colon, value + rest, end);
    Assoc(value, rest, end);
    Assoc(name, colon, value + (rest + end));
    var whole := name + colon + value + rest + end;
    assert ([COMMA] + name + colon + value + rest) + end == [COMMA] + whole by {
      Assoc([COMMA], name, colon);
      Assoc([COMMA], name + colon, value);
      Assoc([COMMA], name + colon + value, rest);
      Assoc([COMMA], name + colon + value + rest, end);
    }
  }

  lemma MembersTextParts(members: seq<Member>)
    requires members != [] && MembersDoubleFree(members)
    ensures MembersText(members, true) + [RBRACE]
      == Quoted(members[0].name) + ([COLON] + (Print(members[0].value) + (MembersText(members[1..], false) + [RBRACE])))
    ensures MembersText(members, false) + [RBRACE] == [COMMA] + (MembersText(members, true) + [RBRACE])
  {
    hide Print, Quoted;
    MemberGrouping(Quoted(members[0].name), Print(members[0].value), MembersText(members[1..], false), [RBRACE]);
  }

  lemma MemberEventsParts(members: seq<Member>)
    requires members != []
    ensures MemberEvents(members) == [Key(members[0].name)] + (EventsOf(members[0].value) + MemberEvents(members[1..]))
  {
    hide EventsOf;
  }

  lemma MembersTailStart(rest: seq<Member>)
    requires MembersDoubleFree(rest)
    ensures var c := (MembersText(rest, false) + [RBRACE])[0]; c == COMMA || c == RBRACE
  {
    hide Print, Quoted;
  }

  lemma {:induction false} MembersScan(text: Text, pos: nat, members: seq<Member>, count: nat)
    requires members != [] && MembersDoubleFree(members)
    requires At(text, pos, MembersText(members, true) + [RBRACE])
    ensures Tells(MembersAt(text, pos, count), MemberEvents(members) + [EndObject(count + |members|)],
                  pos + |MembersText(members, true)| + 1)
    decreases members, 1
  {
    hide MembersAt, MemberRest, SkipSpace, StringLexer.CharsAt, Quoted, Print, EventsOf, MembersText, MemberEvents, CanonicalAll;
    var name, rest := members[0].name, members[1..];
    var colon := pos + |Quoted(name)|;
    var tail := MembersText(rest, false) + [RBRACE];
    MembersTextParts(members);
    AtSplit(text, pos, Quoted(name), [COLON] + (Print(members[0].value) + tail));
    QuotedString(text, pos, name);
    MembersParts(text, pos, count);
    AtPeek(text, colon, [COLON] + (Print(members[0].value) + tail), 0);
    NoSpace(text, colon);
    MemberEventsParts(members);
    MemberRestScan(text, colon, members, count);
    var events := EventsOf(members[0].value) + (MemberEvents(rest) + [EndObject(count + |members|)]);
    TellsAfter([Key(name)], MemberRest(text, colon, count), events, colon + 1 + |Print(members[0].value)| + |tail|);
    CanonicalSame([Key(name)]);
    assert [Key(name)] + events == MemberEvents(members) + [EndObject(count + |members|)];
  }

  lemma ColonSplit(text: Text, colon: nat, head: Text, tail: Text)
    requires At(text, colon, [COLON] + (head + tail)) && head != [] && tail != []
    ensures Peek(text, colon) == COLON && Peek(text, colon + 1) == head[0] && Peek(text, colon + 1 + |head|) == tail[0]
    ensures At(text, colon + 1, head) && At(text, colon + 1 + |head|, tail)
  {
    AtSplit(text, colon, [COLON], head + tail);
    AtSplit(text, colon + 1, head, tail);
    AtPeek(text, colon, [COLON], 0);
    AtPeek(text, colon + 1, head, 0);
    AtPeek(text, colon + 1 + |head|, tail, 0);
  }

  lemma MemberRestTells(text: Text, colon: nat, count: nat, value: seq<Event>, rest: seq<Event>, end: nat, last: nat)
    requires Peek(text, colon) == COLON && SkipSpace(text, colon + 1) == colon + 1
    requires Tells(ValueAt(text, colon + 1), value, end) && SkipSpace(text, end) == end
    requires Tells(MemberEnd(text, end, count), rest, last)
    ensures Tells(MemberRest(text, colon, count), value + rest, last)
  {
    hide ValueAt, MemberRest, MemberEnd, SkipSpace;
    MemberRestParts(text, colon, count);
    TellsAfter(ValueAt(text, colon + 1).events, MemberEnd(text, end, count), rest, last);
  }

  /** After a member name: the colon and the value. */
  lemma {:induction false} MemberValueScan(text: Text, colon: nat, v: Value, tail: Text)
    requires DoubleFree(v) && tail != [] && (tail[0] == COMMA || tail[0] == RBRACE)
    requires At(text, colon, [COLON] + (Print(v) + tail))
    ensures var start, end := colon + 1, colon + 1 + |Print(v)|;
      && Peek(text, colon) == COLON && SkipSpace(text, start) == start
      && Tells(ValueAt(text, start), EventsOf(v), end)
      && SkipSpace(text, end) == end && At(text, end, tail)
    decreases v, 3
  {
    hide At, Tells, DoubleFree, ValueAt, Print, EventsOf, CanonicalAll;
    PrintedStart(v);
    ColonSplit(text, colon, Print(v), tail);
    NoSpace(text, colon + 1);
    ValueScan(text, colon + 1, v);
    NoSpace(text, colon + 1 + |Print(v)|);
  }

  /** After a member name: the colon, the value and the rest of the object. */
  lemma {:induction false} MemberRestScan(text: Text, colon: nat, members: seq<Member>, count: nat)
    requires members != [] && MembersDoubleFree(members)
    requires At(text, colon, [COLON] + (Print(members[0].value) + (MembersText(members[1..], false) + [RBRACE])))
    ensures Tells(MemberRest(text, colon, count), EventsOf(members[0].value) + (MemberEvents(members[1..]) + [EndObject(count + |members|)]),
                  colon + 1 + |Print(members[0].value)| + |MembersText(members[1..], false)| + 1)
    decreases members, 0
  {
    hide At, Tells, DoubleFree, ValueAt, MemberRest, MemberEnd, SkipSpace, Print, EventsOf, MembersText, MemberEvents, CanonicalAll;
    var v, rest := members[0].value, members[1..];
    var tail := MembersText(rest, false) + [RBRACE];
    var end := colon + 1 + |Print(v)|;
    var events := MemberEvents(rest) + [EndObject(count + |members|)];
    MembersTailStart(rest);
    MemberValueScan(text, colon, v, tail);
    MemberEndScan(text, end, rest, count, count + |members|);
    MemberRestTells(text, colon, count, EventsOf(v), events, end, end + |tail|);
  }

  /** After a member value: the object closes or another member follows. */
  lemma {:induction false} MemberEndScan(text: Text, end: nat, rest: seq<Member>, count: nat, total: nat)
    requires total == count + 1 + |rest|
    requires MembersDoubleFree(rest) && At(text, end, MembersText(rest, false) + [RBRACE])
    ensures Tells(MemberEnd(text, end, count), MemberEvents(rest) + [EndObject(total)],
                  end + |MembersText(rest, false)| + 1)
    decreases rest, 2
  {
    hide MembersAt, SkipSpace, Print, EventsOf, Quoted, CanonicalAll;
    MemberEndParts(text, end, count);
    AtPeek(text, end, MembersText(rest, false) + [RBRACE], 0);
    if rest == [] {
      CanonicalSame([EndObject(total)]);
    } else {
      MembersTextParts(rest);
      AtSplit(text, end, [COMMA], MembersText(rest, true) + [RBRACE]);
      MembersStart(text, end + 1, rest);
      NoSpace(text, end + 1);
      MembersScan(text, end + 1, rest, count + 1);
    }
  }

  /** What is written is read back: parsing the printed text gives the value's own events. */
  lemma PrintThenParse(v: Value)
    requires DoubleFree(v)
    ensures DocumentAt(Print(v)).outcome.Accepted?
    ensures CanonicalAll(DocumentAt(Print(v)).events) == EventsOf(v)
  {
    hide ValueAt, SkipSpace;
    var text := Print(v);
    assert text[0..0 + |text|] == text;
    PrintedStart(v);
    NoSpace(text, 0);
    ValueScan(text, 0, v);
    NoSpace(text, |text|);
  }

  /** Two bodies with the same print are the same body. */
  lemma PrintInjective(v: Value, w: Value)
    requires DoubleFree(v) && DoubleFree(w) && Print(v) == Print(w)
    ensures v == w
  {
    hide Print, DocumentAt, DoubleFree;
    PrintThenParse(v);
    PrintThenParse(w);
    Documents.EventsDetermineTree(v, w);
  }
}
