/** What the recursive-descent reader emits for a text, as a function of the text. */
module Grammar {
  import opened Bytes
  import opened Events
  import Numbers
  import StringLexer

  datatype Outcome =
    | Accepted(pos: nat)
    | Rejected(code: ErrorCode, offset: nat)

  /** The events emitted up to the end or up to the error, and how it ended. */
  datatype Trace = Trace(events: seq<Event>, outcome: Outcome)

  function After(events: seq<Event>, trace: Trace): Trace {
    Trace(events + trace.events, trace.outcome)
  }

  lemma AfterNothing(trace: Trace)
    ensures After([], trace) == trace
  {
    assert [] + trace.events == trace.events;
  }

  lemma AfterAfter(a: seq<Event>, b: seq<Event>, trace: Trace)
    ensures After(a, After(b, trace)) == After(a + b, trace)
  {
    assert a + (b + trace.events) == (a + b) + trace.events;
  }

  /** The rest of `null`, `true` or `false`. */
  function LiteralAt(text: Text, pos: nat, rest: Text, event: Event): (r: Scan<Event>)
    ensures r.Found? ==> r.value == event
    ensures r.Found? && rest != [] ==> r.next == pos + |rest| <= |text|
    decreases |rest|
  {
    if rest == [] then Found(event, pos)
    else if rest[0] != 0 && Peek(text, pos) == rest[0] then LiteralAt(text, pos + 1, rest[1..], event)
    else Failed(ValueInvalid, pos)
  }

  const ULL: Text := [LOWER_U, LOWER_L, LOWER_L]
  const RUE: Text := [LOWER_R, LOWER_U, LOWER_E]
  const ALSE: Text := [LOWER_A, LOWER_L, LOWER_S, LOWER_E]

  /** A value that is neither an object nor an array. */
  function ScalarAt(text: Text, pos: nat): (r: Scan<Event>)
    ensures r.Found? ==> pos < r.next <= |text|
    ensures r.Found? ==> r.value.Null? || r.value.Bool? || r.value.String? || r.value.Integer? || r.value.Double?
  {
    var c := Peek(text, pos);
    if c == LOWER_N then LiteralAt(text, pos + 1, ULL, Null)
    else if c == LOWER_T then LiteralAt(text, pos + 1, RUE, Bool(true))
    else if c == LOWER_F then LiteralAt(text, pos + 1, ALSE, Bool(false))
    else if c == QUOTE then
      match StringLexer.CharsAt(text, pos + 1)
      case Failed(code, offset) => Failed(code, offset)
      case Found(bytes, next) => Found(String(bytes), next)
    else Numbers.NumberAt(text, pos)
  }

  /** The value at `pos`. */
  function ValueAt(text: Text, pos: nat): (r: Trace)
    ensures r.outcome.Accepted? ==> pos < r.outcome.pos <= |text|
    decreases |text| - pos, 2
  {
    if Peek(text, pos) == LBRACE then
      var first := SkipSpace(text, pos + 1);
      if Peek(text, first) == RBRACE then Trace([StartObject, EndObject(0)], Accepted(first + 1))
      else After([StartObject], MembersAt(text, first, 0))
    else if Peek(text, pos) == LBRACKET then
      var first := SkipSpace(text, pos + 1);
      if Peek(text, first) == RBRACKET then Trace([StartArray, EndArray(0)], Accepted(first + 1))
      else After([StartArray], ElementsAt(text, first, 0))
    else
      match ScalarAt(text, pos)
      case Failed(code, offset) => Trace([], Rejected(code, offset))
      case Found(event, next) => Trace([event], Accepted(next))
  }

  /** The members from `pos` to the end of an object that has `count` already. */
  function MembersAt(text: Text, pos: nat, count: nat): (r: Trace)
    ensures r.outcome.Accepted? ==> pos < r.outcome.pos <= |text|
    decreases |text| - pos, 1
  {
    if Peek(text, pos) != QUOTE then Trace([], Rejected(ObjectMissName, pos))
    else
      match StringLexer.CharsAt(text, pos + 1)
      case Failed(code, offset) => Trace([], Rejected(code, offset))
      case Found(name, next) => After([Key(name)], MemberRest(text, SkipSpace(text, next), count))
  }

  /** What follows a member name, up to the end of the object. */
  function MemberRest(text: Text, colon: nat, count: nat): (r: Trace)
    ensures r.outcome.Accepted? ==> colon < r.outcome.pos <= |text|
    decreases |text| - colon, 1
  {
    if Peek(text, colon) != COLON then Trace([], Rejected(ObjectMissColon, colon))
    else
      var value := ValueAt(text, SkipSpace(text, colon + 1));
      if value.outcome.Rejected? then value
      else After(value.events, MemberEnd(text, SkipSpace(text, value.outcome.pos), count))
  }

  /** What follows a member value, up to the end of the object. */
  function MemberEnd(text: Text, end: nat, count: nat): (r: Trace)
    ensures r.outcome.Accepted? ==> end < r.outcome.pos <= |text|
    decreases |text| - end, 1
  {
    if Peek(text, end) == COMMA then MembersAt(text, SkipSpace(text, end + 1), count + 1)
    else if Peek(text, end) == RBRACE then Trace([EndObject(count + 1)], Accepted(end + 1))
    else Trace([], Rejected(ObjectMissCommaOrCurlyBracket, end))
  }

  /** The elements from `pos` to the end of an array that has `count` already. */
  function ElementsAt(text: Text, pos: nat, count: nat): (r: Trace)
    ensures r.outcome.Accepted? ==> pos < r.outcome.pos <= |text|
    decreases |text| - pos, 3
  {
    var value := ValueAt(text, pos);
    if value.outcome.Rejected? then value
    else After(value.events, ElementEnd(text, SkipSpace(text, value.outcome.pos), count))
  }

  /** What follows an element, up to the end of the array. */
  function ElementEnd(text: Text, end: nat, count: nat): (r: Trace)
    ensures r.outcome.Accepted? ==> end < r.outcome.pos <= |text|
    decreases |text| - end, 1
  {
    if Peek(text, end) == COMMA then ElementsAt(text, SkipSpace(text, end + 1), count + 1)
    else if Peek(text, end) == RBRACKET then Trace([EndArray(count + 1)], Accepted(end + 1))
    else Trace([], Rejected(ArrayMissCommaOrSquareBracket, end))
  }

  /** A whole document. */
  function DocumentAt(text: Text): Trace {
    var start := SkipSpace(text, 0);
    if Peek(text, start) == 0 then Trace([], Rejected(DocumentEmpty, start))
    else
      var value := ValueAt(text, start);
      if value.outcome.Rejected? then value
      else
        var end := SkipSpace(text, value.outcome.pos);
        Trace(value.events, if Peek(text, end) == 0 then Accepted(end) else Rejected(DocumentRootNotSingular, end))
  }

  // ---------------------------------------------------------------------------
  // One unfolding of each production
  // ---------------------------------------------------------------------------

  lemma ScalarParts(text: Text, pos: nat)
    requires Peek(text, pos) != LBRACE && Peek(text, pos) != LBRACKET
    ensures var scalar := ScalarAt(text, pos);
      ValueAt(text, pos) ==
      if scalar.Failed? then Trace([], Rejected(scalar.code, scalar.offset))
      else Trace([scalar.value], Accepted(scalar.next))
  {
    hide ScalarAt;
  }

  lemma ContainerParts(text: Text, pos: nat)
    requires Peek(text, pos) == LBRACE || Peek(text, pos) == LBRACKET
    ensures var first := SkipSpace(text, pos + 1);
      ValueAt(text, pos) ==
      if Peek(text, pos) == LBRACE then
        if Peek(text, first) == RBRACE then Trace([StartObject, EndObject(0)], Accepted(first + 1))
        else After([StartObject], MembersAt(text, first, 0))
      else
        if Peek(text, first) == RBRACKET then Trace([StartArray, EndArray(0)], Accepted(first + 1))
        else After([StartArray], ElementsAt(text, first, 0))
  {
    hide SkipSpace, MembersAt, ElementsAt;
  }

  lemma MembersParts(text: Text, pos: nat, count: nat)
    ensures var name := StringLexer.CharsAt(text, pos + 1);
      MembersAt(text, pos, count) ==
      if Peek(text, pos) != QUOTE then Trace([], Rejected(ObjectMissName, pos))
      else if name.Failed? then Trace([], Rejected(name.code, name.offset))
      else After([Key(name.value)], MemberRest(text, SkipSpace(text, name.next), count))
  {
    hide SkipSpace, MemberRest, StringLexer.CharsAt;
  }

  lemma MemberRestParts(text: Text, colon: nat, count: nat)
    ensures var value := ValueAt(text, SkipSpace(text, colon + 1));
      MemberRest(text, colon, count) ==
      if Peek(text, colon) != COLON then Trace([], Rejected(ObjectMissColon, colon))
      else if value.outcome.Rejected? then value
      else After(value.events, MemberEnd(text, SkipSpace(text, value.outcome.pos), count))
  {
    hide SkipSpace, ValueAt, MemberEnd;
  }

  lemma MemberEndParts(text: Text, end: nat, count: nat)
    ensures MemberEnd(text, end, count) ==
      if Peek(text, end) == COMMA then MembersAt(text, SkipSpace(text, end + 1), count + 1)
      else if Peek(text, end) == RBRACE then Trace([EndObject(count + 1)], Accepted(end + 1))
      else Trace([], Rejected(ObjectMissCommaOrCurlyBracket, end))
  {
    hide SkipSpace, MembersAt;
  }

  lemma ElementsParts(text: Text, pos: nat, count: nat)
    ensures var value := ValueAt(text, pos);
      ElementsAt(text, pos, count) ==
      if value.outcome.Rejected? then value
      else After(value.events, ElementEnd(text, SkipSpace(text, value.outcome.pos), count))
  {
    hide SkipSpace, ValueAt, ElementEnd;
  }

  lemma ElementEndParts(text: Text, end: nat, count: nat)
    ensures ElementEnd(text, end, count) ==
      if Peek(text, end) == COMMA then ElementsAt(text, SkipSpace(text, end + 1), count + 1)
      else if Peek(text, end) == RBRACKET then Trace([EndArray(count + 1)], Accepted(end + 1))
      else Trace([], Rejected(ArrayMissCommaOrSquareBracket, end))
  {
    hide SkipSpace, ElementsAt;
  }
}
