/** GenericReader: the recursive-descent and the iterative parser over mutable state. */
module Reader {
  import opened Bytes
  import opened Events
  import opened Grammar
  import opened Iterative
  import Numbers
  import StringLexer

  datatype ParseError = NoError | ParseError(code: ErrorCode, offset: nat)

  /** Having sent `now` on top of `base`, the rest of `whole` still to come is `rest`. */
  ghost predicate Owes(base: seq<Event>, whole: Trace, now: seq<Event>, rest: Trace) {
    base + whole.events == now + rest.events && whole.outcome == rest.outcome
  }

  lemma OwesFirst(base: seq<Event>, first: Event, rest: Trace)
    ensures Owes(base, After([first], rest), base + [first], rest)
  {
    assert base + ([first] + rest.events) == (base + [first]) + rest.events;
  }

  lemma OwesAfter(base: seq<Event>, whole: Trace, before: seq<Event>, events: seq<Event>, rest: Trace)
    requires Owes(base, whole, before, After(events, rest))
    ensures Owes(base, whole, before + events, rest)
  {
    assert before + (events + rest.events) == (before + events) + rest.events;
  }

  lemma OwesEnd(base: seq<Event>, whole: Trace, now: seq<Event>, rest: Trace)
    requires Owes(base, whole, now, rest)
    ensures base + whole.events == now + rest.events && whole.outcome == rest.outcome
    ensures rest.events == [] ==> base + whole.events == now
  {
    assert now + [] == now;
  }

  lemma OwesAll(whole: Trace)
    ensures Owes([], whole, [], whole)
  {}

  lemma RunParts(text: Text, pos: nat, state: State, stack: seq<Frame>)
    requires Reachable(state, stack)
    ensures Peek(text, pos) == 0 ==>
      Run(text, pos, state, stack) == Trace([], if state == Finish then Accepted(pos) else Rejected(StuckCode(state), pos))
    ensures Peek(text, pos) != 0 ==>
      var m := Step(text, pos, state, stack);
      Run(text, pos, state, stack) ==
        if m.Stuck? then Trace([], Rejected(m.code, m.offset))
        else After(m.events, Run(text, SkipSpace(text, m.pos), m.state, m.stack))
  {
    hide SkipSpace, Step;
  }

  /** A reader bound to one input; `received` is what its handler has been sent. */
  class GenericReader {
    const text: Text
    var pos: nat
    var received: seq<Event>
    var error: ParseError
    var stack: seq<Frame>

    constructor (text: Text)
      ensures this.text == text && pos == 0 && received == [] && error == NoError && stack == []
    {
      this.text := text;
      pos, received, error, stack := 0, [], NoError, [];
    }

    /** The reader has stopped the way `outcome` says. */
    ghost predicate Ended(outcome: Outcome)
      reads this
    {
      match outcome
      case Accepted(end) => error == NoError && pos == end
      case Rejected(code, offset) => error == ParseError(code, offset)
    }

    method SkipWhitespace()
      modifies `pos
      ensures pos == SkipSpace(text, old(pos))
    {
      while IsSpace(Peek(text, pos))
        invariant SkipSpace(text, pos) == SkipSpace(text, old(pos))
        decreases |text| - pos
      {
        pos := pos + 1;
      }
    }

    method Consume(wanted: Byte) returns (found: bool)
      modifies `pos
      ensures found <==> Peek(text, old(pos)) == wanted
      ensures pos == if found then old(pos) + 1 else old(pos)
    {
      found := Peek(text, pos) == wanted;
      if found {
        pos := pos + 1;
      }
    }

    method Emit(event: Event)
      modifies `received
      ensures received == old(received) + [event]
    {
      received := received + [event];
    }

    /** Sends the scanned event, or records the error. */
    method Deliver(r: Scan<Event>)
      modifies `pos, `received, `error
      ensures r.Found? ==> received == old(received) + [r.value] && pos == r.next && error == old(error)
      ensures r.Failed? ==> received == old(received) && error == ParseError(r.code, r.offset)
    {
      match r
      case Found(event, next) =>
        pos := next;
        Emit(event);
      case Failed(code, offset) =>
        error := ParseError(code, offset);
    }

    /** Null, true and false after their first letter. */
    method ParseLiteral(rest: Text, event: Event)
      requires error == NoError && forall k :: 0 <= k < |rest| ==> rest[k] != 0
      modifies `pos, `received, `error
      ensures match LiteralAt(text, old(pos) + 1, rest, event)
        case Found(e, next) => received == old(received) + [e] && pos == next && error == NoError
        case Failed(code, offset) => received == old(received) && error == ParseError(code, offset)
    {
      pos := pos + 1;
      var k, found := 0, true;
      while found && k < |rest|
        invariant 0 <= k <= |rest| && received == old(received) && error == NoError
        invariant found ==> LiteralAt(text, old(pos) + 1, rest, event) == LiteralAt(text, pos, rest[k..], event)
        invariant !found ==> LiteralAt(text, old(pos) + 1, rest, event) == Failed(ValueInvalid, pos)
        decreases found, |rest| - k
      {
        assert rest[k..][1..] == rest[k + 1..];
        found := Consume(rest[k]);
        k := k + 1;
      }
      assert rest[|rest|..] == [];
      if found {
        Emit(event);
      } else {
        error := ParseError(ValueInvalid, pos);
      }
    }

    /** ParseString, as a value or as a member name. */
    method ParseString(isKey: bool)
      requires error == NoError && Peek(text, pos) == QUOTE
      modifies `pos, `received, `error
      ensures match StringLexer.CharsAt(text, old(pos) + 1)
        case Found(bytes, next) => received == old(received) + [if isKey then Key(bytes) else String(bytes)] && pos == next && error == NoError
        case Failed(code, offset) => received == old(received) && error == ParseError(code, offset)
    {
      var r := StringLexer.ParseStringToStream(text, pos + 1);
      match r
      case Found(bytes, next) =>
        Deliver(Found(if isKey then Key(bytes) else String(bytes), next));
      case Failed(code, offset) =>
        Deliver(Failed(code, offset));
    }

    method ParseScalar()
      requires error == NoError
      requires Peek(text, pos) != LBRACE && Peek(text, pos) != LBRACKET
      modifies `pos, `received, `error
      ensures match ScalarAt(text, old(pos))
        case Found(event, next) => received == old(received) + [event] && pos == next && error == NoError
        case Failed(code, offset) => received == old(received) && error == ParseError(code, offset)
    {
      hide LiteralAt, StringLexer.CharsAt, Numbers.NumberAt;
      var c := Peek(text, pos);
      if c == LOWER_N {
        ParseLiteral(ULL, Null);
      } else if c == LOWER_T {
        ParseLiteral(RUE, Bool(true));
      } else if c == LOWER_F {
        ParseLiteral(ALSE, Bool(false));
      } else if c == QUOTE {
        ParseString(false);
      } else {
        var number := Numbers.ParseNumber(text, pos);
        Deliver(number);
      }
    }

    /** ParseValue. */
    method ParseValue()
      requires error == NoError
      modifies `pos, `received, `error
      ensures received == old(received) + ValueAt(text, old(pos)).events
      ensures Ended(ValueAt(text, old(pos)).outcome)
      decreases |text| - pos, 2
    {
      hide SkipSpace, MembersAt, ElementsAt, ScalarAt;
      if Peek(text, pos) == LBRACE {
        ParseObject();
      } else if Peek(text, pos) == LBRACKET {
        ParseArray();
      } else {
        ParseScalar();
        assert old(received) + [] == old(received);
      }
    }

    /** One turn of ParseObject's loop, up to the separator: a name, a colon and a value. */
    method ParseMember(ghost count: nat) returns (ghost sent: seq<Event>)
      requires error == NoError
      modifies `pos, `received, `error
      ensures received == old(received) + sent
      ensures error == NoError ==> pos > old(pos) && MembersAt(text, old(pos), count) == After(sent, MemberEnd(text, pos, count))
      ensures error != NoError ==> MembersAt(text, old(pos), count).events == sent && Ended(MembersAt(text, old(pos), count).outcome)
      decreases |text| - pos, 3
    {
      hide SkipSpace, ValueAt, MembersAt, MemberRest, MemberEnd, StringLexer.CharsAt;
      sent := [];
      MembersParts(text, pos, count);
      if Peek(text, pos) != QUOTE {
        error := ParseError(ObjectMissName, pos);
        return;
      }
      ParseString(true);
      if error != NoError {
        return;
      }
      SkipWhitespace();
      sent := received[|old(received)|..];
      MemberRestParts(text, pos, count);
      var colon := Consume(COLON);
      if !colon {
        error := ParseError(ObjectMissColon, pos);
        return;
      }
      SkipWhitespace();
      ghost var value, name := ValueAt(text, pos), sent;
      ParseValue();
      sent := sent + value.events;
      if error != NoError {
        return;
      }
      SkipWhitespace();
      AfterAfter(name, value.events, MemberEnd(text, pos, count));
    }

    /** ParseObject. */
    method ParseObject()
      requires error == NoError && Peek(text, pos) == LBRACE
      modifies `pos, `received, `error
      ensures received == old(received) + ValueAt(text, old(pos)).events
      ensures Ended(ValueAt(text, old(pos)).outcome)
      decreases |text| - pos, 1
    {
      hide SkipSpace, ValueAt, MembersAt, MemberRest, MemberEnd, Owes;
      ghost var base, whole := received, ValueAt(text, pos);
      ContainerParts(text, pos);
      pos := pos + 1;
      Emit(StartObject);
      SkipWhitespace();
      var closed := Consume(RBRACE);
      if closed {
        Emit(EndObject(0));
        return;
      }
      OwesFirst(base, StartObject, MembersAt(text, pos, 0));
      var memberCount := 0;
      while true
        invariant error == NoError && pos > old(pos)
        invariant Owes(base, whole, received, MembersAt(text, pos, memberCount))
        decreases |text| - pos
      {
        OwesEnd(base, whole, received, MembersAt(text, pos, memberCount));
        ghost var before := received;
        ghost var sent := ParseMember(memberCount);
        if error != NoError {
          return;
        }
        OwesAfter(base, whole, before, sent, MemberEnd(text, pos, memberCount));
        OwesEnd(base, whole, received, MemberEnd(text, pos, memberCount));
        MemberEndParts(text, pos, memberCount);
        memberCount := memberCount + 1;
        if Peek(text, pos) == COMMA {
          pos := pos + 1;
          SkipWhitespace();
        } else if Peek(text, pos) == RBRACE {
          pos := pos + 1;
          Emit(EndObject(memberCount));
          return;
        } else {
          error := ParseError(ObjectMissCommaOrCurlyBracket, pos);
          return;
        }
      }
    }

    /** ParseArray. */
    method ParseArray()
      requires error == NoError && Peek(text, pos) == LBRACKET
      modifies `pos, `received, `error
      ensures received == old(received) + ValueAt(text, old(pos)).events
      ensures Ended(ValueAt(text, old(pos)).outcome)
      decreases |text| - pos, 1
    {
      hide SkipSpace, ValueAt, ElementsAt, ElementEnd, Owes;
      ghost var base, whole := received, ValueAt(text, pos);
      ContainerParts(text, pos);
      pos := pos + 1;
      Emit(StartArray);
      SkipWhitespace();
      var closed := Consume(RBRACKET);
      if closed {
        Emit(EndArray(0));
        return;
      }
      OwesFirst(base, StartArray, ElementsAt(text, pos, 0));
      var elementCount := 0;
      while true
        invariant error == NoError && pos > old(pos)
        invariant Owes(base, whole, received, ElementsAt(text, pos, elementCount))
        decreases |text| - pos
      {
        ElementsParts(text, pos, elementCount);
        OwesEnd(base, whole, received, ElementsAt(text, pos, elementCount));
        ghost var value, before := ValueAt(text, pos), received;
        ParseValue();
        if error != NoError {
          return;
        }
        SkipWhitespace();
        OwesAfter(base, whole, before, value.events, ElementEnd(text, pos, elementCount));
        ElementEndParts(text, pos, elementCount);
        OwesEnd(base, whole, received, ElementEnd(text, pos, elementCount));
        elementCount := elementCount + 1;
        var comma := Consume(COMMA);
        if comma {
          SkipWhitespace();
        } else {
          var end := Consume(RBRACKET);
          if end {
            Emit(EndArray(elementCount));
          } else {
            error := ParseError(ArrayMissCommaOrSquareBracket, pos);
          }
          return;
        }
      }
    }

    /** Parse with default flags. */
    method Parse()
      requires pos == 0 && received == [] && error == NoError
      modifies `pos, `received, `error
      ensures received == DocumentAt(text).events
      ensures Ended(DocumentAt(text).outcome)
    {
      hide SkipSpace, ValueAt;
      SkipWhitespace();
      if Peek(text, pos) == 0 {
        error := ParseError(DocumentEmpty, pos);
        return;
      }
      ParseValue();
      if error != NoError {
        return;
      }
      SkipWhitespace();
      if Peek(text, pos) != 0 {
        error := ParseError(DocumentRootNotSingular, pos);
      }
    }
  
    /** IterativeParse: one token a turn, the container states kept on an explicit stack. */
    method IterativeParse()
      requires pos == 0 && received == [] && error == NoError && stack == []
      modifies this
      ensures received == DocumentRun(text).events
      ensures Ended(DocumentRun(text).outcome)
      ensures error == NoError ==> stack == []
    {
      hide SkipSpace, Run, Step, Owes;
      var state := Start;
      SkipWhitespace();
      ghost var whole := DocumentRun(text);
      OwesAll(whole);
      while Peek(text, pos) != 0
        invariant error == NoError && Reachable(state, stack)
        invariant Owes([], whole, received, Run(text, pos, state, stack))
        decreases |text| - pos
      {
        RunParts(text, pos, state, stack);
        ghost var m := Step(text, pos, state, stack);
        ghost var before, rest := received, Run(text, pos, state, stack);
        OwesEnd([], whole, before, rest);
        var next := Transit(state, Predict(state, Tokenize(Peek(text, pos))));
        if next == Error {
          if error == NoError {
            error := ParseError(StuckCode(state), pos);
          }
          return;
        }
        state := next;
        SkipWhitespace();
        OwesAfter([], whole, before, m.events, Run(text, pos, state, stack));
      }
      RunParts(text, pos, state, stack);
      OwesEnd([], whole, received, Run(text, pos, state, stack));
      if state != Finish {
        error := ParseError(StuckCode(state), pos);
      }
    }

    /** Transit: acts on the predicted state and returns the state to continue in. */
    method Transit(src: State, dst: State) returns (next: State)
      requires error == NoError && Reachable(src, stack) && Peek(text, pos) != 0
      requires dst == Predict(src, Tokenize(Peek(text, pos)))
      modifies this
      ensures match Step(text, old(pos), src, old(stack))
        case Stuck(code, offset) =>
          && next == Error && received == old(received)
          && (if error == NoError then dst == Error && code == StuckCode(src) && offset == pos else error == ParseError(code, offset))
        case Move(state, rest, events, after) =>
          && next == state && stack == rest && pos == after && error == NoError
          && received == old(received) + events
    {
      hide SkipSpace, ScalarAt, StringLexer.CharsAt;
      next := dst;
      if dst == Error {
      } else if dst == ObjectInitial || dst == ArrayInitial {
        stack := stack + [Frame(Resume(src), 0)];
        Emit(if dst == ObjectInitial then StartObject else StartArray);
        pos := pos + 1;
      } else if dst == MemberKey {
        ParseString(true);
        next := if error == NoError then dst else Error;
      } else if dst == KeyValueDelimiter {
        pos := pos + 1;
      } else if dst == MemberDelimiter || dst == ElementDelimiter {
        pos := pos + 1;
        stack := Counted(stack);
      } else if dst == ObjectFinish {
        if src == MemberDelimiter {
          error, next := ParseError(ObjectMissName, pos), Error;
        } else {
          var top := stack[|stack| - 1];
          stack := stack[..|stack| - 1];
          Emit(EndObject(if src == MemberValue then top.count + 1 else top.count));
          pos, next := pos + 1, Closed(top);
        }
      } else if dst == ArrayFinish {
        if src == ElementDelimiter {
          error, next := ParseError(ValueInvalid, pos), Error;
        } else {
          var top := stack[|stack| - 1];
          stack := stack[..|stack| - 1];
          Emit(EndArray(if src == Element then top.count + 1 else top.count));
          pos, next := pos + 1, Closed(top);
        }
      } else {
        ParseScalar();
        next := if error != NoError then Error else if dst == SingleValue then Finish else dst;
      }
    }
  }
}
