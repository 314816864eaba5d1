/** The recursive-descent parser and the table-driven parser agree on every text. */
module ParserEquivalence {
  import opened Bytes
  import opened Events
  import opened Grammar
  import opened Iterative
  import Numbers
  import StringLexer

  /** The state after a value that was started in `state`. */
  function AfterValue(state: State): State {
    if state == Start then Finish else Resume(state)
  }

  /** A run that continues a trace where the trace was accepted. */
  ghost predicate Continues(text: Text, whole: Trace, part: Trace, state: State, stack: seq<Frame>) {
    match part.outcome
    case Rejected(_, _) => whole == part
    case Accepted(pos) => Reachable(state, stack) && whole == After(part.events, Run(text, SkipSpace(text, pos), state, stack))
  }

  /** Characters at which no value starts and that the table reports differently at the root. */
  predicate Misplaced(c: Byte) {
    c == RBRACKET || c == RBRACE || c == COMMA || c == COLON
  }

  predicate ExpectsValue(state: State) {
    state in {Start, ArrayInitial, ElementDelimiter, KeyValueDelimiter}
  }

  // ---------------------------------------------------------------------------
  // One token of a run
  // ---------------------------------------------------------------------------

  lemma RunStep(text: Text, pos: nat, state: State, stack: seq<Frame>, m: Move)
    requires Reachable(state, stack) && Peek(text, pos) != 0
    requires m == Step(text, pos, state, stack) && m.Move?
    ensures Run(text, pos, state, stack) == After(m.events, Run(text, SkipSpace(text, m.pos), m.state, m.stack))
  {
    hide Step;
  }

  /** No transition, or the end of the text. */
  lemma RunStuck(text: Text, pos: nat, state: State, stack: seq<Frame>)
    requires Reachable(state, stack) && state != Finish
    requires Peek(text, pos) == 0 || Predict(state, Tokenize(Peek(text, pos))) == Error
    ensures Run(text, pos, state, stack) == Trace([], Rejected(StuckCode(state), pos))
  {}

  lemma RunScalar(text: Text, pos: nat, state: State, stack: seq<Frame>)
    requires Reachable(state, stack) && ExpectsValue(state)
    requires Peek(text, pos) != 0 && !Misplaced(Peek(text, pos)) && Peek(text, pos) != LBRACE && Peek(text, pos) != LBRACKET
    ensures match ScalarAt(text, pos)
      case Failed(code, offset) => Run(text, pos, state, stack) == Trace([], Rejected(code, offset))
      case Found(event, next) =>
        && Reachable(AfterValue(state), stack)
        && Run(text, pos, state, stack) == After([event], Run(text, SkipSpace(text, next), AfterValue(state), stack))
  {
    hide ScalarAt, SkipSpace;
    if ScalarAt(text, pos).Found? {
      RunStep(text, pos, state, stack, Move(AfterValue(state), stack, [ScalarAt(text, pos).value], ScalarAt(text, pos).next));
    }
  }

  lemma RunOpen(text: Text, pos: nat, state: State, stack: seq<Frame>)
    requires Reachable(state, stack) && ExpectsValue(state)
    requires Peek(text, pos) == LBRACE || Peek(text, pos) == LBRACKET
    ensures var inner := stack + [Frame(Resume(state), 0)];
      var first := if Peek(text, pos) == LBRACE then ObjectInitial else ArrayInitial;
      var event := if Peek(text, pos) == LBRACE then StartObject else StartArray;
      && Reachable(first, inner)
      && Run(text, pos, state, stack) == After([event], Run(text, SkipSpace(text, pos + 1), first, inner))
  {
    hide ScalarAt, SkipSpace;
    var inner := stack + [Frame(Resume(state), 0)];
    if Peek(text, pos) == LBRACE {
      RunStep(text, pos, state, stack, Move(ObjectInitial, inner, [StartObject], pos + 1));
    } else {
      RunStep(text, pos, state, stack, Move(ArrayInitial, inner, [StartArray], pos + 1));
    }
  }

  lemma RunClose(text: Text, pos: nat, state: State, stack: seq<Frame>, frame: Frame)
    requires Reachable(state, stack + [frame])
    requires (state in {ObjectInitial, MemberValue} && Peek(text, pos) == RBRACE) || (state in {ArrayInitial, Element} && Peek(text, pos) == RBRACKET)
    ensures var count := if state in {MemberValue, Element} then frame.count + 1 else frame.count;
      && Reachable(Closed(frame), stack)
      && Run(text, pos, state, stack + [frame])
         == After([if Peek(text, pos) == RBRACE then EndObject(count) else EndArray(count)],
                  Run(text, SkipSpace(text, pos + 1), Closed(frame), stack))
  {
    hide ScalarAt, SkipSpace;
    var inner := stack + [frame];
    assert inner[..|inner| - 1] == stack;
    var count := if state in {MemberValue, Element} then frame.count + 1 else frame.count;
    RunStep(text, pos, state, inner,
            Move(Closed(frame), stack, [if Peek(text, pos) == RBRACE then EndObject(count) else EndArray(count)], pos + 1));
  }

  lemma RunComma(text: Text, pos: nat, state: State, stack: seq<Frame>, frame: Frame)
    requires Reachable(state, stack + [frame]) && state in {MemberValue, Element} && Peek(text, pos) == COMMA
    ensures var counted := stack + [Frame(frame.resume, frame.count + 1)];
      var next := if state == MemberValue then MemberDelimiter else ElementDelimiter;
      && Reachable(next, counted)
      && Run(text, pos, state, stack + [frame]) == Run(text, SkipSpace(text, pos + 1), next, counted)
  {
    hide ScalarAt, SkipSpace;
    var inner, counted := stack + [frame], stack + [Frame(frame.resume, frame.count + 1)];
    var next := if state == MemberValue then MemberDelimiter else ElementDelimiter;
    assert Counted(inner) == counted;
    RunStep(text, pos, state, inner, Move(next, counted, [], pos + 1));
    AfterNothing(Run(text, SkipSpace(text, pos + 1), next, counted));
  }

  lemma RunName(text: Text, pos: nat, state: State, stack: seq<Frame>)
    requires Reachable(state, stack) && state in {ObjectInitial, MemberDelimiter} && Peek(text, pos) == QUOTE
    ensures match StringLexer.CharsAt(text, pos + 1)
      case Failed(code, offset) => Run(text, pos, state, stack) == Trace([], Rejected(code, offset))
      case Found(name, next) =>
        && Reachable(MemberKey, stack)
        && Run(text, pos, state, stack) == After([Key(name)], Run(text, SkipSpace(text, next), MemberKey, stack))
  {
    hide ScalarAt, SkipSpace, StringLexer.CharsAt;
    var name := StringLexer.CharsAt(text, pos + 1);
    if name.Found? {
      RunStep(text, pos, state, stack, Move(MemberKey, stack, [Key(name.value)], name.next));
    }
  }

  lemma RunColon(text: Text, pos: nat, stack: seq<Frame>)
    requires Reachable(MemberKey, stack) && Peek(text, pos) == COLON
    ensures Reachable(KeyValueDelimiter, stack)
    ensures Run(text, pos, MemberKey, stack) == Run(text, SkipSpace(text, pos + 1), KeyValueDelimiter, stack)
  {
    hide ScalarAt, SkipSpace;
    RunStep(text, pos, MemberKey, stack, Move(KeyValueDelimiter, stack, [], pos + 1));
    AfterNothing(Run(text, SkipSpace(text, pos + 1), KeyValueDelimiter, stack));
  }

  lemma NoNumber(text: Text, pos: nat)
    requires Misplaced(Peek(text, pos)) || Peek(text, pos) == 0
    ensures ValueAt(text, pos) == Trace([], Rejected(ValueInvalid, pos))
  {
    assert Numbers.NumberAt(text, pos) == Failed(ValueInvalid, pos);
  }

  // ---------------------------------------------------------------------------
  // Values, members and elements
  // ---------------------------------------------------------------------------

  lemma ContinuesAfter(text: Text, events: seq<Event>, whole: Trace, part: Trace, state: State, stack: seq<Frame>)
    requires Continues(text, whole, part, state, stack)
    ensures Continues(text, After(events, whole), After(events, part), state, stack)
  {
    hide Run, SkipSpace;
    if part.outcome.Accepted? {
      AfterAfter(events, part.events, Run(text, SkipSpace(text, part.outcome.pos), state, stack));
    }
  }

  lemma {:induction false} SimulateValue(text: Text, pos: nat, state: State, stack: seq<Frame>)
    requires Reachable(state, stack) && ExpectsValue(state)
    requires state == ArrayInitial ==> Peek(text, pos) != RBRACKET
    requires state == Start ==> Peek(text, pos) != 0 && !Misplaced(Peek(text, pos))
    ensures Continues(text, Run(text, pos, state, stack), ValueAt(text, pos), AfterValue(state), stack)
    decreases |text| - pos, 2
  {
    hide Run, SkipSpace, ScalarAt, MembersAt, ElementsAt;
    var c := Peek(text, pos);
    if Misplaced(c) || c == 0 {
      NoNumber(text, pos);
      if state == ElementDelimiter && c == RBRACKET {
        TrailingComma(text, pos, stack);
      } else {
        RunStuck(text, pos, state, stack);
      }
    } else if c == LBRACE || c == LBRACKET {
      SimulateContainer(text, pos, state, stack);
    } else {
      RunScalar(text, pos, state, stack);
    }
  }

  lemma TrailingComma(text: Text, pos: nat, stack: seq<Frame>)
    requires Reachable(ElementDelimiter, stack) && Peek(text, pos) == RBRACKET
    ensures Run(text, pos, ElementDelimiter, stack) == Trace([], Rejected(ValueInvalid, pos))
  {}

  lemma {:induction false} SimulateContainer(text: Text, pos: nat, state: State, stack: seq<Frame>)
    requires Reachable(state, stack) && ExpectsValue(state)
    requires Peek(text, pos) == LBRACE || Peek(text, pos) == LBRACKET
    ensures Continues(text, Run(text, pos, state, stack), ValueAt(text, pos), AfterValue(state), stack)
    decreases |text| - pos, 1
  {
    hide Run, SkipSpace, ScalarAt, MembersAt, ElementsAt;
    var first := SkipSpace(text, pos + 1);
    var frame := Frame(Resume(state), 0);
    RunOpen(text, pos, state, stack);
    if Peek(text, pos) == LBRACE {
      if Peek(text, first) == RBRACE {
        RunClose(text, first, ObjectInitial, stack, frame);
        ContinuesAfter(text, [StartObject], Run(text, first, ObjectInitial, stack + [frame]),
                       Trace([EndObject(0)], Accepted(first + 1)), AfterValue(state), stack);
      } else {
        SimulateMembers(text, first, ObjectInitial, frame, stack);
        ContinuesAfter(text, [StartObject], Run(text, first, ObjectInitial, stack + [frame]),
                       MembersAt(text, first, 0), AfterValue(state), stack);
      }
    } else {
      if Peek(text, first) == RBRACKET {
        RunClose(text, first, ArrayInitial, stack, frame);
        ContinuesAfter(text, [StartArray], Run(text, first, ArrayInitial, stack + [frame]),
                       Trace([EndArray(0)], Accepted(first + 1)), AfterValue(state), stack);
      } else {
        SimulateElements(text, first, ArrayInitial, frame, stack);
        ContinuesAfter(text, [StartArray], Run(text, first, ArrayInitial, stack + [frame]),
                       ElementsAt(text, first, 0), AfterValue(state), stack);
      }
    }
  }

  lemma {:induction false} SimulateMembers(text: Text, pos: nat, state: State, frame: Frame, stack: seq<Frame>)
    requires state == if frame.count == 0 then ObjectInitial else MemberDelimiter
    requires Reachable(state, stack + [frame])
    requires frame.count == 0 ==> Peek(text, pos) != RBRACE
    ensures Continues(text, Run(text, pos, state, stack + [frame]), MembersAt(text, pos, frame.count), Closed(frame), stack)
    decreases |text| - pos, 3
  {
    hide Run, SkipSpace, ScalarAt, ValueAt, ElementsAt, StringLexer.CharsAt;
    var inner := stack + [frame];
    if Peek(text, pos) != QUOTE {
      MissingName(text, pos, state, inner);
    } else {
      RunName(text, pos, state, inner);
      var name := StringLexer.CharsAt(text, pos + 1);
      if name.Found? {
        SimulateMember(text, SkipSpace(text, name.next), name.value, frame, stack);
        ContinuesAfter(text, [Key(name.value)], Run(text, SkipSpace(text, name.next), MemberKey, inner),
                       MemberRest(text, SkipSpace(text, name.next), frame.count), Closed(frame), stack);
      }
    }
  }

  lemma MissingName(text: Text, pos: nat, state: State, stack: seq<Frame>)
    requires Reachable(state, stack) && state in {ObjectInitial, MemberDelimiter}
    requires Peek(text, pos) != QUOTE && (state == ObjectInitial ==> Peek(text, pos) != RBRACE)
    ensures Run(text, pos, state, stack) == Trace([], Rejected(ObjectMissName, pos))
  {}

  lemma {:induction false} SimulateMember(text: Text, colon: nat, name: Text, frame: Frame, stack: seq<Frame>)
    requires Reachable(MemberKey, stack + [frame])
    ensures Continues(text, Run(text, colon, MemberKey, stack + [frame]), MemberRest(text, colon, frame.count), Closed(frame), stack)
    decreases |text| - colon, 3
  {
    hide Run, SkipSpace, ScalarAt, ValueAt, MembersAt, ElementsAt;
    var inner := stack + [frame];
    if Peek(text, colon) != COLON {
      RunStuck(text, colon, MemberKey, inner);
    } else {
      RunColon(text, colon, inner);
      var pos := SkipSpace(text, colon + 1);
      SimulateValue(text, pos, KeyValueDelimiter, inner);
      var value := ValueAt(text, pos);
      if value.outcome.Accepted? {
        var end := SkipSpace(text, value.outcome.pos);
        SimulateMemberEnd(text, end, frame, stack);
        ContinuesAfter(text, value.events, Run(text, end, MemberValue, inner), MemberEnd(text, end, frame.count), Closed(frame), stack);
      }
    }
  }

  lemma {:induction false} SimulateMemberEnd(text: Text, end: nat, frame: Frame, stack: seq<Frame>)
    requires Reachable(MemberValue, stack + [frame])
    ensures Continues(text, Run(text, end, MemberValue, stack + [frame]), MemberEnd(text, end, frame.count), Closed(frame), stack)
    decreases |text| - end, 0
  {
    hide Run, SkipSpace, ScalarAt, ValueAt, MembersAt, ElementsAt;
    if Peek(text, end) == COMMA {
      RunComma(text, end, MemberValue, stack, frame);
      SimulateMembers(text, SkipSpace(text, end + 1), MemberDelimiter, frame.(count := frame.count + 1), stack);
    } else if Peek(text, end) == RBRACE {
      RunClose(text, end, MemberValue, stack, frame);
    } else {
      RunStuck(text, end, MemberValue, stack + [frame]);
    }
  }

  lemma {:induction false} SimulateElements(text: Text, pos: nat, state: State, frame: Frame, stack: seq<Frame>)
    requires state == if frame.count == 0 then ArrayInitial else ElementDelimiter
    requires Reachable(state, stack + [frame])
    requires frame.count == 0 ==> Peek(text, pos) != RBRACKET
    ensures Continues(text, Run(text, pos, state, stack + [frame]), ElementsAt(text, pos, frame.count), Closed(frame), stack)
    decreases |text| - pos, 4
  {
    hide Run, SkipSpace, ScalarAt, ValueAt, MembersAt;
    SimulateValue(text, pos, state, stack + [frame]);
    var value := ValueAt(text, pos);
    if value.outcome.Accepted? {
      var end := SkipSpace(text, value.outcome.pos);
      SimulateElementEnd(text, end, frame, stack);
      ContinuesAfter(text, value.events, Run(text, end, Element, stack + [frame]), ElementEnd(text, end, frame.count), Closed(frame), stack);
    }
  }

  lemma {:induction false} SimulateElementEnd(text: Text, end: nat, frame: Frame, stack: seq<Frame>)
    requires Reachable(Element, stack + [frame])
    ensures Continues(text, Run(text, end, Element, stack + [frame]), ElementEnd(text, end, frame.count), Closed(frame), stack)
    decreases |text| - end, 0
  {
    hide Run, SkipSpace, ScalarAt, ValueAt, MembersAt, ElementsAt;
    if Peek(text, end) == COMMA {
      RunComma(text, end, Element, stack, frame);
      SimulateElements(text, SkipSpace(text, end + 1), ElementDelimiter, frame.(count := frame.count + 1), stack);
    } else if Peek(text, end) == RBRACKET {
      RunClose(text, end, Element, stack, frame);
    } else {
      RunStuck(text, end, Element, stack + [frame]);
    }
  }

  // ---------------------------------------------------------------------------
  // Whole documents
  // ---------------------------------------------------------------------------

  /** The character a document starts with. */
  function FirstChar(text: Text): Byte {
    Peek(text, SkipSpace(text, 0))
  }

  /** The two parsers emit the same events and end the same way, unless the root starts misplaced. */
  lemma ParsersAgree(text: Text)
    requires !Misplaced(FirstChar(text))
    ensures DocumentRun(text) == DocumentAt(text)
  {
    hide SkipSpace, ValueAt;
    var start := SkipSpace(text, 0);
    if Peek(text, start) != 0 {
      SimulateValue(text, start, Start, []);
      var value := ValueAt(text, start);
      if value.outcome.Accepted? {
        var end := SkipSpace(text, value.outcome.pos);
        assert value.events + [] == value.events;
        if Peek(text, end) != 0 {
          assert Step(text, end, Finish, []) == Stuck(DocumentRootNotSingular, end);
        }
      }
    }
  }

  /** A misplaced root: nothing is emitted, the offset is the same, only the code differs. */
  lemma ParsersOnMisplacedRoot(text: Text)
    requires Misplaced(FirstChar(text))
    ensures DocumentAt(text) == Trace([], Rejected(ValueInvalid, SkipSpace(text, 0)))
    ensures DocumentRun(text) == Trace([], Rejected(DocumentEmpty, SkipSpace(text, 0)))
  {
    NoNumber(text, SkipSpace(text, 0));
  }

  /** On every text: same events, same verdict, same offset; the same code exactly when the root is not misplaced. */
  lemma ParsersCompared(text: Text)
    ensures DocumentRun(text).events == DocumentAt(text).events
    ensures DocumentRun(text).outcome.Accepted? <==> DocumentAt(text).outcome.Accepted?
    ensures DocumentAt(text).outcome.Rejected? ==> DocumentRun(text).outcome.offset == DocumentAt(text).outcome.offset
    ensures DocumentRun(text) == DocumentAt(text) <==> !Misplaced(FirstChar(text))
  {
    if Misplaced(FirstChar(text)) {
      ParsersOnMisplacedRoot(text);
    } else {
      ParsersAgree(text);
    }
  }
}
