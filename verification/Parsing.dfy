/** Parsing a text into a document: every accepted text denotes exactly one tree. */
module Parsing {
  import opened Bytes
  import opened Events
  import opened Grammar
  import opened Values
  import opened Documents
  import opened Options
  import Numbers
  import Reader
  import StringLexer

  /** A scalar event is what Accept would report for some scalar. */
  lemma ScalarTree(text: Text, pos: nat) returns (v: Value)
    requires ScalarAt(text, pos).Found?
    ensures EventsOf(v) == [Canonical(ScalarAt(text, pos).value)]
    ensures !v.Array? && !v.Object?
  {
    hide ScalarAt;
    var event := ScalarAt(text, pos).value;
    v :=
      if event.Null? then Value.Null
      else if event.Bool? then Value.Bool(event.b)
      else if event.String? then Value.String(event.bytes)
      else if event.Integer? then Value.Integer(event.n)
      else Value.Double(event.negative, event.significand, event.exponent);
  }

  /** The events of an accepted value are those of a tree. */
  lemma {:induction false} ValueTree(text: Text, pos: nat) returns (v: Value)
    requires ValueAt(text, pos).outcome.Accepted?
    ensures CanonicalAll(ValueAt(text, pos).events) == EventsOf(v)
    decreases |text| - pos, 2
  {
    hide ScalarAt, ValueAt, MembersAt, ElementsAt, SkipSpace, CanonicalAll;
    var first := SkipSpace(text, pos + 1);
    if Peek(text, pos) == LBRACE {
      ContainerParts(text, pos);
      if Peek(text, first) == RBRACE {
        v := Value.Object([]);
        CanonicalSame([StartObject, EndObject(0)]);
      } else {
        var members := MembersTree(text, first, 0);
        v := Value.Object(members);
        CanonicalSame([StartObject]);
        CanonicalConcat([StartObject], MembersAt(text, first, 0).events);
      }
    } else if Peek(text, pos) == LBRACKET {
      ContainerParts(text, pos);
      if Peek(text, first) == RBRACKET {
        v := Value.Array([]);
        CanonicalSame([StartArray, EndArray(0)]);
      } else {
        var elements := ElementsTree(text, first, 0);
        v := Value.Array(elements);
        CanonicalSame([StartArray]);
        CanonicalConcat([StartArray], ElementsAt(text, first, 0).events);
      }
    } else {
      ScalarParts(text, pos);
      v := ScalarTree(text, pos);
      CanonicalOne(ScalarAt(text, pos).value);
    }
  }

  lemma {:induction false} MembersTree(text: Text, pos: nat, count: nat) returns (members: seq<Member>)
    requires MembersAt(text, pos, count).outcome.Accepted?
    ensures CanonicalAll(MembersAt(text, pos, count).events) == MemberEvents(members) + [EndObject(count + |members|)]
    decreases |text| - pos, 1
  {
    hide ValueAt, MembersAt, MemberRest, MemberEnd, StringLexer.CharsAt, SkipSpace, CanonicalAll, EventsOf;
    MembersParts(text, pos, count);
    var name := StringLexer.CharsAt(text, pos + 1);
    var v, rest := MemberRestTree(text, SkipSpace(text, name.next), count);
    members := [Member(name.value, v)] + rest;
    assert members[1..] == rest;
    CanonicalSame([Key(name.value)]);
    CanonicalConcat([Key(name.value)], MemberRest(text, SkipSpace(text, name.next), count).events);
  }

  lemma {:induction false} MemberRestTree(text: Text, colon: nat, count: nat) returns (v: Value, members: seq<Member>)
    requires MemberRest(text, colon, count).outcome.Accepted?
    ensures CanonicalAll(MemberRest(text, colon, count).events)
      == EventsOf(v) + MemberEvents(members) + [EndObject(count + 1 + |members|)]
    decreases |text| - colon, 1
  {
    hide ValueAt, MemberRest, MemberEnd, SkipSpace, CanonicalAll, EventsOf, MemberEvents;
    MemberRestParts(text, colon, count);
    var value := ValueAt(text, SkipSpace(text, colon + 1));
    v := ValueTree(text, SkipSpace(text, colon + 1));
    var end := SkipSpace(text, value.outcome.pos);
    members := MemberEndTree(text, end, count);
    CanonicalConcat(value.events, MemberEnd(text, end, count).events);
  }

  lemma {:induction false} MemberEndTree(text: Text, end: nat, count: nat) returns (members: seq<Member>)
    requires MemberEnd(text, end, count).outcome.Accepted?
    ensures CanonicalAll(MemberEnd(text, end, count).events) == MemberEvents(members) + [EndObject(count + 1 + |members|)]
    decreases |text| - end, 0
  {
    hide MembersAt, SkipSpace, CanonicalAll;
    CanonicalSame([EndObject(count + 1)]);
    if Peek(text, end) == COMMA {
      members := MembersTree(text, SkipSpace(text, end + 1), count + 1);
    } else {
      members := [];
    }
  }

  lemma {:induction false} ElementsTree(text: Text, pos: nat, count: nat) returns (elements: seq<Value>)
    requires ElementsAt(text, pos, count).outcome.Accepted?
    ensures CanonicalAll(ElementsAt(text, pos, count).events) == ElementEvents(elements) + [EndArray(count + |elements|)]
    decreases |text| - pos, 3
  {
    hide ValueAt, ElementEnd, SkipSpace, CanonicalAll, EventsOf;
    var value := ValueAt(text, pos);
    var end := SkipSpace(text, value.outcome.pos);
    var v := ValueTree(text, pos);
    var rest := ElementEndTree(text, end, count);
    elements := [v] + rest;
    CanonicalConcat(value.events, ElementEnd(text, end, count).events);
    assert elements[1..] == rest;
  }

  lemma {:induction false} ElementEndTree(text: Text, end: nat, count: nat) returns (elements: seq<Value>)
    requires ElementEnd(text, end, count).outcome.Accepted?
    ensures CanonicalAll(ElementEnd(text, end, count).events) == ElementEvents(elements) + [EndArray(count + 1 + |elements|)]
    decreases |text| - end, 0
  {
    hide ElementsAt, SkipSpace, CanonicalAll;
    CanonicalSame([EndArray(count + 1)]);
    if Peek(text, end) == COMMA {
      elements := ElementsTree(text, SkipSpace(text, end + 1), count + 1);
    } else {
      elements := [];
    }
  }

  // ---------------------------------------------------------------------------
  // No handler call reaches below its own placeholder, accepted or not
  // ---------------------------------------------------------------------------

  lemma {:induction false} SafeValue(stack: seq<Cell>, text: Text, pos: nat)
    ensures ApplyAll(stack, ValueAt(text, pos).events).Some?
    decreases |text| - pos, 2
  {
    hide ScalarAt, MembersAt, ElementsAt, SkipSpace, ApplyAll;
    var first := SkipSpace(text, pos + 1);
    if ValueAt(text, pos).outcome.Accepted? {
      var v := ValueTree(text, pos);
      ReplayValue(stack, v);
      ApplyCanonical(stack, ValueAt(text, pos).events);
    } else if Peek(text, pos) == LBRACE {
      SafeMembers(stack + [Open(true)], text, first, 0);
      ApplyConcat(stack, [StartObject], MembersAt(text, first, 0).events);
      ApplyOne(stack, StartObject);
    } else if Peek(text, pos) == LBRACKET {
      SafeElements(stack + [Open(false)], text, first, 0);
      ApplyConcat(stack, [StartArray], ElementsAt(text, first, 0).events);
      ApplyOne(stack, StartArray);
    } else {
      ApplyNone(stack);
    }
  }

  lemma ApplyNone(stack: seq<Cell>)
    ensures ApplyAll(stack, []) == Some(stack)
  {}

  lemma {:induction false} SafeMembers(stack: seq<Cell>, text: Text, pos: nat, count: nat)
    requires MembersAt(text, pos, count).outcome.Rejected?
    ensures ApplyAll(stack, MembersAt(text, pos, count).events).Some?
    decreases |text| - pos, 1
  {
    hide MemberRest, StringLexer.CharsAt, SkipSpace, ApplyAll;
    ApplyNone(stack);
    var name := StringLexer.CharsAt(text, pos + 1);
    if Peek(text, pos) == QUOTE && name.Found? {
      var colon := SkipSpace(text, name.next);
      var named := stack + [Done(Value.String(name.value))];
      SafeMemberRest(named, text, colon, count);
      ApplyConcat(stack, [Key(name.value)], MemberRest(text, colon, count).events);
      ApplyOne(stack, Key(name.value));
    }
  }

  lemma {:induction false} SafeMemberRest(stack: seq<Cell>, text: Text, colon: nat, count: nat)
    requires MemberRest(text, colon, count).outcome.Rejected?
    ensures ApplyAll(stack, MemberRest(text, colon, count).events).Some?
    decreases |text| - colon, 1
  {
    hide ValueAt, MembersAt, SkipSpace, ApplyAll;
    ApplyNone(stack);
    if Peek(text, colon) == COLON {
      var value := ValueAt(text, SkipSpace(text, colon + 1));
      SafeValue(stack, text, SkipSpace(text, colon + 1));
      if value.outcome.Accepted? {
        var end := SkipSpace(text, value.outcome.pos);
        var more := ApplyAll(stack, value.events).value;
        ApplyNone(more);
        if Peek(text, end) == COMMA {
          SafeMembers(more, text, SkipSpace(text, end + 1), count + 1);
        }
        ApplyConcat(stack, value.events, MemberEnd(text, end, count).events);
      }
    }
  }

  lemma {:induction false} SafeElements(stack: seq<Cell>, text: Text, pos: nat, count: nat)
    requires ElementsAt(text, pos, count).outcome.Rejected?
    ensures ApplyAll(stack, ElementsAt(text, pos, count).events).Some?
    decreases |text| - pos, 3
  {
    hide ValueAt, SkipSpace, ApplyAll;
    SafeValue(stack, text, pos);
    var value := ValueAt(text, pos);
    if value.outcome.Accepted? {
      var end := SkipSpace(text, value.outcome.pos);
      var more := ApplyAll(stack, value.events).value;
      ApplyNone(more);
      if Peek(text, end) == COMMA {
        SafeElements(more, text, SkipSpace(text, end + 1), count + 1);
      }
      ApplyConcat(stack, value.events, ElementEnd(text, end, count).events);
    }
  }

  /** Replaying the events of any text is safe; an accepted text leaves exactly its tree. */
  lemma ReplayDocument(text: Text)
    ensures ApplyAll([], DocumentAt(text).events).Some?
    ensures DocumentAt(text).outcome.Accepted? ==>
      exists v :: CanonicalAll(DocumentAt(text).events) == EventsOf(v) && ApplyAll([], DocumentAt(text).events) == Some([Done(v)])
  {
    hide ValueAt, SkipSpace, ApplyAll;
    var start := SkipSpace(text, 0);
    ApplyNone([]);
    if Peek(text, start) != 0 {
      SafeValue([], text, start);
      if ValueAt(text, start).outcome.Accepted? {
        var v := ValueTree(text, start);
        ReplayValue([], v);
        ApplyCanonical([], ValueAt(text, start).events);
        assert [] + [Done(v)] == [Done(v)];
      }
    }
  }

  // ---------------------------------------------------------------------------
  // GenericDocument
  // ---------------------------------------------------------------------------

  /** A document: a tree, and the stack its handler functions work on while parsing. */
  class GenericDocument {
    var root: Value
    var stack: seq<Cell>
    var parseResult: Reader.ParseError

    constructor ()
      ensures root == Value.Null && stack == [] && parseResult == Reader.NoError
    {
      root, stack, parseResult := Value.Null, [], Reader.NoError;
    }

    /** The handler functions. */
    method Handle(event: Event)
      requires Apply(stack, event).Some?
      modifies `stack
      ensures Some(stack) == Apply(old(stack), event)
    {
      match event
      case Null => stack := stack + [Done(Value.Null)];
      case Bool(b) => stack := stack + [Done(Value.Bool(b))];
      case Integer(_, n) => stack := stack + [Done(Value.Integer(n))];
      case Double(negative, significand, exponent) => stack := stack + [Done(Value.Double(negative, significand, exponent))];
      case String(bytes) => stack := stack + [Done(Value.String(bytes))];
      case Key(bytes) => stack := stack + [Done(Value.String(bytes))];
      case StartObject => stack := stack + [Open(true)];
      case StartArray => stack := stack + [Open(false)];
      case EndObject(count) =>
        var base := |stack| - 2 * count - 1;
        stack := stack[..base] + [Done(Value.Object(Paired(Finished(stack[base + 1..]).value).value))];
      case EndArray(count) =>
        var base := |stack| - count - 1;
        stack := stack[..base] + [Done(Value.Array(Finished(stack[base + 1..]).value))];
    }

    /** ParseStream: the document becomes the tree the text denotes, or keeps its old one. */
    method ParseStream(text: Text)
      requires stack == []
      modifies this
      ensures stack == []
      ensures match DocumentAt(text).outcome
        case Accepted(_) => parseResult == Reader.NoError && EventsOf(root) == CanonicalAll(DocumentAt(text).events)
        case Rejected(code, offset) => parseResult == Reader.ParseError(code, offset) && root == old(root)
    {
      hide DocumentAt, Apply, ApplyAll;
      var reader := new Reader.GenericReader(text);
      reader.Parse();
      var events, result := reader.received, reader.error;
      ghost var outcome := DocumentAt(text).outcome;
      assert reader.Ended(outcome);
      ReplayDocument(text);
      ghost var final := ApplyAll([], events);
      var i := 0;
      assert events[0..] == events;
      while i < |events|
        invariant 0 <= i <= |events| && root == old(root)
        invariant ApplyAll(stack, events[i..]) == final
      {
        ApplyNext(stack, events[i..]);
        assert events[i..][1..] == events[i + 1..];
        Handle(events[i]);
        i := i + 1;
      }
      ApplyNone(stack);
      parseResult := result;
      if parseResult == Reader.NoError {
        ghost var v :| CanonicalAll(events) == EventsOf(v) && final == Some([Done(v)]);
        root := stack[0].value;
      }
      stack := [];
    }
  }

  lemma ApplyNext(stack: seq<Cell>, events: seq<Event>)
    requires events != [] && ApplyAll(stack, events).Some?
    ensures Apply(stack, events[0]).Some?
    ensures ApplyAll(stack, events) == ApplyAll(Apply(stack, events[0]).value, events[1..])
  {
    hide Apply;
  }
}
