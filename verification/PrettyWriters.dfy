/** PrettyWriter: the writer with indentation, and what it has in common with the plain one. */
module PrettyWriters {
  import opened Bytes
  import opened Events
  import opened Values
  import opened Printing
  import opened Writers
  import Decimal

  // ---------------------------------------------------------------------------
  // Deleting white space outside string literals
  // ---------------------------------------------------------------------------

  /** Where a byte stands with respect to the string literals of a text. */
  datatype Place = Outside | Inside | AfterBackslash

  function After(place: Place, c: Byte): Place {
    match place
    case Outside => if c == QUOTE then Inside else Outside
    case Inside => if c == QUOTE then Outside else if c == BACKSLASH then AfterBackslash else Inside
    case AfterBackslash => Inside
  }

  function AfterAll(place: Place, text: Text): Place
    decreases |text|
  {
    if text == [] then place else AfterAll(After(place, text[0]), text[1..])
  }

  function Strip(place: Place, text: Text): Text
    decreases |text|
  {
    if text == [] then []
    else (if place == Outside && IsSpace(text[0]) then [] else [text[0]]) + Strip(After(place, text[0]), text[1..])
  }

  lemma {:induction false} StripConcat(place: Place, a: Text, b: Text)
    ensures Strip(place, a + b) == Strip(place, a) + Strip(AfterAll(place, a), b)
    ensures AfterAll(place, a + b) == AfterAll(AfterAll(place, a), b)
    decreases |a|
  {
    hide After, IsSpace;
    if a == [] {
      assert a + b == b;
    } else {
      assert (a + b)[0] == a[0] && (a + b)[1..] == a[1..] + b;
      StripConcat(After(place, a[0]), a[1..], b);
    }
  }

  /** `text` starts and ends outside string literals and strips to `compact`. */
  predicate StripsTo(text: Text, compact: Text) {
    AfterAll(Outside, text) == Outside && Strip(Outside, text) == compact
  }

  lemma StripBoth(a: Text, b: Text, compactA: Text, compactB: Text)
    requires StripsTo(a, compactA) && StripsTo(b, compactB)
    ensures StripsTo(a + b, compactA + compactB)
  {
    StripConcat(Outside, a, b);
  }

  lemma {:induction false} Dense(text: Text)
    requires forall k :: 0 <= k < |text| ==> !IsSpace(text[k]) && text[k] != QUOTE
    ensures StripsTo(text, text)
    decreases |text|
  {
    if text != [] {
      Dense(text[1..]);
    }
  }

  lemma {:induction false} Spaces(text: Text)
    requires forall k :: 0 <= k < |text| ==> IsSpace(text[k])
    ensures StripsTo(text, [])
    decreases |text|
  {
    if text != [] {
      Spaces(text[1..]);
    }
  }

  lemma EscapedStays(c: Byte)
    ensures AfterAll(Inside, Escaped(c)) == Inside && Strip(Inside, Escaped(c)) == Escaped(c)
  {
    var t := Escaped(c);
    if EscapeCode(c) == 0 {
      assert t[1..] == [];
    } else {
      assert t[1..][0] == EscapeCode(c) && t[2..] == t[1..][1..];
      assert t == [BACKSLASH] + ([EscapeCode(c)] + t[2..]);
      assert AfterAll(AfterBackslash, t[1..]) == AfterAll(Inside, t[2..]);
      assert Strip(AfterBackslash, t[1..]) == [EscapeCode(c)] + Strip(Inside, t[2..]);
      if EscapeCode(c) == LOWER_U {
        Plain(t[2..]);
      } else {
        assert t[2..] == [];
      }
    }
  }

  lemma {:induction false} Plain(text: Text)
    requires forall k :: 0 <= k < |text| ==> text[k] != QUOTE && text[k] != BACKSLASH
    ensures AfterAll(Inside, text) == Inside && Strip(Inside, text) == text
    decreases |text|
  {
    if text != [] {
      Plain(text[1..]);
    }
  }

  lemma {:induction false} EscapedAllStays(bytes: Text)
    ensures AfterAll(Inside, EscapedAll(bytes)) == Inside && Strip(Inside, EscapedAll(bytes)) == EscapedAll(bytes)
  {
    hide Escaped;
    if bytes != [] {
      EscapedStays(bytes[0]);
      StripConcat(Inside, Escaped(bytes[0]), EscapedAll(bytes[1..]));
      EscapedAllStays(bytes[1..]);
    }
  }

  /** A string literal is kept as it is, white space included. */
  lemma QuotedKept(bytes: Text)
    ensures StripsTo(Quoted(bytes), Quoted(bytes))
  {
    EscapedAllStays(bytes);
    Opened(EscapedAll(bytes));
  }

  lemma Opened(body: Text)
    requires AfterAll(Inside, body) == Inside && Strip(Inside, body) == body
    ensures StripsTo([QUOTE] + body + [QUOTE], [QUOTE] + body + [QUOTE])
  {
    assert [QUOTE][1..] == [];
    StripConcat(Outside, [QUOTE], body);
    StripConcat(Outside, [QUOTE] + body, [QUOTE]);
  }

  // ---------------------------------------------------------------------------
  // What the two writers do with an event
  // ---------------------------------------------------------------------------

  function Top(levels: seq<Level>): Level
    requires levels != []
  {
    levels[|levels| - 1]
  }

  /** The assertions of the handler functions hold. */
  predicate Accepts(levels: seq<Level>, hasRoot: bool, event: Event) {
    match event
    case Integer(kind, n) => Takes(levels, hasRoot, false) && KindHolds(kind, n)
    case Double(_, _, _) => false
    case String(bytes) => Takes(levels, hasRoot, true) && FitsReserve(bytes)
    case Key(bytes) => Takes(levels, hasRoot, true) && FitsReserve(bytes)
    case EndObject(_) => levels != [] && !Top(levels).inArray && Top(levels).valueCount % 2 == 0
    case EndArray(_) => levels != [] && Top(levels).inArray
    case _ => Takes(levels, hasRoot, false)
  }

  function NextLevels(levels: seq<Level>, event: Event): seq<Level>
    requires event.EndObject? || event.EndArray? ==> levels != []
  {
    match event
    case StartObject => Counted(levels) + [Level(0, false)]
    case StartArray => Counted(levels) + [Level(0, true)]
    case EndObject(_) => levels[..|levels| - 1]
    case EndArray(_) => levels[..|levels| - 1]
    case _ => Counted(levels)
  }

  function NextRoot(levels: seq<Level>, hasRoot: bool, event: Event): bool {
    hasRoot || (levels == [] && !event.EndObject? && !event.EndArray?)
  }

  /** The event's own text, without what separates it from its neighbours. */
  function Lexeme(event: Event): Text
    requires !event.Double?
  {
    match event
    case Null => NULL
    case Bool(b) => if b then TRUE else FALSE
    case Integer(_, n) => Decimal.Signed(n)
    case String(bytes) => Quoted(bytes)
    case Key(bytes) => Quoted(bytes)
    case StartObject => [LBRACE]
    case StartArray => [LBRACKET]
    case EndObject(_) => [RBRACE]
    case EndArray(_) => [RBRACKET]
  }

  lemma LexemeKept(event: Event)
    requires !event.Double?
    ensures StripsTo(Lexeme(event), Lexeme(event))
  {
    hide Quoted;
    if event.String? || event.Key? {
      QuotedKept(event.bytes);
    } else {
      if event.Integer? {
        Decimal.DigitsAreDigits(if event.n < 0 then -event.n else event.n);
      }
      Dense(Lexeme(event));
    }
  }

  function Lead(levels: seq<Level>, event: Event): Text {
    if event.EndObject? || event.EndArray? then [] else Separator(levels)
  }

  /** `indent` bytes `space` for every level; arrays on one line or not. */
  datatype Format = Format(space: Byte, indent: nat, singleLine: bool)

  predicate ValidFormat(format: Format) {
    IsSpace(format.space)
  }

  function Repeat(c: Byte, count: nat): Text {
    seq(count, _ => c)
  }

  function NewLine(format: Format, depth: nat): Text {
    [LINEFEED] + Repeat(format.space, depth * format.indent)
  }

  function PrettySeparator(levels: seq<Level>, format: Format): Text {
    if levels == [] then []
    else if Top(levels).inArray then
      Separator(levels) +
      (if !format.singleLine then NewLine(format, |levels|)
       else if Top(levels).valueCount > 0 then [SPACE]
       else [])
    else
      Separator(levels) + (if Top(levels).valueCount % 2 == 0 then NewLine(format, |levels|) else [SPACE])
  }

  function PrettyLead(levels: seq<Level>, format: Format, event: Event): Text
    requires event.EndObject? || event.EndArray? ==> levels != []
  {
    if event.EndObject? || event.EndArray? then
      if Top(levels).valueCount == 0 || (event.EndArray? && format.singleLine) then []
      else NewLine(format, |levels| - 1)
    else PrettySeparator(levels, format)
  }

  lemma LeadStripped(levels: seq<Level>, format: Format, event: Event)
    requires ValidFormat(format) && (event.EndObject? || event.EndArray? ==> levels != [])
    ensures StripsTo(PrettyLead(levels, format, event), Lead(levels, event))
  {
    Spaces([]);
    Spaces([SPACE]);
    Dense(Separator(levels));
    Spaces(NewLine(format, |levels|));
    if levels != [] {
      Spaces(NewLine(format, |levels| - 1));
      StripBoth(Separator(levels), NewLine(format, |levels|), Separator(levels), []);
      StripBoth(Separator(levels), [SPACE], Separator(levels), []);
      assert Separator(levels) + [] == Separator(levels);
    }
  }

  lemma Indented(done: Text, separator: Text, format: Format, depth: nat)
    ensures done + separator + [LINEFEED] + Repeat(format.space, depth * format.indent)
      == done + (separator + NewLine(format, depth))
    ensures done + separator + [SPACE] == done + (separator + [SPACE])
    ensures separator == [] ==> done + separator == done
  {
    hide Repeat;
  }

  // ---------------------------------------------------------------------------
  // Whole event sequences
  // ---------------------------------------------------------------------------

  /** No assertion of a handler function fails. */
  predicate WellNested(levels: seq<Level>, hasRoot: bool, events: seq<Event>)
    decreases |events|
  {
    events == [] ||
    (Accepts(levels, hasRoot, events[0]) &&
     WellNested(NextLevels(levels, events[0]), NextRoot(levels, hasRoot, events[0]), events[1..]))
  }

  function Compact(levels: seq<Level>, hasRoot: bool, events: seq<Event>): Text
    requires WellNested(levels, hasRoot, events)
    decreases |events|
  {
    if events == [] then []
    else
      Lead(levels, events[0]) + Lexeme(events[0])
      + Compact(NextLevels(levels, events[0]), NextRoot(levels, hasRoot, events[0]), events[1..])
  }

  function Pretty(levels: seq<Level>, hasRoot: bool, format: Format, events: seq<Event>): Text
    requires WellNested(levels, hasRoot, events)
    decreases |events|
  {
    if events == [] then []
    else
      PrettyLead(levels, format, events[0]) + Lexeme(events[0])
      + Pretty(NextLevels(levels, events[0]), NextRoot(levels, hasRoot, events[0]), format, events[1..])
  }

  /** Deleting white space outside strings from the pretty text gives the compact text. */
  lemma {:induction false} PrettyStripsToCompact(levels: seq<Level>, hasRoot: bool, format: Format, events: seq<Event>)
    requires ValidFormat(format) && WellNested(levels, hasRoot, events)
    ensures StripsTo(Pretty(levels, hasRoot, format, events), Compact(levels, hasRoot, events))
    decreases |events|
  {
    hide StripsTo, Accepts, NextLevels, NextRoot, PrettyLead, Lead, Lexeme;
    if events == [] {
      Spaces([]);
    } else {
      var event := events[0];
      assert event.EndObject? || event.EndArray? ==> levels != [] by { AcceptedEnd(levels, hasRoot, event); }
      LeadStripped(levels, format, event);
      assert !event.Double? by { AcceptedEnd(levels, hasRoot, event); }
      LexemeKept(event);
      StripBoth(PrettyLead(levels, format, event), Lexeme(event), Lead(levels, event), Lexeme(event));
      PrettyStripsToCompact(NextLevels(levels, event), NextRoot(levels, hasRoot, event), format, events[1..]);
      StripBoth(PrettyLead(levels, format, event) + Lexeme(event),
                Pretty(NextLevels(levels, event), NextRoot(levels, hasRoot, event), format, events[1..]),
                Lead(levels, event) + Lexeme(event),
                Compact(NextLevels(levels, event), NextRoot(levels, hasRoot, event), events[1..]));
    }
  }

  lemma AcceptedEnd(levels: seq<Level>, hasRoot: bool, event: Event)
    requires Accepts(levels, hasRoot, event)
    ensures !event.Double? && (event.EndObject? || event.EndArray? ==> levels != [])
  {}

  // ---------------------------------------------------------------------------
  // The events of a value
  // ---------------------------------------------------------------------------

  lemma CompactHead(levels: seq<Level>, hasRoot: bool, event: Event, rest: seq<Event>)
    requires Accepts(levels, hasRoot, event) && (event.EndObject? || event.EndArray? ==> levels != []) && !event.Double?
    requires WellNested(NextLevels(levels, event), NextRoot(levels, hasRoot, event), rest)
    ensures WellNested(levels, hasRoot, [event] + rest)
    ensures Compact(levels, hasRoot, [event] + rest)
      == (Lead(levels, event) + Lexeme(event)) + Compact(NextLevels(levels, event), NextRoot(levels, hasRoot, event), rest)
  {
    hide Accepts, NextLevels, NextRoot, Lead, Lexeme;
    assert ([event] + rest)[0] == event && ([event] + rest)[1..] == rest;
  }

  /** The events Accept sends are well nested, and compactly written they are the value's text. */
  lemma {:induction false} CompactValue(levels: seq<Level>, hasRoot: bool, v: Value, rest: seq<Event>)
    requires Writable(v) && DoubleFree(v) && Takes(levels, hasRoot, v.String?)
    requires WellNested(Counted(levels), hasRoot || levels == [], rest)
    ensures WellNested(levels, hasRoot, EventsOf(v) + rest)
    ensures Compact(levels, hasRoot, EventsOf(v) + rest)
      == (Separator(levels) + Print(v)) + Compact(Counted(levels), hasRoot || levels == [], rest)
    decreases v, 1
  {
    hide Counted, Separator, WellNested, Compact, ElementsText, MembersText, Quoted;
    var root := hasRoot || levels == [];
    match v {
      case Array(elements) =>
        var end, inside := EndArray(|elements|), Counted(levels);
        Shut(inside, Level(|elements|, true), root, end, rest);
        CompactElements(inside, root, elements, 0, [end] + rest);
        assert elements[0..] == elements;
        CompactHead(levels, hasRoot, StartArray, ElementEvents(elements) + ([end] + rest));
        Flatten([StartArray], ElementEvents(elements), [end], rest);
        Brackets(Separator(levels), [LBRACKET], ElementsText(elements, true), [RBRACKET], Compact(inside, root, rest));
      case Object(members) =>
        var end, inside := EndObject(|members|), Counted(levels);
        Shut(inside, Level(2 * |members|, false), root, end, rest);
        CompactMembers(inside, root, members, 0, [end] + rest);
        assert members[0..] == members;
        CompactHead(levels, hasRoot, StartObject, MemberEvents(members) + ([end] + rest));
        Flatten([StartObject], MemberEvents(members), [end], rest);
        Brackets(Separator(levels), [LBRACE], MembersText(members, true), [RBRACE], Compact(inside, root, rest));
      case Null => CompactHead(levels, hasRoot, Event.Null, rest);
      case Bool(b) => CompactHead(levels, hasRoot, Event.Bool(b), rest);
      case Integer(n) =>
        AcceptKindHolds(n);
        CompactHead(levels, hasRoot, Event.Integer(AcceptKind(n), n), rest);
      case String(bytes) => CompactHead(levels, hasRoot, Event.String(bytes), rest);
    }
  }

  lemma Flatten(a: seq<Event>, b: seq<Event>, c: seq<Event>, rest: seq<Event>)
    ensures a + (b + (c + rest)) == (a + b + c) + rest
  {}

  lemma Brackets(lead: Text, open: Text, inner: Text, close: Text, rest: Text)
    ensures (lead + open) + (inner + (close + rest)) == (lead + (open + inner + close)) + rest
  {}

  /** The end of a container. */
  lemma Shut(outer: seq<Level>, level: Level, root: bool, end: Event, rest: seq<Event>)
    requires (end.EndArray? && level.inArray) || (end.EndObject? && !level.inArray && level.valueCount % 2 == 0)
    requires WellNested(outer, root, rest)
    ensures WellNested(outer + [level], root, [end] + rest)
    ensures Compact(outer + [level], root, [end] + rest) == Lexeme(end) + Compact(outer, root, rest)
  {
    hide WellNested, Compact;
    assert (outer + [level])[..|outer|] == outer;
    CompactHead(outer + [level], root, end, rest);
    assert [] + Lexeme(end) == Lexeme(end);
  }

  lemma {:induction false} CompactElements(outer: seq<Level>, root: bool, elements: seq<Value>, i: nat, rest: seq<Event>)
    requires i <= |elements| && Writable(Value.Array(elements)) && AllDoubleFree(elements)
    requires WellNested(outer + [Level(|elements|, true)], root, rest)
    ensures WellNested(outer + [Level(i, true)], root, ElementEvents(elements[i..]) + rest)
    ensures Compact(outer + [Level(i, true)], root, ElementEvents(elements[i..]) + rest)
      == ElementsText(elements[i..], i == 0) + Compact(outer + [Level(|elements|, true)], root, rest)
    decreases elements, |elements| - i
  {
    hide WellNested, Compact, Print, DoubleFree, EventsOf, Counted, Separator;
    if i == |elements| {
      assert ElementEvents(elements[i..]) + rest == rest;
    } else {
      var tail := ElementEvents(elements[i + 1..]) + rest;
      CompactElements(outer, root, elements, i + 1, rest);
      InnerLevel(outer, Level(i, true));
      CompactValue(outer + [Level(i, true)], root, elements[i], tail);
      assert elements[i..][0] == elements[i] && elements[i..][1..] == elements[i + 1..];
      assert EventsOf(elements[i]) + tail == ElementEvents(elements[i..]) + rest;
      NextElement([], elements, i);
      assert [] + ElementsText(elements[i..], i == 0) == ElementsText(elements[i..], i == 0);
      assert [] + Separator([Level(i, true)]) == Separator([Level(i, true)]);
    }
  }

  lemma {:induction false} CompactMembers(outer: seq<Level>, root: bool, members: seq<Member>, i: nat, rest: seq<Event>)
    requires i <= |members| && Writable(Value.Object(members)) && MembersDoubleFree(members)
    requires WellNested(outer + [Level(2 * |members|, false)], root, rest)
    ensures WellNested(outer + [Level(2 * i, false)], root, MemberEvents(members[i..]) + rest)
    ensures Compact(outer + [Level(2 * i, false)], root, MemberEvents(members[i..]) + rest)
      == MembersText(members[i..], i == 0) + Compact(outer + [Level(2 * |members|, false)], root, rest)
    decreases members, |members| - i
  {
    hide WellNested, Compact, Print, DoubleFree, EventsOf, Counted, Separator, Quoted;
    if i == |members| {
      assert MemberEvents(members[i..]) + rest == rest;
    } else {
      var name, value := members[i].name, members[i].value;
      var tail := MemberEvents(members[i + 1..]) + rest;
      CompactMembers(outer, root, members, i + 1, rest);
      InnerLevel(outer, Level(2 * i, false));
      InnerLevel(outer, Level(2 * i + 1, false));
      CompactValue(outer + [Level(2 * i + 1, false)], root, value, tail);
      CompactHead(outer + [Level(2 * i, false)], root, Key(name), EventsOf(value) + tail);
      assert members[i..][0] == members[i] && members[i..][1..] == members[i + 1..];
      Flatten([], [Key(name)], EventsOf(value), tail);
      assert [Key(name)] + (EventsOf(value) + tail) == MemberEvents(members[i..]) + rest;
      NextMember([], members, i);
      MemberPieces(Separator([Level(2 * i, false)]), Quoted(name), Separator([Level(2 * i + 1, false)]), Print(value),
                   MembersText(members[i + 1..], false), MembersText(members[i..], i == 0),
                   Compact(outer + [Level(2 * |members|, false)], root, rest));
    }
  }

  lemma MemberPieces(a: Text, b: Text, c: Text, d: Text, others: Text, all: Text, rest: Text)
    requires [] + all == (([] + a + b) + c + d) + others
    ensures (a + b) + ((c + d) + (others + rest)) == all + rest
  {
    assert [] + all == all && [] + a == a;
  }

  /** For every value and every format, the pretty text of its events strips to the value's compact text. */
  lemma PrettyPrintStrips(v: Value, format: Format)
    requires Writable(v) && ValidFormat(format)
    ensures DoubleFree(v) && WellNested([], false, EventsOf(v))
    ensures StripsTo(Pretty([], false, format, EventsOf(v)), Print(v))
  {
    hide StripsTo, Pretty, Print, EventsOf;
    WritableIsDoubleFree(v);
    CompactValue([], false, v, []);
    assert EventsOf(v) + [] == EventsOf(v);
    assert ([] + Print(v)) + [] == Print(v);
    PrettyStripsToCompact([], false, format, EventsOf(v));
  }

  // ---------------------------------------------------------------------------
  // The class
  // ---------------------------------------------------------------------------

  /** The base class is the field `base`. */
  class PrettyWriter {
    const base: Writer
    var format: Format

    constructor ()
      ensures fresh(base) && base.os == [] && base.levels == [] && !base.hasRoot
      ensures format == Format(SPACE, 4, false) && ValidFormat(format)
    {
      base := new Writer();
      format := Format(SPACE, 4, false);
    }

    method SetIndent(space: Byte, count: nat)
      requires IsSpace(space)
      modifies this
      ensures format == old(format).(space := space, indent := count) && ValidFormat(format)
    {
      format := format.(space := space, indent := count);
    }

    method SetFormatOptions(singleLine: bool)
      modifies this
      ensures format == old(format).(singleLine := singleLine)
    {
      format := format.(singleLine := singleLine);
    }

    method WriteIndent()
      modifies base`os, base`reserved
      ensures base.os == old(base.os) + Repeat(format.space, |base.levels| * format.indent)
    {
      var count := |base.levels| * format.indent;
      base.PutReserve(count);
      var i := 0;
      while i < count
        invariant 0 <= i <= count && base.os == old(base.os) + Repeat(format.space, i)
        invariant base.reserved == |old(base.os)| + count
      {
        base.PutUnsafe(format.space);
        i := i + 1;
      }
    }

    method PrettyPrefix(isString: bool)
      requires Takes(base.levels, base.hasRoot, isString)
      modifies base
      ensures base.os == old(base.os) + PrettySeparator(old(base.levels), format)
      ensures base.levels == Counted(old(base.levels)) && base.hasRoot == (old(base.hasRoot) || old(base.levels) == [])
    {
      hide Repeat;
      if |base.levels| != 0 {
        var level := base.levels[|base.levels| - 1];
        Indented(base.os, Separator(base.levels), format, |base.levels|);
        if level.inArray {
          if level.valueCount > 0 {
            base.Put(COMMA);
            if format.singleLine {
              base.Put(SPACE);
            }
          }
          if !format.singleLine {
            base.Put(LINEFEED);
            WriteIndent();
          }
        } else {
          if level.valueCount > 0 {
            if level.valueCount % 2 == 0 {
              base.Put(COMMA);
              base.Put(LINEFEED);
            } else {
              base.Put(COLON);
              base.Put(SPACE);
            }
          } else {
            base.Put(LINEFEED);
          }
          if level.valueCount % 2 == 0 {
            WriteIndent();
          }
        }
        base.levels := base.levels[..|base.levels| - 1] + [level.(valueCount := level.valueCount + 1)];
      } else {
        base.hasRoot := true;
      }
    }

    method EndObject()
      requires base.levels != [] && !Top(base.levels).inArray && Top(base.levels).valueCount % 2 == 0
      modifies base
      ensures base.os == old(base.os) + PrettyLead(old(base.levels), format, Event.EndObject(0)) + [RBRACE]
      ensures base.levels == old(base.levels)[..|old(base.levels)| - 1] && base.hasRoot == old(base.hasRoot)
    {
      var empty := base.levels[|base.levels| - 1].valueCount == 0;
      base.levels := base.levels[..|base.levels| - 1];
      if !empty {
        base.Put(LINEFEED);
        WriteIndent();
      }
      base.Put(RBRACE);
    }

    method EndArray()
      requires base.levels != [] && Top(base.levels).inArray
      modifies base
      ensures base.os == old(base.os) + PrettyLead(old(base.levels), format, Event.EndArray(0)) + [RBRACKET]
      ensures base.levels == old(base.levels)[..|old(base.levels)| - 1] && base.hasRoot == old(base.hasRoot)
    {
      var empty := base.levels[|base.levels| - 1].valueCount == 0;
      base.levels := base.levels[..|base.levels| - 1];
      if !empty && !format.singleLine {
        base.Put(LINEFEED);
        WriteIndent();
      }
      base.Put(RBRACKET);
    }

    /** The handler functions. */
    method Handle(event: Event)
      requires Accepts(base.levels, base.hasRoot, event)
      modifies base
      ensures base.os == old(base.os) + PrettyLead(old(base.levels), format, event) + Lexeme(event)
      ensures base.levels == NextLevels(old(base.levels), event)
      ensures base.hasRoot == NextRoot(old(base.levels), old(base.hasRoot), event)
    {
      hide PrettySeparator, Separator, Counted, NewLine;
      if event.EndObject? {
        EndObject();
      } else if event.EndArray? {
        EndArray();
      } else {
        PrettyPrefix(event.String? || event.Key?);
        match event {
          case Null => base.PutAll(NULL);
          case Bool(b) => base.PutAll(if b then TRUE else FALSE);
          case Integer(kind, n) => base.WriteInteger(kind, n);
          case String(bytes) => base.WriteString(bytes);
          case Key(bytes) => base.WriteString(bytes);
          case StartObject =>
            base.levels := base.levels + [Level(0, false)];
            base.Put(LBRACE);
          case StartArray =>
            base.levels := base.levels + [Level(0, true)];
            base.Put(LBRACKET);
        }
      }
    }
  }

  /** The handler functions of Writer. */
  method Send(w: Writer, event: Event)
    requires Accepts(w.levels, w.hasRoot, event)
    modifies w
    ensures w.os == old(w.os) + Lead(old(w.levels), event) + Lexeme(event)
    ensures w.levels == NextLevels(old(w.levels), event)
    ensures w.hasRoot == NextRoot(old(w.levels), old(w.hasRoot), event)
  {
    hide Separator, Counted;
    match event {
      case Null => w.Null();
      case Bool(b) => w.Bool(b);
      case Integer(kind, n) => w.Integer(kind, n);
      case String(bytes) => w.String(bytes);
      case Key(bytes) => w.String(bytes);
      case StartObject => w.Start(false);
      case StartArray => w.Start(true);
      case EndObject(_) => w.EndObject();
      case EndArray(_) => w.EndArray();
    }
  }

  lemma Regroup(done: Text, lead: Text, lexeme: Text, rest: Text)
    ensures done + (lead + lexeme + rest) == (done + lead + lexeme) + rest
  {}

  /** Both writers fed the same events: the pretty text is the compact one with white space between tokens. */
  method WriteBoth(events: seq<Event>, w: Writer, p: PrettyWriter)
    requires p.base != w && ValidFormat(p.format)
    requires w.os == p.base.os == [] && w.levels == p.base.levels == [] && !w.hasRoot && !p.base.hasRoot
    requires WellNested([], false, events)
    modifies w, p.base
    ensures w.os == Compact([], false, events) && p.base.os == Pretty([], false, p.format, events)
    ensures StripsTo(p.base.os, w.os)
  {
    hide Lead, PrettyLead, Lexeme, NextLevels, NextRoot, Accepts, StripsTo;
    var k := 0;
    assert events[0..] == events;
    while k < |events|
      invariant 0 <= k <= |events|
      invariant w.levels == p.base.levels && w.hasRoot == p.base.hasRoot
      invariant WellNested(w.levels, w.hasRoot, events[k..])
      invariant w.os + Compact(w.levels, w.hasRoot, events[k..]) == Compact([], false, events)
      invariant p.base.os + Pretty(w.levels, w.hasRoot, p.format, events[k..]) == Pretty([], false, p.format, events)
    {
      assert events[k..][0] == events[k] && events[k..][1..] == events[k + 1..];
      AcceptedEnd(w.levels, w.hasRoot, events[k]);
      Regroup(w.os, Lead(w.levels, events[k]), Lexeme(events[k]),
              Compact(NextLevels(w.levels, events[k]), NextRoot(w.levels, w.hasRoot, events[k]), events[k + 1..]));
      Regroup(p.base.os, PrettyLead(w.levels, p.format, events[k]), Lexeme(events[k]),
              Pretty(NextLevels(w.levels, events[k]), NextRoot(w.levels, w.hasRoot, events[k]), p.format, events[k + 1..]));
      Send(w, events[k]);
      p.Handle(events[k]);
      k := k + 1;
    }
    assert w.os + [] == w.os && p.base.os + [] == p.base.os;
    PrettyStripsToCompact([], false, p.format, events);
  }
}
