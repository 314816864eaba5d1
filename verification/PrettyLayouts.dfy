/** The layout of pretty text: which tokens begin a line, and how far in. */
module PrettyLayouts {
  import opened Bytes
  import opened Events
  import opened Values
  import opened Printing
  import opened Writers
  import opened PrettyWriters

  // ---------------------------------------------------------------------------
  // The layout of a tree
  // ---------------------------------------------------------------------------

  /** A line feed and the indentation of a line at `depth`. */
  function Line(format: Format, depth: nat): Text {
    [0x0A] + seq(depth * format.indent, _ => format.space)
  }

  /**
   * The text of a value that stands at `depth`. Members begin lines one level further in and their values follow a colon
   * and a space; so do elements begin lines, or follow a comma and a space if arrays stay on one line; the bracket that
   * closes a container that is not empty begins a line again where elements or members do.
   */
  function Layout(v: Value, depth: nat, format: Format): Text
    requires DoubleFree(v)
    decreases v
  {
    match v
    case Array(elements) =>
      if elements == [] then [0x5B, 0x5D]
      else if format.singleLine then [0x5B] + ElementsLayout(elements, true, depth + 1, format) + [0x5D]
      else [0x5B] + ElementsLayout(elements, true, depth + 1, format) + (Line(format, depth) + [0x5D])
    case Object(members) =>
      if members == [] then [0x7B, 0x7D]
      else [0x7B] + MembersLayout(members, true, depth + 1, format) + (Line(format, depth) + [0x7D])
    case _ => Print(v)
  }

  function ElementsLayout(elements: seq<Value>, first: bool, depth: nat, format: Format): Text
    requires AllDoubleFree(elements)
    decreases elements
  {
    if elements == [] then []
    else ElementStart(first, depth, format) + Layout(elements[0], depth, format) + ElementsLayout(elements[1..], false, depth, format)
  }

  function ElementStart(first: bool, depth: nat, format: Format): Text {
    (if first then [] else [0x2C]) + (if !format.singleLine then Line(format, depth) else if first then [] else [0x20])
  }

  function MembersLayout(members: seq<Member>, first: bool, depth: nat, format: Format): Text
    requires MembersDoubleFree(members)
    decreases members
  {
    if members == [] then []
    else
      MemberStart(first, depth, format) + Quoted(members[0].name) + ([0x3A, 0x20] + Layout(members[0].value, depth, format))
      + MembersLayout(members[1..], false, depth, format)
  }

  function MemberStart(first: bool, depth: nat, format: Format): Text {
    (if first then [] else [0x2C]) + Line(format, depth)
  }

  // ---------------------------------------------------------------------------
  // What the writer writes
  // ---------------------------------------------------------------------------

  lemma LineIs(format: Format, depth: nat)
    ensures NewLine(format, depth) == Line(format, depth)
  {}

  lemma ElementLead(outer: seq<Level>, i: nat, format: Format)
    ensures PrettySeparator(outer + [Level(i, true)], format) == ElementStart(i == 0, |outer| + 1, format)
  {
    LineIs(format, |outer| + 1);
    hide NewLine, Line;
  }

  lemma MemberLead(outer: seq<Level>, i: nat, format: Format)
    ensures PrettySeparator(outer + [Level(2 * i, false)], format) == MemberStart(i == 0, |outer| + 1, format)
    ensures PrettySeparator(outer + [Level(2 * i + 1, false)], format) == [0x3A, 0x20]
  {
    LineIs(format, |outer| + 1);
    hide NewLine, Line;
    assert (2 * i) % 2 == 0 && (2 * i + 1) % 2 == 1;
  }

  lemma PrettyHead(levels: seq<Level>, hasRoot: bool, event: Event, rest: seq<Event>, format: Format)
    requires Accepts(levels, hasRoot, event) && (event.EndObject? || event.EndArray? ==> levels != []) && !event.Double?
    requires WellNested(NextLevels(levels, event), NextRoot(levels, hasRoot, event), rest)
    ensures WellNested(levels, hasRoot, [event] + rest)
    ensures Pretty(levels, hasRoot, format, [event] + rest)
      == (PrettyLead(levels, format, event) + Lexeme(event))
         + Pretty(NextLevels(levels, event), NextRoot(levels, hasRoot, event), format, rest)
  {
    hide Accepts, NextLevels, NextRoot, PrettyLead, Lexeme;
    assert ([event] + rest)[0] == event && ([event] + rest)[1..] == rest;
  }

  /** The bracket that closes a container. */
  function Closing(level: Level, depth: nat, format: Format): Text {
    if level.valueCount == 0 || (level.inArray && format.singleLine) then [] else Line(format, depth)
  }

  lemma PrettyShut(outer: seq<Level>, level: Level, root: bool, end: Event, rest: seq<Event>, format: Format)
    requires (end.EndArray? && level.inArray) || (end.EndObject? && !level.inArray && level.valueCount % 2 == 0)
    requires WellNested(outer, root, rest)
    ensures WellNested(outer + [level], root, [end] + rest)
    ensures Pretty(outer + [level], root, format, [end] + rest)
      == (Closing(level, |outer|, format) + Lexeme(end)) + Pretty(outer, root, format, rest)
  {
    hide WellNested, Pretty;
    LineIs(format, |outer|);
    hide NewLine, Line;
    assert (outer + [level])[..|outer|] == outer;
    PrettyHead(outer + [level], root, end, rest, format);
  }

  lemma Inside(lead: Text, open: Text, inner: Text, close: Text, rest: Text)
    ensures (lead + open) + (inner + (close + rest)) == (lead + (open + inner + close)) + rest
  {}

  lemma ArrayLayout(elements: seq<Value>, depth: nat, format: Format)
    requires AllDoubleFree(elements)
    ensures DoubleFree(Value.Array(elements))
    ensures Layout(Value.Array(elements), depth, format) ==
      [LBRACKET] + ElementsLayout(elements, true, depth + 1, format) + (Closing(Level(|elements|, true), depth, format) + [RBRACKET])
  {
    hide Line, DoubleFree, Layout;
    LayoutOfArray(elements, depth, format);
    if elements == [] {
      NothingInside(depth + 1, format);
    }
  }

  lemma LayoutOfArray(elements: seq<Value>, depth: nat, format: Format)
    requires AllDoubleFree(elements)
    ensures DoubleFree(Value.Array(elements))
    ensures Layout(Value.Array(elements), depth, format) ==
      if elements == [] then [LBRACKET, RBRACKET]
      else if format.singleLine then [LBRACKET] + ElementsLayout(elements, true, depth + 1, format) + [RBRACKET]
      else [LBRACKET] + ElementsLayout(elements, true, depth + 1, format) + (Line(format, depth) + [RBRACKET])
  {
    hide Line, ElementsLayout;
  }

  lemma ObjectLayout(members: seq<Member>, depth: nat, format: Format)
    requires MembersDoubleFree(members)
    ensures DoubleFree(Value.Object(members))
    ensures Layout(Value.Object(members), depth, format) ==
      [LBRACE] + MembersLayout(members, true, depth + 1, format) + (Closing(Level(2 * |members|, false), depth, format) + [RBRACE])
  {
    hide Line;
    if members == [] {
      NothingInside(depth + 1, format);
    }
    hide MembersLayout;
  }

  lemma {:induction false} PrettyArray(levels: seq<Level>, hasRoot: bool, elements: seq<Value>, rest: seq<Event>, format: Format)
    requires Writable(Value.Array(elements)) && AllDoubleFree(elements) && Takes(levels, hasRoot, false)
    requires WellNested(Counted(levels), hasRoot || levels == [], rest)
    ensures DoubleFree(Value.Array(elements))
    ensures WellNested(levels, hasRoot, EventsOf(Value.Array(elements)) + rest)
    ensures Pretty(levels, hasRoot, format, EventsOf(Value.Array(elements)) + rest)
      == (PrettySeparator(levels, format) + Layout(Value.Array(elements), |levels|, format))
         + Pretty(Counted(levels), hasRoot || levels == [], format, rest)
    decreases Value.Array(elements), 0
  {
    hide Counted, PrettySeparator, WellNested, Pretty, ElementsLayout, Line, Layout, Closing, DoubleFree, Writable;
    var root, end, inside := hasRoot || levels == [], EndArray(|elements|), Counted(levels);
    SameDepth(levels);
    PrettyShut(inside, Level(|elements|, true), root, end, rest, format);
    PrettyElements(inside, root, elements, 0, [end] + rest, format);
    assert elements[0..] == elements;
    PrettyHead(levels, hasRoot, StartArray, ElementEvents(elements) + ([end] + rest), format);
    Flatten([StartArray], ElementEvents(elements), [end], rest);
    ArrayLayout(elements, |levels|, format);
    Inside(PrettySeparator(levels, format), [LBRACKET], ElementsLayout(elements, true, |levels| + 1, format),
           Closing(Level(|elements|, true), |levels|, format) + [RBRACKET], Pretty(inside, root, format, rest));
  }

  lemma {:induction false} PrettyObject(levels: seq<Level>, hasRoot: bool, members: seq<Member>, rest: seq<Event>, format: Format)
    requires Writable(Value.Object(members)) && MembersDoubleFree(members) && Takes(levels, hasRoot, false)
    requires WellNested(Counted(levels), hasRoot || levels == [], rest)
    ensures DoubleFree(Value.Object(members))
    ensures WellNested(levels, hasRoot, EventsOf(Value.Object(members)) + rest)
    ensures Pretty(levels, hasRoot, format, EventsOf(Value.Object(members)) + rest)
      == (PrettySeparator(levels, format) + Layout(Value.Object(members), |levels|, format))
         + Pretty(Counted(levels), hasRoot || levels == [], format, rest)
    decreases Value.Object(members), 0
  {
    hide Counted, PrettySeparator, WellNested, Pretty, MembersLayout, Line, Layout, Closing, DoubleFree, Writable;
    var root, end, inside := hasRoot || levels == [], EndObject(|members|), Counted(levels);
    SameDepth(levels);
    PrettyShut(inside, Level(2 * |members|, false), root, end, rest, format);
    PrettyMembers(inside, root, members, 0, [end] + rest, format);
    assert members[0..] == members;
    PrettyHead(levels, hasRoot, StartObject, MemberEvents(members) + ([end] + rest), format);
    Flatten([StartObject], MemberEvents(members), [end], rest);
    ObjectLayout(members, |levels|, format);
    Inside(PrettySeparator(levels, format), [LBRACE], MembersLayout(members, true, |levels| + 1, format),
           Closing(Level(2 * |members|, false), |levels|, format) + [RBRACE], Pretty(inside, root, format, rest));
  }

  /** Wherever a value stands, its events write its layout behind what separates it from what came before. */
  lemma {:induction false} PrettyValue(levels: seq<Level>, hasRoot: bool, v: Value, rest: seq<Event>, format: Format)
    requires Writable(v) && DoubleFree(v) && Takes(levels, hasRoot, v.String?)
    requires WellNested(Counted(levels), hasRoot || levels == [], rest)
    ensures WellNested(levels, hasRoot, EventsOf(v) + rest)
    ensures Pretty(levels, hasRoot, format, EventsOf(v) + rest)
      == (PrettySeparator(levels, format) + Layout(v, |levels|, format)) + Pretty(Counted(levels), hasRoot || levels == [], format, rest)
    decreases v, 1
  {
    hide Counted, PrettySeparator, WellNested, Pretty, ElementsLayout, MembersLayout, Quoted, Line;
    match v {
      case Array(elements) => PrettyArray(levels, hasRoot, elements, rest, format);
      case Object(members) => PrettyObject(levels, hasRoot, members, rest, format);
      case Null => PrettyHead(levels, hasRoot, Event.Null, rest, format);
      case Bool(b) => PrettyHead(levels, hasRoot, Event.Bool(b), rest, format);
      case Integer(n) =>
        AcceptKindHolds(n);
        PrettyHead(levels, hasRoot, Event.Integer(AcceptKind(n), n), rest, format);
      case String(bytes) => PrettyHead(levels, hasRoot, Event.String(bytes), rest, format);
    }
  }

  lemma NothingInside(depth: nat, format: Format)
    ensures ElementsLayout([], true, depth, format) == [] && MembersLayout([], true, depth, format) == []
  {}

  lemma SameDepth(levels: seq<Level>)
    ensures |Counted(levels)| == |levels|
  {}

  lemma {:induction false} PrettyElements(outer: seq<Level>, root: bool, elements: seq<Value>, i: nat, rest: seq<Event>, format: Format)
    requires i <= |elements| && Writable(Value.Array(elements)) && AllDoubleFree(elements)
    requires WellNested(outer + [Level(|elements|, true)], root, rest)
    ensures WellNested(outer + [Level(i, true)], root, ElementEvents(elements[i..]) + rest)
    ensures Pretty(outer + [Level(i, true)], root, format, ElementEvents(elements[i..]) + rest)
      == ElementsLayout(elements[i..], i == 0, |outer| + 1, format) + Pretty(outer + [Level(|elements|, true)], root, format, rest)
    decreases elements, |elements| - i
  {
    hide WellNested, Pretty, Layout, DoubleFree, EventsOf, Counted, PrettySeparator, ElementStart;
    if i == |elements| {
      assert ElementEvents(elements[i..]) + rest == rest;
    } else {
      var tail := ElementEvents(elements[i + 1..]) + rest;
      PrettyElements(outer, root, elements, i + 1, rest, format);
      InnerLevel(outer, Level(i, true));
      PrettyValue(outer + [Level(i, true)], root, elements[i], tail, format);
      ElementLead(outer, i, format);
      assert elements[i..][0] == elements[i] && elements[i..][1..] == elements[i + 1..];
      assert EventsOf(elements[i]) + tail == ElementEvents(elements[i..]) + rest;
    }
  }

  lemma {:induction false} PrettyMember(outer: seq<Level>, root: bool, name: Text, value: Value, i: nat, rest: seq<Event>, format: Format)
    requires FitsReserve(name) && Writable(value) && DoubleFree(value) && WellNested(outer + [Level(2 * i + 2, false)], root, rest)
    ensures WellNested(outer + [Level(2 * i, false)], root, [Key(name)] + (EventsOf(value) + rest))
    ensures Pretty(outer + [Level(2 * i, false)], root, format, [Key(name)] + (EventsOf(value) + rest))
      == (MemberStart(i == 0, |outer| + 1, format) + Quoted(name)) + ([0x3A, 0x20] + Layout(value, |outer| + 1, format))
         + Pretty(outer + [Level(2 * i + 2, false)], root, format, rest)
    decreases value, 2
  {
    hide WellNested, Pretty, Layout, DoubleFree, Writable, EventsOf, Counted, PrettySeparator, MemberStart, Quoted;
    InnerLevel(outer, Level(2 * i, false));
    InnerLevel(outer, Level(2 * i + 1, false));
    PrettyValue(outer + [Level(2 * i + 1, false)], root, value, rest, format);
    PrettyHead(outer + [Level(2 * i, false)], root, Key(name), EventsOf(value) + rest, format);
    MemberLead(outer, i, format);
  }

  lemma {:induction false} PrettyMembers(outer: seq<Level>, root: bool, members: seq<Member>, i: nat, rest: seq<Event>, format: Format)
    requires i <= |members| && Writable(Value.Object(members)) && MembersDoubleFree(members)
    requires WellNested(outer + [Level(2 * |members|, false)], root, rest)
    ensures WellNested(outer + [Level(2 * i, false)], root, MemberEvents(members[i..]) + rest)
    ensures Pretty(outer + [Level(2 * i, false)], root, format, MemberEvents(members[i..]) + rest)
      == MembersLayout(members[i..], i == 0, |outer| + 1, format) + Pretty(outer + [Level(2 * |members|, false)], root, format, rest)
    decreases members, |members| - i
  {
    hide WellNested, Pretty, Layout, DoubleFree, EventsOf, MemberStart, Quoted;
    if i == |members| {
      assert MemberEvents(members[i..]) + rest == rest;
    } else {
      var name, value := members[i].name, members[i].value;
      var tail := MemberEvents(members[i + 1..]) + rest;
      PrettyMembers(outer, root, members, i + 1, rest, format);
      PrettyMember(outer, root, name, value, i, tail, format);
      assert members[i..][0] == members[i] && members[i..][1..] == members[i + 1..];
      Flatten([], [Key(name)], EventsOf(value), tail);
      assert [Key(name)] + (EventsOf(value) + tail) == MemberEvents(members[i..]) + rest;
    }
  }

  /** For every value and format, the pretty writer's text is the value's layout. */
  lemma PrettyIsLayout(v: Value, format: Format)
    requires Writable(v)
    ensures DoubleFree(v) && WellNested([], false, EventsOf(v))
    ensures Pretty([], false, format, EventsOf(v)) == Layout(v, 0, format)
  {
    hide Layout, EventsOf;
    WritableIsDoubleFree(v);
    PrettyValue([], false, v, [], format);
    assert EventsOf(v) + [] == EventsOf(v);
    assert ([] + Layout(v, 0, format)) + [] == Layout(v, 0, format);
  }
}
