/** Writer: prints events as compact JSON, driven by a stack of levels. */
module Writers {
  import opened Bytes
  import opened Events
  import opened Numbers
  import opened Values
  import opened Printing
  import opened AsciiStrings
  import opened StringLexer
  import opened Utf8
  import Decimal

  datatype Level = Level(valueCount: nat, inArray: bool)

  /** What precedes the next value or name. */
  function Separator(levels: seq<Level>): Text {
    if levels == [] || levels[|levels| - 1].valueCount == 0 then []
    else if levels[|levels| - 1].inArray then [COMMA]
    else if levels[|levels| - 1].valueCount % 2 == 0 then [COMMA]
    else [COLON]
  }

  /** One more value in the innermost level. */
  function Counted(levels: seq<Level>): seq<Level> {
    if levels == [] then []
    else
      var top := levels[|levels| - 1];
      levels[..|levels| - 1] + [top.(valueCount := top.valueCount + 1)]
  }

  /** The assertions of Prefix: one root only, and names only as strings. */
  predicate Takes(levels: seq<Level>, hasRoot: bool, isString: bool) {
    if levels == [] then !hasRoot
    else
      var top := levels[|levels| - 1];
      top.inArray || top.valueCount % 2 == 1 || isString
  }

  /** The reserve of WriteString, 2 + 6n, is computed in 32 bits. */
  predicate FitsReserve(bytes: Text) {
    2 + 6 * |bytes| < UINT32_LIMIT
  }

  predicate Writable(v: Value)
    decreases v
  {
    match v
    case Integer(n) => Fits64(n)
    case Double(_, _, _) => false
    case String(bytes) => FitsReserve(bytes)
    case Array(elements) => forall i :: 0 <= i < |elements| ==> Writable(elements[i])
    case Object(members) => forall i :: 0 <= i < |members| ==> FitsReserve(members[i].name) && Writable(members[i].value)
    case _ => true
  }

  lemma {:induction false} WritableIsDoubleFree(v: Value)
    requires Writable(v)
    ensures DoubleFree(v)
    decreases v
  {
    match v
    case Array(elements) =>
      forall i | 0 <= i < |elements| ensures DoubleFree(elements[i]) {
        WritableIsDoubleFree(elements[i]);
      }
    case Object(members) =>
      forall i | 0 <= i < |members| ensures DoubleFree(members[i].value) {
        WritableIsDoubleFree(members[i].value);
      }
    case _ =>
  }

  /** What a writer for JSON without floating point can be sent. */
  predicate EventFits(e: Event) {
    match e
    case Integer(_, n) => Fits64(n)
    case Double(_, _, _) => false
    case String(bytes) => FitsReserve(bytes)
    case Key(bytes) => FitsReserve(bytes)
    case _ => true
  }

  predicate AllFit(events: seq<Event>) {
    forall k :: 0 <= k < |events| ==> EventFits(events[k])
  }

  lemma AllFitConcat(a: seq<Event>, b: seq<Event>)
    ensures AllFit(a + b) <==> AllFit(a) && AllFit(b)
  {
    hide EventFits;
    assert forall k :: 0 <= k < |a| ==> (a + b)[k] == a[k];
    assert forall k :: 0 <= k < |b| ==> (a + b)[|a| + k] == b[k];
  }

  /** A value can be written exactly when each event Accept sends for it can. */
  lemma {:induction false} WritableIsAllFit(v: Value)
    ensures Writable(v) <==> AllFit(EventsOf(v))
    decreases v, 1
  {
    hide EventFits, AllFit, FitsReserve;
    match v {
      case Array(elements) =>
        ElementsFit(elements);
        OneFits(StartArray);
        OneFits(EndArray(|elements|));
        AllFitConcat([StartArray], ElementEvents(elements));
        AllFitConcat([StartArray] + ElementEvents(elements), [EndArray(|elements|)]);
      case Object(members) =>
        MembersFit(members);
        OneFits(StartObject);
        OneFits(EndObject(|members|));
        AllFitConcat([StartObject], MemberEvents(members));
        AllFitConcat([StartObject] + MemberEvents(members), [EndObject(|members|)]);
      case _ => OneFits(EventsOf(v)[0]);
    }
  }

  lemma OneFits(e: Event)
    ensures AllFit([e]) <==> EventFits(e)
    ensures e.StartArray? || e.StartObject? || e.EndArray? || e.EndObject? ==> EventFits(e)
    ensures e.Null? || e.Bool? ==> EventFits(e)
    ensures e.Integer? ==> (EventFits(e) <==> Fits64(e.n))
    ensures e.String? || e.Key? ==> (EventFits(e) <==> FitsReserve(e.bytes))
    ensures e.Double? ==> !EventFits(e)
  {
    hide FitsReserve;
    assert AllFit([e]) ==> EventFits([e][0]);
  }

  lemma {:induction false} ElementsFit(elements: seq<Value>)
    ensures AllFit(ElementEvents(elements)) <==> forall i :: 0 <= i < |elements| ==> Writable(elements[i])
    decreases elements, 0
  {
    if elements != [] {
      hide EventFits, AllFit, Writable, EventsOf;
      WritableIsAllFit(elements[0]);
      ElementsFit(elements[1..]);
      AllFitConcat(EventsOf(elements[0]), ElementEvents(elements[1..]));
      assert forall i :: 0 < i < |elements| ==> elements[i] == elements[1..][i - 1];
    }
  }

  lemma {:induction false} MembersFit(members: seq<Member>)
    ensures AllFit(MemberEvents(members)) <==>
      forall i :: 0 <= i < |members| ==> FitsReserve(members[i].name) && Writable(members[i].value)
    decreases members, 0
  {
    if members != [] {
      hide EventFits, AllFit, Writable, EventsOf, FitsReserve;
      WritableIsAllFit(members[0].value);
      MembersFit(members[1..]);
      OneFits(Key(members[0].name));
      AllFitConcat([Key(members[0].name)], EventsOf(members[0].value));
      AllFitConcat([Key(members[0].name)] + EventsOf(members[0].value), MemberEvents(members[1..]));
      assert forall i :: 0 < i < |members| ==> members[i] == members[1..][i - 1];
    }
  }

  class Writer {
    var os: Text
    var levels: seq<Level>
    var hasRoot: bool
    /** The length the output may reach before more space must be reserved. */
    var reserved: nat

    constructor ()
      ensures os == [] && levels == [] && !hasRoot
    {
      os, levels, hasRoot, reserved := [], [], false, 0;
    }

    method PutReserve(count: nat)
      modifies `reserved
      ensures reserved == |os| + count
    {
      reserved := |os| + count;
    }

    /** Only within the reserve. */
    method PutUnsafe(c: Byte)
      requires |os| < reserved
      modifies `os
      ensures os == old(os) + [c]
    {
      os := os + [c];
    }

    method Put(c: Byte)
      modifies `os, `reserved
      ensures os == old(os) + [c]
    {
      PutReserve(1);
      PutUnsafe(c);
    }

    /** Copies a number or literal of known length. */
    method PutAll(text: Text)
      modifies `os, `reserved
      ensures os == old(os) + text
    {
      PutReserve(|text|);
      var k := 0;
      while k < |text|
        invariant 0 <= k <= |text| && os == old(os) + text[..k]
        invariant reserved == |old(os)| + |text|
      {
        PutUnsafe(text[k]);
        k := k + 1;
        assert text[..k] == text[..k - 1] + [text[k - 1]];
      }
    }

    /** One turn of WriteString's loop. */
    method WriteEscaped(c: Byte)
      requires |os| + 6 <= reserved
      modifies `os
      ensures os == old(os) + Escaped(c)
    {
      var code := EscapeCode(c);
      if code != 0 {
        PutUnsafe(BACKSLASH);
        PutUnsafe(code);
        if code == LOWER_U {
          PutUnsafe(ZERO);
          PutUnsafe(ZERO);
          PutUnsafe(HexDigit(c / 0x10));
          PutUnsafe(HexDigit(c % 0x10));
        }
      } else {
        PutUnsafe(c);
      }
    }

    /** WriteString: never more than the 2 + 6n bytes it reserved. */
    method WriteString(bytes: Text)
      requires FitsReserve(bytes)
      modifies `os, `reserved
      ensures os == old(os) + Quoted(bytes)
      ensures |os| <= reserved == |old(os)| + 2 + 6 * |bytes|
    {
      hide Escaped, EscapedAll;
      PutReserve((2 + |bytes| * 6) % UINT32_LIMIT);
      EscapedEmpty(bytes);
      PutUnsafe(QUOTE);
      var k := 0;
      while k < |bytes|
        invariant 0 <= k <= |bytes|
        invariant os == old(os) + [QUOTE] + EscapedAll(bytes[..k])
        invariant reserved == |old(os)| + 2 + 6 * |bytes|
      {
        EscapedAppend(bytes[..k], bytes[k]);
        assert bytes[..k + 1] == bytes[..k] + [bytes[k]];
        WriteEscaped(bytes[k]);
        k := k + 1;
      }
      assert bytes[..k] == bytes;
      PutUnsafe(QUOTE);
    }

    method PutHex4(n: nat)
      requires n < 0x1_0000 && |os| + 6 <= reserved
      modifies `os
      ensures os == old(os) + ([BACKSLASH, LOWER_U] + Hex4(n))
    {
      PutUnsafe(BACKSLASH);
      PutUnsafe(LOWER_U);
      PutUnsafe(HexDigit(n / 0x1000));
      PutUnsafe(HexDigit(n / 0x100 % 0x10));
      PutUnsafe(HexDigit(n / 0x10 % 0x10));
      PutUnsafe(HexDigit(n % 0x10));
    }

    /** A character outside ASCII; the code point is never a surrogate. */
    method PutCodepoint(codepoint: nat)
      requires IsScalar(codepoint) && |os| + 12 <= reserved
      modifies `os
      ensures os == old(os) + CodepointEscape(codepoint)
    {
      if codepoint <= 0xD7FF || (codepoint >= 0xE000 && codepoint <= 0xFFFF) {
        PutHex4(codepoint);
      } else {
        assert codepoint >= 0x1_0000 && codepoint <= 0x10FFFF;
        var s := codepoint - 0x1_0000;
        PutHex4(s / 0x400 + 0xD800);
        PutHex4(s % 0x400 + 0xDC00);
      }
    }

    /** WriteString for an ASCII target succeeds exactly on valid UTF-8, within the 2 + 12n bytes it reserved. */
    method WriteAsciiString(bytes: Text) returns (ok: bool)
      requires 2 + 12 * |bytes| < UINT32_LIMIT
      modifies `os, `reserved
      ensures ok <==> IsValid(bytes, 0)
      ensures ok ==> os == old(os) + [QUOTE] + AsciiText(bytes, 0) + [QUOTE]
      ensures |os| <= reserved == |old(os)| + 2 + 12 * |bytes|
    {
      hide CharLength, CharValue, AsciiText, Escaped, CodepointEscape;
      PutReserve((2 + |bytes| * 12) % UINT32_LIMIT);
      PutUnsafe(QUOTE);
      ghost var base := os;
      var pos := 0;
      assert IsValid(bytes, 0) ==> base + AsciiText(bytes, 0) == os + AsciiText(bytes, 0);
      while pos < |bytes|
        invariant 0 <= pos <= |bytes|
        invariant |os| <= |old(os)| + 1 + 12 * pos
        invariant reserved == |old(os)| + 2 + 12 * |bytes|
        invariant IsValid(bytes, 0) <==> IsValid(bytes, pos)
        invariant IsValid(bytes, 0) ==> base + AsciiText(bytes, 0) == os + AsciiText(bytes, pos)
      {
        ghost var before := os;
        if bytes[pos] >= 0x80 {
          var found, codepoint, next := Decode(bytes, pos);
          if !found {
            return false;
          }
          ScalarValue(bytes, pos);
          PutCodepoint(codepoint);
          ManyBytes(bytes, pos);
          WideCharacter(before, bytes, pos);
          pos := next;
        } else {
          WriteEscaped(bytes[pos]);
          AsciiCharacter(before, bytes, pos);
          pos := pos + 1;
        }
      }
      PutUnsafe(QUOTE);
      Nothing(bytes, pos);
      assert IsValid(bytes, 0);
      return true;
    }

    method Prefix(isString: bool)
      requires Takes(levels, hasRoot, isString)
      modifies this
      ensures os == old(os) + Separator(old(levels))
      ensures levels == Counted(old(levels)) && hasRoot == (old(hasRoot) || old(levels) == [])
    {
      if |levels| != 0 {
        var top := levels[|levels| - 1];
        if top.valueCount > 0 {
          if top.inArray {
            Put(COMMA);
          } else {
            Put(if top.valueCount % 2 == 0 then COMMA else COLON);
          }
        }
        levels := levels[..|levels| - 1] + [top.(valueCount := top.valueCount + 1)];
      } else {
        hasRoot := true;
      }
    }

    method Null()
      requires Takes(levels, hasRoot, false)
      modifies this
      ensures os == old(os) + Separator(old(levels)) + NULL
      ensures levels == Counted(old(levels)) && hasRoot == (old(hasRoot) || old(levels) == [])
    {
      Prefix(false);
      PutAll(NULL);
    }

    method Bool(b: bool)
      requires Takes(levels, hasRoot, false)
      modifies this
      ensures os == old(os) + Separator(old(levels)) + (if b then TRUE else FALSE)
      ensures levels == Counted(old(levels)) && hasRoot == (old(hasRoot) || old(levels) == [])
    {
      Prefix(false);
      PutAll(if b then TRUE else FALSE);
    }

    /** WriteInt, WriteUint, WriteInt64 and WriteUint64, each with its own decimal printer. */
    method WriteInteger(kind: NumberKind, n: int)
      requires KindHolds(kind, n)
      modifies `os, `reserved
      ensures os == old(os) + Decimal.Signed(n)
    {
      var text: Text;
      match kind {
        case Int32 => text := Decimal.I32ToA(n);
        case Uint32 => text := Decimal.U32ToA(n as uint32);
        case Int64 => text := Decimal.I64ToA(n);
        case Uint64 => text := Decimal.U64ToA(n as uint64);
      }
      PutAll(text);
    }

    method Integer(kind: NumberKind, n: int)
      requires Takes(levels, hasRoot, false) && KindHolds(kind, n)
      modifies this
      ensures os == old(os) + Separator(old(levels)) + Decimal.Signed(n)
      ensures levels == Counted(old(levels)) && hasRoot == (old(hasRoot) || old(levels) == [])
    {
      Prefix(false);
      WriteInteger(kind, n);
    }

    /** String and Key. */
    method String(bytes: Text)
      requires Takes(levels, hasRoot, true) && FitsReserve(bytes)
      modifies this
      ensures os == old(os) + Separator(old(levels)) + Quoted(bytes)
      ensures levels == Counted(old(levels)) && hasRoot == (old(hasRoot) || old(levels) == [])
    {
      Prefix(true);
      WriteString(bytes);
    }

    /** StartObject and StartArray. */
    method Start(inArray: bool)
      requires Takes(levels, hasRoot, false)
      modifies this
      ensures os == old(os) + Separator(old(levels)) + [if inArray then LBRACKET else LBRACE]
      ensures levels == Counted(old(levels)) + [Level(0, inArray)]
      ensures hasRoot == (old(hasRoot) || old(levels) == [])
    {
      Prefix(false);
      levels := levels + [Level(0, inArray)];
      Put(if inArray then LBRACKET else LBRACE);
    }

    method EndObject()
      requires levels != [] && !levels[|levels| - 1].inArray && levels[|levels| - 1].valueCount % 2 == 0
      modifies this
      ensures os == old(os) + [RBRACE] && levels == old(levels)[..|old(levels)| - 1] && hasRoot == old(hasRoot)
    {
      levels := levels[..|levels| - 1];
      Put(RBRACE);
    }

    method EndArray()
      requires levels != [] && levels[|levels| - 1].inArray
      modifies this
      ensures os == old(os) + [RBRACKET] && levels == old(levels)[..|old(levels)| - 1] && hasRoot == old(hasRoot)
    {
      levels := levels[..|levels| - 1];
      Put(RBRACKET);
    }
  }

  lemma EscapedEmpty(bytes: Text)
    ensures EscapedAll(bytes[..0]) == []
  {}

  lemma {:induction false} EscapedAppend(bytes: Text, c: Byte)
    ensures EscapedAll(bytes + [c]) == EscapedAll(bytes) + Escaped(c)
    decreases |bytes|
  {
    hide Escaped;
    if bytes == [] {
      assert EscapedAll([c]) == Escaped(c) + EscapedAll([c][1..]);
    } else {
      assert (bytes + [c])[1..] == bytes[1..] + [c];
      EscapedAppend(bytes[1..], c);
    }
  }

  // ---------------------------------------------------------------------------
  // GenericValue::Accept with a Writer as handler
  // ---------------------------------------------------------------------------

  /** Accept writes the value's text after the separator its position calls for. */
  method Accept(v: Value, w: Writer)
    requires Writable(v) && DoubleFree(v)
    requires Takes(w.levels, w.hasRoot, v.String?)
    modifies w
    ensures w.os == old(w.os) + Separator(old(w.levels)) + Print(v)
    ensures w.levels == Counted(old(w.levels)) && w.hasRoot == (old(w.hasRoot) || old(w.levels) == [])
    decreases v, 1
  {
    hide Separator, Counted, Takes, ElementsText, MembersText, Quoted, AcceptKind;
    match v {
      case Null => w.Null();
      case Bool(b) => w.Bool(b);
      case Integer(n) =>
        AcceptKindHolds(n);
        w.Integer(AcceptKind(n), n);
      case String(bytes) => w.String(bytes);
      case Array(elements) =>
        AcceptArray(elements, w);
        Grouped(old(w.os) + Separator(old(w.levels)), [LBRACKET], ElementsText(elements, true), [RBRACKET]);
      case Object(members) =>
        AcceptObject(members, w);
        Grouped(old(w.os) + Separator(old(w.levels)), [LBRACE], MembersText(members, true), [RBRACE]);
    }
  }

  lemma InnerLevel(outer: seq<Level>, level: Level)
    ensures Counted(outer + [level]) == outer + [level.(valueCount := level.valueCount + 1)]
    ensures Separator(outer + [level]) == Separator([level])
    ensures (outer + [level])[..|outer|] == outer
  {}

  /** Moving the next element from what is to come to what is written. */
  lemma NextElement(done: Text, elements: seq<Value>, i: nat)
    requires i < |elements| && AllDoubleFree(elements)
    ensures done + ElementsText(elements[i..], i == 0)
      == (done + Separator([Level(i, true)]) + Print(elements[i])) + ElementsText(elements[i + 1..], false)
  {
    hide Print, DoubleFree;
    var separator := if i == 0 then [] else [COMMA];
    var rest := ElementsText(elements[i + 1..], false);
    assert elements[i..][0] == elements[i] && elements[i..][1..] == elements[i + 1..];
    assert done + (separator + Print(elements[i]) + rest) == (done + separator + Print(elements[i])) + rest;
  }

  lemma Grouped(a: Text, b: Text, c: Text, d: Text)
    ensures a + b + c + d == a + (b + c + d)
  {}

  method AcceptArray(elements: seq<Value>, w: Writer)
    requires Writable(Value.Array(elements)) && AllDoubleFree(elements)
    requires Takes(w.levels, w.hasRoot, false)
    modifies w
    ensures w.os == old(w.os) + Separator(old(w.levels)) + [LBRACKET] + ElementsText(elements, true) + [RBRACKET]
    ensures w.levels == Counted(old(w.levels)) && w.hasRoot == (old(w.hasRoot) || old(w.levels) == [])
    decreases elements, 0
  {
    hide Print, ElementsText, Separator, Counted, DoubleFree;
    ghost var outer := Counted(w.levels);
    w.Start(true);
    ghost var base := w.os;
    var i := 0;
    assert elements[0..] == elements;
    while i < |elements|
      invariant 0 <= i <= |elements|
      invariant w.levels == outer + [Level(i, true)]
      invariant w.hasRoot == (old(w.hasRoot) || old(w.levels) == [])
      invariant w.os + ElementsText(elements[i..], i == 0) == base + ElementsText(elements, true)
    {
      InnerLevel(outer, Level(i, true));
      NextElement(w.os, elements, i);
      Accept(elements[i], w);
      i := i + 1;
    }
    InnerLevel(outer, Level(i, true));
    NothingLeft(elements);
    assert w.os + [] == w.os;
    w.EndArray();
  }

  lemma NothingLeft(elements: seq<Value>)
    ensures ElementsText(elements[|elements|..], false) == [] == ElementsText(elements[|elements|..], true)
  {}

  /** Moving the next member from what is to come to what is written. */
  lemma NextMember(done: Text, members: seq<Member>, i: nat)
    requires i < |members| && MembersDoubleFree(members)
    ensures done + MembersText(members[i..], i == 0)
      == ((done + Separator([Level(2 * i, false)]) + Quoted(members[i].name)) + Separator([Level(2 * i + 1, false)]) + Print(members[i].value))
         + MembersText(members[i + 1..], false)
  {
    hide Print, Quoted, DoubleFree;
    var separator := if i == 0 then [] else [COMMA];
    var name, value, rest := Quoted(members[i].name), Print(members[i].value), MembersText(members[i + 1..], false);
    assert members[i..][0] == members[i] && members[i..][1..] == members[i + 1..];
    MemberGrouping(done, separator, name, value, rest);
  }

  lemma MemberGrouping(done: Text, separator: Text, name: Text, value: Text, rest: Text)
    ensures done + (separator + name + [COLON] + value + rest) == ((done + separator + name) + [COLON] + value) + rest
  {
    assert done + (separator + name + [COLON] + value) == (done + separator + name) + [COLON] + value;
    assert done + ((separator + name + [COLON] + value) + rest) == (done + (separator + name + [COLON] + value)) + rest;
  }

  method AcceptObject(members: seq<Member>, w: Writer)
    requires Writable(Value.Object(members)) && MembersDoubleFree(members)
    requires Takes(w.levels, w.hasRoot, false)
    modifies w
    ensures w.os == old(w.os) + Separator(old(w.levels)) + [LBRACE] + MembersText(members, true) + [RBRACE]
    ensures w.levels == Counted(old(w.levels)) && w.hasRoot == (old(w.hasRoot) || old(w.levels) == [])
    decreases members, 0
  {
    hide Print, Quoted, MembersText, Separator, Counted, DoubleFree;
    ghost var outer := Counted(w.levels);
    w.Start(false);
    ghost var base := w.os;
    var i := 0;
    assert members[0..] == members;
    while i < |members|
      invariant 0 <= i <= |members|
      invariant w.levels == outer + [Level(2 * i, false)]
      invariant w.hasRoot == (old(w.hasRoot) || old(w.levels) == [])
      invariant w.os + MembersText(members[i..], i == 0) == base + MembersText(members, true)
    {
      InnerLevel(outer, Level(2 * i, false));
      InnerLevel(outer, Level(2 * i + 1, false));
      NextMember(w.os, members, i);
      w.String(members[i].name);
      Accept(members[i].value, w);
      i := i + 1;
    }
    InnerLevel(outer, Level(2 * i, false));
    NoMemberLeft(members);
    assert w.os + [] == w.os;
    w.EndObject();
  }

  lemma NoMemberLeft(members: seq<Member>)
    ensures MembersText(members[|members|..], false) == [] == MembersText(members[|members|..], true)
  {}

  /** A valid string written for an ASCII target is read back byte for byte. */
  method WriteThenRead(bytes: Text) returns (ok: bool, text: Text, r: Scan<Text>)
    requires 2 + 12 * |bytes| < UINT32_LIMIT
    ensures ok <==> IsValid(bytes, 0)
    ensures ok ==> AllAscii(text) && r == Found(bytes, |text|)
  {
    hide CharsAt, AsciiText;
    var w := new Writer();
    ok := w.WriteAsciiString(bytes);
    text := w.os;
    r := ParseStringToStream(text, 1);
    if ok {
      AsciiOnly(bytes, 0);
      var body := AsciiText(bytes, 0);
      assert [] + [QUOTE] + body + [QUOTE] == [QUOTE] + (body + [QUOTE]);
      assert text[1..1 + |body + [QUOTE]|] == body + [QUOTE];
      AsciiRoundTrip(text, 1, bytes, 0);
    }
  }
}
