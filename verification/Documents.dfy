/** GenericDocument as a handler: a stack machine that rebuilds the tree. */
module Documents {
  import opened Options
  import opened Bytes
  import opened Events
  import opened Values

  /** A stack slot: a finished value, or the placeholder of a container still open. */
  datatype Cell =
    | Done(value: Value)
    | Open(isObject: bool)

  /** The finished values in the top slots. */
  function Finished(cells: seq<Cell>): Option<seq<Value>> {
    if cells == [] then Some([])
    else
      var rest := Finished(cells[1..]);
      if cells[0].Done? && rest.Some? then Some([cells[0].value] + rest.value) else None
  }

  /** Name and value slots alternate. */
  function Paired(values: seq<Value>): Option<seq<Member>> {
    if values == [] then Some([])
    else if |values| == 1 || !values[0].String? then None
    else
      var rest := Paired(values[2..]);
      if rest.Some? then Some([Member(values[0].bytes, values[1])] + rest.value) else None
  }

  /** Pops `count` finished slots off their own placeholder and fills it. */
  function Close(stack: seq<Cell>, count: nat, isObject: bool): Option<seq<Cell>> {
    if |stack| <= count || stack[|stack| - count - 1] != Open(isObject) then None
    else
      var base := |stack| - count - 1;
      var values := Finished(stack[base + 1..]);
      if values.None? then None
      else if !isObject then Some(stack[..base] + [Done(Value.Array(values.value))])
      else
        var members := Paired(values.value);
        if members.None? then None else Some(stack[..base] + [Done(Value.Object(members.value))])
  }

  /** One handler call; None if it would reach below the container's own placeholder. */
  function Apply(stack: seq<Cell>, event: Event): Option<seq<Cell>> {
    match event
    case Null => Some(stack + [Done(Value.Null)])
    case Bool(b) => Some(stack + [Done(Value.Bool(b))])
    case Integer(_, n) => Some(stack + [Done(Value.Integer(n))])
    case Double(negative, significand, exponent) => Some(stack + [Done(Value.Double(negative, significand, exponent))])
    case String(bytes) => Some(stack + [Done(Value.String(bytes))])
    case Key(bytes) => Some(stack + [Done(Value.String(bytes))])
    case StartObject => Some(stack + [Open(true)])
    case StartArray => Some(stack + [Open(false)])
    case EndObject(count) => Close(stack, 2 * count, true)
    case EndArray(count) => Close(stack, count, false)
  }

  function ApplyAll(stack: seq<Cell>, events: seq<Event>): Option<seq<Cell>>
    decreases |events|
  {
    if events == [] then Some(stack)
    else
      var next := Apply(stack, events[0]);
      if next.None? then None else ApplyAll(next.value, events[1..])
  }

  lemma {:induction false} ApplyConcat(stack: seq<Cell>, a: seq<Event>, b: seq<Event>)
    ensures ApplyAll(stack, a + b) ==
      if ApplyAll(stack, a).None? then None else ApplyAll(ApplyAll(stack, a).value, b)
    decreases |a|
  {
    if a == [] {
      assert a + b == b;
    } else {
      assert (a + b)[1..] == a[1..] + b;
      var next := Apply(stack, a[0]);
      if next.Some? {
        ApplyConcat(next.value, a[1..], b);
      }
    }
  }

  /** The slots of finished elements. */
  function Slots(values: seq<Value>): seq<Cell> {
    seq(|values|, i requires 0 <= i < |values| => Done(values[i]))
  }

  /** The slots of finished members. */
  function MemberValues(members: seq<Member>): seq<Value> {
    if members == [] then [] else [Value.String(members[0].name), members[0].value] + MemberValues(members[1..])
  }

  lemma {:induction false} FinishedSlots(values: seq<Value>)
    ensures Finished(Slots(values)) == Some(values)
  {
    if values != [] {
      assert Slots(values)[1..] == Slots(values[1..]);
      FinishedSlots(values[1..]);
      assert [values[0]] + values[1..] == values;
    }
  }

  lemma {:induction false} PairedMembers(members: seq<Member>)
    ensures Paired(MemberValues(members)) == Some(members) && |MemberValues(members)| == 2 * |members|
  {
    if members != [] {
      PairedMembers(members[1..]);
      assert MemberValues(members)[2..] == MemberValues(members[1..]);
      assert [members[0]] + members[1..] == members;
    }
  }

  lemma CloseElements(stack: seq<Cell>, elements: seq<Value>)
    ensures Close(stack + [Open(false)] + Slots(elements), |elements|, false) == Some(stack + [Done(Value.Array(elements))])
  {
    var whole := stack + [Open(false)] + Slots(elements);
    FinishedSlots(elements);
    assert whole[|stack| + 1..] == Slots(elements) && whole[..|stack|] == stack;
  }

  lemma CloseMembers(stack: seq<Cell>, members: seq<Member>)
    ensures Close(stack + [Open(true)] + Slots(MemberValues(members)), 2 * |members|, true) == Some(stack + [Done(Value.Object(members))])
  {
    var whole := stack + [Open(true)] + Slots(MemberValues(members));
    FinishedSlots(MemberValues(members));
    PairedMembers(members);
    assert whole[|stack| + 1..] == Slots(MemberValues(members)) && whole[..|stack|] == stack;
  }

  /** Replaying Accept's events pushes exactly the value, on any stack. */
  lemma {:induction false} ReplayValue(stack: seq<Cell>, v: Value)
    ensures ApplyAll(stack, EventsOf(v)) == Some(stack + [Done(v)])
    decreases v, 1
  {
    hide ApplyAll, Close, Slots, MemberValues;
    match v {
      case Array(elements) =>
        var inner := stack + [Open(false)];
        ReplayElements(inner, elements);
        ApplyConcat(stack, [StartArray] + ElementEvents(elements), [EndArray(|elements|)]);
        ApplyConcat(stack, [StartArray], ElementEvents(elements));
        ApplyOne(stack, StartArray);
        ApplyOne(inner + Slots(elements), EndArray(|elements|));
        CloseElements(stack, elements);
      case Object(members) =>
        var inner := stack + [Open(true)];
        ReplayMembers(inner, members);
        ApplyConcat(stack, [StartObject] + MemberEvents(members), [EndObject(|members|)]);
        ApplyConcat(stack, [StartObject], MemberEvents(members));
        ApplyOne(stack, StartObject);
        ApplyOne(inner + Slots(MemberValues(members)), EndObject(|members|));
        CloseMembers(stack, members);
      case _ =>
        ApplyOne(stack, EventsOf(v)[0]);
    }
  }

  lemma ApplyOne(stack: seq<Cell>, event: Event)
    ensures ApplyAll(stack, [event]) == Apply(stack, event)
  {
    hide Apply;
    var next := Apply(stack, event);
    if next.Some? {
      assert ApplyAll(next.value, [event][1..]) == Some(next.value);
    }
  }

  lemma {:induction false} ReplayElements(stack: seq<Cell>, elements: seq<Value>)
    ensures ApplyAll(stack, ElementEvents(elements)) == Some(stack + Slots(elements))
    decreases elements, 0
  {
    if elements == [] {
      assert stack + Slots(elements) == stack;
    } else {
      ReplayValue(stack, elements[0]);
      ApplyConcat(stack, EventsOf(elements[0]), ElementEvents(elements[1..]));
      ReplayElements(stack + [Done(elements[0])], elements[1..]);
      assert stack + [Done(elements[0])] + Slots(elements[1..]) == stack + Slots(elements);
    }
  }

  lemma {:induction false} ReplayMembers(stack: seq<Cell>, members: seq<Member>)
    ensures ApplyAll(stack, MemberEvents(members)) == Some(stack + Slots(MemberValues(members)))
    decreases members, 0
  {
    if members == [] {
      assert stack + Slots(MemberValues(members)) == stack;
    } else {
      var name, value := Value.String(members[0].name), members[0].value;
      var named := stack + [Done(name)];
      ApplyOne(stack, Key(members[0].name));
      ReplayValue(named, value);
      ApplyConcat(stack, [Key(members[0].name)], EventsOf(value));
      ApplyConcat(stack, [Key(members[0].name)] + EventsOf(value), MemberEvents(members[1..]));
      ReplayMembers(named + [Done(value)], members[1..]);
      assert named + [Done(value)] + Slots(MemberValues(members[1..])) == stack + Slots(MemberValues(members));
    }
  }

  /** The document does not see which number kind an event used. */
  lemma {:induction false} ApplyCanonical(stack: seq<Cell>, events: seq<Event>)
    ensures ApplyAll(stack, CanonicalAll(events)) == ApplyAll(stack, events)
    decreases |events|
  {
    hide Close;
    if events != [] {
      var next := Apply(stack, events[0]);
      assert CanonicalAll(events)[1..] == CanonicalAll(events[1..]);
      if next.Some? {
        ApplyCanonical(next.value, events[1..]);
      }
    }
  }

  /** Two trees with the same events are the same tree. */
  lemma EventsDetermineTree(v: Value, w: Value)
    requires EventsOf(v) == EventsOf(w)
    ensures v == w
  {
    ReplayValue([], v);
    ReplayValue([], w);
    assert ([] + [Done(v)])[0] == ([] + [Done(w)])[0];
  }
}
