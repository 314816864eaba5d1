/** JSON values as trees, and the events GenericValue::Accept generates for them. */
module Values {
  import opened Bytes
  import opened Events
  import opened Numbers

  datatype Value =
    | Null
    | Bool(b: bool)
    | Integer(n: int)
    | Double(negative: bool, significand: real, exponent: int)
    | String(bytes: Text)
    | Array(elements: seq<Value>)
    | Object(members: seq<Member>)

  datatype Member = Member(name: Text, value: Value)

  /** The kind Accept reports: the narrowest signed kind first. */
  function AcceptKind(n: int): NumberKind {
    if -INT32_LIMIT <= n < INT32_LIMIT then Int32
    else if 0 <= n < UINT32_LIMIT then Uint32
    else if n < INT64_LIMIT then Int64
    else Uint64
  }

  /** The values the argument of Int, Uint, Int64 or Uint64 can have. */
  predicate KindHolds(kind: NumberKind, n: int) {
    match kind
    case Int32 => -INT32_LIMIT <= n < INT32_LIMIT
    case Uint32 => 0 <= n < UINT32_LIMIT
    case Int64 => -INT64_LIMIT <= n < INT64_LIMIT
    case Uint64 => 0 <= n < UINT64_LIMIT
  }

  predicate Fits64(n: int) {
    -INT64_LIMIT <= n < UINT64_LIMIT
  }

  lemma AcceptKindHolds(n: int)
    requires Fits64(n)
    ensures KindHolds(AcceptKind(n), n)
  {}

  /** Every number in the tree is an integer of at most 64 bits: no doubles. */
  predicate DoubleFree(v: Value)
    decreases v
  {
    match v
    case Integer(n) => Fits64(n)
    case Double(_, _, _) => false
    case Array(elements) => forall i :: 0 <= i < |elements| ==> DoubleFree(elements[i])
    case Object(members) => forall i :: 0 <= i < |members| ==> DoubleFree(members[i].value)
    case _ => true
  }

  /** Accept. */
  function EventsOf(v: Value): seq<Event>
    decreases v
  {
    match v
    case Null => [Event.Null]
    case Bool(b) => [Event.Bool(b)]
    case Integer(n) => [Event.Integer(AcceptKind(n), n)]
    case Double(negative, significand, exponent) => [Event.Double(negative, significand, exponent)]
    case String(bytes) => [Event.String(bytes)]
    case Array(elements) => [StartArray] + ElementEvents(elements) + [EndArray(|elements|)]
    case Object(members) => [StartObject] + MemberEvents(members) + [EndObject(|members|)]
  }

  function ElementEvents(elements: seq<Value>): seq<Event>
    decreases elements
  {
    if elements == [] then [] else EventsOf(elements[0]) + ElementEvents(elements[1..])
  }

  function MemberEvents(members: seq<Member>): seq<Event>
    decreases members
  {
    if members == [] then [] else [Key(members[0].name)] + EventsOf(members[0].value) + MemberEvents(members[1..])
  }

  /** An event with its number kind replaced by the one Accept would report. */
  function Canonical(event: Event): Event {
    match event
    case Integer(_, n) => Event.Integer(AcceptKind(n), n)
    case _ => event
  }

  function CanonicalAll(events: seq<Event>): seq<Event> {
    if events == [] then [] else [Canonical(events[0])] + CanonicalAll(events[1..])
  }

  lemma {:induction false} CanonicalConcat(a: seq<Event>, b: seq<Event>)
    ensures CanonicalAll(a + b) == CanonicalAll(a) + CanonicalAll(b)
  {
    if a == [] {
      assert a + b == b;
    } else {
      assert (a + b)[1..] == a[1..] + b;
      CanonicalConcat(a[1..], b);
    }
  }

  /** Only number events have kinds. */
  lemma {:induction false} CanonicalSame(events: seq<Event>)
    requires forall i :: 0 <= i < |events| ==> !events[i].Integer?
    ensures CanonicalAll(events) == events
    decreases |events|
  {
    if events != [] {
      CanonicalSame(events[1..]);
    }
  }

  lemma CanonicalOne(event: Event)
    ensures CanonicalAll([event]) == [Canonical(event)]
  {
    assert [event][1..] == [];
  }
}
