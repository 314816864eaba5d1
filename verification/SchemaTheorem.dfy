/** Streaming a value through the validator decides exactly whether it satisfies the schema. */
module SchemaTheorem {
  import opened Bytes
  import opened Events
  import opened Numbers
  import opened Values
  import opened Options
  import opened Schemas
  import opened SchemaStreaming
  import opened PointerTokens
  import Decimal

  // ---------------------------------------------------------------------------
  // Feeding several events
  // ---------------------------------------------------------------------------

  function FeedContext(c: Context, events: seq<Event>): (r: Context)
    ensures |r.validators| == |c.validators|
  {
    c.(validators := seq(|c.validators|, i requires 0 <= i < |c.validators| => Feed(c.validators[i], events)))
  }

  function FeedAll(stack: seq<Context>, events: seq<Event>): (r: seq<Context>)
    ensures |r| == |stack| && forall i :: 0 <= i < |stack| ==> r[i] == FeedContext(stack[i], events)
  {
    seq(|stack|, i requires 0 <= i < |stack| => FeedContext(stack[i], events))
  }

  lemma {:induction false} FeedConcat(v: Validator, a: seq<Event>, b: seq<Event>)
    ensures Feed(v, a + b) == Feed(Feed(v, a), b)
    decreases |a|
  {
    hide Step;
    if a == [] {
      assert a + b == b;
    } else {
      assert (a + b)[0] == a[0] && (a + b)[1..] == a[1..] + b;
      FeedConcat(Step(v, a[0]), a[1..], b);
    }
  }

  lemma FeedOne(v: Validator, e: Event)
    ensures Feed(v, [e]) == Step(v, e)
  {
    hide Step;
    assert [e][1..] == [];
  }

  lemma {:induction false} InvalidStays(v: Validator, events: seq<Event>)
    requires !v.valid
    ensures Feed(v, events) == v
    decreases |events|
  {
    if events != [] {
      InvalidStays(v, events[1..]);
    }
  }

  lemma FeedContextConcat(c: Context, a: seq<Event>, b: seq<Event>)
    ensures FeedContext(c, a + b) == FeedContext(FeedContext(c, a), b)
  {
    hide Feed;
    forall i | 0 <= i < |c.validators|
      ensures Feed(c.validators[i], a + b) == Feed(Feed(c.validators[i], a), b)
    {
      FeedConcat(c.validators[i], a, b);
    }
    assert FeedContext(c, a + b).validators == FeedContext(FeedContext(c, a), b).validators;
  }

  lemma FeedAllConcat(stack: seq<Context>, a: seq<Event>, b: seq<Event>)
    ensures FeedAll(stack, a + b) == FeedAll(FeedAll(stack, a), b)
  {
    hide FeedContext;
    forall i | 0 <= i < |stack|
      ensures FeedContext(stack[i], a + b) == FeedContext(FeedContext(stack[i], a), b)
    {
      FeedContextConcat(stack[i], a, b);
    }
  }

  lemma ForwardIsFeed(stack: seq<Context>, e: Event)
    ensures ForwardAll(stack, e) == FeedAll(stack, [e])
  {
    hide Step, Feed;
    forall i | 0 <= i < |stack|
      ensures Forward(stack[i], e) == FeedContext(stack[i], [e])
    {
      forall j | 0 <= j < |stack[i].validators|
        ensures Feed(stack[i].validators[j], [e]) == Step(stack[i].validators[j], e)
      {
        FeedOne(stack[i].validators[j], e);
      }
      assert Forward(stack[i], e).validators == FeedContext(stack[i], [e]).validators;
    }
  }

  lemma FeedNothing(stack: seq<Context>)
    ensures FeedAll(stack, []) == stack
  {
    forall i | 0 <= i < |stack|
      ensures FeedContext(stack[i], []) == stack[i]
    {
      assert FeedContext(stack[i], []).validators == stack[i].validators;
    }
  }

  // ---------------------------------------------------------------------------
  // Compiled schemas and keywords
  // ---------------------------------------------------------------------------

  predicate TypesSat(k: Keywords, v: Value)
    requires WellFormed(k)
  {
    (k.types.Some? ==> TypeSat(k.types.value, v)) && (v.Integer? ==> NumberSat(k, v.n))
  }

  lemma {:induction false} TypesOfMembers(types: seq<TypeName>)
    ensures forall t :: t in TypesOf(types) <==> t in types || (t == IntegerName && NumberName in types)
  {
    if types != [] {
      TypesOfMembers(types[1..]);
      assert types == [types[0]] + types[1..];
    }
  }

  /** The event a value begins with. */
  function FirstEvent(v: Value): (e: Event)
    ensures Begins(e)
  {
    match v
    case Null => Event.Null
    case Bool(b) => Event.Bool(b)
    case Integer(n) => Event.Integer(AcceptKind(n), n)
    case Double(negative, significand, exponent) => Event.Double(negative, significand, exponent)
    case String(bytes) => Event.String(bytes)
    case Array(_) => StartArray
    case Object(_) => StartObject
  }

  /** The 64-bit comparisons of CheckInt and CheckUint are the mathematical ones. */
  lemma AdmitsTypes(k: Keywords, v: Value)
    requires WellFormed(k) && DoubleFree(v)
    ensures Admits(Compile(k), FirstEvent(v)) <==> TypesSat(k, v)
  {
    hide CompileProperty, CompileAll, AllNames, WellFormed, DoubleFree;
    assert ValidLimit(k.minimum) && ValidLimit(k.maximum) && (k.multipleOf.Some? ==> k.multipleOf.value > 0) by {
      LimitsValid(k);
    }
    IntegerFits(v);
    if k.types.Some? {
      TypesOfMembers(k.types.value);
    }
    if v.Integer? && k.multipleOf.Some? {
      NegativeMultiple(v.n, k.multipleOf.value);
    }
  }

  lemma LimitsValid(k: Keywords)
    requires WellFormed(k)
    ensures ValidLimit(k.minimum) && ValidLimit(k.maximum) && (k.multipleOf.Some? ==> k.multipleOf.value > 0)
  {}

  lemma IntegerFits(v: Value)
    requires DoubleFree(v)
    ensures v.Integer? ==> Fits64(v.n)
  {}

  lemma NegativeMultiple(n: int, m: nat)
    requires m > 0
    ensures n % m == 0 <==> -n % m == 0
  {
    if n % m == 0 {
      assert -n == m * -(n / m);
      MultipleIsZero(-(n / m), m);
    }
    if -n % m == 0 {
      assert n == m * -(-n / m);
      MultipleIsZero(-(-n / m), m);
    }
  }

  lemma MultipleIsZero(q: int, m: nat)
    requires m > 0
    ensures (m * q) % m == 0
  {
    var d := q - (m * q) / m;
    assert m * d == (m * q) % m;
    ProductGrows(m, d);
  }

  lemma ProductGrows(m: int, d: int)
    requires m > 0
    ensures d != 0 ==> m * d >= m || m * d <= -m
  {}

  lemma ArraysOf(k: Keywords)
    ensures Compile(k).allOf == SchemaArray(CompileAll(k.allOf), 0)
    ensures Compile(k).anyOf == SchemaArray(CompileAll(k.anyOf), |k.allOf|)
    ensures Compile(k).oneOf == SchemaArray(CompileAll(k.oneOf), |k.allOf| + |k.anyOf|)
    ensures Compile(k).validatorCount >= |k.allOf| + |k.anyOf| + |k.oneOf|
  {
    hide CompileProperty, AllNames, SchemaCount, TypesOf, CompileAll;
  }

  lemma SlotAllOf(k: Keywords, i: nat)
    requires i < |k.allOf|
    ensures Slot(Compile(k), i) == Some(Compile(k.allOf[i])) && i < Compile(k).validatorCount
  {
    ArraysOf(k);
    hide Compile, DependencySlot;
  }

  lemma SlotAnyOf(k: Keywords, i: nat)
    requires |k.allOf| <= i < |k.allOf| + |k.anyOf|
    ensures Slot(Compile(k), i) == Some(Compile(k.anyOf[i - |k.allOf|])) && i < Compile(k).validatorCount
  {
    ArraysOf(k);
    hide Compile, DependencySlot;
  }

  lemma SlotOneOf(k: Keywords, i: nat)
    requires |k.allOf| + |k.anyOf| <= i < |k.allOf| + |k.anyOf| + |k.oneOf|
    ensures Slot(Compile(k), i) == Some(Compile(k.oneOf[i - |k.allOf| - |k.anyOf|])) && i < Compile(k).validatorCount
  {
    ArraysOf(k);
    hide Compile, DependencySlot;
  }

  lemma SlotNot(k: Keywords)
    requires k.negated.Some?
    ensures Compile(k).negated.Some?
    ensures Slot(Compile(k), Compile(k).notValidatorIndex) == Some(Compile(k.negated.value))
    ensures Compile(k).notValidatorIndex < Compile(k).validatorCount
  {
    hide CompileProperty, DependencySlot, AllNames, SchemaCount, TypesOf;
  }

  lemma {:induction false} SchemaCountGrows(dependencies: seq<Dependency>, a: nat, b: nat)
    requires a < b <= |dependencies| && dependencies[a].OnSchema?
    ensures SchemaCount(dependencies[..a]) < SchemaCount(dependencies[..b])
    decreases b
  {
    assert dependencies[..b][..b - 1] == dependencies[..b - 1];
    if a < b - 1 {
      SchemaCountGrows(dependencies, a, b - 1);
    }
  }

  function PropertyAt(k: Keywords, p: nat): Property
    requires p < |AllNames(k)|
  {
    CompileProperty(k, AllNames(k)[p])
  }

  lemma PropertiesOf(k: Keywords)
    ensures |Compile(k).properties| == |AllNames(k)|
    ensures forall p :: 0 <= p < |AllNames(k)| ==> Compile(k).properties[p] == PropertyAt(k, p)
  {
    hide CompileProperty, AllNames, CompileAll;
  }

  /** Each dependency schema has a validator of its own. */
  lemma SlotDependency(k: Keywords, p: nat)
    requires p < |AllNames(k)| && PropertyAt(k, p).dependenciesSchema.Some?
    ensures Slot(Compile(k), PropertyAt(k, p).dependenciesValidatorIndex) == PropertyAt(k, p).dependenciesSchema
    ensures PropertyAt(k, p).dependenciesValidatorIndex < Compile(k).validatorCount
  {
    var index := PropertyAt(k, p).dependenciesValidatorIndex;
    PropertiesOf(k);
    var r := DependencySlot(Compile(k).properties, index);
    assert Compile(k).properties[p] == PropertyAt(k, p);
    assert r.Some?;
    SameDependency(k, p, r.value);
    DependencyInRange(k, p);
    hide DependencySlot, PropertyAt, CompileProperty, CompileAll, AllNames;
  }

  lemma DependencyInRange(k: Keywords, p: nat)
    requires p < |AllNames(k)| && PropertyAt(k, p).dependenciesSchema.Some?
    ensures FirstDependencySlot(k) <= PropertyAt(k, p).dependenciesValidatorIndex
      < FirstDependencySlot(k) + SchemaCount(k.dependencies)
  {
    hide AllNames, Compile;
    var d := IndexOf(SourcesOf(k.dependencies), AllNames(k)[p]).value;
    SchemaCountGrows(k.dependencies, d, |k.dependencies|);
    assert k.dependencies[..|k.dependencies|] == k.dependencies;
  }

  lemma SameDependency(k: Keywords, p: nat, q: nat)
    requires p < |AllNames(k)| && q < |AllNames(k)|
    requires PropertyAt(k, p).dependenciesSchema.Some? && PropertyAt(k, q).dependenciesSchema.Some?
    requires PropertyAt(k, p).dependenciesValidatorIndex == PropertyAt(k, q).dependenciesValidatorIndex
    ensures PropertyAt(k, p).dependenciesSchema == PropertyAt(k, q).dependenciesSchema
  {
    hide AllNames, Compile;
    var d := IndexOf(SourcesOf(k.dependencies), AllNames(k)[p]).value;
    var e := IndexOf(SourcesOf(k.dependencies), AllNames(k)[q]).value;
    if d < e {
      SchemaCountGrows(k.dependencies, d, e);
    } else if e < d {
      SchemaCountGrows(k.dependencies, e, d);
    }
  }

  // ---------------------------------------------------------------------------
  // Contexts and their nested validators
  // ---------------------------------------------------------------------------

  /** Every nested validator has seen exactly `events`. */
  predicate Tracks(c: Context, events: seq<Event>) {
    && |c.validators| == c.schema.validatorCount
    && forall i :: 0 <= i < |c.validators| && Slot(c.schema, i).Some? ==>
         c.validators[i] == Feed(Fresh(Slot(c.schema, i).value), events)
  }

  lemma FirstIsFeed(s: Schema, e: Event)
    requires Begins(e)
    ensures First(s, e) == Feed(Fresh(s), [e])
  {
    hide Opened;
    FeedOne(Fresh(s), e);
    assert ForwardAll([], e) == [];
  }

  lemma EnteredTracks(s: Schema, e: Event)
    requires Begins(e)
    ensures Tracks(Entered(s, e), [e])
  {
    hide Slot, First, Feed;
    var c := Entered(s, e);
    forall i | 0 <= i < |c.validators| && Slot(s, i).Some?
      ensures c.validators[i] == Feed(Fresh(Slot(s, i).value), [e])
    {
      FirstIsFeed(Slot(s, i).value, e);
    }
  }

  lemma TracksMore(c: Context, a: seq<Event>, b: seq<Event>)
    requires Tracks(c, a)
    ensures Tracks(FeedContext(c, b), a + b)
  {
    hide Slot, Feed;
    forall i | 0 <= i < |c.validators| && Slot(c.schema, i).Some?
      ensures Feed(c.validators[i], b) == Feed(Fresh(Slot(c.schema, i).value), a + b)
    {
      FeedConcat(Fresh(Slot(c.schema, i).value), a, b);
    }
  }

  /** allOf, anyOf, oneOf and not find the verdicts of their own subschemas. */
  predicate Agrees(k: Keywords, c: Context, v: Value)
    requires WellFormed(k)
  {
    var s := Compile(k);
    && Verdicts(c, s.allOf) == SatAll(k.allOf, v)
    && Verdicts(c, s.anyOf) == SatAll(k.anyOf, v)
    && Verdicts(c, s.oneOf) == SatAll(k.oneOf, v)
    && (k.negated.Some? ==> ValidAt(c, s.notValidatorIndex) == Sat(k.negated.value, v))
  }

  lemma CombinesIf(k: Keywords, c: Context, v: Value)
    requires WellFormed(k) && c.schema == Compile(k) && Agrees(k, c, v)
    ensures Combines(c) <==> CombinationSat(k, v)
  {
    hide Sat, SatAll, Verdicts, ValidAt, CompileProperty, AllNames, AllTrue, SomeTrue, OneTrue;
    var s := Compile(k);
    assert s.allOf.schemas != [] <==> k.allOf != [];
    assert s.anyOf.schemas != [] <==> k.anyOf != [];
    assert s.oneOf.schemas != [] <==> k.oneOf != [];
    assert s.negated.Some? <==> k.negated.Some?;
    hide Compile;
    assert AllWellFormed(k.allOf) && AllWellFormed(k.anyOf) && AllWellFormed(k.oneOf);
    assert k.negated.Some? ==> WellFormed(k.negated.value);
    hide WellFormed;
  }

  // ---------------------------------------------------------------------------
  // Beginning and ending a value
  // ---------------------------------------------------------------------------

  /** Forwarding to nested validators does not disturb BeginValue. */
  lemma BeginForward(v: Validator, e: Event)
    ensures Begin(v.(stack := ForwardAll(v.stack, e))).Some? <==> Begin(v).Some?
    ensures Begin(v).Some? ==>
      Begin(v.(stack := ForwardAll(v.stack, e)))
        == Some((Begin(v).value.0.(stack := ForwardAll(Begin(v).value.0.stack, e)), Begin(v).value.1))
  {
    hide Step, ElementSchema;
    if Begin(v).Some? {
      var w := v.(stack := ForwardAll(v.stack, e));
      var b := Begin(v).value.0;
      assert Begin(w).value.0.stack == ForwardAll(b.stack, e);
    }
  }

  lemma BeginKeeps(v: Validator)
    requires Begin(v).Some?
    ensures Begin(v).value.0.valid == v.valid && Begin(v).value.0.root == v.root
    ensures |Begin(v).value.0.stack| == |v.stack|
  {}

  /** After `events` that make up one value: valid exactly if `ok`, and then the value has left only its marks. */
  predicate Outcome(v: Validator, events: seq<Event>, ok: bool)
    requires Begin(v).Some?
  {
    var b, r := Begin(v).value.0, Feed(v, events);
    && r.valid == ok
    && (ok ==> r == b.(stack := FeedAll(b.stack, events), path := PopToken(b.path)))
  }

  lemma StartStep(v: Validator, e: Event)
    requires v.valid && Begins(e) && Begin(v).Some?
    ensures var b, s := Begin(v).value.0, Begin(v).value.1;
      Step(v, e) == Opened(b.(stack := FeedAll(b.stack, [e])), s, e)
  {
    hide Opened, ForwardAll, FeedAll, Begin;
    BeginForward(v, e);
    ForwardIsFeed(Begin(v).value.0.stack, e);
  }

  lemma CannotBegin(v: Validator, value: Value, rest: seq<Event>)
    requires v.valid && Begin(v).None?
    ensures !Feed(v, EventsOf(value) + rest).valid
  {
    hide Begin, ForwardAll, Feed, ElementEvents, MemberEvents;
    var e := FirstEvent(value);
    BeginForward(v, e);
    assert !Step(v, e).valid;
    FirstOfEvents(value);
    var events := EventsOf(value) + rest;
    assert events == [e] + events[1..];
    FeedConcat(v, [e], events[1..]);
    FeedOne(v, e);
    InvalidStays(Step(v, e), events[1..]);
  }

  lemma FirstOfEvents(value: Value)
    ensures EventsOf(value) != [] && EventsOf(value)[0] == FirstEvent(value)
  {}

  lemma ScalarStreams(v: Validator, value: Value, k: Keywords)
    requires !value.Array? && !value.Object?
    requires v.valid && Begin(v).Some? && Begin(v).value.1 == Compile(k)
    requires WellFormed(k) && DoubleFree(value)
    requires Agrees(k, Entered(Compile(k), FirstEvent(value)), value)
    ensures Outcome(v, EventsOf(value), Sat(k, value))
  {
    hide Begin, FeedAll, Compile, Entered, Agrees, Combines, CombinationSat, WellFormed, Admits;
    var e := FirstEvent(value);
    assert EventsOf(value) == [e];
    FeedOne(v, e);
    StartStep(v, e);
    hide Step;
    BeginKeeps(v);
    AdmitsTypes(k, value);
    EnteredSchema(Compile(k), e);
    CombinesIf(k, Entered(Compile(k), e), value);
  }

  /** The stack inside a container: `outer` and `c` after `events`. */
  predicate Inside(stack: seq<Context>, outer: seq<Context>, c: Context, events: seq<Event>) {
    && |stack| == |outer| + 1
    && stack[..|outer|] == FeedAll(outer, events)
    && Last(stack).schema == c.schema && Last(stack).inArray == c.inArray
    && Last(stack).validators == FeedContext(c, events).validators
  }

  lemma InsideNotEmpty(stack: seq<Context>, outer: seq<Context>, c: Context, events: seq<Event>)
    requires Inside(stack, outer, c, events)
    ensures stack != []
  {}

  lemma InsideConcat(stack: seq<Context>, outer: seq<Context>, c: Context, d: Context, a: seq<Event>, b: seq<Event>)
    requires d.schema == c.schema && d.inArray == c.inArray && d.validators == FeedContext(c, a).validators
    requires Inside(stack, FeedAll(outer, a), d, b)
    ensures Inside(stack, outer, c, a + b)
  {
    hide FeedContext;
    FeedAllConcat(outer, a, b);
    FeedContextConcat(c, a, b);
    SameValidators(d, FeedContext(c, a), b);
  }

  lemma SameValidators(c: Context, d: Context, events: seq<Event>)
    requires c.validators == d.validators
    ensures FeedContext(c, events).validators == FeedContext(d, events).validators
  {}

  lemma FeedAllAppend(outer: seq<Context>, c: Context, events: seq<Event>)
    ensures FeedAll(outer + [c], events) == FeedAll(outer, events) + [FeedContext(c, events)]
  {
    hide FeedContext;
  }

  /** The end of a container whose context is `c` when it is entered and `r.stack`'s last before it is left. */
  lemma EndStep(v: Validator, s: Schema, e0: Event, inner: seq<Event>, e1: Event, r: Validator)
    requires Begins(e0) && (e1.EndObject? || e1.EndArray?)
    requires v.valid && Begin(v).Some? && Begin(v).value.1 == s
    requires var b := Begin(v).value.0;
      r.valid && r.root == b.root && r.path == b.path && Inside(r.stack, FeedAll(b.stack, [e0]), Entered(s, e0), inner)
    ensures var b, d, events := Begin(v).value.0, FeedContext(Last(r.stack), [e1]), [e0] + inner + [e1];
      && Tracks(d, events) && d.schema == s && d.exist == Last(r.stack).exist
      && (Step(r, e1).valid <==> EndHolds(d, e1) && Combines(d))
      && (Step(r, e1).valid ==> Step(r, e1) == b.(stack := FeedAll(b.stack, events), path := PopToken(b.path)))
  {
    hide Begin, Entered, EndHolds, Combines, FeedContext, Tracks;
    var b, outer, c := Begin(v).value.0, FeedAll(Begin(v).value.0.stack, [e0]), Entered(s, e0);
    var last := Last(r.stack);
    BeginKeeps(v);
    EnteredSchema(s, e0);
    ForwardIsFeed(r.stack, e1);
    assert r.stack == r.stack[..|outer|] + [last];
    FeedAllAppend(r.stack[..|outer|], last, [e1]);
    FeedAllConcat(outer, inner, [e1]);
    FeedAllConcat(b.stack, [e0], inner + [e1]);
    assert [e0] + (inner + [e1]) == [e0] + inner + [e1];
    EndTracks(s, e0, inner, e1, last);
  }

  lemma EndTracks(s: Schema, e0: Event, inner: seq<Event>, e1: Event, last: Context)
    requires Begins(e0) && last.schema == s && last.validators == FeedContext(Entered(s, e0), inner).validators
    ensures Tracks(FeedContext(last, [e1]), [e0] + inner + [e1])
    ensures FeedContext(last, [e1]).schema == s && FeedContext(last, [e1]).exist == last.exist
  {
    hide Entered, Slot, Feed;
    var c := Entered(s, e0);
    assert c.schema == s by { EnteredSchema(s, e0); }
    EnteredTracks(s, e0);
    TracksMore(c, [e0], inner);
    assert Tracks(last, [e0] + inner);
    TracksMore(last, [e0] + inner, [e1]);
  }

  lemma EnteredSchema(s: Schema, e: Event)
    requires Begins(e)
    ensures Entered(s, e).schema == s && Entered(s, e).inArray == e.StartArray? && Entered(s, e).elementIndex == 0
    ensures Entered(s, e).exist ==
      if e.StartObject? && (s.hasDependencies || s.hasRequired) then Some(NoneExist(s)) else None
  {}

  // ---------------------------------------------------------------------------
  // Elements
  // ---------------------------------------------------------------------------

  /** The schema of element `i`, if the schema allows one there. */
  function ElementKeywords(k: Keywords, i: nat): (r: Option<Keywords>)
    requires WellFormed(k)
    ensures r.Some? ==> WellFormed(r.value)
  {
    match k.items
    case Anything => Some(Empty)
    case List(schema) => Some(schema)
    case Tuple(schemas) =>
      if schemas == [] then Some(Empty)
      else if i < |schemas| then Some(schemas[i])
      else if k.additionalItems.Described? then Some(k.additionalItems.schema)
      else if k.additionalItems.allowed then Some(Empty)
      else None
  }

  lemma ElementKeywordsCompile(k: Keywords, i: nat)
    requires WellFormed(k)
    ensures ElementSchema(Compile(k), i) == CompileOption(ElementKeywords(k, i))
  {
    hide CompileProperty, AllNames, SchemaCount, TypesOf, WellFormed;
  }

  lemma ElementKeywordsSat(k: Keywords, i: nat, v: Value)
    requires WellFormed(k)
    ensures ElementSat(k, i, v) <==> ElementKeywords(k, i).Some? && Sat(ElementKeywords(k, i).value, v)
  {
    EmptySat(v);
    hide Sat;
  }

  predicate ElementsSat(k: Keywords, elements: seq<Value>, i: nat)
    requires WellFormed(k) && i <= |elements|
  {
    forall j :: i <= j < |elements| ==> ElementSat(k, j, elements[j])
  }

  lemma ElementsSatNext(k: Keywords, elements: seq<Value>, i: nat)
    requires WellFormed(k) && i < |elements|
    ensures ElementsSat(k, elements, i) <==> ElementSat(k, i, elements[i]) && ElementsSat(k, elements, i + 1)
  {
    hide ElementSat;
  }

  lemma DigitsHaveNoSolidus(path: Text, n: nat)
    ensures PopToken(path + [SOLIDUS] + Decimal.Digits(n)) == path
  {
    Decimal.DigitsAreDigits(n);
    PopPiece(path, Decimal.Digits(n));
  }

  lemma ElementEventsNext(elements: seq<Value>, i: nat)
    requires i < |elements|
    ensures ElementEvents(elements[i..]) == EventsOf(elements[i]) + ElementEvents(elements[i + 1..])
  {
    assert elements[i..][0] == elements[i] && elements[i..][1..] == elements[i + 1..];
  }

  lemma DoubleFreeElement(elements: seq<Value>, i: nat)
    requires DoubleFree(Value.Array(elements)) && i < |elements|
    ensures DoubleFree(elements[i])
  {}

  /** In an array, BeginValue picks the element's schema and appends its index to the path. */
  lemma BeginElement(v: Validator, outer: seq<Context>, c: Context)
    requires v.stack == outer + [c] && c.inArray
    ensures Begin(v).Some? <==> ElementSchema(c.schema, c.elementIndex).Some?
    ensures var s := ElementSchema(c.schema, c.elementIndex); s.Some? ==>
      Begin(v) == Some((v.(stack := outer + [c.(valueSchema := s, elementIndex := c.elementIndex + 1)],
                           path := v.path + [SOLIDUS] + Decimal.Digits(c.elementIndex)), s.value))
  {
    hide ElementSchema;
    assert Last(v.stack) == c;
    assert forall d :: SetLast(v.stack, d) == outer + [d];
  }

  lemma {:induction false} ElementsStream(v: Validator, outer: seq<Context>, c: Context, k: Keywords, elements: seq<Value>, i: nat)
    requires WellFormed(k) && DoubleFree(Value.Array(elements)) && i <= |elements|
    requires v.valid && v.stack == outer + [c] && c.inArray && c.schema == Compile(k) && c.elementIndex == i
    ensures var events := ElementEvents(elements[i..]);
      var r := Feed(v, events);
      && (r.valid <==> ElementsSat(k, elements, i))
      && (r.valid ==> r.root == v.root && r.path == v.path && Inside(r.stack, outer, c, events))
    decreases elements, |elements| - i
  {
    hide Sat, ElementSat, WellFormed, DoubleFree, Compile, Begin, Step, FeedAll, FeedContext, ElementsSat, ElementKeywords,
      ElementSchema, EventsOf, Inside;
    if i == |elements| {
      NoEvents(v, outer, c);
      NoElements(k, elements);
    } else {
      var item := ElementKeywords(k, i);
      var first, rest := EventsOf(elements[i]), ElementEvents(elements[i + 1..]);
      ElementKeywordsCompile(k, i);
      ElementKeywordsSat(k, i, elements[i]);
      ElementsSatNext(k, elements, i);
      ElementEventsNext(elements, i);
      BeginElement(v, outer, c);
      FeedConcat(v, first, rest);
      if item.None? {
        CannotBegin(v, elements[i], rest);
      } else {
        DoubleFreeElement(elements, i);
        ValueStreams(v, elements[i], item.value);
        var r := Feed(v, first);
        if !r.valid {
          InvalidStays(r, rest);
        } else {
          var d := c.(valueSchema := ElementSchema(c.schema, i), elementIndex := i + 1);
          var c' := FeedContext(d, first);
          FeedAllAppend(outer, d, first);
          DigitsHaveNoSolidus(v.path, i);
          FeedKeeps(d, first);
          SameValidators(c, d, first);
          ElementsStream(r, FeedAll(outer, first), c', k, elements, i + 1);
          if Feed(r, rest).valid {
            InsideConcat(Feed(r, rest).stack, outer, c, c', first, rest);
          }
        }
      }
    }
  }

  lemma FeedKeeps(c: Context, events: seq<Event>)
    ensures FeedContext(c, events) == c.(validators := FeedContext(c, events).validators)
  {}

  lemma NoEvents(v: Validator, outer: seq<Context>, c: Context)
    requires v.stack == outer + [c]
    ensures Feed(v, []) == v && Inside(v.stack, outer, c, [])
  {
    FeedNothing(outer);
    FeedNothing([c]);
    assert FeedAll([c], [])[0] == FeedContext(c, []);
  }

  lemma NoElements(k: Keywords, elements: seq<Value>)
    requires WellFormed(k)
    ensures ElementsSat(k, elements, |elements|) && ElementEvents(elements[|elements|..]) == []
  {}

  lemma ArrayEvents(elements: seq<Value>)
    ensures EventsOf(Value.Array(elements)) == [StartArray] + ElementEvents(elements[0..]) + [EndArray(|elements|)]
  {
    assert elements[0..] == elements;
  }

  lemma ArraySatParts(k: Keywords, elements: seq<Value>)
    requires WellFormed(k)
    ensures ArraySat(k, elements) <==>
      k.minItems <= |elements| && (k.maxItems.Some? ==> |elements| <= k.maxItems.value) && ElementsSat(k, elements, 0)
  {
    hide ElementSat;
  }

  lemma EndArrayBounds(k: Keywords, c: Context, n: nat)
    requires c.schema == Compile(k)
    ensures EndHolds(c, EndArray(n)) <==> k.minItems <= n && (k.maxItems.Some? ==> n <= k.maxItems.value)
  {
    hide CompileProperty, AllNames, SchemaCount, TypesOf;
  }

  lemma ArrayStreams(v: Validator, elements: seq<Value>, k: Keywords)
    requires v.valid && Begin(v).Some? && Begin(v).value.1 == Compile(k)
    requires WellFormed(k) && DoubleFree(Value.Array(elements))
    ensures Outcome(v, EventsOf(Value.Array(elements)), Sat(k, Value.Array(elements)))
    decreases Value.Array(elements), k, 3
  {
    hide Begin, Step, Opened, Feed, FeedAll, FeedContext, Compile, Entered, Agrees, Combines, CombinationSat, ArraySat, ElementsSat,
      WellFormed, DoubleFree, Admits, EventsOf, EndHolds, Inside, Tracks;
    var value := Value.Array(elements);
    var s, b := Compile(k), Begin(v).value.0;
    var inner, e1 := ElementEvents(elements[0..]), EndArray(|elements|);
    ArrayEvents(elements);
    ArraySatParts(k, elements);
    BeginKeeps(v);
    StartStep(v, StartArray);
    AdmitsTypes(k, value);
    FeedThree(v, StartArray, inner, e1);
    var u := Step(v, StartArray);
    if !Admits(s, StartArray) {
      OpenedFails(b.(stack := FeedAll(b.stack, [StartArray])), s, StartArray);
      InvalidStays(u, inner + [e1]);
    } else {
      EnteredSchema(s, StartArray);
      OpenedPushes(b.(stack := FeedAll(b.stack, [StartArray])), s, StartArray);
      ElementsStream(u, FeedAll(b.stack, [StartArray]), Entered(s, StartArray), k, elements, 0);
      var r := Feed(u, inner);
      FeedConcat(u, inner, [e1]);
      FeedOne(r, e1);
      if !r.valid {
        InvalidStays(r, [e1]);
      } else {
        assert r.stack != [] by { InsideNotEmpty(r.stack, FeedAll(b.stack, [StartArray]), Entered(s, StartArray), inner); }
        EndStep(v, s, StartArray, inner, e1, r);
        var d := FeedContext(Last(r.stack), [e1]);
        EndArrayBounds(k, d, |elements|);
        ContextAgrees(k, d, value);
        CombinesIf(k, d, value);
      }
    }
  }

  lemma FeedThree(v: Validator, e0: Event, inner: seq<Event>, e1: Event)
    ensures Feed(v, [e0] + inner + [e1]) == Feed(Step(v, e0), inner + [e1])
  {
    hide Step;
    assert [e0] + inner + [e1] == [e0] + (inner + [e1]);
    assert ([e0] + (inner + [e1]))[1..] == inner + [e1];
  }

  lemma OpenedFails(v: Validator, s: Schema, e: Event)
    requires Begins(e) && !Admits(s, e)
    ensures !Opened(v, s, e).valid
  {}

  lemma OpenedPushes(v: Validator, s: Schema, e: Event)
    requires (e.StartArray? || e.StartObject?) && Admits(s, e)
    ensures Opened(v, s, e) == v.(stack := v.stack + [Entered(s, e)])
  {
    hide Entered;
  }

  // ---------------------------------------------------------------------------
  // The induction
  // ---------------------------------------------------------------------------

  /** The verdict of each nested validator of a value is whether the value satisfies its subschema. */
  lemma ContextAgrees(k: Keywords, c: Context, v: Value)
    requires WellFormed(k) && DoubleFree(v) && c.schema == Compile(k) && Tracks(c, EventsOf(v))
    ensures Agrees(k, c, v)
    decreases v, k, 0
  {
    hide Compile, Sat, SatAll, DoubleFree, EventsOf, Feed, Slot, ValidAt, Verdicts, Tracks;
    WellFormedParts(k);
    hide WellFormed;
    ArraysOf(k);
    var s := Compile(k);
    SlotsOfArrays(k);
    ArrayAgrees(k.allOf, s.allOf, c, v);
    ArrayAgrees(k.anyOf, s.anyOf, c, v);
    ArrayAgrees(k.oneOf, s.oneOf, c, v);
    if k.negated.Some? {
      SlotNot(k);
      SlotAgrees(k.negated.value, c, s.notValidatorIndex, v);
    }
  }

  /** The validators of one schema array are those of its subschemas. */
  predicate SlotsAre(s: Schema, compiled: SchemaArray, schemas: seq<Keywords>) {
    && |compiled.schemas| == |schemas|
    && forall i :: 0 <= i < |schemas| ==> SlotIs(s, compiled.begin + i, schemas[i])
  }

  predicate SlotIs(s: Schema, i: nat, k: Keywords) {
    Slot(s, i) == Some(Compile(k)) && i < s.validatorCount
  }

  lemma SlotsOfArrays(k: Keywords)
    ensures SlotsAre(Compile(k), Compile(k).allOf, k.allOf)
    ensures SlotsAre(Compile(k), Compile(k).anyOf, k.anyOf)
    ensures SlotsAre(Compile(k), Compile(k).oneOf, k.oneOf)
  {
    hide Compile, Slot;
    ArraysOf(k);
    var s := Compile(k);
    forall i | 0 <= i < |k.allOf|
      ensures SlotIs(s, s.allOf.begin + i, k.allOf[i])
    {
      SlotAllOf(k, i);
    }
    forall i | 0 <= i < |k.anyOf|
      ensures SlotIs(s, s.anyOf.begin + i, k.anyOf[i])
    {
      SlotAnyOf(k, |k.allOf| + i);
    }
    forall i | 0 <= i < |k.oneOf|
      ensures SlotIs(s, s.oneOf.begin + i, k.oneOf[i])
    {
      SlotOneOf(k, |k.allOf| + |k.anyOf| + i);
    }
  }

  lemma ArrayAgrees(schemas: seq<Keywords>, compiled: SchemaArray, c: Context, v: Value)
    requires AllWellFormed(schemas) && DoubleFree(v) && Tracks(c, EventsOf(v))
    requires SlotsAre(c.schema, compiled, schemas)
    ensures Verdicts(c, compiled) == SatAll(schemas, v)
    decreases v, schemas, 5
  {
    hide Compile, Sat, DoubleFree, EventsOf, Feed, Slot, ValidAt, Tracks;
    forall i | 0 <= i < |schemas|
      ensures ValidAt(c, compiled.begin + i) == Sat(schemas[i], v)
    {
      assert SlotIs(c.schema, compiled.begin + i, schemas[i]);
      SlotAgrees(schemas[i], c, compiled.begin + i, v);
    }
  }

  lemma WellFormedParts(k: Keywords)
    requires WellFormed(k)
    ensures AllWellFormed(k.allOf) && AllWellFormed(k.anyOf) && AllWellFormed(k.oneOf)
    ensures k.negated.Some? ==> WellFormed(k.negated.value)
  {}

  lemma SlotAgrees(k: Keywords, c: Context, i: nat, v: Value)
    requires WellFormed(k) && DoubleFree(v) && Tracks(c, EventsOf(v))
    requires i < c.schema.validatorCount && Slot(c.schema, i) == Some(Compile(k))
    ensures ValidAt(c, i) == Sat(k, v)
    decreases v, k, 6
  {
    hide Compile, Sat, DoubleFree, EventsOf, Feed, Slot, WellFormed;
    FreshStreams(k, v);
  }

  lemma FreshStreams(k: Keywords, v: Value)
    requires WellFormed(k) && DoubleFree(v)
    ensures Feed(Fresh(Compile(k)), EventsOf(v)).valid <==> Sat(k, v)
    decreases v, k, 5
  {
    hide Compile, Sat, DoubleFree, EventsOf, Feed, WellFormed;
    ValueStreams(Fresh(Compile(k)), v, k);
  }

  /** The events of one value, at any place where the validator accepts a value. */
  lemma ValueStreams(v: Validator, value: Value, k: Keywords)
    requires v.valid && Begin(v).Some? && Begin(v).value.1 == Compile(k)
    requires WellFormed(k) && DoubleFree(value)
    ensures Outcome(v, EventsOf(value), Sat(k, value))
    decreases value, k, 4
  {
    hide Begin, Compile, Sat, DoubleFree, EventsOf, Feed, WellFormed, Outcome, Agrees;
    if value.Array? {
      ArrayStreams(v, value.elements, k);
    } else if value.Object? {
      ObjectStreams(v, value, k);
    } else {
      var e := FirstEvent(value);
      EnteredTracks(Compile(k), e);
      EnteredSchema(Compile(k), e);
      ScalarEvents(value);
      ContextAgrees(k, Entered(Compile(k), e), value);
      ScalarStreams(v, value, k);
    }
  }

  lemma ScalarEvents(value: Value)
    requires !value.Array? && !value.Object?
    ensures EventsOf(value) == [FirstEvent(value)]
  {}

  // ---------------------------------------------------------------------------
  // Members
  // ---------------------------------------------------------------------------

  /** The schema of a member, if the schema allows one of that name. */
  function MemberKeywords(k: Keywords, name: Text): (r: Option<Keywords>)
    requires WellFormed(k)
    ensures r.Some? ==> WellFormed(r.value)
  {
    var declared := IndexOf(NamesOf(k.properties), name);
    if declared.Some? then Some(k.properties[declared.value].schema)
    else if Mentions(k, name) then Some(Empty)
    else if k.additionalProperties.Described? then Some(k.additionalProperties.schema)
    else if k.additionalProperties.allowed then Some(Empty)
    else None
  }

  lemma MemberKeywordsSat(k: Keywords, name: Text, v: Value)
    requires WellFormed(k)
    ensures MemberSat(k, name, v) <==> MemberKeywords(k, name).Some? && Sat(MemberKeywords(k, name).value, v)
  {
    EmptySat(v);
    DistinctParts(k);
    hide Sat, WellFormed;
    var names, declared := NamesOf(k.properties), IndexOf(NamesOf(k.properties), name);
    if declared.Some? {
      assert names[declared.value] in names;
      assert forall i :: 0 <= i < |names| && names[i] == name ==> i == declared.value;
    }
  }

  lemma DistinctParts(k: Keywords)
    requires WellFormed(k)
    ensures Distinct(NamesOf(k.properties)) && Distinct(SourcesOf(k.dependencies))
  {}

  lemma PropertyNamesOf(k: Keywords)
    ensures PropertyNames(Compile(k)) == AllNames(k)
  {
    hide AllNames;
    PropertiesOf(k);
    forall p | 0 <= p < |AllNames(k)|
      ensures Compile(k).properties[p].name == AllNames(k)[p]
    {
      assert Compile(k).properties[p] == PropertyAt(k, p);
    }
  }

  lemma CompiledFields(k: Keywords)
    ensures var s := Compile(k);
      && s.hasRequired == (k.required != []) && s.hasDependencies == (k.dependencies != [])
      && s.minProperties == k.minProperties && s.maxProperties == k.maxProperties
      && s.additionalPropertiesSchema
        == (if k.additionalProperties.Described? then Some(Compile(k.additionalProperties.schema)) else None)
      && s.additionalProperties == (k.additionalProperties.Described? || k.additionalProperties.allowed)
  {
    hide CompileProperty, AllNames, SchemaCount, TypesOf, CompileAll;
  }

  /** The flags say which of the names have been seen. */
  predicate Marks(c: Context, k: Keywords, members: seq<Member>) {
    k.required != [] || k.dependencies != [] ==>
      && c.exist.Some? && |c.exist.value| == |AllNames(k)|
      && forall p :: 0 <= p < |AllNames(k)| ==> c.exist.value[p] == HasMember(members, AllNames(k)[p])
  }

  lemma KeyedSchema(k: Keywords, c: Context, name: Text)
    requires WellFormed(k) && c.schema == Compile(k)
    ensures Keyed(c, name).Some? <==> MemberKeywords(k, name).Some?
    ensures var keyed := Keyed(c, name); keyed.Some? ==>
      && keyed.value.valueSchema == Some(Compile(MemberKeywords(k, name).value))
      && keyed.value == c.(valueSchema := keyed.value.valueSchema, exist := keyed.value.exist)
  {
    hide WellFormed, Compile, CompileProperty, AllNames, Mentions;
    CompiledFields(k);
    PropertyNamesOf(k);
    NamesAreMentioned(k);
    var index, declared := IndexOf(AllNames(k), name), IndexOf(NamesOf(k.properties), name);
    if index.Some? {
      assert AllNames(k)[index.value] in AllNames(k);
      PropertiesOf(k);
      assert Compile(k).properties[index.value] == PropertyAt(k, index.value);
      DeclaredSchema(k, name);
    } else if declared.Some? {
      assert name in NamesOf(k.properties);
      DeclaredIsMentioned(k, name);
    }
  }

  lemma DeclaredSchema(k: Keywords, name: Text)
    ensures CompileProperty(k, name).schema ==
      var declared := IndexOf(NamesOf(k.properties), name);
      if declared.Some? then Some(Compile(k.properties[declared.value].schema)) else None
  {
    hide AllNames;
  }

  lemma DeclaredIsMentioned(k: Keywords, name: Text)
    requires name in NamesOf(k.properties)
    ensures Mentions(k, name)
  {}

  lemma KeyedMarks(k: Keywords, c: Context, members: seq<Member>, m: Member)
    requires c.schema == Compile(k) && Marks(c, k, members) && Keyed(c, m.name).Some?
    ensures Marks(Keyed(c, m.name).value, k, members + [m])
  {
    hide Compile, AllNames, HasMember;
    CompiledFields(k);
    PropertyNamesOf(k);
    NamesAreMentioned(k);
    var names, index := AllNames(k), IndexOf(AllNames(k), m.name);
    forall p | 0 <= p < |names|
      ensures HasMember(members + [m], names[p]) <==> HasMember(members, names[p]) || (index.Some? && index.value == p)
    {
      HasMemberAppend(members, m, names[p]);
      if names[p] == m.name {
        assert m.name in names;
      }
    }
  }

  lemma HasMemberAppend(members: seq<Member>, m: Member, name: Text)
    ensures HasMember(members + [m], name) <==> HasMember(members, name) || m.name == name
  {
    if i :| 0 <= i < |members| && members[i].name == name {
      assert (members + [m])[i].name == name;
    }
    assert (members + [m])[|members|] == m;
  }

  predicate MembersSat(k: Keywords, members: seq<Member>, i: nat)
    requires WellFormed(k) && i <= |members|
  {
    forall j :: i <= j < |members| ==> MemberSat(k, members[j].name, members[j].value)
  }

  lemma MembersSatNext(k: Keywords, members: seq<Member>, i: nat)
    requires WellFormed(k) && i < |members|
    ensures MembersSat(k, members, i) <==>
      MemberSat(k, members[i].name, members[i].value) && MembersSat(k, members, i + 1)
  {
    hide MemberSat;
  }

  lemma MemberEventsNext(members: seq<Member>, i: nat)
    requires i < |members|
    ensures MemberEvents(members[i..])
      == ([Key(members[i].name)] + EventsOf(members[i].value)) + MemberEvents(members[i + 1..])
  {
    assert members[i..][0] == members[i] && members[i..][1..] == members[i + 1..];
  }

  lemma NoMembers(k: Keywords, members: seq<Member>)
    requires WellFormed(k)
    ensures MembersSat(k, members, |members|) && MemberEvents(members[|members|..]) == []
  {}

  lemma DoubleFreeMember(members: seq<Member>, i: nat)
    requires DoubleFree(Value.Object(members)) && i < |members|
    ensures DoubleFree(members[i].value)
  {}

  /** A name: the path gets its token, and the next value its schema. */
  lemma KeyStep(v: Validator, outer: seq<Context>, c: Context, k: Keywords, name: Text)
    requires WellFormed(k) && v.valid && v.stack == outer + [c] && c.schema == Compile(k)
    ensures Step(v, Key(name)).valid <==> MemberKeywords(k, name).Some?
    ensures MemberKeywords(k, name).Some? ==>
      && Keyed(c, name).Some?
      && Step(v, Key(name))
        == v.(stack := FeedAll(outer, [Key(name)]) + [Keyed(c, name).value.(validators := FeedContext(c, [Key(name)]).validators)],
              path := v.path + [SOLIDUS] + EscapedToken(name))
  {
    hide WellFormed, Compile, MemberKeywords, FeedContext, Forward, EscapedToken, Keyed;
    var e := Key(name);
    var d := FeedContext(c, [e]);
    ForwardIsFeed(v.stack, e);
    FeedAllAppend(outer, c, [e]);
    FeedKeeps(c, [e]);
    KeyedSchema(k, d, name);
    KeyedSchema(k, c, name);
    KeyedAny(c, d, name);
    var fed := FeedAll(v.stack, [e]);
    assert Last(fed) == d;
    if Keyed(d, name).Some? {
      assert SetLast(fed, Keyed(d, name).value) == FeedAll(outer, [e]) + [Keyed(d, name).value];
    }
  }

  /** Schema::Key does not look at the nested validators. */
  lemma KeyedAny(c: Context, d: Context, name: Text)
    requires d == c.(validators := d.validators)
    ensures Keyed(c, name).Some? <==> Keyed(d, name).Some?
    ensures Keyed(c, name).Some? ==> Keyed(d, name) == Some(Keyed(c, name).value.(validators := d.validators))
  {}

  lemma {:induction false} MembersStream(v: Validator, outer: seq<Context>, c: Context, k: Keywords, members: seq<Member>, i: nat)
    requires WellFormed(k) && DoubleFree(Value.Object(members)) && i <= |members|
    requires v.valid && v.stack == outer + [c] && !c.inArray && c.schema == Compile(k) && Marks(c, k, members[..i])
    ensures var events := MemberEvents(members[i..]);
      var r := Feed(v, events);
      && (r.valid <==> MembersSat(k, members, i))
      && (r.valid ==>
            (r.root == v.root && r.path == v.path && Inside(r.stack, outer, c, events)
             && r.stack != [] && Marks(Last(r.stack), k, members)))
    decreases members, |members| - i
  {
    hide Sat, MemberSat, WellFormed, DoubleFree, Compile, Begin, Step, FeedAll, FeedContext, MembersSat, MemberKeywords,
      EventsOf, Inside, Keyed, Marks, EscapedToken;
    if i == |members| {
      NoEvents(v, outer, c);
      NoMembers(k, members);
      assert members[..i] == members;
    } else {
      var m := members[i];
      var key, first, rest := Key(m.name), EventsOf(m.value), MemberEvents(members[i + 1..]);
      MemberKeywordsSat(k, m.name, m.value);
      MembersSatNext(k, members, i);
      MemberEventsNext(members, i);
      KeyStep(v, outer, c, k, m.name);
      FeedConcat(v, [key] + first, rest);
      FeedConcat(v, [key], first);
      FeedOne(v, key);
      var u := Step(v, key);
      if !u.valid {
        InvalidStays(u, first);
        InvalidStays(u, rest);
      } else {
        var d := u.stack[|outer|];
        KeyedSchema(k, c, m.name);
        KeyedMarks(k, c, members[..i], m);
        assert members[..i] + [m] == members[..i + 1];
        SameMarks(Keyed(c, m.name).value, d, k, members[..i + 1]);
        BeginMember(u, FeedAll(outer, [key]), d);
        DoubleFreeMember(members, i);
        ValueStreams(u, m.value, MemberKeywords(k, m.name).value);
        var r := Feed(u, first);
        if !r.valid {
          InvalidStays(r, rest);
        } else {
          var c' := FeedContext(d, first);
          AfterMember(v, outer, c, u, d, key, first, m.name);
          SameMarks(d, c', k, members[..i + 1]);
          MembersStream(r, FeedAll(outer, [key] + first), c', k, members, i + 1);
          if Feed(r, rest).valid {
            InsideConcat(Feed(r, rest).stack, outer, c, c', [key] + first, rest);
          }
        }
      }
    }
  }

  lemma SameMarks(c: Context, d: Context, k: Keywords, members: seq<Member>)
    requires Marks(c, k, members) && c.exist == d.exist
    ensures Marks(d, k, members)
  {}

  lemma BeginMember(v: Validator, outer: seq<Context>, c: Context)
    requires v.stack == outer + [c] && !c.inArray && c.valueSchema.Some?
    ensures Begin(v) == Some((v, c.valueSchema.value))
  {}

  /** The state after a member, in terms of the state before its name. */
  lemma AfterMember(v: Validator, outer: seq<Context>, c: Context, u: Validator, d: Context, key: Event, first: seq<Event>, name: Text)
    requires u.stack == FeedAll(outer, [key]) + [d] && u.path == v.path + [SOLIDUS] + EscapedToken(name)
    requires d.validators == FeedContext(c, [key]).validators
    ensures FeedAll(u.stack, first) == FeedAll(outer, [key] + first) + [FeedContext(d, first)]
    ensures FeedContext(d, first).validators == FeedContext(c, [key] + first).validators
    ensures FeedContext(d, first) == d.(validators := FeedContext(d, first).validators)
    ensures PopToken(u.path) == v.path
  {
    hide FeedContext, FeedAll;
    FeedAllAppend(FeedAll(outer, [key]), d, first);
    FeedAllConcat(outer, [key], first);
    FeedContextConcat(c, [key], first);
    SameValidators(d, FeedContext(c, [key]), first);
    FeedKeeps(d, first);
    EscapedHasNoSolidus(name);
    PopPiece(v.path, EscapedToken(name));
  }

  // ---------------------------------------------------------------------------
  // The end of an object
  // ---------------------------------------------------------------------------

  lemma ExistsIsMember(k: Keywords, c: Context, members: seq<Member>, p: nat)
    requires Marks(c, k, members) && (k.required != [] || k.dependencies != []) && p < |AllNames(k)|
    ensures Exists(c, p) <==> HasMember(members, AllNames(k)[p])
  {}

  lemma RequiredHolds(k: Keywords, c: Context, members: seq<Member>)
    requires c.schema == Compile(k) && Marks(c, k, members) && k.required != []
    ensures (forall p :: 0 <= p < |c.schema.properties| && c.schema.properties[p].required ==> Exists(c, p))
      <==> (forall i :: 0 <= i < |k.required| ==> HasMember(members, k.required[i]))
  {
    hide Compile, AllNames, HasMember, Marks, Exists;
    PropertiesOf(k);
    NamesAreMentioned(k);
    var names := AllNames(k);
    forall p | 0 <= p < |names|
      ensures Compile(k).properties[p].required <==> names[p] in k.required
      ensures Exists(c, p) <==> HasMember(members, names[p])
    {
      assert Compile(k).properties[p] == PropertyAt(k, p);
      ExistsIsMember(k, c, members, p);
    }
    forall i | 0 <= i < |k.required|
      ensures exists p :: 0 <= p < |names| && names[p] == k.required[i]
    {
      assert Mentions(k, k.required[i]);
    }
  }

  /** A property's dependency holds as the keyword that declared it asks. */
  lemma PropertyDependency(k: Keywords, c: Context, v: Value, p: nat)
    requires WellFormed(k) && DoubleFree(v) && v.Object? && k.dependencies != [] && p < |AllNames(k)|
    requires c.schema == Compile(k) && Marks(c, k, v.members) && Tracks(c, EventsOf(v))
    ensures var d := IndexOf(SourcesOf(k.dependencies), AllNames(k)[p]);
      if d.None? then DependencyHolds(c, PropertyAt(k, p))
      else
        (k.dependencies[d.value].OnSchema? ==> WellFormed(k.dependencies[d.value].schema))
        && (DependencyHolds(c, PropertyAt(k, p)) <==> DependencySat(k.dependencies[d.value], v))
    decreases v, k, 0
  {
    hide Compile, AllNames, HasMember, Marks, Exists, DoubleFree, EventsOf, Tracks, Slot, ValidAt;
    var r := IndexOf(SourcesOf(k.dependencies), AllNames(k)[p]);
    if r.Some? {
      var d := k.dependencies[r.value];
      if d.OnSchema? {
        assert WellFormed(d.schema);
        SlotDependency(k, p);
        SlotAgrees(d.schema, c, PropertyAt(k, p).dependenciesValidatorIndex, v);
      } else {
        hide WellFormed;
        TargetsHold(k, c, v, d.targets, r.value);
      }
    }
  }

  lemma TargetsHold(k: Keywords, c: Context, v: Value, targets: seq<Text>, d: nat)
    requires v.Object? && Marks(c, k, v.members) && d < |k.dependencies|
    requires k.dependencies[d].OnNames? && targets == k.dependencies[d].targets
    ensures (forall t :: 0 <= t < |AllNames(k)| && AllNames(k)[t] in targets ==> Exists(c, t))
      <==> (forall j :: 0 <= j < |targets| ==> HasMember(v.members, targets[j]))
  {
    hide AllNames, HasMember, Marks, Exists;
    NamesAreMentioned(k);
    var names := AllNames(k);
    forall p | 0 <= p < |names|
      ensures Exists(c, p) <==> HasMember(v.members, names[p])
    {
      ExistsIsMember(k, c, v.members, p);
    }
    forall j | 0 <= j < |targets|
      ensures exists p :: 0 <= p < |names| && names[p] == targets[j]
    {
      assert InDependencies(k.dependencies, targets[j]);
      assert Mentions(k, targets[j]);
    }
  }

  lemma DependenciesHoldIf(k: Keywords, c: Context, v: Value)
    requires WellFormed(k) && DoubleFree(v) && v.Object? && k.dependencies != []
    requires c.schema == Compile(k) && Marks(c, k, v.members) && Tracks(c, EventsOf(v))
    ensures (forall p :: 0 <= p < |c.schema.properties| && Exists(c, p) ==> DependencyHolds(c, c.schema.properties[p]))
      <==> (forall i :: 0 <= i < |k.dependencies| && HasMember(v.members, k.dependencies[i].name) ==> DependencySat(k.dependencies[i], v))
    decreases v, k, 1
  {
    hide Compile, AllNames, HasMember, Marks, Exists, DoubleFree, EventsOf, Tracks, DependencyHolds, DependencySat, CompileProperty, PropertyAt;
    PropertiesOf(k);
    NamesAreMentioned(k);
    DistinctParts(k);
    var names, sources := AllNames(k), SourcesOf(k.dependencies);
    forall p | 0 <= p < |names|
      ensures Exists(c, p) <==> HasMember(v.members, names[p])
      ensures var d := IndexOf(sources, names[p]);
        if d.None? then DependencyHolds(c, c.schema.properties[p])
        else
          (k.dependencies[d.value].OnSchema? ==> WellFormed(k.dependencies[d.value].schema))
          && (DependencyHolds(c, c.schema.properties[p]) <==> DependencySat(k.dependencies[d.value], v))
    {
      ExistsIsMember(k, c, v.members, p);
      PropertyDependency(k, c, v, p);
    }
    forall i | 0 <= i < |k.dependencies|
      ensures exists p :: 0 <= p < |names| && names[p] == k.dependencies[i].name && IndexOf(sources, names[p]) == Some(i)
    {
      SourceIndex(k, i);
    }
  }

  lemma SourceIndex(k: Keywords, i: nat)
    requires Distinct(SourcesOf(k.dependencies)) && i < |k.dependencies|
    ensures exists p ::
      0 <= p < |AllNames(k)| && AllNames(k)[p] == k.dependencies[i].name && IndexOf(SourcesOf(k.dependencies), AllNames(k)[p]) == Some(i)
  {
    hide AllNames;
    var sources, name := SourcesOf(k.dependencies), k.dependencies[i].name;
    NamesAreMentioned(k);
    assert InDependencies(k.dependencies, name);
    assert Mentions(k, name);
    var p :| 0 <= p < |AllNames(k)| && AllNames(k)[p] == name;
    assert sources[i] == name && name in sources;
    var r := IndexOf(sources, name);
    assert r.Some? && sources[r.value] == sources[i];
  }

  lemma EndObjectIf(k: Keywords, c: Context, v: Value)
    requires WellFormed(k) && DoubleFree(v) && v.Object?
    requires c.schema == Compile(k) && Marks(c, k, v.members) && Tracks(c, EventsOf(v))
    ensures EndHolds(c, EndObject(|v.members|)) <==> RequirementSat(k, v)
    decreases v, k, 2
  {
    hide Compile, HasMember, Marks, Exists, DoubleFree, EventsOf, Tracks, DependencyHolds, DependencySat;
    CompiledFields(k);
    if k.required != [] {
      RequiredHolds(k, c, v.members);
    }
    if k.dependencies != [] {
      DependenciesHoldIf(k, c, v);
    }
  }

  lemma ObjectEvents(members: seq<Member>)
    ensures EventsOf(Value.Object(members)) == [StartObject] + MemberEvents(members[0..]) + [EndObject(|members|)]
  {
    assert members[0..] == members;
  }

  lemma NothingMarked(k: Keywords)
    ensures Marks(Entered(Compile(k), StartObject), k, [])
  {
    hide Compile, Entered, AllNames;
    EnteredSchema(Compile(k), StartObject);
    CompiledFields(k);
    PropertiesOf(k);
  }

  lemma ObjectSatParts(k: Keywords, v: Value)
    requires WellFormed(k) && v.Object?
    ensures ObjectSat(k, v) <==> MembersSat(k, v.members, 0) && RequirementSat(k, v)
  {
    hide MemberSat, RequirementSat;
  }

  lemma ObjectStreams(v: Validator, value: Value, k: Keywords)
    requires v.valid && Begin(v).Some? && Begin(v).value.1 == Compile(k)
    requires WellFormed(k) && DoubleFree(value) && value.Object?
    ensures Outcome(v, EventsOf(value), Sat(k, value))
    decreases value, k, 3
  {
    hide Begin, Step, Opened, Feed, FeedAll, FeedContext, Compile, Entered, Agrees, Combines, CombinationSat, ObjectSat, MembersSat,
      RequirementSat, WellFormed, DoubleFree, Admits, EventsOf, EndHolds, Inside, Tracks, Marks;
    var s, b, members := Compile(k), Begin(v).value.0, value.members;
    var inner, e1 := MemberEvents(members[0..]), EndObject(|members|);
    ObjectEvents(members);
    ObjectSatParts(k, value);
    BeginKeeps(v);
    StartStep(v, StartObject);
    AdmitsTypes(k, value);
    FeedThree(v, StartObject, inner, e1);
    var u := Step(v, StartObject);
    if !Admits(s, StartObject) {
      OpenedFails(b.(stack := FeedAll(b.stack, [StartObject])), s, StartObject);
      InvalidStays(u, inner + [e1]);
    } else {
      EnteredSchema(s, StartObject);
      OpenedPushes(b.(stack := FeedAll(b.stack, [StartObject])), s, StartObject);
      NothingMarked(k);
      assert members[..0] == [];
      MembersStream(u, FeedAll(b.stack, [StartObject]), Entered(s, StartObject), k, members, 0);
      var r := Feed(u, inner);
      FeedConcat(u, inner, [e1]);
      FeedOne(r, e1);
      if !r.valid {
        InvalidStays(r, [e1]);
      } else {
        EndStep(v, s, StartObject, inner, e1, r);
        var d := FeedContext(Last(r.stack), [e1]);
        SameMarks(Last(r.stack), d, k, members);
        EndObjectIf(k, d, value);
        ContextAgrees(k, d, value);
        CombinesIf(k, d, value);
      }
    }
  }

  /** The validator accepts a value exactly when the value satisfies the schema, and then is back where it began. */
  lemma StreamingIsSatisfaction(k: Keywords, v: Value)
    requires WellFormed(k) && DoubleFree(v)
    ensures Feed(Fresh(Compile(k)), EventsOf(v)).valid <==> Sat(k, v)
    ensures Sat(k, v) ==> Feed(Fresh(Compile(k)), EventsOf(v)) == Fresh(Compile(k))
  {
    hide Compile, Sat, DoubleFree, EventsOf, Feed, WellFormed;
    ValueStreams(Fresh(Compile(k)), v, k);
  }
}
