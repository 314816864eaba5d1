/** The streaming validator as a transition function over its contexts and nested validators. */
module SchemaStreaming {
  import opened Bytes
  import opened Events
  import opened Numbers
  import opened Values
  import opened Options
  import opened Schemas
  import opened PointerTokens
  import Decimal

  /** The state of one open value; `exist` has a flag for every property of the schema. */
  datatype Context = Context(
    schema: Schema,
    valueSchema: Option<Schema>,
    validators: seq<Validator>,
    exist: Option<seq<bool>>,
    inArray: bool,
    elementIndex: nat
  )

  datatype Validator = Validator(root: Schema, stack: seq<Context>, path: Text, valid: bool)

  function Fresh(root: Schema): Validator {
    Validator(root, [], [], true)
  }

  function Invalid(v: Validator): Validator {
    v.(valid := false)
  }

  /** The events that begin a value. */
  predicate Begins(e: Event) {
    !e.Key? && !e.EndObject? && !e.EndArray?
  }

  // ---------------------------------------------------------------------------
  // Checks on one context
  // ---------------------------------------------------------------------------

  /** CheckInt: the limits are compared as int64, or lie above every int64. */
  predicate CheckInt(s: Schema, n: int) {
    && (IntegerName in s.types || NumberName in s.types)
    && (s.minimum.Limit? ==> s.minimum.n < INT64_LIMIT && if s.minimum.exclusive then n > s.minimum.n else n >= s.minimum.n)
    && (s.maximum.Limit? && s.maximum.n < INT64_LIMIT ==>
          (if s.maximum.exclusive then n < s.maximum.n else n <= s.maximum.n))
    && (s.multipleOf.Some? && s.multipleOf.value > 0 ==> (if n >= 0 then n else -n) % s.multipleOf.value == 0)
  }

  /** CheckUint: the limits are compared as uint64, or are negative. */
  predicate CheckUint(s: Schema, n: int) {
    && (IntegerName in s.types || NumberName in s.types)
    && (s.minimum.Limit? && s.minimum.n >= 0 ==>
          (if s.minimum.exclusive then n > s.minimum.n else n >= s.minimum.n))
    && (s.maximum.Limit? ==> s.maximum.n >= 0 && if s.maximum.exclusive then n < s.maximum.n else n <= s.maximum.n)
    && (s.multipleOf.Some? && s.multipleOf.value > 0 ==> n % s.multipleOf.value == 0)
  }

  /** The checks made before a value is entered. */
  predicate Admits(s: Schema, e: Event)
    requires Begins(e)
  {
    match e
    case Null => NullName in s.types
    case Bool(_) => BooleanName in s.types
    case Integer(kind, n) => if kind.Int32? || kind.Int64? then CheckInt(s, n) else CheckUint(s, n)
    case Double(_, _, _) => NumberName in s.types
    case String(_) => StringName in s.types
    case StartObject => ObjectName in s.types
    case StartArray => ArrayName in s.types
  }

  predicate HasSlot(property: Property, i: nat) {
    property.dependenciesSchema.Some? && property.dependenciesValidatorIndex == i
  }

  /** The property whose dependency schema validator `i` checks. */
  function DependencySlot(properties: seq<Property>, i: nat): (r: Option<nat>)
    ensures r.Some? ==> r.value < |properties| && HasSlot(properties[r.value], i)
    ensures r.None? ==> forall p :: 0 <= p < |properties| ==> !HasSlot(properties[p], i)
  {
    if properties == [] then None
    else
      var last := properties[|properties| - 1];
      if HasSlot(last, i) then Some(|properties| - 1)
      else DependencySlot(properties[..|properties| - 1], i)
  }

  /** The schema CreateParallelValidator gives validator `i`. */
  function Slot(s: Schema, i: nat): (r: Option<Schema>)
    ensures r.Some? ==> r.value < s
  {
    if s.allOf.begin <= i < s.allOf.begin + |s.allOf.schemas| then Some(s.allOf.schemas[i - s.allOf.begin])
    else if s.anyOf.begin <= i < s.anyOf.begin + |s.anyOf.schemas| then Some(s.anyOf.schemas[i - s.anyOf.begin])
    else if s.oneOf.begin <= i < s.oneOf.begin + |s.oneOf.schemas| then Some(s.oneOf.schemas[i - s.oneOf.begin])
    else if s.negated.Some? && i == s.notValidatorIndex then s.negated
    else
      var p := DependencySlot(s.properties, i);
      if p.Some? then s.properties[p.value].dependenciesSchema else None
  }

  function NoneExist(s: Schema): (flags: seq<bool>)
    ensures |flags| == |s.properties| && forall p :: 0 <= p < |flags| ==> !flags[p]
  {
    seq(|s.properties|, _ => false)
  }

  /** The context of a value that begins with `e`: its nested validators are created and have seen `e`. */
  function Entered(s: Schema, e: Event): Context
    requires Begins(e)
    decreases s, 0
  {
    Context(
      s,
      None,
      seq(s.validatorCount, i requires 0 <= i < s.validatorCount =>
        var slot := Slot(s, i);
        if slot.Some? then First(slot.value, e) else Invalid(Fresh(s))),
      if e.StartObject? && (s.hasDependencies || s.hasRequired) then Some(NoneExist(s)) else None,
      e.StartArray?,
      0
    )
  }

  /** A fresh validator after its first event. */
  function First(s: Schema, e: Event): Validator
    requires Begins(e)
    decreases s, 2
  {
    Opened(Fresh(s), s, e)
  }

  /** Enters a value of schema `s`; a scalar is left at once. */
  function Opened(v: Validator, s: Schema, e: Event): Validator
    requires Begins(e)
    decreases s, 1
  {
    if !Admits(s, e) then Invalid(v)
    else
      var context := Entered(s, e);
      if e.StartObject? || e.StartArray? then v.(stack := v.stack + [context])
      else Closed(v, context)
  }

  predicate ValidAt(c: Context, i: nat) {
    i < |c.validators| && c.validators[i].valid
  }

  /** The verdicts of the validators of one schema array. */
  function Verdicts(c: Context, schemas: SchemaArray): (flags: seq<bool>)
    ensures |flags| == |schemas.schemas|
  {
    seq(|schemas.schemas|, i requires 0 <= i < |schemas.schemas| => ValidAt(c, schemas.begin + i))
  }

  /** Schema::EndValue. */
  predicate Combines(c: Context) {
    && AllTrue(Verdicts(c, c.schema.allOf))
    && (c.schema.anyOf.schemas != [] ==> SomeTrue(Verdicts(c, c.schema.anyOf)))
    && (c.schema.oneOf.schemas != [] ==> OneTrue(Verdicts(c, c.schema.oneOf)))
    && !(c.schema.negated.Some? && ValidAt(c, c.schema.notValidatorIndex))
  }

  /** EndValue: leaves the value of context `c`, whose context is not on the stack of `v` any more. */
  function Closed(v: Validator, c: Context): Validator {
    if Combines(c) then v.(path := PopToken(v.path)) else Invalid(v)
  }

  /** Schema::BeginValue for an element. */
  function ElementSchema(s: Schema, index: nat): Option<Schema> {
    if s.itemsList.Some? then s.itemsList
    else if s.itemsTuple != [] then
      if index < |s.itemsTuple| then Some(s.itemsTuple[index])
      else if s.additionalItemsSchema.Some? then s.additionalItemsSchema
      else if s.additionalItems then Some(Typeless())
      else None
    else Some(Typeless())
  }

  function PropertyNames(s: Schema): (names: seq<Text>)
    ensures |names| == |s.properties| && forall i :: 0 <= i < |names| ==> names[i] == s.properties[i].name
  {
    seq(|s.properties|, i requires 0 <= i < |s.properties| => s.properties[i].name)
  }

  /** Schema::Key. */
  function Keyed(c: Context, name: Text): Option<Context> {
    var index := IndexOf(PropertyNames(c.schema), name);
    if index.Some? then
      var declared := c.schema.properties[index.value].schema;
      Some(c.(
        valueSchema := Some(if declared.Some? then declared.value else Typeless()),
        exist := if c.exist.Some? && index.value < |c.exist.value| then Some(c.exist.value[index.value := true]) else c.exist))
    else if c.schema.additionalPropertiesSchema.Some? then Some(c.(valueSchema := c.schema.additionalPropertiesSchema))
    else if c.schema.additionalProperties then Some(c.(valueSchema := Some(Typeless())))
    else None
  }

  predicate Exists(c: Context, p: nat) {
    c.exist.Some? && p < |c.exist.value| && c.exist.value[p]
  }

  /** What a property that exists depends on. */
  predicate DependencyHolds(c: Context, property: Property) {
    if property.dependencies.Some? then
      forall t :: 0 <= t < |property.dependencies.value| && property.dependencies.value[t] ==> Exists(c, t)
    else property.dependenciesSchema.Some? ==> ValidAt(c, property.dependenciesValidatorIndex)
  }

  /** Schema::EndObject and Schema::EndArray. */
  predicate EndHolds(c: Context, e: Event)
    requires e.EndObject? || e.EndArray?
  {
    match e
    case EndObject(count) =>
      && (c.schema.hasRequired ==>
            forall p :: 0 <= p < |c.schema.properties| && c.schema.properties[p].required ==> Exists(c, p))
      && c.schema.minProperties <= count && (c.schema.maxProperties.Some? ==> count <= c.schema.maxProperties.value)
      && (c.schema.hasDependencies ==>
            forall p :: 0 <= p < |c.schema.properties| && Exists(c, p) ==> DependencyHolds(c, c.schema.properties[p]))
    case EndArray(count) =>
      c.schema.minItems <= count && (c.schema.maxItems.Some? ==> count <= c.schema.maxItems.value)
  }

  // ---------------------------------------------------------------------------
  // One event
  // ---------------------------------------------------------------------------

  function Last(stack: seq<Context>): Context
    requires stack != []
  {
    stack[|stack| - 1]
  }

  function SetLast(stack: seq<Context>, c: Context): seq<Context>
    requires stack != []
  {
    stack[|stack| - 1 := c]
  }

  /** BeginValue: the state before the new context is pushed, and the schema of the value. */
  function Begin(v: Validator): Option<(Validator, Schema)> {
    if v.stack == [] then Some((v, v.root))
    else
      var top := Last(v.stack);
      if !top.inArray then
        if top.valueSchema.Some? then Some((v, top.valueSchema.value)) else None
      else
        var s := ElementSchema(top.schema, top.elementIndex);
        if s.None? then None
        else
          Some((v.(stack := SetLast(v.stack, top.(valueSchema := s, elementIndex := top.elementIndex + 1)),
                   path := ElementPath(v)), s.value))
  }

  function ElementPath(v: Validator): Text
    requires v.stack != []
  {
    v.path + [SOLIDUS] + Decimal.Digits(Last(v.stack).elementIndex)
  }

  /** Forwards an event to the nested validators of one context. */
  function Forward(c: Context, e: Event): (r: Context)
    ensures r == c.(validators := r.validators) && |r.validators| == |c.validators|
    decreases c
  {
    c.(validators := seq(|c.validators|, i requires 0 <= i < |c.validators| => Step(c.validators[i], e)))
  }

  function ForwardAll(stack: seq<Context>, e: Event): (r: seq<Context>)
    ensures |r| == |stack| && forall i :: 0 <= i < |stack| ==> r[i] == Forward(stack[i], e)
    decreases stack
  {
    seq(|stack|, i requires 0 <= i < |stack| => Forward(stack[i], e))
  }

  /** One event. A stream that the assertions forbid makes the validator invalid. */
  function Step(v: Validator, e: Event): Validator
    decreases v
  {
    if !v.valid then v
    else
      var fed := v.(stack := ForwardAll(v.stack, e));
      if Begins(e) then
        var begun := Begin(fed);
        if begun.None? then Invalid(if v.stack != [] && Last(v.stack).inArray then v.(path := ElementPath(v)) else v)
        else Opened(begun.value.0, begun.value.1, e)
      else if v.stack == [] then Invalid(v)
      else if e.Key? then
        var path := v.path + [SOLIDUS] + EscapedToken(e.bytes);
        var keyed := Keyed(Last(fed.stack), e.bytes);
        if keyed.None? then Invalid(v.(path := path))
        else fed.(stack := SetLast(fed.stack, keyed.value), path := path)
      else if !EndHolds(Last(fed.stack), e) then Invalid(fed)
      else Closed(fed.(stack := fed.stack[..|fed.stack| - 1]), Last(fed.stack))
  }

  function Feed(v: Validator, events: seq<Event>): Validator
    decreases |events|
  {
    if events == [] then v else Feed(Step(v, events[0]), events[1..])
  }
}
