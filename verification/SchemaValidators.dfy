/** GenericSchemaValidator and the checks of Schema, as they update the context stack and the document path. */
module SchemaValidators {
  import opened Bytes
  import opened Events
  import opened Options
  import opened Values
  import opened Schemas
  import opened SchemaStreaming
  import opened PointerTokens
  import SchemaTheorem
  import Decimal

  method FindPropertyIndex(s: Schema, name: Text) returns (index: Option<nat>)
    ensures index == IndexOf(PropertyNames(s), name)
    ensures index.None? ==> forall p :: 0 <= p < |s.properties| ==> s.properties[p].name != name
    ensures index.Some? ==> index.value < |s.properties| && s.properties[index.value].name == name
    ensures index.Some? ==> forall p :: 0 <= p < index.value ==> s.properties[p].name != name
  {
    var i := 0;
    while i < |s.properties|
      invariant 0 <= i <= |s.properties|
      invariant forall p :: 0 <= p < i ==> s.properties[p].name != name
    {
      if s.properties[i].name == name {
        FirstIndex(PropertyNames(s), name, i);
        return Some(i);
      }
      i := i + 1;
    }
    NoIndex(PropertyNames(s), name);
    return None;
  }

  lemma {:induction false} FirstIndex(names: seq<Text>, name: Text, i: nat)
    requires i < |names| && names[i] == name && forall p :: 0 <= p < i ==> names[p] != name
    ensures IndexOf(names, name) == Some(i)
    decreases i
  {
    if i > 0 {
      assert names[1..][i - 1] == name;
      FirstIndex(names[1..], name, i - 1);
    }
  }

  lemma {:induction false} NoIndex(names: seq<Text>, name: Text)
    requires forall p :: 0 <= p < |names| ==> names[p] != name
    ensures IndexOf(names, name) == None
    decreases |names|
  {
    if names != [] {
      NoIndex(names[1..], name);
    }
  }

  /** Schema::EndValue: allOf, anyOf, oneOf and not over the nested validators. */
  method CheckEndValue(c: Context) returns (ok: bool)
    ensures ok <==> Combines(c)
  {
    var s := c.schema;
    var allOf, anyOf, oneOf := s.allOf, s.anyOf, s.oneOf;
    var i := 0;
    while i < |allOf.schemas|
      invariant 0 <= i <= |allOf.schemas|
      invariant forall j :: 0 <= j < i ==> Verdicts(c, allOf)[j]
    {
      if !ValidAt(c, allOf.begin + i) {
        assert !Verdicts(c, allOf)[i];
        return false;
      }
      i := i + 1;
    }
    if anyOf.schemas != [] {
      i := 0;
      while i < |anyOf.schemas| && !ValidAt(c, anyOf.begin + i)
        invariant 0 <= i <= |anyOf.schemas|
        invariant forall j :: 0 <= j < i ==> !Verdicts(c, anyOf)[j]
      {
        i := i + 1;
      }
      if i == |anyOf.schemas| {
        return false;
      }
      assert Verdicts(c, anyOf)[i];
    }
    if oneOf.schemas != [] {
      var oneValid := false;
      ghost var first := 0;
      i := 0;
      while i < |oneOf.schemas|
        invariant 0 <= i <= |oneOf.schemas|
        invariant oneValid ==> 0 <= first < i && Verdicts(c, oneOf)[first]
        invariant forall j :: 0 <= j < i && Verdicts(c, oneOf)[j] ==> oneValid && j == first
      {
        if ValidAt(c, oneOf.begin + i) {
          assert Verdicts(c, oneOf)[i];
          if oneValid {
            assert !OneTrue(Verdicts(c, oneOf));
            return false;
          } else {
            oneValid := true;
            first := i;
          }
        }
        i := i + 1;
      }
      if !oneValid {
        return false;
      }
    }
    return !(s.negated.Some? && ValidAt(c, s.notValidatorIndex));
  }

  /** Schema::Key: the schema of the member's value, and the flag of its property. */
  method CheckKey(c: Context, name: Text) returns (keyed: Option<Context>)
    ensures keyed == Keyed(c, name)
  {
    hide IndexOf;
    var index := FindPropertyIndex(c.schema, name);
    if index.Some? {
      var declared := c.schema.properties[index.value].schema;
      var d := c.(valueSchema := Some(if declared.Some? then declared.value else Typeless()));
      if d.exist.Some? && index.value < |d.exist.value| {
        d := d.(exist := Some(d.exist.value[index.value := true]));
      }
      return Some(d);
    }
    if c.schema.additionalPropertiesSchema.Some? {
      return Some(c.(valueSchema := c.schema.additionalPropertiesSchema));
    }
    if c.schema.additionalProperties {
      return Some(c.(valueSchema := Some(Typeless())));
    }
    return None;
  }

  /** Schema::EndObject: required, the member count, and dependencies. */
  method CheckEndObject(c: Context, memberCount: nat) returns (ok: bool)
    ensures ok <==> EndHolds(c, Event.EndObject(memberCount))
  {
    var s := c.schema;
    var index := 0;
    if s.hasRequired {
      while index < |s.properties|
        invariant 0 <= index <= |s.properties|
        invariant forall p :: 0 <= p < index && s.properties[p].required ==> Exists(c, p)
      {
        if s.properties[index].required && !Exists(c, index) {
          return false;
        }
        index := index + 1;
      }
    }
    if memberCount < s.minProperties {
      return false;
    }
    if s.maxProperties.Some? && memberCount > s.maxProperties.value {
      return false;
    }
    if s.hasDependencies {
      index := 0;
      while index < |s.properties|
        invariant 0 <= index <= |s.properties|
        invariant forall p :: 0 <= p < index && Exists(c, p) ==> DependencyHolds(c, s.properties[p])
      {
        if Exists(c, index) {
          var holds := CheckDependency(c, s.properties[index]);
          if !holds {
            return false;
          }
        }
        index := index + 1;
      }
    }
    return true;
  }

  method CheckDependency(c: Context, property: Property) returns (ok: bool)
    ensures ok <==> DependencyHolds(c, property)
  {
    if property.dependencies.Some? {
      var target := 0;
      while target < |property.dependencies.value|
        invariant 0 <= target <= |property.dependencies.value|
        invariant forall t :: 0 <= t < target && property.dependencies.value[t] ==> Exists(c, t)
      {
        if property.dependencies.value[target] && !Exists(c, target) {
          return false;
        }
        target := target + 1;
      }
      return true;
    }
    return !(property.dependenciesSchema.Some? && !ValidAt(c, property.dependenciesValidatorIndex));
  }

  /** A context as PushSchema makes it. */
  function Blank(s: Schema): Context {
    Context(s, None, [], None, false, 0)
  }

  /** The nested validators of CreateParallelValidator, before their first event. */
  function Created(s: Schema): (r: seq<Validator>)
    ensures |r| == s.validatorCount
  {
    seq(s.validatorCount, i requires 0 <= i < s.validatorCount =>
      var slot := Slot(s, i);
      if slot.Some? then Fresh(slot.value) else Invalid(Fresh(s)))
  }

  /** The context of a value of schema `s` when its nested validators have been created. */
  function Prepared(s: Schema, e: Event): Context {
    Context(s, None, Created(s),
            if e.StartObject? && (s.hasDependencies || s.hasRequired) then Some(NoneExist(s)) else None,
            e.StartArray?, 0)
  }

  /** Forwarding the first event to the new validators gives the context that the transition function enters. */
  lemma PreparedThenForwarded(s: Schema, e: Event)
    requires Begins(e)
    ensures Forward(Prepared(s, e), e) == Entered(s, e)
  {
    hide Slot, Step, First;
    forall i | 0 <= i < s.validatorCount
      ensures Step(Created(s)[i], e) == Entered(s, e).validators[i]
    {
      var slot := Slot(s, i);
      if slot.Some? {
        SchemaTheorem.FirstIsFeed(slot.value, e);
        SchemaTheorem.FeedOne(Fresh(slot.value), e);
      } else {
        InvalidStep(Invalid(Fresh(s)), e);
      }
    }
    assert Forward(Prepared(s, e), e).validators == Entered(s, e).validators;
  }

  lemma InvalidStep(v: Validator, e: Event)
    requires !v.valid
    ensures Step(v, e) == v
  {}

  /** A step that begins a value. */
  lemma StepOfBegin(v: Validator, e: Event)
    requires v.valid && Begins(e)
    ensures Begin(v).None? ==>
      Step(v, e) == Invalid(if v.stack != [] && Last(v.stack).inArray then v.(path := ElementPath(v)) else v)
    ensures Begin(v).Some? ==>
      var b, s := Begin(v).value.0, Begin(v).value.1;
      && b.valid && b.root == v.root && |b.stack| == |v.stack|
      && Step(v, e) == Opened(b.(stack := ForwardAll(b.stack, e)), s, e)
  {
    hide Begin, ForwardAll, Opened, ElementPath;
    SchemaTheorem.BeginForward(v, e);
    if Begin(v).Some? {
      SchemaTheorem.BeginKeeps(v);
    }
  }

  lemma OpenedParts(v: Validator, s: Schema, e: Event)
    requires Begins(e)
    ensures Opened(v, s, e) ==
      if !Admits(s, e) then Invalid(v)
      else if e.StartObject? || e.StartArray? then v.(stack := v.stack + [Entered(s, e)])
      else Closed(v, Entered(s, e))
  {
    hide Admits, Entered, Closed;
  }

  /** Nested validators are owned by their context alone and are kept as values. */
  class GenericSchemaValidator {
    const root: Schema
    var schemaStack: seq<Context>
    var documentStack: Text
    var valid: bool

    ghost function State(): Validator
      reads this
    {
      Validator(root, schemaStack, documentStack, valid)
    }

    constructor (root: Schema)
      ensures this.root == root && State() == Fresh(root)
    {
      this.root := root;
      schemaStack, documentStack, valid := [], [], true;
    }

    method Reset()
      modifies this
      ensures State() == Fresh(root)
    {
      schemaStack, documentStack, valid := [], [], true;
    }

    method AppendToken(name: Text)
      modifies `documentStack
      ensures documentStack == old(documentStack) + [SOLIDUS] + EscapedToken(name)
    {
      documentStack := documentStack + [SOLIDUS];
      ghost var base := documentStack;
      var i := 0;
      assert name[..0] == [];
      while i < |name|
        invariant 0 <= i <= |name|
        invariant documentStack == base + EscapedToken(name[..i])
      {
        EscapedTokenAppend(name[..i], name[i]);
        assert name[..i + 1] == name[..i] + [name[i]];
        if name[i] == TILDE {
          documentStack := documentStack + [TILDE, ZERO];
        } else if name[i] == SOLIDUS {
          documentStack := documentStack + [TILDE, ZERO + 1];
        } else {
          documentStack := documentStack + [name[i]];
        }
        i := i + 1;
      }
      assert name[..i] == name;
    }

    /** Removes the last token. */
    method PopPath()
      modifies `documentStack
      ensures documentStack == PopToken(old(documentStack))
    {
      var done := false;
      while !done && documentStack != []
        invariant if done then documentStack == PopToken(old(documentStack))
                  else PopToken(documentStack) == PopToken(old(documentStack))
        decreases |documentStack|
      {
        done := documentStack[|documentStack| - 1] == SOLIDUS;
        documentStack := documentStack[..|documentStack| - 1];
      }
    }

    /** BeginValue: the element's index and schema, and a context for the value. */
    method BeginValue() returns (ok: bool)
      requires valid
      modifies this
      ensures valid && ok == Begin(old(State())).Some?
      ensures ok ==> var begun := Begin(old(State())).value;
        schemaStack == begun.0.stack + [Blank(begun.1)] && documentStack == begun.0.path
      ensures !ok ==>
        documentStack == if old(schemaStack) != [] && Last(old(schemaStack)).inArray then ElementPath(old(State())) else old(documentStack)
    {
      hide ElementSchema;
      if schemaStack == [] {
        schemaStack := [Blank(root)];
        return true;
      }
      var top := schemaStack[|schemaStack| - 1];
      if top.inArray {
        documentStack := documentStack + [SOLIDUS] + Decimal.Digits(top.elementIndex);
        var s := ElementSchema(top.schema, top.elementIndex);
        if s.None? {
          return false;
        }
        top := top.(valueSchema := s, elementIndex := top.elementIndex + 1);
        schemaStack := schemaStack[|schemaStack| - 1 := top];
      }
      if top.valueSchema.None? {
        return false;
      }
      schemaStack := schemaStack + [Blank(top.valueSchema.value)];
      return true;
    }

    /** Schema::Null, Bool, Int, Uint, Int64, Uint64, String, StartObject and StartArray on the new context. */
    method Enter(e: Event) returns (ok: bool)
      requires Begins(e) && schemaStack != [] && Last(schemaStack) == Blank(Last(schemaStack).schema)
      modifies `schemaStack
      ensures ok == Admits(Last(old(schemaStack)).schema, e)
      ensures ok ==> schemaStack == SetLast(old(schemaStack), Prepared(Last(old(schemaStack)).schema, e))
    {
      hide Created;
      var top := schemaStack[|schemaStack| - 1];
      if !Admits(top.schema, e) {
        return false;
      }
      if e.StartObject? && (top.schema.hasDependencies || top.schema.hasRequired) {
        top := top.(exist := Some(NoneExist(top.schema)));
      }
      if e.StartArray? {
        top := top.(elementIndex := 0, inArray := true);
      }
      top := top.(validators := Created(top.schema));
      schemaStack := schemaStack[|schemaStack| - 1 := top];
      return true;
    }

    /** Forwards the event to every nested validator of every context, bottom to top. */
    method Parallel(e: Event)
      modifies `schemaStack
      ensures schemaStack == ForwardAll(old(schemaStack), e)
    {
      hide Step;
      var i := 0;
      while i < |schemaStack|
        invariant 0 <= i <= |schemaStack| == |old(schemaStack)|
        invariant forall j :: 0 <= j < i ==> schemaStack[j] == Forward(old(schemaStack)[j], e)
        invariant forall j :: i <= j < |schemaStack| ==> schemaStack[j] == old(schemaStack)[j]
      {
        var c := schemaStack[i];
        var validators := c.validators;
        var j := 0;
        while j < |validators|
          invariant 0 <= j <= |validators| == |c.validators|
          invariant forall m :: 0 <= m < j ==> validators[m] == Step(c.validators[m], e)
          invariant forall m :: j <= m < |validators| ==> validators[m] == c.validators[m]
        {
          validators := validators[j := Step(validators[j], e)];
          j := j + 1;
        }
        assert validators == Forward(c, e).validators;
        schemaStack := schemaStack[i := c.(validators := validators)];
        i := i + 1;
      }
    }

    /** EndValue: the combinations hold, and the context and the last token are dropped. */
    method Close() returns (ok: bool)
      requires valid && schemaStack != []
      modifies this
      ensures valid && ok == Combines(Last(old(schemaStack)))
      ensures ok ==> State() == Closed(old(State()).(stack := old(schemaStack)[..|old(schemaStack)| - 1]), Last(old(schemaStack)))
      ensures !ok ==> documentStack == old(documentStack)
    {
      hide Combines, PopToken;
      ok := CheckEndValue(schemaStack[|schemaStack| - 1]);
      if ok {
        schemaStack := schemaStack[..|schemaStack| - 1];
        PopPath();
      }
    }

    /** The handler functions, as the event macros make them. */
    method Handle(e: Event) returns (ok: bool)
      modifies this
      ensures ok == valid == Step(old(State()), e).valid
      ensures documentStack == Step(old(State()), e).path
      ensures valid ==> State() == Step(old(State()), e)
    {
      if !valid {
        return false;
      }
      if Begins(e) {
        ok := HandleBegin(e);
      } else if schemaStack == [] {
        valid, ok := false, false;
      } else if e.Key? {
        ok := HandleKey(e.bytes);
      } else {
        ok := HandleEnd(e);
      }
    }

    method HandleBegin(e: Event) returns (ok: bool)
      requires valid && Begins(e)
      modifies this
      ensures ok == valid == Step(old(State()), e).valid
      ensures documentStack == Step(old(State()), e).path
      ensures valid ==> State() == Step(old(State()), e)
    {
      hide Begin, Forward, ForwardAll, Step, Opened, Admits, Entered, Combines, Created, PopToken, ElementPath, Prepared;
      ghost var before := State();
      StepOfBegin(before, e);
      ok := BeginValue();
      if !ok {
        valid := false;
        return;
      }
      ghost var b, s := Begin(before).value.0, Begin(before).value.1;
      OpenedParts(b.(stack := ForwardAll(b.stack, e)), s, e);
      assert Last(schemaStack) == Blank(s);
      ok := Enter(e);
      if !ok {
        valid := false;
        return;
      }
      assert schemaStack == b.stack + [Prepared(s, e)];
      PreparedThenForwarded(s, e);
      Parallel(e);
      assert schemaStack == ForwardAll(b.stack, e) + [Entered(s, e)];
      assert schemaStack[..|schemaStack| - 1] == ForwardAll(b.stack, e);
      if !e.StartObject? && !e.StartArray? {
        ok := Close();
        valid := ok;
      }
    }

    /** The token, Schema::Key on the innermost context, and the nested validators. */
    method HandleKey(name: Text) returns (ok: bool)
      requires valid && schemaStack != []
      modifies this
      ensures ok == valid == Step(old(State()), Key(name)).valid
      ensures documentStack == Step(old(State()), Key(name)).path
      ensures valid ==> State() == Step(old(State()), Key(name))
    {
      hide Forward, EscapedToken, Keyed;
      AppendToken(name);
      ghost var before := schemaStack;
      var top := schemaStack[|schemaStack| - 1];
      var keyed := CheckKey(top, name);
      KeyedForward(top, Key(name), name);
      if keyed.None? {
        valid, ok := false, false;
        return;
      }
      schemaStack := schemaStack[|schemaStack| - 1 := keyed.value];
      Parallel(Key(name));
      assert schemaStack == SetLast(ForwardAll(before, Key(name)), Forward(keyed.value, Key(name)));
      ok := true;
    }

    method HandleEnd(e: Event) returns (ok: bool)
      requires valid && schemaStack != [] && (e.EndObject? || e.EndArray?)
      modifies this
      ensures ok == valid == Step(old(State()), e).valid
      ensures documentStack == Step(old(State()), e).path
      ensures valid ==> State() == Step(old(State()), e)
    {
      hide Forward, EndHolds, Combines, PopToken;
      Parallel(e);
      var top := schemaStack[|schemaStack| - 1];
      if e.EndObject? {
        ok := CheckEndObject(top, e.members);
      } else {
        ok := CheckEndArray(top, e.elements);
      }
      if !ok {
        valid := false;
        return;
      }
      ok := Close();
      valid := ok;
    }

    /** Any number of events: the answers together are the state's. */
    method HandleAll(events: seq<Event>) returns (ok: bool)
      modifies this
      ensures ok == valid == Feed(old(State()), events).valid
      ensures valid ==> State() == Feed(old(State()), events)
    {
      hide Step;
      ok := valid;
      if !valid {
        SchemaTheorem.InvalidStays(State(), events);
      }
      var k := 0;
      assert events[0..] == events;
      while k < |events|
        invariant 0 <= k <= |events| && ok == valid
        invariant valid ==> Feed(State(), events[k..]) == Feed(old(State()), events)
        invariant !valid ==> !Feed(old(State()), events).valid
      {
        assert events[k..][0] == events[k] && events[k..][1..] == events[k + 1..];
        ghost var before := State();
        ok := Handle(events[k]);
        if before.valid && !valid {
          SchemaTheorem.InvalidStays(Step(before, events[k]), events[k + 1..]);
        } else if !before.valid {
          InvalidStep(before, events[k]);
        }
        k := k + 1;
      }
    }
  }

  method CheckEndArray(c: Context, elementCount: nat) returns (ok: bool)
    ensures ok <==> EndHolds(c, Event.EndArray(elementCount))
  {
    if elementCount < c.schema.minItems {
      return false;
    }
    if c.schema.maxItems.Some? && elementCount > c.schema.maxItems.value {
      return false;
    }
    return true;
  }

  lemma {:induction false} EscapedTokenAppend(token: Text, c: Byte)
    ensures EscapedToken(token + [c]) == EscapedToken(token) + EscapedTokenByte(c)
    decreases |token|
  {
    hide EscapedTokenByte;
    if token == [] {
      assert [c][1..] == [];
    } else {
      assert (token + [c])[1..] == token[1..] + [c];
      EscapedTokenAppend(token[1..], c);
    }
  }

  lemma KeyedForward(c: Context, e: Event, name: Text)
    ensures Keyed(c, name).Some? <==> Keyed(Forward(c, e), name).Some?
    ensures Keyed(c, name).Some? ==> Keyed(Forward(c, e), name) == Some(Forward(Keyed(c, name).value, e))
  {
    hide Step, IndexOf;
    if Keyed(c, name).Some? {
      var keyed := Keyed(c, name).value;
      assert keyed.validators == c.validators;
      assert Forward(keyed, e).validators == Forward(c, e).validators;
    }
  }

  /** The validator answers whether a value satisfies the schema. */
  method Validate(k: Keywords, v: Value) returns (ok: bool)
    requires WellFormed(k) && DoubleFree(v)
    ensures ok <==> Sat(k, v)
  {
    hide Compile, Sat, WellFormed, EventsOf;
    var validator := new GenericSchemaValidator(Compile(k));
    ok := validator.HandleAll(EventsOf(v));
    SchemaTheorem.StreamingIsSatisfaction(k, v);
  }
}
