/** JSON Schema: what the keywords mean, and the form the constructor of Schema compiles them to. */
module Schemas {
  import opened Bytes
  import opened Events
  import opened Numbers
  import opened Values
  import opened Options

  datatype TypeName = NullName | BooleanName | ObjectName | ArrayName | StringName | NumberName | IntegerName

  // ---------------------------------------------------------------------------
  // Keywords
  // ---------------------------------------------------------------------------

  /** additionalProperties and additionalItems. */
  datatype Additional = Allowed(allowed: bool) | Described(schema: Keywords)

  datatype Items = Anything | List(schema: Keywords) | Tuple(schemas: seq<Keywords>)

  datatype NamedKeywords = Named(name: Text, schema: Keywords)

  datatype Dependency = OnNames(name: Text, targets: seq<Text>) | OnSchema(name: Text, schema: Keywords)

  /** minimum or maximum. */
  datatype Limit = NoLimit | Limit(n: int, exclusive: bool)

  /** The keywords of one schema object. Empty lists stand for absent keywords. */
  datatype Keywords = Keywords(
    types: Option<seq<TypeName>>,
    allOf: seq<Keywords>,
    anyOf: seq<Keywords>,
    oneOf: seq<Keywords>,
    negated: Option<Keywords>,
    properties: seq<NamedKeywords>,
    required: seq<Text>,
    dependencies: seq<Dependency>,
    additionalProperties: Additional,
    minProperties: nat,
    maxProperties: Option<nat>,
    items: Items,
    additionalItems: Additional,
    minItems: nat,
    maxItems: Option<nat>,
    minimum: Limit,
    maximum: Limit,
    multipleOf: Option<nat>
  )

  const Empty: Keywords :=
    Keywords(None, [], [], [], None, [], [], [], Allowed(true), 0, None, Anything, Allowed(true), 0, None, NoLimit, NoLimit, None)

  predicate Distinct(names: seq<Text>) {
    forall i, j :: 0 <= i < j < |names| ==> names[i] != names[j]
  }

  function NamesOf(properties: seq<NamedKeywords>): (names: seq<Text>)
    ensures |names| == |properties| && forall i :: 0 <= i < |names| ==> names[i] == properties[i].name
  {
    seq(|properties|, i requires 0 <= i < |properties| => properties[i].name)
  }

  function SourcesOf(dependencies: seq<Dependency>): (names: seq<Text>)
    ensures |names| == |dependencies| && forall i :: 0 <= i < |names| ==> names[i] == dependencies[i].name
  {
    seq(|dependencies|, i requires 0 <= i < |dependencies| => dependencies[i].name)
  }

  predicate ValidLimit(limit: Limit) {
    limit.NoLimit? || Fits64(limit.n)
  }

  /** Names in an object of the schema are distinct and numbers fit 64 bits, in all subschemas. */
  predicate WellFormed(k: Keywords)
    decreases k
  {
    && Distinct(NamesOf(k.properties)) && Distinct(SourcesOf(k.dependencies))
    && ValidLimit(k.minimum) && ValidLimit(k.maximum) && (k.multipleOf.Some? ==> k.multipleOf.value > 0)
    && AllWellFormed(k.allOf) && AllWellFormed(k.anyOf) && AllWellFormed(k.oneOf)
    && (k.negated.Some? ==> WellFormed(k.negated.value))
    && (forall i :: 0 <= i < |k.properties| ==> WellFormed(k.properties[i].schema))
    && (forall i :: 0 <= i < |k.dependencies| && k.dependencies[i].OnSchema? ==> WellFormed(k.dependencies[i].schema))
    && (k.additionalProperties.Described? ==> WellFormed(k.additionalProperties.schema))
    && (k.items.List? ==> WellFormed(k.items.schema))
    && (k.items.Tuple? ==> AllWellFormed(k.items.schemas))
    && (k.additionalItems.Described? ==> WellFormed(k.additionalItems.schema))
  }

  predicate AllWellFormed(schemas: seq<Keywords>)
    ensures AllWellFormed(schemas) ==> forall i :: 0 <= i < |schemas| ==> WellFormed(schemas[i])
    decreases schemas
  {
    forall i :: 0 <= i < |schemas| ==> WellFormed(schemas[i])
  }

  // ---------------------------------------------------------------------------
  // Satisfaction
  // ---------------------------------------------------------------------------

  predicate TypeSat(types: seq<TypeName>, v: Value) {
    match v
    case Null => NullName in types
    case Bool(_) => BooleanName in types
    case Integer(_) => IntegerName in types || NumberName in types
    case Double(_, _, _) => NumberName in types
    case String(_) => StringName in types
    case Array(_) => ArrayName in types
    case Object(_) => ObjectName in types
  }

  predicate NumberSat(k: Keywords, n: int)
    requires k.multipleOf.Some? ==> k.multipleOf.value > 0
  {
    && (k.minimum.Limit? ==> if k.minimum.exclusive then k.minimum.n < n else k.minimum.n <= n)
    && (k.maximum.Limit? ==> if k.maximum.exclusive then n < k.maximum.n else n <= k.maximum.n)
    && (k.multipleOf.Some? ==> n % k.multipleOf.value == 0)
  }

  predicate HasMember(members: seq<Member>, name: Text) {
    exists i :: 0 <= i < |members| && members[i].name == name
  }

  predicate InDependencies(dependencies: seq<Dependency>, name: Text) {
    exists i :: 0 <= i < |dependencies| &&
      (dependencies[i].name == name || (dependencies[i].OnNames? && name in dependencies[i].targets))
  }

  /** The names a schema mentions; the validator never takes such a member for an additional property. */
  predicate Mentions(k: Keywords, name: Text) {
    name in NamesOf(k.properties) || name in k.required || InDependencies(k.dependencies, name)
  }

  predicate AllTrue(flags: seq<bool>) {
    forall i :: 0 <= i < |flags| ==> flags[i]
  }

  predicate SomeTrue(flags: seq<bool>) {
    exists i :: 0 <= i < |flags| && flags[i]
  }

  predicate OneTrue(flags: seq<bool>) {
    exists i :: 0 <= i < |flags| && flags[i] && forall j :: 0 <= j < |flags| && flags[j] ==> j == i
  }

  lemma {:induction false} SomeByNumber(flags: seq<bool>)
    ensures SomeTrue(flags) <==> multiset(flags)[true] >= 1
  {
    assert true in multiset(flags) <==> true in flags;
  }

  lemma {:induction false} AllByNumber(flags: seq<bool>)
    ensures AllTrue(flags) <==> multiset(flags)[true] == |flags|
    ensures multiset(flags)[true] <= |flags|
    decreases |flags|
  {
    if flags != [] {
      var rest := flags[1..];
      AllByNumber(rest);
      assert flags == [flags[0]] + rest;
      assert forall i :: 0 <= i < |rest| ==> rest[i] == flags[i + 1];
    }
  }

  /** Taking one true flag out leaves none exactly when it is the only one. */
  lemma OneByNumber(flags: seq<bool>)
    ensures OneTrue(flags) <==> multiset(flags)[true] == 1
  {
    if true in flags {
      var i :| 0 <= i < |flags| && flags[i];
      var front, back := flags[..i], flags[i + 1..];
      assert flags == front + [true] + back;
      SomeByNumber(front + back);
      assert multiset(flags)[true] == 1 + multiset(front + back)[true];
      Others(flags, i);
    } else {
      SomeByNumber(flags);
    }
  }

  lemma Others(flags: seq<bool>, i: nat)
    requires i < |flags| && flags[i]
    ensures OneTrue(flags) <==> !SomeTrue(flags[..i] + flags[i + 1..])
  {
    var rest := flags[..i] + flags[i + 1..];
    assert forall j :: 0 <= j < |rest| ==> rest[j] == flags[if j < i then j else j + 1];
    assert forall j :: 0 <= j < |flags| && j != i ==> flags[j] == rest[if j < i then j else j - 1];
  }

  /** By number: all alternatives, at least one, and exactly one. */
  lemma FlagsByNumber(flags: seq<bool>)
    ensures AllTrue(flags) <==> multiset(flags)[true] == |flags|
    ensures SomeTrue(flags) <==> multiset(flags)[true] >= 1
    ensures OneTrue(flags) <==> multiset(flags)[true] == 1
  {
    AllByNumber(flags);
    SomeByNumber(flags);
    OneByNumber(flags);
  }

  /**
   * What the validator means by satisfaction. It is section 5 of JSON Schema Validation draft 4 (DraftSat) but for two
   * lines: ElementSat lets an empty tuple say nothing, and MemberSat lets a mentioned name pass that is not declared.
   */
  predicate Sat(k: Keywords, v: Value)
    requires WellFormed(k)
    decreases v, k, 2
  {
    && (k.types.Some? ==> TypeSat(k.types.value, v))
    && (v.Integer? ==> NumberSat(k, v.n))
    && (v.Array? ==> ArraySat(k, v.elements))
    && (v.Object? ==> ObjectSat(k, v))
    && CombinationSat(k, v)
  }

  /** allOf, anyOf, oneOf and not. */
  predicate CombinationSat(k: Keywords, v: Value)
    requires WellFormed(k)
    decreases v, k, 0
  {
    && AllTrue(SatAll(k.allOf, v))
    && (k.anyOf != [] ==> SomeTrue(SatAll(k.anyOf, v)))
    && (k.oneOf != [] ==> OneTrue(SatAll(k.oneOf, v)))
    && (k.negated.Some? ==> !Sat(k.negated.value, v))
  }

  /** Which of the schemas the value satisfies. */
  function SatAll(schemas: seq<Keywords>, v: Value): (flags: seq<bool>)
    requires AllWellFormed(schemas)
    ensures |flags| == |schemas| && forall i :: 0 <= i < |schemas| ==> flags[i] == Sat(schemas[i], v)
    decreases v, schemas
  {
    seq(|schemas|, i requires 0 <= i < |schemas| => Sat(schemas[i], v))
  }

  predicate ArraySat(k: Keywords, elements: seq<Value>)
    requires WellFormed(k)
    decreases elements
  {
    && k.minItems <= |elements| && (k.maxItems.Some? ==> |elements| <= k.maxItems.value)
    && forall i :: 0 <= i < |elements| ==> ElementSat(k, i, elements[i])
  }

  predicate ElementSat(k: Keywords, i: nat, v: Value)
    requires WellFormed(k)
    decreases v, k, 3
  {
    match k.items
    case Anything => true
    case List(schema) => Sat(schema, v)
    case Tuple(schemas) =>
      if schemas == [] then true
      else if i < |schemas| then Sat(schemas[i], v)
      else if k.additionalItems.Described? then Sat(k.additionalItems.schema, v)
      else k.additionalItems.allowed
  }

  predicate ObjectSat(k: Keywords, v: Value)
    requires WellFormed(k) && v.Object?
    decreases v, k, 1
  {
    && (forall i :: 0 <= i < |v.members| ==> MemberSat(k, v.members[i].name, v.members[i].value))
    && RequirementSat(k, v)
  }

  /** minProperties, maxProperties, required and dependencies. */
  predicate RequirementSat(k: Keywords, v: Value)
    requires WellFormed(k) && v.Object?
    decreases v, k, 0
  {
    && k.minProperties <= |v.members| && (k.maxProperties.Some? ==> |v.members| <= k.maxProperties.value)
    && (forall i :: 0 <= i < |k.required| ==> HasMember(v.members, k.required[i]))
    && (forall i :: 0 <= i < |k.dependencies| && HasMember(v.members, k.dependencies[i].name) ==> DependencySat(k.dependencies[i], v))
  }

  predicate DependencySat(d: Dependency, v: Value)
    requires v.Object? && (d.OnSchema? ==> WellFormed(d.schema))
    decreases v, d
  {
    match d
    case OnNames(_, targets) => forall j :: 0 <= j < |targets| ==> HasMember(v.members, targets[j])
    case OnSchema(_, schema) => Sat(schema, v)
  }

  predicate MemberSat(k: Keywords, name: Text, v: Value)
    requires WellFormed(k)
    decreases v, k, 3
  {
    if name in NamesOf(k.properties) then
      forall i :: 0 <= i < |k.properties| && k.properties[i].name == name ==> Sat(k.properties[i].schema, v)
    else if Mentions(k, name) then true
    else if k.additionalProperties.Described? then Sat(k.additionalProperties.schema, v)
    else k.additionalProperties.allowed
  }

  /** A schema without keywords accepts everything. */
  lemma EmptySat(v: Value)
    ensures WellFormed(Empty) && Sat(Empty, v)
  {}

  // ---------------------------------------------------------------------------
  // Compiled schemas
  // ---------------------------------------------------------------------------

  datatype Property = Property(
    name: Text,
    schema: Option<Schema>, // None: typeless
    required: bool,
    dependencies: Option<seq<bool>>,
    dependenciesSchema: Option<Schema>,
    dependenciesValidatorIndex: nat
  )

  /** Schemas whose validators start at `begin`. */
  datatype SchemaArray = SchemaArray(schemas: seq<Schema>, begin: nat)

  datatype Schema = Schema(
    types: set<TypeName>,
    allOf: SchemaArray,
    anyOf: SchemaArray,
    oneOf: SchemaArray,
    negated: Option<Schema>,
    notValidatorIndex: nat,
    validatorCount: nat,
    properties: seq<Property>,
    additionalPropertiesSchema: Option<Schema>,
    additionalProperties: bool,
    hasRequired: bool,
    hasDependencies: bool,
    minProperties: nat,
    maxProperties: Option<nat>,
    itemsList: Option<Schema>,
    itemsTuple: seq<Schema>,
    additionalItemsSchema: Option<Schema>,
    additionalItems: bool,
    minItems: nat,
    maxItems: Option<nat>,
    minimum: Limit,
    maximum: Limit,
    multipleOf: Option<nat>
  )

  function TypesOf(types: seq<TypeName>): set<TypeName> {
    if types == [] then {}
    else (if types[0] == NumberName then {NumberName, IntegerName} else {types[0]}) + TypesOf(types[1..])
  }

  const ALL_TYPES: set<TypeName> :=
    {NullName, BooleanName, ObjectName, ArrayName, StringName, NumberName, IntegerName}

  function AddUnique(names: seq<Text>, name: Text): seq<Text> {
    if name in names then names else names + [name]
  }

  function AddAllUnique(names: seq<Text>, more: seq<Text>): seq<Text>
    decreases |more|
  {
    if more == [] then names else AddAllUnique(AddUnique(names, more[0]), more[1..])
  }

  function AddDependencies(names: seq<Text>, dependencies: seq<Dependency>): seq<Text>
    decreases |dependencies|
  {
    if dependencies == [] then names
    else
      var source := AddUnique(names, dependencies[0].name);
      var targets := if dependencies[0].OnNames? then AddAllUnique(source, dependencies[0].targets) else source;
      AddDependencies(targets, dependencies[1..])
  }

  /** The names gathered from properties, required and dependencies. */
  function AllNames(k: Keywords): seq<Text> {
    AddDependencies(AddAllUnique(AddAllUnique([], NamesOf(k.properties)), k.required), k.dependencies)
  }

  function IndexOf(names: seq<Text>, name: Text): (r: Option<nat>)
    ensures r.Some? ==> r.value < |names| && names[r.value] == name
    ensures r.None? ==> name !in names
  {
    if names == [] then None
    else if names[0] == name then Some(0)
    else
      var r := IndexOf(names[1..], name);
      if r.None? then None else Some(r.value + 1)
  }

  /** How many dependencies are on schemas. */
  function SchemaCount(dependencies: seq<Dependency>): nat {
    if dependencies == [] then 0
    else SchemaCount(dependencies[..|dependencies| - 1]) + (if dependencies[|dependencies| - 1].OnSchema? then 1 else 0)
  }

  function CompileAll(schemas: seq<Keywords>): (r: seq<Schema>)
    ensures |r| == |schemas|
    ensures forall i :: 0 <= i < |schemas| ==> r[i] == Compile(schemas[i])
    decreases schemas
  {
    seq(|schemas|, i requires 0 <= i < |schemas| => Compile(schemas[i]))
  }

  /** The index of the first validator that is not in allOf, anyOf, oneOf or not. */
  function FirstDependencySlot(k: Keywords): nat {
    |k.allOf| + |k.anyOf| + |k.oneOf| + (if k.negated.Some? then 1 else 0)
  }

  function CompileProperty(k: Keywords, name: Text): Property
    decreases k, 0
  {
    var declared := IndexOf(NamesOf(k.properties), name);
    var dependency := IndexOf(SourcesOf(k.dependencies), name);
    var names := AllNames(k);
    Property(
      name,
      if declared.Some? then Some(Compile(k.properties[declared.value].schema)) else None,
      name in k.required,
      if dependency.Some? && k.dependencies[dependency.value].OnNames? then
        Some(seq(|names|, t requires 0 <= t < |names| => names[t] in k.dependencies[dependency.value].targets))
      else None,
      if dependency.Some? && k.dependencies[dependency.value].OnSchema? then
        Some(Compile(k.dependencies[dependency.value].schema))
      else None,
      if dependency.Some? then FirstDependencySlot(k) + SchemaCount(k.dependencies[..dependency.value]) else 0
    )
  }

  function CompileOption(k: Option<Keywords>): Option<Schema>
    decreases k
  {
    if k.None? then None else Some(Compile(k.value))
  }

  /** The constructor of Schema. */
  function Compile(k: Keywords): Schema
    decreases k, 1
  {
    var names := AllNames(k);
    Schema(
      if k.types.None? then ALL_TYPES else TypesOf(k.types.value),
      SchemaArray(CompileAll(k.allOf), 0),
      SchemaArray(CompileAll(k.anyOf), |k.allOf|),
      SchemaArray(CompileAll(k.oneOf), |k.allOf| + |k.anyOf|),
      CompileOption(k.negated),
      |k.allOf| + |k.anyOf| + |k.oneOf|,
      FirstDependencySlot(k) + SchemaCount(k.dependencies),
      seq(|names|, i requires 0 <= i < |names| => CompileProperty(k, names[i])),
      if k.additionalProperties.Described? then Some(Compile(k.additionalProperties.schema)) else None,
      k.additionalProperties.Described? || k.additionalProperties.allowed,
      k.required != [],
      k.dependencies != [],
      k.minProperties,
      k.maxProperties,
      if k.items.List? then Some(Compile(k.items.schema)) else None,
      if k.items.Tuple? then CompileAll(k.items.schemas) else [],
      if k.additionalItems.Described? then Some(Compile(k.additionalItems.schema)) else None,
      k.additionalItems.Described? || k.additionalItems.allowed,
      k.minItems,
      k.maxItems,
      k.minimum,
      k.maximum,
      k.multipleOf
    )
  }

  /** The schema compiled from an empty object. */
  function Typeless(): Schema {
    Compile(Empty)
  }

  // ---------------------------------------------------------------------------
  // The gathered names
  // ---------------------------------------------------------------------------

  lemma {:induction false} AddAllUniqueNames(names: seq<Text>, more: seq<Text>)
    requires Distinct(names)
    ensures Distinct(AddAllUnique(names, more))
    ensures forall n :: n in AddAllUnique(names, more) <==> n in names || n in more
    decreases |more|
  {
    if more != [] {
      AddAllUniqueNames(AddUnique(names, more[0]), more[1..]);
      assert more == [more[0]] + more[1..];
    }
  }

  lemma {:induction false} AddDependenciesNames(names: seq<Text>, dependencies: seq<Dependency>)
    requires Distinct(names)
    ensures Distinct(AddDependencies(names, dependencies))
    ensures forall n :: n in AddDependencies(names, dependencies) <==> n in names || InDependencies(dependencies, n)
    decreases |dependencies|
  {
    if dependencies != [] {
      var first, rest := dependencies[0], dependencies[1..];
      var source := AddUnique(names, first.name);
      if first.OnNames? {
        AddAllUniqueNames(source, first.targets);
      }
      var targets := if first.OnNames? then AddAllUnique(source, first.targets) else source;
      AddDependenciesNames(targets, rest);
      forall n
        ensures InDependencies(dependencies, n) <==>
          first.name == n || (first.OnNames? && n in first.targets) || InDependencies(rest, n)
      {
        InDependenciesSplit(dependencies, n);
      }
    }
  }

  lemma InDependenciesSplit(dependencies: seq<Dependency>, n: Text)
    requires dependencies != []
    ensures InDependencies(dependencies, n) <==>
      dependencies[0].name == n || (dependencies[0].OnNames? && n in dependencies[0].targets) || InDependencies(dependencies[1..], n)
  {
    if InDependencies(dependencies[1..], n) {
      var i :| 0 <= i < |dependencies[1..]| &&
        (dependencies[1..][i].name == n || (dependencies[1..][i].OnNames? && n in dependencies[1..][i].targets));
      assert dependencies[i + 1] == dependencies[1..][i];
    }
    if InDependencies(dependencies, n) {
      var i :| 0 <= i < |dependencies| &&
        (dependencies[i].name == n || (dependencies[i].OnNames? && n in dependencies[i].targets));
      if i > 0 {
        assert dependencies[1..][i - 1] == dependencies[i];
      }
    }
  }

  /** Every mentioned name has exactly one property entry. */
  lemma NamesAreMentioned(k: Keywords)
    ensures Distinct(AllNames(k))
    ensures forall n :: n in AllNames(k) <==> Mentions(k, n)
  {
    AddAllUniqueNames([], NamesOf(k.properties));
    AddAllUniqueNames(AddAllUnique([], NamesOf(k.properties)), k.required);
    AddDependenciesNames(AddAllUnique(AddAllUnique([], NamesOf(k.properties)), k.required), k.dependencies);
  }
}
