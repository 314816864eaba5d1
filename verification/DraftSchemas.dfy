/** JSON Schema Validation draft 4 without the validator's two departures, and exactly when they change a verdict. */
module DraftSchemas {
  import opened Bytes
  import opened Values
  import opened Options
  import opened Schemas
  import opened SchemaStreaming
  import opened SchemaTheorem

  // ---------------------------------------------------------------------------
  // Draft 4
  // ---------------------------------------------------------------------------

  /** Section 5 of JSON Schema Validation draft 4. */
  predicate DraftSat(k: Keywords, v: Value)
    requires WellFormed(k)
    decreases v, k, 2
  {
    && (k.types.Some? ==> TypeSat(k.types.value, v))
    && (v.Integer? ==> NumberSat(k, v.n))
    && (v.Array? ==> DraftArraySat(k, v.elements))
    && (v.Object? ==> DraftObjectSat(k, v))
    && DraftCombinationSat(k, v)
  }

  /** Sections 5.5.3 to 5.5.6: all, at least one, exactly one and none. */
  predicate DraftCombinationSat(k: Keywords, v: Value)
    requires WellFormed(k)
    decreases v, k, 0
  {
    && AllTrue(DraftSatAll(k.allOf, v))
    && (k.anyOf != [] ==> SomeTrue(DraftSatAll(k.anyOf, v)))
    && (k.oneOf != [] ==> OneTrue(DraftSatAll(k.oneOf, v)))
    && (k.negated.Some? ==> !DraftSat(k.negated.value, v))
  }

  function DraftSatAll(schemas: seq<Keywords>, v: Value): (flags: seq<bool>)
    requires AllWellFormed(schemas)
    ensures |flags| == |schemas| && forall i :: 0 <= i < |schemas| ==> flags[i] == DraftSat(schemas[i], v)
    decreases v, schemas
  {
    seq(|schemas|, i requires 0 <= i < |schemas| => DraftSat(schemas[i], v))
  }

  /** Sections 5.3.1 to 5.3.3: beyond a tuple, even an empty one, elements are additional items. */
  predicate DraftArraySat(k: Keywords, elements: seq<Value>)
    requires WellFormed(k)
    decreases elements
  {
    && k.minItems <= |elements| && (k.maxItems.Some? ==> |elements| <= k.maxItems.value)
    && forall i :: 0 <= i < |elements| ==> DraftElementSat(k, i, elements[i])
  }

  predicate DraftElementSat(k: Keywords, i: nat, v: Value)
    requires WellFormed(k)
    decreases v, k, 3
  {
    match k.items
    case Anything => true
    case List(schema) => DraftSat(schema, v)
    case Tuple(schemas) => if i < |schemas| then DraftSat(schemas[i], v) else DraftItemSat(k, v)
  }

  predicate DraftItemSat(k: Keywords, v: Value)
    requires WellFormed(k)
    decreases v, k, 2
  {
    if k.additionalItems.Described? then DraftSat(k.additionalItems.schema, v) else k.additionalItems.allowed
  }

  /** Sections 5.4.1 to 5.4.5: a member that properties does not declare is an additional property. */
  predicate DraftObjectSat(k: Keywords, v: Value)
    requires WellFormed(k) && v.Object?
    decreases v, k, 1
  {
    && (forall i :: 0 <= i < |v.members| ==> DraftMemberSat(k, v.members[i].name, v.members[i].value))
    && DraftRequirementSat(k, v)
  }

  predicate DraftRequirementSat(k: Keywords, v: Value)
    requires WellFormed(k) && v.Object?
    decreases v, k, 0
  {
    && k.minProperties <= |v.members| && (k.maxProperties.Some? ==> |v.members| <= k.maxProperties.value)
    && (forall i :: 0 <= i < |k.required| ==> HasMember(v.members, k.required[i]))
    && (forall i :: 0 <= i < |k.dependencies| && HasMember(v.members, k.dependencies[i].name) ==>
          DraftDependencySat(k.dependencies[i], v))
  }

  predicate DraftMemberSat(k: Keywords, name: Text, v: Value)
    requires WellFormed(k)
    decreases v, k, 3
  {
    if name in NamesOf(k.properties) then
      forall i :: 0 <= i < |k.properties| && k.properties[i].name == name ==> DraftSat(k.properties[i].schema, v)
    else DraftPropertySat(k, v)
  }

  predicate DraftPropertySat(k: Keywords, v: Value)
    requires WellFormed(k)
    decreases v, k, 2
  {
    if k.additionalProperties.Described? then DraftSat(k.additionalProperties.schema, v) else k.additionalProperties.allowed
  }

  predicate DraftDependencySat(d: Dependency, v: Value)
    requires v.Object? && (d.OnSchema? ==> WellFormed(d.schema))
    decreases v, d
  {
    match d
    case OnNames(_, targets) => forall j :: 0 <= j < |targets| ==> HasMember(v.members, targets[j])
    case OnSchema(_, schema) => DraftSat(schema, v)
  }

  // ---------------------------------------------------------------------------
  // Schemas and values on which the departures matter
  // ---------------------------------------------------------------------------

  /** Additional properties or items may be anything. */
  predicate Open(a: Additional) {
    if a.Described? then a.schema == Empty else a.allowed
  }

  /** required and dependencies mention declared names only, and no tuple is empty, unless what is additional is open. */
  predicate TopExplicit(k: Keywords) {
    && (Open(k.additionalProperties) || forall name :: name in AllNames(k) ==> name in NamesOf(k.properties))
    && (Open(k.additionalItems) || k.items != Tuple([]))
  }

  /** The same in all subschemas: what an author checks. */
  predicate Explicit(k: Keywords)
    decreases k
  {
    && TopExplicit(k)
    && (forall i :: 0 <= i < |k.allOf| ==> Explicit(k.allOf[i]))
    && (forall i :: 0 <= i < |k.anyOf| ==> Explicit(k.anyOf[i]))
    && (forall i :: 0 <= i < |k.oneOf| ==> Explicit(k.oneOf[i]))
    && (k.negated.Some? ==> Explicit(k.negated.value))
    && (forall i :: 0 <= i < |k.properties| ==> Explicit(k.properties[i].schema))
    && (forall i :: 0 <= i < |k.dependencies| && k.dependencies[i].OnSchema? ==> Explicit(k.dependencies[i].schema))
    && (k.additionalProperties.Described? ==> Explicit(k.additionalProperties.schema))
    && (k.items.List? ==> Explicit(k.items.schema))
    && (k.items.Tuple? ==> forall i :: 0 <= i < |k.items.schemas| ==> Explicit(k.items.schemas[i]))
    && (k.additionalItems.Described? ==> Explicit(k.additionalItems.schema))
  }

  /** What oneOf and not count or negate is explicit; elsewhere anything goes. */
  predicate Guarded(k: Keywords)
    decreases k
  {
    && (forall i :: 0 <= i < |k.allOf| ==> Guarded(k.allOf[i]))
    && (forall i :: 0 <= i < |k.anyOf| ==> Guarded(k.anyOf[i]))
    && (forall i :: 0 <= i < |k.oneOf| ==> Explicit(k.oneOf[i]))
    && (k.negated.Some? ==> Explicit(k.negated.value))
    && (forall i :: 0 <= i < |k.properties| ==> Guarded(k.properties[i].schema))
    && (forall i :: 0 <= i < |k.dependencies| && k.dependencies[i].OnSchema? ==> Guarded(k.dependencies[i].schema))
    && (k.additionalProperties.Described? ==> Guarded(k.additionalProperties.schema))
    && (k.items.List? ==> Guarded(k.items.schema))
    && (k.items.Tuple? ==> forall i :: 0 <= i < |k.items.schemas| ==> Guarded(k.items.schemas[i]))
    && (k.additionalItems.Described? ==> Guarded(k.additionalItems.schema))
  }

  /**
   * Somewhere in the value a member passes because its name is only mentioned, or an element because the tuple is empty,
   * that what is additional does not admit; for anyOf, in every alternative that the validator accepts.
   */
  predicate Bypassed(k: Keywords, v: Value)
    requires WellFormed(k)
    decreases v, k, 1
  {
    || AllOfBypassed(k, v)
    || AnyOfBypassed(k, v)
    || (v.Array? && ElementsBypassed(k, v.elements))
    || (v.Object? && (MembersBypassed(k, v) || DependenciesBypassed(k, v)))
  }

  predicate AllOfBypassed(k: Keywords, v: Value)
    requires WellFormed(k)
    decreases v, k, 0
  {
    exists i :: 0 <= i < |k.allOf| && Bypassed(k.allOf[i], v)
  }

  predicate AnyOfBypassed(k: Keywords, v: Value)
    requires WellFormed(k)
    decreases v, k, 0
  {
    k.anyOf != [] && forall i :: 0 <= i < |k.anyOf| && Sat(k.anyOf[i], v) ==> Bypassed(k.anyOf[i], v)
  }

  predicate ElementsBypassed(k: Keywords, elements: seq<Value>)
    requires WellFormed(k)
    decreases elements
  {
    exists i :: 0 <= i < |elements| && ElementBypassed(k, i, elements[i])
  }

  predicate MembersBypassed(k: Keywords, v: Value)
    requires WellFormed(k) && v.Object?
    decreases v, k, 0
  {
    exists i :: 0 <= i < |v.members| && MemberBypassed(k, v.members[i].name, v.members[i].value)
  }

  predicate DependenciesBypassed(k: Keywords, v: Value)
    requires WellFormed(k) && v.Object?
    decreases v, k, 0
  {
    exists i :: 0 <= i < |k.dependencies| && DependencyBypassed(k.dependencies[i], v)
  }

  predicate DependencyBypassed(d: Dependency, v: Value)
    requires v.Object? && (d.OnSchema? ==> WellFormed(d.schema))
    decreases v, d
  {
    d.OnSchema? && HasMember(v.members, d.name) && Bypassed(d.schema, v)
  }

  predicate ElementBypassed(k: Keywords, i: nat, v: Value)
    requires WellFormed(k)
    decreases v, k, 2
  {
    match k.items
    case Anything => false
    case List(schema) => Bypassed(schema, v)
    case Tuple(schemas) =>
      if schemas == [] then !DraftItemSat(k, v)
      else if i < |schemas| then Bypassed(schemas[i], v)
      else k.additionalItems.Described? && Bypassed(k.additionalItems.schema, v)
  }

  predicate MemberBypassed(k: Keywords, name: Text, v: Value)
    requires WellFormed(k)
    decreases v, k, 2
  {
    if name in NamesOf(k.properties) then
      exists i :: 0 <= i < |k.properties| && k.properties[i].name == name && Bypassed(k.properties[i].schema, v)
    else if Mentions(k, name) then !DraftPropertySat(k, v)
    else k.additionalProperties.Described? && Bypassed(k.additionalProperties.schema, v)
  }

  // ---------------------------------------------------------------------------
  // The theorem
  // ---------------------------------------------------------------------------

  /** What is to be shown of a schema, or of one of its keywords, on a value. */
  predicate Compared(explicit: bool, guarded: bool, draft: bool, coded: bool, bypassed: bool) {
    && (guarded ==> (draft <==> coded && !bypassed))
    && (explicit ==> (draft <==> coded))
  }

  predicate SchemaCompared(k: Keywords, v: Value)
    requires WellFormed(k)
  {
    Compared(Explicit(k), Guarded(k), DraftSat(k, v), Sat(k, v), Bypassed(k, v))
  }

  lemma DraftEmpty(v: Value)
    ensures WellFormed(Empty) && DraftSat(Empty, v)
  {
    assert DraftCombinationSat(Empty, v);
    if v.Array? {
      assert forall i :: 0 <= i < |v.elements| ==> DraftElementSat(Empty, i, v.elements[i]);
    } else if v.Object? {
      assert forall i :: 0 <= i < |v.members| ==> DraftMemberSat(Empty, v.members[i].name, v.members[i].value);
    }
  }

  lemma OpenProperty(k: Keywords, v: Value)
    requires WellFormed(k) && Open(k.additionalProperties)
    ensures DraftPropertySat(k, v)
  {
    DraftEmpty(v);
    hide DraftSat, WellFormed;
  }

  lemma OpenItem(k: Keywords, v: Value)
    requires WellFormed(k) && Open(k.additionalItems)
    ensures DraftItemSat(k, v)
  {
    DraftEmpty(v);
    hide DraftSat, WellFormed;
  }

  lemma MemberParts(k: Keywords)
    ensures Explicit(k) ==>
      (Open(k.additionalProperties) || forall name :: name in AllNames(k) ==> name in NamesOf(k.properties))
    ensures Explicit(k) ==> forall i :: 0 <= i < |k.properties| ==> Explicit(k.properties[i].schema)
    ensures Explicit(k) && k.additionalProperties.Described? ==> Explicit(k.additionalProperties.schema)
    ensures Guarded(k) ==> forall i :: 0 <= i < |k.properties| ==> Guarded(k.properties[i].schema)
    ensures Guarded(k) && k.additionalProperties.Described? ==> Guarded(k.additionalProperties.schema)
  {
    hide AllNames, NamesOf, Open;
  }

  lemma DeclaredDeparture(k: Keywords, name: Text, v: Value)
    requires WellFormed(k) && name in NamesOf(k.properties)
    ensures Compared(Explicit(k), Guarded(k), DraftMemberSat(k, name, v), MemberSat(k, name, v), MemberBypassed(k, name, v))
    decreases v, k, 4
  {
    MemberParts(k);
    hide Sat, DraftSat, Bypassed, Explicit, Guarded;
    forall i | 0 <= i < |k.properties|
      ensures SchemaCompared(k.properties[i].schema, v)
    {
      Departure(k.properties[i].schema, v);
    }
  }

  lemma MemberDeparture(k: Keywords, name: Text, v: Value)
    requires WellFormed(k)
    ensures Compared(Explicit(k), Guarded(k), DraftMemberSat(k, name, v), MemberSat(k, name, v), MemberBypassed(k, name, v))
    decreases v, k, 5
  {
    MemberParts(k);
    hide Sat, DraftSat, Bypassed, Explicit, Guarded, AllNames;
    if name in NamesOf(k.properties) {
      DeclaredDeparture(k, name, v);
    } else if Mentions(k, name) {
      NamesAreMentioned(k);
      if Open(k.additionalProperties) {
        OpenProperty(k, v);
      }
    } else if k.additionalProperties.Described? {
      Departure(k.additionalProperties.schema, v);
    }
  }

  lemma ElementParts(k: Keywords)
    ensures Explicit(k) ==> Open(k.additionalItems) || k.items != Tuple([])
    ensures Explicit(k) && k.items.List? ==> Explicit(k.items.schema)
    ensures Explicit(k) && k.items.Tuple? ==> forall i :: 0 <= i < |k.items.schemas| ==> Explicit(k.items.schemas[i])
    ensures Explicit(k) && k.additionalItems.Described? ==> Explicit(k.additionalItems.schema)
    ensures Guarded(k) && k.items.List? ==> Guarded(k.items.schema)
    ensures Guarded(k) && k.items.Tuple? ==> forall i :: 0 <= i < |k.items.schemas| ==> Guarded(k.items.schemas[i])
    ensures Guarded(k) && k.additionalItems.Described? ==> Guarded(k.additionalItems.schema)
  {
    hide AllNames, NamesOf, Open;
  }

  lemma ElementDeparture(k: Keywords, i: nat, v: Value)
    requires WellFormed(k)
    ensures Compared(Explicit(k), Guarded(k), DraftElementSat(k, i, v), ElementSat(k, i, v), ElementBypassed(k, i, v))
    decreases v, k, 5
  {
    ElementParts(k);
    hide Sat, DraftSat, Bypassed, Explicit, Guarded;
    if k.items.List? {
      Departure(k.items.schema, v);
    } else if k.items.Tuple? {
      if k.items.schemas == [] && Open(k.additionalItems) {
        OpenItem(k, v);
      } else if i < |k.items.schemas| {
        Departure(k.items.schemas[i], v);
      } else if k.additionalItems.Described? {
        Departure(k.additionalItems.schema, v);
      }
    }
  }

  lemma DependencyDeparture(k: Keywords, i: nat, v: Value)
    requires WellFormed(k) && v.Object? && i < |k.dependencies| && HasMember(v.members, k.dependencies[i].name)
    ensures k.dependencies[i].OnSchema? ==> WellFormed(k.dependencies[i].schema)
    ensures Compared(Explicit(k), Guarded(k), DraftDependencySat(k.dependencies[i], v), DependencySat(k.dependencies[i], v),
                     DependencyBypassed(k.dependencies[i], v))
    decreases v, k, 4
  {
    hide Sat, DraftSat, Bypassed, HasMember;
    if k.dependencies[i].OnSchema? {
      Departure(k.dependencies[i].schema, v);
    }
  }

  predicate AllExplicit(schemas: seq<Keywords>) {
    forall i :: 0 <= i < |schemas| ==> Explicit(schemas[i])
  }

  predicate AllGuarded(schemas: seq<Keywords>) {
    forall i :: 0 <= i < |schemas| ==> Guarded(schemas[i])
  }

  predicate AllCompared(schemas: seq<Keywords>, v: Value)
    requires AllWellFormed(schemas)
  {
    forall i :: 0 <= i < |schemas| ==> SchemaCompared(schemas[i], v)
  }

  lemma AllOfDeparture(schemas: seq<Keywords>, v: Value)
    requires AllWellFormed(schemas) && AllCompared(schemas, v)
    ensures Compared(AllExplicit(schemas), AllGuarded(schemas), AllTrue(DraftSatAll(schemas, v)), AllTrue(SatAll(schemas, v)),
                     exists i :: 0 <= i < |schemas| && Bypassed(schemas[i], v))
  {
    hide Sat, DraftSat, Bypassed, WellFormed, Explicit, Guarded;
  }

  lemma AnyOfDeparture(schemas: seq<Keywords>, v: Value)
    requires AllWellFormed(schemas) && AllCompared(schemas, v)
    ensures Compared(AllExplicit(schemas), AllGuarded(schemas), SomeTrue(DraftSatAll(schemas, v)), SomeTrue(SatAll(schemas, v)),
                     forall i :: 0 <= i < |schemas| && Sat(schemas[i], v) ==> Bypassed(schemas[i], v))
  {
    hide Sat, DraftSat, Bypassed, WellFormed, Explicit, Guarded;
    var coded, draft := SatAll(schemas, v), DraftSatAll(schemas, v);
    assert forall i :: 0 <= i < |schemas| ==> coded[i] == Sat(schemas[i], v) && draft[i] == DraftSat(schemas[i], v);
  }

  lemma OneOfDeparture(schemas: seq<Keywords>, v: Value)
    requires AllWellFormed(schemas) && AllCompared(schemas, v) && AllExplicit(schemas)
    ensures DraftSatAll(schemas, v) == SatAll(schemas, v)
  {
    hide Sat, DraftSat, Bypassed, WellFormed, Explicit, Guarded;
  }

  lemma Departures(schemas: seq<Keywords>, v: Value)
    requires AllWellFormed(schemas)
    ensures AllCompared(schemas, v)
    decreases v, schemas, 7
  {
    hide SchemaCompared, WellFormed;
    forall i | 0 <= i < |schemas|
      ensures SchemaCompared(schemas[i], v)
    {
      Departure(schemas[i], v);
    }
  }

  lemma CombinationParts(k: Keywords)
    ensures Explicit(k) ==> AllExplicit(k.allOf) && AllExplicit(k.anyOf) && AllExplicit(k.oneOf)
    ensures Guarded(k) ==> AllGuarded(k.allOf) && AllGuarded(k.anyOf) && AllExplicit(k.oneOf)
    ensures k.negated.Some? && (Explicit(k) || Guarded(k)) ==> Explicit(k.negated.value)
  {}

  lemma AllOfIs(k: Keywords, v: Value)
    requires WellFormed(k)
    ensures Compared(Explicit(k), Guarded(k), AllTrue(DraftSatAll(k.allOf, v)), AllTrue(SatAll(k.allOf, v)), AllOfBypassed(k, v))
    decreases v, k, 2
  {
    WellFormedParts(k);
    CombinationParts(k);
    hide Sat, DraftSat, Bypassed, WellFormed, Explicit, Guarded, AllExplicit, AllGuarded, AllCompared, AllTrue;
    Departures(k.allOf, v);
    AllOfDeparture(k.allOf, v);
  }

  lemma AnyOfIs(k: Keywords, v: Value)
    requires WellFormed(k)
    ensures Compared(Explicit(k), Guarded(k),
                     k.anyOf != [] ==> SomeTrue(DraftSatAll(k.anyOf, v)), k.anyOf != [] ==> SomeTrue(SatAll(k.anyOf, v)),
                     AnyOfBypassed(k, v))
    decreases v, k, 2
  {
    WellFormedParts(k);
    CombinationParts(k);
    hide Sat, DraftSat, Bypassed, WellFormed, Explicit, Guarded, AllExplicit, AllGuarded, AllCompared, SomeTrue;
    Departures(k.anyOf, v);
    AnyOfDeparture(k.anyOf, v);
  }

  lemma OneOfIs(k: Keywords, v: Value)
    requires WellFormed(k)
    ensures Explicit(k) || Guarded(k) ==> OneTrue(DraftSatAll(k.oneOf, v)) == OneTrue(SatAll(k.oneOf, v))
    decreases v, k, 2
  {
    WellFormedParts(k);
    CombinationParts(k);
    hide Sat, DraftSat, Bypassed, WellFormed, Explicit, Guarded, AllExplicit, AllGuarded, AllCompared, OneTrue;
    Departures(k.oneOf, v);
    if AllExplicit(k.oneOf) {
      OneOfDeparture(k.oneOf, v);
    }
  }

  lemma NegatedIs(k: Keywords, v: Value)
    requires WellFormed(k) && k.negated.Some?
    ensures WellFormed(k.negated.value)
    ensures Explicit(k) || Guarded(k) ==> DraftSat(k.negated.value, v) == Sat(k.negated.value, v)
    decreases v, k, 2
  {
    CombinationParts(k);
    hide Sat, DraftSat, Bypassed;
    Departure(k.negated.value, v);
  }

  lemma CombinationDeparture(k: Keywords, v: Value)
    requires WellFormed(k)
    ensures Compared(Explicit(k), Guarded(k), DraftCombinationSat(k, v), CombinationSat(k, v), AllOfBypassed(k, v) || AnyOfBypassed(k, v))
    decreases v, k, 3
  {
    WellFormedParts(k);
    hide Sat, DraftSat, Bypassed, WellFormed, AllWellFormed, Explicit, Guarded, SatAll, DraftSatAll, AllTrue, SomeTrue, OneTrue,
      AllOfBypassed, AnyOfBypassed;
    AllOfIs(k, v);
    AnyOfIs(k, v);
    OneOfIs(k, v);
    if k.negated.Some? {
      NegatedIs(k, v);
    }
  }

  lemma ArrayDeparture(k: Keywords, elements: seq<Value>)
    requires WellFormed(k)
    ensures Compared(Explicit(k), Guarded(k), DraftArraySat(k, elements), ArraySat(k, elements),
                     ElementsBypassed(k, elements))
    decreases elements, k, 5
  {
    hide Explicit, Guarded, WellFormed, ElementSat, DraftElementSat, ElementBypassed;
    forall i | 0 <= i < |elements|
      ensures Compared(Explicit(k), Guarded(k), DraftElementSat(k, i, elements[i]), ElementSat(k, i, elements[i]),
                       ElementBypassed(k, i, elements[i]))
    {
      ElementDeparture(k, i, elements[i]);
    }
  }

  lemma DependenciesDeparture(k: Keywords, v: Value)
    requires WellFormed(k) && v.Object?
    ensures Compared(Explicit(k), Guarded(k),
      forall i :: 0 <= i < |k.dependencies| && HasMember(v.members, k.dependencies[i].name) ==> DraftDependencySat(k.dependencies[i], v),
      forall i :: 0 <= i < |k.dependencies| && HasMember(v.members, k.dependencies[i].name) ==> DependencySat(k.dependencies[i], v),
      DependenciesBypassed(k, v))
    decreases v, k, 5
  {
    hide Explicit, Guarded, HasMember, DraftDependencySat, DependencySat, Bypassed;
    forall i | 0 <= i < |k.dependencies| && HasMember(v.members, k.dependencies[i].name)
      ensures k.dependencies[i].OnSchema? ==> WellFormed(k.dependencies[i].schema)
      ensures Compared(Explicit(k), Guarded(k), DraftDependencySat(k.dependencies[i], v), DependencySat(k.dependencies[i], v),
                       DependencyBypassed(k.dependencies[i], v))
    {
      DependencyDeparture(k, i, v);
    }
  }

  lemma RequirementDeparture(k: Keywords, v: Value)
    requires WellFormed(k) && v.Object?
    ensures Compared(Explicit(k), Guarded(k), DraftRequirementSat(k, v), RequirementSat(k, v), DependenciesBypassed(k, v))
    decreases v, k, 6
  {
    DependenciesDeparture(k, v);
    hide Explicit, Guarded, WellFormed, HasMember, DraftDependencySat, DependencySat, DependenciesBypassed;
  }

  lemma MembersDeparture(k: Keywords, v: Value)
    requires WellFormed(k) && v.Object?
    ensures Compared(Explicit(k), Guarded(k),
      forall i :: 0 <= i < |v.members| ==> DraftMemberSat(k, v.members[i].name, v.members[i].value),
      forall i :: 0 <= i < |v.members| ==> MemberSat(k, v.members[i].name, v.members[i].value), MembersBypassed(k, v))
    decreases v, k, 6
  {
    hide Explicit, Guarded, WellFormed, DraftMemberSat, MemberSat, MemberBypassed;
    forall i | 0 <= i < |v.members|
      ensures Compared(Explicit(k), Guarded(k), DraftMemberSat(k, v.members[i].name, v.members[i].value),
                       MemberSat(k, v.members[i].name, v.members[i].value), MemberBypassed(k, v.members[i].name, v.members[i].value))
    {
      MemberDeparture(k, v.members[i].name, v.members[i].value);
    }
  }

  lemma ObjectDeparture(k: Keywords, v: Value)
    requires WellFormed(k) && v.Object?
    ensures Compared(Explicit(k), Guarded(k), DraftObjectSat(k, v), ObjectSat(k, v),
                     MembersBypassed(k, v) || DependenciesBypassed(k, v))
    decreases v, k, 7
  {
    RequirementDeparture(k, v);
    MembersDeparture(k, v);
    hide Explicit, Guarded, WellFormed, DraftMemberSat, MemberSat, DraftRequirementSat, RequirementSat, MembersBypassed,
      DependenciesBypassed;
  }

  lemma SatParts(k: Keywords, v: Value)
    requires WellFormed(k)
    ensures Sat(k, v) <==>
      && TypesSat(k, v) && (v.Array? ==> ArraySat(k, v.elements)) && (v.Object? ==> ObjectSat(k, v)) && CombinationSat(k, v)
  {
    hide ArraySat, ObjectSat, CombinationSat;
  }

  lemma DraftSatParts(k: Keywords, v: Value)
    requires WellFormed(k)
    ensures DraftSat(k, v) <==>
      && TypesSat(k, v) && (v.Array? ==> DraftArraySat(k, v.elements)) && (v.Object? ==> DraftObjectSat(k, v))
      && DraftCombinationSat(k, v)
  {
    hide DraftArraySat, DraftObjectSat, DraftCombinationSat;
  }

  lemma Departure(k: Keywords, v: Value)
    requires WellFormed(k)
    ensures SchemaCompared(k, v)
    decreases v, k, 8
  {
    SatParts(k, v);
    DraftSatParts(k, v);
    CombinationDeparture(k, v);
    hide Explicit, Guarded, WellFormed, Sat, DraftSat, TypesSat, DraftCombinationSat, CombinationSat, AllOfBypassed, AnyOfBypassed,
      DraftArraySat, ArraySat, ElementsBypassed, DraftObjectSat, ObjectSat, MembersBypassed, DependenciesBypassed;
    if v.Array? {
      ArrayDeparture(k, v.elements);
    } else if v.Object? {
      ObjectDeparture(k, v);
    }
  }

  /** An explicit schema is judged by draft 4, whatever it combines: the validator accepts exactly what draft 4 accepts. */
  lemma ExplicitFollowsDraft(k: Keywords, v: Value)
    requires WellFormed(k) && DoubleFree(v) && Explicit(k)
    ensures Feed(Fresh(Compile(k)), EventsOf(v)).valid <==> DraftSat(k, v)
  {
    hide Compile, Sat, DraftSat, Bypassed, Feed, EventsOf, WellFormed, DoubleFree, Explicit, Guarded;
    StreamingIsSatisfaction(k, v);
    Departure(k, v);
  }

  /**
   * A schema that only has explicit schemas under oneOf and not is never judged too strictly, and too leniently exactly
   * where a member or an element is bypassed, at whatever depth.
   */
  lemma DepartsExactlyWhenBypassed(k: Keywords, v: Value)
    requires WellFormed(k) && DoubleFree(v) && Guarded(k)
    ensures DraftSat(k, v) <==> Feed(Fresh(Compile(k)), EventsOf(v)).valid && !Bypassed(k, v)
  {
    hide Compile, Sat, DraftSat, Bypassed, Feed, EventsOf, WellFormed, DoubleFree, Explicit, Guarded;
    StreamingIsSatisfaction(k, v);
    Departure(k, v);
  }

  // ---------------------------------------------------------------------------
  // The schema that draft 4 judges as the validator judges this one
  // ---------------------------------------------------------------------------

  function CompletedAll(schemas: seq<Keywords>): (r: seq<Keywords>)
    ensures |r| == |schemas| && forall i :: 0 <= i < |schemas| ==> r[i] == Completed(schemas[i])
    decreases schemas
  {
    seq(|schemas|, i requires 0 <= i < |schemas| => Completed(schemas[i]))
  }

  function CompletedAdditional(a: Additional): Additional
    decreases a
  {
    if a.Described? then Described(Completed(a.schema)) else a
  }

  function CompletedItems(items: Items): Items
    decreases items
  {
    match items
    case Anything => Anything
    case List(schema) => List(Completed(schema))
    case Tuple(schemas) => if schemas == [] then Anything else Tuple(CompletedAll(schemas))
  }

  function CompletedDependency(d: Dependency): (c: Dependency)
    ensures c.name == d.name
    decreases d
  {
    if d.OnSchema? then OnSchema(d.name, Completed(d.schema)) else d
  }

  function CompletedProperty(k: Keywords, name: Text): NamedKeywords
    decreases k, 0
  {
    var declared := IndexOf(NamesOf(k.properties), name);
    Named(name, if declared.Some? then Completed(k.properties[declared.value].schema) else Empty)
  }

  /** At every level all mentioned names are declared, those that were not with an empty schema, and empty tuples are gone. */
  function Completed(k: Keywords): Keywords
    decreases k, 1
  {
    var names := AllNames(k);
    Keywords(
      k.types,
      CompletedAll(k.allOf),
      CompletedAll(k.anyOf),
      CompletedAll(k.oneOf),
      if k.negated.Some? then Some(Completed(k.negated.value)) else None,
      seq(|names|, i requires 0 <= i < |names| => CompletedProperty(k, names[i])),
      k.required,
      seq(|k.dependencies|, i requires 0 <= i < |k.dependencies| => CompletedDependency(k.dependencies[i])),
      CompletedAdditional(k.additionalProperties),
      k.minProperties,
      k.maxProperties,
      CompletedItems(k.items),
      CompletedAdditional(k.additionalItems),
      k.minItems,
      k.maxItems,
      k.minimum,
      k.maximum,
      k.multipleOf
    )
  }

  lemma CompletedFields(k: Keywords)
    ensures var c := Completed(k);
      && c.types == k.types && c.minimum == k.minimum && c.maximum == k.maximum && c.multipleOf == k.multipleOf
      && c.minItems == k.minItems && c.maxItems == k.maxItems && c.required == k.required
      && c.minProperties == k.minProperties && c.maxProperties == k.maxProperties
      && c.allOf == CompletedAll(k.allOf) && c.anyOf == CompletedAll(k.anyOf) && c.oneOf == CompletedAll(k.oneOf)
      && c.negated == (if k.negated.Some? then Some(Completed(k.negated.value)) else None)
      && |c.dependencies| == |k.dependencies|
    ensures forall i :: 0 <= i < |k.dependencies| ==> Completed(k).dependencies[i] == CompletedDependency(k.dependencies[i])
  {
    hide AllNames, CompletedProperty, CompletedAll, CompletedDependency, CompletedItems, CompletedAdditional;
  }

  lemma CompletedNames(k: Keywords)
    ensures NamesOf(Completed(k).properties) == AllNames(k)
    ensures SourcesOf(Completed(k).dependencies) == SourcesOf(k.dependencies)
  {
    hide AllNames;
  }

  lemma {:induction false} CompletedWellFormed(k: Keywords)
    requires WellFormed(k)
    ensures WellFormed(Completed(k))
    decreases k, 1
  {
    hide AllNames;
    CompletedNames(k);
    NamesAreMentioned(k);
    AllCompletedWellFormed(k.allOf);
    AllCompletedWellFormed(k.anyOf);
    AllCompletedWellFormed(k.oneOf);
    if k.negated.Some? {
      CompletedWellFormed(k.negated.value);
    }
    forall i | 0 <= i < |AllNames(k)|
      ensures WellFormed(CompletedProperty(k, AllNames(k)[i]).schema)
    {
      var declared := IndexOf(NamesOf(k.properties), AllNames(k)[i]);
      if declared.Some? {
        CompletedWellFormed(k.properties[declared.value].schema);
      }
    }
    forall i | 0 <= i < |k.dependencies| && k.dependencies[i].OnSchema?
      ensures WellFormed(CompletedDependency(k.dependencies[i]).schema)
    {
      CompletedWellFormed(k.dependencies[i].schema);
    }
    if k.additionalProperties.Described? {
      CompletedWellFormed(k.additionalProperties.schema);
    }
    if k.additionalItems.Described? {
      CompletedWellFormed(k.additionalItems.schema);
    }
    if k.items.List? {
      CompletedWellFormed(k.items.schema);
    } else if k.items.Tuple? {
      AllCompletedWellFormed(k.items.schemas);
    }
  }

  lemma AllCompletedWellFormed(schemas: seq<Keywords>)
    requires AllWellFormed(schemas)
    ensures AllWellFormed(CompletedAll(schemas))
    decreases schemas
  {
    hide WellFormed, Completed;
    forall i | 0 <= i < |schemas|
      ensures WellFormed(CompletedAll(schemas)[i])
    {
      CompletedWellFormed(schemas[i]);
    }
  }

  lemma AllMean(schemas: seq<Keywords>, v: Value)
    requires AllWellFormed(schemas)
    ensures AllWellFormed(CompletedAll(schemas)) && DraftSatAll(CompletedAll(schemas), v) == SatAll(schemas, v)
    decreases v, schemas, 7
  {
    hide Sat, DraftSat, WellFormed, Completed;
    AllCompletedWellFormed(schemas);
    forall i | 0 <= i < |schemas|
      ensures DraftSat(CompletedAll(schemas)[i], v) == Sat(schemas[i], v)
    {
      CompletedMeans(schemas[i], v);
    }
  }

  lemma CombinationMeans(k: Keywords, v: Value)
    requires WellFormed(k)
    ensures WellFormed(Completed(k)) && DraftCombinationSat(Completed(k), v) == CombinationSat(k, v)
    decreases v, k, 3
  {
    CompletedWellFormed(k);
    CompletedFields(k);
    WellFormedParts(k);
    hide Sat, DraftSat, WellFormed, SatAll, DraftSatAll, AllTrue, SomeTrue, OneTrue, CompletedAll, Completed;
    AllMean(k.allOf, v);
    AllMean(k.anyOf, v);
    AllMean(k.oneOf, v);
    if k.negated.Some? {
      CompletedMeans(k.negated.value, v);
    }
  }

  lemma ElementMeans(k: Keywords, i: nat, v: Value)
    requires WellFormed(k)
    ensures WellFormed(Completed(k)) && DraftElementSat(Completed(k), i, v) == ElementSat(k, i, v)
    decreases v, k, 4
  {
    CompletedWellFormed(k);
    hide Sat, DraftSat, CompletedProperty;
    if k.items.List? {
      CompletedMeans(k.items.schema, v);
    } else if k.items.Tuple? && k.items.schemas != [] {
      if i < |k.items.schemas| {
        CompletedMeans(k.items.schemas[i], v);
      } else if k.additionalItems.Described? {
        CompletedMeans(k.additionalItems.schema, v);
      }
    }
  }

  lemma CompletedProperties(k: Keywords)
    requires WellFormed(k) && WellFormed(Completed(k))
    ensures |Completed(k).properties| == |AllNames(k)|
    ensures forall p :: 0 <= p < |AllNames(k)| ==>
      && Completed(k).properties[p] == CompletedProperty(k, AllNames(k)[p])
      && WellFormed(CompletedProperty(k, AllNames(k)[p]).schema)
  {
    hide AllNames, CompletedProperty, CompletedAll, CompletedDependency, CompletedItems, CompletedAdditional;
    forall p | 0 <= p < |AllNames(k)|
      ensures Completed(k).properties[p] == CompletedProperty(k, AllNames(k)[p])
      ensures WellFormed(CompletedProperty(k, AllNames(k)[p]).schema)
    {
      PropertyWellFormed(Completed(k), p);
    }
  }

  lemma PropertyWellFormed(k: Keywords, p: nat)
    requires WellFormed(k) && p < |k.properties|
    ensures WellFormed(k.properties[p].schema)
  {}

  lemma CompletedMember(k: Keywords, name: Text, v: Value)
    requires WellFormed(k) && WellFormed(Completed(k))
    ensures name in AllNames(k) ==> WellFormed(CompletedProperty(k, name).schema)
    ensures DraftMemberSat(Completed(k), name, v) ==
      if name in AllNames(k) then DraftSat(CompletedProperty(k, name).schema, v) else DraftPropertySat(Completed(k), v)
  {
    CompletedNames(k);
    CompletedProperties(k);
    hide DraftSat, AllNames, WellFormed, Completed, CompletedProperty, DraftPropertySat, NamesOf;
    if name in AllNames(k) {
      var p := OnlyProperty(k, name);
      assert Completed(k).properties[p].name == name;
    }
  }

  lemma OnlyProperty(k: Keywords, name: Text) returns (p: nat)
    requires name in AllNames(k)
    ensures p < |AllNames(k)| && forall i :: 0 <= i < |AllNames(k)| ==> (AllNames(k)[i] == name <==> i == p)
  {
    NamesAreMentioned(k);
    hide AllNames;
    p :| 0 <= p < |AllNames(k)| && AllNames(k)[p] == name;
  }

  lemma MemberMeans(k: Keywords, name: Text, v: Value)
    requires WellFormed(k)
    ensures WellFormed(Completed(k)) && DraftMemberSat(Completed(k), name, v) == MemberSat(k, name, v)
    decreases v, k, 4
  {
    CompletedWellFormed(k);
    CompletedMember(k, name, v);
    NamesAreMentioned(k);
    MemberKeywordsSat(k, name, v);
    DraftEmpty(v);
    EmptySat(v);
    hide Sat, DraftSat, AllNames, DraftMemberSat, MemberSat, Mentions;
    var declared := IndexOf(NamesOf(k.properties), name);
    if declared.Some? {
      DeclaredIsMentioned(k, name);
      CompletedMeans(k.properties[declared.value].schema, v);
    } else if name !in AllNames(k) && k.additionalProperties.Described? {
      CompletedMeans(k.additionalProperties.schema, v);
    }
  }

  lemma DependencyMeans(k: Keywords, i: nat, v: Value)
    requires WellFormed(k) && v.Object? && i < |k.dependencies|
    ensures k.dependencies[i].OnSchema? ==> WellFormed(k.dependencies[i].schema) && WellFormed(Completed(k.dependencies[i].schema))
    ensures DraftDependencySat(CompletedDependency(k.dependencies[i]), v) == DependencySat(k.dependencies[i], v)
    decreases v, k, 4
  {
    hide Sat, DraftSat, HasMember, Completed;
    if k.dependencies[i].OnSchema? {
      assert WellFormed(k.dependencies[i].schema);
      CompletedMeans(k.dependencies[i].schema, v);
    }
  }

  lemma ArrayMeans(k: Keywords, elements: seq<Value>)
    requires WellFormed(k)
    ensures WellFormed(Completed(k)) && DraftArraySat(Completed(k), elements) == ArraySat(k, elements)
    decreases elements, k, 5
  {
    CompletedWellFormed(k);
    CompletedFields(k);
    hide WellFormed, ElementSat, DraftElementSat, Completed;
    forall i | 0 <= i < |elements|
      ensures DraftElementSat(Completed(k), i, elements[i]) == ElementSat(k, i, elements[i])
    {
      ElementMeans(k, i, elements[i]);
    }
  }

  lemma DependenciesMean(k: Keywords, v: Value)
    requires WellFormed(k) && v.Object?
    ensures forall i :: 0 <= i < |k.dependencies| ==>
      && (k.dependencies[i].OnSchema? ==> WellFormed(k.dependencies[i].schema) && WellFormed(Completed(k.dependencies[i].schema)))
      && DraftDependencySat(CompletedDependency(k.dependencies[i]), v) == DependencySat(k.dependencies[i], v)
    decreases v, k, 5
  {
    hide WellFormed, DependencySat, DraftDependencySat, Completed;
    forall i | 0 <= i < |k.dependencies|
      ensures k.dependencies[i].OnSchema? ==> WellFormed(k.dependencies[i].schema) && WellFormed(Completed(k.dependencies[i].schema))
      ensures DraftDependencySat(CompletedDependency(k.dependencies[i]), v) == DependencySat(k.dependencies[i], v)
    {
      DependencyMeans(k, i, v);
    }
  }

  lemma RequirementMeans(k: Keywords, v: Value)
    requires WellFormed(k) && v.Object?
    ensures WellFormed(Completed(k)) && DraftRequirementSat(Completed(k), v) == RequirementSat(k, v)
    decreases v, k, 6
  {
    CompletedWellFormed(k);
    CompletedFields(k);
    DependenciesMean(k, v);
    hide WellFormed, HasMember, DependencySat, DraftDependencySat, Completed, CompletedDependency;
  }

  lemma ObjectMeans(k: Keywords, v: Value)
    requires WellFormed(k) && v.Object?
    ensures WellFormed(Completed(k)) && DraftObjectSat(Completed(k), v) == ObjectSat(k, v)
    decreases v, k, 7
  {
    CompletedWellFormed(k);
    RequirementMeans(k, v);
    hide WellFormed, MemberSat, DraftMemberSat, RequirementSat, DraftRequirementSat, Completed;
    forall i | 0 <= i < |v.members|
      ensures DraftMemberSat(Completed(k), v.members[i].name, v.members[i].value)
        == MemberSat(k, v.members[i].name, v.members[i].value)
    {
      MemberMeans(k, v.members[i].name, v.members[i].value);
    }
  }

  lemma CompletedMeans(k: Keywords, v: Value)
    requires WellFormed(k)
    ensures WellFormed(Completed(k)) && DraftSat(Completed(k), v) == Sat(k, v)
    decreases v, k, 8
  {
    CompletedWellFormed(k);
    TypesMean(k, v);
    SatParts(k, v);
    DraftSatParts(Completed(k), v);
    CombinationMeans(k, v);
    hide WellFormed, Sat, DraftSat, TypesSat, CombinationSat, DraftCombinationSat, ArraySat, DraftArraySat, ObjectSat, DraftObjectSat,
      Completed;
    if v.Array? {
      ArrayMeans(k, v.elements);
    } else if v.Object? {
      ObjectMeans(k, v);
    }
  }

  lemma TypesMean(k: Keywords, v: Value)
    requires WellFormed(k) && WellFormed(Completed(k))
    ensures TypesSat(Completed(k), v) == TypesSat(k, v)
  {
    CompletedFields(k);
    LimitsValid(k);
    hide WellFormed, Completed;
  }

  /** For every schema and value: the validator's verdict is draft 4's verdict on the completed schema. */
  lemma ValidatorCompletes(k: Keywords, v: Value)
    requires WellFormed(k) && DoubleFree(v)
    ensures WellFormed(Completed(k))
    ensures Feed(Fresh(Compile(k)), EventsOf(v)).valid <==> DraftSat(Completed(k), v)
  {
    hide Compile, Sat, DraftSat, Feed, EventsOf, WellFormed, DoubleFree, Completed;
    StreamingIsSatisfaction(k, v);
    CompletedMeans(k, v);
  }

  // ---------------------------------------------------------------------------
  // Both departures, and both directions
  // ---------------------------------------------------------------------------

  /** Only `a` is required and nothing else may appear. */
  function RequiredOnly(): Keywords {
    Empty.(required := [[LOWER_A]], additionalProperties := Allowed(false))
  }

  /** {"a": null} */
  function OneMember(): Value {
    Value.Object([Member([LOWER_A], Value.Null)])
  }

  lemma RequiredOnlyVerdicts()
    ensures WellFormed(RequiredOnly()) && DoubleFree(OneMember())
    ensures Sat(RequiredOnly(), OneMember()) && !DraftSat(RequiredOnly(), OneMember())
  {
    var k, v := RequiredOnly(), OneMember();
    assert v.members[0].name == [LOWER_A];
    assert HasMember(v.members, [LOWER_A]);
    assert k.required[0] == [LOWER_A];
    assert Mentions(k, [LOWER_A]);
    assert MemberSat(k, [LOWER_A], Value.Null);
    assert RequirementSat(k, v);
    assert CombinationSat(k, v);
    assert !DraftMemberSat(k, [LOWER_A], Value.Null);
  }

  /** The validator accepts a member that draft 4 forbids. */
  lemma BypassExample()
    ensures WellFormed(RequiredOnly())
    ensures Feed(Fresh(Compile(RequiredOnly())), EventsOf(OneMember())).valid && !DraftSat(RequiredOnly(), OneMember())
  {
    hide Compile, Sat, DraftSat, Feed, EventsOf, WellFormed, RequiredOnly, OneMember;
    RequiredOnlyVerdicts();
    StreamingIsSatisfaction(RequiredOnly(), OneMember());
  }

  function Unwanted(): Keywords {
    Empty.(negated := Some(RequiredOnly()))
  }

  lemma UnwantedVerdicts()
    ensures WellFormed(Unwanted()) && !Sat(Unwanted(), OneMember()) && DraftSat(Unwanted(), OneMember())
  {
    RequiredOnlyVerdicts();
    hide RequiredOnly;
    var k, v := Unwanted(), OneMember();
    assert !CombinationSat(k, v);
    assert DraftCombinationSat(k, v);
    assert DraftMemberSat(k, v.members[0].name, v.members[0].value);
    assert DraftObjectSat(k, v);
  }

  /** Under `not` the departure works the other way: the validator refuses what draft 4 accepts. */
  lemma NegatedExample()
    ensures WellFormed(Unwanted())
    ensures !Feed(Fresh(Compile(Unwanted())), EventsOf(OneMember())).valid && DraftSat(Unwanted(), OneMember())
  {
    hide Compile, Feed, EventsOf, WellFormed, Sat, DraftSat, Unwanted, RequiredOnly, OneMember;
    RequiredOnlyVerdicts();
    UnwantedVerdicts();
    StreamingIsSatisfaction(Unwanted(), OneMember());
  }

  /** An empty tuple counts as no items keyword: the two schemas compile to the same, and all their verdicts agree. */
  lemma EmptyTupleIgnored(k: Keywords, v: Value)
    requires WellFormed(k) && k.items == Tuple([]) && DoubleFree(v)
    ensures WellFormed(k.(items := Anything))
    ensures Feed(Fresh(Compile(k)), EventsOf(v)).valid <==> Feed(Fresh(Compile(k.(items := Anything))), EventsOf(v)).valid
    ensures Feed(Fresh(Compile(k)), EventsOf(v)).valid <==> Sat(k.(items := Anything), v)
  {
    hide Feed, EventsOf, DoubleFree, Sat;
    SameCompiled(k);
    hide Compile;
    StreamingIsSatisfaction(k.(items := Anything), v);
  }

  lemma SameCompiled(k: Keywords)
    requires k.items == Tuple([])
    ensures Compile(k) == Compile(k.(items := Anything))
  {
    hide SchemaCount, TypesOf;
    var bare := k.(items := Anything);
    assert AllNames(k) == AllNames(bare);
    assert CompileAll(k.items.schemas) == [];
    forall name
      ensures CompileProperty(k, name) == CompileProperty(bare, name)
    {}
    assert Compile(k).properties == Compile(bare).properties;
  }

  /** So with an empty tuple and nothing additional allowed the validator accepts [null], which draft 4 forbids. */
  lemma EmptyTupleExample()
    ensures var k, v := Empty.(items := Tuple([]), additionalItems := Allowed(false)), Value.Array([Value.Null]);
      && WellFormed(k) && Feed(Fresh(Compile(k)), EventsOf(v)).valid && !DraftSat(k, v)
  {
    hide Compile, Feed, EventsOf;
    var k, v := Empty.(items := Tuple([]), additionalItems := Allowed(false)), Value.Array([Value.Null]);
    assert ElementSat(k, 0, v.elements[0]);
    assert !DraftElementSat(k, 0, v.elements[0]);
    assert CombinationSat(k, v);
    assert Sat(k, v);
    StreamingIsSatisfaction(k, v);
  }
}
