/** Resolving JSON pointers: Get, Create, Set and Erase on a tree; a C++ pointer into the tree is a list of child positions. */
module PointerTrees {
  import opened Bytes
  import opened Options
  import opened Values
  import opened Pointers

  type Place = seq<nat>

  // ---------------------------------------------------------------------------
  // Trees and places
  // ---------------------------------------------------------------------------

  function ChildCount(v: Value): nat {
    if v.Array? then |v.elements| else if v.Object? then |v.members| else 0
  }

  function Child(v: Value, i: nat): (c: Value)
    requires i < ChildCount(v)
    ensures c < v
  {
    if v.Array? then v.elements[i] else v.members[i].value
  }

  function WithChild(v: Value, i: nat, c: Value): (u: Value)
    requires i < ChildCount(v)
    ensures ChildCount(u) == ChildCount(v) && u.Array? == v.Array? && u.Object? == v.Object?
    ensures forall j :: 0 <= j < ChildCount(u) ==> Child(u, j) == if j == i then c else Child(v, j)
  {
    if v.Array? then Value.Array(v.elements[i := c])
    else Value.Object(v.members[i := v.members[i].(value := c)])
  }

  /** Whether a place is in a tree. */
  predicate InTree(v: Value, at: Place)
    decreases |at|
  {
    at == [] || (at[0] < ChildCount(v) && InTree(Child(v, at[0]), at[1..]))
  }

  function ValueAt(v: Value, at: Place): Value
    requires InTree(v, at)
    decreases |at|
  {
    if at == [] then v else ValueAt(Child(v, at[0]), at[1..])
  }

  /** Assignment through a pointer. */
  function Put(v: Value, at: Place, x: Value): Value
    requires InTree(v, at)
    decreases |at|
  {
    if at == [] then x else WithChild(v, at[0], Put(Child(v, at[0]), at[1..], x))
  }

  /** What is put is there, and everything beside it is as before. */
  lemma {:induction false} PutThere(v: Value, at: Place, x: Value)
    requires InTree(v, at)
    ensures InTree(Put(v, at, x), at) && ValueAt(Put(v, at, x), at) == x
    decreases |at|
  {
    if at != [] {
      PutThere(Child(v, at[0]), at[1..], x);
    }
  }

  predicate Apart(a: Place, b: Place)
    decreases |a|
  {
    a != [] && b != [] && (a[0] != b[0] || Apart(a[1..], b[1..]))
  }

  lemma {:induction false} PutElsewhere(v: Value, at: Place, x: Value, other: Place)
    requires InTree(v, at) && Apart(at, other)
    ensures InTree(Put(v, at, x), other) <==> InTree(v, other)
    ensures InTree(v, other) ==> ValueAt(Put(v, at, x), other) == ValueAt(v, other)
    decreases |at|
  {
    if at[0] == other[0] {
      PutElsewhere(Child(v, at[0]), at[1..], x, other[1..]);
    }
  }

  /** Putting at a longer place is putting below. */
  lemma {:induction false} PutBelow(v: Value, at: Place, below: Place, x: Value)
    requires InTree(v, at) && InTree(ValueAt(v, at), below)
    ensures InTree(v, at + below) && ValueAt(v, at + below) == ValueAt(ValueAt(v, at), below)
    ensures Put(v, at + below, x) == Put(v, at, Put(ValueAt(v, at), below, x))
    decreases |at|
  {
    if at == [] {
      assert at + below == below;
    } else {
      assert (at + below)[0] == at[0] && (at + below)[1..] == at[1..] + below;
      PutBelow(Child(v, at[0]), at[1..], below, x);
    }
  }

  lemma {:induction false} PutTwice(v: Value, at: Place, x: Value, y: Value)
    requires InTree(v, at)
    ensures InTree(Put(v, at, x), at) && Put(Put(v, at, x), at, y) == Put(v, at, y)
    decreases |at|
  {
    if at != [] {
      PutTwice(Child(v, at[0]), at[1..], x, y);
      WithTwice(v, at[0], Put(Child(v, at[0]), at[1..], x), Put(Child(v, at[0]), at[1..], y));
    }
  }

  lemma WithTwice(v: Value, i: nat, c: Value, d: Value)
    requires i < ChildCount(v)
    ensures WithChild(WithChild(v, i, c), i, d) == WithChild(v, i, d)
  {}

  lemma {:induction false} PutSame(v: Value, at: Place)
    requires InTree(v, at)
    ensures Put(v, at, ValueAt(v, at)) == v
    decreases |at|
  {
    if at != [] {
      PutSame(Child(v, at[0]), at[1..]);
      WithSame(v, at[0]);
    }
  }

  lemma WithSame(v: Value, i: nat)
    requires i < ChildCount(v)
    ensures WithChild(v, i, Child(v, i)) == v
  {
    if v.Object? {
      assert v.members[i := v.members[i].(value := Child(v, i))] == v.members;
    }
  }

  // ---------------------------------------------------------------------------
  // Get
  // ---------------------------------------------------------------------------

  function FindMember(members: seq<Member>, name: Text): (r: Option<nat>)
    ensures r.Some? ==> r.value < |members| && members[r.value].name == name
    ensures r.None? ==> forall i :: 0 <= i < |members| ==> members[i].name != name
    ensures r.Some? ==> forall i :: 0 <= i < r.value ==> members[i].name != name
  {
    if members == [] then None
    else if members[0].name == name then Some(0)
    else
      var r := FindMember(members[1..], name);
      if r.None? then None else Some(r.value + 1)
  }

  /** The child a token names; names are looked up as C strings, up to their first NUL. */
  function NextChild(v: Value, t: Token): (r: Option<nat>)
    ensures r.Some? ==> r.value < ChildCount(v)
  {
    if v.Object? then FindMember(v.members, CString(t.name))
    else if v.Array? && t.index != INVALID_INDEX && t.index < |v.elements| then Some(t.index)
    else None
  }

  function Resolve(v: Value, tokens: seq<Token>): (r: Option<Place>)
    ensures r.Some? ==> InTree(v, r.value) && |r.value| == |tokens|
    decreases |tokens|
  {
    if tokens == [] then Some([])
    else
      var i := NextChild(v, tokens[0]);
      if i.None? then None
      else
        var rest := Resolve(Child(v, i.value), tokens[1..]);
        if rest.None? then None else Some([i.value] + rest.value)
  }

  /** Get: the place the pointer resolves to, or the first token that does not resolve. */
  method Get(root: Value, tokens: seq<Token>) returns (at: Option<Place>, unresolved: nat)
    ensures at == Resolve(root, tokens)
    ensures at.None? ==> unresolved < |tokens| && Resolve(root, tokens[..unresolved]).Some? && Resolve(root, tokens[..unresolved + 1]).None?
  {
    hide Resolve, NextChild, Child, InTree, ValueAt, Below;
    var v := root;
    var place: Place := [];
    unresolved := 0;
    var t := 0;
    assert tokens[..0] == [] && tokens[0..] == tokens;
    NothingToResolve(root);
    BelowNothing(Resolve(root, tokens));
    while t < |tokens|
      invariant 0 <= t <= |tokens|
      invariant Resolve(root, tokens[..t]) == Some(place) && InTree(root, place) && ValueAt(root, place) == v
      invariant Resolve(root, tokens) == Below(place, Resolve(v, tokens[t..]))
    {
      assert tokens[t..][0] == tokens[t] && tokens[t..][1..] == tokens[t + 1..];
      assert tokens[..t] + [tokens[t]] == tokens[..t + 1];
      var i := NextChild(v, tokens[t]);
      ResolveHead(v, tokens[t..]);
      ResolveOneMore(root, tokens[..t], tokens[t]);
      if i.None? {
        NothingBelow(place);
        return None, t;
      }
      BelowTwice(place, [i.value], Resolve(Child(v, i.value), tokens[t + 1..]));
      v := Child(v, i.value);
      place := place + [i.value];
      t := t + 1;
    }
    assert tokens[t..] == [] && tokens[..t] == tokens;
    at := Some(place);
  }

  lemma NothingToResolve(v: Value)
    ensures Resolve(v, []) == Some([]) && InTree(v, []) && ValueAt(v, []) == v
  {}

  lemma BelowNothing(r: Option<Place>)
    ensures Below([], r) == r
  {
    if r.Some? {
      assert [] + r.value == r.value;
    }
  }

  lemma NothingBelow(at: Place)
    ensures Below(at, None) == None
  {}

  lemma BelowTwice(a: Place, b: Place, r: Option<Place>)
    ensures Below(a, Below(b, r)) == Below(a + b, r)
  {
    if r.Some? {
      assert a + (b + r.value) == (a + b) + r.value;
    }
  }

  lemma ResolveHead(v: Value, tokens: seq<Token>)
    requires tokens != []
    ensures var i := NextChild(v, tokens[0]);
      Resolve(v, tokens) == if i.None? then None else Below([i.value], Resolve(Child(v, i.value), tokens[1..]))
  {
    hide NextChild;
  }

  function Below(at: Place, rest: Option<Place>): Option<Place> {
    if rest.None? then None else Some(at + rest.value)
  }

  lemma {:induction false} ResolveOneMore(v: Value, tokens: seq<Token>, t: Token)
    requires Resolve(v, tokens).Some?
    ensures var at := Resolve(v, tokens).value;
      var i := NextChild(ValueAt(v, at), t);
      && (Resolve(v, tokens + [t]) == if i.None? then None else Some(at + [i.value]))
      && (i.Some? ==> InTree(v, at + [i.value]) && ValueAt(v, at + [i.value]) == Child(ValueAt(v, at), i.value))
    decreases |tokens|
  {
    hide Resolve, NextChild, Child;
    if tokens == [] {
      assert tokens + [t] == [t] && [t][1..] == [];
      NothingToResolve(v);
      ResolveHead(v, [t]);
      var last := NextChild(v, t);
      if last.Some? {
        NothingToResolve(Child(v, last.value));
        assert [] + [last.value] == [last.value] + [] == [last.value];
        ChildPlace(v, last.value, v);
      }
    } else {
      assert (tokens + [t])[0] == tokens[0] && (tokens + [t])[1..] == tokens[1..] + [t];
      ResolveHead(v, tokens);
      var i := NextChild(v, tokens[0]).value;
      ResolveHead(v, tokens + [t]);
      ResolveOneMore(Child(v, i), tokens[1..], t);
      var at := Resolve(v, tokens).value;
      assert at[1..] == Resolve(Child(v, i), tokens[1..]).value;
      var last := NextChild(ValueAt(v, at), t);
      if last.Some? {
        assert (at + [last.value])[1..] == at[1..] + [last.value];
        assert at + [last.value] == [i] + (at[1..] + [last.value]);
      }
    }
  }

  // ---------------------------------------------------------------------------
  // Create and Set
  // ---------------------------------------------------------------------------

  predicate IsAppend(v: Value, t: Token) {
    v.Array? && t.name == [MINUS]
  }

  /** The container a token needs: an object for a name, an array or object for an index. */
  function Container(v: Value, t: Token): Value {
    if t.index == INVALID_INDEX then if v.Object? then v else Value.Object([])
    else if v.Array? || v.Object? then v
    else Value.Array([])
  }

  function Nulls(n: nat): seq<Value> {
    seq(n, _ => Value.Null)
  }

  /** One step of Create: the value with the child of the token, the child's position, and whether it was there. */
  function Extend(v: Value, t: Token): (r: (Value, nat, bool))
    ensures r.1 < ChildCount(r.0)
  {
    if IsAppend(v, t) then (Value.Array(v.elements + [Value.Null]), |v.elements|, false)
    else
      var w := Container(v, t);
      if w.Array? then
        if t.index >= |w.elements| then (Value.Array(w.elements + Nulls(t.index + 1 - |w.elements|)), t.index, false)
        else (w, t.index, true)
      else
        var i := FindMember(w.members, CString(t.name));
        if i.None? then (Value.Object(w.members + [Member(t.name, Value.Null)]), |w.members|, false)
        else (w, i.value, true)
  }

  /** Create: the new tree, the place of the value, and whether it existed. */
  function Created(v: Value, tokens: seq<Token>): (r: (Value, Place, bool))
    ensures InTree(r.0, r.1) && |r.1| == |tokens|
    decreases |tokens|
  {
    if tokens == [] then (v, [], true)
    else
      var step := Extend(v, tokens[0]);
      var rest := Created(Child(step.0, step.1), tokens[1..]);
      CreatedInTree(step.0, step.1, rest.0, rest.1);
      (WithChild(step.0, step.1, rest.0), [step.1] + rest.1, step.2 && rest.2)
  }

  lemma CreatedInTree(v: Value, i: nat, c: Value, at: Place)
    requires i < ChildCount(v) && InTree(c, at)
    ensures InTree(WithChild(v, i, c), [i] + at)
  {
    assert ([i] + at)[1..] == at;
  }

  /** Create walks down and grows the tree where it must. */
  method Create(root: Value, tokens: seq<Token>) returns (tree: Value, at: Place, alreadyExist: bool)
    ensures (tree, at, alreadyExist) == Created(root, tokens)
  {
    hide Extend, WithChild, Created, Put, InTree, ValueAt;
    tree, at, alreadyExist := root, [], true;
    var t := 0;
    assert tokens[0..] == tokens;
    AtRoot(root, Created(root, tokens).0);
    assert at + Created(root, tokens).1 == Created(root, tokens).1;
    while t < |tokens|
      invariant 0 <= t <= |tokens| && InTree(tree, at)
      invariant var rest := Created(ValueAt(tree, at), tokens[t..]);
        Created(root, tokens) == (Put(tree, at, rest.0), at + rest.1, alreadyExist && rest.2)
    {
      var v := ValueAt(tree, at);
      var step := Extend(v, tokens[t]);
      ghost var rest := Created(Child(step.0, step.1), tokens[t + 1..]);
      assert tokens[t..][0] == tokens[t] && tokens[t..][1..] == tokens[t + 1..];
      CreatedHead(v, tokens[t..]);
      Grow(tree, at, step.0, step.1, rest.0);
      assert at + ([step.1] + rest.1) == (at + [step.1]) + rest.1;
      tree := Put(tree, at, step.0);
      at := at + [step.1];
      alreadyExist := alreadyExist && step.2;
      t := t + 1;
    }
    assert tokens[t..] == [];
    CreatedNothing(ValueAt(tree, at));
    PutSame(tree, at);
    assert at + [] == at;
  }

  lemma AtRoot(v: Value, x: Value)
    ensures InTree(v, []) && ValueAt(v, []) == v && Put(v, [], x) == x
  {}

  lemma CreatedNothing(v: Value)
    ensures Created(v, []) == (v, [], true)
  {}

  lemma CreatedHead(v: Value, tokens: seq<Token>)
    requires tokens != []
    ensures var step := Extend(v, tokens[0]);
      var rest := Created(Child(step.0, step.1), tokens[1..]);
      Created(v, tokens) == (WithChild(step.0, step.1, rest.0), [step.1] + rest.1, step.2 && rest.2)
  {
    hide Extend, WithChild;
  }

  /** Growing the tree at a place and going on below is growing it at once. */
  lemma Grow(tree: Value, at: Place, v: Value, i: nat, c: Value)
    requires InTree(tree, at) && i < ChildCount(v)
    ensures var grown := Put(tree, at, v);
      && InTree(grown, at + [i]) && ValueAt(grown, at + [i]) == Child(v, i)
      && Put(grown, at + [i], c) == Put(tree, at, WithChild(v, i, c))
  {
    hide WithChild, Put, InTree, ValueAt;
    var grown := Put(tree, at, v);
    PutThere(tree, at, v);
    ChildPlace(v, i, c);
    PutBelow(grown, at, [i], c);
    PutTwice(tree, at, v, WithChild(v, i, c));
  }

  lemma ChildPlace(v: Value, i: nat, x: Value)
    requires i < ChildCount(v)
    ensures InTree(v, [i]) && ValueAt(v, [i]) == Child(v, i) && Put(v, [i], x) == WithChild(v, i, x)
  {
    hide WithChild;
    assert [i][1..] == [];
  }

  /** Set: the created value is assigned. */
  function SetAt(v: Value, tokens: seq<Token>, x: Value): Value {
    Put(Created(v, tokens).0, Created(v, tokens).1, x)
  }

  method Set(root: Value, tokens: seq<Token>, x: Value) returns (tree: Value, at: Place)
    ensures tree == SetAt(root, tokens, x) && at == Created(root, tokens).1
    ensures InTree(tree, at) && ValueAt(tree, at) == x
  {
    var exist;
    tree, at, exist := Create(root, tokens);
    PutThere(tree, at, x);
    tree := Put(tree, at, x);
  }

  lemma NextExtend(v: Value, t: Token)
    requires t.name == [MINUS] ==> t.index == INVALID_INDEX
    ensures Extend(v, t).2 <==> NextChild(v, t).Some?
    ensures NextChild(v, t).Some? ==> Extend(v, t) == (v, NextChild(v, t).value, true)
  {}

  predicate Indexed(tokens: seq<Token>) {
    forall i :: 0 <= i < |tokens| && tokens[i].name == [MINUS] ==> tokens[i].index == INVALID_INDEX
  }

  /** Parse gives `-` no index. */
  lemma ParsedIndexed(names: seq<Text>)
    ensures Indexed(TokensOf(names))
  {}

  /** Create reports "already exists" exactly when Get resolves, and then finds the same place in an unchanged tree. */
  lemma {:induction false} CreateExists(v: Value, tokens: seq<Token>)
    requires Indexed(tokens)
    ensures Created(v, tokens).2 <==> Resolve(v, tokens).Some?
    ensures Resolve(v, tokens).Some? ==> Created(v, tokens) == (v, Resolve(v, tokens).value, true)
    decreases |tokens|
  {
    hide Extend, NextChild, WithChild;
    if tokens != [] {
      NextExtend(v, tokens[0]);
      if NextChild(v, tokens[0]).Some? {
        var i := NextChild(v, tokens[0]).value;
        CreateExists(Child(v, i), tokens[1..]);
        WithSame(v, i);
      }
    }
  }

  /**
   * The child Create makes for the token is not the one Get finds: it was appended with `-`, or it is a new member whose
   * name is stored whole but will be looked up only to its first NUL.
   */
  predicate Loses(v: Value, t: Token) {
    || IsAppend(v, t)
    || (Container(v, t).Object? && FindMember(Container(v, t).members, CString(t.name)).None? && !NoNul(t.name))
  }

  /** Create makes such a child on the way. */
  predicate LostOnTheWay(v: Value, tokens: seq<Token>)
    decreases |tokens|
  {
    tokens != [] &&
    (Loses(v, tokens[0]) || LostOnTheWay(Child(Extend(v, tokens[0]).0, Extend(v, tokens[0]).1), tokens[1..]))
  }

  /** The child made by Extend is the one its token names afterwards, unless it is lost. */
  lemma NextAfterExtend(v: Value, t: Token, c: Value)
    requires t.name == [MINUS] ==> t.index == INVALID_INDEX
    ensures var e := Extend(v, t);
      NextChild(WithChild(e.0, e.1, c), t) == if Loses(v, t) then None else Some(e.1)
  {
    CStringIsWhole(t.name);
    var e := Extend(v, t);
    var u := WithChild(e.0, e.1, c);
    if u.Object? {
      assert forall j :: 0 <= j < |u.members| ==> u.members[j].name == e.0.members[j].name;
      assert !e.2 ==> u.members[e.1].name == t.name;
    }
  }

  /** After Set, Get resolves to the place Create made, or to none exactly when a child was lost on the way. */
  lemma {:induction false} ResolveAfterSet(v: Value, tokens: seq<Token>, x: Value)
    requires Indexed(tokens)
    ensures Resolve(SetAt(v, tokens, x), tokens) == if LostOnTheWay(v, tokens) then None else Some(Created(v, tokens).1)
    decreases |tokens|
  {
    hide Extend, NextChild, WithChild, Loses;
    if tokens != [] {
      var e := Extend(v, tokens[0]);
      var child := Child(e.0, e.1);
      var rest := Created(child, tokens[1..]);
      ResolveAfterSet(child, tokens[1..], x);
      NextAfterExtend(v, tokens[0], SetAt(child, tokens[1..], x));
      SetDown(e.0, e.1, rest.0, rest.1, x);
    }
  }

  lemma SetDown(v: Value, i: nat, c: Value, at: Place, x: Value)
    requires i < ChildCount(v) && InTree(c, at)
    ensures InTree(WithChild(v, i, c), [i] + at)
    ensures Put(WithChild(v, i, c), [i] + at, x) == WithChild(v, i, Put(c, at, x))
  {
    assert ([i] + at)[1..] == at;
    WithTwice(v, i, c, Put(c, at, x));
  }

  /** Get after Set returns the value that was set, unless a child was lost on the way, and then it returns nothing. */
  lemma GetAfterSet(v: Value, tokens: seq<Token>, x: Value)
    requires Indexed(tokens)
    ensures !LostOnTheWay(v, tokens) <==> Resolve(SetAt(v, tokens, x), tokens).Some?
    ensures !LostOnTheWay(v, tokens) ==>
      ValueAt(SetAt(v, tokens, x), Resolve(SetAt(v, tokens, x), tokens).value) == x
  {
    hide Created, LostOnTheWay, Resolve, Put;
    ResolveAfterSet(v, tokens, x);
    PutThere(Created(v, tokens).0, Created(v, tokens).1, x);
  }

  /** The token `a`, NUL, `b`. */
  function NulToken(): Token {
    Token([LOWER_A, 0, LOWER_B], INVALID_INDEX)
  }

  lemma NulTokenName()
    ensures CString(NulToken().name) == [LOWER_A] && !NoNul(NulToken().name)
  {
    var name := NulToken().name;
    assert name[1] == 0;
    assert CString(name[1..]) == [];
    assert CString(name) == [LOWER_A] + [];
  }

  /** In an empty object Set stores a name with a NUL whole, and Get, which looks up to the NUL, does not find it. */
  lemma NulNameIsLost(x: Value)
    ensures SetAt(Value.Object([]), [NulToken()], x) == Value.Object([Member(NulToken().name, x)])
    ensures Resolve(SetAt(Value.Object([]), [NulToken()], x), [NulToken()]).None?
  {
    var t, v := NulToken(), Value.Object([]);
    NulTokenName();
    AddedMember(v, t, x);
    assert Loses(v, t);
    ResolveAfterSet(v, [t], x);
  }

  /** In an object with a member named by what comes before the NUL, Set overwrites that member, and Get finds it there. */
  lemma NulNameAliases(former: Value, x: Value)
    ensures var v := Value.Object([Member([LOWER_A], former)]);
      && SetAt(v, [NulToken()], x) == Value.Object([Member([LOWER_A], x)])
      && Resolve(SetAt(v, [NulToken()], x), [NulToken()]) == Some([0])
  {
    var t, v := NulToken(), Value.Object([Member([LOWER_A], former)]);
    NulTokenName();
    assert Extend(v, t) == (v, 0, true);
    CreatedHead(v, [t]);
    assert [t][1..] == [];
    CreatedNothing(former);
    WithSame(v, 0);
    assert [0] + [] == [0];
    ChildPlace(v, 0, x);
    assert !LostOnTheWay(v, [t]);
    ResolveAfterSet(v, [t], x);
  }

  /** Setting a member that the object does not have appends it. */
  lemma AddedMember(v: Value, t: Token, x: Value)
    requires v.Object? && NextChild(v, t).None?
    ensures SetAt(v, [t], x) == Value.Object(v.members + [Member(t.name, x)])
    ensures Created(v, [t]).1 == [|v.members|]
  {
    hide WithChild;
    var n, grown := |v.members|, Value.Object(v.members + [Member(t.name, Value.Null)]);
    assert Extend(v, t) == (grown, n, false);
    CreatedHead(v, [t]);
    assert [t][1..] == [];
    CreatedNothing(Child(grown, n));
    WithSame(grown, n);
    assert [n] + [] == [n];
    ChildPlace(grown, n, x);
    ReplaceLast(v.members, Member(t.name, Value.Null), x);
  }

  lemma ReplaceLast(members: seq<Member>, m: Member, x: Value)
    ensures WithChild(Value.Object(members + [m]), |members|, x) == Value.Object(members + [m.(value := x)])
  {}

  // ---------------------------------------------------------------------------
  // What Create and Set leave as it was
  // ---------------------------------------------------------------------------

  /** Whether a value can hold what the token names: an object any name, an array an index or `-`. */
  predicate Keeps(v: Value, t: Token) {
    v.Object? || (v.Array? && (t.index != INVALID_INDEX || t.name == [MINUS]))
  }

  /** The value itself, or an empty container in place of a value that cannot hold what the token names. */
  predicate Basis(v: Value, t: Token, w: Value) {
    if Keeps(v, t) then w == v
    else if t.index == INVALID_INDEX then w == Value.Object([])
    else w == Value.Array([])
  }

  /** `u` is `w` with a child `i`: nothing else of `w` is changed, and what is new besides is null. */
  ghost predicate Grown(w: Value, t: Token, i: nat, u: Value) {
    && u.Array? == w.Array? && u.Object? == w.Object?
    && i < ChildCount(u) == (if i < ChildCount(w) then ChildCount(w) else i + 1)
    && (forall j :: 0 <= j < ChildCount(w) && j != i ==> Child(u, j) == Child(w, j))
    && (forall j :: ChildCount(w) <= j < i ==> Child(u, j) == Value.Null)
    && (w.Array? ==> i == if t.name == [MINUS] then |w.elements| else t.index)
    && (w.Object? ==>
          && i <= |w.members| && (forall j :: 0 <= j < |w.members| ==> u.members[j].name == w.members[j].name)
          && (i == |w.members| ==> u.members[i].name == t.name))
  }

  /** What was at a child position; what is new begins as null. */
  function Former(w: Value, i: nat): Value {
    if i < ChildCount(w) then Child(w, i) else Value.Null
  }

  /** `tree` is `v` grown along the tokens down to `at`, where `former` was or a new null is and `x` is now. */
  ghost predicate GrownAlong(v: Value, tokens: seq<Token>, at: Place, tree: Value, former: Value, x: Value)
    decreases |tokens|
  {
    |at| == |tokens| &&
    if tokens == [] then former == v && tree == x
    else
      exists w ::
        && Basis(v, tokens[0], w) && Grown(w, tokens[0], at[0], tree)
        && GrownAlong(Former(w, at[0]), tokens[1..], at[1..], Child(tree, at[0]), former, x)
  }

  lemma ExtendGrows(v: Value, t: Token, c: Value) returns (w: Value)
    requires t.name == [MINUS] ==> t.index == INVALID_INDEX
    ensures var e := Extend(v, t);
      Basis(v, t, w) && Grown(w, t, e.1, WithChild(e.0, e.1, c)) && Child(e.0, e.1) == Former(w, e.1)
  {
    w := if IsAppend(v, t) then v else Container(v, t);
    var e := Extend(v, t);
    var u := WithChild(e.0, e.1, c);
    assert u.Object? ==> forall j :: 0 <= j < |u.members| ==> u.members[j].name == e.0.members[j].name;
  }

  /** Set, and so Create, as a relation between the old tree and the new one. */
  lemma {:induction false} SetGrows(v: Value, tokens: seq<Token>, x: Value) returns (former: Value)
    requires Indexed(tokens)
    ensures GrownAlong(v, tokens, Created(v, tokens).1, SetAt(v, tokens, x), former, x)
    ensures former == ValueAt(Created(v, tokens).0, Created(v, tokens).1)
    decreases |tokens|
  {
    hide Extend, WithChild, Basis, Grown;
    if tokens == [] {
      former := v;
    } else {
      var e := Extend(v, tokens[0]);
      var child, rest := Child(e.0, e.1), tokens[1..];
      former := SetGrows(child, rest, x);
      var w := ExtendGrows(v, tokens[0], SetAt(child, rest, x));
      SetDown(e.0, e.1, Created(child, rest).0, Created(child, rest).1, x);
      var at := Created(v, tokens).1;
      assert at[0] == e.1 && at[1..] == Created(child, rest).1;
    }
  }

  /** Create itself changes nothing at the place it returns. */
  lemma CreateGrows(v: Value, tokens: seq<Token>)
    requires Indexed(tokens)
    ensures var r := Created(v, tokens);
      GrownAlong(v, tokens, r.1, r.0, ValueAt(r.0, r.1), ValueAt(r.0, r.1))
  {
    var r := Created(v, tokens);
    var former := SetGrows(v, tokens, ValueAt(r.0, r.1));
    PutSame(r.0, r.1);
  }

  /** A place of `v` apart from `at`, with no value above it that cannot hold what its token names. */
  predicate Beside(v: Value, tokens: seq<Token>, at: Place, p: Place)
    requires |at| == |tokens|
    decreases |tokens|
  {
    && tokens != [] && p != [] && Keeps(v, tokens[0])
    && if p[0] != at[0] then InTree(v, p)
       else at[0] < ChildCount(v) && Beside(Child(v, at[0]), tokens[1..], at[1..], p[1..])
  }

  /** What a place of the new tree holds. */
  predicate Framed(tree: Value, at: Place, p: Place, beside: bool, kept: Value) {
    && (beside ==> InTree(tree, p) && ValueAt(tree, p) == kept)
    && (InTree(tree, p) && Apart(at, p) && !beside ==> ValueAt(tree, p) == Value.Null)
  }

  lemma GrownSide(v: Value, t: Token, w: Value, i: nat, tree: Value, at: Place, p: Place)
    requires Basis(v, t, w) && Grown(w, t, i, tree) && at != [] && at[0] == i && p != [] && p[0] != i
    ensures Framed(tree, at, p, Keeps(v, t) && InTree(v, p), ValueOf(v, p))
  {
    if p[0] < ChildCount(w) {
      assert p[0] < ChildCount(tree) && Child(tree, p[0]) == Child(w, p[0]);
    } else if p[0] < ChildCount(tree) {
      assert Child(tree, p[0]) == Value.Null;
      OnlyRoot(p[1..]);
    }
  }

  lemma GrownDown(v: Value, t: Token, w: Value, i: nat, tree: Value, rest: seq<Token>, at: Place, p: Place)
    requires Basis(v, t, w) && Grown(w, t, i, tree) && |at| == |rest| + 1 && at[0] == i && p != [] && p[0] == i
    requires Framed(Child(tree, i), at[1..], p[1..], Beside(Former(w, i), rest, at[1..], p[1..]), ValueOf(Former(w, i), p[1..]))
    ensures Framed(tree, at, p, Keeps(v, t) && i < ChildCount(v) && Beside(Child(v, i), rest, at[1..], p[1..]), ValueOf(v, p))
  {
    hide Beside;
    NothingBeside(rest, at[1..], p[1..]);
  }

  /** Such a place keeps its value; every other place apart from `at` is new and null. */
  lemma {:induction false} GrownFrame(v: Value, tokens: seq<Token>, at: Place, tree: Value, former: Value, x: Value, p: Place)
    requires GrownAlong(v, tokens, at, tree, former, x)
    ensures Framed(tree, at, p, Beside(v, tokens, at, p), ValueOf(v, p))
    decreases |tokens|
  {
    if tokens != [] && p != [] {
      var t, i := tokens[0], at[0];
      var w :| Basis(v, t, w) && Grown(w, t, i, tree)
        && GrownAlong(Former(w, i), tokens[1..], at[1..], Child(tree, i), former, x);
      hide GrownAlong, Basis, Grown, Framed, ValueOf, Former, Keeps;
      if p[0] == i {
        GrownFrame(Former(w, i), tokens[1..], at[1..], Child(tree, i), former, x, p[1..]);
        GrownDown(v, t, w, i, tree, tokens[1..], at, p);
      } else {
        GrownSide(v, t, w, i, tree, at, p);
      }
    }
  }

  /** The value at a place, and null where there is none. */
  function ValueOf(v: Value, p: Place): Value {
    if InTree(v, p) then ValueAt(v, p) else Value.Null
  }

  lemma NothingBeside(tokens: seq<Token>, at: Place, p: Place)
    requires |at| == |tokens|
    ensures !Beside(Value.Null, tokens, at, p) && !Beside(Value.Object([]), tokens, at, p)
  {}

  lemma OnlyRoot(p: Place)
    ensures InTree(Value.Null, p) <==> p == []
  {}

  /** Set leaves every place beside its own as it was, and what it adds besides is null, however deep the tree grows. */
  lemma SetFrame(v: Value, tokens: seq<Token>, x: Value, p: Place)
    requires Indexed(tokens)
    ensures var at, tree := Created(v, tokens).1, SetAt(v, tokens, x);
      Framed(tree, at, p, Beside(v, tokens, at, p), ValueOf(v, p))
  {
    hide GrownAlong, Created, SetAt, Beside, ValueAt, ValueOf;
    var former := SetGrows(v, tokens, x);
    GrownFrame(v, tokens, Created(v, tokens).1, SetAt(v, tokens, x), former, x, p);
  }

  /** Create leaves them so too, and its own place holds what was there, or null. */
  lemma CreateFrame(v: Value, tokens: seq<Token>, p: Place)
    requires Indexed(tokens)
    ensures var at, tree := Created(v, tokens).1, Created(v, tokens).0;
      Framed(tree, at, p, Beside(v, tokens, at, p), ValueOf(v, p))
  {
    hide GrownAlong, Created, Beside, ValueAt, ValueOf;
    var r := Created(v, tokens);
    CreateGrows(v, tokens);
    GrownFrame(v, tokens, r.1, r.0, ValueAt(r.0, r.1), ValueAt(r.0, r.1), p);
  }

  // ---------------------------------------------------------------------------
  // Erase
  // ---------------------------------------------------------------------------

  /** The value without child `i`; the order of the others is kept. */
  function WithoutChild(v: Value, i: nat): Value
    requires i < ChildCount(v)
  {
    if v.Array? then Value.Array(v.elements[..i] + v.elements[i + 1..])
    else Value.Object(v.members[..i] + v.members[i + 1..])
  }

  /** The tree without the value at a place. */
  function Removed(v: Value, at: Place): Value
    requires at != [] && InTree(v, at)
    decreases |at|
  {
    if |at| == 1 then WithoutChild(v, at[0])
    else WithChild(v, at[0], Removed(Child(v, at[0]), at[1..]))
  }

  /** `u` is `v` without child `i`: the others keep their order, their values and their names. */
  ghost predicate Shrunk(v: Value, i: nat, u: Value)
    requires i < ChildCount(v)
  {
    && u.Array? == v.Array? && u.Object? == v.Object? && ChildCount(u) == ChildCount(v) - 1
    && (forall j :: 0 <= j < ChildCount(u) ==> Child(u, j) == Child(v, if j < i then j else j + 1))
    && (v.Object? ==> forall j :: 0 <= j < |u.members| ==> u.members[j].name == v.members[if j < i then j else j + 1].name)
  }

  /** `u` is `v` with nothing but child `i` changed. */
  ghost predicate SameBut(v: Value, i: nat, u: Value) {
    && u.Array? == v.Array? && u.Object? == v.Object? && ChildCount(u) == ChildCount(v)
    && (forall j :: 0 <= j < ChildCount(u) && j != i ==> Child(u, j) == Child(v, j))
    && (v.Object? ==> forall j :: 0 <= j < |u.members| ==> u.members[j].name == v.members[j].name)
  }

  /** `tree` is `v` without the value at `at`. */
  ghost predicate ErasedAlong(v: Value, at: Place, tree: Value)
    requires at != [] && InTree(v, at)
    decreases |at|
  {
    if |at| == 1 then Shrunk(v, at[0], tree)
    else SameBut(v, at[0], tree) && ErasedAlong(Child(v, at[0]), at[1..], Child(tree, at[0]))
  }

  lemma {:induction false} RemovedErases(v: Value, at: Place)
    requires at != [] && InTree(v, at)
    ensures ErasedAlong(v, at, Removed(v, at))
    decreases |at|
  {
    hide Shrunk, SameBut, Child, ChildCount, WithChild, WithoutChild;
    if |at| == 1 {
      ChildTaken(v, at[0]);
    } else {
      RemovedErases(Child(v, at[0]), at[1..]);
      ChildReplaced(v, at[0], Removed(Child(v, at[0]), at[1..]));
    }
  }

  lemma ChildTaken(v: Value, i: nat)
    requires i < ChildCount(v)
    ensures Shrunk(v, i, WithoutChild(v, i))
  {}

  lemma ChildReplaced(v: Value, i: nat, c: Value)
    requires i < ChildCount(v)
    ensures SameBut(v, i, WithChild(v, i, c)) && Child(WithChild(v, i, c), i) == c
  {}

  lemma {:induction false} RemovedIsPut(v: Value, at: Place, i: nat)
    requires InTree(v, at) && i < ChildCount(ValueAt(v, at))
    ensures InTree(v, at + [i]) && Removed(v, at + [i]) == Put(v, at, WithoutChild(ValueAt(v, at), i))
    decreases |at|
  {
    hide WithoutChild, WithChild;
    if at == [] {
      assert [i][1..] == [];
    } else {
      assert (at + [i])[0] == at[0] && (at + [i])[1..] == at[1..] + [i];
      RemovedIsPut(Child(v, at[0]), at[1..], i);
    }
  }

  /** Erase succeeds exactly when the pointer has a token and resolves, and removes just that value. */
  method Erase(root: Value, tokens: seq<Token>) returns (tree: Value, erased: bool)
    ensures erased <==> tokens != [] && Resolve(root, tokens).Some?
    ensures tree == if erased then Removed(root, Resolve(root, tokens).value) else root
    ensures erased ==> ErasedAlong(root, Resolve(root, tokens).value, tree)
  {
    hide Removed, WithoutChild, NextChild, Resolve, Child, ErasedAlong;
    tree, erased := root, false;
    if |tokens| == 0 {
      return;
    }
    var init, last := tokens[..|tokens| - 1], tokens[|tokens| - 1];
    assert tokens == init + [last];
    var at, _ := Get(root, init);
    if at.None? {
      PrefixResolves(root, init, last);
      return;
    }
    ResolveOneMore(root, init, last);
    var v := ValueAt(root, at.value);
    var i := NextChild(v, last);
    if i.Some? {
      RemovedIsPut(root, at.value, i.value);
      RemovedErases(root, at.value + [i.value]);
      return Put(root, at.value, WithoutChild(v, i.value)), true;
    }
  }

  lemma {:induction false} PrefixResolves(v: Value, tokens: seq<Token>, t: Token)
    requires Resolve(v, tokens).None?
    ensures Resolve(v, tokens + [t]).None?
    decreases |tokens|
  {
    assert (tokens + [t])[0] == tokens[0] && (tokens + [t])[1..] == tokens[1..] + [t];
    if NextChild(v, tokens[0]).Some? {
      PrefixResolves(Child(v, NextChild(v, tokens[0]).value), tokens[1..], t);
    }
  }

  /**
   * When Set has just added a member to an existing object, Erase finds it exactly if its name has no NUL, and then
   * restores the tree.
   */
  lemma {:induction false} EraseUndoesSet(v: Value, tokens: seq<Token>, t: Token, x: Value)
    requires Indexed(tokens)
    requires Resolve(v, tokens).Some? && ValueAt(v, Resolve(v, tokens).value).Object?
    requires Resolve(v, tokens + [t]).None?
    ensures var u := SetAt(v, tokens + [t], x);
      && (Resolve(u, tokens + [t]).Some? <==> NoNul(t.name))
      && (NoNul(t.name) ==> Removed(u, Resolve(u, tokens + [t]).value) == v)
    decreases |tokens|
  {
    if tokens == [] {
      LastMember(v, t, x);
    } else {
      var all := tokens + [t];
      assert all[0] == tokens[0] && all[1..] == tokens[1..] + [t];
      NextExtend(v, all[0]);
      var i := NextChild(v, all[0]).value;
      var c := Child(v, i);
      hide Extend, NextChild, WithChild, NoNul;
      EraseUndoesSet(c, tokens[1..], t, x);
      SetDown(v, i, Created(c, all[1..]).0, Created(c, all[1..]).1, x);
      var w := SetAt(c, all[1..], x);
      var u := SetAt(v, all, x);
      assert u == WithChild(v, i, w);
      NextOther(v, i, w, all[0]);
      if NoNul(t.name) {
        var at := Resolve(w, all[1..]).value;
        assert Resolve(u, all) == Some([i] + at);
        assert ([i] + at)[1..] == at;
        WithTwice(v, i, w, Removed(w, at));
        WithSame(v, i);
      }
    }
  }

  /** Replacing a child does not change which child a token names. */
  lemma NextOther(v: Value, i: nat, c: Value, t: Token)
    requires i < ChildCount(v) && NextChild(v, t) == Some(i)
    ensures NextChild(WithChild(v, i, c), t) == Some(i)
  {
    if v.Object? {
      var u := WithChild(v, i, c);
      assert forall j :: 0 <= j < |u.members| ==> u.members[j].name == v.members[j].name;
    }
  }

  lemma LastMember(v: Value, t: Token, x: Value)
    requires v.Object? && Resolve(v, [t]).None?
    ensures var u := SetAt(v, [t], x);
      && (Resolve(u, [t]).Some? <==> NoNul(t.name))
      && (NoNul(t.name) ==> Removed(u, Resolve(u, [t]).value) == v)
  {
    CStringIsWhole(t.name);
    ResolveHead(v, [t]);
    assert [t][1..] == [];
    assert NextChild(v, t).None?;
    AddedMember(v, t, x);
    var n := |v.members|;
    var u := SetAt(v, [t], x);
    assert u.members[n].name == t.name && forall j :: 0 <= j < n ==> u.members[j] == v.members[j];
    assert NextChild(u, t) == if NoNul(t.name) then Some(n) else None;
    ResolveHead(u, [t]);
    assert [n] + [] == [n];
    assert u.members[..n] + u.members[n + 1..] == v.members;
  }
}
