/** The schema validator's Hasher: one code for every value, whatever the order of its members. */
module Hashers {
  import opened Bytes
  import opened Events
  import opened Values

  /** A 64-bit word. */
  datatype Word = Word(bits: bv64)

  const BASIS: Word := Word(0x8422_2325_CBF2_9CE4)

  const NULL_TYPE: bv64 := 0
  const FALSE_TYPE: bv64 := 1
  const TRUE_TYPE: bv64 := 2
  const OBJECT_TYPE: bv64 := 3
  const ARRAY_TYPE: bv64 := 4
  const STRING_TYPE: bv64 := 5
  const NUMBER_TYPE: bv64 := 6

  function BitXor(a: bv64, b: bv64): bv64 {
    a ^ b
  }

  function Xor(a: Word, b: Word): Word {
    Word(BitXor(a.bits, b.bits))
  }

  /** The FNV prime. */
  function Times(x: bv64): bv64 {
    x * 0x0000_0100_0000_01B3
  }

  /** One round of FNV-1a. */
  function Hash(h: Word, d: Word): Word {
    Word(Times(Xor(h, d).bits))
  }

  /** The word with the given low bits, the highest first. */
  function Octet(b7: bool, b6: bool, b5: bool, b4: bool, b3: bool, b2: bool, b1: bool, b0: bool): bv64 {
    (if b7 then 0x80 else 0) | (if b6 then 0x40 else 0) | (if b5 then 0x20 else 0) | (if b4 then 0x10 else 0)
      | (if b3 then 8 else 0) | (if b2 then 4 else 0) | (if b1 then 2 else 0) | (if b0 then 1 else 0)
  }

  predicate Bit(b: Byte, weight: nat)
    requires weight > 0
  {
    b / weight % 2 == 1
  }

  /** An unsigned char widened to 64 bits: its binary digits. */
  function ByteWord(b: Byte): Word {
    Word(Octet(Bit(b, 128), Bit(b, 64), Bit(b, 32), Bit(b, 16), Bit(b, 8), Bit(b, 4), Bit(b, 2), Bit(b, 1)))
  }

  function HashBytes(h: Word, bytes: Text): Word
    decreases |bytes|
  {
    if bytes == [] then h else HashBytes(Hash(h, ByteWord(bytes[0])), bytes[1..])
  }

  /** WriteBuffer. */
  function Buffer(kind: bv64, bytes: Text): Word {
    HashBytes(Hash(BASIS, Word(kind)), bytes)
  }

  /** The eight bytes of a 64-bit integer in memory, lowest first. */
  function Memory(n: int, count: nat): Text
    decreases count
  {
    if count == 0 then [] else [n % 0x100] + Memory(n / 0x100, count - 1)
  }

  /** The bytes of the Number union: the integer, then its double, whose bytes `image` gives. */
  function NumberBytes(n: int, image: int -> Text): Text {
    Memory(n, 8) + image(n)
  }

  /** The code of an empty object or array. */
  function Empty(kind: bv64): Word {
    Hash(Word(0), Word(kind))
  }

  /** EndObject: exclusive or over the members. */
  function FoldMembers(h: Word, codes: seq<Word>): Word
    requires |codes| % 2 == 0
    decreases |codes|
  {
    if codes == [] then h else FoldMembers(Xor(h, Hash(codes[0], codes[1])), codes[2..])
  }

  /** EndArray: a hash chain over the elements. */
  function FoldElements(h: Word, codes: seq<Word>): Word
    decreases |codes|
  {
    if codes == [] then h else FoldElements(Hash(h, codes[0]), codes[1..])
  }

  // ---------------------------------------------------------------------------
  // The stack machine
  // ---------------------------------------------------------------------------

  /** How many codes an event takes from the stack. */
  function Taken(e: Event): nat {
    match e
    case EndObject(count) => 2 * count
    case EndArray(count) => count
    case _ => 0
  }

  function Step(stack: seq<Word>, e: Event, image: int -> Text): seq<Word>
    requires Taken(e) <= |stack| && !e.Double?
  {
    var rest, top := stack[..|stack| - Taken(e)], stack[|stack| - Taken(e)..];
    match e
    case Null => stack + [Buffer(NULL_TYPE, [])]
    case Bool(b) => stack + [Buffer(if b then TRUE_TYPE else FALSE_TYPE, [])]
    case Integer(_, n) => stack + [Buffer(NUMBER_TYPE, NumberBytes(n, image))]
    case String(bytes) => stack + [Buffer(STRING_TYPE, bytes)]
    case Key(bytes) => stack + [Buffer(STRING_TYPE, bytes)]
    case StartObject => stack
    case StartArray => stack
    case EndObject(_) => rest + [FoldMembers(Empty(OBJECT_TYPE), top)]
    case EndArray(_) => rest + [FoldElements(Empty(ARRAY_TYPE), top)]
  }

  /** The events can be handled one after the other. */
  predicate Runs(stack: seq<Word>, events: seq<Event>, image: int -> Text)
    decreases |events|
  {
    events == [] ||
    (!events[0].Double? && Taken(events[0]) <= |stack| && Runs(Step(stack, events[0], image), events[1..], image))
  }

  function Run(stack: seq<Word>, events: seq<Event>, image: int -> Text): seq<Word>
    requires Runs(stack, events, image)
    decreases |events|
  {
    if events == [] then stack else Run(Step(stack, events[0], image), events[1..], image)
  }

  class Hasher {
    const image: int -> Text
    var stack: seq<Word>

    constructor (image: int -> Text)
      ensures stack == [] && this.image == image
    {
      this.image := image;
      stack := [];
    }

    method WriteBuffer(kind: bv64, bytes: Text)
      modifies this
      ensures stack == old(stack) + [Buffer(kind, bytes)]
    {
      hide Hash;
      var h := Hash(BASIS, Word(kind));
      var i := 0;
      assert bytes[0..] == bytes;
      while i < |bytes|
        invariant 0 <= i <= |bytes| && stack == old(stack)
        invariant HashBytes(h, bytes[i..]) == Buffer(kind, bytes)
      {
        assert bytes[i..][1..] == bytes[i + 1..];
        h := Hash(h, ByteWord(bytes[i]));
        i := i + 1;
      }
      stack := stack + [h];
    }

    method EndObject(memberCount: nat)
      requires 2 * memberCount <= |stack|
      modifies this
      ensures stack == Step(old(stack), Event.EndObject(memberCount), image)
    {
      hide Hash, Xor, Empty;
      var h := Empty(OBJECT_TYPE);
      var kv := stack[|stack| - 2 * memberCount..];
      var i := 0;
      assert kv[0..] == kv;
      while i < memberCount
        invariant 0 <= i <= memberCount && stack == old(stack)
        invariant FoldMembers(h, kv[2 * i..]) == FoldMembers(Empty(OBJECT_TYPE), kv)
      {
        assert kv[2 * i..][2..] == kv[2 * (i + 1)..];
        h := Xor(h, Hash(kv[i * 2], kv[i * 2 + 1]));
        i := i + 1;
      }
      stack := stack[..|stack| - 2 * memberCount] + [h];
    }

    method EndArray(elementCount: nat)
      requires elementCount <= |stack|
      modifies this
      ensures stack == Step(old(stack), Event.EndArray(elementCount), image)
    {
      hide Hash, Empty;
      var h := Empty(ARRAY_TYPE);
      var e := stack[|stack| - elementCount..];
      var i := 0;
      assert e[0..] == e;
      while i < elementCount
        invariant 0 <= i <= elementCount && stack == old(stack)
        invariant FoldElements(h, e[i..]) == FoldElements(Empty(ARRAY_TYPE), e)
      {
        assert e[i..][1..] == e[i + 1..];
        h := Hash(h, e[i]);
        i := i + 1;
      }
      stack := stack[..|stack| - elementCount] + [h];
    }

    /** The handler functions. */
    method Handle(e: Event)
      requires Taken(e) <= |stack| && !e.Double?
      modifies this
      ensures stack == Step(old(stack), e, image)
    {
      hide Buffer, FoldMembers, FoldElements, Hash, Empty;
      match e {
        case Null => WriteBuffer(NULL_TYPE, []);
        case Bool(b) => WriteBuffer(if b then TRUE_TYPE else FALSE_TYPE, []);
        case Integer(_, n) => WriteBuffer(NUMBER_TYPE, NumberBytes(n, image));
        case String(bytes) => WriteBuffer(STRING_TYPE, bytes);
        case Key(bytes) => WriteBuffer(STRING_TYPE, bytes);
        case StartObject =>
        case StartArray =>
        case EndObject(count) => EndObject(count);
        case EndArray(count) => EndArray(count);
      }
    }
  }

  // ---------------------------------------------------------------------------
  // The code of a value
  // ---------------------------------------------------------------------------

  function Code(v: Value, image: int -> Text): Word
    requires DoubleFree(v)
    decreases v
  {
    match v
    case Null => Buffer(NULL_TYPE, [])
    case Bool(b) => Buffer(if b then TRUE_TYPE else FALSE_TYPE, [])
    case Integer(n) => Buffer(NUMBER_TYPE, NumberBytes(n, image))
    case String(bytes) => Buffer(STRING_TYPE, bytes)
    case Array(elements) => FoldElements(Empty(ARRAY_TYPE), ElementCodes(elements, image))
    case Object(members) => FoldMembers(Empty(OBJECT_TYPE), MemberCodes(members, image))
  }

  function ElementCodes(elements: seq<Value>, image: int -> Text): (codes: seq<Word>)
    requires forall i :: 0 <= i < |elements| ==> DoubleFree(elements[i])
    ensures |codes| == |elements|
    decreases elements
  {
    if elements == [] then [] else [Code(elements[0], image)] + ElementCodes(elements[1..], image)
  }

  function MemberCodes(members: seq<Member>, image: int -> Text): (codes: seq<Word>)
    requires forall i :: 0 <= i < |members| ==> DoubleFree(members[i].value)
    ensures |codes| == 2 * |members| && |codes| % 2 == 0
    decreases members
  {
    if members == [] then []
    else [Buffer(STRING_TYPE, members[0].name), Code(members[0].value, image)] + MemberCodes(members[1..], image)
  }

  lemma {:induction false} RunConcat(stack: seq<Word>, a: seq<Event>, b: seq<Event>, image: int -> Text)
    requires Runs(stack, a, image) && Runs(Run(stack, a, image), b, image)
    ensures Runs(stack, a + b, image) && Run(stack, a + b, image) == Run(Run(stack, a, image), b, image)
    decreases |a|
  {
    hide Step;
    if a == [] {
      assert a + b == b;
    } else {
      assert (a + b)[0] == a[0] && (a + b)[1..] == a[1..] + b;
      RunConcat(Step(stack, a[0], image), a[1..], b, image);
    }
  }

  lemma RunOne(stack: seq<Word>, e: Event, image: int -> Text)
    requires Taken(e) <= |stack| && !e.Double?
    ensures Runs(stack, [e], image) && Run(stack, [e], image) == Step(stack, e, image)
  {
    hide Step;
    assert [e][1..] == [];
  }

  lemma RunNothing(stack: seq<Word>, image: int -> Text)
    ensures Runs(stack, [], image) && Run(stack, [], image) == stack
  {}

  /** Whatever is on the stack, the events of a value push exactly its code. */
  lemma {:induction false} OneCode(stack: seq<Word>, v: Value, image: int -> Text)
    requires DoubleFree(v)
    ensures Runs(stack, EventsOf(v), image) && Run(stack, EventsOf(v), image) == stack + [Code(v, image)]
    decreases v, 1
  {
    hide Buffer, FoldMembers, FoldElements, Hash, Empty, Runs, Run;
    match v {
      case Array(elements) =>
        var inner := ElementEvents(elements);
        ElementsPush(stack, elements, image);
        RunOne(stack, StartArray, image);
        RunConcat(stack, [StartArray], inner, image);
        RunOne(stack + ElementCodes(elements, image), EndArray(|elements|), image);
        RunConcat(stack, [StartArray] + inner, [EndArray(|elements|)], image);
      case Object(members) =>
        var inner := MemberEvents(members);
        MembersPush(stack, members, image);
        RunOne(stack, StartObject, image);
        RunConcat(stack, [StartObject], inner, image);
        RunOne(stack + MemberCodes(members, image), EndObject(|members|), image);
        RunConcat(stack, [StartObject] + inner, [EndObject(|members|)], image);
      case Null => RunOne(stack, Event.Null, image);
      case Bool(b) => RunOne(stack, Event.Bool(b), image);
      case Integer(n) => RunOne(stack, Event.Integer(AcceptKind(n), n), image);
      case String(bytes) => RunOne(stack, Event.String(bytes), image);
    }
  }

  lemma {:induction false} ElementsPush(stack: seq<Word>, elements: seq<Value>, image: int -> Text)
    requires forall i :: 0 <= i < |elements| ==> DoubleFree(elements[i])
    ensures Runs(stack, ElementEvents(elements), image)
    ensures Run(stack, ElementEvents(elements), image) == stack + ElementCodes(elements, image)
    decreases elements, 0
  {
    hide Code, DoubleFree, EventsOf, Run, Runs, Step;
    RunNothing(stack, image);
    if elements == [] {
      assert stack + [] == stack;
    } else {
      var first := Code(elements[0], image);
      OneCode(stack, elements[0], image);
      ElementsPush(stack + [first], elements[1..], image);
      RunConcat(stack, EventsOf(elements[0]), ElementEvents(elements[1..]), image);
      assert (stack + [first]) + ElementCodes(elements[1..], image) == stack + ([first] + ElementCodes(elements[1..], image));
    }
  }

  lemma {:induction false} MembersPush(stack: seq<Word>, members: seq<Member>, image: int -> Text)
    requires forall i :: 0 <= i < |members| ==> DoubleFree(members[i].value)
    ensures Runs(stack, MemberEvents(members), image)
    ensures Run(stack, MemberEvents(members), image) == stack + MemberCodes(members, image)
    decreases members, 0
  {
    hide Code, DoubleFree, EventsOf, Buffer, Run, Runs;
    RunNothing(stack, image);
    if members == [] {
      assert stack + [] == stack;
    } else {
      var name, first := Buffer(STRING_TYPE, members[0].name), Code(members[0].value, image);
      var key, events, rest := Key(members[0].name), EventsOf(members[0].value), MemberEvents(members[1..]);
      RunOne(stack, key, image);
      OneCode(stack + [name], members[0].value, image);
      RunConcat(stack, [key], events, image);
      assert (stack + [name]) + [first] == stack + [name, first];
      MembersPush(stack + [name, first], members[1..], image);
      RunConcat(stack, [key] + events, rest, image);
      assert (stack + [name, first]) + MemberCodes(members[1..], image) == stack + ([name, first] + MemberCodes(members[1..], image));
    }
  }

  // ---------------------------------------------------------------------------
  // Member order
  // ---------------------------------------------------------------------------

  function Without<T>(s: seq<T>, i: nat): seq<T>
    requires i < |s|
  {
    s[..i] + s[i + 1..]
  }

  /** Equal up to the order of members, at any depth. */
  ghost predicate Similar(v: Value, w: Value)
    decreases v
  {
    if v.Array? && w.Array? then
      |v.elements| == |w.elements| && forall i :: 0 <= i < |v.elements| ==> Similar(v.elements[i], w.elements[i])
    else if v.Object? && w.Object? then SimilarMembers(v.members, w.members)
    else v == w
  }

  /** The members of one are a reordering of members similar to those of the other. */
  ghost predicate SimilarMembers(ms: seq<Member>, ns: seq<Member>)
    decreases ms
  {
    if ms == [] then ns == []
    else
      exists j :: 0 <= j < |ns| && ns[j].name == ms[0].name && Similar(ms[0].value, ns[j].value)
        && SimilarMembers(ms[1..], Without(ns, j))
  }

  lemma BitXorIs(a: bv64, b: bv64)
    ensures BitXor(a, b) == a ^ b
  {}

  lemma BitsSwap(h: bv64, x: bv64, y: bv64)
    ensures (h ^ x) ^ y == (h ^ y) ^ x
  {}

  lemma BitXorSwaps(h: bv64, x: bv64, y: bv64)
    ensures BitXor(BitXor(h, x), y) == BitXor(BitXor(h, y), x)
  {
    hide BitXor;
    BitXorIs(h, x);
    BitXorIs(h ^ x, y);
    BitXorIs(h, y);
    BitXorIs(h ^ y, x);
    BitsSwap(h, x, y);
  }

  lemma XorSwaps(h: Word, x: Word, y: Word)
    ensures Xor(Xor(h, x), y) == Xor(Xor(h, y), x)
  {
    hide BitXor;
    BitXorSwaps(h.bits, x.bits, y.bits);
  }

  predicate MembersFree(members: seq<Member>) {
    forall i :: 0 <= i < |members| ==> DoubleFree(members[i].value)
  }

  function MemberCode(m: Member, image: int -> Text): Word
    requires DoubleFree(m.value)
  {
    Hash(Buffer(STRING_TYPE, m.name), Code(m.value, image))
  }

  lemma FoldHead(h: Word, members: seq<Member>, image: int -> Text)
    requires members != [] && MembersFree(members)
    ensures FoldMembers(h, MemberCodes(members, image))
      == FoldMembers(Xor(h, MemberCode(members[0], image)), MemberCodes(members[1..], image))
  {
    hide Xor, Hash, Buffer, Code, DoubleFree;
    assert MemberCodes(members, image)[2..] == MemberCodes(members[1..], image);
  }

  lemma WithoutParts(members: seq<Member>, j: nat)
    requires j < |members| && MembersFree(members)
    ensures MembersFree(Without(members, j)) && MembersFree(members[1..])
    ensures DoubleFree(members[0].value) && DoubleFree(members[j].value)
    ensures j == 0 ==> Without(members, j) == members[1..]
    ensures j > 0 ==> Without(members, j) != [] && Without(members, j)[0] == members[0]
    ensures j > 0 ==> Without(members, j)[1..] == Without(members[1..], j - 1)
  {}

  /** Any member may be taken first. */
  lemma {:induction false} FoldAny(h: Word, members: seq<Member>, j: nat, image: int -> Text)
    requires j < |members| && MembersFree(members)
    ensures FoldMembers(h, MemberCodes(members, image))
      == FoldMembers(Xor(h, MemberCode(members[j], image)), MemberCodes(Without(members, j), image))
    decreases |members|
  {
    WithoutParts(members, j);
    hide Xor, Hash, Buffer, Code, DoubleFree, MembersFree, FoldMembers, MemberCodes, MemberCode, Without;
    FoldHead(h, members, image);
    if j > 0 {
      var x, y := MemberCode(members[0], image), MemberCode(members[j], image);
      FoldAny(Xor(h, x), members[1..], j - 1, image);
      XorSwaps(h, x, y);
      FoldHead(Xor(h, y), Without(members, j), image);
    }
  }

  /** Reordering members, at any depth, does not change the code. */
  lemma {:induction false} OrderDoesNotMatter(v: Value, w: Value, image: int -> Text)
    requires DoubleFree(v) && DoubleFree(w) && Similar(v, w)
    ensures Code(v, image) == Code(w, image)
    decreases v, 1
  {
    hide Buffer, FoldMembers, FoldElements, Hash, Empty;
    if v.Array? && w.Array? {
      ElementsAlike(v.elements, w.elements, image);
    } else if v.Object? && w.Object? {
      MembersAlike(Empty(OBJECT_TYPE), v.members, w.members, image);
    }
  }

  lemma {:induction false} ElementsAlike(vs: seq<Value>, ws: seq<Value>, image: int -> Text)
    requires |vs| == |ws| && forall i :: 0 <= i < |vs| ==> DoubleFree(vs[i]) && DoubleFree(ws[i]) && Similar(vs[i], ws[i])
    ensures ElementCodes(vs, image) == ElementCodes(ws, image)
    decreases vs, 0
  {
    hide Code, DoubleFree, Similar;
    if vs != [] {
      OrderDoesNotMatter(vs[0], ws[0], image);
      ElementsAlike(vs[1..], ws[1..], image);
    }
  }

  lemma {:induction false} MembersAlike(h: Word, ms: seq<Member>, ns: seq<Member>, image: int -> Text)
    requires MembersFree(ms) && MembersFree(ns) && SimilarMembers(ms, ns)
    ensures FoldMembers(h, MemberCodes(ms, image)) == FoldMembers(h, MemberCodes(ns, image))
    decreases ms, 0
  {
    hide Code, DoubleFree, Similar, Xor, Hash, Buffer, FoldMembers;
    if ms != [] {
      var j :| 0 <= j < |ns| && ns[j].name == ms[0].name && Similar(ms[0].value, ns[j].value)
        && SimilarMembers(ms[1..], Without(ns, j));
      OrderDoesNotMatter(ms[0].value, ns[j].value, image);
      FoldHead(h, ms, image);
      FoldAny(h, ns, j, image);
      MembersAlike(Xor(h, MemberCode(ms[0], image)), ms[1..], Without(ns, j), image);
    }
  }

  // ---------------------------------------------------------------------------
  // What the code tells apart
  // ---------------------------------------------------------------------------

  predicate IsProduct(x: bv64, y: bv64) {
    y == x * 0x0000_0100_0000_01B3
  }

  lemma TimesIs(x: bv64)
    ensures IsProduct(x, Times(x))
  {}

  /** The prime is odd, so multiplying by it loses nothing. */
  lemma ProductInjective(a: bv64, b: bv64, y: bv64)
    requires IsProduct(a, y) && IsProduct(b, y)
    ensures a == b
  {}

  lemma TimesInjective(a: bv64, b: bv64)
    requires Times(a) == Times(b)
    ensures a == b
  {
    hide Times, IsProduct;
    TimesIs(a);
    TimesIs(b);
    ProductInjective(a, b, Times(a));
  }

  lemma XorInjective(a: bv64, b: bv64, c: bv64)
    ensures BitXor(a, c) == BitXor(b, c) || BitXor(c, a) == BitXor(c, b) ==> a == b
  {}

  lemma HashIs(h: Word, d: Word)
    ensures Hash(h, d) == Word(Times(BitXor(h.bits, d.bits)))
  {
    hide Times, BitXor;
  }

  /** A round of FNV-1a is injective in either argument. */
  lemma HashInjective(g: Word, h: Word, d: Word)
    requires g != h
    ensures Hash(g, d) != Hash(h, d) && Hash(d, g) != Hash(d, h)
  {
    hide Hash, Times, BitXor;
    HashIs(g, d);
    HashIs(h, d);
    HashIs(d, g);
    HashIs(d, h);
    XorInjective(g.bits, h.bits, d.bits);
    if Hash(g, d) == Hash(h, d) {
      TimesInjective(BitXor(g.bits, d.bits), BitXor(h.bits, d.bits));
    }
    if Hash(d, g) == Hash(d, h) {
      TimesInjective(BitXor(d.bits, g.bits), BitXor(d.bits, h.bits));
    }
  }

  lemma KindsDiffer()
    ensures Word(NULL_TYPE) != Word(FALSE_TYPE) && Word(NULL_TYPE) != Word(TRUE_TYPE) && Word(FALSE_TYPE) != Word(TRUE_TYPE)
    ensures Word(OBJECT_TYPE) != Word(ARRAY_TYPE)
  {}

  lemma KindIs(kind: bv64)
    ensures Buffer(kind, []) == Hash(BASIS, Word(kind)) && Empty(kind) == Hash(Word(0), Word(kind))
  {
    hide Hash;
  }

  /** null, false and true have three codes, and {} and [] two. */
  lemma LiteralsDiffer(image: int -> Text)
    ensures Code(Value.Null, image) != Code(Value.Bool(false), image)
    ensures Code(Value.Null, image) != Code(Value.Bool(true), image)
    ensures Code(Value.Bool(false), image) != Code(Value.Bool(true), image)
    ensures Code(Value.Array([]), image) != Code(Value.Object([]), image)
  {
    hide Hash, Buffer, Empty;
    KindsDiffer();
    KindIs(NULL_TYPE);
    KindIs(FALSE_TYPE);
    KindIs(TRUE_TYPE);
    KindIs(OBJECT_TYPE);
    KindIs(ARRAY_TYPE);
    HashInjective(Word(NULL_TYPE), Word(FALSE_TYPE), BASIS);
    HashInjective(Word(NULL_TYPE), Word(TRUE_TYPE), BASIS);
    HashInjective(Word(FALSE_TYPE), Word(TRUE_TYPE), BASIS);
    HashInjective(Word(OBJECT_TYPE), Word(ARRAY_TYPE), Word(0));
  }

  lemma {:induction false} BytesInjective(g: Word, h: Word, bytes: Text)
    requires g != h
    ensures HashBytes(g, bytes) != HashBytes(h, bytes)
    decreases |bytes|
  {
    hide Hash, ByteWord;
    if bytes != [] {
      var d := ByteWord(bytes[0]);
      HashInjective(g, h, d);
      BytesInjective(Hash(g, d), Hash(h, d), bytes[1..]);
    }
  }

  lemma {:induction false} ByteReplaced(h: Word, front: Text, b: Byte, c: Byte, back: Text)
    requires b != c
    ensures HashBytes(h, front + [b] + back) != HashBytes(h, front + [c] + back)
    decreases |front|
  {
    hide Hash, ByteWord;
    if front == [] {
      assert ([b] + back)[1..] == back && ([c] + back)[1..] == back;
      assert [] + [b] + back == [b] + back && [] + [c] + back == [c] + back;
      WideBytes(b, c);
      HashInjective(ByteWord(b), ByteWord(c), h);
      BytesInjective(Hash(h, ByteWord(b)), Hash(h, ByteWord(c)), back);
    } else {
      assert (front + [b] + back)[1..] == front[1..] + [b] + back && (front + [c] + back)[1..] == front[1..] + [c] + back;
      ByteReplaced(Hash(h, ByteWord(front[0])), front[1..], b, c, back);
    }
  }

  lemma OctetInjective(a7: bool, a6: bool, a5: bool, a4: bool, a3: bool, a2: bool, a1: bool, a0: bool,
                       b7: bool, b6: bool, b5: bool, b4: bool, b3: bool, b2: bool, b1: bool, b0: bool)
    requires Octet(a7, a6, a5, a4, a3, a2, a1, a0) == Octet(b7, b6, b5, b4, b3, b2, b1, b0)
    ensures a7 == b7 && a6 == b6 && a5 == b5 && a4 == b4 && a3 == b3 && a2 == b2 && a1 == b1 && a0 == b0
  {}

  function Unit(on: bool): nat {
    if on then 1 else 0
  }

  lemma Binary(b: Byte)
    ensures b == 128 * Unit(Bit(b, 128)) + 64 * Unit(Bit(b, 64)) + 32 * Unit(Bit(b, 32)) + 16 * Unit(Bit(b, 16))
      + 8 * Unit(Bit(b, 8)) + 4 * Unit(Bit(b, 4)) + 2 * Unit(Bit(b, 2)) + Unit(Bit(b, 1))
  {
    BitIs(b, 1);
    BitIs(b, 2);
    BitIs(b, 4);
    BitIs(b, 8);
    BitIs(b, 16);
    BitIs(b, 32);
    BitIs(b, 64);
    BitIs(b, 128);
    hide Bit;
    assert b / 256 == 0;
  }

  lemma BitIs(b: Byte, weight: nat)
    requires weight > 0
    ensures b / weight == 2 * (b / (2 * weight)) + Unit(Bit(b, weight))
  {
    var q := b / weight;
    assert b == q * weight + b % weight;
    assert q == q / 2 * 2 + q % 2;
    HalfAgain(b, weight);
  }

  lemma HalfAgain(b: nat, weight: nat)
    requires weight > 0
    ensures b / (2 * weight) == b / weight / 2
  {
    var q, r := b / weight / 2, b / weight % 2;
    assert b / weight == 2 * q + r;
    assert b == (2 * q + r) * weight + b % weight;
    assert b == q * (2 * weight) + (r * weight + b % weight);
    assert 0 <= r * weight + b % weight < 2 * weight;
    QuotientIs(b, 2 * weight, q, r * weight + b % weight);
  }

  lemma QuotientIs(n: int, m: int, q: int, r: int)
    requires m > 0 && n == q * m + r && 0 <= r < m
    ensures n / m == q
  {
    var d := n / m - q;
    assert m * d == r - n % m;
    assert d > 0 ==> m * d >= m;
    assert d < 0 ==> m * d <= -m;
  }

  lemma WideBytes(b: Byte, c: Byte)
    requires b != c
    ensures ByteWord(b) != ByteWord(c)
  {
    hide Octet, Bit;
    Binary(b);
    Binary(c);
    if ByteWord(b) == ByteWord(c) {
      OctetInjective(Bit(b, 128), Bit(b, 64), Bit(b, 32), Bit(b, 16), Bit(b, 8), Bit(b, 4), Bit(b, 2), Bit(b, 1),
                     Bit(c, 128), Bit(c, 64), Bit(c, 32), Bit(c, 16), Bit(c, 8), Bit(c, 4), Bit(c, 2), Bit(c, 1));
    }
  }

  /** Strings that differ in one byte have different codes. */
  lemma ByteMatters(front: Text, b: Byte, c: Byte, back: Text, image: int -> Text)
    requires b != c
    ensures Code(Value.String(front + [b] + back), image) != Code(Value.String(front + [c] + back), image)
  {
    hide Hash, HashBytes;
    ByteReplaced(Hash(BASIS, Word(STRING_TYPE)), front, b, c, back);
  }

  lemma {:induction false} ElementsInjective(g: Word, h: Word, codes: seq<Word>)
    requires g != h
    ensures FoldElements(g, codes) != FoldElements(h, codes)
    decreases |codes|
  {
    hide Hash;
    if codes != [] {
      HashInjective(g, h, codes[0]);
      ElementsInjective(Hash(g, codes[0]), Hash(h, codes[0]), codes[1..]);
    }
  }

  predicate ElementsFree(elements: seq<Value>) {
    forall i :: 0 <= i < |elements| ==> DoubleFree(elements[i])
  }

  lemma ReplacedParts(front: seq<Value>, v: Value, back: seq<Value>)
    requires ElementsFree(front + [v] + back)
    ensures front == [] ==> (front + [v] + back)[0] == v && (front + [v] + back)[1..] == back && ElementsFree(back)
    ensures front != [] ==> (front + [v] + back)[0] == front[0] && (front + [v] + back)[1..] == front[1..] + [v] + back
    ensures front != [] ==> DoubleFree(front[0]) && ElementsFree(front[1..] + [v] + back)
  {
    hide DoubleFree;
    var all := front + [v] + back;
    assert forall i :: 0 <= i < |all[1..]| ==> all[1..][i] == all[i + 1];
    assert all[1..] == if front == [] then back else front[1..] + [v] + back;
  }

  lemma {:induction false} ElementReplaced(h: Word, front: seq<Value>, v: Value, w: Value, back: seq<Value>, image: int -> Text)
    requires ElementsFree(front + [v] + back) && ElementsFree(front + [w] + back)
    requires DoubleFree(v) && DoubleFree(w) && Code(v, image) != Code(w, image)
    ensures FoldElements(h, ElementCodes(front + [v] + back, image)) != FoldElements(h, ElementCodes(front + [w] + back, image))
    decreases |front|
  {
    ReplacedParts(front, v, back);
    ReplacedParts(front, w, back);
    hide Hash, Code, DoubleFree, FoldElements, ElementCodes;
    CodesHead(h, front + [v] + back, image);
    CodesHead(h, front + [w] + back, image);
    if front == [] {
      HashInjective(Code(v, image), Code(w, image), h);
      ElementsInjective(Hash(h, Code(v, image)), Hash(h, Code(w, image)), ElementCodes(back, image));
    } else {
      ElementReplaced(Hash(h, Code(front[0], image)), front[1..], v, w, back, image);
    }
  }

  lemma CodesHead(h: Word, elements: seq<Value>, image: int -> Text)
    requires elements != [] && ElementsFree(elements)
    ensures DoubleFree(elements[0]) && ElementsFree(elements[1..])
    ensures FoldElements(h, ElementCodes(elements, image))
      == FoldElements(Hash(h, Code(elements[0], image)), ElementCodes(elements[1..], image))
  {
    hide Hash, Code, DoubleFree;
    assert ElementCodes(elements, image)[1..] == ElementCodes(elements[1..], image);
  }

  /** Arrays that differ in one element, told apart by its code, have different codes. */
  lemma ElementMatters(front: seq<Value>, v: Value, w: Value, back: seq<Value>, image: int -> Text)
    requires DoubleFree(Value.Array(front + [v] + back)) && DoubleFree(Value.Array(front + [w] + back))
    requires DoubleFree(v) && DoubleFree(w) && Code(v, image) != Code(w, image)
    ensures Code(Value.Array(front + [v] + back), image) != Code(Value.Array(front + [w] + back), image)
  {
    assert ElementsFree(front + [v] + back) && ElementsFree(front + [w] + back);
    hide Hash, FoldElements, ElementCodes, Empty, DoubleFree;
    ElementReplaced(Empty(ARRAY_TYPE), front, v, w, back, image);
  }

  lemma {:induction false} MembersInjective(g: Word, h: Word, codes: seq<Word>)
    requires g != h && |codes| % 2 == 0
    ensures FoldMembers(g, codes) != FoldMembers(h, codes)
    decreases |codes|
  {
    hide Hash, BitXor;
    if codes != [] {
      var d := Hash(codes[0], codes[1]);
      XorInjective(g.bits, h.bits, d.bits);
      MembersInjective(Xor(g, d), Xor(h, d), codes[2..]);
    }
  }

  /** Objects that differ in the value of one member, told apart by its code, have different codes. */
  lemma MemberMatters(members: seq<Member>, j: nat, w: Value, image: int -> Text)
    requires j < |members| && MembersFree(members) && DoubleFree(w) && Code(members[j].value, image) != Code(w, image)
    ensures MembersFree(members[j := members[j].(value := w)])
    ensures Code(Value.Object(members), image) != Code(Value.Object(members[j := members[j].(value := w)]), image)
  {
    hide Code, DoubleFree, MembersFree, FoldMembers, MemberCodes, MemberCode, Xor, Empty, Without;
    var g, changed := Empty(OBJECT_TYPE), members[j := members[j].(value := w)];
    MembersChanged(members, j, w);
    OneMemberMatters(g, members[j], w, image);
    FoldMatters(g, members, changed, j, image);
    ObjectCode(members, image);
    ObjectCode(changed, image);
  }

  lemma FoldMatters(g: Word, members: seq<Member>, changed: seq<Member>, j: nat, image: int -> Text)
    requires j < |members| == |changed| && MembersFree(members) && MembersFree(changed)
    requires Without(members, j) == Without(changed, j) && MembersFree(Without(members, j))
    requires DoubleFree(members[j].value) && DoubleFree(changed[j].value)
    requires Xor(g, MemberCode(members[j], image)) != Xor(g, MemberCode(changed[j], image))
    ensures FoldMembers(g, MemberCodes(members, image)) != FoldMembers(g, MemberCodes(changed, image))
  {
    hide Code, Hash, Xor, DoubleFree, FoldMembers, MemberCode, Without;
    FoldAny(g, members, j, image);
    FoldAny(g, changed, j, image);
    MembersInjective(Xor(g, MemberCode(members[j], image)), Xor(g, MemberCode(changed[j], image)), MemberCodes(Without(members, j), image));
  }

  lemma OneMemberMatters(g: Word, m: Member, w: Value, image: int -> Text)
    requires DoubleFree(m.value) && DoubleFree(w) && Code(m.value, image) != Code(w, image)
    ensures Xor(g, MemberCode(m, image)) != Xor(g, MemberCode(m.(value := w), image))
  {
    hide Code, Hash, BitXor, DoubleFree, Buffer;
    HashInjective(Code(m.value, image), Code(w, image), Buffer(STRING_TYPE, m.name));
    XorInjective(MemberCode(m, image).bits, MemberCode(m.(value := w), image).bits, g.bits);
  }

  lemma ObjectCode(members: seq<Member>, image: int -> Text)
    requires MembersFree(members)
    ensures DoubleFree(Value.Object(members))
    ensures Code(Value.Object(members), image) == FoldMembers(Empty(OBJECT_TYPE), MemberCodes(members, image))
  {
    hide FoldMembers, MemberCodes, Empty;
  }

  lemma MembersChanged(members: seq<Member>, j: nat, w: Value)
    requires j < |members| && MembersFree(members) && DoubleFree(w)
    ensures var changed := members[j := members[j].(value := w)];
      && MembersFree(changed) && Without(changed, j) == Without(members, j) && MembersFree(Without(members, j))
      && DoubleFree(members[j].value)
  {
    hide DoubleFree;
    WithoutParts(members, j);
  }

  /** Some codes, as FNV-1a has them from the source's basis. */
  lemma KnownCodes(image: int -> Text)
    ensures Code(Value.Null, image) == Word(0x789E_9D39_8D40_976C)
    ensures Code(Value.Bool(false), image) == Word(0x789E_9E39_8D40_991F)
    ensures Code(Value.Bool(true), image) == Word(0x789E_9F39_8D40_9AD2)
    ensures Code(Value.Object([]), image) == Word(0x0000_0300_0000_0519)
    ensures Code(Value.Array([]), image) == Word(0x0000_0400_0000_06CC)
  {}

  /** The round that takes `g` to `h`. */
  predicate Rounds(g: bv64, d: bv64, h: bv64) {
    Times(BitXor(g, d)) == h
  }

  /** One byte more. */
  lemma Chain(g: bv64, b: Byte, d: bv64, h: bv64, rest: Text)
    requires ByteWord(b) == Word(d) && Rounds(g, d, h)
    ensures HashBytes(Word(g), [b] + rest) == HashBytes(Word(h), rest)
  {
    hide ByteWord, Times, BitXor;
    assert ([b] + rest)[1..] == rest;
  }

  lemma KnownBits()
    ensures !Bit(0, 128) && !Bit(0, 64) && !Bit(0, 32) && !Bit(0, 16)
      && !Bit(0, 8) && !Bit(0, 4) && !Bit(0, 2) && !Bit(0, 1)
    ensures !Bit(1, 128) && !Bit(1, 64) && !Bit(1, 32) && !Bit(1, 16)
      && !Bit(1, 8) && !Bit(1, 4) && !Bit(1, 2) && Bit(1, 1)
    ensures !Bit(0x61, 128) && Bit(0x61, 64) && Bit(0x61, 32) && !Bit(0x61, 16)
      && !Bit(0x61, 8) && !Bit(0x61, 4) && !Bit(0x61, 2) && Bit(0x61, 1)
    ensures Bit(0xF0, 128) && Bit(0xF0, 64) && Bit(0xF0, 32) && Bit(0xF0, 16)
      && !Bit(0xF0, 8) && !Bit(0xF0, 4) && !Bit(0xF0, 2) && !Bit(0xF0, 1)
    ensures !Bit(0x3F, 128) && !Bit(0x3F, 64) && Bit(0x3F, 32) && Bit(0x3F, 16)
      && Bit(0x3F, 8) && Bit(0x3F, 4) && Bit(0x3F, 2) && Bit(0x3F, 1)
  {}

  lemma KnownOctets()
    ensures Octet(false, false, false, false, false, false, false, false) == 0
    ensures Octet(false, false, false, false, false, false, false, true) == 1
    ensures Octet(false, true, true, false, false, false, false, true) == 0x61
    ensures Octet(true, true, true, true, false, false, false, false) == 0xF0
    ensures Octet(false, false, true, true, true, true, true, true) == 0x3F
  {}

  lemma KnownBytes()
    ensures ByteWord(0) == Word(0) && ByteWord(1) == Word(1) && ByteWord(0x61) == Word(0x61)
    ensures ByteWord(0xF0) == Word(0xF0) && ByteWord(0x3F) == Word(0x3F)
  {
    KnownBits();
    KnownOctets();
    hide Bit, Octet;
  }

  lemma BufferStarts(kind: bv64, h: bv64, bytes: Text)
    requires Rounds(BASIS.bits, kind, h)
    ensures Buffer(kind, bytes) == HashBytes(Word(h), bytes)
  {
    hide Times, BitXor;
  }

  lemma KnownStart()
    ensures Rounds(BASIS.bits, STRING_TYPE, 0x789E_9A39_8D40_9253) && Rounds(BASIS.bits, NUMBER_TYPE, 0x789E_9B39_8D40_9406)
    ensures Rounds(0x789E_9A39_8D40_9253, 0x61, 0x3612_41CB_04B8_6AF6)
  {}

  lemma KnownString(image: int -> Text)
    ensures Code(Value.String([0x61]), image) == Word(0x3612_41CB_04B8_6AF6)
  {
    hide Rounds, Hash, ByteWord, HashBytes, Buffer;
    KnownBytes();
    KnownStart();
    BufferStarts(STRING_TYPE, 0x789E_9A39_8D40_9253, [0x61]);
    Chain(0x789E_9A39_8D40_9253, 0x61, 0x61, 0x3612_41CB_04B8_6AF6, []);
    assert [0x61] + [] == [0x61];
    NothingHashed(Word(0x3612_41CB_04B8_6AF6));
  }

  lemma KnownRoundsLow()
    ensures Rounds(0x789E_9B39_8D40_9406, 1, 0x3615_C9CB_04BB_87E5)
    ensures Rounds(0x3615_C9CB_04BB_87E5, 0, 0xA28D_C8F9_0AA7_EA1F)
    ensures Rounds(0xA28D_C8F9_0AA7_EA1F, 0, 0xDED6_9E2D_1B52_D2AD)
    ensures Rounds(0xDED6_9E2D_1B52_D2AD, 0, 0xF981_73A5_6DBB_FBF7)
    ensures Rounds(0xF981_73A5_6DBB_FBF7, 0, 0xB2F3_7919_766D_24B5)
    ensures Rounds(0xB2F3_7919_766D_24B5, 0, 0x80DB_7B44_3B75_5F8F)
    ensures Rounds(0x80DB_7B44_3B75_5F8F, 0, 0x6A52_03F1_0871_5FFD)
    ensures Rounds(0x6A52_03F1_0871_5FFD, 0, 0x1ABC_AF91_58A6_1AE7)
  {}

  lemma KnownRoundsHigh()
    ensures Rounds(0x1ABC_AF91_58A6_1AE7, 0, 0x14B9_3AF9_A23F_B685)
    ensures Rounds(0x14B9_3AF9_A23F_B685, 0, 0x7675_BB2E_B243_23FF)
    ensures Rounds(0x7675_BB2E_B243_23FF, 0, 0x8D31_0F58_E816_2A4D)
    ensures Rounds(0x8D31_0F58_E816_2A4D, 0, 0x0087_6112_5DA9_E0D7)
    ensures Rounds(0x0087_6112_5DA9_E0D7, 0, 0x8FEA_C935_27A9_0D55)
    ensures Rounds(0x8FEA_C935_27A9_0D55, 0, 0x3501_3A52_6441_A76F)
    ensures Rounds(0x3501_3A52_6441_A76F, 0xF0, 0x52BD_B900_5B8F_D32D)
    ensures Rounds(0x52BD_B900_5B8F_D32D, 0x3F, 0x2834_6D9B_9563_A796)
  {}

  lemma KnownLiterals()
    ensures Rounds(0x0000_0400_0000_06CC, 0x789E_9D39_8D40_976C, 0x360F_FCCB_04B7_72E0)
    ensures Rounds(0x360F_FCCB_04B7_72E0, 0x789E_9E39_8D40_991F, 0x78F7_2120_7046_024D)
    ensures Rounds(0x3612_41CB_04B8_6AF6, 0x789E_9F39_8D40_9AD2, 0x724E_FA20_7200_0D2C)
    ensures BitXor(0x0000_0300_0000_0519, 0x724E_FA20_7200_0D2C) == 0x724E_F920_7200_0835
  {}

  /** The codes of an array of null and false, in that order, and of an object whose member `a` is true. */
  lemma KnownContainers(image: int -> Text)
    ensures Code(Value.Array([Value.Null, Value.Bool(false)]), image) == Word(0x78F7_2120_7046_024D)
    ensures Code(Value.Object([Member([0x61], Value.Bool(true))]), image) == Word(0x724E_F920_7200_0835)
  {
    KnownCodes(image);
    KnownString(image);
    KnownLiterals();
    hide Buffer, Times, BitXor, Empty;
    var two := [Value.Null, Value.Bool(false)];
    assert two[1..] == [Value.Bool(false)] && two[1..][1..] == [];
    assert ElementCodes(two, image) == [Word(0x789E_9D39_8D40_976C), Word(0x789E_9E39_8D40_991F)];
    assert [Word(0x789E_9D39_8D40_976C), Word(0x789E_9E39_8D40_991F)][1..] == [Word(0x789E_9E39_8D40_991F)];
    assert [Word(0x789E_9E39_8D40_991F)][1..] == [];
    var one := [Member([0x61], Value.Bool(true))];
    assert one[1..] == [];
    assert MemberCodes(one, image) == [Word(0x3612_41CB_04B8_6AF6), Word(0x789E_9F39_8D40_9AD2)];
    assert [Word(0x3612_41CB_04B8_6AF6), Word(0x789E_9F39_8D40_9AD2)][2..] == [];
  }

  /** The round of the lowest byte in memory. */
  lemma MemoryStep(g: bv64, n: nat, count: nat, d: bv64, h: bv64, rest: Text)
    requires count > 0 && ByteWord(n % 0x100) == Word(d) && Rounds(g, d, h)
    ensures HashBytes(Word(g), Memory(n, count) + rest) == HashBytes(Word(h), Memory(n / 0x100, count - 1) + rest)
  {
    hide ByteWord, Rounds, HashBytes;
    Chain(g, n % 0x100, d, h, Memory(n / 0x100, count - 1) + rest);
    assert Memory(n, count) + rest == [n % 0x100] + (Memory(n / 0x100, count - 1) + rest);
  }

  lemma LowRounds(rest: Text)
    ensures HashBytes(Word(0x789E_9B39_8D40_9406), Memory(1, 8) + rest) == HashBytes(Word(0x1ABC_AF91_58A6_1AE7), rest)
  {
    hide Rounds, HashBytes, ByteWord, Memory;
    KnownBytes();
    KnownRoundsLow();
    MemoryStep(0x789E_9B39_8D40_9406, 1, 8, 1, 0x3615_C9CB_04BB_87E5, rest);
    MemoryStep(0x3615_C9CB_04BB_87E5, 0, 7, 0, 0xA28D_C8F9_0AA7_EA1F, rest);
    MemoryStep(0xA28D_C8F9_0AA7_EA1F, 0, 6, 0, 0xDED6_9E2D_1B52_D2AD, rest);
    MemoryStep(0xDED6_9E2D_1B52_D2AD, 0, 5, 0, 0xF981_73A5_6DBB_FBF7, rest);
    MemoryStep(0xF981_73A5_6DBB_FBF7, 0, 4, 0, 0xB2F3_7919_766D_24B5, rest);
    MemoryStep(0xB2F3_7919_766D_24B5, 0, 3, 0, 0x80DB_7B44_3B75_5F8F, rest);
    MemoryStep(0x80DB_7B44_3B75_5F8F, 0, 2, 0, 0x6A52_03F1_0871_5FFD, rest);
    MemoryStep(0x6A52_03F1_0871_5FFD, 0, 1, 0, 0x1ABC_AF91_58A6_1AE7, rest);
    NoMemory(rest);
  }

  lemma NoMemory(rest: Text)
    ensures Memory(0, 0) + rest == rest
  {}

  lemma HighRounds()
    ensures HashBytes(Word(0x1ABC_AF91_58A6_1AE7), Memory(0x3FF0_0000_0000_0000, 8) + []) == HashBytes(Word(0x2834_6D9B_9563_A796), [])
  {
    hide Rounds, HashBytes, ByteWord, Memory;
    KnownBytes();
    KnownRoundsHigh();
    MemoryStep(0x1ABC_AF91_58A6_1AE7, 0x3FF0000000000000, 8, 0, 0x14B9_3AF9_A23F_B685, []);
    MemoryStep(0x14B9_3AF9_A23F_B685, 0x3FF00000000000, 7, 0, 0x7675_BB2E_B243_23FF, []);
    MemoryStep(0x7675_BB2E_B243_23FF, 0x3FF000000000, 6, 0, 0x8D31_0F58_E816_2A4D, []);
    MemoryStep(0x8D31_0F58_E816_2A4D, 0x3FF0000000, 5, 0, 0x0087_6112_5DA9_E0D7, []);
    MemoryStep(0x0087_6112_5DA9_E0D7, 0x3FF00000, 4, 0, 0x8FEA_C935_27A9_0D55, []);
    MemoryStep(0x8FEA_C935_27A9_0D55, 0x3FF000, 3, 0, 0x3501_3A52_6441_A76F, []);
    MemoryStep(0x3501_3A52_6441_A76F, 0x3FF0, 2, 0xF0, 0x52BD_B900_5B8F_D32D, []);
    MemoryStep(0x52BD_B900_5B8F_D32D, 0x3F, 1, 0x3F, 0x2834_6D9B_9563_A796, []);
    NoMemory([]);
  }

  lemma MemoryOfDouble()
    ensures Memory(0x3FF0_0000_0000_0000, 8) == [0, 0, 0, 0, 0, 0, 0xF0, 0x3F]
  {
    assert Memory(0x3F, 1) == [0x3F];
    assert Memory(0x3FF0_00, 3) == [0, 0xF0, 0x3F];
    assert Memory(0x3FF0_0000_00, 5) == [0, 0, 0, 0xF0, 0x3F];
    assert Memory(0x3FF0_0000_0000_00, 7) == [0, 0, 0, 0, 0, 0xF0, 0x3F];
  }

  /** The code of 1, whose double is 3F F0 00 00 00 00 00 00, lowest byte first in memory. */
  lemma KnownNumber(image: int -> Text)
    requires image(1) == [0, 0, 0, 0, 0, 0, 0xF0, 0x3F]
    ensures Code(Value.Integer(1), image) == Word(0x2834_6D9B_9563_A796)
  {
    hide Rounds, HashBytes, ByteWord, Memory, Buffer;
    KnownStart();
    BufferStarts(NUMBER_TYPE, 0x789E_9B39_8D40_9406, NumberBytes(1, image));
    LowRounds(image(1));
    MemoryOfDouble();
    assert image(1) + [] == image(1);
    HighRounds();
    NothingHashed(Word(0x2834_6D9B_9563_A796));
  }

  lemma NothingHashed(h: Word)
    ensures HashBytes(h, []) == h
  {}
}
