/** Algorithm::CRC32: the reflected CRC with polynomial 0xEDB88320, started at zero. */
module Crc {
  type Message = seq<bv8>

  const POLY: bv32 := 0xEDB8_8320

  // The bit operations have names so that the proofs below can treat them as black boxes.

  predicate Odd(x: bv32) {
    x & 1 == 1
  }

  function Half(x: bv32): bv32 {
    x >> 1
  }

  function Mix(a: bv32, b: bv32): bv32 {
    a ^ b
  }

  /** One bit. */
  function BitStep(crc: bv32): bv32 {
    if Odd(crc) then Mix(Half(crc), POLY) else Half(crc)
  }

  function BitSteps(crc: bv32, n: nat): bv32
    decreases n
  {
    if n == 0 then crc else BitSteps(BitStep(crc), n - 1)
  }

  predicate Negative(c: bv8) {
    c & 0x80 == 0x80
  }

  function Wide(c: bv8): bv32 {
    c as bv32
  }

  function Extended(c: bv8): bv32 {
    0xFFFF_FF00 | (c as bv32)
  }

  /** A `char` widened to 32 bits: sign-extended where `char` is signed. */
  function Widened(c: bv8, signed: bool): bv32 {
    if signed && Negative(c) then Extended(c) else Wide(c)
  }

  /** The register after `message`, from register `crc`. */
  function Register(crc: bv32, message: Message, signed: bool): bv32
    decreases |message|
  {
    if message == [] then crc
    else Register(BitSteps(Mix(crc, Widened(message[0], signed)), 8), message[1..], signed)
  }

  function Complement(x: bv32): bv32 {
    !x
  }

  function Crc32(message: Message, signed: bool): bv32 {
    Complement(Register(0, message, signed))
  }

  /** The outer loop: one byte a turn. */
  method CRC32(buffer: array<bv8>, length: nat, signed: bool) returns (crc: bv32)
    requires length <= buffer.Length
    ensures crc == Crc32(buffer[..length], signed)
  {
    hide Widened, BitSteps, Mix;
    var register: bv32 := 0;
    var i := 0;
    assert buffer[0..length] == buffer[..length];
    while i < length
      invariant 0 <= i <= length
      invariant Register(register, buffer[i..length], signed) == Register(0, buffer[..length], signed)
    {
      ghost var rest := buffer[i..length];
      assert rest[0] == buffer[i] && rest[1..] == buffer[i + 1..length];
      register := EightBits(Mix(register, Widened(buffer[i], signed)));
      i := i + 1;
    }
    return !register;
  }

  /** The inner loop: one bit a turn. */
  method EightBits(crc: bv32) returns (register: bv32)
    ensures register == BitSteps(crc, 8)
  {
    hide Odd, Half, Mix;
    register := crc;
    var k := 0;
    while k < 8
      invariant 0 <= k <= 8
      invariant BitSteps(register, 8 - k) == BitSteps(crc, 8)
    {
      register := if Odd(register) then Mix(Half(register), POLY) else Half(register);
      k := k + 1;
    }
  }

  // ---------------------------------------------------------------------------
  // Bits
  // ---------------------------------------------------------------------------

  lemma OddMix(a: bv32, b: bv32)
    ensures Odd(Mix(a, b)) <==> Odd(a) != Odd(b)
  {}

  lemma HalfMix(a: bv32, b: bv32)
    ensures Half(Mix(a, b)) == Mix(Half(a), Half(b))
  {}

  lemma MixCommutes(a: bv32, b: bv32)
    ensures Mix(a, b) == Mix(b, a)
  {}

  lemma MixAssociates(a: bv32, b: bv32, c: bv32)
    ensures Mix(Mix(a, b), c) == Mix(a, Mix(b, c))
  {}

  lemma MixCancels(a: bv32, b: bv32)
    ensures Mix(Mix(a, b), b) == a
  {}

  // ---------------------------------------------------------------------------
  // Linearity
  // ---------------------------------------------------------------------------

  /** Exclusive or may be regrouped. */
  lemma Exchange(a: bv32, b: bv32, c: bv32, d: bv32)
    ensures Mix(Mix(a, b), Mix(c, d)) == Mix(Mix(a, c), Mix(b, d))
  {
    hide Mix;
    MixAssociates(a, b, Mix(c, d));
    MixAssociates(b, c, d);
    MixCommutes(b, c);
    MixAssociates(c, b, d);
    MixAssociates(a, c, Mix(b, d));
  }

  lemma BitStepLinear(a: bv32, b: bv32)
    ensures BitStep(Mix(a, b)) == Mix(BitStep(a), BitStep(b))
  {
    hide Odd, Half, Mix;
    OddMix(a, b);
    HalfMix(a, b);
    var x, y := Half(a), Half(b);
    if Odd(a) && Odd(b) {
      MixAssociates(x, POLY, Mix(y, POLY));
      MixCommutes(POLY, Mix(y, POLY));
      MixCancels(y, POLY);
    } else if Odd(a) {
      MixAssociates(x, y, POLY);
      MixCommutes(y, POLY);
      MixAssociates(x, POLY, y);
    } else if Odd(b) {
      MixAssociates(x, y, POLY);
    }
  }

  lemma {:induction false} BitStepsLinear(a: bv32, b: bv32, n: nat)
    ensures BitSteps(Mix(a, b), n) == Mix(BitSteps(a, n), BitSteps(b, n))
    decreases n
  {
    hide BitStep, Mix;
    if n > 0 {
      BitStepLinear(a, b);
      BitStepsLinear(BitStep(a), BitStep(b), n - 1);
    }
  }

  function Xor8(a: bv8, b: bv8): bv8 {
    a ^ b
  }

  lemma NegativeXor(a: bv8, b: bv8)
    ensures Negative(Xor8(a, b)) <==> Negative(a) != Negative(b)
  {}

  lemma WideXor(a: bv8, b: bv8)
    ensures Wide(Xor8(a, b)) == Mix(Wide(a), Wide(b))
  {}

  const SIGN: bv32 := 0xFFFF_FF00

  lemma ExtendedIsMix(c: bv8)
    ensures Extended(c) == Mix(Wide(c), SIGN)
  {}

  lemma WidenedLinear(a: bv8, b: bv8, signed: bool)
    ensures Widened(Xor8(a, b), signed) == Mix(Widened(a, signed), Widened(b, signed))
  {
    hide Negative, Wide, Extended, Mix, Xor8;
    var x, y := Wide(a), Wide(b);
    NegativeXor(a, b);
    WideXor(a, b);
    ExtendedIsMix(a);
    ExtendedIsMix(b);
    ExtendedIsMix(Xor8(a, b));
    MixAssociates(x, y, SIGN);
    MixAssociates(x, SIGN, Mix(y, SIGN));
    MixCommutes(SIGN, Mix(y, SIGN));
    MixCancels(y, SIGN);
    MixCommutes(y, SIGN);
    MixAssociates(x, SIGN, y);
  }

  /** Byte by byte exclusive or of two messages. */
  function Xor(a: Message, b: Message): (r: Message)
    requires |a| == |b|
    ensures |r| == |a|
  {
    seq(|a|, i requires 0 <= i < |a| => Xor8(a[i], b[i]))
  }

  /** The register is linear in the starting value and the message together. */
  lemma {:induction false} RegisterLinear(x: bv32, y: bv32, a: Message, b: Message, signed: bool)
    requires |a| == |b|
    ensures Register(Mix(x, y), Xor(a, b), signed) == Mix(Register(x, a, signed), Register(y, b, signed))
    decreases |a|
  {
    hide Widened, BitSteps, Mix, Xor8;
    if a != [] {
      assert Xor(a, b)[0] == Xor8(a[0], b[0]);
      assert Xor(a, b)[1..] == Xor(a[1..], b[1..]);
      var v, w := Widened(a[0], signed), Widened(b[0], signed);
      WidenedLinear(a[0], b[0], signed);
      Exchange(x, y, v, w);
      BitStepsLinear(Mix(x, v), Mix(y, w), 8);
      RegisterLinear(BitSteps(Mix(x, v), 8), BitSteps(Mix(y, w), 8), a[1..], b[1..], signed);
    }
  }

  lemma NotNot(x: bv32)
    ensures !Complement(x) == x
  {}

  lemma MixZero()
    ensures Mix(0, 0) == 0
  {}

  /** The CRCs of messages of equal length, before complementing, combine by exclusive or. */
  lemma CrcLinear(a: Message, b: Message, signed: bool)
    requires |a| == |b|
    ensures !Crc32(Xor(a, b), signed) == Mix(!Crc32(a, signed), !Crc32(b, signed))
  {
    hide Register, Mix, Xor, Complement;
    MixZero();
    RegisterLinear(0, 0, a, b, signed);
    NotNot(Register(0, Xor(a, b), signed));
    NotNot(Register(0, a, signed));
    NotNot(Register(0, b, signed));
  }

  // ---------------------------------------------------------------------------
  // Injectivity
  // ---------------------------------------------------------------------------

  predicate TopSet(x: bv32) {
    x & 0x8000_0000 == 0x8000_0000
  }

  function Double(x: bv32): bv32 {
    x << 1
  }

  function DoublePlusOne(x: bv32): bv32 {
    (x << 1) | 1
  }

  /** The inverse of one bit step: the top bit of POLY is set, so the top bit tells which branch was taken. */
  function BitBack(crc: bv32): bv32 {
    if TopSet(crc) then DoublePlusOne(Mix(crc, POLY)) else Double(crc)
  }

  lemma TopOfHalf(x: bv32)
    ensures !TopSet(Half(x)) && TopSet(Mix(Half(x), POLY))
  {}

  lemma DoubleOfHalf(x: bv32)
    ensures if Odd(x) then DoublePlusOne(Half(x)) == x else Double(Half(x)) == x
  {}

  lemma HalfOfDouble(x: bv32)
    ensures !TopSet(x) ==> Half(Double(x)) == x && Half(DoublePlusOne(x)) == x
    ensures !Odd(Double(x)) && Odd(DoublePlusOne(x))
  {}

  lemma TopOfMix(x: bv32)
    ensures TopSet(x) ==> !TopSet(Mix(x, POLY))
  {}

  /** Each bit step is a bijection. */
  lemma BitStepInverse(crc: bv32)
    ensures BitBack(BitStep(crc)) == crc && BitStep(BitBack(crc)) == crc
  {
    hide Odd, Half, Mix, TopSet, Double, DoublePlusOne;
    TopOfHalf(crc);
    DoubleOfHalf(crc);
    MixCancels(Half(crc), POLY);
    TopOfMix(crc);
    HalfOfDouble(crc);
    HalfOfDouble(Mix(crc, POLY));
    MixCancels(crc, POLY);
  }

  lemma {:induction false} BitStepsInjective(a: bv32, b: bv32, n: nat)
    requires a != b
    ensures BitSteps(a, n) != BitSteps(b, n)
    decreases n
  {
    hide BitStep, BitBack;
    if n > 0 {
      BitStepInverse(a);
      BitStepInverse(b);
      BitStepsInjective(BitStep(a), BitStep(b), n - 1);
    }
  }

  lemma MixInjective(a: bv32, b: bv32, c: bv32)
    requires a != b
    ensures Mix(a, c) != Mix(b, c) && Mix(c, a) != Mix(c, b)
  {
    hide Mix;
    MixCancels(a, c);
    MixCancels(b, c);
    MixCommutes(a, c);
    MixCommutes(b, c);
  }

  /** Different registers stay different over any common message. */
  lemma {:induction false} RegisterInjective(x: bv32, y: bv32, message: Message, signed: bool)
    requires x != y
    ensures Register(x, message, signed) != Register(y, message, signed)
    decreases |message|
  {
    hide Widened, BitSteps, Mix;
    if message != [] {
      var w := Widened(message[0], signed);
      MixInjective(x, y, w);
      BitStepsInjective(Mix(x, w), Mix(y, w), 8);
      RegisterInjective(BitSteps(Mix(x, w), 8), BitSteps(Mix(y, w), 8), message[1..], signed);
    }
  }

  lemma {:induction false} RegisterConcat(crc: bv32, a: Message, b: Message, signed: bool)
    ensures Register(crc, a + b, signed) == Register(Register(crc, a, signed), b, signed)
    decreases |a|
  {
    hide Widened, BitSteps, Mix;
    if a == [] {
      assert a + b == b;
    } else {
      assert (a + b)[0] == a[0] && (a + b)[1..] == a[1..] + b;
      RegisterConcat(BitSteps(Mix(crc, Widened(a[0], signed)), 8), a[1..], b, signed);
    }
  }

  lemma WidenedInjective(a: bv8, b: bv8, signed: bool)
    requires a != b
    ensures Widened(a, signed) != Widened(b, signed)
  {}

  lemma ByteThenRest(before: Message, a: bv8, after: Message, signed: bool)
    ensures Register(0, before + [a] + after, signed)
      == Register(BitSteps(Mix(Register(0, before, signed), Widened(a, signed)), 8), after, signed)
  {
    hide Widened, BitSteps, Mix;
    RegisterConcat(0, before + [a], after, signed);
    RegisterConcat(0, before, [a], signed);
    assert [a][1..] == [];
  }

  lemma ComplementInjective(a: bv32, b: bv32)
    requires a != b
    ensures Complement(a) != Complement(b)
  {
    ComplementTwice(a);
    ComplementTwice(b);
    hide Complement;
  }

  lemma ComplementTwice(a: bv32)
    ensures Complement(Complement(a)) == a
  {}

  /** Messages that differ in exactly one byte have different CRCs, whether `char` is signed or not. */
  lemma OneByteDetected(before: Message, a: bv8, b: bv8, after: Message, signed: bool)
    requires a != b
    ensures Crc32(before + [a] + after, signed) != Crc32(before + [b] + after, signed)
  {
    hide Widened, BitSteps, Mix, Register, Complement;
    var x, v, w := Register(0, before, signed), Widened(a, signed), Widened(b, signed);
    ByteThenRest(before, a, after, signed);
    ByteThenRest(before, b, after, signed);
    WidenedInjective(a, b, signed);
    MixInjective(v, w, x);
    BitStepsInjective(Mix(x, v), Mix(x, w), 8);
    RegisterInjective(BitSteps(Mix(x, v), 8), BitSteps(Mix(x, w), 8), after, signed);
    ComplementInjective(Register(0, before + [a] + after, signed), Register(0, before + [b] + after, signed));
  }

  // ---------------------------------------------------------------------------
  // Bursts
  // ---------------------------------------------------------------------------

  /** Whether the lowest `n` bits are zero. */
  predicate LowZero(x: bv32, n: nat)
    decreases n
  {
    n == 0 || (!Odd(x) && LowZero(Half(x), n - 1))
  }

  function HalfTimes(x: bv32, n: nat): bv32
    decreases n
  {
    if n == 0 then x else HalfTimes(Half(x), n - 1)
  }

  /** Bits above the next `n` may be mixed in before or after `n` steps. */
  lemma {:induction false} EarlyMix(x: bv32, v: bv32, n: nat)
    requires LowZero(v, n)
    ensures BitSteps(Mix(x, v), n) == Mix(BitSteps(x, n), HalfTimes(v, n))
    decreases n
  {
    hide Odd, Half, Mix;
    if n > 0 {
      BitStepLinear(x, v);
      assert BitStep(v) == Half(v);
      EarlyMix(BitStep(x), Half(v), n - 1);
    }
  }

  function Shifted(w: bv32): bv32 {
    w << 8
  }

  predicate TopByteZero(w: bv32) {
    w & 0xFF00_0000 == 0
  }

  lemma HalfIs(x: bv32)
    ensures Half(x) == x >> 1
  {}

  lemma OddIs(x: bv32)
    ensures Odd(x) <==> x & 1 != 0
  {}

  lemma ShiftedIs(w: bv32)
    ensures Shifted(w) == w << 8
  {}

  lemma EightShifts(w: bv32, x8: bv32, x7: bv32, x6: bv32, x5: bv32, x4: bv32, x3: bv32, x2: bv32, x1: bv32, x0: bv32)
    requires w & 0xFF00_0000 == 0 && x8 == w << 8
    requires x7 == x8 >> 1 && x6 == x7 >> 1 && x5 == x6 >> 1 && x4 == x5 >> 1
    requires x3 == x4 >> 1 && x2 == x3 >> 1 && x1 == x2 >> 1 && x0 == x1 >> 1
    ensures x0 == w
    ensures x8 & 1 == 0 && x7 & 1 == 0 && x6 & 1 == 0 && x5 & 1 == 0
    ensures x4 & 1 == 0 && x3 & 1 == 0 && x2 & 1 == 0 && x1 & 1 == 0
  {}

  /** A word moved up by a byte comes back down in eight halvings, all even. */
  lemma ShiftBack(w: bv32)
    requires TopByteZero(w)
    ensures LowZero(Shifted(w), 8) && HalfTimes(Shifted(w), 8) == w
  {
    hide Half, Odd, Shifted, TopByteZero, HalfTimes, LowZero;
    var x8 := Shifted(w);
    var x7 := Half(x8);
    var x6 := Half(x7);
    var x5 := Half(x6);
    var x4 := Half(x5);
    var x3 := Half(x4);
    var x2 := Half(x3);
    var x1 := Half(x2);
    ShiftChain(w, x8, x7, x6, x5, x4, x3, x2, x1, Half(x1));
  }

  lemma ShiftChain(w: bv32, x8: bv32, x7: bv32, x6: bv32, x5: bv32, x4: bv32, x3: bv32, x2: bv32, x1: bv32, x0: bv32)
    requires TopByteZero(w) && x8 == Shifted(w)
    requires x7 == Half(x8) && x6 == Half(x7) && x5 == Half(x6) && x4 == Half(x5)
    requires x3 == Half(x4) && x2 == Half(x3) && x1 == Half(x2) && x0 == Half(x1)
    ensures LowZero(x8, 8) && HalfTimes(x8, 8) == w
  {
    assert w & 0xFF00_0000 == 0;
    hide Half, Odd, Shifted, TopByteZero, HalfTimes, LowZero;
    ShiftedIs(w);
    HalfIs(x8);
    HalfIs(x7);
    HalfIs(x6);
    HalfIs(x5);
    HalfIs(x4);
    HalfIs(x3);
    HalfIs(x2);
    HalfIs(x1);
    EightShifts(w, x8, x7, x6, x5, x4, x3, x2, x1, x0);
    OddIs(x8);
    OddIs(x7);
    OddIs(x6);
    OddIs(x5);
    OddIs(x4);
    OddIs(x3);
    OddIs(x2);
    OddIs(x1);
    Chain(x0, x1, x2, x3, x4, x5, x6, x7, x8);
  }

  lemma Chain(x0: bv32, x1: bv32, x2: bv32, x3: bv32, x4: bv32, x5: bv32, x6: bv32, x7: bv32, x8: bv32)
    requires Half(x8) == x7 && Half(x7) == x6 && Half(x6) == x5 && Half(x5) == x4
    requires Half(x4) == x3 && Half(x3) == x2 && Half(x2) == x1 && Half(x1) == x0
    requires !Odd(x8) && !Odd(x7) && !Odd(x6) && !Odd(x5) && !Odd(x4) && !Odd(x3) && !Odd(x2) && !Odd(x1)
    ensures LowZero(x8, 8) && HalfTimes(x8, 8) == x0
  {
    hide Half, Odd;
    assert LowZero(x1, 1) && HalfTimes(x1, 1) == x0;
    assert LowZero(x2, 2) && HalfTimes(x2, 2) == x0;
    assert LowZero(x3, 3) && HalfTimes(x3, 3) == x0;
    assert LowZero(x4, 4) && HalfTimes(x4, 4) == x0;
    assert LowZero(x5, 5) && HalfTimes(x5, 5) == x0;
    assert LowZero(x6, 6) && HalfTimes(x6, 6) == x0;
    assert LowZero(x7, 7) && HalfTimes(x7, 7) == x0;
  }

  /** Up to four bytes as one word, the first byte lowest. */
  function Word(m: Message): bv32 {
    if m == [] then 0 else Mix(Wide(m[0]), Shifted(Word(m[1..])))
  }

  /** The bits above the lowest `n` bytes. */
  function Above(n: nat): bv32 {
    if n == 0 then 0xFFFF_FFFF else if n == 1 then 0xFFFF_FF00 else if n == 2 then 0xFFFF_0000 else if n == 3 then 0xFF00_0000 else 0
  }

  predicate Fits(w: bv32, n: nat) {
    w & Above(n) == 0
  }

  lemma FitsNext(b: bv8, w: bv32)
    ensures w & 0xFFFF_FFFF == 0 ==> ((b as bv32) ^ (w << 8)) & 0xFFFF_FF00 == 0
    ensures w & 0xFFFF_FF00 == 0 ==> ((b as bv32) ^ (w << 8)) & 0xFFFF_0000 == 0
    ensures w & 0xFFFF_0000 == 0 ==> ((b as bv32) ^ (w << 8)) & 0xFF00_0000 == 0
  {}

  lemma FitsStep(b: bv8, w: bv32, n: nat)
    requires Fits(w, n)
    ensures Fits(Mix(Wide(b), Shifted(w)), n + 1)
  {
    hide Mix, Wide, Shifted;
    if n == 0 {
      FitsOne(b, w);
    } else if n == 1 {
      FitsTwo(b, w);
    } else if n == 2 {
      FitsThree(b, w);
    }
  }

  lemma RaisedIs(b: bv8, w: bv32)
    ensures Mix(Wide(b), Shifted(w)) == (b as bv32) ^ (w << 8)
  {}

  lemma FitsNone(w: bv32)
    ensures Fits(w, 0) <==> w & 0xFFFF_FFFF == 0
  {}

  lemma FitsOneByte(w: bv32)
    ensures Fits(w, 1) <==> w & 0xFFFF_FF00 == 0
  {}

  lemma FitsTwoBytes(w: bv32)
    ensures Fits(w, 2) <==> w & 0xFFFF_0000 == 0
  {}

  lemma FitsThreeBytes(w: bv32)
    ensures Fits(w, 3) <==> w & 0xFF00_0000 == 0
  {}

  lemma FitsOne(b: bv8, w: bv32)
    requires Fits(w, 0)
    ensures Fits(Mix(Wide(b), Shifted(w)), 1)
  {
    hide Mix, Wide, Shifted, Fits;
    RaisedIs(b, w);
    FitsNone(w);
    FitsOneByte(Mix(Wide(b), Shifted(w)));
    FitsNext(b, w);
  }

  lemma FitsTwo(b: bv8, w: bv32)
    requires Fits(w, 1)
    ensures Fits(Mix(Wide(b), Shifted(w)), 2)
  {
    hide Mix, Wide, Shifted, Fits;
    RaisedIs(b, w);
    FitsOneByte(w);
    FitsTwoBytes(Mix(Wide(b), Shifted(w)));
    FitsNext(b, w);
  }

  lemma FitsThree(b: bv8, w: bv32)
    requires Fits(w, 2)
    ensures Fits(Mix(Wide(b), Shifted(w)), 3)
  {
    hide Mix, Wide, Shifted, Fits;
    RaisedIs(b, w);
    FitsTwoBytes(w);
    FitsThreeBytes(Mix(Wide(b), Shifted(w)));
    FitsNext(b, w);
  }

  lemma {:induction false} WordFits(m: Message)
    ensures Fits(Word(m), |m|)
  {
    hide Mix, Wide, Shifted, Fits;
    if m == [] {
      FitsZero();
    } else {
      WordFits(m[1..]);
      FitsStep(m[0], Word(m[1..]), |m| - 1);
    }
  }

  lemma FitsZero()
    ensures Fits(0, 0)
  {}

  lemma MasksNest(w: bv32)
    ensures w & 0xFFFF_FFFF == 0 || w & 0xFFFF_FF00 == 0 || w & 0xFFFF_0000 == 0 ==> w & 0xFF00_0000 == 0
  {}

  lemma ThreeBytes(w: bv32)
    ensures Fits(w, 0) || Fits(w, 1) || Fits(w, 2) || Fits(w, 3) ==> TopByteZero(w)
  {
    hide Fits;
    FitsNone(w);
    FitsOneByte(w);
    FitsTwoBytes(w);
    FitsThreeBytes(w);
    MasksNest(w);
  }

  lemma WordTop(m: Message)
    requires |m| <= 3
    ensures TopByteZero(Word(m))
  {
    hide Word, Fits, TopByteZero;
    WordFits(m);
    ThreeBytes(Word(m));
  }

  lemma {:induction false} StepsAdd(x: bv32, m: nat, n: nat)
    ensures BitSteps(BitSteps(x, m), n) == BitSteps(x, m + n)
    decreases m
  {
    hide BitStep;
    if m > 0 {
      StepsAdd(BitStep(x), m - 1, n);
    }
  }

  /** Undoes bit steps. */
  function BitsBack(crc: bv32, n: nat): bv32
    decreases n
  {
    if n == 0 then crc else BitsBack(BitBack(crc), n - 1)
  }

  lemma {:induction false} StepsUndo(crc: bv32, n: nat)
    ensures BitSteps(BitsBack(crc, n), n) == crc
    decreases n
  {
    hide BitStep, BitBack;
    if n > 0 {
      StepsUndo(BitBack(crc), n - 1);
      StepsAdd(BitsBack(crc, n), n - 1, 1);
      BitStepInverse(crc);
      assert BitSteps(BitBack(crc), 1) == BitStep(BitBack(crc));
    }
  }

  /** The eight steps of one byte, undone. */
  function Back(w: bv32): bv32 {
    BitsBack(w, 8)
  }

  /** What eight steps take to `w` is `Back(w)`. */
  lemma BackIs(v: bv32, w: bv32)
    requires BitSteps(v, 8) == w
    ensures Back(w) == v
  {
    hide BitSteps, BitsBack;
    StepsUndo(w, 8);
    if Back(w) != v {
      BitStepsInjective(Back(w), v, 8);
    }
  }

  lemma BackLinear(a: bv32, b: bv32)
    ensures Back(Mix(a, b)) == Mix(Back(a), Back(b))
  {
    hide BitSteps, BitsBack, Mix;
    StepsUndo(a, 8);
    StepsUndo(b, 8);
    BitStepsLinear(Back(a), Back(b), 8);
    BackIs(Mix(Back(a), Back(b)), Mix(a, b));
  }

  lemma BackZero(w: bv32)
    ensures Back(w) == 0 <==> w == 0
  {
    hide BitSteps, BitsBack;
    ZeroStays(8);
    BackIs(0, 0);
    StepsUndo(w, 8);
  }

  lemma BackOfLow(w: bv32)
    requires TopByteZero(w)
    ensures Back(w) == Shifted(w)
  {
    hide BitSteps, BitsBack, Mix, Shifted, TopByteZero, LowZero, HalfTimes;
    ShiftBack(w);
    EarlyMix(0, Shifted(w), 8);
    ZeroStays(8);
    MixNothing(Shifted(w));
    MixNothing(w);
    BackIs(Shifted(w), w);
  }

  lemma MixNothing(x: bv32)
    ensures Mix(0, x) == x && Mix(x, 0) == x
  {}

  /** The word that, mixed in at once, does to the register what the bytes of a message do one by one. */
  function Folded(m: Message, signed: bool): bv32 {
    if m == [] then 0 else Mix(Widened(m[0], signed), Back(Folded(m[1..], signed)))
  }

  /** A message of any length goes into the register as one word, whether or not `char` is signed. */
  lemma {:induction false} RegisterWord(x: bv32, m: Message, signed: bool)
    ensures Register(x, m, signed) == BitSteps(Mix(x, Folded(m, signed)), 8 * |m|)
    decreases |m|
  {
    hide Mix, Widened, BitSteps, BitsBack;
    if m == [] {
      NothingMixed(x);
    } else {
      var v, w := Widened(m[0], signed), Folded(m[1..], signed);
      var y := Mix(x, v);
      RegisterWord(BitSteps(y, 8), m[1..], signed);
      StepsUndo(w, 8);
      BitStepsLinear(y, Back(w), 8);
      MixAssociates(x, v, Back(w));
      StepsAdd(Mix(x, Folded(m, signed)), 8, 8 * |m[1..]|);
    }
  }

  lemma NothingMixed(x: bv32)
    ensures BitSteps(Mix(x, 0), 0) == x
  {}

  lemma {:induction false} FoldedLinear(a: Message, b: Message, signed: bool)
    requires |a| == |b|
    ensures Folded(Xor(a, b), signed) == Mix(Folded(a, signed), Folded(b, signed))
    decreases |a|
  {
    hide Mix, Widened, Xor8, Back;
    if a == [] {
      MixZero();
    } else {
      var v, w := Folded(a[1..], signed), Folded(b[1..], signed);
      assert Xor(a, b)[0] == Xor8(a[0], b[0]);
      assert Xor(a, b)[1..] == Xor(a[1..], b[1..]);
      FoldedLinear(a[1..], b[1..], signed);
      WidenedLinear(a[0], b[0], signed);
      BackLinear(v, w);
      Exchange(Widened(a[0], signed), Widened(b[0], signed), Back(v), Back(w));
    }
  }

  /** What sign extension mixes in besides the bytes. */
  function Signs(m: Message): bv32 {
    if m == [] then 0 else Mix(if Negative(m[0]) then SIGN else 0, Back(Signs(m[1..])))
  }

  /** For up to four bytes: the word of the bytes, and for signed `char` what sign extension mixes in. */
  lemma {:induction false} FoldedWord(m: Message, signed: bool)
    requires |m| <= 4
    ensures Folded(m, signed) == Mix(Word(m), if signed then Signs(m) else 0)
    decreases |m|
  {
    hide Mix, Wide, Extended, Shifted, Negative, Back, TopByteZero;
    MixZero();
    if m != [] {
      var rest := if signed then Signs(m[1..]) else 0;
      var sign: bv32 := if signed && Negative(m[0]) then SIGN else 0;
      FoldedWord(m[1..], signed);
      WordTop(m[1..]);
      BackOfLow(Word(m[1..]));
      BackLinear(Word(m[1..]), rest);
      BackZero(0);
      ExtendedIsMix(m[0]);
      MixNothing(Wide(m[0]));
      Exchange(Wide(m[0]), sign, Shifted(Word(m[1..])), Back(rest));
    }
  }

  const SIGN1: bv32 := 0xF095_70D9
  const SIGN2: bv32 := 0x9AE3_9D90
  const SIGN3: bv32 := 0x5C2E_2681

  lemma EightSteps(x8: bv32, x7: bv32, x6: bv32, x5: bv32, x4: bv32, x3: bv32, x2: bv32, x1: bv32, x0: bv32)
    requires BitStep(x8) == x7 && BitStep(x7) == x6 && BitStep(x6) == x5 && BitStep(x5) == x4
    requires BitStep(x4) == x3 && BitStep(x3) == x2 && BitStep(x2) == x1 && BitStep(x1) == x0
    ensures Back(x0) == x8
  {
    hide BitStep, Back;
    assert BitSteps(x1, 1) == x0;
    assert BitSteps(x2, 2) == x0;
    assert BitSteps(x3, 3) == x0;
    assert BitSteps(x4, 4) == x0;
    assert BitSteps(x5, 5) == x0;
    assert BitSteps(x6, 6) == x0;
    assert BitSteps(x7, 7) == x0;
    BackIs(x8, x0);
  }

  /** The sign bits, one, two and three bytes back. */
  lemma SignBack()
    ensures Back(SIGN) == SIGN1
  {
    EightSteps(SIGN1, 0x95F2_3B4C, 0x4AF9_1DA6, 0x257C_8ED3, 0xFF06_C449, 0x923B_E104, 0x491D_F082, 0x248E_F841, SIGN);
  }

  lemma Sign1Back()
    ensures Back(SIGN1) == SIGN2
  {
    EightSteps(SIGN2, 0x4D71_CEC8, 0x26B8_E764, 0x135C_73B2, 0x09AE_39D9, 0xE96F_9FCC, 0x74B7_CFE6, 0x3A5B_E7F3, SIGN1);
  }

  lemma Sign2Back()
    ensures Back(SIGN2) == SIGN3
  {
    EightSteps(SIGN3, 0xC3AF_9060, 0x61D7_C830, 0x30EB_E418, 0x1875_F20C, 0x0C3A_F906, 0x061D_7C83, 0xEEB6_3D61, SIGN2);
  }

  function OnlyIf(on: bool, w: bv32): bv32 {
    if on then w else 0
  }

  lemma BackIf(on: bool, v: bv32, w: bv32)
    requires Back(v) == w
    ensures Back(OnlyIf(on, v)) == OnlyIf(on, w)
  {
    hide Back;
    BackZero(0);
  }

  lemma SignsOfFour(a: bv8, b: bv8, c: bv8, d: bv8)
    ensures Signs([a, b, c, d]) ==
      Mix(OnlyIf(Negative(a), SIGN), Mix(OnlyIf(Negative(b), SIGN1), Mix(OnlyIf(Negative(c), SIGN2), OnlyIf(Negative(d), SIGN3))))
  {
    hide Back, Mix, Negative, OnlyIf;
    assert [a, b, c, d][1..] == [b, c, d] && [b, c, d][1..] == [c, d] && [c, d][1..] == [d] && [d][1..] == [];
    SignsHead([a, b, c, d]);
    SignsHead([b, c, d]);
    SignsHead([c, d]);
    SignsHead([d]);
    BackZero(0);
    MixNothing(OnlyIf(Negative(d), SIGN));
    SignBack();
    Sign1Back();
    Sign2Back();
    BackIf(Negative(d), SIGN, SIGN1);
    BackIf(Negative(d), SIGN1, SIGN2);
    BackIf(Negative(d), SIGN2, SIGN3);
    BackIf(Negative(c), SIGN, SIGN1);
    BackIf(Negative(c), SIGN1, SIGN2);
    BackIf(Negative(b), SIGN, SIGN1);
    var c1, d1 := OnlyIf(Negative(c), SIGN1), OnlyIf(Negative(d), SIGN2);
    BackLinear(OnlyIf(Negative(c), SIGN), OnlyIf(Negative(d), SIGN1));
    BackLinear(OnlyIf(Negative(b), SIGN), Mix(c1, d1));
    BackLinear(c1, d1);
  }

  lemma SignsHead(m: Message)
    requires m != []
    ensures Signs(m) == Mix(OnlyIf(Negative(m[0]), SIGN), Back(Signs(m[1..])))
  {}

  lemma WordOfFour(a: bv8, b: bv8, c: bv8, d: bv8)
    ensures Word([a, b, c, d]) == Mix(Wide(a), Shifted(Mix(Wide(b), Shifted(Mix(Wide(c), Shifted(Wide(d)))))))
  {
    hide Mix, Wide, Shifted;
    assert [a, b, c, d][1..] == [b, c, d] && [b, c, d][1..] == [c, d] && [c, d][1..] == [d] && [d][1..] == [];
    ShiftedIs(0);
    MixNothing(Wide(d));
    assert Word([d]) == Wide(d);
    assert Word([c, d]) == Mix(Wide(c), Shifted(Wide(d)));
    assert Word([b, c, d]) == Mix(Wide(b), Shifted(Word([c, d])));
  }

  /** The only difference of four bytes that sign extension cancels. */
  function Cancelled(): Message {
    [0xD9, 0x8F, 0x6A, 0x0F]
  }

  lemma WordBits(a: bv8, b: bv8, c: bv8, d: bv8)
    ensures Mix(Wide(a), Shifted(Mix(Wide(b), Shifted(Mix(Wide(c), Shifted(Wide(d)))))))
      == (a as bv32) ^ (((b as bv32) ^ (((c as bv32) ^ ((d as bv32) << 8)) << 8)) << 8)
  {}

  /** Sixteen patterns of signs, each with one word it would cancel. */
  lemma CancelledBits(a: bv8, b: bv8, c: bv8, d: bv8, w: bv32, s: bv32)
    requires w == (a as bv32) ^ (((b as bv32) ^ (((c as bv32) ^ ((d as bv32) << 8)) << 8)) << 8)
    requires s == (if a & 0x80 == 0x80 then 0xFFFF_FF00 else 0 as bv32) ^ ((if b & 0x80 == 0x80 then 0xF095_70D9 else 0 as bv32)
      ^ ((if c & 0x80 == 0x80 then 0x9AE3_9D90 else 0 as bv32) ^ (if d & 0x80 == 0x80 then 0x5C2E_2681 else 0 as bv32)))
    ensures w == s <==> (a == 0 && b == 0 && c == 0 && d == 0) || (a == 0xD9 && b == 0x8F && c == 0x6A && d == 0x0F)
    ensures w == 0 <==> a == 0 && b == 0 && c == 0 && d == 0
  {}

  lemma SignsBits(a: bv8, b: bv8, c: bv8, d: bv8)
    ensures Mix(OnlyIf(Negative(a), SIGN), Mix(OnlyIf(Negative(b), SIGN1), Mix(OnlyIf(Negative(c), SIGN2), OnlyIf(Negative(d), SIGN3))))
      == (if a & 0x80 == 0x80 then 0xFFFF_FF00 else 0 as bv32) ^ ((if b & 0x80 == 0x80 then 0xF095_70D9 else 0 as bv32)
      ^ ((if c & 0x80 == 0x80 then 0x9AE3_9D90 else 0 as bv32) ^ (if d & 0x80 == 0x80 then 0x5C2E_2681 else 0 as bv32)))
  {}

  lemma MixIsZero(w: bv32, s: bv32)
    ensures Mix(w, s) == 0 <==> w == s
  {}

  predicate AllZero(m: Message) {
    forall k :: 0 <= k < |m| ==> m[k] == 0
  }

  lemma KernelOfFour(m: Message, signed: bool)
    requires |m| == 4
    ensures Folded(m, signed) == 0 <==> AllZero(m) || (signed && m == Cancelled())
  {
    hide Folded, Mix, Word, Signs, Wide, Shifted, OnlyIf, Negative;
    var a, b, c, d := m[0], m[1], m[2], m[3];
    assert m == [a, b, c, d];
    FoldedWord(m, signed);
    MixIsZero(Word(m), Signs(m));
    MixNothing(Word(m));
    WordOfFour(a, b, c, d);
    SignsOfFour(a, b, c, d);
    WordBits(a, b, c, d);
    SignsBits(a, b, c, d);
    CancelledBits(a, b, c, d, Word(m), Signs(m));
  }

  /** A difference of up to four bytes goes unnoticed only if it is none, or the one that sign extension cancels. */
  lemma {:induction false} Kernel(m: Message, signed: bool)
    requires |m| <= 4
    ensures Folded(m, signed) == 0 <==> AllZero(m) || (signed && m == Cancelled())
    decreases 4 - |m|
  {
    hide Mix, Widened, Back;
    if |m| == 4 {
      KernelOfFour(m, signed);
    } else {
      var padded := [0 as bv8] + m;
      assert padded[0] == 0 && padded[1..] == m;
      Kernel(padded, signed);
      WidenedZero(signed);
      MixNothing(Back(Folded(m, signed)));
      BackZero(Folded(m, signed));
      assert forall k :: 0 <= k < |m| ==> m[k] == padded[k + 1];
      assert padded != Cancelled();
    }
  }

  lemma WidenedZero(signed: bool)
    ensures Widened(0, signed) == 0
  {}

  lemma Xor8IsZero(a: bv8, b: bv8)
    ensures Xor8(a, b) == 0 <==> a == b
  {}

  lemma NoDifference(m: Message, n: Message)
    requires |m| == |n|
    ensures AllZero(Xor(m, n)) <==> m == n
  {
    hide Xor8;
    forall k | 0 <= k < |m|
      ensures Xor(m, n)[k] == 0 <==> m[k] == n[k]
    {
      Xor8IsZero(m[k], n[k]);
    }
    if AllZero(Xor(m, n)) {
      assert forall k :: 0 <= k < |m| ==> Xor(m, n)[k] == 0;
    }
  }

  /** A message whose middle goes in as one word. */
  lemma ThroughTheMiddle(before: Message, m: Message, after: Message, signed: bool)
    ensures Register(0, before + m + after, signed)
      == Register(BitSteps(Mix(Register(0, before, signed), Folded(m, signed)), 8 * |m|), after, signed)
  {
    hide Mix, BitSteps, Register, Folded;
    RegisterConcat(0, before + m, after, signed);
    RegisterConcat(0, before, m, signed);
    RegisterWord(Register(0, before, signed), m, signed);
  }

  lemma WordsTellApart(x: bv32, v: bv32, w: bv32, n: nat, after: Message, signed: bool)
    ensures Register(BitSteps(Mix(x, v), n), after, signed) == Register(BitSteps(Mix(x, w), n), after, signed) <==> v == w
  {
    hide Mix, BitSteps, Register;
    if v != w {
      MixInjective(v, w, x);
      BitStepsInjective(Mix(x, v), Mix(x, w), n);
      RegisterInjective(BitSteps(Mix(x, v), n), BitSteps(Mix(x, w), n), after, signed);
    }
  }

  lemma SameCrc(a: Message, b: Message, signed: bool)
    ensures Crc32(a, signed) == Crc32(b, signed) <==> Register(0, a, signed) == Register(0, b, signed)
  {
    hide Register, Complement;
    var x, y := Register(0, a, signed), Register(0, b, signed);
    if x != y {
      ComplementInjective(x, y);
    }
  }

  /** Two words are equal exactly when their bytes are, or differ by what sign extension cancels. */
  lemma WordsEqual(m: Message, n: Message, signed: bool)
    requires |m| == |n| <= 4
    ensures Folded(m, signed) == Folded(n, signed) <==> m == n || (signed && Xor(m, n) == Cancelled())
  {
    hide Mix, Folded, Xor, AllZero;
    FoldedLinear(m, n, signed);
    MixIsZero(Folded(m, signed), Folded(n, signed));
    Kernel(Xor(m, n), signed);
    NoDifference(m, n);
  }

  /**
   * Messages of which only up to four neighbouring bytes differ have the same CRC exactly when `char` is signed and
   * four bytes differ by D9 8F 6A 0F. So every other burst of four bytes is detected, and every shorter one.
   */
  lemma FourByteBurst(before: Message, m: Message, n: Message, after: Message, signed: bool)
    requires |m| == |n| <= 4
    ensures Crc32(before + m + after, signed) == Crc32(before + n + after, signed)
      <==> m == n || (signed && Xor(m, n) == Cancelled())
  {
    hide Mix, BitSteps, Register, Folded, Xor, Cancelled, Crc32;
    ThroughTheMiddle(before, m, after, signed);
    ThroughTheMiddle(before, n, after, signed);
    WordsTellApart(Register(0, before, signed), Folded(m, signed), Folded(n, signed), 8 * |m|, after, signed);
    WordsEqual(m, n, signed);
    SameCrc(before + m + after, before + n + after, signed);
  }

  /** Every burst of up to three bytes is detected, and with unsigned `char` of four. */
  lemma BurstDetected(before: Message, m: Message, n: Message, after: Message, signed: bool)
    requires |m| == |n| <= if signed then 3 else 4
    requires m != n
    ensures Crc32(before + m + after, signed) != Crc32(before + n + after, signed)
  {
    FourByteBurst(before, m, n, after, signed);
  }

  /** With signed `char` four bytes that are not NUL can have the CRC of four NUL bytes. */
  lemma BurstMissed()
    ensures Crc32(Cancelled(), true) == Crc32([0, 0, 0, 0], true)
  {
    hide Crc32;
    var zeros: Message := [0, 0, 0, 0];
    assert Xor(Cancelled(), zeros) == Cancelled();
    FourByteBurst([], Cancelled(), zeros, [], true);
    assert [] + Cancelled() + [] == Cancelled() && [] + zeros + [] == zeros;
  }

  /** Because the register starts at zero, leading NUL bytes leave no trace. */
  lemma {:induction false} LeadingZerosIgnored(zeros: nat, message: Message, signed: bool)
    ensures Crc32(seq(zeros, _ => 0 as bv8) + message, signed) == Crc32(message, signed)
    decreases zeros
  {
    hide Widened, BitSteps, Mix;
    var padded := seq(zeros, _ => 0 as bv8) + message;
    if zeros == 0 {
      assert padded == message;
    } else {
      assert padded[0] == 0 && padded[1..] == seq(zeros - 1, _ => 0 as bv8) + message;
      ZeroByte(signed);
      LeadingZerosIgnored(zeros - 1, message, signed);
    }
  }

  lemma ZeroByte(signed: bool)
    ensures BitSteps(Mix(0, Widened(0, signed)), 8) == 0
  {
    assert Mix(0, Widened(0, signed)) == 0;
    ZeroStays(8);
  }

  lemma {:induction false} ZeroStays(n: nat)
    ensures BitSteps(0, n) == 0
  {
    if n > 0 {
      assert BitStep(0) == 0;
      ZeroStays(n - 1);
    }
  }
}
