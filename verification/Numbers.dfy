/** Number literals: a specification by value, and the bounded accumulators that meet it. */
module Numbers {
  import opened Bytes
  import opened Events

  newtype int32 = x: int | -0x8000_0000 <= x < 0x8000_0000
  newtype uint32 = x: int | 0 <= x < 0x1_0000_0000
  newtype uint64 = x: int | 0 <= x < 0x1_0000_0000_0000_0000

  const INT32_LIMIT: int := 0x8000_0000
  const UINT32_LIMIT: int := 0x1_0000_0000
  const INT64_LIMIT: int := 0x8000_0000_0000_0000
  const UINT64_LIMIT: int := 0x1_0000_0000_0000_0000

  /** One tenth of the largest double, above which no further digit may be added. */
  const DOUBLE_TENTH: real := 17976931348623157.0 * Scale(291)

  function Scale(n: nat): real {
    if n == 0 then 1.0 else 10.0 * Scale(n - 1)
  }

  /** The end of the run of digits at `pos`. */
  function DigitsEnd(text: Text, pos: nat): (end: nat)
    ensures pos <= end
    ensures pos <= |text| ==> end <= |text|
    ensures !IsDigit(Peek(text, end))
    ensures forall k :: pos <= k < end ==> IsDigit(Peek(text, k))
    decreases |text| - pos
  {
    if IsDigit(Peek(text, pos)) then DigitsEnd(text, pos + 1) else pos
  }

  /** The number the digits in [lo, hi) denote. */
  function DecimalValue(text: Text, lo: nat, hi: nat): nat
    requires lo <= hi
    decreases hi
  {
    if lo == hi then 0 else 10 * DecimalValue(text, lo, hi - 1) + DigitOf(Peek(text, hi - 1))
  }

  lemma {:induction false} DecimalValueGrows(text: Text, lo: nat, mid: nat, hi: nat)
    requires lo <= mid <= hi
    ensures DecimalValue(text, lo, mid) <= DecimalValue(text, lo, hi)
    decreases hi
  {
    if mid < hi {
      DecimalValueGrows(text, lo, mid, hi - 1);
    }
  }

  function PowerOfTen(n: nat): nat {
    if n == 0 then 1 else 10 * PowerOfTen(n - 1)
  }

  lemma {:induction false} DecimalValueBound(text: Text, lo: nat, hi: nat)
    requires lo <= hi
    ensures DecimalValue(text, lo, hi) < PowerOfTen(hi - lo)
    decreases hi
  {
    if lo < hi {
      DecimalValueBound(text, lo, hi - 1);
    }
  }

  // ---------------------------------------------------------------------------
  // What a literal means
  // ---------------------------------------------------------------------------

  /** The end of `zero / ( digit1-9 *DIGIT )` at a digit. */
  function IntegerEnd(text: Text, pos: nat): (end: nat)
    requires IsDigit(Peek(text, pos))
    ensures pos < end <= |text|
  {
    if Peek(text, pos) == ZERO then pos + 1 else DigitsEnd(text, pos)
  }

  /** The narrowest event kind of the sign that holds the value. */
  function IntegerEvent(negative: bool, v: nat): Event {
    if negative then Integer(if v <= INT32_LIMIT then Int32 else Int64, -(v as int))
    else Integer(if v < UINT32_LIMIT then Uint32 else Uint64, v)
  }

  /** Whether the magnitude leaves the 64-bit range of its sign. */
  predicate Wide(negative: bool, v: nat) {
    v > (if negative then INT64_LIMIT else UINT64_LIMIT - 1)
  }

  datatype Fraction = Fraction(significand: real, taken: nat, next: nat)

  /** Fraction digits join the integer significand while it stays below 2^53. */
  function FractionInteger(text: Text, pos: nat, v: nat, digits: nat, taken: nat): (f: (nat, nat, nat, nat))
    ensures pos <= f.3
    ensures pos <= |text| ==> f.3 <= |text|
    decreases |text| - pos
  {
    if IsDigit(Peek(text, pos)) && v <= 0x1F_FFFF_FFFF_FFFF then
      var w := 10 * v + DigitOf(Peek(text, pos));
      FractionInteger(text, pos + 1, w, if w != 0 then digits + 1 else digits, taken + 1)
    else
      (v, digits, taken, pos)
  }

  /** The remaining fraction digits join the significand up to its seventeenth digit. */
  function FractionReal(text: Text, pos: nat, d: real, digits: nat, taken: nat): (f: Fraction)
    ensures pos <= f.next
    ensures pos <= |text| ==> f.next <= |text|
    decreases |text| - pos
  {
    if IsDigit(Peek(text, pos)) then
      if digits < 17 then
        var e := d * 10.0 + DigitOf(Peek(text, pos)) as real;
        FractionReal(text, pos + 1, e, if e > 0.0 then digits + 1 else digits, taken + 1)
      else
        FractionReal(text, pos + 1, d, digits, taken)
    else
      Fraction(d, taken, pos)
  }

  function FractionAt(text: Text, pos: nat, v: nat, wide: bool, digits: nat): (f: Fraction)
    ensures pos <= f.next
    ensures pos <= |text| ==> f.next <= |text|
  {
    if wide then
      FractionReal(text, pos, v as real, digits, 0)
    else
      var (w, g, taken, next) := FractionInteger(text, pos, v, digits, 0);
      FractionReal(text, next, w as real, g, taken)
  }

  /** A negative exponent saturates once it reaches 214748364. */
  function NegativeExponent(text: Text, pos: nat, e: nat): (r: (nat, nat))
    ensures pos <= r.1
    ensures pos <= |text| ==> r.1 <= |text|
    decreases |text| - pos
  {
    if IsDigit(Peek(text, pos)) then
      var f := 10 * e + DigitOf(Peek(text, pos));
      if f >= 214748364 then (f, DigitsEnd(text, pos + 1)) else NegativeExponent(text, pos + 1, f)
    else
      (e, pos)
  }

  /** A positive exponent above `max` makes the literal too big. */
  function PositiveExponent(text: Text, pos: nat, e: nat, max: nat, start: nat): (r: Scan<nat>)
    ensures r.Found? ==> pos <= r.next
    ensures r.Found? && pos <= |text| ==> r.next <= |text|
    decreases |text| - pos
  {
    if IsDigit(Peek(text, pos)) then
      var f := 10 * e + DigitOf(Peek(text, pos));
      if f > max then Failed(NumberTooBig, start) else PositiveExponent(text, pos + 1, f, max, start)
    else
      Found(e, pos)
  }

  /** The optional exponent after a significand `d` with `taken` fraction digits. */
  function ExponentAt(text: Text, pos: nat, start: nat, taken: nat): (r: Scan<int>)
    requires Peek(text, pos) == LOWER_E || Peek(text, pos) == UPPER_E
    ensures r.Found? ==> pos < r.next <= |text|
  {
    var negative := Peek(text, pos + 1) == MINUS;
    var first := if negative || Peek(text, pos + 1) == PLUS then pos + 2 else pos + 1;
    if !IsDigit(Peek(text, first)) then
      Failed(NumberMissExponent, first)
    else if negative then
      var (e, next) := NegativeExponent(text, first + 1, DigitOf(Peek(text, first)));
      Found(-(e as int), next)
    else
      PositiveExponent(text, first + 1, DigitOf(Peek(text, first)), 308 + taken, start)
  }

  /** The event once the integer and fraction parts are known. */
  function FinishNumber(text: Text, start: nat, negative: bool, v: nat, f: Fraction, double: bool): (r: Scan<Event>)
    requires start < f.next <= |text|
    ensures r.Found? ==> start < r.next <= |text| && (r.value.Integer? || r.value.Double?)
  {
    if Peek(text, f.next) == LOWER_E || Peek(text, f.next) == UPPER_E then
      match ExponentAt(text, f.next, start, f.taken)
      case Failed(code, offset) => Failed(code, offset)
      case Found(e, next) => Found(Double(negative, f.significand, e - f.taken), next)
    else if double then
      Found(Double(negative, f.significand, -(f.taken as int)), f.next)
    else
      Found(IntegerEvent(negative, v), f.next)
  }

  /** The number literal at `pos`. */
  function NumberAt(text: Text, pos: nat): (r: Scan<Event>)
    ensures r.Found? ==> pos < r.next <= |text| && (r.value.Integer? || r.value.Double?)
  {
    var negative := Peek(text, pos) == MINUS;
    var first := if negative then pos + 1 else pos;
    if !IsDigit(Peek(text, first)) then
      Failed(ValueInvalid, first)
    else
      var end := IntegerEnd(text, first);
      var v := DecimalValue(text, first, end);
      var wide := Wide(negative, v);
      if wide && DecimalValue(text, first, end - 1) as real >= DOUBLE_TENTH then
        Failed(NumberTooBig, pos)
      else
        var digits := if wide then 17 else end - first - 1;
        if Peek(text, end) != PERIOD then
          FinishNumber(text, pos, negative, v, Fraction(v as real, 0, end), wide)
        else if !IsDigit(Peek(text, end + 1)) then
          Failed(NumberMissFraction, end + 1)
        else
          FinishNumber(text, pos, negative, v, FractionAt(text, end + 1, v, wide, digits), true)
  }

  /** An integer literal is an integer event of exactly its value where 64 bits hold it, and takes the double path elsewhere. */
  lemma IntegerLiteral(text: Text, pos: nat)
    requires var first := if Peek(text, pos) == MINUS then pos + 1 else pos;
      && IsDigit(Peek(text, first))
      && Peek(text, IntegerEnd(text, first)) !in {PERIOD, LOWER_E, UPPER_E}
    ensures var negative := Peek(text, pos) == MINUS;
      var first := if negative then pos + 1 else pos;
      var end := IntegerEnd(text, first);
      var v := DecimalValue(text, first, end);
      var value := if negative then -(v as int) else v as int;
      var r := NumberAt(text, pos);
      && ((r.Found? && r.value.Integer?) <==> -INT64_LIMIT <= value < UINT64_LIMIT)
      && (r.Found? ==> r.next == end)
      && (r.Found? && r.value.Integer? ==> r.value.n == value)
      && (r.Found? && r.value.Integer? ==> (r.value.kind == Int32 <==> negative && value >= -INT32_LIMIT))
      && (r.Found? && r.value.Integer? ==> (r.value.kind == Uint32 <==> !negative && value < UINT32_LIMIT))
      && (r.Found? && r.value.Integer? ==> (r.value.kind == Int64 <==> value < -INT32_LIMIT))
      && (r.Found? && r.value.Double? ==> r.value == Double(negative, v as real, 0))
      && (r.Failed? <==> Wide(negative, v) && DecimalValue(text, first, end - 1) as real >= DOUBLE_TENTH)
  {
    hide DecimalValue, Scale, DigitsEnd;
  }

  // ---------------------------------------------------------------------------
  // The bounded accumulators
  // ---------------------------------------------------------------------------

  /** Seventeen or more digits stop the significand from growing. */
  lemma {:induction false} FractionRealSaturated(text: Text, pos: nat, d: real, m: nat, n: nat, taken: nat)
    requires m >= 17 && n >= 17
    ensures FractionReal(text, pos, d, m, taken) == FractionReal(text, pos, d, n, taken)
    decreases |text| - pos
  {
    if IsDigit(Peek(text, pos)) {
      FractionRealSaturated(text, pos + 1, d, m, n, taken);
    }
  }

  /** A value above 2^56 has more than seventeen digits. */
  lemma WideHasManyDigits(text: Text, lo: nat, hi: nat)
    requires lo <= hi && DecimalValue(text, lo, hi) >= 0x0CCC_CCCC_CCCC_CCCC
    ensures hi - lo >= 18
  {
    DecimalValueBound(text, lo, hi);
    PowerSeventeen();
    if hi - lo < 18 {
      PowerGrows(hi - lo, 17);
    }
  }

  lemma PowerSeventeen()
    ensures PowerOfTen(17) == 100000000000000000
  {
    assert PowerOfTen(4) == 10000;
    assert PowerOfTen(8) == 100000000;
    assert PowerOfTen(12) == 1000000000000;
    assert PowerOfTen(16) == 10000000000000000;
  }

  lemma {:induction false} PowerGrows(m: nat, n: nat)
    requires m <= n
    ensures PowerOfTen(m) <= PowerOfTen(n)
  {
    if m < n {
      PowerGrows(m, n - 1);
    }
  }

  /** Reads digits into 32 bits until the next one would pass `10 * tenth + last`. */
  method Accumulate32(text: Text, start: nat, tenth: uint32, last: Byte)
    returns (i: uint32, pos: nat, full: bool)
    requires IsDigit(Peek(text, start)) && Peek(text, start) != ZERO
    requires IsDigit(last) && tenth > 0 && 10 * tenth as int + DigitOf(last) < UINT32_LIMIT
    ensures start < pos <= DigitsEnd(text, start)
    ensures DigitsEnd(text, pos) == DigitsEnd(text, start)
    ensures i as int == DecimalValue(text, start, pos) <= 10 * tenth as int + DigitOf(last)
    ensures full ==> IsDigit(Peek(text, pos)) && 10 * i as int + DigitOf(Peek(text, pos)) > 10 * tenth as int + DigitOf(last)
    ensures !full ==> pos == DigitsEnd(text, start)
  {
    assert DecimalValue(text, start, start + 1) == DigitOf(Peek(text, start));
    i, pos, full := DigitOf(Peek(text, start)) as uint32, start + 1, false;
    while IsDigit(Peek(text, pos))
      invariant start < pos <= DigitsEnd(text, start)
      invariant DigitsEnd(text, pos) == DigitsEnd(text, start)
      invariant i as int == DecimalValue(text, start, pos)
      invariant i as int <= 10 * tenth as int + DigitOf(last)
      decreases |text| - pos
    {
      if i >= tenth {
        if i != tenth || Peek(text, pos) > last {
          full := true;
          break;
        }
      }
      i, pos := i * 10 + DigitOf(Peek(text, pos)) as uint32, pos + 1;
    }
  }

  /** The 64-bit continuation of `Accumulate32`. */
  method Accumulate64(text: Text, start: nat, from: nat, init: uint64, tenth: uint64, last: Byte)
    returns (i: uint64, pos: nat, full: bool)
    requires start < from <= DigitsEnd(text, start) == DigitsEnd(text, from)
    requires init as int == DecimalValue(text, start, from) <= 10 * tenth as int + DigitOf(last)
    requires IsDigit(last) && tenth > 0 && 10 * tenth as int + DigitOf(last) < UINT64_LIMIT
    ensures from <= pos <= DigitsEnd(text, start)
    ensures DigitsEnd(text, pos) == DigitsEnd(text, start)
    ensures i as int == DecimalValue(text, start, pos) <= 10 * tenth as int + DigitOf(last)
    ensures full ==> IsDigit(Peek(text, pos)) && 10 * i as int + DigitOf(Peek(text, pos)) > 10 * tenth as int + DigitOf(last)
    ensures !full ==> pos == DigitsEnd(text, start)
  {
    i, pos, full := init, from, false;
    while IsDigit(Peek(text, pos))
      invariant from <= pos <= DigitsEnd(text, start)
      invariant DigitsEnd(text, pos) == DigitsEnd(text, start)
      invariant i as int == DecimalValue(text, start, pos) <= 10 * tenth as int + DigitOf(last)
      decreases |text| - pos
    {
      if i >= tenth {
        if i != tenth || Peek(text, pos) > last {
          full := true;
          break;
        }
      }
      i, pos := i * 10 + DigitOf(Peek(text, pos)) as uint64, pos + 1;
    }
  }

  /** What ParseNumber keeps of the integer part: `v` when narrow, `d` when wide. */
  datatype IntegerPart = IntegerPart(v: uint64, d: real, use64: bool, wide: bool, digits: nat, end: nat)

  /** Overflowing the 32-bit accumulator decides the event kind. */
  predicate KindAgrees(negative: bool, part: IntegerPart) {
    part.use64 <==> part.v as int >= (if negative then INT32_LIMIT + 1 else UINT32_LIMIT)
  }

  predicate IsIntegerPart(text: Text, first: nat, negative: bool, part: IntegerPart)
    requires IsDigit(Peek(text, first))
  {
    && part.end == IntegerEnd(text, first)
    && var v := DecimalValue(text, first, part.end);
    && part.wide == Wide(negative, v)
    && (if part.wide then part.d == v as real && part.digits >= 17
        else part.v as int == v && part.digits == part.end - first - 1 && KindAgrees(negative, part))
  }

  /** The digits a double absorbs after the 64-bit accumulator is full. */
  method AccumulateReal(text: Text, start: nat, from: nat, init: uint64) returns (d: real, pos: nat, tooBig: bool)
    requires start < from <= DigitsEnd(text, start) == DigitsEnd(text, from)
    requires init as int == DecimalValue(text, start, from)
    requires IsDigit(Peek(text, from))
    ensures !tooBig ==> pos == DigitsEnd(text, start) && d == DecimalValue(text, start, pos) as real
    ensures tooBig <==> DecimalValue(text, start, DigitsEnd(text, start) - 1) as real >= DOUBLE_TENTH
  {
    d, pos, tooBig := init as real, from, false;
    while IsDigit(Peek(text, pos))
      invariant from <= pos <= DigitsEnd(text, start) == DigitsEnd(text, pos)
      invariant d == DecimalValue(text, start, pos) as real
      invariant pos > from ==> DecimalValue(text, start, pos - 1) as real < DOUBLE_TENTH
      decreases |text| - pos
    {
      if d >= DOUBLE_TENTH {
        DecimalValueGrows(text, start, pos, DigitsEnd(text, start) - 1);
        tooBig := true;
        return;
      }
      d, pos := d * 10.0 + DigitOf(Peek(text, pos)) as real, pos + 1;
    }
  }

  lemma FirstDigit(text: Text, pos: nat)
    requires IsDigit(Peek(text, pos))
    ensures DecimalValue(text, pos, pos + 1) == DigitOf(Peek(text, pos))
    ensures DigitsEnd(text, pos) == DigitsEnd(text, pos + 1)
  {
    assert DecimalValue(text, pos, pos) == 0;
  }

  /** One more digit. */
  lemma NextDigit(text: Text, lo: nat, pos: nat)
    requires lo <= pos
    ensures DecimalValue(text, lo, pos + 1) == 10 * DecimalValue(text, lo, pos) + DigitOf(Peek(text, pos))
  {}

  /** The integer part of a literal: narrow, then wide, then double accumulation. */
  method ParseInteger(text: Text, start: nat, first: nat, negative: bool) returns (r: Scan<IntegerPart>)
    requires IsDigit(Peek(text, first))
    ensures r.Found? ==> IsIntegerPart(text, first, negative, r.value) && r.next == r.value.end
    ensures r.Failed? ==> r == Failed(NumberTooBig, start)
    ensures var end := IntegerEnd(text, first);
      r.Failed? <==> Wide(negative, DecimalValue(text, first, end)) && DecimalValue(text, first, end - 1) as real >= DOUBLE_TENTH
  {
    hide DecimalValue, DigitsEnd, Scale;
    FirstDigit(text, first);
    if Peek(text, first) == ZERO {
      return Found(IntegerPart(0, 0.0, false, false, 0, first + 1), first + 1);
    }
    var end := DigitsEnd(text, first);
    var i, pos, use64 := Accumulate32(text, first,
                                      if negative then 214748364 else 429496729,
                                      if negative then 0x38 else 0x35);
    if !use64 {
      return Found(IntegerPart(i as uint64, 0.0, false, false, pos - first - 1, pos), pos);
    }
    NextDigit(text, first, pos);
    DecimalValueGrows(text, first, pos + 1, end);
    var i64, pos64, useDouble := Accumulate64(text, first, pos, i as uint64,
                                              if negative then 0x0CCC_CCCC_CCCC_CCCC else 0x1999_9999_9999_9999,
                                              if negative then 0x38 else 0x35);
    if !useDouble {
      return Found(IntegerPart(i64, 0.0, true, false, pos64 - first - 1, pos64), pos64);
    }
    NextDigit(text, first, pos64);
    DecimalValueGrows(text, first, pos64 + 1, end);
    WideHasManyDigits(text, first, pos64);
    var d, endReal, tooBig := AccumulateReal(text, first, pos64, i64);
    if tooBig {
      return Failed(NumberTooBig, start);
    }
    return Found(IntegerPart(i64, d, true, true, pos64 - first - 1, endReal), endReal);
  }

  /** The digits after the decimal point. */
  method ParseFraction(text: Text, start: nat, ghost first: nat, ghost negative: bool, part: IntegerPart) returns (f: Fraction)
    requires IsDigit(Peek(text, first)) && IsIntegerPart(text, first, negative, part)
    ensures var v := DecimalValue(text, first, part.end);
      f == FractionAt(text, start, v, part.wide, if part.wide then 17 else part.digits)
  {
    var pos, d, digits, taken := start, part.d, part.digits, 0;
    if !part.wide {
      var i64 := part.v;
      while IsDigit(Peek(text, pos)) && i64 <= 0x1F_FFFF_FFFF_FFFF
        invariant FractionInteger(text, start, part.v as nat, part.digits, 0) == FractionInteger(text, pos, i64 as nat, digits, taken)
        decreases |text| - pos
      {
        i64 := i64 * 10 + DigitOf(Peek(text, pos)) as uint64;
        if i64 != 0 {
          digits := digits + 1;
        }
        pos, taken := pos + 1, taken + 1;
      }
      d := i64 as real;
    } else {
      FractionRealSaturated(text, start, d, digits, 17, 0);
    }
    ghost var whole := FractionReal(text, pos, d, digits, taken);
    while IsDigit(Peek(text, pos))
      invariant whole == FractionReal(text, pos, d, digits, taken)
      decreases |text| - pos
    {
      if digits < 17 {
        d := d * 10.0 + DigitOf(Peek(text, pos)) as real;
        taken := taken + 1;
        if d > 0.0 {
          digits := digits + 1;
        }
      }
      pos := pos + 1;
    }
    f := Fraction(d, taken, pos);
  }

  /** The exponent. The accumulator of a negative one is an int32, so the conversions prove that it never overflows. */
  method ParseExponent(text: Text, pos: nat, start: nat, taken: nat) returns (r: Scan<int>)
    requires Peek(text, pos) == LOWER_E || Peek(text, pos) == UPPER_E
    ensures r == ExponentAt(text, pos, start, taken)
    ensures r.Found? ==> -INT32_LIMIT < r.value <= 308 + taken
  {
    var negative := Peek(text, pos + 1) == MINUS;
    var cur := if negative || Peek(text, pos + 1) == PLUS then pos + 2 else pos + 1;
    if !IsDigit(Peek(text, cur)) {
      return Failed(NumberMissExponent, cur);
    }
    var e: nat := DigitOf(Peek(text, cur));
    cur := cur + 1;
    if negative {
      ghost var whole := NegativeExponent(text, cur, e);
      var exp := e as int32;
      var done := false;
      while !done && IsDigit(Peek(text, cur))
        invariant exp >= 0 && if done then whole == (exp as nat, cur) else whole == NegativeExponent(text, cur, exp as nat)
        invariant !done ==> exp < 214748364
        decreases |text| - cur, !done
      {
        exp := exp * 10 + DigitOf(Peek(text, cur)) as int32;
        cur := cur + 1;
        if exp >= 214748364 {
          ghost var rest := DigitsEnd(text, cur);
          while IsDigit(Peek(text, cur))
            invariant rest == DigitsEnd(text, cur)
            decreases |text| - cur
          {
            cur := cur + 1;
          }
          done := true;
        }
      }
      return Found(-(exp as int), cur);
    }
    ghost var whole := PositiveExponent(text, cur, e, 308 + taken, start);
    while IsDigit(Peek(text, cur))
      invariant whole == PositiveExponent(text, cur, e, 308 + taken, start) && e <= 308 + taken
      decreases |text| - cur
    {
      e := e * 10 + DigitOf(Peek(text, cur));
      cur := cur + 1;
      if e > 308 + taken {
        return Failed(NumberTooBig, start);
      }
    }
    return Found(e, cur);
  }

  /** The exponent part and the event. */
  method ParseTail(text: Text, start: nat, negative: bool, part: IntegerPart, f: Fraction, double: bool)
    returns (r: Scan<Event>)
    requires start < f.next <= |text|
    requires !double ==> KindAgrees(negative, part)
    ensures r == FinishNumber(text, start, negative, part.v as nat, f, double)
  {
    if Peek(text, f.next) == LOWER_E || Peek(text, f.next) == UPPER_E {
      var exponent := ParseExponent(text, f.next, start, f.taken);
      match exponent
      case Failed(code, offset) => r := Failed(code, offset);
      case Found(e, next) => r := Found(Double(negative, f.significand, e - f.taken), next);
    } else if double {
      r := Found(Double(negative, f.significand, -(f.taken as int)), f.next);
    } else if part.use64 {
      r := Found(if negative then Integer(Int64, -(part.v as int)) else Integer(Uint64, part.v as int), f.next);
    } else {
      r := Found(if negative then Integer(Int32, -(part.v as int)) else Integer(Uint32, part.v as int), f.next);
    }
  }

  /** ParseNumber: the accumulating scanner computes the literal's value exactly. */
  method ParseNumber(text: Text, start: nat) returns (r: Scan<Event>)
    ensures r == NumberAt(text, start)
  {
    hide DecimalValue, DigitsEnd, FractionAt, Scale, ExponentAt;
    var negative := Peek(text, start) == MINUS;
    var first := if negative then start + 1 else start;
    if !IsDigit(Peek(text, first)) {
      return Failed(ValueInvalid, first);
    }
    var integer := ParseInteger(text, start, first, negative);
    if integer.Failed? {
      return Failed(integer.code, integer.offset);
    }
    var part := integer.value;
    var f := Fraction(if part.wide then part.d else part.v as real, 0, part.end);
    if Peek(text, part.end) != PERIOD {
      DoubleForgetsInteger(text, start, negative, part.v as nat, DecimalValue(text, first, part.end), f);
      r := ParseTail(text, start, negative, part, f, part.wide);
    } else if !IsDigit(Peek(text, part.end + 1)) {
      r := Failed(NumberMissFraction, part.end + 1);
    } else {
      f := ParseFraction(text, part.end + 1, first, negative, part);
      DoubleForgetsInteger(text, start, negative, part.v as nat, DecimalValue(text, first, part.end), f);
      r := ParseTail(text, start, negative, part, f, true);
    }
  }

  lemma DoubleForgetsInteger(text: Text, start: nat, negative: bool, v: nat, w: nat, f: Fraction)
    requires start < f.next <= |text|
    ensures FinishNumber(text, start, negative, v, f, true) == FinishNumber(text, start, negative, w, f, true)
  {}
}
