/** What the digits of a number with a fraction or an exponent amount to. */
module NumberLiterals {
  import opened Bytes
  import opened Events
  import opened Numbers

  // ---------------------------------------------------------------------------
  // The fraction
  // ---------------------------------------------------------------------------

  /** The value of an integer part `v` and the `taken` digits from `lo` on, without the point. */
  function Significand(text: Text, v: nat, lo: nat, taken: nat): nat {
    v * PowerOfTen(taken) + DecimalValue(text, lo, lo + taken)
  }

  lemma OneMoreDigit(text: Text, v: nat, lo: nat, taken: nat)
    ensures Significand(text, v, lo, taken + 1) == 10 * Significand(text, v, lo, taken) + DigitOf(Peek(text, lo + taken))
  {
    assert PowerOfTen(taken + 1) == 10 * PowerOfTen(taken);
    assert DecimalValue(text, lo, lo + (taken + 1)) == 10 * DecimalValue(text, lo, lo + taken) + DigitOf(Peek(text, lo + taken));
    assert v * (10 * PowerOfTen(taken)) == 10 * (v * PowerOfTen(taken));
  }

  /** As many significant digits have been counted as the significand has, or one less. */
  predicate Counts(digits: nat, w: nat) {
    digits > 0 ==> w >= PowerOfTen(digits - 1)
  }

  lemma CountsMore(digits: nat, w: nat, d: nat)
    requires Counts(digits, w)
    ensures Counts(if 10 * w + d != 0 then digits + 1 else digits, 10 * w + d)
  {}

  /** Digits are all there is in [lo, hi). */
  predicate AllDigits(text: Text, lo: nat, hi: nat) {
    forall k :: lo <= k < hi ==> IsDigit(Peek(text, k))
  }

  lemma {:induction false} FractionIntegerMeans(text: Text, v: nat, lo: nat, taken: nat, w: nat, digits: nat)
    requires w == Significand(text, v, lo, taken) && Counts(digits, w) && AllDigits(text, lo, lo + taken)
    ensures var f := FractionInteger(text, lo + taken, w, digits, taken);
      && f.2 >= taken && f.3 == lo + f.2 && f.0 == Significand(text, v, lo, f.2) && Counts(f.1, f.0) && AllDigits(text, lo, f.3)
    decreases |text| - (lo + taken)
  {
    hide Significand, Counts, PowerOfTen;
    if IsDigit(Peek(text, lo + taken)) && w <= 0x1F_FFFF_FFFF_FFFF {
      var x := 10 * w + DigitOf(Peek(text, lo + taken));
      OneMoreDigit(text, v, lo, taken);
      CountsMore(digits, w, DigitOf(Peek(text, lo + taken)));
      assert lo + taken + 1 == lo + (taken + 1);
      FractionIntegerMeans(text, v, lo, taken + 1, x, if x != 0 then digits + 1 else digits);
    }
  }

  /** What is left out once seventeen digits are counted. */
  lemma {:induction false} FractionSkips(text: Text, pos: nat, d: real, digits: nat, taken: nat)
    requires digits >= 17
    ensures FractionReal(text, pos, d, digits, taken) == Fraction(d, taken, DigitsEnd(text, pos))
    decreases |text| - pos
  {
    if IsDigit(Peek(text, pos)) {
      FractionSkips(text, pos + 1, d, digits, taken);
    }
  }

  lemma {:induction false} FractionRealMeans(text: Text, v: nat, lo: nat, taken: nat, w: nat, digits: nat)
    requires w == Significand(text, v, lo, taken) && Counts(digits, w) && AllDigits(text, lo, lo + taken)
    ensures var f := FractionReal(text, lo + taken, w as real, digits, taken);
      && f.next == DigitsEnd(text, lo + taken) && taken <= f.taken <= f.next - lo
      && f.significand == Significand(text, v, lo, f.taken) as real
      && (f.taken < f.next - lo ==> Significand(text, v, lo, f.taken) >= PowerOfTen(16))
    decreases |text| - (lo + taken)
  {
    hide Significand, PowerOfTen;
    if digits >= 17 {
      FractionSkips(text, lo + taken, w as real, digits, taken);
      PowerGrows(16, digits - 1);
    } else if IsDigit(Peek(text, lo + taken)) {
      var x := 10 * w + DigitOf(Peek(text, lo + taken));
      OneMoreDigit(text, v, lo, taken);
      CountsMore(digits, w, DigitOf(Peek(text, lo + taken)));
      assert lo + taken + 1 == lo + (taken + 1);
      assert x as real == w as real * 10.0 + DigitOf(Peek(text, lo + taken)) as real;
      FractionRealMeans(text, v, lo, taken + 1, x, if x != 0 then digits + 1 else digits);
    }
  }

  lemma {:induction false} SameEnd(text: Text, lo: nat, hi: nat)
    requires lo <= hi && AllDigits(text, lo, hi)
    ensures DigitsEnd(text, lo) == DigitsEnd(text, hi)
    decreases hi - lo
  {
    if lo < hi {
      SameEnd(text, lo + 1, hi);
    }
  }

  /** A fraction reads exactly the digits it takes; it leaves digits out only behind seventeen significant ones. */
  lemma FractionMeans(text: Text, lo: nat, v: nat, wide: bool, digits: nat)
    requires Counts(digits, v)
    ensures var f := FractionAt(text, lo, v, wide, digits);
      && f.next == DigitsEnd(text, lo) && f.taken <= f.next - lo
      && f.significand == Significand(text, v, lo, f.taken) as real
      && (f.taken < f.next - lo ==> Significand(text, v, lo, f.taken) >= PowerOfTen(16))
  {
    hide Counts, FractionReal, FractionInteger;
    assert PowerOfTen(0) == 1 && DecimalValue(text, lo, lo) == 0;
    assert Significand(text, v, lo, 0) == v;
    if wide {
      FractionRealMeans(text, v, lo, 0, v, digits);
    } else {
      FractionIntegerMeans(text, v, lo, 0, v, digits);
      var f := FractionInteger(text, lo, v, digits, 0);
      FractionRealMeans(text, v, lo, f.2, f.0, f.1);
      SameEnd(text, lo, f.3);
    }
  }

  // ---------------------------------------------------------------------------
  // The exponent
  // ---------------------------------------------------------------------------

  lemma {:induction false} NegativeExponentMeans(text: Text, lo: nat, pos: nat, e: nat)
    requires lo <= pos && e == DecimalValue(text, lo, pos) && e < 214748364
    ensures var (x, next) := NegativeExponent(text, pos, e);
      && next == DigitsEnd(text, pos)
      && if DecimalValue(text, lo, next) < 214748364 then x == DecimalValue(text, lo, next)
         else 214748364 <= x <= DecimalValue(text, lo, next)
    decreases |text| - pos
  {
    if IsDigit(Peek(text, pos)) {
      var f := 10 * e + DigitOf(Peek(text, pos));
      assert f == DecimalValue(text, lo, pos + 1);
      if f >= 214748364 {
        DecimalValueGrows(text, lo, pos + 1, DigitsEnd(text, pos + 1));
      } else {
        NegativeExponentMeans(text, lo, pos + 1, f);
      }
    }
  }

  /** A positive exponent is too big exactly when its value is above the maximum. */
  lemma {:induction false} PositiveExponentMeans(text: Text, lo: nat, pos: nat, e: nat, max: nat, start: nat)
    requires lo <= pos && e == DecimalValue(text, lo, pos) && e <= max
    ensures var end := DigitsEnd(text, pos);
      PositiveExponent(text, pos, e, max, start) ==
      if DecimalValue(text, lo, end) > max then Failed(NumberTooBig, start) else Found(DecimalValue(text, lo, end), end)
    decreases |text| - pos
  {
    if IsDigit(Peek(text, pos)) {
      var f := 10 * e + DigitOf(Peek(text, pos));
      assert f == DecimalValue(text, lo, pos + 1);
      if f > max {
        DecimalValueGrows(text, lo, pos + 1, DigitsEnd(text, pos + 1));
      } else {
        PositiveExponentMeans(text, lo, pos + 1, f, max, start);
      }
    }
  }

  /** Where the digits of an exponent begin that follows its `e` at `pos`. */
  function ExponentDigits(text: Text, pos: nat): nat {
    if Peek(text, pos + 1) == 0x2D || Peek(text, pos + 1) == 0x2B then pos + 2 else pos + 1
  }

  /** Negative behind a minus sign, and of the digits' value; a negative one may be any from -214748364 on down instead. */
  predicate ExponentIs(text: Text, pos: nat, e: int, next: nat)
  {
    var lo := ExponentDigits(text, pos);
    lo < next &&
    var x := DecimalValue(text, lo, next);
    if Peek(text, pos + 1) != 0x2D then e == x
    else if x < 214748364 then e == -(x as int)
    else -(x as int) <= e <= -214748364
  }

  lemma ExponentMeans(text: Text, pos: nat, start: nat, taken: nat)
    requires Peek(text, pos) == LOWER_E || Peek(text, pos) == UPPER_E
    ensures var r, lo := ExponentAt(text, pos, start, taken), ExponentDigits(text, pos);
      if !IsDigit(Peek(text, lo)) then r == Failed(NumberMissExponent, lo)
      else
        var next := DigitsEnd(text, lo);
        if Peek(text, pos + 1) != 0x2D && DecimalValue(text, lo, next) > 308 + taken then r == Failed(NumberTooBig, start)
        else r.Found? && r.next == next && ExponentIs(text, pos, r.value, next)
  {
    hide NegativeExponent, PositiveExponent;
    var lo := ExponentDigits(text, pos);
    if IsDigit(Peek(text, lo)) {
      var d := DigitOf(Peek(text, lo));
      assert DecimalValue(text, lo, lo) == 0 && DecimalValue(text, lo, lo + 1) == d;
      assert DigitsEnd(text, lo) == DigitsEnd(text, lo + 1);
      if Peek(text, pos + 1) == MINUS {
        NegativeExponentMeans(text, lo, lo + 1, d);
      } else {
        PositiveExponentMeans(text, lo, lo + 1, d, 308 + taken, start);
      }
    }
  }

  // ---------------------------------------------------------------------------
  // The literal
  // ---------------------------------------------------------------------------

  lemma {:induction false} ValueAtLeast(text: Text, lo: nat, hi: nat)
    requires lo < hi && IsDigit(Peek(text, lo)) && Peek(text, lo) != ZERO
    ensures DecimalValue(text, lo, hi) >= PowerOfTen(hi - lo - 1)
    decreases hi
  {
    if lo + 1 < hi {
      ValueAtLeast(text, lo, hi - 1);
      assert PowerOfTen(hi - lo - 1) == 10 * PowerOfTen(hi - lo - 2);
    } else {
      assert DecimalValue(text, lo, lo) == 0;
    }
  }

  lemma IntegerCounts(text: Text, first: nat, negative: bool)
    requires IsDigit(Peek(text, first))
    ensures var end := IntegerEnd(text, first);
      var v := DecimalValue(text, first, end);
      Counts(if Wide(negative, v) then 17 else end - first - 1, v)
  {
    var end := IntegerEnd(text, first);
    var v := DecimalValue(text, first, end);
    PowerSixteen();
    if end - first > 1 {
      ValueAtLeast(text, first, end);
      PowerGrows(end - first - 2, end - first - 1);
    }
  }

  lemma PowerSixteen()
    ensures PowerOfTen(16) == 10000000000000000
  {
    assert PowerOfTen(4) == 10000;
    assert PowerOfTen(8) == 100000000;
    assert PowerOfTen(12) == 1000000000000;
  }

  /** Where the fraction that may follow the integer part at `end` ends. */
  function FractionEnd(text: Text, end: nat): (r: nat)
    ensures end <= r
  {
    if Peek(text, end) == 0x2E then DigitsEnd(text, end + 1) else end
  }

  /**
   * A literal that becomes a double: with the digits of its fraction up to some `taken`, written as an integer times a power
   * of ten, it is read exactly, and `taken` is all of them unless the integer has seventeen digits by then.
   */
  lemma DoubleLiteral(text: Text, pos: nat) returns (taken: nat)
    requires NumberAt(text, pos).Found? && NumberAt(text, pos).value.Double?
    ensures var r := NumberAt(text, pos);
      var first := if Peek(text, pos) == 0x2D then pos + 1 else pos;
      && IsDigit(Peek(text, first))
      && var end := IntegerEnd(text, first);
         var stop := FractionEnd(text, end);
         var s := Significand(text, DecimalValue(text, first, end), end + 1, taken);
      && (r.value.negative <==> Peek(text, pos) == 0x2D)
      && r.value.significand == s as real
      && taken <= (if stop == end then 0 else stop - end - 1)
      && (taken < (if stop == end then 0 else stop - end - 1) ==> s >= PowerOfTen(16))
      && if Peek(text, stop) == 0x65 || Peek(text, stop) == 0x45 then ExponentIs(text, stop, r.value.exponent + taken, r.next)
         else r.next == stop && r.value.exponent == -(taken as int)
  {
    hide DecimalValue, DigitsEnd, FractionAt, ExponentAt, Scale, Counts, PowerOfTen, ExponentIs, Significand, ExponentDigits;
    var negative := Peek(text, pos) == MINUS;
    var first := if negative then pos + 1 else pos;
    var end := IntegerEnd(text, first);
    var v := DecimalValue(text, first, end);
    var wide := Wide(negative, v);
    var digits := if wide then 17 else end - first - 1;
    assert Significand(text, v, end + 1, 0) == v by { NothingTaken(text, v, end + 1); }
    var f: Fraction;
    if Peek(text, end) == PERIOD {
      IntegerCounts(text, first, negative);
      f := FractionAt(text, end + 1, v, wide, digits);
      FractionMeans(text, end + 1, v, wide, digits);
    } else {
      f := Fraction(v as real, 0, end);
    }
    taken := f.taken;
    if Peek(text, f.next) == LOWER_E || Peek(text, f.next) == UPPER_E {
      ExponentMeans(text, f.next, pos, f.taken);
    }
  }

  lemma NothingTaken(text: Text, v: nat, lo: nat)
    ensures Significand(text, v, lo, 0) == v
  {
    assert PowerOfTen(0) == 1 && DecimalValue(text, lo, lo) == 0;
  }

  // ---------------------------------------------------------------------------
  // Where an integer literal becomes too big
  // ---------------------------------------------------------------------------

  lemma {:induction false} ScaleIsPower(n: nat)
    ensures Scale(n) == PowerOfTen(n) as real
  {
    if n > 0 {
      ScaleIsPower(n - 1);
    }
  }

  lemma TenthOfLargest()
    ensures DOUBLE_TENTH == (17976931348623157 * PowerOfTen(291)) as real
    ensures PowerOfTen(291) >= 100000000000000000
  {
    ScaleIsPower(291);
    PowerSeventeen();
    PowerGrows(17, 291);
    hide Scale, PowerOfTen;
  }

  /** An integer literal is too big exactly when its digits before the last denote 17976931348623157 * 10^291 or more. */
  lemma IntegerTooBig(text: Text, pos: nat)
    requires var first := if Peek(text, pos) == 0x2D then pos + 1 else pos;
      && IsDigit(Peek(text, first))
      && Peek(text, IntegerEnd(text, first)) !in {0x2E, 0x65, 0x45}
    ensures var first := if Peek(text, pos) == 0x2D then pos + 1 else pos;
      NumberAt(text, pos).Failed? <==>
        DecimalValue(text, first, IntegerEnd(text, first) - 1) >= 17976931348623157 * PowerOfTen(291)
  {
    hide NumberAt, DigitsEnd, Scale, PowerOfTen, IntegerEnd;
    var negative := Peek(text, pos) == 0x2D;
    var first := if negative then pos + 1 else pos;
    var end := IntegerEnd(text, first);
    TenthOfLargest();
    IntegerLiteral(text, pos);
    assert DecimalValue(text, first, end) == 10 * DecimalValue(text, first, end - 1) + DigitOf(Peek(text, end - 1));
    hide DecimalValue;
    var before := DecimalValue(text, first, end - 1);
    assert before >= 17976931348623157 * PowerOfTen(291) ==> before > 0x1_0000_0000_0000_0000;
    assert before as real >= DOUBLE_TENTH <==> before >= 17976931348623157 * PowerOfTen(291);
  }
}
