/** Integers in decimal: plain long division, and the table-driven printers that meet it. */
module Decimal {
  import opened Bytes
  import opened Numbers

  /** The decimal digits of a number, without leading zeros. */
  function Digits(n: nat): (d: Text)
    ensures |d| > 0
  {
    if n < 10 then [ZERO + n] else Digits(n / 10) + [ZERO + n % 10]
  }

  /** Exactly `k` digits of `n`, zero-padded. */
  function Padded(n: nat, k: nat): (d: Text)
    ensures |d| == k
    decreases k
  {
    if k == 0 then [] else Padded(n / 10, k - 1) + [ZERO + n % 10]
  }

  /** A signed number. */
  function Signed(n: int): Text {
    if n < 0 then [MINUS] + Digits(-n) else Digits(n)
  }

  lemma {:induction false} DigitsAreDigits(n: nat)
    ensures forall k :: 0 <= k < |Digits(n)| ==> IsDigit(Digits(n)[k])
    decreases n
  {
    if n >= 10 {
      DigitsAreDigits(n / 10);
    }
  }

  /** Dropping the last digit. */
  lemma ShiftDigit(b: nat, p: nat, c: nat)
    ensures b * (10 * p) + c == 10 * (b * p) + c
    ensures (b * (10 * p) + c) / 10 == b * p + c / 10
    ensures (b * (10 * p) + c) % 10 == c % 10
  {
    var x := b * p;
    assert b * (10 * p) == 10 * x;
    TenTimes(x, c);
  }

  lemma TenTimes(x: nat, c: nat)
    ensures (10 * x + c) / 10 == x + c / 10 && (10 * x + c) % 10 == c % 10
  {}

  lemma {:induction false} DigitsSplit(b: nat, c: nat, k: nat)
    requires b > 0 && c < PowerOfTen(k)
    ensures Digits(b * PowerOfTen(k) + c) == Digits(b) + Padded(c, k)
    decreases k
  {
    if k > 0 {
      var n := b * PowerOfTen(k) + c;
      ShiftDigit(b, PowerOfTen(k - 1), c);
      DigitsSplit(b, c / 10, k - 1);
      PowerPositive(k - 1);
      assert b * PowerOfTen(k - 1) >= 1;
    }
  }

  lemma {:induction false} PowerPositive(k: nat)
    ensures PowerOfTen(k) > 0
  {
    if k > 0 {
      PowerPositive(k - 1);
    }
  }

  // ---------------------------------------------------------------------------
  // Printing two digits at a time
  // ---------------------------------------------------------------------------

  /** GetDigitsLut: the digit pairs 00, 01, ..., 99. */
  function Lut(i: nat): Byte
    requires i < 200
  {
    if i % 2 == 0 then ZERO + i / 2 / 10 else ZERO + i / 2 % 10
  }

  /** The four digits of a number below 10000. */
  method Four(c: nat) returns (d: Text)
    requires c < 10000
    ensures d == Padded(c, 4)
  {
    var d1, d2 := c / 100 * 2, c % 100 * 2;
    d := [Lut(d1), Lut(d1 + 1), Lut(d2), Lut(d2 + 1)];
    assert d1 / 2 == c / 100 && d2 / 2 == c % 100;
    assert c / 10 / 10 == c / 100 && c / 10 / 10 / 10 == c / 100 / 10;
    assert c % 100 / 10 == c / 10 % 10 && c % 100 % 10 == c % 10;
  }

  lemma DigitsBelowTenThousand(v: nat)
    requires v < 10000
    ensures Digits(v) ==
      if v < 10 then [ZERO + v]
      else if v < 100 then [ZERO + v / 10, ZERO + v % 10]
      else if v < 1000 then [ZERO + v / 100, ZERO + v / 10 % 10, ZERO + v % 10]
      else [ZERO + v / 1000, ZERO + v / 100 % 10, ZERO + v / 10 % 10, ZERO + v % 10]
  {
    assert v / 10 / 10 == v / 100 && v / 100 / 10 == v / 1000;
    if v >= 10 {
      assert Digits(v) == Digits(v / 10) + [ZERO + v % 10];
    }
    if v >= 100 {
      assert Digits(v / 10) == Digits(v / 100) + [ZERO + v / 10 % 10];
    }
    if v >= 1000 {
      assert Digits(v / 100) == Digits(v / 1000) + [ZERO + v / 100 % 10];
    }
  }

  /** The two table entries of one digit pair. */
  lemma LutPair(p: nat)
    requires p < 100
    ensures Lut(p * 2) == ZERO + p / 10 && Lut(p * 2 + 1) == ZERO + p % 10
  {}

  lemma LutPairs(v: nat)
    requires v < 10000
    ensures Lut(v / 100 * 2) == ZERO + v / 1000 && Lut(v / 100 * 2 + 1) == ZERO + v / 100 % 10
    ensures Lut(v % 100 * 2) == ZERO + v / 10 % 10 && Lut(v % 100 * 2 + 1) == ZERO + v % 10
  {
    hide Lut;
    LutPair(v / 100);
    LutPair(v % 100);
    assert v % 100 / 10 == v / 10 % 10 && v % 100 % 10 == v % 10;
    assert v / 100 / 10 == v / 1000;
  }

  /** A number below 10000 without its leading zeros. */
  method TrimmedFour(value: nat) returns (d: Text)
    requires value < 10000
    ensures d == Digits(value)
  {
    hide Digits, Lut;
    var d1, d2 := value / 100 * 2, value % 100 * 2;
    DigitsBelowTenThousand(value);
    LutPairs(value);
    d := [];
    if value >= 1000 {
      d := d + [Lut(d1)];
    }
    if value >= 100 {
      d := d + [Lut(d1 + 1)];
    }
    if value >= 10 {
      d := d + [Lut(d2)];
    }
    d := d + [Lut(d2 + 1)];
  }

  /** The eight digits of a number below 10^8. */
  method Eight(v: nat) returns (d: Text)
    requires v < 100000000
    ensures d == Padded(v, 8)
  {
    hide Padded, PowerOfTen;
    var b := Four(v / 10000);
    var c := Four(v % 10000);
    d := b + c;
    PowersOfTen();
    PaddedSplit(v / 10000, v % 10000, 4, 4);
  }

  /** A number below 10^8 without its leading zeros, from its two halves. */
  method TrimmedEight(v: nat) returns (d: Text)
    requires v < 100000000
    ensures d == Digits(v)
  {
    if v < 10000 {
      d := TrimmedFour(v);
    } else {
      var b := TrimmedFour(v / 10000);
      var c := Four(v % 10000);
      d := b + c;
      PowersOfTen();
      DigitsSplit(v / 10000, v % 10000, 4);
    }
  }

  lemma {:induction false} PaddedSplit(b: nat, c: nat, j: nat, k: nat)
    requires c < PowerOfTen(k)
    ensures Padded(b * PowerOfTen(k) + c, j + k) == Padded(b, j) + Padded(c, k)
    decreases k
  {
    if k > 0 {
      var n := b * PowerOfTen(k) + c;
      ShiftDigit(b, PowerOfTen(k - 1), c);
      PaddedSplit(b, c / 10, j, k - 1);
    }
  }

  lemma PowersOfTen()
    ensures PowerOfTen(4) == 10000 && PowerOfTen(8) == 100000000 && PowerOfTen(16) == 10000000000000000
  {
    assert PowerOfTen(4) == 10000;
    assert PowerOfTen(8) == 100000000;
    assert PowerOfTen(12) == 1000000000000;
  }

  /** u32toa prints plain decimal. */
  method U32ToA(value: uint32) returns (d: Text)
    ensures d == Digits(value as nat)
    ensures |d| <= 10
  {
    hide Digits, Lut, Padded, PowerOfTen;
    PowersOfTen();
    if value < 100000000 {
      d := TrimmedEight(value as nat);
      DigitsBound(value as nat, 8);
    } else {
      var a, rest := value as nat / 100000000, value as nat % 100000000;
      var lead: Text := if a >= 10 then [Lut(a * 2), Lut(a * 2 + 1)] else [ZERO + a];
      var tail := Eight(rest);
      d := lead + tail;
      LutPair(a);
      DigitsBelowTenThousand(a);
      assert Digits(a) == lead;
      DigitsSplit(a, rest, 8);
    }
  }

  /** u64toa prints plain decimal. */
  method U64ToA(value: uint64) returns (d: Text)
    ensures d == Digits(value as nat)
    ensures |d| <= 20
  {
    hide Digits, Padded, PowerOfTen;
    PowersOfTen();
    var n := value as nat;
    if n < 100000000 {
      d := TrimmedEight(n);
      DigitsBound(n, 8);
    } else if n < 10000000000000000 {
      var lead := TrimmedEight(n / 100000000);
      var tail := Eight(n % 100000000);
      d := lead + tail;
      DigitsSplit(n / 100000000, n % 100000000, 8);
      DigitsBound(n / 100000000, 8);
    } else {
      d := U64ToAWide(n);
    }
  }

  /** u64toa from 10^16 on: up to four leading digits and two groups of eight. */
  method U64ToAWide(n: nat) returns (d: Text)
    requires 10000000000000000 <= n < UINT64_LIMIT
    ensures d == Digits(n) && |d| <= 20
  {
    hide Digits, Padded, PowerOfTen;
    PowersOfTen();
    var a, rest := n / 10000000000000000, n % 10000000000000000;
    var lead := TrimmedFour(a);
    var middle := Eight(rest / 100000000);
    var tail := Eight(rest % 100000000);
    d := lead + middle + tail;
    assert lead + (middle + tail) == d;
    assert n == a * PowerOfTen(16) + rest;
    DigitsSplit(a, rest, 16);
    PaddedSplit(rest / 100000000, rest % 100000000, 8, 8);
    DigitsBound(a, 4);
  }

  lemma {:induction false} DigitsBound(n: nat, k: nat)
    requires k > 0 && n < PowerOfTen(k)
    ensures |Digits(n)| <= k
    decreases k
  {
    if n >= 10 {
      DigitsBound(n / 10, k - 1);
    }
  }

  /** i32toa and i64toa: a sign and the magnitude. */
  method I64ToA(n: int) returns (d: Text)
    requires -INT64_LIMIT <= n < INT64_LIMIT
    ensures d == Signed(n)
    ensures |d| <= 21
  {
    if n < 0 {
      d := U64ToA((-n) as uint64);
      d := [MINUS] + d;
    } else {
      d := U64ToA(n as uint64);
    }
  }

  method I32ToA(n: int) returns (d: Text)
    requires -INT32_LIMIT <= n < INT32_LIMIT
    ensures d == Signed(n)
    ensures |d| <= 11
  {
    if n < 0 {
      d := U32ToA((-n) as uint32);
      d := [MINUS] + d;
    } else {
      d := U32ToA(n as uint32);
    }
  }
}
