/** GenericPointer: parsing and writing JSON pointers, plain (RFC 6901 section 3) and as URI fragments (section 6). */
module Pointers {
  import opened Bytes
  import opened Options
  import opened PointerTokens
  import opened Utf8
  import Decimal
  import Printing
  import StringLexer
  import AsciiStrings

  const INVALID_INDEX: nat := 0xFFFF_FFFF
  const SIZE_LIMIT: nat := 0x1_0000_0000
  const PERCENT: Byte := 0x25
  const HASH: Byte := 0x23

  datatype Token = Token(name: Text, index: nat)

  datatype PointerError =
    | TokenMustBeginWithSolidus
    | InvalidEscape
    | InvalidPercentEncoding
    | CharacterMustPercentEncode

  // ---------------------------------------------------------------------------
  // Array indices
  // ---------------------------------------------------------------------------

  /** The conversion loop in 32 bits; None where its overflow test `m < n` fires. */
  function IndexValue(name: Text): (r: Option<nat>)
    ensures r.Some? ==> r.value < SIZE_LIMIT
  {
    if name == [] then Some(0)
    else
      var n := IndexValue(name[..|name| - 1]);
      if n.None? then None
      else
        var m := (n.value * 10 + DigitOf(name[|name| - 1])) % SIZE_LIMIT;
        if m < n.value then None else Some(m)
  }

  /** All digits, and no leading zero unless the only one. */
  predicate IsNumber(name: Text) {
    name != [] && (forall k :: 0 <= k < |name| ==> IsDigit(name[k])) && (|name| > 1 ==> name[0] != ZERO)
  }

  function IndexOfName(name: Text): (index: nat)
    ensures index < SIZE_LIMIT
  {
    if IsNumber(name) && IndexValue(name).Some? then IndexValue(name).value else INVALID_INDEX
  }

  function TokensOf(names: seq<Text>): (tokens: seq<Token>)
    ensures |tokens| == |names|
  {
    seq(|names|, i requires 0 <= i < |names| => Token(names[i], IndexOfName(names[i])))
  }

  function TokenNames(tokens: seq<Token>): (names: seq<Text>)
    ensures |names| == |tokens| && forall i :: 0 <= i < |names| ==> names[i] == tokens[i].name
  {
    seq(|tokens|, i requires 0 <= i < |tokens| => tokens[i].name)
  }

  lemma DigitsStep(n: nat)
    requires n >= 10
    ensures Decimal.Digits(n)[..|Decimal.Digits(n)| - 1] == Decimal.Digits(n / 10)
    ensures DigitOf(Decimal.Digits(n)[|Decimal.Digits(n)| - 1]) == n % 10
  {}

  /** No turn of the loop over the digits of `n` brings the 32-bit value below what it was. */
  predicate NoWrap(n: nat) {
    n < 10 || (NoWrap(n / 10) && n / 10 % SIZE_LIMIT <= n % SIZE_LIMIT)
  }

  /** One turn reduces modulo 2^32 what it would compute without bounds. */
  lemma Reduced(n: nat)
    ensures (n / 10 % SIZE_LIMIT * 10 + n % 10) % SIZE_LIMIT == n % SIZE_LIMIT
  {
    var q := n / 10 / SIZE_LIMIT;
    var kept := n / 10 % SIZE_LIMIT * 10 + n % 10;
    assert n / 10 == q * SIZE_LIMIT + n / 10 % SIZE_LIMIT;
    assert n == n / 10 * 10 + n % 10;
    assert n == kept + 10 * q * SIZE_LIMIT;
    SameRemainder(kept, 10 * q);
  }

  lemma SameRemainder(kept: nat, q: nat)
    ensures (kept + q * SIZE_LIMIT) % SIZE_LIMIT == kept % SIZE_LIMIT
  {
    var n := kept + q * SIZE_LIMIT;
    assert n == (kept / SIZE_LIMIT + q) * SIZE_LIMIT + kept % SIZE_LIMIT;
  }

  /** The 32-bit loop, over every decimal there is. */
  lemma {:induction false} IndexOfDigits(n: nat)
    ensures IndexValue(Decimal.Digits(n)) == if NoWrap(n) then Some(n % SIZE_LIMIT) else None
    decreases n
  {
    var name := Decimal.Digits(n);
    if n < 10 {
      assert name[..0] == [];
    } else {
      DigitsStep(n);
      IndexOfDigits(n / 10);
      Reduced(n);
      hide Decimal.Digits, NoWrap;
      NoWrapStep(n);
    }
  }

  lemma NoWrapStep(n: nat)
    requires n >= 10
    ensures NoWrap(n) <==> NoWrap(n / 10) && n / 10 % SIZE_LIMIT <= n % SIZE_LIMIT
  {}

  lemma {:induction false} SmallDoesNotWrap(n: nat)
    requires n < SIZE_LIMIT
    ensures NoWrap(n)
    decreases n
  {
    if n >= 10 {
      SmallDoesNotWrap(n / 10);
    }
  }

  lemma {:induction false} DigitsAreNumber(n: nat)
    ensures IsNumber(Decimal.Digits(n))
    decreases n
  {
    Decimal.DigitsAreDigits(n);
    if n >= 10 {
      DigitsAreNumber(n / 10);
      if n / 10 >= 10 {
        assert Decimal.Digits(n)[0] == Decimal.Digits(n / 10)[0];
      } else {
        assert Decimal.Digits(n / 10) == [ZERO + n / 10];
        assert Decimal.Digits(n)[0] == ZERO + n / 10;
      }
    }
  }

  lemma {:induction false} NumberIsDigits(name: Text) returns (n: nat)
    requires IsNumber(name)
    ensures name == Decimal.Digits(n)
    decreases |name|
  {
    if |name| == 1 {
      n := DigitOf(name[0]);
    } else {
      var init := name[..|name| - 1];
      assert IsDigit(name[|name| - 1]);
      var m := NumberIsDigits(init);
      n := m * 10 + DigitOf(name[|name| - 1]);
      assert init[0] == name[0] && Decimal.Digits(0) == [ZERO];
      assert n / 10 == m && n % 10 == DigitOf(name[|name| - 1]);
      assert name == init + [name[|name| - 1]];
    }
  }

  /**
   * The index of every decimal: its remainder modulo 2^32 when no turn of the loop brings the value down, and otherwise
   * none. Below 2^32 that is the decimal itself (2^32 - 1 being the invalid index).
   */
  lemma IndexExact(n: nat)
    ensures IndexOfName(Decimal.Digits(n)) == if NoWrap(n) then n % SIZE_LIMIT else INVALID_INDEX
    ensures n < SIZE_LIMIT ==> IndexOfName(Decimal.Digits(n)) == n
  {
    hide Decimal.Digits, IsNumber, IndexValue, NoWrap;
    DigitsAreNumber(n);
    IndexOfDigits(n);
    if n < SIZE_LIMIT {
      SmallDoesNotWrap(n);
    }
  }

  /** A decimal gets its true index or none exactly when it fits, the overflow test fires, or what is left is 2^32 - 1. */
  lemma IndexTrueOrNone(n: nat)
    ensures IndexOfName(Decimal.Digits(n)) == n || IndexOfName(Decimal.Digits(n)) == INVALID_INDEX
      <==> n < SIZE_LIMIT || !NoWrap(n) || n % SIZE_LIMIT == INVALID_INDEX
  {
    IndexExact(n);
  }

  /** A name that is not a plain decimal has no index. */
  lemma NoIndexUnlessDecimal(name: Text)
    requires IndexOfName(name) != INVALID_INDEX
    ensures exists n: nat :: name == Decimal.Digits(n)
  {
    var n := NumberIsDigits(name);
  }

  /** 9999999999 does not fit 32 bits, is not caught, and aliases 1410065407. */
  lemma OverflowCanAlias()
    ensures IndexOfName(Decimal.Digits(9999999999)) == 1410065407
  {
    hide Decimal.Digits, IndexOfName;
    IndexExact(9999999999);
    SmallDoesNotWrap(999999999);
    NoWrapStep(9999999999);
  }

  // ---------------------------------------------------------------------------
  // What Parse reads
  // ---------------------------------------------------------------------------

  /** The unreserved characters of section 2.3 of RFC 3986. */
  predicate Unreserved(c: Byte) {
    IsDigit(c) || 0x41 <= c <= 0x5A || 0x61 <= c <= 0x7A || c == MINUS || c == PERIOD || c == 0x5F || c == TILDE
  }

  predicate Triplet(source: Text, i: nat) {
    && i + 3 <= |source| && source[i] == PERCENT
    && StringLexer.HexValue(source[i + 1]) >= 0 && StringLexer.HexValue(source[i + 2]) >= 0
  }

  /** The bytes of the percent-encoded triplets from `i` on. */
  function PercentBytes(source: Text, i: nat): Text
    decreases |source| - i
  {
    if !Triplet(source, i) then []
    else [0x10 * StringLexer.HexValue(source[i + 1]) + StringLexer.HexValue(source[i + 2])] + PercentBytes(source, i + 3)
  }

  lemma {:induction false} TripletsFit(source: Text, i: nat)
    requires i <= |source|
    ensures i + 3 * |PercentBytes(source, i)| <= |source|
    decreases |source| - i
  {
    if Triplet(source, i) {
      TripletsFit(source, i + 3);
    }
  }

  /** A piece of a name and where it ends, or the error and its offset. */
  datatype Piece = Piece(bytes: Text, next: nat) | Bad(code: PointerError, offset: nat)

  /** `~0` and `~1`; `next` is just after the character `c`. */
  function Unescaped(source: Text, c: Byte, next: nat): (r: Piece)
    ensures r.Piece? ==> |r.bytes| == 1 && next <= r.next <= next + 1 && (next <= |source| ==> r.next <= |source|)
  {
    if c != TILDE then Piece([c], next)
    else if next < |source| && source[next] == ZERO then Piece([TILDE], next + 1)
    else if next < |source| && source[next] == ZERO + 1 then Piece([SOLIDUS], next + 1)
    else Bad(InvalidEscape, next)
  }

  /** One turn of the loop over the characters of a name. */
  function PieceAt(source: Text, i: nat, fragment: bool): (r: Piece)
    requires i < |source|
    ensures r.Piece? ==> i + |r.bytes| <= r.next <= |source| && |r.bytes| >= 1
  {
    if fragment && source[i] == PERCENT then
      var bytes := PercentBytes(source, i);
      var n := CharLength(bytes, 0);
      TripletsFit(source, i);
      if n == 0 || n > |bytes| then Bad(InvalidPercentEncoding, i)
      else if n == 1 then Unescaped(source, bytes[0], i + 3)
      else Piece(bytes[..n], i + 3 * n)
    else if fragment && !Unreserved(source[i]) then Bad(CharacterMustPercentEncode, i)
    else Unescaped(source, source[i], i + 1)
  }

  function NameAt(source: Text, i: nat, fragment: bool): (r: Piece)
    requires i <= |source|
    ensures r.Piece? ==> i + |r.bytes| <= r.next <= |source| && (r.next < |source| ==> source[r.next] == SOLIDUS)
    decreases |source| - i
  {
    if i == |source| || source[i] == SOLIDUS then Piece([], i)
    else
      match PieceAt(source, i, fragment)
      case Bad(code, offset) => Bad(code, offset)
      case Piece(bytes, next) =>
        match NameAt(source, next, fragment)
        case Bad(code, offset) => Bad(code, offset)
        case Piece(rest, end) => Piece(bytes + rest, end)
  }

  datatype Names = Names(names: seq<Text>) | Wrong(code: PointerError, offset: nat)

  function NamesAt(source: Text, i: nat, fragment: bool): Names
    requires i <= |source| && (i < |source| ==> source[i] == SOLIDUS)
    decreases |source| - i
  {
    if i == |source| then Names([])
    else
      match NameAt(source, i + 1, fragment)
      case Bad(code, offset) => Wrong(code, offset)
      case Piece(name, next) =>
        match NamesAt(source, next, fragment)
        case Wrong(code, offset) => Wrong(code, offset)
        case Names(rest) => Names([name] + rest)
  }

  function ParseNames(source: Text): Names {
    var fragment := Peek(source, 0) == HASH;
    var i := if fragment then 1 else 0;
    if i < |source| && source[i] != SOLIDUS then Wrong(TokenMustBeginWithSolidus, i)
    else NamesAt(source, i, fragment)
  }

  /** How many `/` there are from `i` on. */
  function Solidi(source: Text, i: nat): nat
    decreases |source| - i
  {
    if i >= |source| then 0
    else (if source[i] == SOLIDUS then 1 else 0) + Solidi(source, i + 1)
  }

  lemma {:induction false} TripletsHaveNoSolidus(source: Text, i: nat, n: nat)
    requires n <= |PercentBytes(source, i)|
    ensures Solidi(source, i) == Solidi(source, i + 3 * n)
    decreases n
  {
    if n > 0 {
      assert Solidi(source, i) == Solidi(source, i + 1) == Solidi(source, i + 2) == Solidi(source, i + 3);
      TripletsHaveNoSolidus(source, i + 3, n - 1);
      assert i + 3 + 3 * (n - 1) == i + 3 * n;
    }
  }

  lemma PieceHasNoSolidus(source: Text, i: nat, fragment: bool)
    requires i < |source| && source[i] != SOLIDUS && PieceAt(source, i, fragment).Piece?
    ensures Solidi(source, i) == Solidi(source, PieceAt(source, i, fragment).next)
  {
    hide CharLength, PercentBytes;
    assert Solidi(source, i) == Solidi(source, i + 1);
    if fragment && source[i] == PERCENT {
      var bytes := PercentBytes(source, i);
      var n := CharLength(bytes, 0);
      TripletsHaveNoSolidus(source, i, n);
      assert PieceAt(source, i, fragment).next >= i + 3 * n;
    }
  }

  lemma {:induction false} NameHasNoSolidus(source: Text, i: nat, fragment: bool)
    requires i <= |source| && NameAt(source, i, fragment).Piece?
    ensures Solidi(source, i) == Solidi(source, NameAt(source, i, fragment).next)
    decreases |source| - i
  {
    hide PieceAt;
    if i < |source| && source[i] != SOLIDUS {
      PieceHasNoSolidus(source, i, fragment);
      NameHasNoSolidus(source, PieceAt(source, i, fragment).next, fragment);
    }
  }

  /** There is a name for each `/` of the source, none for an escaped or encoded one. */
  lemma {:induction false} NamesCountSolidi(source: Text, i: nat, fragment: bool)
    requires i <= |source| && (i < |source| ==> source[i] == SOLIDUS) && NamesAt(source, i, fragment).Names?
    ensures |NamesAt(source, i, fragment).names| == Solidi(source, i)
    decreases |source| - i
  {
    hide NameAt;
    if i < |source| {
      NameHasNoSolidus(source, i + 1, fragment);
      NamesCountSolidi(source, NameAt(source, i + 1, fragment).next, fragment);
    }
  }

  // ---------------------------------------------------------------------------
  // What Stringify writes
  // ---------------------------------------------------------------------------

  function PercentEncoded(bytes: Text): Text {
    if bytes == [] then []
    else [PERCENT, Printing.HexDigit(bytes[0] / 0x10), Printing.HexDigit(bytes[0] % 0x10)] + PercentEncoded(bytes[1..])
  }

  /** How many bytes of a name one turn of the loop takes. */
  function TurnLength(name: Text, j: nat): (n: nat)
    requires j < |name| && IsValid(name, j)
    ensures 1 <= n && j + n <= |name| && IsValid(name, j + n)
    ensures n == CharLength(name, j)
  {
    CharacterFits(name, j);
    CharLength(name, j)
  }

  function FragmentPiece(name: Text, j: nat): Text
    requires j < |name| && IsValid(name, j)
  {
    if name[j] == TILDE then [TILDE, ZERO]
    else if name[j] == SOLIDUS then [TILDE, ZERO + 1]
    else if !Unreserved(name[j]) then PercentEncoded(name[j..j + TurnLength(name, j)])
    else [name[j]]
  }

  function FragmentName(name: Text, j: nat): Text
    requires j <= |name| && IsValid(name, j)
    decreases |name| - j
  {
    if j == |name| then []
    else FragmentPiece(name, j) + FragmentName(name, j + TurnLength(name, j))
  }

  predicate AllValid(names: seq<Text>) {
    forall i :: 0 <= i < |names| ==> IsValid(names[i], 0)
  }

  function FragmentPath(names: seq<Text>): Text
    requires AllValid(names)
  {
    if names == [] then []
    else FragmentPath(names[..|names| - 1]) + [SOLIDUS] + FragmentName(names[|names| - 1], 0)
  }

  // ---------------------------------------------------------------------------
  // Round trips: plain
  // ---------------------------------------------------------------------------

  predicate EndsAt(source: Text, i: nat) {
    i == |source| || (i < |source| && source[i] == SOLIDUS)
  }

  lemma {:induction false} PlainNameScan(source: Text, i: nat, name: Text)
    requires At(source, i, EscapedToken(name)) && EndsAt(source, i + |EscapedToken(name)|)
    ensures NameAt(source, i, false) == Piece(name, i + |EscapedToken(name)|)
    decreases |name|
  {
    hide PieceAt, EscapedTokenByte;
    if name != [] {
      var head, rest := EscapedTokenByte(name[0]), EscapedToken(name[1..]);
      AtSplit(source, i, head, rest);
      PlainPiece(source, i, name[0]);
      PlainNameScan(source, i + |head|, name[1..]);
      assert [name[0]] + name[1..] == name;
    }
  }

  lemma PlainPiece(source: Text, i: nat, c: Byte)
    requires At(source, i, EscapedTokenByte(c))
    ensures i < |source| && source[i] != SOLIDUS
    ensures PieceAt(source, i, false) == Piece([c], i + |EscapedTokenByte(c)|)
  {
    var head := EscapedTokenByte(c);
    AtPeek(source, i, head, 0);
    if |head| == 2 {
      AtPeek(source, i, head, 1);
    }
  }

  /** Conversely, an accepted plain name is spelled the one way Stringify spells it. */
  lemma {:induction false} PlainNameSpelling(source: Text, i: nat)
    requires i <= |source| && NameAt(source, i, false).Piece?
    ensures At(source, i, EscapedToken(NameAt(source, i, false).bytes))
    ensures i + |EscapedToken(NameAt(source, i, false).bytes)| == NameAt(source, i, false).next
    decreases |source| - i
  {
    hide PieceAt, EscapedTokenByte;
    if i < |source| && source[i] != SOLIDUS {
      var piece := PieceAt(source, i, false);
      var rest := NameAt(source, piece.next, false);
      PlainPieceSpelling(source, i);
      PlainNameSpelling(source, piece.next);
      var c := piece.bytes[0];
      assert piece.bytes + rest.bytes == [c] + rest.bytes;
      assert ([c] + rest.bytes)[1..] == rest.bytes;
      AtSplit(source, i, EscapedTokenByte(c), EscapedToken(rest.bytes));
    }
  }

  lemma PlainPieceSpelling(source: Text, i: nat)
    requires i < |source| && source[i] != SOLIDUS && PieceAt(source, i, false).Piece?
    ensures var piece := PieceAt(source, i, false);
      && |piece.bytes| == 1 && At(source, i, EscapedTokenByte(piece.bytes[0]))
      && piece.next == i + |EscapedTokenByte(piece.bytes[0])|
  {
    var piece := PieceAt(source, i, false);
    assert source[i..piece.next] == EscapedTokenByte(piece.bytes[0]);
  }

  lemma {:induction false} PathHead(names: seq<Text>)
    requires names != []
    ensures PathText(names) == ([SOLIDUS] + EscapedToken(names[0])) + PathText(names[1..])
    decreases |names|
  {
    var last := |names| - 1;
    if last == 0 {
      assert names[..0] == [] && names[1..] == [];
    } else {
      PathHead(names[..last]);
      assert names[..last][1..] == names[1..][..last - 1];
      assert names[1..][last - 1] == names[last];
    }
  }

  lemma PathStart(names: seq<Text>)
    ensures names != [] ==> PathText(names) != [] && PathText(names)[0] == SOLIDUS
  {
    if names != [] {
      PathHead(names);
    }
  }

  lemma {:induction false} PlainNamesScan(source: Text, i: nat, names: seq<Text>)
    requires At(source, i, PathText(names)) && i + |PathText(names)| == |source|
    ensures i < |source| ==> source[i] == SOLIDUS
    ensures NamesAt(source, i, false) == Names(names)
    decreases |names|
  {
    hide NameAt, EscapedToken;
    if names != [] {
      var name, rest := EscapedToken(names[0]), PathText(names[1..]);
      PathHead(names);
      PathStart(names[1..]);
      hide PathText;
      AtSplit(source, i, [SOLIDUS] + name, rest);
      AtSplit(source, i, [SOLIDUS], name);
      AtPeek(source, i, [SOLIDUS], 0);
      PlainNamesScan(source, i + 1 + |name|, names[1..]);
      PlainNameScan(source, i + 1, names[0]);
      assert [names[0]] + names[1..] == names;
    }
  }

  /** Parsing what Stringify writes gives back the same names, whatever bytes they hold. */
  lemma StringifyThenParse(names: seq<Text>)
    ensures ParseNames(PathText(names)) == Names(names)
  {
    var source := PathText(names);
    PathStart(names);
    assert source[0..|source|] == source;
    PlainNamesScan(source, 0, names);
  }

  lemma {:induction false} PlainNamesSpelling(source: Text, i: nat)
    requires i <= |source| && (i < |source| ==> source[i] == SOLIDUS)
    requires NamesAt(source, i, false).Names?
    ensures source[i..] == PathText(NamesAt(source, i, false).names)
    decreases |source| - i
  {
    hide NameAt, EscapedToken;
    if i < |source| {
      var name := NameAt(source, i + 1, false);
      var rest := NamesAt(source, name.next, false).names;
      PlainNameSpelling(source, i + 1);
      PlainNamesSpelling(source, name.next);
      assert NamesAt(source, i, false).names == [name.bytes] + rest;
      PathHead([name.bytes] + rest);
      hide PathText;
      assert ([name.bytes] + rest)[1..] == rest;
      assert source[i..] == [SOLIDUS] + source[i + 1..name.next] + source[name.next..];
    }
  }

  /** Every accepted plain pointer is exactly what Stringify writes for its names. */
  lemma ParseThenStringify(source: Text)
    requires Peek(source, 0) != HASH && ParseNames(source).Names?
    ensures PathText(ParseNames(source).names) == source
  {
    PlainNamesSpelling(source, 0);
    assert source[0..] == source;
  }

  // ---------------------------------------------------------------------------
  // Round trips: URI fragments
  // ---------------------------------------------------------------------------

  /** Percent-encoded bytes are decoded again, whatever follows them. */
  lemma {:induction false} PercentScan(source: Text, i: nat, bytes: Text)
    requires At(source, i, PercentEncoded(bytes))
    ensures |PercentEncoded(bytes)| == 3 * |bytes| && bytes <= PercentBytes(source, i)
    decreases |bytes|
  {
    hide StringLexer.HexValue, Printing.HexDigit;
    if bytes != [] {
      var hi, lo := bytes[0] / 0x10, bytes[0] % 0x10;
      var head, rest := [PERCENT, Printing.HexDigit(hi), Printing.HexDigit(lo)], PercentEncoded(bytes[1..]);
      AtSplit(source, i, head, rest);
      AtPeek(source, i, head, 0);
      AtPeek(source, i, head, 1);
      AtPeek(source, i, head, 2);
      AsciiStrings.HexDigitValue(hi);
      AsciiStrings.HexDigitValue(lo);
      PercentScan(source, i + 3, bytes[1..]);
      assert bytes == [bytes[0]] + bytes[1..];
    }
  }

  lemma SameCharacter(name: Text, j: nat, bytes: Text)
    requires j < |name| && CharLength(name, j) > 0 && j + CharLength(name, j) <= |name|
    requires name[j..j + CharLength(name, j)] <= bytes
    ensures CharLength(bytes, 0) == CharLength(name, j)
  {
    var n := CharLength(name, j);
    forall k | 0 <= k < n
      ensures Peek(bytes, k) == Peek(name, j + k)
    {
      assert name[j..j + n][k] == bytes[k];
    }
  }

  lemma FragmentPieceScan(source: Text, i: nat, name: Text, j: nat)
    requires j < |name| && IsValid(name, j) && At(source, i, FragmentPiece(name, j))
    ensures i < |source| && source[i] != SOLIDUS
    ensures PieceAt(source, i, true) == Piece(name[j..j + TurnLength(name, j)], i + |FragmentPiece(name, j)|)
  {
    hide CharLength, StringLexer.HexValue, Printing.HexDigit, PercentBytes, IsValid;
    var n := TurnLength(name, j);
    var piece, bytes := FragmentPiece(name, j), name[j..j + n];
    AsciiLength(name, j);
    if name[j] != TILDE && name[j] != SOLIDUS && !Unreserved(name[j]) {
      PercentScan(source, i, bytes);
      AtPeek(source, i, piece, 0);
      var decoded := PercentBytes(source, i);
      SameCharacter(name, j, decoded);
      assert decoded[..n] == bytes;
      assert n == 1 ==> decoded[0] == name[j];
    } else {
      assert bytes == [name[j]];
      AtPeek(source, i, piece, 0);
      if |piece| == 2 {
        AtPeek(source, i, piece, 1);
      }
    }
  }

  lemma AsciiLength(name: Text, j: nat)
    requires j < |name|
    ensures name[j] <= 0x7F ==> CharLength(name, j) == 1
  {}

  lemma {:induction false} FragmentNameScan(source: Text, i: nat, name: Text, j: nat)
    requires j <= |name| && IsValid(name, j)
    requires At(source, i, FragmentName(name, j)) && EndsAt(source, i + |FragmentName(name, j)|)
    ensures NameAt(source, i, true) == Piece(name[j..], i + |FragmentName(name, j)|)
    decreases |name| - j
  {
    hide PieceAt, FragmentPiece, CharLength;
    if j < |name| {
      var n := TurnLength(name, j);
      var head, rest := FragmentPiece(name, j), FragmentName(name, j + n);
      AtSplit(source, i, head, rest);
      FragmentPieceScan(source, i, name, j);
      FragmentNameScan(source, i + |head|, name, j + n);
      assert name[j..j + n] + name[j + n..] == name[j..];
    }
  }

  lemma FragmentLast(names: seq<Text>)
    requires names != [] && AllValid(names)
    ensures var last := |names| - 1;
      FragmentPath(names) == FragmentPath(names[..last]) + ([SOLIDUS] + FragmentName(names[last], 0))
  {
    hide FragmentName, IsValid;
  }

  lemma AllValidParts(names: seq<Text>)
    requires |names| > 1 && AllValid(names)
    ensures AllValid(names[..|names| - 1]) && AllValid(names[1..]) && AllValid(names[1..][..|names| - 2])
    ensures names[..|names| - 1][1..] == names[1..][..|names| - 2]
    ensures IsValid(names[0], 0) && IsValid(names[|names| - 1], 0)
  {
    hide IsValid;
  }

  lemma Regrouped(a: Text, b: Text, c: Text)
    ensures (a + b) + c == a + (b + c)
  {}

  lemma {:induction false} FragmentHead(names: seq<Text>)
    requires names != [] && AllValid(names)
    ensures FragmentPath(names) == ([SOLIDUS] + FragmentName(names[0], 0)) + FragmentPath(names[1..])
    decreases |names|
  {
    var last := |names| - 1;
    FragmentLast(names);
    if last == 0 {
      assert names[..0] == [] && names[1..] == [];
    } else {
      AllValidParts(names);
      hide FragmentName, IsValid, FragmentPath, AllValid;
      FragmentHead(names[..last]);
      FragmentLast(names[1..]);
      Regrouped([SOLIDUS] + FragmentName(names[0], 0), FragmentPath(names[1..][..last - 1]),
                [SOLIDUS] + FragmentName(names[last], 0));
    }
  }

  lemma FragmentStart(names: seq<Text>)
    requires AllValid(names)
    ensures names != [] ==> FragmentPath(names) != [] && FragmentPath(names)[0] == SOLIDUS
  {
    if names != [] {
      FragmentHead(names);
    }
  }

  lemma {:induction false} FragmentNamesScan(source: Text, i: nat, names: seq<Text>)
    requires AllValid(names) && At(source, i, FragmentPath(names)) && i + |FragmentPath(names)| == |source|
    ensures i < |source| ==> source[i] == SOLIDUS
    ensures NamesAt(source, i, true) == Names(names)
    decreases |names|
  {
    hide NameAt, FragmentName, IsValid, NamesAt;
    if names == [] {
      NamesEnd(source, i, true);
    } else {
      var name, rest := FragmentName(names[0], 0), FragmentPath(names[1..]);
      FragmentHead(names);
      FragmentStart(names[1..]);
      hide FragmentPath;
      AtSplit(source, i, [SOLIDUS] + name, rest);
      AtSplit(source, i, [SOLIDUS], name);
      AtPeek(source, i, [SOLIDUS], 0);
      FragmentNamesScan(source, i + 1 + |name|, names[1..]);
      FragmentNameScan(source, i + 1, names[0], 0);
      NamesStep(source, i, true, names);
    }
  }

  lemma NamesEnd(source: Text, i: nat, fragment: bool)
    requires i == |source|
    ensures NamesAt(source, i, fragment) == Names([])
  {}

  lemma NamesStep(source: Text, i: nat, fragment: bool, names: seq<Text>)
    requires i < |source| && source[i] == SOLIDUS && names != []
    requires var name := NameAt(source, i + 1, fragment);
      name.Piece? && name.bytes == names[0] && NamesAt(source, name.next, fragment) == Names(names[1..])
    ensures NamesAt(source, i, fragment) == Names(names)
  {
    hide NameAt;
    assert [names[0]] + names[1..] == names;
  }

  /** Parsing what StringifyUriFragment writes gives back the same names, if they are valid UTF-8. */
  lemma StringifyUriFragmentThenParse(names: seq<Text>)
    requires AllValid(names)
    ensures ParseNames([HASH] + FragmentPath(names)) == Names(names)
  {
    var source := [HASH] + FragmentPath(names);
    FragmentStart(names);
    assert source[1..|source|] == FragmentPath(names);
    FragmentNamesScan(source, 1, names);
  }

  /** What one turn of the loop reads in a fragment is one character. */
  lemma FragmentPieceValid(source: Text, i: nat)
    requires i < |source| && PieceAt(source, i, true).Piece?
    ensures IsValid(PieceAt(source, i, true).bytes, 0)
  {
    hide CharLength, PercentBytes, IsValid;
    var piece := PieceAt(source, i, true);
    if source[i] == PERCENT {
      var bytes := PercentBytes(source, i);
      var n := CharLength(bytes, 0);
      OneCharacter(bytes, n);
      SingleAscii(bytes[0]);
    } else {
      SingleAscii(source[i]);
    }
    SingleAscii(TILDE);
    SingleAscii(SOLIDUS);
  }

  lemma OneCharacter(bytes: Text, n: nat)
    requires n == CharLength(bytes, 0) && 0 < n <= |bytes|
    ensures IsValid(bytes[..n], 0) && (n == 1 ==> bytes[0] <= 0x7F)
  {
    assert bytes == bytes[..n] + bytes[n..];
    SameLength(bytes[..n], bytes[n..], 0);
  }

  lemma SingleAscii(c: Byte)
    ensures c <= 0x7F ==> IsValid([c], 0)
  {}

  lemma {:induction false} FragmentNameValid(source: Text, i: nat)
    requires i <= |source| && NameAt(source, i, true).Piece?
    ensures IsValid(NameAt(source, i, true).bytes, 0)
    decreases |source| - i
  {
    hide PieceAt, CharLength;
    if i < |source| && source[i] != SOLIDUS {
      var piece := PieceAt(source, i, true);
      FragmentPieceValid(source, i);
      FragmentNameValid(source, piece.next);
      ValidPrefix(piece.bytes, NameAt(source, piece.next, true).bytes, 0);
    }
  }

  lemma {:induction false} FragmentNamesValid(source: Text, i: nat)
    requires i <= |source| && (i < |source| ==> source[i] == SOLIDUS) && NamesAt(source, i, true).Names?
    ensures AllValid(NamesAt(source, i, true).names)
    decreases |source| - i
  {
    hide NameAt, IsValid;
    if i < |source| {
      FragmentNameValid(source, i + 1);
      FragmentNamesValid(source, NameAt(source, i + 1, true).next);
    }
  }

  /** Every accepted URI fragment has valid names, so it can be written again, and what is written parses to the same names. */
  lemma ParseUriFragmentThenStringify(source: Text)
    requires Peek(source, 0) == HASH && ParseNames(source).Names?
    ensures AllValid(ParseNames(source).names)
    ensures ParseNames([HASH] + FragmentPath(ParseNames(source).names)) == ParseNames(source)
  {
    hide IsValid, NamesAt, FragmentPath;
    FragmentNamesValid(source, 1);
    StringifyUriFragmentThenParse(ParseNames(source).names);
  }

  // ---------------------------------------------------------------------------
  // The class
  // ---------------------------------------------------------------------------

  /** The name buffer the tokens take: each name and its terminator. */
  function BufferUse(names: seq<Text>): nat {
    if names == [] then 0 else BufferUse(names[..|names| - 1]) + |names[|names| - 1]| + 1
  }

  class GenericPointer {
    var tokens: seq<Token>
    var tokenCount: nat
    var parseErrorCode: Option<PointerError>
    var parseErrorOffset: nat

    constructor ()
      ensures tokens == [] && tokenCount == 0 && parseErrorCode == None && parseErrorOffset == 0
    {
      tokens, tokenCount, parseErrorCode, parseErrorOffset := [], 0, None, 0;
    }

    /**
     * Parse either has the names it read with their indices, or no tokens and the error where it stopped. The tokens fill
     * the array it made for them, and the names fit their buffer.
     */
    method Parse(source: Text)
      modifies this
      ensures tokenCount == |tokens|
      ensures match ParseNames(source)
        case Names(names) => tokens == TokensOf(names) && parseErrorCode == None && BufferUse(names) <= |source|
        case Wrong(code, offset) => tokens == [] && parseErrorCode == Some(code) && parseErrorOffset == offset
    {
      hide NameAt, IndexOfName;
      tokens, parseErrorCode := [], None;
      CountSolidi(source);
      var i := 0;
      var fragment := false;
      if Peek(source, i) == HASH {
        fragment := true;
        i := i + 1;
      }
      if i < |source| && source[i] != SOLIDUS {
        parseErrorCode, parseErrorOffset, tokenCount := Some(TokenMustBeginWithSolidus), i, 0;
        return;
      }
      ghost var start := i;
      ghost var names: seq<Text> := [];
      while i < |source|
        invariant start <= i <= |source| && (i < |source| ==> source[i] == SOLIDUS)
        invariant tokens == TokensOf(names) && parseErrorCode == None
        invariant BufferUse(names) <= i - start && |tokens| + Solidi(source, i) == tokenCount
        invariant Onward(names, NamesAt(source, i, fragment)) == NamesAt(source, start, fragment)
        decreases |source| - i
      {
        var name, next, code, offset := ParseName(source, i + 1, fragment);
        if code.Some? {
          tokens, tokenCount, parseErrorCode, parseErrorOffset := [], 0, code, offset;
          return;
        }
        NameHasNoSolidus(source, i + 1, fragment);
        assert |tokens| < tokenCount;
        var index := ParseIndex(name);
        OnwardOne(names, name, NamesAt(source, next, fragment));
        AppendToken(names, name);
        tokens := tokens + [Token(name, index)];
        names := names + [name];
        i := next;
      }
      assert names + [] == names;
    }

    /** The loop that counts the tokens before their array is allocated. */
    method CountSolidi(source: Text)
      modifies `tokenCount
      ensures tokenCount == Solidi(source, 0)
    {
      tokenCount := 0;
      var s := 0;
      while s < |source|
        invariant 0 <= s <= |source|
        invariant tokenCount + Solidi(source, s) == Solidi(source, 0)
      {
        if source[s] == SOLIDUS {
          tokenCount := tokenCount + 1;
        }
        s := s + 1;
      }
    }

    /** The loop over the characters of one name. */
    method ParseName(source: Text, start: nat, fragment: bool)
      returns (name: Text, i: nat, code: Option<PointerError>, offset: nat)
      requires start <= |source|
      ensures match NameAt(source, start, fragment)
        case Piece(bytes, next) => code == None && name == bytes && i == next
        case Bad(error, at) => code == Some(error) && offset == at
    {
      hide Unescaped, CharLength, PercentBytes;
      name, i, code, offset := [], start, None, 0;
      while i < |source| && source[i] != SOLIDUS
        invariant start <= i <= |source|
        invariant name + [] == name
        invariant Further(name, NameAt(source, i, fragment)) == NameAt(source, start, fragment)
      {
        var c := source[i];
        ghost var first := i;
        if fragment {
          if c == PERCENT {
            var ok, copied := PercentDecode(source, i);
            if !ok {
              code, offset := Some(InvalidPercentEncoding), i;
              return;
            }
            i := i + 3 * |copied| - 1;
            if |copied| == 1 {
              c := copied[0];
            } else {
              FurtherOne(name, copied, NameAt(source, i + 1, fragment));
              name := name + copied;
              i := i + 1;
              continue;
            }
          } else if !Unreserved(c) {
            code, offset := Some(CharacterMustPercentEncode), i;
            return;
          }
        }
        i := i + 1;
        ghost var unescaped := Unescaped(source, c, i);
        assert PieceAt(source, first, fragment) == unescaped;
        var failed;
        c, i, failed := Unescape(source, c, i);
        if failed {
          code, offset := Some(InvalidEscape), i;
          return;
        }
        FurtherOne(name, [c], NameAt(source, i, fragment));
        name := name + [c];
      }
    }

    /** One UTF-8 character from percent-encoded triplets; running past them is an error. */
    method PercentDecode(source: Text, i: nat) returns (ok: bool, copied: Text)
      requires i < |source| && source[i] == PERCENT
      ensures ok <==> PieceAt(source, i, true) != Bad(InvalidPercentEncoding, i)
      ensures ok ==> |copied| >= 1 && i + 3 * |copied| <= |source|
      ensures ok && |copied| == 1 ==> PieceAt(source, i, true) == Unescaped(source, copied[0], i + 3)
      ensures ok && |copied| > 1 ==> PieceAt(source, i, true) == Piece(copied, i + 3 * |copied|)
    {
      hide CharLength, PercentBytes;
      var bytes := PercentBytes(source, i);
      var taken;
      ok, copied, taken := Validate(bytes, 0);
      TripletsFit(source, i);
      ok := ok && taken <= |bytes|;
      if ok {
        assert copied == bytes[..taken];
      }
    }

    method Unescape(source: Text, c: Byte, i: nat) returns (d: Byte, next: nat, failed: bool)
      ensures failed <==> Unescaped(source, c, i) == Bad(InvalidEscape, i)
      ensures failed ==> next == i
      ensures !failed ==> Unescaped(source, c, i) == Piece([d], next)
    {
      d, next, failed := c, i, false;
      if c == TILDE {
        if i < |source| {
          if source[i] == ZERO {
            d := TILDE;
          } else if source[i] == ZERO + 1 {
            d := SOLIDUS;
          } else {
            failed := true;
            return;
          }
          next := i + 1;
        } else {
          failed := true;
        }
      }
    }

    /** The conversion of a name to an index. */
    method ParseIndex(name: Text) returns (index: nat)
      ensures index == IndexOfName(name)
    {
      var isNumber := |name| > 0;
      var k := 0;
      while k < |name|
        invariant 0 <= k <= |name|
        invariant isNumber <==> |name| > 0 && forall j :: 0 <= j < k ==> IsDigit(name[j])
      {
        if !IsDigit(name[k]) {
          isNumber := false;
        }
        k := k + 1;
      }
      if isNumber && |name| > 1 && name[0] == ZERO {
        isNumber := false;
      }
      var n := 0;
      if isNumber {
        var j := 0;
        assert name[..0] == [];
        while j < |name|
          invariant 0 <= j <= |name| && n < SIZE_LIMIT
          invariant IndexValue(name[..j]) == Some(n)
        {
          var m := (n * 10 + DigitOf(name[j])) % SIZE_LIMIT;
          assert name[..j + 1][..j] == name[..j];
          if m < n {
            Overflowed(name, j + 1);
            return INVALID_INDEX;
          }
          n := m;
          j := j + 1;
        }
        assert name[..j] == name;
      }
      index := if isNumber then n else INVALID_INDEX;
    }

    /** Stringify fails exactly on a URI fragment of a name that is not UTF-8. */
    method Stringify(uriFragment: bool) returns (ok: bool, os: Text)
      ensures ok <==> !uriFragment || AllValid(TokenNames(tokens))
      ensures ok && !uriFragment ==> os == PathText(TokenNames(tokens))
      ensures ok && uriFragment ==> os == [HASH] + FragmentPath(TokenNames(tokens))
    {
      hide IsValid, EscapedToken, FragmentName;
      ghost var names := TokenNames(tokens);
      ok, os := true, [];
      if uriFragment {
        os := os + [HASH];
      }
      ghost var head := os;
      var t := 0;
      assert names[..0] == [];
      while t < |tokens|
        invariant 0 <= t <= |tokens|
        invariant uriFragment ==> AllValid(names[..t])
        invariant uriFragment ==> os == head + FragmentPath(names[..t])
        invariant !uriFragment ==> os == head + PathText(names[..t])
      {
        assert tokens[t].name == names[t];
        assert names[..t + 1][..t] == names[..t] && names[..t + 1][t] == names[t];
        var text;
        ok, text := StringifyName(tokens[t].name, uriFragment);
        if !ok {
          return;
        }
        assert uriFragment ==> AllValid(names[..t + 1]);
        os := os + [SOLIDUS] + text;
        t := t + 1;
      }
      assert names[..t] == names;
    }

    method StringifyName(name: Text, uriFragment: bool) returns (ok: bool, os: Text)
      ensures ok <==> !uriFragment || IsValid(name, 0)
      ensures ok && !uriFragment ==> os == EscapedToken(name)
      ensures ok && uriFragment ==> os == FragmentName(name, 0)
    {
      hide CharLength, FragmentName, EscapedToken, IsValid, FragmentPiece;
      ok, os := true, [];
      var j := 0;
      assert name[0..] == name;
      while j < |name|
        invariant 0 <= j <= |name|
        invariant uriFragment ==> (IsValid(name, 0) <==> IsValid(name, j))
        invariant uriFragment && IsValid(name, 0) ==> os + FragmentName(name, j) == FragmentName(name, 0)
        invariant !uriFragment ==> os + EscapedToken(name[j..]) == EscapedToken(name)
      {
        var c := name[j];
        ghost var before := os;
        AsciiLength(name, j);
        assert name[j..][0] == c && name[j..][1..] == name[j + 1..];
        if c == TILDE {
          os := os + [TILDE, ZERO];
          NextPiece(name, j, before, os, uriFragment);
          j := j + 1;
        } else if c == SOLIDUS {
          os := os + [TILDE, ZERO + 1];
          NextPiece(name, j, before, os, uriFragment);
          j := j + 1;
        } else if uriFragment && !Unreserved(c) {
          var valid, copied, end := Validate(name, j);
          if !valid {
            NotACharacter(name, j);
            return false, os;
          }
          CharacterFits(name, j);
          assert copied == name[j..end];
          var encoded := PercentEncode(copied);
          os := os + encoded;
          NextEncodedPiece(name, j, before);
          j := end;
        } else {
          os := os + [c];
          NextPiece(name, j, before, os, uriFragment);
          j := j + 1;
        }
      }
      NothingMore(name, j);
    }

    /** PercentEncodeStream::Put for each byte of one character. */
    method PercentEncode(bytes: Text) returns (os: Text)
      ensures os == PercentEncoded(bytes)
    {
      os := [];
      var k := 0;
      assert bytes[0..] == bytes;
      while k < |bytes|
        invariant 0 <= k <= |bytes|
        invariant os + PercentEncoded(bytes[k..]) == PercentEncoded(bytes)
      {
        var u := bytes[k];
        assert bytes[k..][1..] == bytes[k + 1..];
        os := os + [PERCENT, Printing.HexDigit(u / 0x10), Printing.HexDigit(u % 0x10)];
        k := k + 1;
      }
    }
  }

  function Onward(names: seq<Text>, rest: Names): Names {
    match rest
    case Wrong(code, offset) => Wrong(code, offset)
    case Names(more) => Names(names + more)
  }

  lemma OnwardOne(names: seq<Text>, name: Text, rest: Names)
    ensures Onward(names, Onward([name], rest)) == Onward(names + [name], rest)
  {
    if rest.Names? {
      assert names + ([name] + rest.names) == (names + [name]) + rest.names;
    }
  }

  lemma AppendToken(names: seq<Text>, name: Text)
    ensures TokensOf(names + [name]) == TokensOf(names) + [Token(name, IndexOfName(name))]
    ensures BufferUse(names + [name]) == BufferUse(names) + |name| + 1
  {
    assert (names + [name])[..|names|] == names;
  }

  function Further(name: Text, rest: Piece): Piece {
    match rest
    case Bad(code, offset) => Bad(code, offset)
    case Piece(bytes, next) => Piece(name + bytes, next)
  }

  lemma FurtherOne(name: Text, bytes: Text, rest: Piece)
    ensures Further(name, Further(bytes, rest)) == Further(name + bytes, rest)
  {
    if rest.Piece? {
      assert name + (bytes + rest.bytes) == (name + bytes) + rest.bytes;
    }
  }

  /** A prefix that overflowed stays without a value. */
  lemma {:induction false} Overflowed(name: Text, j: nat)
    requires j <= |name| && IndexValue(name[..j]) == None
    ensures IndexValue(name) == None
    decreases |name|
  {
    if j < |name| {
      assert name[..|name| - 1][..j] == name[..j];
      Overflowed(name[..|name| - 1], j);
    } else {
      assert name[..j] == name;
    }
  }

  lemma NotACharacter(name: Text, j: nat)
    requires j < |name| && CharLength(name, j) == 0
    ensures !IsValid(name, j)
  {}

  lemma NothingMore(name: Text, j: nat)
    requires j == |name|
    ensures IsValid(name, j) && FragmentName(name, j) == [] && EscapedToken(name[j..]) == []
  {}

  lemma NextEncodedPiece(name: Text, j: nat, before: Text)
    requires j < |name| && CharLength(name, j) > 0 && !Unreserved(name[j]) && name[j] != SOLIDUS
    ensures var end := j + CharLength(name, j);
      && end <= |name| && (IsValid(name, j) <==> IsValid(name, end))
      && (IsValid(name, j) ==>
            before + PercentEncoded(name[j..end]) + FragmentName(name, end) == before + FragmentName(name, j))
  {
    hide CharLength, PercentEncoded;
    CharacterFits(name, j);
    if IsValid(name, j) {
      assert FragmentName(name, j) == FragmentPiece(name, j) + FragmentName(name, j + CharLength(name, j));
    }
  }

  /** One byte written for one byte of the name. */
  lemma NextPiece(name: Text, j: nat, before: Text, os: Text, uriFragment: bool)
    requires j < |name| && (uriFragment ==> CharLength(name, j) == 1 && (Unreserved(name[j]) || name[j] == SOLIDUS))
    requires os == before + EscapedTokenByte(name[j])
    ensures uriFragment ==> (IsValid(name, j) <==> IsValid(name, j + 1))
    ensures uriFragment && IsValid(name, j) ==> os + FragmentName(name, j + 1) == before + FragmentName(name, j)
    ensures !uriFragment ==> os + EscapedToken(name[j + 1..]) == before + EscapedToken(name[j..])
  {
    hide CharLength, FragmentName, IsValid;
    if uriFragment {
      NextFragmentPiece(name, j, before, os);
    } else {
      assert name[j..][0] == name[j] && name[j..][1..] == name[j + 1..];
    }
  }

  lemma NextFragmentPiece(name: Text, j: nat, before: Text, os: Text)
    requires j < |name| && CharLength(name, j) == 1 && (Unreserved(name[j]) || name[j] == SOLIDUS)
    requires os == before + EscapedTokenByte(name[j])
    ensures IsValid(name, j) <==> IsValid(name, j + 1)
    ensures IsValid(name, j) ==> os + FragmentName(name, j + 1) == before + FragmentName(name, j)
  {
    hide CharLength, FragmentPiece, EscapedTokenByte, FragmentName;
    if IsValid(name, j) {
      SinglePiece(name, j);
      assert IsValid(name, j + 1);
      FragmentStep(name, j);
    }
  }

  lemma SinglePiece(name: Text, j: nat)
    requires j < |name| && IsValid(name, j) && CharLength(name, j) == 1 && (Unreserved(name[j]) || name[j] == SOLIDUS)
    ensures FragmentPiece(name, j) == EscapedTokenByte(name[j])
  {
    hide CharLength, IsValid, PercentEncoded;
  }

  lemma FragmentStep(name: Text, j: nat)
    requires j < |name| && IsValid(name, j) && CharLength(name, j) == 1 && IsValid(name, j + 1)
    ensures FragmentName(name, j) == FragmentPiece(name, j) + FragmentName(name, j + 1)
  {
    hide CharLength, IsValid, FragmentPiece;
  }

  /** A pointer with indices as Parse computes them, written and parsed again, is the same pointer. */
  method WriteThenParse(p: GenericPointer, uriFragment: bool) returns (ok: bool, q: GenericPointer)
    requires p.tokens == TokensOf(TokenNames(p.tokens))
    ensures ok <==> !uriFragment || AllValid(TokenNames(p.tokens))
    ensures ok ==> fresh(q) && q.parseErrorCode == None && q.tokens == p.tokens
  {
    hide IsValid, ParseNames;
    var os;
    ok, os := p.Stringify(uriFragment);
    q := new GenericPointer();
    if ok {
      q.Parse(os);
      if uriFragment {
        StringifyUriFragmentThenParse(TokenNames(p.tokens));
      } else {
        StringifyThenParse(TokenNames(p.tokens));
      }
    }
  }
}
