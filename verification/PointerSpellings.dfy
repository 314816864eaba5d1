/** JSON pointers as sections 3 and 6 of RFC 6901 spell them, against what GenericPointer parses and writes. */
module PointerSpellings {
  import opened Bytes
  import opened PointerTokens
  import opened Pointers
  import opened Utf8
  import Printing
  import Spellings
  import StringLexer

  // ---------------------------------------------------------------------------
  // RFC 6901, section 3
  // ---------------------------------------------------------------------------

  /** A reference token: `~0` stands for `~`, `~1` for `/`, everything else for itself. */
  predicate SpellsToken(t: Text, name: Text)
    decreases |t|
  {
    if t == [] then name == []
    else if t[0] == 0x7E then
      && |t| >= 2 && name != []
      && ((t[1] == 0x30 && name[0] == 0x7E) || (t[1] == 0x31 && name[0] == 0x2F))
      && SpellsToken(t[2..], name[1..])
    else
      t[0] != 0x2F && name != [] && name[0] == t[0] && SpellsToken(t[1..], name[1..])
  }

  /** A pointer: each token stands behind a `/`. */
  ghost predicate SpellsPath(t: Text, names: seq<Text>)
    decreases |t|
  {
    if t == [] then names == []
    else
      && t[0] == 0x2F && names != []
      && exists i: nat :: 0 < i <= |t| && SpellsToken(t[1..i], names[0]) && SpellsPath(t[i..], names[1..])
  }

  lemma {:induction false} TokenSpelling(t: Text, name: Text)
    ensures SpellsToken(t, name) <==> t == EscapedToken(name)
    decreases |t|
  {
    if t == [] {
      assert name != [] ==> EscapedToken(name) != [];
    } else if name != [] {
      var head := EscapedTokenByte(name[0]);
      if head <= t {
        TokenSpelling(t[|head|..], name[1..]);
        assert t == head + t[|head|..];
      }
      assert t == EscapedToken(name) ==> head <= t;
      assert SpellsToken(t, name) ==> head <= t;
    }
  }

  lemma FirstTokenOf(t: Text, names: seq<Text>) returns (i: nat)
    requires SpellsPath(t, names) && names != []
    ensures 0 < i <= |t| && t[0] == SOLIDUS && SpellsToken(t[1..i], names[0]) && SpellsPath(t[i..], names[1..])
  {
    hide SpellsToken;
    i :| 0 < i <= |t| && SpellsToken(t[1..i], names[0]) && SpellsPath(t[i..], names[1..]);
  }

  lemma TokenInFront(t: Text, names: seq<Text>, i: nat)
    requires names != [] && 0 < i <= |t| && t[0] == SOLIDUS && SpellsToken(t[1..i], names[0]) && SpellsPath(t[i..], names[1..])
    ensures SpellsPath(t, names)
  {
    hide SpellsToken;
  }

  /** The pointers that spell some names are the one Stringify writes. */
  lemma {:induction false} PathSpelling(t: Text, names: seq<Text>)
    ensures SpellsPath(t, names) <==> t == PathText(names)
    decreases |t|
  {
    hide SpellsToken, EscapedToken;
    if names != [] {
      hide PathText, SpellsPath;
      PathHead(names);
      if SpellsPath(t, names) {
        var i := FirstTokenOf(t, names);
        TokenSpelling(t[1..i], names[0]);
        PathSpelling(t[i..], names[1..]);
        assert t == [SOLIDUS] + t[1..i] + t[i..];
      }
      if t == PathText(names) {
        var i := 1 + |EscapedToken(names[0])|;
        assert t[1..i] == EscapedToken(names[0]) && t[i..] == PathText(names[1..]);
        TokenSpelling(t[1..i], names[0]);
        PathSpelling(t[i..], names[1..]);
        TokenInFront(t, names, i);
      }
    }
  }

  /** A plain pointer parses to some names exactly when RFC 6901 spells them so. */
  lemma PlainPointer(t: Text, names: seq<Text>)
    requires Peek(t, 0) != HASH
    ensures ParseNames(t) == Names(names) <==> SpellsPath(t, names)
  {
    hide ParseNames, SpellsPath, PathText;
    PathSpelling(t, names);
    StringifyThenParse(names);
    if ParseNames(t).Names? {
      ParseThenStringify(t);
    }
  }

  // ---------------------------------------------------------------------------
  // RFC 6901, section 6: URI fragments
  // ---------------------------------------------------------------------------

  /** ALPHA, DIGIT, `-`, `.`, `_` and `~`: section 2.3 of RFC 3986. */
  predicate Plain(c: Byte) {
    || 'A' as int <= c <= 'Z' as int || 'a' as int <= c <= 'z' as int || '0' as int <= c <= '9' as int
    || c == '-' as int || c == '.' as int || c == '_' as int || c == '~' as int
  }

  lemma PlainIsUnreserved(c: Byte)
    ensures Plain(c) <==> Unreserved(c)
  {}

  predicate AllPlain(t: Text) {
    forall k :: 0 <= k < |t| ==> Plain(t[k]) || t[k] == 0x2F
  }

  /** The same answer for a source that is one byte longer in front. */
  function Later(r: Names): Names {
    match r
    case Names(names) => r
    case Wrong(code, offset) => Wrong(code, offset + 1)
  }

  function LaterPiece(r: Piece): Piece {
    match r
    case Piece(bytes, next) => Piece(bytes, next + 1)
    case Bad(code, offset) => Bad(code, offset + 1)
  }

  lemma PlainPieces(path: Text, i: nat)
    requires i < |path| && Plain(path[i])
    ensures PieceAt([HASH] + path, i + 1, true) == LaterPiece(PieceAt(path, i, false))
  {
    hide PercentBytes, CharLength, Plain;
    PlainIsUnreserved(path[i]);
    var source := [HASH] + path;
    assert source[i + 1] == path[i];
    assert i + 1 < |path| ==> source[i + 2] == path[i + 1];
  }

  lemma {:induction false} PlainName(path: Text, i: nat)
    requires i <= |path| && AllPlain(path)
    ensures NameAt([HASH] + path, i + 1, true) == LaterPiece(NameAt(path, i, false))
    decreases |path| - i
  {
    hide PieceAt, Plain;
    var source := [HASH] + path;
    if i < |path| && path[i] != SOLIDUS {
      PlainPieces(path, i);
      var piece := PieceAt(path, i, false);
      if piece.Piece? {
        PlainName(path, piece.next);
      }
    }
  }

  lemma {:induction false} PlainNames(path: Text, i: nat)
    requires i <= |path| && AllPlain(path) && (i < |path| ==> path[i] == SOLIDUS)
    ensures NamesAt([HASH] + path, i + 1, true) == Later(NamesAt(path, i, false))
    decreases |path| - i
  {
    hide NameAt, AllPlain;
    var source := [HASH] + path;
    if i < |path| {
      PlainName(path, i + 1);
      var name := NameAt(path, i + 1, false);
      if name.Piece? {
        PlainNames(path, name.next);
      }
    }
  }

  /** Over unreserved characters and `/` a fragment is the plain pointer behind its `#`, errors included. */
  lemma PlainFragment(path: Text)
    requires AllPlain(path)
    ensures ParseNames([HASH] + path) == Later(ParseNames(path))
  {
    hide NamesAt, AllPlain, Plain;
    var source := [HASH] + path;
    NotHash(path);
    assert path != [] ==> source[1] == path[0];
    if path == [] || path[0] == SOLIDUS {
      PlainNames(path, 0);
    }
  }

  lemma NotHash(path: Text)
    requires AllPlain(path)
    ensures Peek(path, 0) != HASH
  {}

  /** One byte of a name in a fragment: an unreserved character, an escaped `~` or `/`, or a triplet with capital digits. */
  function FragmentByte(c: Byte): Text {
    if c == 0x7E then [0x7E, 0x30]
    else if c == 0x2F then [0x7E, 0x31]
    else if Plain(c) then [c]
    else [0x25, Spellings.UPPER_DIGITS[c / 0x10], Spellings.UPPER_DIGITS[c % 0x10]]
  }

  function FragmentBytes(name: Text): Text {
    if name == [] then [] else FragmentByte(name[0]) + FragmentBytes(name[1..])
  }

  lemma {:induction false} BytesConcat(a: Text, b: Text)
    ensures FragmentBytes(a + b) == FragmentBytes(a) + FragmentBytes(b)
    decreases |a|
  {
    hide FragmentByte;
    if a == [] {
      assert a + b == b;
    } else {
      assert (a + b)[0] == a[0] && (a + b)[1..] == a[1..] + b;
      BytesConcat(a[1..], b);
    }
  }

  lemma UpperDigit(d: nat)
    requires d < 0x10
    ensures Printing.HexDigit(d) == Spellings.UPPER_DIGITS[d]
  {}

  lemma {:induction false} EncodedBytes(bytes: Text)
    requires forall k :: 0 <= k < |bytes| ==> !Unreserved(bytes[k]) && bytes[k] != SOLIDUS
    ensures PercentEncoded(bytes) == FragmentBytes(bytes)
    decreases |bytes|
  {
    if bytes != [] {
      PlainIsUnreserved(bytes[0]);
      UpperDigit(bytes[0] / 0x10);
      UpperDigit(bytes[0] % 0x10);
      EncodedBytes(bytes[1..]);
    }
  }

  lemma CharacterBytes(name: Text, j: nat)
    requires j < |name| && IsValid(name, j)
    ensures CharLength(name, j) > 1 ==> forall k :: j <= k < j + TurnLength(name, j) ==> name[k] >= 0x80
    ensures name[j] < 0x80 ==> CharLength(name, j) == 1
  {
    CharacterFits(name, j);
  }

  lemma PieceBytes(name: Text, j: nat)
    requires j < |name| && IsValid(name, j)
    ensures FragmentPiece(name, j) == FragmentBytes(name[j..j + TurnLength(name, j)])
  {
    hide CharLength, IsValid, PercentEncoded, Plain;
    CharacterBytes(name, j);
    PlainIsUnreserved(name[j]);
    var n := TurnLength(name, j);
    var bytes := name[j..j + n];
    if name[j] != TILDE && name[j] != SOLIDUS && !Unreserved(name[j]) {
      EncodedBytes(bytes);
    } else {
      assert bytes == [name[j]] && bytes[1..] == [];
    }
  }

  /** In a fragment every byte of a name outside the alphabet stands inside a triplet, and those inside it stand for themselves. */
  lemma {:induction false} FragmentNameBytes(name: Text, j: nat)
    requires j <= |name| && IsValid(name, j)
    ensures FragmentName(name, j) == FragmentBytes(name[j..])
    decreases |name| - j
  {
    hide CharLength, FragmentPiece, FragmentByte;
    if j < |name| {
      var n := TurnLength(name, j);
      PieceBytes(name, j);
      FragmentNameBytes(name, j + n);
      BytesConcat(name[j..j + n], name[j + n..]);
      assert name[j..j + n] + name[j + n..] == name[j..];
    }
  }

  /** A name over the alphabet is written in a fragment as it is in a plain pointer. */
  lemma {:induction false} PlainNameWritten(name: Text)
    requires AllPlain(name)
    ensures FragmentBytes(name) == EscapedToken(name)
    decreases |name|
  {
    hide Plain;
    if name != [] {
      assert Plain(name[0]) || name[0] == 0x2F;
      assert AllPlain(name[1..]);
      PlainNameWritten(name[1..]);
    }
  }

  // ---------------------------------------------------------------------------
  // Exactly what a fragment may be
  // ---------------------------------------------------------------------------

  /** Percent-encoded octets, with hexadecimal digits of either case. */
  predicate Triplets(t: Text, b: Text)
    decreases |b|
  {
    if b == [] then t == []
    else
      && |t| >= 3 && t[0] == 0x25 && Spellings.SpellsDigit(t[1], b[0] / 0x10) && Spellings.SpellsDigit(t[2], b[0] % 0x10)
      && Triplets(t[3..], b[1..])
  }

  /**
   * One character of a name: unreserved and not `~`; an escaped `~` or `/`; the triplets of one UTF-8 character that is not
   * `~`; or the triplet of `~` before a plain `0` or `1`.
   */
  predicate FragmentOne(t: Text, b: Text) {
    || (|t| == 1 && Plain(t[0]) && t[0] != 0x7E && b == t)
    || (t == [0x7E, 0x30] && b == [0x7E])
    || (t == [0x7E, 0x31] && b == [0x2F])
    || (b != [] && CharLength(b, 0) == |b| && b != [0x7E] && Triplets(t, b))
    || (|t| == 4 && Triplets(t[..3], [0x7E]) && ((t[3] == 0x30 && b == [0x7E]) || (t[3] == 0x31 && b == [0x2F])))
  }

  ghost predicate SpellsFragmentName(t: Text, name: Text)
    decreases |t|
  {
    if t == [] then name == []
    else exists i: nat, j: nat ::
      0 < i <= |t| && j <= |name| && FragmentOne(t[..i], name[..j]) && SpellsFragmentName(t[i..], name[j..])
  }

  /** A whole fragment behind its `#`. */
  ghost predicate SpellsFragment(t: Text, names: seq<Text>)
    decreases |t|
  {
    if t == [] then names == []
    else
      && t[0] == 0x2F && names != []
      && exists i: nat :: 0 < i <= |t| && SpellsFragmentName(t[1..i], names[0]) && SpellsFragment(t[i..], names[1..])
  }

  lemma {:induction false} TripletsScan(source: Text, i: nat, t: Text, b: Text)
    requires At(source, i, t) && Triplets(t, b)
    ensures |t| == 3 * |b| && b <= PercentBytes(source, i)
    decreases |b|
  {
    hide StringLexer.HexValue, Spellings.SpellsDigit;
    if b != [] {
      assert t == t[..3] + t[3..];
      AtSplit(source, i, t[..3], t[3..]);
      AtPeek(source, i, t, 0);
      AtPeek(source, i, t, 1);
      AtPeek(source, i, t, 2);
      Spellings.DigitMeans(t[1], b[0] / 0x10);
      Spellings.DigitMeans(t[2], b[0] % 0x10);
      TripletsScan(source, i + 3, t[3..], b[1..]);
      assert b == [b[0]] + b[1..];
    }
  }

  lemma {:induction false} TripletsThere(source: Text, i: nat, n: nat)
    requires n <= |PercentBytes(source, i)|
    ensures i + 3 * n <= |source| || n == 0
    ensures n > 0 ==> Triplets(source[i..i + 3 * n], PercentBytes(source, i)[..n])
    decreases n
  {
    hide StringLexer.HexValue, Spellings.SpellsDigit;
    if n > 0 {
      var b := PercentBytes(source, i);
      TripletsThere(source, i + 3, n - 1);
      var hi, lo := StringLexer.HexValue(source[i + 1]), StringLexer.HexValue(source[i + 2]);
      assert b[0] / 0x10 == hi && b[0] % 0x10 == lo;
      Spellings.DigitMeans(source[i + 1], hi);
      Spellings.DigitMeans(source[i + 2], lo);
      assert b[1..] == PercentBytes(source, i + 3);
      var t := source[i..i + 3 * n];
      assert b[..n][1..] == b[1..][..n - 1];
      if n == 1 {
        assert t[3..] == [] && b[..n][1..] == [];
      } else {
        assert t[3..] == source[i + 3..i + 3 + 3 * (n - 1)];
      }
    }
  }

  lemma FirstCharacter(b: Text, bytes: Text)
    requires b != [] && CharLength(b, 0) == |b| && b <= bytes
    ensures CharLength(bytes, 0) == |b| && bytes[..|b|] == b
    ensures |b| == 1 ==> b[0] <= 0x7F
  {
    assert bytes == b + bytes[|b|..];
    SameLength(b, bytes[|b|..], 0);
  }

  lemma FragmentOneIsRead(source: Text, i: nat, t: Text, b: Text)
    requires At(source, i, t) && FragmentOne(t, b)
    ensures t != [] && i < |source| && source[i] != SOLIDUS && PieceAt(source, i, true) == Piece(b, i + |t|)
  {
    hide PercentBytes, CharLength, StringLexer.HexValue, Spellings.SpellsDigit;
    if |t| == 4 && Triplets(t[..3], [0x7E]) && t[3] != 0x25 {
      assert t == t[..3] + t[3..];
      AtSplit(source, i, t[..3], t[3..]);
      AtPeek(source, i, t, 0);
      AtPeek(source, i, t, 3);
      TripletsScan(source, i, t[..3], [0x7E]);
      TildeLength();
      FirstCharacter([0x7E], PercentBytes(source, i));
      TripletsLength(t, b);
    } else if b != [] && CharLength(b, 0) == |b| && b != [0x7E] && Triplets(t, b) {
      AtPeek(source, i, t, 0);
      TripletsScan(source, i, t, b);
      FirstCharacter(b, PercentBytes(source, i));
      assert PercentBytes(source, i)[..|b|] == b;
      assert |b| == 1 ==> b == [b[0]];
    } else {
      AtPeek(source, i, t, 0);
      if |t| == 2 {
        AtPeek(source, i, t, 1);
      } else {
        PlainIsUnreserved(t[0]);
        assert t == [t[0]];
      }
    }
  }

  lemma TildeLength()
    ensures CharLength([0x7E], 0) == 1
  {}

  lemma {:induction false} TripletsLength(t: Text, b: Text)
    ensures Triplets(t, b) ==> |t| == 3 * |b|
    decreases |b|
  {
    hide Spellings.SpellsDigit;
    if b != [] && |t| >= 3 {
      TripletsLength(t[3..], b[1..]);
    }
  }

  // ---------------------------------------------------------------------------
  // What is spelled is parsed, and the converse
  // ---------------------------------------------------------------------------

  lemma NameStep(source: Text, i: nat, b: Text, next: nat, rest: Text, end: nat)
    requires i < |source| && source[i] != SOLIDUS && PieceAt(source, i, true) == Piece(b, next) && i < next <= |source|
    requires NameAt(source, next, true) == Piece(rest, end)
    ensures NameAt(source, i, true) == Piece(b + rest, end)
  {
    hide PieceAt;
  }

  lemma FirstCharacterOf(t: Text, name: Text) returns (k: nat, j: nat)
    requires SpellsFragmentName(t, name) && t != []
    ensures 0 < k <= |t| && j <= |name| && FragmentOne(t[..k], name[..j]) && SpellsFragmentName(t[k..], name[j..])
  {
    hide FragmentOne;
    k, j :| 0 < k <= |t| && j <= |name| && FragmentOne(t[..k], name[..j]) && SpellsFragmentName(t[k..], name[j..]);
  }

  lemma NoName(source: Text, i: nat, name: Text)
    requires i <= |source| && SpellsFragmentName([], name) && EndsAt(source, i)
    ensures NameAt(source, i, true) == Piece(name, i)
  {}

  lemma {:induction false} FragmentNameIsRead(source: Text, i: nat, t: Text, name: Text)
    requires At(source, i, t) && SpellsFragmentName(t, name) && EndsAt(source, i + |t|)
    ensures NameAt(source, i, true) == Piece(name, i + |t|)
    decreases |t|
  {
    hide PieceAt, FragmentOne, SpellsFragmentName, NameAt, EndsAt;
    if t == [] {
      NoName(source, i, name);
    } else {
      var k, j := FirstCharacterOf(t, name);
      assert t == t[..k] + t[k..] && name == name[..j] + name[j..];
      AtSplit(source, i, t[..k], t[k..]);
      FragmentOneIsRead(source, i, t[..k], name[..j]);
      FragmentNameIsRead(source, i + k, t[k..], name[j..]);
      NameStep(source, i, name[..j], i + k, name[j..], i + |t|);
    }
  }

  lemma TokenParts(source: Text, i: nat, t: Text, k: nat)
    requires At(source, i, t) && 0 < k <= |t|
    ensures i < |source| && source[i] == t[0] && At(source, i + 1, t[1..k]) && At(source, i + k, t[k..])
  {
    assert t == t[..1] + (t[1..k] + t[k..]);
    AtSplit(source, i, t[..1], t[1..k] + t[k..]);
    AtSplit(source, i + 1, t[1..k], t[k..]);
    AtPeek(source, i, t, 0);
  }

  lemma {:induction false} FragmentIsRead(source: Text, i: nat, t: Text, names: seq<Text>)
    requires At(source, i, t) && i + |t| == |source| && SpellsFragment(t, names)
    ensures i < |source| ==> source[i] == SOLIDUS
    ensures NamesAt(source, i, true) == Names(names)
    decreases |t|
  {
    hide NameAt, SpellsFragmentName, NamesAt;
    if t == [] {
      NamesEnd(source, i, true);
    } else {
      var k: nat :| 0 < k <= |t| && SpellsFragmentName(t[1..k], names[0]) && SpellsFragment(t[k..], names[1..]);
      hide SpellsFragment, At;
      TokenParts(source, i, t, k);
      FragmentIsRead(source, i + k, t[k..], names[1..]);
      FragmentNameIsRead(source, i + 1, t[1..k], names[0]);
      NamesStep(source, i, true, names);
    }
  }

  lemma PieceIsSpelled(source: Text, i: nat)
    requires i < |source| && source[i] != SOLIDUS && PieceAt(source, i, true).Piece?
    ensures var piece := PieceAt(source, i, true);
      i < piece.next <= |source| && FragmentOne(source[i..piece.next], piece.bytes)
  {
    hide PercentBytes, CharLength, StringLexer.HexValue, Spellings.SpellsDigit;
    var piece := PieceAt(source, i, true);
    var t := source[i..piece.next];
    if source[i] == PERCENT {
      var bytes := PercentBytes(source, i);
      var n := CharLength(bytes, 0);
      TripletsThere(source, i, n);
      WholeCharacter(bytes, n);
      if n == 1 && bytes[0] == TILDE {
        assert bytes[..1] == [0x7E] && t[..3] == source[i..i + 3];
      } else {
        assert n == 1 ==> bytes[..1] == [bytes[0]];
        assert t == source[i..i + 3 * n] && piece.bytes == bytes[..n];
      }
    } else {
      PlainIsUnreserved(source[i]);
    }
  }

  lemma WholeCharacter(bytes: Text, n: nat)
    requires n == CharLength(bytes, 0) && 0 < n <= |bytes|
    ensures CharLength(bytes[..n], 0) == n
  {
    assert bytes == bytes[..n] + bytes[n..];
    SameLength(bytes[..n], bytes[n..], 0);
  }

  lemma {:induction false} NameIsSpelled(source: Text, i: nat)
    requires i <= |source| && NameAt(source, i, true).Piece?
    ensures SpellsFragmentName(source[i..NameAt(source, i, true).next], NameAt(source, i, true).bytes)
    decreases |source| - i
  {
    hide PieceAt, FragmentOne;
    var name := NameAt(source, i, true);
    if i == |source| || source[i] == SOLIDUS {
      assert source[i..name.next] == [];
    } else {
      var piece := PieceAt(source, i, true);
      PieceIsSpelled(source, i);
      NameIsSpelled(source, piece.next);
      var t, k, j := source[i..name.next], piece.next - i, |piece.bytes|;
      assert t[..k] == source[i..piece.next] && t[k..] == source[piece.next..name.next];
      assert name.bytes[..j] == piece.bytes && name.bytes[j..] == NameAt(source, piece.next, true).bytes;
    }
  }

  lemma {:induction false} NamesAreSpelled(source: Text, i: nat)
    requires i <= |source| && (i < |source| ==> source[i] == SOLIDUS) && NamesAt(source, i, true).Names?
    ensures SpellsFragment(source[i..], NamesAt(source, i, true).names)
    decreases |source| - i
  {
    hide NameAt, SpellsFragmentName;
    if i < |source| {
      var name := NameAt(source, i + 1, true);
      NameIsSpelled(source, i + 1);
      NamesAreSpelled(source, name.next);
      var t, k, names := source[i..], name.next - i, NamesAt(source, i, true).names;
      assert t[1..k] == source[i + 1..name.next] && t[k..] == source[name.next..];
      assert names[0] == name.bytes && names[1..] == NamesAt(source, name.next, true).names;
    }
  }

  /** A URI fragment parses to some names exactly when it spells them so. */
  lemma FragmentPointer(t: Text, names: seq<Text>)
    ensures ParseNames([HASH] + t) == Names(names) <==> SpellsFragment(t, names)
  {
    hide NamesAt, SpellsFragmentName;
    var source := [HASH] + t;
    assert source[1..] == t && source[1..1 + |t|] == t;
    if SpellsFragment(t, names) {
      FragmentIsRead(source, 1, t, names);
    }
    if ParseNames(source) == Names(names) {
      NamesAreSpelled(source, 1);
    }
  }

  // ---------------------------------------------------------------------------
  // Section 6 decodes first
  // ---------------------------------------------------------------------------

  /** The octet of a triplet at the head of `t`. */
  function HeadOctet(t: Text): Byte
    requires Triplet(t, 0)
  {
    0x10 * StringLexer.HexValue(t[1]) + StringLexer.HexValue(t[2])
  }

  /** Percent-decoding of a whole text, as section 6 of RFC 6901 asks before it is evaluated as a pointer. */
  function Decoded(t: Text): Text
    decreases |t|
  {
    if t == [] then []
    else if Triplet(t, 0) then [HeadOctet(t)] + Decoded(t[3..])
    else [t[0]] + Decoded(t[1..])
  }

  /** How many triplets encode a `/`. */
  function EncodedSolidi(t: Text): nat
    decreases |t|
  {
    if t == [] then 0
    else if Triplet(t, 0) then (if HeadOctet(t) == 0x2F then 1 else 0) + EncodedSolidi(t[3..])
    else EncodedSolidi(t[1..])
  }

  /** How many bytes are `/`. */
  function PlainSolidi(t: Text): nat {
    if t == [] then 0 else (if t[0] == 0x2F then 1 else 0) + PlainSolidi(t[1..])
  }

  lemma {:induction false} SolidiFrom(t: Text, i: nat)
    requires i <= |t|
    ensures Solidi(t, i) == PlainSolidi(t[i..])
    decreases |t| - i
  {
    if i < |t| {
      SolidiFrom(t, i + 1);
      assert t[i..][1..] == t[i + 1..];
    }
  }

  lemma {:induction false} DecodedSolidi(t: Text)
    ensures PlainSolidi(Decoded(t)) == PlainSolidi(t) + EncodedSolidi(t)
    decreases |t|
  {
    if t != [] {
      if Triplet(t, 0) {
        DecodedSolidi(t[3..]);
        DigitsNotSolidus(t);
        assert t[1..][0] == t[1] && t[2..][0] == t[2] && t[1..][1..] == t[2..] && t[2..][1..] == t[3..];
        assert PlainSolidi(t) == PlainSolidi(t[1..]) == PlainSolidi(t[2..]) == PlainSolidi(t[3..]);
        assert ([HeadOctet(t)] + Decoded(t[3..]))[1..] == Decoded(t[3..]);
      } else {
        DecodedSolidi(t[1..]);
        assert ([t[0]] + Decoded(t[1..]))[1..] == Decoded(t[1..]);
      }
    }
  }

  lemma DigitsNotSolidus(t: Text)
    requires Triplet(t, 0)
    ensures t[0] != 0x2F && t[1] != 0x2F && t[2] != 0x2F
  {}

  lemma {:induction false} TripletsDecoded(t: Text, b: Text, rest: Text)
    requires Triplets(t, b)
    ensures Decoded(t + rest) == b + Decoded(rest)
    ensures EncodedSolidi(t + rest) == PlainSolidi(b) + EncodedSolidi(rest)
    decreases |b|
  {
    hide StringLexer.HexValue, Spellings.SpellsDigit;
    if b == [] {
      assert t + rest == rest;
    } else {
      Spellings.DigitMeans(t[1], b[0] / 0x10);
      Spellings.DigitMeans(t[2], b[0] % 0x10);
      var whole := t + rest;
      assert whole[3..] == t[3..] + rest;
      assert Triplet(whole, 0) && HeadOctet(whole) == b[0];
      TripletsDecoded(t[3..], b[1..], rest);
      assert [b[0]] + b[1..] == b;
    }
  }

  lemma PlainDecoded(t: Text)
    requires t != [] && t[0] != 0x25
    ensures Decoded(t) == [t[0]] + Decoded(t[1..]) && EncodedSolidi(t) == EncodedSolidi(t[1..])
  {}

  lemma {:induction false} EscapedTogether(a: Text, b: Text)
    ensures EscapedToken(a + b) == EscapedToken(a) + EscapedToken(b)
    decreases |a|
  {
    hide EscapedTokenByte;
    if a == [] {
      assert a + b == b;
    } else {
      assert (a + b)[0] == a[0] && (a + b)[1..] == a[1..] + b;
      EscapedTogether(a[1..], b);
    }
  }

  lemma SingleEscaped(c: Byte)
    ensures EscapedToken([c]) == EscapedTokenByte(c)
  {
    assert [c][1..] == [];
  }

  /** A character that is not one octet consists of octets that are neither `~` nor `/`. */
  lemma WideEscaped(b: Text)
    requires b != [] && CharLength(b, 0) == |b| && b != [0x7E]
    ensures PlainSolidi(b) == (if b == [0x2F] then 1 else 0)
    ensures b != [0x2F] ==> EscapedToken(b) == b
  {
    if |b| == 1 {
      assert b == [b[0]] && b[1..] == [];
      SingleEscaped(b[0]);
    } else {
      WideOctets(b);
      NoSolidusThere(b);
      PlainToken(b);
    }
  }

  lemma WideOctets(b: Text)
    requires |b| > 1 && CharLength(b, 0) == |b|
    ensures forall k :: 0 <= k < |b| ==> b[k] >= 0x80
  {}

  lemma {:induction false} NoSolidusThere(b: Text)
    requires forall k :: 0 <= k < |b| ==> b[k] >= 0x80
    ensures PlainSolidi(b) == 0
    decreases |b|
  {
    if b != [] {
      NoSolidusThere(b[1..]);
    }
  }

  /** One character of a fragment, decoded: the escaped text of what it stands for, or a bare `/`. */
  lemma OneDecoded(t: Text, b: Text, rest: Text)
    requires FragmentOne(t, b)
    ensures var encoded := EncodedSolidi(t + rest) - EncodedSolidi(rest);
      && encoded >= 0
      && (encoded == 0 ==> Decoded(t + rest) == EscapedToken(b) + Decoded(rest))
  {
    hide CharLength, EscapedToken, Decoded, EncodedSolidi, PlainSolidi, Triplets;
    if |t| == 4 && Triplets(t[..3], [0x7E]) && t[3] != 0x25 {
      TripletsLength(t, b);
      TripletsDecoded(t[..3], [0x7E], t[3..] + rest);
      assert t + rest == t[..3] + (t[3..] + rest);
      PlainDecoded(t[3..] + rest);
      assert (t[3..] + rest)[1..] == rest;
      SingleSolidi(0x7E);
      SingleEscaped(b[0]);
    } else if b != [] && CharLength(b, 0) == |b| && b != [0x7E] && Triplets(t, b) {
      TripletsDecoded(t, b, rest);
      WideEscaped(b);
    } else {
      PlainDecoded(t + rest);
      assert (t + rest)[1..] == t[1..] + rest;
      SingleEscaped(b[0]);
      if |t| == 2 {
        PlainDecoded(t[1..] + rest);
        assert (t[1..] + rest)[1..] == rest;
      } else {
        assert t[1..] + rest == rest && t == [t[0]];
      }
    }
  }

  lemma SingleSolidi(c: Byte)
    ensures PlainSolidi([c]) == if c == 0x2F then 1 else 0
  {
    assert [c][1..] == [];
  }

  lemma Cut(t: Text, i: nat, rest: Text)
    requires i <= |t|
    ensures t + rest == t[..i] + (t[i..] + rest) && t == t[..i] + t[i..]
  {}

  lemma Grouped(a: Text, b: Text, c: Text)
    ensures a + (b + c) == (a + b) + c
  {}

  lemma {:induction false} NameDecoded(t: Text, name: Text, rest: Text)
    requires SpellsFragmentName(t, name)
    ensures EncodedSolidi(t + rest) >= EncodedSolidi(rest)
    ensures EncodedSolidi(t + rest) == EncodedSolidi(rest) ==> Decoded(t + rest) == EscapedToken(name) + Decoded(rest)
    decreases |t|
  {
    hide FragmentOne, Decoded, EncodedSolidi;
    if t == [] {
      assert t + rest == rest && EscapedToken(name) + Decoded(rest) == Decoded(rest);
    } else {
      var i: nat, j: nat :| 0 < i <= |t| && j <= |name| && FragmentOne(t[..i], name[..j]) && SpellsFragmentName(t[i..], name[j..]);
      hide EscapedToken, SpellsFragmentName;
      NameDecoded(t[i..], name[j..], rest);
      OneDecoded(t[..i], name[..j], t[i..] + rest);
      Cut(t, i, rest);
      Cut(name, j, []);
      EscapedTogether(name[..j], name[j..]);
      Grouped(EscapedToken(name[..j]), EscapedToken(name[j..]), Decoded(rest));
    }
  }

  lemma {:induction false} FragmentDecoded(t: Text, names: seq<Text>)
    requires SpellsFragment(t, names) && EncodedSolidi(t) == 0
    ensures Decoded(t) == PathText(names)
    decreases |t|
  {
    hide SpellsFragmentName, Decoded, EncodedSolidi;
    if t == [] {
      assert Decoded(t) == [] by { NothingDecoded(); }
    } else {
      var i: nat :| 0 < i <= |t| && SpellsFragmentName(t[1..i], names[0]) && SpellsFragment(t[i..], names[1..]);
      hide SpellsFragment;
      PlainDecoded(t);
      assert t[1..] == t[1..i] + t[i..];
      NameDecoded(t[1..i], names[0], t[i..]);
      FragmentDecoded(t[i..], names[1..]);
      PathHead(names);
    }
  }

  lemma NothingDecoded()
    ensures Decoded([]) == []
  {}

  /**
   * Where the parser accepts a fragment, it reads what section 6 of RFC 6901 means, the pointer that the decoded text is,
   * exactly if no `/` is percent-encoded: an encoded one becomes part of a name instead of separating two.
   */
  lemma FragmentMeaning(t: Text, names: seq<Text>)
    requires ParseNames([HASH] + t) == Names(names)
    ensures t == [] || Decoded(t)[0] == SOLIDUS
    ensures ParseNames(Decoded(t)) == Names(names) <==> EncodedSolidi(t) == 0
  {
    hide ParseNames, SpellsFragment, SpellsPath, PathText, Decoded, EncodedSolidi;
    FragmentPointer(t, names);
    FragmentHead(t, names);
    if EncodedSolidi(t) == 0 {
      FragmentDecoded(t, names);
      StringifyThenParse(names);
    }
    if ParseNames(Decoded(t)) == Names(names) {
      DecodedCount(t, names);
    }
  }

  lemma FragmentHead(t: Text, names: seq<Text>)
    requires SpellsFragment(t, names)
    ensures t == [] || Decoded(t)[0] == SOLIDUS
  {
    if t != [] {
      PlainDecoded(t);
    }
  }

  lemma DecodedCount(t: Text, names: seq<Text>)
    requires ParseNames([HASH] + t) == Names(names) && ParseNames(Decoded(t)) == Names(names)
    requires t == [] || Decoded(t)[0] == SOLIDUS
    ensures EncodedSolidi(t) == 0
  {
    hide NamesAt, Decoded, EncodedSolidi;
    var source, decoded := [HASH] + t, Decoded(t);
    if t == [] {
      NothingDecoded();
    }
    NamesCountSolidi(source, 1, true);
    NamesCountSolidi(decoded, 0, false);
    SolidiFrom(source, 1);
    SolidiFrom(decoded, 0);
    assert source[1..] == t && decoded[0..] == decoded;
    DecodedSolidi(t);
  }

  /** `#/a%2Fb` names the member `a/b` of the root; decoded it would be the member `b` of the member `a`. */
  lemma EncodedSolidusExample()
    ensures var t: Text := [0x2F, 0x61, 0x25, 0x32, 0x46, 0x62];
      && ParseNames([HASH] + t) == Names([[0x61, 0x2F, 0x62]])
      && ParseNames(Decoded(t)) == Names([[0x61], [0x62]])
  {
    hide ParseNames, Decoded, PathText, SpellsFragment;
    ExampleName();
    FragmentPointer([0x2F, 0x61, 0x25, 0x32, 0x46, 0x62], [[0x61, 0x2F, 0x62]]);
    ExampleDecoded();
    StringifyThenParse([[0x61], [0x62]]);
  }

  lemma ExampleName()
    ensures SpellsFragment([0x2F, 0x61, 0x25, 0x32, 0x46, 0x62], [[0x61, 0x2F, 0x62]])
  {
    ExampleCharacters();
    hide FragmentOne, SpellsFragmentName, SpellsFragment;
    NameBehind([0x62], [0x62], [], []);
    assert [0x62] + [] == [0x62];
    NameBehind([0x25, 0x32, 0x46], [0x2F], [0x62], [0x62]);
    assert [0x25, 0x32, 0x46] + [0x62] == [0x25, 0x32, 0x46, 0x62] && [0x2F] + [0x62] == [0x2F, 0x62];
    NameBehind([0x61], [0x61], [0x25, 0x32, 0x46, 0x62], [0x2F, 0x62]);
    assert [0x61] + [0x25, 0x32, 0x46, 0x62] == [0x61, 0x25, 0x32, 0x46, 0x62] && [0x61] + [0x2F, 0x62] == [0x61, 0x2F, 0x62];
    OneName([0x61, 0x25, 0x32, 0x46, 0x62], [0x61, 0x2F, 0x62]);
    assert [0x2F] + [0x61, 0x25, 0x32, 0x46, 0x62] == [0x2F, 0x61, 0x25, 0x32, 0x46, 0x62];
  }

  lemma OneName(t: Text, name: Text)
    requires SpellsFragmentName(t, name)
    ensures SpellsFragment([0x2F] + t, [name])
  {
    hide SpellsFragmentName;
    var whole: Text := [0x2F] + t;
    assert whole[1..] == whole[1..|whole|] == t && whole[|whole|..] == [] && [name][1..] == [];
    assert SpellsFragment(whole[|whole|..], [name][1..]);
  }

  lemma ExampleCharacters()
    ensures FragmentOne([0x25, 0x32, 0x46], [0x2F]) && FragmentOne([0x61], [0x61]) && FragmentOne([0x62], [0x62])
    ensures SpellsFragmentName([], [])
  {
    assert [0x25, 0x32, 0x46][3..] == [] && [0x2F][1..] == [];
    assert Triplets([0x25, 0x32, 0x46], [0x2F]);
  }

  lemma NameBehind(one: Text, b: Text, t: Text, name: Text)
    requires one != [] && FragmentOne(one, b) && SpellsFragmentName(t, name)
    ensures SpellsFragmentName(one + t, b + name)
  {
    hide FragmentOne;
    assert (one + t)[..|one|] == one && (one + t)[|one|..] == t;
    assert (b + name)[..|b|] == b && (b + name)[|b|..] == name;
  }

  lemma ExampleDecoded()
    ensures Decoded([0x2F, 0x61, 0x25, 0x32, 0x46, 0x62]) == PathText([[0x61], [0x62]])
  {
    var t: Text := [0x2F, 0x61, 0x25, 0x32, 0x46, 0x62];
    assert t[1..] == [0x61, 0x25, 0x32, 0x46, 0x62] && t[1..][1..] == [0x25, 0x32, 0x46, 0x62];
    assert t[1..][1..][3..] == [0x62] && [0x62][1..] == [];
    assert Decoded([0x62]) == [0x62];
    assert Decoded(t[1..][1..]) == [0x2F, 0x62];
    assert Decoded(t) == [0x2F, 0x61, 0x2F, 0x62];
    var names: seq<Text> := [[0x61], [0x62]];
    SingleEscaped(0x61);
    SingleEscaped(0x62);
    assert names[..1] == [[0x61]] && names[..1][..0] == [];
    assert PathText(names[..1]) == [0x2F, 0x61];
  }

  /** `#/%7E%30` is refused, though decoded it is `/~0`. */
  lemma EncodedTildeExample()
    ensures var t: Text := [0x2F, 0x25, 0x37, 0x45, 0x25, 0x33, 0x30];
      ParseNames([HASH] + t).Wrong? && Decoded(t) == [0x2F, 0x7E, 0x30] && ParseNames(Decoded(t)) == Names([[0x7E]])
  {
    var t: Text := [0x2F, 0x25, 0x37, 0x45, 0x25, 0x33, 0x30];
    assert t[1..] == [0x25, 0x37, 0x45, 0x25, 0x33, 0x30] && t[1..][3..] == [0x25, 0x33, 0x30] && [0x25, 0x33, 0x30][3..] == [];
    assert Decoded([0x25, 0x33, 0x30]) == [0x30];
    assert Decoded(t[1..]) == [0x7E, 0x30];
    assert Decoded(t) == [0x2F, 0x7E, 0x30];
    SingleEscaped(0x7E);
    var names: seq<Text> := [[0x7E]];
    assert names[..0] == [];
    assert PathText(names) == [0x2F, 0x7E, 0x30];
    StringifyThenParse(names);
    TildeRefused();
  }

  lemma TildeRefused()
    ensures ParseNames([HASH, 0x2F, 0x25, 0x37, 0x45, 0x25, 0x33, 0x30]).Wrong?
  {
    var source: Text := [HASH, 0x2F, 0x25, 0x37, 0x45, 0x25, 0x33, 0x30];
    var bytes := PercentBytes(source, 2);
    assert PercentBytes(source, 8) == [];
    assert PercentBytes(source, 5) == [0x30];
    assert bytes == [0x7E, 0x30];
    assert PieceAt(source, 2, true) == Bad(InvalidEscape, 5);
  }
}
