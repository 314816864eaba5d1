/** What an error of the pointer parser says: which part is in order, and what is wrong just behind it. */
module PointerFaults {
  import opened Bytes
  import opened Pointers
  import opened PointerSpellings
  import opened Utf8
  import Spellings
  import StringLexer

  /** The triplets of the UTF-8 character `b` stand at `k`. */
  predicate CharacterAt(source: Text, k: nat, b: Text) {
    b != [] && CharLength(b, 0) == |b| && k + 3 * |b| <= |source| && Triplets(source[k..k + 3 * |b|], b)
  }

  /**
   * What is wrong at `k`: in a fragment a character outside the alphabet or triplets of no UTF-8 character; in either form a
   * `~` without `0` or `1` behind it.
   */
  ghost predicate PieceFaulty(source: Text, k: nat, fragment: bool, code: PointerError, offset: nat) {
    var c := Peek(source, k);
    match code
    case CharacterMustPercentEncode => fragment && offset == k && !Plain(c) && c != 0x25
    case InvalidPercentEncoding => fragment && offset == k && c == 0x25 && forall b: Text :: !CharacterAt(source, k, b)
    case InvalidEscape =>
      && Peek(source, offset) != 0x30 && Peek(source, offset) != 0x31
      && ((c == 0x7E && offset == k + 1) || (fragment && offset == k + 3 && CharacterAt(source, k, [0x7E])))
    case TokenMustBeginWithSolidus => false
  }

  lemma PieceFault(source: Text, k: nat, fragment: bool)
    requires k < |source|
    ensures var r := PieceAt(source, k, fragment);
      r.Bad? ==> r.offset <= |source| && PieceFaulty(source, k, fragment, r.code, r.offset)
  {
    hide CharLength, PercentBytes, Plain, CharacterAt, Triplets;
    PlainIsUnreserved(source[k]);
    if fragment && source[k] == PERCENT {
      var bytes := PercentBytes(source, k);
      var n := CharLength(bytes, 0);
      TripletsFit(source, k);
      if n == 0 || n > |bytes| {
        forall b: Text
          ensures !CharacterAt(source, k, b)
        {
          NoCharacter(source, k, b);
        }
      } else if n == 1 && bytes[0] == TILDE {
        TildeAt(source, k);
      }
    }
  }

  lemma NoCharacter(source: Text, k: nat, b: Text)
    ensures CharacterAt(source, k, b) ==> CharLength(PercentBytes(source, k), 0) == |b| <= |PercentBytes(source, k)|
    ensures CharacterAt(source, k, b) ==> b != []
  {
    hide CharLength, PercentBytes, Triplets;
    if CharacterAt(source, k, b) {
      TripletsScan(source, k, source[k..k + 3 * |b|], b);
      FirstCharacter(b, PercentBytes(source, k));
    }
  }

  lemma TildeAt(source: Text, k: nat)
    requires PercentBytes(source, k) != [] && PercentBytes(source, k)[0] == TILDE
    ensures CharacterAt(source, k, [0x7E])
  {
    hide PercentBytes, Triplets;
    TripletsThere(source, k, 1);
    TildeLength();
    assert PercentBytes(source, k)[..1] == [0x7E];
  }

  // ---------------------------------------------------------------------------
  // Names
  // ---------------------------------------------------------------------------

  ghost predicate SpellsName(t: Text, name: Text, fragment: bool) {
    if fragment then SpellsFragmentName(t, name) else SpellsToken(t, name)
  }

  lemma TokenBehind(source: Text, i: nat, k: nat, rest: Text)
    requires i < |source| && source[i] != SOLIDUS && PieceAt(source, i, false).Piece?
    requires PieceAt(source, i, false).next <= k <= |source| && SpellsToken(source[PieceAt(source, i, false).next..k], rest)
    ensures SpellsToken(source[i..k], PieceAt(source, i, false).bytes + rest)
  {
    var piece, t := PieceAt(source, i, false), source[i..k];
    assert t[piece.next - i..] == source[piece.next..k];
    assert (piece.bytes + rest)[1..] == rest;
  }

  lemma PieceBehind(source: Text, i: nat, k: nat, rest: Text, fragment: bool)
    requires i < |source| && source[i] != SOLIDUS && PieceAt(source, i, fragment).Piece?
    requires PieceAt(source, i, fragment).next <= k <= |source|
    requires SpellsName(source[PieceAt(source, i, fragment).next..k], rest, fragment)
    ensures SpellsName(source[i..k], PieceAt(source, i, fragment).bytes + rest, fragment)
  {
    hide PieceAt, SpellsToken, SpellsFragmentName, FragmentOne;
    if fragment {
      var next := PieceAt(source, i, true).next;
      PieceIsSpelled(source, i);
      NameBehind(source[i..next], PieceAt(source, i, true).bytes, source[next..k], rest);
      assert source[i..next] + source[next..k] == source[i..k];
    } else {
      TokenBehind(source, i, k, rest);
    }
  }

  lemma {:induction false} NameFault(source: Text, i: nat, fragment: bool) returns (k: nat, b: Text)
    requires i <= |source| && NameAt(source, i, fragment).Bad?
    ensures var r := NameAt(source, i, fragment);
      && i <= k < |source| && SpellsName(source[i..k], b, fragment)
      && r.offset <= |source| && PieceFaulty(source, k, fragment, r.code, r.offset)
    decreases |source| - i
  {
    hide PieceAt, SpellsName, PieceFaulty;
    var piece := PieceAt(source, i, fragment);
    if piece.Bad? {
      PieceFault(source, i, fragment);
      NothingSpelled(source, i, fragment);
      return i, [];
    }
    var rest;
    k, rest := NameFault(source, piece.next, fragment);
    PieceBehind(source, i, k, rest, fragment);
    b := piece.bytes + rest;
  }

  lemma NothingSpelled(source: Text, i: nat, fragment: bool)
    requires i <= |source|
    ensures SpellsName(source[i..i], [], fragment)
  {
    assert source[i..i] == [];
  }

  lemma {:induction false} NameSpelled(source: Text, i: nat, fragment: bool)
    requires i <= |source| && NameAt(source, i, fragment).Piece?
    ensures var r := NameAt(source, i, fragment);
      SpellsName(source[i..r.next], r.bytes, fragment)
    decreases |source| - i
  {
    hide PieceAt, SpellsName;
    if i == |source| || source[i] == SOLIDUS {
      NothingSpelled(source, i, fragment);
    } else {
      var piece := PieceAt(source, i, fragment);
      NameSpelled(source, piece.next, fragment);
      PieceBehind(source, i, NameAt(source, i, fragment).next, NameAt(source, piece.next, fragment).bytes, fragment);
    }
  }

  // ---------------------------------------------------------------------------
  // Pointers
  // ---------------------------------------------------------------------------

  ghost predicate SpellsNames(t: Text, names: seq<Text>, fragment: bool) {
    if fragment then SpellsFragment(t, names) else SpellsPath(t, names)
  }

  lemma NameInFront(t: Text, i: nat, name: Text, names: seq<Text>, fragment: bool)
    requires 0 < i <= |t| && t[0] == SOLIDUS && SpellsName(t[1..i], name, fragment) && SpellsNames(t[i..], names, fragment)
    ensures SpellsNames(t, [name] + names, fragment)
  {
    hide SpellsFragmentName, SpellsToken;
    assert ([name] + names)[1..] == names;
  }

  ghost predicate SomeName(source: Text, lo: nat, hi: nat, fragment: bool) {
    lo <= hi <= |source| && exists b :: SpellsName(source[lo..hi], b, fragment)
  }

  ghost predicate SomeNames(source: Text, lo: nat, hi: nat, fragment: bool) {
    lo <= hi <= |source| && exists names :: SpellsNames(source[lo..hi], names, fragment)
  }

  /** A name behind the names before it, up to the `/` at `m`, is in order up to `k`, and there something is wrong. */
  ghost predicate FaultyBetween(source: Text, i: nat, m: nat, k: nat, fragment: bool, code: PointerError, offset: nat) {
    && i <= m < k < |source| && offset <= |source| && source[m] == 0x2F
    && SomeNames(source, i, m, fragment) && SomeName(source, m + 1, k, fragment)
    && PieceFaulty(source, k, fragment, code, offset)
  }

  lemma {:induction false} NamesFault(source: Text, i: nat, fragment: bool) returns (m: nat, k: nat, names: seq<Text>, b: Text)
    requires i <= |source| && (i < |source| ==> source[i] == SOLIDUS) && NamesAt(source, i, fragment).Wrong?
    ensures i <= m < k < |source| && source[m] == 0x2F
    ensures SpellsNames(source[i..m], names, fragment) && SpellsName(source[m + 1..k], b, fragment)
    ensures var r := NamesAt(source, i, fragment);
      r.offset <= |source| && PieceFaulty(source, k, fragment, r.code, r.offset)
    decreases |source| - i
  {
    hide NameAt, SpellsName, SpellsNames, PieceFaulty;
    var name := NameAt(source, i + 1, fragment);
    if name.Bad? {
      k, b := NameFault(source, i + 1, fragment);
      NoNames(fragment);
      m, names := i, [];
      assert source[i..i] == [];
    } else {
      var rest;
      m, k, rest, b := NamesFault(source, name.next, fragment);
      NameSpelled(source, i + 1, fragment);
      var t, n := source[i..m], name.next - i;
      Parts(source, i, name.next, m);
      NameInFront(t, n, name.bytes, rest, fragment);
      names := [name.bytes] + rest;
    }
  }

  lemma Parts(source: Text, i: nat, mid: nat, m: nat)
    requires i < mid <= m <= |source|
    ensures source[i..m][1..mid - i] == source[i + 1..mid] && source[i..m][mid - i..] == source[mid..m]
  {
    var a := source[i..m][1..mid - i];
    assert |a| == mid - (i + 1);
    assert forall k :: 0 <= k < |a| ==> a[k] == source[i + 1 + k] == source[i + 1..mid][k];
    assert a == source[i + 1..mid];
  }

  lemma NoNames(fragment: bool)
    ensures SpellsNames([], [], fragment)
  {}

  /** A pointer is refused for its beginning, or for what is wrong behind a part of it that is in order. */
  lemma PointerFault(source: Text)
    requires ParseNames(source).Wrong?
    ensures var code, offset, fragment := ParseNames(source).code, ParseNames(source).offset, Peek(source, 0) == 0x23;
      var first := if fragment then 1 else 0;
      if code == TokenMustBeginWithSolidus then offset == first < |source| && source[first] != 0x2F
      else exists m, k :: FaultyBetween(source, first, m, k, fragment, code, offset)
  {
    hide NamesAt, PieceFaulty, SpellsNames, SpellsName;
    var fragment := Peek(source, 0) == HASH;
    var first := if fragment then 1 else 0;
    if first == |source| || source[first] == SOLIDUS {
      var r := NamesAt(source, first, fragment);
      var m, k, names, b := NamesFault(source, first, fragment);
      NotTheBeginning(source, k, fragment, r.code, r.offset);
      assert FaultyBetween(source, first, m, k, fragment, r.code, r.offset);
    }
  }

  lemma NotTheBeginning(source: Text, k: nat, fragment: bool, code: PointerError, offset: nat)
    requires PieceFaulty(source, k, fragment, code, offset)
    ensures code != TokenMustBeginWithSolidus
  {}
}
