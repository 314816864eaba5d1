/** Reference tokens and the text of a JSON pointer, as section 3 of RFC 6901 writes them. */
module PointerTokens {
  import opened Bytes
  import Decimal

  /** One byte of a reference token: `~` and `/` are escaped. */
  function EscapedTokenByte(c: Byte): (t: Text)
    ensures |t| >= 1 && SOLIDUS !in t
  {
    if c == TILDE then [TILDE, ZERO] else if c == SOLIDUS then [TILDE, ZERO + 1] else [c]
  }

  function EscapedToken(token: Text): Text {
    if token == [] then [] else EscapedTokenByte(token[0]) + EscapedToken(token[1..])
  }

  function PathText(tokens: seq<Text>): Text {
    if tokens == [] then []
    else PathText(tokens[..|tokens| - 1]) + [SOLIDUS] + EscapedToken(tokens[|tokens| - 1])
  }

  /** Drops bytes from the end up to and including the last `/`. */
  function PopToken(path: Text): Text {
    if path == [] then []
    else if path[|path| - 1] == SOLIDUS then path[..|path| - 1]
    else PopToken(path[..|path| - 1])
  }

  lemma {:induction false} EscapedHasNoSolidus(token: Text)
    ensures SOLIDUS !in EscapedToken(token)
  {
    if token != [] {
      EscapedHasNoSolidus(token[1..]);
    }
  }

  lemma {:induction false} PopPiece(path: Text, piece: Text)
    requires SOLIDUS !in piece
    ensures PopToken(path + [SOLIDUS] + piece) == path
    decreases |piece|
  {
    var whole := path + [SOLIDUS] + piece;
    if piece == [] {
      assert whole[..|whole| - 1] == path;
    } else {
      assert piece[|piece| - 1] in piece;
      assert whole[..|whole| - 1] == path + [SOLIDUS] + piece[..|piece| - 1];
      PopPiece(path, piece[..|piece| - 1]);
    }
  }

  /** Popping to a `/` removes exactly the last token. */
  lemma PopLast(tokens: seq<Text>)
    requires tokens != []
    ensures PopToken(PathText(tokens)) == PathText(tokens[..|tokens| - 1])
  {
    EscapedHasNoSolidus(tokens[|tokens| - 1]);
    PopPiece(PathText(tokens[..|tokens| - 1]), EscapedToken(tokens[|tokens| - 1]));
  }

  lemma PathAppend(tokens: seq<Text>, token: Text)
    ensures PathText(tokens + [token]) == PathText(tokens) + [SOLIDUS] + EscapedToken(token)
  {
    assert (tokens + [token])[..|tokens|] == tokens;
  }

  lemma {:induction false} PlainToken(token: Text)
    requires forall k :: 0 <= k < |token| ==> token[k] != TILDE && token[k] != SOLIDUS
    ensures EscapedToken(token) == token
  {
    if token != [] {
      PlainToken(token[1..]);
    }
  }

  lemma IndexToken(n: nat)
    ensures EscapedToken(Decimal.Digits(n)) == Decimal.Digits(n)
  {
    Decimal.DigitsAreDigits(n);
    PlainToken(Decimal.Digits(n));
  }
}
