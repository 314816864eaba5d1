/** The text a JSON value is written as. */
module Printing {
  import opened Bytes
  import opened Values
  import Decimal

  function HexDigit(d: nat): Byte
    requires d < 0x10
  {
    if d < 10 then ZERO + d else 0x41 + (d - 10)
  }

  /** The writer's escape table: 0 for bytes copied as they are, `u` for \u00XX. */
  function EscapeCode(c: Byte): Byte {
    if c == 0x08 then LOWER_B
    else if c == 0x09 then LOWER_T
    else if c == 0x0A then LOWER_N
    else if c == 0x0C then LOWER_F
    else if c == 0x0D then LOWER_R
    else if c < 0x20 then LOWER_U
    else if c == QUOTE || c == BACKSLASH then c
    else 0
  }

  /** One byte of a string literal. */
  function Escaped(c: Byte): (t: Text)
    ensures 1 <= |t| <= 6
  {
    if EscapeCode(c) == 0 then [c]
    else if EscapeCode(c) == LOWER_U then [BACKSLASH, LOWER_U, ZERO, ZERO, HexDigit(c / 0x10), HexDigit(c % 0x10)]
    else [BACKSLASH, EscapeCode(c)]
  }

  function EscapedAll(bytes: Text): (t: Text)
    ensures |t| <= 6 * |bytes|
  {
    if bytes == [] then [] else Escaped(bytes[0]) + EscapedAll(bytes[1..])
  }

  /** A string literal. */
  function Quoted(bytes: Text): Text {
    [QUOTE] + EscapedAll(bytes) + [QUOTE]
  }

  const NULL: Text := [LOWER_N, LOWER_U, LOWER_L, LOWER_L]
  const TRUE: Text := [LOWER_T, LOWER_R, LOWER_U, LOWER_E]
  const FALSE: Text := [LOWER_F, LOWER_A, LOWER_L, LOWER_S, LOWER_E]

  /** Compact JSON. */
  function Print(v: Value): Text
    requires DoubleFree(v)
    decreases v
  {
    match v
    case Null => NULL
    case Bool(b) => if b then TRUE else FALSE
    case Integer(n) => Decimal.Signed(n)
    case String(bytes) => Quoted(bytes)
    case Array(elements) => [LBRACKET] + ElementsText(elements, true) + [RBRACKET]
    case Object(members) => [LBRACE] + MembersText(members, true) + [RBRACE]
  }

  predicate AllDoubleFree(elements: seq<Value>) {
    forall i :: 0 <= i < |elements| ==> DoubleFree(elements[i])
  }

  predicate MembersDoubleFree(members: seq<Member>) {
    forall i :: 0 <= i < |members| ==> DoubleFree(members[i].value)
  }

  /** Elements, each after the first preceded by a comma. */
  function ElementsText(elements: seq<Value>, first: bool): Text
    requires AllDoubleFree(elements)
    decreases elements
  {
    if elements == [] then []
    else (if first then [] else [COMMA]) + Print(elements[0]) + ElementsText(elements[1..], false)
  }

  /** Members, each after the first preceded by a comma. */
  function MembersText(members: seq<Member>, first: bool): Text
    requires MembersDoubleFree(members)
    decreases members
  {
    if members == [] then []
    else
      (if first then [] else [COMMA]) + Quoted(members[0].name) + [COLON] + Print(members[0].value)
      + MembersText(members[1..], false)
  }
}
