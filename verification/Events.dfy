/** The SAX events of the Handler concept and the outcomes of scanning. */
module Events {
  import opened Bytes

  /** Which of Int, Uint, Int64 and Uint64 a number event is. */
  datatype NumberKind = Int32 | Uint32 | Int64 | Uint64

  /** `Double` carries the accumulated significand and decimal exponent, before they are combined. */
  datatype Event =
    | Null
    | Bool(b: bool)
    | Integer(kind: NumberKind, n: int)
    | Double(negative: bool, significand: real, exponent: int)
    | String(bytes: Text)
    | StartObject
    | Key(bytes: Text)
    | EndObject(members: nat)
    | StartArray
    | EndArray(elements: nat)

  datatype ErrorCode =
    | DocumentEmpty
    | DocumentRootNotSingular
    | ValueInvalid
    | ObjectMissName
    | ObjectMissColon
    | ObjectMissCommaOrCurlyBracket
    | ArrayMissCommaOrSquareBracket
    | StringUnicodeEscapeInvalidHex
    | StringUnicodeSurrogateInvalid
    | StringEscapeInvalid
    | StringMissQuotationMark
    | StringInvalidEncoding
    | NumberTooBig
    | NumberMissFraction
    | NumberMissExponent

  /** Scanning one token: its value and the position after it, or the parse error. */
  datatype Scan<+T> =
    | Found(value: T, next: nat)
    | Failed(code: ErrorCode, offset: nat)
}
