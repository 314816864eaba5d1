/** The table-driven parser: tokens, prediction table, transitions and their run. */
module Iterative {
  import opened Bytes
  import opened Events
  import opened Grammar
  import StringLexer

  datatype State =
    | Finish
    | Error
    | Start
    | ObjectInitial
    | MemberKey
    | MemberValue
    | ObjectFinish
    | ArrayInitial
    | Element
    | ArrayFinish
    | SingleValue
    | ElementDelimiter
    | MemberDelimiter
    | KeyValueDelimiter

  datatype Token =
    | LeftBracket
    | RightBracket
    | LeftCurlyBracket
    | RightCurlyBracket
    | CommaToken
    | ColonToken
    | StringToken
    | FalseToken
    | TrueToken
    | NullToken
    | NumberToken

  /** The two words pushed when a container opens: the state to resume in, and the count so far. */
  datatype Frame = Frame(resume: State, count: nat)

  function Tokenize(c: Byte): Token {
    if c == LBRACKET then LeftBracket
    else if c == RBRACKET then RightBracket
    else if c == LBRACE then LeftCurlyBracket
    else if c == RBRACE then RightCurlyBracket
    else if c == COMMA then CommaToken
    else if c == COLON then ColonToken
    else if c == QUOTE then StringToken
    else if c == LOWER_F then FalseToken
    else if c == LOWER_T then TrueToken
    else if c == LOWER_N then NullToken
    else NumberToken
  }

  /** A table row for the states that expect a value. */
  function ValueRow(token: Token, scalar: State, closing: State): State {
    match token
    case LeftBracket => ArrayInitial
    case RightBracket => closing
    case LeftCurlyBracket => ObjectInitial
    case RightCurlyBracket => Error
    case CommaToken => Error
    case ColonToken => Error
    case _ => scalar
  }

  /** The prediction table: current state and one token of lookahead. */
  function Predict(state: State, token: Token): State {
    match state
    case Start => ValueRow(token, SingleValue, Error)
    case ObjectInitial => if token.RightCurlyBracket? then ObjectFinish else if token.StringToken? then MemberKey else Error
    case MemberKey => if token.ColonToken? then KeyValueDelimiter else Error
    case MemberValue =>
      if token.RightCurlyBracket? then ObjectFinish else if token.CommaToken? then MemberDelimiter else Error
    case ArrayInitial => ValueRow(token, Element, ArrayFinish)
    case Element => if token.RightBracket? then ArrayFinish else if token.CommaToken? then ElementDelimiter else Error
    case ElementDelimiter => ValueRow(token, Element, ArrayFinish)
    case MemberDelimiter => if token.RightCurlyBracket? then ObjectFinish else if token.StringToken? then MemberKey else Error
    case KeyValueDelimiter => ValueRow(token, MemberValue, Error)
    case _ => Error
  }

  /** The code HandleError reports for a state without a transition. */
  function StuckCode(state: State): ErrorCode {
    match state
    case Start => DocumentEmpty
    case Finish => DocumentRootNotSingular
    case ObjectInitial => ObjectMissName
    case MemberDelimiter => ObjectMissName
    case MemberKey => ObjectMissColon
    case MemberValue => ObjectMissCommaOrCurlyBracket
    case KeyValueDelimiter => ValueInvalid
    case ArrayInitial => ValueInvalid
    case ElementDelimiter => ValueInvalid
    case _ => ArrayMissCommaOrSquareBracket
  }

  /** The states and stacks a run passes through between tokens. */
  predicate Reachable(state: State, stack: seq<Frame>) {
    && state !in {Error, ObjectFinish, ArrayFinish, SingleValue}
    && (state in {Start, Finish} <==> stack == [])
    && forall i :: 0 <= i < |stack| ==> if i == 0 then stack[i].resume == Start else stack[i].resume in {Element, MemberValue}
  }

  datatype Move =
    | Move(state: State, stack: seq<Frame>, events: seq<Event>, pos: nat)
    | Stuck(code: ErrorCode, offset: nat)

  /** The state in which the parser resumes after a value read in `state`. */
  function Resume(state: State): State {
    match state
    case Start => Start
    case ArrayInitial => Element
    case ElementDelimiter => Element
    case KeyValueDelimiter => MemberValue
    case s => s
  }

  function Closed(frame: Frame): State {
    if frame.resume == Start then Finish else frame.resume
  }

  /** One transition: Predict, then Transit. */
  function Step(text: Text, pos: nat, state: State, stack: seq<Frame>): (m: Move)
    requires Reachable(state, stack) && Peek(text, pos) != 0
    ensures m.Move? ==> Reachable(m.state, m.stack) && pos < m.pos <= |text|
  {
    match Predict(state, Tokenize(Peek(text, pos)))
    case Error => Stuck(StuckCode(state), pos)
    case ObjectInitial => Move(ObjectInitial, stack + [Frame(Resume(state), 0)], [StartObject], pos + 1)
    case ArrayInitial => Move(ArrayInitial, stack + [Frame(Resume(state), 0)], [StartArray], pos + 1)
    case MemberKey =>
      (match StringLexer.CharsAt(text, pos + 1)
       case Failed(code, offset) => Stuck(code, offset)
       case Found(name, next) => Move(MemberKey, stack, [Key(name)], next))
    case KeyValueDelimiter => Move(KeyValueDelimiter, stack, [], pos + 1)
    case MemberDelimiter => Move(MemberDelimiter, Counted(stack), [], pos + 1)
    case ElementDelimiter => Move(ElementDelimiter, Counted(stack), [], pos + 1)
    case ObjectFinish =>
      if state == MemberDelimiter then Stuck(ObjectMissName, pos)
      else
        var top := stack[|stack| - 1];
        Move(Closed(top), stack[..|stack| - 1], [EndObject(if state == MemberValue then top.count + 1 else top.count)], pos + 1)
    case ArrayFinish =>
      if state == ElementDelimiter then Stuck(ValueInvalid, pos)
      else
        var top := stack[|stack| - 1];
        Move(Closed(top), stack[..|stack| - 1], [EndArray(if state == Element then top.count + 1 else top.count)], pos + 1)
    case dst =>
      match ScalarAt(text, pos)
      case Failed(code, offset) => Stuck(code, offset)
      case Found(event, next) => Move(if dst == SingleValue then Finish else dst, stack, [event], next)
  }

  function Counted(stack: seq<Frame>): seq<Frame>
    requires stack != []
  {
    var top := stack[|stack| - 1];
    stack[..|stack| - 1] + [top.(count := top.count + 1)]
  }

  /** The rest of a run from the token at `pos`. */
  function Run(text: Text, pos: nat, state: State, stack: seq<Frame>): Trace
    requires Reachable(state, stack)
    decreases |text| - pos
  {
    if Peek(text, pos) == 0 then
      Trace([], if state == Finish then Accepted(pos) else Rejected(StuckCode(state), pos))
    else
      match Step(text, pos, state, stack)
      case Stuck(code, offset) => Trace([], Rejected(code, offset))
      case Move(next, rest, events, after) => After(events, Run(text, SkipSpace(text, after), next, rest))
  }

  /** A whole document. */
  function DocumentRun(text: Text): Trace {
    Run(text, SkipSpace(text, 0), Start, [])
  }
}
