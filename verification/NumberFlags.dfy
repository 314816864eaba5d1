/** How a GenericValue keeps an integer: a 64-bit word and flags for the types that hold it. */
module NumberFlags {
  import opened Events
  import opened Numbers
  import opened Values

  datatype Flag = IntFlag | UintFlag | Int64Flag | Uint64Flag

  /** The Number union, as its unsigned 64-bit word, and the number flags. */
  datatype Stored = Stored(word: nat, flags: set<Flag>)

  /** The word of a value stored through `i64` or `u64`. */
  function WordOf(n: int): (word: nat)
    ensures word < UINT64_LIMIT
  {
    n % UINT64_LIMIT
  }

  /** No bit of the word at or above the one worth `limit` is set. */
  predicate BitsBelow(word: nat, limit: int)
    requires limit > 0
  {
    word / limit == 0
  }

  function FromInt(i: int): Stored {
    Stored(WordOf(i), if i >= 0 then {IntFlag, Int64Flag, UintFlag, Uint64Flag} else {IntFlag, Int64Flag})
  }

  function FromUint(u: nat): Stored {
    Stored(u, {UintFlag, Uint64Flag, Int64Flag} + (if BitsBelow(u, INT32_LIMIT) then {IntFlag} else {}))
  }

  function FromInt64(i64: int): Stored {
    Stored(WordOf(i64),
      {Int64Flag} +
      if i64 >= 0 then
        {Uint64Flag}
        + (if BitsBelow(i64, UINT32_LIMIT) then {UintFlag} else {})
        + (if BitsBelow(i64, INT32_LIMIT) then {IntFlag} else {})
      else if i64 >= -INT32_LIMIT then {IntFlag}
      else {})
  }

  function FromUint64(u64: nat): Stored {
    Stored(u64,
      {Uint64Flag}
      + (if BitsBelow(u64, INT64_LIMIT) then {Int64Flag} else {})
      + (if BitsBelow(u64, UINT32_LIMIT) then {UintFlag} else {})
      + (if BitsBelow(u64, INT32_LIMIT) then {IntFlag} else {}))
  }

  /** The constructor for the argument of a number event. */
  function Construct(kind: NumberKind, n: int): Stored
    requires KindHolds(kind, n)
  {
    match kind
    case Int32 => FromInt(n)
    case Uint32 => FromUint(n)
    case Int64 => FromInt64(n)
    case Uint64 => FromUint64(n)
  }

  /** The low 32 bits of the word read as int, as the union lays them out. */
  function LowInt(word: nat): int {
    var low := word % UINT32_LIMIT;
    if low < INT32_LIMIT then low else low - UINT32_LIMIT
  }

  function WholeInt64(word: nat): int {
    if word < INT64_LIMIT then word else word - UINT64_LIMIT
  }

  /** The number case of Accept: the first type whose flag is set. */
  function AcceptNumber(s: Stored): Event {
    if IntFlag in s.flags then Event.Integer(Int32, LowInt(s.word))
    else if UintFlag in s.flags then Event.Integer(Uint32, s.word % UINT32_LIMIT)
    else if Int64Flag in s.flags then Event.Integer(Int64, WholeInt64(s.word))
    else Event.Integer(Uint64, s.word)
  }

  /** Whichever constructor made it, a value has exactly the flags of the types that hold it. */
  lemma FlagsAreRanges(kind: NumberKind, n: int)
    requires KindHolds(kind, n)
    ensures var flags := Construct(kind, n).flags;
      && (IntFlag in flags <==> -INT32_LIMIT <= n < INT32_LIMIT)
      && (UintFlag in flags <==> 0 <= n < UINT32_LIMIT)
      && (Int64Flag in flags <==> -INT64_LIMIT <= n < INT64_LIMIT)
      && (Uint64Flag in flags <==> 0 <= n < UINT64_LIMIT)
  {
    if n >= 0 {
      BelowIsLess(n, INT32_LIMIT);
      BelowIsLess(n, UINT32_LIMIT);
      BelowIsLess(n, INT64_LIMIT);
    }
  }

  lemma BelowIsLess(word: nat, limit: int)
    requires limit > 0
    ensures BitsBelow(word, limit) <==> word < limit
  {}

  lemma WordReads(n: int)
    requires -INT64_LIMIT <= n < UINT64_LIMIT
    ensures n >= 0 ==> WordOf(n) == n
    ensures n < 0 ==> WordOf(n) == n + UINT64_LIMIT
    ensures -INT32_LIMIT <= n < INT32_LIMIT ==> LowInt(WordOf(n)) == n
    ensures n < INT64_LIMIT ==> WholeInt64(WordOf(n)) == n
  {
    if n < 0 {
      assert n == (-1) * UINT64_LIMIT + (n + UINT64_LIMIT);
    }
  }

  /** What a word of the kind's width stands for. */
  function Reading(kind: NumberKind, word: nat): int {
    match kind
    case Int32 => LowInt(word)
    case Uint32 => word
    case Int64 => WholeInt64(word)
    case Uint64 => word
  }

  function Width(kind: NumberKind): int {
    if kind.Int32? || kind.Uint32? then UINT32_LIMIT else UINT64_LIMIT
  }

  /** The arguments an event can have are just what the words of its width stand for. */
  lemma KindsAreWidths(kind: NumberKind, n: int)
    ensures KindHolds(kind, n) <==> exists word: nat :: word < Width(kind) && Reading(kind, word) == n
  {
    if KindHolds(kind, n) {
      var word: nat := if n >= 0 then n else n + Width(kind);
      assert word % Width(kind) == word;
      assert Reading(kind, word) == n;
    } else {
      forall word: nat | word < Width(kind) ensures Reading(kind, word) != n {
        assert word % Width(kind) == word;
      }
    }
  }

  /** So Accept sends back the value an event stored, in the kind that only its value decides. */
  lemma NumberKept(kind: NumberKind, n: int)
    requires KindHolds(kind, n)
    ensures AcceptNumber(Construct(kind, n)) == Event.Integer(AcceptKind(n), n) == Canonical(Event.Integer(kind, n))
  {
    hide LowInt, WholeInt64;
    FlagsAreRanges(kind, n);
    WordReads(n);
    assert Construct(kind, n).word == WordOf(n);
  }
}
