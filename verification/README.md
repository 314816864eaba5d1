# A publish/subscribe broker and its JSON codec

The broker prints every published document with a JSON writer, queues the text, and lets each dispatcher parse it again
for every subscriber of the topic. This project models that path, the vendored JSON library it rests on, and the two
small cores beside it, and proves what they are for. `dafny verify dfyconfig.toml` checks everything.

| files | what they model |
|---|---|
| Bytes, Events, Options | bytes and C strings, the SAX events and error codes, optional values |
| Utf8, StringLexer, Numbers | RFC 3629 characters and the range-table decoder; string literals; number literals and their bounded accumulators |
| Grammar, Iterative, ParserEquivalence, Reader | the recursive-descent parser as a function of the text, the LL(1) table machine with its explicit stack, their equivalence, and the reader class with both loops |
| Spellings, NumberLiterals, JsonTexts, Faults | RFC 8259 as relations: how strings are spelled, what number literals mean, which texts stand for a value, that the reader reads just that, and what its errors say |
| Values, NumberFlags, Documents, Parsing | trees and the events of Accept; how integers are kept; the document's stack machine; what it does with the events of a text |
| Decimal, Printing, RoundTrip, Writers, AsciiStrings, ParsedStrings, Delivery | integer printing, compact text, reading it back, the writer class with its level stack and reserve, the ASCII target, when parsed strings are UTF-8, and a body's way to a subscriber |
| PrettyWriters, PrettyLayouts | the pretty writer, what it has in common with the compact one, and how it lays a value out |
| BrokerProtocol | dispatchers, publishers, subscribers and the destructor as interleaved atomic steps |
| Schemas, SchemaStreaming, SchemaTheorem, DraftSchemas, SchemaPaths, SchemaValidators, Hashers | JSON Schema keywords and their compiled form, the streaming validator as a transition function and as a class, its equivalence with satisfaction, where that departs from draft 4, its document path, and the hasher |
| PointerTokens, Pointers, PointerSpellings, PointerFaults, PointerTrees | JSON Pointer text and parsing, RFC 6901 as relations, what errors say, and resolving, growing and erasing in a tree |
| PoolAllocators | the memory pool over a heap of chunks |
| Crc | the CRC over bit vectors |

Where the source updates state in place the model is a class or a loop tied to a specification function: Reader, Writer,
PrettyWriter, GenericDocument, GenericSchemaValidator, Hasher, GenericPointer and MemoryPoolAllocator are classes with
the source's fields, and the loops of the decoders, number and escape scanners, integer printers and the CRC are loops.
The tables, the tree recursion of Accept and the range checks are functions.

Some behaviour differs from what one might expect of the code, and the model keeps it:

- The two parsers report different error codes when the first character of the text is `]`, `}`, `,` or `:`; the
  verdict, the events and the offset still agree (ParsersCompared).
- By default neither escaped low surrogates nor raw bytes are checked, so a parsed string need not be valid UTF-8
  (LoneLowSurrogate, RawByte). It is exactly when its raw runs are and no low surrogate stands alone (EventIsValid).
- In a schema, names that only `required` or `dependencies` mention are never additional properties, and an empty `items`
  tuple is ignored, both against draft 4. A schema that declares what it mentions is judged by draft 4
  (ExplicitFollowsDraft). Other verdicts, as long as `oneOf` and `not` do not judge such a schema, depart exactly where a
  value makes use of this (DepartsExactlyWhenBypassed), and every verdict is draft 4's on a completed schema
  (ValidatorCompletes).
- A pointer index above 2^32 - 1 is caught exactly when one of its prefixes brings the 32-bit remainder down; otherwise it
  aliases its remainder (IndexExact, IndexTrueOrNone), and 2^32 - 1 itself is the invalid index.
- Pointers look names up as C strings but create them whole. A name with a NUL is lost when Set adds it, but overwrites the
  member its prefix names if there is one (NulNameIsLost, NulNameAliases, and GetAfterSet for all cases).
- The broker's Cancel does not hold the queue mutex, so a dispatcher that is about to block can miss it and the joins of
  the destructor then need never return (JoinReturns, CancelCanBeMissed).
- A message of a topic nobody has subscribed to costs the broker a dispatcher for good; as many such messages as there are
  dispatchers end all delivery (UnknownTopicsCostDispatchers, BrokerExhausted).
- In a URI fragment a percent-encoded `/` becomes part of a name, and an encoded `~` must not have its `0` or `1` encoded
  too, both against section 6 of RFC 6901 (FragmentMeaning, EncodedSolidusExample, EncodedTildeExample).
- The CRC starts at zero and ignores leading NUL bytes (LeadingZerosIgnored). A signed `char` is sign-extended, and for it
  one burst of four bytes goes unnoticed (FourByteBurst, BurstMissed).

Bytes are integers from 0 to 255. A text is the byte sequence before the terminator; reading at or past its end shows
NUL. Widths matter where the source relies on them: the number accumulators are 32- and 64-bit newtypes, pointer indices
are reduced modulo 2^32, the reserve of a string is computed in 32 bits, and the CRC and the hash codes are bit vectors.

## Model

| member | source | states |
|---|---|---|
| `ParserEquivalence.ParsersCompared` | PubSub/rapidjson/include/rapidjson/reader.h:1721-2195 | for every text both parsers accept the same texts with the same events and counts; a rejected text is rejected at the same offset, and with the same code exactly when its first character is not a misplaced `]`, `}`, `,` or `:` |
| `ParserEquivalence.ParsersAgree` | PubSub/rapidjson/include/rapidjson/reader.h:557-589 | when the first character is not misplaced, the LL(1) machine's whole run (events, code, offset) is that of the recursive descent |
| `ParserEquivalence.ParsersOnMisplacedRoot` | PubSub/rapidjson/include/rapidjson/reader.h:1533 | on a misplaced root character both report an error at that character without an event, the one value invalid and the other document empty |
| `ParserEquivalence.SimulateValue` | PubSub/rapidjson/include/rapidjson/reader.h:1981-2131 | from any state that expects a value and any stack, running the table machine over one value gives the recursive parser's events and then continues in the state after a value |
| `ParserEquivalence.SimulateMembers` | PubSub/rapidjson/include/rapidjson/reader.h:1815-1977 | the same for the members of an object, with the frame's member count carried along |
| `ParserEquivalence.SimulateElements` | PubSub/rapidjson/include/rapidjson/reader.h:1815-1977 | the same for the elements of an array |
| `Reader.GenericReader.Parse` | PubSub/rapidjson/include/rapidjson/reader.h:557-589 | the recursive parser as it moves the stream position: the events sent and the final error are those of the grammar's document |
| `Reader.GenericReader.IterativeParse` | PubSub/rapidjson/include/rapidjson/reader.h:2162-2195 | the table parser as it updates its stack: the events sent and the final error are those of the table machine, and an accepted text leaves the stack empty |
| `Reader.GenericReader.Transit` | PubSub/rapidjson/include/rapidjson/reader.h:1981-2131 | one transition pushes, counts, pops, parses or fails as the machine's step says; an error never leaves a partly delivered event |
| `Reader.GenericReader.ParseValue` | PubSub/rapidjson/include/rapidjson/reader.h:1721-1736 | dispatch on the first character: events and error of the value at the position |
| `Reader.GenericReader.ParseObject` | PubSub/rapidjson/include/rapidjson/reader.h:737-803 | the loop over members: events, member count and the error of the first fault |
| `Reader.GenericReader.ParseArray` | PubSub/rapidjson/include/rapidjson/reader.h:805-852 | the loop over elements: events, element count and the error of the first fault |
| `Reader.GenericReader.ParseLiteral` | PubSub/rapidjson/include/rapidjson/reader.h:854-891 | null, true and false: accepted only letter for letter, the error at the first letter that differs |
| `Reader.GenericReader.SkipWhitespace` | PubSub/rapidjson/include/rapidjson/reader.h:265-273 | stops at the first byte that is none of the four white space bytes |
| `StringLexer.ParseStringToStream` | PubSub/rapidjson/include/rapidjson/reader.h:988-1055 | the decoding loop yields the contents of the literal up to its closing quote, or the first error with its offset |
| `StringLexer.ParseHex4` | PubSub/rapidjson/include/rapidjson/reader.h:903-924 | four hexadecimal digits in either case as their value, else the error at the escape |
| `StringLexer.ParseUnicodeEscape` | PubSub/rapidjson/include/rapidjson/reader.h:1017-1032 | one code point from one escape or a surrogate pair, and the surrogate error when the second half is missing or out of range |
| `Spellings.StringDocument` | PubSub/rapidjson/include/rapidjson/reader.h:988-1055 | the document of one literal is accepted as a string exactly when section 7 of RFC 8259 spells it so: each byte raw, by one of eight two-character escapes, or in a `u` escape with hexadecimal digits of either case, pairs included |
| `JsonTexts.ReadsExactly` | PubSub/rapidjson/include/rapidjson/reader.h:557-589 | a whole text is accepted with the events of a double-free value exactly when RFC 8259 lets it stand for that value, with white space before and behind any token |
| `JsonTexts.DocumentIsRead` | PubSub/rapidjson/include/rapidjson/reader.h:557-589 | every text written so, wherever it has white space and however its strings are spelled, is accepted with the value's events |
| `JsonTexts.DocumentIsWritten` | PubSub/rapidjson/include/rapidjson/reader.h:557-589 | every accepted text without a double writes, up to its first NUL, one value of which the events sent are |
| `ParsedStrings.LiteralIsValid` | PubSub/rapidjson/include/rapidjson/reader.h:988-1055 | what an accepted string literal stands for is valid UTF-8 exactly when every run of bytes it copies is valid UTF-8 and none of its escapes is a low surrogate on its own |
| `ParsedStrings.EventIsValid` | PubSub/rapidjson/include/rapidjson/reader.h:1021-1031 | the same for every String and Key event of a text, accepted or not: each comes from a literal and is valid UTF-8 exactly when that is well encoded; in a text that is valid UTF-8 itself, exactly when no escape is a lone low surrogate |
| `ParsedStrings.LoneLowSurrogate` | PubSub/rapidjson/include/rapidjson/reader.h:1019-1031 | for every low surrogate the document that is its escape alone is accepted, with a String event that is not valid UTF-8 |
| `ParsedStrings.RawByte` | PubSub/rapidjson/include/rapidjson/reader.h:1045-1053 | the document of one literal with the single byte 0xFF is accepted, and its String event is not valid UTF-8 |
| `Numbers.ParseNumber` | PubSub/rapidjson/include/rapidjson/reader.h:1454-1719 | the 32-bit, 64-bit and real accumulators together read the literal by its mathematical value: event, error and end |
| `Numbers.ParseInteger` | PubSub/rapidjson/include/rapidjson/reader.h:1468-1569 | neither the 32-bit nor the 64-bit accumulator wraps, and the value and digit count are exact |
| `Numbers.Accumulate32` | PubSub/rapidjson/include/rapidjson/reader.h:1483-1506 | the 32-bit loop stops exactly before the digit that would leave the 32-bit range |
| `Numbers.Accumulate64` | PubSub/rapidjson/include/rapidjson/reader.h:1535-1560 | the 64-bit loop stops exactly before the digit that would leave the 64-bit range |
| `Numbers.ParseExponent` | PubSub/rapidjson/include/rapidjson/reader.h:1619-1658 | a positive exponent fails exactly above 308 plus the fraction digits, a negative one saturates in an int32 accumulator that never overflows, and the result lies between -2^31 and that maximum |
| `Numbers.IntegerLiteral` | PubSub/rapidjson/include/rapidjson/reader.h:1702-1714 | an integer literal is an integer event of exactly its value in [-2^63, 2^64), with the narrow kinds exactly from -2^31 and below 2^32, and takes the double path elsewhere |
| `NumberLiterals.DoubleLiteral` | PubSub/rapidjson/include/rapidjson/reader.h:1571-1719 | a literal read as a double has its sign, the number its integer digits and the fraction digits taken denote, and its written exponent less those; digits are left out only behind seventeen significant ones |
| `NumberLiterals.IntegerTooBig` | PubSub/rapidjson/include/rapidjson/reader.h:1562-1569 | an integer literal is too big exactly when its digits before the last denote 17976931348623157 * 10^291 or more |
| `NumberLiterals.ExponentMeans` | PubSub/rapidjson/include/rapidjson/reader.h:1619-1658 | an exponent reads the number its digits denote: too big exactly above 308 plus the fraction digits taken, and saturated only from -214748364 on down |
| `Faults.ErrorTells` | PubSub/rapidjson/include/rapidjson/reader.h:557-589 | for every rejected text the error code tells what is so at the offset: no value, a second one, the one thing missing in the innermost container the events sent leave open, or a name, string or number that goes wrong there |
| `Faults.StringFault` | PubSub/rapidjson/include/rapidjson/reader.h:988-1055 | a string literal fails with a code at an offset exactly when what is before the offset spells some bytes and what is there is the fault the code names: no quote, a control character, an unknown escape, missing hexadecimal digits or a broken surrogate pair |
| `Faults.NumberFault` | PubSub/rapidjson/include/rapidjson/reader.h:1454-1719 | a number literal that fails lacks a digit behind its sign, its point or its exponent, as the code says, or is too big |
| `Faults.ScalarFault` | PubSub/rapidjson/include/rapidjson/reader.h:854-891 | null, true and false fail at the first letter that differs, strings and numbers as above |
| `Parsing.ReplayDocument` | PubSub/rapidjson/include/rapidjson/document.h:2205-2214 | the events of every accepted text replay without popping below an open container's own slot and leave exactly one finished value |
| `Documents.ReplayValue` | PubSub/rapidjson/include/rapidjson/document.h:1818-1855 | on any initial stack, replaying the events of a value pushes exactly that value |
| `Documents.CloseMembers` | PubSub/rapidjson/include/rapidjson/document.h:2411-2415 | EndObject turns the top name and value slots into the object whose members they are, in order |
| `Documents.CloseElements` | PubSub/rapidjson/include/rapidjson/document.h:2419-2423 | EndArray turns the top slots into the array of exactly those elements, in order |
| `Documents.ApplyCanonical` | PubSub/rapidjson/include/rapidjson/document.h:2385-2388 | the rebuilt tree does not depend on which of the four integer events carried a value |
| `NumberFlags.NumberKept` | PubSub/rapidjson/include/rapidjson/document.h:681-718 | a number stored by any of the four integer constructors is sent back by Accept with its value, in the kind its value alone decides |
| `NumberFlags.FlagsAreRanges` | PubSub/rapidjson/include/rapidjson/document.h:681-718 | whichever constructor stored it, the flags set are exactly those of the integer types that hold the value |
| `NumberFlags.KindsAreWidths` | PubSub/rapidjson/include/rapidjson/document.h:681-718 | the argument of a number event can be just what some word of its type's width stands for |
| `Documents.EventsDetermineTree` | PubSub/rapidjson/include/rapidjson/document.h:1818-1855 | two values with the same events are the same tree, member order and duplicate names included |
| `Parsing.SafeValue` | PubSub/rapidjson/include/rapidjson/document.h:2383-2423 | while the parser is inside any value, however it ends, no pop reaches the stack below that value |
| `Parsing.GenericDocument.ParseStream` | PubSub/rapidjson/include/rapidjson/document.h:2205-2214 | parses, replays into the document's stack, takes the single root out and leaves the stack empty; on error the old root stays |
| `Parsing.GenericDocument.Handle` | PubSub/rapidjson/include/rapidjson/document.h:2383-2423 | one handler function changes the stack as the stack machine does |
| `Decimal.U32ToA` | PubSub/rapidjson/include/rapidjson/internal/itoa.h:39-111 | the digit-pair table algorithm prints plain decimal in at most ten characters |
| `Decimal.U64ToA` | PubSub/rapidjson/include/rapidjson/internal/itoa.h:123-289 | the three-range 64-bit algorithm prints plain decimal in at most twenty characters |
| `Decimal.I32ToA` | PubSub/rapidjson/include/rapidjson/internal/itoa.h:113-121 | signed decimal, the least int32 included |
| `Decimal.I64ToA` | PubSub/rapidjson/include/rapidjson/internal/itoa.h:291-299 | signed decimal, the least int64 included |
| `Decimal.DigitsSplit` | PubSub/rapidjson/include/rapidjson/internal/itoa.h:39-111 | the digits of b * 10^k + c are those of b followed by c padded to k digits |
| `Writers.Writer.WriteString` | PubSub/rapidjson/include/rapidjson/writer.h:371-442 | writes the quoted, escaped string and stays within the 2 + 6n bytes it reserved |
| `Writers.Writer.WriteAsciiString` | PubSub/rapidjson/include/rapidjson/writer.h:385-442 | for an ASCII target: succeeds exactly on valid UTF-8, and stays within the 2 + 12n bytes it reserved |
| `Writers.Writer.PutCodepoint` | PubSub/rapidjson/include/rapidjson/writer.h:400-424 | a code point outside ASCII becomes one escape or a surrogate pair; the assertion on the pair's range never fails |
| `Writers.Writer.PutUnsafe` | PubSub/rapidjson/include/rapidjson/stream.h:91-93 | appends one byte, only within what was reserved |
| `Writers.Writer.Prefix` | PubSub/rapidjson/include/rapidjson/writer.h:463-481 | the comma or colon the innermost level calls for, and one more value counted there |
| `Writers.Writer.Start` | PubSub/rapidjson/include/rapidjson/writer.h:217-238 | separator, bracket and a new level |
| `Writers.Writer.EndObject` | PubSub/rapidjson/include/rapidjson/writer.h:225-232 | closes an object whose names all have values and leaves its level |
| `Writers.Writer.EndArray` | PubSub/rapidjson/include/rapidjson/writer.h:240-246 | closes an array and leaves its level |
| `Writers.Accept` | PubSub/rapidjson/include/rapidjson/document.h:1818-1855 | a value sent to a writer in any position appends its separator and its compact text, and counts as one value |
| `Writers.WritableIsAllFit` | PubSub/rapidjson/include/rapidjson/document.h:1818-1855 | a value can be written exactly when each of its events can: integers of 64 bits, no double, and strings and names whose reserve fits 32 bits |
| `Spellings.ShortestSpelling` | PubSub/rapidjson/include/rapidjson/writer.h:371-442 | what is written between the quotes is the shortest of all spellings of the string |
| `Spellings.ShortestAsciiSpelling` | PubSub/rapidjson/include/rapidjson/writer.h:394-424 | for an ASCII target, the shortest of its spellings that are ASCII throughout |
| `RoundTrip.PrintThenParse` | PubSub/rapidjson/include/rapidjson/writer.h:183-481 | for every double-free value, parsing its printed text is accepted and gives its events with integers equal by value |
| `RoundTrip.QuotedString` | PubSub/rapidjson/include/rapidjson/writer.h:394-441 | a printed string literal is read back byte for byte, NUL and invalid UTF-8 included |
| `RoundTrip.NumberScan` | PubSub/rapidjson/include/rapidjson/writer.h:307-342 | a printed integer of up to 64 bits is read back as an integer event of the same value |
| `RoundTrip.ValueScan` | PubSub/rapidjson/include/rapidjson/document.h:1818-1855 | a printed value is read back wherever it stands in a text, up to what follows it |
| `Delivery.PrintNoNul` | PubSub/rapidjson/include/rapidjson/writer.h:371-442 | printed JSON holds no NUL, whatever bytes the strings hold |
| `Delivery.Serialize` | PubSub/Broker.cpp:109-112 | the C string queued for a body is its whole printed text |
| `Delivery.Deliver` | PubSub/Broker.cpp:57-64 | printing, queueing as a C string and parsing give the subscriber a document equal to the published one, without error |
| `PrettyWriters.PrettyStripsToCompact` | PubSub/rapidjson/include/rapidjson/prettywriter.h:95-179 | for every well-nested event sequence, indentation and array format: deleting white space outside string literals from the pretty text gives the compact text |
| `PrettyWriters.PrettyPrintStrips` | PubSub/rapidjson/include/rapidjson/prettywriter.h:95-179 | for every value, the pretty text of its events strips to the value's compact text |
| `PrettyLayouts.PrettyIsLayout` | PubSub/rapidjson/include/rapidjson/prettywriter.h:208-255 | for every value and format, the pretty text is the value's layout: members and elements begin lines one level further in, and the closing bracket of a container that is not empty begins one at its own level |
| `PrettyWriters.CompactValue` | PubSub/rapidjson/include/rapidjson/writer.h:183-246 | the events of a value are well nested wherever a value may stand, and compactly written they are its text |
| `PrettyWriters.QuotedKept` | PubSub/rapidjson/include/rapidjson/prettywriter.h:110-115 | stripping keeps a string literal as it is, quotes and escapes included |
| `PrettyWriters.PrettyWriter.PrettyPrefix` | PubSub/rapidjson/include/rapidjson/prettywriter.h:208-250 | the separator of the plain writer with the line feed, indentation or space of the format |
| `PrettyWriters.PrettyWriter.EndObject` | PubSub/rapidjson/include/rapidjson/prettywriter.h:137-155 | a line feed and indentation of the outer level before the brace, unless the object is empty |
| `PrettyWriters.PrettyWriter.EndArray` | PubSub/rapidjson/include/rapidjson/prettywriter.h:163-179 | a line feed and indentation of the outer level before the bracket, unless the array is empty or kept on one line |
| `PrettyWriters.PrettyWriter.WriteIndent` | PubSub/rapidjson/include/rapidjson/prettywriter.h:252-255 | the indent character, levels times the count |
| `PrettyWriters.PrettyWriter.Handle` | PubSub/rapidjson/include/rapidjson/prettywriter.h:95-179 | each handler function writes its lead and its own text and updates the level stack |
| `PrettyWriters.WriteBoth` | PubSub/rapidjson/include/rapidjson/prettywriter.h:95-179 | a writer and a pretty writer fed the same events hold texts that agree after stripping |
| `Utf8.Decode` | PubSub/rapidjson/include/rapidjson/encodings.h:145-176 | accepts exactly the UTF8-char productions of section 4 of RFC 3629 and yields their code point and length |
| `Utf8.Validate` | PubSub/rapidjson/include/rapidjson/encodings.h:178-202 | accepts exactly the same characters as Decode and copies the octets it takes |
| `Utf8.LengthByLead` | PubSub/rapidjson/include/rapidjson/encodings.h:204-220 | the range table's lead byte classes determine the RFC 3629 productions |
| `Utf8.EncodeThenDecode` | PubSub/rapidjson/include/rapidjson/encodings.h:101-121 | decoding the encoding of a scalar value gives it back, and takes all its octets |
| `Utf8.DecodeThenEncode` | PubSub/rapidjson/include/rapidjson/encodings.h:145-176 | encoding what was decoded gives back the octets: no overlong form is accepted |
| `AsciiStrings.AsciiRoundTrip` | PubSub/rapidjson/include/rapidjson/writer.h:394-424 | the ASCII form of a valid UTF-8 string, pairs included, is read back as the same bytes |
| `AsciiStrings.AsciiOnly` | PubSub/rapidjson/include/rapidjson/writer.h:394-424 | only bytes below 0x80 are written, at most twelve for each byte |
| `AsciiStrings.CodepointScan` | PubSub/rapidjson/include/rapidjson/reader.h:1017-1032 | an escape or a surrogate pair is read back as the encoding of its code point |
| `Writers.WriteThenRead` | PubSub/rapidjson/include/rapidjson/writer.h:385-442 | a valid string written for an ASCII target is read back by the reader byte for byte |
| `BrokerProtocol.NoWakeupIsLost` | PubSub/Broker.cpp:36-47 | in every interleaving with the mutex free: while a dispatcher is blocked, no more messages are queued than dispatchers woken plus notifications pending |
| `BrokerProtocol.StepInv` | PubSub/Broker.cpp:32-65 | every atomic step of dispatchers, publishers, subscribers and destructor keeps the whole invariant, and no dispatcher pops an empty queue |
| `BrokerProtocol.KeepsNoLostWakeup` | PubSub/Broker.cpp:114-118 | no step loses the wakeup of a pushed message, exits on unknown topics and spurious wakeups included |
| `BrokerProtocol.KeepsMutualExclusion` | PubSub/Broker.cpp:36-47 | at most one dispatcher holds the queue mutex |
| `BrokerProtocol.KeepsPredicateStable` | PubSub/Broker.cpp:38-43 | what the wait predicate saw still holds when the dispatcher acts on it |
| `BrokerProtocol.EveryMessageOnce` | PubSub/Broker.cpp:45-65 | in every run each enqueued message is in exactly one of queued, held or finished, and is dequeued in the order of enqueueing |
| `BrokerProtocol.DeliveredAsPublished` | PubSub/Broker.cpp:57-64 | in every run what a subscriber parses is accepted and has the events of the one body whose print was queued, which is the published one |
| `BrokerProtocol.DispatchDelivers` | PubSub/Broker.cpp:53-65 | a dispatch delivers its message, never delivered before, once to each subscriber the topic has at that moment and to nobody if the topic is unknown; no other delivery count changes |
| `BrokerProtocol.UnknownTopicsCostDispatchers` | PubSub/Broker.cpp:54-55 | in every run no more messages of topics without subscription are finished than dispatchers have left for an unknown topic |
| `BrokerProtocol.DispatchOfUnknown` | PubSub/Broker.cpp:54-55 | a dispatcher that dispatches leaves exactly when nobody has ever subscribed to the topic, and else goes on |
| `BrokerProtocol.LeftForGood` | PubSub/Broker.cpp:54-55 | in every run a dispatcher that has left never moves again |
| `BrokerProtocol.BrokerExhausted` | PubSub/Broker.cpp:54-55 | once as many such messages are finished as there are dispatchers, nothing is dispatched or delivered any more, whatever is published |
| `BrokerProtocol.History` | PubSub/Broker.cpp:77-118 | in every run the queue has seen the printed bodies pushed, in their order, and each topic has the subscribers that came less those that went |
| `BrokerProtocol.EachPushNotifies` | PubSub/Broker.cpp:114-118 | in every run the notifications sent and those still to come are as many as the pushes |
| `BrokerProtocol.PublisherGetsIn` | PubSub/Broker.cpp:114-118 | wherever the invariant holds, at most two steps of the mutex holder later any body can be pushed under any tag, canceled or not; subscribing and the destructor wait for nothing |
| `BrokerProtocol.DispatcherGetsIn` | PubSub/Broker.cpp:36-47 | wherever the invariant holds, each dispatcher that waits for the mutex or sleeps can hold it within four steps, a sleeping one woken by a pending notification if there is one |
| `BrokerProtocol.DeliveredOnce` | PubSub/Broker.cpp:53-65 | in every run a finished message is never delivered again |
| `BrokerProtocol.CancelExitMeansDrained` | PubSub/Broker.cpp:42-43 | once a dispatcher has left by the cancel exit and nothing was pushed after Cancel, the queue is empty |
| `BrokerProtocol.InternalRunsEnd` | PubSub/Broker.cpp:32-65 | without new messages, spurious wakeups or the destructor, the broker comes to rest within a number of steps bounded by the state |
| `BrokerProtocol.AtRest` | PubSub/Broker.cpp:36-47 | at rest every dispatcher is blocked or has left, no notification is pending, and a message waits only if no dispatcher does |
| `BrokerProtocol.JoinReturns` | PubSub/Broker.cpp:137-144 | from notify_all on, some run of the broker's own steps comes to rest with a thread that never ends exactly when a dispatcher was parking at that moment, whatever notifications are pending |
| `BrokerProtocol.JoinDecided` | PubSub/Broker.cpp:137-144 | with no notification pending at notify_all every run to rest ends the same way: all threads end exactly when no dispatcher was parking |
| `BrokerProtocol.AtMostOneLate` | PubSub/Broker.cpp:139-140 | at most one dispatcher misses the destructor's notify_all |
| `BrokerProtocol.CancelCanBeMissed` | PubSub/Broker.cpp:139-140 | a concrete run in which the cancel wakeup is missed and a dispatcher stays blocked |
| `SchemaTheorem.StreamingIsSatisfaction` | PubSub/rapidjson/include/rapidjson/schema.h:1680-1751 | for every well-formed schema and double-free value: streaming the value's events through the validator, nested validators included, stays valid exactly when the value satisfies the schema, and then leaves the validator as it began |
| `SchemaTheorem.ValueStreams` | PubSub/rapidjson/include/rapidjson/schema.h:1830-1896 | the same at any place where a value may begin, below any stack of open contexts: the value leaves only its marks, and every nested validator of every context has seen its events |
| `SchemaTheorem.ContextAgrees` | PubSub/rapidjson/include/rapidjson/schema.h:1044-1078 | after a value's events, each validator created for allOf, anyOf, oneOf and not has the verdict of its own subschema |
| `SchemaTheorem.SlotDependency` | PubSub/rapidjson/include/rapidjson/schema.h:493-514 | each dependency schema has a validator slot of its own, in range and apart from the combination slots |
| `SchemaTheorem.AdmitsTypes` | PubSub/rapidjson/include/rapidjson/schema.h:1094-1167 | the type mask and the int64 and uint64 limit comparisons decide exactly type, minimum, maximum and multipleOf |
| `SchemaTheorem.ElementsStream` | PubSub/rapidjson/include/rapidjson/schema.h:599-621 | list, tuple and additional items choose the schema of each element by its index |
| `SchemaTheorem.MembersStream` | PubSub/rapidjson/include/rapidjson/schema.h:782-825 | properties, mentioned names and additional properties choose the schema of each member, and the flags record exactly the names seen |
| `SchemaTheorem.EndObjectIf` | PubSub/rapidjson/include/rapidjson/schema.h:827-855 | the flag loops at the end of an object decide exactly required, the member bounds and both kinds of dependencies |
| `Schemas.FlagsByNumber` | PubSub/rapidjson/include/rapidjson/schema.h:659-688 | all, some and exactly one of the alternatives hold when as many verdicts are true: all of them, at least one, just one |
| `DraftSchemas.ExplicitFollowsDraft` | PubSub/rapidjson/include/rapidjson/schema.h:426-459 | for every value, the validator accepts exactly what draft 4 accepts, if in every subschema all names in required and dependencies are declared or additional properties are open, and no tuple is empty or additional items are open |
| `DraftSchemas.DepartsExactlyWhenBypassed` | PubSub/rapidjson/include/rapidjson/schema.h:782-813 | for schemas whose oneOf and not hold only such subschemas: draft 4 accepts exactly when the validator does and nowhere in the value, at any depth, a member or element passed only because its name was merely mentioned or its tuple empty |
| `DraftSchemas.ValidatorCompletes` | PubSub/rapidjson/include/rapidjson/schema.h:426-459 | for every schema and value: the verdict is draft 4's verdict on the schema in which, at every level, the mentioned names are declared with an empty schema and empty tuples are dropped |
| `DraftSchemas.Departure` | PubSub/rapidjson/include/rapidjson/schema.h:426-459 | by induction over schema and value: both comparisons of draft 4 with what the validator means, keyword by keyword |
| `DraftSchemas.NegatedExample` | PubSub/rapidjson/include/rapidjson/schema.h:433-458 | under not the departure works the other way: a value the validator refuses and draft 4 accepts |
| `DraftSchemas.BypassExample` | PubSub/rapidjson/include/rapidjson/schema.h:433-458 | a schema and a value the validator accepts although draft 4 refuses it |
| `DraftSchemas.EmptyTupleIgnored` | PubSub/rapidjson/include/rapidjson/schema.h:530-540 | a schema with an empty tuple gets, on every value, the verdict of the schema without an items keyword |
| `DraftSchemas.EmptyTupleExample` | PubSub/rapidjson/include/rapidjson/schema.h:530-540 | so a value is accepted that draft 4 refuses because nothing additional is allowed |
| `Schemas.NamesAreMentioned` | PubSub/rapidjson/include/rapidjson/schema.h:426-459 | the gathered property names are distinct and are exactly the names in properties, required and dependencies |
| `SchemaPaths.PathIsPointer` | PubSub/rapidjson/include/rapidjson/schema.h:1861-1913 | after any number of a value's events, while still valid, the document path is the RFC 6901 pointer of where in the value the stream is |
| `SchemaPaths.FailurePointer` | PubSub/rapidjson/include/rapidjson/schema.h:1665-1667 | when a value is refused, the path read afterwards is the RFC 6901 pointer of the value the first failing event began or ended, or of the member it named |
| `SchemaPaths.StepLinked` | PubSub/rapidjson/include/rapidjson/schema.h:1725-1751 | every accepted event keeps the path equal to the tokens of the open containers, for any event sequence |
| `PointerTokens.PopLast` | PubSub/rapidjson/include/rapidjson/schema.h:1891-1893 | popping to a slash removes exactly the last token, because escaped tokens hold none |
| `SchemaValidators.GenericSchemaValidator.Handle` | PubSub/rapidjson/include/rapidjson/schema.h:1680-1751 | the event macros on the context stack and the path: answer, validity, path and (while valid) whole state are those of the transition function |
| `SchemaValidators.GenericSchemaValidator.BeginValue` | PubSub/rapidjson/include/rapidjson/schema.h:1830-1858 | picks the schema of the value, appends the index token in an array and pushes a fresh context |
| `SchemaValidators.GenericSchemaValidator.Parallel` | PubSub/rapidjson/include/rapidjson/schema.h:1687-1697 | forwards the event to every validator of every context, bottom to top |
| `SchemaValidators.GenericSchemaValidator.Close` | PubSub/rapidjson/include/rapidjson/schema.h:1861-1896 | checks the combinations, pops the context and drops the last token |
| `SchemaValidators.GenericSchemaValidator.AppendToken` | PubSub/rapidjson/include/rapidjson/schema.h:1898-1913 | appends a slash and the escaped name |
| `SchemaValidators.GenericSchemaValidator.HandleAll` | PubSub/rapidjson/include/rapidjson/schema.h:1680-1751 | any number of events: the last answer is the validity of the whole run |
| `SchemaValidators.CheckEndValue` | PubSub/rapidjson/include/rapidjson/schema.h:659-688 | the loops over allOf, anyOf and oneOf find all, some and exactly one valid, and not the negated one |
| `SchemaValidators.CheckEndObject` | PubSub/rapidjson/include/rapidjson/schema.h:827-855 | the loops over the property flags |
| `SchemaValidators.CheckKey` | PubSub/rapidjson/include/rapidjson/schema.h:792-825 | finds the property of a name, sets its flag and its value's schema, or refuses an additional one |
| `SchemaValidators.FindPropertyIndex` | PubSub/rapidjson/include/rapidjson/schema.h:1081-1092 | the first property of that name, or none |
| `SchemaValidators.Validate` | PubSub/rapidjson/include/rapidjson/schema.h:1707-1751 | a validator fed a value's events answers exactly whether the value satisfies the schema |
| `Hashers.OneCode` | PubSub/rapidjson/include/rapidjson/schema.h:170-216 | the events of a value push exactly one code on any hash stack |
| `Hashers.OrderDoesNotMatter` | PubSub/rapidjson/include/rapidjson/schema.h:197-204 | reordering members at any depth leaves the code unchanged |
| `Hashers.HashInjective` | PubSub/rapidjson/include/rapidjson/schema.h:247-252 | one round of the hash is injective in either argument |
| `Hashers.LiteralsDiffer` | PubSub/rapidjson/include/rapidjson/schema.h:171-172 | null, false and true have three different codes |
| `Hashers.ByteMatters` | PubSub/rapidjson/include/rapidjson/schema.h:237-245 | strings that differ in one byte have different codes |
| `Hashers.ElementMatters` | PubSub/rapidjson/include/rapidjson/schema.h:207-214 | arrays that differ in one element, told apart by its code, have different codes |
| `Hashers.MemberMatters` | PubSub/rapidjson/include/rapidjson/schema.h:197-204 | objects that differ in the value of one member, told apart by its code, have different codes |
| `Hashers.KnownContainers` | PubSub/rapidjson/include/rapidjson/schema.h:197-214 | the 64-bit codes of an array of null and false, in that order, and of an object with one member |
| `Hashers.KnownNumber` | PubSub/rapidjson/include/rapidjson/schema.h:225-245 | the 64-bit code of the number 1, hashed from the bytes of the integer and then of its double |
| `Hashers.Hasher.EndObject` | PubSub/rapidjson/include/rapidjson/schema.h:197-204 | pops two codes a member and pushes their exclusive or |
| `Hashers.Hasher.EndArray` | PubSub/rapidjson/include/rapidjson/schema.h:207-214 | pops the element codes and pushes their hash chain |
| `Hashers.Hasher.WriteBuffer` | PubSub/rapidjson/include/rapidjson/schema.h:237-245 | pushes the FNV-1a code of the bytes |
| `Pointers.StringifyThenParse` | PubSub/rapidjson/include/rapidjson/pointer.h:941-972 | for all names, whatever bytes they hold, parsing the written pointer gives them back |
| `Pointers.ParseThenStringify` | PubSub/rapidjson/include/rapidjson/pointer.h:802-932 | every accepted plain pointer is reproduced exactly |
| `Pointers.StringifyUriFragmentThenParse` | PubSub/rapidjson/include/rapidjson/pointer.h:941-972 | for names that are valid UTF-8, parsing the written URI fragment gives them back |
| `Pointers.GenericPointer.Parse` | PubSub/rapidjson/include/rapidjson/pointer.h:802-932 | the parsing loops: the tokens with their indices, exactly as many as the array made for them holds, and a name buffer that fits; or no tokens and the error with its offset |
| `Pointers.NamesCountSolidi` | PubSub/rapidjson/include/rapidjson/pointer.h:812-818 | an accepted source has one name for each `/` in it, and none for an escaped or percent-encoded one |
| `Pointers.ParseUriFragmentThenStringify` | PubSub/rapidjson/include/rapidjson/pointer.h:941-972 | every accepted URI fragment has names that are valid UTF-8, so writing it again succeeds and parses to the same names |
| `Pointers.GenericPointer.PercentDecode` | PubSub/rapidjson/include/rapidjson/pointer.h:844-867 | one UTF-8 character from percent triplets; a bad triplet, a bad sequence and an unfinished one are errors |
| `Pointers.GenericPointer.ParseIndex` | PubSub/rapidjson/include/rapidjson/pointer.h:895-917 | the 32-bit conversion with its overflow test |
| `Pointers.GenericPointer.Stringify` | PubSub/rapidjson/include/rapidjson/pointer.h:941-972 | writes the plain or fragment form, failing exactly on a fragment of a name that is not UTF-8 |
| `Pointers.IndexExact` | PubSub/rapidjson/include/rapidjson/pointer.h:904-917 | every decimal, however long, has its remainder modulo 2^32 as index if no turn of the loop brings the remainder down, and none otherwise; below 2^32 that is the decimal itself |
| `Pointers.IndexTrueOrNone` | PubSub/rapidjson/include/rapidjson/pointer.h:904-917 | a decimal gets its true index or none exactly when it is below 2^32, the test `m < n` fires on one of its prefixes, or its remainder is 2^32 - 1 |
| `Pointers.OverflowCanAlias` | PubSub/rapidjson/include/rapidjson/pointer.h:909-913 | 9999999999 is not caught and aliases index 1410065407 |
| `Pointers.NoIndexUnlessDecimal` | PubSub/rapidjson/include/rapidjson/pointer.h:889-917 | only plain decimals without leading zeros have an index |
| `PointerSpellings.PlainPointer` | PubSub/rapidjson/include/rapidjson/pointer.h:802-932 | a plain pointer parses to some names exactly when section 3 of RFC 6901 spells them so, each behind a `/`, with `~0` and `~1` for `~` and `/` |
| `PointerSpellings.PlainFragment` | PubSub/rapidjson/include/rapidjson/pointer.h:790-866 | over ALPHA, DIGIT, `-`, `.`, `_`, `~` and `/`, a URI fragment gives the names or the error of the plain pointer behind its `#`, offsets one further |
| `PointerSpellings.FragmentNameBytes` | PubSub/rapidjson/include/rapidjson/pointer.h:954-972 | in a fragment every byte of a name that is in this alphabet stands for itself or, `~` and `/`, as `~0` and `~1`, and every other byte in a triplet with upper-case digits |
| `PointerSpellings.PlainNameWritten` | PubSub/rapidjson/include/rapidjson/pointer.h:954-972 | a name over this alphabet is written in a fragment just as in a plain pointer |
| `PointerSpellings.FragmentPointer` | PubSub/rapidjson/include/rapidjson/pointer.h:802-932 | a URI fragment parses to some names exactly when it spells them so, character by character |
| `PointerSpellings.FragmentMeaning` | PubSub/rapidjson/include/rapidjson/pointer.h:842-867 | an accepted fragment has the meaning of section 6 of RFC 6901, the pointer that its decoded text is, exactly if no `/` in it is percent-encoded |
| `PointerSpellings.EncodedSolidusExample` | PubSub/rapidjson/include/rapidjson/pointer.h:842-867 | a fragment with an encoded `/` names one member where its decoded text names a member of a member |
| `PointerSpellings.EncodedTildeExample` | PubSub/rapidjson/include/rapidjson/pointer.h:842-883 | a fragment is refused although its decoded text is the pointer `/~0` |
| `Pointers.WriteThenParse` | PubSub/rapidjson/include/rapidjson/pointer.h:802-972 | a pointer written and parsed again is the same pointer, names and indices |
| `PointerFaults.PointerFault` | PubSub/rapidjson/include/rapidjson/pointer.h:802-932 | a pointer is refused for not beginning with `/`, or just behind a part that is in order: for a `~` without `0` or `1`, or in a fragment for a character outside the alphabet or for triplets of no UTF-8 character |
| `PointerTrees.CreateExists` | PubSub/rapidjson/include/rapidjson/pointer.h:401-447 | Create reports already-exists exactly when Get resolved before, and then finds the same place in an unchanged tree |
| `PointerTrees.GetAfterSet` | PubSub/rapidjson/include/rapidjson/pointer.h:610-612 | for all trees and parsed tokens, Get after Set returns the value set, or nothing exactly when Set appended with `-` or stored a new member under a name with a NUL on the way |
| `PointerTrees.ResolveAfterSet` | PubSub/rapidjson/include/rapidjson/pointer.h:401-447 | after Set the pointer resolves to the place Create made, or to none exactly when a child was lost in one of these two ways |
| `PointerTrees.NulNameIsLost` | PubSub/rapidjson/include/rapidjson/document.h:1182-1185 | in an empty object a name with a NUL is stored whole, and Get, which looks up to the NUL, finds nothing |
| `PointerTrees.NulNameAliases` | PubSub/rapidjson/include/rapidjson/document.h:1182-1185 | in an object with a member named by what comes before the NUL, Set overwrites that member and Get finds the new value there |
| `PointerTrees.PutElsewhere` | PubSub/rapidjson/include/rapidjson/pointer.h:610-612 | assigning at a place leaves every place apart from it as it was |
| `PointerTrees.SetGrows` | PubSub/rapidjson/include/rapidjson/pointer.h:401-447 | at every step down Set keeps a value that can hold the token's name, else puts an empty container there; it adds one child at the end, with nulls before it in an array, and changes no other child, name or order |
| `PointerTrees.SetFrame` | PubSub/rapidjson/include/rapidjson/pointer.h:401-447 | after Set every place beside its own, not below a value that had to change kind, holds what it held, and every other place not on the way holds null |
| `PointerTrees.CreateFrame` | PubSub/rapidjson/include/rapidjson/pointer.h:401-447 | the same after Create |
| `PointerTrees.EraseUndoesSet` | PubSub/rapidjson/include/rapidjson/pointer.h:711-749 | when Set has just added a member to an existing object, Erase finds it exactly if its name has no NUL, and then restores the tree |
| `PointerTrees.Get` | PubSub/rapidjson/include/rapidjson/pointer.h:479-507 | the place a pointer resolves to, or the first token that does not resolve |
| `PointerTrees.Create` | PubSub/rapidjson/include/rapidjson/pointer.h:401-447 | the walk that grows the tree: tree, place and existence flag of the recursive definition, of which SetGrows, CreateFrame and CreateExists say what it keeps and adds |
| `PointerTrees.Set` | PubSub/rapidjson/include/rapidjson/pointer.h:610-612 | the value at the place of the result is the value set |
| `PointerTrees.Erase` | PubSub/rapidjson/include/rapidjson/pointer.h:711-749 | succeeds exactly when the pointer has a token and resolves, and removes just that value: every other value, name and order on the way down is kept |
| `PoolAllocators.MemoryPoolAllocator.Malloc` | PubSub/rapidjson/include/rapidjson/allocators.h:176-188 | a new aligned block disjoint from every live block, behind the used bytes of the head chunk if it has room, whether or not memory is granted, else at the start of a new chunk of the larger of chunk capacity and size; the used bytes grow by just the rounded size; NULL only for no bytes or no memory |
| `PoolAllocators.MemoryPoolAllocator.Realloc` | PubSub/rapidjson/include/rapidjson/allocators.h:191-222 | a block that shrinks stays, the last one with room behind it grows in place, any other is allocated anew as Malloc does; the new block begins with the old contents, all live blocks keep their bytes and stay disjoint, just the bytes needed are taken, and failure changes nothing |
| `PoolAllocators.MemoryPoolAllocator.Move` | PubSub/rapidjson/include/rapidjson/allocators.h:214-221 | allocates where Malloc does, copies and gives the old block up |
| `PoolAllocators.MemoryPoolAllocator.Expand` | PubSub/rapidjson/include/rapidjson/allocators.h:205-212 | the last block of the head chunk grows in place by just the increment, without touching another |
| `PoolAllocators.MemoryPoolAllocator.AddChunk` | PubSub/rapidjson/include/rapidjson/allocators.h:237-250 | a new empty chunk of the capacity asked for at the head of the list, with memory of its own |
| `PoolAllocators.MemoryPoolAllocator.Clear` | PubSub/rapidjson/include/rapidjson/allocators.h:144-153 | gives back every chunk but the user's buffer, which becomes empty, and loses none |
| `PoolAllocators.MemoryPoolAllocator.Size` | PubSub/rapidjson/include/rapidjson/allocators.h:168-173 | the sum of the used bytes, at most the capacity |
| `PoolAllocators.MemoryPoolAllocator.Capacity` | PubSub/rapidjson/include/rapidjson/allocators.h:158-163 | the sum of the capacities |
| `PoolAllocators.MemoryPoolAllocator.UserBufferKept` | PubSub/rapidjson/include/rapidjson/allocators.h:144-153 | the user's buffer is the last chunk of the list and is never given back |
| `PoolAllocators.MemoryPoolAllocator.WithBuffer` | PubSub/rapidjson/include/rapidjson/allocators.h:125-134 | the user's buffer is the only chunk, empty, less its header |
| `PoolAllocators.GrowDisjoint` | PubSub/rapidjson/include/rapidjson/allocators.h:205-212 | a block that ends where its chunk's used part ends can grow and stay disjoint from all others |
| `Crc.CRC32` | PubSub/Algorithm.cpp:5-17 | the two loops compute the complemented register of the message |
| `Crc.CrcLinear` | PubSub/Algorithm.cpp:5-17 | for messages of equal length the uncomplemented CRC of their exclusive or is the exclusive or of theirs, whether or not `char` is signed |
| `Crc.OneByteDetected` | PubSub/Algorithm.cpp:10-14 | messages that differ in exactly one byte have different CRCs, whether or not `char` is signed |
| `Crc.FourByteBurst` | PubSub/Algorithm.cpp:10-14 | for either signedness: messages that differ only within up to four neighbouring bytes have the same CRC exactly when `char` is signed and the difference is D9 8F 6A 0F |
| `Crc.BurstDetected` | PubSub/Algorithm.cpp:10-14 | every burst of up to three bytes is detected for either signedness, and of four with unsigned `char` |
| `Crc.BurstMissed` | PubSub/Algorithm.cpp:10-14 | with signed `char` the message D9 8F 6A 0F has the CRC of four NUL bytes |
| `Crc.BitStepInverse` | PubSub/Algorithm.cpp:13 | each bit step is a bijection, because the top bit of the polynomial is set |
| `Crc.RegisterWord` | PubSub/Algorithm.cpp:10-14 | a message of any length goes into the register as one word, for either signedness |
| `Crc.FoldedWord` | PubSub/Algorithm.cpp:10-14 | for up to four bytes that word is the bytes themselves, mixed for signed `char` with one constant for each negative byte |
| `Crc.LeadingZerosIgnored` | PubSub/Algorithm.cpp:8 | because the register starts at zero, leading NUL bytes leave no trace |

## Left out

- Numbers.ParseNumber: the digits of a double are accumulated over exact reals; rounding and the final conversion (Strtod, full precision), NaN, Inf and numbers as strings are not modelled, and printing doubles neither.
- JsonTexts.ReadsExactly: about values without doubles; literals that are read as doubles are the matter of NumberLiterals.DoubleLiteral.
- Numbers.ParseInteger: digits past the 64-bit range are accumulated over exact reals, so where a literal becomes too big is the exact-real boundary.
- Numbers.IntegerLiteral: outside the 64-bit range the double path uses the same exact-real boundary.
- Writers.Writer.WriteString: strings so long that 2 + 6n (for the ASCII target 2 + 12n) does not fit 32 bits are excluded, since the reserve wraps there.
- Writers.Writer.Start: one method stands for StartObject and StartArray, and Flush, raw values and the source's validating encoding flag are not modelled.
- Reader.GenericReader.Parse: default flags, a handler that always returns true and a NUL-terminated source; comments, trailing commas, stop-when-done, in-situ, validating and full-precision modes, the pull interface and the SIMD scanners are not modelled. Counts are unbounded rather than 32-bit.
- Parsing.GenericDocument.ParseStream: the events are collected first and then replayed into the document rather than delivered one by one while parsing.
- NumberFlags.NumberKept: the mask tests on the stored word are comparisons of its quotients, and the union is read little-endian.
- PrettyWriters.PrettyWriter.Handle: the base class is a field; doubles and raw values are not written.
- BrokerProtocol.StepInv: each block under a lock, the delivery loop over the subscribers of one message, and the subscription calls are atomic steps on values; iterators used after unlock, races between first subscriptions to a tag, the singleton and the subscribers themselves are not modelled, and a topic is only its number of subscribers.
- SchemaStreaming.Step: a double passes the type check only, because its limits need floating point; the theorems are about double-free values. A stream that the assertions forbid makes the model invalid.
- SchemaValidators.GenericSchemaValidator.Handle: contexts and nested validators are values owned by one validator, not heap objects; a nested validator of a new context is created and fed its first event in the same step. After a failure only the verdict and the path are those of the source.
- SchemaTheorem.StreamingIsSatisfaction: covers type, properties, required, additionalProperties, member bounds, dependencies, items, additionalItems, item bounds, integer limits, multipleOf, allOf, anyOf, oneOf and not. patternProperties, pattern, string lengths, enum and uniqueItems (equal only up to hash collisions), $ref, remote schemas and the output handler are not modelled. A well-formed schema has distinct names in an object.
- DraftSchemas.DepartsExactlyWhenBypassed: where a schema under oneOf or not mentions undeclared names, the departure can go either way (NegatedExample), and ValidatorCompletes is what is proved.
- Hashers.OneCode: the bytes of an integer's double are a parameter, memory is little-endian, and double events are excluded.
- Pointers.GenericPointer.Parse: error details only as code and offset; Append, comparison and the allocator are not modelled.
- PointerTrees.Create: the tree is a value and a C++ pointer into it is a list of child positions, so aliasing and invalidated references are not modelled; Swap and the default-value overloads are not modelled.
- PoolAllocators.MemoryPoolAllocator.Malloc: sizes are unbounded, so no size computation wraps; whether the base allocator has memory is a parameter; the user's buffer is the part behind its header, and headers themselves are not bytes of the model.
- PoolAllocators.MemoryPoolAllocator.Realloc: the caller passes the true original size of a live block.
- Crc.CRC32: a negative length, on which the source does not stop, is excluded; whether `char` is signed is a parameter.
- Sockets, logging, directories, connection handling and the generated protocol messages.
- UTF-16 and UTF-32 streams, byte order marks, file streams and the growth of the internal stack, which is a sequence here.
