# A verified model of the JSON library and the concurrent utilities

The repository is a set of C++ utilities around a vendored JSON library (`ThirdParty/JSON`). This project models the
parts whose correctness is hardest to see from the code and proves it with Dafny. `dafny verify dfyconfig.toml` checks
everything.

- **Printing doubles** (`Powers`, `DiyFp`, `Boundaries`, `CachedPowers`, `DigitGen`, `Grisu2`, `ToChars`). Grisu2 in
  integers, from the bits of a double to the text, with the 79 cached powers of ten verified against exact powers. The
  printed text reads back as the same double, and the number scanner takes all of it.
- **Scanning** (`NumberGrammar`, `NumberText`, `Utf8`, `StringGrammar`, `Lexer`, `WideStrings`). The number and string
  scanners against RFC 8259 and RFC 3629, and the adapters that turn UTF-16 and UTF-32 into UTF-8.
- **Parsing** (`JsonGrammar`, `DomBuilder`, `CallbackBuilder`, `Parser`, `JsonText`, `RoundTrip`). The loop with an
  explicit stack and a skip flag, driving a handler whose pointers into the tree are paths, against the grammar and a
  recursive evaluation; then lexer and parser together, from bytes to tree, and from a double to its text and back.
- **Writing** (`Serializer`, `DumpParse`). `dump()` with its UTF-8 automaton, its buffers and its layouts, and the law
  that parsing what it writes gives the value back.
- **Trees** (`Json`, `StringEscape`, `JsonPointer`, `Patch`, `Diff`, `DiffPlaces`, `Flatten`, `MergePatch`). JSON Pointer,
  JSON Patch, diff, flatten/unflatten and merge patch, with their inverse and refinement laws over all trees.
- **CBOR** (`Cbor`, `CborDecoding`, `CborConverse`, `CborUniqueness`, `CborReader`, `CborEvents`). The decoder
  against an encoder of RFC 8949, in both directions.
- **Concurrency** (`LogRing`, `ThreadPool`, `Session`). The log's ring of buffers and the thread pool as systems of
  atomic steps, and the write queue of a TCP session as a class driven by any sequence of calls.

Code that the source writes as loops over mutable state is a method or a class here, proved against a specification
function or predicate; the properties are then proved about the specification.

## Where code and documentation differ

- The comment that `pow10 <= p1` in the digit loop (`to_chars.hpp:632-642`) is wrong whenever the next digit is 0, as in
  1005 (`PowerIsReachedIffNextDigitIsNotZero`); `p1 < 10^n` holds, and it is enough.
- `get_cached_power_for_binary_exponent` admits the exponents from -1500 to 1500, but meets its later assertions exactly
  from -1137 to 964 (`AssertionsHoldExactly`). The boundaries of doubles have exponents from -1137 to 960.
- JSON Patch against RFC 6902. `remove` does nothing when the parent is a primitive value (`RemoveNeedsItsTarget`,
  `RemoveBelowPrimitive`), and always fails for the whole document (`RemoveWorksIff`, `WholeDocumentStays`). `add` below a
  primitive value other than null ends in a failed assertion, which the model returns as the id `ASSERTION_FAILED`, and
  below null it succeeds and makes an object (`AddNeedsContainerOrNull`, `AddBelowPrimitive`). `move` of an array element
  below itself puts it below the next element, if there is one that can take it (`MoveBelowItself`,
  `ValueIsMovedBelowTheNext`). Patching in place leaves a tree without the value when a `move` fails halfway
  (`OnlyMoveLeavesTraces`).
- `unflatten(flatten(j))` differs from `j` exactly when a container is empty or the first path through an object, in key
  order, goes through the key "0" (`RestoredIffRestorable`, `ZeroKeyBecomesArray`, `EmptyContainerBecomesNull`).
- A byte 0 where a token may start ends the text, whatever follows. So the code conforms to section 2 of RFC 8259 exactly
  on inputs without a byte 0 (`RfcTextIffNoZero`, `TextBehindZeroIsIgnored`).
- A text with a number that overflows a double is refused, as section 9 of RFC 8259 allows (`AcceptedIffNoOverflow`,
  `OverflowIsRefused`).
- A lone surrogate escape is a string of section 7 of RFC 8259; the scanner rejects it, as section 8.2 warns
  (`UnicodeEscapeIsItemIff`, `LoneSurrogateIsNoItem`).
- The adapter for UTF-16 joins any surrogate with any unit behind it, where section 2.2 of RFC 2781 has an error
  (`SurrogateTakesTheNext`, `LoneSurrogateTakesLetter`).
- CBOR: major type 1 wraps below -2^63 (`NegativeIsDecodedIff`, `NegativeWraps`), and a length of 2^64 - 1 is taken for
  an unknown one (`LargestLengthIsUnknown`). Of the tags written in the initial byte only 6 to 20 are accepted, even when
  tags are to be ignored; in a byte of its own or more, every tag is (`TagIsDecodedIff`, `TagZeroIsRefusedInOneByte`).
  Chunks may have chunks (`NestedChunksAreDecoded`). Text strings that are not UTF-8, which section 3.1 of RFC 8949
  forbids, are passed on as bytes.
- The log's destructor sets the stop flag before its final flush, and the pool's `enqueue` tests the flag only before it
  waits: each allows a loss, and the exact condition for it is proved (`CompleteIffQueuedBeforeExit`,
  `LastMessageCanBeLost`, `ShutdownIsCompleteIffNoCallWaits`, `NothingGetsLostIffNoCallWaits`, `WaitingTaskCanBeLost`).

## Model

| member | source | states |
|---|---|---|
| DiyFps.Sub | ThirdParty/JSON/include/nlohmann/detail/conversions/to_chars.hpp:70-76 | the difference is exact: adding the subtrahend gives the minuend back, and no 64-bit underflow occurs |
| DiyFps.Mul | ThirdParty/JSON/include/nlohmann/detail/conversions/to_chars.hpp:82-141 | the four 32-bit partial products, none of which overflows, give exactly floor((x.f*y.f + 2^63) / 2^64) |
| DiyFps.MulIsWithinHalfAUnit | ThirdParty/JSON/include/nlohmann/detail/conversions/to_chars.hpp:78-141 | the rounded product is within half a unit in the last place of the exact one |
| DiyFps.Normalize | ThirdParty/JSON/include/nlohmann/detail/conversions/to_chars.hpp:147-158 | the loop ends with the top bit set, and significand and exponent still denote the same number |
| DiyFps.NormalizeTo | ThirdParty/JSON/include/nlohmann/detail/conversions/to_chars.hpp:164-172 | with the documented precondition the shift loses no bit |
| DiyFps.ShiftKeepsValue | ThirdParty/JSON/include/nlohmann/detail/conversions/to_chars.hpp:147-172 | both ways of normalizing keep the exact real value |
| Boundaries.ComputeBoundaries | ThirdParty/JSON/include/nlohmann/detail/conversions/to_chars.hpp:189-254 | for every finite positive double: w is the double, m- and m+ are exactly the midpoints to its neighbours (also below a power of two and for subnormals), all three share an exponent, and no bit is lost in aligning them |
| Boundaries.IsBinary64 | ThirdParty/JSON/include/nlohmann/detail/conversions/to_chars.hpp:193-214 | the value of every bit pattern is (1 + f / 2^52) * 2^(e - 1023), or f / 2^52 * 2^-1022 for subnormals, as in section 3.4 of IEEE 754 |
| Boundaries.DoubleValueIncreases | ThirdParty/JSON/include/nlohmann/detail/conversions/to_chars.hpp:193-214 | larger bit patterns of finite doubles denote larger reals, so neighbours in value are neighbours in pattern |
| Boundaries.NearestDouble | ThirdParty/JSON/include/nlohmann/detail/conversions/to_chars.hpp:216-240 | a real strictly between the midpoints of a double is nearer to it than to every other double and to the overflow threshold |
| CachedPowers.Entry | ThirdParty/JSON/include/nlohmann/detail/conversions/to_chars.hpp:383-465 | each of the 79 table entries is proved, not assumed, to be within half a unit of the true power of ten, with the exponents the table documents |
| CachedPowers.CachedPowerForBinaryExponent | ThirdParty/JSON/include/nlohmann/detail/conversions/to_chars.hpp:468-487 | for every exponent the first two assertions admit, with C++ division: an accurate table entry whose product exponent lands in [alpha, gamma], or none exactly where a later assertion fails |
| CachedPowers.AssertionsHoldExactly | ThirdParty/JSON/include/nlohmann/detail/conversions/to_chars.hpp:470-485 | of the exponents from -1500 to 1500, the assertions on the position in the table and on the product exponent hold exactly for those from -1137 to 964 |
| CachedPowers.AssertionsFailAtTheEnds | ThirdParty/JSON/include/nlohmann/detail/conversions/to_chars.hpp:470-480 | 1500 and -1500 give the positions -20 and 92 outside the table |
| DigitGen.FindLargestPow10 | ThirdParty/JSON/include/nlohmann/detail/conversions/to_chars.hpp:492-544 | the number of decimal digits k of n and 10^(k-1) <= n < 10^k |
| DigitGen.Grisu2Round | ThirdParty/JSON/include/nlohmann/detail/conversions/to_chars.hpp:546-581 | only the last digit changes, a 0 is never decremented and none results, no test overflows 64 bits, and the number of steps taken is the best possible |
| DigitGen.LastStepIsBest | ThirdParty/JSON/include/nlohmann/detail/conversions/to_chars.hpp:575-577 | when the loop test fails, the current candidate is at least as near to w as every other one in the interval, and nearer than all before it |
| DigitGen.IntegralDigits | ThirdParty/JSON/include/nlohmann/detail/conversions/to_chars.hpp:628-716 | the digits of the integral part: the loop keeps M+ = (digits * 10^n + p1) * 2^-e + p2 and stops with the best decimal or hands over an exact fraction |
| DigitGen.PowerIsReachedIffNextDigitIsNotZero | ThirdParty/JSON/include/nlohmann/detail/conversions/to_chars.hpp:653-661 | of the invariant in the comment, 10^(n-1) <= p1 < 10^n, the second half always holds and the first exactly if the digit taken next is not 0 |
| DigitGen.PowerIsNotReached | ThirdParty/JSON/include/nlohmann/detail/conversions/to_chars.hpp:653-661 | it fails in 1005 when the first digit has been taken |
| DigitGen.FractionalDigits | ThirdParty/JSON/include/nlohmann/detail/conversions/to_chars.hpp:760-806 | the digits of the fraction: at most 17 in all, the remainder and the error grow tenfold exactly and never overflow, and the result is the best decimal |
| DigitGen.Grisu2DigitGen | ThirdParty/JSON/include/nlohmann/detail/conversions/to_chars.hpp:587-820 | V lies in [M-, M+], no multiple of a higher power of ten does (shortest), V is the multiple of its power nearest to w, it has 1 to 17 digits and does not start with 0 |
| DigitGen.LastDigitIsNotZero | ThirdParty/JSON/include/nlohmann/detail/conversions/to_chars.hpp:587-820 | the digits never end with a 0 |
| Grisu2Printing.CachedIsClose | ThirdParty/JSON/include/nlohmann/detail/conversions/to_chars.hpp:314-326 | a table entry differs from the exact power of ten, as a real, by at most half a unit |
| Grisu2Printing.UpperHalf | ThirdParty/JSON/include/nlohmann/detail/conversions/to_chars.hpp:850-878 | after the one-unit shrink everything up to M+ is strictly below the exact upper midpoint |
| Grisu2Printing.LowerHalf | ThirdParty/JSON/include/nlohmann/detail/conversions/to_chars.hpp:850-878 | after the one-unit shrink everything from M- on is strictly above the exact lower midpoint |
| Grisu2Printing.Grisu2 | ThirdParty/JSON/include/nlohmann/detail/conversions/to_chars.hpp:828-917 | end to end for every finite positive double: 1 to 17 digits without leading 0 whose value is strictly between the midpoints, so that this double and no other is nearest to it |
| ToCharsPrinting.AppendExponent | ThirdParty/JSON/include/nlohmann/detail/conversions/to_chars.hpp:928-969 | a sign and two or three digits that denote the exponent, three only if needed; what stands before is untouched |
| ToCharsPrinting.FormatBuffer | ThirdParty/JSON/include/nlohmann/detail/conversions/to_chars.hpp:980-1048 | the buffer rewritten in place by the moves and fills of the four cases holds the layout chosen by the position of the decimal point |
| ToCharsPrinting.FormattedDenotes | ThirdParty/JSON/include/nlohmann/detail/conversions/to_chars.hpp:971-1048 | in every one of the four layouts the text is a number with a point or exponent and denotes exactly digits * 10^exponent |
| ToCharsPrinting.LayoutIsChosenByValue | ThirdParty/JSON/include/nlohmann/detail/conversions/to_chars.hpp:971-979 | a number from 10^min_exp up to below 10^max_exp gets fixed notation, any other scientific notation, with one nonzero digit in front and no superfluous zero at the end |
| ToCharsPrinting.ToChars | ThirdParty/JSON/include/nlohmann/detail/conversions/to_chars.hpp:1065-1115 | for every finite double of either sign: at most 24 characters, a float text whose magnitude is nearest to exactly this double, with an exponent exactly if the printed number is below 10^-4 or from 10^15 on and not zero, and without superfluous zeros |
| ToCharsPrinting.PrintedTextIsScanned | ThirdParty/JSON/include/nlohmann/detail/conversions/to_chars.hpp:1053-1115 | before any byte that cannot continue it, the scanner takes exactly the printed text and classifies it as a float |
| NumberGrammar.AcceptsIffCompletes | ThirdParty/JSON/include/nlohmann/detail/input/lexer.hpp:930-968 | from every state the automaton accepts exactly the texts that complete a number of section 6 of RFC 8259 |
| NumberGrammar.RunsIffViable | ThirdParty/JSON/include/nlohmann/detail/input/lexer.hpp:930-968 | the automaton can read a text if and only if some number starts with it |
| NumberGrammar.StuckMeansLongest | ThirdParty/JSON/include/nlohmann/detail/input/lexer.hpp:1012-1245 | where the scanner stops, what it has read is the longest text that is part of a number |
| NumberGrammar.LongestViableNumber | ThirdParty/JSON/include/nlohmann/detail/input/lexer.hpp:970-1245 | if that text is a number, it is the longest number there |
| NumberGrammar.StandardNumbers | ThirdParty/JSON/include/nlohmann/detail/input/lexer.hpp:930-968 | -0, 10, 1E+5 and 0.5e-1 are numbers |
| NumberGrammar.NoNumbers | ThirdParty/JSON/include/nlohmann/detail/input/lexer.hpp:930-968 | 01, +1, .5, 1., 1e, 0x1 and the like are none |
| Lexers.IntegersFit | ThirdParty/JSON/include/nlohmann/detail/input/lexer.hpp:1251-1279 | digits up to 18446744073709551615 are unsigned, up to 9223372036854775808 behind a minus an integer, and any others a float |
| Lexers.Lexer.Get | ThirdParty/JSON/include/nlohmann/detail/input/lexer.hpp:1341-1367 | the next byte or the end, each byte once, also after an unget |
| Lexers.Lexer.Unget | ThirdParty/JSON/include/nlohmann/detail/input/lexer.hpp:1378-1402 | the byte last read is read again; the end stays the end |
| Lexers.Lexer.ScanNumberByte | ThirdParty/JSON/include/nlohmann/detail/input/lexer.hpp:1012-1243 | one byte moves each labelled state as the transition table says and is stored if the scanner goes on |
| Lexers.Lexer.ScanNumberText | ThirdParty/JSON/include/nlohmann/detail/input/lexer.hpp:970-1247 | the scanner consumes exactly the longest viable text and succeeds if and only if it is a number; the type assigned on the way is that of the text |
| Lexers.Lexer.ConvertNumber | ThirdParty/JSON/include/nlohmann/detail/input/lexer.hpp:1245-1291 | digits are unsigned if below 2^64, digits behind a minus are an integer if at least -2^63, everything else falls back to a float |
| Lexers.Lexer.ScanNumber | ThirdParty/JSON/include/nlohmann/detail/input/lexer.hpp:970-1295 | success exactly if the longest viable text is a number; then the token buffer is the longest number, the next byte is unread, and kind and integer value are right; otherwise a parse error |
| NumberText.WholeText | ThirdParty/JSON/include/nlohmann/detail/conversions/to_chars.hpp:1024-1047 | digits with an exponent are a number of the expected value |
| NumberText.FractionText | ThirdParty/JSON/include/nlohmann/detail/conversions/to_chars.hpp:985-1047 | digits with a point and perhaps an exponent are a number of the expected value |
| NumberText.ValueByPlaces | ThirdParty/JSON/include/nlohmann/detail/conversions/to_chars.hpp:985-1047 | the value of such a number is that of its whole part and its fraction by places, times a power of ten |
| NumberText.ValueExamples | ThirdParty/JSON/include/nlohmann/detail/conversions/to_chars.hpp:985-1047 | 12.5, 0.05 and 1.5e+02 |
| NumberText.ScannerTakesAll | ThirdParty/JSON/include/nlohmann/detail/input/lexer.hpp:1103-1245 | a number with a point or exponent is scanned whole unless a digit or exponent mark follows |
| Utf8.SequencesAreEncodings | ThirdParty/JSON/include/nlohmann/detail/input/lexer.hpp:718-835 | every sequence of the grammar in section 4 of RFC 3629 encodes a scalar value as section 3 defines |
| Utf8.EncodingsAreSequences | ThirdParty/JSON/include/nlohmann/detail/input/lexer.hpp:718-835 | every encoding is a sequence of that grammar, and decoding it gives the code point back |
| Utf8.EncodingsArePrefixFree | ThirdParty/JSON/include/nlohmann/detail/input/lexer.hpp:218-240 | no encoding starts another, so bytes have one reading |
| Utf8.EncodeAllIsWellFormed | ThirdParty/JSON/include/nlohmann/detail/input/lexer.hpp:255-842 | a concatenation of encodings is well-formed UTF-8 |
| Utf8.StandardEncodings | ThirdParty/JSON/include/nlohmann/detail/input/lexer.hpp:378-404 | the examples of section 7 of RFC 3629, with one to four bytes |
| StringGrammar.ItemsArePrefixFree | ThirdParty/JSON/include/nlohmann/detail/input/lexer.hpp:255-842 | at most one character item of section 7 of RFC 8259 starts a given text |
| StringGrammar.ReadingsAreUnique | ThirdParty/JSON/include/nlohmann/detail/input/lexer.hpp:255-842 | a text starts with at most one string literal, and that literal has one value |
| StringGrammar.NoEscape | ThirdParty/JSON/include/nlohmann/detail/input/lexer.hpp:264-415 | behind a backslash exactly the listed escapes are items; lone surrogates are none |
| StringGrammar.LiteralHasNoControl | ThirdParty/JSON/include/nlohmann/detail/input/lexer.hpp:417-600 | no literal contains a control character |
| StringGrammar.StandardEscapes | ThirdParty/JSON/include/nlohmann/detail/input/lexer.hpp:283-317 | each escape of two characters stands for its character |
| StringGrammar.StandardHexEscapes | ThirdParty/JSON/include/nlohmann/detail/input/lexer.hpp:319-405 | hexadecimal digits in both cases, and the surrogate pair for U+1D11E in section 7 of RFC 8259 |
| Lexers.UnicodeEscapeIsItemIff | ThirdParty/JSON/include/nlohmann/detail/input/lexer.hpp:319-375 | an escape with four hexadecimal digits is accepted as an item exactly if it is no low surrogate, and a high one only with a low one behind it, where section 7 of RFC 8259 admits all |
| Lexers.LoneSurrogateIsNoItem | ThirdParty/JSON/include/nlohmann/detail/input/lexer.hpp:331-365 | a lone D800 is no item |
| Lexers.RangesDescribeSequences | ThirdParty/JSON/include/nlohmann/detail/input/lexer.hpp:718-835 | the table of byte ranges describes exactly the multi-byte sequences of UTF-8 |
| Lexers.Lexer.GetCodepoint | ThirdParty/JSON/include/nlohmann/detail/input/lexer.hpp:170-200 | the value of exactly four hexadecimal digits, or -1 |
| Lexers.Lexer.NextByteInRange | ThirdParty/JSON/include/nlohmann/detail/input/lexer.hpp:218-240 | succeeds exactly if all next bytes are in their ranges, and then has stored the lead and all of them |
| Lexers.Lexer.AddCodepoint | ThirdParty/JSON/include/nlohmann/detail/input/lexer.hpp:378-404 | the bytes stored for a code point are its UTF-8 encoding |
| Lexers.Lexer.GetLowSurrogate | ThirdParty/JSON/include/nlohmann/detail/input/lexer.hpp:331-365 | the second half of a surrogate pair exactly if one follows |
| Lexers.Lexer.ScanUnicodeEscape | ThirdParty/JSON/include/nlohmann/detail/input/lexer.hpp:319-405 | one \u escape or a surrogate pair, joined by the shift-and-subtract of the source, adds the encoding of its code point; anything else starts no item |
| Lexers.Lexer.ScanEscape | ThirdParty/JSON/include/nlohmann/detail/input/lexer.hpp:279-415 | an escape is accepted exactly if an item starts there, and adds the encoding of its code point |
| Lexers.Lexer.ScanPlain | ThirdParty/JSON/include/nlohmann/detail/input/lexer.hpp:417-838 | an unescaped character is accepted exactly if it is a well-formed UTF-8 character from U+0020 on |
| Lexers.Lexer.ScanString | ThirdParty/JSON/include/nlohmann/detail/input/lexer.hpp:255-842 | accepts exactly the literals of section 7 of RFC 8259 whose escapes form scalar values; the buffer is well-formed UTF-8 of exactly their code points, and exactly the literal is consumed |
| JsonGrammar.ParseIsGrammar | ThirdParty/JSON/include/nlohmann/detail/input/parser.hpp:180-470 | recursive descent finds a text at a position if and only if it is a text of the grammar in sections 2, 4 and 5 of RFC 8259 with exactly these tokens, and there is at most one |
| JsonGrammar.ParsedTokens | ThirdParty/JSON/include/nlohmann/detail/input/parser.hpp:180-470 | what is parsed has exactly the tokens that were read |
| JsonGrammar.TextIsParsed | ThirdParty/JSON/include/nlohmann/detail/input/parser.hpp:180-470 | every text of the grammar, followed by anything, is parsed as that text |
| JsonGrammar.ElementsKeepOrder | ThirdParty/JSON/include/nlohmann/detail/input/json_sax.hpp:421-432 | the elements of the value of a text are the values of its elements, in order |
| JsonGrammar.LastMemberCounts | ThirdParty/JSON/include/nlohmann/detail/input/json_sax.hpp:258-266 | of members with the same key the last one counts |
| JsonGrammar.NoOtherMembers | ThirdParty/JSON/include/nlohmann/detail/input/json_sax.hpp:258-266 | the keys of the value are exactly those written |
| JsonGrammar.ValueOfExample | ThirdParty/JSON/include/nlohmann/detail/input/parser.hpp:283-308 | {"a":1,"a":2} is {"a":2}, and true and false are themselves |
| DomBuilding.SetPlugged | ThirdParty/JSON/include/nlohmann/detail/input/json_sax.hpp:421-462 | assigning through the pointer to the next place replaces exactly the value there |
| DomBuilding.DomBuilder.HandleValue | ThirdParty/JSON/include/nlohmann/detail/input/json_sax.hpp:412-463 | a value becomes the root, the last element, or the member of the current key, and nothing else in the tree changes |
| DomBuilding.DomBuilder.StartObject | ThirdParty/JSON/include/nlohmann/detail/input/json_sax.hpp:235-256 | an empty object is put in place and becomes the innermost open container |
| DomBuilding.DomBuilder.StartArray | ThirdParty/JSON/include/nlohmann/detail/input/json_sax.hpp:286-305 | an empty array is put in place and becomes the innermost open container |
| DomBuilding.DomBuilder.AddKey | ThirdParty/JSON/include/nlohmann/detail/input/json_sax.hpp:258-266 | the key is added with null, or keeps its old value until the new one comes, and the element pointer refers to it |
| DomBuilding.DomBuilder.EndObject | ThirdParty/JSON/include/nlohmann/detail/input/json_sax.hpp:268-284 | the innermost object is complete and belongs to its parent; the tree is untouched |
| DomBuilding.DomBuilder.EndArray | ThirdParty/JSON/include/nlohmann/detail/input/json_sax.hpp:307-323 | the innermost array is complete and belongs to its parent; the tree is untouched |
| Parsing.OpeningArray | ThirdParty/JSON/include/nlohmann/detail/input/parser.hpp:240-266 | entering an array keeps what recursive descent would return |
| Parsing.Parser.ReadObject | ThirdParty/JSON/include/nlohmann/detail/input/parser.hpp:198-238 | the object branch of the loop, with its early end |
| Parsing.Parser.ReadArray | ThirdParty/JSON/include/nlohmann/detail/input/parser.hpp:240-263 | the array branch of the loop, with its early end |
| Parsing.Parser.NextElement | ThirdParty/JSON/include/nlohmann/detail/input/parser.hpp:367-400 | the state evaluation inside an array |
| Parsing.Parser.NextMember | ThirdParty/JSON/include/nlohmann/detail/input/parser.hpp:402-460 | the state evaluation inside an object |
| Parsing.Parser.SaxParseInternal | ThirdParty/JSON/include/nlohmann/detail/input/parser.hpp:180-470 | the loop with the explicit stack and the skip flag terminates, succeeds exactly if recursive descent does, stops behind the same token, and the handler's tree is the value of the text |
| Parsing.Parse | ThirdParty/JSON/include/nlohmann/detail/input/parser.hpp:91-150 | in strict and lenient mode: a value exactly if the tokens start with one text (and then end), and it is the value of that text, the last of duplicate keys winning |
| Parsing.Accept | ThirdParty/JSON/include/nlohmann/detail/input/parser.hpp:158-162 | true exactly if the tokens are such a text |
| Parsing.WholeTextIsGrammar | ThirdParty/JSON/include/nlohmann/detail/input/parser.hpp:158-182 | strict acceptance is membership in the grammar, lenient acceptance that a text of it stands at the start |
| CallbackBuilding.PutPlugged | ThirdParty/JSON/include/nlohmann/detail/input/json_sax.hpp:820-885 | assignment through a pointer, in trees that may hold discarded values |
| CallbackBuilding.CallbackBuilder.HandleValue | ThirdParty/JSON/include/nlohmann/detail/input/json_sax.hpp:820-885 | with a callback that keeps everything, every value is kept and lands where the plain handler puts it |
| CallbackBuilding.CallbackBuilder.AddKey | ThirdParty/JSON/include/nlohmann/detail/input/json_sax.hpp:575-590 | the key is added with a discarded placeholder |
| CallbackBuilding.CallbackBuilder.EndObject | ThirdParty/JSON/include/nlohmann/detail/input/json_sax.hpp:592-640 | nothing is discarded and the clean-up loop finds nothing to erase |
| CallbackBuilding.CallbackBuilder.EndArray | ThirdParty/JSON/include/nlohmann/detail/input/json_sax.hpp:674-718 | nothing is discarded and nothing is popped from the parent |
| CallbackBuilding.Feed | ThirdParty/JSON/include/nlohmann/detail/input/json_sax.hpp:497-885 | any allowed event keeps both handlers in step, with one more entry on the keep stack than on the reference stack |
| CallbackBuilding.BuildBoth | ThirdParty/JSON/include/nlohmann/detail/input/json_sax.hpp:497-885 | on every well-bracketed event sequence both handlers build the same tree, and it holds no discarded value |
| StringEscape.ReplaceSubstring | ThirdParty/JSON/include/nlohmann/detail/string_escape.hpp:31-39 | the find-and-replace loop replaces exactly the occurrences found from left to right, also when the replacement contains the searched text |
| StringEscape.Escape | ThirdParty/JSON/include/nlohmann/detail/string_escape.hpp:50-55 | the two passes together write "~" as "~0" and "/" as "~1" |
| StringEscape.Unescape | ThirdParty/JSON/include/nlohmann/detail/string_escape.hpp:65-69 | for every string, the two passes together decode every escape once, from left to right, and keep a stray "~" |
| StringEscape.UnescapeUndoesEscape | ThirdParty/JSON/include/nlohmann/detail/string_escape.hpp:50-69 | for every string, unescaping its escaped form gives it back |
| StringEscape.EscapeUndoesUnescape | ThirdParty/JSON/include/nlohmann/detail/string_escape.hpp:50-69 | escaping the decoded form gives a string back exactly if it is a reference token of section 3 of RFC 6901 |
| JsonPointers.PointersArePrinted | ThirdParty/JSON/include/nlohmann/detail/json_pointer.hpp:68-76 | the pointers of section 3 of RFC 6901 are exactly the texts printed from some list of tokens |
| JsonPointers.ToStringIsInjective | ThirdParty/JSON/include/nlohmann/detail/json_pointer.hpp:68-76 | different token lists print differently, empty tokens, "~" and "/" included |
| JsonPointers.Split | ThirdParty/JSON/include/nlohmann/detail/json_pointer.hpp:666-724 | the tokens the text is printed from, or the id of the right exception |
| JsonPointers.ParseAfterPrint | ThirdParty/JSON/include/nlohmann/detail/json_pointer.hpp:68-76 | for every token list, splitting the printed pointer gives it back |
| JsonPointers.PrintAfterParse | ThirdParty/JSON/include/nlohmann/detail/json_pointer.hpp:666-724 | exactly the pointers of section 3 of RFC 6901 are accepted, and printing the tokens gives the text back |
| JsonPointers.StandardPointers | ThirdParty/JSON/include/nlohmann/detail/json_pointer.hpp:666-724 | pointers of sections 4 and 5 of RFC 6901 with their tokens, such as /a~1b, /m~0n and /~01 |
| JsonPointers.ArrayIndex | ThirdParty/JSON/include/nlohmann/detail/json_pointer.hpp:214-249 | succeeds exactly for the array indices of section 4 of RFC 6901 below the largest size_type, with their value |
| JsonPointers.NatText | ThirdParty/JSON/include/nlohmann/detail/json_pointer.hpp:748-752 | an index printed is an array index without leading zero, and reads back |
| JsonPointers.GetChecked | ThirdParty/JSON/include/nlohmann/detail/json_pointer.hpp:422-471 | the loop over the tokens returns the value the pointer refers to, or the id of the first exception |
| JsonPointers.FirstFailureDecides | ThirdParty/JSON/include/nlohmann/detail/json_pointer.hpp:422-471 | resolving fails at the first token that names no child, with the exception id that the kind of the value there and the form of the token decide |
| JsonPointers.AtReplaced | ThirdParty/JSON/include/nlohmann/detail/json_pointer.hpp:422-471 | what was assigned through a pointer is found through it |
| JsonPointers.ReplacedAppend | ThirdParty/JSON/include/nlohmann/detail/json_pointer.hpp:422-471 | assigning behind a longer pointer is assigning inside the value of a shorter one |
| Patching.AddedInPlace | ThirdParty/JSON/include/nlohmann/json.hpp:4784-4849 | changing the parent found by the pointer is the recursive "add" of section 4.1 of RFC 6902 |
| Patching.RemovedInPlace | ThirdParty/JSON/include/nlohmann/json.hpp:4852-4878 | changing the parent found by the pointer is the recursive "remove" |
| Patching.AddedIsFound | ThirdParty/JSON/include/nlohmann/json.hpp:4784-4849 | what was added is found at its path |
| Patching.AddNeedsContainerOrNull | ThirdParty/JSON/include/nlohmann/json.hpp:4784-4849 | "add" below a value that is no container ends in the failed assertion exactly if that value is not null, and succeeds exactly if it is null, against section 4.1 of RFC 6902 |
| Patching.AddBelowPrimitive | ThirdParty/JSON/include/nlohmann/json.hpp:4784-4849 | the two cases at {"a":1} and {"a":null} |
| Patching.OnlyMoveLeavesTraces | ThirdParty/JSON/include/nlohmann/json.hpp:4949-4968 | a failed operation has changed the tree exactly if it is a "move" of an existing value that is not the whole tree |
| Patching.RemoveNeedsItsTarget | ThirdParty/JSON/include/nlohmann/json.hpp:4852-4878 | "remove" succeeds without a target, against section 4.2 of RFC 6902, exactly if the parent is a primitive value |
| Patching.RemoveBelowPrimitive | ThirdParty/JSON/include/nlohmann/json.hpp:4852-4878 | "remove" at /a/b of {"a":1} returns the tree unchanged |
| Patching.RemoveWorksIff | ThirdParty/JSON/include/nlohmann/json.hpp:4852-4878 | an existing target is removed exactly if it is not the whole document, and then the tree is another one |
| Patching.WholeDocumentStays | ThirdParty/JSON/include/nlohmann/detail/json_pointer.hpp:159-167 | "remove" of the whole document raises exception 405 |
| Patching.MoveBelowItself | ThirdParty/JSON/include/nlohmann/json.hpp:4949-4968 | a "move" below the moved value, which section 4.4 of RFC 6902 forbids, succeeds exactly if the value is an element of an array with an element behind it, below which the value can be added |
| Patching.ValueIsMovedBelowTheNext | ThirdParty/JSON/include/nlohmann/json.hpp:4949-4968 | moving /0 to /0/x turns [{"a":1},{"b":2}] into [{"b":2,"x":{"a":1}}] |
| Patching.AddUndoesRemove | ThirdParty/JSON/include/nlohmann/json.hpp:4784-4878 | a removed value added again at its path restores the tree |
| Patching.RemoveUndoesAdd | ThirdParty/JSON/include/nlohmann/json.hpp:4784-4878 | removing what was added restores the tree exactly if it was inserted into an array by its index or is a new member |
| Patching.TestComparesValues | ThirdParty/JSON/include/nlohmann/json.hpp:4982-5003 | "test" succeeds exactly if the value at its path is the given one, changes nothing, and raises 501 otherwise |
| Patching.CopyIsFound | ThirdParty/JSON/include/nlohmann/json.hpp:4969-4980 | "copy" needs a value at "from", and afterwards that value is found at the path unless it ends in "-" of an array |
| Patching.MoveIsFound | ThirdParty/JSON/include/nlohmann/json.hpp:4949-4968 | after "move", the value that was at "from" is found at the path; moving it to its own place changes nothing |
| Patching.ReplaceNeedsItsTarget | ThirdParty/JSON/include/nlohmann/json.hpp:4942-4948 | "replace" succeeds exactly if there is a value at the path, and the new one is found there |
| Patching.AddAndRemoveAreApplied | ThirdParty/JSON/include/nlohmann/json.hpp:4930-4941 | "add" and "remove" objects are those operations at the printed path |
| Patching.MalformedOperations | ThirdParty/JSON/include/nlohmann/json.hpp:4887-4927 | exception 104 for what is no object, and 105 for a missing or wrong member and for an unknown operation |
| Patching.Document.OperationAdd | ThirdParty/JSON/include/nlohmann/json.hpp:4784-4849 | the tree becomes the result of the recursive "add", or the id of the exception is right and the tree unchanged |
| Patching.Document.OperationRemove | ThirdParty/JSON/include/nlohmann/json.hpp:4852-4878 | the tree becomes the result of the recursive "remove", or the id of the exception is right and the tree unchanged |
| Patching.Document.Apply | ThirdParty/JSON/include/nlohmann/json.hpp:4887-5012 | one operation object, with every missing or wrong member, has the effect of section 4 of RFC 6902, but for the departures in the rows above, or raises the exception of the source and leaves the tree that was there, or the one a "move" has removed its value from |
| Patching.Document.PatchInplace | ThirdParty/JSON/include/nlohmann/json.hpp:4747-5014 | the operations take effect in order up to the first exception, and the tree left then is the one after those before it |
| Patching.Patch | ThirdParty/JSON/include/nlohmann/json.hpp:5018-5023 | a copy is patched; the result or the id of the exception |
| Patching.AppliedAllAppend | ThirdParty/JSON/include/nlohmann/json.hpp:4884-5013 | a patch in two parts is the one part after the other |
| Diffing.Diff | ThirdParty/JSON/include/nlohmann/json.hpp:5028-5158 | the recursive program builds the specified operations |
| Diffing.DiffArrays | ThirdParty/JSON/include/nlohmann/json.hpp:5050-5092 | the array case, in which removals are inserted so that the last index comes first |
| Diffing.DiffObjects | ThirdParty/JSON/include/nlohmann/json.hpp:5094-5136 | the object case, in key order with escaped keys |
| Diffing.CommonLeads | ThirdParty/JSON/include/nlohmann/json.hpp:5052-5060 | after the differences of the first n elements the array starts as the target does |
| Diffing.RemovesLead | ThirdParty/JSON/include/nlohmann/json.hpp:5062-5077 | removing from the back cuts the array off where it should |
| Diffing.AppendsLead | ThirdParty/JSON/include/nlohmann/json.hpp:5079-5089 | appending at "-" completes the array |
| Diffing.KeysLead | ThirdParty/JSON/include/nlohmann/json.hpp:5096-5118 | after the first n keys exactly they are settled |
| Diffing.NewKeysLead | ThirdParty/JSON/include/nlohmann/json.hpp:5120-5134 | after the first n keys of the target the new ones among them are there |
| Diffing.DiffLeads | ThirdParty/JSON/include/nlohmann/json.hpp:5028-5158 | below any path of any document the operations turn source into target and change nothing else |
| Diffing.PatchOfDiff | ThirdParty/JSON/include/nlohmann/json.hpp:5028-5158 | for all trees, applying diff(source, target) to source raises no exception and gives target, and every operation on the way changes the document |
| DiffPlaces.OpsAreThoseCalledFor | ThirdParty/JSON/include/nlohmann/json.hpp:5028-5158 | for all trees, the operations are exactly these: a "replace" where both have values that differ and are not both arrays or both objects, a "remove" where only the source has a value, an "add" where only the target has one, each below containers of one kind; none for equal values |
| MergePatching.Document.MergePatch | ThirdParty/JSON/include/nlohmann/json.hpp:5170-5194 | the in-place recursion has the result of MergePatch in section 2 of RFC 7396 at the place it is called on, and changes nothing else |
| MergePatching.Document.MergeMember | ThirdParty/JSON/include/nlohmann/json.hpp:5178-5188 | one member of the patch erases, creates or merges the member of the same name |
| MergePatching.AnyOrderMerges | ThirdParty/JSON/include/nlohmann/json.hpp:5178-5188 | the members of a patch can be merged in any order |
| MergePatching.MergeIsIdempotent | ThirdParty/JSON/include/nlohmann/json.hpp:5170-5194 | merging the same patch twice is merging it once |
| MergePatching.UnnamedMembersStay | ThirdParty/JSON/include/nlohmann/json.hpp:5170-5194 | members the patch does not name stay as they are, members it names with null are gone, all others are there |
| MergePatching.MergedAt | ThirdParty/JSON/include/nlohmann/json.hpp:5170-5194 | the result at any path of keys: the value of the patch there if it is no object, nothing if it is null, an object if it is one, and what the target has there where the patch leaves off |
| MergePatching.ValuesAreSet | ThirdParty/JSON/include/nlohmann/json.hpp:5170-5194 | a patch that is no object is the result, and every value it sets is found at its path |
| Flattening.FlatObject.Flatten | ThirdParty/JSON/include/nlohmann/detail/json_pointer.hpp:735-796 | the recursion adds exactly the leaves of the value, each at its escaped path |
| Flattening.Flatten | ThirdParty/JSON/include/nlohmann/detail/json_pointer.hpp:735-796 | the flat object holds each leaf's value at the text of its path and nothing else |
| Flattening.FlatMembers | ThirdParty/JSON/include/nlohmann/detail/json_pointer.hpp:735-796 | there is a member for exactly the paths that lead to a primitive value, which it holds, or to an empty container, for which it holds null |
| Flattening.Tree.Store | ThirdParty/JSON/include/nlohmann/detail/json_pointer.hpp:274-332 | the loop of get_and_create and the assignment store the value at its path, creating arrays and objects and filling arrays with null, or raise the right exception |
| Flattening.StoredIsFound | ThirdParty/JSON/include/nlohmann/detail/json_pointer.hpp:274-332 | what is stored at a path is found there |
| Flattening.StoringFailsIff | ThirdParty/JSON/include/nlohmann/detail/json_pointer.hpp:274-332 | storing fails exactly if on the way there is a primitive value other than null, or a token that is no index of an array, with the exception for it |
| Flattening.Unflatten | ThirdParty/JSON/include/nlohmann/detail/json_pointer.hpp:807-832 | the members are stored in key order, up to the first exception |
| Flattening.UnflattenNeedsPrimitives | ThirdParty/JSON/include/nlohmann/detail/json_pointer.hpp:807-832 | exception 314 for what is no object; a member that is not primitive or whose key is no pointer makes it fail |
| Flattening.StoreStep | ThirdParty/JSON/include/nlohmann/detail/json_pointer.hpp:274-332 | if every new container is started the right way, storing one more leaf extends the part of the tree that is there by exactly that leaf, also past ten elements |
| Flattening.PartialOfAll | ThirdParty/JSON/include/nlohmann/detail/json_pointer.hpp:807-832 | when all leaves are stored the tree is complete |
| Flattening.ZeroAgainst | ThirdParty/JSON/include/nlohmann/detail/json_pointer.hpp:811-828 | whether a path through "0" sorts before a path through another key depends on that key alone |
| Flattening.LeastInObject | ThirdParty/JSON/include/nlohmann/detail/json_pointer.hpp:811-828 | the first leaf of an object goes through "0" exactly if its keys say so |
| Flattening.NextStartsRight | ThirdParty/JSON/include/nlohmann/detail/json_pointer.hpp:285-297 | in key order, every new container is started with a token that makes it the right kind |
| Flattening.UnflattenAfterFlatten | ThirdParty/JSON/include/nlohmann/detail/json_pointer.hpp:735-832 | unflatten(flatten(j)) == j for every tree without empty containers whose objects do not come first with "0" |
| Flattening.RestoredIffRestorable | ThirdParty/JSON/include/nlohmann/detail/json_pointer.hpp:735-832 | and for no other tree: the condition, on emptiness and keys alone, is exact |
| Flattening.ZeroKeyBecomesArray | ThirdParty/JSON/include/nlohmann/detail/json_pointer.hpp:285-297 | {"0":1} comes back as [1] |
| Flattening.EmptyContainerBecomesNull | ThirdParty/JSON/include/nlohmann/detail/json_pointer.hpp:741-780 | [] and {} come back as null |
| CborDecoding.HeadIsRead | ThirdParty/JSON/include/nlohmann/detail/input/binary_reader.hpp:2858-2872 | an argument of any width is read back from its head |
| CborDecoding.StringIsRead | ThirdParty/JSON/include/nlohmann/detail/input/binary_reader.hpp:917-1104 | a string in one piece or in chunks, however nested, is read as the bytes it stands for |
| CborDecoding.ChunksAreRead | ThirdParty/JSON/include/nlohmann/detail/input/binary_reader.hpp:979-993 | chunks up to the break are joined |
| CborDecoding.EncodingIsDecoded | ThirdParty/JSON/include/nlohmann/detail/input/binary_reader.hpp:428-1195 | any encoding of an item at any position, arguments of any width and lengths definite or not, decodes to exactly its events and consumes exactly its bytes |
| CborEvents.DecodedIsOneValue | ThirdParty/JSON/include/nlohmann/detail/input/binary_reader.hpp:428-1195 | on any bytes whatever: if decoding succeeds, the events are well bracketed and are exactly one value, keys and values alternate, and counted containers get exactly as many parts as announced |
| CborEvents.AnyEncodingIsDecoded | ThirdParty/JSON/include/nlohmann/detail/input/binary_reader.hpp:428-1195 | an encoding followed by any bytes decodes to exactly one well-bracketed value, and exactly the encoding is consumed |
| CborConverse.DecodedIsEncoded | ThirdParty/JSON/include/nlohmann/detail/input/binary_reader.hpp:428-1195 | on any bytes whatever: what decodes is the encoding of an item, with exactly that item's events |
| CborConverse.ExactlyEncodingsDecode | ThirdParty/JSON/include/nlohmann/detail/input/binary_reader.hpp:428-1195 | bytes decode if and only if they start with the encoding of an item |
| CborConverse.DecodedIsStandardItem | ThirdParty/JSON/include/nlohmann/detail/input/binary_reader.hpp:428-1195 | where the decoder takes other lengths than sections 3.1 and 3.2 of RFC 8949, with nested chunks and the largest length, the events are still those of an item with lengths of these sections |
| CborConverse.NestedChunksAreDecoded | ThirdParty/JSON/include/nlohmann/detail/input/binary_reader.hpp:979-993 | 5F 5F 41 00 FF FF, which is no item of RFC 8949, is decoded to one byte |
| CborUniqueness.StringIsUnique | ThirdParty/JSON/include/nlohmann/detail/input/binary_reader.hpp:917-1104 | no bytes are the encoding of two strings |
| CborUniqueness.ItemIsUnique | ThirdParty/JSON/include/nlohmann/detail/input/binary_reader.hpp:428-1195 | no bytes are the encoding of two items |
| CborUniqueness.StandardIffItself | ThirdParty/JSON/include/nlohmann/detail/input/binary_reader.hpp:428-1195 | bytes that are decoded start with an encoding in the standard form if and only if the one item they encode has it |
| CborConverse.TagIsDecodedIff | ThirdParty/JSON/include/nlohmann/detail/input/binary_reader.hpp:719-827 | for every tag in every width, every item behind it and each of the three ways to treat tags: decoded exactly if tags are not errors, a tag in the initial byte is one of 6 to 20, and a stored tag stands before a byte string |
| CborConverse.TagZeroIsRefusedInOneByte | ThirdParty/JSON/include/nlohmann/detail/input/binary_reader.hpp:719-737 | tag 0 before null is refused as C0 F6 and accepted as D8 00 F6 when tags are ignored |
| CborConverse.LargestLengthIsUnknown | ThirdParty/JSON/include/nlohmann/detail/input/binary_reader.hpp:668-676 | every array and every map announced with the length 2^64 - 1 goes on to a break |
| CborConverse.NegativeIsDecodedIff | ThirdParty/JSON/include/nlohmann/detail/input/binary_reader.hpp:501-535 | for every argument of every width, major type 1 is decoded to the number -1 - n it stands for if and only if n is below 2^63 |
| CborConverse.NegativeWraps | ThirdParty/JSON/include/nlohmann/detail/input/binary_reader.hpp:530-535 | 3B 80 00 00 00 00 00 00 00, which stands for -2^63 - 1, comes out as 2^63 - 1 |
| CborConverse.StandardIntegers | ThirdParty/JSON/include/nlohmann/detail/input/binary_reader.hpp:436-535 | 00, 17, 18 18, 18 64, 20 and 38 63 are 0, 23, 24, 100, -1 and -100 |
| CborConverse.StandardSimpleValues | ThirdParty/JSON/include/nlohmann/detail/input/binary_reader.hpp:830-837 | F4, F5 and F6 are false, true and null |
| CborConverse.StandardWideNumbers | ThirdParty/JSON/include/nlohmann/detail/input/binary_reader.hpp:2858-2872 | 1000, 1000000 and 1000000000000 in two, four and eight bytes, and the bits of 1.0 |
| CborConverse.StandardStrings | ThirdParty/JSON/include/nlohmann/detail/input/binary_reader.hpp:917-1104 | 42 01 02 and 61 61 are a byte string and the text a |
| CborConverse.StandardChunks | ThirdParty/JSON/include/nlohmann/detail/input/binary_reader.hpp:979-993 | 5F 42 01 02 43 03 04 05 FF is the byte string 01 02 03 04 05 |
| CborConverse.StandardEmptyContainers | ThirdParty/JSON/include/nlohmann/detail/input/binary_reader.hpp:1112-1195 | 80, A0, 9F FF and BF FF are empty containers, with their lengths or unknown ones |
| CborConverse.StandardArrays | ThirdParty/JSON/include/nlohmann/detail/input/binary_reader.hpp:1112-1143 | 82 01 02 and 9F 01 02 FF are [1, 2] |
| CborConverse.StandardMap | ThirdParty/JSON/include/nlohmann/detail/input/binary_reader.hpp:1151-1195 | A1 61 61 00 is {"a": 0} |
| CborConverse.StandardTag | ThirdParty/JSON/include/nlohmann/detail/input/binary_reader.hpp:737-827 | tag 42 before a byte string is its subtype if tags are stored, and nothing if they are ignored |
| CborReading.BinaryReader.GetNumber | ThirdParty/JSON/include/nlohmann/detail/input/binary_reader.hpp:2858-2872 | a big-endian number exactly if enough bytes are left |
| CborReading.BinaryReader.GetArgument | ThirdParty/JSON/include/nlohmann/detail/input/binary_reader.hpp:480-535 | the argument of the head that was read |
| CborReading.BinaryReader.GetBytes | ThirdParty/JSON/include/nlohmann/detail/input/binary_reader.hpp:2888-2943 | that many bytes exactly if they are left |
| CborReading.BinaryReader.GetCborString | ThirdParty/JSON/include/nlohmann/detail/input/binary_reader.hpp:917-1104 | strings of definite and indefinite length |
| CborReading.BinaryReader.ParseCborInternal | ThirdParty/JSON/include/nlohmann/detail/input/binary_reader.hpp:428-906 | on any bytes the decoder terminates, succeeds exactly if the specification decodes them, emits exactly those events and stops there |
| CborReading.BinaryReader.GetCborArray | ThirdParty/JSON/include/nlohmann/detail/input/binary_reader.hpp:1112-1143 | the events of an array of counted or unknown length |
| CborReading.BinaryReader.GetCborObject | ThirdParty/JSON/include/nlohmann/detail/input/binary_reader.hpp:1151-1195 | the events of a map of counted or unknown length |
| WideStrings.RefillIsEncode | ThirdParty/JSON/include/nlohmann/detail/input/input_adapters.hpp:205-325 | one refill of the buffer for a UTF-16 or UTF-32 character is its UTF-8 encoding, surrogate pairs included |
| WideStrings.RestIsUtf8 | ThirdParty/JSON/include/nlohmann/detail/input/input_adapters.hpp:205-325 | the bytes produced from well-formed wide text are the UTF-8 encoding of its code points |
| WideStrings.StandardPair | ThirdParty/JSON/include/nlohmann/detail/input/input_adapters.hpp:255-325 | D808 DF45 is U+12345, the example of section 2.1 of RFC 2781 |
| WideStrings.SurrogateTakesTheNext | ThirdParty/JSON/include/nlohmann/detail/input/input_adapters.hpp:294-325 | any surrogate is joined with any unit behind it, which is right exactly if the two are a pair of section 2.2 of RFC 2781 |
| WideStrings.LoneSurrogateTakesLetter | ThirdParty/JSON/include/nlohmann/detail/input/input_adapters.hpp:294-325 | D800 before the letter A comes out as U+10041 |
| WideStrings.Utf8BytesAreEncodeAll | ThirdParty/JSON/include/nlohmann/detail/input/input_adapters.hpp:205-325 | this is the concatenation of the encodings of section 3 of RFC 3629 |
| WideStrings.WideStringAdapter.FillBuffer | ThirdParty/JSON/include/nlohmann/detail/input/input_adapters.hpp:208-325 | the buffer, index and fill count after a refill, for any input |
| WideStrings.WideStringAdapter.GetCharacter | ThirdParty/JSON/include/nlohmann/detail/input/input_adapters.hpp:338-355 | the bytes come out one by one in order across refills, and the end of the file from then on |
| WideStrings.ReadAll | ThirdParty/JSON/include/nlohmann/detail/input/input_adapters.hpp:329-385 | reading well-formed UTF-16 or UTF-32 to the end yields exactly its UTF-8 encoding |
| Lexers.LexemesAreUnique | ThirdParty/JSON/include/nlohmann/detail/input/lexer.hpp:1541-1603 | at most one token of section 2 of RFC 8259 starts at a place, if numbers are taken as long as they can be |
| Lexers.NumberIsLongest | ThirdParty/JSON/include/nlohmann/detail/input/lexer.hpp:1103-1245 | a number before white space, a separator or the end is all the number scanner can take |
| Lexers.Lexer.SkipBom | ThirdParty/JSON/include/nlohmann/detail/input/lexer.hpp:1495-1507 | a complete byte order mark is skipped, part of one is an error, and any other first byte is read again |
| Lexers.Lexer.SkipWhitespace | ThirdParty/JSON/include/nlohmann/detail/input/lexer.hpp:1509-1516 | exactly the white space is skipped, and the byte behind it was read |
| Lexers.Lexer.ScanLiteral | ThirdParty/JSON/include/nlohmann/detail/input/lexer.hpp:1302-1317 | the token exactly if the whole literal stands there; otherwise no token does |
| Lexers.Lexer.Scan | ThirdParty/JSON/include/nlohmann/detail/input/lexer.hpp:1518-1604 | behind the white space stands the token that is returned, or the end or a byte 0, or no token at all exactly where an error is returned |
| JsonTexts.SpelledStarts | ThirdParty/JSON/include/nlohmann/detail/input/lexer.hpp:1541-1603 | tokens start with neither white space nor a byte 0, so that white space ends at one place |
| JsonTexts.GetToken | ThirdParty/JSON/include/nlohmann/detail/input/parser.hpp:472-476 | the lexer delivers a token exactly if one stands there, and no other token can stand there |
| JsonTexts.TokensAreSeparated | ThirdParty/JSON/include/nlohmann/detail/input/parser.hpp:180-470 | in every text of the grammar a number is followed by a separator or by the end |
| JsonTexts.SpelledIsDelivered | ThirdParty/JSON/include/nlohmann/detail/input/lexer.hpp:1518-1604 | however tokens of a text are written, with any white space around them, the lexer delivers exactly them |
| JsonTexts.TextIsDelivered | ThirdParty/JSON/include/nlohmann/detail/input/parser.hpp:91-182 | the delivered tokens are those of a text if and only if it is what was written |
| JsonTexts.RfcTextIffNoZero | ThirdParty/JSON/include/nlohmann/detail/input/lexer.hpp:1592-1597 | an input is a text of section 2 of RFC 8259 (behind an optional byte order mark) if and only if the code takes it for one and it holds no byte 0 |
| JsonTexts.TextEndsAtZero | ThirdParty/JSON/include/nlohmann/detail/input/lexer.hpp:1592-1597 | for any input, the code takes it for a text exactly if the part before its first byte 0 is one |
| JsonTexts.TextBehindZeroIsIgnored | ThirdParty/JSON/include/nlohmann/detail/input/lexer.hpp:1592-1597 | null, a byte 0 and an x are taken for a text and are none |
| JsonTexts.AcceptedIffNoOverflow | ThirdParty/JSON/include/nlohmann/detail/input/parser.hpp:264-273 | of the texts of the grammar, whose numbers have no limit, exactly those are accepted in which no number overflows a double |
| JsonTexts.OverflowIsRefused | ThirdParty/JSON/include/nlohmann/detail/input/parser.hpp:264-273 | 1e999 is a text of the grammar and is refused |
| JsonTexts.SpacesAreSkipped | ThirdParty/JSON/include/nlohmann/detail/input/lexer.hpp:1495-1516 | spaces, tabs and line ends around a scalar, and a byte order mark in front, leave it a text |
| JsonTexts.ParseText | ThirdParty/JSON/include/nlohmann/json.hpp:4043-4051 | from bytes to tree: a value exactly if the input up to its first byte 0 is a JSON text of section 2 of RFC 8259 (behind an optional byte order mark), and it is the value of that text |
| JsonTexts.AcceptText | ThirdParty/JSON/include/nlohmann/json.hpp:4083-4087 | true exactly for such inputs |
| RoundTrips.FloatIsJsonText | ThirdParty/JSON/include/nlohmann/detail/conversions/to_chars.hpp:1053-1115 | every printed double is a JSON text by itself |
| RoundTrips.PrintAndParse | ThirdParty/JSON/include/nlohmann/detail/conversions/to_chars.hpp:1053-1115 | for every finite double, printing it and parsing the text gives the same value, if strtod rounds to nearest |
| Serializing.Decoded | ThirdParty/JSON/include/nlohmann/detail/output/serializer.hpp:900-940 | the code points of a string, whose encoding gives the string back, or none |
| Serializing.DecodedIffWellFormed | ThirdParty/JSON/include/nlohmann/detail/output/serializer.hpp:900-940 | exactly the strings of section 4 of RFC 3629 have code points |
| Serializing.AutomatonStep | ThirdParty/JSON/include/nlohmann/detail/output/serializer.hpp:900-940 | one byte in the automaton of the table: it accepts with the code point exactly where a UTF-8 sequence is complete, rejects only what starts none, and otherwise has read the start of one |
| Serializing.HexText | ThirdParty/JSON/include/nlohmann/detail/output/serializer.hpp:472-484 | four hexadecimal digits that denote the code unit |
| Serializing.EscapedExamples | ThirdParty/JSON/include/nlohmann/detail/output/serializer.hpp:464-484 | U+001F, U+00E4 and U+1F600 as escapes |
| Serializing.Serializer.PutPoint | ThirdParty/JSON/include/nlohmann/detail/output/serializer.hpp:405-496 | each code point is written by its case, and the buffer never overflows, also with the 0 snprintf puts behind |
| Serializing.Serializer.DumpEscaped | ThirdParty/JSON/include/nlohmann/detail/output/serializer.hpp:391-634 | exception 316 exactly for strings that are not well-formed UTF-8; otherwise the code points with their escapes, across any number of flushes of the buffer |
| Serializing.CountDigits | ThirdParty/JSON/include/nlohmann/detail/output/serializer.hpp:646-669 | the number of decimal digits |
| Serializing.Serializer.DumpInteger | ThirdParty/JSON/include/nlohmann/detail/output/serializer.hpp:714-785 | the decimal digits of every signed or unsigned 64-bit integer, written in pairs from the end |
| Serializing.Serializer.DumpArray | ThirdParty/JSON/include/nlohmann/detail/output/serializer.hpp:188-245 | the elements in order with separators, on one line or with indentation |
| Serializing.Serializer.DumpObject | ThirdParty/JSON/include/nlohmann/detail/output/serializer.hpp:115-186 | the members in key order with separators, on one line or with indentation |
| Serializing.Serializer.Dump | ThirdParty/JSON/include/nlohmann/detail/output/serializer.hpp:107-374 | the text of any value, or exception 316 exactly if a string or key in it is not well-formed UTF-8 |
| Serializing.DumpValue | ThirdParty/JSON/include/nlohmann/json.hpp:1299-1317 | dump() with an indentation or without one |
| Serializing.DumpExample | ThirdParty/JSON/include/nlohmann/detail/output/serializer.hpp:107-245 | {"a": [null, true]} in lines with an indentation of two, and on one line |
| DumpParsing.QuotedDenotes | ThirdParty/JSON/include/nlohmann/detail/output/serializer.hpp:247-253 | what is written for a string is a literal of section 7 of RFC 8259 that denotes it |
| DumpParsing.DumpIsText | ThirdParty/JSON/include/nlohmann/detail/output/serializer.hpp:107-374 | what is written is a text of section 2 of RFC 8259 |
| DumpParsing.ParseDumped | ThirdParty/JSON/include/nlohmann/json.hpp:4043-4051 | parsing what is written for a tree, in any style, gives the tree back, true as true and each number as itself |
| DumpParsing.DumpAndParse | ThirdParty/JSON/include/nlohmann/json.hpp:1299-1317 | parse(dump(j)) == j for every tree whose strings are well-formed UTF-8, in every style, however its numbers are written as integers of 64 bits or as floats that strtod reads as them; for any other tree there is exception 316 |
| LogRing.StepKeepsInv | Logger/src/FileLogPolicy.cpp:32-89 | every step of producer or worker keeps: file, in-flight rest, queued buffers in order and current buffer together are all messages in order; no buffer is in two places; a settled current buffer was empty and is not full |
| LogRing.EveryRunKeepsInv | Logger/src/FileLogPolicy.cpp:32-89 | so it is in every interleaving |
| LogRing.FileIsClosed | Logger/src/FileLogPolicy.cpp:66-75 | once the worker has exited, nothing more gets into the file |
| LogRing.CompleteIffQueuedBeforeExit | Logger/src/FileLogPolicy.cpp:20-30 | the file is complete in the end if and only if nothing was left unqueued when the worker exited and nothing was logged after |
| LogRing.LastMessageCanBeLost | Logger/src/FileLogPolicy.cpp:20-30 | the stop flag set before the final flush allows a run that loses a message |
| LogRing.BufferIsQueuedWhenFull | Logger/src/FileLogPolicy.cpp:38-51 | Write queues the current buffer exactly when it has got 65536 messages |
| LogRing.NearestFreeBufferIsNext | Logger/src/FileLogPolicy.cpp:32-36 | the producer goes on with the nearest free buffer around the ring |
| LogRing.NoEmptyBufferIsQueued | Logger/src/FileLogPolicy.cpp:53-64 | in every run, no buffer without messages is queued |
| ThreadPools.StepKeepsInv | ThreadPool/src/ThreadPool.cpp:9-57 | every step keeps: the counter is the queue length and within the bound, tasks are dequeued in the order of acceptance, and each dequeued task is running once or has run once |
| ThreadPools.EveryRunKeepsInv | ThreadPool/src/ThreadPool.cpp:9-57 | so it is in every run |
| ThreadPools.RoomIsUsedAtOnce | ThreadPool/src/ThreadPool.cpp:45-57 | a call of enqueue is accepted at once exactly if the queue has room; otherwise it waits |
| ThreadPools.EveryCallIsAcceptedOrWaits | ThreadPool/src/ThreadPool.cpp:45-57 | in every run, each call of enqueue that found the pool running has been accepted or waits |
| ThreadPools.RunOnceIffQueueIsEmpty | ThreadPool/src/ThreadPool.cpp:16-19 | when all workers have exited, every accepted task has run exactly once if and only if the queue is empty |
| ThreadPools.ShutdownRunsEverything | ThreadPool/src/ThreadPool.cpp:34-43 | if no call of enqueue waits when the pool is stopped, every accepted task has run exactly once when all workers have exited |
| ThreadPools.PoolCanDrain | ThreadPool/src/ThreadPool.cpp:12-31 | from every state of a stopped pool whose workers are all there, they can run all tasks and exit while the calls that wait go on waiting |
| ThreadPools.ShutdownIsCompleteIffNoCallWaits | ThreadPool/src/ThreadPool.cpp:34-57 | when the pool is stopped, every continuation up to the exit of all workers runs every accepted task exactly once if and only if no call of enqueue waits at that moment |
| ThreadPools.EveryShutdownIsCompleteIffNoCallWaits | ThreadPool/src/ThreadPool.cpp:34-57 | so it is in every run in which the pool is stopped |
| ThreadPools.NothingGetsLostIffNoCallWaits | ThreadPool/src/ThreadPool.cpp:45-57 | when the last worker has left an empty queue, every continuation of the run runs every accepted task exactly once if and only if no call of enqueue waits at that moment |
| ThreadPools.LostIffAcceptedAfterLastExit | ThreadPool/src/ThreadPool.cpp:45-57 | so it is at the last exit of every run, and then exactly the tasks accepted afterwards are lost |
| ThreadPools.WaitingTaskCanBeLost | ThreadPool/src/ThreadPool.cpp:45-57 | the stop flag is tested only before the wait: with one worker and room for one task, a second call that waits when the pool is stopped is accepted after the worker has exited, and its task is lost |
| Sessions.Session.SentData | TCP/src/Session.cpp:64-71 | data is queued last; a write starts only if none is under way, and none after a failure |
| Sessions.Session.AsyncWrite | TCP/src/Session.cpp:81-92 | the completed payload is the front of the queue, the next one starts if there is one, and an error closes the session |
| Sessions.Drive | TCP/src/Session.cpp:64-92 | after any sequence of calls: what was sent is exactly the data of the calls in order; at most one write is outstanding, before a failure exactly while the queue is not empty and with its front; completed and started payloads are prefixes of all that was sent; from a failure on, wherever in the sequence, no write starts |
| Sessions.EverythingIsSentInOrder | TCP/src/Session.cpp:64-92 | completed and queued data together are always everything sent, in order, and the writes started are those completed and the front of the queue |
| Sessions.NothingStartsAfterFailure | TCP/src/Session.cpp:81-92 | once a write has failed, nothing more is started or completed, whatever is called |

## Left out

- Number types: `Json` has one exact number type; NaN, binary and discarded values of a tree, and comparisons between number types, are not modelled.
- `strtoull` and `strtoll` are a decimal reader; `strtod` is a parameter that gives a value or an overflow, and the rounding of a float token is its matter.
- The decimal point is always `.`; line and column counts, error messages and the option to skip comments are not modelled.
- Grisu2 is modelled for 64-bit doubles only, not for `float`.
- Serializing.Serializer.Dump: how a number is written is a parameter, as a tree does not say whether it is an integer or a float; `DumpInteger` and `ToChars` are the two ways. Binary and discarded values, other indentation characters than the space, and the growth of the indentation string are not modelled.
- Serializing.Serializer.DumpEscaped: the strict error handler, the default; the handlers that ignore or replace ill-formed bytes are not modelled.
- Diffing.PatchOfDiff: arrays have at most 2^64 - 1 elements, as in any memory; so it is in DiffPlaces.OpsAreThoseCalledFor and Flattening.FlatMembers.
- RoundTrips.PrintAndParse: the sign of zero is lost, as values are reals.
- ToCharsPrinting.ToChars: the sign is put in front of a buffer that starts at 0, where the source moves the buffer pointer by one.
- Lexers.Lexer.AddCodepoint: the operands the source joins with bitwise or have no bit in common and are added; the same holds for the adapters of wide strings.
- Parsing.Parse: the tokens come as a sequence that ends in end_of_input. Exceptions are off, so that an error sets a flag.
- JsonTexts.ParseText: strict mode, the default; the tokens up to the first error are scanned before the parser starts, where the source scans them one by one. That nothing was read yet is seen from the number of bytes taken from the input, which differs only for an empty input, where it does not matter.
- Parsing.Parser.SaxParseInternal: `accept` runs the loop with the same handler instead of one that does nothing.
- DomBuilding.DomBuilder.HandleValue: pointers into the tree are paths from the root, so that reallocation of a vector is not seen; sizes beyond `max_size` are not refused.
- CallbackBuilding.CallbackBuilder.HandleValue: proved for callbacks that keep everything; filtering is not modelled.
- CallbackBuilding.CallbackBuilder.AddKey: proved for callbacks that keep everything; filtering is not modelled.
- CallbackBuilding.CallbackBuilder.EndObject: proved for callbacks that keep everything; filtering is not modelled.
- CallbackBuilding.CallbackBuilder.EndArray: proved for callbacks that keep everything; filtering is not modelled.
- CallbackBuilding.Feed: proved for callbacks that keep everything; filtering is not modelled.
- CallbackBuilding.BuildBoth: proved for callbacks that keep everything; filtering is not modelled.
- Patching.Document.OperationAdd: the failed assertion is an outcome of its own that leaves the tree unchanged; that the program ends there, or goes on if assertions are compiled out, is not modelled.
- Patching.Document.Apply: where the order of evaluation is unspecified in C++, "replace" looks for its value first and "test" for its path first; references into the tree are pointers resolved anew.
- Flattening.RestoredIffRestorable: arrays have at most 2^64 - 1 elements; the memory an index asks for is not bounded.
- MergePatching.Document.MergePatch: a reference into the tree is the path of keys that leads there.
- CborDecoding.EncodingIsDecoded: floats are passed on as bits. BJData, UBJSON, BSON and MessagePack have the same shape and are left out.
- CborReading.BinaryReader.GetCborString: the functions for text and for binary strings are one method with the base of the major type.
- LogRing.StepKeepsInv: calls of Write and Flush are serialized as in the source's use; data races on the flags, the formatting of messages and progress (Flush waits with the queue locked) are not modelled.
- ThreadPools.StepKeepsInv: progress is not claimed, as workers and producers share one condition variable.
- Sessions.Drive: reading, framing, timeouts and the socket itself.
- Everything that wraps libraries not shown or only moves data: acceptors, HTTP, TLS, WebSocket, SQLite, queues, routers and configuration.
