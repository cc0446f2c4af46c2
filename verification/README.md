# Verification of the APR string, ring and coding routines

The repository vendors parts of the Apache Portable Runtime under
`dependecies/apr`. This project models the routines there that do real work and
proves what they are for:

- **Glob matching** (`GlobSyntax`, `GlobMatch`, `GlobLetters`, `GlobCost`, `Fnmatch`,
  `GlobSegments`, `GlobTest`, `GlobRender`, `GlobWorst`). A pattern is read into a list of items. A string
  matches when it can be divided into one fitting piece per item, a purely
  existential definition that knows nothing of search order. `apr_fnmatch` is
  the greedy loop of the source: it goes segment by segment, restarts only at the latest
  `*`, counts the items ahead, and jumps to the tail for the last run. It is proved to decide
  exactly that definition; what patterns written out character by character match is stated without it. Its work is counted twice: calls of `fnmatch_ch` that compare the string, and
  tests of a character of the string, of which one call makes several at a `[`. Bounds hold for both;
  the one of the calls carries over to the tests when every `[` opens a bracket, and
  not otherwise. The standard is
  section 2.13 of the Shell Command Language and section 9.3.5 of the Base
  Definitions, IEEE Std 1003.1-2008, with the deviations the source lists.
- **Rings** (`Ring`, `RingRuns`). Nodes with `next` and `prev` fields, the
  sentinel a node like the others, changed in place by the macros; every run of
  macro calls over any number of rings keeps the account of who is where, with heads and elements
  initialised on the way. A sequence
  taken out of a ring may be split before its parts are spliced in again.
- **Base64 and base32** (`BitOps`, `Base64Ops`, `Base32Ops`, `BitStrings`,
  `EncodeTables`, `Base64`, `Base32`, `CodecLaws`). The bit operations of the source are proved against regrouping
  one string of bits, as sections 4 to 7 of RFC 4648 and appendix C of RFC 7515
  describe it, and the two directions against each other.
- **Escapers** (`UrlEscape`, `UrlPasses`, `UrlStatus`, `EntityEscape`, `EntityLaws`, `EntityAscii`, `EntityNames`,
  `EntityNumbers`, `TextEscape`, `EscapeLetters`, `EscapeTable`, `EscapeBits`). The counting and the
  writing pass of the three url escapers, of the entity, shell, echo and LDAP escapers, and of the
  entity unescaper are proved against one function each, for every length, and unescaping is proved to undo
  escaping exactly when it does, for every set of marked characters and for those of the
  generated table. For the url unescaper it is settled when the two passes agree, and for the
  entity unescaper and the path escaper when only the characters within the length count. What is
  written for each character, what each entity name and number stands for, and which url gives which
  status is stated in literal characters.
- **The argument tokenizer** (`ArgvTokenizer`, `ArgvWords`) and **the separator tokenizer**
  (`CstrTokenize`, `CstrPieces`), each against a description of the pieces a text consists of.
- **Numbers** (`NumberText`, `NumberLetters`, `NumberBases`, `NumberOverflow`) and **file sizes** (`Strfsize`):
  writing and reading are inverse, the overflow tests of the parser are sound, and
  it is settled in which bases they are complete.

Code that assigns in place is modelled by methods over arrays and objects with
the loops of the source; each is tied to a function or predicate of its inputs, and the
lemmas speak about those. A C string is the sequence of its characters before
the terminator; `At` or a test for the length stands for reading the terminator
(`Apr` holds this and what else the modules share).
`char` is one ordered character type, in the C locale. Where the source leaves a
block by `goto`, the model uses a flag; the inner loops of `apr_fnmatch` and the macros of
`apr_tokenize_to_argv` are methods of their own.

## Where code and documentation differ

The model follows the code.

- `dependecies/apr/include/apr_fnmatch.h:103-104` says that `[]` never matches
  and that `[^]` and `[!]` match without consuming a character. The code takes a
  `]` right behind the opening (and its `!` or `^`) as a member of the list; if no closing bracket
  follows, the `[` is an ordinary character. So each of the three patterns matches itself
  and nothing else: `GlobTest.BracketsWithoutList`.
- `dependecies/apr/include/apr_encode.h:154-156` describes APR_ENCODE_NOPADDING
  and APR_ENCODE_URL as separate. `apr_encode.c:290` tests for either bit of
  APR_ENCODE_BASE64URL, so leaving out the padding also selects the url alphabet:
  `CodecLaws.NoPaddingSelectsUrl`. `CodecLaws.WhenNoPaddingIsAll` says for which bytes
  only the padding is left out.
- The decoders' second scan starts one behind the first character that is no
  symbol (`apr_encode.c:472-476`). Padded text therefore reports APR_BADCH unless
  APR_ENCODE_RELAXED is given, although its bytes and their number are right.
  `CodecLaws.StrictNeedsNoPadding` says exactly when it does not, and
  `CodecLaws.PaddedTextIsRefused` is an instance.
- Both scans read the table before they test `count`. So a text that is read to its end, which is every
  text that a decoder accepts without APR_ENCODE_RELAXED, has the place one past the character behind
  it read as well (for a string the one past its terminator), and no other text has: `EncodeTables.Scan`, with `QUJD` in
  `EncodeTables.ReadsBehindTerminator`. The value read there has no effect.
- `dependecies/apr/include/apr_ring.h:221-222` and `238-239` warn against
  splicing in front of the first element or behind the last. With the sentinel
  linked in as it is, the macros do that correctly; `Ring.SpliceBefore` and
  `Ring.SpliceAfter` hold for every place.
- `dependecies/apr/include/apr_strings.h:350-351` promises ERANGE on overflow.
  `apr_strtoi64` compares each wrapped word with the one before, which misses
  some numbers in every base above 3 (and in base 3 below zero):
  `NumberOverflow.WhichOverflowsAreNoticed`. In base 10, 43000000000000000000 wraps
  around to 6106511852580896768, which is larger than the word before it: `NumberOverflow.WrapsToMore`.
- `dependecies/apr/include/apr_strings.h:346-349` gives base 0 only the choice of ten and
  sixteen; the code reads a leading 0 as octal, `010` as eight (`NumberBases.LeadingZero`).
  `NumberBases.WhenBaseZeroIsTen` says exactly when number and end are those of base ten.
- `apr_ltoa` negates the least number, which stays what it is in a word; the remainders are negative
  then, and characters below `0` are written: `NumberText.LeastIsNoNumeral`.
- `dependecies/apr/include/apr_escape.h:105-115` takes a length and returns in `len` the
  length of the result, with a buffer or without. With a length the two passes stop at different places once an
  escape has been left as it is, because only the counting pass takes all of its three
  characters off the length (`apr_escape.c:180-185` and `219-223`). `UrlPasses.WhenPassesAgree`
  says exactly when they agree, and `UrlPasses.LengthThree` gives an input at which they do not.
- `apr_unescape_entity` takes one character off the length for a numeric entity, however long it is
  (`apr_escape.c:707-722`), so both passes read on behind the length. `EntityLaws.WhenLengthCounts`
  says exactly when only the first characters count; `EntityLaws.LengthFive` is an instance.
- `apr_escape_path` looks for the colon and the slash in the whole string, whatever the length
  (`apr_escape.c:383-384`): `UrlEscape.WhenLengthCounts`, and `UrlEscape.ColonBehindLength` with `ab:c`.
- `dependecies/apr/include/apr_escape.h:238-243` says that a single quote becomes `&apos;`, and with `toasc` any
  character that is not ASCII an entity. The table does not mark the single quote
  (`tools/gen_test_char.c:111`), so it stays; if it were marked, it would not come back, since
  `apos` is in no list of names (`EntityLaws.EntitiesReadBack`). The buffer that the code of a
  character is printed into holds six characters with the terminator, so the semicolon is cut off
  (`apr_escape.c:573-577`): with `toasc` a string comes back exactly when it is ASCII (`EntityAscii.AsciiReadsBack`,
  `EscapeTable.LastByte`).
- `apr_unescape_entity` reads a code into an `int`; taking it to wrap around, 4294967361 stands for `A`:
  `EntityEscape.WrapsToLetter`, `EntityEscape.WhenNumberIsCode`.
- `dependecies/apr/include/apr_escape.h:274-287` promises APR_NOTFOUND when nothing was changed. An entity that is a
  number which is not allowed vanishes without setting `found` (`apr_escape.c:716-719`), so `&#0;` becomes
  empty under APR_NOTFOUND. `EntityNumbers.ChangedInSilence` says exactly which strings are changed so.
- `apr_escape_shell` puts a backslash in front of a newline, and a shell drops the two (section 2.2.1
  of the Shell Command Language, IEEE Std 1003.1-2008): a string comes back exactly when it has no newline,
  `EscapeTable.ShellLosesNewlines`.

## Model

| member | source | states |
|---|---|---|
| `Fnmatch.AprFnmatch` | dependecies/apr/strings/apr_fnmatch.c:194-393 | for every pattern, string and flags the result is 0 exactly when the string can be divided into one fitting piece per pattern item. Calls of `fnmatch_ch` that compare the string: at most pattern length * (string length + 1). Tests of a character by all calls, those that only count items included: at most pattern length squared * (string length + 2), and pattern length * (string length + 2) when every `[` read as an item opens a well-formed bracket; at least those spent on a first run between two stars |
| `Fnmatch.FnmatchCh` | dependecies/apr/strings/apr_fnmatch.c:74-191 | one item against one character: the verdict is that of the item read from the pattern, and how far the pattern moves does not depend on the character, the terminator and a slash under APR_FNM_PATHNAME excepted; nor does the number of tests, which is given exactly |
| `Fnmatch.BracketCh` | dependecies/apr/strings/apr_fnmatch.c:84-163 | the bracket is closed exactly when it is well-formed; the verdict is membership in the union of its characters and ranges, complemented after `!` or `^`; one test for each element read, up to where the list breaks off if it does |
| `Fnmatch.ElementCh` | dependecies/apr/strings/apr_fnmatch.c:118-155 | one character or range of a bracket list, with its escapes, and where the next begins |
| `Fnmatch.CountFixed` | dependecies/apr/strings/apr_fnmatch.c:287-336 | the count of fixed items ahead, taken with a dummy character, is the true length of the run up to the next `*` or the end of the segment; the tests its dummy calls make are given exactly |
| `Fnmatch.SkipWild` | dependecies/apr/strings/apr_fnmatch.c:265-280 | a group of `*` and `?` is equivalent to one `*` behind as many characters as there are `?` |
| `Fnmatch.FindRun` | dependecies/apr/strings/apr_fnmatch.c:339-374 | stopping at the first place where the run behind a `*` fits loses no match, and failing means that there is none; the tests made are given exactly |
| `Fnmatch.MatchFixed` | dependecies/apr/strings/apr_fnmatch.c:339-374 | without a pending `*` every item is compared where it stands, and a mismatch is final |
| `Fnmatch.MatchSegment` | dependecies/apr/strings/apr_fnmatch.c:252-375 | consuming one segment leaves an equivalent remaining problem or shows that there is no match, each character of the pattern paying for its share of calls and tests |
| `Fnmatch.LeadingPeriod` | dependecies/apr/strings/apr_fnmatch.c:225-237 | under APR_FNM_PERIOD a leading period needs a plain or escaped period |
| `Fnmatch.NextSegment` | dependecies/apr/strings/apr_fnmatch.c:213-223 | at a pair of slashes both sides go on to their next segments; a slash matches only a slash |
| `Fnmatch.MatchRest` | dependecies/apr/strings/apr_fnmatch.c:282-374 | the same for what follows a group of `*` and `?` |
| `GlobCost.ItemBound` | dependecies/apr/strings/apr_fnmatch.c:84-163 | one call makes no more tests than there are characters left in the pattern, and no more than it reads when the `[` there opens a bracket |
| `GlobCost.SearchBound` | dependecies/apr/strings/apr_fnmatch.c:339-374 | the tests of all tries of a run: the width of the run, at the rate of its items, for each place tried |
| `GlobWorst.TestsAre` | dependecies/apr/strings/apr_fnmatch.c:287-374 | the number of tests spent on the first run of the pattern of a star, `k` times `[`, `x` and a star against `n` times `[`; `Fnmatch.AprFnmatch` makes at least as many |
| `GlobWorst.TenBrackets` | dependecies/apr/strings/apr_fnmatch.c:287-374 | ten and a hundred `[`: 6915 of them, more than five times pattern length * (string length + 1) |
| `GlobWorst.NoMultipleIsEnough` | dependecies/apr/strings/apr_fnmatch.c:97-162 | no multiple of pattern length * (string length + 2) bounds them for all patterns |
| `GlobMatch.MatchesIffMatchAt` | dependecies/apr/strings/apr_fnmatch.c:194-393 | the existential definition of a match (a division of the string) agrees with matching item by item, where `*` tries every end within its segment |
| `GlobMatch.FirstFitIsEnough` | dependecies/apr/strings/apr_fnmatch.c:339-374 | once the run between two stars has fitted somewhere, later places need not be tried: why restarting at the latest `*` is enough |
| `GlobMatch.LastRunIsTail` | dependecies/apr/strings/apr_fnmatch.c:287-307 | the last run of a segment can only match the tail of the string segment |
| `GlobMatch.RunTooLong` | dependecies/apr/strings/apr_fnmatch.c:301-320 | a run longer than what is left of the segment matches nowhere |
| `GlobSegments.MatchesBySegments` | dependecies/apr/strings/apr_fnmatch.c:213-384 | with APR_FNM_PATHNAME a match is the same as equally many segments on both sides, each pair matching without that flag, leading periods and brackets cut by a slash included |
| `GlobTest.AprFnmatchTest` | dependecies/apr/strings/apr_fnmatch.c:405-434 | reports a pattern exactly when it has an unescaped `?` or `*`, or an unescaped `]` behind an unescaped `[`; a pattern it clears matches exactly one string |
| `GlobTest.PlainPatternMatchesOneString` | dependecies/apr/strings/apr_fnmatch.c:405-434 | a pattern without those matches, with flags 0, the pattern without its escaping backslashes and nothing else |
| `GlobTest.QuotedMatchesOnlyItself` | dependecies/apr/strings/apr_fnmatch.c:171-180 | every string with a backslash before each character is a pattern that matches that string alone |
| `GlobTest.BracketsWithoutList` | dependecies/apr/strings/apr_fnmatch.c:93-163 | the patterns `[]`, `[!]` and `[^]` match themselves and nothing else |
| `GlobTest.WhatIsReported` | dependecies/apr/strings/apr_fnmatch.c:405-434 | a pattern without backslashes is reported exactly when it holds `?`, `*`, or a `[` with a `]` somewhere behind it; a character behind a backslash never makes it so |
| `GlobLetters.RangeMatches` | dependecies/apr/strings/apr_fnmatch.c:118-141 | for characters with no meaning of their own, `[a-b]` matches exactly the single characters from `a` to `b`, both ends included, and `[!a-b]` and `[^a-b]` exactly the others; a slash under APR_FNM_PATHNAME and a leading period under APR_FNM_PERIOD match none of them |
| `GlobLetters.RangeOfLetters` | dependecies/apr/strings/apr_fnmatch.c:129-141 | under APR_FNM_CASE_BLIND a range of letters also matches those whose codes are 32 off |
| `GlobLetters.LetterMatches` | dependecies/apr/strings/apr_fnmatch.c:143-155 | under APR_FNM_CASE_BLIND a character `x`, alone or as `[x]`, matches itself and, if it is a letter, the one 32 off, and nothing else |
| `GlobLetters.ListMatches` | dependecies/apr/strings/apr_fnmatch.c:97-163 | `[w]` matches exactly the single characters in `w`, and `[!w]` and `[^w]` exactly the others |
| `GlobLetters.HyphenAndBracket` | dependecies/apr/strings/apr_fnmatch.c:97-155 | a hyphen in front of the closing bracket, and a closing bracket right behind the opening, are members of the list |
| `GlobLetters.BackslashMatches` | dependecies/apr/strings/apr_fnmatch.c:100-110 | a backslash makes the character behind it mean itself, alone and in a list; under APR_FNM_NOESCAPE it is a character like others |
| `GlobLetters.WildMatches` | dependecies/apr/strings/apr_fnmatch.c:165-169 | `?` matches every single character and `*` every string, but no slash under APR_FNM_PATHNAME and no leading period under APR_FNM_PERIOD |
| `GlobLetters.PeriodMatches` | dependecies/apr/strings/apr_fnmatch.c:225-237 | outside of pathnames APR_FNM_PERIOD asks for one thing more: that a string with a leading period is met by a pattern that begins with a period, plain or escaped |
| `GlobLetters.PlainMatchesItself` | dependecies/apr/strings/apr_fnmatch.c:171-190 | a pattern of plain characters matches itself alone |
| `GlobLetters.UnclosedMatchesItself` | dependecies/apr/strings/apr_fnmatch.c:93-163 | a `[` that nothing closes, or that a slash cuts off under APR_FNM_PATHNAME, is a character like others |
| `GlobRender.RenderReadsBack` | dependecies/apr/strings/apr_fnmatch.c:74-191 | every list of items with non-empty brackets can be written as a pattern that is read back as the same list |
| `Ring.Init` | dependecies/apr/include/apr_ring.h:192-195 | the sentinel alone is a cycle: the empty ring |
| `Ring.ElemInit` | dependecies/apr/include/apr_ring.h:212-215 | an element that points to itself is a sequence of one |
| `Ring.Empty` | dependecies/apr/include/apr_ring.h:204-205 | true exactly when the ring holds no element |
| `Ring.SpliceBefore` | dependecies/apr/include/apr_ring.h:228-233 | the sequence ends up in front of `lep` and the result is one cycle, for every place, the one in front of the sentinel included |
| `Ring.SpliceAfter` | dependecies/apr/include/apr_ring.h:245-250 | the same behind `lep` |
| `Ring.SpliceHead` | dependecies/apr/include/apr_ring.h:286-288 | the ring holds the sequence and then its former elements |
| `Ring.SpliceTail` | dependecies/apr/include/apr_ring.h:299-301 | the ring holds its former elements and then the sequence |
| `Ring.Unsplice` | dependecies/apr/include/apr_ring.h:364-369 | the rest is one cycle in the old order, and the sequence taken out is still linked within |
| `Ring.Remove` | dependecies/apr/include/apr_ring.h:377-378 | the ring without the one element |
| `Ring.Concat` | dependecies/apr/include/apr_ring.h:332-339 | the first ring holds both in order, the second is empty |
| `Ring.Prepend` | dependecies/apr/include/apr_ring.h:348-355 | the first ring holds the second's elements and then its own, the second is empty |
| `Ring.SpliceThenUnsplice` | dependecies/apr/include/apr_ring.h:228-233 | taking out what was just spliced in restores every link of the ring |
| `Ring.ForeachSafe` | dependecies/apr/include/apr_ring.h:400-403 | while the body removes any subset of what it visits, every element is visited once, in order, the loop ends, and the others stay in order |
| `Ring.CheckConsistency` | dependecies/apr/include/apr_ring.h:448-456 | the assertions all hold exactly when the element lies on a cycle with `next` and `prev` inverse to each other |
| `Ring.RingLinks` | dependecies/apr/include/apr_ring.h:69-125 | in a ring the head points to its first and last element or to itself, every element to the next and the one before, the outer ones to the head, and no element is there twice |
| `Ring.LinksMakeRing` | dependecies/apr/include/apr_ring.h:69-125 | and links like these are all a ring needs |
| `RingRuns.ApplyTidy` | dependecies/apr/include/apr_ring.h:192-369 | no call loses an element or puts one in two places, and only the nodes it initialises come in; neither does splitting a sequence that was taken out |
| `RingRuns.Step` | dependecies/apr/include/apr_ring.h:192-369 | one macro call on any of many rings, or on a new head or element: links in memory are again those of the account, and all other rings keep theirs |
| `RingRuns.Run` | dependecies/apr/include/apr_ring.h:192-369 | the same at the end of every run of calls: the rings and elements are those there were and those initialised on the way, each in one place |
| `RingRuns.RunFromNothing` | dependecies/apr/include/apr_ring.h:192-369 | so a run from nothing ends with exactly the rings and elements it initialised |
| `BitStrings.BytesSurvive` | dependecies/apr/encoding/apr_encode.c:277-330 | bytes regrouped into symbols of any width up to 8, zero filled, and back are the same bytes |
| `BitStrings.SymbolsSurvive` | dependecies/apr/encoding/apr_encode.c:452-516 | symbols regrouped into whole bytes and back are the same symbols exactly when less than one symbol's bits are unused and all of them are zero |
| `Base64.EncodeBase64Binary` | dependecies/apr/encoding/apr_encode.c:277-337 | the text is the input's bit string in 6-bit symbols, zero filled and padded by the flags; the size query is enough for it and its terminator, and exact when padded |
| `Base64.DecodeBase64Binary` | dependecies/apr/encoding/apr_encode.c:452-523 | the bytes are the whole bytes of the leading symbols; exactly when the status is success; nothing behind them is touched and the size query is enough |
| `Base32.EncodeBase32Binary` | dependecies/apr/encoding/apr_encode.c:674-776 | the same for 5-bit symbols and blocks of eight |
| `Base32.DecodeBase32Binary` | dependecies/apr/encoding/apr_encode.c:919-1018 | the same for 5-bit symbols, with all the lengths that are no length of an encoding |
| `EncodeTables.Scan` | dependecies/apr/encoding/apr_encode.c:471-480 | the first loops of a decoder, reading the table before testing the count: how many symbols the text begins with, exactly when nothing is left unaccounted for, and that the place one past the character behind the text is read exactly then, and none further |
| `EncodeTables.ReadsBehindTerminator` | dependecies/apr/encoding/apr_encode.c:471-480 | for the string `QUJD` the place behind its terminator is read |
| `EncodeTables.DigitOfLetter` | dependecies/apr/encoding/apr_encode.c:34-206 | each table inverts its alphabet, and the one for base64 both of them |
| `EncodeTables.Symbol64` | dependecies/apr/encoding/apr_encode.c:277-337 | text made with any flags has, at each place, the character of its symbol in the literal alphabet of base64, or of base64url when the flags ask for it |
| `EncodeTables.Symbol32` | dependecies/apr/encoding/apr_encode.c:674-776 | the same for base32 and base32hex |
| `EncodeTables.LeadingSpells64` | dependecies/apr/encoding/apr_encode.c:34-206 | the symbols a base64 decoder reads are the places of the characters in the two literal alphabets, and it stops in front of the first character that is in neither |
| `EncodeTables.LeadingSpells32` | dependecies/apr/encoding/apr_encode.c:34-206 | the same for the base32 decoders, each with its own alphabet |
| `CodecLaws.TwoBytesOfVector` | dependecies/apr/encoding/apr_encode.c:277-776 | the bytes of `fo` give `Zm8=`, `MZXQ====` and `CPNG====`, as in section 10 of RFC 4648 |
| `CodecLaws.EncodedReadsBack` | dependecies/apr/encoding/apr_encode.c:452-516 | decoding an encoded text gives exactly the input bytes, for every alphabet and flags |
| `CodecLaws.EncodedLengthIsLegal` | dependecies/apr/encoding/apr_encode.c:497-499 | no encoding has a length that a decoder turns down |
| `CodecLaws.StrictNeedsNoPadding` | dependecies/apr/encoding/apr_encode.c:471-480 | a strict decoder accepts an encoded text exactly when it carries no padding, that is when padding is off or the bytes fill whole blocks, or when the padding goes on behind it |
| `CodecLaws.PaddedTextIsRefused` | dependecies/apr/encoding/apr_encode.c:471-480 | base64 of one byte, `QQ==`, is refused by a strict decoder |
| `CodecLaws.NoPaddingSelectsUrl` | dependecies/apr/encoding/apr_encode.c:290-295 | under APR_ENCODE_NOPADDING alone one byte is encoded with `-`, a letter of the url alphabet |
| `CodecLaws.WhenNoPaddingIsAll` | dependecies/apr/encoding/apr_encode.c:290-295 | under APR_ENCODE_NOPADDING alone the text is that of base64 without padding exactly when every symbol is below 62 |
| `CodecLaws.Base64RoundTrip` | dependecies/apr/encoding/apr_encode.c:277-523 | encoding and decoding with any flags gives the bytes; success exactly when the decoder is relaxed, padding is off, or the number of bytes is a multiple of three |
| `CodecLaws.Base32RoundTrip` | dependecies/apr/encoding/apr_encode.c:674-1018 | the same for base32 in one alphabet, with multiples of five |
| `CodecLaws.DecodedWritesAgain` | dependecies/apr/encoding/apr_encode.c:277-330 | a text of base64url or base32 symbols comes back from decoding and encoding exactly when less than one symbol's bits are left over and they are zero |
| `UrlEscape.EscapePathSegment` | dependecies/apr/encoding/apr_escape.c:301-348 | for every length, counting and writing give the same size and status; the size is that of the text written and its terminator |
| `UrlEscape.EscapePath` | dependecies/apr/encoding/apr_escape.c:369-431 | the same, with `./` in front exactly when a colon comes before the first slash, anywhere in the string, and `partial` is off |
| `UrlEscape.WhenLengthCounts` | dependecies/apr/encoding/apr_escape.c:380-394 | what stands behind the length makes no difference exactly when `./` is not asked for by a colon behind it |
| `UrlEscape.ColonBehindLength` | dependecies/apr/encoding/apr_escape.c:380-394 | two characters of `ab:c` become `./ab` |
| `UrlEscape.EscapeUrlencoded` | dependecies/apr/encoding/apr_escape.c:452-506 | the same as for a path segment, with `+` for a space that is not in the escape set |
| `UrlEscape.UnescapeUrl` | dependecies/apr/encoding/apr_escape.c:139-250 | for every length: each pass gives the size and status of the pieces it reads, and what is written is their concatenation |
| `UrlPasses.WhenPassesAgree` | dependecies/apr/encoding/apr_escape.c:155-234 | both passes give the same size exactly when, at every piece, its place equals the length if and only if its place less twice the number of reserved escapes before it does; then they give the same status |
| `UrlPasses.StringMode` | dependecies/apr/encoding/apr_escape.c:155-234 | so for a terminated string both passes read all of it |
| `UrlPasses.LongEnough` | dependecies/apr/encoding/apr_escape.c:155-234 | and for a length that reaches to the end they read the same |
| `UrlPasses.LengthThree` | dependecies/apr/encoding/apr_escape.c:155-234 | three characters of `%2Fab`, the slash reserved: the counting pass reads three, the writing pass five |
| `UrlStatus.PieceIs` | dependecies/apr/encoding/apr_escape.c:155-234 | what one place of a url tells, in its characters: a `%` without two hexadecimal figures, an escape of the code 0 or of a forbidden character, a reserved escape that stays, one that is decoded |
| `UrlStatus.PieceWrites` | dependecies/apr/encoding/apr_escape.c:155-234 | and what is written for it |
| `UrlStatus.StatusIs` | dependecies/apr/encoding/apr_escape.c:236-250 | APR_EINVAL exactly when some place read has a broken escape; otherwise APR_BADCH exactly when some escape is of the code 0 or forbidden; otherwise APR_NOTFOUND exactly when nothing was decoded |
| `UrlStatus.ThreeUrls` | dependecies/apr/encoding/apr_escape.c:155-250 | `%2F` with the slash forbidden and `%00` are bad paths, `%4` is invalid |
| `UrlStatus.ChangedMeansSuccess` | dependecies/apr/encoding/apr_escape.c:139-250 | a terminated url is as it was under APR_NOTFOUND and is changed under APR_SUCCESS |
| `EscapeLetters.UrlLetter` | dependecies/apr/encoding/apr_escape.c:301-506 | a marked character becomes `%` and its two small hexadecimal figures, a space `+` where that is asked for, and any other stays |
| `EscapeLetters.UrlUnchanged` | dependecies/apr/encoding/apr_escape.c:301-506 | the status is APR_NOTFOUND exactly when the text is the string |
| `EscapeLetters.DotInFront` | dependecies/apr/encoding/apr_escape.c:380-394 | `./` is put in front exactly when there is a colon and no slash before the first one, and `partial` is off |
| `UrlEscape.ToHex` | dependecies/apr/encoding/apr_escape.c:287-299 | two hexadecimal digits behind the prefix, which `x2c` reads back as the character |
| `UrlEscape.EscapedReadsBack` | dependecies/apr/encoding/apr_escape.c:139-250 | unescaping an escaped string gives it back without complaint exactly when the string has no `%`, nor `+` under `plus`, that the escape set leaves alone |
| `UrlEscape.EscapedPathReadsBack` | dependecies/apr/encoding/apr_escape.c:369-431 | the same for paths, up to the `./` in front |
| `UrlEscape.PercentMustBeEscaped` | dependecies/apr/encoding/apr_escape.c:301-348 | with a set that leaves `%` alone, `%41` comes back as `A` |
| `EntityEscape.EscapeEntity` | dependecies/apr/encoding/apr_escape.c:526-637 | for every length, set of marked characters and `toasc`: counting and writing give the same size and status; a marked character is written as its entity, or left out if the switch does not know it, and under `toasc` a byte that is not ASCII as its code without a semicolon |
| `EntityEscape.UnescapeEntity` | dependecies/apr/encoding/apr_escape.c:661-812 | for every length both passes read the same pieces, where a numeric entity takes only 1 off the length; the result is never longer than the input |
| `EntityEscape.LookUp` | dependecies/apr/encoding/apr_escape.c:724-745 | the search in the table finds the character of a name whenever there is one |
| `EntityEscape.ReadNumber` | dependecies/apr/encoding/apr_escape.c:707-722 | a numeric entity stands for the number its digits make in an `int` that wraps around, if it is all digits and that is tab, newline or a graphic character of ISO 8859-1 |
| `EntityEscape.WhenNumberIsCode` | dependecies/apr/encoding/apr_escape.c:707-722 | it stands for its number exactly when that does not wrap around to an allowed one |
| `EntityEscape.WrapsToLetter` | dependecies/apr/encoding/apr_escape.c:707-722 | 4294967361 stands for `A` |
| `EntityEscape.CodeForm` | dependecies/apr/strings/apr_snprintf.c:1355-1384 | a byte printed into six characters: `&#` and three digits that make its code, and no semicolon |
| `EscapeLetters.EntityLetter` | dependecies/apr/encoding/apr_escape.c:526-637 | the five entities, and the three decimal figures of a byte from 128 on under `toasc` |
| `EscapeLetters.EntityUnchanged` | dependecies/apr/encoding/apr_escape.c:526-637 | with a set of characters that have entities, the status is APR_NOTFOUND exactly when the text is the string |
| `EntityNames.Grave` | dependecies/apr/encoding/apr_escape.c:681-682 | `Agrave`, `Egrave`, `Igrave`, `Ograve`, `Ugrave` are C0, C8, CC, D2, D9 |
| `EntityNames.SmallGrave` | dependecies/apr/encoding/apr_escape.c:683-684 | the small ones are 32 above |
| `EntityNames.Acute` | dependecies/apr/encoding/apr_escape.c:681-682 | the capitals with an acute accent, by code |
| `EntityNames.Circumflex` | dependecies/apr/encoding/apr_escape.c:679-680 | the capitals with a circumflex, by code |
| `EntityNames.Tilde` | dependecies/apr/encoding/apr_escape.c:681-682 | the capitals with a tilde, by code |
| `EntityNames.Umlaut` | dependecies/apr/encoding/apr_escape.c:677-678 | the capitals with two dots, by code |
| `EntityNames.Others` | dependecies/apr/encoding/apr_escape.c:673-690 | the remaining capitals and the four of ASCII, by code |
| `EntityNames.SmallOthers` | dependecies/apr/encoding/apr_escape.c:673-690 | the remaining small ones, by code |
| `EntityNames.NamesAre` | dependecies/apr/encoding/apr_escape.c:673-690 | a name stands for a character exactly when it is the name of that character in the four rows of ISO 8859-1 or one of the four of ASCII, each row written out |
| `EntityNames.EntityIsRead` | dependecies/apr/encoding/apr_escape.c:724-745 | such a name between `&` and `;` is read as its character |
| `EntityNames.OtherNamesStay` | dependecies/apr/encoding/apr_escape.c:724-745 | any other name stays as it is |
| `EntityNames.UnclosedStays` | dependecies/apr/encoding/apr_escape.c:700-705 | a string without a semicolon stays as it is |
| `EntityNumbers.NumberIsRead` | dependecies/apr/encoding/apr_escape.c:707-722 | the numeral of any number below 2^32 between `&#` and `;` is read as the character with that code if it is 9, 10, 32 to 126 or 161 to 255, and vanishes otherwise |
| `EntityNumbers.NoNumberVanishes` | dependecies/apr/encoding/apr_escape.c:707-722 | so does anything that is not all digits |
| `EntityNumbers.ChangedInSilence` | dependecies/apr/encoding/apr_escape.c:707-722 | a terminated string is changed under APR_NOTFOUND exactly when some entity in it vanishes, as in `&#0;`; under APR_SUCCESS it is always changed |
| `EntityLaws.AllIsRead` | dependecies/apr/encoding/apr_escape.c:689-750 | without a length, or with one that reaches to the terminator, the whole string is read |
| `EntityLaws.WhenLengthCounts` | dependecies/apr/encoding/apr_escape.c:689-750 | with a length the result depends on that many characters only, and is that of reading them as a string, exactly when reading them meets no numeric entity |
| `EntityLaws.LengthFive` | dependecies/apr/encoding/apr_escape.c:707-722 | five characters of `&#65;bc` are read as `Abc` |
| `EntityLaws.EntitiesReadBack` | dependecies/apr/encoding/apr_escape.c:526-812 | under any set that holds `&`, unescaping what was escaped gives the string itself exactly when none of its characters is marked but those whose entities are known |
| `EntityLaws.WhenEntitiesReadBack` | dependecies/apr/encoding/apr_escape.c:526-812 | every C string comes back exactly when the set holds `&` and no character whose entity is not known |
| `EntityAscii.AsciiReadsBack` | dependecies/apr/encoding/apr_escape.c:573-577 | with `toasc` and such a set a string comes back exactly when it is ASCII |
| `TextEscape.Escape` | dependecies/apr/encoding/apr_escape.c:41-98 | for every length, counting and writing of the shell, echo and LDAP escapers give the same size and status, and the text is that of the characters one by one; LDAP with a length takes zeros too |
| `TextEscape.WriteEcho` | dependecies/apr/encoding/apr_escape.c:842-909 | one character of `apr_escape_echo`, with the double quote that is written over the backslash when `quote` is off |
| `TextEscape.WriteLdap` | dependecies/apr/encoding/apr_escape.c:1155-1169 | one character of `apr_escape_ldap` |
| `TextEscape.WhenEscapesReadBack` | dependecies/apr/encoding/apr_escape.c:832-1194 | the source has no readers for these; one that knows the escapes (a shell dropping a backslash with a newline) gets every string back exactly when the escape set holds the backslash and, for a shell, no newline, or, for LDAP, every hexadecimal digit |
| `EscapeLetters.TextLetter` | dependecies/apr/encoding/apr_escape.c:832-1194 | what a marked character becomes, letter by letter: `\n`, `\t` and the others of echo, a backslash for a shell, two small hexadecimal figures for LDAP |
| `EscapeLetters.TextUnchanged` | dependecies/apr/encoding/apr_escape.c:832-1194 | the status is APR_NOTFOUND exactly when the text is the string |
| `EscapeTable.UrlsComeBack` | dependecies/apr/tools/gen_test_char.c:90-100 | with the sets of the generated table every path segment, path and urlencoded string comes back |
| `EscapeTable.EntitiesComeBack` | dependecies/apr/tools/gen_test_char.c:111-113 | and so does every string with entities |
| `EscapeTable.AsciiComesBack` | dependecies/apr/tools/gen_test_char.c:111-113 | with `toasc` exactly those that are ASCII |
| `EscapeTable.LastByte` | dependecies/apr/encoding/apr_escape.c:573-577 | byte 255 is written as `&#255` |
| `EscapeTable.ShellLosesNewlines` | dependecies/apr/tools/gen_test_char.c:85-87 | a shell gets a string back exactly when it has no newline |
| `EscapeTable.EchoComesBack` | dependecies/apr/tools/gen_test_char.c:107-109 | every string of `apr_escape_echo` comes back |
| `EscapeTable.LdapComesBack` | dependecies/apr/tools/gen_test_char.c:115-123 | every sequence of bytes of `apr_escape_ldap` comes back exactly when one of its flags is given |
| `EscapeBits.MarksAreBits` | dependecies/apr/include/private/apr_escape_test_char.h:11-25 | each set is the one bit of the 256 entries of the generated table |
| `EscapeBits.LdapBits` | dependecies/apr/encoding/apr_escape.c:1145-1194 | each flag of `apr_escape_ldap` marks the characters of one bit |
| `ArgvTokenizer.CpyStrn` | dependecies/apr/strings/apr_cpystrn.c:46-68 | copies as much as fits, or nothing without a source, always terminates, touches nothing behind the terminator, and points at it |
| `ArgvTokenizer.DetermineNextString` | dependecies/apr/strings/apr_cpystrn.c:117-129 | finds the end of the token text at hand |
| `ArgvTokenizer.RemoveEscapeChars` | dependecies/apr/strings/apr_cpystrn.c:135-147 | cleaning in place leaves exactly the text without its escaping backslashes, terminated |
| `ArgvTokenizer.CountArgs` | dependecies/apr/strings/apr_cpystrn.c:149-168 | the counting pass finds one more than the number of tokens |
| `ArgvTokenizer.TokenizeToArgv` | dependecies/apr/strings/apr_cpystrn.c:87-186 | the extracting pass yields exactly the tokens the counting pass found and never starts one behind the terminator |
| `ArgvTokenizer.WhichArgumentLists` | dependecies/apr/strings/apr_cpystrn.c:97-147 | a list of C strings can be had from some input exactly when no member but the last ends in a backslash |
| `ArgvTokenizer.QuotedComesBack` | dependecies/apr/strings/apr_cpystrn.c:97-147 | quoting and joining such a list gives an input that is tokenized into the list |
| `ArgvWords.LineComesBack` | dependecies/apr/strings/apr_cpystrn.c:97-186 | a line of words, each bare, in quotes of either kind, with a backslash before each character, or both, with any run of spaces and tabs between, gives these words |
| `ArgvWords.SingleQuotes` | dependecies/apr/strings/apr_cpystrn.c:103-129 | a text without single quotes and backslashes, between single quotes, is one argument |
| `CstrTokenize.AprCstrTokenize` | dependecies/apr/strings/apr_cstr.c:110-148 | the token is the next run of other characters, the only character written is the terminator behind it, and the text still to be cut is untouched |
| `CstrTokenize.AprCstrSplitAppend` | dependecies/apr/strings/apr_cstr.c:30-64 | after all calls have written into the buffer, the pointers read exactly the runs in order, trimmed when chopping, without the empty ones |
| `CstrTokenize.RunsAreTheMaximalRuns` | dependecies/apr/strings/apr_cstr.c:110-148 | those runs are exactly the maximal ones without the separator, in order |
| `CstrPieces.TrimmedIsCut` | dependecies/apr/strings/apr_cstr.c:47-57 | trimming a run leaves it from its first to its last character that is no white space, each of the six written out |
| `CstrPieces.KeptAreTheRunsCut` | dependecies/apr/strings/apr_cstr.c:30-64 | the pieces kept are exactly the maximal runs cut so, without those that have no such character, in order; without `chop` they are the runs |
| `NumberText.Ltoa` | dependecies/apr/strings/apr_strings.c:384-406 | the digits fit the buffer, and the text is the decimal numeral, terminated; for the least number the characters its remainders make |
| `NumberText.LeastIsNoNumeral` | dependecies/apr/strings/apr_strings.c:384-406 | the text is the numeral exactly for every number but the least, for which no digit follows the sign |
| `NumberText.Strtoi64` | dependecies/apr/strings/apr_strings.c:244-353 | the result, the error and the end pointer for every input, with words that wrap around; for digits whose number fits the word the result is that number and the overflow tests stay silent |
| `NumberText.Accumulate` | dependecies/apr/strings/apr_strings.c:326-340 | one more digit on wrapping 64-bit words, and when the tests take it for an overflow |
| `NumberText.NextFits` | dependecies/apr/strings/apr_strings.c:326-340 | while the number fits, a digit is taken exactly and the tests notice nothing |
| `NumberOverflow.NoticedAtOnce` | dependecies/apr/strings/apr_strings.c:329-333 | in base 2, and in base 3 without a minus sign, the first digit too many is noticed |
| `NumberText.WordIsNumber` | dependecies/apr/strings/apr_strings.c:300-341 | digits whose number fits the word are read exactly, in every base, and nothing is taken for an overflow on the way |
| `NumberOverflow.WhichOverflowsAreNoticed` | dependecies/apr/strings/apr_strings.c:329-346 | every number that does not fit is reported, as the documentation promises, exactly when the base is 2, or 3 without a minus sign |
| `NumberOverflow.SpelledSlipsThrough` | dependecies/apr/strings/apr_strings.c:329-346 | in every other base there is a string whose number does not fit and which is read without an error |
| `NumberOverflow.WrapsToMore` | dependecies/apr/strings/apr_strings.c:244-353 | 43000000000000000000 is read in base 10 as 6106511852580896768 without an error |
| `NumberBases.WhenBaseZeroIsTen` | dependecies/apr/strings/apr_strings.c:274-281 | base 0 without `0x` gives the number and the end of base ten exactly when the first digit is not 0 or the number in base ten is below 8 |
| `NumberBases.LeadingZero` | dependecies/apr/strings/apr_strings.c:274-281 | `010` with base 0 gives 8 |
| `NumberText.NumeralReadsBack` | dependecies/apr/strings/apr_strings.c:244-406 | the numeral of every 64-bit number above the least one is read in base 10, to its end, as that number |
| `NumberText.WriteThenRead` | dependecies/apr/strings/apr_strings.c:355-406 | reading what was written gives the number, and zero for the least |
| `NumberText.FirstDigit` | dependecies/apr/strings/apr_strings.c:355-406 | a numeral has no leading zero |
| `NumberLetters.DigitIsPlace` | dependecies/apr/strings/apr_strings.c:283-311 | a digit has the value of its place in `0` to `9` and `a` to `z` or `A` to `Z`, and no other character is one |
| `NumberLetters.CaseDoesNotMatter` | dependecies/apr/strings/apr_strings.c:283-353 | small and capital letters give the same number, end and word |
| `NumberLetters.PartsToldApart` | dependecies/apr/strings/apr_strings.c:258-281 | white space, a sign, `0x` and digits are told apart: where the digits begin and end, the base, and the sign |
| `NumberLetters.HexLetters` | dependecies/apr/strings/apr_strings.c:244-353 | `FF` in base 16 is 255, ` -0xfF` is -255 |
| `Strfsize.AprStrfsize` | dependecies/apr/strings/apr_strings.c:432-466 | exactly four characters for every size, and the unit never goes past `E` |
| `Strfsize.Accuracy` | dependecies/apr/strings/apr_strings.c:432-466 | the value shown is off by at most 1/20 + 1/1024 of a unit with a decimal point, half a unit without one, and exact below 973 |
| `Strfsize.Monotone` | dependecies/apr/strings/apr_strings.c:432-466 | a larger size never shows a smaller value |
| `Strfsize.WhichForm` | dependecies/apr/strings/apr_strings.c:432-466 | bytes below 973; from there on the first unit of which there are fewer than 973, with one decimal up to 9 + 972/1024 of it, each rounded half up |
| `Strfsize.TextShows` | dependecies/apr/strings/apr_strings.c:432-466 | reading figures, blanks and the unit letter of the text gives the number and unit of which the others speak |

## Left out

- Strtoi64: takes a signed overflow to wrap around, as the source's tests do; the C standard leaves it undefined. So do Ltoa and ReadNumber.
- The escapers read the character at the length before they test the length; in the model a string has a terminator there or goes on, except for LDAP, where a terminator is taken to follow.
- A null `str` of the escapers and unescapers, for which they report APR_NOTFOUND.
- AprCstrTokenize: covers one separator; several are handed to `apr_strtok`, which is not part of this model.
- The widths of `int` and of the cast `(int)slen`: inputs are shorter than 2^31 characters.
- Base16, hex, and the variants of the encoders and decoders for text instead of bytes, with the size query of `apr_encode_base32`: easier than or equal to what is here.
- `apr_match_glob`, `apr_collapse_spaces`, case-insensitive comparison and the pool wrappers: directory reading, or easy members.
- Allocation always succeeds; memory pools are not part of this model.
- Null arguments of `apr_cstr_tokenize` and `apr_fnmatch`.
- MatchSegment: counts the tests that `fnmatch_ch` makes; looking for the end of a segment and for a leading period is not counted.
- EBCDIC, Win32 and OS/2 branches, and multibyte characters.
- The curses user interface in `src/` and the running of `svn` through pipes.
