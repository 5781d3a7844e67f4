# MatchType codec of DebugView++

This project models the `MatchType` codec of DebugView++'s filter library in Dafny and proves properties of it. The codec lives in `DebugView++Lib/MatchType.cpp`. A filter is one of four match kinds: `Simple`, `Wildcard`, `Regex` and `RegexGroups`. The codec does two jobs:

- it converts a kind to and from the integer code that filter files store, and to and from the kind's name;
- it builds the regular-expression pattern for a filter's text.

A simple text has every one of the 14 metacharacters `^ $ \ . * + ? ( ) [ ] { } |` escaped with a backslash. A wildcard text turns `?` into `.?` and `*` into `.*`, and escapes the other metacharacters. Regex texts pass through unchanged.

Everything is in one module, `MatchTypes` (`match_type.dfy`):

- `MatchType` is a datatype with the four kinds, in the order of their file codes.
- C++ `int` is the newtype `int32`.
- `throw std::invalid_argument("bad MatchType!")` becomes `Err(BadMatchType)` of a `Result`.
- The two escaping loops are the methods `MakeSimplePattern` and `MakeWildcardPattern`. Each is proved equal to a specification function, `SimplePattern` or `WildcardPattern`. Each specification function is the in-order concatenation (`MapConcat`) of one block per input character (`EscapeChar` or `WildcardChar`).
- `MakePattern` dispatches on the kind. A Dafny function cannot call a method, so `MakePattern` uses the specification functions; the methods' postconditions make the two the same.

Each escaper is paired with an independent decoder that recovers the text: `Unescape` for simple patterns, `Unglob` for wildcard patterns. Both escapers are instances of `IsEscaping`. That predicate says ordinary characters are kept and each metacharacter becomes two metacharacters with no bare quantifier. The shared lemmas about length, metacharacter count, quantifiers and idempotence are proved once for every escaping translation.

## Model

| member | source | states |
|---|---|---|
| `MatchTypes.MatchTypeToInt` | DebugView++Lib/MatchType.cpp:18-24 | the stored codes are fixed: Simple is 0, Wildcard 1, Regex 2, RegexGroups 3, and each code belongs to exactly one kind |
| `MatchTypes.MatchTypeToIntInjective` | DebugView++Lib/MatchType.cpp:92-103 | distinct kinds are stored under distinct codes |
| `MatchTypes.IntToMatchType` | DebugView++Lib/MatchType.cpp:105-116 | code 0 reads as Simple, 1 as Wildcard, 2 as Regex, 3 as RegexGroups; decoding succeeds exactly for 0 to 3 and otherwise fails with "bad MatchType!" |
| `MatchTypes.IntRoundTrip` | DebugView++Lib/MatchType.cpp:105-116 | decoding the code of a kind gives that kind back |
| `MatchTypes.IntToMatchTypeInverse` | DebugView++Lib/MatchType.cpp:105-116 | every code that decodes is the stored code of the kind it decodes to |
| `MatchTypes.MatchTypeToString` | DebugView++Lib/MatchType.cpp:118-129 | each kind's name is its own identifier: "Simple", "Wildcard", "Regex", "RegexGroups", in both directions |
| `MatchTypes.MatchTypeToStringInjective` | DebugView++Lib/MatchType.cpp:118-129 | distinct kinds have distinct names |
| `MatchTypes.EnumToWCharPtr` | DebugView++Lib/MatchType.cpp:131-142 | the wide name has the same characters as MatchTypeToString |
| `MatchTypes.StringToMatchType` | DebugView++Lib/MatchType.cpp:144-151 | parsing succeeds exactly when the string equals one of the four names (case-sensitive), yields the kind with that name, and otherwise fails with "bad MatchType!" |
| `MatchTypes.StringRoundTrip` | DebugView++Lib/MatchType.cpp:144-151 | parsing the name of a kind gives that kind back |
| `MatchTypes.ConversionExamples` | DebugView++Lib/MatchType.cpp:105-151 | code 99, "bogus" and "simple" are rejected |
| `MatchTypes.IsSpecialRegexCharacter` | DebugView++Lib/MatchType.cpp:26-46 | a character is special exactly when it is in the 14-character metacharacter list |
| `MatchTypes.MetacharactersDistinct` | DebugView++Lib/MatchType.cpp:26-46 | that list has 14 entries, all distinct |
| `MatchTypes.OrdinaryCharacters` | DebugView++Lib/MatchType.cpp:26-46 | letters, digits and the blank are never special |
| `MatchTypes.EscapingLength` | DebugView++Lib/MatchType.cpp:48-77 | an escaped text is its length plus one per metacharacter |
| `MatchTypes.EscapingSpecialCount` | DebugView++Lib/MatchType.cpp:48-77 | an escaped text holds two metacharacters per metacharacter of the input |
| `MatchTypes.EscapingAnchored` | DebugView++Lib/MatchType.cpp:48-77 | an escaped text has no `*` or `?` that is not preceded by `.` or `\` |
| `MatchTypes.EscapingFixedPoint` | DebugView++Lib/MatchType.cpp:48-77 | escaping leaves a text unchanged exactly when it has no metacharacter |
| `MatchTypes.EscapingIdempotent` | DebugView++Lib/MatchType.cpp:48-77 | escaping twice equals escaping once exactly when the text has no metacharacter |
| `MatchTypes.EscapeChar` | DebugView++Lib/MatchType.cpp:53-55 | the block for a character ends with that character and is preceded by a backslash exactly when the character is a metacharacter |
| `MatchTypes.SimpleIsEscaping` | DebugView++Lib/MatchType.cpp:53-55 | the simple block keeps an ordinary character alone and turns a metacharacter into two metacharacters with no bare quantifier |
| `MatchTypes.MakeSimplePattern` | DebugView++Lib/MatchType.cpp:48-58 | the loop's result is the in-order concatenation of the simple blocks of the text |
| `MatchTypes.UnescapeSimplePattern` | DebugView++Lib/MatchType.cpp:48-58 | deleting the escaping backslashes of a simple pattern recovers the text |
| `MatchTypes.SimplePatternInjective` | DebugView++Lib/MatchType.cpp:48-58 | distinct texts give distinct simple patterns |
| `MatchTypes.WildcardChar` | DebugView++Lib/MatchType.cpp:65-74 | the block for a character ends with that character and has a prefix exactly when it is a metacharacter: `.` for `?` and `*`, a backslash for the others |
| `MatchTypes.WildcardIsEscaping` | DebugView++Lib/MatchType.cpp:65-74 | the wildcard block keeps an ordinary character alone and turns a metacharacter into two metacharacters with no bare quantifier |
| `MatchTypes.MakeWildcardPattern` | DebugView++Lib/MatchType.cpp:60-77 | the loop's result is the in-order concatenation of the wildcard blocks of the text |
| `MatchTypes.UnglobWildcardPattern` | DebugView++Lib/MatchType.cpp:60-77 | reading `.?`, `.*` and `\c` back as `?`, `*` and `c` recovers the text |
| `MatchTypes.WildcardAgreesWithSimple` | DebugView++Lib/MatchType.cpp:69-73 | a text without `?` or `*` gets the same pattern as wildcard and as simple text |
| `MatchTypes.MakePattern` | DebugView++Lib/MatchType.cpp:79-90 | Regex and RegexGroups return the text; Simple and Wildcard return a pattern that decodes to the text, has no bare quantifier, and is longer by the number of metacharacters |
| `MatchTypes.MakePatternInjective` | DebugView++Lib/MatchType.cpp:79-90 | for every kind, distinct texts give distinct patterns |
| `MatchTypes.MakePatternIdempotent` | DebugView++Lib/MatchType.cpp:79-90 | building a pattern from its own result changes nothing exactly when the kind is Regex or RegexGroups or the text has no metacharacter |
| `MatchTypes.SimpleNotIdempotent` | DebugView++Lib/MatchType.cpp:83 | escaping "." twice differs from escaping it once |
| `MatchTypes.SimplePatternExample` | DebugView++Lib/MatchType.cpp:48-58 | "a.b*c" as simple text is `a\.b\*c`, and the empty text gives the empty pattern |
| `MatchTypes.WildcardPatternExample` | DebugView++Lib/MatchType.cpp:60-90 | "a?b*c" as wildcard text is `a.?b.*c`, and the regex "^a.*$" is returned unchanged |

## Left out

- The `default:` branches of the switches over `MatchType`, with their `assert`s, are left out. They cannot be reached for a closed datatype. This includes the fallback in `MakePattern` that returns the text unchanged, and the throws in `MatchTypeToInt`, `MatchTypeToString` and `EnumToWCharPtr`, which become total functions.
- The `assert(...)` calls are left out. They are debug-only.
- The C++ exception mechanism is not modelled. A thrown `std::invalid_argument` becomes an `Err` result carrying its message.
- `EnumToWCharPtr` returns a plain string. The lifetime and encoding of the `wchar_t` pointer are not modelled.
- Text is a sequence of characters. The signedness of `char`, multi-byte encodings and locales are not modelled.
- The `MATCH_TYPES()` list is defined in `DebugView++Lib/MatchType.h`, which is not part of this model. The kinds and their order come from the `FilterFileIds` names.
- The regular-expression engine that later compiles the patterns is not part of this model.
