/*
 * The MatchType codec of DebugView++'s filter library.
 *
 * A filter names one of four match kinds. This module converts a kind to and
 * from the integer code stored in filter files and to and from its name, and
 * builds the regular-expression pattern that a filter's text stands for.
 */
module MatchTypes {

  /** The four match kinds, in the order of their filter-file codes. */
  datatype MatchType = Simple | Wildcard | Regex | RegexGroups

  /** The outcome of a conversion that throws std::invalid_argument on bad input. */
  datatype Result<T> = Ok(value: T) | Err(message: string)

  /** A C++ `int`. */
  newtype int32 = x: int | -0x8000_0000 <= x < 0x8000_0000

  /** The message every failing conversion throws. */
  const BadMatchType: string := "bad MatchType!"

  // Codes stored in filter files; existing values never change, new kinds
  // are appended.
  const SimpleId: int32 := 0
  const WildcardId: int32 := 1
  const RegexId: int32 := 2
  const RegexGroupsId: int32 := 3

  /** The exact spellings of the four kinds. */
  const Names: set<string> := {"Simple", "Wildcard", "Regex", "RegexGroups"}

  /** The regular-expression metacharacters, 14 of them, each listed once. */
  const Metacharacters: string := "^$\\.*+?()[]{}|"

  // ---------------------------------------------------------------------------
  // Integer codes

  /** The code a kind is stored under: Simple 0, Wildcard 1, Regex 2, RegexGroups 3. */
  function MatchTypeToInt(v: MatchType): (n: int32)
    ensures 0 <= n <= 3
    ensures n == 0 <==> v == Simple
    ensures n == 1 <==> v == Wildcard
    ensures n == 2 <==> v == Regex
    ensures n == 3 <==> v == RegexGroups
  {
    match v
    case Simple => SimpleId
    case Wildcard => WildcardId
    case Regex => RegexId
    case RegexGroups => RegexGroupsId
  }

  function IntToMatchType(n: int32): (r: Result<MatchType>)
    ensures r.Ok? <==> 0 <= n <= 3
    ensures n == 0 ==> r == Ok(Simple)
    ensures n == 1 ==> r == Ok(Wildcard)
    ensures n == 2 ==> r == Ok(Regex)
    ensures n == 3 ==> r == Ok(RegexGroups)
    ensures r.Err? ==> r.message == BadMatchType
  {
    if n == SimpleId then Ok(Simple)
    else if n == WildcardId then Ok(Wildcard)
    else if n == RegexId then Ok(Regex)
    else if n == RegexGroupsId then Ok(RegexGroups)
    else Err(BadMatchType)
  }

  /** Distinct kinds are stored under distinct codes. */
  lemma MatchTypeToIntInjective(v: MatchType, w: MatchType)
    ensures MatchTypeToInt(v) == MatchTypeToInt(w) ==> v == w
  {
  }

  /** Reading back a stored code gives the kind that was stored. */
  lemma IntRoundTrip(v: MatchType)
    ensures IntToMatchType(MatchTypeToInt(v)) == Ok(v)
  {
  }

  /** Every code that decodes is the code of the kind it decodes to. */
  lemma IntToMatchTypeInverse(n: int32)
    ensures IntToMatchType(n).Ok? ==> MatchTypeToInt(IntToMatchType(n).value) == n
  {
  }

  // ---------------------------------------------------------------------------
  // Names

  /** The kind's own identifier. */
  function MatchTypeToString(v: MatchType): (s: string)
    ensures s in Names
    ensures s == "Simple" <==> v == Simple
    ensures s == "Wildcard" <==> v == Wildcard
    ensures s == "Regex" <==> v == Regex
    ensures s == "RegexGroups" <==> v == RegexGroups
  {
    match v
    case Simple => "Simple"
    case Wildcard => "Wildcard"
    case Regex => "Regex"
    case RegexGroups => "RegexGroups"
  }

  /** The wide-character name; the same characters as MatchTypeToString. */
  function EnumToWCharPtr(v: MatchType): (w: string)
    ensures w == MatchTypeToString(v)
  {
    match v
    case Simple => "Simple"
    case Wildcard => "Wildcard"
    case Regex => "Regex"
    case RegexGroups => "RegexGroups"
  }

  /** Matches `s` against the names by exact, case-sensitive equality. */
  function StringToMatchType(s: string): (r: Result<MatchType>)
    ensures r.Ok? <==> s in Names
    ensures r.Ok? ==> MatchTypeToString(r.value) == s
    ensures r.Err? ==> r.message == BadMatchType
  {
    if s == "Simple" then Ok(Simple)
    else if s == "Wildcard" then Ok(Wildcard)
    else if s == "Regex" then Ok(Regex)
    else if s == "RegexGroups" then Ok(RegexGroups)
    else Err(BadMatchType)
  }

  /** Parsing a printed name gives the kind back. */
  lemma StringRoundTrip(v: MatchType)
    ensures StringToMatchType(MatchTypeToString(v)) == Ok(v)
  {
  }

  /** Distinct kinds have distinct names. */
  lemma MatchTypeToStringInjective(v: MatchType, w: MatchType)
    ensures MatchTypeToString(v) == MatchTypeToString(w) ==> v == w
  {
  }

  // ---------------------------------------------------------------------------
  // Metacharacters

  predicate IsSpecialRegexCharacter(c: char)
    ensures IsSpecialRegexCharacter(c) <==> c in Metacharacters
  {
    match c
    case '^' | '$' | '\\' | '.' | '*' | '+' | '?' | '(' | ')' | '[' | ']' | '{' | '}' | '|' => true
    case _ => false
  }

  /** The metacharacter list has 14 entries and none of them twice. */
  lemma MetacharactersDistinct()
    ensures |Metacharacters| == 14
    ensures forall i, j :: 0 <= i < j < |Metacharacters| ==> Metacharacters[i] != Metacharacters[j]
  {
  }

  /** Letters, digits and blanks are never metacharacters. */
  lemma OrdinaryCharacters(c: char)
    requires 'a' <= c <= 'z' || 'A' <= c <= 'Z' || '0' <= c <= '9' || c == ' '
    ensures !IsSpecialRegexCharacter(c)
  {
  }

  /** The number of metacharacters in `t`. */
  function CountSpecial(t: string): nat
  {
    if |t| == 0 then 0
    else (if IsSpecialRegexCharacter(t[0]) then 1 else 0) + CountSpecial(t[1..])
  }

  lemma {:induction false} CountSpecialAppend(a: string, b: string)
    ensures CountSpecial(a + b) == CountSpecial(a) + CountSpecial(b)
  {
    if |a| == 0 {
      assert a + b == b;
    } else {
      assert (a + b)[1..] == a[1..] + b;
      CountSpecialAppend(a[1..], b);
    }
  }

  // ---------------------------------------------------------------------------
  // Patterns as per-character blocks

  /** The in-order concatenation of the blocks `f` makes of the characters of `t`. */
  function MapConcat(f: char -> string, t: string): string
  {
    if |t| == 0 then [] else f(t[0]) + MapConcat(f, t[1..])
  }

  lemma {:induction false} MapConcatAppend(f: char -> string, a: string, b: string)
    ensures MapConcat(f, a + b) == MapConcat(f, a) + MapConcat(f, b)
  {
    if |a| == 0 {
      assert a + b == b;
    } else {
      assert (a + b)[1..] == a[1..] + b;
      MapConcatAppend(f, a[1..], b);
    }
  }

  lemma MapConcatSingle(f: char -> string, c: char)
    ensures MapConcat(f, [c]) == f(c)
  {
    assert [c][1..] == [];
  }

  /** Every `*` and `?` of `p` is preceded by a `.` or a `\`: none is a bare quantifier. */
  predicate QuantifiersAnchored(p: string)
  {
    forall i :: 0 <= i < |p| && (p[i] == '*' || p[i] == '?') ==> 0 < i && (p[i - 1] == '.' || p[i - 1] == '\\')
  }

  lemma AnchoredAppend(a: string, b: string)
    requires QuantifiersAnchored(a) && QuantifiersAnchored(b)
    ensures QuantifiersAnchored(a + b)
  {
    forall i | 0 <= i < |a + b| && ((a + b)[i] == '*' || (a + b)[i] == '?')
      ensures 0 < i && ((a + b)[i - 1] == '.' || (a + b)[i - 1] == '\\')
    {
      if i >= |a| {
        assert (a + b)[i] == b[i - |a|];
        assert (a + b)[i - 1] == b[i - |a| - 1];
      }
    }
  }

  /**
   * A per-character translation that keeps ordinary characters as they are and
   * turns each metacharacter into two metacharacters with no bare quantifier:
   * what both escapers do.
   */
  ghost predicate IsEscaping(f: char -> string)
  {
    forall c :: if IsSpecialRegexCharacter(c) then
                  |f(c)| == 2 && IsSpecialRegexCharacter(f(c)[0]) && IsSpecialRegexCharacter(f(c)[1])
                  && QuantifiersAnchored(f(c))
                else f(c) == [c]
  }

  /** An escaped text is one character longer per metacharacter. */
  lemma {:induction false} EscapingLength(f: char -> string, t: string)
    requires IsEscaping(f)
    ensures |MapConcat(f, t)| == |t| + CountSpecial(t)
  {
    if |t| > 0 {
      EscapingLength(f, t[1..]);
    }
  }

  /** An escaped text holds two metacharacters per metacharacter of the input. */
  lemma {:induction false} EscapingSpecialCount(f: char -> string, t: string)
    requires IsEscaping(f)
    ensures CountSpecial(MapConcat(f, t)) == 2 * CountSpecial(t)
  {
    if |t| > 0 {
      var b := f(t[0]);
      EscapingSpecialCount(f, t[1..]);
      CountSpecialAppend(b, MapConcat(f, t[1..]));
      if IsSpecialRegexCharacter(t[0]) {
        assert b == [b[0]] + [b[1]];
        CountSpecialAppend([b[0]], [b[1]]);
        assert CountSpecial([b[0]]) == 1 by { assert [b[0]][1..] == []; }
        assert CountSpecial([b[1]]) == 1 by { assert [b[1]][1..] == []; }
      } else {
        assert CountSpecial(b) == 0 by { assert b[1..] == []; }
      }
    }
  }

  /** An escaped text has no bare `*` or `?`. */
  lemma {:induction false} EscapingAnchored(f: char -> string, t: string)
    requires IsEscaping(f)
    ensures QuantifiersAnchored(MapConcat(f, t))
  {
    if |t| > 0 {
      var c := t[0];
      EscapingAnchored(f, t[1..]);
      if !IsSpecialRegexCharacter(c) {
        assert f(c) == [c];
        assert c != '*' && c != '?';
      }
      AnchoredAppend(f(c), MapConcat(f, t[1..]));
    }
  }

  /** Escaping leaves a text unchanged exactly when it has no metacharacter. */
  lemma {:induction false} EscapingFixedPoint(f: char -> string, t: string)
    requires IsEscaping(f)
    ensures MapConcat(f, t) == t <==> CountSpecial(t) == 0
  {
    EscapingLength(f, t);
    if CountSpecial(t) == 0 && |t| > 0 {
      EscapingFixedPoint(f, t[1..]);
      assert f(t[0]) == [t[0]];
    }
  }

  /** Escaping twice gives the same as escaping once exactly when the text has no metacharacter. */
  lemma EscapingIdempotent(f: char -> string, t: string)
    requires IsEscaping(f)
    ensures MapConcat(f, MapConcat(f, t)) == MapConcat(f, t) <==> CountSpecial(t) == 0
  {
    EscapingFixedPoint(f, MapConcat(f, t));
    EscapingSpecialCount(f, t);
  }

  // ---------------------------------------------------------------------------
  // Simple patterns

  /** The block for one character of a simple pattern: a backslash before a metacharacter. */
  function EscapeChar(c: char): (r: string)
    ensures |r| > 0 && r[|r| - 1] == c
    ensures |r| == 2 <==> IsSpecialRegexCharacter(c)
    ensures |r| == 1 <==> !IsSpecialRegexCharacter(c)
    ensures |r| == 2 ==> r[0] == '\\'
  {
    if IsSpecialRegexCharacter(c) then ['\\', c] else [c]
  }

  /** The pattern that matches `text` literally. */
  function SimplePattern(text: string): string
  {
    MapConcat(EscapeChar, text)
  }

  lemma SimpleIsEscaping()
    ensures IsEscaping(EscapeChar)
  {
  }

  method MakeSimplePattern(text: string) returns (pattern: string)
    ensures pattern == SimplePattern(text)
  {
    pattern := [];
    var i := 0;
    while i < |text|
      invariant 0 <= i <= |text|
      invariant pattern == SimplePattern(text[..i])
    {
      if IsSpecialRegexCharacter(text[i]) {
        pattern := pattern + ['\\'];
      }
      pattern := pattern + [text[i]];
      assert text[..i + 1] == text[..i] + [text[i]];
      MapConcatAppend(EscapeChar, text[..i], [text[i]]);
      MapConcatSingle(EscapeChar, text[i]);
      i := i + 1;
    }
    assert text[..i] == text;
  }

  /** Removes the backslash before each escaped character. */
  function Unescape(p: string): string
  {
    if |p| == 0 then []
    else if |p| >= 2 && p[0] == '\\' then [p[1]] + Unescape(p[2..])
    else [p[0]] + Unescape(p[1..])
  }

  /** Deleting the escaping backslashes of a simple pattern recovers its text. */
  lemma {:induction false} UnescapeSimplePattern(text: string)
    ensures Unescape(SimplePattern(text)) == text
  {
    if |text| > 0 {
      var rest := SimplePattern(text[1..]);
      UnescapeSimplePattern(text[1..]);
      assert SimplePattern(text) == EscapeChar(text[0]) + rest;
      if IsSpecialRegexCharacter(text[0]) {
        assert (['\\', text[0]] + rest)[2..] == rest;
      } else {
        assert ([text[0]] + rest)[1..] == rest;
      }
    }
  }

  /** Distinct texts give distinct simple patterns. */
  lemma SimplePatternInjective(a: string, b: string)
    ensures SimplePattern(a) == SimplePattern(b) ==> a == b
  {
    UnescapeSimplePattern(a);
    UnescapeSimplePattern(b);
  }

  // ---------------------------------------------------------------------------
  // Wildcard patterns

  /** The block for one character of a wildcard pattern: `?` and `*` match any characters. */
  function WildcardChar(c: char): (r: string)
    ensures |r| > 0 && r[|r| - 1] == c
    ensures |r| == 2 <==> IsSpecialRegexCharacter(c)
    ensures |r| == 1 <==> !IsSpecialRegexCharacter(c)
    ensures |r| == 2 ==> r[0] == if c == '?' || c == '*' then '.' else '\\'
  {
    if c == '?' then ".?"
    else if c == '*' then ".*"
    else EscapeChar(c)
  }

  /** The pattern for a text in which `?` and `*` are wildcards. */
  function WildcardPattern(text: string): string
  {
    MapConcat(WildcardChar, text)
  }

  lemma WildcardIsEscaping()
    ensures IsEscaping(WildcardChar)
  {
  }

  method MakeWildcardPattern(text: string) returns (pattern: string)
    ensures pattern == WildcardPattern(text)
  {
    pattern := [];
    var i := 0;
    while i < |text|
      invariant 0 <= i <= |text|
      invariant pattern == WildcardPattern(text[..i])
    {
      var c := text[i];
      if c == '?' {
        pattern := pattern + ".?";
      } else if c == '*' {
        pattern := pattern + ".*";
      } else {
        if IsSpecialRegexCharacter(c) {
          pattern := pattern + ['\\'];
        }
        pattern := pattern + [c];
      }
      assert text[..i + 1] == text[..i] + [c];
      MapConcatAppend(WildcardChar, text[..i], [c]);
      MapConcatSingle(WildcardChar, c);
      i := i + 1;
    }
    assert text[..i] == text;
  }

  /** Turns `.?` and `.*` back into `?` and `*` and removes escaping backslashes. */
  function Unglob(p: string): string
  {
    if |p| == 0 then []
    else if |p| >= 2 && p[0] == '.' && (p[1] == '?' || p[1] == '*') then [p[1]] + Unglob(p[2..])
    else if |p| >= 2 && p[0] == '\\' then [p[1]] + Unglob(p[2..])
    else [p[0]] + Unglob(p[1..])
  }

  /** A wildcard pattern determines the text it was made from. */
  lemma {:induction false} UnglobWildcardPattern(text: string)
    ensures Unglob(WildcardPattern(text)) == text
  {
    if |text| > 0 {
      var c := text[0];
      var rest := WildcardPattern(text[1..]);
      UnglobWildcardPattern(text[1..]);
      assert WildcardPattern(text) == WildcardChar(c) + rest;
      if IsSpecialRegexCharacter(c) {
        assert (WildcardChar(c) + rest)[2..] == rest;
      } else {
        assert ([c] + rest)[1..] == rest;
      }
    }
  }

  /** A text without `?` or `*` gets the same pattern as a wildcard as it does as simple text. */
  lemma {:induction false} WildcardAgreesWithSimple(text: string)
    requires forall i :: 0 <= i < |text| ==> text[i] != '?' && text[i] != '*'
    ensures WildcardPattern(text) == SimplePattern(text)
  {
    if |text| > 0 {
      WildcardAgreesWithSimple(text[1..]);
    }
  }

  // ---------------------------------------------------------------------------
  // Pattern synthesis

  /** The pattern a filter of kind `m` searches for, given the filter's text. */
  function MakePattern(m: MatchType, text: string): (r: string)
    ensures m == Regex || m == RegexGroups ==> r == text
    ensures m == Simple ==> Unescape(r) == text
    ensures m == Wildcard ==> Unglob(r) == text
    ensures m == Simple || m == Wildcard ==> QuantifiersAnchored(r)
    ensures |r| == |text| + (if m == Simple || m == Wildcard then CountSpecial(text) else 0)
  {
    match m
    case Simple =>
      SimpleIsEscaping();
      EscapingLength(EscapeChar, text);
      EscapingAnchored(EscapeChar, text);
      UnescapeSimplePattern(text);
      SimplePattern(text)
    case Wildcard =>
      WildcardIsEscaping();
      EscapingLength(WildcardChar, text);
      EscapingAnchored(WildcardChar, text);
      UnglobWildcardPattern(text);
      WildcardPattern(text)
    case Regex => text
    case RegexGroups => text
  }

  /** Distinct texts give distinct patterns, for every kind. */
  lemma MakePatternInjective(m: MatchType, a: string, b: string)
    ensures MakePattern(m, a) == MakePattern(m, b) ==> a == b
  {
  }

  /**
   * Building a pattern from a pattern changes nothing exactly when the kind is
   * a regular expression or the text has no metacharacter.
   */
  lemma MakePatternIdempotent(m: MatchType, text: string)
    ensures MakePattern(m, MakePattern(m, text)) == MakePattern(m, text)
            <==> (m == Regex || m == RegexGroups || CountSpecial(text) == 0)
  {
    match m
    case Simple =>
      SimpleIsEscaping();
      EscapingIdempotent(EscapeChar, text);
    case Wildcard =>
      WildcardIsEscaping();
      EscapingIdempotent(WildcardChar, text);
    case Regex =>
    case RegexGroups =>
  }

  /** Escaping "." twice is not escaping it once. */
  lemma SimpleNotIdempotent()
    ensures MakePattern(Simple, MakePattern(Simple, ".")) != MakePattern(Simple, ".")
  {
    MakePatternIdempotent(Simple, ".");
    assert CountSpecial(".") == 1;
  }

  /** "a.b*c" as simple text is a\.b\*c. */
  lemma SimplePatternExample()
    ensures MakePattern(Simple, "a.b*c") == "a\\.b\\*c"
    ensures MakePattern(Simple, "") == ""
  {
    calc {
      SimplePattern("a.b*c");
      ['a'] + SimplePattern(".b*c");
      ['a', '\\', '.'] + SimplePattern("b*c");
      ['a', '\\', '.', 'b'] + SimplePattern("*c");
      ['a', '\\', '.', 'b', '\\', '*'] + SimplePattern("c");
      ['a', '\\', '.', 'b', '\\', '*', 'c'];
    }
  }

  /** "a?b*c" as wildcard text is a.?b.*c, and a regular expression is kept. */
  lemma WildcardPatternExample()
    ensures MakePattern(Wildcard, "a?b*c") == "a.?b.*c"
    ensures MakePattern(Regex, "^a.*$") == "^a.*$"
  {
    calc {
      WildcardPattern("a?b*c");
      ['a'] + WildcardPattern("?b*c");
      ['a', '.', '?'] + WildcardPattern("b*c");
      ['a', '.', '?', 'b'] + WildcardPattern("*c");
      ['a', '.', '?', 'b', '.', '*'] + WildcardPattern("c");
      ['a', '.', '?', 'b', '.', '*', 'c'];
    }
  }

  lemma ConversionExamples()
    ensures IntToMatchType(99) == Err(BadMatchType)
    ensures StringToMatchType("bogus") == Err(BadMatchType)
    ensures StringToMatchType("simple") == Err(BadMatchType)
  {
  }
}
