/** The JavaScript string primitives the request handlers rely on: the
    whitespace class shared by the regular-expression escape `\s` and by
    `String.prototype.trim`, `trim` itself, `length` (counted in UTF-16 code
    units), and the character search that the e-mail pattern implies. */
module JsString {

  /** Unicode category Zs, the space separators. */
  const SpaceSeparators: set<char> := {
    ' ', '\U{00A0}', '\U{1680}',
    '\U{2000}', '\U{2001}', '\U{2002}', '\U{2003}', '\U{2004}', '\U{2005}',
    '\U{2006}', '\U{2007}', '\U{2008}', '\U{2009}', '\U{200A}',
    '\U{202F}', '\U{205F}', '\U{3000}' }

  /** ECMAScript WhiteSpace: TAB, VT, FF, ZWNBSP and the space separators. */
  const WhiteSpace: set<char> := {'\t', '\U{000B}', '\U{000C}', '\U{FEFF}'} + SpaceSeparators

  /** ECMAScript LineTerminator: LF, CR, LS and PS. */
  const LineTerminators: set<char> := {'\n', '\r', '\U{2028}', '\U{2029}'}

  /** The characters `\s` matches and `trim` removes, tested by code point
      ranges; they are exactly the WhiteSpace and LineTerminator tables. */
  predicate IsWhitespace(c: char)
    ensures IsWhitespace(c) <==> c in WhiteSpace + LineTerminators
  {
    || c == '\t' || c == '\n' || c == '\U{000B}' || c == '\U{000C}' || c == '\r'
    || c == ' ' || c == '\U{00A0}' || c == '\U{1680}'
    || ('\U{2000}' <= c <= '\U{200A}')
    || c == '\U{2028}' || c == '\U{2029}' || c == '\U{202F}' || c == '\U{205F}'
    || c == '\U{3000}' || c == '\U{FEFF}'
  }

  /** The number of whitespace characters `s` starts with. */
  function Leading(s: string): (n: nat)
    ensures n <= |s|
    ensures forall i | 0 <= i < n :: IsWhitespace(s[i])
    ensures n < |s| ==> !IsWhitespace(s[n])
  {
    if s != [] && IsWhitespace(s[0]) then
      var n := 1 + Leading(s[1..]);
      assert forall i | 1 <= i < n :: s[i] == s[1..][i - 1];
      n
    else 0
  }

  /** The number of whitespace characters `s` ends with. */
  function Trailing(s: string): (n: nat)
    ensures n <= |s|
    ensures forall i | |s| - n <= i < |s| :: IsWhitespace(s[i])
    ensures n < |s| ==> !IsWhitespace(s[|s| - 1 - n])
  {
    if s != [] && IsWhitespace(s[|s| - 1]) then
      var n := 1 + Trailing(s[..|s| - 1]);
      assert forall i | |s| - n <= i < |s| - 1 :: s[i] == s[..|s| - 1][i];
      n
    else 0
  }

  /** `s.trim()`: what is left of `s` once its leading and trailing
      whitespace is dropped. It neither starts nor ends with whitespace, it is
      empty exactly when `s` is all whitespace, and everything dropped is
      whitespace. */
  function Trim(s: string): (r: string)
    ensures r == [] || (!IsWhitespace(r[0]) && !IsWhitespace(r[|r| - 1]))
    ensures r == [] <==> forall i | 0 <= i < |s| :: IsWhitespace(s[i])
    ensures r != [] ==> r == s[Leading(s)..|s| - Trailing(s)]
  {
    var lead := Leading(s);
    if lead == |s| then []
    else
      var trail := Trailing(s);
      assert lead < |s| - trail;
      s[lead..|s| - trail]
  }

  /** How many UTF-16 code units one character takes. */
  function CodeUnits(c: char): nat
  {
    if c < '\U{10000}' then 1 else 2
  }

  /** `s.length`: JavaScript counts UTF-16 code units, so a character outside
      the Basic Multilingual Plane counts twice. */
  function Utf16Length(s: string): (n: nat)
    ensures |s| <= n <= 2 * |s|
    ensures n == |s| <==> forall i | 0 <= i < |s| :: s[i] < '\U{10000}'
  {
    if s == [] then 0 else CodeUnits(s[0]) + Utf16Length(s[1..])
  }

  /** The number of occurrences of `c` in `s`. */
  function Count(s: string, c: char): (n: nat)
    ensures n <= |s|
    ensures n == 0 <==> c !in s
  {
    if s == [] then 0 else (if s[0] == c then 1 else 0) + Count(s[1..], c)
  }

  /** The index of the first occurrence of `c` in `s`, or `|s|` when there is none. */
  function IndexOf(s: string, c: char): (i: nat)
    ensures i <= |s|
    ensures i < |s| ==> s[i] == c
    ensures forall k | 0 <= k < i :: s[k] != c
  {
    if s == [] then 0 else if s[0] == c then 0 else 1 + IndexOf(s[1..], c)
  }

  /** Counting distributes over concatenation. */
  lemma {:induction false} CountConcat(a: string, b: string, c: char)
    ensures Count(a + b, c) == Count(a, c) + Count(b, c)
  {
    if a == [] {
      assert a + b == b;
    } else {
      assert (a + b)[1..] == a[1..] + b;
      CountConcat(a[1..], b, c);
    }
  }

  /** A character that occurs exactly once occurs at no other index. */
  lemma OnlyOccurrence(s: string, c: char, i: nat)
    requires i < |s| && s[i] == c && Count(s, c) == 1
    ensures forall k | 0 <= k < |s| && k != i :: s[k] != c
  {
    assert s == s[..i] + [s[i]] + s[i + 1..];
    CountConcat(s[..i] + [s[i]], s[i + 1..], c);
    CountConcat(s[..i], [s[i]], c);
    forall k | 0 <= k < |s| && k != i ensures s[k] != c {
      if k < i {
        assert s[k] == s[..i][k];
      } else {
        assert s[k] == s[i + 1..][k - i - 1];
      }
    }
  }
}
