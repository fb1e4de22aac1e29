/** The string operations the services rely on: ASCII case folding (Java's
    `equalsIgnoreCase` and SQL `LOWER`), prefix tests, blank tests and the
    decimal rendering of ids used in error messages. */
module Text {

  function LowerChar(c: char): char {
    if 'A' <= c <= 'Z' then (c as int + 32) as char else c
  }

  function UpperChar(c: char): char {
    if 'a' <= c <= 'z' then (c as int - 32) as char else c
  }

  /** SQL `LOWER(...)` on ASCII letters. */
  function Lower(s: string): string {
    seq(|s|, i requires 0 <= i < |s| => LowerChar(s[i]))
  }

  /** One step of Java's `String.equalsIgnoreCase`: equal characters, equal
      upper-case forms, or equal lower-case forms of the upper-case forms. */
  predicate CharEqualsIgnoreCase(a: char, b: char) {
    a == b || UpperChar(a) == UpperChar(b) || LowerChar(UpperChar(a)) == LowerChar(UpperChar(b))
  }

  /** Java's `String.equalsIgnoreCase`: same length and pairwise equal ignoring case. */
  predicate EqualsIgnoreCase(a: string, b: string) {
    |a| == |b| && forall i :: 0 <= i < |a| ==> CharEqualsIgnoreCase(a[i], b[i])
  }

  lemma CharEqualsIgnoreCaseIffLower(a: char, b: char)
    ensures CharEqualsIgnoreCase(a, b) <==> LowerChar(a) == LowerChar(b)
  {
  }

  /** Java's character-wise comparison and the query language's `LOWER(x) = LOWER(y)`
      decide the same relation, so the two kinds of duplicate check agree. */
  lemma EqualsIgnoreCaseIffLower(a: string, b: string)
    ensures EqualsIgnoreCase(a, b) <==> Lower(a) == Lower(b)
  {
    if EqualsIgnoreCase(a, b) {
      forall i | 0 <= i < |a|
        ensures Lower(a)[i] == Lower(b)[i]
      {
        CharEqualsIgnoreCaseIffLower(a[i], b[i]);
      }
    }
    if Lower(a) == Lower(b) {
      forall i | 0 <= i < |a|
        ensures CharEqualsIgnoreCase(a[i], b[i])
      {
        assert Lower(a)[i] == Lower(b)[i];
        CharEqualsIgnoreCaseIffLower(a[i], b[i]);
      }
    }
  }

  /** Java's `String.startsWith`. */
  predicate StartsWith(s: string, prefix: string) {
    |prefix| <= |s| && s[..|prefix|] == prefix
  }

  /** Java's `Character.isWhitespace`: the Unicode space, line and paragraph
      separators other than the no-break spaces, and the ASCII controls
      U+0009..U+000D and U+001C..U+001F. */
  predicate IsWhitespace(c: char) {
    var n := c as int;
    n == 0x20 || 0x09 <= n <= 0x0D || 0x1C <= n <= 0x1F
    || n == 0x1680 || 0x2000 <= n <= 0x2006 || 0x2008 <= n <= 0x200A
    || n == 0x2028 || n == 0x2029 || n == 0x205F || n == 0x3000
  }

  /** `StringUtils.isBlank` on a non-null string: empty or whitespace only. */
  predicate IsBlank(s: string) {
    forall i :: 0 <= i < |s| ==> IsWhitespace(s[i])
  }

  function DigitChar(d: nat): char
    requires d < 10
  {
    "0123456789"[d]
  }

  function NatToString(n: nat): string
    decreases n
  {
    if n < 10 then [DigitChar(n)] else NatToString(n / 10) + [DigitChar(n % 10)]
  }

  /** `Long.toString`, as used when an id is concatenated into a message. */
  function IntToString(i: int): string {
    if i < 0 then "-" + NatToString(-i) else NatToString(i)
  }
}
