/**
 Character and string predicates that stand in for the regular expressions and
 `String` methods of the resolver. Strings are sequences of characters, one
 `char` per Unicode scalar value; the source counts UTF-16 code units instead,
 which differs for characters outside the Basic Multilingual Plane, and a lone
 surrogate of the source cannot be represented here at all.
 */
module Strings {

  /** The class `\d` of a JavaScript regular expression: an ASCII decimal digit. */
  predicate IsDigit(c: char) {
    '0' <= c <= '9'
  }

  /** The characters that `.` refuses to match in a JavaScript regular expression without the `s` flag. */
  predicate IsLineTerminator(c: char) {
    c == '\n' || c == '\r' || c == '\U{2028}' || c == '\U{2029}'
  }

  /** `s` contains no line terminator, so `.*` can match all of it. */
  predicate NoLineTerminator(s: string) {
    forall i :: 0 <= i < |s| ==> !IsLineTerminator(s[i])
  }

  /** Maps `A`..`Z` to `a`..`z` and leaves every other character alone. */
  function AsciiLower(c: char): (r: char)
    ensures 'A' <= c <= 'Z' ==> 'a' <= r <= 'z' && r as int - c as int == 32
    ensures !('A' <= c <= 'Z') ==> r == c
  {
    if 'A' <= c <= 'Z' then (c as int + 32) as char else c
  }

  /**
   `a` and `b` are equal when ASCII letters are compared without regard to case.
   This is exactly what the `i` flag does in a non-unicode JavaScript regular
   expression for an all-ASCII pattern: case folding there never maps a
   non-ASCII character onto an ASCII one.
   */
  predicate EqualIgnoringAsciiCase(a: string, b: string) {
    |a| == |b| && forall i :: 0 <= i < |a| ==> AsciiLower(a[i]) == AsciiLower(b[i])
  }

  /** `s.endsWith(suffix)`. */
  predicate EndsWith(s: string, suffix: string) {
    |suffix| <= |s| && s[|s| - |suffix|..] == suffix
  }

  lemma EndsWithAppend(p: string, q: string)
    ensures EndsWith(p + q, q)
  {
    assert (p + q)[|p|..] == q;
  }
}
