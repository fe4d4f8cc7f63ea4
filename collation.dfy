/** String collation used by the repository comparator.

    The source compares strings with `localeCompare` after `toLowerCase`.
    This module stands in for both with an ordinal (code point by code point)
    three-way comparison and an ASCII-only lower-casing. For fixed-format
    `YYYY-MM-DD` dates, ordinal order is chronological order. */
module Collation {

  /** Three-way ordinal comparison: -1, 0 or 1. A proper prefix sorts
      before the longer string, so the empty string sorts first. */
  function CompareStrings(a: string, b: string): (r: int)
    ensures r == -1 || r == 0 || r == 1
    ensures r == 0 <==> a == b
  {
    if a == [] then (if b == [] then 0 else -1)
    else if b == [] then 1
    else if a[0] < b[0] then -1
    else if a[0] > b[0] then 1
    else
      assert a == [a[0]] + a[1..] && b == [b[0]] + b[1..];
      CompareStrings(a[1..], b[1..])
  }

  /** Swapping the operands negates the comparison. */
  lemma {:induction false} CompareStringsAntisymmetric(a: string, b: string)
    ensures CompareStrings(a, b) == -CompareStrings(b, a)
  {
    if a != [] && b != [] && a[0] == b[0] {
      CompareStringsAntisymmetric(a[1..], b[1..]);
    }
  }

  /** The ordinal order is transitive: together with the two lemmas above it
      is a total order on strings. */
  lemma {:induction false} CompareStringsTransitive(a: string, b: string, c: string)
    requires CompareStrings(a, b) <= 0 && CompareStrings(b, c) <= 0
    ensures CompareStrings(a, c) <= 0
  {
    if a != [] && b != [] && c != [] && a[0] == b[0] == c[0] {
      CompareStringsTransitive(a[1..], b[1..], c[1..]);
    }
  }

  /** The empty string is the least string. */
  lemma EmptyIsLeast(s: string)
    ensures CompareStrings("", s) <= 0
    ensures s != "" ==> CompareStrings("", s) < 0
  {
  }

  predicate IsAsciiUpper(c: char) {
    'A' <= c <= 'Z'
  }

  /** ASCII lower-casing of one character; every other character is kept. */
  function LowerChar(c: char): (d: char)
    ensures !IsAsciiUpper(d)
  {
    if IsAsciiUpper(c) then (c as int + 32) as char else c
  }

  /** ASCII lower-casing of a string, character by character. */
  function LowerAscii(s: string): (r: string)
    ensures |r| == |s|
    ensures forall i :: 0 <= i < |r| ==> !IsAsciiUpper(r[i])
  {
    seq(|s|, i requires 0 <= i < |s| => LowerChar(s[i]))
  }

  /** Two characters that are the same letter up to ASCII case, or equal. */
  predicate SameIgnoringCase(c: char, d: char) {
    || c == d
    || (IsAsciiUpper(c) && d as int == c as int + 32)
    || (IsAsciiUpper(d) && c as int == d as int + 32)
  }

  lemma LowerCharEqual(c: char, d: char)
    ensures LowerChar(c) == LowerChar(d) <==> SameIgnoringCase(c, d)
  {
  }

  /** Lower-cased strings are equal exactly when the originals have the same
      length and differ at most in the case of ASCII letters. */
  lemma LowerAsciiEqual(s: string, t: string)
    ensures LowerAscii(s) == LowerAscii(t)
        <==> |s| == |t| && forall i :: 0 <= i < |s| ==> SameIgnoringCase(s[i], t[i])
  {
    if LowerAscii(s) == LowerAscii(t) {
      forall i | 0 <= i < |s| ensures SameIgnoringCase(s[i], t[i]) {
        assert LowerAscii(s)[i] == LowerAscii(t)[i];
        LowerCharEqual(s[i], t[i]);
      }
    }
    if |s| == |t| && forall i :: 0 <= i < |s| ==> SameIgnoringCase(s[i], t[i]) {
      forall i | 0 <= i < |s| ensures LowerAscii(s)[i] == LowerAscii(t)[i] {
        LowerCharEqual(s[i], t[i]);
      }
    }
  }
}
