/**
 * The Kotlin string operations the contact screen relies on: `Char.isWhitespace`,
 * `trim`, `isBlank`, `contains` (literal and `ignoreCase = true`), the phone
 * pattern `^\d{10}$`, and the order the store sorts names in.
 * A JVM string is a sequence of UTF-16 units; here a `string` is a sequence
 * of code points.
 */
module Text {

  /**
   * Kotlin's `Char.isWhitespace()` on the JVM: Java's `isWhitespace` or
   * `isSpaceChar`, i.e. the ASCII tab, line feed, vertical tab, form feed,
   * carriage return, the four information separators U+001C..U+001F, and the
   * Unicode space, line and paragraph separators.
   */
  predicate IsWhitespace(c: char) {
    c == '\t' || c == '\n' || c == '\U{B}' || c == '\U{C}' || c == '\r'
    || ('\U{1C}' <= c <= '\U{1F}')
    || c == ' ' || c == '\U{A0}' || c == '\U{1680}'
    || ('\U{2000}' <= c <= '\U{200A}')
    || c == '\U{2028}' || c == '\U{2029}' || c == '\U{202F}' || c == '\U{205F}' || c == '\U{3000}'
  }

  /** Kotlin's `isBlank()`: empty, or whitespace only. */
  predicate IsBlank(s: string) {
    forall i :: 0 <= i < |s| ==> IsWhitespace(s[i])
  }

  /** `s` with its leading whitespace removed. */
  function TrimStart(s: string): (r: string)
    ensures |r| <= |s| && r == s[|s| - |r|..]
    ensures forall i :: 0 <= i < |s| - |r| ==> IsWhitespace(s[i])
    ensures r != [] ==> !IsWhitespace(r[0])
    decreases |s|
  {
    if s != [] && IsWhitespace(s[0]) then TrimStart(s[1..]) else s
  }

  /** `s` with its trailing whitespace removed. */
  function TrimEnd(s: string): (r: string)
    ensures |r| <= |s| && r == s[..|r|]
    ensures forall i :: |r| <= i < |s| ==> IsWhitespace(s[i])
    ensures r != [] ==> !IsWhitespace(r[|r| - 1])
    decreases |s|
  {
    if s != [] && IsWhitespace(s[|s| - 1]) then TrimEnd(s[..|s| - 1]) else s
  }

  /** Kotlin's `String.trim()`: whitespace removed from both ends. */
  function Trim(s: string): (r: string)
    ensures |r| <= |s|
    ensures r != [] ==> !IsWhitespace(r[0]) && !IsWhitespace(r[|r| - 1])
  {
    TrimEnd(TrimStart(s))
  }

  /**
   * `Trim(s)` is the slice `s[lo..hi]` of `s`; everything cut off is
   * whitespace and, unless nothing is left, the slice starts and ends
   * with a non-whitespace character.
   */
  lemma TrimSlice(s: string) returns (lo: nat, hi: nat)
    ensures lo <= hi <= |s| && Trim(s) == s[lo..hi]
    ensures forall i :: 0 <= i < lo || hi <= i < |s| ==> IsWhitespace(s[i])
    ensures Trim(s) != [] ==> !IsWhitespace(s[lo]) && !IsWhitespace(s[hi - 1])
  {
    var t := TrimStart(s);
    lo := |s| - |t|;
    hi := TrimEndSlice(s, lo);
    if hi > lo {
      assert s[lo] == t[0];
    }
  }

  /** Trimming the end of the suffix `s[lo..]` leaves a slice `s[lo..hi]` of `s`. */
  lemma TrimEndSlice(s: string, lo: nat) returns (hi: nat)
    requires lo <= |s|
    ensures lo <= hi <= |s| && TrimEnd(s[lo..]) == s[lo..hi]
    ensures forall i :: hi <= i < |s| ==> IsWhitespace(s[i])
    ensures hi > lo ==> !IsWhitespace(s[hi - 1])
  {
    var t := s[lo..];
    var u := TrimEnd(t);
    hi := lo + |u|;
    forall k | 0 <= k < |u| ensures u[k] == s[lo + k] {
      assert u[k] == t[k];
    }
    assert u == s[lo..hi];
    forall i | hi <= i < |s| ensures IsWhitespace(s[i]) {
      assert s[i] == t[i - lo];
    }
  }

  /** A string is blank exactly when trimming leaves nothing of it. */
  lemma TrimBlank(s: string)
    ensures IsBlank(Trim(s)) <==> IsBlank(s)
    ensures IsBlank(Trim(s)) <==> Trim(s) == []
  {
    var lo, hi := TrimSlice(s);
    if Trim(s) != [] {
      assert !IsWhitespace(Trim(s)[0]);
    } else {
      assert hi == lo;
    }
  }

  /** Trimming twice is trimming once. */
  lemma TrimIdempotent(s: string)
    ensures Trim(Trim(s)) == Trim(s)
  {
    var t := Trim(s);
    var lo, hi := TrimSlice(s);
    if t != [] {
      assert t[0] == s[lo] && t[|t| - 1] == s[hi - 1];
      assert TrimStart(t) == t;
    }
  }

  /** The ASCII range of `Char.uppercaseChar()`; the rest of Unicode's case table is not modelled. */
  function UpperCase(c: char): char {
    if 'a' <= c <= 'z' then (c as int - 'a' as int + 'A' as int) as char else c
  }

  /** The ASCII range of `Char.lowercaseChar()`. */
  function LowerCase(c: char): char {
    if 'A' <= c <= 'Z' then (c as int - 'A' as int + 'a' as int) as char else c
  }

  /**
   * Kotlin's `Char.equals(other, ignoreCase = true)`: equal chars, or equal
   * upper-case forms, or equal lower-case forms of the upper-case forms.
   */
  predicate CharEqualsIgnoreCase(a: char, b: char) {
    a == b || UpperCase(a) == UpperCase(b) || LowerCase(UpperCase(a)) == LowerCase(UpperCase(b))
  }

  /** The canonical case of a character, the one `CharEqualsIgnoreCase` compares in the end. */
  function FoldCase(c: char): char {
    LowerCase(UpperCase(c))
  }

  /** Two characters are equal ignoring case exactly when their canonical cases are equal. */
  lemma FoldCaseDecides(a: char, b: char)
    ensures CharEqualsIgnoreCase(a, b) <==> FoldCase(a) == FoldCase(b)
  {
  }

  /** `FoldCase` applied to every character. */
  function FoldAll(s: string): string {
    seq(|s|, i requires 0 <= i < |s| => FoldCase(s[i]))
  }

  /** Kotlin's `s.contains(sub)`: `sub` occurs in `s` at some position (the empty string always does). */
  predicate Contains(s: string, sub: string)
    decreases |s|
  {
    sub <= s || (s != [] && Contains(s[1..], sub))
  }

  /** `s` begins with `p`, comparing characters with `CharEqualsIgnoreCase`. */
  predicate StartsWithIgnoreCase(s: string, p: string) {
    |p| <= |s| && forall i :: 0 <= i < |p| ==> CharEqualsIgnoreCase(s[i], p[i])
  }

  /** Kotlin's `s.contains(sub, ignoreCase = true)`. */
  predicate ContainsIgnoreCase(s: string, sub: string)
    decreases |s|
  {
    StartsWithIgnoreCase(s, sub) || (s != [] && ContainsIgnoreCase(s[1..], sub))
  }

  /** `sub` occurs in `s` starting at index `i`. */
  predicate OccursAt(s: string, sub: string, i: int) {
    0 <= i <= |s| - |sub| && s[i..i + |sub|] == sub
  }

  /** `Contains` finds exactly the occurrences at an index: its reference definition. */
  lemma {:induction false} ContainsOccurrence(s: string, sub: string)
    ensures Contains(s, sub) <==> exists i :: OccursAt(s, sub, i)
    decreases |s|
  {
    if sub <= s {
      assert OccursAt(s, sub, 0);
    } else if s == [] {
    } else {
      ContainsOccurrence(s[1..], sub);
      if exists i :: OccursAt(s, sub, i) {
        var i :| OccursAt(s, sub, i);
        assert i != 0;
        assert OccursAt(s[1..], sub, i - 1);
      }
      if Contains(s[1..], sub) {
        var j :| OccursAt(s[1..], sub, j);
        assert OccursAt(s, sub, j + 1);
      }
    }
  }

  /** Ignoring case is comparing the case-folded strings. */
  lemma {:induction false} ContainsIgnoreCaseFolded(s: string, sub: string)
    ensures ContainsIgnoreCase(s, sub) <==> Contains(FoldAll(s), FoldAll(sub))
    decreases |s|
  {
    assert StartsWithIgnoreCase(s, sub) <==> FoldAll(sub) <= FoldAll(s) by {
      if FoldAll(sub) <= FoldAll(s) {
        forall i | 0 <= i < |sub| ensures CharEqualsIgnoreCase(s[i], sub[i]) {
          assert FoldAll(s)[i] == FoldAll(sub)[i];
        }
      }
    }
    if s != [] {
      ContainsIgnoreCaseFolded(s[1..], sub);
      assert FoldAll(s)[1..] == FoldAll(s[1..]);
    }
  }

  /** A string none of whose characters equals the first one of `sub`, ignoring case, does not contain `sub`. */
  lemma {:induction false} NoFirstCharNoMatch(s: string, sub: string)
    requires sub != []
    requires forall i :: 0 <= i < |s| ==> !CharEqualsIgnoreCase(s[i], sub[0])
    ensures !ContainsIgnoreCase(s, sub)
    decreases |s|
  {
    if s != [] {
      assert !CharEqualsIgnoreCase(s[0], sub[0]);
      assert forall i :: 0 <= i < |s[1..]| ==> s[1..][i] == s[i + 1];
      NoFirstCharNoMatch(s[1..], sub);
    }
  }

  /** A string that lacks the first character of `sub` does not contain `sub`. */
  lemma {:induction false} NoFirstCharNoOccurrence(s: string, sub: string)
    requires sub != [] && sub[0] !in s
    ensures !Contains(s, sub)
    decreases |s|
  {
    if s != [] {
      assert s[0] != sub[0];
      NoFirstCharNoOccurrence(s[1..], sub);
    }
  }

  /** `\d` of a Java regular expression: an ASCII decimal digit. */
  predicate IsAsciiDigit(c: char) {
    '0' <= c <= '9'
  }

  /** `s.matches(Regex("^\\d{10}$"))`: the whole string is exactly ten ASCII digits. */
  predicate IsTenDigits(s: string) {
    |s| == 10 && forall i :: 0 <= i < |s| ==> IsAsciiDigit(s[i])
  }

  /** A string that matches the phone pattern has nothing to trim and is not blank. */
  lemma TenDigitsTrimmed(s: string)
    requires IsTenDigits(s)
    ensures Trim(s) == s && !IsBlank(s)
  {
    assert !IsWhitespace(s[0]);
    assert TrimStart(s) == s;
    assert !IsWhitespace(s[|s| - 1]);
  }

  /**
   * Ascending order of SQLite's default BINARY collation on UTF-8 text:
   * lexicographic by code point, a proper prefix before its extensions.
   */
  predicate LessOrEqual(a: string, b: string)
    decreases |a|
  {
    a == [] || (b != [] && (a[0] < b[0] || (a[0] == b[0] && LessOrEqual(a[1..], b[1..]))))
  }

  lemma {:induction false} LessOrEqualReflexive(a: string)
    ensures LessOrEqual(a, a)
    decreases |a|
  {
    if a != [] {
      LessOrEqualReflexive(a[1..]);
    }
  }

  lemma {:induction false} LessOrEqualTotal(a: string, b: string)
    ensures LessOrEqual(a, b) || LessOrEqual(b, a)
    decreases |a|
  {
    if a != [] && b != [] && a[0] == b[0] {
      LessOrEqualTotal(a[1..], b[1..]);
    }
  }

  lemma {:induction false} LessOrEqualTransitive(a: string, b: string, c: string)
    requires LessOrEqual(a, b) && LessOrEqual(b, c)
    ensures LessOrEqual(a, c)
    decreases |a|
  {
    if a != [] && a[0] == b[0] && b[0] == c[0] {
      LessOrEqualTransitive(a[1..], b[1..], c[1..]);
    }
  }

  lemma {:induction false} LessOrEqualAntisymmetric(a: string, b: string)
    requires LessOrEqual(a, b) && LessOrEqual(b, a)
    ensures a == b
    decreases |a|
  {
    if a != [] {
      LessOrEqualAntisymmetric(a[1..], b[1..]);
      assert a == [a[0]] + a[1..] && b == [b[0]] + b[1..];
    }
  }
}
