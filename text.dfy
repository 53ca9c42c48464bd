/**
 * The few JavaScript string operations the branch finder relies on:
 * `String.prototype.trim`, `toLowerCase`/`toUpperCase`, `startsWith` and
 * `includes`. Strings are sequences of Unicode scalar values.
 */
module Text {

  /** WhiteSpace and LineTerminator code points of ECMAScript (sections 12.2 and 12.3 of ECMA-262). */
  predicate IsWhitespace(c: char) {
    c == '\t' || c == '\n' || c == '\U{B}' || c == '\U{C}' || c == '\r' || c == ' '
    || c == '\U{A0}' || c == '\U{1680}' || ('\U{2000}' <= c <= '\U{200A}')
    || c == '\U{2028}' || c == '\U{2029}' || c == '\U{202F}' || c == '\U{205F}'
    || c == '\U{3000}' || c == '\U{FEFF}'
  }

  predicate AllWhitespace(s: string) {
    forall k :: 0 <= k < |s| ==> IsWhitespace(s[k])
  }

  /** How many whitespace characters `s` begins with. */
  function LeadingWhitespace(s: string): (n: nat)
    ensures n <= |s| && (forall k :: 0 <= k < n ==> IsWhitespace(s[k]))
    ensures n < |s| ==> !IsWhitespace(s[n])
  {
    if s != [] && IsWhitespace(s[0]) then
      var m := LeadingWhitespace(s[1..]);
      assert forall k :: 1 <= k <= m ==> s[k] == s[1..][k - 1];
      1 + m
    else 0
  }

  /** How many whitespace characters `s` ends with. */
  function TrailingWhitespace(s: string): (n: nat)
    ensures n <= |s| && (forall k :: |s| - n <= k < |s| ==> IsWhitespace(s[k]))
    ensures n < |s| ==> !IsWhitespace(s[|s| - n - 1])
  {
    if s != [] && IsWhitespace(s[|s| - 1]) then
      var m := TrailingWhitespace(s[..|s| - 1]);
      assert forall k :: |s| - 1 - m <= k < |s| - 1 ==> s[k] == s[..|s| - 1][k];
      1 + m
    else 0
  }

  /** Drops leading whitespace: the result is a suffix of `s` preceded only by whitespace. */
  function TrimStart(s: string): (r: string)
    ensures |r| <= |s| && r == s[|s| - |r|..]
    ensures AllWhitespace(s[..|s| - |r|])
    ensures r != [] ==> !IsWhitespace(r[0])
  {
    var n := LeadingWhitespace(s);
    assert forall k :: 0 <= k < n ==> s[..n][k] == s[k];
    s[n..]
  }

  /** Drops trailing whitespace: the result is a prefix of `s` followed only by whitespace. */
  function TrimEnd(s: string): (r: string)
    ensures |r| <= |s| && r == s[..|r|]
    ensures AllWhitespace(s[|r|..])
    ensures r != [] ==> !IsWhitespace(r[|r| - 1])
  {
    var n := TrailingWhitespace(s);
    assert forall k :: |s| - n <= k < |s| ==> s[k] == s[|s| - n..][k - (|s| - n)];
    s[..|s| - n]
  }

  /** `s.trim()`: the stretch of `s` left once whitespace at both ends is removed. */
  function Trim(s: string): (r: string)
    ensures r != [] ==> !IsWhitespace(r[0]) && !IsWhitespace(r[|r| - 1])
    ensures r == [] <==> AllWhitespace(s)
    ensures OccursAt(s, r, |s| - |TrimStart(s)|)
    ensures AllWhitespace(s[..|s| - |TrimStart(s)|]) && AllWhitespace(s[|s| - |TrimStart(s)| + |r|..])
  {
    TrimmedSlice(s);
    TrimmedEmpty(s);
    TrimEnd(TrimStart(s))
  }

  lemma TrimmedSlice(s: string)
    ensures OccursAt(s, TrimEnd(TrimStart(s)), |s| - |TrimStart(s)|)
    ensures AllWhitespace(s[|s| - |TrimStart(s)| + |TrimEnd(TrimStart(s))|..])
  {
    var t := TrimStart(s);
    var r := TrimEnd(t);
    SliceOfSuffix(s, t, r);
  }

  lemma SliceOfSuffix(s: string, t: string, r: string)
    requires |t| <= |s| && t == s[|s| - |t|..]
    requires |r| <= |t| && r == t[..|r|] && AllWhitespace(t[|r|..])
    ensures OccursAt(s, r, |s| - |t|) && AllWhitespace(s[|s| - |t| + |r|..])
  {
    var i := |s| - |t|;
    assert s[i..i + |r|] == r;
    assert s[i + |r|..] == t[|r|..];
  }

  lemma TrimmedEmpty(s: string)
    ensures TrimEnd(TrimStart(s)) == [] <==> AllWhitespace(s)
  {
    var t := TrimStart(s);
    EmptyInsideWhitespace(s, t, TrimEnd(t));
  }

  lemma EmptyInsideWhitespace(s: string, t: string, r: string)
    requires |t| <= |s| && t == s[|s| - |t|..] && AllWhitespace(s[..|s| - |t|])
    requires t != [] ==> !IsWhitespace(t[0])
    requires |r| <= |t| && r == t[..|r|] && AllWhitespace(t[|r|..])
    ensures r == [] <==> AllWhitespace(s)
  {
    if r == [] {
      assert t[|r|..] == t;
      assert s[..|s| - |t|] == s;
    } else {
      assert s[|s| - |t|] == t[0];
    }
  }

  function LowerChar(c: char): char {
    if 'A' <= c <= 'Z' then (c as int + 32) as char else c
  }

  function UpperChar(c: char): char {
    if 'a' <= c <= 'z' then (c as int - 32) as char else c
  }

  function MapChars(s: string, f: char -> char): string {
    seq(|s|, i requires 0 <= i < |s| => f(s[i]))
  }

  /** `s.toLowerCase()`, on the Basic Latin letters. */
  function ToLower(s: string): string {
    MapChars(s, LowerChar)
  }

  /** `s.toUpperCase()`, on the Basic Latin letters. */
  function ToUpper(s: string): string {
    MapChars(s, UpperChar)
  }

  /** A character mapping that never turns whitespace into non-whitespace or back. */
  predicate KeepsWhitespace(f: char -> char) {
    forall c :: IsWhitespace(f(c)) <==> IsWhitespace(c)
  }

  lemma CaseMappingsKeepWhitespace()
    ensures KeepsWhitespace(UpperChar) && KeepsWhitespace(LowerChar)
  {
  }

  lemma {:induction false} LeadingMap(s: string, f: char -> char)
    requires KeepsWhitespace(f)
    ensures LeadingWhitespace(MapChars(s, f)) == LeadingWhitespace(s)
  {
    if s != [] {
      assert MapChars(s, f)[1..] == MapChars(s[1..], f);
      assert MapChars(s, f)[0] == f(s[0]);
      LeadingMap(s[1..], f);
    }
  }

  lemma {:induction false} TrailingMap(s: string, f: char -> char)
    requires KeepsWhitespace(f)
    ensures TrailingWhitespace(MapChars(s, f)) == TrailingWhitespace(s)
  {
    if s != [] {
      assert MapChars(s, f)[..|s| - 1] == MapChars(s[..|s| - 1], f);
      assert MapChars(s, f)[|s| - 1] == f(s[|s| - 1]);
      TrailingMap(s[..|s| - 1], f);
    }
  }

  lemma TrimStartMap(s: string, f: char -> char)
    requires KeepsWhitespace(f)
    ensures TrimStart(MapChars(s, f)) == MapChars(TrimStart(s), f)
  {
    LeadingMap(s, f);
    var n := LeadingWhitespace(s);
    assert MapChars(s, f)[n..] == MapChars(s[n..], f);
  }

  lemma TrimEndMap(s: string, f: char -> char)
    requires KeepsWhitespace(f)
    ensures TrimEnd(MapChars(s, f)) == MapChars(TrimEnd(s), f)
  {
    TrailingMap(s, f);
    var n := TrailingWhitespace(s);
    assert MapChars(s, f)[..|s| - n] == MapChars(s[..|s| - n], f);
  }

  /** Trimming and changing case commute, so the order of `trim()` and the case call does not matter. */
  lemma TrimMap(s: string, f: char -> char)
    requires KeepsWhitespace(f)
    ensures Trim(MapChars(s, f)) == MapChars(Trim(s), f)
  {
    TrimStartMap(s, f);
    TrimEndMap(TrimStart(s), f);
  }

  /** Text without lower-case letters is its own upper-case form. */
  lemma UpperUnchanged(s: string)
    requires forall i :: 0 <= i < |s| ==> !('a' <= s[i] <= 'z')
    ensures ToUpper(s) == s
  {
    assert forall i :: 0 <= i < |s| ==> ToUpper(s)[i] == UpperChar(s[i]);
  }

  /** Text with no whitespace at either end is its own trimmed form. */
  lemma TrimUnchanged(s: string)
    requires s != [] ==> !IsWhitespace(s[0]) && !IsWhitespace(s[|s| - 1])
    ensures Trim(s) == s
  {
  }

  /** Lower-casing forgets any earlier upper-casing, and the other way round. */
  lemma CaseFolds(s: string)
    ensures ToLower(ToUpper(s)) == ToLower(s)
    ensures ToUpper(ToLower(s)) == ToUpper(s)
  {
    forall i | 0 <= i < |s|
      ensures LowerChar(UpperChar(s[i])) == LowerChar(s[i])
      ensures UpperChar(LowerChar(s[i])) == UpperChar(s[i])
    {
      var c := s[i];
      if 'a' <= c <= 'z' {
        assert UpperChar(c) == (c as int - 32) as char;
      } else if 'A' <= c <= 'Z' {
        assert LowerChar(c) == (c as int + 32) as char;
      }
    }
  }

  /** `s.startsWith(p)`. */
  predicate StartsWith(s: string, p: string) {
    |p| <= |s| && s[..|p|] == p
  }

  /** `n` occurs in `h` starting at index `i`. */
  predicate OccursAt(h: string, n: string, i: int) {
    0 <= i && i + |n| <= |h| && h[i..i + |n|] == n
  }

  /** `h.includes(n)`, scanning the start positions from left to right. */
  function Includes(h: string, n: string): (r: bool)
    ensures r <==> exists i :: OccursAt(h, n, i)
  {
    if StartsWith(h, n) then
      assert OccursAt(h, n, 0);
      true
    else if h == [] then
      false
    else
      ShiftOccurrence(h, n);
      Includes(h[1..], n)
  }

  lemma ShiftOccurrence(h: string, n: string)
    requires h != [] && !StartsWith(h, n)
    ensures (exists i :: OccursAt(h, n, i)) <==> (exists i :: OccursAt(h[1..], n, i))
  {
    if i :| OccursAt(h, n, i) {
      assert i != 0;
      assert h[1..][i - 1..i - 1 + |n|] == h[i..i + |n|];
      assert OccursAt(h[1..], n, i - 1);
    }
    if i :| OccursAt(h[1..], n, i) {
      assert h[i + 1..i + 1 + |n|] == h[1..][i..i + |n|];
      assert OccursAt(h, n, i + 1);
    }
  }
}
