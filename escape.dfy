/**
 * `escapeHtml` (script.js): five chained `replaceAll` calls, ampersand first,
 * used on every name, area and outward code placed into popup and card markup.
 */
module Escape {
  import opened Text

  /** `s.replaceAll(c, rep)` for a one-character pattern: every occurrence of `c`, left to right. */
  function ReplaceAll(s: string, c: char, rep: string): (r: string)
    ensures c !in rep ==> c !in r
  {
    if s == [] then [] else (if s[0] == c then rep else [s[0]]) + ReplaceAll(s[1..], c, rep)
  }

  function EscapeHtml(s: string): string {
    ReplaceAll(ReplaceAll(ReplaceAll(ReplaceAll(ReplaceAll(
      s, '&', "&amp;"), '<', "&lt;"), '>', "&gt;"), '"', "&quot;"), '\'', "&#039;")
  }

  /** The entity each character is written as; every other character stands for itself. */
  function EscapeChar(c: char): string {
    match c
    case '&' => "&amp;"
    case '<' => "&lt;"
    case '>' => "&gt;"
    case '"' => "&quot;"
    case '\'' => "&#039;"
    case _ => [c]
  }

  /** Reference definition: each character of `s` replaced by its own escape, in order. */
  function EscapeEach(s: string): string {
    if s == [] then [] else EscapeChar(s[0]) + EscapeEach(s[1..])
  }

  /** Every `&` in `r` begins one of the five entities. */
  predicate AmpersandsBeginEntities(r: string) {
    forall i :: 0 <= i < |r| && r[i] == '&' ==> BeginsEntity(r[i..])
  }

  predicate BeginsEntity(t: string) {
    StartsWith(t, "&amp;") || StartsWith(t, "&lt;") || StartsWith(t, "&gt;")
    || StartsWith(t, "&quot;") || StartsWith(t, "&#039;")
  }

  /** Reads escaped text back: each of the five entities stands for its character. */
  function Unescape(t: string): string {
    if t == [] then []
    else if StartsWith(t, "&amp;") then "&" + Unescape(t[5..])
    else if StartsWith(t, "&lt;") then "<" + Unescape(t[4..])
    else if StartsWith(t, "&gt;") then ">" + Unescape(t[4..])
    else if StartsWith(t, "&quot;") then "\"" + Unescape(t[6..])
    else if StartsWith(t, "&#039;") then "'" + Unescape(t[6..])
    else [t[0]] + Unescape(t[1..])
  }

  lemma {:induction false} ReplaceAllAppend(a: string, b: string, c: char, rep: string)
    ensures ReplaceAll(a + b, c, rep) == ReplaceAll(a, c, rep) + ReplaceAll(b, c, rep)
  {
    if a != [] {
      assert (a + b)[1..] == a[1..] + b;
      ReplaceAllAppend(a[1..], b, c, rep);
    } else {
      assert a + b == b;
    }
  }

  /** A character neither in the text nor in the replacement does not appear afterwards. */
  lemma {:induction false} ReplaceAllKeepsAbsent(s: string, c: char, rep: string, x: char)
    requires x !in s && x !in rep
    ensures x !in ReplaceAll(s, c, rep)
  {
    if s != [] {
      ReplaceAllKeepsAbsent(s[1..], c, rep, x);
    }
  }

  lemma {:induction false} ReplaceAllAbsent(s: string, c: char, rep: string)
    requires c !in s
    ensures ReplaceAll(s, c, rep) == s
  {
    if s != [] {
      ReplaceAllAbsent(s[1..], c, rep);
    }
  }

  lemma ReplaceAllSingle(c: char, x: char, rep: string)
    ensures ReplaceAll([c], x, rep) == if c == x then rep else [c]
  {
    assert [c][1..] == [];
  }

  /** Once a character is replaced by its entity, the later replacements leave the entity alone. */
  lemma EscapeSingle(c: char)
    ensures EscapeHtml([c]) == EscapeChar(c)
  {
    ReplaceAllSingle(c, '&', "&amp;");
    if c == '&' {
      EscapeAmpersand(c);
    } else {
      ReplaceAllSingle(c, '<', "&lt;");
      if c == '<' {
        EscapeLessThan(c);
      } else {
        EscapeFromGreaterThan(c);
      }
    }
  }

  lemma EscapeAmpersand(c: char)
    requires c == '&'
    ensures EscapeHtml([c]) == EscapeChar(c)
  {
    ReplaceAllSingle(c, '&', "&amp;");
    LaterStepsKeep(EscapeChar(c));
  }

  lemma EscapeLessThan(c: char)
    requires c == '<'
    ensures EscapeHtml([c]) == EscapeChar(c)
  {
    var s1 := ReplaceAll([c], '&', "&amp;");
    ReplaceAllSingle(c, '&', "&amp;");
    assert s1 == [c];
    var s2 := ReplaceAll(s1, '<', "&lt;");
    ReplaceAllSingle(c, '<', "&lt;");
    assert s2 == EscapeChar(c);
    StepsFromThreeKeep(s2);
  }

  /** Steps three to five leave text without `>`, `"` and `'` unchanged. */
  lemma StepsFromThreeKeep(p: string)
    requires '>' !in p && '"' !in p && '\'' !in p
    ensures ReplaceAll(ReplaceAll(ReplaceAll(p, '>', "&gt;"), '"', "&quot;"), '\'', "&#039;") == p
  {
    ReplaceAllAbsent(p, '>', "&gt;");
    ReplaceAllAbsent(p, '"', "&quot;");
    ReplaceAllAbsent(p, '\'', "&#039;");
  }

  /** Steps two to five leave text without `<`, `>`, `"` and `'` unchanged. */
  lemma LaterStepsKeep(p: string)
    requires '<' !in p && '>' !in p && '"' !in p && '\'' !in p
    ensures ReplaceAll(ReplaceAll(ReplaceAll(ReplaceAll(
      p, '<', "&lt;"), '>', "&gt;"), '"', "&quot;"), '\'', "&#039;") == p
  {
    ReplaceAllAbsent(p, '<', "&lt;");
    ReplaceAllAbsent(p, '>', "&gt;");
    ReplaceAllAbsent(p, '"', "&quot;");
    ReplaceAllAbsent(p, '\'', "&#039;");
  }

  /** The last three steps of the chain on a character that is neither `&` nor `<`. */
  lemma EscapeFromGreaterThan(c: char)
    requires c != '&' && c != '<'
    ensures ReplaceAll(ReplaceAll(ReplaceAll([c], '>', "&gt;"), '"', "&quot;"), '\'', "&#039;") == EscapeChar(c)
  {
    ReplaceAllSingle(c, '>', "&gt;");
    if c == '>' {
      ReplaceAllAbsent("&gt;", '"', "&quot;");
      ReplaceAllAbsent("&gt;", '\'', "&#039;");
    } else {
      ReplaceAllSingle(c, '"', "&quot;");
      if c == '"' {
        ReplaceAllAbsent("&quot;", '\'', "&#039;");
      } else {
        ReplaceAllSingle(c, '\'', "&#039;");
      }
    }
  }

  lemma EscapeHtmlAppend(a: string, b: string)
    ensures EscapeHtml(a + b) == EscapeHtml(a) + EscapeHtml(b)
  {
    var r1a, r1b := ReplaceAll(a, '&', "&amp;"), ReplaceAll(b, '&', "&amp;");
    ReplaceAllAppend(a, b, '&', "&amp;");
    var r2a, r2b := ReplaceAll(r1a, '<', "&lt;"), ReplaceAll(r1b, '<', "&lt;");
    ReplaceAllAppend(r1a, r1b, '<', "&lt;");
    var r3a, r3b := ReplaceAll(r2a, '>', "&gt;"), ReplaceAll(r2b, '>', "&gt;");
    ReplaceAllAppend(r2a, r2b, '>', "&gt;");
    var r4a, r4b := ReplaceAll(r3a, '"', "&quot;"), ReplaceAll(r3b, '"', "&quot;");
    ReplaceAllAppend(r3a, r3b, '"', "&quot;");
    ReplaceAllAppend(r4a, r4b, '\'', "&#039;");
  }

  /** The chain of replacements escapes each character on its own, so every other character passes through in order. */
  lemma {:induction false} EscapeHtmlIsPerCharacter(s: string)
    ensures EscapeHtml(s) == EscapeEach(s)
  {
    if s == [] {
    } else {
      assert s == [s[0]] + s[1..];
      EscapeHtmlAppend([s[0]], s[1..]);
      EscapeSingle(s[0]);
      EscapeHtmlIsPerCharacter(s[1..]);
    }
  }

  /** No markup-significant character other than `&` survives escaping. */
  lemma EscapedHasNoMarkup(s: string)
    ensures var r := EscapeHtml(s);
      '<' !in r && '>' !in r && '"' !in r && '\'' !in r
  {
    var r1 := ReplaceAll(s, '&', "&amp;");
    var r2 := ReplaceAll(r1, '<', "&lt;");
    var r3 := ReplaceAll(r2, '>', "&gt;");
    var r4 := ReplaceAll(r3, '"', "&quot;");
    ReplaceAllKeepsAbsent(r2, '>', "&gt;", '<');
    ReplaceAllKeepsAbsent(r3, '"', "&quot;", '<');
    ReplaceAllKeepsAbsent(r3, '"', "&quot;", '>');
    ReplaceAllKeepsAbsent(r4, '\'', "&#039;", '<');
    ReplaceAllKeepsAbsent(r4, '\'', "&#039;", '>');
    ReplaceAllKeepsAbsent(r4, '\'', "&#039;", '"');
  }

  lemma StartsWithAppend(p: string, rest: string)
    ensures StartsWith(p + rest, p)
  {
    assert (p + rest)[..|p|] == p;
  }

  lemma EscapeCharEntity(c: char, rest: string)
    requires EscapeChar(c)[0] == '&'
    ensures BeginsEntity(EscapeChar(c) + rest)
  {
    var t := EscapeChar(c) + rest;
    StartsWithAppend(EscapeChar(c), rest);
    if c == '&' { assert StartsWith(t, "&amp;"); }
    else if c == '<' { assert StartsWith(t, "&lt;"); }
    else if c == '>' { assert StartsWith(t, "&gt;"); }
    else if c == '"' { assert StartsWith(t, "&quot;"); }
    else if c == '\'' { assert StartsWith(t, "&#039;"); }
  }

  lemma {:induction false} EscapeEachEntities(s: string)
    ensures AmpersandsBeginEntities(EscapeEach(s))
  {
    if s != [] {
      EscapeEachEntities(s[1..]);
      EntitiesAfterPrefix(s[0], EscapeEach(s[1..]));
    }
  }

  lemma EntitiesAfterPrefix(c: char, rest: string)
    requires AmpersandsBeginEntities(rest)
    ensures AmpersandsBeginEntities(EscapeChar(c) + rest)
  {
    var p := EscapeChar(c);
    forall i | 0 <= i < |p + rest| && (p + rest)[i] == '&'
      ensures BeginsEntity((p + rest)[i..])
    {
      if i < |p| {
        assert i == 0 && p[0] == '&';
        assert (p + rest)[i..] == p + rest;
        EscapeCharEntity(c, rest);
      } else {
        assert rest[i - |p|] == '&';
        assert (p + rest)[i..] == rest[i - |p|..];
      }
    }
  }

  /** Every `&` in escaped text begins one of the five entities. */
  lemma EscapedAmpersandsBeginEntities(s: string)
    ensures AmpersandsBeginEntities(EscapeHtml(s))
  {
    EscapeHtmlIsPerCharacter(s);
    EscapeEachEntities(s);
  }

  lemma UnescapeAfterEntity(c: char, rest: string)
    ensures Unescape(EscapeChar(c) + rest) == [c] + Unescape(rest)
  {
    var p := EscapeChar(c);
    var t := p + rest;
    StartsWithAppend(p, rest);
    assert t[|p|..] == rest;
    if p == [c] {
      assert t[0] == c;
      assert !StartsWith(t, "&amp;") && !StartsWith(t, "&lt;") && !StartsWith(t, "&gt;")
        && !StartsWith(t, "&quot;") && !StartsWith(t, "&#039;") by {
        assert c != '&';
      }
    } else if c == '<' {
      assert !StartsWith(t, "&amp;") by { assert t[1] != "&amp;"[1]; }
    } else if c == '>' {
      assert !StartsWith(t, "&amp;") by { assert t[1] != "&amp;"[1]; }
      assert !StartsWith(t, "&lt;") by { assert t[1] != "&lt;"[1]; }
    } else if c == '"' {
      assert !StartsWith(t, "&amp;") by { assert t[1] != "&amp;"[1]; }
      assert !StartsWith(t, "&lt;") by { assert t[1] != "&lt;"[1]; }
      assert !StartsWith(t, "&gt;") by { assert t[1] != "&gt;"[1]; }
    } else if c == '\'' {
      assert !StartsWith(t, "&amp;") by { assert t[1] != "&amp;"[1]; }
      assert !StartsWith(t, "&lt;") by { assert t[1] != "&lt;"[1]; }
      assert !StartsWith(t, "&gt;") by { assert t[1] != "&gt;"[1]; }
      assert !StartsWith(t, "&quot;") by { assert t[1] != "&quot;"[1]; }
    }
  }

  lemma {:induction false} UnescapeEach(s: string)
    ensures Unescape(EscapeEach(s)) == s
  {
    if s != [] {
      UnescapeAfterEntity(s[0], EscapeEach(s[1..]));
      UnescapeEach(s[1..]);
    }
  }

  /** Escaping loses nothing: the original text is recovered from the markup. */
  lemma EscapeRoundTrip(s: string)
    ensures Unescape(EscapeHtml(s)) == s
  {
    EscapeHtmlIsPerCharacter(s);
    UnescapeEach(s);
  }
}
