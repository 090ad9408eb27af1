// escapeHtml, build.js lines 154-161: four global replacements, ampersand
// first, so that the entities the later passes insert are not escaped again.

module Escape {
  import opened Seqs

  /** `s.replace(/c/g, rep)` for a single character c. */
  function ReplaceAll(s: string, c: char, rep: string): string
  {
    if s == [] then []
    else (if s[0] == c then rep else [s[0]]) + ReplaceAll(s[1..], c, rep)
  }

  /** escapeHtml(text). */
  function EscapeHtml(text: string): string
  {
    ReplaceAll(ReplaceAll(ReplaceAll(ReplaceAll(text, '&', "&amp;"), '<', "&lt;"), '>', "&gt;"), '"', "&quot;")
  }

  /** What escapeHtml makes of one character. */
  function EscapeChar(c: char): string
  {
    if c == '&' then "&amp;"
    else if c == '<' then "&lt;"
    else if c == '>' then "&gt;"
    else if c == '"' then "&quot;"
    else [c]
  }

  /** Every character escaped on its own, left to right. */
  function EscapeEach(s: string): string
  {
    if s == [] then [] else EscapeChar(s[0]) + EscapeEach(s[1..])
  }

  lemma {:induction false} ReplaceAllAppend(a: string, b: string, c: char, rep: string)
    ensures ReplaceAll(a + b, c, rep) == ReplaceAll(a, c, rep) + ReplaceAll(b, c, rep)
  {
    if a == [] {
      assert a + b == b;
    } else {
      ReplaceAllAppend(a[1..], b, c, rep);
      var h := if a[0] == c then rep else [a[0]];
      assert (a + b)[0] == a[0] && (a + b)[1..] == a[1..] + b;
      AppendAssoc(h, ReplaceAll(a[1..], c, rep), ReplaceAll(b, c, rep));
    }
  }

  lemma {:induction false} ReplaceAllAbsent(s: string, c: char, rep: string)
    requires forall i :: 0 <= i < |s| ==> s[i] != c
    ensures ReplaceAll(s, c, rep) == s
  {
    if s != [] {
      ReplaceAllAbsent(s[1..], c, rep);
      assert [s[0]] + s[1..] == s;
    }
  }

  lemma ReplaceAllSingle(d: char, c: char, rep: string)
    ensures ReplaceAll([d], c, rep) == if d == c then rep else [d]
  {
    assert [d][1..] == [];
  }

  /** The four passes applied to a single character. */
  lemma EscapeHtmlChar(c: char)
    ensures EscapeHtml([c]) == EscapeChar(c)
  {
    if c == '&' {
      EscapeAmpersand();
    } else if c == '<' {
      EscapeLessThan();
    } else if c == '>' {
      EscapeGreaterThan();
    } else if c == '"' {
      EscapeQuote();
    } else {
      ReplaceAllSingle(c, '&', "&amp;");
      ReplaceAllSingle(c, '<', "&lt;");
      ReplaceAllSingle(c, '>', "&gt;");
      ReplaceAllSingle(c, '"', "&quot;");
    }
  }

  lemma EscapeAmpersand()
    ensures EscapeHtml("&") == "&amp;"
  {
    ReplaceAllSingle('&', '&', "&amp;");
    AmpersandEntityKept('<', "&lt;");
    AmpersandEntityKept('>', "&gt;");
    AmpersandEntityKept('"', "&quot;");
  }

  /** The entity for & passes unchanged through the later replacements. */
  lemma AmpersandEntityKept(c: char, rep: string)
    requires c == '<' || c == '>' || c == '"'
    ensures ReplaceAll("&amp;", c, rep) == "&amp;"
  {
    ReplaceAllAbsent("&amp;", c, rep);
  }

  lemma EscapeLessThan()
    ensures EscapeHtml("<") == "&lt;"
  {
    ReplaceAllSingle('<', '&', "&amp;");
    ReplaceAllSingle('<', '<', "&lt;");
    ReplaceAllAbsent("&lt;", '>', "&gt;");
    ReplaceAllAbsent("&lt;", '"', "&quot;");
  }

  lemma EscapeGreaterThan()
    ensures EscapeHtml(">") == "&gt;"
  {
    ReplaceAllSingle('>', '&', "&amp;");
    ReplaceAllSingle('>', '<', "&lt;");
    ReplaceAllSingle('>', '>', "&gt;");
    ReplaceAllAbsent("&gt;", '"', "&quot;");
  }

  lemma EscapeQuote()
    ensures EscapeHtml("\"") == "&quot;"
  {
    ReplaceAllSingle('"', '&', "&amp;");
    ReplaceAllSingle('"', '<', "&lt;");
    ReplaceAllSingle('"', '>', "&gt;");
    ReplaceAllSingle('"', '"', "&quot;");
  }

  /** The four passes in a row escape every character exactly once: the
      entities inserted by one pass hold none of the characters the later
      passes replace. */
  lemma {:induction false} EscapeHtmlIsEscapeEach(s: string)
    ensures EscapeHtml(s) == EscapeEach(s)
  {
    if s != [] {
      EscapeHtmlIsEscapeEach(s[1..]);
      EscapeHtmlChar(s[0]);
      assert s == [s[0]] + s[1..];
      var a, b := [s[0]], s[1..];
      ReplaceAllAppend(a, b, '&', "&amp;");
      var a1, b1 := ReplaceAll(a, '&', "&amp;"), ReplaceAll(b, '&', "&amp;");
      ReplaceAllAppend(a1, b1, '<', "&lt;");
      var a2, b2 := ReplaceAll(a1, '<', "&lt;"), ReplaceAll(b1, '<', "&lt;");
      ReplaceAllAppend(a2, b2, '>', "&gt;");
      var a3, b3 := ReplaceAll(a2, '>', "&gt;"), ReplaceAll(b2, '>', "&gt;");
      ReplaceAllAppend(a3, b3, '"', "&quot;");
    }
  }

  /** After the replacement no c is left unless rep holds one, and no other
      character appears that neither s nor rep holds. */
  lemma {:induction false} ReplaceAllChars(s: string, c: char, rep: string, d: char)
    requires d !in rep && (d == c || d !in s)
    ensures d !in ReplaceAll(s, c, rep)
  {
    if s != [] {
      ReplaceAllChars(s[1..], c, rep, d);
    }
  }

  /** The escaped text holds no <, > or ". */
  lemma EscapeHtmlSafe(s: string)
    ensures '<' !in EscapeHtml(s) && '>' !in EscapeHtml(s) && '"' !in EscapeHtml(s)
  {
    var s1 := ReplaceAll(s, '&', "&amp;");
    var s2 := ReplaceAll(s1, '<', "&lt;");
    var s3 := ReplaceAll(s2, '>', "&gt;");
    ReplaceAllChars(s1, '<', "&lt;", '<');
    ReplaceAllChars(s2, '>', "&gt;", '<');
    ReplaceAllChars(s2, '>', "&gt;", '>');
    ReplaceAllChars(s3, '"', "&quot;", '<');
    ReplaceAllChars(s3, '"', "&quot;", '>');
    ReplaceAllChars(s3, '"', "&quot;", '"');
  }

  /** Reads the four entities back; any other character stands for itself. */
  function Unescape(s: string): string
    decreases |s|
  {
    if s == [] then []
    else if |s| >= 5 && s[..5] == "&amp;" then ['&'] + Unescape(s[5..])
    else if |s| >= 4 && s[..4] == "&lt;" then ['<'] + Unescape(s[4..])
    else if |s| >= 4 && s[..4] == "&gt;" then ['>'] + Unescape(s[4..])
    else if |s| >= 6 && s[..6] == "&quot;" then ['"'] + Unescape(s[6..])
    else [s[0]] + Unescape(s[1..])
  }

  lemma UnescapeStep(c: char, rest: string)
    ensures Unescape(EscapeChar(c) + rest) == [c] + Unescape(rest)
  {
    var e := EscapeChar(c) + rest;
    if c == '&' {
      assert e[..5] == "&amp;" && e[5..] == rest;
    } else if c == '<' {
      assert e[..4] == "&lt;" && e[4..] == rest;
      assert !(|e| >= 5 && e[..5] == "&amp;") by { assert |e| >= 5 ==> e[..5][1] == 'l'; }
    } else if c == '>' {
      assert e[..4] == "&gt;" && e[4..] == rest;
      assert !(|e| >= 5 && e[..5] == "&amp;") by { assert |e| >= 5 ==> e[..5][1] == 'g'; }
      assert e[..4][1] == 'g';
    } else if c == '"' {
      assert e[..6] == "&quot;" && e[6..] == rest;
      assert |e| >= 5 ==> e[..5][1] == 'q';
      assert e[..4][1] == 'q';
    } else {
      assert e[0] == c && e[1..] == rest;
      assert |e| >= 4 ==> e[..4][0] == c;
      assert |e| >= 5 ==> e[..5][0] == c;
      assert |e| >= 6 ==> e[..6][0] == c;
    }
  }

  /** Unescaping what escapeHtml produced gives the text back. */
  lemma {:induction false} EscapeHtmlRoundTrip(s: string)
    ensures Unescape(EscapeHtml(s)) == s
  {
    EscapeHtmlIsEscapeEach(s);
    EscapeEachRoundTrip(s);
  }

  lemma {:induction false} EscapeEachRoundTrip(s: string)
    ensures Unescape(EscapeEach(s)) == s
  {
    if s != [] {
      EscapeEachRoundTrip(s[1..]);
      UnescapeStep(s[0], EscapeEach(s[1..]));
      assert [s[0]] + s[1..] == s;
    }
  }
}
