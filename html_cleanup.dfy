/**
 * The clean-up pass that runs before block segmentation in the block converter: a fixed,
 * ordered table of entities is decoded (with `&amp;` last), CRLF and lone CR become LF, and
 * two line-break tags separated only by white space become a paragraph boundary `</p><p>`.
 */
module HtmlCleanup {
  import opened Text

  /** The entity table of the block converter, in the order the replacements run. */
  const EntityTable: seq<(string, string)> := [
    ("&#8211;", "\U{2013}"),
    ("&#8212;", "\U{2014}"),
    ("&#8220;", "\U{201C}"),
    ("&#8221;", "\U{201D}"),
    ("&#8216;", "\U{2018}"),
    ("&#8217;", "\U{2019}"),
    ("&nbsp;", " "),
    ("&hellip;", "..."),
    ("&quot;", "\""),
    ("&lt;", "<"),
    ("&gt;", ">"),
    ("&amp;", "&")
  ]

  function DecodeEntities(s: string): string {
    ReplaceChain(s, EntityTable)
  }

  /** `.replace(/\r\n/g, "\n").replace(/\r/g, "\n")`. */
  function NormalizeNewlines(s: string): (r: string)
    ensures '\r' !in r
  {
    var t := ReplaceAll(s, "\r\n", "\n");
    ReplaceAllRemovesChar(t, '\r', "\n");
    ReplaceAll(t, "\r", "\n")
  }

  /**
   * Line endings read one at a time: a CRLF pair becomes one LF, a lone CR becomes LF, and any
   * other character is kept.
   */
  function CrToLf(s: string): (r: string)
    ensures '\r' !in r && |r| <= |s|
    decreases |s|
  {
    if s == [] then []
    else if s[0] == '\r' then
      if |s| >= 2 && s[1] == '\n' then "\n" + CrToLf(s[2..]) else "\n" + CrToLf(s[1..])
    else [s[0]] + CrToLf(s[1..])
  }

  /** A CRLF pair at the head becomes one line feed. */
  lemma NormalizeCrLf(t: string)
    ensures NormalizeNewlines("\r\n" + t) == "\n" + NormalizeNewlines(t)
  {
    var s := "\r\n" + t;
    assert "\r\n" <= s && s[2..] == t;
    var u := ReplaceAll(t, "\r\n", "\n");
    assert ReplaceAll(s, "\r\n", "\n") == "\n" + u;
    assert ("\n" + u)[1..] == u;
  }

  /** A carriage return not followed by a line feed becomes a line feed. */
  lemma NormalizeLoneCr(t: string)
    requires t == [] || t[0] != '\n'
    ensures NormalizeNewlines("\r" + t) == "\n" + NormalizeNewlines(t)
  {
    var s := "\r" + t;
    assert s[1..] == t && s[0] == '\r';
    var u := ReplaceAll(t, "\r\n", "\n");
    if t == [] {
      assert ReplaceAll(s, "\r\n", "\n") == s;
    } else {
      assert !("\r\n" <= s) by { assert s[1] == t[0]; }
      assert ReplaceAll(s, "\r\n", "\n") == "\r" + u;
    }
    assert ("\r" + u)[1..] == u && "\r" <= "\r" + u;
  }

  /** Any other character is copied. */
  lemma NormalizeOther(c: char, t: string)
    requires c != '\r'
    ensures NormalizeNewlines([c] + t) == [c] + NormalizeNewlines(t)
  {
    var s := [c] + t;
    assert s[1..] == t && s[0] == c;
    var u := ReplaceAll(t, "\r\n", "\n");
    if t == [] {
      assert ReplaceAll(s, "\r\n", "\n") == s;
      assert ReplaceAll(s, "\r", "\n") == [c] + ReplaceAll([], "\r", "\n");
    } else {
      assert !("\r\n" <= s);
      assert ReplaceAll(s, "\r\n", "\n") == [c] + u;
      assert ([c] + u)[1..] == u;
    }
  }

  /** The two chained replacements turn every CRLF pair and every lone CR into one LF. */
  lemma {:induction false} NormalizeNewlinesIsCrToLf(s: string)
    ensures NormalizeNewlines(s) == CrToLf(s)
    decreases |s|
  {
    if s != [] {
      if s[0] == '\r' {
        if |s| >= 2 && s[1] == '\n' {
          assert s == "\r\n" + s[2..];
          NormalizeCrLf(s[2..]);
          NormalizeNewlinesIsCrToLf(s[2..]);
        } else {
          assert s == "\r" + s[1..];
          NormalizeLoneCr(s[1..]);
          NormalizeNewlinesIsCrToLf(s[1..]);
        }
      } else {
        assert s == [s[0]] + s[1..];
        NormalizeOther(s[0], s[1..]);
        NormalizeNewlinesIsCrToLf(s[1..]);
      }
    }
  }

  /** Length of a match of `<br\s*\/?>` (case-insensitive) at the head of `s`; 0 when none. */
  function BreakLen(s: string): (n: nat)
    ensures n <= |s|
    ensures n > 0 ==> n >= 4 && s[0] == '<' && s[n - 1] == '>'
  {
    if |s| >= 3 && s[0] == '<' && Lower(s[1]) == 'b' && Lower(s[2]) == 'r' then
      var k := 3 + LeadingSpaces(s[3..]);
      if k < |s| && s[k] == '>' then k + 1
      else if k + 1 < |s| && s[k] == '/' && s[k + 1] == '>' then k + 2
      else 0
    else 0
  }

  /** Length of a match of `<br\s*\/?>\s*<br\s*\/?>` at the head of `s`; 0 when none. */
  function DoubleBreakLen(s: string): (n: nat)
    ensures n <= |s|
    ensures n > 0 ==> s[0] == '<'
  {
    var first := BreakLen(s);
    if first == 0 then 0
    else
      var k := first + LeadingSpaces(s[first..]);
      var second := BreakLen(s[k..]);
      if second == 0 then 0 else k + second
  }

  /** `.replace(/<br\s*\/?>\s*<br\s*\/?>/gi, "</p><p>")`. */
  function DoubleBreaksToParagraphs(s: string): (r: string)
    ensures forall c :: c in r ==> c in s || c in "</p><p>"
    ensures '<' !in s ==> r == s
    decreases |s|
  {
    if s == [] then []
    else
      var n := DoubleBreakLen(s);
      if n > 0 then "</p><p>" + DoubleBreaksToParagraphs(s[n..])
      else [s[0]] + DoubleBreaksToParagraphs(s[1..])
  }

  /** The whole clean-up pass (lines 41-59 of the block converter). */
  function Clean(html: string): (r: string)
    ensures '\r' !in r
  {
    DoubleBreaksToParagraphs(NormalizeNewlines(DecodeEntities(html)))
  }

  /** The shape of the entity table that the lemmas below rely on. */
  lemma EntityTableShape()
    ensures ValidTable(EntityTable) && EveryPatternHas(EntityTable, '&')
    ensures |EntityTable| == 12 && EntityTable[11] == ("&amp;", "&")
    ensures forall k :: 0 <= k < 11 ==>
      |EntityTable[k].0| >= 2 && EntityTable[k].0[0] == '&' && EntityTable[k].0[1] != 'a'
  {
  }

  /** Text without a carriage return keeps its line endings. */
  lemma NormalizeNewlinesWithoutCR(s: string)
    requires '\r' !in s
    ensures NormalizeNewlines(s) == s
  {
    NotContainsByChar(s, "\r\n", '\r');
    NotContainsByChar(s, "\r", '\r');
  }

  /**
   * Text without `&` and `<` passes the clean-up pass untouched except for its line endings,
   * where each CRLF pair and each lone CR becomes one LF.
   */
  lemma CleanPlainText(s: string)
    requires '&' !in s && '<' !in s
    ensures Clean(s) == NormalizeNewlines(s) == CrToLf(s)
  {
    EntityTableShape();
    ChainWithoutChar(s, EntityTable, '&');
    NormalizeNewlinesIsCrToLf(s);
  }

  /** The whole clean-up pass maps line endings as `CrToLf` does, after the entities. */
  lemma CleanNewlines(html: string)
    ensures Clean(html) == DoubleBreaksToParagraphs(CrToLf(DecodeEntities(html)))
  {
    NormalizeNewlinesIsCrToLf(DecodeEntities(html));
  }

  /**
   * `&amp;` is decoded last and in a single pass: `&amp;` followed by text without `&` ends as
   * `&` followed by that text, so an escaped entity stays an entity.
   */
  lemma AmpersandDecodedLast(t: string)
    requires '&' !in t
    ensures DecodeEntities("&amp;" + t) == "&" + t
  {
    EntityTableShape();
    AmpersandDecodedOnce(EntityTable, 11, t);
  }

  /** The same holds for the whole clean-up pass when `t` has no tag and no carriage return. */
  lemma CleanEscapedEntity(t: string)
    requires '&' !in t && '<' !in t && '\r' !in t
    ensures Clean("&amp;" + t) == "&" + t
  {
    var d := "&" + t;
    AmpersandDecodedLast(t);
    NormalizeNewlinesWithoutCR(d);
    assert '<' !in d;
  }

  /** `&amp;lt;` decodes to `&lt;`, not to `<`. */
  lemma EscapedLessThanExample(t: string)
    requires t == "lt;"
    ensures DecodeEntities("&amp;" + t) == "&lt;"
  {
    var r := "&" + t;
    assert r == "&lt;" by {
      assert |r| == 4 && r[0] == '&' && r[1..] == t;
    }
    AmpersandDecodedLast(t);
  }

  /** `&amp;amp;` decodes to `&amp;`, not to `&`. */
  lemma EscapedAmpersandExample(t: string)
    requires t == "amp;"
    ensures DecodeEntities("&amp;" + t) == "&amp;"
  {
    var r := "&" + t;
    assert r == "&amp;" by {
      assert |r| == 5 && r[0] == '&' && r[1..] == t;
    }
    AmpersandDecodedLast(t);
  }

  /** Leading white space in front of `t` is skipped in one go. */
  lemma {:induction false} LeadingSpacesAppend(w: string, t: string)
    requires IsBlank(w)
    ensures LeadingSpaces(w + t) == |w| + LeadingSpaces(t)
    decreases |w|
  {
    if w == [] {
      assert w + t == t;
    } else {
      assert (w + t)[0] == w[0] && (w + t)[1..] == w[1..] + t;
      LeadingSpacesAppend(w[1..], t);
    }
  }

  /** Two `<br>` tags separated only by white space become one paragraph boundary. */
  lemma DoubleBreakBecomesParagraph(w: string, rest: string)
    requires IsBlank(w)
    ensures DoubleBreaksToParagraphs("<br>" + w + "<br>" + rest)
         == "</p><p>" + DoubleBreaksToParagraphs(rest)
  {
    var s := "<br>" + w + "<br>" + rest;
    DoubleBreakAtHead(w, rest);
    assert s[8 + |w|..] == rest;
  }

  /** `<br>`, blanks and `<br>` at the head of a string match the double-break pattern. */
  lemma DoubleBreakAtHead(w: string, rest: string)
    requires IsBlank(w)
    ensures DoubleBreakLen("<br>" + w + "<br>" + rest) == 8 + |w|
  {
    var s := "<br>" + w + "<br>" + rest;
    var second := "<br>" + rest;
    BreakAtHead(w + second);
    assert s == "<br>" + (w + second);
    assert s[4..] == w + second;
    LeadingSpacesAppend(w, second);
    assert s[4 + |w|..] == second;
    BreakAtHead(rest);
  }

  /** A plain `<br>` at the head of a string is a four-character break. */
  lemma BreakAtHead(t: string)
    ensures BreakLen("<br>" + t) == 4
  {
    var s := "<br>" + t;
    assert s[0] == '<' && s[1] == 'b' && s[2] == 'r' && s[3] == '>';
    assert LeadingSpaces(s[3..]) == 0;
  }
}
