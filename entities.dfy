/**
 * The stand-alone entity decoder used to clean titles, excerpts and bodies already stored in
 * the content store: a fixed chain of literal, global replacements. Typographic entities become
 * plain characters, `&amp;` is decoded after them in a single pass, and the last two links of
 * the chain replace `<` and `>` by themselves, so `&lt;` and `&gt;` stay encoded.
 */
module Entities {
  import opened Text

  /** A JavaScript value handed to the decoder: a string, or anything else. */
  datatype Value<T> = Str(s: string) | Other(v: T)

  /** The replacement chain, in the order the `.replace` calls run. */
  const DecodeTable: seq<(string, string)> := [
    ("&#8217;", "'"),
    ("&#8216;", "'"),
    ("&#8221;", "\""),
    ("&#8220;", "\""),
    ("&#8211;", "\U{2013}"),
    ("&#8212;", "\U{2014}"),
    ("&#8230;", "\U{2026}"),
    ("&#8200;", ""),
    ("&#8203;", ""),
    ("&nbsp;", " "),
    ("&amp;", "&"),
    ("<", "<"),
    (">", ">")
  ]

  /** Index of `&amp;` in the chain; the entries before it are the entities proper. */
  const AmpIndex: nat := 10

  /** The decoded text of a string. */
  function DecodeText(s: string): string {
    ReplaceChain(s, DecodeTable)
  }

  /** `decodeHtmlEntities(text)`: a non-string comes back as it went in. */
  function DecodeHtmlEntities<T>(x: Value<T>): (r: Value<T>)
    ensures x.Other? ==> r == x
    ensures x.Str? <==> r.Str?
  {
    match x
    case Str(s) => Str(DecodeText(s))
    case Other(_) => x
  }

  /** Every pattern up to `&amp;` starts with `&`, then `#`, `n` or `a`. */
  lemma PatternsShape()
    ensures ValidTable(DecodeTable) && |DecodeTable| == 13
    ensures forall k :: 0 <= k <= AmpIndex ==>
      |DecodeTable[k].0| >= 5 && DecodeTable[k].0[0] == '&' && DecodeTable[k].0[1] in "#na"
  {
  }

  /** The last two links of the chain replace a character by itself. */
  lemma TailShape()
    ensures |DecodeTable| == 13
    ensures forall k :: AmpIndex < k < 13 ==> DecodeTable[k].0 == DecodeTable[k].1
  {
  }

  /** `&amp;` comes after entities none of which starts with `&a`, and only identities follow it. */
  lemma AmpShape()
    ensures ValidTable(DecodeTable) && DecodeTable[AmpIndex] == ("&amp;", "&")
    ensures forall k :: 0 <= k < AmpIndex ==>
      |DecodeTable[k].0| >= 2 && DecodeTable[k].0[0] == '&' && DecodeTable[k].0[1] != 'a'
    ensures forall k :: AmpIndex < k < |DecodeTable| ==> DecodeTable[k].0 == DecodeTable[k].1
  {
  }

  /** An entity holds `&` only at its head, and its replacement holds none. */
  lemma EntityShape(k: nat)
    requires k < AmpIndex
    ensures |DecodeTable[k].0| >= 6 && DecodeTable[k].0[0] == '&'
    ensures '&' !in DecodeTable[k].0[1..] && '&' !in DecodeTable[k].1
  {
    assert k == 0 || k == 1 || k == 2 || k == 3 || k == 4 || k == 5 || k == 6 || k == 7 || k == 8 || k == 9;
  }

  /** Any two distinct entities differ at their second, fifth or sixth character. */
  lemma EntitiesDiffer(j: nat, k: nat)
    requires j < AmpIndex && k < AmpIndex && j != k
    ensures |DecodeTable[j].0| >= 6 && |DecodeTable[k].0| >= 6
    ensures DecodeTable[j].0[1] != DecodeTable[k].0[1] || DecodeTable[j].0[4] != DecodeTable[k].0[4]
         || DecodeTable[j].0[5] != DecodeTable[k].0[5]
  {
    assert j == 0 || j == 1 || j == 2 || j == 3 || j == 4 || j == 5 || j == 6 || j == 7 || j == 8 || j == 9;
    assert k == 0 || k == 1 || k == 2 || k == 3 || k == 4 || k == 5 || k == 6 || k == 7 || k == 8 || k == 9;
  }

  /** A chain stops changing text once the remaining patterns are all absent or identities. */
  lemma RestUnchanged(s: string, n: nat)
    requires n <= AmpIndex + 1
    requires forall k :: n <= k <= AmpIndex ==> !Contains(s, DecodeTable[k].0)
    ensures ReplaceChain(s, DecodeTable[n..]) == s
  {
    PatternsShape();
    TailShape();
    var rest := DecodeTable[n..];
    var m := AmpIndex + 1 - n;
    forall k | 0 <= k < |rest|
      ensures rest[k] == DecodeTable[n + k]
    {
    }
    ChainUnchanged(s, rest, m);
  }

  /** A string without `&` is returned unchanged. */
  lemma DecodeWithoutAmpersand<T>(s: string)
    requires '&' !in s
    ensures DecodeHtmlEntities<T>(Str(s)) == Str(s)
  {
    PatternsShape();
    forall k | 0 <= k <= AmpIndex ensures !Contains(s, DecodeTable[k].0) {
      NotContainsByChar(s, DecodeTable[k].0, '&');
    }
    RestUnchanged(s, 0);
  }

  /** Replacing the pattern at the head of `p + t` when `t` holds no further copy. */
  lemma ReplaceAllHead(p: string, t: string, rep: string)
    requires p != [] && !Contains(t, p)
    ensures ReplaceAll(p + t, p, rep) == rep + t
  {
    assert (p + t)[|p|..] == t;
  }

  /**
   * Each entity, followed by text without `&`, decodes to its character followed by that text:
   * the entities before it do not match, and its replacement holds no `&` for a later one to see.
   */
  lemma EntityDecoded(k: nat, t: string)
    requires k < AmpIndex && '&' !in t
    ensures DecodeText(DecodeTable[k].0 + t) == DecodeTable[k].1 + t
  {
    PatternsShape();
    EntityShape(k);
    var (p, rep) := DecodeTable[k];
    var s := p + t;
    EarlierEntitiesAbsent(k, t);
    ChainSkipsAbsent(s, DecodeTable, k);
    ChainAt(s, DecodeTable, k);
    NotContainsByChar(t, p, '&');
    ReplaceAllHead(p, t, rep);
    LaterEntitiesAbsent(k, rep + t);
    RestUnchanged(rep + t, k + 1);
  }

  /** No entity before entity `k` occurs in entity `k` followed by text without `&`. */
  lemma EarlierEntitiesAbsent(k: nat, t: string)
    requires k < AmpIndex && '&' !in t
    ensures forall j :: 0 <= j < k ==> !Contains(DecodeTable[k].0 + t, DecodeTable[j].0)
  {
    PatternsShape();
    EntityShape(k);
    var p := DecodeTable[k].0;
    var s := p + t;
    assert '&' !in s[1..] by {
      assert s[1..] == p[1..] + t;
    }
    forall j | 0 <= j < k ensures !Contains(s, DecodeTable[j].0) {
      var q := DecodeTable[j].0;
      EntitiesDiffer(j, k);
      assert s[1] == p[1] && s[4] == p[4] && s[5] == p[5];
      NotContainsPastHead(s, q);
    }
  }

  /** Text without `&` holds none of the patterns up to `&amp;`. */
  lemma LaterEntitiesAbsent(k: nat, u: string)
    requires k < AmpIndex && '&' !in u
    ensures forall j :: k + 1 <= j <= AmpIndex ==> !Contains(u, DecodeTable[j].0)
  {
    PatternsShape();
    forall j | k + 1 <= j <= AmpIndex ensures !Contains(u, DecodeTable[j].0) {
      NotContainsByChar(u, DecodeTable[j].0, '&');
    }
  }

  /** `&amp;` is decoded once, after the entities: `&amp;#8217;` ends as `&#8217;`. */
  lemma AmpersandDecodedLast(t: string)
    requires '&' !in t
    ensures DecodeText("&amp;" + t) == "&" + t
  {
    AmpShape();
    AmpersandDecodedOnce(DecodeTable, AmpIndex, t);
  }

  /** `&lt;` and `&gt;` are left encoded. */
  lemma AngleEntitiesKept(t: string)
    requires '&' !in t && (t == "lt;" || t == "gt;")
    ensures DecodeText("&" + t) == "&" + t
  {
    PatternsShape();
    var s := "&" + t;
    assert s[1..] == t;
    forall k | 0 <= k <= AmpIndex ensures !Contains(s, DecodeTable[k].0) {
      NotContainsPastHead(s, DecodeTable[k].0);
    }
    RestUnchanged(s, 0);
  }

  /** Each entity on its own decodes to its character. */
  lemma EntityAlone(k: nat)
    requires k < AmpIndex
    ensures DecodeText(DecodeTable[k].0) == DecodeTable[k].1
  {
    EntityDecoded(k, []);
    assert DecodeTable[k].0 + [] == DecodeTable[k].0;
    assert DecodeTable[k].1 + [] == DecodeTable[k].1;
  }

  /** Curly quotes become straight quotes. */
  lemma QuotesDecoded()
    ensures DecodeText("&#8217;") == "'" && DecodeText("&#8216;") == "'"
    ensures DecodeText("&#8221;") == "\"" && DecodeText("&#8220;") == "\""
  {
    EntityAlone(0);
    EntityAlone(1);
    EntityAlone(2);
    EntityAlone(3);
  }

  /** Dashes and the ellipsis become their characters. */
  lemma DashesDecoded()
    ensures DecodeText("&#8211;") == "\U{2013}" && DecodeText("&#8212;") == "\U{2014}"
    ensures DecodeText("&#8230;") == "\U{2026}"
  {
    EntityAlone(4);
    EntityAlone(5);
    EntityAlone(6);
  }

  /** `&#8200;` and `&#8203;` are deleted and `&nbsp;` becomes a plain space. */
  lemma SpacesDecoded()
    ensures DecodeText("&#8200;") == "" && DecodeText("&#8203;") == ""
    ensures DecodeText("&nbsp;") == " "
  {
    EntityAlone(7);
    EntityAlone(8);
    EntityAlone(9);
  }

  /** An escaped entity is unescaped once and not decoded further: `&amp;#8217;` ends as `&#8217;`. */
  lemma EscapedEntityKept(k: nat)
    requires k < AmpIndex
    ensures DecodeText("&amp;" + DecodeTable[k].0[1..]) == DecodeTable[k].0
  {
    EntityShape(k);
    var p := DecodeTable[k].0;
    AmpersandDecodedLast(p[1..]);
    assert "&" + p[1..] == p;
  }
}
