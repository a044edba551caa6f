/**
 * The WordPress import converter: `convertHtmlToPortableText` rewrites heading and paragraph
 * tags into `---HEADERn---` / `---PARA---` line markers, splits at line feeds and turns each
 * marked line into a block with one unmarked span; the category helpers map WordPress
 * category ids to references and build the fixed category documents.
 */
module Wordpress {
  import opened Wrappers
  import opened Text
  import opened Blocks

  // ---------------------------------------------------------------------------------------
  // The marker pass
  // ---------------------------------------------------------------------------------------

  /** The four tag regexes of the marker pass, applied in this order. */
  datatype TagRule = HeadingOpen | HeadingClose | ParaOpen | ParaClose

  /**
   * The length of the rule's match at the head of `s`, or 0:
   * `<h([1-6])[^>]*>`, `<\/h[1-6]>`, `<p[^>]*>` and `<\/p>`.
   */
  function MatchLen(rule: TagRule, s: string): (n: nat)
    ensures n <= |s|
    ensures n > 0 ==> s[0] == '<'
  {
    match rule
    case HeadingOpen =>
      if |s| >= 4 && s[0] == '<' && s[1] == 'h' && '1' <= s[2] <= '6' && '>' in s[3..] then
        3 + FirstIndex(s[3..], '>') + 1
      else 0
    case HeadingClose =>
      if |s| >= 5 && s[0] == '<' && s[1] == '/' && s[2] == 'h' && '1' <= s[3] <= '6' && s[4] == '>'
      then 5 else 0
    case ParaOpen =>
      if |s| >= 3 && s[0] == '<' && s[1] == 'p' && '>' in s[2..] then
        2 + FirstIndex(s[2..], '>') + 1
      else 0
    case ParaClose =>
      if "</p>" <= s then 4 else 0
  }

  /** What a match `m` of the rule is replaced by; a heading keeps its level digit. */
  function Replacement(rule: TagRule, m: string): string {
    match rule
    case HeadingOpen => "\n---HEADER" + (if |m| >= 3 then [m[2]] else []) + "---"
    case HeadingClose => "---/HEADER---\n"
    case ParaOpen => "\n---PARA---"
    case ParaClose => "---/PARA---\n"
  }

  /** `s.replace(regex, replacement)` with the `g` flag: leftmost, non-overlapping matches. */
  function ReplaceRule(s: string, rule: TagRule): (r: string)
    ensures '<' !in s ==> r == s
    decreases |s|
  {
    if s == [] then []
    else
      var n := MatchLen(rule, s);
      if n > 0 then Replacement(rule, s[..n]) + ReplaceRule(s[n..], rule)
      else
        assert s == [s[0]] + s[1..];
        [s[0]] + ReplaceRule(s[1..], rule)
  }

  /** The chain of the four replacements. */
  function Markers(html: string): (r: string)
    ensures '<' !in html ==> r == html
  {
    ReplaceRule(ReplaceRule(ReplaceRule(ReplaceRule(html, HeadingOpen), HeadingClose), ParaOpen),
                ParaClose)
  }

  /** `s.split(/\n/)`. */
  function SplitLines(s: string): (r: seq<string>)
    ensures |r| >= 1 && forall i :: 0 <= i < |r| ==> '\n' !in r[i]
    decreases |s|
  {
    if s == [] then [[]]
    else if s[0] == '\n' then [[]] + SplitLines(s[1..])
    else
      var r := SplitLines(s[1..]);
      [[s[0]] + r[0]] + r[1..]
  }

  /** Joining the lines with line feeds gives the text back. */
  lemma {:induction false} SplitLinesJoin(s: string)
    ensures Join(SplitLines(s), "\n") == s
    decreases |s|
  {
    if s != [] {
      SplitLinesJoin(s[1..]);
      if s[0] == '\n' {
        JoinNewlineFront(s[1..], SplitLines(s[1..]));
        assert s == "\n" + s[1..];
      } else {
        JoinCharFront(s[0], s[1..], SplitLines(s[1..]));
        assert s == [s[0]] + s[1..];
      }
    }
  }

  lemma JoinNewlineFront(rest: string, r: seq<string>)
    requires |r| >= 1 && Join(r, "\n") == rest
    ensures Join([[]] + r, "\n") == "\n" + rest
  {
    var l := [[]] + r;
    JoinFront(l, "\n");
    assert l[1..] == r;
  }

  lemma JoinCharFront(c: char, rest: string, r: seq<string>)
    requires |r| >= 1 && Join(r, "\n") == rest
    ensures Join([[c] + r[0]] + r[1..], "\n") == [c] + rest
  {
    if |r| >= 2 {
      JoinCharFrontLong(c, r);
    } else {
      assert [[c] + r[0]] + r[1..] == [[c] + r[0]];
    }
  }

  lemma JoinCharFrontLong(c: char, r: seq<string>)
    requires |r| >= 2
    ensures Join([[c] + r[0]] + r[1..], "\n") == [c] + Join(r, "\n")
  {
    var l := [[c] + r[0]] + r[1..];
    var j := "\n" + Join(r[1..], "\n");
    assert Join(l, "\n") == ([c] + r[0]) + j by {
      JoinFront(l, "\n");
      assert l[1..] == r[1..];
      AppendAssoc([c] + r[0], "\n", Join(r[1..], "\n"));
    }
    assert Join(r, "\n") == r[0] + j by {
      JoinFront(r, "\n");
      AppendAssoc(r[0], "\n", Join(r[1..], "\n"));
    }
    AppendAssoc([c], r[0], j);
  }

  /** The lines the loop runs over: `.split(/\n/).filter((p) => p.trim())`. */
  function Lines(html: string): seq<string> {
    NonBlank(SplitLines(Markers(html)))
  }

  // ---------------------------------------------------------------------------------------
  // One line
  // ---------------------------------------------------------------------------------------

  /** The characters `.` does not match. */
  predicate IsLineTerminator(c: char) {
    c == '\n' || c == '\r' || c == '\U{2028}' || c == '\U{2029}'
  }

  /** What `.+` covers from the head of `s`: the characters before the first line terminator. */
  function LineLength(s: string): (n: nat)
    ensures n <= |s| && forall i :: 0 <= i < n ==> !IsLineTerminator(s[i])
    ensures n < |s| ==> IsLineTerminator(s[n])
  {
    if s == [] || IsLineTerminator(s[0]) then 0 else 1 + LineLength(s[1..])
  }

  /** `---HEADER(\d)---(.+)` matches at the head of `t`. */
  predicate HeaderAt(t: string) {
    |t| >= 14 && t[..9] == "---HEADER" && IsDigit(t[9]) && t[10..13] == "---"
    && !IsLineTerminator(t[13])
  }

  /** The two capture groups of the header regex. */
  datatype HeaderMatch = HeaderMatch(level: char, text: string)

  /** `t.match(/---HEADER(\d)---(.+)/)`: the leftmost match, unanchored. */
  function MatchHeader(t: string): (r: Option<HeaderMatch>)
    ensures r.None? <==> forall i :: 0 <= i < |t| ==> !HeaderAt(t[i..])
    ensures r.Some? ==> IsDigit(r.value.level) && r.value.text != []
    ensures r.Some? ==> exists i :: 0 <= i < |t| && HeaderAt(t[i..]) && r.value.level == t[i + 9]
    decreases |t|
  {
    if t == [] then None
    else if HeaderAt(t) then
      var n := LineLength(t[13..]);
      assert t[0..] == t;
      Some(HeaderMatch(t[9], t[13..13 + n]))
    else
      var r := MatchHeader(t[1..]);
      assert forall i :: 1 <= i <= |t| ==> t[i..] == t[1..][i - 1..];
      assert r.Some? ==> exists i :: 0 <= i < |t[1..]| && HeaderAt(t[1..][i..]) && r.value.level == t[1..][i + 9];
      r
  }

  /** The captures of a header match at the head of `t`. */
  function HeaderCaptures(t: string): HeaderMatch
    requires HeaderAt(t)
  {
    HeaderMatch(t[9], t[13..13 + LineLength(t[13..])])
  }

  lemma MatchHeaderHere(t: string)
    requires HeaderAt(t)
    ensures MatchHeader(t) == Some(HeaderCaptures(t))
  {
  }

  lemma MatchHeaderSkip(t: string)
    requires t != [] && !HeaderAt(t)
    ensures MatchHeader(t) == MatchHeader(t[1..])
  {
  }

  /**
   * The match is the leftmost one: at the first position where the header pattern matches, with
   * the level digit and the rest of that line as its two captures.
   */
  lemma {:induction false} MatchHeaderLeftmost(t: string, i: nat)
    requires i < |t| && HeaderAt(t[i..])
    requires forall k :: 0 <= k < i ==> !HeaderAt(t[k..])
    ensures MatchHeader(t) == Some(HeaderCaptures(t[i..]))
    decreases i
  {
    if i == 0 {
      assert t[0..] == t;
      MatchHeaderHere(t);
    } else {
      assert t[0..] == t;
      MatchHeaderSkip(t);
      forall k | 0 <= k < i - 1 ensures !HeaderAt(t[1..][k..]) {
        assert t[1..][k..] == t[k + 1..];
      }
      assert t[1..][i - 1..] == t[i..];
      MatchHeaderLeftmost(t[1..], i - 1);
    }
  }

  /** Removing all occurrences of a marker keeps text free of tags. */
  function RemoveMarker(s: string, marker: string): (r: string)
    requires marker != []
    requires NoTag(s)
    ensures NoTag(r)
  {
    NoTagRemoveAll(s, marker);
    ReplaceAll(s, marker, "")
  }

  function Cleaned(s: string): (r: string)
    requires NoTag(s)
    ensures NoTag(r) && IsTrimmed(r)
  {
    NoTagTrim(s);
    Trim(s)
  }

  /** A heading's text: tags, `---/HEADER---` and `---/PARA---` removed, then trimmed. */
  function HeaderText(g: string): (r: string)
    ensures NoTag(r) && IsTrimmed(r)
  {
    Cleaned(RemoveMarker(RemoveMarker(StripTags(g), "---/HEADER---"), "---/PARA---"))
  }

  /** A `---PARA---` line's text: its first marker, tags and closing markers removed. */
  function ParaText(t: string): (r: string)
    ensures NoTag(r) && IsTrimmed(r)
  {
    Cleaned(RemoveMarker(RemoveMarker(StripTags(ReplaceFirst(t, "---PARA---", "")), "---/PARA---"),
                         "---/HEADER---"))
  }

  /**
   * A heading's text keeps an opening `---PARA---` marker: that branch removes only the two
   * closing markers, so `---HEADER2------PARA---x` gives a heading whose text is `---PARA---x`.
   */
  lemma HeaderTextKeepsParaMarker(t: string)
    requires '<' !in t && 'H' !in t && '/' !in t && (t == [] || !IsSpace(t[|t| - 1]))
    ensures HeaderText("---PARA---" + t) == "---PARA---" + t
  {
    var s := "---PARA---" + t;
    assert s[0] == '-';
    assert '<' !in s && 'H' !in s && '/' !in s;
    NotContainsByChar(s, "---/HEADER---", 'H');
    NotContainsByChar(s, "---/PARA---", '/');
    assert IsTrimmed(s);
    TrimOfTrimmed(s);
  }

  /** Any other line's text: tags and all three markers removed. */
  function OtherText(t: string): (r: string)
    ensures NoTag(r) && IsTrimmed(r)
  {
    Cleaned(RemoveMarker(RemoveMarker(RemoveMarker(StripTags(t), "---/PARA---"), "---/HEADER---"),
                         "---PARA---"))
  }

  /** The style and span text of the block a line gives. */
  datatype Content = Content(style: string, text: string)

  /** The lines skipped before any matching. */
  predicate SkippedLine(t: string) {
    t == [] || t == "---PARA---" || t == "---/PARA---" || t == "---/HEADER---"
  }

  /** `h` and a digit. */
  predicate HeadingStyle(style: string) {
    |style| == 2 && style[0] == 'h' && IsDigit(style[1])
  }

  /** Visible, trimmed, tag-free text under style `normal` or a heading style. */
  predicate GoodContent(c: Content) {
    c.text != [] && IsTrimmed(c.text) && NoTag(c.text) && (c.style == "normal" || HeadingStyle(c.style))
  }

  /**
   * The body of `paragraphs.forEach(...)`: the block content a line gives, if any. A line that
   * gives one gives a `h` + digit block exactly when the header regex matched its trimmed text,
   * with the digit the match captured, and a `normal` block otherwise. The skipped marker lines
   * give nothing.
   */
  function LineContent(line: string): (r: Option<Content>)
    ensures SkippedLine(Trim(line)) ==> r.None?
    ensures r.Some? ==> GoodContent(r.value)
    ensures r.Some? && MatchHeader(Trim(line)).Some? ==>
      r.value.style == "h" + [MatchHeader(Trim(line)).value.level]
    ensures r.Some? ==> (MatchHeader(Trim(line)).None? <==> r.value.style == "normal")
  {
    var t := Trim(line);
    if SkippedLine(t) then None
    else
      var h := MatchHeader(t);
      if h.Some? then HeaderContent(h.value) else BodyContent(t)
  }

  /** A matched header line: a `h` + digit block if its cleaned text is visible. */
  function HeaderContent(h: HeaderMatch): (r: Option<Content>)
    requires IsDigit(h.level)
    ensures r.Some? ==> GoodContent(r.value) && r.value.style == "h" + [h.level]
  {
    var x := HeaderText(h.text);
    if x != [] then Some(Content("h" + [h.level], x)) else None
  }

  /** Any other line: a `normal` block if its cleaned text is visible. */
  function BodyContent(t: string): (r: Option<Content>)
    ensures r.Some? ==> GoodContent(r.value) && r.value.style == "normal"
  {
    var x := if "---PARA---" <= t then ParaText(t) else OtherText(t);
    if x != [] then Some(Content("normal", x)) else None
  }

  /** `` `block-${blockKey++}` ``. */
  function BlockKey(n: nat): string {
    "block-" + NatToString(n)
  }

  /** The pushed block: one span without marks, no mark definitions. */
  function ContentBlock(n: nat, c: Content): Block {
    Block(BlockKey(n), c.style, None, [], [Span([], c.text, [])])
  }

  /** The blocks of the lines so far; the key counter is the number of blocks pushed. */
  function LinesRun(lines: seq<string>): seq<Block> {
    if lines == [] then []
    else Push(LinesRun(lines[..|lines| - 1]), LineContent(lines[|lines| - 1]))
  }

  /** `blocks.push(...)` when the line gave content, keyed by the number of blocks so far. */
  function Push(bs: seq<Block>, c: Option<Content>): seq<Block> {
    if c.Some? then bs + [ContentBlock(|bs|, c.value)] else bs
  }

  lemma LinesRunStep(lines: seq<string>, i: nat)
    requires i < |lines|
    ensures LinesRun(lines[..i + 1]) == Push(LinesRun(lines[..i]), LineContent(lines[i]))
  {
    assert lines[..i + 1][..i] == lines[..i];
  }

  const NoContent: string := "No content"

  /** `htmlContent.replace(/<[^>]*>/g, "").trim() || "No content"`. */
  function FallbackText(html: string): (t: string)
    ensures t != [] && NoTag(t) && IsTrimmed(t)
  {
    var s := Cleaned(StripTags(html));
    if s != [] then s else NoContent
  }

  function FallbackBlock(html: string): Block {
    Block("default-block", "normal", None, [], [Span([], FallbackText(html), [])])
  }

  /** `convertHtmlToPortableText(htmlContent)`. */
  function HtmlToBlocks(html: string): seq<Block> {
    var bs := LinesRun(Lines(html));
    if bs != [] then bs else [FallbackBlock(html)]
  }

  /** The block one line gives, with the source's branches. */
  method LineToBlock(paragraph: string, blockKey: nat) returns (block: Option<Block>)
    ensures LineContent(paragraph).None? ==> block.None?
    ensures LineContent(paragraph).Some? ==>
      block == Some(ContentBlock(blockKey, LineContent(paragraph).value))
  {
    var trimmed := Trim(paragraph);
    if SkippedLine(trimmed) {
      return None;
    }
    var headerMatch := MatchHeader(trimmed);
    var text: string;
    var style: string;
    if headerMatch.Some? {
      text := HeaderText(headerMatch.value.text);
      style := "h" + [headerMatch.value.level];
    } else if "---PARA---" <= trimmed {
      text := ParaText(trimmed);
      style := "normal";
    } else {
      text := OtherText(trimmed);
      style := "normal";
    }
    if text != [] {
      block := Some(ContentBlock(blockKey, Content(style, text)));
    } else {
      block := None;
    }
  }

  /** The loop over the lines with its key counter, then the fallback. */
  method ConvertHtmlToPortableText(htmlContent: string) returns (blocks: seq<Block>)
    ensures blocks == HtmlToBlocks(htmlContent)
  {
    var paragraphs := Lines(htmlContent);
    blocks := [];
    var blockKey := 0;
    var i := 0;
    while i < |paragraphs|
      invariant 0 <= i <= |paragraphs|
      invariant blocks == LinesRun(paragraphs[..i]) && blockKey == |blocks|
    {
      LinesRunStep(paragraphs, i);
      var block := LineToBlock(paragraphs[i], blockKey);
      if block.Some? {
        blocks := blocks + [block.value];
        blockKey := blockKey + 1;
      }
      i := i + 1;
    }
    assert paragraphs[..i] == paragraphs;
    if blocks == [] {
      blocks := [FallbackBlock(htmlContent)];
    }
  }

  // ---------------------------------------------------------------------------------------
  // What the converter promises
  // ---------------------------------------------------------------------------------------

  /**
   * A block as this converter makes it: style `normal` or a heading style, no list item, no
   * mark definitions, and one unmarked span whose text is visible, trimmed and tag-free.
   */
  predicate Shaped(b: Block) {
    && (b.style == "normal" || HeadingStyle(b.style))
    && b.listItem.None? && b.markDefs == []
    && |b.children| == 1 && b.children[0].Span? && b.children[0].marks == []
    && b.children[0].text != [] && IsTrimmed(b.children[0].text) && NoTag(b.children[0].text)
  }

  /** Block `i` of `bs` is shaped and carries key `block-i`. */
  predicate ShapedRun(bs: seq<Block>) {
    forall i :: 0 <= i < |bs| ==> bs[i].key == BlockKey(i) && Shaped(bs[i])
  }

  lemma ShapedRunSnoc(bs: seq<Block>, c: Content)
    requires ShapedRun(bs) && GoodContent(c)
    ensures ShapedRun(bs + [ContentBlock(|bs|, c)])
  {
  }

  /** The loop's blocks are shaped, keyed `block-0`, `block-1`, ... and at most one per line. */
  lemma {:induction false} LinesRunFacts(lines: seq<string>)
    ensures |LinesRun(lines)| <= |lines| && ShapedRun(LinesRun(lines))
    decreases |lines|
  {
    if lines != [] {
      var n := |lines|;
      LinesRunFacts(lines[..n - 1]);
      var bs := LinesRun(lines[..n - 1]);
      var c := LineContent(lines[n - 1]);
      assert LinesRun(lines) == Push(bs, c);
      if c.Some? {
        ShapedRunSnoc(bs, c.value);
      }
    }
  }

  /**
   * The converter never returns an empty list. If no line gives a block, the result is the
   * single `default-block` holding the tag-stripped, trimmed input or `No content`; otherwise
   * it is the lines' blocks keyed consecutively. Either way every block is shaped.
   */
  lemma HtmlToBlocksFacts(html: string)
    ensures var r := HtmlToBlocks(html);
      && r != []
      && (forall i :: 0 <= i < |r| ==> Shaped(r[i]))
      && (LinesRun(Lines(html)) == [] ==>
            && r == [FallbackBlock(html)] && r[0].key == "default-block"
            && r[0].children[0].text
               == (if IsBlank(StripTags(html)) then NoContent else Trim(StripTags(html))))
      && (LinesRun(Lines(html)) != [] ==>
            forall i :: 0 <= i < |r| ==> r[i].key == BlockKey(i))
  {
    LinesRunFacts(Lines(html));
  }

  /** Text without `<` passes the marker pass unchanged and is cut at its line feeds. */
  lemma PlainLines(html: string)
    requires '<' !in html
    ensures Lines(html) == NonBlank(SplitLines(html))
  {
  }

  // ---------------------------------------------------------------------------------------
  // Categories
  // ---------------------------------------------------------------------------------------

  /** An entry of `categoryMap`. */
  datatype CategoryEntry = CategoryEntry(id: string, title: string, slug: string, description: string)

  /** The fixed map from WordPress category ids. */
  const CategoryMap: map<nat, CategoryEntry> := map[
    1 := CategoryEntry("category-1", "Mental Health", "mental-health",
                       "Articles about mental health awareness and advocacy"),
    35 := CategoryEntry("category-35", "Lifestyle", "lifestyle",
                        "Lifestyle articles related to mental wellbeing"),
    47 := CategoryEntry("category-47", "Advocacy", "advocacy",
                        "Mental health advocacy and awareness campaigns"),
    29 := CategoryEntry("category-29", "Health & Wellness", "health-wellness",
                        "Health and wellness articles")
  ]

  /** `Object.values` visits integer keys in ascending order. */
  const CategoryOrder: seq<nat> := [1, 29, 35, 47]

  lemma CategoryOrderFacts()
    ensures forall i, j :: 0 <= i < j < |CategoryOrder| ==> CategoryOrder[i] < CategoryOrder[j]
    ensures forall k :: k in CategoryMap <==> k in CategoryOrder
    ensures |CategoryOrder| == |CategoryMap|
  {
    assert CategoryMap.Keys == {1, 29, 35, 47};
  }

  /** A category document (`_type: "category"`, `slug: { _type: "slug", current }`). */
  datatype CategoryDoc = CategoryDoc(id: string, title: string, slug: string, description: string)

  datatype CategorySetup = CategorySetup(categories: seq<CategoryDoc>, categoryMap: map<nat, CategoryEntry>)

  function CategoryDocOf(e: CategoryEntry): CategoryDoc {
    CategoryDoc(e.id, e.title, e.slug, e.description)
  }

  /** `createCategoryDocuments()`. */
  function CreateCategoryDocuments(): CategorySetup {
    CategorySetup(seq(|CategoryOrder|, i requires 0 <= i < |CategoryOrder| =>
                        CategoryDocOf(CategoryMap[CategoryOrder[i]])), CategoryMap)
  }

  /** Every entry's id is `category-` followed by its WordPress id. */
  lemma CategoryIds()
    ensures forall k :: k in CategoryMap ==> CategoryMap[k].id == "category-" + NatToString(k)
  {
    assert NatToString(1) == "1";
    assert NatToString(29) == NatToString(2) + [Digit(9)] == "29";
    assert NatToString(35) == NatToString(3) + [Digit(5)] == "35";
    assert NatToString(47) == NatToString(4) + [Digit(7)] == "47";
    assert CategoryMap.Keys == {1, 29, 35, 47};
  }

  /** One document per map entry, in ascending id order, with the entry's id and slug. */
  lemma CategoryDocumentsFacts()
    ensures var s := CreateCategoryDocuments();
      && s.categoryMap == CategoryMap
      && |s.categories| == |CategoryMap|
      && (forall i :: 0 <= i < |s.categories| ==>
            && CategoryOrder[i] in CategoryMap
            && s.categories[i].id == CategoryMap[CategoryOrder[i]].id
            && s.categories[i].slug == CategoryMap[CategoryOrder[i]].slug)
      && (forall k :: k in CategoryMap ==>
            exists i :: 0 <= i < |s.categories| && s.categories[i].id == CategoryMap[k].id)
  {
    CategoryOrderFacts();
    var s := CreateCategoryDocuments();
    forall k | k in CategoryMap
      ensures exists i :: 0 <= i < |s.categories| && s.categories[i].id == CategoryMap[k].id
    {
      DocumentFor(k);
    }
  }

  /** The document for a map entry sits at the entry's place in the key order. */
  lemma DocumentFor(k: nat)
    requires k in CategoryMap
    ensures exists i :: 0 <= i < |CategoryOrder| && CategoryOrder[i] == k &&
                        CreateCategoryDocuments().categories[i].id == CategoryMap[k].id
  {
    var cs := CreateCategoryDocuments().categories;
    assert CategoryMap.Keys == {1, 29, 35, 47};
    if k == 1 {
      assert CategoryOrder[0] == k && cs[0].id == CategoryMap[k].id;
    } else if k == 29 {
      assert CategoryOrder[1] == k && cs[1].id == CategoryMap[k].id;
    } else if k == 35 {
      assert CategoryOrder[2] == k && cs[2].id == CategoryMap[k].id;
    } else {
      assert CategoryOrder[3] == k && cs[3].id == CategoryMap[k].id;
    }
  }

  /** A reference document (`_type: "reference"`). */
  datatype Reference = Reference(ref: string)

  /** The reference for one id: the map entry's id, or a generic `category-<id>`. */
  function ReferenceFor(catId: nat, categoryMap: map<nat, CategoryEntry>): Reference {
    if catId in categoryMap then Reference(categoryMap[catId].id)
    else Reference("category-" + NatToString(catId))
  }

  /** `getCategoryReferences(wpCategories, categoryMap)`; `None` stands for a missing list. */
  function GetCategoryReferences(wpCategories: Option<seq<nat>>, categoryMap: map<nat, CategoryEntry>)
    : (refs: seq<Reference>)
    ensures wpCategories.None? ==> refs == []
    ensures wpCategories.Some? ==> |refs| == |wpCategories.value|
    ensures wpCategories.Some? ==>
      forall i :: 0 <= i < |refs| ==> refs[i] == ReferenceFor(wpCategories.value[i], categoryMap)
  {
    if wpCategories.None? || wpCategories.value == [] then []
    else
      var ids := wpCategories.value;
      seq(|ids|, i requires 0 <= i < |ids| => ReferenceFor(ids[i], categoryMap))
  }

  /** With the fixed map, every id, known or not, becomes the reference `category-<id>`. */
  lemma ReferencesWithCategoryMap(wpCategories: seq<nat>)
    ensures var refs := GetCategoryReferences(Some(wpCategories), CategoryMap);
      && |refs| == |wpCategories|
      && forall i :: 0 <= i < |refs| ==> refs[i].ref == "category-" + NatToString(wpCategories[i])
  {
    CategoryIds();
  }
}
