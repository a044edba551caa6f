/**
 * The block converter (`convertHtmlToPortableText` of the content-formatting fix): after the
 * clean-up pass, the HTML is split before every block-opening tag, blank fragments are
 * dropped, and each remaining fragment, trimmed and numbered from 1, becomes a header block,
 * one block per list item, a paragraph block or an untagged-text block, or nothing.
 */
module HtmlBlocks {
  import opened Wrappers
  import opened Text
  import opened Blocks
  import opened HtmlCleanup
  import opened InlineMarks

  /** `createEmptyBlock()`. */
  const EmptyBlock: Block :=
    Block("empty-block", "normal", None, [], [Span("empty-span", "", [])])

  // ---------------------------------------------------------------------------------------
  // Splitting before block-opening tags (case-sensitive lookaheads)
  // ---------------------------------------------------------------------------------------

  /** `(?=name[^>]*>)`: `t` starts with `name` and a `>` follows. */
  predicate OpensWith(t: string, name: string) {
    name <= t && '>' in t[|name|..]
  }

  /** One of the six lookaheads of the block split holds at the head of `t`. */
  predicate BlockOpens(t: string) {
    (|t| >= 3 && t[0] == '<' && t[1] == 'h' && '1' <= t[2] <= '6' && '>' in t[3..])
    || OpensWith(t, "<p") || OpensWith(t, "<ul") || OpensWith(t, "<ol")
    || OpensWith(t, "<blockquote") || OpensWith(t, "<pre")
  }

  /** The first position at or after `q` where a block opens, or `|s|`. */
  function NextBlockStart(s: string, q: nat): (r: nat)
    requires q <= |s|
    ensures q <= r <= |s|
    ensures r < |s| ==> BlockOpens(s[r..]) && s[r] == '<'
    ensures forall k :: q <= k < r ==> !BlockOpens(s[k..])
    decreases |s| - q
  {
    if q == |s| then q
    else if BlockOpens(s[q..]) then
      BlockOpensWithBracket(s[q..]);
      q
    else NextBlockStart(s, q + 1)
  }

  /** Every block opener starts with `<`. */
  lemma BlockOpensWithBracket(t: string)
    requires BlockOpens(t)
    ensures t != [] && t[0] == '<'
  {
  }

  /**
   * `split` with a pattern that only looks ahead: the text is cut before every position other
   * than 0 where a block opens; nothing is lost, and every piece but the first starts with `<`.
   */
  function SplitFragments(s: string): (frags: seq<string>)
    ensures frags != [] && Concat(frags) == s
    ensures forall i :: 1 <= i < |frags| ==> frags[i] != [] && frags[i][0] == '<'
    ensures s != [] ==> frags[0] != [] && frags[0][0] == s[0]
    decreases |s|
  {
    var q := if s == [] then 0 else NextBlockStart(s, 1);
    if q == |s| || q == 0 then
      assert Concat([s]) == Concat([]) + s;
      [s]
    else
      var rest := SplitFragments(s[q..]);
      CutFront(s, q, rest);
      [s[..q]] + rest
  }

  /** Cutting a block-opening suffix off `s` and splitting it keeps the split's properties. */
  lemma CutFront(s: string, q: nat, rest: seq<string>)
    requires 0 < q < |s| && s[q] == '<'
    requires rest != [] && Concat(rest) == s[q..] && rest[0] != [] && rest[0][0] == s[q]
    requires forall i :: 1 <= i < |rest| ==> rest[i] != [] && rest[i][0] == '<'
    ensures var frags := [s[..q]] + rest;
      Concat(frags) == s && forall i :: 1 <= i < |frags| ==> frags[i] != [] && frags[i][0] == '<'
  {
    ConcatFront(s[..q], rest);
    assert s == s[..q] + s[q..];
    var frags := [s[..q]] + rest;
    assert forall i :: 1 <= i < |frags| ==> frags[i] == rest[i - 1];
  }

  /** The fragments the loop runs over. */
  function Fragments(html: string): seq<string> {
    NonBlank(SplitFragments(Clean(html)))
  }

  // ---------------------------------------------------------------------------------------
  // Recognising a fragment
  // ---------------------------------------------------------------------------------------

  /** `<\/h[1-6]>` with the `i` flag at the head of `t`. */
  predicate HeaderCloseAt(t: string) {
    |t| >= 5 && StartsWithIgnoreCase(t, "</h") && '1' <= t[3] <= '6' && t[4] == '>'
  }

  /** The first position where `<\/h[1-6]>` matches, or -1. */
  function FirstHeaderClose(t: string): (r: int)
    ensures -1 <= r && (r >= 0 ==> r + 5 <= |t| && HeaderCloseAt(t[r..]))
    ensures r >= 0 ==> forall k :: 0 <= k < r ==> !HeaderCloseAt(t[k..])
    ensures r == -1 ==> forall k :: 0 <= k <= |t| ==> !HeaderCloseAt(t[k..])
    decreases |t|
  {
    if HeaderCloseAt(t) then 0
    else if t == [] then -1
    else
      var r := FirstHeaderClose(t[1..]);
      assert forall k :: 1 <= k <= |t| ==> t[k..] == t[1..][k - 1..];
      if r == -1 then -1 else r + 1
  }

  datatype Header = Header(level: char, inner: string)

  /**
   * `^<h([1-6])[^>]*>(.*?)<\/h[1-6]>` with the `i` and `s` flags: the level digit and the text
   * up to the first closing header tag of any level.
   */
  function HeaderMatch(t: string): (r: Option<Header>)
    ensures r.Some? ==> '1' <= r.value.level <= '6' && |t| >= 3 && t[2] == r.value.level
  {
    if |t| >= 3 && t[0] == '<' && Lower(t[1]) == 'h' && '1' <= t[2] <= '6' && '>' in t[3..] then
      var j := 3 + FirstIndex(t[3..], '>');
      var c := FirstHeaderClose(t[j + 1..]);
      if c == -1 then None else Some(Header(t[2], t[j + 1..j + 1 + c]))
    else None
  }

  /** `^<name[^>]*>(.*?)<\/name>` with the `i` and `s` flags: the element's inner text. */
  function ElementMatch(t: string, name: string): (r: Option<string>)
    ensures r.Some? ==> StartsWithIgnoreCase(t, "<" + name) && |r.value| < |t|
  {
    var open := "<" + name;
    if StartsWithIgnoreCase(t, open) && '>' in t[|open|..] then
      var j := |open| + FirstIndex(t[|open|..], '>');
      var c := IndexOfIgnoreCase(t[j + 1..], "</" + name + ">");
      if c == -1 then None else Some(t[j + 1..j + 1 + c])
    else None
  }

  /** The paragraph test: a `<p>`, else a `<div>`, else a `<blockquote>` element. */
  function ParagraphMatch(t: string): Option<string> {
    var p := ElementMatch(t, "p");
    if p.Some? then p
    else
      var d := ElementMatch(t, "div");
      if d.Some? then d else ElementMatch(t, "blockquote")
  }

  /** Length of a match of `<li[^>]*>(.*?)<\/li>` (`i`, `s`) at the head of `u`, 0 if none. */
  function ListItemLen(u: string): (n: nat)
    ensures n == 0 || (9 <= n <= |u| && StartsWithIgnoreCase(u, "<li"))
  {
    if StartsWithIgnoreCase(u, "<li") && '>' in u[3..] then
      var j := 3 + FirstIndex(u[3..], '>');
      var c := IndexOfIgnoreCase(u[j + 1..], "</li>");
      if c == -1 then 0 else j + 1 + c + 5
    else 0
  }

  /** `u.match(/<li[^>]*>(.*?)<\/li>/gis)`, with no match as the empty list. */
  function ListItems(u: string): seq<string>
    decreases |u|
  {
    if u == [] then []
    else
      var n := ListItemLen(u);
      if n > 0 then [u[..n]] + ListItems(u[n..])
      else ListItems(u[1..])
  }

  /**
   * What `<li[^>]*>(.*?)<\/li>` matches: `<li` up to case, the opening tag up to its first
   * `>`, and the element content, which the first `</li>` (up to case) after that `>` closes at
   * the very end.
   */
  predicate IsListItem(x: string) {
    && |x| >= 9 && StartsWithIgnoreCase(x, "<li") && '>' in x[3..]
    && var j := 3 + FirstIndex(x[3..], '>');
       j + 6 <= |x| && IndexOfIgnoreCase(x[j + 1..], "</li>") == |x| - j - 6
  }

  /**
   * The item found at the head is the one whole element there: a prefix of `u` is a list item
   * exactly when it is as long as the lazy match.
   */
  lemma ListItemMatch(u: string, m: nat)
    requires m <= |u|
    ensures IsListItem(u[..m]) <==> m > 0 && m == ListItemLen(u)
  {
    if IsListItem(u[..m]) {
      MatchOfListItem(u, m);
    }
    if m > 0 && m == ListItemLen(u) {
      ListItemAtHead(u);
    }
  }

  /** A match at the head is a list item. */
  lemma ListItemAtHead(u: string)
    requires ListItemLen(u) > 0
    ensures IsListItem(u[..ListItemLen(u)])
  {
    var m := ListItemLen(u);
    StartsWithPrefix(u, m, "<li");
    var j := 3 + FirstIndex(u[3..], '>');
    OpenTagCut(u, m, j - 3);
    CloseTagCut(u, m, j, m - j - 6);
  }

  /** A list item at the head is the match. */
  lemma MatchOfListItem(u: string, m: nat)
    requires m <= |u| && IsListItem(u[..m])
    ensures m == ListItemLen(u)
  {
    var x := u[..m];
    assert x[..3] == u[..3];
    var j := 3 + FirstIndex(x[3..], '>');
    OpenTagCut(u, m, j - 3);
    CloseTagCut(u, m, j, m - j - 6);
  }

  /** The end of the opening tag is found the same way in `u` and in a prefix that holds it. */
  lemma OpenTagCut(u: string, m: nat, k: nat)
    requires 3 + k < m <= |u|
    ensures ('>' in u[3..] && FirstIndex(u[3..], '>') == k)
        <==> ('>' in u[..m][3..] && FirstIndex(u[..m][3..], '>') == k)
  {
    assert u[..m][3..] == u[3..][..m - 3];
    FirstIndexCut(u[3..], m - 3, '>', k);
  }

  /** So is the first closing `</li>` after it. */
  lemma CloseTagCut(u: string, m: nat, j: nat, c: nat)
    requires j + 1 + c + 5 <= m <= |u|
    ensures IndexOfIgnoreCase(u[j + 1..], "</li>") == c
        <==> IndexOfIgnoreCase(u[..m][j + 1..], "</li>") == c
  {
    assert u[..m][j + 1..] == u[j + 1..][..m - j - 1];
    IndexOfIgnoreCaseCut(u[j + 1..], m - j - 1, "</li>", c);
  }

  /** Every item found is a whole `<li ...>...</li>` element. */
  lemma {:induction false} ListItemsShape(u: string)
    ensures var items := ListItems(u);
      forall i :: 0 <= i < |items| ==> IsListItem(items[i])
    decreases |u|
  {
    if u != [] {
      var n := ListItemLen(u);
      if n > 0 {
        var item, rest := u[..n], u[n..];
        ListItemAtHead(u);
        ListItemsShape(rest);
        assert forall i :: 0 <= i < |ListItems(rest)| ==> IsListItem(ListItems(rest)[i]);
        AllConsListItem(item, ListItems(rest));
        assert ListItems(u) == [item] + ListItems(rest);
      } else {
        var rest := u[1..];
        ListItemsShape(rest);
        assert forall i :: 0 <= i < |ListItems(rest)| ==> IsListItem(ListItems(rest)[i]);
        assert ListItems(u) == ListItems(rest);
      }
    }
  }

  lemma AllConsListItem(item: string, rest: seq<string>)
    requires IsListItem(item) && forall i :: 0 <= i < |rest| ==> IsListItem(rest[i])
    ensures var items := [item] + rest; forall i :: 0 <= i < |items| ==> IsListItem(items[i])
  {
    var items := [item] + rest;
    forall i | 0 <= i < |items|
      ensures IsListItem(items[i])
    {
      if i == 0 {
        assert items[0] == item;
      } else {
        assert items[i] == rest[i - 1];
      }
    }
  }

  lemma StartsWithPrefix(u: string, n: nat, p: string)
    requires StartsWithIgnoreCase(u, p) && |p| <= n <= |u|
    ensures StartsWithIgnoreCase(u[..n], p)
  {
    assert u[..n][..|p|] == u[..|p|];
  }

  /** Length of a match of `<\/?li[^>]*>` (`i`) at the head of `s`, 0 if none. */
  function LiTagLen(s: string): (n: nat)
    ensures n <= |s| && (n > 0 ==> s[0] == '<')
  {
    if s != [] && s[0] == '<' then
      var j := if |s| >= 2 && s[1] == '/' then 2 else 1;
      if StartsWithIgnoreCase(s[j..], "li") && '>' in s[j + 2..] then
        j + 2 + FirstIndex(s[j + 2..], '>') + 1
      else 0
    else 0
  }

  /** `item.replace(/<\/?li[^>]*>/gi, "")`. */
  function RemoveLiTags(s: string): string
    decreases |s|
  {
    if s == [] then []
    else
      var n := LiTagLen(s);
      if n > 0 then RemoveLiTags(s[n..]) else [s[0]] + RemoveLiTags(s[1..])
  }

  /** Removing the tags adds no character, and leaves a string without `<` as it is. */
  lemma {:induction false} RemoveLiTagsFacts(s: string)
    ensures var r := RemoveLiTags(s);
      (forall c :: c in r ==> c in s) && ('<' !in s ==> r == s)
    decreases |s|
  {
    if s != [] {
      var n := LiTagLen(s);
      if n > 0 {
        var rest := s[n..];
        RemoveLiTagsFacts(rest);
        assert RemoveLiTags(s) == RemoveLiTags(rest);
        assert forall c :: c in rest ==> c in s;
      } else {
        var rest := s[1..];
        RemoveLiTagsFacts(rest);
        assert RemoveLiTags(s) == [s[0]] + RemoveLiTags(rest);
        assert s == [s[0]] + rest;
      }
    }
  }

  // ---------------------------------------------------------------------------------------
  // The blocks of one fragment
  // ---------------------------------------------------------------------------------------

  function HeaderBlock(n: nat, h: Header): Block {
    Block("header-" + NatToString(n), "h" + [h.level], None, [],
          [Span("header-span-" + NatToString(n), Trim(StripTags(h.inner)), [])])
  }

  /** The key `list-{blockKey}-{index}`. */
  function ListKey(n: nat, i: nat): string {
    "list-" + NatToString(n) + "-" + NatToString(i)
  }

  function BlockKey(n: nat): string {
    "block-" + NatToString(n)
  }

  function ListItemBlock(item: string, n: nat, i: nat, kind: ListKind): Block {
    Block(ListKey(n, i), "normal", Some(ListItem(kind, 1)), [], InlineSpans(RemoveLiTags(item), n + i))
  }

  /** `xs.map((x, i) => f(x, i))`, built from the front. */
  function MapIndexed<T, U>(xs: seq<T>, f: (T, nat) -> U): (ys: seq<U>)
    ensures |ys| == |xs|
  {
    if xs == [] then [] else MapIndexed(xs[..|xs| - 1], f) + [f(xs[|xs| - 1], |xs| - 1)]
  }

  /** Element `i` of the map is `f` applied to element `i` and to `i`. */
  lemma {:induction false} MapIndexedAt<T, U>(xs: seq<T>, f: (T, nat) -> U)
    ensures forall i :: 0 <= i < |xs| ==> MapIndexed(xs, f)[i] == f(xs[i], i)
    decreases |xs|
  {
    if xs != [] {
      var front := xs[..|xs| - 1];
      MapIndexedAt(front, f);
      assert forall i :: 0 <= i < |front| ==> xs[i] == front[i];
    }
  }

  /** One block per list item, in order; item `i` scans its content with block key `n + i`. */
  function ListBlocks(items: seq<string>, n: nat, kind: ListKind): (bs: seq<Block>)
    ensures |bs| == |items|
  {
    MapIndexed(items, (item, i) => ListItemBlock(item, n, i, kind))
  }

  /** `children.some(child => child.text?.trim())`. */
  predicate HasVisibleText(children: seq<Child>) {
    exists i :: 0 <= i < |children| && !IsBlank(TextOf(children[i]))
  }

  /** The blocks the loop body pushes for the trimmed fragment `t` with block key `n`. */
  function FragmentBlocks(t: string, n: nat): seq<Block> {
    match HeaderMatch(t)
    case Some(h) => [HeaderBlock(n, h)]
    case None =>
      var ul := ElementMatch(t, "ul");
      if ul.Some? then ListBlocks(ListItems(ul.value), n, Bullet)
      else
        var ol := ElementMatch(t, "ol");
        if ol.Some? then ListBlocks(ListItems(ol.value), n, Number)
        else
          match ParagraphMatch(t)
          case Some(c) =>
            var children := InlineSpans(c, n);
            if HasVisibleText(children) then [Block(BlockKey(n), "normal", None, [], children)] else []
          case None =>
            var text := Trim(StripTags(t));
            if text != [] then [Block(BlockKey(n), "normal", None, [], [Span(SpanKey(n, 0), text, [])])]
            else []
  }

  /** The blocks pushed for the fragments of `frags`, numbered from 1. */
  function BlocksFrom(frags: seq<string>): seq<Block> {
    if frags == [] then []
    else BlocksFrom(frags[..|frags| - 1]) + FragmentBlocks(Trim(frags[|frags| - 1]), |frags|)
  }

  /** What `convertHtmlToPortableText(html)` returns; `None` is a missing argument. */
  function ConvertSpec(html: Option<string>): seq<Block> {
    if html.None? || IsBlank(html.value) then [EmptyBlock]
    else
      var blocks := BlocksFrom(Fragments(html.value));
      if blocks == [] then [EmptyBlock] else blocks
  }

  // ---------------------------------------------------------------------------------------
  // The converter as a loop
  // ---------------------------------------------------------------------------------------

  /** The `forEach` over the list items of one list fragment. */
  method PushListItems(items: seq<string>, blockKey: nat, kind: ListKind) returns (bs: seq<Block>)
    ensures bs == ListBlocks(items, blockKey, kind)
  {
    bs := [];
    for index := 0 to |items|
      invariant bs == ListBlocks(items[..index], blockKey, kind)
    {
      ListBlocksSnoc(items, index, blockKey, kind);
      var block := ListItemToBlock(items[index], blockKey, index, kind);
      bs := bs + [block];
    }
    assert items[..|items|] == items;
  }

  /** One more item adds its block at the end. */
  lemma ListBlocksSnoc(items: seq<string>, index: nat, n: nat, kind: ListKind)
    requires index < |items|
    ensures ListBlocks(items[..index + 1], n, kind)
         == ListBlocks(items[..index], n, kind) + [ListItemBlock(items[index], n, index, kind)]
  {
    assert items[..index + 1][..index] == items[..index];
  }

  /** The body of the list-item `forEach`: the block for item `index`. */
  method ListItemToBlock(item: string, blockKey: nat, index: nat, kind: ListKind) returns (block: Block)
    ensures block == ListItemBlock(item, blockKey, index, kind)
  {
    var content := RemoveLiTags(item);
    var children := ParseInlineElements(content, blockKey + index);
    block := Block(ListKey(blockKey, index), "normal", Some(ListItem(kind, 1)), [], children);
    ListItemBlockOf(item, blockKey, index, kind, children);
  }

  lemma ListItemBlockOf(item: string, n: nat, i: nat, kind: ListKind, children: seq<Child>)
    requires children == InlineSpans(RemoveLiTags(item), n + i)
    ensures ListItemBlock(item, n, i, kind)
         == Block(ListKey(n, i), "normal", Some(ListItem(kind, 1)), [], children)
  {
  }

  /** The loop body for one trimmed fragment with block key `blockKey`. */
  method FragmentToBlocks(trimmedBlock: string, blockKey: nat) returns (bs: seq<Block>)
    ensures bs == FragmentBlocks(trimmedBlock, blockKey)
  {
    bs := [];
    var headerMatch := HeaderMatch(trimmedBlock);
    if headerMatch.Some? {
      return [HeaderBlock(blockKey, headerMatch.value)];
    }
    var ulMatch := ElementMatch(trimmedBlock, "ul");
    if ulMatch.Some? {
      bs := PushListItems(ListItems(ulMatch.value), blockKey, Bullet);
      return;
    }
    var olMatch := ElementMatch(trimmedBlock, "ol");
    if olMatch.Some? {
      bs := PushListItems(ListItems(olMatch.value), blockKey, Number);
      return;
    }
    var paragraphMatch := ParagraphMatch(trimmedBlock);
    if paragraphMatch.Some? {
      var children := ParseInlineElements(paragraphMatch.value, blockKey);
      if |children| > 0 && HasVisibleText(children) {
        bs := [Block(BlockKey(blockKey), "normal", None, [], children)];
      }
    } else {
      var textContent := Trim(StripTags(trimmedBlock));
      if textContent != [] {
        bs := [Block(BlockKey(blockKey), "normal", None, [], [Span(SpanKey(blockKey, 0), textContent, [])])];
      }
    }
  }

  /** The `forEach` over the fragments, numbering them from 1. */
  method PushFragments(htmlBlocks: seq<string>) returns (blocks: seq<Block>)
    ensures blocks == BlocksFrom(htmlBlocks)
  {
    blocks := [];
    var blockKey := 0;
    for i := 0 to |htmlBlocks|
      invariant blockKey == i
      invariant blocks == BlocksFrom(htmlBlocks[..i])
    {
      assert htmlBlocks[..i + 1][..i] == htmlBlocks[..i];
      var trimmedBlock := Trim(htmlBlocks[i]);
      blockKey := blockKey + 1;
      var pushed := FragmentToBlocks(trimmedBlock, blockKey);
      blocks := blocks + pushed;
    }
    assert htmlBlocks[..|htmlBlocks|] == htmlBlocks;
  }

  method ConvertHtmlToPortableText(html: Option<string>) returns (blocks: seq<Block>)
    ensures blocks == ConvertSpec(html)
    ensures |blocks| >= 1
  {
    if html.None? || IsBlank(html.value) {
      return [EmptyBlock];
    }
    var cleanHtml := Clean(html.value);
    var htmlBlocks := NonBlank(SplitFragments(cleanHtml));
    assert htmlBlocks == Fragments(html.value);
    blocks := PushFragments(htmlBlocks);
    if blocks == [] {
      blocks := [EmptyBlock];
    }
  }

  // ---------------------------------------------------------------------------------------
  // Properties of the converter
  // ---------------------------------------------------------------------------------------

  /** What every block the converter emits looks like: no link definitions, at least one span. */
  predicate BlockShaped(b: Block) {
    && b.markDefs == []
    && |b.children| >= 1
    && (forall i :: 0 <= i < |b.children| ==> b.children[i].Span?)
    && b.key != EmptyBlock.key
  }

  /** A key whose first character is not `e` is not the fallback block's key. */
  lemma NotEmptyBlockKey(prefix: string, rest: string)
    requires prefix != [] && prefix[0] != 'e'
    ensures prefix + rest != EmptyBlock.key
  {
    assert (prefix + rest)[0] == prefix[0];
  }

  /** The scan of any inline content yields at least one span and nothing but spans. */
  lemma InlineSpansShape(content: string, blockKey: nat)
    ensures var r := InlineSpans(content, blockKey);
      |r| >= 1 && forall i :: 0 <= i < |r| ==> r[i].Span? && MarkSet(r[i].marks)
  {
    ScanShape(SplitInline(content), blockKey);
  }

  lemma SpansOnly(content: string, blockKey: nat)
    ensures var r := InlineSpans(content, blockKey);
      |r| >= 1 && forall i :: 0 <= i < |r| ==> r[i].Span?
  {
    InlineSpansShape(content, blockKey);
  }

  /** Item `i` of a list fragment becomes block `i`. */
  lemma ListBlocksAt(items: seq<string>, n: nat, kind: ListKind)
    ensures var bs := ListBlocks(items, n, kind);
      forall i :: 0 <= i < |items| ==> bs[i] == ListItemBlock(items[i], n, i, kind)
  {
    MapIndexedAt(items, (item, i) => ListItemBlock(item, n, i, kind));
  }

  lemma ListItemBlockShape(item: string, n: nat, i: nat, kind: ListKind)
    ensures BlockShaped(ListItemBlock(item, n, i, kind))
  {
    ListKeyHead(n, i);
    ShapedSpans(ListKey(n, i), Some(ListItem(kind, 1)), RemoveLiTags(item), n + i);
  }

  /** A block whose children are the inline scan of some content is shaped if its key is. */
  lemma ShapedSpans(key: string, listItem: Option<ListItem>, content: string, blockKey: nat)
    requires key != [] && key[0] != 'e'
    ensures BlockShaped(Block(key, "normal", listItem, [], InlineSpans(content, blockKey)))
  {
    SpansOnly(content, blockKey);
    ShapedBlock(key, listItem, InlineSpans(content, blockKey));
  }

  /** A block with no mark definitions, a key not starting with `e` and only spans is shaped. */
  lemma ShapedBlock(key: string, listItem: Option<ListItem>, children: seq<Child>)
    requires key != [] && key[0] != 'e'
    requires |children| >= 1 && forall i :: 0 <= i < |children| ==> children[i].Span?
    ensures BlockShaped(Block(key, "normal", listItem, [], children))
  {
    assert EmptyBlock.key[0] == 'e';
  }

  /** A list item's key starts with `l`. */
  lemma ListKeyHead(n: nat, i: nat)
    ensures |ListKey(n, i)| > 0 && ListKey(n, i)[0] == 'l'
  {
    var a := "list-" + NatToString(n);
    assert a[0] == 'l';
    var b := a + "-";
    assert b[0] == 'l';
    assert ListKey(n, i) == b + NatToString(i);
    assert (b + NatToString(i))[0] == 'l';
  }

  lemma ListBlocksShape(items: seq<string>, n: nat, kind: ListKind)
    ensures forall b :: b in ListBlocks(items, n, kind) ==> BlockShaped(b)
  {
    var bs := ListBlocks(items, n, kind);
    ListBlocksAt(items, n, kind);
    forall i | 0 <= i < |bs|
      ensures BlockShaped(bs[i])
    {
      ListItemBlockShape(items[i], n, i, kind);
    }
  }

  lemma FragmentBlocksShape(t: string, n: nat)
    ensures forall b :: b in FragmentBlocks(t, n) ==> BlockShaped(b)
  {
    var header := HeaderMatch(t);
    var ul := ElementMatch(t, "ul");
    var ol := ElementMatch(t, "ol");
    if header.Some? {
      HeaderBlockShape(n, header.value);
    } else if ul.Some? {
      ListBlocksShape(ListItems(ul.value), n, Bullet);
    } else if ol.Some? {
      ListBlocksShape(ListItems(ol.value), n, Number);
    } else {
      NotEmptyBlockKey("block-", NatToString(n));
      match ParagraphMatch(t)
      case Some(c) => ShapedSpans(BlockKey(n), None, c, n);
      case None =>
    }
  }

  lemma HeaderBlockShape(n: nat, h: Header)
    ensures BlockShaped(HeaderBlock(n, h))
  {
    NotEmptyBlockKey("header-", NatToString(n));
  }

  lemma {:induction false} BlocksFromShape(frags: seq<string>)
    ensures forall b :: b in BlocksFrom(frags) ==> BlockShaped(b)
    decreases |frags|
  {
    if frags != [] {
      BlocksFromShape(frags[..|frags| - 1]);
      FragmentBlocksShape(Trim(frags[|frags| - 1]), |frags|);
    }
  }

  /**
   * The converter returns the single fallback block exactly when its argument is missing or
   * blank, or when no fragment yields a block.
   */
  lemma ConvertFallback(html: Option<string>)
    ensures ConvertSpec(html) == [EmptyBlock] <==>
      html.None? || IsBlank(html.value) || BlocksFrom(Fragments(html.value)) == []
  {
    if html.Some? && !IsBlank(html.value) {
      var bs := BlocksFrom(Fragments(html.value));
      BlocksFromShape(Fragments(html.value));
      if bs != [] {
        assert bs[0] in bs;
      }
    }
  }

  /**
   * The converter never returns an empty list, and every block it returns has no link
   * definitions and at least one child, all of them spans.
   */
  lemma ConvertShape(html: Option<string>)
    ensures forall b :: b in ConvertSpec(html) ==>
      b.markDefs == [] && |b.children| >= 1 && forall j :: 0 <= j < |b.children| ==> b.children[j].Span?
  {
    var r := ConvertSpec(html);
    if html.Some? && !IsBlank(html.value) {
      var frags := Fragments(html.value);
      BlocksFromShape(frags);
      var bs := BlocksFrom(frags);
      assert r == if bs == [] then [EmptyBlock] else bs;
      ShapedOrFallback(r, bs);
    } else {
      ShapedOrFallback(r, []);
    }
  }

  /** Shaped blocks, or the fallback block in their place when there are none. */
  lemma ShapedOrFallback(r: seq<Block>, bs: seq<Block>)
    requires forall b :: b in bs ==> BlockShaped(b)
    requires r == if bs == [] then [EmptyBlock] else bs
    ensures forall b :: b in r ==>
      b.markDefs == [] && |b.children| >= 1 && forall j :: 0 <= j < |b.children| ==> b.children[j].Span?
  {
  }

  /** The first closing header tag of `u` is the one at `m` when nothing before `m` is one. */
  lemma FirstHeaderCloseAt(u: string, m: nat)
    requires m <= |u| && HeaderCloseAt(u[m..])
    requires forall k :: 0 <= k < m ==> !HeaderCloseAt(u[k..])
    ensures FirstHeaderClose(u) == m
  {
  }

  /**
   * A fragment opening with `<h{d}`: the first `>` at `j` ends the opening tag, and the text runs
   * up to the first closing header tag of any level, which starts `m` characters after it.
   */
  lemma HeaderMatchOf(t: string, j: nat, m: nat)
    requires |t| >= 3 && t[0] == '<' && t[1] == 'h' && '1' <= t[2] <= '6'
    requires 3 <= j < |t| && t[j] == '>' && '>' !in t[3..j]
    requires j + 1 + m <= |t| && HeaderCloseAt(t[j + 1 + m..])
    requires forall k :: j + 1 <= k < j + 1 + m ==> !HeaderCloseAt(t[k..])
    ensures HeaderMatch(t) == Some(Header(t[2], t[j + 1..j + 1 + m]))
  {
    assert t[3..][j - 3] == '>' && t[3..][..j - 3] == t[3..j];
    FirstIndexUnique(t[3..], '>', j - 3);
    var u := t[j + 1..];
    assert u[m..] == t[j + 1 + m..];
    forall k | 0 <= k < m
      ensures !HeaderCloseAt(u[k..])
    {
      assert u[k..] == t[j + 1 + k..];
    }
    FirstHeaderCloseAt(u, m);
  }

  /**
   * Hence a fragment `<h{d}>` text `</h{e}>` with no tag in the text yields exactly one header
   * block of style `h{d}` whose one span holds the trimmed text; it is emitted even when that
   * text is empty.
   */
  lemma HeaderFragment(t: string, inner: string, n: nat)
    requires |t| >= 4 && t[0] == '<' && t[1] == 'h' && '1' <= t[2] <= '6' && t[3] == '>'
    requires '<' !in inner && |t| >= 4 + |inner| && t[4..4 + |inner|] == inner
    requires HeaderCloseAt(t[4 + |inner|..])
    ensures FragmentBlocks(t, n)
         == [Block("header-" + NatToString(n), "h" + [t[2]], None, [],
                   [Span("header-span-" + NatToString(n), Trim(inner), [])])]
  {
    forall k | 4 <= k < 4 + |inner|
      ensures !HeaderCloseAt(t[k..])
    {
      assert t[k] == inner[k - 4];
    }
    assert t[3..3] == [];
    HeaderMatchOf(t, 3, |inner|);
  }

  /** An empty header is kept: `<h{d}></h{e}>` yields one header block with an empty span. */
  lemma EmptyHeaderKept(t: string, n: nat)
    requires |t| == 9 && t[..3] == "<h2" && t[3..] == "></h3>"
    ensures FragmentBlocks(t, n)
         == [Block("header-" + NatToString(n), "h2", None, [],
                   [Span("header-span-" + NatToString(n), "", [])])]
  {
    assert t[0] == '<' && t[1] == 'h' && t[2] == '2' && t[3] == '>';
    var close := t[4..];
    assert close == "</h3>";
    StartsWithOwnPrefix("</h", "3>");
    assert close == "</h" + "3>";
    HeaderFragment(t, [], n);
    assert Trim([]) == [];
    assert "h" + [t[2]] == "h2";
  }

  /** In general a header block's text is trimmed and holds no tag. */
  lemma HeaderTextClean(t: string, n: nat)
    requires HeaderMatch(t).Some?
    ensures var bs := FragmentBlocks(t, n);
      |bs| == 1 && bs[0].style == "h" + [HeaderMatch(t).value.level] && |bs[0].children| == 1
      && IsTrimmed(bs[0].children[0].text) && NoTag(bs[0].children[0].text)
  {
    NoTagTrim(StripTags(HeaderMatch(t).value.inner));
  }

  /** A `<ul>` or `<ol>` fragment yields one list block per item, and none without items. */
  lemma ListFragment(t: string, n: nat, name: string, kind: ListKind)
    requires (name, kind) == ("ul", Bullet) || (name, kind) == ("ol", Number)
    requires ElementMatch(t, name).Some?
    requires name == "ol" ==> ElementMatch(t, "ul").None?
    ensures var items := ListItems(ElementMatch(t, name).value);
      FragmentBlocks(t, n) == ListBlocks(items, n, kind)
      && |FragmentBlocks(t, n)| == |items|
      && (items == [] ==> FragmentBlocks(t, n) == [])
  {
    var open := "<" + name;
    assert StartsWithIgnoreCase(t, open);
    IgnoreCaseAt(t[..3], open, 1);
    assert HeaderMatch(t).None?;
  }

  /**
   * A paragraph fragment yields one block exactly when its inline scan has a span with
   * visible text, and that block holds the scan's spans.
   */
  lemma ParagraphFragment(t: string, n: nat)
    requires HeaderMatch(t).None? && ElementMatch(t, "ul").None? && ElementMatch(t, "ol").None?
    requires ParagraphMatch(t).Some?
    ensures var children := InlineSpans(ParagraphMatch(t).value, n);
      && (FragmentBlocks(t, n) != [] <==> HasVisibleText(children))
      && (HasVisibleText(children) ==>
            FragmentBlocks(t, n) == [Block(BlockKey(n), "normal", None, [], children)])
  {
  }

  /** Any other fragment yields one span of its stripped, trimmed text when that is not empty. */
  lemma TextFragment(t: string, n: nat)
    requires HeaderMatch(t).None? && ElementMatch(t, "ul").None? && ElementMatch(t, "ol").None?
    requires ParagraphMatch(t).None?
    ensures var text := Trim(StripTags(t));
      && (FragmentBlocks(t, n) != [] <==> text != [])
      && (text != [] ==>
            FragmentBlocks(t, n) == [Block(BlockKey(n), "normal", None, [], [Span(SpanKey(n, 0), text, [])])])
      && NoTag(text) && IsTrimmed(text)
  {
    NoTagTrim(StripTags(t));
  }

  /** A fragment with no `<` at all is untagged text: its block holds its trimmed text. */
  lemma PlainFragment(t: string, n: nat)
    requires '<' !in t && !IsBlank(t)
    ensures FragmentBlocks(t, n)
         == [Block(BlockKey(n), "normal", None, [], [Span(SpanKey(n, 0), Trim(t), [])])]
  {
    assert t[0] != '<';
    NoElementWithoutBracket(t, "ul");
    NoElementWithoutBracket(t, "ol");
    NoElementWithoutBracket(t, "p");
    NoElementWithoutBracket(t, "div");
    NoElementWithoutBracket(t, "blockquote");
  }

  lemma NoElementWithoutBracket(t: string, name: string)
    requires t != [] && t[0] != '<'
    ensures ElementMatch(t, name).None?
  {
    if ElementMatch(t, name).Some? {
      IgnoreCaseAt(t[..|name| + 1], "<" + name, 0);
    }
  }
}
