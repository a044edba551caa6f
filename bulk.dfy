/**
 * The bulk formatter's conversions: a body is written out as plain text with `<strong>` and
 * `<em>` markers, formatted text is parsed back into `normal` blocks of marked spans, and an
 * excerpt is cut from the first block with visible text.
 *
 * `generateKey()` is a supplier `keys` indexed by the number of keys drawn so far.
 */
module Bulk {
  import opened Wrappers
  import opened Text
  import opened Blocks

  // ---------------------------------------------------------------------------------------
  // Splitting formatted text
  // ---------------------------------------------------------------------------------------

  /** The number of line feeds `s` starts with. */
  function NewlineRun(s: string): (n: nat)
    ensures n <= |s| && forall i :: 0 <= i < n ==> s[i] == '\n'
    ensures n < |s| ==> s[n] != '\n'
  {
    if s == [] || s[0] != '\n' then 0 else 1 + NewlineRun(s[1..])
  }

  /** `s.split(/\n\n+/)`: the pieces between runs of two or more line feeds. */
  function SplitParagraphs(s: string): (r: seq<string>)
    ensures |r| >= 1
    decreases |s|
  {
    if s == [] then [[]]
    else if |s| >= 2 && s[0] == '\n' && s[1] == '\n' then [[]] + SplitParagraphs(s[NewlineRun(s)..])
    else
      var r := SplitParagraphs(s[1..]);
      [[s[0]] + r[0]] + r[1..]
  }

  function Paragraphs(s: string): seq<string> {
    NonBlank(SplitParagraphs(s))
  }

  /** The length of `<strong>`, `</strong>`, `<em>` or `</em>` at the head of `s`; 0 if none. */
  function TagLen(s: string): (n: nat)
    ensures n <= |s|
    ensures n > 0 ==> IsTag(s[..n])
  {
    if "<strong>" <= s then assert s[..8] == "<strong>"; 8
    else if "</strong>" <= s then assert s[..9] == "</strong>"; 9
    else if "<em>" <= s then assert s[..4] == "<em>"; 4
    else if "</em>" <= s then assert s[..5] == "</em>"; 5
    else 0
  }

  predicate IsTag(t: string) {
    t == "<strong>" || t == "</strong>" || t == "<em>" || t == "</em>"
  }

  /**
   * `para.split(/(<\/?strong>|<\/?em>)/g)`: text pieces, possibly empty, alternating with the
   * tags, which the capturing group keeps.
   */
  function SplitTags(s: string): (r: seq<string>)
    ensures |r| >= 1
    decreases |s|
  {
    if s == [] then [[]]
    else
      var n := TagLen(s);
      if n > 0 then [[], s[..n]] + SplitTags(s[n..])
      else
        var r := SplitTags(s[1..]);
        [[s[0]] + r[0]] + r[1..]
  }

  /** No two line feeds in a row. */
  predicate NoBreak(t: string) {
    forall i :: 0 <= i < |t| - 1 ==> !(t[i] == '\n' && t[i + 1] == '\n')
  }

  /** The text with every run of two or more line feeds shortened to exactly two. */
  function CollapseBreaks(s: string): (r: string)
    ensures |r| <= |s|
    decreases |s|
  {
    if s == [] then []
    else if |s| >= 2 && s[0] == '\n' && s[1] == '\n' then "\n\n" + CollapseBreaks(s[NewlineRun(s)..])
    else [s[0]] + CollapseBreaks(s[1..])
  }

  /**
   * The paragraph split cuts at every blank-line run and only there: no piece holds two line
   * feeds in a row, and joining the pieces with one blank line gives the text back with each
   * run of line feeds shortened to two.
   */
  lemma {:induction false} SplitParagraphsFacts(s: string)
    ensures ParagraphsFit(s, SplitParagraphs(s))
    decreases |s|
  {
    if s == [] {
      assert SplitParagraphs(s) == [[]];
    } else if |s| >= 2 && s[0] == '\n' && s[1] == '\n' {
      SplitParagraphsFacts(s[NewlineRun(s)..]);
      FitAfterBreak(s, SplitParagraphs(s[NewlineRun(s)..]));
    } else {
      SplitParagraphsFacts(s[1..]);
      FitAfterChar(s, SplitParagraphs(s[1..]));
    }
  }

  /** What the paragraph split promises about its pieces `r` of `s`. */
  predicate ParagraphsFit(s: string, r: seq<string>) {
    && r != [] && r[0] <= s
    && (forall k :: 0 <= k < |r| ==> NoBreak(r[k]))
    && Join(r, "\n\n") == CollapseBreaks(s)
  }

  lemma FitAfterBreak(s: string, q: seq<string>)
    requires |s| >= 2 && s[0] == '\n' && s[1] == '\n'
    requires q == SplitParagraphs(s[NewlineRun(s)..]) && ParagraphsFit(s[NewlineRun(s)..], q)
    ensures ParagraphsFit(s, SplitParagraphs(s))
  {
    SplitBreakStep(s);
    CollapseBreakStep(s);
    JoinEmptyFront(q, "\n\n");
    EmptyNoBreak(q);
  }

  lemma SplitBreakStep(s: string)
    requires |s| >= 2 && s[0] == '\n' && s[1] == '\n'
    ensures SplitParagraphs(s) == [[]] + SplitParagraphs(s[NewlineRun(s)..])
  {
  }

  lemma CollapseBreakStep(s: string)
    requires |s| >= 2 && s[0] == '\n' && s[1] == '\n'
    ensures CollapseBreaks(s) == "\n\n" + CollapseBreaks(s[NewlineRun(s)..])
  {
  }

  lemma JoinEmptyFront(q: seq<string>, sep: string)
    requires q != []
    ensures Join([[]] + q, sep) == sep + Join(q, sep)
  {
    var r := [[]] + q;
    JoinFront(r, sep);
    assert r[1..] == q && r[0] == [];
  }

  lemma EmptyNoBreak(q: seq<string>)
    requires forall k :: 0 <= k < |q| ==> NoBreak(q[k])
    ensures var r := [[]] + q; forall k :: 0 <= k < |r| ==> NoBreak(r[k])
  {
    var r := [[]] + q;
    forall k | 0 <= k < |r| ensures NoBreak(r[k]) {
      if k > 0 {
        assert r[k] == q[k - 1];
      }
    }
  }

  lemma FitAfterChar(s: string, q: seq<string>)
    requires s != [] && !(|s| >= 2 && s[0] == '\n' && s[1] == '\n')
    requires q == SplitParagraphs(s[1..]) && ParagraphsFit(s[1..], q)
    ensures ParagraphsFit(s, SplitParagraphs(s))
  {
    SplitCharStep(s);
    CollapseCharStep(s);
    JoinConsHead(s[0], q, "\n\n");
    HeadNoBreak(s, q[0]);
    AllNoBreak([s[0]] + q[0], q);
    PrefixCons(s, q[0]);
  }

  lemma SplitCharStep(s: string)
    requires s != [] && !(|s| >= 2 && s[0] == '\n' && s[1] == '\n')
    ensures var q := SplitParagraphs(s[1..]); SplitParagraphs(s) == [[s[0]] + q[0]] + q[1..]
  {
  }

  lemma CollapseCharStep(s: string)
    requires s != [] && !(|s| >= 2 && s[0] == '\n' && s[1] == '\n')
    ensures CollapseBreaks(s) == [s[0]] + CollapseBreaks(s[1..])
  {
  }

  lemma PrefixCons(s: string, h0: string)
    requires s != [] && h0 <= s[1..]
    ensures [s[0]] + h0 <= s
  {
    assert s[..|h0| + 1] == [s[0]] + s[1..][..|h0|];
  }

  lemma HeadNoBreak(s: string, h0: string)
    requires s != [] && !(|s| >= 2 && s[0] == '\n' && s[1] == '\n')
    requires h0 <= s[1..] && NoBreak(h0)
    ensures NoBreak([s[0]] + h0)
  {
    var h := [s[0]] + h0;
    forall i | 0 <= i < |h| - 1 ensures !(h[i] == '\n' && h[i + 1] == '\n') {
      if i == 0 {
        assert h[1] == h0[0] == s[1];
      } else {
        assert h[i] == h0[i - 1] && h[i + 1] == h0[i];
      }
    }
  }

  lemma AllNoBreak(h: string, q: seq<string>)
    requires q != [] && NoBreak(h) && forall k :: 0 <= k < |q| ==> NoBreak(q[k])
    ensures var r := [h] + q[1..]; forall k :: 0 <= k < |r| ==> NoBreak(r[k])
  {
    var r := [h] + q[1..];
    forall k | 0 <= k < |r| ensures NoBreak(r[k]) {
      if k > 0 {
        assert r[k] == q[k];
      }
    }
  }

  /** Without a run of three line feeds, shortening the runs changes nothing. */
  lemma {:induction false} CollapseWithoutTriple(s: string)
    requires !Contains(s, "\n\n\n")
    ensures CollapseBreaks(s) == s
    decreases |s|
  {
    if s != [] {
      assert !Contains(s[1..], "\n\n\n");
      if |s| >= 2 && s[0] == '\n' && s[1] == '\n' {
        assert |s| > 2 ==> s[2] != '\n';
        assert NewlineRun(s) == 2;
        assert s[1..][1..] == s[2..];
        assert !Contains(s[2..], "\n\n\n");
        CollapseWithoutTriple(s[2..]);
        assert s == "\n\n" + s[2..];
      } else {
        CollapseWithoutTriple(s[1..]);
        assert s == [s[0]] + s[1..];
      }
    }
  }

  /** Text whose blank lines are single ones is rebuilt by joining its paragraphs. */
  lemma SplitParagraphsRebuild(s: string)
    requires !Contains(s, "\n\n\n")
    ensures Join(SplitParagraphs(s), "\n\n") == s
  {
    SplitParagraphsFacts(s);
    CollapseWithoutTriple(s);
  }

  /** No marker tag starts anywhere in `t`. */
  predicate NoMarker(t: string) {
    forall i :: 0 <= i < |t| ==> TagLen(t[i..]) == 0
  }

  /** A prefix of a string that starts with no tag starts with no tag either. */
  lemma TagLenPrefix(t: string, s: string)
    requires t <= s && TagLen(s) == 0
    ensures TagLen(t) == 0
  {
    assert "<strong>" <= t ==> "<strong>" <= s;
    assert "</strong>" <= t ==> "</strong>" <= s;
    assert "<em>" <= t ==> "<em>" <= s;
    assert "</em>" <= t ==> "</em>" <= s;
  }

  /** The first piece of the tag split is a prefix of the input. */
  lemma {:induction false} SplitTagsHead(s: string)
    ensures SplitTags(s)[0] <= s
    decreases |s|
  {
    if s != [] && TagLen(s) == 0 {
      SplitTagsHead(s[1..]);
    }
  }

  /** The capturing tag split loses nothing: its pieces concatenate to its input. */
  lemma {:induction false} SplitTagsConcat(s: string)
    ensures Concat(SplitTags(s)) == s
    decreases |s|
  {
    if s == [] {
      assert Concat(SplitTags(s)) == Concat([]) + [];
    } else {
      var n := TagLen(s);
      if n > 0 {
        SplitTagsConcat(s[n..]);
        ConcatAfterTag(s, n, SplitTags(s[n..]));
      } else {
        SplitTagsConcat(s[1..]);
        ConcatAfterChar(s, SplitTags(s[1..]));
      }
    }
  }

  lemma ConcatAfterTag(s: string, n: nat, q: seq<string>)
    requires 0 < n <= |s| && SplitTags(s) == [[], s[..n]] + q && Concat(q) == s[n..]
    ensures Concat(SplitTags(s)) == s
  {
    ConcatPairFront([], s[..n], q);
    assert s == s[..n] + s[n..];
  }

  lemma ConcatAfterChar(s: string, q: seq<string>)
    requires s != [] && q != [] && SplitTags(s) == [[s[0]] + q[0]] + q[1..] && Concat(q) == s[1..]
    ensures Concat(SplitTags(s)) == s
  {
    ConcatConsHead(s[0], q);
    assert s == [s[0]] + s[1..];
  }

  /** The pieces alternate: tags at the odd positions, text without any tag at the even ones. */
  predicate Alternates(r: seq<string>) {
    && |r| % 2 == 1
    && (forall k :: 0 <= k < |r| && k % 2 == 1 ==> IsTag(r[k]))
    && (forall k :: 0 <= k < |r| && k % 2 == 0 ==> NoMarker(r[k]))
  }

  lemma AlternatesTag(tag: string, q: seq<string>)
    requires IsTag(tag) && Alternates(q)
    ensures Alternates([[], tag] + q)
  {
    var r := [[], tag] + q;
    forall k | 2 <= k < |r| ensures r[k] == q[k - 2] {
    }
  }

  lemma AlternatesText(h: string, q: seq<string>)
    requires NoMarker(h) && Alternates(q)
    ensures Alternates([h] + q[1..])
  {
    var r := [h] + q[1..];
    forall k | 1 <= k < |r| ensures r[k] == q[k] {
    }
  }

  /** A character that starts no tag, put in front of a piece without tags, starts none either. */
  lemma NoMarkerCons(s: string, h0: string)
    requires s != [] && TagLen(s) == 0 && h0 <= s[1..] && NoMarker(h0)
    ensures NoMarker([s[0]] + h0)
  {
    var h := [s[0]] + h0;
    forall i | 0 <= i < |h| ensures TagLen(h[i..]) == 0 {
      if i == 0 {
        assert h <= s;
        TagLenPrefix(h, s);
      } else {
        assert h[i..] == h0[i - 1..];
      }
    }
  }

  /**
   * The capturing tag split puts the marker tags at the odd positions and text without tags,
   * possibly empty, at the even ones.
   */
  lemma {:induction false} SplitTagsAlternate(s: string)
    ensures Alternates(SplitTags(s))
    decreases |s|
  {
    if s == [] {
      assert SplitTags(s) == [[]];
    } else {
      var n := TagLen(s);
      if n > 0 {
        SplitTagsAlternate(s[n..]);
        AlternatesTag(s[..n], SplitTags(s[n..]));
      } else {
        var q := SplitTags(s[1..]);
        SplitTagsAlternate(s[1..]);
        SplitTagsHead(s[1..]);
        NoMarkerCons(s, q[0]);
        AlternatesText([s[0]] + q[0], q);
      }
    }
  }

  // ---------------------------------------------------------------------------------------
  // formattedTextToPortableText
  // ---------------------------------------------------------------------------------------

  /** `currentMarks.filter((m) => m !== mark)`. */
  function RemoveMark(marks: seq<string>, mark: string): (r: seq<string>)
    ensures multiset(r) == multiset(marks)[mark := 0]
  {
    if marks == [] then []
    else if marks[|marks| - 1] == mark then
      assert marks == marks[..|marks| - 1] + [mark];
      RemoveMark(marks[..|marks| - 1], mark)
    else
      assert marks == marks[..|marks| - 1] + [marks[|marks| - 1]];
      RemoveMark(marks[..|marks| - 1], mark) + [marks[|marks| - 1]]
  }

  /** `children`, `currentText`, `currentMarks` and the keys drawn, inside one paragraph. */
  datatype ParaState = ParaState(children: seq<Child>, text: string, marks: seq<string>, draws: nat)

  /** The `if (currentText) { children.push(...) }` that precedes every tag. */
  function Flush(st: ParaState, keys: nat -> string): ParaState {
    if st.text != [] then
      ParaState(st.children + [Span(keys(st.draws), st.text, st.marks)], [], st.marks, st.draws + 1)
    else st
  }

  /** The body of `parts.forEach(...)` for one part. */
  function PartStep(st: ParaState, part: string, keys: nat -> string): ParaState {
    if part == "<strong>" then
      var f := Flush(st, keys); f.(marks := f.marks + ["strong"])
    else if part == "</strong>" then
      var f := Flush(st, keys); f.(marks := RemoveMark(f.marks, "strong"))
    else if part == "<em>" then
      var f := Flush(st, keys); f.(marks := f.marks + ["em"])
    else if part == "</em>" then
      var f := Flush(st, keys); f.(marks := RemoveMark(f.marks, "em"))
    else if !IsBlank(part) then st.(text := st.text + part)
    else st
  }

  function PartsRun(parts: seq<string>, keys: nat -> string, st: ParaState): ParaState {
    if parts == [] then st
    else PartStep(PartsRun(parts[..|parts| - 1], keys, st), parts[|parts| - 1], keys)
  }

  /** The block a paragraph gives, if any, and the keys drawn after it. */
  datatype ParaResult = ParaResult(block: Option<Block>, draws: nat)

  /** One paragraph: its parts, the last flush, and a `normal` block if a span was made. */
  function ParagraphBlock(para: string, keys: nat -> string, draws: nat): ParaResult {
    var st := Flush(PartsRun(SplitTags(para), keys, ParaState([], [], [], draws)), keys);
    if st.children != [] then
      ParaResult(Some(Block(keys(st.draws), "normal", None, [], st.children)), st.draws + 1)
    else ParaResult(None, st.draws)
  }

  /** `blocks` and the keys drawn, over the paragraphs. */
  datatype Parsed = Parsed(blocks: seq<Block>, draws: nat)

  function ParaStep(st: Parsed, para: string, keys: nat -> string): Parsed {
    var r := ParagraphBlock(para, keys, st.draws);
    if r.block.Some? then Parsed(st.blocks + [r.block.value], r.draws) else Parsed(st.blocks, r.draws)
  }

  function ParasRun(paras: seq<string>, keys: nat -> string, st: Parsed): Parsed {
    if paras == [] then st
    else ParaStep(ParasRun(paras[..|paras| - 1], keys, st), paras[|paras| - 1], keys)
  }

  /** `formattedTextToPortableText(formattedText)`. */
  function FormattedToBlocks(text: string, keys: nat -> string, draws: nat): Parsed {
    ParasRun(Paragraphs(text), keys, Parsed([], draws))
  }

  /** Every span made is a span with visible text. */
  predicate GoodSpans(cs: seq<Child>) {
    forall i :: 0 <= i < |cs| ==> cs[i].Span? && !IsBlank(cs[i].text)
  }

  /** The paragraph state keeps its spans good, and its pending text empty or visible. */
  predicate GoodPara(st: ParaState) {
    GoodSpans(st.children) && (st.text == [] || !IsBlank(st.text))
  }

  /** Appending visible text to empty or visible text gives visible text. */
  lemma AppendVisible(s: string, part: string)
    requires s == [] || !IsBlank(s)
    requires !IsBlank(part)
    ensures !IsBlank(s + part)
  {
    if s == [] {
      assert s + part == part;
    } else {
      var i :| 0 <= i < |s| && !IsSpace(s[i]);
      assert (s + part)[i] == s[i];
    }
  }

  lemma FlushGood(st: ParaState, keys: nat -> string)
    requires GoodPara(st)
    ensures var f := Flush(st, keys); GoodPara(f) && f.text == [] && f.marks == st.marks
  {
  }

  lemma PartStepGood(st: ParaState, part: string, keys: nat -> string)
    requires GoodPara(st)
    ensures GoodPara(PartStep(st, part, keys))
  {
    FlushGood(st, keys);
    if !IsTag(part) && !IsBlank(part) {
      AppendVisible(st.text, part);
    }
  }

  lemma {:induction false} PartsRunGood(parts: seq<string>, keys: nat -> string, st: ParaState)
    requires GoodPara(st)
    ensures GoodPara(PartsRun(parts, keys, st))
    decreases |parts|
  {
    if parts != [] {
      PartsRunGood(parts[..|parts| - 1], keys, st);
      PartStepGood(PartsRun(parts[..|parts| - 1], keys, st), parts[|parts| - 1], keys);
    }
  }

  /** A paragraph block is `normal`, has no list role and no definitions, and good spans. */
  predicate GoodBlock(b: Block) {
    b.style == "normal" && b.listItem.None? && b.markDefs == [] && b.children != []
    && GoodSpans(b.children)
  }

  lemma ParagraphBlockGood(para: string, keys: nat -> string, draws: nat)
    ensures var r := ParagraphBlock(para, keys, draws); r.block.Some? ==> GoodBlock(r.block.value)
  {
    var st := PartsRun(SplitTags(para), keys, ParaState([], [], [], draws));
    PartsRunGood(SplitTags(para), keys, ParaState([], [], [], draws));
    FlushGood(st, keys);
  }

  /**
   * Every block is a `normal` block with at least one span and only spans with visible text,
   * and there is at most one block per paragraph that is not blank.
   */
  lemma {:induction false} ParasRunGood(paras: seq<string>, keys: nat -> string, st: Parsed)
    requires forall i :: 0 <= i < |st.blocks| ==> GoodBlock(st.blocks[i])
    ensures var r := ParasRun(paras, keys, st);
      && |r.blocks| <= |st.blocks| + |paras|
      && forall i :: 0 <= i < |r.blocks| ==> GoodBlock(r.blocks[i])
    decreases |paras|
  {
    if paras != [] {
      var m := ParasRun(paras[..|paras| - 1], keys, st);
      ParasRunGood(paras[..|paras| - 1], keys, st);
      ParagraphBlockGood(paras[|paras| - 1], keys, m.draws);
    }
  }

  lemma FormattedGood(text: string, keys: nat -> string, draws: nat)
    ensures var r := FormattedToBlocks(text, keys, draws);
      && |r.blocks| <= |Paragraphs(text)|
      && forall i :: 0 <= i < |r.blocks| ==> GoodBlock(r.blocks[i])
  {
    ParasRunGood(Paragraphs(text), keys, Parsed([], draws));
  }

  /**
   * An opening tag appends its mark even when it is already there; a closing tag removes every
   * occurrence of its mark and keeps the others. Either tag first flushes the pending text as a
   * span that carries the marks as they were.
   */
  lemma TagSteps(st: ParaState, keys: nat -> string)
    requires st.text != []
    ensures var f := Span(keys(st.draws), st.text, st.marks);
      && PartStep(st, "<strong>", keys)
           == ParaState(st.children + [f], [], st.marks + ["strong"], st.draws + 1)
      && PartStep(st, "<em>", keys) == ParaState(st.children + [f], [], st.marks + ["em"], st.draws + 1)
      && PartStep(st, "</strong>", keys).children == st.children + [f]
      && PartStep(st, "</em>", keys).children == st.children + [f]
      && multiset(PartStep(st, "</strong>", keys).marks) == multiset(st.marks)["strong" := 0]
      && multiset(PartStep(st, "</em>", keys).marks) == multiset(st.marks)["em" := 0]
  {
  }

  /** Text with only white space between two tags is dropped. */
  lemma BlankPartDropped(st: ParaState, part: string, keys: nat -> string)
    requires IsBlank(part)
    ensures PartStep(st, part, keys) == st
  {
    if part != [] {
      assert IsSpace(part[0]);
    }
  }

  /** The paragraph loop, one part at a time. */
  method ParagraphToBlock(para: string, keys: nat -> string, draws: nat)
    returns (block: Option<Block>, draws1: nat)
    ensures ParaResult(block, draws1) == ParagraphBlock(para, keys, draws)
  {
    var parts := SplitTags(para);
    ghost var st0 := ParaState([], [], [], draws);
    var children: seq<Child> := [];
    var currentText: string := [];
    var currentMarks: seq<string> := [];
    draws1 := draws;
    for k := 0 to |parts|
      invariant ParaState(children, currentText, currentMarks, draws1) == PartsRun(parts[..k], keys, st0)
    {
      PartsRunAt(parts, k, keys, st0);
      children, currentText, currentMarks, draws1 :=
        ApplyPart(children, currentText, currentMarks, draws1, parts[k], keys);
    }
    assert parts[..|parts|] == parts;
    if currentText != [] {
      children := children + [Span(keys(draws1), currentText, currentMarks)];
      draws1 := draws1 + 1;
    }
    if |children| > 0 {
      block := Some(Block(keys(draws1), "normal", None, [], children));
      draws1 := draws1 + 1;
    } else {
      block := None;
    }
  }

  lemma PartsRunAt(parts: seq<string>, k: nat, keys: nat -> string, st: ParaState)
    requires k < |parts|
    ensures PartsRun(parts[..k + 1], keys, st) == PartStep(PartsRun(parts[..k], keys, st), parts[k], keys)
  {
    assert parts[..k + 1][..k] == parts[..k];
  }

  /** The body of `parts.forEach(...)`: a formatting tag flushes the text and changes the marks. */
  method ApplyPart(children: seq<Child>, currentText: string, currentMarks: seq<string>, draws: nat,
                   part: string, keys: nat -> string)
    returns (children1: seq<Child>, currentText1: string, currentMarks1: seq<string>, draws1: nat)
    ensures ParaState(children1, currentText1, currentMarks1, draws1)
         == PartStep(ParaState(children, currentText, currentMarks, draws), part, keys)
  {
    children1, currentText1, currentMarks1, draws1 := children, currentText, currentMarks, draws;
    if part == "<strong>" || part == "</strong>" || part == "<em>" || part == "</em>" {
      if currentText1 != [] {
        children1 := children1 + [Span(keys(draws1), currentText1, currentMarks1)];
        draws1 := draws1 + 1;
        currentText1 := [];
      }
      if part == "<strong>" {
        currentMarks1 := currentMarks1 + ["strong"];
      } else if part == "</strong>" {
        currentMarks1 := RemoveMark(currentMarks1, "strong");
      } else if part == "<em>" {
        currentMarks1 := currentMarks1 + ["em"];
      } else {
        currentMarks1 := RemoveMark(currentMarks1, "em");
      }
    } else if !IsBlank(part) {
      currentText1 := currentText1 + part;
    }
  }

  /** `formattedTextToPortableText(formattedText)`, one paragraph at a time. */
  method FormattedTextToPortableText(formattedText: string, keys: nat -> string, draws: nat)
    returns (blocks: seq<Block>, draws1: nat)
    ensures Parsed(blocks, draws1) == FormattedToBlocks(formattedText, keys, draws)
  {
    var paragraphs := Paragraphs(formattedText);
    blocks := [];
    draws1 := draws;
    for k := 0 to |paragraphs|
      invariant Parsed(blocks, draws1) == ParasRun(paragraphs[..k], keys, Parsed([], draws))
    {
      assert paragraphs[..k + 1][..k] == paragraphs[..k];
      var block;
      block, draws1 := ParagraphToBlock(paragraphs[k], keys, draws1);
      if block.Some? {
        blocks := blocks + [block.value];
      }
    }
    assert paragraphs[..|paragraphs|] == paragraphs;
  }

  // ---------------------------------------------------------------------------------------
  // portableTextToPlainText
  // ---------------------------------------------------------------------------------------

  /** `child.marks || []`. */
  function MarksOf(c: Child): seq<string> {
    if c.Span? then c.marks else []
  }

  /** One child with its formatting marker; `strong` is tested before `em`. */
  function ChildMarkup(c: Child): string {
    if "strong" in MarksOf(c) then "<strong>" + TextOf(c) + "</strong>"
    else if "em" in MarksOf(c) then "<em>" + TextOf(c) + "</em>"
    else TextOf(c)
  }

  function Markups(cs: seq<Child>): (ms: seq<string>)
    ensures |ms| == |cs| && forall i :: 0 <= i < |cs| ==> ms[i] == ChildMarkup(cs[i])
  {
    seq(|cs|, i requires 0 <= i < |cs| => ChildMarkup(cs[i]))
  }

  /** The text with every `<strong>`, `</strong>`, `<em>` and `</em>` taken out. */
  function StripMarkers(s: string): string
    decreases |s|
  {
    if s == [] then []
    else
      var n := TagLen(s);
      if n > 0 then StripMarkers(s[n..]) else [s[0]] + StripMarkers(s[1..])
  }

  lemma {:induction false} StripPlain(t: string, b: string)
    requires '<' !in t
    ensures StripMarkers(t + b) == t + StripMarkers(b)
    decreases |t|
  {
    if t == [] {
      assert t + b == b;
    } else {
      var s := t + b;
      NoTagAt(s);
      assert s[1..] == t[1..] + b;
      StripPlain(t[1..], b);
      AppendAssoc([t[0]], t[1..], StripMarkers(b));
      assert [t[0]] + t[1..] == t;
    }
  }

  lemma StripTag(tag: string, b: string)
    requires IsTag(tag)
    ensures StripMarkers(tag + b) == StripMarkers(b)
  {
    var s := tag + b;
    assert s[..|tag|] == tag;
    assert s[1] == tag[1] && s[2] == tag[2];
    assert TagLen(s) == |tag|;
    assert s[|tag|..] == b;
  }

  /** A child's marker adds only the marker tags around its text. */
  lemma ChildMarkupVisible(c: Child, b: string)
    requires '<' !in TextOf(c)
    ensures StripMarkers(ChildMarkup(c) + b) == TextOf(c) + StripMarkers(b)
  {
    var t := TextOf(c);
    if "strong" in MarksOf(c) {
      WrappedVisible("<strong>", t, "</strong>", b);
    } else if "em" in MarksOf(c) {
      WrappedVisible("<em>", t, "</em>", b);
    } else {
      StripPlain(t, b);
    }
  }

  lemma AppendRight(a: string, b: string, c: string, d: string)
    ensures a + b + c + d == a + (b + (c + d))
  {
  }

  lemma WrappedVisible(open: string, t: string, close: string, b: string)
    requires IsTag(open) && IsTag(close) && '<' !in t
    ensures StripMarkers(open + t + close + b) == t + StripMarkers(b)
  {
    AppendRight(open, t, close, b);
    StripTag(open, t + (close + b));
    StripPlain(t, close + b);
    StripTag(close, b);
  }

  /**
   * Writing children out adds nothing but markers: taking the marker tags back out of the
   * joined markups leaves the joined texts, when no text holds a `<` of its own.
   */
  lemma {:induction false} MarkupsVisible(cs: seq<Child>)
    requires forall i :: 0 <= i < |cs| ==> '<' !in TextOf(cs[i])
    ensures StripMarkers(Concat(Markups(cs))) == Concat(Texts(cs))
    decreases |cs|
  {
    if cs != [] {
      MarkupsCons(cs);
      TextsCons(cs);
      ChildMarkupVisible(cs[0], Concat(Markups(cs[1..])));
      MarkupsVisible(cs[1..]);
    }
  }

  lemma MarkupsCons(cs: seq<Child>)
    requires cs != []
    ensures Concat(Markups(cs)) == ChildMarkup(cs[0]) + Concat(Markups(cs[1..]))
  {
    MarkupsSplit(cs);
    ConcatFront(ChildMarkup(cs[0]), Markups(cs[1..]));
  }

  lemma MarkupsSplit(cs: seq<Child>)
    requires cs != []
    ensures Markups(cs) == [ChildMarkup(cs[0])] + Markups(cs[1..])
  {
    var ms, rest := Markups(cs), Markups(cs[1..]);
    forall i | 1 <= i < |ms| ensures ms[i] == rest[i - 1] {
      assert cs[1..][i - 1] == cs[i];
    }
  }

  lemma TextsCons(cs: seq<Child>)
    requires cs != []
    ensures Concat(Texts(cs)) == TextOf(cs[0]) + Concat(Texts(cs[1..]))
  {
    var ts, trest := Texts(cs), Texts(cs[1..]);
    assert ts == [ts[0]] + trest by {
      forall i | 1 <= i < |ts| ensures ts[i] == trest[i - 1] {
        assert cs[1..][i - 1] == cs[i];
      }
    }
    ConcatFront(ts[0], trest);
  }

  /** A node's markup shows its children's texts and nothing else; other nodes show `""`. */
  lemma NodeMarkupVisible(n: Node)
    requires n.TextBlock? ==> forall i :: 0 <= i < |n.block.children| ==> '<' !in TextOf(n.block.children[i])
    ensures StripMarkers(NodeMarkup(n)) == if n.TextBlock? then Concat(Texts(n.block.children)) else []
  {
    if n.TextBlock? {
      MarkupsVisible(n.block.children);
    }
  }

  /** A text block's children joined with `""`; anything else gives `""`. */
  function NodeMarkup(n: Node): string {
    if n.TextBlock? then Concat(Markups(n.block.children)) else []
  }

  function NodeMarkups(ns: seq<Node>): (ms: seq<string>)
    ensures |ms| == |ns| && forall i :: 0 <= i < |ns| ==> ms[i] == NodeMarkup(ns[i])
  {
    seq(|ns|, i requires 0 <= i < |ns| => NodeMarkup(ns[i]))
  }

  /** `portableTextToPlainText(body)`: `""` for a body that is not an array. */
  function PlainText(body: Option<seq<Node>>): string {
    if body.None? then [] else Join(NodeMarkups(body.value), "\n\n")
  }

  /** The one mark a span's marker brings back: `strong` before `em`. */
  function Emphasis(c: Child): seq<string> {
    if "strong" in MarksOf(c) then ["strong"] else if "em" in MarksOf(c) then ["em"] else []
  }

  /** Visible text without a tag opening and without a line feed. */
  predicate SimpleText(t: string) {
    !IsBlank(t) && '<' !in t && '\n' !in t
  }

  /** A text block holding exactly one span of simple text. */
  predicate SimpleBlock(n: Node) {
    n.TextBlock? && |n.block.children| == 1 && n.block.children[0].Span?
    && SimpleText(n.block.children[0].text)
  }

  /** `b` is the block the single span of `n` comes back as. */
  predicate RoundTripped(b: Block, n: Node) {
    n.TextBlock? && |n.block.children| == 1
    && b.style == "normal" && b.listItem.None? && b.markDefs == []
    && |b.children| == 1 && b.children[0].Span?
    && b.children[0].text == TextOf(n.block.children[0])
    && b.children[0].marks == Emphasis(n.block.children[0])
  }

  lemma NoTagAt(s: string)
    requires s != [] && s[0] != '<'
    ensures TagLen(s) == 0
  {
    assert !("<strong>" <= s) && !("</strong>" <= s) && !("<em>" <= s) && !("</em>" <= s);
  }

  lemma {:induction false} SplitTagsPlain(t: string)
    requires '<' !in t
    ensures SplitTags(t) == [t]
    decreases |t|
  {
    if t != [] {
      NoTagAt(t);
      SplitTagsPlain(t[1..]);
      assert [t[0]] + t[1..] == t;
    }
  }

  lemma {:induction false} SplitTagsBefore(t: string, rest: string)
    requires '<' !in t
    ensures var r := SplitTags(rest);
      SplitTags(t + rest) == [t + r[0]] + r[1..]
    decreases |t|
  {
    var r := SplitTags(rest);
    if t == [] {
      assert t + rest == rest;
      assert t + r[0] == r[0];
      assert [r[0]] + r[1..] == r;
    } else {
      var s := t + rest;
      NoTagAt(s);
      assert s[1..] == t[1..] + rest;
      SplitTagsBefore(t[1..], rest);
      var r1 := SplitTags(s[1..]);
      assert r1[0] == t[1..] + r[0] && r1[1..] == r[1..];
      SplitTagsPlainHead(s);
      AppendAssoc([t[0]], t[1..], r[0]);
      assert [t[0]] + t[1..] == t;
    }
  }

  /** A character that starts no tag joins the first piece of the rest. */
  lemma SplitTagsPlainHead(s: string)
    requires s != [] && TagLen(s) == 0
    ensures SplitTags(s) == [[s[0]] + SplitTags(s[1..])[0]] + SplitTags(s[1..])[1..]
  {
  }

  lemma SplitTagsTag(tag: string, rest: string)
    requires IsTag(tag)
    ensures SplitTags(tag + rest) == [[], tag] + SplitTags(rest)
  {
    var s := tag + rest;
    assert s[..|tag|] == tag;
    assert s[1] == tag[1] && s[2] == tag[2];
    assert TagLen(s) == |tag|;
    assert s[|tag|..] == rest;
  }

  /** `<tag>t</tag>` splits into the opening tag, the text and the closing tag. */
  lemma SplitTagsWrapped(open: string, t: string, close: string)
    requires IsTag(open) && IsTag(close) && '<' !in t
    ensures SplitTags(open + t + close) == [[], open, t, close, []]
  {
    SplitTagsTag(close, []);
    assert close + [] == close;
    var r := SplitTags(close);
    assert r == [[], close, []];
    SplitTagsBefore(t, close);
    var q := SplitTags(t + close);
    assert q == [t, close, []] by {
      assert r[0] == [] && r[1..] == [close, []];
      assert t + [] == t;
    }
    AppendAssoc(open, t, close);
    SplitTagsTag(open, t + close);
    assert [[], open] + q == [[], open, t, close, []];
  }

  /** A span of simple text, written out and parsed back as a paragraph, is one span again. */
  lemma ParagraphOfMarkup(c: Child, keys: nat -> string, d: nat)
    requires c.Span? && SimpleText(c.text)
    ensures ParagraphBlock(ChildMarkup(c), keys, d)
         == ParaResult(Some(Block(keys(d + 1), "normal", None, [],
                                  [Span(keys(d), c.text, Emphasis(c))])), d + 2)
  {
    if "strong" in c.marks {
      assert ChildMarkup(c) == "<strong>" + c.text + "</strong>";
      assert Emphasis(c) == ["strong"];
      ParagraphOfWrapped("<strong>", "</strong>", "strong", c.text, keys, d);
    } else if "em" in c.marks {
      assert ChildMarkup(c) == "<em>" + c.text + "</em>";
      assert Emphasis(c) == ["em"];
      ParagraphOfWrapped("<em>", "</em>", "em", c.text, keys, d);
    } else {
      assert ChildMarkup(c) == c.text;
      assert Emphasis(c) == [];
      ParagraphOfPlain(c.text, keys, d);
    }
  }

  lemma TextStep(st: ParaState, t: string, keys: nat -> string)
    requires SimpleText(t)
    ensures PartStep(st, t, keys) == st.(text := st.text + t)
  {
    assert !IsTag(t) by {
      assert t[0] != '<';
    }
  }

  lemma OpenStep(st: ParaState, open: string, m: string, keys: nat -> string)
    requires st.text == []
    requires (open == "<strong>" && m == "strong") || (open == "<em>" && m == "em")
    ensures PartStep(st, open, keys) == st.(marks := st.marks + [m])
  {
  }

  lemma CloseStep(st: ParaState, close: string, m: string, keys: nat -> string)
    requires st.text != []
    requires (close == "</strong>" && m == "strong") || (close == "</em>" && m == "em")
    ensures PartStep(st, close, keys)
         == ParaState(st.children + [Span(keys(st.draws), st.text, st.marks)], [],
                      RemoveMark(st.marks, m), st.draws + 1)
  {
  }

  lemma ParagraphOfPlain(t: string, keys: nat -> string, d: nat)
    requires SimpleText(t)
    ensures ParagraphBlock(t, keys, d)
         == ParaResult(Some(Block(keys(d + 1), "normal", None, [], [Span(keys(d), t, [])])), d + 2)
  {
    SplitTagsPlain(t);
    var s0 := ParaState([], [], [], d);
    var s1 := ParaState([], t, [], d);
    TextStep(s0, t, keys);
    assert [] + t == t;
    RunOfSteps([t], keys, [s0, s1]);
    assert Flush(s1, keys) == ParaState([Span(keys(d), t, [])], [], [], d + 1);
  }

  lemma ParagraphOfWrapped(open: string, close: string, m: string, t: string,
                           keys: nat -> string, d: nat)
    requires (open == "<strong>" && close == "</strong>" && m == "strong")
          || (open == "<em>" && close == "</em>" && m == "em")
    requires SimpleText(t)
    ensures ParagraphBlock(open + t + close, keys, d)
         == ParaResult(Some(Block(keys(d + 1), "normal", None, [], [Span(keys(d), t, [m])])), d + 2)
  {
    SplitTagsWrapped(open, t, close);
    var parts := [[], open, t, close, []];
    var s0 := ParaState([], [], [], d);
    var s3 := ParaState([Span(keys(d), t, [m])], [], [], d + 1);
    WrappedRun(parts, open, close, m, t, keys, d);
    assert Flush(s3, keys) == s3;
  }

  lemma WrappedRun(parts: seq<string>, open: string, close: string, m: string, t: string,
                   keys: nat -> string, d: nat)
    requires (open == "<strong>" && close == "</strong>" && m == "strong")
          || (open == "<em>" && close == "</em>" && m == "em")
    requires SimpleText(t)
    requires parts == [[], open, t, close, []]
    ensures PartsRun(parts, keys, ParaState([], [], [], d))
         == ParaState([Span(keys(d), t, [m])], [], [], d + 1)
  {
    var s0 := ParaState([], [], [], d);
    var s1 := ParaState([], [], [m], d);
    var s2 := ParaState([], t, [m], d);
    var s3 := ParaState([Span(keys(d), t, [m])], [], [], d + 1);
    BlankPartDropped(s0, [], keys);
    OpenStep(s0, open, m, keys);
    TextStep(s1, t, keys);
    CloseStep(s2, close, m, keys);
    assert RemoveMark([m], m) == [];
    BlankPartDropped(s3, [], keys);
    RunOfSteps(parts, keys, [s0, s0, s1, s2, s3, s3]);
  }

  /** A run through states each of which is the step of the one before, ends in the last. */
  lemma {:induction false} RunOfSteps(parts: seq<string>, keys: nat -> string, sts: seq<ParaState>)
    requires |sts| == |parts| + 1
    requires forall i :: 0 <= i < |parts| ==> PartStep(sts[i], parts[i], keys) == sts[i + 1]
    ensures PartsRun(parts, keys, sts[0]) == sts[|parts|]
    decreases |parts|
  {
    if parts != [] {
      var n := |parts|;
      var pre := parts[..n - 1];
      forall i | 0 <= i < |pre|
        ensures PartStep(sts[..n][i], pre[i], keys) == sts[..n][i + 1]
      {
        assert pre[i] == parts[i];
      }
      RunOfSteps(pre, keys, sts[..n]);
    }
  }

  lemma {:induction false} SplitNoNewline(a: string)
    requires '\n' !in a
    ensures SplitParagraphs(a) == [a]
    decreases |a|
  {
    if a != [] {
      SplitNoNewline(a[1..]);
      assert [a[0]] + a[1..] == a;
    }
  }

  lemma SeparatorRun(b: string)
    requires b == [] || b[0] != '\n'
    ensures NewlineRun("\n\n" + b) == 2 && ("\n\n" + b)[2..] == b
  {
    var s := "\n\n" + b;
    assert s[1..][1..] == b;
    assert NewlineRun(s[1..][1..]) == 0;
  }

  /** A paragraph, a blank-line separator and the rest split at the separator. */
  lemma {:induction false} SplitAtSeparator(a: string, b: string)
    requires '\n' !in a
    requires b == [] || b[0] != '\n'
    ensures SplitParagraphs(a + "\n\n" + b) == [a] + SplitParagraphs(b)
    decreases |a|
  {
    var s := a + "\n\n" + b;
    if a == [] {
      assert s == "\n\n" + b;
      SeparatorRun(b);
    } else {
      assert s[0] == a[0];
      assert s[1..] == a[1..] + "\n\n" + b;
      SplitAtSeparator(a[1..], b);
      assert [a[0]] + a[1..] == a;
    }
  }

  /** Paragraphs without line feeds, joined with blank lines, split back apart. */
  lemma {:induction false} SplitJoin(ms: seq<string>)
    requires ms != []
    requires forall i :: 0 <= i < |ms| ==> ms[i] != [] && '\n' !in ms[i]
    ensures SplitParagraphs(Join(ms, "\n\n")) == ms
    decreases |ms|
  {
    if |ms| == 1 {
      SplitNoNewline(ms[0]);
    } else {
      JoinFront(ms, "\n\n");
      var rest := Join(ms[1..], "\n\n");
      if |ms| > 2 {
        JoinFront(ms[1..], "\n\n");
      }
      assert rest[0] == ms[1][0];
      SplitAtSeparator(ms[0], rest);
      SplitJoin(ms[1..]);
      assert [ms[0]] + ms[1..] == ms;
    }
  }

  /** The markup of a simple block: its one span's markup, visible and on one line. */
  lemma SimpleMarkup(n: Node)
    requires SimpleBlock(n)
    ensures var c := n.block.children[0];
      && NodeMarkup(n) == ChildMarkup(c)
      && ChildMarkup(c) != [] && '\n' !in ChildMarkup(c) && !IsBlank(ChildMarkup(c))
  {
    var c := n.block.children[0];
    var ms := Markups(n.block.children);
    assert ms == [ChildMarkup(c)];
    assert ms[..0] == [];
    var m := ChildMarkup(c);
    assert NodeMarkup(n) == Concat(ms[..0]) + m;
    if "strong" in MarksOf(c) || "em" in MarksOf(c) {
      assert !IsSpace(m[0]);
      var open := if "strong" in MarksOf(c) then "<strong>" else "<em>";
      var close := if "strong" in MarksOf(c) then "</strong>" else "</em>";
      assert m == open + c.text + close;
      assert '\n' !in m by {
        forall i | 0 <= i < |m|
          ensures m[i] != '\n'
        {
          if i < |open| {
            assert m[i] == open[i];
          } else if i < |open| + |c.text| {
            assert m[i] == c.text[i - |open|];
          } else {
            assert m[i] == close[i - |open| - |c.text|];
          }
        }
      }
    } else {
      assert m == c.text;
    }
  }

  /** Block `i` of `bs` is the round trip of node `i` of `ns`. */
  predicate AllRoundTripped(bs: seq<Block>, ns: seq<Node>) {
    |bs| == |ns| && forall i :: 0 <= i < |ns| ==> RoundTripped(bs[i], ns[i])
  }

  lemma RoundTrippedSnoc(m: Parsed, r: Parsed, ns: seq<Node>, n: Node, d: nat)
    requires AllRoundTripped(m.blocks, ns) && m.draws == d + 2 * |ns|
    requires |r.blocks| == |m.blocks| + 1 && r.blocks[..|m.blocks|] == m.blocks
    requires RoundTripped(r.blocks[|m.blocks|], n) && r.draws == m.draws + 2
    ensures AllRoundTripped(r.blocks, ns + [n]) && r.draws == d + 2 * |ns + [n]|
  {
    assert r.blocks == m.blocks + [r.blocks[|m.blocks|]];
  }

  /** The last simple paragraph adds its round-tripped block and draws two keys. */
  lemma ParaStepSimple(st: Parsed, n: Node, keys: nat -> string)
    requires SimpleBlock(n)
    ensures var r := ParaStep(st, NodeMarkup(n), keys);
      && |r.blocks| == |st.blocks| + 1 && r.blocks[..|st.blocks|] == st.blocks
      && RoundTripped(r.blocks[|st.blocks|], n) && r.draws == st.draws + 2
  {
    var c := n.block.children[0];
    SimpleMarkup(n);
    ParagraphOfMarkup(c, keys, st.draws);
  }

  /** Parsing back the markups of simple blocks gives one round-tripped block per block. */
  lemma ParasRunSimple(ns: seq<Node>, keys: nat -> string, d: nat)
    requires forall i :: 0 <= i < |ns| ==> SimpleBlock(ns[i])
    ensures var r := ParasRun(NodeMarkups(ns), keys, Parsed([], d));
      AllRoundTripped(r.blocks, ns) && r.draws == d + 2 * |ns|
  {
    var ms := NodeMarkups(ns);
    forall i | 0 <= i < |ns|
      ensures StepAdds(ms[i], ns[i], keys)
    {
      forall m: Parsed
        ensures StepAddsTo(m, ParaStep(m, ms[i], keys), ns[i])
      {
        ParaStepSimple(m, ns[i], keys);
      }
    }
    ParasRunAdding(ms, ns, keys, d);
  }

  /** `r` is `m` with one more block, round-tripped from `n`, and two more keys drawn. */
  predicate StepAddsTo(m: Parsed, r: Parsed, n: Node) {
    |r.blocks| == |m.blocks| + 1 && r.blocks[..|m.blocks|] == m.blocks
    && RoundTripped(r.blocks[|m.blocks|], n) && r.draws == m.draws + 2
  }

  /** Parsing `mk` back after any blocks adds the block round-tripped from `n`. */
  ghost predicate StepAdds(mk: string, n: Node, keys: nat -> string) {
    forall m: Parsed :: StepAddsTo(m, ParaStep(m, mk, keys), n)
  }

  /** Paragraphs each adding the block round-tripped from their node, run one after another. */
  lemma {:induction false} ParasRunAdding(ms: seq<string>, ns: seq<Node>, keys: nat -> string, d: nat)
    requires |ms| == |ns|
    requires forall i :: 0 <= i < |ns| ==> StepAdds(ms[i], ns[i], keys)
    ensures var r := ParasRun(ms, keys, Parsed([], d));
      AllRoundTripped(r.blocks, ns) && r.draws == d + 2 * |ns|
    decreases |ns|
  {
    if ns != [] {
      var n := |ns|;
      AddsPrefix(ms, ns, keys);
      ParasRunAdding(ms[..n - 1], ns[..n - 1], keys, d);
      AddsLast(ms, ns, keys, d);
    }
  }

  lemma AddsPrefix(ms: seq<string>, ns: seq<Node>, keys: nat -> string)
    requires |ms| == |ns| && ns != []
    requires forall i :: 0 <= i < |ns| ==> StepAdds(ms[i], ns[i], keys)
    ensures var pre, mpre := ns[..|ns| - 1], ms[..|ms| - 1];
      forall i :: 0 <= i < |pre| ==> StepAdds(mpre[i], pre[i], keys)
  {
    var pre, mpre := ns[..|ns| - 1], ms[..|ms| - 1];
    forall i | 0 <= i < |pre|
      ensures StepAdds(mpre[i], pre[i], keys)
    {
      assert pre[i] == ns[i] && mpre[i] == ms[i];
    }
  }

  lemma AddsLast(ms: seq<string>, ns: seq<Node>, keys: nat -> string, d: nat)
    requires |ms| == |ns| && ns != []
    requires StepAdds(ms[|ms| - 1], ns[|ns| - 1], keys)
    requires var m := ParasRun(ms[..|ms| - 1], keys, Parsed([], d));
      AllRoundTripped(m.blocks, ns[..|ns| - 1]) && m.draws == d + 2 * (|ns| - 1)
    ensures var r := ParasRun(ms, keys, Parsed([], d));
      AllRoundTripped(r.blocks, ns) && r.draws == d + 2 * |ns|
  {
    var m := ParasRun(ms[..|ms| - 1], keys, Parsed([], d));
    var r := ParasRun(ms, keys, Parsed([], d));
    ParasRunLast(ms, keys, Parsed([], d));
    assert StepAddsTo(m, r, ns[|ns| - 1]);
    RoundTrippedSnoc(m, r, ns[..|ns| - 1], ns[|ns| - 1], d);
    SnocSplit(ns);
  }

  lemma ParasRunLast(paras: seq<string>, keys: nat -> string, st: Parsed)
    requires paras != []
    ensures ParasRun(paras, keys, st)
         == ParaStep(ParasRun(paras[..|paras| - 1], keys, st), paras[|paras| - 1], keys)
  {
  }

  /**
   * A body of blocks that each hold one span of visible text on one line, without `<`, is
   * written out and parsed back as as many `normal` blocks, each with one span of the same text
   * and the mark its marker carried: `strong` if the span had it, else `em` if it had that.
   */
  lemma PlainTextRoundTrip(ns: seq<Node>, keys: nat -> string, d: nat)
    requires forall i :: 0 <= i < |ns| ==> SimpleBlock(ns[i])
    ensures var r := FormattedToBlocks(PlainText(Some(ns)), keys, d);
      && |r.blocks| == |ns|
      && forall i :: 0 <= i < |ns| ==> RoundTripped(r.blocks[i], ns[i])
  {
    var ms := NodeMarkups(ns);
    if ns == [] {
      assert PlainText(Some(ns)) == [];
      assert NonBlank([[]]) == [];
    } else {
      forall i | 0 <= i < |ms|
        ensures ms[i] != [] && '\n' !in ms[i] && !IsBlank(ms[i])
      {
        SimpleMarkup(ns[i]);
      }
      SplitJoin(ms);
      NonBlankAll(ms);
      ParasRunSimple(ns, keys, d);
    }
  }

  // ---------------------------------------------------------------------------------------
  // generateExcerpt
  // ---------------------------------------------------------------------------------------

  /** The longest excerpt kept whole. */
  const ExcerptLimit: nat := 160

  /** A text block's children's texts joined with `""` and trimmed; `""` for anything else. */
  function BlockText(n: Node): (t: string)
    ensures IsTrimmed(t)
  {
    if n.TextBlock? then Trim(Concat(Texts(n.block.children))) else []
  }

  /** `text.length > 160 ? text.substring(0, 160).trim() + "..." : text`. */
  function Cut(text: string): string {
    if |text| > ExcerptLimit then Trim(text[..ExcerptLimit]) + "..." else text
  }

  function BlockTexts(ns: seq<Node>): (ts: seq<string>)
    ensures |ts| == |ns| && forall i :: 0 <= i < |ns| ==> ts[i] == BlockText(ns[i])
  {
    seq(|ns|, i requires 0 <= i < |ns| => BlockText(ns[i]))
  }

  /** The index of the first non-empty text, or -1. */
  function FirstNonEmpty(ts: seq<string>): (r: int)
    ensures -1 <= r < |ts|
    ensures r == -1 <==> forall i :: 0 <= i < |ts| ==> ts[i] == []
    ensures r >= 0 ==> ts[r] != [] && forall i :: 0 <= i < r ==> ts[i] == []
  {
    if ts == [] then -1
    else if ts[0] != [] then 0
    else
      var r := FirstNonEmpty(ts[1..]);
      if r == -1 then -1 else r + 1
  }

  /** The index of the first node with visible text, or -1. */
  function FirstWithText(ns: seq<Node>): (r: int)
    ensures -1 <= r < |ns|
    ensures r == -1 <==> forall i :: 0 <= i < |ns| ==> BlockText(ns[i]) == []
    ensures r >= 0 ==> BlockText(ns[r]) != [] && forall i :: 0 <= i < r ==> BlockText(ns[i]) == []
  {
    var ts := BlockTexts(ns);
    var r := FirstNonEmpty(ts);
    assert r >= 0 ==> ts[r] == BlockText(ns[r]);
    r
  }

  /** `generateExcerpt(body)`: `None` stands for `null`, `Some(t)` for `{ rendered: t }`. */
  function Excerpt(body: Option<seq<Node>>): Option<string> {
    if body.None? || body.value == [] then None
    else
      var k := FirstWithText(body.value);
      if k < 0 then None else Some(Cut(BlockText(body.value[k])))
  }

  /** A trimmed text with a visible first character loses only its tail to a trim. */
  lemma TrimPrefix(t: string, n: nat)
    requires n <= |t| && t != [] && n > 0 && !IsSpace(t[0])
    ensures var r := Trim(t[..n]);
      && r != [] && |r| <= n && r == t[..|r|]
      && IsBlank(t[|r|..n]) && !IsSpace(t[|r| - 1])
  {
    var p := t[..n];
    assert LeadingSpaces(p) == 0;
    assert !IsBlank(p) by {
      assert !IsSpace(p[0]);
    }
    var r := Trim(p);
    TrimDropsBlankTail(p);
    assert p[|r|..] == t[|r|..n];
    assert r[|r| - 1] == t[|r| - 1];
  }

  /**
   * The excerpt is absent exactly when the body is absent or no block has visible text.
   * Otherwise it is cut from the first such block: that block's trimmed text if it has at most
   * 160 characters, else its first 160 characters trimmed and followed by `...`: a non-empty
   * prefix that ends in a visible character and leaves out only white space of those 160.
   */
  lemma ExcerptFacts(body: Option<seq<Node>>)
    ensures Excerpt(body).None?
        <==> body.None? || forall i :: 0 <= i < |body.value| ==> BlockText(body.value[i]) == []
    ensures Excerpt(body).Some? ==>
      var k := FirstWithText(body.value);
      var t := BlockText(body.value[k]);
      var e := Excerpt(body).value;
      && 0 <= k && t != []
      && (forall i :: 0 <= i < k ==> BlockText(body.value[i]) == [])
      && (|t| <= ExcerptLimit ==> e == t)
      && (|t| > ExcerptLimit ==>
            && e == Trim(t[..ExcerptLimit]) + "..."
            && exists n :: 0 < n <= ExcerptLimit && e == t[..n] + "..."
                 && IsBlank(t[n..ExcerptLimit]) && !IsSpace(t[n - 1]))
      && 0 < |e| <= ExcerptLimit + 3
  {
    if Excerpt(body).Some? {
      var k := FirstWithText(body.value);
      var t := BlockText(body.value[k]);
      if |t| > ExcerptLimit {
        TrimPrefix(t, ExcerptLimit);
        var r := Trim(t[..ExcerptLimit]);
        assert Excerpt(body).value == t[..|r|] + "...";
      }
    }
  }

  /** The `for (const block of body)` search with its early return. */
  method GenerateExcerpt(body: Option<seq<Node>>) returns (excerpt: Option<string>)
    ensures excerpt == Excerpt(body)
  {
    if body.None? || body.value == [] {
      return None;
    }
    var ns := body.value;
    var i := 0;
    while i < |ns|
      invariant 0 <= i <= |ns|
      invariant forall j :: 0 <= j < i ==> BlockText(ns[j]) == []
    {
      var text := BlockText(ns[i]);
      if text != [] {
        ExcerptAt(body, i);
        if |text| > ExcerptLimit {
          return Some(Trim(text[..ExcerptLimit]) + "...");
        }
        return Some(text);
      }
      i := i + 1;
    }
    ExcerptNone(body);
    return None;
  }

  /** The excerpt is cut from the block at `i` when it is the first with visible text. */
  lemma ExcerptAt(body: Option<seq<Node>>, i: nat)
    requires body.Some? && i < |body.value| && BlockText(body.value[i]) != []
    requires forall j :: 0 <= j < i ==> BlockText(body.value[j]) == []
    ensures Excerpt(body) == Some(Cut(BlockText(body.value[i])))
  {
    assert FirstWithText(body.value) == i;
  }

  lemma ExcerptNone(body: Option<seq<Node>>)
    requires body.Some? && forall j :: 0 <= j < |body.value| ==> BlockText(body.value[j]) == []
    ensures Excerpt(body) == None
  {
  }
}
