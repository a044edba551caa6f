/**
 * The inline scanner of the block converter (`parseInlineElements`): the content of one block
 * is split at inline tags, and a loop over the pieces keeps a pending text buffer, the list of
 * active marks (`strong`, `em`, `code`), a mark stack and a span counter, and emits spans.
 */
module InlineMarks {
  import opened Text
  import opened Blocks
  import HtmlCleanup

  /** The only marks the scanner ever activates. */
  const MarkNames: seq<string> := ["strong", "em", "code"]

  /** A list of marks without repetitions, drawn from `MarkNames`. */
  predicate MarkSet(marks: seq<string>) {
    NoDuplicates(marks) && forall m :: m in marks ==> m in MarkNames
  }

  // ---------------------------------------------------------------------------------------
  // Splitting at inline tags: `split(/(<\/?(?:strong|b|em|i|u|code|a)[^>]*>|<br\s*\/?>)/gi)`
  // ---------------------------------------------------------------------------------------

  /** The tag names of the split pattern. */
  const SplitNames: seq<string> := ["strong", "b", "em", "i", "u", "code", "a"]

  /** `t` starts, ignoring case, with one of `names`. */
  predicate StartsWithAny(t: string, names: seq<string>)
    decreases |names|
  {
    names != [] && (StartsWithIgnoreCase(t, names[0]) || StartsWithAny(t, names[1..]))
  }

  /**
   * Length of a match of the split pattern at the head of `s`, 0 when there is none. The
   * `<br\s*\/?>` alternative never adds a match: every such tag already matches `<b[^>]*>`
   * with the same extent, since both stop at the first `>`.
   */
  function InlineTagLen(s: string): (n: nat)
    ensures n <= |s|
    ensures n > 0 ==> n >= 2 && s[0] == '<' && s[n - 1] == '>' && '>' !in s[1..n - 1]
  {
    if |s| >= 2 && s[0] == '<' then
      var j := if s[1] == '/' then 2 else 1;
      if StartsWithAny(s[j..], SplitNames) && '>' in s[j..] then
        var k := FirstIndex(s[j..], '>');
        assert s[1..j + k] == s[1..j] + s[j..][..k];
        j + k + 1
      else 0
    else 0
  }

  /** Position of the leftmost match of the split pattern, or `|s|` when there is none. */
  function FirstInlineTag(s: string): (k: nat)
    ensures k <= |s|
    ensures k < |s| ==> InlineTagLen(s[k..]) > 0
  {
    if s == [] then 0
    else if InlineTagLen(s) > 0 then 0
    else
      var k := 1 + FirstInlineTag(s[1..]);
      assert k < |s| ==> s[k..] == s[1..][k - 1..];
      k
  }

  /** No match of the split pattern starts before the one `FirstInlineTag` finds. */
  lemma {:induction false} FirstInlineTagLeftmost(s: string, j: nat)
    requires j < FirstInlineTag(s)
    ensures InlineTagLen(s[j..]) == 0
  {
    if j > 0 {
      FirstInlineTagLeftmost(s[1..], j - 1);
      assert s[j..] == s[1..][j - 1..];
    }
  }

  /**
   * JavaScript `split` with a capturing separator: text and matched tags alternate, starting
   * and ending with a (possibly empty) text piece.
   */
  function SplitInline(s: string): (parts: seq<string>)
    ensures parts != [] && Concat(parts) == s
    decreases |s|
  {
    var i := FirstInlineTag(s);
    if i == |s| then
      assert Concat([s]) == Concat([]) + s;
      [s]
    else
      var n := InlineTagLen(s[i..]);
      var rest := SplitInline(s[i + n..]);
      ConcatAtCut(s, i, i + n, rest);
      [s[..i], s[i..i + n]] + rest
  }

  /** Cutting `s` at `i` and `j` and splitting the rest keeps the concatenation. */
  lemma ConcatAtCut(s: string, i: nat, j: nat, rest: seq<string>)
    requires i <= j <= |s| && Concat(rest) == s[j..]
    ensures Concat([s[..i], s[i..j]] + rest) == s
  {
    ConcatPairFront(s[..i], s[i..j], rest);
    CutTwice(s, i, j);
  }

  /** A case-insensitive prefix test survives cutting `s` after a `>` the name lies before. */
  lemma StartsWithPrefix(s: string, m: nat, p: string)
    requires m <= |s| && m > 0 && s[m - 1] == '>' && '>' !in p
    ensures StartsWithIgnoreCase(s, p) ==> StartsWithIgnoreCase(s[..m], p)
  {
    if StartsWithIgnoreCase(s, p) {
      if |p| >= m {
        IgnoreCaseAt(s[..|p|], p, m - 1);
      } else {
        assert s[..m][..|p|] == s[..|p|];
      }
    }
  }

  lemma SplitNamesWithoutBracket()
    ensures forall k :: 0 <= k < |SplitNames| ==> '>' !in SplitNames[k]
  {
  }

  lemma {:induction false} StartsWithAnyPrefix(s: string, m: nat, names: seq<string>)
    requires m <= |s| && m > 0 && s[m - 1] == '>'
    requires forall k :: 0 <= k < |names| ==> '>' !in names[k]
    ensures StartsWithAny(s, names) ==> StartsWithAny(s[..m], names)
    decreases |names|
  {
    if names != [] {
      StartsWithPrefix(s, m, names[0]);
      StartsWithAnyPrefix(s, m, names[1..]);
    }
  }

  /** Characters at the same position agree up to case. */
  lemma {:induction false} IgnoreCaseAt(s: string, t: string, i: nat)
    requires EqualsIgnoreCase(s, t) && i < |s|
    ensures Lower(s[i]) == Lower(t[i])
    decreases i
  {
    if i > 0 {
      IgnoreCaseAt(s[1..], t[1..], i - 1);
    }
  }

  lemma FirstIndexUnique(s: string, c: char, k: nat)
    requires k < |s| && s[k] == c && c !in s[..k]
    ensures FirstIndex(s, c) == k
  {
  }

  // ---------------------------------------------------------------------------------------
  // Classifying one piece, in the order of the branches of the loop body
  // ---------------------------------------------------------------------------------------

  /** `^<name(\s[^>]*)?>$` with the `i` flag. */
  predicate IsOpenTag(p: string, name: string) {
    |p| >= |name| + 2 && p[0] == '<' && p[|p| - 1] == '>'
    && EqualsIgnoreCase(p[1..|name| + 1], name)
    && var rest := p[|name| + 1..|p| - 1];
       '>' !in rest && (rest == [] || IsSpace(rest[0]))
  }

  /** `^<\/name>$` with the `i` flag. */
  predicate IsCloseTag(p: string, name: string) {
    |p| == |name| + 3 && p[0] == '<' && p[1] == '/' && p[|p| - 1] == '>'
    && EqualsIgnoreCase(p[2..|p| - 1], name)
  }

  /** `^<br\s*\/?>$` with the `i` flag. */
  predicate IsBreakTag(p: string) {
    p != [] && HtmlCleanup.BreakLen(p) == |p|
  }

  /** `^<\/?a[^>]*>$` with the `i` flag. */
  predicate IsAnchorTag(p: string) {
    |p| >= 3 && p[0] == '<' && p[|p| - 1] == '>' && '>' !in p[1..|p| - 1]
    && (Lower(p[1]) == 'a' || (|p| >= 4 && p[1] == '/' && Lower(p[2]) == 'a'))
  }

  /** `^<[^>]*>$`: the piece is exactly one tag. */
  predicate IsSingleTag(p: string) {
    |p| >= 2 && p[0] == '<' && p[|p| - 1] == '>' && '>' !in p[1..|p| - 1]
  }

  /** What the loop body does with a piece. */
  datatype Piece =
    | Open(mark: string)
    | Close(mark: string)
    | LineBreak
    | Anchor
    | OtherTag
    | Text(text: string)

  function Classify(p: string): (r: Piece)
    ensures (r.Open? || r.Close?) ==> r.mark in MarkNames
    ensures r.Text? <==> !IsSingleTag(p) && r == Text(p)
    ensures r.OtherTag? ==> IsSingleTag(p)
  {
    if IsOpenTag(p, "strong") || IsOpenTag(p, "b") then Open("strong")
    else if IsCloseTag(p, "strong") || IsCloseTag(p, "b") then Close("strong")
    else if IsOpenTag(p, "em") || IsOpenTag(p, "i") then Open("em")
    else if IsCloseTag(p, "em") || IsCloseTag(p, "i") then Close("em")
    else if IsOpenTag(p, "code") then Open("code")
    else if IsCloseTag(p, "code") then Close("code")
    else if IsBreakTag(p) then LineBreak
    else if IsAnchorTag(p) then Anchor
    else if IsSingleTag(p) then OtherTag
    else Text(p)
  }

  // ---------------------------------------------------------------------------------------
  // The scanner's state and one step of its loop
  // ---------------------------------------------------------------------------------------

  /** `children`, `currentText`, `currentMarks`, `markStack` and `spanKey` of the loop. */
  datatype InlineState = InlineState(
    children: seq<Child>, text: string, marks: seq<string>, stack: seq<string>, spanKey: nat)

  const Start: InlineState := InlineState([], [], [], [], 0)

  /** The key `span-{blockKey}-{k}`. */
  function SpanKey(blockKey: nat, k: nat): string {
    "span-" + NatToString(blockKey) + "-" + NatToString(k)
  }

  /** `marks.filter(m => m !== mark)`. */
  function Without(marks: seq<string>, mark: string): (r: seq<string>)
    ensures forall m :: m in r <==> m in marks && m != mark
    ensures NoDuplicates(marks) ==> NoDuplicates(r)
    ensures mark !in marks ==> r == marks
  {
    if marks == [] then []
    else if marks[0] == mark then Without(marks[1..], mark)
    else
      var r := Without(marks[1..], mark);
      if NoDuplicates(marks) then
        assert marks[0] !in marks[1..];
        NoDuplicatesCons(marks[0], r);
        [marks[0]] + r
      else [marks[0]] + r
  }

  /** `stack.splice(stack.lastIndexOf(mark), 1)` when `mark` occurs, otherwise no change. */
  function RemoveLast(stack: seq<string>, mark: string): (r: seq<string>)
    ensures mark !in stack ==> r == stack
    ensures mark in stack ==> |r| == |stack| - 1
  {
    if stack == [] then []
    else if stack[|stack| - 1] == mark then stack[..|stack| - 1]
    else RemoveLast(stack[..|stack| - 1], mark) + [stack[|stack| - 1]]
  }

  /** Flushing: a non-empty buffer becomes a span with the marks in force, keyed by the counter. */
  function Flush(st: InlineState, blockKey: nat): InlineState {
    if st.text == [] then st
    else
      st.(children := st.children + [Span(SpanKey(blockKey, st.spanKey + 1), st.text, st.marks)],
          text := [], spanKey := st.spanKey + 1)
  }

  /** One iteration of the loop body. */
  function Step(st: InlineState, part: string, blockKey: nat): InlineState {
    if part == [] then st
    else
      match Classify(part)
      case Open(m) =>
        var f := Flush(st, blockKey);
        if m in f.marks then f else f.(marks := f.marks + [m], stack := f.stack + [m])
      case Close(m) =>
        var f := Flush(st, blockKey);
        f.(marks := Without(f.marks, m), stack := RemoveLast(f.stack, m))
      case LineBreak => st.(text := st.text + "\n")
      case Anchor => st
      case OtherTag => st
      case Text(t) => st.(text := st.text + t)
  }

  /** The state after the loop has consumed `parts`. */
  function Run(parts: seq<string>, blockKey: nat): InlineState {
    if parts == [] then Start
    else Step(Run(parts[..|parts| - 1], blockKey), parts[|parts| - 1], blockKey)
  }

  /** The key `empty-span-{blockKey}` of the fallback span. */
  function EmptySpanKey(blockKey: nat): string {
    "empty-span-" + NatToString(blockKey)
  }

  /** The code after the loop: the trimmed rest of the buffer, then the fallback span. */
  function Finish(st: InlineState, blockKey: nat): seq<Child> {
    var children :=
      if IsBlank(st.text) then st.children
      else st.children + [Span(SpanKey(blockKey, st.spanKey + 1), Trim(st.text), st.marks)];
    if children == [] then [Span(EmptySpanKey(blockKey), "", [])] else children
  }

  /** What the loop and the code after it make of the pieces. */
  function ScanResult(parts: seq<string>, blockKey: nat): seq<Child> {
    Finish(Run(parts, blockKey), blockKey)
  }

  /** What `parseInlineElements(content, blockKey)` returns. */
  function InlineSpans(content: string, blockKey: nat): seq<Child> {
    ScanResult(SplitInline(content), blockKey)
  }

  /** `parseInlineElements`: the loop over the pieces of the content. */
  method ParseInlineElements(content: string, blockKey: nat) returns (children: seq<Child>)
    ensures children == InlineSpans(content, blockKey)
    ensures |children| >= 1 && forall i :: 0 <= i < |children| ==> children[i].Span?
  {
    var parts := SplitInline(content);
    children := ScanPieces(parts, blockKey);
  }

  /** The loop over the pieces and the code after it. */
  method ScanPieces(parts: seq<string>, blockKey: nat) returns (children: seq<Child>)
    ensures children == ScanResult(parts, blockKey)
    ensures |children| >= 1 && forall i :: 0 <= i < |children| ==> children[i].Span?
  {
    children := [];
    var spanKey: nat := 0;
    var currentText := "";
    var currentMarks: seq<string> := [];
    var markStack: seq<string> := [];
    var i := 0;
    while i < |parts|
      invariant 0 <= i <= |parts|
      invariant InlineState(children, currentText, currentMarks, markStack, spanKey)
             == Run(parts[..i], blockKey)
    {
      RunSnoc(parts, i, blockKey);
      children, currentText, currentMarks, markStack, spanKey :=
        ScanPiece(children, currentText, currentMarks, markStack, spanKey, parts[i], blockKey);
      i := i + 1;
    }
    assert parts[..i] == parts;
    children := FinishScan(InlineState(children, currentText, currentMarks, markStack, spanKey), blockKey);
    assert children == ScanResult(parts, blockKey);
    ScanShape(parts, blockKey);
  }

  /** The run over one more piece is one more step. */
  lemma RunSnoc(parts: seq<string>, i: nat, blockKey: nat)
    requires i < |parts|
    ensures Run(parts[..i + 1], blockKey) == Step(Run(parts[..i], blockKey), parts[i], blockKey)
  {
    assert parts[..i + 1][..i] == parts[..i];
  }

  /** The body of the loop for one piece. */
  method ScanPiece(children0: seq<Child>, currentText0: string, currentMarks0: seq<string>,
                   markStack0: seq<string>, spanKey0: nat, part: string, blockKey: nat)
    returns (children: seq<Child>, currentText: string, currentMarks: seq<string>,
             markStack: seq<string>, spanKey: nat)
    ensures InlineState(children, currentText, currentMarks, markStack, spanKey)
         == Step(InlineState(children0, currentText0, currentMarks0, markStack0, spanKey0), part, blockKey)
  {
    children, currentText, currentMarks, markStack, spanKey :=
      children0, currentText0, currentMarks0, markStack0, spanKey0;
    if part != [] {
      match Classify(part)
      case Open(m) =>
        if currentText != [] {
          spanKey := spanKey + 1;
          children := children + [Span(SpanKey(blockKey, spanKey), currentText, currentMarks)];
          currentText := "";
        }
        if m !in currentMarks {
          currentMarks := currentMarks + [m];
          markStack := markStack + [m];
        }
      case Close(m) =>
        if currentText != [] {
          spanKey := spanKey + 1;
          children := children + [Span(SpanKey(blockKey, spanKey), currentText, currentMarks)];
          currentText := "";
        }
        currentMarks := Without(currentMarks, m);
        markStack := RemoveLast(markStack, m);
      case LineBreak =>
        currentText := currentText + "\n";
      case Anchor =>
      case OtherTag =>
      case Text(t) =>
        currentText := currentText + t;
    }
  }

  /** The code after the loop: the trimmed rest of the buffer, then the fallback span. */
  method FinishScan(st: InlineState, blockKey: nat) returns (children: seq<Child>)
    ensures children == Finish(st, blockKey)
  {
    children := st.children;
    if !IsBlank(st.text) {
      var spanKey := st.spanKey + 1;
      children := children + [Span(SpanKey(blockKey, spanKey), Trim(st.text), st.marks)];
    }
    if children == [] {
      children := [Span(EmptySpanKey(blockKey), "", [])];
    }
  }

  // ---------------------------------------------------------------------------------------
  // Properties
  // ---------------------------------------------------------------------------------------

  /**
   * What the loop keeps: the `i`-th pushed span is keyed `span-{blockKey}-{i+1}`, has non-empty
   * text and a mark list without repetitions drawn from `strong`/`em`/`code`; the active
   * marks have the same property and the mark stack always equals them.
   */
  predicate WellFormed(st: InlineState, blockKey: nat) {
    |st.children| == st.spanKey
    && (forall i :: 0 <= i < |st.children| ==>
          st.children[i].Span? && st.children[i].key == SpanKey(blockKey, i + 1)
          && st.children[i].text != [] && MarkSet(st.children[i].marks))
    && MarkSet(st.marks) && st.stack == st.marks
  }

  /** Removing the last occurrence of a mark that occurs at most once removes all of them. */
  lemma {:induction false} RemoveLastOfUnique(marks: seq<string>, m: string)
    requires NoDuplicates(marks)
    ensures RemoveLast(marks, m) == Without(marks, m)
    decreases |marks|
  {
    if marks != [] {
      var init := marks[..|marks| - 1];
      var last := marks[|marks| - 1];
      assert marks == init + [last];
      WithoutAppend(init, last, m);
      if last == m {
        assert m !in init;
      } else {
        RemoveLastOfUnique(init, m);
      }
    }
  }

  lemma {:induction false} WithoutAppend(a: seq<string>, x: string, m: string)
    ensures Without(a + [x], m) == Without(a, m) + (if x == m then [] else [x])
    decreases |a|
  {
    if a == [] {
      assert [x][1..] == [];
    } else {
      assert (a + [x])[1..] == a[1..] + [x];
      WithoutAppend(a[1..], x, m);
    }
  }

  lemma FlushWellFormed(st: InlineState, blockKey: nat)
    requires WellFormed(st, blockKey)
    ensures WellFormed(Flush(st, blockKey), blockKey)
    ensures Flush(st, blockKey).marks == st.marks && Flush(st, blockKey).text == []
  {
  }

  lemma StepWellFormed(st: InlineState, part: string, blockKey: nat)
    requires WellFormed(st, blockKey)
    ensures WellFormed(Step(st, part, blockKey), blockKey)
  {
    if part != [] {
      FlushWellFormed(st, blockKey);
      var f := Flush(st, blockKey);
      match Classify(part)
      case Open(m) =>
        if m !in f.marks {
          var ms := f.marks + [m];
          forall a, b | 0 <= a < b < |ms| ensures ms[a] != ms[b] {
            if b == |ms| - 1 {
              assert ms[a] in f.marks;
            }
          }
        }
      case Close(m) =>
        RemoveLastOfUnique(f.marks, m);
      case LineBreak =>
      case Anchor =>
      case OtherTag =>
      case Text(t) =>
    }
  }

  /** The loop invariant holds after any number of pieces. */
  lemma {:induction false} RunWellFormed(parts: seq<string>, blockKey: nat)
    ensures WellFormed(Run(parts, blockKey), blockKey)
    decreases |parts|
  {
    if parts != [] {
      RunWellFormed(parts[..|parts| - 1], blockKey);
      StepWellFormed(Run(parts[..|parts| - 1], blockKey), parts[|parts| - 1], blockKey);
    }
  }

  /**
   * The result of `parseInlineElements` is never empty and holds only spans whose marks are
   * drawn without repetition from `strong`/`em`/`code`. Either every span has non-empty text
   * and the `i`-th is keyed `span-{blockKey}-{i+1}`, or the result is the single fallback span
   * `empty-span-{blockKey}` with empty text and no marks; the fallback is taken exactly when
   * the loop pushed nothing and left only white space in the buffer.
   */
  lemma ScanShape(parts: seq<string>, blockKey: nat)
    ensures var r := ScanResult(parts, blockKey);
      var st := Run(parts, blockKey);
      && |r| >= 1
      && (forall i :: 0 <= i < |r| ==> r[i].Span? && MarkSet(r[i].marks))
      && (r == [Span(EmptySpanKey(blockKey), "", [])] <==> st.children == [] && IsBlank(st.text))
      && (st.children != [] || !IsBlank(st.text) ==>
            forall i :: 0 <= i < |r| ==> r[i].text != [] && r[i].key == SpanKey(blockKey, i + 1))
  {
    RunWellFormed(parts, blockKey);
    FinishShape(Run(parts, blockKey), blockKey);
  }

  /** What the code after the loop makes of a well-formed state. */
  lemma FinishShape(st: InlineState, blockKey: nat)
    requires WellFormed(st, blockKey)
    ensures var r := Finish(st, blockKey);
      && |r| >= 1
      && (forall i :: 0 <= i < |r| ==> r[i].Span? && MarkSet(r[i].marks))
      && (r == [Span(EmptySpanKey(blockKey), "", [])] <==> st.children == [] && IsBlank(st.text))
      && (st.children != [] || !IsBlank(st.text) ==>
            forall i :: 0 <= i < |r| ==> r[i].text != [] && r[i].key == SpanKey(blockKey, i + 1))
  {
    if st.children == [] && IsBlank(st.text) {
      assert NoDuplicates<string>([]);
    } else if IsBlank(st.text) {
      KeysDiffer(blockKey, 1);
      assert st.children[0].key == SpanKey(blockKey, 1);
    } else {
      FinishPushes(st, blockKey);
    }
  }

  /** With text left in the buffer, the trimmed text is pushed as the next span. */
  lemma FinishPushes(st: InlineState, blockKey: nat)
    requires WellFormed(st, blockKey) && !IsBlank(st.text)
    ensures var r := Finish(st, blockKey);
      && r == st.children + [Span(SpanKey(blockKey, st.spanKey + 1), Trim(st.text), st.marks)]
      && (forall i :: 0 <= i < |r| ==> r[i].Span? && MarkSet(r[i].marks))
      && (forall i :: 0 <= i < |r| ==> r[i].text != [] && r[i].key == SpanKey(blockKey, i + 1))
      && r != [Span(EmptySpanKey(blockKey), "", [])]
  {
    var last := Span(SpanKey(blockKey, st.spanKey + 1), Trim(st.text), st.marks);
    var r := st.children + [last];
    KeysDiffer(blockKey, st.spanKey + 1);
    assert r[|r| - 1] == last;
    assert r != [Span(EmptySpanKey(blockKey), "", [])] by {
      if st.children == [] {
        assert r[0].key == SpanKey(blockKey, st.spanKey + 1);
      } else {
        KeysDiffer(blockKey, 1);
        assert r[0].key == SpanKey(blockKey, 1);
      }
    }
  }

  /** A loop span key never equals the fallback key. */
  lemma KeysDiffer(blockKey: nat, k: nat)
    ensures SpanKey(blockKey, k) != EmptySpanKey(blockKey)
  {
    var a := SpanKey(blockKey, k);
    var b := EmptySpanKey(blockKey);
    assert a[0] == 's' && b[0] == 'e';
  }

  /**
   * What is left in the buffer after the loop ends up, trimmed, in a final span carrying the
   * marks still active, and only when it is not blank.
   */
  lemma FinalSpanTrimmed(parts: seq<string>, blockKey: nat)
    ensures var r := ScanResult(parts, blockKey);
      var st := Run(parts, blockKey);
      !IsBlank(st.text) ==>
        r[|r| - 1] == Span(SpanKey(blockKey, |st.children| + 1), Trim(st.text), st.marks)
        && IsTrimmed(r[|r| - 1].text) && r[|r| - 1].text != []
  {
    RunWellFormed(parts, blockKey);
  }

  /** The text that the pieces contribute: text pieces verbatim, `"\n"` for each line break. */
  function Visible(parts: seq<string>): string {
    if parts == [] then []
    else Visible(parts[..|parts| - 1]) + PieceVisible(parts[|parts| - 1])
  }

  /** The text one piece contributes: its own text, `\n` for a line break, nothing for a tag. */
  function PieceVisible(p: string): string {
    if p == [] then []
    else match Classify(p)
      case Text(t) => t
      case LineBreak => "\n"
      case _ => []
  }

  /**
   * Nothing visible is lost or reordered inside the loop: the texts of the pushed spans,
   * followed by the pending buffer, spell out the visible text of the pieces consumed.
   */
  lemma {:induction false} RunKeepsText(parts: seq<string>, blockKey: nat)
    ensures var st := Run(parts, blockKey); Concat(Texts(st.children)) + st.text == Visible(parts)
    decreases |parts|
  {
    if parts != [] {
      var init := parts[..|parts| - 1];
      var p := parts[|parts| - 1];
      RunKeepsText(init, blockKey);
      StepKeepsText(Run(init, blockKey), p, blockKey);
    }
  }

  /** One step appends the piece's visible text to the spans' texts and the buffer. */
  lemma StepKeepsText(st: InlineState, p: string, blockKey: nat)
    ensures var r := Step(st, p, blockKey);
      Concat(Texts(r.children)) + r.text == Concat(Texts(st.children)) + st.text + PieceVisible(p)
  {
    if p != [] {
      match Classify(p)
      case Open(m) => FlushKeepsText(st, blockKey);
      case Close(m) => FlushKeepsText(st, blockKey);
      case LineBreak => AppendAssoc(Concat(Texts(st.children)), st.text, "\n");
      case Text(t) => AppendAssoc(Concat(Texts(st.children)), st.text, t);
      case Anchor =>
      case OtherTag =>
    }
  }

  /** Pushing the buffer as a span moves its text without changing the whole. */
  lemma FlushKeepsText(st: InlineState, blockKey: nat)
    ensures var f := Flush(st, blockKey);
      Concat(Texts(f.children)) + f.text == Concat(Texts(st.children)) + st.text
  {
    if st.text != [] {
      var f := Flush(st, blockKey);
      assert Texts(f.children) == Texts(st.children) + [st.text];
      ConcatAppend(Texts(st.children), st.text);
    }
  }

  /**
   * On an opening or closing mark tag, the pending text is pushed first, with the marks in
   * force before the tag: text in front of `</strong>` keeps `strong`.
   */
  lemma FlushBeforeMarkChange(st: InlineState, part: string, blockKey: nat)
    requires part != [] && (Classify(part).Open? || Classify(part).Close?) && st.text != []
    ensures var r := Step(st, part, blockKey);
      && r.children == st.children + [Span(SpanKey(blockKey, st.spanKey + 1), st.text, st.marks)]
      && r.text == []
      && r.spanKey == st.spanKey + 1
  {
  }

  /**
   * An opening tag activates its mark once, a closing tag deactivates it, and the buffer is
   * left empty; line breaks and text only grow the buffer.
   */
  lemma StepEffect(st: InlineState, part: string, blockKey: nat)
    requires WellFormed(st, blockKey) && part != []
    ensures var r := Step(st, part, blockKey);
      match Classify(part)
      case Open(m) => m in r.marks && (forall x :: x in r.marks <==> x in st.marks || x == m) && r.text == []
      case Close(m) => m !in r.marks && (forall x :: x in r.marks <==> x in st.marks && x != m) && r.text == []
      case LineBreak => r == st.(text := st.text + "\n")
      case Text(t) => r == st.(text := st.text + t)
      case _ => r == st
  {
  }
}
