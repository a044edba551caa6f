/**
 * The block side of the bare-URL linkifier: a span whose text holds URLs is split into
 * sub-spans, each URL sub-span linked through the block's `markDefs`; blocks and whole post
 * bodies are processed child by child and report whether anything changed.
 *
 * The random nine-character suffixes of the new keys come from a supplier `keys`, indexed by
 * the number of draws made so far; nothing is assumed about the strings it returns.
 */
module LinkBlocks {
  import opened Wrappers
  import opened Text
  import opened Blocks
  import opened Links

  // ---------------------------------------------------------------------------------------
  // The registry of link definitions
  // ---------------------------------------------------------------------------------------

  /** `mark._type === "link" && mark.href === href`. */
  predicate IsLinkTo(d: MarkDef, href: string) {
    d.kind == "link" && d.href == href
  }

  /** At most one `link` definition per href. */
  predicate UniqueLinks(defs: seq<MarkDef>) {
    forall i, j :: 0 <= i < j < |defs| && defs[i].kind == "link" && defs[j].kind == "link" ==>
      defs[i].href != defs[j].href
  }

  /** `defs.find(mark => mark._type === "link" && mark.href === href)` as an index, -1 if none. */
  function FirstLink(defs: seq<MarkDef>, href: string): (r: int)
    ensures -1 <= r < |defs|
    ensures r == -1 <==> forall i :: 0 <= i < |defs| ==> !IsLinkTo(defs[i], href)
    ensures r >= 0 ==> IsLinkTo(defs[r], href) && forall i :: 0 <= i < r ==> !IsLinkTo(defs[i], href)
    decreases |defs|
  {
    if defs == [] then -1
    else if IsLinkTo(defs[0], href) then 0
    else
      var r := FirstLink(defs[1..], href);
      if r == -1 then -1 else r + 1
  }

  /** `key` is the key of the first link definition for `href`. */
  predicate KeyFor(defs: seq<MarkDef>, href: string, key: string) {
    var i := FirstLink(defs, href);
    i >= 0 && defs[i].key == key
  }

  /** The registry after a URL is linked, and the key the URL's span is marked with. */
  datatype Registration = Registration(defs: seq<MarkDef>, key: string)

  /**
   * Reuse the first link definition for `href`, or append one under `newKey`. Either way the
   * old definitions stay in front, and the key returned is the one registered for `href`.
   */
  function Register(defs: seq<MarkDef>, href: string, newKey: string): (r: Registration)
    ensures defs <= r.defs && |r.defs| <= |defs| + 1
    ensures r.defs == defs <==> FirstLink(defs, href) >= 0
    ensures r.defs != defs ==> r.defs == defs + [MarkDef(newKey, "link", href)] && r.key == newKey
    ensures KeyFor(r.defs, href, r.key)
  {
    var i := FirstLink(defs, href);
    if i >= 0 then Registration(defs, defs[i].key)
    else
      var r := defs + [MarkDef(newKey, "link", href)];
      FirstLinkAppend(defs, MarkDef(newKey, "link", href), href);
      Registration(r, newKey)
  }

  /** Appending a definition does not change which one is first for an href already present. */
  lemma {:induction false} FirstLinkAppend(defs: seq<MarkDef>, d: MarkDef, href: string)
    ensures FirstLink(defs, href) >= 0 ==> FirstLink(defs + [d], href) == FirstLink(defs, href)
    ensures FirstLink(defs, href) == -1 && IsLinkTo(d, href) ==> FirstLink(defs + [d], href) == |defs|
  {
    var r := FirstLink(defs + [d], href);
    var i := FirstLink(defs, href);
    assert forall k :: 0 <= k < |defs| ==> (defs + [d])[k] == defs[k];
    if i >= 0 {
      assert IsLinkTo((defs + [d])[i], href);
    } else if IsLinkTo(d, href) {
      assert IsLinkTo((defs + [d])[|defs|], href);
    }
  }

  /** A key registered for an href stays registered when more definitions are added. */
  lemma KeyForKept(defs: seq<MarkDef>, href: string, key: string, href2: string, newKey: string)
    requires KeyFor(defs, href, key)
    ensures KeyFor(Register(defs, href2, newKey).defs, href, key)
  {
    var r := Register(defs, href2, newKey);
    if r.defs != defs {
      FirstLinkAppend(defs, MarkDef(newKey, "link", href2), href);
    }
  }

  /** Registering never introduces a second link definition for an href. */
  lemma RegisterKeepsUnique(defs: seq<MarkDef>, href: string, newKey: string)
    requires UniqueLinks(defs)
    ensures UniqueLinks(Register(defs, href, newKey).defs)
  {
    var r := Register(defs, href, newKey);
    if r.defs != defs {
      forall i, j | 0 <= i < j < |r.defs| && r.defs[i].kind == "link" && r.defs[j].kind == "link"
        ensures r.defs[i].href != r.defs[j].href
      {
        if j == |defs| {
          assert r.defs[i] == defs[i] && !IsLinkTo(defs[i], href);
        } else {
          assert r.defs[i] == defs[i] && r.defs[j] == defs[j];
        }
      }
    }
  }

  /** Linking an href twice reuses the definition made the first time. */
  lemma RegisterTwice(defs: seq<MarkDef>, href: string, key1: string, key2: string)
    ensures var r1 := Register(defs, href, key1);
      Register(r1.defs, href, key2) == r1
  {
  }

  /** `block.markDefs`, which `convertSpanWithUrls` extends in place. */
  class MarkDefList {
    var defs: seq<MarkDef>

    constructor (defs0: seq<MarkDef>)
      ensures defs == defs0
    {
      defs := defs0;
    }

    /** The search of `block.markDefs.find(...)`. */
    method FindLink(href: string) returns (r: int)
      ensures r == FirstLink(defs, href)
    {
      var i := 0;
      while i < |defs|
        invariant 0 <= i <= |defs|
        invariant forall k :: 0 <= k < i ==> !IsLinkTo(defs[k], href)
      {
        if IsLinkTo(defs[i], href) {
          return i;
        }
        i := i + 1;
      }
      return -1;
    }

    /** Find the link definition for `href`, or push one under `newKey`; return its key. */
    method LinkKeyFor(href: string, newKey: string) returns (key: string)
      modifies this
      ensures Registration(defs, key) == Register(old(defs), href, newKey)
    {
      var i := FindLink(href);
      if i < 0 {
        defs := defs + [MarkDef(newKey, "link", href)];
        key := newKey;
      } else {
        key := defs[i].key;
      }
    }
  }

  // ---------------------------------------------------------------------------------------
  // convertSpanWithUrls
  // ---------------------------------------------------------------------------------------

  /** `span.marks || []`. */
  function MarksOf(c: Child): seq<string> {
    if c.Span? then c.marks else []
  }

  /** `` `link-${…}` `` for the draw numbered `d`. */
  function LinkMarkKey(keys: nat -> string, d: nat): string {
    "link-" + keys(d)
  }

  /** `` `span-${…}` `` for the draw numbered `d`. */
  function NewSpanKey(keys: nat -> string, d: nat): string {
    "span-" + keys(d)
  }

  /** The spans made so far, the block's definitions, and the number of keys drawn. */
  datatype ConvState = ConvState(spans: seq<Child>, defs: seq<MarkDef>, draws: nat)

  /**
   * One part becomes one span. A URL part draws the link key first (even when an existing
   * definition is reused), then the span key; a text part draws only the span key.
   */
  function PartStep(st: ConvState, part: Part, marks: seq<string>, keys: nat -> string): ConvState {
    if part.UrlPart? then
      var reg := Register(st.defs, NormalizeUrl(part.content), LinkMarkKey(keys, st.draws));
      ConvState(st.spans + [Span(NewSpanKey(keys, st.draws + 1), part.content, marks + [reg.key])],
                reg.defs, st.draws + 2)
    else
      ConvState(st.spans + [Span(NewSpanKey(keys, st.draws), part.content, marks)],
                st.defs, st.draws + 1)
  }

  /** `parts.map(...)`, in order, threading the registry and the draws. */
  function ConvertParts(parts: seq<Part>, marks: seq<string>, keys: nat -> string, st: ConvState)
    : ConvState
  {
    if parts == [] then st
    else PartStep(ConvertParts(parts[..|parts| - 1], marks, keys, st), parts[|parts| - 1], marks, keys)
  }

  /** Whether the split of a text is the single text part `splitTextWithUrls` gives without URLs. */
  predicate Unsplit(parts: seq<Part>) {
    |parts| == 1 && parts[0].TextPart?
  }

  /** What `convertSpanWithUrls(span, block)` returns, with the block's definitions after it. */
  function ConvertSpan(span: Child, defs: seq<MarkDef>, matchers: seq<Matcher>,
                       keys: nat -> string, draws: nat): ConvState
  {
    var parts := SplitText(TextOf(span), FoundUrls(TextOf(span), matchers));
    if Unsplit(parts) then ConvState([span], defs, draws)
    else ConvertParts(parts, MarksOf(span), keys, ConvState([], defs, draws))
  }

  /**
   * The span made for `part`: it carries the part's text; a text part keeps the original marks,
   * a URL part adds after them the key registered for the URL's normalised form.
   */
  predicate Converted(c: Child, part: Part, marks: seq<string>, defs: seq<MarkDef>) {
    && c.Span? && c.text == part.content
    && (part.TextPart? ==> c.marks == marks)
    && (part.UrlPart? ==>
          |c.marks| == |marks| + 1 && c.marks[..|marks|] == marks
          && KeyFor(defs, NormalizeUrl(part.content), c.marks[|marks|]))
  }

  /**
   * Converting parts appends one span per part, in order, each `Converted` against the
   * final registry; the registry only grows, and keeps at most one link per href.
   */
  lemma ConvertPartsFacts(parts: seq<Part>, marks: seq<string>, keys: nat -> string, st: ConvState)
    ensures var r := ConvertParts(parts, marks, keys, st);
      && |r.spans| == |st.spans| + |parts| && r.spans[..|st.spans|] == st.spans
      && st.defs <= r.defs
      && (UniqueLinks(st.defs) ==> UniqueLinks(r.defs))
      && AllConverted(r.spans, |st.spans|, parts, marks, r.defs)
  {
    ConvertPartsShape(parts, marks, keys, st);
    ConvertPartsAll(parts, marks, keys, st);
  }

  /** The spans grow by one per part, and the registry only grows, keeping links unique. */
  lemma {:induction false} ConvertPartsShape(parts: seq<Part>, marks: seq<string>,
                                             keys: nat -> string, st: ConvState)
    ensures var r := ConvertParts(parts, marks, keys, st);
      && |r.spans| == |st.spans| + |parts| && r.spans[..|st.spans|] == st.spans
      && st.defs <= r.defs
      && (UniqueLinks(st.defs) ==> UniqueLinks(r.defs))
    decreases |parts|
  {
    if parts != [] {
      var m := ConvertParts(parts[..|parts| - 1], marks, keys, st);
      ConvertPartsShape(parts[..|parts| - 1], marks, keys, st);
      PartStepFacts(m, parts[|parts| - 1], marks, keys);
    }
  }

  lemma {:induction false} ConvertPartsAll(parts: seq<Part>, marks: seq<string>,
                                           keys: nat -> string, st: ConvState)
    ensures var r := ConvertParts(parts, marks, keys, st);
      AllConverted(r.spans, |st.spans|, parts, marks, r.defs)
    decreases |parts|
  {
    if parts != [] {
      var front := parts[..|parts| - 1];
      var m := ConvertParts(front, marks, keys, st);
      ConvertPartsShape(front, marks, keys, st);
      ConvertPartsAll(front, marks, keys, st);
      StepAllConverted(m, |st.spans|, front, parts[|parts| - 1], marks, keys);
      assert front + [parts[|parts| - 1]] == parts;
    }
  }

  /** From index `base` on, the spans are the parts converted one by one. */
  predicate AllConverted(spans: seq<Child>, base: nat, parts: seq<Part>, marks: seq<string>,
                         defs: seq<MarkDef>)
  {
    base + |parts| <= |spans|
    && forall k :: 0 <= k < |parts| ==> Converted(spans[base + k], parts[k], marks, defs)
  }

  /** One more part step converts one more part and keeps the earlier ones converted. */
  lemma StepAllConverted(m: ConvState, base: nat, front: seq<Part>, next: Part,
                         marks: seq<string>, keys: nat -> string)
    requires base + |front| == |m.spans| && AllConverted(m.spans, base, front, marks, m.defs)
    ensures AllConverted(PartStep(m, next, marks, keys).spans, base, front + [next], marks,
                         PartStep(m, next, marks, keys).defs)
  {
    var r := PartStep(m, next, marks, keys);
    PartStepFacts(m, next, marks, keys);
    var parts := front + [next];
    forall k | 0 <= k < |parts|
      ensures Converted(r.spans[base + k], parts[k], marks, r.defs)
    {
      if k < |front| {
        assert parts[k] == front[k];
        StepKeepsConverted(m, next, marks, keys, base + k, front[k]);
      }
    }
  }

  /** One part step appends its span, `Converted` against the new registry. */
  lemma PartStepFacts(st: ConvState, part: Part, marks: seq<string>, keys: nat -> string)
    ensures var r := PartStep(st, part, marks, keys);
      && r.spans[..|st.spans|] == st.spans && |r.spans| == |st.spans| + 1
      && st.defs <= r.defs
      && (UniqueLinks(st.defs) ==> UniqueLinks(r.defs))
      && Converted(r.spans[|st.spans|], part, marks, r.defs)
  {
    if part.UrlPart? {
      var marks' := marks + [Register(st.defs, NormalizeUrl(part.content), LinkMarkKey(keys, st.draws)).key];
      assert marks'[..|marks|] == marks;
      if UniqueLinks(st.defs) {
        RegisterKeepsUnique(st.defs, NormalizeUrl(part.content), LinkMarkKey(keys, st.draws));
      }
    }
  }

  /** A span made earlier stays in place, and converted, after one more part step. */
  lemma StepKeepsConverted(m: ConvState, next: Part, marks: seq<string>, keys: nat -> string,
                           i: nat, part: Part)
    requires i < |m.spans| && Converted(m.spans[i], part, marks, m.defs)
    ensures var r := PartStep(m, next, marks, keys);
      i < |r.spans| && Converted(r.spans[i], part, marks, r.defs)
  {
    PartStepFacts(m, next, marks, keys);
    var r := PartStep(m, next, marks, keys);
    assert r.spans[i] == r.spans[..|m.spans|][i] == m.spans[i];
    ConvertedKept(m.spans[i], part, marks, m, next, keys);
  }

  /** A span converted against a registry stays converted after one more part step. */
  lemma ConvertedKept(c: Child, part: Part, marks: seq<string>, st: ConvState, next: Part,
                      keys: nat -> string)
    requires Converted(c, part, marks, st.defs)
    ensures Converted(c, part, marks, PartStep(st, next, marks, keys).defs)
  {
    if part.UrlPart? && next.UrlPart? {
      KeyForKept(st.defs, NormalizeUrl(part.content), c.marks[|marks|],
                 NormalizeUrl(next.content), LinkMarkKey(keys, st.draws));
    }
  }

  /** Found URLs never leave the text as the single text part. */
  lemma SplitWithUrls(text: string, matchers: seq<Matcher>)
    ensures var parts := SplitText(text, FoundUrls(text, matchers));
      Unsplit(parts) <==> FoundUrls(text, matchers) == []
  {
    var urls := FoundUrls(text, matchers);
    SplitTextUrls(text, urls);
    var parts := SplitText(text, urls);
    if Unsplit(parts) {
      assert UrlsOf(parts) == UrlsOf([]) + [];
    }
  }

  /** A span without URLs is returned as it is, with the registry and the draws unchanged. */
  lemma ConvertSpanUnchanged(span: Child, defs: seq<MarkDef>, matchers: seq<Matcher>,
                             keys: nat -> string, draws: nat)
    requires FoundUrls(TextOf(span), matchers) == []
    ensures ConvertSpan(span, defs, matchers, keys, draws) == ConvState([span], defs, draws)
  {
    SplitWithUrls(TextOf(span), matchers);
  }

  /**
   * A span with URLs becomes one span per part of its split text, in order: text parts keep the
   * span's marks, URL parts add the key of the (reused or new) link definition for the
   * normalised URL; old definitions stay in front and links stay unique per href.
   */
  lemma ConvertSpanSplits(span: Child, defs: seq<MarkDef>, matchers: seq<Matcher>,
                          keys: nat -> string, draws: nat)
    requires FoundUrls(TextOf(span), matchers) != []
    ensures var parts := SplitText(TextOf(span), FoundUrls(TextOf(span), matchers));
      var r := ConvertSpan(span, defs, matchers, keys, draws);
      && |r.spans| == |parts|
      && AllConverted(r.spans, 0, parts, MarksOf(span), r.defs)
      && defs <= r.defs
      && (UniqueLinks(defs) ==> UniqueLinks(r.defs))
  {
    var text := TextOf(span);
    SplitWithUrls(text, matchers);
    var parts := SplitText(text, FoundUrls(text, matchers));
    ConvertPartsFacts(parts, MarksOf(span), keys, ConvState([], defs, draws));
  }

  /** `findUrls` finds no two URLs whose first occurrences overlap. */
  predicate NoOverlap(text: string, matchers: seq<Matcher>) {
    Disjoint(SortByIndex(Positions(text, FoundUrls(text, matchers))))
  }

  /** Converted spans carry the texts of their parts. */
  lemma ConvertedTexts(spans: seq<Child>, parts: seq<Part>, marks: seq<string>, defs: seq<MarkDef>)
    requires |spans| == |parts| && AllConverted(spans, 0, parts, marks, defs)
    ensures Texts(spans) == Contents(parts)
  {
    forall k | 0 <= k < |parts|
      ensures Texts(spans)[k] == Contents(parts)[k]
    {
      assert Converted(spans[0 + k], parts[k], marks, defs);
    }
  }

  /** Unless URLs overlap, the new spans spell the span's text exactly. */
  lemma ConvertSpanKeepsText(span: Child, defs: seq<MarkDef>, matchers: seq<Matcher>,
                             keys: nat -> string, draws: nat)
    requires NoOverlap(TextOf(span), matchers)
    ensures Concat(Texts(ConvertSpan(span, defs, matchers, keys, draws).spans)) == TextOf(span)
  {
    var text := TextOf(span);
    var urls := FoundUrls(text, matchers);
    var r := ConvertSpan(span, defs, matchers, keys, draws);
    if urls == [] {
      ConvertSpanUnchanged(span, defs, matchers, keys, draws);
      assert Texts([span]) == [] + [text];
    } else {
      ConvertSpanSplits(span, defs, matchers, keys, draws);
      var parts := SplitText(text, urls);
      ConvertedTexts(r.spans, parts, MarksOf(span), r.defs);
      FoundUrlsFacts(text, matchers);
      SplitTextRoundTrip(text, urls);
    }
  }

  /** The body of `parts.map(...)` for one part. */
  method PushPart(spans: seq<Child>, part: Part, marks: seq<string>, registry: MarkDefList,
                  keys: nat -> string, draws: nat)
    returns (spans1: seq<Child>, draws1: nat)
    modifies registry
    ensures ConvState(spans1, registry.defs, draws1)
         == PartStep(ConvState(spans, old(registry.defs), draws), part, marks, keys)
  {
    ghost var st := ConvState(spans, registry.defs, draws);
    if part.UrlPart? {
      var linkMarkKey := LinkMarkKey(keys, draws);
      var normalizedUrl := NormalizeUrl(part.content);
      var key := registry.LinkKeyFor(normalizedUrl, linkMarkKey);
      ghost var reg := Register(st.defs, normalizedUrl, linkMarkKey);
      assert key == reg.key && registry.defs == reg.defs;
      spans1 := spans + [Span(NewSpanKey(keys, draws + 1), part.content, marks + [key])];
      draws1 := draws + 2;
      UrlPartStep(st, part, marks, keys, reg);
    } else {
      spans1 := spans + [Span(NewSpanKey(keys, draws), part.content, marks)];
      draws1 := draws + 1;
      TextPartStep(st, part, marks, keys);
    }
  }

  lemma UrlPartStep(st: ConvState, part: Part, marks: seq<string>, keys: nat -> string,
                    reg: Registration)
    requires part.UrlPart?
    requires reg == Register(st.defs, NormalizeUrl(part.content), LinkMarkKey(keys, st.draws))
    ensures PartStep(st, part, marks, keys)
         == ConvState(st.spans + [Span(NewSpanKey(keys, st.draws + 1), part.content, marks + [reg.key])],
                      reg.defs, st.draws + 2)
  {
  }

  lemma TextPartStep(st: ConvState, part: Part, marks: seq<string>, keys: nat -> string)
    requires part.TextPart?
    ensures PartStep(st, part, marks, keys)
         == ConvState(st.spans + [Span(NewSpanKey(keys, st.draws), part.content, marks)],
                      st.defs, st.draws + 1)
  {
  }

  /** `convertSpanWithUrls(span, block)`, with `block.markDefs` as `registry`. */
  method ConvertSpanWithUrls(span: Child, registry: MarkDefList, matchers: seq<Matcher>,
                             keys: nat -> string, draws: nat)
    returns (spans: seq<Child>, draws1: nat)
    modifies registry
    ensures ConvState(spans, registry.defs, draws1)
         == ConvertSpan(span, old(registry.defs), matchers, keys, draws)
  {
    var text := TextOf(span);
    var parts := SplitTextWithUrls(text, matchers);
    if |parts| == 1 && parts[0].TextPart? {
      return [span], draws;
    }
    var marks := MarksOf(span);
    ghost var st0 := ConvState([], registry.defs, draws);
    spans := [];
    draws1 := draws;
    for k := 0 to |parts|
      invariant ConvState(spans, registry.defs, draws1) == ConvertParts(parts[..k], marks, keys, st0)
    {
      ConvertPartsSnoc(parts, k, marks, keys, st0);
      spans, draws1 := PushPart(spans, parts[k], marks, registry, keys, draws1);
    }
    assert parts[..|parts|] == parts;
  }

  lemma ConvertPartsSnoc(parts: seq<Part>, k: nat, marks: seq<string>, keys: nat -> string,
                         st: ConvState)
    requires k < |parts|
    ensures ConvertParts(parts[..k + 1], marks, keys, st)
         == PartStep(ConvertParts(parts[..k], marks, keys, st), parts[k], marks, keys)
  {
    assert parts[..k + 1][..k] == parts[..k];
  }

  // ---------------------------------------------------------------------------------------
  // processBlock
  // ---------------------------------------------------------------------------------------

  /** `child._type === "span" && child.text && !hasLinkMark(child)`. */
  predicate Eligible(c: Child) {
    c.Span? && c.text != [] && !HasLinkMark(c.marks)
  }

  /** The children `processBlock` converts: eligible spans in which `findUrls` finds a URL. */
  predicate Splits(c: Child, matchers: seq<Matcher>) {
    Eligible(c) && FoundUrls(c.text, matchers) != []
  }

  /** `newChildren`, `block.markDefs`, the draws and `modified` during the loop. */
  datatype BlockState = BlockState(children: seq<Child>, defs: seq<MarkDef>, draws: nat, modified: bool)

  /** What the loop turns one child into, given the state before it. */
  function Piece(st: BlockState, c: Child, matchers: seq<Matcher>, keys: nat -> string)
    : seq<Child>
  {
    if Splits(c, matchers) then ConvertSpan(c, st.defs, matchers, keys, st.draws).spans else [c]
  }

  function ChildStep(st: BlockState, c: Child, matchers: seq<Matcher>, keys: nat -> string)
    : BlockState
  {
    if Splits(c, matchers) then
      var cv := ConvertSpan(c, st.defs, matchers, keys, st.draws);
      BlockState(st.children + cv.spans, cv.defs, cv.draws, true)
    else
      BlockState(st.children + [c], st.defs, st.draws, st.modified)
  }

  /** The loop over `block.children`. */
  function ChildrenRun(cs: seq<Child>, matchers: seq<Matcher>, keys: nat -> string,
                       st: BlockState): BlockState
  {
    if cs == [] then st
    else ChildStep(ChildrenRun(cs[..|cs| - 1], matchers, keys, st), cs[|cs| - 1], matchers, keys)
  }

  /** The pieces the children become, in order. */
  function Pieces(cs: seq<Child>, matchers: seq<Matcher>, keys: nat -> string, st: BlockState)
    : (ps: seq<seq<Child>>)
    ensures |ps| == |cs|
  {
    if cs == [] then []
    else
      var front := cs[..|cs| - 1];
      Pieces(front, matchers, keys, st)
        + [Piece(ChildrenRun(front, matchers, keys, st), cs[|cs| - 1], matchers, keys)]
  }

  function Flatten(pss: seq<seq<Child>>): seq<Child> {
    if pss == [] then [] else Flatten(pss[..|pss| - 1]) + pss[|pss| - 1]
  }

  /** What `processBlock` returns, with the number of keys drawn after it. */
  datatype Processed = Processed(node: Node, modified: bool, draws: nat)

  function ProcessBlockSpec(node: Node, matchers: seq<Matcher>, keys: nat -> string, draws: nat)
    : Processed
  {
    if node.OtherNode? then Processed(node, false, draws)
    else
      var b := node.block;
      var st := ChildrenRun(b.children, matchers, keys, BlockState([], b.markDefs, draws, false));
      if st.modified then
        Processed(TextBlock(b.(children := st.children, markDefs := st.defs)), true, st.draws)
      else Processed(node, false, draws)
  }

  /** Some child of a text block is an eligible span holding a URL. */
  predicate NeedsLinks(node: Node, matchers: seq<Matcher>) {
    node.TextBlock? &&
    exists i :: 0 <= i < |node.block.children| && Splits(node.block.children[i], matchers)
  }

  /**
   * The loop sets `modified` exactly when some child is split; without a split it copies the
   * children and leaves the registry and the draws alone.
   */
  lemma {:induction false} ChildrenRunModified(cs: seq<Child>, matchers: seq<Matcher>,
                                               keys: nat -> string, st: BlockState)
    ensures ChildrenRun(cs, matchers, keys, st).modified
        <==> st.modified || exists i :: 0 <= i < |cs| && Splits(cs[i], matchers)
  {
    ChildrenRunAnySplit(cs, matchers, keys, st);
    AnySplitIff(cs, matchers);
  }

  /** Some child splits, counted from the back the way the loop state is built. */
  predicate AnySplit(cs: seq<Child>, matchers: seq<Matcher>) {
    cs != [] && (AnySplit(cs[..|cs| - 1], matchers) || Splits(cs[|cs| - 1], matchers))
  }

  lemma {:induction false} ChildrenRunAnySplit(cs: seq<Child>, matchers: seq<Matcher>,
                                               keys: nat -> string, st: BlockState)
    ensures ChildrenRun(cs, matchers, keys, st).modified <==> st.modified || AnySplit(cs, matchers)
    decreases |cs|
  {
    if cs != [] {
      var front := cs[..|cs| - 1];
      ChildrenRunAnySplit(front, matchers, keys, st);
      ChildStepFacts(ChildrenRun(front, matchers, keys, st), cs[|cs| - 1], matchers, keys);
    }
  }

  lemma {:induction false} AnySplitIff(cs: seq<Child>, matchers: seq<Matcher>)
    ensures AnySplit(cs, matchers) <==> exists i :: 0 <= i < |cs| && Splits(cs[i], matchers)
    decreases |cs|
  {
    if cs != [] {
      var front := cs[..|cs| - 1];
      AnySplitIff(front, matchers);
      if AnySplit(cs, matchers) {
        if Splits(cs[|cs| - 1], matchers) {
        } else {
          var i :| 0 <= i < |front| && Splits(front[i], matchers);
          assert cs[i] == front[i];
        }
      } else {
        forall i | 0 <= i < |cs| ensures !Splits(cs[i], matchers) {
          if i < |front| {
            assert cs[i] == front[i];
          }
        }
      }
    }
  }

  /** Without a split the loop copies the children and leaves the rest of the state alone. */
  lemma {:induction false} ChildrenRunCopies(cs: seq<Child>, matchers: seq<Matcher>,
                                             keys: nat -> string, st: BlockState)
    requires forall i :: 0 <= i < |cs| ==> !Splits(cs[i], matchers)
    ensures ChildrenRun(cs, matchers, keys, st) == st.(children := st.children + cs)
    decreases |cs|
  {
    if cs != [] {
      var front := cs[..|cs| - 1];
      ChildrenRunCopies(front, matchers, keys, st);
      ChildStepFacts(ChildrenRun(front, matchers, keys, st), cs[|cs| - 1], matchers, keys);
      assert cs == front + [cs[|cs| - 1]];
    }
  }

  /** One step appends the child's piece; it sets `modified` exactly when the child splits. */
  lemma ChildStepFacts(st: BlockState, c: Child, matchers: seq<Matcher>, keys: nat -> string)
    ensures var r := ChildStep(st, c, matchers, keys);
      && r.children == st.children + Piece(st, c, matchers, keys)
      && (r.modified <==> st.modified || Splits(c, matchers))
      && (!Splits(c, matchers) ==> r == st.(children := st.children + [c]))
  {
  }

  /** The registry only grows, and keeps at most one link per href. */
  lemma {:induction false} ChildrenRunDefs(cs: seq<Child>, matchers: seq<Matcher>,
                                           keys: nat -> string, st: BlockState)
    ensures var r := ChildrenRun(cs, matchers, keys, st);
      st.defs <= r.defs && (UniqueLinks(st.defs) ==> UniqueLinks(r.defs))
    decreases |cs|
  {
    if cs != [] {
      var front := cs[..|cs| - 1];
      var m := ChildrenRun(front, matchers, keys, st);
      ChildrenRunDefs(front, matchers, keys, st);
      var c := cs[|cs| - 1];
      if Splits(c, matchers) {
        ConvertSpanSplits(c, m.defs, matchers, keys, m.draws);
      }
    }
  }

  /** The new children are the pieces of the old ones, in order. */
  lemma {:induction false} ChildrenRunPieces(cs: seq<Child>, matchers: seq<Matcher>,
                                             keys: nat -> string, st: BlockState)
    ensures ChildrenRun(cs, matchers, keys, st).children
         == st.children + Flatten(Pieces(cs, matchers, keys, st))
    decreases |cs|
  {
    if cs != [] {
      var front := cs[..|cs| - 1];
      var m := ChildrenRun(front, matchers, keys, st);
      var pf := Pieces(front, matchers, keys, st);
      var piece := Piece(m, cs[|cs| - 1], matchers, keys);
      ChildrenRunPieces(front, matchers, keys, st);
      RunSnoc(cs, matchers, keys, st);
      PiecesSnoc(cs, matchers, keys, st);
      FlattenSnoc(pf, piece);
      AppendAfter(ChildrenRun(cs, matchers, keys, st).children, m.children, st.children,
                  Flatten(pf), piece, Flatten(Pieces(cs, matchers, keys, st)));
    }
  }

  /** The last child adds its piece to the children made so far. */
  lemma RunSnoc(cs: seq<Child>, matchers: seq<Matcher>, keys: nat -> string, st: BlockState)
    requires cs != []
    ensures var front := ChildrenRun(cs[..|cs| - 1], matchers, keys, st);
      ChildrenRun(cs, matchers, keys, st).children
        == front.children + Piece(front, cs[|cs| - 1], matchers, keys)
  {
    ChildStepFacts(ChildrenRun(cs[..|cs| - 1], matchers, keys, st), cs[|cs| - 1], matchers, keys);
  }

  /** The pieces of `cs` are those of its front and the piece of the last child. */
  lemma PiecesSnoc(cs: seq<Child>, matchers: seq<Matcher>, keys: nat -> string, st: BlockState)
    requires cs != []
    ensures var front := cs[..|cs| - 1];
      Pieces(cs, matchers, keys, st)
        == Pieces(front, matchers, keys, st)
         + [Piece(ChildrenRun(front, matchers, keys, st), cs[|cs| - 1], matchers, keys)]
  {
  }

  lemma FlattenSnoc(pss: seq<seq<Child>>, p: seq<Child>)
    ensures Flatten(pss + [p]) == Flatten(pss) + p
  {
    assert (pss + [p])[..|pss|] == pss;
  }

  /**
   * A child that is not split is its own piece; a split child's piece is a non-empty run of
   * spans, each carrying the child's marks first.
   */
  predicate PieceOf(p: seq<Child>, c: Child, matchers: seq<Matcher>) {
    && (!Splits(c, matchers) ==> p == [c])
    && (Splits(c, matchers) ==>
          p != [] && forall k :: 0 <= k < |p| ==> p[k].Span? && c.marks <= p[k].marks)
  }

  /** Each piece is `PieceOf` its child, and spells the child's text unless URLs overlap. */
  lemma PieceFacts(st: BlockState, c: Child, matchers: seq<Matcher>, keys: nat -> string)
    ensures var p := Piece(st, c, matchers, keys);
      && PieceOf(p, c, matchers)
      && (Splits(c, matchers) && NoOverlap(c.text, matchers) ==> Concat(Texts(p)) == c.text)
      && (!Splits(c, matchers) ==> Concat(Texts(p)) == TextOf(c))
  {
    if Splits(c, matchers) {
      var r := ConvertSpan(c, st.defs, matchers, keys, st.draws);
      var parts := SplitText(c.text, FoundUrls(c.text, matchers));
      ConvertSpanSplits(c, st.defs, matchers, keys, st.draws);
      SplitWithUrls(c.text, matchers);
      forall k | 0 <= k < |r.spans|
        ensures r.spans[k].Span? && c.marks <= r.spans[k].marks
      {
        assert Converted(r.spans[0 + k], parts[k], c.marks, r.defs);
      }
      if NoOverlap(c.text, matchers) {
        ConvertSpanKeepsText(c, st.defs, matchers, keys, st.draws);
      }
    } else {
      assert Texts([c]) == [] + [TextOf(c)];
    }
  }

  /** Piece `i` is made from child `i` in the state the loop has reached by then. */
  lemma {:induction false} PiecesAt(cs: seq<Child>, matchers: seq<Matcher>, keys: nat -> string,
                                    st: BlockState, i: nat)
    requires i < |cs|
    ensures Pieces(cs, matchers, keys, st)[i]
         == Piece(ChildrenRun(cs[..i], matchers, keys, st), cs[i], matchers, keys)
    decreases |cs|, 1
  {
    if i < |cs| - 1 {
      PiecesAtFront(cs, matchers, keys, st, i);
    } else {
      PiecesAtLast(cs, matchers, keys, st);
    }
  }

  lemma {:induction false} PiecesAtFront(cs: seq<Child>, matchers: seq<Matcher>, keys: nat -> string,
                                         st: BlockState, i: nat)
    requires i < |cs| - 1
    ensures Pieces(cs, matchers, keys, st)[i]
         == Piece(ChildrenRun(cs[..i], matchers, keys, st), cs[i], matchers, keys)
    decreases |cs|, 0
  {
    var front := cs[..|cs| - 1];
    PiecesAt(front, matchers, keys, st, i);
    PiecesSnoc(cs, matchers, keys, st);
    SnocAt(Pieces(front, matchers, keys, st),
           Piece(ChildrenRun(front, matchers, keys, st), cs[|cs| - 1], matchers, keys), i);
    FrontAt(cs, i);
  }

  lemma PiecesAtLast(cs: seq<Child>, matchers: seq<Matcher>, keys: nat -> string, st: BlockState)
    requires cs != []
    ensures var i := |cs| - 1;
      Pieces(cs, matchers, keys, st)[i]
        == Piece(ChildrenRun(cs[..i], matchers, keys, st), cs[i], matchers, keys)
  {
    var front := cs[..|cs| - 1];
    PiecesSnoc(cs, matchers, keys, st);
    SnocAt(Pieces(front, matchers, keys, st),
           Piece(ChildrenRun(front, matchers, keys, st), cs[|cs| - 1], matchers, keys), |cs| - 1);
  }

  /** Unless a split child's URLs overlap, the pieces spell the children's text. */
  lemma {:induction false} PiecesKeepText(cs: seq<Child>, matchers: seq<Matcher>,
                                          keys: nat -> string, st: BlockState)
    requires forall i :: 0 <= i < |cs| && Splits(cs[i], matchers) ==> NoOverlap(cs[i].text, matchers)
    ensures Concat(Texts(Flatten(Pieces(cs, matchers, keys, st)))) == Concat(Texts(cs))
    decreases |cs|
  {
    if cs != [] {
      var front := cs[..|cs| - 1];
      var c := cs[|cs| - 1];
      var m := ChildrenRun(front, matchers, keys, st);
      var pf := Pieces(front, matchers, keys, st);
      var piece := Piece(m, c, matchers, keys);
      FrontNoOverlap(cs, matchers);
      PiecesKeepText(front, matchers, keys, st);
      LastPieceText(cs, matchers, keys, st);
      PiecesTextsSnoc(cs, matchers, keys, st);
      ChildTextsSnoc(cs);
      AppendEqual(Concat(Texts(Flatten(Pieces(cs, matchers, keys, st)))), Concat(Texts(Flatten(pf))),
                  Concat(Texts(piece)), Concat(Texts(front)), TextOf(c));
    }
  }

  /** The text of the pieces of `cs`: that of its front's pieces, then the last piece's. */
  lemma PiecesTextsSnoc(cs: seq<Child>, matchers: seq<Matcher>, keys: nat -> string, st: BlockState)
    requires cs != []
    ensures var front := cs[..|cs| - 1];
      Concat(Texts(Flatten(Pieces(cs, matchers, keys, st))))
        == Concat(Texts(Flatten(Pieces(front, matchers, keys, st))))
         + Concat(Texts(Piece(ChildrenRun(front, matchers, keys, st), cs[|cs| - 1], matchers, keys)))
  {
    var front := cs[..|cs| - 1];
    PiecesSnoc(cs, matchers, keys, st);
    FlattenSnocTexts(Pieces(front, matchers, keys, st),
                     Piece(ChildrenRun(front, matchers, keys, st), cs[|cs| - 1], matchers, keys));
  }

  lemma ChildTextsSnoc(cs: seq<Child>)
    requires cs != []
    ensures Concat(Texts(cs)) == Concat(Texts(cs[..|cs| - 1])) + TextOf(cs[|cs| - 1])
  {
    TextsSnoc(cs[..|cs| - 1], cs[|cs| - 1]);
    assert cs == cs[..|cs| - 1] + [cs[|cs| - 1]];
  }

  lemma FrontNoOverlap(cs: seq<Child>, matchers: seq<Matcher>)
    requires cs != []
    requires forall i :: 0 <= i < |cs| && Splits(cs[i], matchers) ==> NoOverlap(cs[i].text, matchers)
    ensures var front := cs[..|cs| - 1];
      forall i :: 0 <= i < |front| && Splits(front[i], matchers) ==> NoOverlap(front[i].text, matchers)
  {
    var front := cs[..|cs| - 1];
    forall i | 0 <= i < |front| && Splits(front[i], matchers)
      ensures NoOverlap(front[i].text, matchers)
    {
      assert front[i] == cs[i];
    }
  }

  /** The last child's piece spells its text. */
  lemma LastPieceText(cs: seq<Child>, matchers: seq<Matcher>, keys: nat -> string, st: BlockState)
    requires cs != []
    requires forall i :: 0 <= i < |cs| && Splits(cs[i], matchers) ==> NoOverlap(cs[i].text, matchers)
    ensures var c := cs[|cs| - 1];
      Concat(Texts(Piece(ChildrenRun(cs[..|cs| - 1], matchers, keys, st), c, matchers, keys))) == TextOf(c)
  {
    var c := cs[|cs| - 1];
    PieceFacts(ChildrenRun(cs[..|cs| - 1], matchers, keys, st), c, matchers, keys);
    if Splits(c, matchers) {
      assert NoOverlap(cs[|cs| - 1].text, matchers);
    }
  }

  lemma FlattenSnocTexts(pss: seq<seq<Child>>, p: seq<Child>)
    ensures Concat(Texts(Flatten(pss + [p]))) == Concat(Texts(Flatten(pss))) + Concat(Texts(p))
  {
    FlattenSnoc(pss, p);
    TextsAppend(Flatten(pss), p);
    ConcatJoin(Texts(Flatten(pss)), Texts(p));
  }

  lemma TextsSnoc(cs: seq<Child>, c: Child)
    ensures Concat(Texts(cs + [c])) == Concat(Texts(cs)) + TextOf(c)
  {
    TextsAppend(cs, [c]);
    assert Texts([c]) == [TextOf(c)];
    ConcatAppend(Texts(cs), TextOf(c));
  }

  /** The children of a text block after `processBlock`, as pieces of its children. */
  function NewChildrenPieces(b: Block, matchers: seq<Matcher>, keys: nat -> string, draws: nat)
    : seq<seq<Child>>
  {
    Pieces(b.children, matchers, keys, BlockState([], b.markDefs, draws, false))
  }

  /** `processBlock` reports a change exactly when some eligible span holds a URL. */
  lemma ProcessBlockModified(node: Node, matchers: seq<Matcher>, keys: nat -> string, draws: nat)
    ensures ProcessBlockSpec(node, matchers, keys, draws).modified <==> NeedsLinks(node, matchers)
  {
    if node.TextBlock? {
      var b := node.block;
      ChildrenRunModified(b.children, matchers, keys, BlockState([], b.markDefs, draws, false));
    }
  }

  /** A node that needs no link comes back as it was, and no key is drawn. */
  lemma ProcessBlockUnchanged(node: Node, matchers: seq<Matcher>, keys: nat -> string, draws: nat)
    requires !NeedsLinks(node, matchers)
    ensures ProcessBlockSpec(node, matchers, keys, draws) == Processed(node, false, draws)
  {
    ProcessBlockModified(node, matchers, keys, draws);
  }

  /**
   * A text block stays a text block with its key, style and list role; its children are the
   * pieces of the old children in order (unsplit children copied as they are, split ones
   * replaced by spans that keep their marks); the old definitions stay in front and links stay
   * unique per href.
   */
  lemma ProcessBlockShape(node: Node, matchers: seq<Matcher>, keys: nat -> string, draws: nat)
    requires node.TextBlock?
    ensures var r := ProcessBlockSpec(node, matchers, keys, draws).node;
      var b := node.block;
      var ps := NewChildrenPieces(b, matchers, keys, draws);
      && r.TextBlock?
      && r.block.key == b.key && r.block.style == b.style && r.block.listItem == b.listItem
      && r.block.children == Flatten(ps)
      && (forall i :: 0 <= i < |ps| ==> PieceOf(ps[i], b.children[i], matchers))
      && b.markDefs <= r.block.markDefs
      && (UniqueLinks(b.markDefs) ==> UniqueLinks(r.block.markDefs))
  {
    var b := node.block;
    var st0 := BlockState([], b.markDefs, draws, false);
    var ps := NewChildrenPieces(b, matchers, keys, draws);
    ChildrenRunPieces(b.children, matchers, keys, st0);
    ChildrenRunDefs(b.children, matchers, keys, st0);
    ChildrenRunModified(b.children, matchers, keys, st0);
    if !NeedsLinks(node, matchers) {
      ChildrenRunCopies(b.children, matchers, keys, st0);
      assert [] + b.children == b.children;
    }
    forall i | 0 <= i < |ps|
      ensures PieceOf(ps[i], b.children[i], matchers)
    {
      PiecesAt(b.children, matchers, keys, st0, i);
      PieceFacts(ChildrenRun(b.children[..i], matchers, keys, st0), b.children[i], matchers, keys);
    }
  }

  /** Unless a converted span's URLs overlap, the block's text is what it was. */
  lemma ProcessBlockKeepsText(node: Node, matchers: seq<Matcher>, keys: nat -> string, draws: nat)
    requires node.TextBlock?
    requires forall i :: (0 <= i < |node.block.children| && Splits(node.block.children[i], matchers)
      ==> NoOverlap(node.block.children[i].text, matchers))
    ensures var r := ProcessBlockSpec(node, matchers, keys, draws).node;
      r.TextBlock? && Concat(Texts(r.block.children)) == Concat(Texts(node.block.children))
  {
    var b := node.block;
    ProcessBlockShape(node, matchers, keys, draws);
    PiecesKeepText(b.children, matchers, keys, BlockState([], b.markDefs, draws, false));
  }

  /** The body of the loop of `processBlock` for one child. */
  method ProcessChild(children: seq<Child>, c: Child, registry: MarkDefList, matchers: seq<Matcher>,
                      keys: nat -> string, draws: nat, modified: bool)
    returns (children1: seq<Child>, draws1: nat, modified1: bool)
    modifies registry
    ensures BlockState(children1, registry.defs, draws1, modified1)
         == ChildStep(BlockState(children, old(registry.defs), draws, modified), c, matchers, keys)
  {
    if c.Span? && c.text != [] && !HasLinkMark(c.marks) {
      var urls := FindUrls(c.text, matchers);
      if |urls| > 0 {
        var newSpans;
        newSpans, draws1 := ConvertSpanWithUrls(c, registry, matchers, keys, draws);
        return children + newSpans, draws1, true;
      }
    }
    return children + [c], draws, modified;
  }

  /** `processBlock(block)`; the definitions it adds go to a registry made from the block's. */
  method ProcessBlock(node: Node, matchers: seq<Matcher>, keys: nat -> string, draws: nat)
    returns (result: Node, modified: bool, draws1: nat)
    ensures Processed(result, modified, draws1) == ProcessBlockSpec(node, matchers, keys, draws)
  {
    if node.OtherNode? {
      return node, false, draws;
    }
    var block := node.block;
    var registry := new MarkDefList(block.markDefs);
    var newChildren: seq<Child> := [];
    ghost var st0 := BlockState([], block.markDefs, draws, false);
    modified := false;
    draws1 := draws;
    for k := 0 to |block.children|
      invariant BlockState(newChildren, registry.defs, draws1, modified)
             == ChildrenRun(block.children[..k], matchers, keys, st0)
    {
      ChildrenRunSnoc(block.children, k, matchers, keys, st0);
      newChildren, draws1, modified :=
        ProcessChild(newChildren, block.children[k], registry, matchers, keys, draws1, modified);
    }
    assert block.children[..|block.children|] == block.children;
    if modified {
      result := TextBlock(block.(children := newChildren, markDefs := registry.defs));
    } else {
      result, draws1 := node, draws;
    }
  }

  lemma ChildrenRunSnoc(cs: seq<Child>, k: nat, matchers: seq<Matcher>, keys: nat -> string,
                        st: BlockState)
    requires k < |cs|
    ensures ChildrenRun(cs[..k + 1], matchers, keys, st)
         == ChildStep(ChildrenRun(cs[..k], matchers, keys, st), cs[k], matchers, keys)
  {
    assert cs[..k + 1][..k] == cs[..k];
  }

  // ---------------------------------------------------------------------------------------
  // processPostBody
  // ---------------------------------------------------------------------------------------

  /** `newBody`, `modified` and the draws during `body.map(...)`. */
  datatype BodyState = BodyState(nodes: seq<Node>, modified: bool, draws: nat)

  function NodeStep(st: BodyState, node: Node, matchers: seq<Matcher>, keys: nat -> string)
    : BodyState
  {
    var r := ProcessBlockSpec(node, matchers, keys, st.draws);
    BodyState(st.nodes + [r.node], st.modified || r.modified, r.draws)
  }

  function BodyRun(ns: seq<Node>, matchers: seq<Matcher>, keys: nat -> string, st: BodyState)
    : BodyState
  {
    if ns == [] then st
    else NodeStep(BodyRun(ns[..|ns| - 1], matchers, keys, st), ns[|ns| - 1], matchers, keys)
  }

  /** What `processPostBody` returns; a body that is not an array is `None`. */
  datatype BodyResult = BodyResult(body: Option<seq<Node>>, modified: bool, draws: nat)

  function ProcessPostBodySpec(body: Option<seq<Node>>, matchers: seq<Matcher>,
                               keys: nat -> string, draws: nat): BodyResult
  {
    match body
    case None => BodyResult(None, false, draws)
    case Some(ns) =>
      var st := BodyRun(ns, matchers, keys, BodyState([], false, draws));
      BodyResult(Some(st.nodes), st.modified, st.draws)
  }

  /**
   * `n1` is what `processBlock` may make of `n0`: other nodes and nodes needing no link are
   * kept as they are; a text block keeps its key, style and list role, the old definitions
   * stay in front and links stay unique per href.
   */
  predicate Refines(n0: Node, n1: Node, matchers: seq<Matcher>) {
    && (!NeedsLinks(n0, matchers) ==> n1 == n0)
    && (n0.TextBlock? ==>
          && n1.TextBlock?
          && n1.block.key == n0.block.key && n1.block.style == n0.block.style
          && n1.block.listItem == n0.block.listItem
          && n0.block.markDefs <= n1.block.markDefs
          && (UniqueLinks(n0.block.markDefs) ==> UniqueLinks(n1.block.markDefs)))
  }

  lemma ProcessBlockRefines(node: Node, matchers: seq<Matcher>, keys: nat -> string, draws: nat)
    ensures Refines(node, ProcessBlockSpec(node, matchers, keys, draws).node, matchers)
  {
    if !NeedsLinks(node, matchers) {
      ProcessBlockUnchanged(node, matchers, keys, draws);
    }
    if node.TextBlock? {
      ProcessBlockShape(node, matchers, keys, draws);
    }
  }

  /** From index `base` on, the nodes are the results for `ns`, one by one. */
  predicate AllRefined(nodes: seq<Node>, base: nat, ns: seq<Node>, matchers: seq<Matcher>) {
    base + |ns| == |nodes|
    && forall i :: 0 <= i < |ns| ==> Refines(ns[i], nodes[base + i], matchers)
  }

  /** Some node needs a link, counted from the back the way the loop state is built. */
  predicate AnyNeeds(ns: seq<Node>, matchers: seq<Matcher>) {
    ns != [] && (AnyNeeds(ns[..|ns| - 1], matchers) || NeedsLinks(ns[|ns| - 1], matchers))
  }

  lemma {:induction false} AnyNeedsIff(ns: seq<Node>, matchers: seq<Matcher>)
    ensures AnyNeeds(ns, matchers) <==> exists i :: 0 <= i < |ns| && NeedsLinks(ns[i], matchers)
    decreases |ns|
  {
    if ns != [] {
      var front := ns[..|ns| - 1];
      AnyNeedsIff(front, matchers);
      if AnyNeeds(ns, matchers) {
        if !NeedsLinks(ns[|ns| - 1], matchers) {
          var i :| 0 <= i < |front| && NeedsLinks(front[i], matchers);
          assert ns[i] == front[i];
        }
      } else {
        forall i | 0 <= i < |ns| ensures !NeedsLinks(ns[i], matchers) {
          if i < |front| {
            assert ns[i] == front[i];
          }
        }
      }
    }
  }

  /** The map keeps the nodes before it, adds one result per node, and ors the flags. */
  lemma {:induction false} BodyRunFacts(ns: seq<Node>, matchers: seq<Matcher>, keys: nat -> string,
                                        st: BodyState)
    ensures var r := BodyRun(ns, matchers, keys, st);
      && |r.nodes| == |st.nodes| + |ns| && r.nodes[..|st.nodes|] == st.nodes
      && AllRefined(r.nodes, |st.nodes|, ns, matchers)
      && (r.modified <==> st.modified || AnyNeeds(ns, matchers))
    decreases |ns|
  {
    if ns != [] {
      var front := ns[..|ns| - 1];
      var node := ns[|ns| - 1];
      var m := BodyRun(front, matchers, keys, st);
      BodyRunFacts(front, matchers, keys, st);
      ProcessBlockRefines(node, matchers, keys, m.draws);
      ProcessBlockModified(node, matchers, keys, m.draws);
      var n1 := ProcessBlockSpec(node, matchers, keys, m.draws).node;
      var r := NodeStep(m, node, matchers, keys);
      assert r.nodes == m.nodes + [n1];
      assert r.nodes[..|st.nodes|] == m.nodes[..|st.nodes|];
      AllRefinedSnoc(m.nodes, |st.nodes|, ns, n1, matchers);
    }
  }

  lemma AllRefinedSnoc(nodes: seq<Node>, base: nat, ns: seq<Node>, n1: Node, matchers: seq<Matcher>)
    requires ns != [] && AllRefined(nodes, base, ns[..|ns| - 1], matchers)
    requires Refines(ns[|ns| - 1], n1, matchers)
    ensures AllRefined(nodes + [n1], base, ns, matchers)
  {
    var front := ns[..|ns| - 1];
    forall i | 0 <= i < |ns|
      ensures Refines(ns[i], (nodes + [n1])[base + i], matchers)
    {
      if i < |front| {
        assert ns[i] == front[i];
        assert (nodes + [n1])[base + i] == nodes[base + i];
      }
    }
  }

  /**
   * A body that is not an array passes through unmodified. An array body keeps its length and
   * order, each node refined by `processBlock`, and is reported modified exactly when some
   * block needed a link, whatever keys are drawn.
   */
  lemma ProcessPostBodyFacts(body: Option<seq<Node>>, matchers: seq<Matcher>, keys: nat -> string,
                             draws: nat)
    ensures var r := ProcessPostBodySpec(body, matchers, keys, draws);
      && (body.None? ==> r == BodyResult(None, false, draws))
      && (body.Some? ==>
            && r.body.Some? && |r.body.value| == |body.value|
            && (forall i :: 0 <= i < |body.value| ==> Refines(body.value[i], r.body.value[i], matchers))
            && (r.modified <==> exists i :: 0 <= i < |body.value| && NeedsLinks(body.value[i], matchers)))
  {
    if body.Some? {
      var st := BodyRun(body.value, matchers, keys, BodyState([], false, draws));
      assert ProcessPostBodySpec(body, matchers, keys, draws) == BodyResult(Some(st.nodes), st.modified, st.draws);
      BodyRunFacts(body.value, matchers, keys, BodyState([], false, draws));
      AnyNeedsIff(body.value, matchers);
      forall i | 0 <= i < |body.value|
        ensures Refines(body.value[i], st.nodes[i], matchers)
      {
        assert st.nodes[0 + i] == st.nodes[i];
      }
    }
  }

  /** `processPostBody(body)`. */
  method ProcessPostBody(body: Option<seq<Node>>, matchers: seq<Matcher>, keys: nat -> string,
                         draws: nat)
    returns (newBody: Option<seq<Node>>, modified: bool, draws1: nat)
    ensures BodyResult(newBody, modified, draws1) == ProcessPostBodySpec(body, matchers, keys, draws)
  {
    if body.None? {
      return body, false, draws;
    }
    var blocks := body.value;
    var nodes: seq<Node> := [];
    ghost var st0 := BodyState([], false, draws);
    modified := false;
    draws1 := draws;
    for k := 0 to |blocks|
      invariant BodyState(nodes, modified, draws1) == BodyRun(blocks[..k], matchers, keys, st0)
    {
      BodyRunSnoc(blocks, k, matchers, keys, st0);
      var result, blockModified;
      result, blockModified, draws1 := ProcessBlock(blocks[k], matchers, keys, draws1);
      if blockModified {
        modified := true;
      }
      nodes := nodes + [result];
    }
    assert blocks[..|blocks|] == blocks;
    newBody := Some(nodes);
  }

  lemma BodyRunSnoc(ns: seq<Node>, k: nat, matchers: seq<Matcher>, keys: nat -> string,
                    st: BodyState)
    requires k < |ns|
    ensures BodyRun(ns[..k + 1], matchers, keys, st)
         == NodeStep(BodyRun(ns[..k], matchers, keys, st), ns[k], matchers, keys)
  {
    assert ns[..k + 1][..k] == ns[..k];
  }
}
