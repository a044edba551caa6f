/**
 * The bare-URL linkifier (`format-links-in-posts.js`): URL candidates found in a span's text are
 * validated, the text is split at the URLs, each URL becomes a span marked with the key of a
 * `link` definition registered once per block, and spans that already carry a link are skipped.
 */
module Links {
  import opened Wrappers
  import opened Text
  import opened Blocks

  // ---------------------------------------------------------------------------------------
  // normalizeUrl
  // ---------------------------------------------------------------------------------------

  /** One of the characters of `[.,;:!?]`. */
  predicate IsTrailingPunct(c: char) {
    c == '.' || c == ',' || c == ';' || c == ':' || c == '!' || c == '?'
  }

  /** The length of the run of `[.,;:!?]` at the end of `s`: what `/[.,;:!?]+$/` removes. */
  function TrailingPunct(s: string): (n: nat)
    ensures n <= |s|
    ensures forall i :: |s| - n <= i < |s| ==> IsTrailingPunct(s[i])
    ensures n < |s| ==> !IsTrailingPunct(s[|s| - n - 1])
    decreases |s|
  {
    if s != [] && IsTrailingPunct(s[|s| - 1]) then
      var n := 1 + TrailingPunct(s[..|s| - 1]);
      assert forall i :: 0 <= i < |s| - 1 ==> s[..|s| - 1][i] == s[i];
      n
    else 0
  }

  /** `/^https?:\/\//i`. */
  predicate HasScheme(s: string) {
    StartsWithIgnoreCase(s, "http://") || StartsWithIgnoreCase(s, "https://")
  }

  /**
   * `normalizeUrl`: trim, drop the trailing punctuation run, and prefix `https://` unless a
   * scheme is already there. The result always has a scheme and never ends in punctuation; the
   * part after the added prefix is the trimmed input without its trailing punctuation.
   */
  function NormalizeUrl(url: string): (r: string)
    ensures HasScheme(r)
    ensures r != [] && !IsTrailingPunct(r[|r| - 1])
    ensures var t := Trim(url); var core := t[..|t| - TrailingPunct(t)];
      (r == core && HasScheme(core)) || (r == "https://" + core && !HasScheme(core))
  {
    var t := Trim(url);
    var normalized := t[..|t| - TrailingPunct(t)];
    CoreEnd(t);
    if HasScheme(normalized) then
      SchemeLength(normalized);
      normalized
    else
      PrefixedEnd(normalized);
      "https://" + normalized
  }

  /** A string with a scheme is at least as long as `http://`. */
  lemma SchemeLength(s: string)
    requires HasScheme(s)
    ensures |s| >= 7
  {
  }

  /** Without its trailing punctuation run, a string does not end in punctuation. */
  lemma CoreEnd(t: string)
    ensures var core := t[..|t| - TrailingPunct(t)];
      core != [] ==> !IsTrailingPunct(core[|core| - 1])
  {
    var core := t[..|t| - TrailingPunct(t)];
    if core != [] {
      assert core[|core| - 1] == t[|core| - 1];
    }
  }

  /** Prefixing `https://` gives a scheme and keeps the end of a string that has one. */
  lemma PrefixedEnd(core: string)
    requires core != [] ==> !IsTrailingPunct(core[|core| - 1])
    ensures var r := "https://" + core;
      HasScheme(r) && r != [] && !IsTrailingPunct(r[|r| - 1])
  {
    var r := "https://" + core;
    StartsWithOwnPrefix("https://", core);
    if core != [] {
      assert r[|r| - 1] == core[|core| - 1];
    } else {
      assert r == "https://";
    }
  }

  /**
   * A normalised URL that does not end in white space is normalised again to itself (one that
   * does, such as the result for `"a ."`, is trimmed by the second pass).
   */
  lemma NormalizeUrlStable(url: string)
    requires !IsSpace(NormalizeUrl(url)[|NormalizeUrl(url)| - 1])
    ensures NormalizeUrl(NormalizeUrl(url)) == NormalizeUrl(url)
  {
    var r := NormalizeUrl(url);
    SchemeNotSpace(r);
    NormalizeFixed(r);
  }

  /** A string with a scheme does not start with white space. */
  lemma SchemeNotSpace(r: string)
    requires HasScheme(r)
    ensures r != [] && !IsSpace(r[0])
  {
    var p := if StartsWithIgnoreCase(r, "http://") then "http://" else "https://";
    IgnoreCaseFirst(r[..|p|], p);
    assert Lower(r[0]) == 'h';
  }

  /** A trimmed string with a scheme and no trailing punctuation is its own normal form. */
  lemma NormalizeFixed(r: string)
    requires HasScheme(r) && IsTrimmed(r) && r != [] && !IsTrailingPunct(r[|r| - 1])
    ensures NormalizeUrl(r) == r
  {
    TrimOfTrimmed(r);
    assert TrailingPunct(r) == 0;
    assert r[..|r|] == r;
  }

  /** Two strings equal up to case agree at their first character up to case. */
  lemma IgnoreCaseFirst(s: string, t: string)
    requires EqualsIgnoreCase(s, t) && s != []
    ensures Lower(s[0]) == Lower(t[0])
  {
  }

  // ---------------------------------------------------------------------------------------
  // isValidUrl
  // ---------------------------------------------------------------------------------------

  /** The number of ASCII letters in the run of `s` that starts at `i`. */
  function LettersFrom(s: string, i: nat): (n: nat)
    requires i <= |s|
    ensures i + n <= |s|
    ensures forall k :: i <= k < i + n ==> IsAsciiLetter(s[k])
    ensures i + n < |s| ==> !IsAsciiLetter(s[i + n])
    decreases |s| - i
  {
    if i < |s| && IsAsciiLetter(s[i]) then 1 + LettersFrom(s, i + 1) else 0
  }

  /** The number of decimal digits `s` starts with. */
  function LeadingDigits(s: string): (n: nat)
    ensures n <= |s|
    ensures forall k :: 0 <= k < n ==> IsDigit(s[k])
    ensures n < |s| ==> !IsDigit(s[n])
    decreases |s|
  {
    if s != [] && IsDigit(s[0]) then
      var n := 1 + LeadingDigits(s[1..]);
      assert forall k :: 1 <= k < n ==> s[k] == s[1..][k - 1];
      n
    else 0
  }

  /** At the dot `i`, `\.[a-z]{2,}($|\/)` matches: two or more letters, then the end or `/`. */
  predicate DomainEndingAt(s: string, i: nat)
    requires i < |s|
  {
    var n := LettersFrom(s, i + 1);
    s[i] == '.' && n >= 2 && (i + 1 + n == |s| || s[i + 1 + n] == '/')
  }

  /** `/\.[a-z]{2,}($|\/)/i` matches somewhere in `s`. */
  predicate HasDomainEnding(s: string) {
    exists i :: 0 <= i < |s| && DomainEndingAt(s, i)
  }

  /** `/^\.[a-z]+$/i`. */
  predicate IsBareExtension(s: string) {
    |s| >= 2 && s[0] == '.' && LettersFrom(s, 1) == |s| - 1
  }

  /** `/[a-z]{2,}\./i`: two letters directly before a dot. */
  predicate HasNameBeforeDot(s: string) {
    exists i :: 2 <= i < |s| && s[i] == '.' && IsAsciiLetter(s[i - 1]) && IsAsciiLetter(s[i - 2])
  }

  /** `/^\d+\.\d+/`. */
  predicate StartsWithVersion(s: string) {
    var d := LeadingDigits(s);
    d >= 1 && d + 1 < |s| && s[d] == '.' && IsDigit(s[d + 1])
  }

  predicate StartsWithDot(s: string) {
    s != [] && s[0] == '.'
  }

  predicate EndsWithDot(s: string) {
    s != [] && s[|s| - 1] == '.'
  }

  /** `/\.{2,}$/`. */
  predicate EndsWithTwoDots(s: string) {
    |s| >= 2 && s[|s| - 1] == '.' && s[|s| - 2] == '.'
  }

  /** One of the eight false-positive patterns matches. */
  predicate IsFalsePositive(s: string) {
    || StartsWithIgnoreCase(s, "etc.")
    || StartsWithIgnoreCase(s, "e.g.")
    || StartsWithIgnoreCase(s, "i.e.")
    || StartsWithIgnoreCase(s, "vs.")
    || StartsWithVersion(s)
    || Contains(s, "...")
    || StartsWithDot(s)
    || EndsWithDot(s)
  }

  /** `isValidUrl`: the tests in the order the function runs them. */
  predicate IsValidUrl(text: string) {
    if !HasDomainEnding(text) then false
    else if IsBareExtension(text) then false
    else if Contains(text, "..") then false
    else if StartsWithDot(text) || EndsWithTwoDots(text) then false
    else if !HasNameBeforeDot(text) then false
    else !IsFalsePositive(text)
  }

  /**
   * What a valid URL is, stated once per requirement: a dot followed by two or more letters at
   * the end or before `/`, two letters followed by a dot, no `..`, no dot at either end, and
   * none of the prefixes `etc.`, `e.g.`, `i.e.`, `vs.` or digits-dot-digit.
   */
  predicate AcceptedUrl(s: string) {
    && HasDomainEnding(s)
    && HasNameBeforeDot(s)
    && !Contains(s, "..")
    && !StartsWithDot(s)
    && !EndsWithDot(s)
    && !StartsWithIgnoreCase(s, "etc.")
    && !StartsWithIgnoreCase(s, "e.g.")
    && !StartsWithIgnoreCase(s, "i.e.")
    && !StartsWithIgnoreCase(s, "vs.")
    && !StartsWithVersion(s)
  }

  /** A string containing `q` contains every prefix of `q`. */
  lemma {:induction false} ContainsPrefixOf(s: string, p: string, q: string)
    requires p <= q && Contains(s, q)
    ensures Contains(s, p)
    decreases |s|
  {
    if q <= s {
      assert p <= s;
    } else {
      ContainsPrefixOf(s[1..], p, q);
    }
  }

  /**
   * The chain of tests accepts exactly the strings `AcceptedUrl` describes: the bare-extension,
   * ellipsis, leading-dots and trailing-two-dots tests are implied by the others.
   */
  lemma ValidUrlIff(s: string)
    ensures IsValidUrl(s) <==> AcceptedUrl(s)
  {
    if Contains(s, "...") {
      ContainsPrefixOf(s, "..", "...");
    }
  }

  // ---------------------------------------------------------------------------------------
  // hasLinkMark
  // ---------------------------------------------------------------------------------------

  /** `hasLinkMark`: some mark starts with `link-`. */
  predicate HasLinkMark(marks: seq<string>) {
    exists i :: 0 <= i < |marks| && "link-" <= marks[i]
  }

  // ---------------------------------------------------------------------------------------
  // findUrls
  // ---------------------------------------------------------------------------------------

  /** One match of a pattern: where it starts in the text and how long it is. */
  datatype Match = Match(start: nat, len: nat)

  /**
   * A URL pattern with the `g` flag, abstracted: given a text it lists its matches. The
   * linkifier tries the main pattern and then the two site-specific ones.
   */
  type Matcher = string -> seq<Match>

  function Min(a: nat, b: nat): nat {
    if a <= b then a else b
  }

  /** The text of one match; positions past the end are clamped, so it is part of the text. */
  function Candidate(text: string, m: Match): (c: string)
    ensures Contains(text, c)
  {
    var i := Min(m.start, |text|);
    var j := Min(m.start + m.len, |text|);
    ContainsAt(text, text[i..j], i);
    text[i..j]
  }

  /** `text.match(pattern)`, with no match as the empty list. */
  function MatchesOf(text: string, matcher: Matcher): (cs: seq<string>)
    ensures forall k :: 0 <= k < |cs| ==> Contains(text, cs[k])
  {
    var ms := matcher(text);
    seq(|ms|, k requires 0 <= k < |ms| => Candidate(text, ms[k]))
  }

  /** The matches of all the patterns, pattern after pattern. */
  function Candidates(text: string, matchers: seq<Matcher>): (cs: seq<string>)
    ensures forall k :: 0 <= k < |cs| ==> Contains(text, cs[k])
  {
    if matchers == [] then []
    else Candidates(text, matchers[..|matchers| - 1]) + MatchesOf(text, matchers[|matchers| - 1])
  }

  /** `if (isValidUrl(match)) urls.add(match)` on a set kept in insertion order. */
  function AddUrl(urls: seq<string>, c: string): seq<string> {
    if IsValidUrl(c) && c !in urls then urls + [c] else urls
  }

  function AddUrls(urls: seq<string>, cs: seq<string>): seq<string> {
    if cs == [] then urls else AddUrl(AddUrls(urls, cs[..|cs| - 1]), cs[|cs| - 1])
  }

  /** What `findUrls(text)` returns. */
  function FoundUrls(text: string, matchers: seq<Matcher>): seq<string> {
    AddUrls([], Candidates(text, matchers))
  }

  /**
   * Adding candidates keeps the list free of duplicates and extends it; a string ends up in it
   * exactly when it was there already or is a valid candidate.
   */
  lemma {:induction false} AddUrlsFacts(urls: seq<string>, cs: seq<string>)
    requires NoDuplicates(urls)
    ensures var r := AddUrls(urls, cs);
      && NoDuplicates(r)
      && urls <= r
      && forall u :: u in r <==> u in urls || (u in cs && IsValidUrl(u))
    decreases |cs|
  {
    if cs != [] {
      var front := cs[..|cs| - 1];
      var c := cs[|cs| - 1];
      AddUrlsFacts(urls, front);
      var r0 := AddUrls(urls, front);
      AddUrlFacts(r0, c);
      assert forall u :: u in cs <==> u in front || u == c by {
        SnocSplit(cs);
      }
    }
  }

  /** Adding one candidate keeps the list free of duplicates and extends it by at most it. */
  lemma AddUrlFacts(urls: seq<string>, c: string)
    requires NoDuplicates(urls)
    ensures var r := AddUrl(urls, c);
      && NoDuplicates(r)
      && urls <= r
      && forall u :: u in r <==> u in urls || (u == c && IsValidUrl(c))
  {
    if IsValidUrl(c) && c !in urls {
      NoDuplicatesSnoc(urls, c);
    }
  }

  /**
   * `findUrls` returns distinct strings, each of them valid and part of the text, and every
   * valid match of every pattern is among them.
   */
  lemma FoundUrlsFacts(text: string, matchers: seq<Matcher>)
    ensures var r := FoundUrls(text, matchers);
      && NoDuplicates(r)
      && (forall k :: 0 <= k < |r| ==> IsValidUrl(r[k]) && Contains(text, r[k]))
      && (forall u :: u in r <==> u in Candidates(text, matchers) && IsValidUrl(u))
  {
    AddUrlsFacts([], Candidates(text, matchers));
    var r := FoundUrls(text, matchers);
    forall k | 0 <= k < |r|
      ensures IsValidUrl(r[k]) && Contains(text, r[k])
    {
      assert r[k] in r;
      var cs := Candidates(text, matchers);
      var j :| 0 <= j < |cs| && cs[j] == r[k];
    }
  }

  /** Adding two lists of candidates one after the other is adding their concatenation. */
  lemma {:induction false} AddUrlsAppend(urls: seq<string>, a: seq<string>, b: seq<string>)
    ensures AddUrls(urls, a + b) == AddUrls(AddUrls(urls, a), b)
    decreases |b|
  {
    if b == [] {
      assert a + b == a;
    } else {
      var front := b[..|b| - 1];
      AddUrlsAppend(urls, a, front);
      assert (a + b)[..|a + b| - 1] == a + front;
    }
  }

  /** The `forEach` over the matches of one pattern. */
  method AddCandidates(urls0: seq<string>, cs: seq<string>) returns (urls: seq<string>)
    ensures urls == AddUrls(urls0, cs)
  {
    urls := urls0;
    for k := 0 to |cs|
      invariant urls == AddUrls(urls0, cs[..k])
    {
      assert cs[..k + 1][..k] == cs[..k];
      var m := cs[k];
      if IsValidUrl(m) && m !in urls {
        urls := urls + [m];
      }
    }
    assert cs[..|cs|] == cs;
  }

  /** `findUrls`: every pattern's matches, in order, into an insertion-ordered set. */
  method FindUrls(text: string, matchers: seq<Matcher>) returns (urls: seq<string>)
    ensures urls == FoundUrls(text, matchers)
  {
    urls := [];
    for p := 0 to |matchers|
      invariant urls == AddUrls([], Candidates(text, matchers[..p]))
    {
      var matches := MatchesOf(text, matchers[p]);
      urls := AddCandidates(urls, matches);
      assert matchers[..p + 1][..p] == matchers[..p];
      AddUrlsAppend([], Candidates(text, matchers[..p]), matches);
    }
    assert matchers[..|matchers|] == matchers;
  }

  // ---------------------------------------------------------------------------------------
  // splitTextWithUrls
  // ---------------------------------------------------------------------------------------

  /** `{type: "text", content}` or `{type: "url", content}`. */
  datatype Part = TextPart(content: string) | UrlPart(content: string)

  /** `{url, index: text.indexOf(url)}`. */
  datatype Position = Position(url: string, index: int)

  function Positions(text: string, urls: seq<string>): (ps: seq<Position>)
    ensures |ps| == |urls|
    ensures forall k :: 0 <= k < |urls| ==> ps[k] == Position(urls[k], IndexOf(text, urls[k]))
  {
    seq(|urls|, k requires 0 <= k < |urls| => Position(urls[k], IndexOf(text, urls[k])))
  }

  /**
   * Each URL's position is -1 exactly when the text lacks it, and otherwise the place of its
   * first occurrence.
   */
  lemma PositionsFacts(text: string, urls: seq<string>, k: nat)
    requires k < |urls|
    ensures var q := Positions(text, urls)[k];
      && q.url == urls[k]
      && (q.index == -1 <==> !Contains(text, urls[k]))
      && (q.index >= 0 ==> FoundFirst(text, urls[k], q.index))
  {
    var u := urls[k];
    assert Positions(text, urls)[k] == Position(u, IndexOf(text, u));
    IndexOfFirst(text, u);
  }

  function UrlsOfPositions(ps: seq<Position>): (us: seq<string>)
    ensures |us| == |ps| && forall k :: 0 <= k < |ps| ==> us[k] == ps[k].url
  {
    seq(|ps|, k requires 0 <= k < |ps| => ps[k].url)
  }

  predicate SortedByIndex(ps: seq<Position>) {
    forall i, j :: 0 <= i < j < |ps| ==> ps[i].index <= ps[j].index
  }

  /** Inserts `p` after every element whose index is not larger: the step of a stable sort. */
  function Insert(p: Position, s: seq<Position>): (r: seq<Position>)
    requires SortedByIndex(s)
    ensures SortedByIndex(r)
    ensures multiset(r) == multiset(s) + multiset{p}
    ensures multiset(UrlsOfPositions(r)) == multiset(UrlsOfPositions(s)) + multiset{p.url}
  {
    if s == [] then
      UrlsCons(p, []);
      [p]
    else if p.index < s[0].index then
      InsertFront(p, s);
      [p] + s
    else
      var rest := Insert(p, s[1..]);
      InsertBehind(p, s, rest);
      [s[0]] + rest
  }

  /** Where a stable insertion puts `p`: after every element whose index is not larger. */
  function InsertPoint(p: Position, s: seq<Position>): (k: nat)
    requires SortedByIndex(s)
    ensures k <= |s|
    ensures forall i :: 0 <= i < k ==> s[i].index <= p.index
    ensures forall i :: k <= i < |s| ==> p.index < s[i].index
  {
    if s == [] || p.index < s[0].index then 0
    else
      var k := 1 + InsertPoint(p, s[1..]);
      assert forall i :: 1 <= i < |s| ==> s[i] == s[1..][i - 1];
      k
  }

  /**
   * The insertion is stable: `p` goes in at its insertion point, between the elements whose
   * index is not larger and those whose index is larger, and the others keep their order.
   */
  lemma {:induction false} InsertStable(p: Position, s: seq<Position>)
    requires SortedByIndex(s)
    ensures Insert(p, s) == s[..InsertPoint(p, s)] + [p] + s[InsertPoint(p, s)..]
    decreases |s|
  {
    if s != [] && s[0].index <= p.index {
      SortedTail(s);
      InsertStable(p, s[1..]);
      InsertStableBehind(p, s);
    } else {
      InsertFrontStep(p, s);
      assert InsertPoint(p, s) == 0;
      assert s[..0] + [p] + s[0..] == [p] + s;
    }
  }

  lemma InsertStableBehind(p: Position, s: seq<Position>)
    requires s != [] && SortedByIndex(s) && s[0].index <= p.index && SortedByIndex(s[1..])
    requires var t := s[1..]; Insert(p, t) == t[..InsertPoint(p, t)] + [p] + t[InsertPoint(p, t)..]
    ensures Insert(p, s) == s[..InsertPoint(p, s)] + [p] + s[InsertPoint(p, s)..]
  {
    var t := s[1..];
    var k := InsertPoint(p, t);
    var rt := Insert(p, t);
    InsertBehindStep(p, s);
    InsertPointStep(p, s);
    ConsSplitEq(s, p, k, Insert(p, s), rt);
  }

  lemma SortedTail(s: seq<Position>)
    requires s != [] && SortedByIndex(s)
    ensures SortedByIndex(s[1..])
  {
    forall i, j | 0 <= i < j < |s| - 1 ensures s[1..][i].index <= s[1..][j].index {
      assert s[1..][i] == s[i + 1] && s[1..][j] == s[j + 1];
    }
  }

  lemma InsertPointStep(p: Position, s: seq<Position>)
    requires s != [] && SortedByIndex(s) && s[0].index <= p.index
    ensures SortedByIndex(s[1..]) && InsertPoint(p, s) == 1 + InsertPoint(p, s[1..])
  {
    SortedTail(s);
  }

  lemma InsertBehindStep(p: Position, s: seq<Position>)
    requires s != [] && SortedByIndex(s) && s[0].index <= p.index
    ensures Insert(p, s) == [s[0]] + Insert(p, s[1..])
  {
  }

  lemma InsertFrontStep(p: Position, s: seq<Position>)
    requires SortedByIndex(s) && (s == [] || p.index < s[0].index)
    ensures Insert(p, s) == [p] + s
  {
  }

  lemma ConsSplitEq<T>(s: seq<T>, x: T, k: nat, r: seq<T>, rt: seq<T>)
    requires s != [] && k <= |s| - 1
    requires r == [s[0]] + rt && rt == s[1..][..k] + [x] + s[1..][k..]
    ensures r == s[..k + 1] + [x] + s[k + 1..]
  {
    assert s[..k + 1] == [s[0]] + s[1..][..k] && s[k + 1..] == s[1..][k..];
  }

  /** Putting `p` in front of a sorted `s` whose indices are all larger keeps the order. */
  lemma InsertFront(p: Position, s: seq<Position>)
    requires s != [] && SortedByIndex(s) && p.index < s[0].index
    ensures SortedByIndex([p] + s)
    ensures multiset([p] + s) == multiset(s) + multiset{p}
    ensures multiset(UrlsOfPositions([p] + s)) == multiset(UrlsOfPositions(s)) + multiset{p.url}
  {
    UrlsCons(p, s);
  }

  lemma UrlsCons(x: Position, s: seq<Position>)
    ensures UrlsOfPositions([x] + s) == [x.url] + UrlsOfPositions(s)
  {
  }

  /** Putting `s[0]` in front of the insertion into `s[1..]` keeps the order and the contents. */
  lemma InsertBehind(p: Position, s: seq<Position>, rest: seq<Position>)
    requires s != [] && SortedByIndex(s) && s[0].index <= p.index
    requires SortedByIndex(rest) && multiset(rest) == multiset(s[1..]) + multiset{p}
    requires multiset(UrlsOfPositions(rest)) == multiset(UrlsOfPositions(s[1..])) + multiset{p.url}
    ensures var r := [s[0]] + rest;
      && SortedByIndex(r)
      && multiset(r) == multiset(s) + multiset{p}
      && multiset(UrlsOfPositions(r)) == multiset(UrlsOfPositions(s)) + multiset{p.url}
  {
    InsertBehindSorted(p, s, rest);
    assert s == [s[0]] + s[1..];
    UrlsCons(s[0], rest);
    UrlsCons(s[0], s[1..]);
  }

  /** Every element of the insertion into `s[1..]` has an index no smaller than `s[0]`'s. */
  lemma InsertBehindSorted(p: Position, s: seq<Position>, rest: seq<Position>)
    requires s != [] && SortedByIndex(s) && s[0].index <= p.index
    requires SortedByIndex(rest) && multiset(rest) == multiset(s[1..]) + multiset{p}
    ensures SortedByIndex([s[0]] + rest)
  {
    var r := [s[0]] + rest;
    forall j | 0 <= j < |rest|
      ensures s[0].index <= rest[j].index
    {
      assert rest[j] in multiset(rest);
      if rest[j] != p {
        assert rest[j] in multiset(s[1..]);
        var k :| 1 <= k < |s| && s[k] == rest[j];
      }
    }
    forall i, j | 0 <= i < j < |r|
      ensures r[i].index <= r[j].index
    {
      assert r[j] == rest[j - 1];
      if i > 0 {
        assert r[i] == rest[i - 1];
      }
    }
  }

  /** `.sort((a, b) => a.index - b.index)`, stable, as an insertion sort. */
  function SortByIndex(ps: seq<Position>): (r: seq<Position>)
    ensures SortedByIndex(r)
    ensures multiset(r) == multiset(ps)
    ensures multiset(UrlsOfPositions(r)) == multiset(UrlsOfPositions(ps))
  {
    if ps == [] then []
    else
      var front := ps[..|ps| - 1];
      assert ps == front + [ps[|ps| - 1]];
      assert UrlsOfPositions(ps) == UrlsOfPositions(front) + [ps[|ps| - 1].url];
      Insert(ps[|ps| - 1], SortByIndex(front))
  }

  /** `min(max(x, 0), n)`: how `substring` clamps a position. */
  function Clamp(x: int, n: nat): (r: nat)
    ensures r <= n
  {
    if x < 0 then 0 else if x > n then n else x
  }

  /** `s.substring(start)`. */
  function SubstringFrom(s: string, start: int): string {
    s[Clamp(start, |s|)..]
  }

  /** `s.substring(0, end)`. */
  function SubstringTo(s: string, end: int): string {
    s[..Clamp(end, |s|)]
  }

  /** `parts`, `remainingText` and `offset` of the loop. */
  datatype SplitState = SplitState(parts: seq<Part>, remaining: string, offset: int)

  /** The text in front of the URL at `index`, if the URL starts past the offset. */
  function TextBefore(st: SplitState, index: int): string {
    if index > st.offset then SubstringTo(st.remaining, index - st.offset) else []
  }

  /** The parts once the text in front of the URL, when not empty, is pushed. */
  function PushBefore(st: SplitState, index: int): seq<Part> {
    var before := TextBefore(st, index);
    if before != [] then st.parts + [TextPart(before)] else st.parts
  }

  /** The loop body for one URL and its index. */
  function SplitStep(st: SplitState, p: Position): SplitState {
    var urlEnd := p.index - st.offset + |p.url|;
    SplitState(PushBefore(st, p.index) + [UrlPart(p.url)], SubstringFrom(st.remaining, urlEnd),
               p.index + |p.url|)
  }

  function SplitRun(text: string, ps: seq<Position>): SplitState {
    if ps == [] then SplitState([], text, 0)
    else SplitStep(SplitRun(text, ps[..|ps| - 1]), ps[|ps| - 1])
  }

  /** The remaining text, if any, as a last text part. */
  function SplitParts(st: SplitState): seq<Part> {
    if st.remaining != [] then st.parts + [TextPart(st.remaining)] else st.parts
  }

  /** What `splitTextWithUrls` returns for `text` once `findUrls` has found `urls`. */
  function SplitText(text: string, urls: seq<string>): seq<Part> {
    if urls == [] then [TextPart(text)]
    else SplitParts(SplitRun(text, SortByIndex(Positions(text, urls))))
  }

  function Contents(parts: seq<Part>): (cs: seq<string>)
    ensures |cs| == |parts| && forall k :: 0 <= k < |parts| ==> cs[k] == parts[k].content
  {
    seq(|parts|, k requires 0 <= k < |parts| => parts[k].content)
  }

  /** The contents of the URL parts, in order. */
  function UrlsOf(parts: seq<Part>): seq<string> {
    if parts == [] then []
    else
      var last := parts[|parts| - 1];
      UrlsOf(parts[..|parts| - 1]) + (if last.UrlPart? then [last.content] else [])
  }

  lemma UrlsOfAppend(parts: seq<Part>, p: Part)
    ensures UrlsOf(parts + [p]) == UrlsOf(parts) + (if p.UrlPart? then [p.content] else [])
  {
    assert (parts + [p])[..|parts|] == parts;
  }

  /** The loop emits one URL part per position, in the order of the positions. */
  lemma {:induction false} SplitRunUrls(text: string, ps: seq<Position>)
    ensures UrlsOf(SplitRun(text, ps).parts) == UrlsOfPositions(ps)
    decreases |ps|
  {
    if ps != [] {
      var front := ps[..|ps| - 1];
      var p := ps[|ps| - 1];
      SplitRunUrls(text, front);
      var st := SplitRun(text, front);
      SplitStepUrls(st, p);
      UrlsOfPositionsSnoc(ps);
      AppendEqual(UrlsOf(SplitRun(text, ps).parts), UrlsOf(st.parts), [p.url],
                  UrlsOfPositions(front), [p.url]);
    }
  }

  /** One step of the loop adds the URL of its position to the URL parts. */
  lemma SplitStepUrls(st: SplitState, p: Position)
    ensures UrlsOf(SplitStep(st, p).parts) == UrlsOf(st.parts) + [p.url]
  {
    var mid := PushBefore(st, p.index);
    UrlsOfAppend(st.parts, TextPart(TextBefore(st, p.index)));
    assert UrlsOf(mid) == UrlsOf(st.parts);
    UrlsOfAppend(mid, UrlPart(p.url));
  }

  lemma UrlsOfPositionsSnoc(ps: seq<Position>)
    requires ps != []
    ensures UrlsOfPositions(ps) == UrlsOfPositions(ps[..|ps| - 1]) + [ps[|ps| - 1].url]
  {
  }

  /** Each position's index is where its URL first occurs. */
  predicate AtFirstOccurrence(text: string, ps: seq<Position>) {
    forall k :: 0 <= k < |ps| ==> ps[k].index == IndexOf(text, ps[k].url)
  }

  /**
   * With URLs found, the URL parts are the URLs, each as often as it was found, ordered by the
   * index of its first occurrence; with none, the whole text is one text part.
   */
  lemma SplitTextUrls(text: string, urls: seq<string>)
    ensures urls == [] ==> SplitText(text, urls) == [TextPart(text)]
    ensures var us := UrlsOf(SplitText(text, urls));
      && multiset(us) == multiset(urls)
      && forall i, j :: 0 <= i < j < |us| ==> IndexOf(text, us[i]) <= IndexOf(text, us[j])
  {
    if urls != [] {
      var sorted := SortByIndex(Positions(text, urls));
      var st := SplitRun(text, sorted);
      SplitRunUrls(text, sorted);
      UrlsOfAppend(st.parts, TextPart(st.remaining));
      assert UrlsOf(SplitText(text, urls)) == UrlsOfPositions(sorted);
      SortedAtFirst(text, urls);
    } else {
      assert UrlsOf([TextPart(text)]) == UrlsOf([]) + [];
    }
  }

  /** Every position marks a real occurrence of its URL in the text. */
  predicate Occurs(text: string, ps: seq<Position>) {
    forall k :: 0 <= k < |ps| ==> OccursAt(text, ps[k])
  }

  /** The URL of `p` is the text at `p`'s index. */
  predicate OccursAt(text: string, p: Position) {
    0 <= p.index && p.index + |p.url| <= |text| && text[p.index..p.index + |p.url|] == p.url
  }

  /** Every URL ends before each later one starts. */
  predicate Disjoint(ps: seq<Position>) {
    forall i, j :: 0 <= i < j < |ps| ==> ps[i].index + |ps[i].url| <= ps[j].index
  }

  function EndOf(ps: seq<Position>): int {
    if ps == [] then 0 else ps[|ps| - 1].index + |ps[|ps| - 1].url|
  }

  /**
   * Over occurrences that do not overlap, the loop has consumed the text up to the end of the
   * last URL, and its parts spell out exactly that much of the text.
   */
  lemma {:induction false} SplitRunRoundTrip(text: string, ps: seq<Position>)
    requires Occurs(text, ps) && Disjoint(ps)
    ensures var st := SplitRun(text, ps);
      && 0 <= EndOf(ps) <= |text|
      && st.offset == EndOf(ps)
      && st.remaining == text[EndOf(ps)..]
      && Concat(Contents(st.parts)) == text[..EndOf(ps)]
    decreases |ps|
  {
    if ps == [] {
      assert Contents([]) == [];
    } else {
      var front := ps[..|ps| - 1];
      var p := ps[|ps| - 1];
      FrontKeeps(text, ps);
      SplitRunRoundTrip(text, front);
      StepSpells(text, SplitRun(text, front), EndOf(front), p);
    }
  }

  /** Dropping the last position keeps the conditions; the last URL starts past the others. */
  lemma FrontKeeps(text: string, ps: seq<Position>)
    requires ps != [] && Occurs(text, ps) && Disjoint(ps)
    ensures var front := ps[..|ps| - 1];
      && Occurs(text, front) && Disjoint(front) && EndOf(front) <= ps[|ps| - 1].index
      && ps[|ps| - 1].index >= 0
      && ps[|ps| - 1].index + |ps[|ps| - 1].url| <= |text|
      && text[ps[|ps| - 1].index..ps[|ps| - 1].index + |ps[|ps| - 1].url|] == ps[|ps| - 1].url
  {
    var front := ps[..|ps| - 1];
    if front != [] {
      assert ps[|ps| - 2] == front[|front| - 1];
    }
  }

  /** One step of the loop over a URL at or past the offset, when the URL occurs there. */
  lemma StepSpells(text: string, st: SplitState, o: int, p: Position)
    requires 0 <= o <= p.index && p.index + |p.url| <= |text|
    requires text[p.index..p.index + |p.url|] == p.url
    requires st.offset == o && st.remaining == text[o..] && Concat(Contents(st.parts)) == text[..o]
    ensures var r := SplitStep(st, p); var e := p.index + |p.url|;
      r.offset == e && r.remaining == text[e..] && Concat(Contents(r.parts)) == text[..e]
  {
    var e := p.index + |p.url|;
    var mid := PushBefore(st, p.index);
    PushBeforeSpells(text, st, o, p.index);
    ContentsSnoc(mid, UrlPart(p.url));
    ConcatAppend(Contents(mid), p.url);
    assert text[..p.index] + text[p.index..e] == text[..e];
    StepRemaining(text, st, o, p);
  }

  lemma ContentsSnoc(parts: seq<Part>, q: Part)
    ensures Contents(parts + [q]) == Contents(parts) + [q.content]
  {
  }

  /** After one step the remaining text is what follows the URL. */
  lemma StepRemaining(text: string, st: SplitState, o: int, p: Position)
    requires 0 <= o <= p.index && p.index + |p.url| <= |text|
    requires st.offset == o && st.remaining == text[o..]
    ensures SubstringFrom(st.remaining, p.index - st.offset + |p.url|) == text[p.index + |p.url|..]
  {
  }

  /** Pushing the text up to `index` extends what the parts spell to `text[..index]`. */
  lemma PushBeforeSpells(text: string, st: SplitState, o: int, index: int)
    requires 0 <= o <= index <= |text| && st.offset == o && st.remaining == text[o..]
    requires Concat(Contents(st.parts)) == text[..o]
    ensures Concat(Contents(PushBefore(st, index))) == text[..index]
  {
    var before := TextBefore(st, index);
    if index > o {
      assert before == text[o..index];
    } else {
      assert before == [];
    }
    if before != [] {
      assert Contents(st.parts + [TextPart(before)]) == Contents(st.parts) + [before];
      ConcatAppend(Contents(st.parts), before);
    }
    assert text[..o] + text[o..index] == text[..index];
  }

  /**
   * When the first occurrences of the URLs do not overlap, the contents of the parts put
   * together give back the text exactly.
   */
  lemma SplitTextRoundTrip(text: string, urls: seq<string>)
    requires forall k :: 0 <= k < |urls| ==> Contains(text, urls[k])
    requires Disjoint(SortByIndex(Positions(text, urls)))
    ensures Concat(Contents(SplitText(text, urls))) == text
  {
    if urls == [] {
      assert Contents([TextPart(text)]) == [text];
      assert Concat([text]) == Concat([]) + text;
    } else {
      var sorted := SortByIndex(Positions(text, urls));
      SortedOccurs(text, urls);
      SplitRunRoundTrip(text, sorted);
      RemainingSpells(text, SplitRun(text, sorted), EndOf(sorted));
    }
  }

  /** The sorted positions sit at the first occurrences of their URLs. */
  lemma SortedAtFirst(text: string, urls: seq<string>)
    ensures AtFirstOccurrence(text, SortByIndex(Positions(text, urls)))
    ensures UrlsOfPositions(Positions(text, urls)) == urls
  {
    var ps := Positions(text, urls);
    var sorted := SortByIndex(ps);
    forall k | 0 <= k < |sorted|
      ensures sorted[k].index == IndexOf(text, sorted[k].url)
    {
      assert sorted[k] in multiset(ps);
    }
  }

  /** When every URL is part of the text, every sorted position is a real occurrence. */
  lemma SortedOccurs(text: string, urls: seq<string>)
    requires forall k :: 0 <= k < |urls| ==> Contains(text, urls[k])
    ensures Occurs(text, SortByIndex(Positions(text, urls)))
  {
    var ps := Positions(text, urls);
    var sorted := SortByIndex(ps);
    forall k | 0 <= k < |sorted|
      ensures OccursAt(text, sorted[k])
    {
      assert sorted[k] in multiset(ps);
      var j :| 0 <= j < |ps| && ps[j] == sorted[k];
      PositionOccurs(text, urls[j]);
    }
  }

  /** The position computed for a URL of the text is a real occurrence of it. */
  lemma PositionOccurs(text: string, u: string)
    requires Contains(text, u)
    ensures OccursAt(text, Position(u, IndexOf(text, u)))
  {
    FirstOccurrence(text, u);
  }

  /** The remaining text, pushed as the last part, completes the text. */
  lemma RemainingSpells(text: string, st: SplitState, o: int)
    requires 0 <= o <= |text| && st.remaining == text[o..] && Concat(Contents(st.parts)) == text[..o]
    ensures Concat(Contents(SplitParts(st))) == text
  {
    assert text[..o] + st.remaining == text;
    if st.remaining != [] {
      assert Contents(SplitParts(st)) == Contents(st.parts) + [st.remaining];
      ConcatAppend(Contents(st.parts), st.remaining);
    }
  }

  /** A URL found in the text occurs at the index `indexOf` gives for it. */
  lemma FirstOccurrence(text: string, u: string)
    requires Contains(text, u)
    ensures var i := IndexOf(text, u);
      0 <= i && i + |u| <= |text| && text[i..i + |u|] == u
  {
    var i := IndexOf(text, u);
    PrefixAt(text, u, i);
  }

  /**
   * Overlapping first occurrences duplicate text: URLs `a + b` at 0 and `b + c` at `|a|` in
   * `a + b + c` give two URL parts that spell `b` twice.
   */
  lemma OverlapDuplicates(a: string, b: string, c: string)
    requires a != [] && b != [] && c != []
    requires IndexOf(a + b + c, b + c) == |a|
    ensures var parts := SplitText(a + b + c, [a + b, b + c]);
      && parts == [UrlPart(a + b), UrlPart(b + c)]
      && Concat(Contents(parts)) == (a + b) + (b + c)
      && |Concat(Contents(parts))| == |a + b + c| + |b|
  {
    var text := a + b + c;
    OverlapSorted(a, b, c);
    OverlapRun(a, b, c);
    var parts := [UrlPart(a + b), UrlPart(b + c)];
    assert SplitParts(SplitState(parts, [], |text|)) == parts;
    PairSpells(a + b, b + c);
  }

  lemma OverlapFirstStep(a: string, b: string, c: string)
    ensures SplitStep(SplitState([], a + b + c, 0), Position(a + b, 0))
         == SplitState([UrlPart(a + b)], c, |a| + |b|)
  {
    var text := a + b + c;
    assert TextBefore(SplitState([], text, 0), 0) == [];
    assert text[|a + b|..] == c;
  }

  lemma PairSpells(x: string, y: string)
    ensures Concat(Contents([UrlPart(x), UrlPart(y)])) == x + y
  {
    assert Contents([UrlPart(x), UrlPart(y)]) == [x, y] + [];
    ConcatPairFront(x, y, []);
  }

  lemma OverlapSorted(a: string, b: string, c: string)
    requires a != [] && b != []
    requires IndexOf(a + b + c, b + c) == |a|
    ensures SortByIndex(Positions(a + b + c, [a + b, b + c]))
         == [Position(a + b, 0), Position(b + c, |a|)]
  {
    var text := a + b + c;
    assert a + b <= text;
    var p1 := Position(a + b, 0);
    var p2 := Position(b + c, |a|);
    assert Positions(text, [a + b, b + c]) == [p1, p2];
    SortPair(p1, p2);
  }

  /** Two positions already in order stay as they are. */
  lemma SortPair(p1: Position, p2: Position)
    requires p1.index <= p2.index
    ensures SortByIndex([p1, p2]) == [p1, p2]
  {
    assert [p1, p2][..1] == [p1];
    SortSingle(p1);
    InsertBehindSingle(p1, p2);
  }

  lemma SortSingle(p: Position)
    ensures SortByIndex([p]) == [p]
  {
  }

  lemma InsertBehindSingle(p1: Position, p2: Position)
    requires p1.index <= p2.index
    ensures Insert(p2, [p1]) == [p1, p2]
  {
    InsertLargest(p2, [p1]);
  }

  /** An element whose index is no smaller than any other goes at the end: the sort is stable. */
  lemma {:induction false} InsertLargest(p: Position, s: seq<Position>)
    requires SortedByIndex(s) && forall i :: 0 <= i < |s| ==> s[i].index <= p.index
    ensures Insert(p, s) == s + [p]
    decreases |s|
  {
    if s != [] {
      var tail := s[1..];
      assert SortedByIndex(tail) && forall i :: 0 <= i < |tail| ==> tail[i].index <= p.index by {
        forall i | 0 <= i < |tail| ensures tail[i] == s[i + 1] { }
      }
      InsertLargest(p, tail);
      InsertPast(p, s);
      ConsSnoc(s, p);
    }
  }

  /** Insertion behind the head, when the head's index is no larger. */
  lemma InsertPast(p: Position, s: seq<Position>)
    requires s != [] && SortedByIndex(s) && s[0].index <= p.index
    ensures SortedByIndex(s[1..]) && Insert(p, s) == [s[0]] + Insert(p, s[1..])
  {
  }

  lemma OverlapRun(a: string, b: string, c: string)
    ensures SplitRun(a + b + c, [Position(a + b, 0), Position(b + c, |a|)])
         == SplitState([UrlPart(a + b), UrlPart(b + c)], [], |a + b + c|)
  {
    var text := a + b + c;
    var p1 := Position(a + b, 0);
    var p2 := Position(b + c, |a|);
    var st1 := SplitState([UrlPart(a + b)], c, |a| + |b|);
    assert SplitRun(text, [p1]) == st1 by {
      OverlapFirstStep(a, b, c);
      SplitRunOne(text, p1);
    }
    SplitRunTwo(text, p1, p2);
    OverlapSecondStep(a, b, c);
  }

  lemma SplitRunOne(text: string, p: Position)
    ensures SplitRun(text, [p]) == SplitStep(SplitState([], text, 0), p)
  {
    assert [p][..0] == [];
  }

  lemma SplitRunTwo(text: string, p1: Position, p2: Position)
    ensures SplitRun(text, [p1, p2]) == SplitStep(SplitRun(text, [p1]), p2)
  {
    assert [p1, p2][..1] == [p1];
  }

  lemma OverlapSecondStep(a: string, b: string, c: string)
    ensures SplitStep(SplitState([UrlPart(a + b)], c, |a| + |b|), Position(b + c, |a|))
         == SplitState([UrlPart(a + b), UrlPart(b + c)], [], |a + b + c|)
  {
    var st1 := SplitState([UrlPart(a + b)], c, |a| + |b|);
    assert TextBefore(st1, |a|) == [];
    assert SubstringFrom(c, |c|) == [];
    assert [UrlPart(a + b)] + [UrlPart(b + c)] == [UrlPart(a + b), UrlPart(b + c)];
  }

  /** The run over one more position is one more step of the loop. */
  lemma SplitRunSnoc(text: string, ps: seq<Position>, k: nat)
    requires k < |ps|
    ensures SplitRun(text, ps[..k + 1]) == SplitStep(SplitRun(text, ps[..k]), ps[k])
  {
    assert ps[..k + 1][..k] == ps[..k];
  }

  /** The loop body: the text in front of the URL if any, the URL, and what follows it. */
  method SplitAtPosition(parts: seq<Part>, remainingText: string, offset: int, p: Position)
    returns (parts1: seq<Part>, remainingText1: string, offset1: int)
    ensures SplitState(parts1, remainingText1, offset1)
         == SplitStep(SplitState(parts, remainingText, offset), p)
  {
    var url := p.url;
    var index := p.index;
    parts1 := parts;
    if index > offset {
      var beforeText := SubstringTo(remainingText, index - offset);
      if beforeText != [] {
        parts1 := parts1 + [TextPart(beforeText)];
      }
    }
    parts1 := parts1 + [UrlPart(url)];
    var urlEnd := index - offset + |url|;
    remainingText1 := SubstringFrom(remainingText, urlEnd);
    offset1 := index + |url|;
  }

  /** The loop of `splitTextWithUrls` over the sorted positions, and the remaining text. */
  method SplitAtPositions(text: string, urlPositions: seq<Position>) returns (parts: seq<Part>)
    ensures parts == SplitParts(SplitRun(text, urlPositions))
  {
    parts := [];
    var remainingText := text;
    var offset: int := 0;
    for k := 0 to |urlPositions|
      invariant SplitState(parts, remainingText, offset) == SplitRun(text, urlPositions[..k])
    {
      SplitRunSnoc(text, urlPositions, k);
      parts, remainingText, offset := SplitAtPosition(parts, remainingText, offset, urlPositions[k]);
    }
    assert urlPositions[..|urlPositions|] == urlPositions;
    if remainingText != [] {
      parts := parts + [TextPart(remainingText)];
    }
  }

  /** `splitTextWithUrls`. */
  method SplitTextWithUrls(text: string, matchers: seq<Matcher>) returns (parts: seq<Part>)
    ensures parts == SplitText(text, FoundUrls(text, matchers))
  {
    var urls := FindUrls(text, matchers);
    if |urls| == 0 {
      return [TextPart(text)];
    }
    var urlPositions := SortByIndex(Positions(text, urls));
    parts := SplitAtPositions(text, urlPositions);
  }
}
