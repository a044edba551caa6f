/**
 * The SEO metadata audit of the site's layout files: a layout path is mapped to its route, the
 * `metadata` export of the file is searched for a title, a description, a canonical URL and
 * the OpenGraph, Twitter and robots sections, and the findings are sorted into issues (no
 * export, a missing title or description) and warnings (lengths out of range, missing sections).
 */
module SeoAudit {
  import opened Wrappers
  import opened Text

  // ---------------------------------------------------------------------------------------
  // Routes
  // ---------------------------------------------------------------------------------------

  const BaseDir: string := "./src/app/(main)"
  const LayoutFile: string := "/layout.tsx"

  /**
   * Where a match of `\[([^\]]+)\]` at the head of `s` ends: one past the first `]`, when `s`
   * starts with `[` and at least one character comes before that `]`; 0 when there is no match.
   */
  function ParamEnd(s: string): (j: nat)
    ensures j <= |s|
    ensures j > 0 ==> j >= 3 && s[0] == '[' && s[j - 1] == ']' && ']' !in s[1..j - 1]
  {
    if s != [] && s[0] == '[' && ']' in s[1..] && FirstIndex(s[1..], ']') > 0 then
      var k := FirstIndex(s[1..], ']');
      assert s[1..k + 1] == s[1..][..k];
      k + 2
    else 0
  }

  /**
   * `.replace(/\[([^\]]+)\]/g, ":$1")`: every `[`, followed by at least one character before the
   * next `]`, is rewritten together with that `]` to `:` and the characters between.
   */
  function BracketParams(s: string): (r: string)
    ensures '[' !in s ==> r == s
    decreases |s|
  {
    if s == [] then []
    else
      var j := ParamEnd(s);
      if j > 0 then [':'] + s[1..j - 1] + BracketParams(s[j..])
      else [s[0]] + BracketParams(s[1..])
  }

  /** `getRoutePath(filePath)`. */
  function GetRoutePath(filePath: string): (route: string)
    ensures route != [] && route[0] == '/'
  {
    var r := BracketParams(ReplaceFirst(ReplaceFirst(filePath, BaseDir, []), LayoutFile, []));
    if r == [] then "/"
    else if r[0] != '/' then "/" + r
    else r
  }

  /** The first `c` in `s` is at `i` when `s[i]` is `c` and no earlier character is. */
  lemma FirstIndexAt(s: string, c: char, i: nat)
    requires i < |s| && s[i] == c && c !in s[..i]
    ensures FirstIndex(s, c) == i
  {
    var k := FirstIndex(s, c);
    assert forall j :: 0 <= j < i ==> s[..i][j] == s[j];
    assert forall j :: 0 <= j < k ==> s[..k][j] == s[j];
  }

  /** A parameter at the head loses its brackets. */
  lemma ParamAtHead(name: string, b: string)
    requires name != [] && ']' !in name
    ensures BracketParams(['['] + name + [']'] + b) == [':'] + name + BracketParams(b)
  {
    var s := ['['] + name + [']'] + b;
    assert s[1..|name| + 1] == name && s[|name| + 1] == ']' && s[|name| + 2..] == b;
    ParamInside(s, name, b);
  }

  /** The same, stated on the positions of `s`. */
  lemma ParamInside(s: string, name: string, b: string)
    requires name != [] && ']' !in name && |s| == |name| + 2 + |b| && s[0] == '['
    requires s[1..|name| + 1] == name && s[|name| + 1] == ']' && s[|name| + 2..] == b
    ensures BracketParams(s) == [':'] + name + BracketParams(b)
  {
    var rest := s[1..];
    assert rest[..|name|] == name && rest[|name|] == ']';
    FirstIndexAt(rest, ']', |name|);
    assert ParamEnd(s) == |name| + 2;
  }

  /** A character other than `[` is kept as it is. */
  lemma PlainHead(c: char, rest: string)
    requires c != '['
    ensures BracketParams([c] + rest) == [c] + BracketParams(rest)
  {
    assert ParamEnd([c] + rest) == 0;
    assert ([c] + rest)[1..] == rest;
  }

  /** Text without `[` in front of `x` is kept as it is. */
  lemma {:induction false} PlainPrefix(a: string, x: string)
    requires '[' !in a
    ensures BracketParams(a + x) == a + BracketParams(x)
    decreases |a|
  {
    if a != [] {
      var c, t := a[0], a[1..];
      assert a == [c] + t;
      PlainHead(c, t + x);
      PlainPrefix(t, x);
      calc {
        BracketParams(a + x);
        { AppendAssoc([c], t, x); }
        BracketParams([c] + (t + x));
        [c] + BracketParams(t + x);
        [c] + (t + BracketParams(x));
        { AppendAssoc([c], t, BracketParams(x)); }
        a + BracketParams(x);
      }
    } else {
      assert a + x == x;
    }
  }

  /** Text without `[` before a parameter is kept, and the parameter loses its brackets. */
  lemma ParamRewritten(a: string, name: string, b: string)
    requires '[' !in a && name != [] && ']' !in name
    ensures BracketParams(a + ['['] + name + [']'] + b) == a + [':'] + name + BracketParams(b)
  {
    var x := ['['] + name + [']'] + b;
    var y := [':'] + name + BracketParams(b);
    FrontRegroup(a, ['['], name, [']'] + b);
    assert ['['] + name + [']'] + b == ['['] + name + ([']'] + b);
    assert a + ['['] + name + [']'] + b == a + ['['] + name + ([']'] + b);
    PlainPrefix(a, x);
    ParamAtHead(name, b);
    FrontRegroup(a, [':'], name, BracketParams(b));
  }

  /** Regrouping a concatenation of four pieces behind its first. */
  lemma FrontRegroup(a: string, b: string, c: string, d: string)
    ensures a + b + c + d == a + (b + c + d)
  {
  }

  /** The first occurrence of `p` in `s` is at `i` when it occurs there and nowhere before. */
  lemma IndexOfAt(s: string, p: string, i: nat)
    requires i + |p| <= |s| && s[i..i + |p|] == p
    requires forall k :: 0 <= k < i ==> !(p <= s[k..])
    ensures IndexOf(s, p) == i
  {
    assert p <= s[i..];
    ContainsAt(s, p, i);
    if IndexOf(s, p) > i {
      IndexOfLeftmost(s, p, i);
    }
  }

  /** `/layout.tsx` occurs in `dir + /layout.tsx` only at its end. */
  predicate LayoutOnlyAtEnd(dir: string) {
    forall k :: 0 <= k < |dir| ==> !(LayoutFile <= (dir + LayoutFile)[k..])
  }

  /** Removing the first `pat` from `pat + rest` leaves `rest`. */
  lemma RemoveFirstAtHead(pat: string, rest: string)
    ensures ReplaceFirst(pat + rest, pat, []) == rest
  {
    assert pat <= pat + rest && (pat + rest)[|pat|..] == rest;
  }

  /** Removing the first `pat` from `dir + pat`, when that is its only occurrence, leaves `dir`. */
  lemma RemoveFirstAtEnd(dir: string, pat: string)
    requires forall k :: 0 <= k < |dir| ==> !(pat <= (dir + pat)[k..])
    ensures ReplaceFirst(dir + pat, pat, []) == dir
  {
    var t := dir + pat;
    assert t[|dir|..|dir| + |pat|] == pat;
    IndexOfAt(t, pat, |dir|);
    assert t[..|dir|] == dir && t[|dir| + |pat|..] == [];
  }

  /** The route of the layout in directory `dir` below the base directory. */
  lemma RouteOfDir(dir: string)
    requires LayoutOnlyAtEnd(dir)
    ensures var r := BracketParams(dir);
      GetRoutePath(BaseDir + dir + LayoutFile) == if r == [] then "/" else if r[0] != '/' then "/" + r else r
  {
    AppendAssoc(BaseDir, dir, LayoutFile);
    RemoveFirstAtHead(BaseDir, dir + LayoutFile);
    RemoveFirstAtEnd(dir, LayoutFile);
  }

  /** The root layout is the route `/`. */
  lemma RootLayoutRoute()
    ensures GetRoutePath(BaseDir + LayoutFile) == "/"
  {
    RouteOfDir([]);
    assert BaseDir + [] + LayoutFile == BaseDir + LayoutFile;
  }

  /** `/layout.tsx` holds no slash after its first character. */
  lemma LayoutFileShape()
    ensures |LayoutFile| == 11 && LayoutFile[0] == '/' && '/' !in LayoutFile[1..]
    ensures LayoutFile[1..] == "layout.tsx" && LayoutFile[1] == 'l'
  {
  }

  /** In a path `/` + `seg` + `/` + ..., no slash before the second starts `/layout.tsx`. */
  lemma LayoutNotBefore(s: string, seg: string, k: nat)
    requires '/' !in seg && !("layout.tsx" <= seg) && k <= |seg|
    requires |s| >= |seg| + 2 && s[0] == '/' && s[|seg| + 1] == '/'
    requires forall i :: 0 <= i < |seg| ==> s[i + 1] == seg[i]
    ensures !(LayoutFile <= s[k..])
  {
    LayoutFileShape();
    if k == 0 {
      if |seg| >= 10 {
        assert seg[..10] != LayoutFile[1..];
        var j :| 0 <= j < 10 && seg[j] != LayoutFile[j + 1];
        assert s[j + 1] == seg[j];
      } else {
        assert LayoutFile[1..][|seg|] != '/';
      }
    } else {
      assert s[k] == seg[k - 1];
    }
  }

  /** A layout one directory deep: `./src/app/(main)/about/layout.tsx` is the route `/about`. */
  lemma StaticRoute(seg: string)
    requires '/' !in seg && '[' !in seg && !("layout.tsx" <= seg)
    ensures GetRoutePath(BaseDir + ("/" + seg) + LayoutFile) == "/" + seg
  {
    LayoutFileShape();
    var dir := "/" + seg;
    var full := dir + LayoutFile;
    assert full[|seg| + 1] == '/';
    forall k | 0 <= k < |dir| ensures !(LayoutFile <= full[k..]) {
      LayoutNotBefore(full, seg, k);
    }
    RouteOfDir(dir);
  }

  /** A dynamic segment: `./src/app/(main)/blog/[slug]/layout.tsx` is the route `/blog/:slug`. */
  lemma DynamicRoute(seg: string, name: string)
    requires '/' !in seg && '[' !in seg && !("layout.tsx" <= seg)
    requires name != [] && '/' !in name && ']' !in name
    ensures GetRoutePath(BaseDir + ("/" + seg + "/" + "[" + name + "]") + LayoutFile)
         == "/" + seg + "/" + ":" + name
  {
    var a := "/" + seg + "/";
    var dir := a + "[" + name + "]";
    DynamicLayoutOnlyAtEnd(seg, name);
    RouteOfDir(dir);
    ParamRewritten(a, name, []);
    assert dir + [] == dir;
  }

  /** No `/layout.tsx` starts inside `/seg/[name]` before its end. */
  lemma DynamicLayoutOnlyAtEnd(seg: string, name: string)
    requires '/' !in seg && !("layout.tsx" <= seg) && '/' !in name
    ensures LayoutOnlyAtEnd("/" + seg + "/" + "[" + name + "]")
  {
    LayoutFileShape();
    var dir := "/" + seg + "/" + "[" + name + "]";
    var full := dir + LayoutFile;
    assert full[|seg| + 1] == '/' && full[|seg| + 2] == '[';
    forall k | 0 <= k < |dir| ensures !(LayoutFile <= full[k..]) {
      if k <= |seg| {
        LayoutNotBefore(full, seg, k);
      } else if k > |seg| + 2 {
        assert full[k] == dir[k];
        assert k - |seg| - 3 < |name| ==> dir[k] == name[k - |seg| - 3];
      }
    }
  }

  // ---------------------------------------------------------------------------------------
  // The metadata regexes
  // ---------------------------------------------------------------------------------------

  /** The patterns `extractMetadata` tests with `regex.test(content)`. */
  datatype Pattern =
    | ExportConst          // export\s+const\s+metadata
    | OpensObject(key: string) // <key>:\s*{
    | Alternates           // alternates:\s*{[^}]*canonical

  predicate IsQuote(c: char) {
    c == '"' || c == '\'' || c == '`'
  }

  /** The length of the greedy run `[^"'`]*` at the head of `s`. */
  function QuoteFreeRun(s: string): (n: nat)
    ensures n <= |s| && (forall i :: 0 <= i < n ==> !IsQuote(s[i])) && (n < |s| ==> IsQuote(s[n]))
  {
    if s == [] || IsQuote(s[0]) then 0 else 1 + QuoteFreeRun(s[1..])
  }

  /** Where a match of `<key>:\s*` at the head of `s` ends; 0 when `s` does not start with `<key>:`. */
  function KeyEnd(s: string, key: string): (k: nat)
    ensures k <= |s|
    ensures k > 0 ==> k > |key| && key + ":" <= s
  {
    var head := key + ":";
    if head <= s then |head| + LeadingSpaces(s[|head|..]) else 0
  }

  /** `export` then white space, `const`, white space and `metadata`, at the head of `s`. */
  predicate ExportAt(s: string) {
    "export" <= s &&
    var i := 6 + LeadingSpaces(s[6..]);
    i > 6 && "const" <= s[i..] &&
    var j := i + 5 + LeadingSpaces(s[i + 5..]);
    j > i + 5 && "metadata" <= s[j..]
  }

  /** `[^}]*canonical` at the head of `s`: `canonical` comes before any `}`. */
  predicate CanonicalBeforeBrace(s: string)
    decreases |s|
  {
    "canonical" <= s || (s != [] && s[0] != '}' && CanonicalBeforeBrace(s[1..]))
  }

  /** A match of `p` that starts at the head of `s`. */
  predicate MatchesAt(p: Pattern, s: string) {
    match p
    case ExportConst => ExportAt(s)
    case OpensObject(key) => var k := KeyEnd(s, key); 0 < k < |s| && s[k] == '{'
    case Alternates =>
      var k := KeyEnd(s, "alternates");
      0 < k < |s| && s[k] == '{' && CanonicalBeforeBrace(s[k + 1..])
  }

  /** `p.test(s)`: some suffix of `s` starts with a match. */
  predicate Test(p: Pattern, s: string)
    decreases |s|
  {
    MatchesAt(p, s) || (s != [] && Test(p, s[1..]))
  }

  /** A position where a match of `p` starts, when `p.test(s)` holds. */
  function MatchIndex(p: Pattern, s: string): (i: nat)
    requires Test(p, s)
    ensures i <= |s| && MatchesAt(p, s[i..])
    decreases |s|
  {
    if MatchesAt(p, s) then
      assert s[0..] == s;
      0
    else
      var i := MatchIndex(p, s[1..]);
      assert s[1..][i..] == s[i + 1..];
      i + 1
  }

  /** A match starting at any position makes `p.test(s)` hold. */
  lemma {:induction false} TestAt(p: Pattern, s: string, j: nat)
    requires j <= |s| && MatchesAt(p, s[j..])
    ensures Test(p, s)
    decreases j
  {
    if j == 0 {
      assert s[0..] == s;
    } else {
      assert s[1..][j - 1..] == s[j..];
      TestAt(p, s[1..], j - 1);
    }
  }

  /** The group captured by `<key>:\s*["'`]([^"'`]+)["'`]` matched at the head of `s`. */
  function QuotedAt(s: string, key: string): (r: Option<string>)
    ensures r.Some? ==> r.value != [] && forall i :: 0 <= i < |r.value| ==> !IsQuote(r.value[i])
  {
    var k := KeyEnd(s, key);
    if 0 < k < |s| && IsQuote(s[k]) then
      var n := QuoteFreeRun(s[k + 1..]);
      if n > 0 && k + 1 + n < |s| then
        assert s[k + 1..k + 1 + n] == s[k + 1..][..n];
        Some(s[k + 1..k + 1 + n])
      else None
    else None
  }

  /** `s.match(re)?.[1]`: the capture of the leftmost match. */
  function FirstQuoted(s: string, key: string): (r: Option<string>)
    ensures r.Some? ==> r.value != [] && forall i :: 0 <= i < |r.value| ==> !IsQuote(r.value[i])
    decreases |s|
  {
    var here := QuotedAt(s, key);
    if here.Some? || s == [] then here else FirstQuoted(s[1..], key)
  }

  /** The position of the match whose capture `FirstQuoted` returns. */
  function QuotedIndex(s: string, key: string): (i: nat)
    requires FirstQuoted(s, key).Some?
    ensures i <= |s| && QuotedAt(s[i..], key) == FirstQuoted(s, key)
    decreases |s|
  {
    if QuotedAt(s, key).Some? then
      assert s[0..] == s;
      0
    else
      var i := QuotedIndex(s[1..], key);
      assert s[1..][i..] == s[i + 1..];
      i + 1
  }

  /** No match starts before that position: the capture is the leftmost one. */
  lemma {:induction false} NoQuotedBefore(s: string, key: string, j: nat)
    requires FirstQuoted(s, key).Some? && j < QuotedIndex(s, key)
    ensures QuotedAt(s[j..], key).None?
    decreases j
  {
    if j == 0 {
      assert s[0..] == s;
    } else {
      NoQuotedBefore(s[1..], key, j - 1);
      assert s[1..][j - 1..] == s[j..];
    }
  }

  /** There is no capture exactly when the regex matches at no position. */
  lemma {:induction false} NoQuotedAnywhere(s: string, key: string, j: nat)
    requires j <= |s|
    ensures FirstQuoted(s, key).None? ==> QuotedAt(s[j..], key).None?
    decreases j
  {
    if j == 0 {
      assert s[0..] == s;
    } else {
      NoQuotedAnywhere(s[1..], key, j - 1);
      assert s[1..][j - 1..] == s[j..];
    }
  }

  // ---------------------------------------------------------------------------------------
  // extractMetadata
  // ---------------------------------------------------------------------------------------

  /** The record `extractMetadata` returns; `None` stands for `null`. */
  datatype Metadata = Metadata(
    hasMetadata: bool, hasTitle: bool, hasDescription: bool, hasCanonical: bool,
    hasOpenGraph: bool, hasTwitterCard: bool, hasRobots: bool,
    titleValue: Option<string>, descriptionValue: Option<string>, canonicalValue: Option<string>)

  /** The initial record: every flag false and every value null. */
  const NoMetadata: Metadata :=
    Metadata(false, false, false, false, false, false, false, None, None, None)

  /** What the regexes find in `content`, as the fields of `m` record it. */
  predicate Extracted(m: Metadata, content: string) {
    && m.hasMetadata == Test(ExportConst, content)
    && (!m.hasMetadata ==> m == NoMetadata)
    && (m.hasMetadata ==>
         && m.titleValue == FirstQuoted(content, "title")
         && m.descriptionValue == FirstQuoted(content, "description")
         && m.hasCanonical == Test(Alternates, content)
         && m.hasOpenGraph == Test(OpensObject("openGraph"), content)
         && m.hasTwitterCard == Test(OpensObject("twitter"), content)
         && m.hasRobots == Test(OpensObject("robots"), content))
    && (m.hasTitle <==> m.titleValue.Some?)
    && (m.hasDescription <==> m.descriptionValue.Some?)
    && m.canonicalValue == (if m.hasCanonical then FirstQuoted(content, "canonical") else None)
  }

  /** `extractMetadata(content)`: the record is filled in field by field. */
  method ExtractMetadata(content: string) returns (metadata: Metadata)
    ensures Extracted(metadata, content)
    ensures metadata.hasTitle ==> metadata.titleValue.Some? && metadata.titleValue.value != []
    ensures metadata.hasDescription ==> metadata.descriptionValue.Some? && metadata.descriptionValue.value != []
  {
    metadata := NoMetadata;
    if Test(ExportConst, content) {
      metadata := metadata.(hasMetadata := true);
      var titleMatch := FirstQuoted(content, "title");
      if titleMatch.Some? {
        metadata := metadata.(hasTitle := true, titleValue := titleMatch);
      }
      var descMatch := FirstQuoted(content, "description");
      if descMatch.Some? {
        metadata := metadata.(hasDescription := true, descriptionValue := descMatch);
      }
      if Test(Alternates, content) {
        metadata := metadata.(hasCanonical := true);
        var canonicalMatch := FirstQuoted(content, "canonical");
        if canonicalMatch.Some? {
          metadata := metadata.(canonicalValue := canonicalMatch);
        }
      }
      if Test(OpensObject("openGraph"), content) {
        metadata := metadata.(hasOpenGraph := true);
      }
      if Test(OpensObject("twitter"), content) {
        metadata := metadata.(hasTwitterCard := true);
      }
      if Test(OpensObject("robots"), content) {
        metadata := metadata.(hasRobots := true);
      }
    }
  }

  /** The fields are determined by the content: two records extracted from it agree. */
  lemma ExtractedUnique(m1: Metadata, m2: Metadata, content: string)
    requires Extracted(m1, content) && Extracted(m2, content)
    ensures m1 == m2
  {
  }

  /** Without a metadata export the record is the initial one, whatever else the file holds. */
  lemma NoExportNoMetadata(m: Metadata, content: string)
    requires Extracted(m, content) && !Test(ExportConst, content)
    ensures !m.hasTitle && !m.hasDescription && !m.hasCanonical
    ensures !m.hasOpenGraph && !m.hasTwitterCard && !m.hasRobots
    ensures m.titleValue.None? && m.descriptionValue.None? && m.canonicalValue.None?
  {
  }

  // ---------------------------------------------------------------------------------------
  // auditMetadata
  // ---------------------------------------------------------------------------------------

  /** The entries `auditMetadata` pushes onto `issues`. */
  datatype Issue = NoMetadataExport | MissingTitle | MissingDescription

  /** The entries `auditMetadata` pushes onto `warnings`; the numbers are the lengths reported. */
  datatype Warning =
    | TitleTooLong(n: nat) | TitleTooShort(n: nat)
    | DescriptionTooLong(n: nat) | DescriptionTooShort(n: nat)
    | MissingCanonical | MissingOpenGraph | MissingTwitterCard | MissingRobots

  /** The text of an issue as the report prints it. */
  function IssueText(i: Issue): string {
    match i
    case NoMetadataExport => "\U{274C} No metadata export found"
    case MissingTitle => "\U{274C} Missing title"
    case MissingDescription => "\U{274C} Missing description"
  }

  /** The text of a warning as the report prints it. */
  function WarningText(w: Warning): string {
    var sign := "\U{26A0}\U{FE0F}  ";
    match w
    case TitleTooLong(n) => sign + "Title too long (" + NatToString(n) + " chars, recommended <60)"
    case TitleTooShort(n) => sign + "Title too short (" + NatToString(n) + " chars, recommended 30-60)"
    case DescriptionTooLong(n) =>
      sign + "Description too long (" + NatToString(n) + " chars, recommended <160)"
    case DescriptionTooShort(n) =>
      sign + "Description too short (" + NatToString(n) + " chars, recommended 120-160)"
    case MissingCanonical => sign + "Missing canonical URL"
    case MissingOpenGraph => sign + "Missing OpenGraph metadata (important for social sharing)"
    case MissingTwitterCard => sign + "Missing Twitter Card metadata"
    case MissingRobots => sign + "Missing robots configuration"
  }

  /** The object `auditMetadata` returns. */
  datatype AuditResult = AuditResult(
    file: string, route: string, issues: seq<Issue>, warnings: seq<Warning>, metadata: Metadata)

  /** The two fields whose lengths are checked. */
  datatype Topic = TitleTopic | DescriptionTopic

  /** `w` is a length warning about `t`. */
  predicate About(w: Warning, t: Topic) {
    match t
    case TitleTopic => w.TitleTooLong? || w.TitleTooShort?
    case DescriptionTopic => w.DescriptionTooLong? || w.DescriptionTooShort?
  }

  /** How many of `ws` are length warnings about `t`. */
  function CountAbout(ws: seq<Warning>, t: Topic): (n: nat)
    ensures n <= |ws|
  {
    if ws == [] then 0 else CountAbout(ws[..|ws| - 1], t) + (if About(ws[|ws| - 1], t) then 1 else 0)
  }

  lemma {:induction false} CountAboutConcat(a: seq<Warning>, b: seq<Warning>, t: Topic)
    ensures CountAbout(a + b, t) == CountAbout(a, t) + CountAbout(b, t)
    decreases |b|
  {
    if b == [] {
      assert a + b == a;
    } else {
      assert (a + b)[..|a + b| - 1] == a + b[..|b| - 1];
      CountAboutConcat(a, b[..|b| - 1], t);
    }
  }

  /** A list of warnings none of which is about `t` counts none. */
  lemma {:induction false} CountAboutNone(ws: seq<Warning>, t: Topic)
    requires forall i :: 0 <= i < |ws| ==> !About(ws[i], t)
    ensures CountAbout(ws, t) == 0
    decreases |ws|
  {
    if ws != [] {
      CountAboutNone(ws[..|ws| - 1], t);
    }
  }

  function Indicator(b: bool): nat {
    if b then 1 else 0
  }

  /** The recommended length ranges: 30 to 60 characters for a title, 120 to 160 for a description. */
  predicate TitleOutOfRange(t: string) {
    |t| > 60 || |t| < 30
  }

  predicate DescriptionOutOfRange(d: string) {
    |d| > 160 || |d| < 120
  }

  /** The issues for a record with a metadata export: one per missing title or description. */
  predicate IssuesReported(m: Metadata, issues: seq<Issue>) {
    && |issues| == Indicator(!m.hasTitle) + Indicator(!m.hasDescription) <= 2
    && NoMetadataExport !in issues
    && (MissingTitle in issues <==> !m.hasTitle)
    && (MissingDescription in issues <==> !m.hasDescription)
  }

  /**
   * The warnings for a record with a metadata export: one for a title and one for a description
   * whose length is out of range, naming the direction, and one per missing section.
   */
  predicate WarningsReported(m: Metadata, warnings: seq<Warning>)
    requires m.hasTitle ==> m.titleValue.Some?
    requires m.hasDescription ==> m.descriptionValue.Some?
  {
    && CountAbout(warnings, TitleTopic) == Indicator(m.hasTitle && TitleOutOfRange(m.titleValue.value))
    && CountAbout(warnings, DescriptionTopic)
       == Indicator(m.hasDescription && DescriptionOutOfRange(m.descriptionValue.value))
    && (m.hasTitle ==> var n := |m.titleValue.value|;
         (TitleTooLong(n) in warnings <==> n > 60) && (TitleTooShort(n) in warnings <==> n < 30))
    && (m.hasDescription ==> var n := |m.descriptionValue.value|;
         (DescriptionTooLong(n) in warnings <==> n > 160) && (DescriptionTooShort(n) in warnings <==> n < 120))
    && (MissingCanonical in warnings <==> !m.hasCanonical)
    && (MissingOpenGraph in warnings <==> !m.hasOpenGraph)
    && (MissingTwitterCard in warnings <==> !m.hasTwitterCard)
    && (MissingRobots in warnings <==> !m.hasRobots)
    && |warnings| == CountAbout(warnings, TitleTopic) + CountAbout(warnings, DescriptionTopic)
         + Indicator(!m.hasCanonical) + Indicator(!m.hasOpenGraph)
         + Indicator(!m.hasTwitterCard) + Indicator(!m.hasRobots)
  }

  /** The shortest and longest recommended length. */
  function Lo(t: Topic): nat {
    match t
    case TitleTopic => 30
    case DescriptionTopic => 120
  }

  function Hi(t: Topic): nat {
    match t
    case TitleTopic => 60
    case DescriptionTopic => 160
  }

  function TooLong(t: Topic, n: nat): Warning {
    match t
    case TitleTopic => TitleTooLong(n)
    case DescriptionTopic => DescriptionTooLong(n)
  }

  function TooShort(t: Topic, n: nat): Warning {
    match t
    case TitleTopic => TitleTooShort(n)
    case DescriptionTopic => DescriptionTooShort(n)
  }

  /**
   * The length warnings about a field `t` whose value is `value`: all of them are about `t`,
   * there is one when the value is present and its length out of range, and it says which way.
   */
  predicate LengthChecked(ws: seq<Warning>, t: Topic, value: Option<string>) {
    && (forall i :: 0 <= i < |ws| ==> About(ws[i], t))
    && |ws| == Indicator(value.Some? && (|value.value| > Hi(t) || |value.value| < Lo(t)))
    && (value.Some? ==> var n := |value.value|;
         (TooLong(t, n) in ws <==> n > Hi(t)) && (TooShort(t, n) in ws <==> n < Lo(t)))
  }

  /** Lines 115-129 of the audit: a missing title is an issue, a bad length a warning. */
  method CheckTitle(m: Metadata) returns (issues: seq<Issue>, warnings: seq<Warning>)
    requires m.hasTitle ==> m.titleValue.Some?
    ensures issues == if m.hasTitle then [] else [MissingTitle]
    ensures LengthChecked(warnings, TitleTopic, if m.hasTitle then m.titleValue else None)
  {
    issues := [];
    warnings := [];
    if !m.hasTitle {
      issues := issues + [MissingTitle];
    } else {
      var n := |m.titleValue.value|;
      if n > 60 {
        warnings := warnings + [TitleTooLong(n)];
      }
      if n < 30 {
        warnings := warnings + [TitleTooShort(n)];
      }
    }
  }

  /** Lines 131-145: the same for the description, with the range 120 to 160. */
  method CheckDescription(m: Metadata) returns (issues: seq<Issue>, warnings: seq<Warning>)
    requires m.hasDescription ==> m.descriptionValue.Some?
    ensures issues == if m.hasDescription then [] else [MissingDescription]
    ensures LengthChecked(warnings, DescriptionTopic, if m.hasDescription then m.descriptionValue else None)
  {
    issues := [];
    warnings := [];
    if !m.hasDescription {
      issues := issues + [MissingDescription];
    } else {
      var n := |m.descriptionValue.value|;
      if n > 160 {
        warnings := warnings + [DescriptionTooLong(n)];
      }
      if n < 120 {
        warnings := warnings + [DescriptionTooShort(n)];
      }
    }
  }

  /** The warnings for the four sections, each present or missing. */
  predicate SectionsChecked(m: Metadata, ws: seq<Warning>) {
    && (forall i :: 0 <= i < |ws| ==> !About(ws[i], TitleTopic) && !About(ws[i], DescriptionTopic))
    && (MissingCanonical in ws <==> !m.hasCanonical)
    && (MissingOpenGraph in ws <==> !m.hasOpenGraph)
    && (MissingTwitterCard in ws <==> !m.hasTwitterCard)
    && (MissingRobots in ws <==> !m.hasRobots)
    && |ws| == Indicator(!m.hasCanonical) + Indicator(!m.hasOpenGraph)
         + Indicator(!m.hasTwitterCard) + Indicator(!m.hasRobots)
  }

  /** Lines 147-163: one warning per missing canonical URL, OpenGraph, Twitter and robots entry. */
  method CheckSections(m: Metadata) returns (warnings: seq<Warning>)
    ensures SectionsChecked(m, warnings)
  {
    warnings := [];
    if !m.hasCanonical {
      warnings := warnings + [MissingCanonical];
    }
    if !m.hasOpenGraph {
      warnings := warnings + [MissingOpenGraph];
    }
    if !m.hasTwitterCard {
      warnings := warnings + [MissingTwitterCard];
    }
    if !m.hasRobots {
      warnings := warnings + [MissingRobots];
    }
  }

  /** A list of warnings all about `t` counts each of them. */
  lemma {:induction false} CountAboutAll(ws: seq<Warning>, t: Topic)
    requires forall i :: 0 <= i < |ws| ==> About(ws[i], t)
    ensures CountAbout(ws, t) == |ws|
    decreases |ws|
  {
    if ws != [] {
      CountAboutAll(ws[..|ws| - 1], t);
    }
  }

  /** A warning not about `t` is missing from a list of warnings all about `t`. */
  lemma NotAmongAbout(w: Warning, ws: seq<Warning>, t: Topic)
    requires forall i :: 0 <= i < |ws| ==> About(ws[i], t)
    requires !About(w, t)
    ensures w !in ws
  {
  }

  /** A length warning is missing from the section warnings. */
  lemma NotAmongSections(w: Warning, ws: seq<Warning>, t: Topic)
    requires forall i :: 0 <= i < |ws| ==> !About(ws[i], TitleTopic) && !About(ws[i], DescriptionTopic)
    requires About(w, t)
    ensures w !in ws
  {
  }

  /** Membership in three concatenated lists. */
  lemma InThree<T>(w: T, a: seq<T>, b: seq<T>, c: seq<T>)
    ensures w in a + b + c <==> w in a || w in b || w in c
  {
  }

  /** The counts of warnings about the title and the description, over the three parts. */
  lemma CountsFromParts(tw: seq<Warning>, dw: seq<Warning>, sw: seq<Warning>)
    requires forall i :: 0 <= i < |tw| ==> About(tw[i], TitleTopic)
    requires forall i :: 0 <= i < |dw| ==> About(dw[i], DescriptionTopic)
    requires forall i :: 0 <= i < |sw| ==> !About(sw[i], TitleTopic) && !About(sw[i], DescriptionTopic)
    ensures CountAbout(tw + dw + sw, TitleTopic) == |tw|
    ensures CountAbout(tw + dw + sw, DescriptionTopic) == |dw|
  {
    CountAboutAll(tw, TitleTopic);
    CountAboutNone(tw, DescriptionTopic);
    CountAboutAll(dw, DescriptionTopic);
    CountAboutNone(dw, TitleTopic);
    CountAboutNone(sw, TitleTopic);
    CountAboutNone(sw, DescriptionTopic);
    CountAboutConcat(tw, dw, TitleTopic);
    CountAboutConcat(tw, dw, DescriptionTopic);
    CountAboutConcat(tw + dw, sw, TitleTopic);
    CountAboutConcat(tw + dw, sw, DescriptionTopic);
  }

  /** The warnings of the three checks, in the order they run, are the ones the audit reports. */
  lemma WarningsFromParts(m: Metadata, tw: seq<Warning>, dw: seq<Warning>, sw: seq<Warning>)
    requires m.hasTitle ==> m.titleValue.Some?
    requires m.hasDescription ==> m.descriptionValue.Some?
    requires LengthChecked(tw, TitleTopic, if m.hasTitle then m.titleValue else None)
    requires LengthChecked(dw, DescriptionTopic, if m.hasDescription then m.descriptionValue else None)
    requires SectionsChecked(m, sw)
    ensures WarningsReported(m, tw + dw + sw)
  {
    CountsFromParts(tw, dw, sw);
    if m.hasTitle {
      var n := |m.titleValue.value|;
      InThree(TitleTooLong(n), tw, dw, sw);
      InThree(TitleTooShort(n), tw, dw, sw);
      NotAmongAbout(TitleTooLong(n), dw, DescriptionTopic);
      NotAmongAbout(TitleTooShort(n), dw, DescriptionTopic);
      NotAmongSections(TitleTooLong(n), sw, TitleTopic);
      NotAmongSections(TitleTooShort(n), sw, TitleTopic);
    }
    if m.hasDescription {
      var n := |m.descriptionValue.value|;
      InThree(DescriptionTooLong(n), tw, dw, sw);
      InThree(DescriptionTooShort(n), tw, dw, sw);
      NotAmongAbout(DescriptionTooLong(n), tw, TitleTopic);
      NotAmongAbout(DescriptionTooShort(n), tw, TitleTopic);
      NotAmongSections(DescriptionTooLong(n), sw, DescriptionTopic);
      NotAmongSections(DescriptionTooShort(n), sw, DescriptionTopic);
    }
    InThree(MissingCanonical, tw, dw, sw);
    InThree(MissingOpenGraph, tw, dw, sw);
    InThree(MissingTwitterCard, tw, dw, sw);
    InThree(MissingRobots, tw, dw, sw);
    NotAmongAbout(MissingCanonical, tw, TitleTopic);
    NotAmongAbout(MissingOpenGraph, tw, TitleTopic);
    NotAmongAbout(MissingTwitterCard, tw, TitleTopic);
    NotAmongAbout(MissingRobots, tw, TitleTopic);
    NotAmongAbout(MissingCanonical, dw, DescriptionTopic);
    NotAmongAbout(MissingOpenGraph, dw, DescriptionTopic);
    NotAmongAbout(MissingTwitterCard, dw, DescriptionTopic);
    NotAmongAbout(MissingRobots, dw, DescriptionTopic);
  }

  /** The issues of the title and the description checks, in that order. */
  lemma IssuesFromParts(m: Metadata, ti: seq<Issue>, di: seq<Issue>)
    requires ti == if m.hasTitle then [] else [MissingTitle]
    requires di == if m.hasDescription then [] else [MissingDescription]
    ensures IssuesReported(m, ti + di)
  {
  }

  /** The checks `auditMetadata` runs once a metadata export was found, in the order it runs them. */
  method CheckFields(m: Metadata) returns (issues: seq<Issue>, warnings: seq<Warning>)
    requires m.hasTitle ==> m.titleValue.Some?
    requires m.hasDescription ==> m.descriptionValue.Some?
    ensures IssuesReported(m, issues) && WarningsReported(m, warnings)
  {
    var titleIssues, titleWarnings := CheckTitle(m);
    var descriptionIssues, descriptionWarnings := CheckDescription(m);
    var sectionWarnings := CheckSections(m);
    issues := titleIssues + descriptionIssues;
    warnings := titleWarnings + descriptionWarnings + sectionWarnings;
    IssuesFromParts(m, titleIssues, descriptionIssues);
    WarningsFromParts(m, titleWarnings, descriptionWarnings, sectionWarnings);
  }

  /** `auditMetadata(filePath, content)`. */
  method AuditMetadata(filePath: string, content: string) returns (result: AuditResult)
    ensures result.file == filePath && result.route == GetRoutePath(filePath)
    ensures Extracted(result.metadata, content)
    ensures var m := result.metadata;
      !m.hasMetadata ==> result.issues == [NoMetadataExport] && result.warnings == []
    ensures var m := result.metadata;
      m.hasMetadata ==> IssuesReported(m, result.issues) && WarningsReported(m, result.warnings)
  {
    var metadata := ExtractMetadata(content);
    var route := GetRoutePath(filePath);

    if !metadata.hasMetadata {
      return AuditResult(filePath, route, [NoMetadataExport], [], metadata);
    }

    var issues, warnings := CheckFields(metadata);
    result := AuditResult(filePath, route, issues, warnings, metadata);
  }
}
