/**
 * The JavaScript string operations the migration scripts are built from, on `seq<char>`:
 * white space as `\s` and `String.prototype.trim` see it, literal `replace` with and without
 * the global flag, the tag-stripping replacement `/<[^>]*>/g`, ASCII case folding and the
 * decimal rendering of counters inside template strings.
 */
module Text {

  /** The characters that JavaScript's `\s` class and `trim()` treat as white space. */
  predicate IsSpace(c: char) {
    c == ' ' || c == '\t' || c == '\n' || c == '\r' || c == '\U{000B}' || c == '\U{000C}'
    || c == '\U{00A0}' || c == '\U{1680}' || ('\U{2000}' <= c <= '\U{200A}')
    || c == '\U{2028}' || c == '\U{2029}' || c == '\U{202F}' || c == '\U{205F}'
    || c == '\U{3000}' || c == '\U{FEFF}'
  }

  predicate IsBlank(s: string) {
    forall i :: 0 <= i < |s| ==> IsSpace(s[i])
  }

  /** Neither end of `s` is white space. */
  predicate IsTrimmed(s: string) {
    s == [] || (!IsSpace(s[0]) && !IsSpace(s[|s| - 1]))
  }

  /** The number of white-space characters `s` starts with. */
  function LeadingSpaces(s: string): (k: nat)
    ensures k <= |s| && IsBlank(s[..k])
    ensures k < |s| ==> !IsSpace(s[k])
  {
    if s == [] || !IsSpace(s[0]) then 0
    else
      var k := 1 + LeadingSpaces(s[1..]);
      assert s[..k] == [s[0]] + s[1..][..k - 1];
      k
  }

  /** The number of white-space characters `s` ends with. */
  function TrailingSpaces(s: string): (k: nat)
    ensures k <= |s| && IsBlank(s[|s| - k..])
    ensures k < |s| ==> !IsSpace(s[|s| - k - 1])
    ensures k == |s| && s != [] ==> IsSpace(s[0])
  {
    if s == [] || !IsSpace(s[|s| - 1]) then 0
    else
      var k := 1 + TrailingSpaces(s[..|s| - 1]);
      assert s[|s| - k..] == s[..|s| - 1][|s| - k..] + [s[|s| - 1]];
      k
  }

  /** `String.prototype.trim`: `s` without its leading and trailing white space. */
  function Trim(s: string): (r: string)
    ensures IsTrimmed(r)
    ensures r == [] <==> IsBlank(s)
    ensures LeadingSpaces(s) + |r| <= |s| && r == s[LeadingSpaces(s)..LeadingSpaces(s) + |r|]
  {
    var i := LeadingSpaces(s);
    if i == |s| then
      assert s[..i] == s;
      []
    else
      var rest := s[i..];
      var j := TrailingSpaces(rest);
      TrimCore(s, i, rest, j);
      TrimEnds(s, i, rest, j);
      assert rest[..|rest| - j] == s[i..i + |rest| - j];
      rest[..|rest| - j]
  }

  lemma TrimCore(s: string, i: nat, rest: string, j: nat)
    requires i == LeadingSpaces(s) && i < |s| && rest == s[i..] && j == TrailingSpaces(rest)
    ensures j < |rest| && !IsBlank(s)
  {
    assert !IsSpace(s[i]);
    assert rest[0] == s[i];
  }

  lemma TrimEnds(s: string, i: nat, rest: string, j: nat)
    requires i == LeadingSpaces(s) && i < |s| && rest == s[i..] && j == TrailingSpaces(rest) && j < |rest|
    ensures IsTrimmed(rest[..|rest| - j])
  {
    var r := rest[..|rest| - j];
    assert !IsSpace(r[0]) by {
      assert r[0] == rest[0] == s[i];
    }
    var m := |rest| - j - 1;
    assert !IsSpace(rest[m]);
    assert |r| - 1 == m && r[m] == rest[m];
  }

  /** What `trim()` removes from the end is white space. */
  lemma TrimDropsBlankTail(s: string)
    ensures IsBlank(s[LeadingSpaces(s) + |Trim(s)|..])
  {
    var i := LeadingSpaces(s);
    if i < |s| {
      var rest := s[i..];
      var j := TrailingSpaces(rest);
      assert s[i + |Trim(s)|..] == rest[|rest| - j..];
    }
  }

  lemma {:induction false} TrimOfTrimmed(s: string)
    requires IsTrimmed(s)
    ensures Trim(s) == s
  {
    if s != [] {
      assert LeadingSpaces(s) == 0;
      var r := Trim(s);
      assert r != [] by { assert !IsSpace(s[0]); }
      TrimDropsBlankTail(s);
    }
  }

  /** Trimming twice changes nothing more than trimming once. */
  lemma TrimIdempotent(s: string)
    ensures Trim(Trim(s)) == Trim(s)
  {
    TrimOfTrimmed(Trim(s));
  }

  predicate IsAsciiLetter(c: char) {
    ('a' <= c <= 'z') || ('A' <= c <= 'Z')
  }

  predicate IsDigit(c: char) {
    '0' <= c <= '9'
  }

  /** ASCII lower-casing of one character. */
  function Lower(c: char): (d: char)
    ensures 'A' <= c <= 'Z' ==> d as int == c as int + 32
    ensures !('A' <= c <= 'Z') ==> d == c
  {
    if 'A' <= c <= 'Z' then (c as int + 32) as char else c
  }

  function LowerAll(s: string): (r: string)
    ensures |r| == |s| && forall i :: 0 <= i < |s| ==> r[i] == Lower(s[i])
  {
    seq(|s|, i requires 0 <= i < |s| => Lower(s[i]))
  }

  /** Lower-casing distributes over concatenation. */
  lemma LowerAllAppend(a: string, b: string)
    ensures LowerAll(a + b) == LowerAll(a) + LowerAll(b)
  {
    var l, r := LowerAll(a + b), LowerAll(a) + LowerAll(b);
    forall i | 0 <= i < |l| ensures l[i] == r[i] {
      if i < |a| {
        assert (a + b)[i] == a[i];
      } else {
        assert (a + b)[i] == b[i - |a|];
      }
    }
  }

  /** Lower-casing a lower-cased string changes nothing. */
  lemma LowerAllIdempotent(s: string)
    ensures LowerAll(LowerAll(s)) == LowerAll(s)
  {
    var l := LowerAll(s);
    forall i | 0 <= i < |s| ensures LowerAll(l)[i] == l[i] {
      assert l[i] == Lower(s[i]);
    }
  }

  /**
   * Comparing lower-cased strings is comparing up to case: `a.toLowerCase() ===
   * b.toLowerCase()` exactly when `a` and `b` agree under the `i` flag's folding.
   */
  lemma {:induction false} LowerAllIgnoreCase(s: string, t: string)
    ensures EqualsIgnoreCase(s, t) <==> LowerAll(s) == LowerAll(t)
    decreases |s|
  {
    if |s| == |t| && s != [] {
      LowerAllIgnoreCase(s[1..], t[1..]);
      LowerAllCons(s);
      LowerAllCons(t);
      ConsEqual(Lower(s[0]), LowerAll(s[1..]), Lower(t[0]), LowerAll(t[1..]));
    }
  }

  lemma LowerAllCons(s: string)
    requires s != []
    ensures LowerAll(s) == [Lower(s[0])] + LowerAll(s[1..])
  {
  }

  lemma ConsEqual<T>(a: T, x: seq<T>, b: T, y: seq<T>)
    ensures [a] + x == [b] + y <==> a == b && x == y
  {
    if [a] + x == [b] + y {
      assert ([a] + x)[0] == a && ([a] + x)[1..] == x;
      assert ([b] + y)[0] == b && ([b] + y)[1..] == y;
    }
  }

  /** `s` and `t` are equal under the case folding of a regular expression with the `i` flag. */
  predicate EqualsIgnoreCase(s: string, t: string)
    decreases |s|
  {
    |s| == |t| && (s == [] || (Lower(s[0]) == Lower(t[0]) && EqualsIgnoreCase(s[1..], t[1..])))
  }

  /** Every string equals itself up to case. */
  lemma {:induction false} EqualsIgnoreCaseRefl(s: string)
    ensures EqualsIgnoreCase(s, s)
    decreases |s|
  {
    if s != [] {
      EqualsIgnoreCaseRefl(s[1..]);
    }
  }

  /** A string starts, up to case, with each of its prefixes. */
  lemma StartsWithOwnPrefix(p: string, rest: string)
    ensures StartsWithIgnoreCase(p + rest, p)
  {
    assert (p + rest)[..|p|] == p;
    EqualsIgnoreCaseRefl(p);
  }

  /** `s` starts with `p` when case is ignored. */
  predicate StartsWithIgnoreCase(s: string, p: string) {
    |p| <= |s| && EqualsIgnoreCase(s[..|p|], p)
  }

  /** `r` is `s + f + p` once `m` is `s + f`, `r` is `m + p` and `g` is `f + p`. */
  lemma AppendAfter<T>(r: seq<T>, m: seq<T>, s: seq<T>, f: seq<T>, p: seq<T>, g: seq<T>)
    requires r == m + p && m == s + f && g == f + p
    ensures r == s + g
  {
  }

  /** Element `i` of `a + [x]`. */
  lemma SnocAt<T>(a: seq<T>, x: T, i: nat)
    requires i <= |a|
    ensures (a + [x])[i] == if i < |a| then a[i] else x
  {
  }

  /** Below the last index, the front of `s` agrees with `s`; at it, the front is the prefix. */
  lemma FrontAt<T>(s: seq<T>, i: nat)
    requires i < |s|
    ensures i < |s| - 1 ==> s[..|s| - 1][..i] == s[..i] && s[..|s| - 1][i] == s[i]
    ensures i == |s| - 1 ==> s[..|s| - 1] == s[..i]
  {
  }

  /** `r` is `a + b` and the parts are equal: `r` is `c + d`. */
  lemma AppendEqual<T>(r: seq<T>, a: seq<T>, b: seq<T>, c: seq<T>, d: seq<T>)
    requires r == a + b && a == c && b == d
    ensures r == c + d
  {
  }

  /** Cutting a sequence at two points and joining the three pieces gives it back. */
  lemma CutTwice<T>(s: seq<T>, i: nat, j: nat)
    requires i <= j <= |s|
    ensures s == s[..i] + s[i..j] + s[j..]
  {
    assert s[..j] == s[..i] + s[i..j];
    assert s == s[..j] + s[j..];
  }

  /** The head of `s` followed by the rest of `s` with `x` appended is `s` with `x` appended. */
  lemma ConsSnoc<T>(s: seq<T>, x: T)
    requires s != []
    ensures [s[0]] + (s[1..] + [x]) == s + [x]
  {
  }

  /** `p` starting `s[i..]` is the slice of `s` at `i` of `p`'s length. */
  lemma PrefixAt<T>(s: seq<T>, p: seq<T>, i: nat)
    requires i <= |s| && p <= s[i..]
    ensures i + |p| <= |s| && s[i..i + |p|] == p
  {
    assert s[i..][..|p|] == s[i..i + |p|];
  }

  /** A non-empty sequence is its front followed by its last element. */
  lemma SnocSplit<T>(s: seq<T>)
    requires s != []
    ensures s[..|s| - 1] + [s[|s| - 1]] == s
  {
  }

  /** Concatenation regrouped, as a fact to hand over where the operands are long literals. */
  lemma AppendAssoc(a: string, b: string, c: string)
    ensures a + (b + c) == (a + b) + c
  {
  }

  /** `p` occurs in `s` as a contiguous piece (`s.includes(p)`). */
  predicate Contains(s: string, p: string)
    decreases |s|
  {
    p <= s || (s != [] && Contains(s[1..], p))
  }

  lemma {:induction false} ContainsAt(s: string, p: string, i: nat)
    requires i + |p| <= |s| && s[i..i + |p|] == p
    ensures Contains(s, p)
  {
    if i > 0 {
      assert s[1..][i - 1..i - 1 + |p|] == p;
      ContainsAt(s[1..], p, i - 1);
    }
  }

  /** A character of `p` that `s` lacks rules out an occurrence of `p`. */
  lemma {:induction false} NotContainsByChar(s: string, p: string, c: char)
    requires c in p && c !in s
    ensures !Contains(s, p)
  {
    if s != [] {
      NotContainsByChar(s[1..], p, c);
    }
  }

  /** Index of the first occurrence of `p` in `s`, or -1 (`s.indexOf(p)`). */
  function IndexOf(s: string, p: string): (r: int)
    ensures -1 <= r && (r >= 0 ==> r + |p| <= |s|)
    ensures r == -1 <==> !Contains(s, p)
    ensures r >= 0 ==> p <= s[r..]
    decreases |s|
  {
    if p <= s then 0
    else if s == [] then -1
    else
      var r := IndexOf(s[1..], p);
      if r == -1 then -1
      else
        assert s[r + 1..] == s[1..][r..];
        r + 1
  }

  /** No occurrence of `p` starts before the index `indexOf` gives. */
  lemma {:induction false} IndexOfLeftmost(s: string, p: string, k: nat)
    requires k < IndexOf(s, p)
    ensures !(p <= s[k..])
    decreases |s|
  {
    if k == 0 {
      assert s[0..] == s;
    } else {
      IndexOfLeftmost(s[1..], p, k - 1);
      assert s[k..] == s[1..][k - 1..];
    }
  }

  /** `p` occurs in `s` at `r` and at no earlier position. */
  predicate FoundFirst(s: string, p: string, r: nat) {
    r + |p| <= |s| && s[r..r + |p|] == p && forall i :: 0 <= i < r ==> !(p <= s[i..])
  }

  /** `indexOf` finds `p` itself at its index, and no occurrence before it. */
  lemma IndexOfFirst(s: string, p: string)
    ensures var r := IndexOf(s, p); r >= 0 ==> FoundFirst(s, p, r)
  {
    var r := IndexOf(s, p);
    if r >= 0 {
      assert s[r..][..|p|] == s[r..r + |p|];
      forall i | 0 <= i < r ensures !(p <= s[i..]) {
        IndexOfLeftmost(s, p, i);
      }
    }
  }

  /** Index of the first place where `s` continues with `p` up to case, or -1. */
  function IndexOfIgnoreCase(s: string, p: string): (r: int)
    ensures -1 <= r && (r >= 0 ==> r + |p| <= |s| && StartsWithIgnoreCase(s[r..], p))
    ensures r >= 0 ==> forall k :: 0 <= k < r ==> !StartsWithIgnoreCase(s[k..], p)
    ensures r == -1 ==> forall k :: 0 <= k <= |s| ==> !StartsWithIgnoreCase(s[k..], p)
    decreases |s|
  {
    if StartsWithIgnoreCase(s, p) then 0
    else if s == [] then -1
    else
      var r := IndexOfIgnoreCase(s[1..], p);
      assert forall k :: 1 <= k <= |s| ==> s[k..] == s[1..][k - 1..];
      if r == -1 then -1 else r + 1
  }

  /** `s.replace(/pat/g, rep)` for a literal, non-empty `pat`: leftmost, non-overlapping. */
  function ReplaceAll(s: string, pat: string, rep: string): (r: string)
    requires pat != []
    ensures !Contains(s, pat) ==> r == s
    ensures forall c :: c in r ==> c in s || c in rep
    decreases |s|
  {
    if |s| < |pat| then s
    else if pat <= s then rep + ReplaceAll(s[|pat|..], pat, rep)
    else [s[0]] + ReplaceAll(s[1..], pat, rep)
  }

  /** Every pattern of a substitution table is non-empty. */
  predicate ValidTable(table: seq<(string, string)>) {
    forall k :: 0 <= k < |table| ==> table[k].0 != []
  }

  /** A chain `.replace(/p1/g, r1).replace(/p2/g, r2)...` over a table of literal patterns. */
  function ReplaceChain(s: string, table: seq<(string, string)>): (r: string)
    requires ValidTable(table)
    ensures (forall k :: 0 <= k < |table| ==> !Contains(s, table[k].0)) ==> r == s
    decreases |table|
  {
    if table == [] then s
    else ReplaceChain(ReplaceAll(s, table[0].0, table[0].1), table[1..])
  }

  /** Every pattern of `table` contains the character `c`. */
  predicate EveryPatternHas(table: seq<(string, string)>, c: char) {
    forall k :: 0 <= k < |table| ==> c in table[k].0
  }

  /** Text without `c` passes a chain whose every pattern contains `c` untouched. */
  lemma ChainWithoutChar(s: string, table: seq<(string, string)>, c: char)
    requires ValidTable(table) && EveryPatternHas(table, c) && c !in s
    ensures ReplaceChain(s, table) == s
  {
    forall k | 0 <= k < |table| ensures !Contains(s, table[k].0) {
      NotContainsByChar(s, table[k].0, c);
    }
  }

  /** Leading chain entries whose patterns do not occur in `s` can be skipped. */
  lemma {:induction false} ChainSkipsAbsent(s: string, table: seq<(string, string)>, n: nat)
    requires ValidTable(table) && n <= |table|
    requires forall k :: 0 <= k < n ==> !Contains(s, table[k].0)
    ensures ReplaceChain(s, table) == ReplaceChain(s, table[n..])
    decreases n
  {
    if n > 0 {
      assert table[1..][n - 1..] == table[n..];
      ChainSkipsAbsent(s, table[1..], n - 1);
    }
  }

  /** `p` occurs in `s` only at its head when its first character appears nowhere later. */
  lemma NotContainsPastHead(s: string, p: string)
    requires p != [] && s != [] && p[0] !in s[1..] && !(p <= s)
    ensures !Contains(s, p)
  {
    NotContainsByChar(s[1..], p, p[0]);
  }

  /** Replacing a pattern by itself changes nothing. */
  lemma {:induction false} ReplaceAllIdentity(s: string, p: string)
    requires p != []
    ensures ReplaceAll(s, p, p) == s
    decreases |s|
  {
    if |s| >= |p| {
      if p <= s {
        ReplaceAllIdentity(s[|p|..], p);
        assert s == p + s[|p|..];
      } else {
        ReplaceAllIdentity(s[1..], p);
        assert s == [s[0]] + s[1..];
      }
    }
  }

  /** A chain of identity replacements changes nothing. */
  lemma {:induction false} ChainOfIdentities(s: string, table: seq<(string, string)>)
    requires ValidTable(table) && forall k :: 0 <= k < |table| ==> table[k].0 == table[k].1
    ensures ReplaceChain(s, table) == s
    decreases |table|
  {
    if table != [] {
      ReplaceAllIdentity(s, table[0].0);
      ChainOfIdentities(s, table[1..]);
    }
  }

  /** The chain from link `n` on runs link `n`, then the links after it. */
  lemma ChainAt(s: string, table: seq<(string, string)>, n: nat)
    requires ValidTable(table) && n < |table|
    ensures ReplaceChain(s, table[n..])
         == ReplaceChain(ReplaceAll(s, table[n].0, table[n].1), table[n + 1..])
  {
    assert table[n..][0] == table[n] && table[n..][1..] == table[n + 1..];
  }

  /** A chain whose first `m` patterns are absent and whose other links are identities. */
  lemma ChainUnchanged(s: string, table: seq<(string, string)>, m: nat)
    requires ValidTable(table) && m <= |table|
    requires forall k :: 0 <= k < m ==> !Contains(s, table[k].0)
    requires forall k :: m <= k < |table| ==> table[k].0 == table[k].1
    ensures ReplaceChain(s, table) == s
  {
    ChainSkipsAbsent(s, table, m);
    var rest := table[m..];
    forall k | 0 <= k < |rest|
      ensures rest[k].0 != [] && rest[k].0 == rest[k].1
    {
      assert rest[k] == table[m + k];
    }
    ChainOfIdentities(s, rest);
  }

  /**
   * A chain that decodes `&amp;` after entities that all start with `&` but not with `&a`,
   * followed only by identity replacements, decodes `&amp;` once: `&amp;` + t becomes `&` + t
   * when `t` holds no further `&`.
   */
  lemma AmpersandDecodedOnce(table: seq<(string, string)>, n: nat, t: string)
    requires ValidTable(table) && n < |table| && table[n] == ("&amp;", "&")
    requires forall k :: 0 <= k < n ==> |table[k].0| >= 2 && table[k].0[0] == '&' && table[k].0[1] != 'a'
    requires forall k :: n < k < |table| ==> table[k].0 == table[k].1
    requires '&' !in t
    ensures ReplaceChain("&amp;" + t, table) == "&" + t
  {
    var s := "&amp;" + t;
    assert s[1..] == "amp;" + t;
    forall k | 0 <= k < n ensures !Contains(s, table[k].0) {
      NotContainsPastHead(s, table[k].0);
    }
    ChainSkipsAbsent(s, table, n);
    assert table[n..][1..] == table[n + 1..];
    assert "&amp;" <= s && s[5..] == t;
    NotContainsByChar(t, "&amp;", '&');
    assert ReplaceAll(s, "&amp;", "&") == "&" + t;
    ChainOfIdentities("&" + t, table[n + 1..]);
  }

  /** After `.replace(/c/g, rep)` with `c` absent from `rep`, no `c` is left. */
  lemma {:induction false} ReplaceAllRemovesChar(s: string, c: char, rep: string)
    requires c !in rep
    ensures c !in ReplaceAll(s, [c], rep)
    decreases |s|
  {
    if |s| >= 1 {
      ReplaceAllRemovesChar(s[1..], c, rep);
    }
  }

  /** `s.replace(pat, rep)` for a string `pat`: only the first occurrence is replaced. */
  function ReplaceFirst(s: string, pat: string, rep: string): (r: string)
    ensures !Contains(s, pat) ==> r == s
    ensures pat <= s ==> r == rep + s[|pat|..]
  {
    var i := IndexOf(s, pat);
    if i == -1 then s
    else
      assert s[i..][..|pat|] == s[i..i + |pat|];
      s[..i] + rep + s[i + |pat|..]
  }

  /** `s` holds no piece of the form `<[^>]*>`: no `<` is followed, anywhere later, by `>`. */
  predicate NoTag(s: string) {
    forall i, j :: 0 <= i < j < |s| && s[i] == '<' ==> s[j] != '>'
  }

  /** Index of the first occurrence of `c` in `s`. */
  function FirstIndex(s: string, c: char): (k: nat)
    requires c in s
    ensures k < |s| && s[k] == c && c !in s[..k]
  {
    if s[0] == c then 0
    else
      var k := 1 + FirstIndex(s[1..], c);
      assert s[..k] == [s[0]] + s[1..][..k - 1];
      k
  }

  /** The first `c` is at `k` exactly when `s[k]` is `c` and no `c` comes before it. */
  lemma FirstIndexAt(s: string, c: char, k: nat)
    requires k < |s| && s[k] == c && c !in s[..k]
    ensures FirstIndex(s, c) == k
  {
  }

  /** Cutting `s` after position `n` does not move a first `c` found before `n`. */
  lemma FirstIndexCut(s: string, n: nat, c: char, k: nat)
    requires k < n <= |s|
    ensures (c in s && FirstIndex(s, c) == k) <==> (c in s[..n] && FirstIndex(s[..n], c) == k)
  {
    var t := s[..n];
    assert t[..k] == s[..k] && t[k] == s[k];
    if c in s && FirstIndex(s, c) == k {
      FirstIndexAt(t, c, k);
    }
    if c in t && FirstIndex(t, c) == k {
      FirstIndexAt(s, c, k);
    }
  }

  /** The leftmost case-insensitive occurrence is at `c` when one is there and none is before. */
  lemma IndexOfIgnoreCaseAt(s: string, p: string, c: nat)
    requires c + |p| <= |s| && StartsWithIgnoreCase(s[c..], p)
    requires forall k :: 0 <= k < c ==> !StartsWithIgnoreCase(s[k..], p)
    ensures IndexOfIgnoreCase(s, p) == c
  {
  }

  /** Whether `p` starts at `k` is decided by the characters up to `k + |p|`. */
  lemma StartsWithIgnoreCaseCut(s: string, n: nat, k: nat, p: string)
    requires k + |p| <= n <= |s|
    ensures StartsWithIgnoreCase(s[..n][k..], p) <==> StartsWithIgnoreCase(s[k..], p)
  {
    assert s[..n][k..][..|p|] == s[k..][..|p|];
  }

  /** Cutting `s` after an occurrence at `c` does not move it, as leftmost occurrence. */
  lemma IndexOfIgnoreCaseCut(s: string, n: nat, p: string, c: nat)
    requires c + |p| <= n <= |s|
    ensures IndexOfIgnoreCase(s, p) == c <==> IndexOfIgnoreCase(s[..n], p) == c
  {
    var t := s[..n];
    forall k | 0 <= k <= c
      ensures StartsWithIgnoreCase(t[k..], p) <==> StartsWithIgnoreCase(s[k..], p)
    {
      StartsWithIgnoreCaseCut(s, n, k, p);
    }
    if IndexOfIgnoreCase(s, p) == c {
      IndexOfIgnoreCaseAt(t, p, c);
    }
    if IndexOfIgnoreCase(t, p) == c {
      IndexOfIgnoreCaseAt(s, p, c);
    }
  }

  /**
   * `s.replace(/<[^>]*>/g, "")`: every `<` that has a `>` after it is removed together with
   * everything up to and including the first such `>`.
   */
  function StripTags(s: string): (r: string)
    ensures NoTag(r)
    ensures forall c :: c in r ==> c in s
    ensures '<' !in s ==> r == s
    decreases |s|
  {
    if s == [] then []
    else if s[0] == '<' && '>' in s then
      StripTags(s[FirstIndex(s, '>') + 1..])
    else
      var rest := StripTags(s[1..]);
      assert s == [s[0]] + s[1..];
      assert s[0] == '<' ==> '>' !in rest;
      [s[0]] + rest
  }

  /** Removing characters keeps `NoTag`: the survivors keep their order. */
  lemma {:induction false} NoTagRemoveAll(s: string, pat: string)
    requires pat != [] && NoTag(s)
    ensures NoTag(ReplaceAll(s, pat, ""))
    decreases |s|
  {
    if |s| >= |pat| {
      if pat <= s {
        NoTagSuffix(s, |pat|);
        NoTagRemoveAll(s[|pat|..], pat);
      } else {
        NoTagSuffix(s, 1);
        NoTagRemoveAll(s[1..], pat);
        var rest := ReplaceAll(s[1..], pat, "");
        assert ReplaceAll(s, pat, "") == [s[0]] + rest;
        if s[0] == '<' {
          NoCloseAfterOpen(s, rest);
        }
        NoTagCons(s[0], rest);
      }
    }
  }

  /** After a leading `<`, a string made of later characters holds no `>`. */
  lemma NoCloseAfterOpen(s: string, rest: string)
    requires NoTag(s) && s != [] && s[0] == '<'
    requires forall c :: c in rest ==> c in s[1..] || c in ""
    ensures '>' !in rest
  {
  }

  /** A character in front of a string without a tag makes none unless it opens one. */
  lemma NoTagCons(c: char, rest: string)
    requires NoTag(rest) && (c == '<' ==> '>' !in rest)
    ensures NoTag([c] + rest)
  {
    var r := [c] + rest;
    forall a, b | 0 <= a < b < |r| && r[a] == '<' ensures r[b] != '>' {
      if a == 0 {
        assert r[b] == rest[b - 1];
      } else {
        assert rest[a - 1] == '<' && r[b] == rest[b - 1];
      }
    }
  }

  lemma NoTagSuffix(s: string, k: nat)
    requires NoTag(s) && k <= |s|
    ensures NoTag(s[k..])
  {
    forall i, j | 0 <= i < j < |s[k..]| && s[k..][i] == '<' ensures s[k..][j] != '>' {
      assert s[k + i] == '<';
    }
  }

  lemma NoTagSlice(s: string, i: nat, j: nat)
    requires NoTag(s) && i <= j <= |s|
    ensures NoTag(s[i..j])
  {
    forall a, b | 0 <= a < b < j - i && s[i..j][a] == '<' ensures s[i..j][b] != '>' {
      assert s[i + a] == '<';
    }
  }

  /** Trimming keeps `NoTag`. */
  lemma NoTagTrim(s: string)
    requires NoTag(s)
    ensures NoTag(Trim(s))
  {
    var i := LeadingSpaces(s);
    NoTagSlice(s, i, i + |Trim(s)|);
  }

  function Digit(d: nat): (c: char)
    requires d < 10
    ensures IsDigit(c) && c as int - '0' as int == d
  {
    ('0' as int + d) as char
  }

  /** The decimal rendering of `n` inside a template string (`${n}`). */
  function NatToString(n: nat): (r: string)
    ensures r != [] && forall i :: 0 <= i < |r| ==> IsDigit(r[i])
    ensures r[0] == '0' ==> n == 0
  {
    if n < 10 then [Digit(n)] else NatToString(n / 10) + [Digit(n % 10)]
  }

  /** The value of a string of decimal digits. */
  function DecimalValue(s: string): nat
    requires forall i :: 0 <= i < |s| ==> IsDigit(s[i])
  {
    if s == [] then 0
    else
      assert IsDigit(s[|s| - 1]);
      DecimalValue(s[..|s| - 1]) * 10 + (s[|s| - 1] as int - '0' as int)
  }

  /** Reading the rendering back gives the number: distinct counters give distinct strings. */
  lemma {:induction false} DecimalRoundTrip(n: nat)
    ensures DecimalValue(NatToString(n)) == n
  {
    if n >= 10 {
      var r := NatToString(n);
      assert r[..|r| - 1] == NatToString(n / 10);
      DecimalRoundTrip(n / 10);
    }
  }

  lemma NatToStringInjective(m: nat, n: nat)
    requires NatToString(m) == NatToString(n)
    ensures m == n
  {
    DecimalRoundTrip(m);
    DecimalRoundTrip(n);
  }

  /** The concatenation of all pieces. */
  function Concat(parts: seq<string>): string {
    if parts == [] then [] else Concat(parts[..|parts| - 1]) + parts[|parts| - 1]
  }

  lemma ConcatAppend(parts: seq<string>, p: string)
    ensures Concat(parts + [p]) == Concat(parts) + p
  {
    assert (parts + [p])[..|parts|] == parts;
  }

  lemma {:induction false} ConcatJoin(a: seq<string>, b: seq<string>)
    ensures Concat(a + b) == Concat(a) + Concat(b)
    decreases |b|
  {
    if b == [] {
      assert a + b == a;
    } else {
      var b' := b[..|b| - 1];
      assert a + b == (a + b') + [b[|b| - 1]];
      ConcatAppend(a + b', b[|b| - 1]);
      ConcatJoin(a, b');
      ConcatAppend(b', b[|b| - 1]);
      assert b == b' + [b[|b| - 1]];
    }
  }

  /** A piece in front of a list concatenates in front of its concatenation. */
  lemma ConcatFront(a: string, rest: seq<string>)
    ensures Concat([a] + rest) == a + Concat(rest)
  {
    ConcatJoin([a], rest);
    assert Concat([a]) == Concat([]) + a;
  }

  /** Two pieces in front of a list concatenate in front of its concatenation. */
  lemma ConcatPairFront(a: string, b: string, rest: seq<string>)
    ensures Concat([a, b] + rest) == a + b + Concat(rest)
  {
    ConcatJoin([a, b], rest);
    assert [a, b][..1] == [a];
    assert Concat([a]) == Concat([]) + a;
  }

  /** `parts.join(sep)`. */
  function Join(parts: seq<string>, sep: string): string {
    if parts == [] then []
    else if |parts| == 1 then parts[0]
    else Join(parts[..|parts| - 1], sep) + sep + parts[|parts| - 1]
  }

  lemma {:induction false} JoinFront(ms: seq<string>, sep: string)
    requires |ms| >= 2
    ensures Join(ms, sep) == ms[0] + sep + Join(ms[1..], sep)
    decreases |ms|
  {
    var n := |ms|;
    if n == 2 {
      assert ms[..1] == [ms[0]];
      assert ms[1..] == [ms[1]];
    } else {
      JoinFront(ms[..n - 1], sep);
      assert ms[..n - 1][1..] == ms[1..][..n - 2];
      assert ms[..n - 1][0] == ms[0];
      assert ms[1..][n - 2] == ms[n - 1];
    }
  }

  /** A character put in front of the first piece goes in front of the joined string. */
  lemma JoinConsHead(c: char, r: seq<string>, sep: string)
    requires r != []
    ensures Join([[c] + r[0]] + r[1..], sep) == [c] + Join(r, sep)
  {
    var l := [[c] + r[0]] + r[1..];
    if |r| == 1 {
      assert l == [[c] + r[0]];
    } else {
      JoinFront(l, sep);
      JoinFront(r, sep);
      assert l[1..] == r[1..];
      AppendAssoc([c] + r[0], sep, Join(r[1..], sep));
      AppendAssoc(r[0], sep, Join(r[1..], sep));
      AppendAssoc([c], r[0], sep + Join(r[1..], sep));
    }
  }

  /** A character put in front of the first piece goes in front of the concatenation. */
  lemma ConcatConsHead(c: char, r: seq<string>)
    requires r != []
    ensures Concat([[c] + r[0]] + r[1..]) == [c] + Concat(r)
  {
    ConcatFront([c] + r[0], r[1..]);
    ConcatFront(r[0], r[1..]);
    assert r == [r[0]] + r[1..];
    AppendAssoc([c], r[0], Concat(r[1..]));
  }

  /** `.filter((p) => p.trim())`. */
  function NonBlank(ps: seq<string>): (r: seq<string>)
    ensures |r| <= |ps|
    ensures forall i :: 0 <= i < |r| ==> !IsBlank(r[i]) && r[i] in ps
    ensures forall p :: p in ps && !IsBlank(p) ==> p in r
  {
    if ps == [] then []
    else if IsBlank(ps[0]) then NonBlank(ps[1..])
    else [ps[0]] + NonBlank(ps[1..])
  }

  /** The filter works piece by piece: it keeps the order and the repetitions of its input. */
  lemma {:induction false} NonBlankAppend(a: seq<string>, b: seq<string>)
    ensures NonBlank(a + b) == NonBlank(a) + NonBlank(b)
    decreases |a|
  {
    if a == [] {
      assert a + b == b;
    } else {
      assert (a + b)[0] == a[0] && (a + b)[1..] == a[1..] + b;
      NonBlankAppend(a[1..], b);
    }
  }

  /** One more string is kept at the end exactly when it is not blank. */
  lemma NonBlankSnoc(ps: seq<string>, p: string)
    ensures NonBlank(ps + [p]) == NonBlank(ps) + (if IsBlank(p) then [] else [p])
  {
    NonBlankAppend(ps, [p]);
    assert [p][1..] == [];
  }

  lemma {:induction false} NonBlankAll(ps: seq<string>)
    requires forall i :: 0 <= i < |ps| ==> !IsBlank(ps[i])
    ensures NonBlank(ps) == ps
    decreases |ps|
  {
    if ps != [] {
      NonBlankAll(ps[1..]);
      assert [ps[0]] + ps[1..] == ps;
    }
  }
}
