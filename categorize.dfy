/**
 * The keyword categoriser: a post's title and excerpt, lower-cased, are searched for the
 * keywords of each category in a fixed table; the slugs of the categories with a hit are
 * collected in table order, and `mental-health` stands in when nothing matched.
 */
module Categorize {
  import opened Wrappers
  import opened Text
  import opened Blocks

  /** An entry of `CATEGORIES`. */
  datatype Category = Category(title: string, slug: string, description: string, keywords: seq<string>)

  const DefaultSlug: string := "mental-health"

  const MentalHealthKeywords: seq<string> :=
    ["mental health", "mental illness", "depression", "anxiety", "suicide", "psycho",
     "psychiatric", "therapy", "counseling", "emotional wellbeing", "bipolar",
     "schizophrenia", "phobia", "trauma", "ptsd", "stress", "psychological", "psychiatry",
     "mental disorder", "emotional health", "mental wellness", "psychosocial", "stigma",
     "mental health act"]

  const LifestyleKeywords: seq<string> :=
    ["lifestyle", "relationship", "workplace", "work", "family", "parenting", "marriage",
     "friendship", "social", "kindness", "gratitude", "resilience", "success",
     "self-improvement", "confidence", "emotional intelligence", "happiness", "life",
     "living", "daily", "routine", "balance", "japa"]

  const HealthKeywords: seq<string> :=
    ["health", "disease", "illness", "sickle cell", "diabetes", "hiv", "epilepsy", "dementia",
     "menopause", "pregnancy", "maternal", "infertility", "medical", "physical", "nutrition",
     "eating", "food", "diet", "loneliness in elderly", "caregiving", "aging"]

  const AdvocacyKeywords: seq<string> :=
    ["advocacy", "awareness", "campaign", "policy", "law", "act", "legislation", "reform",
     "rights", "discrimination", "stigma", "decriminalize", "world mental health day",
     "world suicide prevention", "homeless", "asido foundation", "asido @", "conference",
     "movement", "change", "nigeria", "society", "community", "government",
     "access to services"]

  /** `CATEGORIES`, in declaration order. */
  const Categories: seq<Category> := [
    Category("Mental Health", "mental-health",
      "Articles focused on mental health disorders, treatments, awareness, and wellbeing.",
      MentalHealthKeywords),
    Category("Lifestyle", "lifestyle",
      "Articles about daily living, relationships, work-life balance, and personal development.",
      LifestyleKeywords),
    Category("Health", "health",
      "Articles covering physical health conditions and their connection to mental wellbeing.",
      HealthKeywords),
    Category("Advocacy", "advocacy",
      "Articles about mental health advocacy, policy, awareness campaigns, and social change.",
      AdvocacyKeywords)
  ]

  /** `` `${post.title || ""} ${post.excerpt?.rendered || ""}`.toLowerCase() ``. */
  function AnalyzedText(title: Option<string>, excerpt: Option<string>): string {
    LowerAll(title.GetOr([]) + " " + excerpt.GetOr([]))
  }

  /** Some keyword of `c`, lower-cased, occurs in `text`. */
  predicate Matches(text: string, c: Category) {
    AnyOccurs(text, c.keywords)
  }

  /** Some keyword of the list, lower-cased, occurs in `text`. */
  predicate AnyOccurs(text: string, keywords: seq<string>) {
    exists k :: 0 <= k < |keywords| && Contains(text, LowerAll(keywords[k]))
  }

  /** `matchedCategories.add(slug)` on a set kept in insertion order. */
  function AddSlug(matched: seq<string>, slug: string): (r: seq<string>)
    ensures slug in r && forall s :: s in r <==> s in matched || s == slug
    ensures NoDuplicates(matched) ==> NoDuplicates(r)
  {
    if slug in matched then matched else matched + [slug]
  }

  /** The set the outer loop builds over the categories `cats`. */
  function MatchedSlugs(text: string, cats: seq<Category>): seq<string> {
    if cats == [] then []
    else
      var m := MatchedSlugs(text, cats[..|cats| - 1]);
      if Matches(text, cats[|cats| - 1]) then AddSlug(m, cats[|cats| - 1].slug) else m
  }

  /** `Array.from(matchedCategories)`, with the default when nothing matched. */
  function Categorized(title: Option<string>, excerpt: Option<string>): seq<string> {
    var m := MatchedSlugs(AnalyzedText(title, excerpt), Categories);
    if m == [] then [DefaultSlug] else m
  }

  /** `determineCategories(post)`. */
  method DetermineCategories(title: Option<string>, excerpt: Option<string>)
    returns (slugs: seq<string>)
    ensures slugs == Categorized(title, excerpt)
  {
    var textToAnalyze := AnalyzedText(title, excerpt);
    var matchedCategories := CollectMatches(textToAnalyze, Categories);
    if matchedCategories == [] {
      matchedCategories := AddSlug(matchedCategories, DefaultSlug);
    }
    slugs := matchedCategories;
  }

  /** The two nested loops of `determineCategories` over a table `cats`, the inner one cut short by `break`. */
  method CollectMatches(textToAnalyze: string, cats: seq<Category>) returns (matchedCategories: seq<string>)
    ensures matchedCategories == MatchedSlugs(textToAnalyze, cats)
  {
    matchedCategories := [];
    var i := 0;
    while i < |cats|
      invariant 0 <= i <= |cats|
      invariant matchedCategories == MatchedSlugs(textToAnalyze, cats[..i])
    {
      var category := cats[i];
      assert cats[..i + 1][..i] == cats[..i];
      var j := 0;
      while j < |category.keywords|
        invariant 0 <= j <= |category.keywords|
        invariant matchedCategories == MatchedSlugs(textToAnalyze, cats[..i])
        invariant forall k :: 0 <= k < j ==> !Contains(textToAnalyze, LowerAll(category.keywords[k]))
      {
        if Contains(textToAnalyze, LowerAll(category.keywords[j])) {
          matchedCategories := AddSlug(matchedCategories, category.slug);
          break;
        }
        j := j + 1;
      }
      i := i + 1;
    }
    assert cats[..i] == cats;
  }

  // ---------------------------------------------------------------------------------------
  // What the categoriser promises
  // ---------------------------------------------------------------------------------------

  /** No two categories share a slug. */
  predicate DistinctSlugs(cats: seq<Category>) {
    forall i, j :: 0 <= i < j < |cats| ==> cats[i].slug != cats[j].slug
  }

  lemma CategoriesDistinct()
    ensures DistinctSlugs(Categories)
    ensures Categories[0].slug == DefaultSlug
  {
  }

  /** The reference order: the slugs of the matching categories, in table order. */
  function MatchingInOrder(text: string, cats: seq<Category>): seq<string> {
    if cats == [] then []
    else
      var m := MatchingInOrder(text, cats[..|cats| - 1]);
      if Matches(text, cats[|cats| - 1]) then m + [cats[|cats| - 1].slug] else m
  }

  /**
   * Over categories with distinct slugs, the set holds no duplicates, holds the slug of a
   * category exactly when one of its keywords occurs, and lists those slugs in table order.
   */
  lemma {:induction false} MatchedSlugsFacts(text: string, cats: seq<Category>)
    requires DistinctSlugs(cats)
    ensures var r := MatchedSlugs(text, cats);
      && NoDuplicates(r)
      && r == MatchingInOrder(text, cats)
      && forall i :: 0 <= i < |cats| ==> (cats[i].slug in r <==> Matches(text, cats[i]))
    decreases |cats|
  {
    if cats != [] {
      var n := |cats|;
      var init := cats[..n - 1];
      assert DistinctSlugs(init);
      MatchedSlugsFacts(text, init);
      var m := MatchedSlugs(text, init);
      assert forall i :: 0 <= i < n - 1 ==> init[i] == cats[i];
      assert cats[n - 1].slug !in m by {
        if cats[n - 1].slug in m {
          var j :| 0 <= j < |m| && m[j] == cats[n - 1].slug;
          InOrderFrom(text, init, j);
        }
      }
      MatchedSlugsStep(text, cats, m);
    }
  }

  /** The last category adds its slug, new to the set, exactly when it matches. */
  lemma MatchedSlugsStep(text: string, cats: seq<Category>, m: seq<string>)
    requires cats != [] && DistinctSlugs(cats)
    requires m == MatchedSlugs(text, cats[..|cats| - 1]) && NoDuplicates(m)
    requires m == MatchingInOrder(text, cats[..|cats| - 1])
    requires forall i :: 0 <= i < |cats| - 1 ==> (cats[i].slug in m <==> Matches(text, cats[i]))
    requires cats[|cats| - 1].slug !in m
    ensures var r := MatchedSlugs(text, cats);
      && NoDuplicates(r)
      && r == MatchingInOrder(text, cats)
      && forall i :: 0 <= i < |cats| ==> (cats[i].slug in r <==> Matches(text, cats[i]))
  {
    var n := |cats|;
    var c := cats[n - 1];
    var r := MatchedSlugs(text, cats);
    assert r == if Matches(text, c) then m + [c.slug] else m;
    forall i | 0 <= i < n ensures cats[i].slug in r <==> Matches(text, cats[i]) {
      if i < n - 1 {
        assert cats[i].slug != c.slug;
      }
    }
  }

  /** Every slug of the reference order comes from a category of the list. */
  lemma {:induction false} InOrderFrom(text: string, cats: seq<Category>, j: nat)
    requires j < |MatchingInOrder(text, cats)|
    ensures exists i :: 0 <= i < |cats| && cats[i].slug == MatchingInOrder(text, cats)[j]
    decreases |cats|
  {
    var n := |cats|;
    var m := MatchingInOrder(text, cats[..n - 1]);
    if j < |m| {
      InOrderFrom(text, cats[..n - 1], j);
      var i :| 0 <= i < n - 1 && cats[..n - 1][i].slug == m[j];
      assert cats[i].slug == m[j];
    } else {
      assert cats[n - 1].slug == MatchingInOrder(text, cats)[j];
    }
  }

  /**
   * The result is never empty and has no duplicates; every element is a table slug, in table
   * order; a category is in it exactly when one of its keywords occurs in the lower-cased
   * title and excerpt, except that `mental-health` alone is returned when none occurs.
   */
  lemma CategorizedFacts(title: Option<string>, excerpt: Option<string>)
    ensures var r := Categorized(title, excerpt);
      var text := AnalyzedText(title, excerpt);
      && r != [] && NoDuplicates(r)
      && (forall s :: s in r ==> exists i :: 0 <= i < |Categories| && Categories[i].slug == s)
      && ((forall i :: 0 <= i < |Categories| ==> !Matches(text, Categories[i])) ==> r == [DefaultSlug])
      && ((exists i :: 0 <= i < |Categories| && Matches(text, Categories[i])) ==>
            && r == MatchingInOrder(text, Categories)
            && forall i :: 0 <= i < |Categories| ==> (Categories[i].slug in r <==> Matches(text, Categories[i])))
  {
    var text := AnalyzedText(title, excerpt);
    CategoriesDistinct();
    MatchedSlugsFacts(text, Categories);
    var m := MatchedSlugs(text, Categories);
    forall s | s in m
      ensures exists i :: 0 <= i < |Categories| && Categories[i].slug == s
    {
      var j :| 0 <= j < |m| && m[j] == s;
      InOrderFrom(text, Categories, j);
    }
    if forall i :: 0 <= i < |Categories| ==> !Matches(text, Categories[i]) {
      if m != [] {
        InOrderFrom(text, Categories, 0);
      }
    } else {
      var i :| 0 <= i < |Categories| && Matches(text, Categories[i]);
      assert Categories[i].slug in m;
    }
  }

  /** `keyword[i]` is no capital letter and does not occur in `text`. */
  predicate ForeignAt(keyword: string, text: string, i: nat) {
    i < |keyword| && !('A' <= keyword[i] <= 'Z') && keyword[i] !in text
  }

  /** Such a keyword, lower-cased, does not occur in `text`. */
  lemma NoMatchByChar(text: string, keyword: string, i: nat)
    requires ForeignAt(keyword, text, i)
    ensures !Contains(text, LowerAll(keyword))
  {
    assert LowerAll(keyword)[i] == keyword[i];
    NotContainsByChar(text, LowerAll(keyword), keyword[i]);
  }

  /** No keyword of a list occurs in `text` when `at[k]` names a character of keyword `k` that `text` lacks. */
  lemma NoMatchOf(text: string, keywords: seq<string>, at: seq<nat>)
    requires |at| == |keywords|
    requires forall k :: 0 <= k < |keywords| ==> ForeignAt(keywords[k], text, at[k])
    ensures !AnyOccurs(text, keywords)
  {
    forall k | 0 <= k < |keywords| ensures !Contains(text, LowerAll(keywords[k])) {
      NoMatchByChar(text, keywords[k], at[k]);
    }
  }

  /** No keyword of a list occurs when none of either part of it does. */
  lemma NoMatchSplit(text: string, keywords: seq<string>, n: nat)
    requires n <= |keywords|
    requires !AnyOccurs(text, keywords[..n]) && !AnyOccurs(text, keywords[n..])
    ensures !AnyOccurs(text, keywords)
  {
    forall k | 0 <= k < |keywords| ensures !Contains(text, LowerAll(keywords[k])) {
      if k < n {
        assert keywords[..n][k] == keywords[k];
      } else {
        assert keywords[n..][k - n] == keywords[k];
      }
    }
  }

  lemma StigmaMentalHealth()
    ensures AnyOccurs("stigma ", MentalHealthKeywords)
  {
    assert MentalHealthKeywords[22] == "stigma";
    assert LowerAll("stigma") == "stigma";
    ContainsAt("stigma ", "stigma", 0);
  }

  lemma StigmaNotLifestyle()
    ensures !AnyOccurs("stigma ", LifestyleKeywords)
  {
    StigmaNotLifestyleFront();
    StigmaNotLifestyleBack();
    NoMatchSplit("stigma ", LifestyleKeywords, 12);
  }

  lemma StigmaNotLifestyleFront()
    ensures !AnyOccurs("stigma ", LifestyleKeywords[..12])
  {
    NoMatchOf("stigma ", LifestyleKeywords[..12], [0, 0, 0, 0, 0, 0, 2, 0, 1, 0, 1, 0]);
  }

  lemma StigmaNotLifestyleBack()
    ensures !AnyOccurs("stigma ", LifestyleKeywords[12..])
  {
    NoMatchOf("stigma ", LifestyleKeywords[12..], [1, 1, 0, 0, 0, 0, 0, 0, 0, 0, 0]);
  }

  lemma StigmaNotHealth()
    ensures !AnyOccurs("stigma ", HealthKeywords)
  {
    StigmaNotHealthFront();
    StigmaNotHealthBack();
    NoMatchSplit("stigma ", HealthKeywords, 11);
  }

  lemma StigmaNotHealthFront()
    ensures !AnyOccurs("stigma ", HealthKeywords[..11])
  {
    NoMatchOf("stigma ", HealthKeywords[..11], [0, 0, 1, 2, 0, 0, 0, 0, 1, 0, 3]);
  }

  lemma StigmaNotHealthBack()
    ensures !AnyOccurs("stigma ", HealthKeywords[11..])
  {
    NoMatchOf("stigma ", HealthKeywords[11..], [1, 1, 0, 0, 0, 0, 0, 0, 0, 3]);
  }

  lemma StigmaAdvocacy()
    ensures AnyOccurs("stigma ", AdvocacyKeywords)
  {
    assert AdvocacyKeywords[10] == "stigma";
    assert LowerAll("stigma") == "stigma";
    ContainsAt("stigma ", "stigma", 0);
  }

  lemma InOrderLast(text: string, cats: seq<Category>)
    requires cats != []
    ensures MatchingInOrder(text, cats)
         == MatchingInOrder(text, cats[..|cats| - 1])
            + (if Matches(text, cats[|cats| - 1]) then [cats[|cats| - 1].slug] else [])
  {
  }

  /** Four categories of which the first and the last match give their two slugs. */
  lemma InOrderFirstAndLast(text: string, cs: seq<Category>)
    requires |cs| == 4
    requires Matches(text, cs[0]) && !Matches(text, cs[1]) && !Matches(text, cs[2])
    requires Matches(text, cs[3])
    ensures MatchingInOrder(text, cs) == [cs[0].slug, cs[3].slug]
  {
    var c1, c2, c3 := cs[..1], cs[..2], cs[..3];
    assert c1[..0] == [] && c1[0] == cs[0];
    InOrderLast(text, c1);
    assert MatchingInOrder(text, c1) == [cs[0].slug];
    assert c2[..1] == c1 && c2[1] == cs[1];
    InOrderLast(text, c2);
    assert c3[..2] == c2 && c3[2] == cs[2];
    InOrderLast(text, c3);
    assert cs[..3] == c3;
    InOrderLast(text, cs);
    assert [cs[0].slug] + [cs[3].slug] == [cs[0].slug, cs[3].slug];
  }

  /** A title of just `stigma` lands in both tables that list the word. */
  lemma StigmaInTwoCategories()
    ensures Categorized(Some("stigma"), None) == ["mental-health", "advocacy"]
  {
    var text := AnalyzedText(Some("stigma"), None);
    assert text == "stigma ";
    var c := Categories;
    assert |c| == 4 && c[0].keywords == MentalHealthKeywords && c[1].keywords == LifestyleKeywords;
    assert c[2].keywords == HealthKeywords && c[3].keywords == AdvocacyKeywords;
    StigmaMentalHealth();
    StigmaNotLifestyle();
    StigmaNotHealth();
    StigmaAdvocacy();
    CategoriesDistinct();
    MatchedSlugsFacts(text, c);
    InOrderFirstAndLast(text, c);
  }
}
