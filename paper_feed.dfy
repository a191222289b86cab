/**
 * The paper feed's filter: a case-insensitive text search over title,
 * abstract and year, then a category filter on the paper's domain tags.
 */
module PaperFeed {
  import opened Wrappers
  import opened Text
  import opened Store

  /** A paper as the feed receives it; `domainTags` is the decoded JSON text column. */
  datatype FeedPaper = FeedPaper(
    id: string, title: string, abstractText: Option<string>, year: Option<int>, domainTags: StoredTags)

  datatype Category = Category(id: string, tags: Option<seq<string>>)

  const AllCategory: string := "all"

  const Categories: seq<Category> := [
    Category(AllCategory, None),
    Category("privacy", Some(["blockchain", "zkp", "cryptography", "privacy", "msingi"])),
    Category("ai", Some(["ai", "machine-learning", "federated-learning"])),
    Category("edge", Some(["edge", "iot", "networking", "offline-first", "ndani"])),
    Category("agriculture", Some(["agriculture", "edgechain"]))
  ]

  /** `getPaperTags`: the lower-cased tags of a stored array, or none for anything else. */
  function PaperTags(p: FeedPaper): (r: seq<string>)
    ensures p.domainTags.TagList? ==>
      |r| == |p.domainTags.tags| && forall i :: 0 <= i < |r| ==> r[i] == Lower(p.domainTags.tags[i])
    ensures !p.domainTags.TagList? ==> r == []
  {
    if p.domainTags.TagList? then
      seq(|p.domainTags.tags|, i requires 0 <= i < |p.domainTags.tags| => Lower(p.domainTags.tags[i]))
    else []
  }

  /** `${title} ${abstract} ${year || ''}`: a null abstract renders as `null`, a missing or zero year as nothing. */
  function SearchText(p: FeedPaper): string {
    var abstractText := if p.abstractText.Some? then p.abstractText.value else "null";
    var year := if p.year.Some? && p.year.value != 0 then IntToString(p.year.value) else "";
    p.title + " " + abstractText + " " + year
  }

  predicate MatchesSearch(p: FeedPaper, query: string) {
    query == "" || Contains(Lower(SearchText(p)), Lower(query))
  }

  /** `CATEGORIES.find(c => c.id === id)`. */
  function FindCategory(cats: seq<Category>, id: string): (r: Option<Category>)
    ensures r.Some? ==> r.value in cats && r.value.id == id
    ensures r.None? ==> forall i :: 0 <= i < |cats| ==> cats[i].id != id
  {
    if cats == [] then None
    else if cats[0].id == id then Some(cats[0])
    else FindCategory(cats[1..], id)
  }

  /** The filter callback. */
  predicate Keeps(p: FeedPaper, category: string, query: string) {
    MatchesSearch(p, query) &&
    (category == AllCategory ||
     var def := FindCategory(Categories, category);
     def.None? || def.value.tags.None? ||
     exists t :: t in PaperTags(p) && t in def.value.tags.value)
  }

  /** `papers.filter(...)`. */
  function FilterPapers(papers: seq<FeedPaper>, category: string, query: string): seq<FeedPaper> {
    if papers == [] then []
    else (if Keeps(papers[0], category, query) then [papers[0]] else []) + FilterPapers(papers[1..], category, query)
  }

  /** `xs` is `ys` with some elements left out, the rest in order. */
  predicate Subsequence(xs: seq<FeedPaper>, ys: seq<FeedPaper>)
    decreases |ys|
  {
    if xs == [] then true
    else if ys == [] then false
    else (xs[0] == ys[0] && Subsequence(xs[1..], ys[1..])) || Subsequence(xs, ys[1..])
  }

  /** The feed shows exactly the kept papers, in their original order. */
  lemma {:induction false} FilterExact(papers: seq<FeedPaper>, category: string, query: string)
    ensures Subsequence(FilterPapers(papers, category, query), papers)
    ensures forall p :: p in FilterPapers(papers, category, query) <==> p in papers && Keeps(p, category, query)
    decreases |papers|
  {
    if papers != [] {
      FilterExact(papers[1..], category, query);
      var rest := FilterPapers(papers[1..], category, query);
      if Keeps(papers[0], category, query) {
        assert ([papers[0]] + rest)[1..] == rest;
      } else {
        assert [] + rest == rest;
        SubsequenceDrop(rest, papers);
      }
      assert papers == [papers[0]] + papers[1..];
    }
  }

  lemma SubsequenceDrop(xs: seq<FeedPaper>, ys: seq<FeedPaper>)
    requires ys != [] && Subsequence(xs, ys[1..])
    ensures Subsequence(xs, ys)
  {
  }

  /** With no query and the `all` category every paper is shown. */
  lemma {:induction false} FilterAll(papers: seq<FeedPaper>)
    ensures FilterPapers(papers, AllCategory, "") == papers
    decreases |papers|
  {
    if papers != [] {
      FilterAll(papers[1..]);
    }
  }

  /** A category id the table does not know filters nothing beyond the search. */
  lemma {:induction false} UnknownCategoryIsAll(papers: seq<FeedPaper>, category: string, query: string)
    requires forall i :: 0 <= i < |Categories| ==> Categories[i].id != category
    ensures FilterPapers(papers, category, query) == FilterPapers(papers, AllCategory, query)
    decreases |papers|
  {
    if papers != [] {
      UnknownCategoryIsAll(papers[1..], category, query);
    }
  }

  /**
   * A known category with tags keeps a paper that matches the search
   * exactly when one of its lower-cased tags is listed for that category.
   */
  lemma KeepsByCategory(p: FeedPaper, k: nat, query: string)
    requires 1 <= k < |Categories| && MatchesSearch(p, query)
    ensures Keeps(p, Categories[k].id, query) <==>
      exists t :: t in PaperTags(p) && t in Categories[k].tags.value
  {
    assert Categories[k].id != AllCategory;
    CategoryIdsDistinct();
    FindCategoryAt(Categories, k);
  }

  lemma CategoryIdsDistinct()
    ensures forall i, j :: 0 <= i < j < |Categories| ==> Categories[i].id != Categories[j].id
  {
    assert Categories[0].id[0] == 'a' && Categories[1].id[0] == 'p' && Categories[2].id[0] == 'a';
    assert Categories[3].id[0] == 'e' && Categories[4].id[0] == 'a';
    assert |Categories[0].id| == 3 && |Categories[2].id| == 2 && |Categories[4].id| == 11;
  }

  lemma {:induction false} FindCategoryAt(cats: seq<Category>, k: nat)
    requires k < |cats| && forall i, j :: 0 <= i < j < |cats| ==> cats[i].id != cats[j].id
    ensures FindCategory(cats, cats[k].id) == Some(cats[k])
  {
    if k > 0 {
      assert cats[1..][k - 1] == cats[k];
      FindCategoryAt(cats[1..], k - 1);
    }
  }

  /** A paper without an abstract is found by searching for `null`. */
  lemma NullAbstractMatchesNull(p: FeedPaper)
    requires p.abstractText.None?
    ensures MatchesSearch(p, "null")
  {
    var y := if p.year.Some? && p.year.value != 0 then IntToString(p.year.value) else "";
    assert SearchText(p) == (p.title + " ") + "null" + (" " + y);
    ContainsMiddle(p.title + " ", "null", " " + y);
    ContainsLower(SearchText(p), "null");
    assert Lower("null") == "null";
  }
}
