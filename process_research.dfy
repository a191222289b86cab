/**
 * `POST /api/process-research`: turn already-parsed bibliography entries into
 * concept pages and write one file per entry that has a title. Its decision
 * tables differ from the GitHub importer's: capitalised categories in which
 * Federated Learning overrides ZKP, `msingi` as the default project, an
 * optional section, a slug without fallback and a title default that applies
 * only to a missing title.
 */
module ResearchImport {
  import opened Wrappers
  import opened Text
  import opened Concepts
  import opened Bibtex
  import GithubImport

  const AutoTarget: string := "auto"

  /** The decisions the generated page records (the page text itself is not modelled). */
  datatype ResearchPage = ResearchPage(
    slug: string, title: string, abstractText: string, author: string, category: string,
    project: string, section: Option<string>, concepts: seq<string>, citationKey: string)

  /** `category` starts as Infrastructure and is reassigned for ZKP, then Federated Learning, then Wallet. */
  function ResearchCategory(concepts: seq<string>): string {
    var category := "Infrastructure";
    var category := if ZkpTerm in concepts then "Cryptography" else category;
    var category := if FederatedTerm in concepts then "Infrastructure" else category;
    if WalletTerm in concepts then "Identity" else category
  }

  /** The target project unless it is empty or `auto`; otherwise decided by the Agriculture concept. */
  function ResearchProject(target: string, concepts: seq<string>): string {
    if target != "" && target != AutoTarget then target
    else if AgricultureTerm in concepts then "edgechain" else "msingi"
  }

  /** The `section:` line is emitted only for a target section that is neither empty nor `auto`. */
  function SectionLine(target: string): Option<string> {
    if target != "" && target != AutoTarget then Some(target) else None
  }

  /** `tag ? tag.replace(/[{}]/g, '') : fallback`: the default replaces only a missing or empty tag. */
  function Stripped(e: Entry, name: string, fallback: string): string {
    if Tag(e, name) != "" then StripBraces(Tag(e, name)) else fallback
  }

  function ResearchPageOf(e: Entry, project: string, section: string): ResearchPage {
    var concepts := ExtractConcepts(TextToCheck(e));
    ResearchPage(
      Slugify(e.citationKey),
      Stripped(e, "title", GithubImport.UntitledTitle),
      Stripped(e, "abstract", GithubImport.NoAbstractText),
      Stripped(e, "author", GithubImport.UnknownAuthor),
      ResearchCategory(concepts), ResearchProject(project, concepts), SectionLine(section), concepts,
      e.citationKey)
  }

  /** Wallet wins; otherwise Federated Learning gives Infrastructure even with ZKP; ZKP alone gives Cryptography. */
  lemma ResearchCategoryTable(concepts: seq<string>)
    ensures WalletTerm in concepts ==> ResearchCategory(concepts) == "Identity"
    ensures WalletTerm !in concepts && FederatedTerm in concepts ==> ResearchCategory(concepts) == "Infrastructure"
    ensures WalletTerm !in concepts && FederatedTerm !in concepts && ZkpTerm in concepts ==>
      ResearchCategory(concepts) == "Cryptography"
    ensures WalletTerm !in concepts && FederatedTerm !in concepts && ZkpTerm !in concepts ==>
      ResearchCategory(concepts) == "Infrastructure"
  {
  }

  /** `zkp fl` mentions ZKP and Federated Learning but no Wallet. */
  lemma ZkpFlMentions()
    ensures Mentions("zkp fl", Keywords[0]) && Mentions("zkp fl", Keywords[1]) && !Mentions("zkp fl", Keywords[5])
  {
    var text := Lower("zkp fl");
    assert text == "zkp fl";
    assert text[..3] == "zkp";
    ContainsPrefix(text, "zkp");
    assert text[4..] == "fl";
    ContainsAt(text, "fl", 4);
    assert "zkp" in Keywords[0].alternatives && "fl" in Keywords[1].alternatives;
    forall a | a in Keywords[5].alternatives
      ensures !Contains(text, a)
    {
      assert |a| >= 6 && a[0] != 'z';
      TooShortToContain(text[1..], a);
    }
  }

  /**
   * The two importers file the same entry differently: a text mentioning
   * both `zkp` and `fl` is Infrastructure here and cryptography in the GitHub
   * importer, and an empty key keeps an empty slug here but gets `untitled`
   * there.
   */
  lemma ImportersDisagree()
    ensures var c := ExtractConcepts("zkp fl");
      ResearchCategory(c) == "Infrastructure" && GithubImport.ImportCategory(c) == "cryptography"
    ensures Slugify("") == "" && GithubImport.ImportSlug("") == GithubImport.UntitledSlug
  {
    ZkpFlMentions();
    ExtractConceptsExact("zkp fl");
  }

  /** A title of braces only becomes an empty title here but `Untitled` in the GitHub importer. */
  lemma BracesOnlyTitle(e: Entry, project: string, section: string)
    requires Tag(e, "title") == "{}"
    ensures ResearchPageOf(e, project, section).title == ""
    ensures GithubImport.Page(e, project).title == GithubImport.UntitledTitle
  {
    var t := Tag(e, "title");
    assert StripBraces(t) == "" by {
      assert |StripBraces(t)| <= |t|;
    }
  }

  /**
   * The page's slug is the key's slug, with no fallback: it is empty exactly
   * when the key is. Its section line is present exactly for a real target.
   */
  lemma ResearchPageShape(e: Entry, project: string, section: string)
    ensures var p := ResearchPageOf(e, project, section);
      p.slug == Slugify(e.citationKey) && SlugShaped(p.slug) && (p.slug == "" <==> e.citationKey == "") &&
      (p.section.Some? <==> section != "" && section != AutoTarget) &&
      (Tag(e, "title") != "" ==> forall i :: 0 <= i < |p.title| ==> p.title[i] != '{' && p.title[i] != '}')
  {
    SlugifyShape(e.citationKey);
  }

  // ---------------------------------------------------------------------------
  // The endpoint

  /** The body after `Parser(bibtex)`: `entries` is `None` when the parser throws. */
  datatype ResearchBody = ResearchBody(entries: Option<seq<Entry>>, project: string, section: string)

  datatype ResearchResponse = ResearchImported(count: nat, slugs: seq<string>) | ResearchFailed(message: string)

  function ResearchStatus(r: ResearchResponse): int {
    if r.ResearchImported? then 200 else 500
  }

  /** Only entries with a title are written. */
  predicate Titled(e: Entry) {
    Tag(e, "title") != ""
  }

  /** The pages written for the first `n` entries, in entry order. */
  function Writes(entries: seq<Entry>, project: string, section: string, n: nat): (w: seq<ResearchPage>)
    requires n <= |entries|
    ensures |w| <= n
  {
    if n == 0 then []
    else
      var page := if Titled(entries[n - 1]) then [ResearchPageOf(entries[n - 1], project, section)] else [];
      Writes(entries, project, section, n - 1) + page
  }

  function Slugs(pages: seq<ResearchPage>): (r: seq<string>)
    ensures |r| == |pages| && forall i :: 0 <= i < |pages| ==> r[i] == pages[i].slug
  {
    seq(|pages|, i requires 0 <= i < |pages| => pages[i].slug)
  }

  /**
   * A page is written for exactly the titled entries, in entry order: every
   * titled entry among the first `n` has its page written, every written
   * page belongs to one of them, and an untitled entry adds nothing.
   */
  lemma {:induction false} WritesExact(entries: seq<Entry>, project: string, section: string, n: nat)
    requires n <= |entries|
    ensures var w := Writes(entries, project, section, n);
      (forall k :: 0 <= k < n && Titled(entries[k]) ==> ResearchPageOf(entries[k], project, section) in w) &&
      (forall p :: p in w ==> exists k :: 0 <= k < n && Titled(entries[k]) && p == ResearchPageOf(entries[k], project, section)) &&
      ((forall k :: 0 <= k < n ==> !Titled(entries[k])) ==> w == [])
  {
    if n > 0 {
      WritesExact(entries, project, section, n - 1);
      var prev := Writes(entries, project, section, n - 1);
      var w := Writes(entries, project, section, n);
      var page := ResearchPageOf(entries[n - 1], project, section);
      assert w == prev + (if Titled(entries[n - 1]) then [page] else []);
      forall p | p in w
        ensures exists k :: 0 <= k < n && Titled(entries[k]) && p == ResearchPageOf(entries[k], project, section)
      {
        if p !in prev {
          assert Titled(entries[n - 1]) && p == page;
        }
      }
    }
  }

  /**
   * The write loop. Without a readable body or with entries the parser
   * rejects the answer is a 500. Otherwise each titled entry's page is
   * written in turn; the first write that throws ends the request with a 500,
   * the pages written before it staying written. When none throws the answer
   * counts and names exactly the written pages.
   */
  method ProcessResearch(body: Option<ResearchBody>, writeThrows: nat -> bool)
    returns (resp: ResearchResponse, written: seq<ResearchPage>)
    ensures body.None? || body.value.entries.None? ==> resp.ResearchFailed? && written == []
    ensures body.Some? && body.value.entries.Some? ==>
      var b := body.value;
      var entries := b.entries.value;
      (resp.ResearchFailed? <==> exists k :: 0 <= k < |entries| && Titled(entries[k]) && writeThrows(k)) &&
      (resp.ResearchFailed? ==>
        exists f :: 0 <= f < |entries| && Titled(entries[f]) && writeThrows(f) &&
          (forall k :: 0 <= k < f && Titled(entries[k]) ==> !writeThrows(k)) &&
          written == Writes(entries, b.project, b.section, f)) &&
      (resp.ResearchImported? ==>
        written == Writes(entries, b.project, b.section, |entries|) &&
        resp == ResearchImported(|written|, Slugs(written)))
  {
    written := [];
    if body.None? {
      return ResearchFailed("request body is not valid JSON"), written;
    }
    var b := body.value;
    if b.entries.None? {
      return ResearchFailed("bibtex could not be parsed"), written;
    }
    var entries := b.entries.value;
    var slugs: seq<string> := [];
    var i := 0;
    while i < |entries|
      invariant 0 <= i <= |entries|
      invariant written == Writes(entries, b.project, b.section, i) && slugs == Slugs(written)
      invariant forall k :: 0 <= k < i && Titled(entries[k]) ==> !writeThrows(k)
    {
      var entry := entries[i];
      var page := ResearchPageOf(entry, b.project, b.section);
      if Titled(entry) {
        if writeThrows(i) {
          return ResearchFailed("file could not be written"), written;
        }
        written := written + [page];
        slugs := slugs + [page.slug];
      }
      i := i + 1;
    }
    resp := ResearchImported(|slugs|, slugs);
  }
}
