/**
 * `POST /api/import-to-github`: turn pasted BibTeX into concept pages and
 * upload each one; an upload the host refuses is skipped.
 */
module GithubImport {
  import opened Wrappers
  import opened Text
  import opened Concepts
  import opened Bibtex

  const UntitledSlug: string := "untitled"
  const UntitledTitle: string := "Untitled"
  const NoAbstractText: string := "No abstract provided."
  const UnknownAuthor: string := "Unknown"
  const UnknownKey: string := "unknown"
  const AutoProject: string := "auto"

  /** The decisions `generateMDX` makes for one entry (the page text itself is not modelled). */
  datatype ConceptPage = ConceptPage(
    slug: string, title: string, abstractText: string, author: string,
    category: string, project: string, concepts: seq<string>, citationKey: string)

  /** `citationKey?.toLowerCase().replace(...) || 'untitled'`. */
  function ImportSlug(key: string): string {
    OrDefault(Slugify(key), UntitledSlug)
  }

  /** `category` starts as infrastructure and is reassigned for ZKP, then for Wallet. */
  function ImportCategory(concepts: seq<string>): string {
    var category := "infrastructure";
    var category := if ZkpTerm in concepts then "cryptography" else category;
    if WalletTerm in concepts then "identity" else category
  }

  /** The target project unless it is empty or `auto`; otherwise decided by the Agriculture concept. */
  function ImportProject(target: string, concepts: seq<string>): string {
    if target != "" && target != AutoProject then target
    else if AgricultureTerm in concepts then "edgechain" else "ndani"
  }

  function Page(e: Entry, target: string): ConceptPage {
    var concepts := ExtractConcepts(TextToCheck(e));
    ConceptPage(
      ImportSlug(e.citationKey),
      OrDefault(StripBraces(Tag(e, "title")), UntitledTitle),
      OrDefault(StripBraces(Tag(e, "abstract")), NoAbstractText),
      OrDefault(StripBraces(Tag(e, "author")), UnknownAuthor),
      ImportCategory(concepts), ImportProject(target, concepts), concepts,
      OrDefault(e.citationKey, UnknownKey))
  }

  /** Wallet wins over ZKP, which wins over the infrastructure default. */
  lemma ImportCategoryTable(concepts: seq<string>)
    ensures WalletTerm in concepts ==> ImportCategory(concepts) == "identity"
    ensures WalletTerm !in concepts && ZkpTerm in concepts ==> ImportCategory(concepts) == "cryptography"
    ensures WalletTerm !in concepts && ZkpTerm !in concepts ==> ImportCategory(concepts) == "infrastructure"
  {
  }

  /**
   * A page's slug is shaped like a slug and is `untitled` exactly when the
   * key is empty; its title, abstract and author carry no braces.
   */
  lemma PageShape(e: Entry, target: string)
    ensures var p := Page(e, target);
      SlugShaped(p.slug) || p.slug == UntitledSlug
    ensures (Page(e, target).slug == UntitledSlug) <== (e.citationKey == "")
    ensures e.citationKey != "" ==> Page(e, target).slug == Slugify(e.citationKey)
    ensures var p := Page(e, target);
      p.title != "" && p.abstractText != "" && p.author != "" &&
      (forall i :: 0 <= i < |p.title| ==> p.title[i] != '{' && p.title[i] != '}')
  {
    SlugifyShape(e.citationKey);
    var stripped := StripBraces(Tag(e, "title"));
    assert UntitledTitle[0] == 'U' && UntitledTitle[|UntitledTitle| - 1] == 'd';
    assert forall i :: 0 <= i < |UntitledTitle| ==> UntitledTitle[i] != '{' && UntitledTitle[i] != '}';
  }

  // ---------------------------------------------------------------------------
  // The endpoint

  /** The body: `bibtex` is `None` when it is missing or not a string; an empty project is no project. */
  datatype ImportRequest = ImportRequest(bibtex: Option<string>, project: string)

  /** What the hosting API does with the k-th upload. */
  datatype UploadOutcome = UploadRefused | Uploaded(commitUrl: Option<string>) | UploadThrew

  datatype ImportResponse =
    | TokenMissing
    | BadBibtex
    | NoEntries
    | Imported(files: seq<string>, commits: seq<string>)
    | ImportFailed(message: string)

  function ImportStatus(r: ImportResponse): int {
    match r
    case TokenMissing => 500
    case BadBibtex => 400
    case NoEntries => 400
    case Imported(_, _) => 200
    case ImportFailed(_) => 500
  }

  /** The slugs of the first `n` pages whose upload went through, in entry order. */
  function UploadedSlugs(pages: seq<ConceptPage>, upload: nat -> UploadOutcome, n: nat): (r: seq<string>)
    requires n <= |pages|
    ensures |r| <= n
  {
    if n == 0 then []
    else UploadedSlugs(pages, upload, n - 1) + (if upload(n - 1).Uploaded? then [pages[n - 1].slug] else [])
  }

  /** The commit links reported by the first `n` uploads (an empty link is not reported). */
  function CommitUrls(upload: nat -> UploadOutcome, n: nat): seq<string> {
    if n == 0 then []
    else
      var o := upload(n - 1);
      CommitUrls(upload, n - 1) +
      (if o.Uploaded? && o.commitUrl.Some? && o.commitUrl.value != "" then [o.commitUrl.value] else [])
  }

  /**
   * `files` names exactly the uploaded pages' slugs, in entry order; when
   * every upload goes through it is every page's slug.
   */
  lemma {:induction false} UploadedSlugsExact(pages: seq<ConceptPage>, upload: nat -> UploadOutcome, n: nat)
    requires n <= |pages|
    ensures forall k :: 0 <= k < n && upload(k).Uploaded? ==> pages[k].slug in UploadedSlugs(pages, upload, n)
    ensures forall x :: x in UploadedSlugs(pages, upload, n) ==>
      exists k :: 0 <= k < n && upload(k).Uploaded? && pages[k].slug == x
    ensures (forall k :: 0 <= k < n ==> upload(k).Uploaded?) ==>
      UploadedSlugs(pages, upload, n) == seq(n, k requires 0 <= k < n => pages[k].slug)
  {
    UploadedSlugsComplete(pages, upload, n);
    UploadedSlugsSound(pages, upload, n);
    if forall k :: 0 <= k < n ==> upload(k).Uploaded? {
      UploadedSlugsAll(pages, upload, n);
    }
  }

  lemma {:induction false} UploadedSlugsComplete(pages: seq<ConceptPage>, upload: nat -> UploadOutcome, n: nat)
    requires n <= |pages|
    ensures forall k :: 0 <= k < n && upload(k).Uploaded? ==> pages[k].slug in UploadedSlugs(pages, upload, n)
  {
    if n > 0 {
      UploadedSlugsComplete(pages, upload, n - 1);
      var prev := UploadedSlugs(pages, upload, n - 1);
      assert UploadedSlugs(pages, upload, n) == prev + if upload(n - 1).Uploaded? then [pages[n - 1].slug] else [];
    }
  }

  lemma {:induction false} UploadedSlugsSound(pages: seq<ConceptPage>, upload: nat -> UploadOutcome, n: nat)
    requires n <= |pages|
    ensures forall x :: x in UploadedSlugs(pages, upload, n) ==>
      exists k :: 0 <= k < n && upload(k).Uploaded? && pages[k].slug == x
  {
    if n > 0 {
      UploadedSlugsSound(pages, upload, n - 1);
      var prev := UploadedSlugs(pages, upload, n - 1);
      forall x | x in UploadedSlugs(pages, upload, n)
        ensures exists k :: 0 <= k < n && upload(k).Uploaded? && pages[k].slug == x
      {
        if x in prev {
          var k :| 0 <= k < n - 1 && upload(k).Uploaded? && pages[k].slug == x;
        } else {
          assert upload(n - 1).Uploaded? && pages[n - 1].slug == x;
        }
      }
    }
  }

  lemma {:induction false} UploadedSlugsAll(pages: seq<ConceptPage>, upload: nat -> UploadOutcome, n: nat)
    requires n <= |pages| && forall k :: 0 <= k < n ==> upload(k).Uploaded?
    ensures UploadedSlugs(pages, upload, n) == seq(n, k requires 0 <= k < n => pages[k].slug)
  {
    if n > 0 {
      UploadedSlugsAll(pages, upload, n - 1);
    }
  }

  /** The concept page of each entry, in entry order. */
  function Pages(entries: seq<Entry>, target: string): seq<ConceptPage> {
    seq(|entries|, k requires 0 <= k < |entries| => Page(entries[k], target))
  }

  /**
   * How many of the uploads `i`, `i + 1`, ... below `n` are attempted: all of
   * them, or up to and including the first one that throws.
   */
  function Attempted(upload: nat -> UploadOutcome, n: nat, i: nat): (r: nat)
    requires i <= n
    ensures i <= r <= n
    decreases n - i
  {
    if i == n then n
    else if upload(i).UploadThrew? then i + 1
    else Attempted(upload, n, i + 1)
  }

  /** Without a throwing upload every upload is attempted. */
  lemma {:induction false} AttemptedAll(upload: nat -> UploadOutcome, n: nat, i: nat)
    requires i <= n && forall k :: i <= k < n ==> !upload(k).UploadThrew?
    ensures Attempted(upload, n, i) == n
    decreases n - i
  {
    if i < n {
      AttemptedAll(upload, n, i + 1);
    }
  }

  /** The first upload that throws is the last one attempted. */
  lemma {:induction false} AttemptedStopsAtThrow(upload: nat -> UploadOutcome, n: nat, i: nat, k: nat)
    requires i <= k < n && upload(k).UploadThrew? && forall j :: i <= j < k ==> !upload(j).UploadThrew?
    ensures Attempted(upload, n, i) == k + 1
    decreases k - i
  {
    if i < k {
      AttemptedStopsAtThrow(upload, n, i + 1, k);
    }
  }

  /**
   * Without a token: 500 before anything else. An unreadable body is a 500;
   * a missing, non-string or empty `bibtex` and a text without entries are
   * 400s, all before any upload. Then every page is uploaded in turn: a
   * refused upload is skipped, one that throws ends the request with a 500.
   */
  method ImportToGithub(token: string, body: Option<ImportRequest>, upload: nat -> UploadOutcome)
    returns (resp: ImportResponse, ghost attempted: seq<ConceptPage>)
    ensures token == "" ==> resp == TokenMissing
    ensures token != "" && body.None? ==> resp.ImportFailed?
    ensures token != "" && body.Some? && (body.value.bibtex.None? || body.value.bibtex.value == "") ==>
      resp == BadBibtex
    ensures token != "" && body.Some? && body.value.bibtex.Some? && body.value.bibtex.value != "" ==>
      var entries := Parsed(body.value.bibtex.value);
      (|entries| == 0 ==> resp == NoEntries) &&
      (|entries| > 0 && (exists k :: 0 <= k < |entries| && upload(k).UploadThrew?) ==> resp.ImportFailed?) &&
      (|entries| > 0 && (forall k :: 0 <= k < |entries| ==> !upload(k).UploadThrew?) ==>
        resp == Imported(UploadedSlugs(Pages(entries, body.value.project), upload, |entries|),
                         CommitUrls(upload, |entries|)))
    ensures !(token != "" && body.Some? && body.value.bibtex.Some? && body.value.bibtex.value != "") ==> attempted == []
    ensures token != "" && body.Some? && body.value.bibtex.Some? && body.value.bibtex.value != "" ==>
      var entries := Parsed(body.value.bibtex.value);
      attempted == Pages(entries, body.value.project)[..Attempted(upload, |entries|, 0)]
  {
    if token == "" {
      return TokenMissing, [];
    }
    if body.None? {
      return ImportFailed("request body is not valid JSON"), [];
    }
    var request := body.value;
    if request.bibtex.None? || request.bibtex.value == "" {
      return BadBibtex, [];
    }
    var entries := ParseBibtex(request.bibtex.value);
    if |entries| == 0 {
      return NoEntries, [];
    }
    resp, attempted := UploadPages(Pages(entries, request.project), upload);
  }

  /**
   * The upload loop: refused uploads are skipped, a throwing one ends the
   * request; `attempted` is the pages sent, in order.
   */
  method UploadPages(pages: seq<ConceptPage>, upload: nat -> UploadOutcome)
    returns (resp: ImportResponse, ghost attempted: seq<ConceptPage>)
    ensures (exists k :: 0 <= k < |pages| && upload(k).UploadThrew?) ==> resp.ImportFailed?
    ensures (forall k :: 0 <= k < |pages| ==> !upload(k).UploadThrew?) ==>
      resp == Imported(UploadedSlugs(pages, upload, |pages|), CommitUrls(upload, |pages|))
    ensures attempted == pages[..Attempted(upload, |pages|, 0)]
  {
    attempted := [];
    var files: seq<string> := [];
    var commits: seq<string> := [];
    var i := 0;
    while i < |pages|
      invariant 0 <= i <= |pages|
      invariant files == UploadedSlugs(pages, upload, i) && commits == CommitUrls(upload, i)
      invariant forall k :: 0 <= k < i ==> !upload(k).UploadThrew?
      invariant attempted == pages[..i]
      invariant Attempted(upload, |pages|, 0) == Attempted(upload, |pages|, i)
    {
      var outcome := upload(i);
      attempted := attempted + [pages[i]];
      if outcome.UploadThrew? {
        assert attempted == pages[..i + 1];
        return ImportFailed("upload failed"), attempted;
      }
      if outcome.Uploaded? {
        files := files + [pages[i].slug];
        if outcome.commitUrl.Some? && outcome.commitUrl.value != "" {
          commits := commits + [outcome.commitUrl.value];
        }
      }
      i := i + 1;
    }
    resp := Imported(files, commits);
    assert attempted == pages;
  }
}
