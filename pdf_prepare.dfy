/**
 * `prepareForAnalysis`: the budgeted selection of a PDF's extracted sections
 * that is sent to the agents in place of an abstract. Title and abstract are
 * always taken; introduction, conclusion and methodology only while a running
 * length stays under 60%, 80% and 100% of the character budget. The
 * percentages are compared in integers: `len < 0.6 * max` as
 * `10 * len < 6 * max`.
 */
module PdfPrepare {
  import opened Text

  /** The sections the extractor found; an empty string is a section it did not find. */
  datatype ExtractedPaper = ExtractedPaper(
    title: string, abstractText: string, introduction: string, methodology: string, conclusion: string,
    fullText: string, pageCount: nat, wordCount: nat)

  const DefaultMaxChars: int := 15000

  function TitleBlock(t: string): string { "TITLE: " + t }
  function AbstractBlock(a: string): string { "\nABSTRACT:\n" + a }
  function IntroBlock(i: string): string { "\nINTRODUCTION:\n" + i }
  function ConclusionBlock(c: string): string { "\nCONCLUSION:\n" + c }
  function MethodBlock(m: string): string { "\nMETHODOLOGY:\n" + m }

  /** The running length after the unconditional title and abstract. */
  function Lead(p: ExtractedPaper): int {
    (if p.title != "" then |p.title| + 10 else 0) + (if p.abstractText != "" then |p.abstractText| + 15 else 0)
  }

  predicate TakesIntro(p: ExtractedPaper, maxChars: int) {
    p.introduction != "" && 10 * (Lead(p) + |p.introduction|) < 6 * maxChars
  }

  /** The running length after the introduction step. */
  function AfterIntro(p: ExtractedPaper, maxChars: int): int {
    Lead(p) + if TakesIntro(p, maxChars) then |p.introduction| + 20 else 0
  }

  predicate TakesConclusion(p: ExtractedPaper, maxChars: int) {
    p.conclusion != "" && 10 * (AfterIntro(p, maxChars) + |p.conclusion|) < 8 * maxChars
  }

  /** The running length the methodology is measured against; the methodology itself is never added. */
  function AfterConclusion(p: ExtractedPaper, maxChars: int): int {
    AfterIntro(p, maxChars) + if TakesConclusion(p, maxChars) then |p.conclusion| + 15 else 0
  }

  predicate TakesMethodology(p: ExtractedPaper, maxChars: int) {
    p.methodology != "" && AfterConclusion(p, maxChars) + |p.methodology| < maxChars
  }

  /** The selected blocks, in the fixed order title, abstract, introduction, conclusion, methodology. */
  function Sections(p: ExtractedPaper, maxChars: int): seq<string> {
    (if p.title != "" then [TitleBlock(p.title)] else []) +
    (if p.abstractText != "" then [AbstractBlock(p.abstractText)] else []) +
    (if TakesIntro(p, maxChars) then [IntroBlock(p.introduction)] else []) +
    (if TakesConclusion(p, maxChars) then [ConclusionBlock(p.conclusion)] else []) +
    (if TakesMethodology(p, maxChars) then [MethodBlock(p.methodology)] else [])
  }

  /**
   * The sections are pushed one by one while `currentLength` accumulates; the
   * result is the pushed sections joined with newlines.
   */
  method PrepareForAnalysis(paper: ExtractedPaper, maxChars: int) returns (r: string)
    ensures r == Join(Sections(paper, maxChars), "\n")
  {
    var sections: seq<string> := [];
    var currentLength := 0;
    ghost var p, m := paper, maxChars;
    if paper.title != "" {
      sections := sections + [TitleBlock(paper.title)];
      currentLength := currentLength + |paper.title| + 10;
    }
    if paper.abstractText != "" {
      sections := sections + [AbstractBlock(paper.abstractText)];
      currentLength := currentLength + |paper.abstractText| + 15;
    }
    assert currentLength == Lead(paper);
    assert sections == (if p.title != "" then [TitleBlock(p.title)] else []) +
      (if p.abstractText != "" then [AbstractBlock(p.abstractText)] else []);
    if paper.introduction != "" && 10 * (currentLength + |paper.introduction|) < 6 * maxChars {
      sections := sections + [IntroBlock(paper.introduction)];
      currentLength := currentLength + |paper.introduction| + 20;
    }
    assert currentLength == AfterIntro(paper, maxChars);
    assert sections == (if p.title != "" then [TitleBlock(p.title)] else []) +
      (if p.abstractText != "" then [AbstractBlock(p.abstractText)] else []) +
      (if TakesIntro(p, m) then [IntroBlock(p.introduction)] else []);
    if paper.conclusion != "" && 10 * (currentLength + |paper.conclusion|) < 8 * maxChars {
      sections := sections + [ConclusionBlock(paper.conclusion)];
      currentLength := currentLength + |paper.conclusion| + 15;
    }
    assert currentLength == AfterConclusion(paper, maxChars);
    assert sections == (if p.title != "" then [TitleBlock(p.title)] else []) +
      (if p.abstractText != "" then [AbstractBlock(p.abstractText)] else []) +
      (if TakesIntro(p, m) then [IntroBlock(p.introduction)] else []) +
      (if TakesConclusion(p, m) then [ConclusionBlock(p.conclusion)] else []);
    if paper.methodology != "" && currentLength + |paper.methodology| < maxChars {
      sections := sections + [MethodBlock(paper.methodology)];
    }
    assert sections == Sections(paper, maxChars);
    r := Join(sections, "\n");
  }

  /** The five blocks differ in their first two characters, so no two of them are equal. */
  lemma BlocksDistinct(p: ExtractedPaper)
    ensures var t, a, i, c, m := TitleBlock(p.title), AbstractBlock(p.abstractText), IntroBlock(p.introduction),
                                 ConclusionBlock(p.conclusion), MethodBlock(p.methodology);
      t != a && t != i && t != c && t != m && a != i && a != c && a != m && i != c && i != m && c != m
  {
    var t, a, i, c, m := TitleBlock(p.title), AbstractBlock(p.abstractText), IntroBlock(p.introduction),
                         ConclusionBlock(p.conclusion), MethodBlock(p.methodology);
    assert t[0] == 'T' && a[0] == '\n' && i[0] == '\n' && c[0] == '\n' && m[0] == '\n';
    assert a[1] == 'A' && i[1] == 'I' && c[1] == 'C' && m[1] == 'M';
  }

  /** Which block was taken is visible in the selection, and only taken blocks are. */
  lemma SectionsIncluded(p: ExtractedPaper, maxChars: int)
    ensures var s := Sections(p, maxChars);
      (TitleBlock(p.title) in s <==> p.title != "") &&
      (AbstractBlock(p.abstractText) in s <==> p.abstractText != "") &&
      (IntroBlock(p.introduction) in s <==> TakesIntro(p, maxChars)) &&
      (ConclusionBlock(p.conclusion) in s <==> TakesConclusion(p, maxChars)) &&
      (MethodBlock(p.methodology) in s <==> TakesMethodology(p, maxChars))
  {
    BlocksDistinct(p);
    var t := if p.title != "" then [TitleBlock(p.title)] else [];
    var a := if p.abstractText != "" then [AbstractBlock(p.abstractText)] else [];
    var i := if TakesIntro(p, maxChars) then [IntroBlock(p.introduction)] else [];
    var c := if TakesConclusion(p, maxChars) then [ConclusionBlock(p.conclusion)] else [];
    var m := if TakesMethodology(p, maxChars) then [MethodBlock(p.methodology)] else [];
    assert Sections(p, maxChars) == t + a + i + c + m;
    forall x
      ensures x in Sections(p, maxChars) <==> x in t || x in a || x in i || x in c || x in m
    {
      InConcat(x, t, a, i, c, m);
    }
  }

  lemma InConcat(x: string, t: seq<string>, a: seq<string>, i: seq<string>, c: seq<string>, m: seq<string>)
    ensures x in t + a + i + c + m <==> x in t || x in a || x in i || x in c || x in m
  {
  }

  /** Every block is non-empty, so the result is empty exactly when nothing was selected. */
  lemma PreparedEmptyIffNothingSelected(p: ExtractedPaper, maxChars: int)
    ensures Join(Sections(p, maxChars), "\n") == "" <==> Sections(p, maxChars) == []
    ensures (p.title == "" && p.abstractText == "" && p.introduction == "" && p.conclusion == "" &&
             p.methodology == "") ==> Join(Sections(p, maxChars), "\n") == ""
  {
    var s := Sections(p, maxChars);
    if s != [] {
      assert |s[0]| > 0;
      if |s| > 1 {
        assert Join(s, "\n") == s[0] + "\n" + Join(s[1..], "\n");
      }
    }
  }

  /**
   * The budget does not bound the output: a title alone as long as the budget
   * is always taken.
   */
  lemma PreparedCanExceedBudget(maxChars: nat)
    ensures var p := ExtractedPaper(seq(maxChars + 1, _ => 'x'), "", "", "", "", "", 0, 0);
      |Join(Sections(p, maxChars), "\n")| > maxChars
  {
    var p := ExtractedPaper(seq(maxChars + 1, _ => 'x'), "", "", "", "", "", 0, 0);
    assert Sections(p, maxChars) == [TitleBlock(p.title)];
  }

  /**
   * A larger budget can select less: with room for the introduction, its
   * length counts against the conclusion, which a smaller budget took.
   */
  lemma LargerBudgetCanDropConclusion()
    ensures var p := ExtractedPaper("", "", "intro!", "", "c", "", 0, 0);
      TakesConclusion(p, 10) && !TakesIntro(p, 10) &&
      TakesIntro(p, 11) && !TakesConclusion(p, 11)
  {
    var p := ExtractedPaper("", "", "intro!", "", "c", "", 0, 0);
    assert |p.introduction| == 6 && |p.conclusion| == 1;
  }
}
