/**
 * `POST /api/agents/process-pdf`: curate and synthesize an uploaded PDF from
 * its extracted sections. The upload is never stored as a paper: the agents'
 * log rows and the curator's pending memories are the only writes.
 */
module ProcessPdf {
  import opened Wrappers
  import opened Text
  import opened AgentTypes
  import opened Store
  import opened ModelCache
  import opened PendingMemory
  import opened Curator
  import opened Synthesizer
  import opened PdfPrepare

  const PdfMimeType: string := "application/pdf"
  const PdfExtension: string := ".pdf"

  /** The uploaded form file: its name and declared content type. */
  datatype Upload = Upload(name: string, mimeType: string)

  /** The form fields the handler reads: the `pdf` file, if any, and the `title` override. */
  datatype PdfForm = PdfForm(file: Option<Upload>, titleOverride: string)

  /** The `extracted` block of the response; `hasMethods` is only reported on success. */
  datatype ExtractionSummary = ExtractionSummary(
    pageCount: nat, wordCount: nat, hasAbstract: bool, hasIntro: bool, hasConclusion: bool, hasMethods: Option<bool>)

  datatype PdfResponse =
    | Unauthorized
    | NotPdf
    | PdfRejected(title: string, extracted: ExtractionSummary, curator: CuratorOutput)
    | PdfProcessed(title: string, extracted: ExtractionSummary, curator: CuratorOutput, synthesizer: SynthOutput)
    | PdfFailed(message: string)

  function StatusCode(r: PdfResponse): int {
    match r
    case Unauthorized => 401
    case NotPdf => 400
    case PdfRejected(_, _, _) => 200
    case PdfProcessed(_, _, _, _) => 200
    case PdfFailed(_) => 500
  }

  /** `titleOverride || extracted.title || file.name.replace(".pdf", "")`. */
  function PdfTitle(titleOverride: string, extractedTitle: string, fileName: string): (r: string)
    ensures titleOverride != "" ==> r == titleOverride
    ensures titleOverride == "" && extractedTitle != "" ==> r == extractedTitle
    ensures titleOverride == "" && extractedTitle == "" && !Contains(fileName, PdfExtension) ==> r == fileName
    ensures titleOverride == "" && extractedTitle == "" && Contains(fileName, PdfExtension) ==>
      |r| == |fileName| - |PdfExtension|
  {
    ReplaceFirstEffect(fileName, PdfExtension);
    if titleOverride != "" then titleOverride
    else if extractedTitle != "" then extractedTitle
    else ReplaceFirst(fileName, PdfExtension, "")
  }

  function Summary(p: ExtractedPaper, withMethods: bool): (r: ExtractionSummary)
    ensures r.hasAbstract == (p.abstractText != "") && r.hasIntro == (p.introduction != "")
    ensures r.hasConclusion == (p.conclusion != "")
    ensures r.hasMethods == if withMethods then Some(p.methodology != "") else None
  {
    ExtractionSummary(p.pageCount, p.wordCount, p.abstractText != "", p.introduction != "", p.conclusion != "",
                      if withMethods then Some(p.methodology != "") else None)
  }

  /** The synthesizer's paper id: `pdf-` and the current time. */
  function PdfPaperId(now: int): (r: string)
    ensures PdfPaperPrefix <= r && |r| > |PdfPaperPrefix|
  {
    PdfPaperPrefix + IntToString(now)
  }

  const PdfPaperPrefix: string := "pdf-"

  /** The curator sees the prepared sections as the abstract, and no full text. */
  function PdfCuratorInput(title: string, analysis: string): CuratorInput {
    CuratorInput(title, analysis, "")
  }

  /** The synthesizer sees the same text, the curator's tags, and an empty library. */
  function PdfSynthInput(title: string, analysis: string, cur: CuratorOutput, now: int): (r: SynthInput)
    ensures r.existingPapers == [] && r.paper.abstractText == analysis && r.paper.domainTags == cur.domainTags
    ensures r.paper.id == PdfPaperId(now) && r.paper.title == title
  {
    SynthInput(PaperBrief(PdfPaperId(now), title, analysis, cur.domainTags), [])
  }

  /** With an empty library the synthesizer's prompt says so. */
  lemma PdfSynthPromptHasNoPeers(title: string, analysis: string, cur: CuratorOutput, now: int)
    ensures Contains(SynthPrompt(PdfSynthInput(title, analysis, cur, now)), NoPeers)
  {
    SynthPromptListsLibrary(PdfSynthInput(title, analysis, cur, now));
  }

  /** The provider's answer to the curator's prompt about the prepared text. */
  function PdfCuratorAnswer(curatorCall: Provider, title: string, analysis: string): Call {
    curatorCall(CuratorPrompt(PdfCuratorInput(title, analysis)))
  }

  /** The provider's answer to the synthesizer's prompt about `pdf-<now>`, with an empty library. */
  function PdfSynthAnswer(synthCall: Provider, title: string, analysis: string, cur: CuratorOutput, now: int): Call {
    synthCall(SynthPrompt(PdfSynthInput(title, analysis, cur, now)))
  }

  /** The synthesizer's log rows for an upload: only a synthesis that ran and answered logs. */
  function UploadSynthLog(cur: CuratorOutput, answer: Call, decodeSynthesis: string -> Option<SynthOutput>,
                          synthLogId: string, synthLogFails: bool, latencyMs: int, now: int): seq<AgentLogRow>
  {
    if cur.status != Rejected && answer.Answered? && decodeSynthesis(answer.response.text).Some? then
      SynthesizerLog(answer, PdfPaperId(now), synthLogId, synthLogFails, latencyMs, now)
    else []
  }

  /**
   * Without a user: 401. A body that is not a form is a 500 (the read is
   * inside the handler's `try`); without a PDF upload: 400. None of these
   * touch anything. A failed extraction or agent call is a 500. A rejection answers 200
   * `rejected` with no `hasMethods` and no synthesis; otherwise the
   * synthesizer runs on `pdf-<now>` with an empty library and the answer
   * reports `hasMethods`. No paper or relation row is ever written.
   */
  method ProcessPdf(db: Database, cache: ModelCache, hasUser: bool, form: Option<PdfForm>,
                    extraction: Option<ExtractedPaper>, env: Env,
                    curatorToken: nat, curatorCall: Provider, decodeCuration: string -> Option<CuratorOutput>,
                    relevancePct: string, accessibilityPct: string,
                    synthToken: nat, synthCall: Provider, decodeSynthesis: string -> Option<SynthOutput>,
                    curatorLogId: string, synthLogId: string, curatorLogFails: bool, synthLogFails: bool,
                    latencyMs: int, now: int,
                    memoryIds: seq<string>, memoryFailAt: nat)
    returns (resp: PdfResponse)
    requires db.Valid() && cache.Valid()
    requires |memoryIds| >= 2 && FreshMemoryIds(db.memories, memoryIds)
    modifies db`memories, db`agentLogs, cache
    ensures db.Valid() && cache.Valid()
    ensures db.papers == old(db.papers) && db.relations == old(db.relations)
    ensures !hasUser ==> resp == Unauthorized && unchanged(db) && unchanged(cache)
    ensures hasUser && form.None? ==> resp.PdfFailed? && unchanged(db) && unchanged(cache)
    ensures hasUser && form.Some? && (form.value.file.None? || form.value.file.value.mimeType != PdfMimeType) ==>
      resp == NotPdf && unchanged(db) && unchanged(cache)
    ensures hasUser && form.Some? && form.value.file.Some? && form.value.file.value.mimeType == PdfMimeType &&
            extraction.None? ==>
      resp.PdfFailed? && unchanged(db) && unchanged(cache)
    ensures hasUser && form.Some? && form.value.file.Some? && form.value.file.value.mimeType == PdfMimeType &&
            extraction.Some? ==>
      var p := extraction.value;
      var title := PdfTitle(form.value.titleOverride, p.title, form.value.file.value.name);
      var analysis := Join(Sections(p, DefaultMaxChars), "\n");
      var curAnswer := PdfCuratorAnswer(curatorCall, title, analysis);
      curAnswer.CallFailed? || decodeCuration(curAnswer.response.text).None? ==>
      resp.PdfFailed? && db.memories == old(db.memories) && db.agentLogs == old(db.agentLogs)
    ensures hasUser && form.Some? && form.value.file.Some? && form.value.file.value.mimeType == PdfMimeType &&
            extraction.Some? ==>
      var p := extraction.value;
      var title := PdfTitle(form.value.titleOverride, p.title, form.value.file.value.name);
      var analysis := Join(Sections(p, DefaultMaxChars), "\n");
      var curAnswer := PdfCuratorAnswer(curatorCall, title, analysis);
      curAnswer.Answered? && decodeCuration(curAnswer.response.text).Some? ==>
      db.memories == old(db.memories) + PendingRows(
        Take(LearnPlan(PdfCuratorInput(title, analysis), decodeCuration(curAnswer.response.text).value,
                       relevancePct, accessibilityPct, Contents(old(db.memories))), memoryFailAt), memoryIds, now)
    ensures hasUser && form.Some? && form.value.file.Some? && form.value.file.value.mimeType == PdfMimeType &&
            extraction.Some? ==>
      var p := extraction.value;
      var title := PdfTitle(form.value.titleOverride, p.title, form.value.file.value.name);
      var analysis := Join(Sections(p, DefaultMaxChars), "\n");
      var curAnswer := PdfCuratorAnswer(curatorCall, title, analysis);
      curAnswer.Answered? && decodeCuration(curAnswer.response.text).Some? ==>
      var cur := decodeCuration(curAnswer.response.text).value;
      db.agentLogs == old(db.agentLogs) + CuratorLog(curAnswer, curatorLogId, curatorLogFails, latencyMs, now) +
        UploadSynthLog(cur, PdfSynthAnswer(synthCall, title, analysis, cur, now), decodeSynthesis,
                       synthLogId, synthLogFails, latencyMs, now) &&
      UploadAnswer(p, title, analysis, cur, synthCall, decodeSynthesis, now, resp)
  {
    if !hasUser {
      return Unauthorized;
    }
    if form.None? {
      return PdfFailed("Failed to process PDF");
    }
    var file := form.value.file;
    if file.None? || file.value.mimeType != PdfMimeType {
      return NotPdf;
    }
    if extraction.None? {
      return PdfFailed("Failed to process PDF");
    }
    var p := extraction.value;
    var title := PdfTitle(form.value.titleOverride, p.title, file.value.name);
    var analysis := PrepareForAnalysis(p, DefaultMaxChars);
    resp := RunAgents(db, cache, p, title, analysis, env, curatorToken, curatorCall, decodeCuration,
                      relevancePct, accessibilityPct, synthToken, synthCall, decodeSynthesis,
                      curatorLogId, synthLogId, curatorLogFails, synthLogFails, latencyMs, now, memoryIds, memoryFailAt);
  }

  /**
   * The agents' part of the handler: the curator is asked about the prepared
   * text as the abstract, with no full text; then, unless it rejects, the
   * synthesizer about the same text with an empty library.
   */
  method RunAgents(db: Database, cache: ModelCache, p: ExtractedPaper, title: string, analysis: string, env: Env,
                   curatorToken: nat, curatorCall: Provider, decodeCuration: string -> Option<CuratorOutput>,
                   relevancePct: string, accessibilityPct: string,
                   synthToken: nat, synthCall: Provider, decodeSynthesis: string -> Option<SynthOutput>,
                   curatorLogId: string, synthLogId: string, curatorLogFails: bool, synthLogFails: bool,
                   latencyMs: int, now: int,
                   memoryIds: seq<string>, memoryFailAt: nat)
    returns (resp: PdfResponse)
    requires db.Valid() && cache.Valid()
    requires |memoryIds| >= 2 && FreshMemoryIds(db.memories, memoryIds)
    modifies db`memories, db`agentLogs, cache
    ensures db.Valid() && cache.Valid()
    ensures db.papers == old(db.papers) && db.relations == old(db.relations)
    ensures var curAnswer := PdfCuratorAnswer(curatorCall, title, analysis);
      curAnswer.CallFailed? || decodeCuration(curAnswer.response.text).None? ==>
      resp.PdfFailed? && db.memories == old(db.memories) && db.agentLogs == old(db.agentLogs)
    ensures var curAnswer := PdfCuratorAnswer(curatorCall, title, analysis);
      curAnswer.Answered? && decodeCuration(curAnswer.response.text).Some? ==>
      db.memories == old(db.memories) + PendingRows(
        Take(LearnPlan(PdfCuratorInput(title, analysis), decodeCuration(curAnswer.response.text).value,
                       relevancePct, accessibilityPct, Contents(old(db.memories))), memoryFailAt), memoryIds, now)
    ensures var curAnswer := PdfCuratorAnswer(curatorCall, title, analysis);
      curAnswer.Answered? && decodeCuration(curAnswer.response.text).Some? ==>
      var cur := decodeCuration(curAnswer.response.text).value;
      db.agentLogs == old(db.agentLogs) + CuratorLog(curAnswer, curatorLogId, curatorLogFails, latencyMs, now) +
        UploadSynthLog(cur, PdfSynthAnswer(synthCall, title, analysis, cur, now), decodeSynthesis,
                       synthLogId, synthLogFails, latencyMs, now) &&
      UploadAnswer(p, title, analysis, cur, synthCall, decodeSynthesis, now, resp)
  {
    var curated := CuratePaper(db, cache, PdfCuratorInput(title, analysis), env, curatorToken, curatorCall,
                               decodeCuration, relevancePct, accessibilityPct, curatorLogId, curatorLogFails, latencyMs, now,
                               memoryIds, memoryFailAt);
    if curated.Failure? {
      return PdfFailed(curated.error);
    }
    resp := FinishUpload(db, cache, p, title, analysis, curated.value, env, synthToken, synthCall, decodeSynthesis,
                         synthLogId, synthLogFails, latencyMs, now);
  }

  /**
   * What the handler answers once the curator has answered `cur`: a rejection
   * with no `hasMethods` and no synthesis; otherwise the synthesis of
   * `pdf-<now>`, or a failure when the synthesizer did not answer usably.
   */
  predicate UploadAnswer(p: ExtractedPaper, title: string, analysis: string, cur: CuratorOutput, synthCall: Provider,
                         decodeSynthesis: string -> Option<SynthOutput>, now: int, resp: PdfResponse)
  {
    var answer := PdfSynthAnswer(synthCall, title, analysis, cur, now);
    (cur.status == Rejected ==> resp == PdfRejected(title, Summary(p, false), cur)) &&
    (cur.status != Rejected && answer.Answered? && decodeSynthesis(answer.response.text).Some? ==>
      resp == PdfProcessed(title, Summary(p, true), cur, decodeSynthesis(answer.response.text).value)) &&
    (cur.status != Rejected && (answer.CallFailed? || decodeSynthesis(answer.response.text).None?) ==>
      resp.PdfFailed?)
  }

  /**
   * The step after an answered curation: a rejection answers at once; an
   * accepted upload is synthesized as `pdf-<now>` with the prepared text, the
   * curator's tags and an empty library, and only the synthesizer's log row
   * may be written.
   */
  method FinishUpload(db: Database, cache: ModelCache, p: ExtractedPaper, title: string, analysis: string,
                      cur: CuratorOutput, env: Env, synthToken: nat, synthCall: Provider,
                      decodeSynthesis: string -> Option<SynthOutput>,
                      synthLogId: string, synthLogFails: bool, latencyMs: int, now: int)
    returns (resp: PdfResponse)
    requires cache.Valid()
    modifies db`agentLogs, cache
    ensures cache.Valid()
    ensures db.agentLogs == old(db.agentLogs) + UploadSynthLog(cur, PdfSynthAnswer(synthCall, title, analysis, cur, now),
                                                              decodeSynthesis, synthLogId, synthLogFails, latencyMs, now)
    ensures UploadAnswer(p, title, analysis, cur, synthCall, decodeSynthesis, now, resp)
  {
    if cur.status == Rejected {
      return PdfRejected(title, Summary(p, false), cur);
    }
    var synthesized := SynthesizePaper(db, cache, PdfSynthInput(title, analysis, cur, now), env, synthToken,
                                       synthCall, decodeSynthesis, synthLogId, synthLogFails, latencyMs, now);
    if synthesized.Failure? {
      return PdfFailed(synthesized.error);
    }
    resp := PdfProcessed(title, Summary(p, true), cur, synthesized.value);
  }
}
