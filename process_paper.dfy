/**
 * The paper-processing endpoint: authenticate, curate, stop on a rejection,
 * otherwise synthesize against the approved library, upsert the paper row and
 * record the proposed relations whose target paper exists.
 */
module ProcessPaper {
  import opened Wrappers
  import opened Text
  import opened AgentTypes
  import opened Store
  import opened ModelCache
  import opened PendingMemory
  import opened Curator
  import opened Synthesizer
  import opened Peers

  /** The request body; empty strings and a zero year stand for absent fields. */
  datatype PaperRequest = PaperRequest(
    paperId: string, title: string, abstractText: string, fullText: string,
    authors: Option<seq<string>>, year: int, venue: string, bibtex: string)

  /** What the model provider, the decoders and the clock contribute to one request. */
  datatype AgentOracles = AgentOracles(
    env: Env,
    curatorToken: nat, curatorCall: Provider, decodeCuration: string -> Option<CuratorOutput>,
    relevancePct: string, accessibilityPct: string,
    synthToken: nat, synthCall: Provider, decodeSynthesis: string -> Option<SynthOutput>,
    latencyMs: int, now: int)

  /** Fresh identifiers: the generated paper id, the two log ids, memory ids and the k-th edge id. */
  datatype FreshValues = FreshValues(
    paperId: string, curatorLogId: string, synthLogId: string, memoryIds: seq<string>, edgeId: nat -> string)

  /**
   * Store failures: the loggers' inserts, the memory insert numbered
   * `memoryFailAt`, and the pipeline write numbered `writeFailAt` (0 is the
   * paper upsert, k + 1 the k-th relation insert).
   */
  datatype Faults = Faults(curatorLogFails: bool, synthLogFails: bool, memoryFailAt: nat, writeFailAt: nat)

  datatype PaperResponse =
    | Unauthorized
    | TitleRequired
    | PaperRejected(paperId: string, curator: CuratorOutput)
    | PaperProcessed(paperId: string, curator: CuratorOutput, synthesizer: SynthOutput)
    | ProcessingFailed(details: string)

  function StatusCode(r: PaperResponse): int {
    match r
    case Unauthorized => 401
    case TitleRequired => 400
    case PaperRejected(_, _) => 200
    case PaperProcessed(_, _, _) => 200
    case ProcessingFailed(_) => 500
  }

  /** `paperId || nanoid()`. */
  function PaperIdFor(req: PaperRequest, generated: string): string {
    if req.paperId != "" then req.paperId else generated
  }

  /** `x || null` for a text field. */
  function OrNull(s: string): Option<string> {
    if s != "" then Some(s) else None
  }

  /** The curator is asked about the request's title, abstract and full text. */
  function CurationRequest(req: PaperRequest): CuratorInput {
    CuratorInput(req.title, req.abstractText, req.fullText)
  }

  /** The synthesizer is asked about the paper, with the curator's tags, against the given peers. */
  function SynthesisRequest(id: string, req: PaperRequest, cur: CuratorOutput, peers: seq<PeerBrief>): SynthInput {
    SynthInput(PaperBrief(id, req.title, req.abstractText, cur.domainTags), peers)
  }

  /** The provider's answer to the curator's prompt for the request. */
  function CuratorAnswer(o: AgentOracles, req: PaperRequest): Call {
    o.curatorCall(CuratorPrompt(CurationRequest(req)))
  }

  /** The provider's answer to the synthesizer's prompt, which lists the approved papers other than this one. */
  function SynthesisAnswer(papers: seq<PaperRow>, id: string, req: PaperRequest, cur: CuratorOutput, o: AgentOracles): Call
    requires ApprovedPeers(papers, id).Success?
  {
    o.synthCall(SynthPrompt(SynthesisRequest(id, req, cur, ApprovedPeers(papers, id).value)))
  }

  /** The decoded curation, when the call succeeded and the text decoded. */
  function Curation(o: AgentOracles, req: PaperRequest): Option<CuratorOutput> {
    var answer := CuratorAnswer(o, req);
    if answer.Answered? then o.decodeCuration(answer.response.text) else None
  }

  /** The decoded synthesis, when the peers loaded, the call succeeded and the text decoded. */
  function Synthesis(papers: seq<PaperRow>, id: string, req: PaperRequest, cur: CuratorOutput, o: AgentOracles)
    : Option<SynthOutput>
  {
    if ApprovedPeers(papers, id).Failure? then None
    else
      var answer := SynthesisAnswer(papers, id, req, cur, o);
      if answer.Answered? then o.decodeSynthesis(answer.response.text) else None
  }

  /** The synthesizer's log rows in the pipeline: only a synthesis that ran and answered logs. */
  function PipelineSynthLog(papers: seq<PaperRow>, id: string, req: PaperRequest, cur: CuratorOutput,
                            o: AgentOracles, f: FreshValues, faults: Faults): seq<AgentLogRow>
  {
    if Synthesis(papers, id, req, cur, o).Some? then
      SynthesizerLog(SynthesisAnswer(papers, id, req, cur, o), id, f.synthLogId, faults.synthLogFails, o.latencyMs, o.now)
    else []
  }

  /** The paper row's columns as the pipeline writes them. */
  function PaperFieldsFor(id: string, req: PaperRequest, cur: CuratorOutput, syn: SynthOutput, now: int): PaperFields {
    PaperFields(
      id, req.title, req.authors,
      if req.year != 0 then Some(req.year) else None,
      OrNull(req.venue), OrNull(req.abstractText), OrNull(req.bibtex),
      cur.relevanceScore, cur.difficulty, TagList(cur.domainTags), TagList(cur.ecosystemTags),
      cur.status, cur.notes,
      syn.summaries.oneLiner, syn.summaries.paragraph, syn.summaries.rich,
      if syn.learningPath.Some? then syn.learningPath.value.prerequisites else [],
      syn, now)
  }

  /** Update the row with this id, keeping its creation time, or insert a new row created now. */
  function UpsertPaper(rows: seq<PaperRow>, fields: PaperFields, now: int): seq<PaperRow> {
    if HasPaper(rows, fields.id) then
      seq(|rows|, j requires 0 <= j < |rows| =>
        if rows[j].fields.id == fields.id then PaperRow(fields, rows[j].createdAt) else rows[j])
    else rows + [PaperRow(fields, now)]
  }

  /**
   * After the upsert the table holds exactly one row with the id, carrying the
   * new columns; an existing row keeps its creation time, and every other row
   * is as it was.
   */
  lemma UpsertPaperEffect(rows: seq<PaperRow>, fields: PaperFields, now: int)
    requires UniquePaperIds(rows)
    ensures var after := UpsertPaper(rows, fields, now);
      UniquePaperIds(after) && HasPaper(after, fields.id) &&
      (forall j :: 0 <= j < |after| && after[j].fields.id == fields.id ==> after[j].fields == fields) &&
      (forall j :: 0 <= j < |rows| && rows[j].fields.id == fields.id ==> after[j] == PaperRow(fields, rows[j].createdAt)) &&
      (forall j :: 0 <= j < |rows| && rows[j].fields.id != fields.id ==> after[j] == rows[j]) &&
      (HasPaper(rows, fields.id) ==> |after| == |rows|) &&
      (!HasPaper(rows, fields.id) ==> after == rows + [PaperRow(fields, now)])
  {
    var after := UpsertPaper(rows, fields, now);
    if HasPaper(rows, fields.id) {
      var j :| 0 <= j < |rows| && rows[j].fields.id == fields.id;
      assert after[j].fields.id == fields.id;
    } else {
      assert after[|rows|].fields.id == fields.id;
    }
  }

  /** Upserting the same paper twice leaves the same single row (up to the columns the second run wrote). */
  lemma UpsertPaperIdempotent(rows: seq<PaperRow>, fields: PaperFields, fields2: PaperFields, now: int, later: int)
    requires UniquePaperIds(rows) && fields2.id == fields.id
    ensures UpsertPaper(UpsertPaper(rows, fields, now), fields2, later) == UpsertPaper(rows, fields2, now)
  {
    UpsertPaperEffect(rows, fields, now);
    var once := UpsertPaper(rows, fields, now);
    if !HasPaper(rows, fields.id) {
      assert once[|rows|].fields.id == fields.id;
    }
  }

  // ---------------------------------------------------------------------------
  // Relations

  /** The proposed relations whose target paper exists, in proposal order. */
  function Kept(papers: seq<PaperRow>, related: seq<ProposedRelation>): seq<ProposedRelation> {
    if related == [] then []
    else
      var last := related[|related| - 1];
      Kept(papers, related[..|related| - 1]) + (if HasPaper(papers, last.paperId) then [last] else [])
  }

  /** The relation rows written for the kept proposals, the k-th under the k-th fresh edge id. */
  function Edges(source: string, kept: seq<ProposedRelation>, edgeId: nat -> string, now: int): seq<RelationRow> {
    seq(|kept|, k requires 0 <= k < |kept| =>
      RelationRow(edgeId(k), source, kept[k].paperId, kept[k].relationship, kept[k].strength, kept[k].explanation, now))
  }

  ghost predicate FreshEdgeIds(rows: seq<RelationRow>, edgeId: nat -> string) {
    (forall i: nat, j: nat :: i != j ==> edgeId(i) != edgeId(j)) &&
    (forall i: nat :: !HasRelationId(rows, edgeId(i)))
  }

  /** No dangling edges: every kept proposal points at a paper that exists, and none that does is dropped. */
  lemma {:induction false} KeptExact(papers: seq<PaperRow>, related: seq<ProposedRelation>)
    ensures forall r :: r in Kept(papers, related) <==> r in related && HasPaper(papers, r.paperId)
    decreases |related|
  {
    if related != [] {
      var init := related[..|related| - 1];
      KeptExact(papers, init);
      assert related == init + [related[|related| - 1]];
    }
  }

  /** Keeping is filtering: the kept proposals of a prefix are a prefix of the kept proposals. */
  lemma {:induction false} KeptPrefix(papers: seq<PaperRow>, related: seq<ProposedRelation>, i: nat)
    requires i <= |related|
    ensures Kept(papers, related[..i]) <= Kept(papers, related)
    decreases |related| - i
  {
    if i < |related| {
      KeptPrefix(papers, related[..|related| - 1], i);
      assert related[..|related| - 1][..i] == related[..i];
    } else {
      assert related[..i] == related;
    }
  }

  /** Because the paper row is written first, a proposed relation to the paper itself is recorded. */
  lemma SelfEdgePasses(rows: seq<PaperRow>, fields: PaperFields, now: int, rel: ProposedRelation)
    requires UniquePaperIds(rows) && rel.paperId == fields.id
    ensures Kept(UpsertPaper(rows, fields, now), [rel]) == [rel]
  {
    UpsertPaperEffect(rows, fields, now);
    assert [rel][..0] == [];
  }

  lemma EdgesUnique(rows: seq<RelationRow>, source: string, kept: seq<ProposedRelation>, edgeId: nat -> string, now: int)
    requires UniqueRelationIds(rows) && FreshEdgeIds(rows, edgeId)
    ensures UniqueRelationIds(rows + Edges(source, kept, edgeId, now))
  {
    var all := rows + Edges(source, kept, edgeId, now);
    forall i, j | 0 <= i < j < |all|
      ensures all[i].id != all[j].id
    {
      if j >= |rows| {
        assert all[j].id == edgeId(j - |rows|);
        if i >= |rows| {
          assert all[i].id == edgeId(i - |rows|);
        } else {
          assert all[i] == rows[i];
          assert !HasRelationId(rows, edgeId(j - |rows|));
        }
      }
    }
  }

  lemma EdgesSnoc(source: string, kept: seq<ProposedRelation>, rel: ProposedRelation, edgeId: nat -> string, now: int)
    ensures Edges(source, kept + [rel], edgeId, now) ==
      Edges(source, kept, edgeId, now) +
      [RelationRow(edgeId(|kept|), source, rel.paperId, rel.relationship, rel.strength, rel.explanation, now)]
  {
  }

  /**
   * The relation loop: for each proposal whose target row exists, insert an
   * edge under the next fresh id; missing targets are skipped and existing
   * edges are never touched. The insert numbered `failAt` fails and ends the
   * loop, keeping the edges written before it.
   */
  method SaveRelations(db: Database, source: string, related: seq<ProposedRelation>,
                       edgeId: nat -> string, now: int, failAt: nat) returns (ok: bool)
    requires db.Valid() && FreshEdgeIds(db.relations, edgeId)
    modifies db`relations
    ensures db.Valid()
    ensures var kept := Kept(db.papers, related);
      ok == (failAt >= |kept|) &&
      db.relations == old(db.relations) + Edges(source, Take(kept, failAt), edgeId, now)
  {
    ghost var start := db.relations;
    var i := 0;
    var inserted := 0;
    assert related[..0] == [];
    while i < |related|
      invariant 0 <= i <= |related| && inserted <= failAt
      invariant inserted == |Kept(db.papers, related[..i])|
      invariant db.relations == start + Edges(source, Kept(db.papers, related[..i]), edgeId, now)
    {
      var rel := related[i];
      assert related[..i + 1][..i] == related[..i];
      assert Kept(db.papers, related[..i + 1]) ==
        Kept(db.papers, related[..i]) + (if HasPaper(db.papers, rel.paperId) then [rel] else []);
      if HasPaper(db.papers, rel.paperId) {
        KeptPrefix(db.papers, related, i + 1);
        if inserted == failAt {
          KeptPrefix(db.papers, related, i);
          EdgesUnique(start, source, Kept(db.papers, related[..i]), edgeId, now);
          return false;
        }
        EdgesSnoc(source, Kept(db.papers, related[..i]), rel, edgeId, now);
        db.relations := db.relations +
          [RelationRow(edgeId(inserted), source, rel.paperId, rel.relationship, rel.strength, rel.explanation, now)];
        inserted := inserted + 1;
      }
      i := i + 1;
    }
    assert related[..i] == related;
    EdgesUnique(start, source, Kept(db.papers, related), edgeId, now);
    ok := true;
  }

  // ---------------------------------------------------------------------------
  // The endpoint

  /** The paper and relation tables after the pipeline, and the synthesis when it ran to the end. */
  datatype Persistence = Persistence(papers: seq<PaperRow>, relations: seq<RelationRow>, answer: Option<SynthOutput>)

  /**
   * What an accepted paper leaves in the two tables: nothing when the peer
   * query or the synthesis fails or the upsert is the failing write; otherwise
   * the upserted paper and the edges inserted before the failing write.
   */
  function Persist(papers: seq<PaperRow>, relations: seq<RelationRow>, id: string, req: PaperRequest,
                   cur: CuratorOutput, o: AgentOracles, f: FreshValues, writeFailAt: nat): Persistence {
    if Synthesis(papers, id, req, cur, o).None? || writeFailAt == 0 then
      Persistence(papers, relations, None)
    else
      var syn := Synthesis(papers, id, req, cur, o).value;
      var upserted := UpsertPaper(papers, PaperFieldsFor(id, req, cur, syn, o.now), o.now);
      var kept := Kept(upserted, syn.relatedPapers);
      Persistence(upserted, relations + Edges(id, Take(kept, writeFailAt - 1), f.edgeId, o.now),
                  if writeFailAt - 1 >= |kept| then Some(syn) else None)
  }

  /**
   * The pipeline only ever adds: existing relations are kept in front, every
   * new edge starts at the paper and ends at a paper in the table, and the
   * paper's row is there whenever an edge was written or the request succeeded.
   */
  lemma PersistNoDanglingEdges(papers: seq<PaperRow>, relations: seq<RelationRow>, id: string, req: PaperRequest,
                               cur: CuratorOutput, o: AgentOracles, f: FreshValues, writeFailAt: nat)
    requires UniquePaperIds(papers)
    ensures var p := Persist(papers, relations, id, req, cur, o, f, writeFailAt);
      relations <= p.relations && UniquePaperIds(p.papers) &&
      (forall k :: |relations| <= k < |p.relations| ==>
        p.relations[k].sourcePaperId == id && HasPaper(p.papers, p.relations[k].targetPaperId)) &&
      (p.answer.Some? || |p.relations| > |relations| ==> HasPaper(p.papers, id))
  {
    var p := Persist(papers, relations, id, req, cur, o, f, writeFailAt);
    if !(Synthesis(papers, id, req, cur, o).None? || writeFailAt == 0) {
      var syn := Synthesis(papers, id, req, cur, o).value;
      var fields := PaperFieldsFor(id, req, cur, syn, o.now);
      UpsertPaperEffect(papers, fields, o.now);
      var upserted := UpsertPaper(papers, fields, o.now);
      var kept := Kept(upserted, syn.relatedPapers);
      KeptExact(upserted, syn.relatedPapers);
      var written := Take(kept, writeFailAt - 1);
      forall k | |relations| <= k < |p.relations|
        ensures p.relations[k].sourcePaperId == id && HasPaper(p.papers, p.relations[k].targetPaperId)
      {
        assert p.relations[k].targetPaperId == written[k - |relations|].paperId;
        assert written[k - |relations|] == kept[k - |relations|];
        assert kept[k - |relations|] in kept;
      }
    }
  }

  /** A paper the library already holds keeps its creation time and its place when processed again. */
  lemma PersistKeepsCreation(papers: seq<PaperRow>, relations: seq<RelationRow>, id: string, req: PaperRequest,
                             cur: CuratorOutput, o: AgentOracles, f: FreshValues, writeFailAt: nat, j: nat)
    requires UniquePaperIds(papers) && j < |papers| && papers[j].fields.id == id
    ensures var p := Persist(papers, relations, id, req, cur, o, f, writeFailAt);
      |p.papers| == |papers| && p.papers[j].createdAt == papers[j].createdAt &&
      (p.papers != papers ==> p.papers[j].fields.processedAt == o.now)
  {
    if !(Synthesis(papers, id, req, cur, o).None? || writeFailAt == 0) {
      UpsertPaperEffect(papers, PaperFieldsFor(id, req, cur, Synthesis(papers, id, req, cur, o).value, o.now), o.now);
    }
  }

  /**
   * Synthesizes the accepted (approved or needs-review) paper against its
   * peers and persists the outcome: the upsert, then the relation loop.
   */
  method CompletePaper(db: Database, cache: ModelCache, id: string, req: PaperRequest, cur: CuratorOutput,
                       o: AgentOracles, f: FreshValues, faults: Faults) returns (resp: PaperResponse)
    requires db.Valid() && cache.Valid() && FreshEdgeIds(db.relations, f.edgeId)
    modifies db`papers, db`relations, db`agentLogs, cache
    ensures db.Valid() && cache.Valid()
    ensures ApprovedPeers(old(db.papers), id).Failure? ==>
      resp.ProcessingFailed? && unchanged(db) && unchanged(cache)
    ensures db.agentLogs == old(db.agentLogs) + PipelineSynthLog(old(db.papers), id, req, cur, o, f, faults)
    ensures var p := Persist(old(db.papers), old(db.relations), id, req, cur, o, f, faults.writeFailAt);
      db.papers == p.papers && db.relations == p.relations &&
      (p.answer.Some? ==> resp == PaperProcessed(id, cur, p.answer.value)) &&
      (p.answer.None? ==> resp.ProcessingFailed?)
  {
    var peers := ApprovedPeers(db.papers, id);
    if peers.Failure? {
      return ProcessingFailed(peers.error);
    }
    var input := SynthesisRequest(id, req, cur, peers.value);
    var synthesized := SynthesizePaper(db, cache, input, o.env, o.synthToken, o.synthCall, o.decodeSynthesis,
                                       f.synthLogId, faults.synthLogFails, o.latencyMs, o.now);
    if synthesized.Failure? {
      return ProcessingFailed(synthesized.error);
    }
    var syn := synthesized.value;
    if faults.writeFailAt == 0 {
      return ProcessingFailed("paper write failed");
    }
    var ok := WritePaper(db, PaperFieldsFor(id, req, cur, syn, o.now), syn.relatedPapers, f.edgeId, o.now,
                         faults.writeFailAt - 1);
    if !ok {
      return ProcessingFailed("relation write failed");
    }
    resp := PaperProcessed(id, cur, syn);
  }

  /** The upsert of the paper's row, then the relation loop against the updated table. */
  method WritePaper(db: Database, fields: PaperFields, related: seq<ProposedRelation>, edgeId: nat -> string,
                    now: int, failAt: nat) returns (ok: bool)
    requires db.Valid() && FreshEdgeIds(db.relations, edgeId)
    modifies db`papers, db`relations
    ensures db.Valid()
    ensures db.papers == UpsertPaper(old(db.papers), fields, now)
    ensures var kept := Kept(db.papers, related);
      ok == (failAt >= |kept|) &&
      db.relations == old(db.relations) + Edges(fields.id, Take(kept, failAt), edgeId, now)
  {
    UpsertPaperEffect(db.papers, fields, now);
    db.papers := UpsertPaper(db.papers, fields, now);
    ok := SaveRelations(db, fields.id, related, edgeId, now, failAt);
  }

  /**
   * `POST /api/agents/process-paper`. Without a session user: 401, nothing
   * done. An unreadable body is a 500 and a missing title a 400, both before
   * any agent runs. A failed curation is a 500. A rejection answers 200
   * `rejected` without synthesizing or writing any paper or relation; every
   * other status goes on to `CompletePaper`. Nothing written is rolled back.
   */
  method ProcessPaper(db: Database, cache: ModelCache, userId: Option<string>, body: Option<PaperRequest>,
                      o: AgentOracles, f: FreshValues, faults: Faults) returns (resp: PaperResponse)
    requires db.Valid() && cache.Valid()
    requires |f.memoryIds| >= 2 && FreshMemoryIds(db.memories, f.memoryIds)
    requires FreshEdgeIds(db.relations, f.edgeId)
    modifies db`papers, db`relations, db`memories, db`agentLogs, cache
    ensures db.Valid() && cache.Valid()
    ensures userId.None? || userId.value == "" ==> resp == Unauthorized && unchanged(db) && unchanged(cache)
    ensures userId.Some? && userId.value != "" && body.None? ==>
      resp.ProcessingFailed? && unchanged(db) && unchanged(cache)
    ensures userId.Some? && userId.value != "" && body.Some? && body.value.title == "" ==>
      resp == TitleRequired && unchanged(db) && unchanged(cache)
    ensures userId.Some? && userId.value != "" && body.Some? && body.value.title != "" && Curation(o, body.value).None? ==>
      resp.ProcessingFailed? && db.papers == old(db.papers) && db.relations == old(db.relations) &&
      db.memories == old(db.memories) && db.agentLogs == old(db.agentLogs)
    ensures userId.Some? && userId.value != "" && body.Some? && body.value.title != "" && Curation(o, body.value).Some? ==>
      var req := body.value;
      var id := PaperIdFor(req, f.paperId);
      var cur := Curation(o, req).value;
      var p := Persist(old(db.papers), old(db.relations), id, req, cur, o, f, faults.writeFailAt);
      var curatorLog := CuratorLog(CuratorAnswer(o, req), f.curatorLogId, faults.curatorLogFails, o.latencyMs, o.now);
      db.memories == old(db.memories) + PendingRows(
        Take(LearnPlan(CurationRequest(req), cur,
                         o.relevancePct, o.accessibilityPct, Contents(old(db.memories))), faults.memoryFailAt),
        f.memoryIds, o.now) &&
      (cur.status == Rejected ==>
        resp == PaperRejected(id, cur) && db.papers == old(db.papers) && db.relations == old(db.relations) &&
        db.agentLogs == old(db.agentLogs) + curatorLog) &&
      (cur.status != Rejected ==>
        db.agentLogs == old(db.agentLogs) + curatorLog + PipelineSynthLog(old(db.papers), id, req, cur, o, f, faults) &&
        db.papers == p.papers && db.relations == p.relations &&
        (p.answer.Some? ==> resp == PaperProcessed(id, cur, p.answer.value)) &&
        (p.answer.None? ==> resp.ProcessingFailed?))
  {
    if userId.None? || userId.value == "" {
      return Unauthorized;
    }
    if body.None? {
      return ProcessingFailed("request body is not valid JSON");
    }
    var req := body.value;
    if req.title == "" {
      return TitleRequired;
    }
    var id := PaperIdFor(req, f.paperId);
    var curated := CuratePaper(db, cache, CurationRequest(req), o.env, o.curatorToken,
                               o.curatorCall, o.decodeCuration, o.relevancePct, o.accessibilityPct,
                               f.curatorLogId, faults.curatorLogFails, o.latencyMs, o.now, f.memoryIds, faults.memoryFailAt);
    if curated.Failure? {
      return ProcessingFailed(curated.error);
    }
    var cur := curated.value;
    if cur.status == Rejected {
      return PaperRejected(id, cur);
    }
    resp := CompletePaper(db, cache, id, req, cur, o, f, faults);
  }
}
