/**
 * `POST /api/agents/synthesize`: run the synthesizer alone on a paper the
 * caller describes, against the approved library; the only write is the
 * synthesizer's log row.
 */
module SynthesizeApi {
  import opened Wrappers
  import opened AgentTypes
  import opened Store
  import opened ModelCache
  import opened Synthesizer
  import opened Peers

  /** The request body; an absent tag list is `None`. */
  datatype SynthesizeRequest = SynthesizeRequest(
    paperId: string, title: string, abstractText: string, domainTags: Option<seq<string>>)

  datatype SynthesizeResponse =
    | Unauthorized
    | FieldsRequired
    | Synthesized(result: SynthOutput)
    | SynthesisFailed(details: string)

  function StatusCode(r: SynthesizeResponse): int {
    match r
    case Unauthorized => 401
    case FieldsRequired => 400
    case Synthesized(_) => 200
    case SynthesisFailed(_) => 500
  }

  /** The three fields the endpoint insists on are all non-empty. */
  predicate Complete(req: SynthesizeRequest) {
    req.paperId != "" && req.title != "" && req.abstractText != ""
  }

  /** The synthesizer's input: the described paper (tags default to none) and its approved peers. */
  function RequestInput(req: SynthesizeRequest, peers: seq<PeerBrief>): (r: SynthInput)
    ensures r.paper.id == req.paperId && r.existingPapers == peers
    ensures req.domainTags.None? ==> r.paper.domainTags == []
    ensures req.domainTags.Some? ==> r.paper.domainTags == req.domainTags.value
  {
    SynthInput(PaperBrief(req.paperId, req.title, req.abstractText, req.domainTags.GetOr([])), peers)
  }

  /**
   * Without a session user: 401; an unreadable body: 500; a missing paper id,
   * title or abstract: 400 — none of them touching anything. Otherwise the
   * peer query and the synthesis, asked with a prompt listing exactly the
   * approved papers other than this one, decide between 200 with the result and 500;
   * only a completed model call writes, and only its log row.
   */
  method Synthesize(db: Database, cache: ModelCache, userId: Option<string>, body: Option<SynthesizeRequest>,
                    env: Env, token: nat, call: Provider, decode: string -> Option<SynthOutput>,
                    logId: string, logFails: bool, latencyMs: int, now: int)
    returns (resp: SynthesizeResponse)
    requires cache.Valid()
    modifies db`agentLogs, cache
    ensures cache.Valid()
    ensures userId.None? || userId.value == "" ==> resp == Unauthorized && unchanged(db) && unchanged(cache)
    ensures userId.Some? && userId.value != "" && body.None? ==>
      resp.SynthesisFailed? && unchanged(db) && unchanged(cache)
    ensures userId.Some? && userId.value != "" && body.Some? && !Complete(body.value) ==>
      resp == FieldsRequired && unchanged(db) && unchanged(cache)
    ensures userId.Some? && userId.value != "" && body.Some? && Complete(body.value) ==>
      var peers := ApprovedPeers(db.papers, body.value.paperId);
      (peers.Failure? ==> resp.SynthesisFailed? && unchanged(db) && unchanged(cache)) &&
      (peers.Success? ==>
        var answer := call(SynthPrompt(RequestInput(body.value, peers.value)));
        ((answer.CallFailed? || decode(answer.response.text).None?) ==>
          resp.SynthesisFailed? && db.agentLogs == old(db.agentLogs)) &&
        (answer.Answered? && decode(answer.response.text).Some? ==>
          resp == Synthesized(decode(answer.response.text).value) &&
          db.agentLogs == old(db.agentLogs) + SynthesizerLog(answer, body.value.paperId, logId, logFails, latencyMs, now)))
  {
    if userId.None? || userId.value == "" {
      return Unauthorized;
    }
    if body.None? {
      return SynthesisFailed("request body is not valid JSON");
    }
    var req := body.value;
    if !Complete(req) {
      return FieldsRequired;
    }
    var peers := ApprovedPeers(db.papers, req.paperId);
    if peers.Failure? {
      return SynthesisFailed(peers.error);
    }
    var result := SynthesizePaper(db, cache, RequestInput(req, peers.value), env, token, call, decode,
                                  logId, logFails, latencyMs, now);
    if result.Failure? {
      return SynthesisFailed(result.error);
    }
    resp := Synthesized(result.value);
  }

  /**
   * The peers the endpoint synthesizes against never include the paper
   * itself, and are exactly the approved rows' briefs in table order.
   */
  lemma SynthesizePeersAreLibrary(rows: seq<PaperRow>, req: SynthesizeRequest)
    requires ApprovedPeers(rows, req.paperId).Success?
    ensures var input := RequestInput(req, ApprovedPeers(rows, req.paperId).value);
      |input.existingPapers| == |PeerRows(rows, req.paperId)| &&
      (forall k :: 0 <= k < |input.existingPapers| ==>
        input.existingPapers[k].id != req.paperId &&
        input.existingPapers[k].id == PeerRows(rows, req.paperId)[k].fields.id)
  {
    ApprovedPeersMatchRows(rows, req.paperId);
    PeersExcludeSelf(rows, req.paperId);
  }
}
