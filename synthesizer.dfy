/**
 * The synthesizer agent: the prompt that presents a new paper together with
 * the library it may relate to, and the single log row per call.
 */
module Synthesizer {
  import opened Wrappers
  import opened Text
  import opened AgentTypes
  import opened Store
  import opened ModelCache

  const SynthesizerCacheName: string := "synthesizer"
  const SynthesizerLogModel: string := "gemini-2.5-flash-lite"

  /** The synthesizer's system instruction; its wording (prompt.ts) is not part of this model. */
  const SynthesizerInstruction: string := "synthesizer system instruction"

  /** What the prompt says when the library is empty. */
  const NoPeers: string := "No existing papers yet."

  /** One library line: `- ID: id, Title: title, Tags: t1, t2`. */
  function PeerLine(p: PeerBrief): string {
    "- ID: " + p.id + ", Title: " + p.title + ", Tags: " + Join(p.domainTags, ", ")
  }

  function PeerLines(peers: seq<PeerBrief>): (r: seq<string>)
    ensures |r| == |peers| && forall i :: 0 <= i < |peers| ==> r[i] == PeerLine(peers[i])
  {
    seq(|peers|, i requires 0 <= i < |peers| => PeerLine(peers[i]))
  }

  /** The library section: one line per peer joined by newlines, or the empty-library sentence. */
  function Listing(peers: seq<PeerBrief>): string {
    if |peers| > 0 then Join(PeerLines(peers), "\n") else NoPeers
  }

  function SynthPromptHead(paper: PaperBrief): string {
    "Synthesize this paper:\n\nNEW PAPER:\n- ID: " + paper.id + "\n- Title: " + paper.title +
    "\n- Abstract: " + paper.abstractText + "\n- Domain tags: " + Join(paper.domainTags, ", ") +
    "\n\nEXISTING PAPERS IN THE LIBRARY:\n"
  }

  const SynthPromptTail: string :=
    "\n\nGenerate summaries (especially a good nyakupfuya!) and identify any relationships with existing papers."

  function SynthPrompt(input: SynthInput): string {
    SynthPromptHead(input.paper) + Listing(input.existingPapers) + SynthPromptTail
  }

  /** `parts.join(sep)` grows at the back: the last part comes after all the others. */
  lemma {:induction false} JoinSnoc(parts: seq<string>, x: string, sep: string)
    requires |parts| > 0
    ensures Join(parts + [x], sep) == Join(parts, sep) + sep + x
    decreases |parts|
  {
    if |parts| == 1 {
      assert parts + [x] == [parts[0], x];
      assert (parts + [x])[1..] == [x];
    } else {
      assert (parts + [x])[1..] == parts[1..] + [x];
      JoinSnoc(parts[1..], x, sep);
    }
  }

  /** The library listing keeps the input order: adding a peer at the end adds its line at the end. */
  lemma ListingAppends(peers: seq<PeerBrief>, p: PeerBrief)
    ensures |peers| == 0 ==> Listing(peers + [p]) == PeerLine(p)
    ensures |peers| > 0 ==> Listing(peers + [p]) == Listing(peers) + "\n" + PeerLine(p)
  {
    assert PeerLines(peers + [p]) == PeerLines(peers) + [PeerLine(p)];
    if |peers| > 0 {
      JoinSnoc(PeerLines(peers), PeerLine(p), "\n");
    }
  }

  /**
   * The prompt presents the library: the empty-library sentence when there are
   * no peers, otherwise every peer's line.
   */
  lemma SynthPromptListsLibrary(input: SynthInput)
    ensures |input.existingPapers| == 0 ==> Contains(SynthPrompt(input), NoPeers)
    ensures forall i :: 0 <= i < |input.existingPapers| ==> Contains(SynthPrompt(input), PeerLine(input.existingPapers[i]))
  {
    var head := SynthPromptHead(input.paper);
    var listing := Listing(input.existingPapers);
    var peers := input.existingPapers;
    if |peers| == 0 {
      ContainsPrefix(NoPeers, NoPeers);
      ContainsExtend(head, listing, NoPeers);
      ContainsExtend(head + listing, SynthPromptTail, NoPeers);
    }
    forall i | 0 <= i < |peers|
      ensures Contains(SynthPrompt(input), PeerLine(peers[i]))
    {
      JoinContainsPart(PeerLines(peers), "\n", i);
      ContainsExtend(head, listing, PeerLine(peers[i]));
      ContainsExtend(head + listing, SynthPromptTail, PeerLine(peers[i]));
    }
  }

  /** With peers, the empty-library sentence is not the listing. */
  lemma ListingWithPeers(peers: seq<PeerBrief>)
    requires |peers| > 0
    ensures Listing(peers) == Join(PeerLines(peers), "\n") && Contains(Listing(peers), PeerLine(peers[0]))
  {
    JoinContainsPart(PeerLines(peers), "\n", 0);
  }

  /** The log row of one synthesis; an empty paper id is stored as null. */
  function SynthesizerLogRow(logId: string, paperId: string, usage: Usage, latencyMs: int, now: int): AgentLogRow {
    AgentLogRow(logId, if paperId != "" then Some(paperId) else None, "synthesizer", SynthesizerLogModel,
                usage.tokensIn, usage.tokensOut, latencyMs, now)
  }

  /** What the logger appends for an answered call: one row, or none when its insert fails (the error is swallowed). */
  function SynthesizerLog(call: Call, paperId: string, logId: string, logFails: bool, latencyMs: int, now: int)
    : seq<AgentLogRow>
    requires call.Answered?
  {
    if logFails then [] else [SynthesizerLogRow(logId, paperId, ZeroFilled(call.response.meta), latencyMs, now)]
  }

  /**
   * `synthesizePaper`: one call about the prompt that lists the peers,
   * through the cached `synthesizer` handle, one
   * log row (unless the logger's insert fails, which it swallows), and the
   * decoded result returned as it is: proposed relations are not checked
   * against the library here.
   */
  method SynthesizePaper(db: Database, cache: ModelCache, input: SynthInput, env: Env, token: nat,
                         call: Provider, decode: string -> Option<SynthOutput>,
                         logId: string, logFails: bool, latencyMs: int, now: int)
    returns (r: Result<SynthOutput>)
    requires cache.Valid()
    modifies db`agentLogs, cache
    ensures cache.Valid() && SynthesizerCacheName in cache.handles
    ensures SynthesizerCacheName in old(cache.handles) ==> cache.handles == old(cache.handles)
    ensures var answer := call(SynthPrompt(input));
      (answer.CallFailed? || decode(answer.response.text).None?) ==>
      r.Failure? && db.agentLogs == old(db.agentLogs)
    ensures var answer := call(SynthPrompt(input));
      answer.Answered? && decode(answer.response.text).Some? ==>
      r == Success(decode(answer.response.text).value) &&
      db.agentLogs == old(db.agentLogs) + SynthesizerLog(answer, input.paper.id, logId, logFails, latencyMs, now)
  {
    var response := cache.GenerateJson(SynthesizerCacheName, SynthesizerInstruction, SynthPrompt(input), env, token, call, decode);
    if response.Failure? {
      return Failure(response.error);
    }
    if !logFails {
      db.agentLogs := db.agentLogs + [SynthesizerLogRow(logId, input.paper.id, response.value.usage, latencyMs, now)];
    }
    r := Success(response.value.result);
  }
}
