/**
 * The curator agent: the prompt it sends, the one log row per call, and the
 * three rules by which a curation leaves pending memories behind.
 */
module Curator {
  import opened Wrappers
  import opened Text
  import opened AgentTypes
  import opened Store
  import opened ModelCache
  import opened PendingMemory

  const CuratorCacheName: string := "curator"

  /** The model name written to the log, which differs from the one the cached handle uses. */
  const CuratorLogModel: string := "gemini-2.0-flash-exp"

  /** The curator's system instruction; its wording (prompt.ts) is not part of this model. */
  const CuratorInstruction: string := "curator system instruction"

  /** How many characters of the full text go into the prompt. */
  const ExcerptLength: nat := 2000

  function TitleLine(title: string): string {
    "Title: " + title
  }

  /** What the prompt says in place of a missing abstract. */
  const NoAbstract: string := "Not provided"

  /** `Abstract: ` followed by the abstract, or by `Not provided` when there is none. */
  function AbstractLine(abstractText: string): string {
    "Abstract: " + (if abstractText != "" then abstractText else NoAbstract)
  }

  /** The fixed part of the prompt: title and abstract. */
  function CuratorPromptHead(input: CuratorInput): string {
    "Curate this paper:\n\n" + TitleLine(input.title) + "\n\n" + AbstractLine(input.abstractText) + "\n\n"
  }

  /** The excerpt line, present only for a non-empty full text. */
  function Excerpt(fullText: string): string {
    if fullText != "" then "Full text excerpt: " + Take(fullText, ExcerptLength) + "..." else ""
  }

  function CuratorPrompt(input: CuratorInput): string {
    CuratorPromptHead(input) + Excerpt(input.fullText)
  }

  lemma HeadMentionsTitle(input: CuratorInput)
    ensures Contains(CuratorPromptHead(input), TitleLine(input.title))
  {
    var title := TitleLine(input.title);
    var abstractLine := AbstractLine(input.abstractText);
    ContainsPrefix(title, title);
    ContainsExtend("Curate this paper:\n\n", title, title);
    ContainsExtend("Curate this paper:\n\n" + title, "\n\n", title);
    ContainsExtend("Curate this paper:\n\n" + title + "\n\n", abstractLine, title);
    ContainsExtend("Curate this paper:\n\n" + title + "\n\n" + abstractLine, "\n\n", title);
  }

  lemma HeadMentionsAbstract(input: CuratorInput)
    ensures Contains(CuratorPromptHead(input), AbstractLine(input.abstractText))
  {
    var start := "Curate this paper:\n\n" + TitleLine(input.title) + "\n\n";
    var abstractLine := AbstractLine(input.abstractText);
    ContainsPrefix(abstractLine, abstractLine);
    ContainsExtend(start, abstractLine, abstractLine);
    ContainsExtend(start + abstractLine, "\n\n", abstractLine);
  }

  /** The prompt names the title, and the abstract or `Not provided` in its place. */
  lemma CuratorPromptMentions(input: CuratorInput)
    ensures Contains(CuratorPrompt(input), "Title: " + input.title)
    ensures input.abstractText != "" ==> Contains(CuratorPrompt(input), "Abstract: " + input.abstractText)
    ensures input.abstractText == "" ==> Contains(CuratorPrompt(input), "Abstract: " + NoAbstract)
  {
    HeadMentionsTitle(input);
    HeadMentionsAbstract(input);
    ContainsExtend(CuratorPromptHead(input), Excerpt(input.fullText), TitleLine(input.title));
    ContainsExtend(CuratorPromptHead(input), Excerpt(input.fullText), AbstractLine(input.abstractText));
  }

  /**
   * After the fixed part the prompt holds the excerpt line, with at most the
   * first 2000 characters of the full text, exactly when there is a full text.
   */
  lemma CuratorPromptExcerpt(input: CuratorInput)
    ensures CuratorPromptHead(input) <= CuratorPrompt(input)
    ensures input.fullText == "" ==> CuratorPrompt(input) == CuratorPromptHead(input)
    ensures input.fullText != "" ==>
      Contains(CuratorPrompt(input), "Full text excerpt: " + Take(input.fullText, ExcerptLength)) &&
      |CuratorPrompt(input)| == |CuratorPromptHead(input)| + 22 + (if |input.fullText| < 2000 then |input.fullText| else 2000)
  {
    if input.fullText != "" {
      var line := "Full text excerpt: " + Take(input.fullText, ExcerptLength);
      assert Excerpt(input.fullText) == line + "...";
      ContainsPrefix(line + "...", line);
      ContainsExtend(CuratorPromptHead(input), line + "...", line);
    }
  }

  // ---------------------------------------------------------------------------
  // Memory learning

  /** The query the high-relevance rule checks before adding its memory. */
  const RelevanceProbe: string := "high relevance low accessibility"

  function RejectionObservation(title: string, notes: string): string {
    "Paper \"" + Take(title, 50) + "...\" was rejected. Reason: " + notes
  }

  /** `relevancePct` and `accessibilityPct` are the scores rendered by `toFixed(0)`, kept opaque. */
  function RelevanceObservation(relevancePct: string, accessibilityPct: string, domainTags: seq<string>): string {
    "Paper has high relevance " + "(" + relevancePct + "%" + ") but low accessibility " + "(" + accessibilityPct +
    "%" + "). Domain" + ":" + " " + Join(domainTags, ", ")
  }

  function EcosystemObservation(ecosystemTags: seq<string>, domainTags: seq<string>): string {
    "Paper tagged with ecosystem: " + Join(ecosystemTags, ", ") + ". Domain tags: " + Join(domainTags, ", ") +
    ". This combination was approved."
  }

  function RejectionMemory(input: CuratorInput, result: CuratorOutput): CreateMemoryInput {
    CreateMemoryInput(Episodic, RejectionObservation(input.title, result.notes), Some(0.6), CuratorAgent,
                      Some(Evidence(None, Some([result.notes]))))
  }

  function RelevanceMemory(result: CuratorOutput, relevancePct: string, accessibilityPct: string): CreateMemoryInput {
    var observation := RelevanceObservation(relevancePct, accessibilityPct, result.domainTags);
    CreateMemoryInput(Semantic, observation, Some(0.5), CuratorAgent, Some(Evidence(None, Some([observation]))))
  }

  function EcosystemMemory(result: CuratorOutput): CreateMemoryInput {
    CreateMemoryInput(Semantic, EcosystemObservation(result.ecosystemTags, result.domainTags), Some(0.5), CuratorAgent,
                      Some(Evidence(None, Some(["Ecosystem: " + Join(result.ecosystemTags, ", "),
                                               "Domains: " + Join(result.domainTags, ", ")]))))
  }

  /** Rule 1: a rejection with notes that no stored memory resembles. */
  predicate RejectionRuleFires(result: CuratorOutput, stored: seq<string>) {
    result.status == Rejected && result.notes != "" && !MemoryExists(stored, result.notes)
  }

  /** Rule 2: relevance above 0.7 and accessibility below 0.4, unless the fixed probe matches. */
  predicate RelevanceRuleFires(result: CuratorOutput, stored: seq<string>) {
    result.relevanceScore > 0.7 && result.accessibilityScore < 0.4 && !MemoryExists(stored, RelevanceProbe)
  }

  /** Rule 3: an approval with ecosystem tags, never deduplicated. */
  predicate EcosystemRuleFires(result: CuratorOutput) {
    |result.ecosystemTags| > 0 && result.status == Approved
  }

  function FirstRule(input: CuratorInput, result: CuratorOutput, stored: seq<string>): seq<CreateMemoryInput> {
    if RejectionRuleFires(result, stored) then [RejectionMemory(input, result)] else []
  }

  /** What rule 2 sees: the stored contents plus the memory rule 1 just added, if any. */
  function SeenBySecond(input: CuratorInput, result: CuratorOutput, stored: seq<string>): seq<string> {
    stored + (if RejectionRuleFires(result, stored) then [RejectionObservation(input.title, result.notes)] else [])
  }

  function SecondRule(result: CuratorOutput, relevancePct: string, accessibilityPct: string, seen: seq<string>): seq<CreateMemoryInput> {
    if RelevanceRuleFires(result, seen) then [RelevanceMemory(result, relevancePct, accessibilityPct)] else []
  }

  function ThirdRule(result: CuratorOutput): seq<CreateMemoryInput> {
    if EcosystemRuleFires(result) then [EcosystemMemory(result)] else []
  }

  /**
   * The memories one curation asks for, in order, given the contents stored
   * beforehand; rule 2 already sees the memory rule 1 added.
   */
  function LearnPlan(input: CuratorInput, result: CuratorOutput, relevancePct: string, accessibilityPct: string,
                     stored: seq<string>): seq<CreateMemoryInput> {
    FirstRule(input, result, stored) +
    SecondRule(result, relevancePct, accessibilityPct, SeenBySecond(input, result, stored)) +
    ThirdRule(result)
  }

  /** Rules 1 and 3 exclude each other, so a curation asks for at most two memories. */
  lemma LearnPlanShape(input: CuratorInput, result: CuratorOutput, relevancePct: string, accessibilityPct: string,
                       stored: seq<string>)
    ensures var plan := LearnPlan(input, result, relevancePct, accessibilityPct, stored);
      |plan| <= 2 &&
      (EcosystemRuleFires(result) ==> plan[|plan| - 1] == EcosystemMemory(result)) &&
      (RejectionRuleFires(result, stored) ==> plan[0] == RejectionMemory(input, result)) &&
      (result.status == Rejected && result.notes == "" ==> forall m :: m in plan ==> m.kind == Semantic)
  {
  }

  /** Once the rejection memory is stored, the same notes (under any title) add no second one. */
  lemma RejectionRuleIdempotent(input: CuratorInput, result: CuratorOutput, stored: seq<string>, later: seq<string>)
    requires forall s :: s in stored + [RejectionObservation(input.title, result.notes)] ==> s in later
    ensures !RejectionRuleFires(result, later)
  {
    var observation := RejectionObservation(input.title, result.notes);
    var prefix := "Paper \"" + Take(input.title, 50) + "...\" was rejected. Reason: ";
    assert observation == prefix + result.notes + "";
    ContainsMiddle(prefix, result.notes, "");
    var all := stored + [observation];
    StoredContentDetected(all, result.notes, |stored|);
    MemoryExistsMonotone(all, later, result.notes);
  }

  lemma LowerSplit(a: string, c: char, b: string)
    requires !IsAsciiUpper(c)
    ensures Lower(a + [c] + b) == Lower(a) + [c] + Lower(b)
  {
    LowerConcat(a + [c], b);
    LowerConcat(a, [c]);
  }

  lemma ProbeTrimmed()
    ensures TrimStart(Lower(RelevanceProbe)) == Lower(RelevanceProbe)
    ensures TrimEnd(Lower(RelevanceProbe)) == Lower(RelevanceProbe)
  {
    var q := Lower(RelevanceProbe);
    assert RelevanceProbe[0] == 'h' && RelevanceProbe[31] == 'y';
    assert q[0] == 'h' && q[31] == 'y';
  }

  /** The probe needs no normalising, and it avoids the punctuation of the observation rule 2 writes. */
  lemma ProbeFacts()
    ensures Take(Trim(Lower(RelevanceProbe)), ProbeLength) == Lower(RelevanceProbe)
    ensures |Lower(RelevanceProbe)| == 32 && Lower(RelevanceProbe)[0] == 'h'
    ensures '(' !in Lower(RelevanceProbe) && '%' !in Lower(RelevanceProbe) && ':' !in Lower(RelevanceProbe)
  {
    ProbeTrimmed();
    assert RelevanceProbe[0] == 'h';
    ProbeAvoidsSeparators();
  }

  lemma ProbeAvoidsSeparators()
    ensures '(' !in Lower(RelevanceProbe) && '%' !in Lower(RelevanceProbe) && ':' !in Lower(RelevanceProbe)
  {
    var p := RelevanceProbe;
    assert forall i :: 0 <= i < |p| ==> IsAsciiLower(p[i]) || p[i] == ' ';
    LowerOfLowered(p);
  }

  /** Lower-casing around a separator the probe does not contain keeps the probe out. */
  lemma MissesAcross(pre: string, c: char, rest: string)
    requires |pre| < 32 && (c == '(' || c == '%' || c == ':')
    requires !Contains(Lower(rest), Lower(RelevanceProbe))
    ensures !Contains(Lower(pre + [c] + rest), Lower(RelevanceProbe))
  {
    ProbeFacts();
    TooShortToContain(Lower(pre), Lower(RelevanceProbe));
    NotAcross(Lower(pre), c, Lower(rest), Lower(RelevanceProbe));
    LowerSplit(pre, c, rest);
  }

  /** The observation of rule 2 cut at its separators `(`, `%` and `:`. */
  lemma RelevanceObservationPieces(relevancePct: string, accessibilityPct: string, tags: seq<string>)
    ensures RelevanceObservation(relevancePct, accessibilityPct, tags) ==
      "Paper has high relevance " + ['('] + (relevancePct + ['%'] + (") but low accessibility " + ['('] +
      (accessibilityPct + ['%'] + ("). Domain" + [':'] + (" " + Join(tags, ", "))))))
  {
  }

  /**
   * The memory rule 2 writes never matches the probe rule 2 checks: unless the
   * domain tags themselves spell out the probe, the rule does not recognise its
   * own earlier output (percentages are at most a few characters long).
   */
  lemma RelevanceObservationMissesProbe(relevancePct: string, accessibilityPct: string, domainTags: seq<string>)
    requires |relevancePct| < 32 && |accessibilityPct| < 32
    requires !Contains(Lower(Join(domainTags, ", ")), Lower(RelevanceProbe))
    ensures !Similar(RelevanceObservation(relevancePct, accessibilityPct, domainTags), RelevanceProbe)
  {
    ProbeFacts();
    var q := Lower(RelevanceProbe);
    var tags := Join(domainTags, ", ");
    var tail4 := " " + tags;
    var tail3 := "). Domain" + [':'] + tail4;
    var tail2 := accessibilityPct + ['%'] + tail3;
    var tail1 := ") but low accessibility " + ['('] + tail2;
    var tail0 := relevancePct + ['%'] + tail1;
    LowerConcat(" ", tags);
    assert Lower(tail4)[1..] == Lower(tags);
    assert !(q <= Lower(tail4)) by {
      assert Lower(tail4)[0] == ' ';
    }
    assert !Contains(Lower(tail4), q);
    MissesAcross("). Domain", ':', tail4);
    MissesAcross(accessibilityPct, '%', tail3);
    MissesAcross(") but low accessibility ", '(', tail2);
    MissesAcross(relevancePct, '%', tail1);
    MissesAcross("Paper has high relevance ", '(', tail0);
    var obs := RelevanceObservation(relevancePct, accessibilityPct, domainTags);
    RelevanceObservationPieces(relevancePct, accessibilityPct, domainTags);
    assert !Contains(Lower(obs), q);
    assert |Lower(obs)| >= 50;
    TooShortToContain(Trim(Lower(RelevanceProbe)), Take(Lower(obs), ProbeLength));
  }

  /** Hence a store that did not match the probe still does not after rule 2 has written to it. */
  lemma RelevanceRuleRepeats(stored: seq<string>, result: CuratorOutput, relevancePct: string, accessibilityPct: string)
    requires |relevancePct| < 32 && |accessibilityPct| < 32
    requires !Contains(Lower(Join(result.domainTags, ", ")), Lower(RelevanceProbe))
    requires RelevanceRuleFires(result, stored)
    ensures RelevanceRuleFires(result, stored + [RelevanceMemory(result, relevancePct, accessibilityPct).content])
  {
    RelevanceObservationMissesProbe(relevancePct, accessibilityPct, result.domainTags);
    var more := stored + [RelevanceMemory(result, relevancePct, accessibilityPct).content];
    forall i | 0 <= i < |more|
      ensures !Similar(more[i], RelevanceProbe)
    {
      if i < |stored| {
        assert more[i] == stored[i];
      }
    }
  }

  // ---------------------------------------------------------------------------
  // Effects on the store

  /** The rows the planned memories become, the k-th under the k-th fresh id. */
  function PendingRows(plan: seq<CreateMemoryInput>, ids: seq<string>, now: int): seq<MemoryRow>
    requires |plan| <= |ids|
  {
    seq(|plan|, k requires 0 <= k < |plan| => PendingRow(plan[k], ids[k], now))
  }

  predicate FreshMemoryIds(rows: seq<MemoryRow>, ids: seq<string>) {
    (forall i, j :: 0 <= i < j < |ids| ==> ids[i] != ids[j]) &&
    (forall i :: 0 <= i < |ids| ==> !HasMemoryId(rows, ids[i]))
  }

  lemma ContentsAppend(rows: seq<MemoryRow>, row: MemoryRow)
    ensures Contents(rows + [row]) == Contents(rows) + [row.content]
  {
  }

  lemma FreshAfterInsert(rows: seq<MemoryRow>, ids: seq<string>, k: nat, row: MemoryRow)
    requires (forall i, j :: 0 <= i < j < |ids| ==> ids[i] != ids[j]) && k < |ids| && row.id == ids[k]
    requires forall i :: k <= i < |ids| ==> !HasMemoryId(rows, ids[i])
    ensures forall i :: k < i < |ids| ==> !HasMemoryId(rows + [row], ids[i])
  {
    forall i, j | k < i < |ids| && 0 <= j < |rows + [row]|
      ensures (rows + [row])[j].id != ids[i]
    {
      if j < |rows| {
        assert (rows + [row])[j] == rows[j];
      }
    }
  }

  lemma PendingRowsSnoc(plan: seq<CreateMemoryInput>, k: nat, ids: seq<string>, now: int)
    requires k < |plan| <= |ids|
    ensures PendingRows(plan[..k + 1], ids, now) == PendingRows(plan[..k], ids, now) + [PendingRow(plan[k], ids[k], now)]
  {
  }

  /**
   * One planned insert: the `attempt`-th planned memory under the
   * `attempt`-th id, failing when `attempt` is `failAt`.
   */
  method InsertPlanned(db: Database, ghost start: seq<MemoryRow>, ghost plan: seq<CreateMemoryInput>,
                       input: CreateMemoryInput, attempt: nat, ids: seq<string>, now: int, failAt: nat)
    returns (inserted: bool)
    requires db.Valid() && attempt < |plan| <= |ids| && plan[attempt] == input
    requires forall i, j :: 0 <= i < j < |ids| ==> ids[i] != ids[j]
    requires forall i :: attempt <= i < |ids| ==> !HasMemoryId(db.memories, ids[i])
    requires db.memories == start + PendingRows(plan[..attempt], ids, now)
    modifies db`memories
    ensures db.Valid() && inserted == (attempt != failAt)
    ensures inserted ==> forall i :: attempt < i < |ids| ==> !HasMemoryId(db.memories, ids[i])
    ensures inserted ==> db.memories == start + PendingRows(plan[..attempt + 1], ids, now)
    ensures !inserted ==> db.memories == old(db.memories)
  {
    ghost var before := db.memories;
    var created := CreatePendingMemory(db, input, ids[attempt], now, attempt == failAt);
    inserted := created.Success?;
    if inserted {
      PendingRowsSnoc(plan, attempt, ids, now);
      FreshAfterInsert(before, ids, attempt, PendingRow(input, ids[attempt], now));
    }
  }

  /**
   * Applies the three rules in order, each inserting through the pending
   * store. The insert numbered `failAt` fails; the rules after it are skipped
   * and the error is swallowed, so exactly the planned memories before it
   * remain.
   */
  method LearnFromCuration(db: Database, input: CuratorInput, result: CuratorOutput,
                           relevancePct: string, accessibilityPct: string,
                           ids: seq<string>, now: int, failAt: nat)
    requires db.Valid() && |ids| >= 2 && FreshMemoryIds(db.memories, ids)
    modifies db`memories
    ensures db.Valid()
    ensures var plan := LearnPlan(input, result, relevancePct, accessibilityPct, Contents(old(db.memories)));
      db.memories == old(db.memories) + PendingRows(Take(plan, failAt), ids, now)
  {
    ghost var start := db.memories;
    ghost var stored := Contents(start);
    ghost var plan := LearnPlan(input, result, relevancePct, accessibilityPct, stored);
    ghost var first := FirstRule(input, result, stored);
    ghost var second := SecondRule(result, relevancePct, accessibilityPct, SeenBySecond(input, result, stored));
    assert plan == first + second + ThirdRule(result);
    assert |plan| <= 2;
    var attempt: nat := 0;
    assert plan[..0] == [];

    if RejectionRuleFires(result, Contents(db.memories)) {
      var inserted := InsertPlanned(db, start, plan, RejectionMemory(input, result), attempt, ids, now, failAt);
      if !inserted {
        assert Take(plan, failAt) == plan[..attempt];
        return;
      }
      ContentsAppend(start, PendingRow(RejectionMemory(input, result), ids[0], now));
      attempt := 1;
    }
    assert attempt == |first| && Contents(db.memories) == SeenBySecond(input, result, stored);

    if RelevanceRuleFires(result, Contents(db.memories)) {
      var inserted := InsertPlanned(db, start, plan, RelevanceMemory(result, relevancePct, accessibilityPct),
                                    attempt, ids, now, failAt);
      if !inserted {
        assert Take(plan, failAt) == plan[..attempt];
        return;
      }
      attempt := attempt + 1;
    }
    assert attempt == |first| + |second|;

    if EcosystemRuleFires(result) {
      var inserted := InsertPlanned(db, start, plan, EcosystemMemory(result), attempt, ids, now, failAt);
      if !inserted {
        assert Take(plan, failAt) == plan[..attempt];
        return;
      }
      attempt := attempt + 1;
    }
    assert plan[..attempt] == plan && Take(plan, failAt) == plan;
  }

  // ---------------------------------------------------------------------------
  // The agent call

  /** The log row of one curation; the curator log carries no paper id. */
  function CuratorLogRow(logId: string, usage: Usage, latencyMs: int, now: int): AgentLogRow {
    AgentLogRow(logId, None, "curator", CuratorLogModel, usage.tokensIn, usage.tokensOut, latencyMs, now)
  }

  /** What the logger appends for an answered call: one row, or none when its insert fails (the error is swallowed). */
  function CuratorLog(call: Call, logId: string, logFails: bool, latencyMs: int, now: int): seq<AgentLogRow>
    requires call.Answered?
  {
    if logFails then [] else [CuratorLogRow(logId, ZeroFilled(call.response.meta), latencyMs, now)]
  }

  /**
   * `curatePaper`: asks the model, through the cached `curator` handle, about
   * the prompt built from the input. A model
   * or decoding failure propagates with nothing written. Otherwise one log row
   * is appended (unless the logger's insert fails, which it swallows), the
   * learning rules run, and the decoded result is returned unchanged.
   */
  method CuratePaper(db: Database, cache: ModelCache, input: CuratorInput, env: Env, token: nat,
                     call: Provider, decode: string -> Option<CuratorOutput>,
                     relevancePct: string, accessibilityPct: string,
                     logId: string, logFails: bool, latencyMs: int, now: int,
                     memoryIds: seq<string>, failAt: nat)
    returns (r: Result<CuratorOutput>)
    requires db.Valid() && cache.Valid()
    requires |memoryIds| >= 2 && FreshMemoryIds(db.memories, memoryIds)
    modifies db`memories, db`agentLogs, cache
    ensures db.Valid() && cache.Valid() && CuratorCacheName in cache.handles
    ensures CuratorCacheName in old(cache.handles) ==> cache.handles == old(cache.handles)
    ensures var answer := call(CuratorPrompt(input));
      (answer.CallFailed? || decode(answer.response.text).None?) ==>
      r.Failure? && db.memories == old(db.memories) && db.agentLogs == old(db.agentLogs)
    ensures var answer := call(CuratorPrompt(input));
      answer.Answered? && decode(answer.response.text).Some? ==>
      var result := decode(answer.response.text).value;
      var plan := LearnPlan(input, result, relevancePct, accessibilityPct, Contents(old(db.memories)));
      r == Success(result) &&
      db.agentLogs == old(db.agentLogs) + CuratorLog(answer, logId, logFails, latencyMs, now) &&
      db.memories == old(db.memories) + PendingRows(Take(plan, failAt), memoryIds, now)
  {
    var response := cache.GenerateJson(CuratorCacheName, CuratorInstruction, CuratorPrompt(input), env, token, call, decode);
    if response.Failure? {
      return Failure(response.error);
    }
    if !logFails {
      db.agentLogs := db.agentLogs + [CuratorLogRow(logId, response.value.usage, latencyMs, now)];
    }
    LearnFromCuration(db, input, response.value.result, relevancePct, accessibilityPct, memoryIds, now, failAt);
    r := Success(response.value.result);
  }
}
