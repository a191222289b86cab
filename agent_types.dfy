/**
 * The records the two agents exchange with the rest of the pipeline: what the
 * curator and the synthesizer are asked, and the structured answers the
 * language model returns for them once decoded.
 */
module AgentTypes {
  import opened Wrappers

  /** The curator's admission decision; these are the three strings the model may return. */
  datatype CurationStatus = Approved | Rejected | NeedsReview

  /** Curator input; an empty `abstract` or `fullText` stands for an absent one. */
  datatype CuratorInput = CuratorInput(title: string, abstractText: string, fullText: string)

  datatype CuratorOutput = CuratorOutput(
    relevanceScore: real,
    accessibilityScore: real,
    difficulty: int,
    domainTags: seq<string>,
    ecosystemTags: seq<string>,
    keyContributions: seq<string>,
    status: CurationStatus,
    notes: string,
    plainSummary: Option<string>)

  /** The fixed vocabulary of relationship kinds between papers. */
  datatype RelationKind = BuildsUpon | Implements | Extends | Enables

  datatype ProposedRelation = ProposedRelation(
    paperId: string, relationship: RelationKind, strength: real, explanation: string)

  datatype Summaries = Summaries(oneLiner: string, paragraph: string, rich: string)

  datatype KeyConcept = KeyConcept(term: string, simpleDefinition: string, analogy: string, whyItMatters: string)

  datatype LearningPath = LearningPath(prerequisites: seq<string>, nextSteps: seq<string>, questions: seq<string>)

  datatype SynthOutput = SynthOutput(
    summaries: Summaries,
    keyConcepts: Option<seq<KeyConcept>>,
    practicalImplications: Option<seq<string>>,
    learningPath: Option<LearningPath>,
    relatedPapers: seq<ProposedRelation>)

  /** The paper being synthesized and the library it may be related to. */
  datatype PaperBrief = PaperBrief(id: string, title: string, abstractText: string, domainTags: seq<string>)
  datatype PeerBrief = PeerBrief(id: string, title: string, domainTags: seq<string>)
  datatype SynthInput = SynthInput(paper: PaperBrief, existingPapers: seq<PeerBrief>)

  /** Token counters reported for one model call. */
  datatype Usage = Usage(tokensIn: int, tokensOut: int, cachedTokens: int)
}
