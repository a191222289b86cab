/**
 * The application database as in-memory tables. Each table is a sequence of
 * rows in insertion (rowid) order, which is the order a plain SELECT returns.
 * Column layouts follow src/db/schema.ts for users, sessions, progress, stars
 * and invitations; the papers, paper_relations, memories and agent_logs
 * layouts are reconstructed from the columns the pipeline writes.
 */
module Store {
  import opened Wrappers
  import opened AgentTypes

  /**
   * What a JSON text column holding a tag list decodes to: null or the empty
   * string, an array of strings, valid JSON that is not an array, or text that
   * is not JSON at all.
   */
  datatype StoredTags = NoTags | TagList(tags: seq<string>) | NonArray | Unparsable

  datatype PaperFields = PaperFields(
    id: string,
    title: string,
    authors: Option<seq<string>>,
    year: Option<int>,
    venue: Option<string>,
    abstractText: Option<string>,
    bibtex: Option<string>,
    relevanceScore: real,
    difficulty: int,
    domainTags: StoredTags,
    ecosystemTags: StoredTags,
    curatorStatus: CurationStatus,
    curatorNotes: string,
    summaryOneLiner: string,
    summaryParagraph: string,
    summaryRich: string,
    prerequisites: seq<string>,
    synthesizerData: SynthOutput,
    processedAt: int)

  /** A papers row: the fields the pipeline sets, plus the creation time an update keeps. */
  datatype PaperRow = PaperRow(fields: PaperFields, createdAt: int)

  datatype RelationRow = RelationRow(
    id: string, sourcePaperId: string, targetPaperId: string,
    relationship: RelationKind, strength: real, explanation: string, createdAt: int)

  datatype Evidence = Evidence(paperIds: Option<seq<string>>, observations: Option<seq<string>>)

  /** A memories row; `kind` and `status` are free text columns. A null use count reads as 0. */
  datatype MemoryRow = MemoryRow(
    id: string, kind: string, content: string, confidence: real, status: string,
    sourceAgent: Option<string>, evidence: Option<Evidence>, createdAt: int,
    lastUsedAt: Option<int>, useCount: int)

  datatype AgentLogRow = AgentLogRow(
    id: string, paperId: Option<string>, agent: string, model: string,
    tokensIn: int, tokensOut: int, latencyMs: int, createdAt: int)

  datatype UserRow = UserRow(
    id: string, username: string, passwordHash: string, email: Option<string>, role: string, createdAt: int)

  datatype SessionRow = SessionRow(id: string, userId: string, expiresAt: int)

  datatype ProgressRow = ProgressRow(id: int, userId: string, contentSlug: string, status: string, updatedAt: int)

  datatype StarRow = StarRow(id: int, userId: string, paperSlug: string, createdAt: int)

  datatype InvitationRow = InvitationRow(
    id: string, email: string, role: string, invitedBy: Option<string>,
    token: string, expiresAt: int, usedAt: Option<int>)

  predicate UniquePaperIds(rows: seq<PaperRow>) {
    forall i, j :: 0 <= i < j < |rows| ==> rows[i].fields.id != rows[j].fields.id
  }

  predicate UniqueRelationIds(rows: seq<RelationRow>) {
    forall i, j :: 0 <= i < j < |rows| ==> rows[i].id != rows[j].id
  }

  predicate UniqueMemoryIds(rows: seq<MemoryRow>) {
    forall i, j :: 0 <= i < j < |rows| ==> rows[i].id != rows[j].id
  }

  predicate UniqueUsers(rows: seq<UserRow>) {
    forall i, j :: 0 <= i < j < |rows| ==> rows[i].id != rows[j].id && rows[i].username != rows[j].username
  }

  predicate UniqueSessionIds(rows: seq<SessionRow>) {
    forall i, j :: 0 <= i < j < |rows| ==> rows[i].id != rows[j].id
  }

  predicate SessionIdInUse(rows: seq<SessionRow>, id: string) {
    exists i :: 0 <= i < |rows| && rows[i].id == id
  }

  predicate UniqueProgressIds(rows: seq<ProgressRow>) {
    forall i, j :: 0 <= i < j < |rows| ==> rows[i].id != rows[j].id
  }

  predicate UniqueStarIds(rows: seq<StarRow>) {
    forall i, j :: 0 <= i < j < |rows| ==> rows[i].id != rows[j].id
  }

  predicate UniqueInvitations(rows: seq<InvitationRow>) {
    forall i, j :: 0 <= i < j < |rows| ==> rows[i].id != rows[j].id && rows[i].token != rows[j].token
  }

  predicate HasPaper(rows: seq<PaperRow>, id: string) {
    exists i :: 0 <= i < |rows| && rows[i].fields.id == id
  }

  predicate HasMemoryId(rows: seq<MemoryRow>, id: string) {
    exists i :: 0 <= i < |rows| && rows[i].id == id
  }

  predicate HasRelationId(rows: seq<RelationRow>, id: string) {
    exists i :: 0 <= i < |rows| && rows[i].id == id
  }

  /** The database handle every endpoint shares. */
  class Database {
    var papers: seq<PaperRow>
    var relations: seq<RelationRow>
    var memories: seq<MemoryRow>
    var agentLogs: seq<AgentLogRow>
    var users: seq<UserRow>
    var sessions: seq<SessionRow>
    var progress: seq<ProgressRow>
    var stars: seq<StarRow>
    var invitations: seq<InvitationRow>

    /**
     * The primary-key and unique constraints of the tables; the agent logs'
     * ids are not constrained here.
     */
    ghost predicate Valid()
      reads this
    {
      UniquePaperIds(papers) && UniqueRelationIds(relations) && UniqueMemoryIds(memories) &&
      UniqueUsers(users) && UniqueSessionIds(sessions) && UniqueProgressIds(progress) && UniqueStarIds(stars) &&
      UniqueInvitations(invitations)
    }

    constructor ()
      ensures Valid()
      ensures papers == [] && relations == [] && memories == [] && agentLogs == []
      ensures users == [] && sessions == [] && progress == [] && stars == [] && invitations == []
    {
      papers, relations, memories, agentLogs := [], [], [], [];
      users, sessions, progress, stars, invitations := [], [], [], [], [];
    }
  }
}
