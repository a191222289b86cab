/**
 * The pending-memory store: creating a memory for human review, recalling the
 * validated ones (with usage tracking), and the prefix-overlap check that
 * decides whether a similar memory is already stored.
 */
module PendingMemory {
  import opened Wrappers
  import opened Text
  import opened Store

  datatype MemoryType = Episodic | Semantic | Procedural | Reflective

  function TypeName(t: MemoryType): string {
    match t
    case Episodic => "episodic"
    case Semantic => "semantic"
    case Procedural => "procedural"
    case Reflective => "reflective"
  }

  datatype SourceAgent = CuratorAgent | SynthesizerAgent | TutorAgent | ConnectorAgent

  function AgentName(a: SourceAgent): string {
    match a
    case CuratorAgent => "curator"
    case SynthesizerAgent => "synthesizer"
    case TutorAgent => "tutor"
    case ConnectorAgent => "connector"
  }

  datatype CreateMemoryInput = CreateMemoryInput(
    kind: MemoryType, content: string, confidence: Option<real>,
    sourceAgent: SourceAgent, evidence: Option<Evidence>)

  const PendingStatus: string := "pending"
  const ValidatedStatus: string := "validated"

  /** How many leading characters the similarity check compares. */
  const ProbeLength: nat := 50

  /** `confidence || 0.5`: a missing or zero confidence is stored as 0.5, any other value as given. */
  function StoredConfidence(c: Option<real>): (r: real)
    ensures c.None? || c.value == 0.0 ==> r == 0.5
    ensures c.Some? && c.value != 0.0 ==> r == c.value
  {
    if c.Some? && c.value != 0.0 then c.value else 0.5
  }

  /** The row `createPendingMemory` inserts. */
  function PendingRow(input: CreateMemoryInput, id: string, now: int): MemoryRow {
    MemoryRow(id, TypeName(input.kind), input.content, StoredConfidence(input.confidence), PendingStatus,
              Some(AgentName(input.sourceAgent)), input.evidence, now, None, 0)
  }

  /**
   * Inserts one pending memory under the fresh id and returns that id; a
   * failing insert is reported to the caller and leaves the table as it was.
   */
  method CreatePendingMemory(db: Database, input: CreateMemoryInput, id: string, now: int, insertFails: bool)
    returns (r: Result<string>)
    requires db.Valid() && !HasMemoryId(db.memories, id)
    modifies db`memories
    ensures db.Valid()
    ensures insertFails ==> r.Failure? && db.memories == old(db.memories)
    ensures !insertFails ==> r == Success(id) && db.memories == old(db.memories) + [PendingRow(input, id, now)]
  {
    if insertFails {
      return Failure("insert into memories failed");
    }
    db.memories := db.memories + [PendingRow(input, id, now)];
    r := Success(id);
  }

  // ---------------------------------------------------------------------------
  // Similarity check

  /**
   * One stored content against a query: the lower-cased stored text contains
   * the first 50 characters of the trimmed, lower-cased query, or the other way
   * round.
   */
  predicate Similar(stored: string, content: string) {
    var normalized := Trim(Lower(content));
    Contains(Lower(stored), Take(normalized, ProbeLength)) ||
    Contains(normalized, Take(Lower(stored), ProbeLength))
  }

  /** `memoryExists`: some stored content is similar to the query. */
  predicate MemoryExists(stored: seq<string>, content: string) {
    exists i :: 0 <= i < |stored| && Similar(stored[i], content)
  }

  function Contents(rows: seq<MemoryRow>): seq<string> {
    seq(|rows|, i requires 0 <= i < |rows| => rows[i].content)
  }

  /** An empty store holds nothing similar to anything. */
  lemma NothingExistsInEmptyStore(content: string)
    ensures !MemoryExists([], content)
  {
  }

  lemma {:induction false} TrimAllSpace(s: string)
    requires forall i :: 0 <= i < |s| ==> IsSpace(s[i])
    ensures Trim(s) == ""
    decreases |s|
  {
    if |s| > 0 {
      TrimAllSpace(s[1..]);
    }
  }

  /** An empty or all-white-space query matches as soon as anything is stored. */
  lemma BlankQueryMatchesAnyStore(stored: seq<string>, content: string)
    requires |stored| > 0
    requires forall i :: 0 <= i < |content| ==> IsSpace(content[i])
    ensures MemoryExists(stored, content)
  {
    TrimAllSpace(Lower(content));
    assert Take(Trim(Lower(content)), ProbeLength) == "";
    assert Similar(stored[0], content);
  }

  /** Once an empty content is stored, every query matches. */
  lemma EmptyStoredMatchesEverything(stored: seq<string>, content: string, i: nat)
    requires i < |stored| && stored[i] == ""
    ensures MemoryExists(stored, content)
  {
    assert Take(Lower(stored[i]), ProbeLength) == "";
    assert Similar(stored[i], content);
  }

  /** Adding memories never turns a match into a miss. */
  lemma MemoryExistsMonotone(stored: seq<string>, more: seq<string>, content: string)
    requires MemoryExists(stored, content)
    requires forall s :: s in stored ==> s in more
    ensures MemoryExists(more, content)
  {
    var i :| 0 <= i < |stored| && Similar(stored[i], content);
    assert stored[i] in more;
    var j :| 0 <= j < |more| && more[j] == stored[i];
  }

  /** A stored content that contains the query (in any letter case) is similar to it. */
  lemma SimilarWhenContained(stored: string, content: string)
    requires Contains(stored, content)
    ensures Similar(stored, content)
  {
    ContainsLower(stored, content);
    TrimContained(Lower(content));
    ContainsTransitive(Lower(stored), Lower(content), Trim(Lower(content)));
    ContainsPrefix(Trim(Lower(content)), Take(Trim(Lower(content)), ProbeLength));
    ContainsTransitive(Lower(stored), Trim(Lower(content)), Take(Trim(Lower(content)), ProbeLength));
  }

  /** Storing a content makes the same content (or any text inside it) count as existing. */
  lemma StoredContentDetected(stored: seq<string>, content: string, i: nat)
    requires i < |stored| && Contains(stored[i], content)
    ensures MemoryExists(stored, content)
  {
    SimilarWhenContained(stored[i], content);
  }

  /** A query whose first 50 normalised characters equal those of a stored content is detected. */
  lemma SharedPrefixDetected(stored: seq<string>, content: string, i: nat)
    requires i < |stored| && Take(Lower(stored[i]), ProbeLength) == Take(Trim(Lower(content)), ProbeLength)
    ensures MemoryExists(stored, content)
  {
    ContainsPrefix(Lower(stored[i]), Take(Lower(stored[i]), ProbeLength));
    assert Similar(stored[i], content);
  }

  // ---------------------------------------------------------------------------
  // Recall

  datatype RecalledMemory = RecalledMemory(id: string, kind: string, content: string, confidence: real)

  predicate Recallable(row: MemoryRow, kind: Option<MemoryType>) {
    row.status == ValidatedStatus && (kind.None? || row.kind == TypeName(kind.value))
  }

  function Project(row: MemoryRow): RecalledMemory {
    RecalledMemory(row.id, row.kind, row.content, row.confidence)
  }

  /** The SELECT of recall: validated rows (of the given type, if any) in table order. */
  function Recalled(rows: seq<MemoryRow>, kind: Option<MemoryType>): seq<RecalledMemory> {
    if rows == [] then []
    else (if Recallable(rows[0], kind) then [Project(rows[0])] else []) + Recalled(rows[1..], kind)
  }

  /**
   * `useCount || 0 + 1`, which parses as `useCount || 1`: a zero count becomes 1,
   * any other count is left as it is.
   */
  function RecallUseCount(n: int): int {
    if n != 0 then n else 0 + 1
  }

  function Touch(row: MemoryRow, now: int): MemoryRow {
    row.(lastUsedAt := Some(now), useCount := RecallUseCount(row.useCount))
  }

  /** The table after a recall: every recalled row touched, every other row as it was. */
  function AfterRecall(rows: seq<MemoryRow>, kind: Option<MemoryType>, now: int): seq<MemoryRow> {
    seq(|rows|, j requires 0 <= j < |rows| => if Recallable(rows[j], kind) then Touch(rows[j], now) else rows[j])
  }

  /** Recall never counts a use past 1: a count already set stays, a zero count becomes 1. */
  lemma RecallDoesNotIncrement(rows: seq<MemoryRow>, kind: Option<MemoryType>, now: int, j: nat)
    requires j < |rows| && Recallable(rows[j], kind)
    ensures AfterRecall(rows, kind, now)[j].useCount == if rows[j].useCount == 0 then 1 else rows[j].useCount
    ensures AfterRecall(rows, kind, now)[j].lastUsedAt == Some(now)
    ensures AfterRecall(rows, kind, now)[j].(lastUsedAt := rows[j].lastUsedAt, useCount := rows[j].useCount) == rows[j]
  {
  }

  /** Every recalled entry comes from a recallable row, unchanged. */
  lemma {:induction false} RecalledOrigin(rows: seq<MemoryRow>, kind: Option<MemoryType>, k: nat)
    requires k < |Recalled(rows, kind)|
    ensures exists j :: 0 <= j < |rows| && Recallable(rows[j], kind) && Recalled(rows, kind)[k] == Project(rows[j])
    decreases |rows|
  {
    var head := if Recallable(rows[0], kind) then [Project(rows[0])] else [];
    if k < |head| {
      assert Recalled(rows, kind)[k] == Project(rows[0]);
    } else {
      RecalledOrigin(rows[1..], kind, k - |head|);
      var j :| 0 <= j < |rows[1..]| && Recallable(rows[1..][j], kind) &&
               Recalled(rows[1..], kind)[k - |head|] == Project(rows[1..][j]);
      assert rows[j + 1] == rows[1..][j];
    }
  }

  /** Every recallable row is recalled. */
  lemma {:induction false} RecalledComplete(rows: seq<MemoryRow>, kind: Option<MemoryType>, j: nat)
    requires j < |rows| && Recallable(rows[j], kind)
    ensures exists k :: 0 <= k < |Recalled(rows, kind)| && Recalled(rows, kind)[k] == Project(rows[j])
    decreases |rows|
  {
    var head := if Recallable(rows[0], kind) then [Project(rows[0])] else [];
    if j == 0 {
      assert Recalled(rows, kind)[0] == Project(rows[0]);
    } else {
      assert rows[1..][j - 1] == rows[j];
      RecalledComplete(rows[1..], kind, j - 1);
      var k :| 0 <= k < |Recalled(rows[1..], kind)| && Recalled(rows[1..], kind)[k] == Project(rows[j]);
      assert Recalled(rows, kind)[|head| + k] == Project(rows[j]);
    }
  }

  /** With unique row ids the recalled ids are distinct. */
  lemma {:induction false} RecalledIdsDistinct(rows: seq<MemoryRow>, kind: Option<MemoryType>)
    requires UniqueMemoryIds(rows)
    ensures forall a, b :: 0 <= a < b < |Recalled(rows, kind)| ==> Recalled(rows, kind)[a].id != Recalled(rows, kind)[b].id
    decreases |rows|
  {
    if rows != [] {
      var rest := Recalled(rows[1..], kind);
      RecalledIdsDistinct(rows[1..], kind);
      if Recallable(rows[0], kind) {
        forall k | 0 <= k < |rest|
          ensures rest[k].id != rows[0].id
        {
          RecalledOrigin(rows[1..], kind, k);
          var j :| 0 <= j < |rows[1..]| && Recallable(rows[1..][j], kind) && rest[k] == Project(rows[1..][j]);
          assert rows[1..][j] == rows[j + 1];
        }
      }
    }
  }

  predicate IdIn(id: string, rs: seq<RecalledMemory>) {
    exists k :: 0 <= k < |rs| && rs[k].id == id
  }

  /** The use count the recall loop reads back for a row id (the first matching row's). */
  function FirstUseCount(rows: seq<MemoryRow>, id: string): Option<int> {
    if rows == [] then None
    else if rows[0].id == id then Some(rows[0].useCount)
    else FirstUseCount(rows[1..], id)
  }

  lemma {:induction false} FirstUseCountAt(rows: seq<MemoryRow>, id: string, j: nat)
    requires UniqueMemoryIds(rows) && j < |rows| && rows[j].id == id
    ensures FirstUseCount(rows, id) == Some(rows[j].useCount)
    decreases |rows|
  {
    if j > 0 {
      assert rows[0].id != rows[j].id;
      FirstUseCountAt(rows[1..], id, j - 1);
    }
  }

  function SetUsage(rows: seq<MemoryRow>, id: string, now: int, count: int): seq<MemoryRow> {
    seq(|rows|, j requires 0 <= j < |rows| =>
      if rows[j].id == id then rows[j].(lastUsedAt := Some(now), useCount := count) else rows[j])
  }

  /** The table part-way through the recall loop: the rows whose ids are in `done` are touched. */
  function PartlyTouched(rows: seq<MemoryRow>, kind: Option<MemoryType>, now: int, done: seq<RecalledMemory>): seq<MemoryRow> {
    seq(|rows|, j requires 0 <= j < |rows| =>
      if Recallable(rows[j], kind) && IdIn(rows[j].id, done) then Touch(rows[j], now) else rows[j])
  }

  /** The next recalled id is still untouched part-way through the loop, and its row is found. */
  lemma RecallNext(rows: seq<MemoryRow>, kind: Option<MemoryType>, now: int, results: seq<RecalledMemory>, i: nat)
    returns (origin: nat)
    requires UniqueMemoryIds(rows) && results == Recalled(rows, kind) && i < |results|
    ensures origin < |rows| && Recallable(rows[origin], kind) && results[i] == Project(rows[origin])
    ensures !IdIn(results[i].id, results[..i])
    ensures FirstUseCount(PartlyTouched(rows, kind, now, results[..i]), results[i].id) == Some(rows[origin].useCount)
  {
    var cur := PartlyTouched(rows, kind, now, results[..i]);
    RecalledIdsDistinct(rows, kind);
    RecalledOrigin(rows, kind, i);
    origin :| 0 <= origin < |rows| && Recallable(rows[origin], kind) && results[i] == Project(rows[origin]);
    assert !IdIn(results[i].id, results[..i]);
    assert cur[origin] == rows[origin];
    assert UniqueMemoryIds(cur) by {
      assert forall j :: 0 <= j < |rows| ==> cur[j].id == rows[j].id;
    }
    FirstUseCountAt(cur, results[i].id, origin);
  }

  /** One round of the recall loop touches exactly the row of the next recalled id. */
  lemma RecallStep(rows: seq<MemoryRow>, kind: Option<MemoryType>, now: int, results: seq<RecalledMemory>, i: nat)
    requires UniqueMemoryIds(rows) && results == Recalled(rows, kind) && i < |results|
    ensures FirstUseCount(PartlyTouched(rows, kind, now, results[..i]), results[i].id).Some?
    ensures var cur := PartlyTouched(rows, kind, now, results[..i]);
      SetUsage(cur, results[i].id, now, RecallUseCount(FirstUseCount(cur, results[i].id).value)) ==
      PartlyTouched(rows, kind, now, results[..i + 1])
  {
    var origin := RecallNext(rows, kind, now, results, i);
    var cur := PartlyTouched(rows, kind, now, results[..i]);
    var id := results[i].id;
    assert results[..i + 1] == results[..i] + [results[i]];
    var next := SetUsage(cur, id, now, RecallUseCount(rows[origin].useCount));
    var want := PartlyTouched(rows, kind, now, results[..i + 1]);
    forall j | 0 <= j < |rows|
      ensures next[j] == want[j]
    {
      if rows[j].id == id {
        assert j == origin;
      } else {
        assert IdIn(rows[j].id, results[..i + 1]) == IdIn(rows[j].id, results[..i]);
      }
    }
  }

  /** After the last round every recallable row is touched. */
  lemma RecallDone(rows: seq<MemoryRow>, kind: Option<MemoryType>, now: int, results: seq<RecalledMemory>)
    requires results == Recalled(rows, kind)
    ensures PartlyTouched(rows, kind, now, results[..|results|]) == AfterRecall(rows, kind, now)
  {
    assert results[..|results|] == results;
    forall j | 0 <= j < |rows| && Recallable(rows[j], kind)
      ensures IdIn(rows[j].id, results)
    {
      RecalledComplete(rows, kind, j);
    }
  }

  /**
   * Returns the validated memories (of the given type, if any) and stamps each
   * of them with the current time and the quirky use count; content and status
   * are left as they were.
   */
  method RecallMemories(db: Database, kind: Option<MemoryType>, now: int) returns (results: seq<RecalledMemory>)
    requires db.Valid()
    modifies db`memories
    ensures db.Valid()
    ensures results == Recalled(old(db.memories), kind)
    ensures db.memories == AfterRecall(old(db.memories), kind, now)
  {
    results := TouchRecalled(db, kind, now);
    AfterRecallKeepsIds(old(db.memories), kind, now);
  }

  /** The recall loop itself: the rows are read once, then each recalled row is touched in turn. */
  method TouchRecalled(db: Database, kind: Option<MemoryType>, now: int) returns (results: seq<RecalledMemory>)
    requires UniqueMemoryIds(db.memories)
    modifies db`memories
    ensures results == Recalled(old(db.memories), kind)
    ensures db.memories == AfterRecall(old(db.memories), kind, now)
  {
    var rows := db.memories;
    results := Recalled(rows, kind);
    assert results[..0] == [];
    assert db.memories == PartlyTouched(rows, kind, now, results[..0]);
    var i := 0;
    while i < |results|
      invariant 0 <= i <= |results|
      invariant db.memories == PartlyTouched(rows, kind, now, results[..i])
    {
      var id := results[i].id;
      RecallStep(rows, kind, now, results, i);
      var count := RecallUseCount(FirstUseCount(db.memories, id).GetOr(0));
      db.memories := SetUsage(db.memories, id, now, count);
      assert db.memories == PartlyTouched(rows, kind, now, results[..i + 1]);
      i := i + 1;
    }
    RecallDone(rows, kind, now, results);
  }

  lemma AfterRecallKeepsIds(rows: seq<MemoryRow>, kind: Option<MemoryType>, now: int)
    requires UniqueMemoryIds(rows)
    ensures UniqueMemoryIds(AfterRecall(rows, kind, now))
  {
    var after := AfterRecall(rows, kind, now);
    assert forall j :: 0 <= j < |rows| ==> after[j].id == rows[j].id;
  }
}
