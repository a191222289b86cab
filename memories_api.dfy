/**
 * `/api/memories`: the admin listing of memories by status, newest first, and
 * the authenticated creation of one pending memory.
 */
module MemoriesApi {
  import opened Wrappers
  import opened Store
  import opened PendingMemory
  import opened Requests

  const AllStatuses: string := "all"

  // ---------------------------------------------------------------------------
  // GET

  datatype ListResponse = Forbidden | MemoryList(memories: seq<MemoryRow>)

  /** `status || 'pending'`. */
  function RequestedStatus(status: Option<string>): (r: string)
    ensures status.None? || status.value == "" ==> r == PendingStatus
    ensures status.Some? && status.value != "" ==> r == status.value
  {
    if status.Some? && status.value != "" then status.value else PendingStatus
  }

  /** The query's filter: every row for `all`, otherwise the rows whose status is that text. */
  predicate Selected(row: MemoryRow, status: string) {
    status == AllStatuses || row.status == status
  }

  function SelectRows(rows: seq<MemoryRow>, status: string): seq<MemoryRow> {
    if rows == [] then []
    else (if Selected(rows[0], status) then [rows[0]] else []) + SelectRows(rows[1..], status)
  }

  predicate NewestFirst(rows: seq<MemoryRow>) {
    forall i, j :: 0 <= i < j < |rows| ==> rows[i].createdAt >= rows[j].createdAt
  }

  /** Places a row before the first row that is not newer than it. */
  function InsertNewest(x: MemoryRow, rows: seq<MemoryRow>): seq<MemoryRow> {
    if rows == [] || x.createdAt >= rows[0].createdAt then [x] + rows
    else [rows[0]] + InsertNewest(x, rows[1..])
  }

  /** `orderBy(desc(createdAt))`; rows with equal times keep their table order. */
  function ByNewest(rows: seq<MemoryRow>): seq<MemoryRow> {
    if rows == [] then [] else InsertNewest(rows[0], ByNewest(rows[1..]))
  }

  /** The admin-only listing. */
  function ListMemories(role: Option<string>, status: Option<string>, rows: seq<MemoryRow>): ListResponse {
    if role.None? || role.value != AdminRole then Forbidden
    else MemoryList(ByNewest(SelectRows(rows, RequestedStatus(status))))
  }

  lemma {:induction false} SelectRowsExact(rows: seq<MemoryRow>, status: string)
    ensures multiset(SelectRows(rows, status)) <= multiset(rows)
    ensures forall r :: r in SelectRows(rows, status) <==> r in rows && Selected(r, status)
    decreases |rows|
  {
    if rows != [] {
      SelectRowsExact(rows[1..], status);
      assert rows == [rows[0]] + rows[1..];
    }
  }

  /** `all` selects the whole table. */
  lemma {:induction false} SelectAll(rows: seq<MemoryRow>)
    ensures SelectRows(rows, AllStatuses) == rows
    decreases |rows|
  {
    if rows != [] {
      SelectAll(rows[1..]);
    }
  }

  lemma {:induction false} InsertNewestPermutes(x: MemoryRow, rows: seq<MemoryRow>)
    ensures multiset(InsertNewest(x, rows)) == multiset([x] + rows)
    decreases |rows|
  {
    if !(rows == [] || x.createdAt >= rows[0].createdAt) {
      InsertNewestPermutes(x, rows[1..]);
      assert rows == [rows[0]] + rows[1..];
    }
  }

  /** Inserting keeps every row at most as new as a bound that all of them respect. */
  lemma {:induction false} InsertNewestBound(x: MemoryRow, rows: seq<MemoryRow>, bound: int)
    requires x.createdAt <= bound && forall k :: 0 <= k < |rows| ==> rows[k].createdAt <= bound
    ensures forall k :: 0 <= k < |InsertNewest(x, rows)| ==> InsertNewest(x, rows)[k].createdAt <= bound
    decreases |rows|
  {
    if !(rows == [] || x.createdAt >= rows[0].createdAt) {
      InsertNewestBound(x, rows[1..], bound);
    }
  }

  lemma {:induction false} InsertNewestSorted(x: MemoryRow, rows: seq<MemoryRow>)
    requires NewestFirst(rows)
    ensures NewestFirst(InsertNewest(x, rows))
    decreases |rows|
  {
    if !(rows == [] || x.createdAt >= rows[0].createdAt) {
      var rest := InsertNewest(x, rows[1..]);
      InsertNewestSorted(x, rows[1..]);
      InsertNewestBound(x, rows[1..], rows[0].createdAt);
      var r := [rows[0]] + rest;
      forall i, j | 0 <= i < j < |r|
        ensures r[i].createdAt >= r[j].createdAt
      {
        if i > 0 {
          assert r[i] == rest[i - 1] && r[j] == rest[j - 1];
        } else {
          assert r[j] == rest[j - 1];
        }
      }
    }
  }

  /** The listing is ordered newest first and holds exactly the selected rows. */
  lemma {:induction false} ByNewestSorts(rows: seq<MemoryRow>)
    ensures NewestFirst(ByNewest(rows)) && multiset(ByNewest(rows)) == multiset(rows)
    decreases |rows|
  {
    if rows != [] {
      ByNewestSorts(rows[1..]);
      InsertNewestSorted(rows[0], ByNewest(rows[1..]));
      InsertNewestPermutes(rows[0], ByNewest(rows[1..]));
      assert rows == [rows[0]] + rows[1..];
    }
  }

  /**
   * Non-admins are refused; an admin gets, newest first, exactly the rows of
   * the requested status (`pending` when none is given), or every row for
   * `all`. The status is compared as text, so an unknown one lists nothing.
   */
  lemma ListMemoriesContents(role: Option<string>, status: Option<string>, rows: seq<MemoryRow>)
    ensures (role.None? || role.value != AdminRole) <==> ListMemories(role, status, rows).Forbidden?
    ensures ListMemories(role, status, rows).MemoryList? ==>
      var listed := ListMemories(role, status, rows).memories;
      NewestFirst(listed) &&
      multiset(listed) == multiset(SelectRows(rows, RequestedStatus(status))) &&
      (forall r :: r in listed <==> r in rows && Selected(r, RequestedStatus(status))) &&
      (RequestedStatus(status) == AllStatuses ==> multiset(listed) == multiset(rows))
  {
    var selected := SelectRows(rows, RequestedStatus(status));
    ByNewestSorts(selected);
    SelectRowsExact(rows, RequestedStatus(status));
    SelectAll(rows);
    var listed := ByNewest(selected);
    forall r
      ensures r in listed <==> r in selected
    {
      assert r in listed <==> r in multiset(listed);
      assert r in selected <==> r in multiset(selected);
    }
  }

  // ---------------------------------------------------------------------------
  // POST

  /** The request body; `kind` is free text and an empty string is an absent field. */
  datatype MemoryBody = MemoryBody(
    kind: string, content: string, confidence: Option<real>, sourceAgent: string, evidence: Option<Evidence>)

  datatype CreateResponse =
    | Unauthorized
    | FieldsRequired
    | Created(id: string)
    | CreateFailed(message: string)

  function CreateStatusCode(r: CreateResponse): int {
    match r
    case Unauthorized => 401
    case FieldsRequired => 400
    case Created(_) => 201
    case CreateFailed(_) => 500
  }

  /** The row the endpoint inserts: pending, confidence `|| 0.5`, source agent `|| null`, unused. */
  function BodyRow(body: MemoryBody, id: string, now: int): MemoryRow {
    MemoryRow(id, body.kind, body.content, StoredConfidence(body.confidence), PendingStatus,
              if body.sourceAgent != "" then Some(body.sourceAgent) else None, body.evidence, now, None, 0)
  }

  /**
   * Any signed-in user may create a memory (no admin check). An unreadable
   * body or a failed insert is a 500 and a missing type or content a 400, all
   * without inserting; otherwise one pending row is appended and its id
   * returned with 201.
   */
  method CreateMemory(db: Database, hasUser: bool, body: Option<MemoryBody>, id: string, now: int, insertFails: bool)
    returns (resp: CreateResponse)
    requires db.Valid() && !HasMemoryId(db.memories, id)
    modifies db`memories
    ensures db.Valid()
    ensures !hasUser ==> resp == Unauthorized && db.memories == old(db.memories)
    ensures hasUser && body.None? ==> resp.CreateFailed? && db.memories == old(db.memories)
    ensures hasUser && body.Some? && (body.value.kind == "" || body.value.content == "") ==>
      resp == FieldsRequired && db.memories == old(db.memories)
    ensures hasUser && body.Some? && body.value.kind != "" && body.value.content != "" ==>
      (insertFails ==> resp.CreateFailed? && db.memories == old(db.memories)) &&
      (!insertFails ==> resp == Created(id) && db.memories == old(db.memories) + [BodyRow(body.value, id, now)])
  {
    if !hasUser {
      return Unauthorized;
    }
    if body.None? {
      return CreateFailed("request body is not valid JSON");
    }
    var b := body.value;
    if b.kind == "" || b.content == "" {
      return FieldsRequired;
    }
    if insertFails {
      return CreateFailed("Failed to create memory");
    }
    db.memories := db.memories + [BodyRow(b, id, now)];
    resp := Created(id);
  }

  /** A created memory is listed among the pending ones. */
  lemma CreatedIsPending(rows: seq<MemoryRow>, body: MemoryBody, id: string, now: int)
    ensures var listing := ListMemories(Some(AdminRole), None, rows + [BodyRow(body, id, now)]);
      listing.MemoryList? && BodyRow(body, id, now) in listing.memories
  {
    ListMemoriesContents(Some(AdminRole), None, rows + [BodyRow(body, id, now)]);
  }
}
