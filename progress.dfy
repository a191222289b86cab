/**
 * `/api/progress`: a signed-in user records a reading status per content
 * slug (update in place or insert) and reads it back, `unread` by default.
 */
module Progress {
  import opened Wrappers
  import opened Store
  import opened Requests

  const UnreadStatus: string := "unread"

  /** The body's `slug` and `status`; an empty text is a missing field. */
  datatype ProgressBody = ProgressBody(slug: string, status: string)

  datatype ProgressResponse = Unauthorized | MissingFields | ProgressFailed | Saved

  function StatusCode(r: ProgressResponse): int {
    match r
    case Unauthorized => 401
    case MissingFields => 400
    case ProgressFailed => 500
    case Saved => 200
  }

  /** The position of the first row for the user and slug. */
  function FindProgress(rows: seq<ProgressRow>, userId: string, slug: string): (r: Option<nat>)
    ensures r.Some? ==>
      r.value < |rows| && rows[r.value].userId == userId && rows[r.value].contentSlug == slug &&
      forall i :: 0 <= i < r.value ==> !(rows[i].userId == userId && rows[i].contentSlug == slug)
    ensures r.None? ==> forall i :: 0 <= i < |rows| ==> !(rows[i].userId == userId && rows[i].contentSlug == slug)
  {
    if rows == [] then None
    else if rows[0].userId == userId && rows[0].contentSlug == slug then Some(0)
    else
      var rest := FindProgress(rows[1..], userId, slug);
      if rest.None? then None else Some(rest.value + 1)
  }

  predicate ProgressIdInUse(rows: seq<ProgressRow>, id: int) {
    exists i :: 0 <= i < |rows| && rows[i].id == id
  }

  /** The table after recording `status`: the first row for the user and slug updated, or a new row. */
  function Recorded(rows: seq<ProgressRow>, userId: string, slug: string, status: string, newId: int, now: int)
    : seq<ProgressRow>
  {
    var found := FindProgress(rows, userId, slug);
    if found.Some? then rows[found.value := rows[found.value].(status := status, updatedAt := now)]
    else rows + [ProgressRow(newId, userId, slug, status, now)]
  }

  /**
   * 401 without a user; an unreadable body is an error and a missing slug
   * or status a 400, neither writing. Otherwise the user's row for the slug
   * gets the status (stored as given) and the time, or one row is inserted;
   * an update or insert that throws is a 500 with the table unchanged.
   * `newId` is the next auto-increment id.
   */
  method SaveProgress(db: Database, user: Option<SessionUser>, body: Option<ProgressBody>, newId: int, now: int,
                      writeFails: bool)
    returns (resp: ProgressResponse)
    requires db.Valid() && !ProgressIdInUse(db.progress, newId)
    modifies db`progress
    ensures db.Valid()
    ensures user.None? ==> resp == Unauthorized && unchanged(db)
    ensures user.Some? && body.None? ==> resp == ProgressFailed && unchanged(db)
    ensures user.Some? && body.Some? && (body.value.slug == "" || body.value.status == "") ==>
      resp == MissingFields && unchanged(db)
    ensures user.Some? && body.Some? && body.value.slug != "" && body.value.status != "" && writeFails ==>
      resp == ProgressFailed && unchanged(db)
    ensures user.Some? && body.Some? && body.value.slug != "" && body.value.status != "" && !writeFails ==>
      resp == Saved &&
      db.progress == Recorded(old(db.progress), user.value.id, body.value.slug, body.value.status, newId, now)
  {
    if user.None? {
      return Unauthorized;
    }
    if body.None? {
      return ProgressFailed;
    }
    var b := body.value;
    if b.slug == "" || b.status == "" {
      return MissingFields;
    }
    var userId := user.value.id;
    var existing := FindProgress(db.progress, userId, b.slug);
    if writeFails {
      return ProgressFailed;
    }
    if existing.Some? {
      var k := existing.value;
      db.progress := db.progress[k := db.progress[k].(status := b.status, updatedAt := now)];
    } else {
      db.progress := db.progress + [ProgressRow(newId, userId, b.slug, b.status, now)];
    }
    RecordedKeepsIds(old(db.progress), userId, b.slug, b.status, newId, now);
    resp := Saved;
  }

  lemma RecordedKeepsIds(rows: seq<ProgressRow>, userId: string, slug: string, status: string, newId: int, now: int)
    requires UniqueProgressIds(rows) && !ProgressIdInUse(rows, newId)
    ensures UniqueProgressIds(Recorded(rows, userId, slug, status, newId, now))
  {
  }

  /**
   * Recording touches one row: the user's row for the slug holds the new
   * status and time, every other row is unchanged, and a row is added only
   * when there was none for the user and slug.
   */
  lemma RecordedEffect(rows: seq<ProgressRow>, userId: string, slug: string, status: string, newId: int, now: int)
    ensures var r := Recorded(rows, userId, slug, status, newId, now);
      var k := FindProgress(r, userId, slug);
      k.Some? && r[k.value].status == status && r[k.value].updatedAt == now &&
      (FindProgress(rows, userId, slug).Some? ==>
        |r| == |rows| && k == FindProgress(rows, userId, slug) && r[k.value].id == rows[k.value].id &&
        forall i :: 0 <= i < |rows| && i != k.value ==> r[i] == rows[i]) &&
      (FindProgress(rows, userId, slug).None? ==> r == rows + [ProgressRow(newId, userId, slug, status, now)])
  {
    var r := Recorded(rows, userId, slug, status, newId, now);
    var found := FindProgress(rows, userId, slug);
    if found.Some? {
      FindProgressAt(r, userId, slug, found.value);
    } else {
      FindProgressAt(r, userId, slug, |rows|);
    }
  }

  /** A matching row with no match before it is the one found. */
  lemma {:induction false} FindProgressAt(rows: seq<ProgressRow>, userId: string, slug: string, k: nat)
    requires k < |rows| && rows[k].userId == userId && rows[k].contentSlug == slug
    requires forall i :: 0 <= i < k ==> !(rows[i].userId == userId && rows[i].contentSlug == slug)
    ensures FindProgress(rows, userId, slug) == Some(k)
  {
    if k > 0 {
      FindProgressAt(rows[1..], userId, slug, k - 1);
    }
  }

  /**
   * Repeating the same request leaves what one request leaves, apart from
   * the time: the second call updates the row the first one wrote.
   */
  lemma RecordTwice(rows: seq<ProgressRow>, userId: string, slug: string, status: string,
                    id1: int, id2: int, t1: int, t2: int)
    ensures Recorded(Recorded(rows, userId, slug, status, id1, t1), userId, slug, status, id2, t2) ==
            Recorded(rows, userId, slug, status, id1, t2)
  {
    RecordedEffect(rows, userId, slug, status, id1, t1);
  }

  // ---------------------------------------------------------------------------
  // GET

  datatype StatusResponse = StatusUnauthorized | StatusMissingSlug | CurrentStatus(status: string)

  /** `progress?.status || 'unread'`. */
  function ReadProgress(rows: seq<ProgressRow>, user: Option<SessionUser>, slug: string): StatusResponse {
    if user.None? then StatusUnauthorized
    else if slug == "" then StatusMissingSlug
    else
      var found := FindProgress(rows, user.value.id, slug);
      if found.Some? && rows[found.value].status != "" then CurrentStatus(rows[found.value].status)
      else CurrentStatus(UnreadStatus)
  }

  /**
   * Reading back after recording gives the recorded status; a user who never
   * recorded anything for a slug reads `unread`.
   */
  lemma ReadAfterRecord(rows: seq<ProgressRow>, user: SessionUser, slug: string, status: string, newId: int, now: int)
    requires slug != "" && status != ""
    ensures ReadProgress(Recorded(rows, user.id, slug, status, newId, now), Some(user), slug) == CurrentStatus(status)
    ensures (forall i :: 0 <= i < |rows| ==> rows[i].userId != user.id) ==>
      ReadProgress(rows, Some(user), slug) == CurrentStatus(UnreadStatus)
  {
    RecordedEffect(rows, user.id, slug, status, newId, now);
  }
}
