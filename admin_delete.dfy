/**
 * `POST /api/admin/users/delete`: an admin deletes another user together with
 * their sessions, progress and stars, one table after the other.
 */
module UserDelete {
  import opened Wrappers
  import opened Store
  import opened Requests

  datatype DeleteResponse = Unauthorized | SelfDelete | DeleteFailed | Deleted

  function StatusCode(r: DeleteResponse): int {
    match r
    case Unauthorized => 401
    case SelfDelete => 400
    case DeleteFailed => 500
    case Deleted => 200
  }

  /** The rows a `delete … where` leaves: those the condition spares, in table order. */
  function Keep<T>(rows: seq<T>, keep: T -> bool): seq<T> {
    if rows == [] then []
    else (if keep(rows[0]) then [rows[0]] else []) + Keep(rows[1..], keep)
  }

  /** `delete from session where user_id = ?`. */
  function SessionsWithout(rows: seq<SessionRow>, userId: string): seq<SessionRow> {
    Keep(rows, (r: SessionRow) => r.userId != userId)
  }

  /** `delete from user_progress where user_id = ?`. */
  function ProgressWithout(rows: seq<ProgressRow>, userId: string): seq<ProgressRow> {
    Keep(rows, (r: ProgressRow) => r.userId != userId)
  }

  /** `delete from user_stars where user_id = ?`. */
  function StarsWithout(rows: seq<StarRow>, userId: string): seq<StarRow> {
    Keep(rows, (r: StarRow) => r.userId != userId)
  }

  /** `delete from user where id = ?`. */
  function UsersWithout(rows: seq<UserRow>, userId: string): seq<UserRow> {
    Keep(rows, (r: UserRow) => r.id != userId)
  }

  /**
   * 401 unless the caller is an admin; an unreadable body is a 500 and
   * deleting oneself a 400, neither writing. Otherwise the target's
   * sessions, progress, stars and user row are deleted in that order; the
   * delete numbered `failAt` (0 to 3) throws, answering 500 and leaving the
   * earlier deletes in place. Invitations are never touched. `body` is the
   * JSON body's `userId`, `None` for a body that cannot be parsed.
   */
  method DeleteUser(db: Database, caller: Option<SessionUser>, body: Option<string>, failAt: nat)
    returns (resp: DeleteResponse)
    requires db.Valid()
    modifies db`sessions, db`progress, db`stars, db`users
    ensures db.Valid()
    ensures db.invitations == old(db.invitations) && db.papers == old(db.papers)
    ensures !IsAdmin(caller) ==> resp == Unauthorized && unchanged(db)
    ensures IsAdmin(caller) && body.None? ==> resp == DeleteFailed && unchanged(db)
    ensures IsAdmin(caller) && body == Some(caller.value.id) ==> resp == SelfDelete && unchanged(db)
    ensures IsAdmin(caller) && body.Some? && body.value != caller.value.id ==>
      var target := body.value;
      db.sessions == (if failAt > 0 then SessionsWithout(old(db.sessions), target) else old(db.sessions)) &&
      db.progress == (if failAt > 1 then ProgressWithout(old(db.progress), target) else old(db.progress)) &&
      db.stars == (if failAt > 2 then StarsWithout(old(db.stars), target) else old(db.stars)) &&
      db.users == (if failAt > 3 then UsersWithout(old(db.users), target) else old(db.users)) &&
      resp == (if failAt > 3 then Deleted else DeleteFailed)
  {
    if !IsAdmin(caller) {
      return Unauthorized;
    }
    if body.None? {
      return DeleteFailed;
    }
    var target := body.value;
    if target == caller.value.id {
      return SelfDelete;
    }
    if failAt == 0 {
      return DeleteFailed;
    }
    WithoutKeepsValid(db.sessions, db.progress, db.stars, db.users, target);
    db.sessions := SessionsWithout(db.sessions, target);
    if failAt == 1 {
      return DeleteFailed;
    }
    db.progress := ProgressWithout(db.progress, target);
    if failAt == 2 {
      return DeleteFailed;
    }
    db.stars := StarsWithout(db.stars, target);
    if failAt == 3 {
      return DeleteFailed;
    }
    db.users := UsersWithout(db.users, target);
    resp := Deleted;
  }

  /** A delete spares exactly the rows its condition spares. */
  lemma {:induction false} KeepMembers<T>(rows: seq<T>, keep: T -> bool)
    ensures forall x :: x in Keep(rows, keep) ==> x in rows && keep(x)
    ensures forall x :: x in rows && keep(x) ==> x in Keep(rows, keep)
    decreases |rows|
  {
    if rows != [] {
      KeepMembers(rows[1..], keep);
      assert rows == [rows[0]] + rows[1..];
    }
  }

  /** No two rows agree on `key`. */
  ghost predicate DistinctBy<T, K>(rows: seq<T>, key: T -> K) {
    forall i, j :: 0 <= i < j < |rows| ==> key(rows[i]) != key(rows[j])
  }

  /** A delete keeps a column unique: the spared rows are a subsequence of the table. */
  lemma {:induction false} KeepUnique<T, K>(rows: seq<T>, keep: T -> bool, key: T -> K)
    requires DistinctBy(rows, key)
    ensures DistinctBy(Keep(rows, keep), key)
    decreases |rows|
  {
    if rows != [] {
      var tail := rows[1..];
      var rest := Keep(tail, keep);
      KeepUnique(tail, keep, key);
      KeepMembers(tail, keep);
      forall j | 0 <= j < |rest|
        ensures key(rows[0]) != key(rest[j])
      {
        assert rest[j] in rest;
        assert rest[j] in tail;
        var k :| 0 <= k < |tail| && tail[k] == rest[j];
        assert rows[k + 1] == rest[j];
      }
      if keep(rows[0]) {
        var r := [rows[0]] + rest;
        forall i, j | 0 <= i < j < |r|
          ensures key(r[i]) != key(r[j])
        {
          assert r[j] == rest[j - 1];
          if i > 0 {
            assert r[i] == rest[i - 1];
          }
        }
        assert DistinctBy(r, key);
      }
    }
  }

  /** The deletes keep every table's keys unique. */
  lemma WithoutKeepsValid(sessions: seq<SessionRow>, progress: seq<ProgressRow>, stars: seq<StarRow>,
                          users: seq<UserRow>, userId: string)
    ensures UniqueSessionIds(sessions) ==> UniqueSessionIds(SessionsWithout(sessions, userId))
    ensures UniqueProgressIds(progress) ==> UniqueProgressIds(ProgressWithout(progress, userId))
    ensures UniqueStarIds(stars) ==> UniqueStarIds(StarsWithout(stars, userId))
    ensures UniqueUsers(users) ==> UniqueUsers(UsersWithout(users, userId))
  {
    if UniqueSessionIds(sessions) {
      var key := (r: SessionRow) => r.id;
      assert DistinctBy(sessions, key);
      KeepUnique(sessions, (r: SessionRow) => r.userId != userId, key);
    }
    if UniqueProgressIds(progress) {
      var key := (r: ProgressRow) => r.id;
      assert DistinctBy(progress, key);
      KeepUnique(progress, (r: ProgressRow) => r.userId != userId, key);
    }
    if UniqueStarIds(stars) {
      var key := (r: StarRow) => r.id;
      assert DistinctBy(stars, key);
      KeepUnique(stars, (r: StarRow) => r.userId != userId, key);
    }
    if UniqueUsers(users) {
      var keep := (r: UserRow) => r.id != userId;
      var id := (r: UserRow) => r.id;
      var name := (r: UserRow) => r.username;
      assert DistinctBy(users, id) && DistinctBy(users, name);
      KeepUnique(users, keep, id);
      KeepUnique(users, keep, name);
    }
  }

  /**
   * After a complete delete nothing in the four tables refers to the target,
   * and every other user's rows are still there.
   */
  lemma DeleteRemovesTarget(sessions: seq<SessionRow>, progress: seq<ProgressRow>, stars: seq<StarRow>,
                            users: seq<UserRow>, target: string)
    ensures forall r :: r in SessionsWithout(sessions, target) ==> r.userId != target
    ensures forall r :: r in ProgressWithout(progress, target) ==> r.userId != target
    ensures forall r :: r in StarsWithout(stars, target) ==> r.userId != target
    ensures forall r :: r in UsersWithout(users, target) ==> r.id != target
    ensures forall r :: r in sessions && r.userId != target ==> r in SessionsWithout(sessions, target)
    ensures forall r :: r in progress && r.userId != target ==> r in ProgressWithout(progress, target)
    ensures forall r :: r in stars && r.userId != target ==> r in StarsWithout(stars, target)
    ensures forall r :: r in users && r.id != target ==> r in UsersWithout(users, target)
  {
    KeepMembers(sessions, (r: SessionRow) => r.userId != target);
    KeepMembers(progress, (r: ProgressRow) => r.userId != target);
    KeepMembers(stars, (r: StarRow) => r.userId != target);
    KeepMembers(users, (r: UserRow) => r.id != target);
  }
}
