/**
 * `POST /api/admin/users/role`: an admin sets a user's role, but never
 * demotes themself.
 */
module RoleChange {
  import opened Wrappers
  import opened Store
  import opened Requests

  const Roles: seq<string> := ["public", "researcher", "contributor", "admin"]

  /** The JSON body; `None` for a body that cannot be parsed. */
  datatype RoleBody = RoleBody(userId: string, role: string)

  datatype RoleResponse = Unauthorized | InvalidRole | SelfDemotion | RoleFailed | RoleSet(role: string)

  function StatusCode(r: RoleResponse): int {
    match r
    case Unauthorized => 401
    case InvalidRole => 400
    case SelfDemotion => 400
    case RoleFailed => 500
    case RoleSet(_) => 200
  }

  /** `update users set role = ? where id = ?`: every row with the id gets the role. */
  function WithRole(rows: seq<UserRow>, userId: string, role: string): (r: seq<UserRow>)
    ensures |r| == |rows|
  {
    seq(|rows|, i requires 0 <= i < |rows| => if rows[i].id == userId then rows[i].(role := role) else rows[i])
  }

  /** The caller would leave the admin role. */
  predicate Demotes(caller: SessionUser, body: RoleBody) {
    body.userId == caller.id && body.role != AdminRole
  }

  /**
   * 401 unless the caller is an admin. Then an unreadable body or a failed
   * update is a 500, an unknown role and a self-demotion 400s, none of them
   * writing. Otherwise the target's role is set and the role echoed, even
   * when no user has that id.
   */
  method ChangeRole(db: Database, caller: Option<SessionUser>, body: Option<RoleBody>, updateFails: bool)
    returns (resp: RoleResponse)
    requires db.Valid()
    modifies db`users
    ensures db.Valid()
    ensures !IsAdmin(caller) ==> resp == Unauthorized && unchanged(db)
    ensures IsAdmin(caller) && body.None? ==> resp == RoleFailed && unchanged(db)
    ensures IsAdmin(caller) && body.Some? && body.value.role !in Roles ==> resp == InvalidRole && unchanged(db)
    ensures IsAdmin(caller) && body.Some? && body.value.role in Roles && Demotes(caller.value, body.value) ==>
      resp == SelfDemotion && unchanged(db)
    ensures IsAdmin(caller) && body.Some? && body.value.role in Roles && !Demotes(caller.value, body.value) ==>
      (updateFails ==> resp == RoleFailed && unchanged(db)) &&
      (!updateFails ==>
        resp == RoleSet(body.value.role) && db.users == WithRole(old(db.users), body.value.userId, body.value.role))
  {
    if !IsAdmin(caller) {
      return Unauthorized;
    }
    if body.None? {
      return RoleFailed;
    }
    var b := body.value;
    if b.role !in Roles {
      return InvalidRole;
    }
    if Demotes(caller.value, b) {
      return SelfDemotion;
    }
    if updateFails {
      return RoleFailed;
    }
    WithRoleEffect(db.users, b.userId, b.role);
    db.users := WithRole(db.users, b.userId, b.role);
    resp := RoleSet(b.role);
  }

  /**
   * Only the target's role changes: every other column of every row and
   * every other user's row stay as they were, the constraints still hold, and
   * an id no user has leaves the table as it was.
   */
  lemma WithRoleEffect(rows: seq<UserRow>, userId: string, role: string)
    ensures var r := WithRole(rows, userId, role);
      (forall i :: 0 <= i < |rows| ==> r[i] == if rows[i].id == userId then rows[i].(role := role) else rows[i]) &&
      (UniqueUsers(rows) ==> UniqueUsers(r)) &&
      ((forall i :: 0 <= i < |rows| ==> rows[i].id != userId) ==> r == rows)
  {
  }

  /** An admin can never remove their own admin role, but may re-assign it. */
  lemma NoSelfDemotion(caller: SessionUser, role: string)
    requires caller.role == AdminRole && role in Roles
    ensures Demotes(caller, RoleBody(caller.id, role)) <==> role != AdminRole
  {
  }
}
