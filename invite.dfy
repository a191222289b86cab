/**
 * `/api/invite`: admins create invitations carrying a one-week token, and
 * anyone can check a token before signing up with it.
 */
module Invite {
  import opened Wrappers
  import opened Text
  import opened Store
  import opened Requests

  /** Seven days in milliseconds. */
  const InviteLifetime: int := 7 * 24 * 60 * 60 * 1000
  const DefaultInviteRole: string := "researcher"
  const InvitableRoles: seq<string> := ["researcher", "contributor"]
  const SignupInvitePath: string := "/signup?invite="

  // ---------------------------------------------------------------------------
  // POST

  datatype CreateResponse =
    | Unauthorized
    | Forbidden
    | InvalidEmail
    | InvalidRole
    | InviteFailed
    | InviteCreated(inviteLink: string, email: string, role: string, expiresAt: int)

  /** The form fields the handler reads; the body as a whole is `None` when `formData()` throws. */
  datatype InviteForm = InviteForm(email: FormValue, role: FormValue)

  function CreateStatusCode(r: CreateResponse): int {
    match r
    case Unauthorized => 401
    case Forbidden => 403
    case InvalidEmail => 400
    case InvalidRole => 400
    case InviteFailed => 500
    case InviteCreated(_, _, _, _) => 200
  }

  /** `formData.get("role") || "researcher"`: a missing or empty field takes the default. */
  function RequestedRole(role: FormValue): FormValue {
    if role.Absent? || role == Text("") then Text(DefaultInviteRole) else role
  }

  predicate ValidEmail(email: FormValue) {
    email.Text? && Contains(email.text, "@")
  }

  predicate ValidInviteRole(role: FormValue) {
    role.Text? && role.text in InvitableRoles
  }

  /** The link sent to the invitee. */
  function InviteLink(origin: string, token: string): (r: string)
    ensures |r| == |origin| + |SignupInvitePath| + |token| && origin <= r && r[|r| - |token|..] == token
  {
    origin + SignupInvitePath + token
  }

  /** The insert violates the primary key or the unique token. */
  predicate InviteCollides(rows: seq<InvitationRow>, id: string, token: string) {
    exists i :: 0 <= i < |rows| && (rows[i].id == id || rows[i].token == token)
  }

  /**
   * 401 without a user and 403 for a non-admin, before the form is read;
   * a body that is not a form is then a 500 (the read is not guarded); then 400 for an e-mail without `@` and for a role other than researcher or
   * contributor (the role defaulting to researcher). The insert fails with a
   * 500 on a key clash or any other error; otherwise one unused invitation,
   * sent by the admin and expiring a week from now, is appended and its link
   * returned.
   */
  method CreateInvite(db: Database, user: Option<SessionUser>, form: Option<InviteForm>,
                      inviteId: string, token: string, now: int, origin: string, insertFails: bool)
    returns (resp: CreateResponse)
    requires db.Valid()
    modifies db`invitations
    ensures db.Valid()
    ensures user.None? ==> resp == Unauthorized && unchanged(db)
    ensures user.Some? && user.value.role != AdminRole ==> resp == Forbidden && unchanged(db)
    ensures IsAdmin(user) && form.None? ==> resp == InviteFailed && unchanged(db)
    ensures IsAdmin(user) && form.Some? && !ValidEmail(form.value.email) ==> resp == InvalidEmail && unchanged(db)
    ensures IsAdmin(user) && form.Some? && ValidEmail(form.value.email) &&
              !ValidInviteRole(RequestedRole(form.value.role)) ==>
      resp == InvalidRole && unchanged(db)
    ensures IsAdmin(user) && form.Some? && ValidEmail(form.value.email) &&
              ValidInviteRole(RequestedRole(form.value.role)) ==>
      var email := form.value.email;
      var r := RequestedRole(form.value.role).text;
      (InviteCollides(old(db.invitations), inviteId, token) || insertFails ==>
        resp == InviteFailed && unchanged(db)) &&
      (!InviteCollides(old(db.invitations), inviteId, token) && !insertFails ==>
        db.invitations == old(db.invitations) +
          [InvitationRow(inviteId, email.text, r, Some(user.value.id), token, now + InviteLifetime, None)] &&
        resp == InviteCreated(InviteLink(origin, token), email.text, r, now + InviteLifetime))
  {
    if user.None? {
      return Unauthorized;
    }
    if user.value.role != AdminRole {
      return Forbidden;
    }
    if form.None? {
      return InviteFailed;
    }
    var email := form.value.email;
    var r := RequestedRole(form.value.role);
    if !ValidEmail(email) {
      return InvalidEmail;
    }
    if !ValidInviteRole(r) {
      return InvalidRole;
    }
    var expiresAt := now + InviteLifetime;
    if InviteCollides(db.invitations, inviteId, token) || insertFails {
      return InviteFailed;
    }
    db.invitations := db.invitations +
      [InvitationRow(inviteId, email.text, r.text, Some(user.value.id), token, expiresAt, None)];
    resp := InviteCreated(InviteLink(origin, token), email.text, r.text, expiresAt);
  }

  /** Only researcher and contributor can be invited: admin and public are refused, and so is a file. */
  lemma InviteRoles(role: FormValue)
    ensures ValidInviteRole(RequestedRole(role)) <==>
      role.Absent? || role == Text("") || role == Text("researcher") || role == Text("contributor")
    ensures !ValidInviteRole(RequestedRole(Text(AdminRole))) && !ValidInviteRole(RequestedRole(Text("public")))
  {
    assert "admin" != "researcher" && "admin" != "contributor";
    assert "public" != "researcher" && "public" != "contributor";
  }

  // ---------------------------------------------------------------------------
  // GET

  datatype CheckResponse =
    | NoToken
    | UnknownToken
    | TokenUsed
    | TokenExpired
    | ValidInvite(email: string, role: string)

  function CheckStatusCode(r: CheckResponse): int {
    match r
    case NoToken => 400
    case UnknownToken => 404
    case TokenUsed => 400
    case TokenExpired => 400
    case ValidInvite(_, _) => 200
  }

  /** `select … where token = ? .get()`: the first invitation with that token. */
  function FindInvite(rows: seq<InvitationRow>, token: string): (r: Option<InvitationRow>)
    ensures r.Some? ==> r.value in rows && r.value.token == token
    ensures r.None? <==> forall i :: 0 <= i < |rows| ==> rows[i].token != token
  {
    if rows == [] then None
    else if rows[0].token == token then Some(rows[0])
    else FindInvite(rows[1..], token)
  }

  /** `invite.usedAt` is truthy: set and not zero. */
  predicate Used(row: InvitationRow) {
    row.usedAt.Some? && row.usedAt.value != 0
  }

  /** The ordered checks of a token (an empty query parameter is no token). */
  function CheckInvite(rows: seq<InvitationRow>, token: Option<string>, now: int): CheckResponse {
    if token.None? || token.value == "" then NoToken
    else
      var found := FindInvite(rows, token.value);
      if found.None? then UnknownToken
      else if Used(found.value) then TokenUsed
      else if found.value.expiresAt < now then TokenExpired
      else ValidInvite(found.value.email, found.value.role)
  }

  /**
   * The checks in order: a used token is reported as used even once it has
   * expired, expiry is strict so a token is still valid at its expiry time,
   * and a valid token yields the stored e-mail and role.
   */
  lemma CheckInviteOrder(rows: seq<InvitationRow>, token: string, now: int)
    requires token != ""
    ensures var found := FindInvite(rows, token);
      var r := CheckInvite(rows, Some(token), now);
      (found.None? <==> r == UnknownToken) &&
      (found.Some? && Used(found.value) <==> r == TokenUsed) &&
      (found.Some? && !Used(found.value) && found.value.expiresAt < now <==> r == TokenExpired) &&
      (r.ValidInvite? <==> found.Some? && !Used(found.value) && now <= found.value.expiresAt) &&
      (r.ValidInvite? ==> r.email == found.value.email && r.role == found.value.role)
  {
  }

  /** In a table with unique tokens the lookup returns the one row with that token. */
  lemma {:induction false} FindInviteUnique(rows: seq<InvitationRow>, i: nat)
    requires UniqueInvitations(rows) && i < |rows|
    ensures FindInvite(rows, rows[i].token) == Some(rows[i])
  {
    if i > 0 {
      assert rows[1..][i - 1] == rows[i];
      FindInviteUnique(rows[1..], i - 1);
    }
  }

  /**
   * An invitation just created validates, with its e-mail and role, from
   * any time up to and including its expiry a week later, and is expired
   * after it.
   */
  lemma CreatedInviteValidates(rows: seq<InvitationRow>, row: InvitationRow, created: int, now: int)
    requires UniqueInvitations(rows + [row]) && row.token != "" && row.usedAt.None?
    requires row.expiresAt == created + InviteLifetime
    ensures now <= created + InviteLifetime ==>
      CheckInvite(rows + [row], Some(row.token), now) == ValidInvite(row.email, row.role)
    ensures now > created + InviteLifetime ==> CheckInvite(rows + [row], Some(row.token), now) == TokenExpired
  {
    FindInviteUnique(rows + [row], |rows|);
  }
}
