/**
 * `POST /api/signup`: validate the form, insert a `public` user and open a
 * session for it.
 */
module Signup {
  import opened Wrappers
  import opened Store
  import opened Requests
  import opened Credentials

  /** The role column's schema default: the insert names no role. */
  const DefaultRole: string := "public"

  datatype SignupResponse =
    | InvalidUsername
    | InvalidPassword
    | UsernameTaken
    | SignupFailed
    | SignedUp(userId: string)

  /** The form fields the handler reads; the body as a whole is `None` when `formData()` throws. */
  datatype SignupForm = SignupForm(username: FormValue, password: FormValue)

  /** 400 for bad input and a taken name, 500 for any other failure, 302 to `/` on success. */
  function StatusCode(r: SignupResponse): int {
    match r
    case InvalidUsername => 400
    case InvalidPassword => 400
    case UsernameTaken => 400
    case SignupFailed => 500
    case SignedUp(_) => 302
  }

  predicate UsernameInUse(rows: seq<UserRow>, username: string) {
    exists i :: 0 <= i < |rows| && rows[i].username == username
  }

  predicate UserIdInUse(rows: seq<UserRow>, id: string) {
    exists i :: 0 <= i < |rows| && rows[i].id == id
  }

  /**
   * The inserted row: no e-mail, the default role, and the column default
   * for the creation time (a value fixed outside the request, not the
   * request's clock).
   */
  function NewUser(id: string, username: string, passwordHash: string, defaultCreatedAt: int): UserRow {
    UserRow(id, username, passwordHash, None, DefaultRole, defaultCreatedAt)
  }

  /**
   * A body that is not a form is a 500 (the read is not guarded).
   * Invalid input is refused before anything is written, the username first.
   * The insert then fails on the unique username (400 `Username already
   * taken`), on the primary key or on any other error (500); otherwise one
   * `public` user is appended. A session is then created for it; if that
   * fails the answer is a 500 and the user row stays.
   */
  method SignupUser(db: Database, form: Option<SignupForm>, userId: string, passwordHash: string,
                    defaultCreatedAt: int, insertFails: bool, sessionId: string, sessionExpiresAt: int,
                    sessionFails: bool)
    returns (resp: SignupResponse)
    requires db.Valid()
    modifies db`users, db`sessions
    ensures db.Valid()
    ensures form.None? ==> resp == SignupFailed && unchanged(db)
    ensures form.Some? && CheckCredentials(form.value.username, form.value.password) == Some(BadUsername) ==>
      resp == InvalidUsername && unchanged(db)
    ensures form.Some? && CheckCredentials(form.value.username, form.value.password) == Some(BadPassword) ==>
      resp == InvalidPassword && unchanged(db)
    ensures form.Some? && CheckCredentials(form.value.username, form.value.password).None? ==>
      var name := form.value.username.text;
      (UsernameInUse(old(db.users), name) ==> resp == UsernameTaken && unchanged(db)) &&
      (!UsernameInUse(old(db.users), name) && (UserIdInUse(old(db.users), userId) || insertFails) ==>
        resp == SignupFailed && unchanged(db)) &&
      (!UsernameInUse(old(db.users), name) && !UserIdInUse(old(db.users), userId) && !insertFails ==>
        db.users == old(db.users) + [NewUser(userId, name, passwordHash, defaultCreatedAt)] &&
        (sessionFails || SessionIdInUse(old(db.sessions), sessionId) ==>
          resp == SignupFailed && db.sessions == old(db.sessions)) &&
        (!sessionFails && !SessionIdInUse(old(db.sessions), sessionId) ==>
          resp == SignedUp(userId) &&
          db.sessions == old(db.sessions) + [SessionRow(sessionId, userId, sessionExpiresAt)]))
  {
    if form.None? {
      return SignupFailed;
    }
    var check := CheckCredentials(form.value.username, form.value.password);
    if check == Some(BadUsername) {
      return InvalidUsername;
    }
    if check == Some(BadPassword) {
      return InvalidPassword;
    }
    var name := form.value.username.text;
    if UsernameInUse(db.users, name) {
      return UsernameTaken;
    }
    if UserIdInUse(db.users, userId) || insertFails {
      return SignupFailed;
    }
    db.users := db.users + [NewUser(userId, name, passwordHash, defaultCreatedAt)];
    if sessionFails || SessionIdInUse(db.sessions, sessionId) {
      return SignupFailed;
    }
    db.sessions := db.sessions + [SessionRow(sessionId, userId, sessionExpiresAt)];
    resp := SignedUp(userId);
  }
}
