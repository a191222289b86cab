/**
 * `POST /api/login`: the sign-up validators, a lookup by username, a password
 * check, and a session for the user on success. An unknown name and a wrong
 * password get the same answer.
 */
module Login {
  import opened Wrappers
  import opened Store
  import opened Requests
  import opened Credentials
  import Signup

  datatype LoginResponse =
    | InvalidUsername
    | InvalidPassword
    | IncorrectCredentials
    | LoginFailed
    | LoggedIn(userId: string)

  /** The form fields the handler reads; the body as a whole is `None` when `formData()` throws. */
  datatype LoginForm = LoginForm(username: FormValue, password: FormValue)

  /** 400 for every refusal, 500 for an unreadable body or a session that cannot be created, 302 to `/` on success. */
  function StatusCode(r: LoginResponse): int {
    match r
    case LoggedIn(_) => 302
    case LoginFailed => 500
    case _ => 400
  }

  /** `select … where username = ? .get()`: the first row with that username. */
  function FindUser(rows: seq<UserRow>, username: string): (r: Option<UserRow>)
    ensures r.Some? ==> r.value in rows && r.value.username == username
    ensures r.None? <==> forall i :: 0 <= i < |rows| ==> rows[i].username != username
  {
    if rows == [] then None
    else if rows[0].username == username then Some(rows[0])
    else FindUser(rows[1..], username)
  }

  /**
   * The decision of the handler; `verify(hash, password)` is the password
   * hash check, which is outside the model.
   */
  function LoginDecision(rows: seq<UserRow>, username: FormValue, password: FormValue,
                         verify: (string, string) -> bool): LoginResponse
  {
    match CheckCredentials(username, password)
    case Some(BadUsername) => InvalidUsername
    case Some(BadPassword) => InvalidPassword
    case None =>
      var found := FindUser(rows, username.text);
      if found.None? || !verify(found.value.passwordHash, password.text) then IncorrectCredentials
      else LoggedIn(found.value.id)
  }

  /**
   * Reads the form (a 500 when the body is not a form; the read is not
   * guarded), runs the decision and, on success, opens a session for the
   * user; a session that cannot be created is a 500 with nothing written.
   */
  method LoginUser(db: Database, form: Option<LoginForm>, verify: (string, string) -> bool,
                   sessionId: string, sessionExpiresAt: int, sessionFails: bool)
    returns (resp: LoginResponse)
    requires db.Valid()
    modifies db`sessions
    ensures db.Valid()
    ensures form.None? ==> resp == LoginFailed && db.sessions == old(db.sessions)
    ensures form.Some? ==>
      var decision := LoginDecision(old(db.users), form.value.username, form.value.password, verify);
      (!decision.LoggedIn? ==> resp == decision && db.sessions == old(db.sessions)) &&
      (decision.LoggedIn? && (sessionFails || SessionIdInUse(old(db.sessions), sessionId)) ==>
        resp == LoginFailed && db.sessions == old(db.sessions)) &&
      (decision.LoggedIn? && !sessionFails && !SessionIdInUse(old(db.sessions), sessionId) ==>
        resp == decision &&
        db.sessions == old(db.sessions) + [SessionRow(sessionId, decision.userId, sessionExpiresAt)])
  {
    if form.None? {
      return LoginFailed;
    }
    resp := LoginDecision(db.users, form.value.username, form.value.password, verify);
    if resp.LoggedIn? {
      if sessionFails || SessionIdInUse(db.sessions, sessionId) {
        return LoginFailed;
      }
      db.sessions := db.sessions + [SessionRow(sessionId, resp.userId, sessionExpiresAt)];
    }
  }

  /**
   * Invalid input is answered without looking at the table or the hash
   * check: any two tables and checkers give the same answer.
   */
  lemma ValidationBeforeLookup(a: seq<UserRow>, b: seq<UserRow>, username: FormValue, password: FormValue,
                               verifyA: (string, string) -> bool, verifyB: (string, string) -> bool)
    requires !ValidUsername(username) || !ValidPassword(password)
    ensures LoginDecision(a, username, password, verifyA) == LoginDecision(b, username, password, verifyB)
    ensures !ValidUsername(username) ==> LoginDecision(a, username, password, verifyA) == InvalidUsername
  {
  }

  /**
   * With valid input, the refusal is the same whether the name is unknown
   * or the password wrong, and a success names a user with that name whose
   * stored hash accepts the password.
   */
  lemma UniformFailure(rows: seq<UserRow>, username: FormValue, password: FormValue,
                       verify: (string, string) -> bool)
    requires ValidUsername(username) && ValidPassword(password)
    ensures (forall i :: 0 <= i < |rows| ==> rows[i].username != username.text) ==>
      LoginDecision(rows, username, password, verify) == IncorrectCredentials
    ensures var found := FindUser(rows, username.text);
      found.Some? && !verify(found.value.passwordHash, password.text) ==>
      LoginDecision(rows, username, password, verify) == IncorrectCredentials
    ensures LoginDecision(rows, username, password, verify).LoggedIn? ==>
      exists i :: 0 <= i < |rows| && rows[i].id == LoginDecision(rows, username, password, verify).userId &&
        rows[i].username == username.text && verify(rows[i].passwordHash, password.text)
  {
    var found := FindUser(rows, username.text);
    if found.Some? {
      var i :| 0 <= i < |rows| && rows[i] == found.value;
    }
  }

  /** In a table with unique usernames the lookup returns the one row with that name. */
  lemma {:induction false} FindUserUnique(rows: seq<UserRow>, i: nat)
    requires UniqueUsers(rows) && i < |rows|
    ensures FindUser(rows, rows[i].username) == Some(rows[i])
  {
    if i > 0 {
      assert rows[1..][i - 1] == rows[i];
      FindUserUnique(rows[1..], i - 1);
    }
  }

  /**
   * Signing up and then logging in with the same credentials succeeds for
   * the new user, when the hash check accepts the password for the hash
   * stored at sign-up.
   */
  lemma SignupThenLogin(rows: seq<UserRow>, username: FormValue, password: FormValue, userId: string,
                        passwordHash: string, createdAt: int, verify: (string, string) -> bool)
    requires ValidUsername(username) && ValidPassword(password)
    requires UniqueUsers(rows + [Signup.NewUser(userId, username.text, passwordHash, createdAt)])
    requires verify(passwordHash, password.text)
    ensures LoginDecision(rows + [Signup.NewUser(userId, username.text, passwordHash, createdAt)],
                          username, password, verify) == LoggedIn(userId)
  {
    var table := rows + [Signup.NewUser(userId, username.text, passwordHash, createdAt)];
    FindUserUnique(table, |rows|);
  }
}
