/**
 * `/api/star`: a signed-in user toggles a star on a paper slug and reads
 * their stars back.
 */
module Stars {
  import opened Wrappers
  import opened Store
  import opened Requests

  /** The user has a star row for the slug. */
  predicate Starred(rows: seq<StarRow>, userId: string, slug: string) {
    exists i :: 0 <= i < |rows| && rows[i].userId == userId && rows[i].paperSlug == slug
  }

  /** At most one row per user and slug: the shape the toggle keeps. */
  predicate OneStarEach(rows: seq<StarRow>) {
    forall i, j :: 0 <= i < j < |rows| ==>
      !(rows[i].userId == rows[j].userId && rows[i].paperSlug == rows[j].paperSlug)
  }

  /** `select … where user = ? and slug = ? .get()`: the position of the first matching row. */
  function FindStar(rows: seq<StarRow>, userId: string, slug: string): (r: Option<nat>)
    ensures r.Some? ==> r.value < |rows| && rows[r.value].userId == userId && rows[r.value].paperSlug == slug
    ensures r.None? <==> !Starred(rows, userId, slug)
  {
    if rows == [] then None
    else if rows[0].userId == userId && rows[0].paperSlug == slug then Some(0)
    else
      var rest := FindStar(rows[1..], userId, slug);
      assert rest.None? ==> forall i :: 1 <= i < |rows| ==> rows[1..][i - 1] == rows[i];
      if rest.None? then None else Some(rest.value + 1)
  }

  function RemoveAt(rows: seq<StarRow>, k: nat): seq<StarRow>
    requires k < |rows|
  {
    rows[..k] + rows[k + 1..]
  }

  /** The table after a toggle: the found row deleted, or a new row appended. */
  function Toggled(rows: seq<StarRow>, userId: string, slug: string, newId: int, now: int): seq<StarRow> {
    var found := FindStar(rows, userId, slug);
    if found.Some? then RemoveAt(rows, found.value) else rows + [StarRow(newId, userId, slug, now)]
  }

  predicate StarIdInUse(rows: seq<StarRow>, id: int) {
    exists i :: 0 <= i < |rows| && rows[i].id == id
  }

  datatype ToggleResponse = Unauthorized | MissingSlug | ToggleFailed | StarState(starred: bool)

  function ToggleStatusCode(r: ToggleResponse): int {
    match r
    case Unauthorized => 401
    case MissingSlug => 400
    case ToggleFailed => 500
    case StarState(_) => 200
  }

  /**
   * 401 without a user; an unreadable body is an error and a missing slug a
   * 400, neither writing. Otherwise an existing star of the user on the slug
   * is deleted (`starred: false`) or a new one inserted (`starred: true`);
   * a delete or insert that throws is a 500 with the table unchanged.
   * `newId` is the next auto-increment id.
   */
  method ToggleStar(db: Database, user: Option<SessionUser>, body: Option<string>, newId: int, now: int,
                    writeFails: bool)
    returns (resp: ToggleResponse)
    requires db.Valid() && !StarIdInUse(db.stars, newId)
    modifies db`stars
    ensures db.Valid()
    ensures user.None? ==> resp == Unauthorized && unchanged(db)
    ensures user.Some? && body.None? ==> resp == ToggleFailed && unchanged(db)
    ensures user.Some? && body == Some("") ==> resp == MissingSlug && unchanged(db)
    ensures user.Some? && body.Some? && body.value != "" && writeFails ==> resp == ToggleFailed && unchanged(db)
    ensures user.Some? && body.Some? && body.value != "" && !writeFails ==>
      db.stars == Toggled(old(db.stars), user.value.id, body.value, newId, now) &&
      resp == StarState(!Starred(old(db.stars), user.value.id, body.value))
  {
    if user.None? {
      return Unauthorized;
    }
    if body.None? {
      return ToggleFailed;
    }
    var slug := body.value;
    if slug == "" {
      return MissingSlug;
    }
    var userId := user.value.id;
    var existing := FindStar(db.stars, userId, slug);
    if writeFails {
      return ToggleFailed;
    }
    if existing.Some? {
      db.stars := RemoveAt(db.stars, existing.value);
      resp := StarState(false);
    } else {
      db.stars := db.stars + [StarRow(newId, userId, slug, now)];
      resp := StarState(true);
    }
    ToggleKeepsIds(old(db.stars), userId, slug, newId, now);
  }

  lemma ToggleKeepsIds(rows: seq<StarRow>, userId: string, slug: string, newId: int, now: int)
    requires UniqueStarIds(rows) && !StarIdInUse(rows, newId)
    ensures UniqueStarIds(Toggled(rows, userId, slug, newId, now))
  {
    var found := FindStar(rows, userId, slug);
    if found.Some? {
      var k := found.value;
      var r := RemoveAt(rows, k);
      forall i, j | 0 <= i < j < |r|
        ensures r[i].id != r[j].id
      {
        var i' := if i < k then i else i + 1;
        var j' := if j < k then j else j + 1;
        assert r[i] == rows[i'] && r[j] == rows[j'];
      }
    }
  }

  /** Deleting one row removes exactly that row's star and no other. */
  lemma RemoveAtStars(rows: seq<StarRow>, k: nat, userId: string, slug: string)
    requires k < |rows| && OneStarEach(rows)
    ensures var r := RemoveAt(rows, k);
      Starred(r, userId, slug) <==>
        Starred(rows, userId, slug) && !(rows[k].userId == userId && rows[k].paperSlug == slug)
  {
    var r := RemoveAt(rows, k);
    if Starred(r, userId, slug) {
      var i :| 0 <= i < |r| && r[i].userId == userId && r[i].paperSlug == slug;
      var i' := if i < k then i else i + 1;
      assert r[i] == rows[i'];
    }
    if Starred(rows, userId, slug) && !(rows[k].userId == userId && rows[k].paperSlug == slug) {
      var i :| 0 <= i < |rows| && rows[i].userId == userId && rows[i].paperSlug == slug;
      if i < k {
        assert r[i] == rows[i];
      } else {
        assert r[i - 1] == rows[i];
      }
    }
  }

  /**
   * A toggle flips the user's star on that slug, leaves every other user's
   * and slug's star as it was, and keeps one row per user and slug.
   */
  lemma ToggleFlips(rows: seq<StarRow>, userId: string, slug: string, newId: int, now: int)
    requires OneStarEach(rows)
    ensures var t := Toggled(rows, userId, slug, newId, now);
      OneStarEach(t) &&
      (Starred(t, userId, slug) <==> !Starred(rows, userId, slug)) &&
      (forall u, s :: (u, s) != (userId, slug) ==> (Starred(t, u, s) <==> Starred(rows, u, s)))
  {
    var t := Toggled(rows, userId, slug, newId, now);
    var found := FindStar(rows, userId, slug);
    if found.Some? {
      var k := found.value;
      forall u, s
        ensures Starred(t, u, s) <==> Starred(rows, u, s) && !(u == userId && s == slug)
      {
        RemoveAtStars(rows, k, u, s);
      }
      forall i, j | 0 <= i < j < |t|
        ensures !(t[i].userId == t[j].userId && t[i].paperSlug == t[j].paperSlug)
      {
        var i' := if i < k then i else i + 1;
        var j' := if j < k then j else j + 1;
        assert t[i] == rows[i'] && t[j] == rows[j'];
      }
    } else {
      assert t[|rows|].userId == userId && t[|rows|].paperSlug == slug;
      forall u, s | (u, s) != (userId, slug) && Starred(t, u, s)
        ensures Starred(rows, u, s)
      {
        var i :| 0 <= i < |t| && t[i].userId == u && t[i].paperSlug == s;
        assert i < |rows| && t[i] == rows[i];
      }
      forall u, s | Starred(rows, u, s)
        ensures Starred(t, u, s)
      {
        var i :| 0 <= i < |rows| && rows[i].userId == u && rows[i].paperSlug == s;
        assert t[i] == rows[i];
      }
    }
  }

  /** Two toggles of the same star restore every user's stars. */
  lemma ToggleTwiceRestores(rows: seq<StarRow>, userId: string, slug: string, id1: int, id2: int, t1: int, t2: int)
    requires OneStarEach(rows)
    ensures var twice := Toggled(Toggled(rows, userId, slug, id1, t1), userId, slug, id2, t2);
      forall u, s :: Starred(twice, u, s) <==> Starred(rows, u, s)
  {
    ToggleFlips(rows, userId, slug, id1, t1);
    ToggleFlips(Toggled(rows, userId, slug, id1, t1), userId, slug, id2, t2);
  }

  // ---------------------------------------------------------------------------
  // GET

  datatype StarQueryResponse = QueryUnauthorized | StarStatus(starred: bool) | StarList(slugs: seq<string>)

  /** The slugs the user starred, in table order. */
  function UserSlugs(rows: seq<StarRow>, userId: string): seq<string> {
    if rows == [] then []
    else (if rows[0].userId == userId then [rows[0].paperSlug] else []) + UserSlugs(rows[1..], userId)
  }

  /** With a slug: whether it is starred; without one: every slug the user starred. */
  function QueryStars(rows: seq<StarRow>, user: Option<SessionUser>, slug: string): StarQueryResponse {
    if user.None? then QueryUnauthorized
    else if slug != "" then StarStatus(FindStar(rows, user.value.id, slug).Some?)
    else StarList(UserSlugs(rows, user.value.id))
  }

  lemma {:induction false} UserSlugsExact(rows: seq<StarRow>, userId: string)
    ensures forall s :: s in UserSlugs(rows, userId) <==> Starred(rows, userId, s)
    decreases |rows|
  {
    if rows != [] {
      UserSlugsExact(rows[1..], userId);
      forall s
        ensures Starred(rows, userId, s) <==> (rows[0].userId == userId && rows[0].paperSlug == s) || Starred(rows[1..], userId, s)
      {
        if Starred(rows, userId, s) {
          var i :| 0 <= i < |rows| && rows[i].userId == userId && rows[i].paperSlug == s;
          if i > 0 {
            assert rows[1..][i - 1] == rows[i];
          }
        }
        if Starred(rows[1..], userId, s) {
          var i :| 0 <= i < |rows[1..]| && rows[1..][i].userId == userId && rows[1..][i].paperSlug == s;
          assert rows[i + 1] == rows[1..][i];
        }
      }
    }
  }

  /**
   * The query agrees with the toggle: a slug reports starred exactly when
   * the user has a row for it, and the list names exactly the starred slugs.
   */
  lemma QueryStarsExact(rows: seq<StarRow>, user: SessionUser, slug: string)
    ensures slug != "" ==> QueryStars(rows, Some(user), slug) == StarStatus(Starred(rows, user.id, slug))
    ensures slug == "" ==>
      QueryStars(rows, Some(user), slug).StarList? &&
      forall s :: s in QueryStars(rows, Some(user), slug).slugs <==> Starred(rows, user.id, s)
  {
    UserSlugsExact(rows, user.id);
  }
}
