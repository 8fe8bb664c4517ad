/**
 * `src/lib/auth.ts`: session validation over the session table, in its two
 * shapes (a tagged result for API routes, a redirect for pages).
 *
 * The fire-and-forget `deleteExpired()` is modelled by `sweep`: when true the
 * sweep runs to completion before the lookup. `failing` names the store calls
 * that throw during this request.
 */
module Auth {
  import opened Common
  import opened Http
  import opened Db

  /** `AuthResult`: `authenticated` with the optional `session` and `errorResponse`. */
  datatype AuthResult = AuthResult(authenticated: bool, session: Option<Session>, errorResponse: Option<Response>)

  /** What a page gets from `validateSession`: the session, a redirect, or an escaping error. */
  datatype PageAuth = Admitted(session: Session) | RedirectTo(path: string) | Escapes

  function Rejected(status: int, m: Msg): AuthResult {
    AuthResult(false, None, Some(ErrorResponse(status, m)))
  }

  /**
   * The acceptance rule shared by every caller: a non-empty session cookie
   * names a row whose `expires_at` is not before now (the test is a strict `<`),
   * and the lookup itself does not fail.
   */
  predicate Accepts(sessions: map<string, Session>, jar: CookieJar, now: int, failing: set<Call>)
    // An accepted session survives its lookup, renewed.
    ensures jar.Jar? && Truthy(jar.session) && Accepts(sessions, jar, now, failing) ==>
      var id := jar.session.value;
      id in AfterLookup(sessions, id, now, failing)
      && AfterLookup(sessions, id, now, failing)[id].expiresAt == now + RenewalMs
    // A rejected cookie naming a row leaves it deleted, unless a store call fails.
    ensures jar.Jar? && Truthy(jar.session) && !Accepts(sessions, jar, now, failing)
            && FindSession !in failing && DeleteSession !in failing ==>
      jar.session.value !in AfterLookup(sessions, jar.session.value, now, failing)
  {
    && jar.Jar? && Truthy(jar.session)
    && FindSession !in failing
    && jar.session.value in sessions
    && sessions[jar.session.value].expiresAt >= now
  }

  /** The table after the optional sweep that precedes the lookup. */
  function AfterSweep(sessions: map<string, Session>, now: int, sweep: bool, failing: set<Call>): map<string, Session> {
    if sweep && SweepSessions !in failing then Unexpired(sessions, now) else sessions
  }

  /** The sweep removes only rows the lookup would reject, so it never changes the verdict. */
  lemma SweepKeepsVerdict(sessions: map<string, Session>, jar: CookieJar, now: int, sweep: bool, failing: set<Call>)
    ensures Accepts(AfterSweep(sessions, now, sweep, failing), jar, now, failing) <==> Accepts(sessions, jar, now, failing)
    ensures Accepts(sessions, jar, now, failing) ==>
      AfterSweep(sessions, now, sweep, failing)[jar.session.value] == sessions[jar.session.value]
  {
  }

  /**
   * The session table after `findById` and, for a row found stale, the
   * `delete` that follows: the row looked up is renewed, then removed if it
   * was stale; an unknown id or a failed lookup leaves the table as it was.
   */
  function AfterLookup(sessions: map<string, Session>, id: string, now: int, failing: set<Call>)
    : (r: map<string, Session>)
    // No other session is touched.
    ensures forall k :: k != id ==> (k in r <==> k in sessions) && (k in r ==> r[k] == sessions[k])
    ensures FindSession in failing || id !in sessions ==> r == sessions
    ensures FindSession !in failing && id in r ==> id in sessions && r[id] == Renewed(sessions[id], now)
    // A live row stays (renewed); a stale one goes unless its delete fails.
    ensures FindSession !in failing && id in sessions ==>
      (id in r <==> sessions[id].expiresAt >= now || DeleteSession in failing)
  {
    if FindSession in failing || id !in sessions then sessions
    else if sessions[id].expiresAt < now then
      (if DeleteSession in failing then sessions[id := Renewed(sessions[id], now)] else sessions - {id})
    else sessions[id := Renewed(sessions[id], now)]
  }

  /** The session table after `requireAuth`: the optional sweep, then the lookup when a cookie is present. */
  function AuthTable(sessions: map<string, Session>, jar: CookieJar, now: int, sweep: bool, failing: set<Call>)
    : map<string, Session>
  {
    var s0 := AfterSweep(sessions, now, sweep, failing);
    if jar.Jar? && Truthy(jar.session) then AfterLookup(s0, jar.session.value, now, failing) else s0
  }

  /** The prebuilt error response of `requireAuth`: 500 when the cookies cannot be read, else 401. */
  function Rejection(jar: CookieJar): Response {
    if jar.Unreadable? then ErrorResponse(500, ServerError) else ErrorResponse(401, AuthRequired)
  }

  /**
   * `requireAuth`. No cookie, an unknown id, or a row found stale gives 401;
   * a stale row is deleted after `findById` has already renewed it. Reading
   * the cookies may throw, which gives 500.
   */
  method RequireAuth(db: Store, jar: CookieJar, now: int, sweep: bool, failing: set<Call>) returns (r: AuthResult)
    requires db.Valid()
    modifies db`sessions
    ensures db.Valid()
    ensures r.authenticated ==> r.session.Some? && r.errorResponse.None?
    ensures !r.authenticated ==> r.session.None? && r.errorResponse.Some?
    ensures r.authenticated <==> Accepts(old(db.sessions), jar, now, failing)
    ensures r.authenticated ==> r.session.value == old(db.sessions)[jar.session.value]
    ensures !r.authenticated ==> r.errorResponse == Some(Rejection(jar))
    ensures db.sessions == AuthTable(old(db.sessions), jar, now, sweep, failing)
  {
    SweepKeepsVerdict(old(db.sessions), jar, now, sweep, failing);
    if sweep {
      db.DeleteExpired(now, SweepSessions in failing);
    }
    if jar.Unreadable? {
      return Rejected(500, ServerError);
    }
    if !Truthy(jar.session) {
      return Rejected(401, AuthRequired);
    }
    var id := jar.session.value;
    var found := db.FindSession(id, now, FindSession in failing);
    if found.None? {
      return Rejected(401, AuthRequired);
    }
    if found.value.expiresAt < now {
      db.DeleteSession(id, DeleteSession in failing);
      return Rejected(401, AuthRequired);
    }
    r := AuthResult(true, Some(found.value), None);
  }

  /**
   * `validateSession`: the same rule, but every rejection redirects to /login.
   * The cookie read sits outside the `try`, so an error there escapes; the
   * sweep starts only once a cookie is present.
   */
  method ValidateSession(db: Store, jar: CookieJar, now: int, sweep: bool, failing: set<Call>) returns (g: PageAuth)
    requires db.Valid()
    modifies db`sessions
    ensures db.Valid()
    ensures jar.Unreadable? <==> g.Escapes?
    ensures g.Admitted? <==> Accepts(old(db.sessions), jar, now, failing)
    ensures g.Admitted? ==> g.session == old(db.sessions)[jar.session.value]
    ensures g.RedirectTo? ==> g.path == "/login"
    // The sweep starts only once a cookie is present.
    ensures db.sessions == if jar.Jar? && Truthy(jar.session) then AuthTable(old(db.sessions), jar, now, sweep, failing)
                           else old(db.sessions)
  {
    SweepKeepsVerdict(old(db.sessions), jar, now, sweep, failing);
    if jar.Unreadable? {
      return Escapes;
    }
    if !Truthy(jar.session) {
      return RedirectTo("/login");
    }
    var id := jar.session.value;
    if sweep {
      db.DeleteExpired(now, SweepSessions in failing);
    }
    var found := db.FindSession(id, now, FindSession in failing);
    if found.None? {
      return RedirectTo("/login");
    }
    if found.value.expiresAt < now {
      db.DeleteSession(id, DeleteSession in failing);
      return RedirectTo("/login");
    }
    g := Admitted(found.value);
  }

  /** `isAuthenticationRequired`: the negation of `requireAuth().authenticated`. */
  method IsAuthenticationRequired(db: Store, jar: CookieJar, now: int, sweep: bool, failing: set<Call>)
    returns (required: bool)
    requires db.Valid()
    modifies db`sessions
    ensures db.Valid()
    ensures required <==> !Accepts(old(db.sessions), jar, now, failing)
    ensures db.sessions == AuthTable(old(db.sessions), jar, now, sweep, failing)
  {
    var auth := RequireAuth(db, jar, now, sweep, failing);
    required := !auth.authenticated;
  }
}
