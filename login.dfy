/**
 * `POST /api/auth/login`: a ladder of guards ending in a status, then a sweep
 * of expired sessions, a new session row and the session cookie.
 *
 * `passwordMatches` stands for bcrypt's compare, `random` for the 32 bytes of
 * `randomBytes`, and `expiryDays` for `SESSION_EXPIRY_DAYS`.
 */
module LoginRoute {
  import opened Common
  import opened Http
  import opened Db
  import opened Tokens

  datatype Credentials = Credentials(username: Option<string>, password: Option<string>)

  /** The cookie's `secure` flag: HTTPS behind the proxy, or a development build. */
  function SecureFlag(env: Env): (secure: bool)
    ensures secure <==> env.forwardedProto == Some("https") || env.nodeEnv == Some("development")
    ensures env.nodeEnv == Some("development") ==> secure
  {
    env.forwardedProto == Some("https") || env.nodeEnv == Some("development")
  }

  /** The session cookie set on success: httpOnly, SameSite=Strict, path `/`. */
  function SessionCookie(id: string, expiresAt: int, env: Env): (c: Cookie)
    ensures c.name == "session" && c.value == id && c.expires == expiresAt
    ensures c.httpOnly && c.sameSite == Strict && c.path == "/" && c.secure == SecureFlag(env)
  {
    Cookie("session", id, true, SecureFlag(env), Strict, expiresAt, "/")
  }

  /** The user found and the password right: the point where 401 can no longer happen. */
  predicate CredentialsMatch(
    users: map<string, User>, c: Credentials, passwordMatches: (string, string) -> bool, failing: set<Call>)
    requires Truthy(c.username) && Truthy(c.password)
  {
    && FindUser !in failing
    && c.username.value in users
    && passwordMatches(c.password.value, users[c.username.value].password)
  }

  method Post(
    db: Store, body: Parsed<Credentials>, env: Env, random: seq<byte>,
    passwordMatches: (string, string) -> bool, expiryDays: int, now: int, failing: set<Call>)
    returns (resp: Response)
    requires db.Valid()
    requires |random| == TokenBytes
    modifies db`sessions
    ensures db.Valid()
    // The cookie value is the 64-character hex id of a new session.
    ensures resp.status == 200 ==>
      && resp.cookie.SetCookie? && |resp.cookie.cookie.value| == 64
      && (forall i :: 0 <= i < 64 ==> IsLowerHex(resp.cookie.cookie.value[i]))
    // Every failure leaves the cookies alone; only a 200 sets one.
    ensures resp.status != 200 ==> resp.cookie == Untouched
    ensures resp.status in {200, 400, 401, 403, 500}
    ensures body.Malformed? ==> resp == ErrorResponse(500, ServerErrorSpaced) && db.sessions == old(db.sessions)
    ensures body.Parsed? && !(Truthy(body.value.username) && Truthy(body.value.password)) ==>
      resp == ErrorResponse(400, LoginMissingFields) && db.sessions == old(db.sessions)
    // Unknown user and wrong password are indistinguishable.
    ensures body.Parsed? && Truthy(body.value.username) && Truthy(body.value.password)
            && !CredentialsMatch(db.users, body.value, passwordMatches, failing) ==>
      resp == ErrorResponse(401, BadCredentials) && db.sessions == old(db.sessions)
    // The verification flag is consulted only after the password matched.
    ensures body.Parsed? && Truthy(body.value.username) && Truthy(body.value.password)
            && CredentialsMatch(db.users, body.value, passwordMatches, failing)
            && db.users[body.value.username.value].verified == 0 ==>
      resp == ErrorResponse(403, NotApproved) && db.sessions == old(db.sessions)
    ensures body.Parsed? && Truthy(body.value.username) && Truthy(body.value.password)
            && CredentialsMatch(db.users, body.value, passwordMatches, failing)
            && db.users[body.value.username.value].verified != 0 ==>
      var user := db.users[body.value.username.value];
      var id := Hex(random);
      var expiresAt := now + expiryDays * DayMs;
      var swept := if SweepSessions in failing then old(db.sessions) else Unexpired(old(db.sessions), now);
      if InsertSession in failing || id in swept then
        resp == ErrorResponse(500, ServerErrorSpaced) && db.sessions == swept
      else
        && resp == Response(200, MessageBody(LoginSucceeded), SetCookie(SessionCookie(id, expiresAt, env)))
        && db.sessions == swept[id := Session(id, user.id, now, expiresAt)]
  {
    if body.Malformed? {
      return ErrorResponse(500, ServerErrorSpaced);
    }
    var username, password := body.value.username, body.value.password;
    if !Truthy(username) || !Truthy(password) {
      return ErrorResponse(400, LoginMissingFields);
    }
    var user := db.FindByUsername(username.value, FindUser in failing);
    if user.None? {
      return ErrorResponse(401, BadCredentials);
    }
    if !passwordMatches(password.value, user.value.password) {
      return ErrorResponse(401, BadCredentials);
    }
    if user.value.verified == 0 {
      return ErrorResponse(403, NotApproved);
    }
    db.DeleteExpired(now, SweepSessions in failing);
    var id := Hex(random);
    TokenShape(random);
    var expiresAt := now + expiryDays * DayMs;
    var created := db.CreateSession(id, user.value.id, expiresAt, now, InsertSession in failing);
    if !created {
      return ErrorResponse(500, ServerErrorSpaced);
    }
    resp := Response(200, MessageBody(LoginSucceeded), SetCookie(SessionCookie(id, expiresAt, env)));
  }

  /**
   * With a lifetime longer than the seven-day renewal, the first lookup of a
   * new session, at the login instant, moves its expiry below the one the
   * login stored and the cookie carries.
   */
  method FirstLookupShortens(
    db: Store, body: Parsed<Credentials>, env: Env, random: seq<byte>,
    passwordMatches: (string, string) -> bool, expiryDays: int, now: int)
    returns (resp: Response, found: Option<Session>)
    requires db.Valid()
    requires |random| == TokenBytes
    requires expiryDays > 7
    modifies db`sessions
    ensures db.Valid()
    ensures resp.status == 200 ==>
      && resp.cookie.SetCookie? && found.Some?
      && found.value.expiresAt == resp.cookie.cookie.expires == now + expiryDays * DayMs
      && resp.cookie.cookie.value in db.sessions
      && db.sessions[resp.cookie.cookie.value].expiresAt == now + RenewalMs
      && db.sessions[resp.cookie.cookie.value].expiresAt < resp.cookie.cookie.expires
  {
    resp := Post(db, body, env, random, passwordMatches, expiryDays, now, {});
    found := None;
    if resp.status == 200 {
      found := db.FindSession(resp.cookie.cookie.value, now, false);
    }
  }
}
