/** `POST /api/auth/logout`: delete the named session, if any, and clear the cookie. */
module LogoutRoute {
  import opened Common
  import opened Http
  import opened Db

  method Post(db: Store, jar: CookieJar, failing: set<Call>) returns (resp: Response)
    requires db.Valid()
    modifies db`sessions
    ensures db.Valid()
    ensures jar.Unreadable? ==> resp == ErrorResponse(500, ServerError) && db.sessions == old(db.sessions)
    ensures jar.Jar? ==> resp == Response(200, MessageBody(LoggedOut), DeleteCookie("session"))
    // Without a cookie nothing is touched; with one, only that row can go.
    ensures jar.Jar? && !Truthy(jar.session) ==> db.sessions == old(db.sessions)
    ensures jar.Jar? && Truthy(jar.session) ==>
      db.sessions == if DeleteSession in failing then old(db.sessions)
                     else old(db.sessions) - {jar.session.value}
  {
    if jar.Unreadable? {
      return ErrorResponse(500, ServerError);
    }
    if Truthy(jar.session) {
      db.DeleteSession(jar.session.value, DeleteSession in failing);
    }
    resp := Response(200, MessageBody(LoggedOut), DeleteCookie("session"));
  }

  /** Logging out twice with the same cookie succeeds both times and leaves the session gone. */
  method LogoutTwice(db: Store, id: string) returns (first: Response, second: Response)
    requires db.Valid()
    requires id != ""
    modifies db`sessions
    ensures first.status == 200 && second.status == 200
    ensures db.sessions == old(db.sessions) - {id}
  {
    first := Post(db, Jar(Some(id)), {});
    second := Post(db, Jar(Some(id)), {});
  }
}
