/** `GET /api/auth/check`: report whether the cookie names a live session. */
module CheckRoute {
  import opened Common
  import opened Http
  import opened Db
  import Auth

  method Get(db: Store, jar: CookieJar, now: int, failing: set<Call>) returns (resp: Response)
    requires db.Valid()
    modifies db`sessions
    ensures db.Valid()
    ensures resp.cookie == Untouched
    ensures resp.body.ValidityBody?
    // `valid` is true exactly on a 200.
    ensures resp.body.valid <==> resp.status == 200
    ensures resp.status == 200 <==> Auth.Accepts(old(db.sessions), jar, now, failing)
    ensures jar.Unreadable? ==> resp.status == 500 && db.sessions == old(db.sessions)
    ensures jar.Jar? && resp.status != 200 ==> resp.status == 401
    // The same lookup-then-delete as `requireAuth`, without the sweep.
    ensures db.sessions == Auth.AuthTable(old(db.sessions), jar, now, false, failing)
    ensures resp.status == 200 ==>
      db.sessions == old(db.sessions)[jar.session.value := Renewed(old(db.sessions)[jar.session.value], now)]
    // A row found stale is renewed by the lookup and then deleted.
    ensures jar.Jar? && Truthy(jar.session) && FindSession !in failing && jar.session.value in old(db.sessions)
            && old(db.sessions)[jar.session.value].expiresAt < now ==>
      db.sessions == if DeleteSession in failing
                     then old(db.sessions)[jar.session.value := Renewed(old(db.sessions)[jar.session.value], now)]
                     else old(db.sessions) - {jar.session.value}
  {
    if jar.Unreadable? {
      return Response(500, ValidityBody(false), Untouched);
    }
    if !Truthy(jar.session) {
      return Response(401, ValidityBody(false), Untouched);
    }
    var id := jar.session.value;
    var found := db.FindSession(id, now, FindSession in failing);
    if found.None? {
      return Response(401, ValidityBody(false), Untouched);
    }
    if found.value.expiresAt < now {
      db.DeleteSession(id, DeleteSession in failing);
      return Response(401, ValidityBody(false), Untouched);
    }
    resp := Response(200, ValidityBody(true), Untouched);
  }
}
