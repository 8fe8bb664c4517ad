/**
 * The edge middleware: a classifier over the request path and the presence
 * of a `session` cookie. It never looks inside the cookie.
 */
module Middleware {
  import opened Common

  /** What the middleware does with the request. */
  datatype Outcome =
    | PassThrough                          // `NextResponse.next()` as is
    | PassWithHeaders(headers: seq<(string, string)>)
    | RedirectToLogin

  /** The headers set on an admitted protected page, in the order they are set. */
  const ProtectedHeaders: seq<(string, string)> := [
    ("Cache-Control", "no-store, no-cache, must-revalidate, proxy-revalidate"),
    ("Pragma", "no-cache"),
    ("Expires", "0"),
    ("X-Content-Type-Options", "nosniff"),
    ("X-Frame-Options", "DENY"),
    ("X-XSS-Protection", "1; mode=block"),
    ("Referrer-Policy", "strict-origin-when-cross-origin"),
    ("Permissions-Policy", "camera=(), microphone=(), geolocation=()")
  ]

  /** Plain `startsWith`: no path-segment boundary. */
  predicate IsPublic(path: string) {
    "/login" <= path || "/api/auth" <= path
  }

  predicate IsProtected(path: string) {
    "/tutorial" <= path || "/committee-info" <= path || "/events" <= path
  }

  /** `session` is the value of the `session` cookie, if any. */
  function Classify(path: string, session: Option<string>): (o: Outcome)
    ensures IsPublic(path) ==> o == PassThrough
    ensures !IsPublic(path) && IsProtected(path) && !Truthy(session) ==> o == RedirectToLogin
    ensures !IsPublic(path) && IsProtected(path) && Truthy(session) ==> o == PassWithHeaders(ProtectedHeaders)
    ensures !IsPublic(path) && !IsProtected(path) ==> o == PassThrough
    // Only a protected path without a cookie is ever redirected.
    ensures o == RedirectToLogin <==> !IsPublic(path) && IsProtected(path) && !Truthy(session)
  {
    if IsPublic(path) then PassThrough
    else if IsProtected(path) then
      if !Truthy(session) then RedirectToLogin else PassWithHeaders(ProtectedHeaders)
    else PassThrough
  }

  /** The cookie is checked for presence only: any two non-empty values are treated alike. */
  lemma {:induction false} CookieValueIgnored(path: string, a: string, b: string)
    requires a != "" && b != ""
    ensures Classify(path, Some(a)) == Classify(path, Some(b))
    ensures Classify(path, None) == Classify(path, Some(""))
  {
    assert Truthy(Some(a)) && Truthy(Some(b));
    assert !Truthy(Some("")) && !Truthy(None);
  }

  /** Prefix matching: `/loginx` counts as public, `/eventsfoo` as protected. */
  lemma PrefixMatching()
    ensures Classify("/loginx", None) == PassThrough
    ensures Classify("/eventsfoo", None) == RedirectToLogin
    ensures Classify("/", None) == PassThrough
  {
    assert "/login" <= "/loginx";
    assert "/events" <= "/eventsfoo";
    assert !("/login" <= "/") && !("/api/auth" <= "/");
    assert !("/tutorial" <= "/") && !("/committee-info" <= "/") && !("/events" <= "/");
    assert "/login"[1] != "/eventsfoo"[1] && "/api/auth"[1] != "/eventsfoo"[1];
  }
}
