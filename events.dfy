/**
 * `/api/events`: GET behind the auth gate, and POST's validation ladder
 * followed by one insert into the events table.
 */
module EventsRoute {
  import opened Common
  import opened Http
  import opened Db
  import Auth

  datatype EventInput = EventInput(
    title: Option<string>, description: Option<string>, eventDate: Option<string>,
    eventTime: Option<string>, location: Option<string>)

  /** One position of an anchored pattern: `\d` (ASCII digit) or a literal character. */
  datatype Atom = Digit | Lit(c: char)

  /** `/^\d{4}-\d{2}-\d{2}$/` */
  const DatePattern: seq<Atom> := [Digit, Digit, Digit, Digit, Lit('-'), Digit, Digit, Lit('-'), Digit, Digit]

  /** `/^\d{2}:\d{2}$/` */
  const TimePattern: seq<Atom> := [Digit, Digit, Lit(':'), Digit, Digit]

  /** Does `s` match the pattern from its first character to its last? */
  function FullMatch(p: seq<Atom>, s: string): (b: bool)
    ensures b ==> |s| == |p|
    ensures b <==> |s| == |p| && forall i :: 0 <= i < |p| ==>
      (p[i] == Digit ==> IsDigit(s[i])) && (p[i].Lit? ==> s[i] == p[i].c)
  {
    if p == [] then s == []
    else if s == [] then false
    else
      (match p[0]
       case Digit => IsDigit(s[0])
       case Lit(c) => s[0] == c)
      && FullMatch(p[1..], s[1..])
  }

  /** The date check is a shape check: ten characters, dashes at 4 and 7, digits elsewhere. */
  lemma DateShape(s: string)
    ensures FullMatch(DatePattern, s) <==>
      && |s| == 10 && s[4] == '-' && s[7] == '-'
      && IsDigit(s[0]) && IsDigit(s[1]) && IsDigit(s[2]) && IsDigit(s[3])
      && IsDigit(s[5]) && IsDigit(s[6]) && IsDigit(s[8]) && IsDigit(s[9])
  {
  }

  /** The time check: five characters, a colon at 2, digits elsewhere. */
  lemma TimeShape(s: string)
    ensures FullMatch(TimePattern, s) <==>
      |s| == 5 && s[2] == ':' && IsDigit(s[0]) && IsDigit(s[1]) && IsDigit(s[3]) && IsDigit(s[4])
  {
  }

  /** No calendar check: month 99 and hour 99 pass; a one-digit hour does not. */
  lemma ShapeOnly()
    ensures FullMatch(DatePattern, "2024-99-99")
    ensures FullMatch(TimePattern, "99:99")
    ensures !FullMatch(TimePattern, "9:99")
  {
    DateShape("2024-99-99");
    TimeShape("99:99");
    TimeShape("9:99");
  }

  /** The four required fields are present and non-empty. */
  predicate FieldsPresent(b: EventInput) {
    Truthy(b.title) && Truthy(b.eventDate) && Truthy(b.eventTime) && Truthy(b.location)
  }

  predicate DescriptionOverLimit(b: EventInput, limit: nat) {
    Truthy(b.description) && |b.description.value| > limit
  }

  /** Every constraint POST places on its input, order aside. */
  predicate Acceptable(b: EventInput) {
    && FieldsPresent(b)
    && !DescriptionOverLimit(b, 2000)
    && |b.title.value| <= 200
    && |b.location.value| <= 200
    && FullMatch(DatePattern, b.eventDate.value)
    && FullMatch(TimePattern, b.eventTime.value)
  }

  /**
   * The checks in source order: required fields, description <= 2000, title
   * <= 200, description <= 5000, location <= 200, date shape, time shape.
   * The first failure decides the message: each message is given exactly
   * when every earlier check passes and its own fails.
   */
  function Validate(b: EventInput): (err: Option<Msg>)
    ensures err.None? <==> Acceptable(b)
    // The 5000 check sits behind the 2000 check and can never fire.
    ensures err != Some(DescriptionOver5000)
    ensures err == Some(EventMissingFields) <==> !FieldsPresent(b)
    ensures err == Some(DescriptionOver2000) <==> FieldsPresent(b) && DescriptionOverLimit(b, 2000)
    ensures err == Some(TitleOver200) <==>
      FieldsPresent(b) && !DescriptionOverLimit(b, 2000) && |b.title.value| > 200
    ensures err == Some(LocationOver200) <==>
      && FieldsPresent(b) && !DescriptionOverLimit(b, 2000) && |b.title.value| <= 200
      && |b.location.value| > 200
    ensures err == Some(BadDateFormat) <==>
      && FieldsPresent(b) && !DescriptionOverLimit(b, 2000) && |b.title.value| <= 200
      && |b.location.value| <= 200 && !FullMatch(DatePattern, b.eventDate.value)
    ensures err == Some(BadTimeFormat) <==>
      && FieldsPresent(b) && !DescriptionOverLimit(b, 2000) && |b.title.value| <= 200
      && |b.location.value| <= 200 && FullMatch(DatePattern, b.eventDate.value)
      && !FullMatch(TimePattern, b.eventTime.value)
  {
    if !Truthy(b.title) || !Truthy(b.eventDate) || !Truthy(b.eventTime) || !Truthy(b.location) then
      Some(EventMissingFields)
    else if Truthy(b.description) && |b.description.value| > 2000 then Some(DescriptionOver2000)
    else if |b.title.value| > 200 then Some(TitleOver200)
    else if Truthy(b.description) && |b.description.value| > 5000 then Some(DescriptionOver5000)
    else if |b.location.value| > 200 then Some(LocationOver200)
    else if !FullMatch(DatePattern, b.eventDate.value) then Some(BadDateFormat)
    else if !FullMatch(TimePattern, b.eventTime.value) then Some(BadTimeFormat)
    else None
  }

  /** `description.replace(/[<>]/g, '')`: computed by the handler, never stored. */
  function Sanitize(s: string): (r: string)
    ensures |r| <= |s|
    ensures forall i :: 0 <= i < |r| ==> r[i] != '<' && r[i] != '>'
    // Every other character is kept, as often as it occurs.
    ensures forall c :: c != '<' && c != '>' ==> multiset(r)[c] == multiset(s)[c]
    ensures (forall i :: 0 <= i < |s| ==> s[i] != '<' && s[i] != '>') ==> r == s
  {
    if s == [] then []
    else
      assert s == [s[0]] + s[1..];
      if s[0] == '<' || s[0] == '>' then Sanitize(s[1..])
      else [s[0]] + Sanitize(s[1..])
  }

  /**
   * Stripping works piece by piece, so the characters kept stay in their
   * order: with `Sanitize` of a single character, this fixes the result.
   */
  lemma {:induction false} SanitizeAppend(a: string, b: string)
    ensures Sanitize(a + b) == Sanitize(a) + Sanitize(b)
  {
    if a == [] {
      assert a + b == b;
    } else {
      assert (a + b)[0] == a[0] && (a + b)[1..] == a[1..] + b;
      SanitizeAppend(a[1..], b);
    }
  }

  /** `description || null`: the raw description, or null when missing or empty. */
  function StoredDescription(d: Option<string>): (r: Option<string>)
    ensures r.None? <==> !Truthy(d)
    ensures r.Some? ==> r == d
  {
    if Truthy(d) then d else None
  }

  /** What POST inserts is the raw text: a description with markup differs from its sanitised copy. */
  lemma {:induction false} StoredIsNotSanitized(d: string, k: nat)
    requires k < |d| && (d[k] == '<' || d[k] == '>')
    ensures StoredDescription(Some(d)) == Some(d) && Sanitize(d) != d
  {
    assert |Sanitize(d)| < |d| by { SanitizeDrops(d, k); }
  }

  lemma {:induction false} SanitizeDrops(d: string, k: nat)
    requires k < |d| && (d[k] == '<' || d[k] == '>')
    ensures |Sanitize(d)| < |d|
  {
    if k > 0 {
      SanitizeDrops(d[1..], k - 1);
    }
  }

  method Get(db: Store, jar: CookieJar, now: int, sweep: bool, failing: set<Call>) returns (resp: Response)
    requires db.Valid()
    modifies db`sessions
    ensures db.Valid()
    ensures !Auth.Accepts(old(db.sessions), jar, now, failing) ==> resp == Auth.Rejection(jar)
    ensures db.sessions == Auth.AuthTable(old(db.sessions), jar, now, sweep, failing)
    ensures Auth.Accepts(old(db.sessions), jar, now, failing) ==> resp == Response(200, EventListBody, Untouched)
  {
    var auth := Auth.RequireAuth(db, jar, now, sweep, failing);
    if !auth.authenticated {
      return auth.errorResponse.value;
    }
    resp := Response(200, EventListBody, Untouched);
  }

  method Post(db: Store, jar: CookieJar, body: Parsed<EventInput>, now: int, sweep: bool, failing: set<Call>)
    returns (resp: Response)
    requires db.Valid()
    modifies db`sessions, db`events, db`nextEventId
    ensures db.Valid()
    ensures resp.cookie == Untouched
    // Unauthenticated requests never reach the events table.
    ensures !Auth.Accepts(old(db.sessions), jar, now, failing) ==>
      resp == Auth.Rejection(jar) && db.events == old(db.events)
    ensures db.sessions == Auth.AuthTable(old(db.sessions), jar, now, sweep, failing)
    ensures resp.status != 201 ==> db.events == old(db.events) && db.nextEventId == old(db.nextEventId)
    ensures Auth.Accepts(old(db.sessions), jar, now, failing) && body.Malformed? ==>
      resp == ErrorResponse(500, ServerError)
    ensures Auth.Accepts(old(db.sessions), jar, now, failing) && body.Parsed? && !Acceptable(body.value) ==>
      resp == ErrorResponse(400, Validate(body.value).value)
    ensures Auth.Accepts(old(db.sessions), jar, now, failing) && body.Parsed? && Acceptable(body.value) ==>
      var b := body.value;
      var owner := old(db.sessions)[jar.session.value].userId;
      var e := Event(old(db.nextEventId), b.title.value, StoredDescription(b.description), b.eventDate.value,
                     b.eventTime.value, b.location.value, owner, now);
      if InsertEvent in failing then resp == ErrorResponse(500, ServerError)
      else resp == Response(201, EventBody(Some(e)), Untouched) && db.events == old(db.events)[e.id := e]
  {
    var auth := Auth.RequireAuth(db, jar, now, sweep, failing);
    if !auth.authenticated {
      return auth.errorResponse.value;
    }
    if body.Malformed? {
      return ErrorResponse(500, ServerError);
    }
    var b := body.value;
    var err := Validate(b);
    if err.Some? {
      return ErrorResponse(400, err.value);
    }
    var sanitized := if Truthy(b.description) then Some(Sanitize(b.description.value)) else None;
    var created := db.CreateEvent(
      b.title.value, StoredDescription(b.description), b.eventDate.value, b.eventTime.value,
      b.location.value, auth.session.value.userId, now, InsertEvent in failing);
    if created.Throws? {
      return ErrorResponse(500, ServerError);
    }
    resp := Response(201, EventBody(created.value), Untouched);
  }
}
