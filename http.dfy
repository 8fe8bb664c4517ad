/**
 * Request and response values for the route handlers: what the framework's
 * `cookies()`, `request.json()` and `NextResponse` stand for in the model.
 */
module Http {
  import opened Common
  import Db

  /**
   * The fixed message a handler puts in its JSON body. Each tag stands for one
   * Japanese message literal of the source; two sites share a tag only when
   * they share the literal.
   */
  datatype Msg =
    | AuthRequired
    | ServerError
    // The login and signup handlers spell the server-error literal with a space.
    | ServerErrorSpaced
    | LoginMissingFields | BadCredentials | NotApproved | LoginSucceeded
    | SignupMissingFields | UsernameLength | PasswordTooShort | UsernameTaken
    | UserNotCreated | SignupSucceeded
    | LoggedOut
    | EventMissingFields | DescriptionOver2000 | TitleOver200 | DescriptionOver5000
    | LocationOver200 | BadDateFormat | BadTimeFormat

  datatype SameSite = Strict | Lax

  /** The options of `response.cookies.set(name, value, {...})`; `expires` is a timestamp. */
  datatype Cookie = Cookie(
    name: string, value: string, httpOnly: bool, secure: bool,
    sameSite: SameSite, expires: int, path: string)

  /** What a response does to the client's cookies. */
  datatype CookieChange = Untouched | SetCookie(cookie: Cookie) | DeleteCookie(name: string)

  /** The JSON bodies the handlers send. */
  datatype Body =
    | ErrorBody(error: Msg)
    | MessageBody(message: Msg)
    | ValidityBody(valid: bool)
    | EventBody(event: Option<Db.Event>)
    | EventListBody

  /** `NextResponse.json(body, { status })`, with its cookie change. */
  datatype Response = Response(status: int, body: Body, cookie: CookieChange)

  /** The request's cookies: `Unreadable` when reading them throws. */
  datatype CookieJar = Unreadable | Jar(session: Option<string>)

  /** `await request.json()`: `Malformed` when parsing or destructuring throws. */
  datatype Parsed<T> = Malformed | Parsed(value: T)

  /** The request header `x-forwarded-proto` and `process.env.NODE_ENV`. */
  datatype Env = Env(forwardedProto: Option<string>, nodeEnv: Option<string>)

  /** `NextResponse.json({ error }, { status })`. */
  function ErrorResponse(status: int, m: Msg): Response {
    Response(status, ErrorBody(m), Untouched)
  }
}
