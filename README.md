# KSS IT Committee site: authentication, events and helpers, in Dafny

This project models the server-side core of the KSS IT Committee website, a
Next.js application on Cloudflare D1. Every operation is proved against a
contract.

- **The store** (`Db`). The `users`, `sessions`, `events` and `rsvps` tables
  are held in memory in a `Store` class, with one method per query of
  `src/lib/db.ts`. The methods cover:
  - user insert, which always writes `verified = 0`;
  - the sliding session renewal in `findById`, which returns the row as read
    and does not filter expired rows;
  - the expired-session sweep;
  - owner-filtered event delete and COALESCE update;
  - the RSVP upsert keyed on (event, user);
  - per-status counts.
- **The decision procedures** built on the store:
  - `requireAuth`, `validateSession` and `isAuthenticationRequired` (`Auth`);
  - the login, signup, logout and session-check handlers, each a ladder of
    guards ending in an HTTP status;
  - the event-creation validator and insert (`EventsRoute`);
  - the edge middleware's path classifier (`Middleware`).
- **Two expiring in-memory maps**, each a class whose methods update a `map`
  field: the fixed-window rate limiter (`RateLimit`) and the CSRF
  synchronizer-token table (`Csrf`). Each cleanup is a loop with its
  invariants.
- **Small helpers**:
  - the Cache-Control header builder (`ApiUtils`);
  - `formatTime` (`DateUtils`);
  - the `.nolink` test of `DynamicLink`;
  - the Konami key buffer (`Konami`);
  - the JSON shape check `normalizeMinContents` (`ImportContents`).

## Environment and design choices

- **Time.** Time is an integer number of milliseconds passed in as `now`. A
  day is 86 400 000 ms.
- **Parameters for outside inputs.**
  - bcrypt's compare and hash are function parameters.
  - `randomBytes(32)` is a `seq<byte>` parameter, and its hex encoding is
    modelled exactly (`Tokens.Hex`, with its inverse).
  - `SESSION_EXPIRY_DAYS` is the parameter `expiryDays`, because the
    constants file imported for it does not define it. The model assumes the
    constant is defined. As written, `setDate(getDate() + undefined)` gives
    an Invalid Date, and `toISOString()` in `sessionQueries.create` throws
    on it, so every login that passes the checks would end in 500.
- **Failing store calls.** A database call that throws is a `fault` flag on
  the store method. A handler takes the set `failing` of the store calls
  that throw during that request, and each method then does what the
  source's `catch` block does: for example, `existsByUsername` reports
  `false` and `countByEvent` reports zeros.
- **Responses.** The Japanese message strings are represented by the tags
  of `Http.Msg`, one tag per literal. The server-error message has two
  spellings: login and signup put a space in it (`ServerErrorSpaced`), the
  other handlers do not (`ServerError`). A response is a status, a body and
  what it does to the `session` cookie.
- **Background sweeps.** The fire-and-forget `deleteExpired()` at the start
  of `requireAuth` is the flag `sweep`: when it is set, the sweep completes
  before the lookup. `Auth.SweepKeepsVerdict` shows that this ordering never
  changes a verdict.

Where the comments and the code disagree, the model follows the code:

- `findById` does not exclude expired sessions. It renews every row it
  finds, so a stale session is renewed and then deleted by its caller.
- The `<>`-stripped description is computed but never stored. The raw text,
  or null when it is empty, goes into the table.
- The `description.length > 5000` check comes after the 2000 check and can
  never fire.
- The `.nolink` pattern is unanchored, with an unescaped dot. It matches
  `nolink` anywhere that has a character before it that is not a line
  terminator.
- The cookie's `secure` flag is also true when `NODE_ENV` is `development`.
- The renewal sets the expiry to now + 7 days. When `expiryDays` exceeds 7,
  the first lookup therefore shortens a fresh session's lifetime, as
  `LoginRoute.FirstLookupShortens` shows.

## Model

| member | source | states |
|---|---|---|
| Tokens.Hex | src/app/api/auth/login/route.ts:79 | `toString('hex')` yields two lowercase hex digits per byte |
| Tokens.UnhexHex | src/lib/csrf.ts:19 | decoding the hex text gives back the random bytes |
| Tokens.TokenShape | src/app/api/auth/login/route.ts:79 | 32 random bytes give a 64-character lowercase hex id |
| Tokens.HexInjective | src/lib/csrf.ts:19 | different random bytes give different tokens |
| Db.Renewed | src/lib/db.ts:214-221 | the renewed row keeps id, user and creation time, and expires at now + 7 days |
| Db.Unexpired | src/lib/db.ts:254-259 | keeps exactly the sessions with `expires_at >= now`, each unchanged |
| Db.Coalesce | src/lib/db.ts:471-475 | `COALESCE(?, f)`: the supplied value when there is one, otherwise the current value |
| Db.Patched | src/lib/db.ts:456-497 | each supplied field replaces the old value and each missing one keeps it; id, owner and creation time never change; a description cannot be cleared |
| Db.Attendees | src/lib/db.ts:396-408 | the rsvps of one event: every row of the table whose event id matches, each as often as in the table, and no other row |
| Db.CountStatus | src/lib/db.ts:411-415 | a per-status count is at most the number of rows, and zero iff no row has that status |
| Db.TallyPartition | src/lib/db.ts:411-415 | because the status has three values, yes + no + maybe equals the number of rows |
| Db.Tally | src/lib/db.ts:411-415 | the counts are the per-status counts and add up to the number of attendees |
| Db.PairIndex | src/lib/db.ts:513-530 | finds the row for (event, user), or shows that no row has that pair |
| Db.Store.FindByUsername | src/lib/db.ts:115-128 | returns the user with that name, or nothing when there is none or the query fails |
| Db.Store.CreateUser | src/lib/db.ts:138-151 | inserts one user with `verified = 0` and a fresh id; a taken name or a failure throws and changes nothing |
| Db.Store.ExistsByUsername | src/lib/db.ts:158-171 | true iff the name is taken, and false whenever the query fails |
| Db.Store.CreateSession | src/lib/db.ts:187-198 | adds exactly the new row; a duplicate id or a failure adds nothing |
| Db.Store.FindSession | src/lib/db.ts:206-229 | an unknown id returns nothing and writes nothing; a known id is renewed whatever its expiry, with every other session unchanged, and the row is returned as read before the renewal |
| Db.Store.DeleteSession | src/lib/db.ts:236-247 | removes only that id, never throws, and is idempotent |
| Db.Store.DeleteExpired | src/lib/db.ts:254-264 | removes exactly the sessions with `expires_at < now` and keeps the others unchanged |
| Db.Store.CreateEvent | src/lib/db.ts:283-303 | inserts one event with a fresh id, or throws and changes nothing |
| Db.Store.FindEventWithAttendees | src/lib/db.ts:369-426 | null for a missing event; otherwise the event, its rsvps, and the yes, no and maybe counts of those rsvps, which add up to the number of attendees |
| Db.Store.DeleteEvent | src/lib/db.ts:434-447 | true iff the event exists and belongs to the user; only that row is removed; a wrong owner or a missing id changes nothing |
| Db.Store.UpdateEvent | src/lib/db.ts:456-497 | only the row matching both id and owner changes, to the patched row; otherwise null and no change |
| Db.Store.Upsert | src/lib/db.ts:513-537 | at most one row per (event, user); a repeat overwrites status and comment and keeps the row's id and creation time; a new pair is appended |
| Db.Store.CountByEvent | src/lib/db.ts:570-589 | the per-status counts of the event's rsvps, or zeros when the query fails |
| Auth.SweepKeepsVerdict | src/lib/auth.ts:104-144 | the expired sweep only removes rows the lookup would reject, so it changes no verdict and no accepted row |
| Auth.Accepts | src/lib/auth.ts:111-149 | the acceptance rule: a non-empty cookie naming a row with `expires_at >= now`; an accepted row survives its lookup renewed, and a rejected row named by the cookie is deleted unless a store call fails |
| Auth.AfterLookup | src/lib/auth.ts:121-144 | after `findById` and the stale-row delete, no other session has changed; an unknown id or a failed lookup changes nothing; a live row stays, renewed; a stale row goes unless its delete fails |
| Auth.RequireAuth | src/lib/auth.ts:100-160 | returns authenticated iff a non-empty cookie names a row with `expires_at >= now`, and returns that row as read; otherwise an error response is returned: 401 for no cookie, an unknown id or a stale row, and 500 when the cookies cannot be read; the session table ends as `AuthTable` says: swept, then the row looked up renewed, and deleted when it was stale |
| Auth.ValidateSession | src/lib/auth.ts:38-72 | the same acceptance rule; every rejection redirects to /login, and a failure to read the cookies escapes; without a cookie the session table is untouched, otherwise it is left as `requireAuth` leaves it (sweep, renewal, stale row deleted) |
| Auth.IsAuthenticationRequired | src/lib/auth.ts:176-179 | true exactly when `requireAuth` would not authenticate, with the session table left as `requireAuth` leaves it |
| LoginRoute.SecureFlag | src/app/api/auth/login/route.ts:92-93 | `secure` is true iff the forwarded protocol is https or `NODE_ENV` is development |
| LoginRoute.SessionCookie | src/app/api/auth/login/route.ts:95-101 | the cookie carries the session id and the stored expiry, and is httpOnly, SameSite=Strict, path `/` |
| LoginRoute.Post | src/app/api/auth/login/route.ts:35-110 | the response is 400 for missing fields before any store access; the same 401 for an unknown user and for a wrong password; 403 for an unverified user only after the password matched; on success, expired sessions are purged, exactly one session for the user is created, expiring `expiryDays` later, and its cookie, holding the 64-character hex id, is set; 500 on failure; only a 200 touches the cookie |
| LoginRoute.FirstLookupShortens | src/app/api/auth/login/route.ts:76-101 | with `expiryDays` above 7, a lookup of the new session at the login instant renews it to now + 7 days, below the expiry the login stored and put in the cookie |
| SignupRoute.Validate | src/app/api/auth/signup/route.ts:40-61 | accepts iff both fields are present, the username has 3 to 50 characters and the password at least 6; each message is given exactly when the earlier checks pass and its own fails, so the password is judged after the username |
| SignupRoute.UsernameBoundsInclusive | src/app/api/auth/signup/route.ts:48-53 | usernames of exactly 3 and exactly 50 characters are accepted |
| SignupRoute.Post | src/app/api/auth/signup/route.ts:35-96 | 400 on validation before any store access; 409 for a taken name with no user created; a failed existence query reads as free and the insert decides; success adds exactly one user with `verified = 0` and returns 201; a failed insert is 500, never 409 |
| LogoutRoute.Post | src/app/api/auth/logout/route.ts:27-51 | with a cookie, exactly that session is deleted; without one, nothing is touched; the response is 200 and deletes the cookie; unreadable cookies give 500 |
| LogoutRoute.LogoutTwice | src/app/api/auth/logout/route.ts:31-42 | logging out twice with the same id yields 200 both times and leaves that session gone |
| CheckRoute.Get | src/app/api/auth/check/route.ts:30-56 | 200 with `valid: true` exactly when `requireAuth`'s rule accepts; 401 for no cookie, an unknown or stale session (which is deleted); 500 when the cookies cannot be read; `valid` is true iff the status is 200; the session table ends as after `requireAuth`'s lookup, without a sweep |
| EventsRoute.FullMatch | src/app/api/events/route.ts:105-120 | an anchored pattern of digits and literals matches iff the lengths agree and each position fits |
| EventsRoute.DateShape | src/app/api/events/route.ts:105-111 | the date test accepts exactly ten characters with dashes at 4 and 7 and digits elsewhere |
| EventsRoute.TimeShape | src/app/api/events/route.ts:114-120 | the time test accepts exactly five characters with a colon at 2 and digits elsewhere |
| EventsRoute.ShapeOnly | src/app/api/events/route.ts:105-120 | only the shape is checked: `2024-99-99` and `99:99` pass, `9:99` does not |
| EventsRoute.Validate | src/app/api/events/route.ts:64-120 | accepts iff every constraint holds; each message is given exactly when every earlier check in source order passes and its own fails, so the first failure decides; the 5000-character check never fires |
| EventsRoute.Sanitize | src/app/api/events/route.ts:80 | the stripped copy has no `<` or `>`, keeps every other character as often as the input has it, is no longer than the input, and equals an input without markup |
| EventsRoute.SanitizeAppend | src/app/api/events/route.ts:80 | stripping a concatenation strips each part, so the kept characters stay in their order |
| EventsRoute.SanitizeDrops | src/app/api/events/route.ts:80 | a description containing `<` or `>` loses characters when stripped |
| EventsRoute.StoredDescription | src/app/api/events/route.ts:124 | null exactly when the description is missing or empty, otherwise the raw description |
| EventsRoute.StoredIsNotSanitized | src/app/api/events/route.ts:80-124 | the stored description is the raw text, which differs from the stripped copy whenever it holds `<` or `>` |
| EventsRoute.Get | src/app/api/events/route.ts:27-39 | an unauthenticated request gets exactly `requireAuth`'s error response; an authenticated one gets 200; the session table ends as `requireAuth` leaves it |
| EventsRoute.Post | src/app/api/events/route.ts:54-136 | an unauthenticated request gets `requireAuth`'s error response and never touches the events table; the session table ends as `requireAuth` leaves it; 400 with the validator's message; on success exactly one event, owned by the session's user, with the raw description or null, and 201; 500 when the insert fails |
| Middleware.Classify | src/middleware.ts:32-69 | `/login` and `/api/auth` prefixes pass without headers; `/tutorial`, `/committee-info` and `/events` prefixes redirect to /login without a non-empty cookie and otherwise pass with the no-cache and security headers; every other path passes |
| Middleware.CookieValueIgnored | src/middleware.ts:42-50 | only the cookie's presence matters; any two non-empty values are treated alike |
| Middleware.PrefixMatching | src/middleware.ts:36-41 | matching is a plain prefix test: `/loginx` is public and `/eventsfoo` is protected |
| RateLimit.Check | src/lib/rate-limit.ts:29-48 | a missing or expired entry opens a window of count 1 and is never limited; inside a window (including `now == resetTime`) the count grows, the window end stays, and the call is limited iff the new count exceeds the maximum |
| RateLimit.CountingWithinWindow | src/lib/rate-limit.ts:42-46 | calls made before the window ends keep counting from the stored count |
| RateLimit.KthCallLimited | src/lib/rate-limit.ts:32-48 | in one window the first call is never limited, even with a maximum of 0, and the k-th later call is limited iff k exceeds the maximum |
| RateLimit.Live | src/lib/rate-limit.ts:63-70 | keeps exactly the entries whose reset time has not passed, unchanged |
| RateLimit.CleanupUnobservable | src/lib/rate-limit.ts:63-70 | a cleanup changes no later call's verdict or stored entry |
| RateLimit.ResetStartsOver | src/lib/rate-limit.ts:56-58 | after a reset, the next call opens a new window and is allowed |
| RateLimit.RateLimiter.IsRateLimited | src/lib/rate-limit.ts:24-49 | the verdict and the new entry are those of one call; other identifiers' entries are unchanged |
| RateLimit.RateLimiter.ResetRateLimit | src/lib/rate-limit.ts:56-58 | removes only that identifier |
| RateLimit.RateLimiter.CleanupExpiredEntries | src/lib/rate-limit.ts:63-70 | the loop leaves exactly the live entries |
| Csrf.Unexpired | src/lib/csrf.ts:55-62 | keeps exactly the entries whose expiry has not passed, unchanged |
| Csrf.Issued | src/lib/csrf.ts:18-25 | the new token replaces the session's earlier one, expires 24 hours later, and survives the cleanup that follows; other sessions keep their entries exactly when these have not expired |
| Csrf.Validation | src/lib/csrf.ts:37-50 | accepted iff an unexpired entry holds exactly this token (still valid at `now == expires`); only a stale entry is deleted; a missing entry changes nothing |
| Csrf.FreshTokenAccepted | src/lib/csrf.ts:18-49 | the token just issued validates for its whole lifetime |
| Csrf.EarlierTokenRejected | src/lib/csrf.ts:22-49 | once a new token is issued, the session's earlier token no longer validates |
| Csrf.IssuedTokenShape | src/lib/csrf.ts:19 | tokens are 64 lowercase hex characters |
| Csrf.TokenTable.GenerateCsrfToken | src/lib/csrf.ts:18-28 | returns the hex of the random bytes, 64 lowercase hex characters, and leaves the table as `Issued` describes |
| Csrf.TokenTable.ValidateCsrfToken | src/lib/csrf.ts:37-50 | the verdict and the new table are those of `Validation` |
| Csrf.TokenTable.CleanupExpiredTokens | src/lib/csrf.ts:55-62 | the loop leaves exactly the unexpired entries |
| ApiUtils.Lower | src/lib/api-utils.ts:51 | header names are lower-cased character by character |
| ApiUtils.FromRecord | src/lib/api-utils.ts:51 | every custom header is present under its lower-cased name, and no other header is |
| ApiUtils.AppendAll | src/lib/api-utils.ts:51 | appending the entries in order yields exactly their lower-cased names as keys |
| ApiUtils.SoleNameAppended | src/lib/api-utils.ts:51 | an entry whose name occurs once keeps its value after all entries are appended |
| ApiUtils.NoEarlierName | src/lib/api-utils.ts:51 | no entry before a sole name lower-cases to its key, so appending it creates the key |
| ApiUtils.Normalized | src/lib/api-utils.ts:51 | each entry keeps its name and has its value trimmed |
| ApiUtils.SoleNameKept | src/lib/api-utils.ts:51 | a custom header whose name occurs once keeps its value, with leading and trailing HTTP whitespace removed |
| ApiUtils.Trim | src/lib/api-utils.ts:51 | the stored value has no HTTP whitespace at either end, and a value without any there is kept as it is |
| ApiUtils.PaddingTrimmed | src/lib/api-utils.ts:51 | the value `" v"` under `X-A` is stored as `v` under `x-a` |
| ApiUtils.NatToString | src/lib/api-utils.ts:73 | the decimal digits of a number, without a leading zero |
| ApiUtils.IntToString | src/lib/api-utils.ts:73 | a minus sign iff the number is negative, then its digits |
| ApiUtils.NatRoundTrip | src/lib/api-utils.ts:73 | reading the digits back gives the number |
| ApiUtils.IntRoundTrip | src/lib/api-utils.ts:73 | reading the text back gives the integer |
| ApiUtils.CacheControl | src/lib/api-utils.ts:54-74 | the no-cache policy writes `no-store, no-cache, must-revalidate, proxy-revalidate`; the public policy writes exactly `public, max-age=60, stale-while-revalidate=30` and the private one `private, max-age=60`; a custom policy starts `public, max-age=` |
| ApiUtils.ApplyCache | src/lib/api-utils.ts:53-74 | the policy's headers overwrite the caller's (Cache-Control, plus Pragma and Expires for no-cache); every other header is kept |
| ApiUtils.CreateOptimizedResponse | src/lib/api-utils.ts:40-83 | status 200 and no-cache unless given; the header set is the custom headers plus the policy's; a custom header named once keeps its trimmed value unless the policy writes that name; the payload is unchanged |
| ApiUtils.CreateErrorResponse | src/lib/api-utils.ts:92-97 | the given status, an `{error}` body and exactly the three no-cache headers |
| ApiUtils.CreateSuccessResponse | src/lib/api-utils.ts:107-113 | status and cache pass through, defaulting to 200 and no-cache |
| ApiUtils.CustomReadsBack | src/lib/api-utils.ts:68-74 | a custom policy reads `public, max-age=<maxAge>`, followed by `, stale-while-revalidate=<n>` iff n is present and non-zero, and both numbers read back |
| ApiUtils.SwrZeroDropped | src/lib/api-utils.ts:70-72 | a zero stale-while-revalidate is the same as none |
| DateUtils.FormatTime | src/lib/dateUtils.ts:29-31 | a prefix of the input of length min(5, its length) |
| DateUtils.FormatTimeIdempotent | src/lib/dateUtils.ts:30 | formatting twice equals formatting once |
| DateUtils.DropsSeconds | src/lib/dateUtils.ts:25-30 | `HH:MM:SS` becomes `HH:MM`, and a five-character time is unchanged |
| DynamicLink.SearchFrom | src/components/DynamicLink.tsx:42-45 | the search finds a match iff `nolink` occurs at or after the position with a non-line-terminator just before it |
| DynamicLink.Test | src/components/DynamicLink.tsx:42-45 | the test is true iff the unanchored pattern matches somewhere |
| DynamicLink.Render | src/components/DynamicLink.tsx:41-51 | a span iff the pattern matches, otherwise a link to the input unchanged; children pass through in both |
| DynamicLink.SuffixDisables | src/components/DynamicLink.tsx:42-46 | every link ending in `.nolink` is shown as text |
| DynamicLink.InfixDisables | src/components/DynamicLink.tsx:42-46 | `/a-nolink/b` is shown as text too |
| DynamicLink.BareMarkerIsLink | src/components/DynamicLink.tsx:42-49 | the bare `nolink` stays a link |
| DynamicLink.NoMarkerIsLink | src/components/DynamicLink.tsx:47-49 | a link without `nolink` stays a link to the input unchanged |
| Konami.LastN | src/components/Konami-Easter.tsx:45 | the last n elements, or all of a shorter sequence |
| Konami.Pushed | src/components/Konami-Easter.tsx:42-45 | the buffer after a key ends with that key and holds at most ten keys |
| Konami.PushedTracksHistory | src/components/Konami-Easter.tsx:42-45 | cutting the buffer at every key keeps exactly the last ten keys of the whole history |
| Konami.Activates | src/components/Konami-Easter.tsx:48-52 | the element-wise test of a full buffer against the code is equality with the code, and needs an inactive egg |
| Konami.ActivationMeansCode | src/components/Konami-Easter.tsx:48-52 | activation happens iff the egg is inactive and the last ten keys of the history are the code |
| Konami.Render | src/components/Konami-Easter.tsx:62-75 | nothing while inactive; otherwise the image with the default alt text and size filled in |
| Konami.KonamiEaster.HandleKeyDown | src/components/Konami-Easter.tsx:41-56 | the buffer is updated on every key and is not cleared on activation; activation needs an inactive egg and the full code; an active egg is not re-activated |
| Konami.KonamiEaster.TimerFired | src/components/Konami-Easter.tsx:54 | the timer hides the egg and keeps the buffer |
| ImportContents.IsMinContentsLike | src/app/demo/Shirym-min/importcontents.ts:7-13 | the three fields are strings; only an object can qualify, so a qualifying value always passes the truthy-object guard |
| ImportContents.Nested | src/app/demo/Shirym-min/importcontents.ts:22-23 | the nested value is the `data` field, when that field is truthy and of type object |
| ImportContents.NormalizeMinContents | src/app/demo/Shirym-min/importcontents.ts:15-29 | any result has the three string fields and is the input or its `data`; the input is preferred; a result exists iff one of the two qualifies |
| ImportContents.OtherFieldsIgnored | src/app/demo/Shirym-min/importcontents.ts:7-13 | fields other than the three and `data` never change the outcome |
| ImportContents.OneLevelOnly | src/app/demo/Shirym-min/importcontents.ts:22-27 | contents two levels down are not found |
| ImportContents.NonObjectsRejected | src/app/demo/Shirym-min/importcontents.ts:16 | null, primitives and arrays give null |

## Left out

- Cloudflare D1 and SQL text are not modelled. The model does not cover the `findAll` listing with its joins and `ORDER BY`, the creator-username and attendee-username joins, foreign keys, `eventQueries.findById`, or the ISO-string storage of timestamps.
- Db.Store.DeleteExpired: timestamps are integers. In the source, `expires_at < datetime('now')` compares text: the stored `toISOString()` value has a `T` where `datetime('now')` has a space, so a row that expired earlier on the same UTC day survives the sweep. The model removes it.
- Db.Attendees: the attendees come in table order (insertion order), not sorted by `created_at`.
- Calendar arithmetic is not modelled. `setDate(+n)` is taken to be n × 86 400 000 ms, so daylight-saving shifts are out.
- String lengths are counted in Unicode scalar values, not in JavaScript's UTF-16 code units.
- Request bodies whose fields are not strings are not modelled: every field is a present string or missing.
- Timers are not modelled: the hourly and five-minute `setInterval` cleanups and the Konami five-second timer are operations the caller invokes (`TimerFired`, the cleanup methods).
- Concurrency is not modelled, including the signup race between the existence check and the insert. A duplicate insert is simply a throwing call.
- `formatDate`, React rendering beyond the chosen element, and the demo hook that fetches the JSON are left out.
- ApiUtils.CreateOptimizedResponse: numbers are integers, so fractional, NaN and very large values (exponent notation above 1e21) are not formatted.
- ApiUtils.FromRecord: the value is stated for a name that occurs once (`SoleNameKept`); for custom names that differ only in case, the joined value is not stated.
- ApiUtils.FromRecord: `new Headers` throws a TypeError when a name is not an HTTP token or a value holds NUL, CR or LF. The model accepts every name and value. No caller in the source passes custom headers.
- ApiUtils.SoleNameKept: states the trimmed value for names and values that `new Headers` accepts. The TypeError path above is not modelled.
- ApiUtils.CreateOptimizedResponse: the TypeError of `new Headers` for an invalid custom header is not modelled. Neither is the RangeError `NextResponse.json` throws for a status outside 200 to 599: every status is passed through.
- Auth.RequireAuth: the background sweep either completes before the lookup or does not run; its interleaving with the lookup is not modelled.
