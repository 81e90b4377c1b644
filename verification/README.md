# Authentication and sessions of the user platform, in Dafny

This project models how the platform authenticates users and keeps them logged in.
The platform does this in two ways, and the model covers both, including the places
where they disagree.

- **Stateful sessions** (`services/auth`). An account table is keyed by username. A
  session table maps an opaque token to its owner, its creation time and an expiry
  one day later. Login creates a session row and sets it as the `session_token`
  cookie; `/api/validate` answers for a token. The profile page (`services/profile`)
  asks `/api/validate` about the cookie and fails closed. A cleanup job
  (`services/jobs/data_cleanup.py`) deletes session rows created more than 30 days ago.
- **Stateless signed tokens** (`services/auth-service` and the `monolith`). A users
  table with a SERIAL id and a unique login. Login checks its credentials in a fixed
  order and issues an HS256 token with the claims `sub`, `login`, `status`, `iss`, `iat`
  and `exp = iat + 2h`. The auth service also validates tokens from an
  `Authorization: Bearer` header, looks users up and changes their status. The browser
  gateway (`services/ui-service`) keeps only a token and a user id in the Flask session
  and forwards every decision to the auth service. The monolith does the same work in
  one process.

Every handler is a pure function from the tables, the request fields and the clock to a
response and the new tables. The design choices:

- Tables are Dafny maps (the stateful variant) or a sequence of rows with the next
  SERIAL value (the stateless variant).
- Password hashing is an ideal salted hash. A check succeeds for exactly the hashed
  password (`Passwords`).
- PyJWT is an opaque `Codec`, a pair of functions passed in by the caller. The model
  relies only on `Jwt.Faithful`:
  - a token verifies to the claims it was made from;
  - its text is non-empty and has no whitespace.

  `Jwt.Decode` makes the issuer and expiry checks explicit.
- A downstream HTTP call is a function parameter that answers with an `Http.Outcome`:
  `Ok(code, body)`, `Timeout` or `ConnError`.
- Python's `str.strip()`, `str.lower()` and `str.replace(p, "")` are modelled character
  by character (`Text`).
- The clock is one integer count of seconds. Fresh tokens (uuid4) and salts are
  parameters.

The `Scenarios` module wires the services together:
- the UI gateway over the auth service;
- the profile page over the stateful auth service;
- the two variants side by side.

## Model

| member | source | states |
|---|---|---|
| Text.StripStart | services/auth-service/app.py:55-56 | The leading-whitespace removal behind `strip()`: the result is a suffix of the input, everything dropped is whitespace, and the result does not start with whitespace. |
| Text.StripEnd | services/auth-service/app.py:55-56 | The trailing half of `strip()`: a prefix of the input, everything dropped is whitespace, and it does not end with whitespace. |
| Text.Strip | services/auth-service/app.py:55-56 | A stripped field neither starts nor ends with whitespace and is no longer than the raw field. |
| Text.StripTrims | services/auth-service/app.py:55-56 | A stripped field is a contiguous slice of the raw field, and everything cut off before and after it is whitespace. |
| Text.Lower | services/auth-service/app.py:55 | `lower()` keeps the length, leaves no capital letter, and changes exactly the characters that were capitals. Each character keeps its letter: it upper-cases (by an independently written `UpperChar`) to the same character as before. |
| Text.StripLower | services/auth-service/app.py:55 | The normalised login never lengthens the field, neither starts nor ends with whitespace, and holds no capital letter. |
| Text.RemoveAll | services/auth-service/app.py:110 | `replace("Bearer ", "")` never lengthens the header, and leaves a header in which the pattern occurs nowhere unchanged. |
| Text.StripIdempotent | services/auth-service/app.py:56 | Stripping an already stripped field changes nothing. |
| Text.StripFixpoint | services/auth-service/app.py:56 | Text without whitespace at either end is its own strip. |
| Text.StripEmptyIff | services/auth/app.py:182-187 | A field is refused as empty after stripping exactly when it consisted only of whitespace. |
| Text.StripNoSpace | services/auth-service/app.py:110 | Text without whitespace, such as a JWT, survives stripping unchanged. |
| Text.LowerIdempotent | services/auth-service/app.py:55 | Lower-casing twice is lower-casing once. |
| Text.LowerCaseInsensitive | services/auth-service/app.py:55-68 | Two logins normalise alike exactly when they agree letter by letter up to case, so a login differing from a taken one only in case is refused as taken. |
| Text.LowerKeepsSpace | services/auth-service/app.py:55 | Lower-casing neither creates nor removes whitespace. |
| Text.LowerFixpoint | services/auth-service/app.py:134-135 | Text without capitals, such as the status names, is its own lower case. |
| Text.StripLowerIdempotent | services/auth-service/app.py:55 | A normalised login normalises to itself, so the stored login is found again by the same normalisation. |
| Text.RemoveAllNoSpace | services/auth-service/app.py:110 | Removing "Bearer " (which contains a space) from text without whitespace leaves it unchanged. |
| Text.RemoveAllPrefix | services/auth-service/app.py:110 | Removing "Bearer " from a header that starts with it deletes that prefix and continues on the rest. |
| Passwords.CheckHash | services/auth-service/app.py:93 | A stored hash admits the password it was made from and no other, whatever the salt. |
| Jwt.Mint | services/auth-service/app.py:96-104 | A token issued at `now` carries `iat = now` and expires exactly 7200 seconds later. |
| Jwt.Decode | services/auth-service/app.py:114 | Decoding succeeds exactly when the signature verifies, the issuer matches and the token has not expired, and then yields the signed claims. |
| Jwt.MintedTokenLifetime | services/auth-service/app.py:96-105 | A freshly issued token decodes to its own claims until two hours after issue, and is refused from then on. |
| Accounts.FindByLogin | services/auth-service/app.py:83-84 | The lookup finds a row with that login, and finds none exactly when no row has it. |
| Accounts.FindById | services/auth-service/app.py:124-125 | The lookup finds a row with that id, and finds none exactly when no row has it. |
| Accounts.FindByLoginUnique | services/auth-service/app.py:30-36 | Because logins are UNIQUE, looking up a row's login finds that very row. |
| Accounts.FindByIdUnique | services/auth-service/app.py:30-36 | Because ids are the primary key, looking up a row's id finds that very row. |
| Accounts.FindByIdAll | services/auth-service/app.py:30-36 | In a table that keeps its constraints, every row is what the lookup by its id finds. |
| Accounts.Insert | services/auth-service/app.py:65-70 | The insert fails exactly when the login is taken, and the table is then unchanged. Otherwise it appends one row with the next id and status 'active'. The SERIAL value is consumed either way, and the uniqueness constraints survive. |
| Accounts.UpdateStatus | services/auth-service/app.py:140 | Only the rows with that id get the new status; every other row is unchanged. |
| Accounts.UpdateStatusValid | services/auth-service/app.py:140 | A status change keeps login and id uniqueness. |
| Accounts.Authenticate | services/auth-service/app.py:86-94 | The credential check runs in the source's order. An unknown login is refused exactly when no row has it. A non-'active' row is refused with its status. An active row with a wrong password is refused. Admission requires an active row and its own password. |
| Accounts.AuthenticateRow | services/auth-service/app.py:86-94 | For a row of a valid table the decision is fixed by that row. A non-active row is refused whatever the password, and an active row is admitted exactly with its password. |
| AuthService.Register | services/auth-service/app.py:52-70 | Registration gives 400 for an empty normalised login or password before any write, 409 for a taken login with no row added, and otherwise the new id, the lower-cased login and 'active'. The table keeps its constraints. |
| AuthService.Login | services/auth-service/app.py:72-106 | Login gives 400 for an empty field. It gives 403 with the status for a non-active account, before any password check. An unknown login and a wrong password get the same 401. Success returns the id, login and status of the very row the credentials matched, with a token signed over them, the issuer, and a 2-hour lifetime. |
| AuthService.Validate | services/auth-service/app.py:108-117 | An empty bearer token gives "missing token". A token that does not decode is refused. Otherwise the reply echoes the decoded claims, which carry the configured issuer and an unexpired `exp`. The users table plays no part. |
| AuthService.BearerToken | services/auth-service/app.py:110 | A request without an Authorization header yields the empty token, and the token is never longer than the header. |
| AuthService.ValidateCode | services/auth-service/app.py:111-117 | Of the validation replies, only a valid token is answered with 200. |
| AuthService.GetUser | services/auth-service/app.py:119-128 | The reply is 404 exactly when no row has the id; otherwise it carries that row's login, status and creation time. |
| AuthService.SetStatus | services/auth-service/app.py:130-144 | The status is normalised. Anything but active, inactive or blocked gives 400 with no write. An unknown id gives 404 with no write. Otherwise exactly that row's status changes, and the constraints survive. |
| AuthService.LoginHidesUnknownLogin | services/auth-service/app.py:86-94 | An unknown login and a wrong password for a known active login get the identical reply. |
| AuthService.LoginThenValidate | services/auth-service/app.py:96-117 | A token from a successful login, sent as `Bearer <token>`, validates to the same id, login and status for two hours, then is refused. |
| AuthService.BearerRoundTrip | services/auth-service/app.py:110 | The header `Bearer <token>` yields back exactly the token, for any token without whitespace. |
| AuthService.BlockedCannotLogin | services/auth-service/app.py:89-91 | After a user is set to 'blocked', login with the right password is refused with 403 'blocked'. |
| AuthService.BlockedIsKnown | services/auth-service/app.py:134-135 | 'blocked' survives the status normalisation and is accepted. |
| AuthService.RegisterThenLogin | services/auth-service/app.py:52-106 | A freshly registered login logs in at once with its password, as the id registration returned. |
| AuthService.RegisterThenGetUser | services/auth-service/app.py:119-128 | The user registration creates is what `GET /user/<id>` returns: the new id, the normalised login, 'active' and the registration time. |
| AuthService.SetStatusThenGetUser | services/auth-service/app.py:119-144 | After an accepted status change `GET /user/<id>` shows the new normalised status, with the login and creation time as before. |
| AuthService.RegisterTwice | services/auth-service/app.py:61-70 | Registering the same login again is a 409 and adds no row. |
| SessionAuth.CreateSession | services/auth/app.py:59-68 | Adds exactly one session, for the new token and its owner. Every other session and every account is untouched. |
| SessionAuth.ValidateSessionToken | services/auth/app.py:70-81 | A token is valid exactly when it is non-empty, known, and `now` is not past its expiry (valid at the expiry instant itself). The result is the session's owner. |
| SessionAuth.Login | services/auth/app.py:151-175 | The checks run in order: unknown user, 'blocked', wrong password, each with its own message. Every other status is admitted with the right password; then the new tables are exactly the old ones plus one session for the stripped username under the cookie. A failure writes nothing, and the tables keep their constraints. |
| SessionAuth.FormStatus | services/auth/app.py:184 | A missing or empty status field becomes 'active'; any other status is stored stripped of its surrounding whitespace, so one already free of it is kept as sent. |
| SessionAuth.Register | services/auth/app.py:177-211 | An empty stripped username or empty password is refused before any write. A taken username is refused with no change. Otherwise exactly one account is added, with the hashed password and the form's stripped status. |
| SessionAuth.Logout | services/auth/app.py:213-217 | Logout deletes only the cookie; both tables are unchanged. |
| SessionAuth.ApiValidate | services/auth/app.py:219-225 | The reply is 200 exactly when the chosen token validates to a non-empty username, and then names that token's owner; else 401. The query token is chosen when non-empty, else the cookie. |
| SessionAuth.CreateThenValidate | services/auth/app.py:59-81 | A new session validates to its owner through the end of the following day and not after. No other token's validity changes. |
| SessionAuth.LoginSessionCount | services/auth/app.py:163-175 | A failed login leaves the session count unchanged. A successful one adds exactly one session, which validates to the user. |
| SessionAuth.NonBlockedAdmitted | services/auth/app.py:166-172 | Any status other than 'blocked', 'inactive' included, is admitted with the right password. |
| SessionAuth.LoginRevealsAccounts | services/auth/app.py:163-170 | An unknown user and a known user with a wrong password get different responses. |
| SessionAuth.RegisterTwice | services/auth/app.py:191-199 | A second registration of the same username is refused and changes nothing. |
| SessionAuth.RegisterStatusUnchecked | services/auth/app.py:184-196 | Whatever non-empty status the form sends is stored stripped, without validation; a status of only whitespace is stored as the empty string, not 'active'; an empty one becomes 'active'. |
| SessionAuth.RegisterIgnoresNotification | services/auth/app.py:201-211 | The notification call's outcome, success or failure, does not change the registration result. |
| SessionAuth.LogoutKeepsSession | services/auth/app.py:213-225 | After logout the old token still validates, and `/api/validate` still answers 200 for it. |
| SessionAuth.ApiValidatePrefersQuery | services/auth/app.py:221 | With a non-empty query token the cookie has no influence. |
| Cleanup.Doomed | services/jobs/data_cleanup.py:15-21 | The rows the DELETE matches: exactly those created before now minus 30 days. |
| Cleanup.Delete | services/jobs/data_cleanup.py:21-22 | The sweep removes exactly the matched sessions, keeps every other one unchanged, and counts exactly the removed rows. |
| Cleanup.Run | services/jobs/data_cleanup.py:18-26 | The job as written. It reports 0 and deletes nothing when the database fails early. After a failed commit nothing is deleted, yet the matched count is reported. |
| Cleanup.RunReportingCommitted | services/jobs/data_cleanup.py:18-26 | The corrected job. The reported count always equals the number of rows that actually left the table. |
| Cleanup.SweepIgnoresExpiry | services/jobs/data_cleanup.py:21 | A session that has expired but was created within 30 days is not swept. |
| Cleanup.DoomedSingleton | services/jobs/data_cleanup.py:21 | A lone month-old session is the only row the DELETE matches. |
| Cleanup.CommitFailureMiscount | services/jobs/data_cleanup.py:21-24 | With one month-old session and a failed commit, the job as written reports 1 deletion while the session is still in the table. |
| Monolith.Register | monolith/app.py:90-107 | 400 for an empty normalised field, 409 for a taken login; otherwise a row with the next id and the default status 'active' and a redirect to login. The constraints survive. |
| Monolith.Login | monolith/app.py:113-141 | 400 for an empty field. The 403 page with a status is shown exactly when the credential check finds a non-active account with that status, before the password. An unknown login or wrong password get the same 401. On success the session holds the token and the user id; every failure leaves the session alone. |
| Monolith.Logout | monolith/app.py:143-146 | The whole session is cleared. |
| Monolith.Me | monolith/app.py:148-171 | No token redirects with the session untouched; an undecodable token clears the session. The page shows the table's row for the token's `sub`, or the token's login and status when there is none, and the stored or empty profile. |
| Monolith.LoginHidesUnknownLogin | monolith/app.py:126-134 | An unknown login and a wrong password produce the identical page and session. |
| Monolith.RegisterThenLogin | monolith/app.py:90-141 | A freshly registered login logs in at once and the session holds the new row's id. |
| Monolith.LogoutThenMe | monolith/app.py:143-152 | After logout `/me` redirects to the login page, whatever the tables and the clock. |
| Monolith.LoginThenMe | monolith/app.py:136-168 | After a successful login, `/me` shows that user's row for two hours; after that it clears the session and redirects. |
| UiGateway.GetToken | services/ui-service/app.py:21-22 | The token is empty exactly when the session holds no truthy token, and otherwise is the stored token. |
| UiGateway.AuthHeader | services/ui-service/app.py:21-26 | No header without a token; otherwise exactly `Bearer <token>`. |
| UiGateway.RegisterAction | services/ui-service/app.py:58-68 | An empty stripped field is refused with 400 before the auth service is called. An auth reply of 300 or more becomes 400, a lower one a redirect to login, and an exception a 500. |
| UiGateway.LoginAction | services/ui-service/app.py:75-89 | An empty field gives 400 with no call. A non-200 reply gives 401, and an exception a 500; in each the session is unchanged. A 200 stores the reply's token and user id. |
| UiGateway.LoginActionStores | services/ui-service/app.py:86-89 | A 200 from the auth service replaces whatever the session held with its token and user id. |
| UiGateway.Logout | services/ui-service/app.py:91-94 | The session is cleared: no token and no user id remain. |
| UiGateway.LogoutThenMe | services/ui-service/app.py:91-101 | After logout `/me` redirects to the login page without depending on any downstream service. |
| UiGateway.MeUserId | services/ui-service/app.py:110 | The session's user id wins when it is truthy; otherwise the validator's id is used. |
| UiGateway.Me | services/ui-service/app.py:97-118 | No token redirects. A validator reply other than 200 clears the session; a validator exception is a server error with the session unchanged, and so is every failure after a 200 (no user id, or a user or profile call that raises). The page is shown exactly when the validator says 200, a user id is found, and the user and profile calls return; it carries their answers or defaults built from the validator's reply. |
| UiGateway.MeWithoutTokenCallsNothing | services/ui-service/app.py:99-101 | Without a token the result does not depend on any downstream service. |
| UiGateway.EmptyLoginCallsNothing | services/ui-service/app.py:77-80 | A login with an empty field does not depend on the auth service. |
| ProfileGateway.ValidateWithAuth | services/profile/app.py:37-47 | A username comes only from a 200 whose JSON says `valid`. An empty token, any other code, an unparsable body and any exception all give None. |
| ProfileGateway.Profile | services/profile/app.py:65-84 | The page is shown exactly when validation yields a username that has an account, and then shows that account's status and creation time. |
| ProfileGateway.NoCookieCallsNothing | services/profile/app.py:67-70 | A missing or empty cookie redirects to login whatever the auth service would say. |
| ProfileGateway.FailsClosed | services/profile/app.py:40-47 | A timeout, a connection failure, or any reply but a valid 200 redirects to login. |
| Scenarios.HeaderRoundTrip | services/ui-service/app.py:24-26 | The header the UI gateway builds is read back by the auth service as exactly the session's token, for any token without whitespace. |
| Scenarios.UiAdmitsOnlyDecodableTokens | services/ui-service/app.py:103-107 | Against the real auth service, `/me` shows the page exactly for a token that decodes, and clears the session for one that does not. |
| Scenarios.RegisterCode | services/auth-service/app.py:52-70 | For fields the gateway has already stripped, the auth service answers with a code of 300 or more exactly when the lower-cased login is taken. |
| Scenarios.UiRegisterThroughAuth | services/ui-service/app.py:58-68 | Registering through the gateway is refused exactly when the lower-cased login is taken, although the gateway itself does not lower-case. |
| Scenarios.LoginReplyOk | services/auth-service/app.py:106 | A successful auth-service login reaches the gateway as a 200 with the token and user id. |
| Scenarios.UiLoginStoresToken | services/ui-service/app.py:82-89 | The gateway's login stores exactly the token and id the auth service issued. |
| Scenarios.UiLoginThenMe | services/ui-service/app.py:75-118 | After a gateway login, `/me` shows the page for two hours and then clears the session. |
| Scenarios.ProfileOverSessionAuth | services/profile/app.py:65-74 | Over the stateful auth service the profile page shows exactly the owner of a known, unexpired session token. |
| Scenarios.StatefulLifecycle | services/auth/app.py:213-225 | After login and logout the profile page still shows the user until the session's expiry a day later. The cleanup job matches the row exactly once it is more than 30 days old. |
| Scenarios.InactiveVariantsDisagree | services/auth/app.py:167-172 | An 'inactive' account with the right password is admitted by the stateful login and refused with 403 by the auth service. |
| Scenarios.ExampleLiterals | services/auth-service/app.py:55-56 | "alice" and "secret1" are already normalised. |
| Scenarios.ExampleRegister | services/auth-service/app.py:61-68 | Registering alice on an empty table gives id 1 and 'active', and the table keeps its constraints. |
| Scenarios.FirstUserLogsIn | services/auth-service/app.py:61-106 | The first user registered on an empty table gets id 1 and logs in at once as id 1, active. |
| Scenarios.FirstUserBlocked | services/auth-service/app.py:86-91 | Once the first user is set to 'blocked', their login with the right password is refused with 403 'blocked'. |
| Scenarios.BlockedUserKeepsToken | services/auth-service/app.py:108-117 | Alice registers and logs in, and her token validates as active. After she is blocked a new login is refused with 403, yet the old token still validates, with the stale status 'active', until it expires. |

## Left out

- Flask plumbing: request parsing, HTML templates and messages, cookies' `httponly` and `samesite` flags, `url_for`. Responses are datatypes naming the page or reply and its effect on the cookie or session.
- psycopg2 and SQL: tables are maps or row sequences. Database errors other than the unique-login violation are not modelled, except for the cleanup job's faults.
- Schema setup (`ensure_schema`, `init_db`, the `_startup_once` flag) and the health and readiness endpoints.
- PyJWT internals: the HS256 signature, base64url text, leeway and the `iat` check. The codec is a parameter that is only assumed faithful. `sub` is the user id as a number; its decimal-string form and the `int()` conversion are not modelled.
- werkzeug hashing is an ideal salted hash; the random salt is a parameter.
- uuid4 tokens are a parameter, with the precondition that the token is non-empty and not yet in the sessions table.
- Time: one integer clock in seconds. The difference between the database's `NOW()` and Python's `utcnow()`, and timezone handling, are not modelled.
- Unicode: `lower()` is modelled for the ASCII capitals A–Z and the Cyrillic capitals U+0400–U+042F only; every other character is left unchanged.
- JSON bodies with fields of unexpected types (a non-string login, say) are not modelled; fields are strings or absent.
- `save_profile` (monolith and UI gateway), the notification, report and profile-service services, and the other jobs are not part of this model.
- The notification call after a stateful registration is an opaque outcome whose result is ignored.
- UiGateway.Me, UiGateway.LoginAction, UiGateway.RegisterAction: an exception from `requests` (timeout, connection failure) is not caught by these handlers. It becomes `ServerError` with the session unchanged, not a cleared session and redirect.
- UiGateway: a 200 reply whose body is not JSON is not modelled; downstream bodies are typed values, so `v.json()` and `user.json()` cannot fail in the model.
- Accounts.UpdateStatus: PostgreSQL's `rowcount` is replaced by the lookup by id, which is the same in a table whose ids are unique.

Behaviours of the code a reader may not expect:
- A stateful session is valid at the exact instant of its expiry: the code refuses only when `expires_at < now`.
- Stateful logout deletes only the cookie. The session row survives and still validates (`SessionAuth.LogoutKeepsSession`).
- The stateful login gives different messages for an unknown user and a wrong password, and admits 'inactive' accounts (`Scenarios.InactiveVariantsDisagree`).
- The stateful registration stores any status the form sends.
- The cleanup job filters on `created_at`, not on the expiry.

## Findings

| source | as written | input that shows it | evidently intended | confidence | as-written member | corrected member |
|---|---|---|---|---|---|---|
| services/jobs/data_cleanup.py:21-24 | `deleted` takes the cursor's row count before `conn.commit()`. When the commit raises, the exception is swallowed and that count is reported, though the delete was rolled back. | One session created 31 days before `now`, and a commit that fails: the job reports `deleted_sessions: 1` while the session is still in the table. | The reported count equals the number of rows actually removed (0 when the transaction does not commit). | not executed | Cleanup.CommitFailureMiscount | Cleanup.RunReportingCommitted |
