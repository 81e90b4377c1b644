/** The stateful variant (services/auth): accounts keyed by username and a
    server-side session table mapping an opaque token to its owner and expiry. */
module SessionAuth {
  import opened Wrappers
  import Text
  import Passwords
  import Http
  import opened Status

  /** `timedelta(days=1)`, in seconds. */
  const DAY: int := 24 * 60 * 60

  datatype Account = Account(hash: Passwords.PasswordHash, status: string, createdAt: int)

  datatype Session = Session(username: string, createdAt: int, expiresAt: int)

  /** The `users` table (primary key `username`) and the `sessions` table
      (primary key `token`). */
  datatype Store = Store(users: map<string, Account>, sessions: map<string, Session>)

  /** What the tables keep: every session belongs to an existing user (the
      foreign key) and lives one day (create_session), and no username is empty
      (register refuses one; the column itself would accept it). */
  ghost predicate Valid(s: Store) {
    && "" !in s.users
    && (forall t :: t in s.sessions ==> s.sessions[t].username in s.users)
    && (forall t :: t in s.sessions ==> s.sessions[t].expiresAt == s.sessions[t].createdAt + DAY)
  }

  /** `create_session(username)`: a row for a fresh token (the uuid4 string is a
      parameter), created now and expiring one day later. */
  function CreateSession(s: Store, username: string, token: string, now: int): (s': Store)
    requires token != "" && token !in s.sessions
    ensures s'.users == s.users
    ensures token in s'.sessions && s'.sessions[token].username == username
    ensures s'.sessions.Keys == s.sessions.Keys + {token}
    ensures forall t :: t in s.sessions ==> s'.sessions[t] == s.sessions[t]
    ensures |s'.sessions| == |s.sessions| + 1
  {
    s.(sessions := s.sessions[token := Session(username, now, now + DAY)])
  }

  /** `validate_session_token(token)`: the owner of a known, unexpired token. An
      absent or empty token is refused before the table is read; expiry is strict,
      so at exactly `expires_at` the token is still good. */
  function ValidateSessionToken(s: Store, token: Option<string>, now: int): (r: Option<string>)
    ensures r.Some? <==>
      && Http.Truthy(token) && token.value in s.sessions
      && now <= s.sessions[token.value].expiresAt
    ensures r.Some? ==> r.value == s.sessions[token.value].username
  {
    if !Http.Truthy(token) then None
    else if token.value !in s.sessions then None
    else if s.sessions[token.value].expiresAt < now then None
    else Some(s.sessions[token.value].username)
  }

  datatype LoginError = UserNotFound | UserBlocked | WrongPassword
  datatype RegisterError = EmptyFields | UsernameTaken

  /** The handlers' responses. The login and register forms are re-rendered with
      status 200 and an error message; success is a redirect. */
  datatype Response =
    | LoginForm(loginError: LoginError)
    | RegisterForm(registerError: RegisterError)
    | RedirectToProfile(cookie: string)      // Set-Cookie: session_token=<cookie>
    | RedirectToLogin
    | RedirectHomeDeletingCookie
    | ValidateJson(code: int, username: Option<string>)

  datatype Step = Step(response: Response, store: Store)

  /** POST /login. The username is stripped, the password is taken as typed. The
      checks run in order: unknown user, status 'blocked', wrong password; each has
      its own message, and any other status (such as 'inactive') is admitted. */
  function Login(s: Store, rawUsername: string, password: string, token: string, now: int): (r: Step)
    requires token != "" && token !in s.sessions
    ensures var u := Text.Strip(rawUsername);
      && (r.response == LoginForm(UserNotFound) <==> u !in s.users)
      && (r.response == LoginForm(UserBlocked) <==> u in s.users && s.users[u].status == BLOCKED)
      && (r.response == LoginForm(WrongPassword) <==>
            u in s.users && s.users[u].status != BLOCKED && !Passwords.Check(s.users[u].hash, password))
      && (r.response.RedirectToProfile? <==>
            u in s.users && s.users[u].status != BLOCKED && Passwords.Check(s.users[u].hash, password))
    ensures r.response.LoginForm? ==> r.store == s
    ensures r.response.RedirectToProfile? ==>
      && r.response.cookie == token
      && r.store.users == s.users
      && r.store.sessions.Keys == s.sessions.Keys + {token}
      && r.store.sessions[token].username == Text.Strip(rawUsername)
      && r.store == CreateSession(s, Text.Strip(rawUsername), token, now)
    ensures r.response.LoginForm? || r.response.RedirectToProfile?
    ensures Valid(s) ==> Valid(r.store)
  {
    var username := Text.Strip(rawUsername);
    if username !in s.users then Step(LoginForm(UserNotFound), s)
    else
      var acct := s.users[username];
      if acct.status == BLOCKED then Step(LoginForm(UserBlocked), s)
      else if !Passwords.Check(acct.hash, password) then Step(LoginForm(WrongPassword), s)
      else Step(RedirectToProfile(token), CreateSession(s, username, token, now))
  }

  /** The status stored by registration: the form's `status`, defaulting to
      'active' when missing or empty, stripped and otherwise not checked. */
  function FormStatus(rawStatus: string): (r: string)
    ensures rawStatus == "" ==> r == ACTIVE
    ensures rawStatus != "" && Text.Strip(rawStatus) == rawStatus ==> r == rawStatus
    ensures rawStatus != "" ==> r == Text.Strip(rawStatus)
  {
    Text.StripFixpoint(ACTIVE);
    Text.Strip(if rawStatus == "" then ACTIVE else rawStatus)
  }

  /** POST /register. The username is stripped (not lower-cased); an empty username
      or password is refused before any write; an existing username is refused and
      leaves the table as it was. The notification call that follows a successful
      insert cannot change the outcome: its result is ignored. */
  function Register(s: Store, rawUsername: string, password: string, rawStatus: string,
                    salt: nat, now: int, notification: Http.Outcome<()>): (r: Step)
    ensures var u := Text.Strip(rawUsername);
      && (r.response == RegisterForm(EmptyFields) <==> u == "" || password == "")
      && (r.response == RegisterForm(UsernameTaken) <==> u != "" && password != "" && u in s.users)
      && (r.response == RedirectToLogin <==> u != "" && password != "" && u !in s.users)
    ensures r.response.RegisterForm? ==> r.store == s
    ensures r.response == RedirectToLogin ==>
      && r.store.sessions == s.sessions
      && r.store.users == s.users[Text.Strip(rawUsername) := Account(Passwords.Hash(password, salt), FormStatus(rawStatus), now)]
    ensures Valid(s) ==> Valid(r.store)
  {
    var username := Text.Strip(rawUsername);
    if username == "" || password == "" then Step(RegisterForm(EmptyFields), s)
    else if username in s.users then Step(RegisterForm(UsernameTaken), s)
    else
      var acct := Account(Passwords.Hash(password, salt), FormStatus(rawStatus), now);
      Step(RedirectToLogin, s.(users := s.users[username := acct]))
  }

  /** GET /logout: the cookie is deleted; the session row is not. */
  function Logout(s: Store): (r: Step)
    ensures r.store == s && r.response == RedirectHomeDeletingCookie
  {
    Step(RedirectHomeDeletingCookie, s)
  }

  /** GET /api/validate: the `token` query parameter when it is non-empty, else the
      `session_token` cookie. 200 with the username, or 401 with `valid: false`. */
  function ApiValidate(s: Store, query: Option<string>, cookie: Option<string>, now: int): (r: Response)
    ensures r.ValidateJson? && (r.code == 200 || r.code == 401)
    ensures r.code == 200 <==> r.username.Some?
    ensures var t := if Http.Truthy(query) then query else cookie;
      r.code == 200 <==> (ValidateSessionToken(s, t, now).Some? && ValidateSessionToken(s, t, now).value != "")
    ensures var t := if Http.Truthy(query) then query else cookie;
      r.code == 200 ==> r.username == ValidateSessionToken(s, t, now)
    ensures Valid(s) && r.code == 200 ==> r.username.value in s.users
  {
    var token := if Http.Truthy(query) then query else cookie;
    match ValidateSessionToken(s, token, now)
    case Some(u) => if u == "" then ValidateJson(401, None) else ValidateJson(200, Some(u))
    case None => ValidateJson(401, None)
  }

  /** A new session validates to its owner until it expires a day later, and
      creating it changes no other token's validity. */
  lemma CreateThenValidate(s: Store, username: string, token: string, now: int, later: int)
    requires token != "" && token !in s.sessions
    ensures var s' := CreateSession(s, username, token, now);
      && (later <= now + DAY ==> ValidateSessionToken(s', Some(token), later) == Some(username))
      && (later > now + DAY ==> ValidateSessionToken(s', Some(token), later) == None)
      && forall other: Option<string> :: other != Some(token) ==>
           ValidateSessionToken(s', other, later) == ValidateSessionToken(s, other, later)
  {
  }

  /** Every failed login leaves both tables as they were; a successful one adds
      exactly one session, whose token is the cookie it sets. */
  lemma LoginSessionCount(s: Store, rawUsername: string, password: string, token: string, now: int)
    requires token != "" && token !in s.sessions
    ensures var r := Login(s, rawUsername, password, token, now);
      && (r.response.LoginForm? ==> |r.store.sessions| == |s.sessions|)
      && (r.response.RedirectToProfile? ==>
            && |r.store.sessions| == |s.sessions| + 1
            && ValidateSessionToken(r.store, Some(r.response.cookie), now) == Some(Text.Strip(rawUsername)))
  {
  }

  /** An account whose status is anything but 'blocked' (for instance 'inactive',
      or a status typed with different case) is admitted with its password. */
  lemma NonBlockedAdmitted(s: Store, username: string, password: string, token: string, now: int)
    requires token != "" && token !in s.sessions
    requires username in s.users && Text.Strip(username) == username
    requires s.users[username].status != BLOCKED && Passwords.Check(s.users[username].hash, password)
    ensures Login(s, username, password, token, now).response == RedirectToProfile(token)
  {
  }

  /** The refusals are distinguishable: an unknown user and a wrong password get
      different messages, so the form reveals which usernames exist. */
  lemma LoginRevealsAccounts(s: Store, unknown: string, known: string, password: string, token: string, now: int)
    requires token != "" && token !in s.sessions
    requires Text.Strip(unknown) !in s.users
    requires Text.Strip(known) in s.users && s.users[Text.Strip(known)].status != BLOCKED
    requires !Passwords.Check(s.users[Text.Strip(known)].hash, password)
    ensures Login(s, unknown, password, token, now).response != Login(s, known, password, token, now).response
  {
  }

  /** Registering a taken username fails and changes nothing, whatever the form says. */
  lemma RegisterTwice(s: Store, rawUsername: string, p1: string, p2: string, st1: string, st2: string,
                      salt1: nat, salt2: nat, now: int, later: int, n1: Http.Outcome<()>, n2: Http.Outcome<()>)
    requires Text.Strip(rawUsername) != "" && p1 != "" && p2 != ""
    ensures var first := Register(s, rawUsername, p1, st1, salt1, now, n1);
      && (first.response == RedirectToLogin || first.response == RegisterForm(UsernameTaken))
      && Register(first.store, rawUsername, p2, st2, salt2, later, n2) == Step(RegisterForm(UsernameTaken), first.store)
  {
  }

  /** Registration stores the status the form sends, whatever it is, once
      stripped; a missing or empty one becomes 'active'. */
  lemma RegisterStatusUnchecked(s: Store, rawUsername: string, password: string, rawStatus: string,
                                salt: nat, now: int, n: Http.Outcome<()>)
    requires Text.Strip(rawUsername) != "" && password != "" && Text.Strip(rawUsername) !in s.users
    ensures var users := Register(s, rawUsername, password, rawStatus, salt, now, n).store.users;
      && Text.Strip(rawUsername) in users
      && (rawStatus == "" ==> users[Text.Strip(rawUsername)].status == ACTIVE)
      && (rawStatus != "" && Text.Strip(rawStatus) == rawStatus ==> users[Text.Strip(rawUsername)].status == rawStatus)
      && (rawStatus != "" ==> users[Text.Strip(rawUsername)].status == Text.Strip(rawStatus))
      && (rawStatus != "" && (forall k :: 0 <= k < |rawStatus| ==> Text.IsSpace(rawStatus[k])) ==>
            users[Text.Strip(rawUsername)].status == "")
  {
    var u := Text.Strip(rawUsername);
    var users := Register(s, rawUsername, password, rawStatus, salt, now, n).store.users;
    assert users == s.users[u := Account(Passwords.Hash(password, salt), FormStatus(rawStatus), now)];
    assert users[u].status == FormStatus(rawStatus);
    Text.StripEmptyIff(rawStatus);
  }

  /** The notification outcome does not influence registration. */
  lemma RegisterIgnoresNotification(s: Store, rawUsername: string, password: string, rawStatus: string,
                                    salt: nat, now: int, n1: Http.Outcome<()>, n2: Http.Outcome<()>)
    ensures Register(s, rawUsername, password, rawStatus, salt, now, n1) ==
            Register(s, rawUsername, password, rawStatus, salt, now, n2)
  {
  }

  /** Logout does not revoke: the old token still validates, through the API too,
      until the session's own expiry. */
  lemma LogoutKeepsSession(s: Store, token: string, now: int)
    requires Valid(s)
    requires ValidateSessionToken(s, Some(token), now).Some?
    ensures var s' := Logout(s).store;
      && ValidateSessionToken(s', Some(token), now) == ValidateSessionToken(s, Some(token), now)
      && ApiValidate(s', Some(token), None, now).code == 200
  {
  }

  /** A non-empty query token is used and the cookie is ignored. */
  lemma ApiValidatePrefersQuery(s: Store, query: string, c1: Option<string>, c2: Option<string>, now: int)
    requires query != ""
    ensures ApiValidate(s, Some(query), c1, now) == ApiValidate(s, Some(query), c2, now)
  {
  }
}
