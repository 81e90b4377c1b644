/** The single-process variant (monolith): the same users table and credential
    check as the auth service, with the signed token kept in the Flask session. */
module Monolith {
  import opened Wrappers
  import Text
  import Passwords
  import Jwt
  import opened Accounts
  import opened Status
  import opened Http

  datatype FormError = EmptyFields | RegistrationFailed | BadCredentials | Inactive(status: string)

  datatype UserView = UserView(id: nat, login: string, status: string)

  datatype Profile = Profile(fullName: string, bio: string)

  datatype Page =
    | RegisterForm(error: FormError)
    | LoginForm(error: FormError)
    | RedirectLoginPage
    | RedirectMe
    | RedirectIndex
    | MePage(user: UserView, profile: Profile)

  /** The HTTP status of each page: the forms carry the error's code. */
  function Code(p: Page): int {
    match p
    case RegisterForm(EmptyFields) => 400
    case RegisterForm(_) => 409
    case LoginForm(EmptyFields) => 400
    case LoginForm(Inactive(_)) => 403
    case LoginForm(_) => 401
    case MePage(_, _) => 200
    case _ => 302
  }

  datatype RegisterStep = RegisterStep(page: Page, table: Table)
  datatype SessionStep = SessionStep(page: Page, session: FlaskSession)

  /** POST /register: 400 for an empty login or password, 409 for a login already
      taken, otherwise a row with the default status 'active' and a redirect to
      the login page. */
  function Register(t: Table, rawLogin: string, rawPassword: string, salt: nat, now: int): (r: RegisterStep)
    ensures var login := Text.StripLower(rawLogin); var password := Text.Strip(rawPassword);
      && (r.page == RegisterForm(EmptyFields) <==> login == "" || password == "")
      && (r.page == RegisterForm(RegistrationFailed) <==>
            login != "" && password != "" && Taken(t.rows, login))
      && (r.page == RedirectLoginPage <==>
            login != "" && password != "" && !Taken(t.rows, login))
      && (r.page == RedirectLoginPage ==>
            r.table.rows == t.rows + [UserRow(t.nextId, login, Passwords.Hash(password, salt), ACTIVE, now)])
    ensures r.page.RegisterForm? ==> r.table.rows == t.rows
    ensures Valid(t) ==> Valid(r.table)
  {
    var login := Text.StripLower(rawLogin);
    var password := Text.Strip(rawPassword);
    if login == "" || password == "" then RegisterStep(RegisterForm(EmptyFields), t)
    else
      match Insert(t, login, Passwords.Hash(password, salt), now)
      case Duplicate(t') => RegisterStep(RegisterForm(RegistrationFailed), t')
      case Inserted(_, t') => RegisterStep(RedirectLoginPage, t')
  }

  /** POST /login: 400 for an empty field; unknown login 401; a status other than
      'active' 403 before the password is checked; wrong password 401 with the same
      message as an unknown login. Success stores the token and the user id in the
      session; every failure leaves the session as it was. */
  function Login(t: Table, cfg: Jwt.Settings, session: FlaskSession, rawLogin: string, rawPassword: string, now: int): (r: SessionStep)
    ensures var login := Text.StripLower(rawLogin); var password := Text.Strip(rawPassword);
      && (r.page == LoginForm(EmptyFields) <==> login == "" || password == "")
      && (r.page == LoginForm(BadCredentials) <==>
            && login != "" && password != ""
            && (Authenticate(t.rows, login, password).UnknownLogin? || Authenticate(t.rows, login, password).BadPassword?))
      && (forall st :: r.page == LoginForm(Inactive(st)) <==>
            login != "" && password != "" && Authenticate(t.rows, login, password) == Accounts.NotActive(st))
      && (r.page == RedirectMe <==> login != "" && password != "" && Authenticate(t.rows, login, password).Admitted?)
      && (r.page == RedirectMe ==>
            var u := Authenticate(t.rows, login, password).user;
            r.session == FlaskSession(Some(cfg.codec.encode(Jwt.Mint(u.id, u.login, ACTIVE, cfg.issuer, now), cfg.secret)), Some(u.id)))
    ensures r.page != RedirectMe ==> r.session == session && r.page.LoginForm?
  {
    var login := Text.StripLower(rawLogin);
    var password := Text.Strip(rawPassword);
    if login == "" || password == "" then SessionStep(LoginForm(EmptyFields), session)
    else
      match Authenticate(t.rows, login, password)
      case UnknownLogin => SessionStep(LoginForm(BadCredentials), session)
      case NotActive(status) => SessionStep(LoginForm(Inactive(status)), session)
      case BadPassword => SessionStep(LoginForm(BadCredentials), session)
      case Admitted(u) =>
        var token := cfg.codec.encode(Jwt.Mint(u.id, u.login, u.status, cfg.issuer, now), cfg.secret);
        SessionStep(RedirectMe, FlaskSession(Some(token), Some(u.id)))
  }

  /** GET /logout: the whole session is cleared. */
  function Logout(session: FlaskSession): (r: SessionStep)
    ensures r.session.token.None? && r.session.userId.None? && r.page == RedirectIndex
  {
    SessionStep(RedirectIndex, Cleared)
  }

  /** GET /me: no token redirects to the login page; a token that does not decode
      clears the session, then redirects. Otherwise the user row named by `sub`,
      falling back to the login and status in the token when the row is missing,
      and the profile or an empty one. */
  function Me(t: Table, profiles: map<nat, Profile>, cfg: Jwt.Settings, session: FlaskSession, now: int): (r: SessionStep)
    ensures !Truthy(session.token) ==> r == SessionStep(RedirectLoginPage, session)
    ensures Truthy(session.token) && Jwt.Decode(cfg.codec, session.token.value, cfg.secret, cfg.issuer, now).None? ==>
      r == SessionStep(RedirectLoginPage, Cleared)
    ensures r.page.MePage? <==>
      Truthy(session.token) && Jwt.Decode(cfg.codec, session.token.value, cfg.secret, cfg.issuer, now).Some?
    ensures r.page.MePage? ==>
      var c := Jwt.Decode(cfg.codec, session.token.value, cfg.secret, cfg.issuer, now).value;
      && r.session == session
      && r.page.user.id == c.sub
      && (Valid(t) ==> forall i :: 0 <= i < |t.rows| && t.rows[i].id == c.sub ==> r.page.user == UserView(c.sub, t.rows[i].login, t.rows[i].status))
      && ((forall i :: 0 <= i < |t.rows| ==> t.rows[i].id != c.sub) ==> r.page.user == UserView(c.sub, c.login, c.status))
      && r.page.profile == (if c.sub in profiles then profiles[c.sub] else Profile("", ""))
  {
    if !Truthy(session.token) then SessionStep(RedirectLoginPage, session)
    else
      FindByIdAll(t);
      match Jwt.Decode(cfg.codec, session.token.value, cfg.secret, cfg.issuer, now)
      case None => SessionStep(RedirectLoginPage, Cleared)
      case Some(c) =>
        var user := match FindById(t.rows, c.sub)
          case Some(u) => UserView(u.id, u.login, u.status)
          case None => UserView(c.sub, c.login, c.status);
        var profile := if c.sub in profiles then profiles[c.sub] else Profile("", "");
        SessionStep(MePage(user, profile), session)
  }

  /** An unknown login and a wrong password are refused with the same page. */
  lemma LoginHidesUnknownLogin(t: Table, cfg: Jwt.Settings, session: FlaskSession, unknown: string, known: string,
                               password: string, now: int)
    requires Valid(t)
    requires Text.Strip(password) != "" && Text.StripLower(unknown) != "" && Text.StripLower(known) != ""
    requires !Taken(t.rows, Text.StripLower(unknown))
    requires exists i :: 0 <= i < |t.rows| && t.rows[i].login == Text.StripLower(known) && t.rows[i].status == ACTIVE
                                     && !Passwords.Check(t.rows[i].hash, Text.Strip(password))
    ensures Login(t, cfg, session, unknown, password, now) == Login(t, cfg, session, known, password, now)
  {
    var i :| 0 <= i < |t.rows| && t.rows[i].login == Text.StripLower(known) && t.rows[i].status == ACTIVE
                                 && !Passwords.Check(t.rows[i].hash, Text.Strip(password));
    AuthenticateRow(t, i, Text.Strip(password));
  }

  /** A login registered with a password logs in with that password at once,
      storing the new row's id in the session. */
  lemma RegisterThenLogin(t: Table, cfg: Jwt.Settings, session: FlaskSession, rawLogin: string, rawPassword: string,
                          salt: nat, now: int)
    requires Valid(t)
    requires Register(t, rawLogin, rawPassword, salt, now).page == RedirectLoginPage
    ensures var r := Login(Register(t, rawLogin, rawPassword, salt, now).table, cfg, session, rawLogin, rawPassword, now);
      r.page == RedirectMe && r.session.userId == Some(t.nextId)
  {
    var reg := Register(t, rawLogin, rawPassword, salt, now);
    var k := |t.rows|;
    assert reg.table.rows[k].login == Text.StripLower(rawLogin) && reg.table.rows[k].id == t.nextId;
    Passwords.CheckHash(Text.Strip(rawPassword), Text.Strip(rawPassword), salt);
    AuthenticateRow(reg.table, k, Text.Strip(rawPassword));
  }

  /** After logout, /me redirects to the login page whatever the tables, the
      token settings or the clock. */
  lemma LogoutThenMe(t: Table, profiles: map<nat, Profile>, cfg: Jwt.Settings, session: FlaskSession, now: int)
    ensures Me(t, profiles, cfg, Logout(session).session, now) == SessionStep(RedirectLoginPage, Cleared)
  {
  }

  /** Right after a successful login, /me shows the logged-in user from the table
      for two hours; after that the session is cleared. */
  lemma LoginThenMe(t: Table, profiles: map<nat, Profile>, cfg: Jwt.Settings, session: FlaskSession,
                    rawLogin: string, rawPassword: string, now: int, later: int)
    requires Valid(t) && Jwt.Faithful(cfg.codec)
    requires Login(t, cfg, session, rawLogin, rawPassword, now).page == RedirectMe
    ensures var s := Login(t, cfg, session, rawLogin, rawPassword, now).session;
      var u := Authenticate(t.rows, Text.StripLower(rawLogin), Text.Strip(rawPassword)).user;
      && (later < now + Jwt.LIFETIME ==>
            && Me(t, profiles, cfg, s, later).page.MePage?
            && Me(t, profiles, cfg, s, later).page.user == UserView(u.id, u.login, u.status))
      && (later >= now + Jwt.LIFETIME ==> Me(t, profiles, cfg, s, later) == SessionStep(RedirectLoginPage, Cleared))
  {
    var u := Authenticate(t.rows, Text.StripLower(rawLogin), Text.Strip(rawPassword)).user;
    Jwt.MintedTokenLifetime(cfg.codec, cfg.secret, u.id, u.login, ACTIVE, cfg.issuer, now, later);
    var k :| 0 <= k < |t.rows| && t.rows[k] == u;
    FindByIdUnique(t, k);
  }
}
