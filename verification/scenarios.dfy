/** The services wired together: each gateway talking to the auth service it is
    deployed with, and the two issuance variants compared on the same situations. */
module Scenarios {
  import opened Wrappers
  import Text
  import Passwords
  import Jwt
  import Http
  import Accounts
  import Status
  import AuthService
  import UiGateway
  import SessionAuth
  import ProfileGateway
  import Cleanup

  /** The auth service's /login reply as the UI gateway receives it. */
  function LoginReply(t: Accounts.Table, cfg: Jwt.Settings, now: int, login: string, password: string): Http.Outcome<UiGateway.LoginJson> {
    var r := AuthService.Login(t, cfg, login, password, now);
    Http.Ok(AuthService.Code(r),
            if r.LoggedIn? then UiGateway.LoginJson(Some(r.token), Some(r.userId)) else UiGateway.LoginJson(None, None))
  }

  function LoginEndpoint(t: Accounts.Table, cfg: Jwt.Settings, now: int): (string, string) -> Http.Outcome<UiGateway.LoginJson> {
    (login: string, password: string) => LoginReply(t, cfg, now, login, password)
  }

  /** The auth service's /register reply as the UI gateway receives it (only the code is read). */
  function RegisterReply(t: Accounts.Table, salt: nat, now: int, login: string, password: string): Http.Outcome<()> {
    Http.Ok(AuthService.Code(AuthService.Register(t, login, password, salt, now).reply), ())
  }

  function RegisterEndpoint(t: Accounts.Table, salt: nat, now: int): (string, string) -> Http.Outcome<()> {
    (login: string, password: string) => RegisterReply(t, salt, now, login, password)
  }

  /** The auth service's /validate reply as the UI gateway receives it. */
  function ValidateReply(cfg: Jwt.Settings, now: int, header: Option<string>): Http.Outcome<UiGateway.ValidateJson> {
    var r := AuthService.Validate(cfg, header, now);
    Http.Ok(AuthService.Code(r),
            if r.TokenValid? then UiGateway.ValidateJson(Some(r.userId), Some(r.login), Some(r.status))
            else UiGateway.ValidateJson(None, None, None))
  }

  function ValidateEndpoint(cfg: Jwt.Settings, now: int): Option<string> -> Http.Outcome<UiGateway.ValidateJson> {
    (header: Option<string>) => ValidateReply(cfg, now, header)
  }

  /** The stateful auth service's /api/validate?token=... reply as the profile page receives it. */
  function ApiValidateReply(s: SessionAuth.Store, now: int, token: string): Http.Outcome<Option<ProfileGateway.ValidateJson>> {
    var r := SessionAuth.ApiValidate(s, Some(token), None, now);
    Http.Ok(r.code, Some(ProfileGateway.ValidateJson(r.code == 200, r.username)))
  }

  function ApiValidateEndpoint(s: SessionAuth.Store, now: int): ProfileGateway.AuthCall {
    (token: string) => ApiValidateReply(s, now, token)
  }

  /** The header the UI gateway sends is read back as the token by the auth
      service, for any token text without whitespace (every JWT). */
  lemma HeaderRoundTrip(session: Http.FlaskSession)
    requires UiGateway.GetToken(session) != "" && Text.NoSpace(UiGateway.GetToken(session))
    ensures AuthService.BearerToken(UiGateway.AuthHeader(session)) == UiGateway.GetToken(session)
  {
    AuthService.BearerRoundTrip(UiGateway.GetToken(session));
  }

  /** With the user and profile services answering, the UI gateway shows /me
      exactly for a token the auth service decodes, and clears the session for a
      token it does not. */
  lemma UiAdmitsOnlyDecodableTokens(session: Http.FlaskSession, cfg: Jwt.Settings, now: int,
                                    users: nat -> Http.Outcome<UiGateway.UserView>,
                                    profiles: nat -> Http.Outcome<UiGateway.ProfileView>)
    requires UiGateway.GetToken(session) != "" && Text.NoSpace(UiGateway.GetToken(session))
    requires forall id :: users(id).Ok? && profiles(id).Ok?
    ensures var r := UiGateway.Me(session, ValidateEndpoint(cfg, now), users, profiles);
      var d := Jwt.Decode(cfg.codec, UiGateway.GetToken(session), cfg.secret, cfg.issuer, now);
      && (r.page.MePage? <==> d.Some?)
      && (d.None? ==> r == UiGateway.SessionStep(UiGateway.RedirectLoginPage, Http.Cleared))
  {
    var h := UiGateway.AuthHeader(session);
    HeaderRoundTrip(session);
    var vr := AuthService.Validate(cfg, h, now);
    AuthService.ValidateCode(vr);
    var reply := ValidateEndpoint(cfg, now)(h);
    var r := UiGateway.Me(session, ValidateEndpoint(cfg, now), users, profiles);
    if vr.TokenValid? {
      assert reply == Http.Ok(200, UiGateway.ValidateJson(Some(vr.userId), Some(vr.login), Some(vr.status)));
      var id := UiGateway.MeUserId(session, reply.body);
      assert id.Some?;
      assert users(id.value).Ok? && profiles(id.value).Ok?;
      assert r.page.MePage?;
    } else {
      assert reply.Ok? && reply.code == AuthService.Code(vr) && reply.code != 200;
      assert r == UiGateway.SessionStep(UiGateway.RedirectLoginPage, Http.Cleared);
    }
  }

  /** Registration through the UI gateway: the gateway strips but does not
      lower-case, the auth service lower-cases, so the form is refused with 400
      exactly when the lower-cased login is already taken. */
  lemma UiRegisterThroughAuth(t: Accounts.Table, rawLogin: string, rawPassword: string, salt: nat, now: int)
    requires Text.Strip(rawLogin) != "" && Text.Strip(rawPassword) != ""
    ensures UiGateway.RegisterAction(rawLogin, rawPassword, RegisterEndpoint(t, salt, now)) ==
      (if Accounts.Taken(t.rows, Text.StripLower(rawLogin)) then UiGateway.RegisterForm(400) else UiGateway.RedirectLoginPage)
  {
    var l := Text.Strip(rawLogin);
    var p := Text.Strip(rawPassword);
    Text.StripIdempotent(rawLogin);
    Text.StripIdempotent(rawPassword);
    assert Text.StripLower(l) == Text.StripLower(rawLogin);
    RegisterCode(t, l, p, salt, now);
    var code := AuthService.Code(AuthService.Register(t, l, p, salt, now).reply);
    assert RegisterEndpoint(t, salt, now)(l, p) == Http.Ok(code, ());
  }

  /** The auth service refuses a stripped, non-empty registration with a code of
      300 or more exactly when the lower-cased login is taken. */
  lemma RegisterCode(t: Accounts.Table, l: string, p: string, salt: nat, now: int)
    requires l != "" && p != "" && Text.Strip(l) == l && Text.Strip(p) == p
    ensures AuthService.Code(AuthService.Register(t, l, p, salt, now).reply) >= 300
            <==> Accounts.Taken(t.rows, Text.StripLower(l))
  {
    assert |Text.StripLower(l)| == |l|;
    assert AuthService.NormalizePassword(p) == p;
  }


  /** A successful auth-service login reaches the gateway as a 200 carrying the
      token and user id; it also implies both forwarded fields were non-empty. */
  lemma LoginReplyOk(t: Accounts.Table, cfg: Jwt.Settings, now: int, login: string, password: string)
    requires AuthService.Login(t, cfg, login, password, now).LoggedIn?
    ensures var r := AuthService.Login(t, cfg, login, password, now);
      LoginReply(t, cfg, now, login, password) == Http.Ok(200, UiGateway.LoginJson(Some(r.token), Some(r.userId)))
    ensures login != "" && password != ""
  {
    assert |Text.StripLower(login)| <= |login| && |Text.Strip(password)| <= |password|;
  }

  /** The UI gateway's login, forwarding to the auth service, stores the token
      and user id the auth service issues. */
  lemma UiLoginStoresToken(t: Accounts.Table, cfg: Jwt.Settings, session: Http.FlaskSession,
                           rawLogin: string, rawPassword: string, now: int)
    requires AuthService.Login(t, cfg, Text.Strip(rawLogin), Text.Strip(rawPassword), now).LoggedIn?
    ensures var r := AuthService.Login(t, cfg, Text.Strip(rawLogin), Text.Strip(rawPassword), now);
      UiGateway.LoginAction(session, rawLogin, rawPassword, LoginEndpoint(t, cfg, now)) ==
      UiGateway.SessionStep(UiGateway.RedirectMe, Http.FlaskSession(Some(r.token), Some(r.userId)))
  {
    var l := Text.Strip(rawLogin);
    var p := Text.Strip(rawPassword);
    var r := AuthService.Login(t, cfg, l, p, now);
    LoginReplyOk(t, cfg, now, l, p);
    var body := UiGateway.LoginJson(Some(r.token), Some(r.userId));
    UiGateway.LoginActionStores(session, rawLogin, rawPassword, LoginEndpoint(t, cfg, now), body);
  }

  /** Through the gateway: a login with a registered account's credentials stores
      the auth service's token, and /me then shows the page for two hours; after
      that it clears the session. */
  lemma UiLoginThenMe(t: Accounts.Table, cfg: Jwt.Settings, session: Http.FlaskSession,
                      rawLogin: string, rawPassword: string, now: int, later: int,
                      users: nat -> Http.Outcome<UiGateway.UserView>,
                      profiles: nat -> Http.Outcome<UiGateway.ProfileView>)
    requires Jwt.Faithful(cfg.codec)
    requires forall id :: users(id).Ok? && profiles(id).Ok?
    requires AuthService.Login(t, cfg, Text.Strip(rawLogin), Text.Strip(rawPassword), now).LoggedIn?
    ensures var s := UiGateway.LoginAction(session, rawLogin, rawPassword, LoginEndpoint(t, cfg, now));
      && s.page == UiGateway.RedirectMe
      && (later < now + Jwt.LIFETIME ==> UiGateway.Me(s.session, ValidateEndpoint(cfg, later), users, profiles).page.MePage?)
      && (later >= now + Jwt.LIFETIME ==>
            UiGateway.Me(s.session, ValidateEndpoint(cfg, later), users, profiles).session == Http.Cleared)
  {
    var r := AuthService.Login(t, cfg, Text.Strip(rawLogin), Text.Strip(rawPassword), now);
    UiLoginStoresToken(t, cfg, session, rawLogin, rawPassword, now);
    var s := Http.FlaskSession(Some(r.token), Some(r.userId));
    var c := Jwt.Mint(r.userId, r.login, r.status, cfg.issuer, now);
    assert r.token == cfg.codec.encode(c, cfg.secret);
    assert UiGateway.GetToken(s) == r.token;
    UiAdmitsOnlyDecodableTokens(s, cfg, later, users, profiles);
    Jwt.MintedTokenLifetime(cfg.codec, cfg.secret, r.userId, r.login, r.status, cfg.issuer, now, later);
  }

  /** The profile page over the stateful auth service: it shows exactly the users
      whose session token is known and unexpired. */
  lemma ProfileOverSessionAuth(s: SessionAuth.Store, cookie: Option<string>, now: int)
    requires SessionAuth.Valid(s)
    ensures var p := ProfileGateway.Profile(cookie, ApiValidateEndpoint(s, now), s.users);
      var v := SessionAuth.ValidateSessionToken(s, cookie, now);
      && (p.ProfilePage? <==> v.Some?)
      && (p.ProfilePage? ==> p.username == v.value)
  {
  }

  /** The stateful lifecycle: after a login the profile page shows the user;
      logging out does not end that (the row survives) until the session expires
      a day later; the cleanup job sweeps the row a month after its creation. */
  lemma StatefulLifecycle(s: SessionAuth.Store, username: string, password: string, token: string,
                          now: int, later: int, sweep: int)
    requires SessionAuth.Valid(s)
    requires token != "" && token !in s.sessions
    requires SessionAuth.Login(s, username, password, token, now).response.RedirectToProfile?
    requires now <= later
    ensures var s1 := SessionAuth.Logout(SessionAuth.Login(s, username, password, token, now).store).store;
      var p := ProfileGateway.Profile(Some(token), ApiValidateEndpoint(s1, later), s1.users);
      && (later <= now + SessionAuth.DAY <==> p.ProfilePage?)
      && (sweep > now + Cleanup.RETENTION ==> token in Cleanup.Doomed(s1.sessions, sweep))
      && (sweep <= now + Cleanup.RETENTION ==> token !in Cleanup.Doomed(s1.sessions, sweep))
  {
    var s1 := SessionAuth.Login(s, username, password, token, now).store;
    ProfileOverSessionAuth(s1, Some(token), later);
  }

  /** The variants disagree on 'inactive': the stateful login admits an inactive
      account with its password, the auth service refuses it with 403. */
  lemma InactiveVariantsDisagree(s: SessionAuth.Store, t: Accounts.Table, cfg: Jwt.Settings,
                                 login: string, password: string, token: string, now: int, k: nat)
    requires token != "" && token !in s.sessions
    requires login != "" && Text.Strip(login) == login && Text.StripLower(login) == login
    requires password != "" && Text.Strip(password) == password
    requires login in s.users && s.users[login].status == Status.INACTIVE && Passwords.Check(s.users[login].hash, password)
    requires Accounts.Valid(t) && k < |t.rows| && t.rows[k].login == login && t.rows[k].status == Status.INACTIVE
    ensures SessionAuth.Login(s, login, password, token, now).response == SessionAuth.RedirectToProfile(token)
    ensures AuthService.Login(t, cfg, login, password, now) == AuthService.AccountNotActive(Status.INACTIVE)
  {
    Accounts.AuthenticateRow(t, k, password);
  }

  /** The literals of the example are already normalised. */
  lemma ExampleLiterals()
    ensures Text.StripLower("alice") == "alice" && Text.Strip("secret1") == "secret1"
  {
    Text.StripFixpoint("alice");
    Text.LowerFixpoint("alice");
    Text.StripFixpoint("secret1");
  }

  /** Registering alice on an empty table yields id 1, status active. */
  lemma ExampleRegister(salt: nat, now: int)
    ensures var reg := AuthService.Register(Accounts.Empty, "alice", "secret1", salt, now);
      && reg.reply == AuthService.Registered(1, "alice", Status.ACTIVE)
      && reg.table == Accounts.Table([Accounts.UserRow(1, "alice", Passwords.Hash("secret1", salt), Status.ACTIVE, now)], 2)
      && Accounts.Valid(reg.table)
  {
    ExampleLiterals();
  }

  /** The first user registered on an empty table gets id 1 and can log in at
      once as that id, active. */
  lemma FirstUserLogsIn(cfg: Jwt.Settings, l: string, p: string, salt: nat, now: int)
    requires Text.StripLower(l) == l && l != "" && Text.Strip(p) == p && p != ""
    ensures var reg := AuthService.Register(Accounts.Empty, l, p, salt, now);
      var tok := AuthService.Login(reg.table, cfg, l, p, now);
      && reg.reply == AuthService.Registered(1, l, Status.ACTIVE)
      && tok.LoggedIn? && tok.userId == 1 && tok.login == l && tok.status == Status.ACTIVE
  {
    AuthService.RegisterThenLogin(Accounts.Empty, cfg, l, p, salt, now);
  }

  /** Once the first user is blocked, a new login of theirs is refused as not active. */
  lemma FirstUserBlocked(cfg: Jwt.Settings, l: string, p: string, salt: nat, now: int, later: int)
    requires Text.StripLower(l) == l && l != "" && Text.Strip(p) == p && p != ""
    ensures var reg := AuthService.Register(Accounts.Empty, l, p, salt, now);
      var blocked := AuthService.SetStatus(reg.table, 1, "blocked");
      && blocked.reply == AuthService.StatusChanged(1, Status.BLOCKED)
      && AuthService.Login(blocked.table, cfg, l, p, later) == AuthService.AccountNotActive(Status.BLOCKED)
  {
    AuthService.BlockedIsKnown();
    var reg := AuthService.Register(Accounts.Empty, l, p, salt, now);
    assert reg.table.rows[0].id == 1 && reg.table.rows[0].login == l;
    AuthService.BlockedCannotLogin(reg.table, cfg, 0, p, later);
  }

  /** The example run on the stateless variant: alice registers and logs in; the
      token validates as alice, active; after she is blocked a new login is refused
      with 403, yet the old token still validates, with the stale status 'active'. */
  lemma BlockedUserKeepsToken(cfg: Jwt.Settings, salt: nat, now: int, later: int)
    requires Jwt.Faithful(cfg.codec)
    requires now <= later < now + Jwt.LIFETIME
    ensures var reg := AuthService.Register(Accounts.Empty, "alice", "secret1", salt, now);
      var tok := AuthService.Login(reg.table, cfg, "alice", "secret1", now);
      var blocked := AuthService.SetStatus(reg.table, 1, "blocked");
      && reg.reply == AuthService.Registered(1, "alice", Status.ACTIVE)
      && tok.LoggedIn? && tok.userId == 1 && tok.login == "alice" && tok.status == Status.ACTIVE
      && AuthService.Validate(cfg, Some("Bearer " + tok.token), now) == AuthService.TokenValid(1, "alice", Status.ACTIVE)
      && blocked.reply == AuthService.StatusChanged(1, Status.BLOCKED)
      && AuthService.Login(blocked.table, cfg, "alice", "secret1", later) == AuthService.AccountNotActive(Status.BLOCKED)
      && AuthService.Validate(cfg, Some("Bearer " + tok.token), later) == AuthService.TokenValid(1, "alice", Status.ACTIVE)
  {
    ExampleLiterals();
    FirstUserLogsIn(cfg, "alice", "secret1", salt, now);
    FirstUserBlocked(cfg, "alice", "secret1", salt, now, later);
    var reg := AuthService.Register(Accounts.Empty, "alice", "secret1", salt, now);
    AuthService.LoginThenValidate(reg.table, cfg, "alice", "secret1", now, now);
    AuthService.LoginThenValidate(reg.table, cfg, "alice", "secret1", now, later);
  }
}
