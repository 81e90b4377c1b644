/** The stateless variant's JSON service (services/auth-service): registration,
    login issuing a signed token, token validation, user lookup and status change. */
module AuthService {
  import opened Wrappers
  import Text
  import Passwords
  import Jwt
  import opened Accounts
  import opened Status

  datatype Reply =
    | MissingFields                                          // 400
    | Conflict                                               // 409
    | Registered(id: nat, login: string, status: string)     // 200
    | InvalidCredentials                                     // 401
    | AccountNotActive(status: string)                       // 403
    | LoggedIn(token: string, userId: nat, login: string, status: string)
    | MissingToken                                           // 401, valid=false
    | InvalidToken                                           // 401, valid=false
    | TokenValid(userId: nat, login: string, status: string) // 200, valid=true
    | UserNotFound                                           // 404
    | UserInfo(id: nat, login: string, status: string, createdAt: int)
    | BadStatus                                              // 400
    | StatusChanged(userId: nat, newStatus: string)          // 200

  /** The HTTP status code of each reply. */
  function Code(r: Reply): int {
    match r
    case MissingFields => 400
    case Conflict => 409
    case Registered(_, _, _) => 200
    case InvalidCredentials => 401
    case AccountNotActive(_) => 403
    case LoggedIn(_, _, _, _) => 200
    case MissingToken => 401
    case InvalidToken => 401
    case TokenValid(_, _, _) => 200
    case UserNotFound => 404
    case UserInfo(_, _, _, _) => 200
    case BadStatus => 400
    case StatusChanged(_, _) => 200
  }

  datatype Step = Step(reply: Reply, table: Table)

  /** The password is stripped; the login is stripped and lower-cased (Text.StripLower). */
  function NormalizePassword(raw: string): string {
    Text.Strip(raw)
  }

  /** POST /register: 400 for an empty login or password before the table is
      touched; 409 for a login already taken (no row added); otherwise the new id,
      the login and the default status 'active'. */
  function Register(t: Table, rawLogin: string, rawPassword: string, salt: nat, now: int): (r: Step)
    ensures var login := Text.StripLower(rawLogin); var password := NormalizePassword(rawPassword);
      && (r.reply == MissingFields <==> login == "" || password == "")
      && (r.reply == Conflict <==>
            login != "" && password != "" && Taken(t.rows, login))
      && (r.reply.Registered? <==>
            login != "" && password != "" && !Taken(t.rows, login))
    ensures r.reply == MissingFields ==> r.table == t
    ensures r.reply == Conflict ==> r.table.rows == t.rows
    ensures r.reply.Registered? ==>
      && r.reply.id == t.nextId && r.reply.login == Text.StripLower(rawLogin) && r.reply.status == ACTIVE
      && r.table.rows == t.rows + [UserRow(t.nextId, r.reply.login, Passwords.Hash(NormalizePassword(rawPassword), salt), ACTIVE, now)]
    ensures Valid(t) ==> Valid(r.table)
  {
    var login := Text.StripLower(rawLogin);
    var password := NormalizePassword(rawPassword);
    if login == "" || password == "" then Step(MissingFields, t)
    else
      match Insert(t, login, Passwords.Hash(password, salt), now)
      case Duplicate(t') => Step(Conflict, t')
      case Inserted(row, t') => Step(Registered(row.id, row.login, row.status), t')
  }

  /** POST /login: 400 for an empty field; then unknown login 401, a status other
      than 'active' 403 (before the password is checked), wrong password 401 with
      the same reply as an unknown login; else a token minted now. */
  function Login(t: Table, cfg: Jwt.Settings, rawLogin: string, rawPassword: string, now: int): (r: Reply)
    ensures var login := Text.StripLower(rawLogin); var password := NormalizePassword(rawPassword);
      && (r == MissingFields <==> login == "" || password == "")
      && (r.AccountNotActive? ==> login != "" && password != "" && Authenticate(t.rows, login, password) == Accounts.NotActive(r.status))
      && (r == InvalidCredentials <==>
            && login != "" && password != ""
            && (Authenticate(t.rows, login, password).UnknownLogin? || Authenticate(t.rows, login, password).BadPassword?))
      && (r.LoggedIn? <==> login != "" && password != "" && Authenticate(t.rows, login, password).Admitted?)
    ensures r.LoggedIn? ==>
      && (exists i :: 0 <= i < |t.rows| && t.rows[i].id == r.userId && t.rows[i].login == r.login && t.rows[i].status == ACTIVE)
      && r.status == ACTIVE
      && r.token == cfg.codec.encode(Jwt.Mint(r.userId, r.login, r.status, cfg.issuer, now), cfg.secret)
    ensures r.LoggedIn? ==>
      var u := Authenticate(t.rows, Text.StripLower(rawLogin), NormalizePassword(rawPassword)).user;
      r.userId == u.id && r.login == u.login && r.status == u.status
    ensures r.MissingFields? || r.InvalidCredentials? || r.AccountNotActive? || r.LoggedIn?
  {
    var login := Text.StripLower(rawLogin);
    var password := NormalizePassword(rawPassword);
    if login == "" || password == "" then MissingFields
    else
      match Authenticate(t.rows, login, password)
      case UnknownLogin => InvalidCredentials
      case NotActive(status) => AccountNotActive(status)
      case BadPassword => InvalidCredentials
      case Admitted(u) =>
        var claims := Jwt.Mint(u.id, u.login, u.status, cfg.issuer, now);
        LoggedIn(cfg.codec.encode(claims, cfg.secret), u.id, u.login, u.status)
  }

  const BEARER: string := "Bearer "

  /** The token in an `Authorization` header: every "Bearer " removed, then
      stripped. A missing header yields the empty token. */
  function BearerToken(header: Option<string>): (r: string)
    ensures header.None? ==> r == ""
    ensures |r| <= |header.GetOr("")|
  {
    Text.Strip(Text.RemoveAll(header.GetOr(""), BEARER))
  }

  /** GET /validate: 401 "missing token" when the header yields nothing; 401 when
      decoding fails for any reason; otherwise the identity from the payload. The
      users table is not an input: a status change is not seen until expiry. */
  function Validate(cfg: Jwt.Settings, header: Option<string>, now: int): (r: Reply)
    ensures r == MissingToken <==> BearerToken(header) == ""
    ensures r == InvalidToken <==>
      BearerToken(header) != "" && Jwt.Decode(cfg.codec, BearerToken(header), cfg.secret, cfg.issuer, now).None?
    ensures r.TokenValid? ==>
      var d := Jwt.Decode(cfg.codec, BearerToken(header), cfg.secret, cfg.issuer, now);
      && d.Some? && d.value.sub == r.userId && d.value.login == r.login && d.value.status == r.status
      && d.value.iss == cfg.issuer && now < d.value.exp
    ensures r.MissingToken? || r.InvalidToken? || r.TokenValid?
  {
    var token := BearerToken(header);
    if token == "" then MissingToken
    else
      match Jwt.Decode(cfg.codec, token, cfg.secret, cfg.issuer, now)
      case None => InvalidToken
      case Some(c) => TokenValid(c.sub, c.login, c.status)
  }

  /** Of the validation replies only a valid token gets 200. */
  lemma ValidateCode(r: Reply)
    requires r.MissingToken? || r.InvalidToken? || r.TokenValid?
    ensures Code(r) == 200 <==> r.TokenValid?
  {
  }

  /** GET /user/<id>: 404 for an unknown id, otherwise that row's fields. */
  function GetUser(t: Table, id: nat): (r: Reply)
    ensures r == UserNotFound <==> forall i :: 0 <= i < |t.rows| ==> t.rows[i].id != id
    ensures r.UserInfo? ==>
      && r.id == id
      && exists i :: 0 <= i < |t.rows| && t.rows[i] == UserRow(id, r.login, t.rows[i].hash, r.status, r.createdAt)
    ensures r.UserNotFound? || r.UserInfo?
  {
    match FindById(t.rows, id)
    case None => UserNotFound
    case Some(u) => UserInfo(u.id, u.login, u.status, u.createdAt)
  }

  /** The statuses set_status accepts. */
  predicate KnownStatus(s: string) {
    s == ACTIVE || s == INACTIVE || s == BLOCKED
  }

  /** PATCH /user/<id>/status: the requested status normalised with
      `.strip().lower()`; 400 with no write unless it is active, inactive or
      blocked; 404 when no row has the id; otherwise only that row's status changes. */
  function SetStatus(t: Table, id: nat, rawStatus: string): (r: Step)
    ensures var status := Text.StripLower(rawStatus);
      && (r.reply == BadStatus <==> !KnownStatus(status))
      && (r.reply == UserNotFound <==> KnownStatus(status) && forall i :: 0 <= i < |t.rows| ==> t.rows[i].id != id)
      && (r.reply.StatusChanged? <==> KnownStatus(status) && exists i :: 0 <= i < |t.rows| && t.rows[i].id == id)
      && (r.reply.StatusChanged? ==> r.reply == StatusChanged(id, status))
    ensures !r.reply.StatusChanged? ==> r.table == t
    ensures r.reply.StatusChanged? ==> r.table == t.(rows := UpdateStatus(t.rows, id, r.reply.newStatus))
    ensures Valid(t) ==> Valid(r.table)
  {
    var status := Text.StripLower(rawStatus);
    if !KnownStatus(status) then Step(BadStatus, t)
    else if FindById(t.rows, id).None? then Step(UserNotFound, t)
    else
      UpdateStatusValid(t, id, status);
      Step(StatusChanged(id, status), t.(rows := UpdateStatus(t.rows, id, status)))
  }

  /** An unknown login and a wrong password get the same reply. */
  lemma LoginHidesUnknownLogin(t: Table, cfg: Jwt.Settings, unknown: string, known: string, password: string, now: int)
    requires Valid(t)
    requires NormalizePassword(password) != ""
    requires Text.StripLower(unknown) != "" && !Taken(t.rows, Text.StripLower(unknown))
    requires Text.StripLower(known) != ""
    requires exists i :: 0 <= i < |t.rows| && t.rows[i].login == Text.StripLower(known) && t.rows[i].status == ACTIVE
                                     && !Passwords.Check(t.rows[i].hash, NormalizePassword(password))
    ensures Login(t, cfg, unknown, password, now) == InvalidCredentials
    ensures Login(t, cfg, known, password, now) == InvalidCredentials
  {
    var i :| 0 <= i < |t.rows| && t.rows[i].login == Text.StripLower(known) && t.rows[i].status == ACTIVE
                                 && !Passwords.Check(t.rows[i].hash, NormalizePassword(password));
    AuthenticateRow(t, i, NormalizePassword(password));
    assert Authenticate(t.rows, Text.StripLower(known), NormalizePassword(password)) == BadPassword;
  }

  /** A token issued by Login validates to the same identity, and status, for two
      hours through a "Bearer" header, and is refused from then on. */
  lemma LoginThenValidate(t: Table, cfg: Jwt.Settings, rawLogin: string, rawPassword: string, now: int, later: int)
    requires Jwt.Faithful(cfg.codec)
    requires Login(t, cfg, rawLogin, rawPassword, now).LoggedIn?
    ensures var r := Login(t, cfg, rawLogin, rawPassword, now);
      && (later < now + Jwt.LIFETIME ==> Validate(cfg, Some(BEARER + r.token), later) == TokenValid(r.userId, r.login, r.status))
      && (later >= now + Jwt.LIFETIME ==> Validate(cfg, Some(BEARER + r.token), later) == InvalidToken)
  {
    var r := Login(t, cfg, rawLogin, rawPassword, now);
    var c := Jwt.Mint(r.userId, r.login, r.status, cfg.issuer, now);
    assert Text.NoSpace(cfg.codec.encode(c, cfg.secret));
    BearerRoundTrip(r.token);
    Jwt.MintedTokenLifetime(cfg.codec, cfg.secret, r.userId, r.login, r.status, cfg.issuer, now, later);
  }

  /** The header `Bearer <token>` yields back exactly the token, for any token
      without whitespace (every JWT). */
  lemma BearerRoundTrip(tok: string)
    requires Text.NoSpace(tok)
    ensures BearerToken(Some(BEARER + tok)) == tok
  {
    Text.RemoveAllPrefix(BEARER, tok);
    assert Text.IsSpace(BEARER[6]);
    Text.RemoveAllNoSpace(tok, BEARER, 6);
    Text.StripNoSpace(tok);
  }

  /** A user whose status was set to 'blocked' is refused with 403 even with the
      right password. */
  lemma BlockedCannotLogin(t: Table, cfg: Jwt.Settings, k: nat, rawPassword: string, now: int)
    requires Valid(t) && k < |t.rows|
    requires Text.StripLower(t.rows[k].login) == t.rows[k].login && t.rows[k].login != ""
    requires NormalizePassword(rawPassword) != ""
    ensures var t' := SetStatus(t, t.rows[k].id, BLOCKED).table;
      Login(t', cfg, t.rows[k].login, rawPassword, now) == AccountNotActive(BLOCKED)
  {
    BlockedIsKnown();
    var t' := t.(rows := UpdateStatus(t.rows, t.rows[k].id, BLOCKED));
    assert SetStatus(t, t.rows[k].id, BLOCKED).table == t';
    UpdateStatusValid(t, t.rows[k].id, BLOCKED);
    assert t'.rows[k] == t.rows[k].(status := BLOCKED);
    AuthenticateRow(t', k, NormalizePassword(rawPassword));
  }

  /** 'blocked' is already normalised and is an accepted status. */
  lemma BlockedIsKnown()
    ensures Text.StripLower(BLOCKED) == BLOCKED && KnownStatus(BLOCKED)
  {
    Text.StripFixpoint(BLOCKED);
    Text.LowerFixpoint(BLOCKED);
  }

  /** A login registered with a password logs in with that password at once, as
      the id registration returned. */
  lemma RegisterThenLogin(t: Table, cfg: Jwt.Settings, rawLogin: string, rawPassword: string, salt: nat, now: int)
    requires Valid(t)
    requires Register(t, rawLogin, rawPassword, salt, now).reply.Registered?
    ensures var reg := Register(t, rawLogin, rawPassword, salt, now);
      var r := Login(reg.table, cfg, rawLogin, rawPassword, now);
      r.LoggedIn? && r.userId == reg.reply.id && r.login == reg.reply.login && r.status == ACTIVE
  {
    var reg := Register(t, rawLogin, rawPassword, salt, now);
    var k := |t.rows|;
    assert reg.table.rows[k].login == Text.StripLower(rawLogin);
    Passwords.CheckHash(NormalizePassword(rawPassword), NormalizePassword(rawPassword), salt);
    AuthenticateRow(reg.table, k, NormalizePassword(rawPassword));
  }

  /** The user registration creates is what GET /user/<id> returns: its id, its
      normalised login, 'active' and the registration time. */
  lemma RegisterThenGetUser(t: Table, rawLogin: string, rawPassword: string, salt: nat, now: int)
    requires Valid(t)
    requires Register(t, rawLogin, rawPassword, salt, now).reply.Registered?
    ensures var reg := Register(t, rawLogin, rawPassword, salt, now);
      GetUser(reg.table, reg.reply.id) == UserInfo(reg.reply.id, reg.reply.login, ACTIVE, now)
  {
    var reg := Register(t, rawLogin, rawPassword, salt, now);
    FindByIdUnique(reg.table, |t.rows|);
  }

  /** After a status change GET /user/<id> shows the new status, with the login
      and creation time as before. */
  lemma SetStatusThenGetUser(t: Table, k: nat, rawStatus: string)
    requires Valid(t) && k < |t.rows|
    requires KnownStatus(Text.StripLower(rawStatus))
    ensures var u := t.rows[k];
      GetUser(SetStatus(t, u.id, rawStatus).table, u.id) == UserInfo(u.id, u.login, Text.StripLower(rawStatus), u.createdAt)
  {
    var u := t.rows[k];
    var status := Text.StripLower(rawStatus);
    var t' := t.(rows := UpdateStatus(t.rows, u.id, status));
    assert FindById(t.rows, u.id).Some?;
    assert SetStatus(t, u.id, rawStatus).table == t';
    UpdateStatusValid(t, u.id, status);
    assert t'.rows[k] == u.(status := status);
    FindByIdUnique(t', k);
  }

  /** Registering the same login twice: the second attempt is a 409 and adds no row. */
  lemma RegisterTwice(t: Table, rawLogin: string, p1: string, p2: string, s1: nat, s2: nat, now: int, later: int)
    requires Text.StripLower(rawLogin) != "" && NormalizePassword(p1) != "" && NormalizePassword(p2) != ""
    ensures var first := Register(t, rawLogin, p1, s1, now);
      var second := Register(first.table, rawLogin, p2, s2, later);
      && second.reply == Conflict && second.table.rows == first.table.rows
  {
    var first := Register(t, rawLogin, p1, s1, now);
    var login := Text.StripLower(rawLogin);
    if first.reply.Registered? {
      assert first.table.rows[|t.rows|].login == login;
    }
  }
}
