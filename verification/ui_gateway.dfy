/** The browser-facing gateway of the stateless variant (services/ui-service): it
    holds only the Flask session and forwards every decision to the auth service.
    Downstream services are function parameters answering with an `Http.Outcome`;
    a `Timeout` or `ConnError` is not caught by these handlers and becomes a 500. */
module UiGateway {
  import opened Wrappers
  import Text
  import opened Http

  /** The fields of the auth service's JSON the gateway reads. */
  datatype LoginJson = LoginJson(token: Option<string>, userId: Option<nat>)
  datatype ValidateJson = ValidateJson(userId: Option<nat>, login: Option<string>, status: Option<string>)

  datatype UserView = UserView(id: nat, login: Option<string>, status: Option<string>)
  datatype ProfileView = ProfileView(userId: nat, fullName: string, bio: string)

  datatype Page =
    | RegisterForm(code: int)
    | LoginForm(code: int)
    | RedirectLoginPage
    | RedirectMe
    | RedirectIndex
    | MePage(user: UserView, profile: ProfileView)
    | ServerError

  datatype SessionStep = SessionStep(page: Page, session: FlaskSession)

  /** `get_token()`: the session's token, or "" when there is none. */
  function GetToken(session: FlaskSession): (t: string)
    ensures t == "" <==> !Truthy(session.token)
    ensures Truthy(session.token) ==> t == session.token.value
  {
    session.token.GetOr("")
  }

  /** `auth_headers()`: the Authorization header value, absent without a token. */
  function AuthHeader(session: FlaskSession): (h: Option<string>)
    ensures h.None? <==> GetToken(session) == ""
    ensures h.Some? ==> h.value == "Bearer " + GetToken(session)
  {
    var t := GetToken(session);
    if t == "" then None else Some("Bearer " + t)
  }

  /** POST /register: both fields stripped (the login is not lower-cased here); an
      empty one is refused with 400 before the auth service is called; a reply of
      300 or more is shown as a 400; otherwise a redirect to the login page. */
  function RegisterAction(rawLogin: string, rawPassword: string, auth: (string, string) -> Outcome<()>): (p: Page)
    ensures var login := Text.Strip(rawLogin); var password := Text.Strip(rawPassword);
      && (login == "" || password == "" ==> p == RegisterForm(400))
      && (login != "" && password != "" ==>
            match auth(login, password)
            case Ok(code, _) => p == (if code >= 300 then RegisterForm(400) else RedirectLoginPage)
            case _ => p == ServerError)
  {
    var login := Text.Strip(rawLogin);
    var password := Text.Strip(rawPassword);
    if login == "" || password == "" then RegisterForm(400)
    else
      match auth(login, password)
      case Ok(code, _) => if code >= 300 then RegisterForm(400) else RedirectLoginPage
      case _ => ServerError
  }

  /** POST /login: an empty field gives 400 without calling the auth service; a
      reply other than 200 gives 401; in both cases, and on an exception, the
      session is unchanged. A 200 stores the reply's token (default "") and user id. */
  function LoginAction(session: FlaskSession, rawLogin: string, rawPassword: string,
                       auth: (string, string) -> Outcome<LoginJson>): (r: SessionStep)
    ensures var login := Text.Strip(rawLogin); var password := Text.Strip(rawPassword);
      && (login == "" || password == "" ==> r == SessionStep(LoginForm(400), session))
      && (login != "" && password != "" ==>
            match auth(login, password)
            case Ok(200, body) => r == SessionStep(RedirectMe, FlaskSession(Some(body.token.GetOr("")), body.userId))
            case Ok(_, _) => r == SessionStep(LoginForm(401), session)
            case _ => r == SessionStep(ServerError, session))
    ensures r.page != RedirectMe ==> r.session == session
  {
    var login := Text.Strip(rawLogin);
    var password := Text.Strip(rawPassword);
    if login == "" || password == "" then SessionStep(LoginForm(400), session)
    else
      match auth(login, password)
      case Ok(code, body) =>
        if code != 200 then SessionStep(LoginForm(401), session)
        else SessionStep(RedirectMe, FlaskSession(Some(body.token.GetOr("")), body.userId))
      case _ => SessionStep(ServerError, session)
  }

  /** A 200 from the auth service stores its token and user id, whatever the
      session held before. */
  lemma LoginActionStores(session: FlaskSession, rawLogin: string, rawPassword: string,
                          auth: (string, string) -> Outcome<LoginJson>, body: LoginJson)
    requires Text.Strip(rawLogin) != "" && Text.Strip(rawPassword) != ""
    requires auth(Text.Strip(rawLogin), Text.Strip(rawPassword)) == Ok(200, body)
    ensures LoginAction(session, rawLogin, rawPassword, auth) ==
            SessionStep(RedirectMe, FlaskSession(Some(body.token.GetOr("")), body.userId))
  {
  }

  /** GET /logout: the session is cleared. */
  function Logout(session: FlaskSession): (r: SessionStep)
    ensures r.session == Cleared && GetToken(r.session) == "" && r.session.userId.None? && r.page == RedirectIndex
  {
    SessionStep(RedirectIndex, Cleared)
  }

  /** The id /me works with: the session's `user_id` when truthy, else the
      validator's; None when `int(None)` would raise. */
  function MeUserId(session: FlaskSession, v: ValidateJson): (id: Option<nat>)
    ensures session.userId.Some? && session.userId.value != 0 ==> id == session.userId
    ensures (session.userId.None? || session.userId.value == 0) ==> id == v.userId
  {
    if session.userId.Some? && session.userId.value != 0 then session.userId else v.userId
  }

  /** GET /me: without a token, a redirect to login and no call to the validator.
      A validator reply other than 200 clears the session and redirects. On 200
      the page shows the user and profile services' answers, or defaults built from
      the validator's reply when they answer with another code. */
  function Me(session: FlaskSession, validator: Option<string> -> Outcome<ValidateJson>,
              users: nat -> Outcome<UserView>, profiles: nat -> Outcome<ProfileView>): (r: SessionStep)
    ensures GetToken(session) == "" ==> r == SessionStep(RedirectLoginPage, session)
    ensures GetToken(session) != "" && validator(AuthHeader(session)).Ok? && validator(AuthHeader(session)).code != 200 ==>
      r == SessionStep(RedirectLoginPage, Cleared)
    ensures GetToken(session) != "" && !validator(AuthHeader(session)).Ok? ==> r == SessionStep(ServerError, session)
    ensures r.page == ServerError ==> r.session == session
    ensures (&& GetToken(session) != ""
             && validator(AuthHeader(session)).Ok? && validator(AuthHeader(session)).code == 200
             && !r.page.MePage?) ==> r == SessionStep(ServerError, session)
    ensures r.page.MePage? <==>
      && GetToken(session) != ""
      && validator(AuthHeader(session)).Ok? && validator(AuthHeader(session)).code == 200
      && var id := MeUserId(session, validator(AuthHeader(session)).body);
         id.Some? && users(id.value).Ok? && profiles(id.value).Ok?
    ensures r.page.MePage? ==>
      && GetToken(session) != ""
      && validator(AuthHeader(session)).Ok? && validator(AuthHeader(session)).code == 200
      && r.session == session
      && var v := validator(AuthHeader(session)).body;
         var id := MeUserId(session, v);
         && id.Some? && users(id.value).Ok? && profiles(id.value).Ok?
         && r.page.user == (if users(id.value).code == 200 then users(id.value).body else UserView(id.value, v.login, v.status))
         && r.page.profile == (if profiles(id.value).code == 200 then profiles(id.value).body else ProfileView(id.value, "", ""))
    ensures r.session == session || r.session == Cleared
  {
    var token := GetToken(session);
    if token == "" then SessionStep(RedirectLoginPage, session)
    else
      var reply := validator(AuthHeader(session));
      if !reply.Ok? then SessionStep(ServerError, session)
      else if reply.code != 200 then SessionStep(RedirectLoginPage, Cleared)
      else
        var v := reply.body;
        var id := MeUserId(session, v);
        if id.None? then SessionStep(ServerError, session)
        else
          var userReply := users(id.value);
          var profileReply := profiles(id.value);
          if !userReply.Ok? || !profileReply.Ok? then SessionStep(ServerError, session)
          else
            var user := if userReply.code == 200 then userReply.body else UserView(id.value, v.login, v.status);
            var profile := if profileReply.code == 200 then profileReply.body else ProfileView(id.value, "", "");
            SessionStep(MePage(user, profile), session)
  }

  /** /me without a token does not depend on the validator, nor on any other service. */
  lemma MeWithoutTokenCallsNothing(session: FlaskSession,
                                   v1: Option<string> -> Outcome<ValidateJson>, v2: Option<string> -> Outcome<ValidateJson>,
                                   u1: nat -> Outcome<UserView>, u2: nat -> Outcome<UserView>,
                                   p1: nat -> Outcome<ProfileView>, p2: nat -> Outcome<ProfileView>)
    requires GetToken(session) == ""
    ensures Me(session, v1, u1, p1) == Me(session, v2, u2, p2)
  {
  }

  /** After logout, /me redirects to the login page without depending on any
      downstream service. */
  lemma LogoutThenMe(session: FlaskSession, validator: Option<string> -> Outcome<ValidateJson>,
                     users: nat -> Outcome<UserView>, profiles: nat -> Outcome<ProfileView>)
    ensures Me(Logout(session).session, validator, users, profiles) == SessionStep(RedirectLoginPage, Cleared)
  {
  }

  /** A login with an empty field does not depend on the auth service. */
  lemma EmptyLoginCallsNothing(session: FlaskSession, rawLogin: string, rawPassword: string,
                               a1: (string, string) -> Outcome<LoginJson>, a2: (string, string) -> Outcome<LoginJson>)
    requires Text.Strip(rawLogin) == "" || Text.Strip(rawPassword) == ""
    ensures LoginAction(session, rawLogin, rawPassword, a1) == LoginAction(session, rawLogin, rawPassword, a2)
  {
  }
}
