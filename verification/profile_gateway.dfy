/** The profile page of the stateful variant (services/profile): it asks the auth
    service's /api/validate about the `session_token` cookie and fails closed. */
module ProfileGateway {
  import opened Wrappers
  import opened Http
  import SessionAuth

  /** The JSON of /api/validate: `valid` and `username`. */
  datatype ValidateJson = ValidateJson(valid: bool, username: Option<string>)

  /** The reply of /api/validate as `requests` sees it; a body that is not JSON
      (`None`) makes `r.json()` raise. */
  type AuthCall = string -> Outcome<Option<ValidateJson>>

  /** `validate_with_auth(token)`: the username, only from a 200 reply whose JSON
      says `valid`; an empty token makes no call; every exception (including the
      2-second timeout) yields None. */
  function ValidateWithAuth(token: Option<string>, auth: AuthCall): (r: Option<string>)
    ensures !Truthy(token) ==> r.None?
    ensures r.Some? ==>
      && Truthy(token)
      && auth(token.value).Ok? && auth(token.value).code == 200
      && auth(token.value).body.Some? && auth(token.value).body.value.valid
      && auth(token.value).body.value.username == r
    ensures Truthy(token) && auth(token.value).Ok? && auth(token.value).code == 200
            && auth(token.value).body.Some? && auth(token.value).body.value.valid ==>
      r == auth(token.value).body.value.username
  {
    if !Truthy(token) then None
    else
      match auth(token.value)
      case Ok(code, body) =>
        if code != 200 then None
        else if body.None? then None
        else if body.value.valid then body.value.username
        else None
      case _ => None
  }

  datatype Page = RedirectLogin | ProfilePage(username: string, status: string, createdAt: int)

  /** GET /profile: a redirect to login unless validation yields a username that
      has a users row; otherwise that row's fields. */
  function Profile(cookie: Option<string>, auth: AuthCall, users: map<string, SessionAuth.Account>): (p: Page)
    ensures p.ProfilePage? <==>
      Truthy(ValidateWithAuth(cookie, auth)) && ValidateWithAuth(cookie, auth).value in users
    ensures p.ProfilePage? ==>
      var u := ValidateWithAuth(cookie, auth).value;
      p == ProfilePage(u, users[u].status, users[u].createdAt)
  {
    var username := ValidateWithAuth(cookie, auth);
    if !Truthy(username) then RedirectLogin
    else if username.value !in users then RedirectLogin
    else
      var acct := users[username.value];
      ProfilePage(username.value, acct.status, acct.createdAt)
  }

  /** An empty or missing cookie redirects whatever the auth service would say. */
  lemma NoCookieCallsNothing(cookie: Option<string>, a1: AuthCall, a2: AuthCall, users: map<string, SessionAuth.Account>)
    requires !Truthy(cookie)
    ensures Profile(cookie, a1, users) == Profile(cookie, a2, users) == RedirectLogin
  {
  }

  /** An unreachable or slow auth service, or any reply but a valid 200, means a
      redirect to login: the page fails closed. */
  lemma FailsClosed(cookie: string, auth: AuthCall, users: map<string, SessionAuth.Account>)
    requires auth(cookie).Timeout? || auth(cookie).ConnError?
          || (auth(cookie).Ok? && (auth(cookie).code != 200 || auth(cookie).body.None? || !auth(cookie).body.value.valid))
    ensures Profile(Some(cookie), auth, users) == RedirectLogin
  {
  }
}
