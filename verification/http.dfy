/** What a caller of `requests` observes, and the Flask client-side session. */
module Http {
  import opened Wrappers

  /** A downstream call: a response with a status code and a parsed body, or the
      exception `requests` raises when the timeout expires or the connection fails. */
  datatype Outcome<B> = Ok(code: int, body: B) | Timeout | ConnError

  /** The Flask `session` keys the gateways use: `token` and `user_id`. */
  datatype FlaskSession = FlaskSession(token: Option<string>, userId: Option<nat>)

  /** `session.clear()`. */
  const Cleared: FlaskSession := FlaskSession(None, None)

  /** Python truthiness of an optional string: present and non-empty. */
  predicate Truthy(s: Option<string>) {
    s.Some? && s.value != ""
  }
}
