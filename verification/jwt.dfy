/** The signed stateless token (PyJWT, HS256). Signing and parsing are opaque: a
    `Codec` is a pair of functions supplied by the caller, and the model relies only
    on the round trip a faithful codec guarantees. The issuer and expiry checks that
    `jwt.decode(..., issuer=JWT_ISSUER)` performs on the parsed claims are explicit. */
module Jwt {
  import opened Wrappers
  import Text

  /** `timedelta(hours=2)`, in seconds. */
  const LIFETIME: int := 2 * 60 * 60

  /** The payload: `sub` (the user id; its decimal text form is not modelled),
      `login`, `status`, `iss`, `iat` and `exp`, in integer seconds. */
  datatype Claims = Claims(sub: nat, login: string, status: string, iss: string, iat: int, exp: int)

  /** `encode(claims, secret)` yields the token text; `verify(text, secret)` yields
      the claims when the text is well formed and its signature matches `secret`. */
  datatype Codec = Codec(encode: (Claims, string) -> string, verify: (string, string) -> Option<Claims>)

  /** The settings a token issuer and its verifiers share: the token library, the
      signing secret (`JWT_SECRET`) and the issuer name (`JWT_ISSUER`). */
  datatype Settings = Settings(codec: Codec, secret: string, issuer: string)

  /** What the model assumes of PyJWT: a token verifies under its own secret to the
      claims it was made from, and its text is non-empty and free of whitespace. */
  ghost predicate Faithful(codec: Codec) {
    forall c: Claims, secret: string {:trigger codec.encode(c, secret)} ::
      && codec.verify(codec.encode(c, secret), secret) == Some(c)
      && |codec.encode(c, secret)| > 0
      && Text.NoSpace(codec.encode(c, secret))
  }

  /** The payload both token issuers build at time `now`. */
  function Mint(sub: nat, login: string, status: string, issuer: string, now: int): (c: Claims)
    ensures c.exp - c.iat == LIFETIME && c.iat == now
  {
    Claims(sub, login, status, issuer, now, now + LIFETIME)
  }

  /** A token past its expiry: PyJWT rejects once `exp <= now`. */
  predicate Expired(c: Claims, now: int) {
    c.exp <= now
  }

  /** `jwt.decode(token, secret, algorithms=["HS256"], issuer=issuer)`: the claims,
      or None for a bad signature or format, a foreign issuer, or an expired token. */
  function Decode(codec: Codec, token: string, secret: string, issuer: string, now: int): (r: Option<Claims>)
    ensures r.Some? <==>
      (codec.verify(token, secret).Some? && codec.verify(token, secret).value.iss == issuer
       && !Expired(codec.verify(token, secret).value, now))
    ensures r.Some? ==> r == codec.verify(token, secret)
  {
    match codec.verify(token, secret)
    case None => None
    case Some(c) => if c.iss != issuer || Expired(c, now) then None else Some(c)
  }

  /** A token minted at `iat` decodes to its own claims exactly until two hours later. */
  lemma MintedTokenLifetime(codec: Codec, secret: string, sub: nat, login: string, status: string,
                            issuer: string, iat: int, now: int)
    requires Faithful(codec)
    ensures var c := Mint(sub, login, status, issuer, iat);
      && (now < iat + LIFETIME ==> Decode(codec, codec.encode(c, secret), secret, issuer, now) == Some(c))
      && (now >= iat + LIFETIME ==> Decode(codec, codec.encode(c, secret), secret, issuer, now) == None)
  {
    var c := Mint(sub, login, status, issuer, iat);
    assert codec.verify(codec.encode(c, secret), secret) == Some(c);
  }
}
