/** Bearer tokens as claim records. Encoding and HMAC-SHA256 signing are not
    modelled: a token records the key it was signed with, and a signature is
    valid exactly when that key is the configured one. */
module Jwt {
  import opened Wrappers

  /** A claim of the token; `kind` is the claim type. */
  datatype Claim = Claim(kind: string, value: string)

  /** The process-wide settings `Jwt:Key`, `Jwt:Issuer` and `Jwt:Audience`. */
  datatype JwtConfig = JwtConfig(key: string, issuer: string, audience: string)

  /** A signed token. `expires` is an instant in whole seconds. */
  datatype Token = Token(claims: seq<Claim>, issuer: string, audience: string,
                         expires: int, signingKey: string)

  /** `JwtRegisteredClaimNames.Email`. */
  const EmailClaimType: string := "email"
  const UserIdClaimType: string := "userId"

  /** The tolerance the bearer middleware grants on expiry when, as here,
      none is configured: five minutes. */
  const ClockSkew: int := 300

  /** `ClaimsPrincipal.FindFirst(kind)?.Value`: the value of the first claim of
      that type. */
  function FindFirst(claims: seq<Claim>, kind: string): (r: Option<string>)
    ensures r.None? <==> forall i :: 0 <= i < |claims| ==> claims[i].kind != kind
    ensures r.Some? ==> Claim(kind, r.value) in claims
  {
    if claims == [] then None
    else if claims[0].kind == kind then Some(claims[0].value)
    else FindFirst(claims[1..], kind)
  }

  /** The bearer middleware: a request whose token is missing, is signed with
      another key, names another issuer or audience, or is past its expiry
      (with the clock skew) is refused before any handler runs; otherwise the
      handler sees the token's claims. */
  function Authenticate(cfg: JwtConfig, now: int, bearer: Option<Token>): Option<seq<Claim>>
  {
    match bearer
    case None => None
    case Some(tok) =>
      if tok.signingKey == cfg.key && tok.issuer == cfg.issuer
         && tok.audience == cfg.audience && now <= tok.expires + ClockSkew
      then Some(tok.claims)
      else None
  }
}
