/**
 * The session token issued at login. The token package itself (interanl/lib/jwt) is
 * not part of this model: a token is its claim set plus the application secret it is
 * signed with, and the signature is otherwise left opaque.
 */
module Jwt {
  import opened Wrappers
  import opened GoErrors

  const NanosPerSecond: int := 1_000_000_000

  /** The claims "uid", "email", "app_id" and "exp" (Unix seconds). */
  datatype Claims = Claims(uid: int, email: string, appId: int, exp: int)

  /** A token string: "" (Go's zero value), or a token signed with an application's secret. */
  datatype Token = Empty | Signed(claims: Claims, secret: string)

  /**
   * jwt.NewToken(user, app, ttl) at instant `now` (Unix nanoseconds). `signErr` is the
   * error the signing primitive reports, if it fails.
   */
  function NewToken(uid: int, email: string, appId: int, secret: string, ttl: int, now: int,
                    signErr: Option<Error>): (r: Result<Token, Error>)
    ensures signErr.Some? <==> r.Failure?
    ensures signErr.Some? ==> r.error == signErr.value
    ensures r.Success? ==> r.value.Signed? && r.value.secret == secret
    ensures r.Success? ==> var c := r.value.claims;
      c.uid == uid && c.email == email && c.appId == appId
    ensures r.Success? ==> var exp := r.value.claims.exp;
      exp * NanosPerSecond <= now + ttl < (exp + 1) * NanosPerSecond
  {
    match signErr
    case Some(e) => Failure(e)
    case None => Success(Signed(Claims(uid, email, appId, (now + ttl) / NanosPerSecond), secret))
  }
}
