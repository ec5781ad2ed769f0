/** The request context of the API (app/api/lib/auth.ts): the bearer token
    is taken from the `token` cookie or, failing that, from an
    `Authorization: Bearer <token>` header, and the signed-token check turns
    it into the caller's claims. The check itself (JWT verification) is an
    oracle: it returns the decoded claims, or None when verification fails. */
module Auth {
  import opened Wrappers
  import opened JsString

  /** The identity claims carried by a token. `scopes` may be missing from
      the claims, which the authorization rules tolerate. */
  datatype AuthUser = AuthUser(id: string, email: string, scopes: Option<seq<string>>, orgId: string)

  datatype AuthContext<Req, Res> = AuthContext(user: Option<AuthUser>, req: Req, res: Res)

  const BEARER_PREFIX := "Bearer "

  /** The token the context is built from, or None when there is none. A
      non-empty cookie wins; otherwise the header is used only when it starts
      with "Bearer ", and the token is what follows those 7 characters. An
      empty cookie and an empty remainder both count as no token. */
  function BearerToken(cookie: Option<string>, authorization: Option<string>): (token: Option<string>)
    ensures token.Some? ==> token.value != ""
    ensures Truthy(cookie) ==> token == cookie
    ensures !Truthy(cookie) ==>
              (token.Some? <==> authorization.Some? && StartsWith(authorization.value, BEARER_PREFIX)
                                && |authorization.value| > |BEARER_PREFIX|)
    ensures !Truthy(cookie) && token.Some? ==> authorization.value == BEARER_PREFIX + token.value
  {
    if Truthy(cookie) then cookie
    else if authorization.Some? && StartsWith(authorization.value, BEARER_PREFIX)
            && authorization.value[|BEARER_PREFIX|..] != "" then
      assert authorization.value == BEARER_PREFIX + authorization.value[|BEARER_PREFIX|..];
      Some(authorization.value[|BEARER_PREFIX|..])
    else None
  }

  /** `getAuthContext(req, res)`: the user is the verified claims of the
      bearer token, and null when there is no token or verification fails
      (no error escapes); `req` and `res` are passed through. */
  function GetAuthContext<Req, Res>(req: Req, res: Res, cookie: Option<string>, authorization: Option<string>,
                                    verify: string -> Option<AuthUser>): (ctx: AuthContext<Req, Res>)
    ensures ctx.req == req && ctx.res == res
    ensures BearerToken(cookie, authorization).None? ==> ctx.user.None?
    ensures ctx.user.Some? <==>
              (exists t :: BearerToken(cookie, authorization) == Some(t) && verify(t).Some?)
    ensures ctx.user.Some? ==> ctx.user == verify(BearerToken(cookie, authorization).value)
  {
    match BearerToken(cookie, authorization)
    case None => AuthContext(None, req, res)
    case Some(t) => AuthContext(verify(t), req, res)
  }

  /** A cookie token is preferred to the header, whatever the header says. */
  lemma CookieTakesPrecedence<Req, Res>(req: Req, res: Res, token: string, header1: Option<string>,
                                        header2: Option<string>, verify: string -> Option<AuthUser>)
    requires token != ""
    ensures GetAuthContext(req, res, Some(token), header1, verify)
            == GetAuthContext(req, res, Some(token), header2, verify)
    ensures GetAuthContext(req, res, Some(token), header1, verify).user == verify(token)
  {
  }
}
