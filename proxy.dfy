/** The page guard of the web front end (app/web/proxy.ts): the login page,
    the favicon and everything under the `/_next` and `/api` prefixes are
    let through; any other page needs a `token` cookie and is otherwise
    redirected to the login page. The cookie is only tested for being
    non-empty, never verified. */
module Proxy {
  import opened Wrappers
  import opened JsString

  datatype Decision = Next | Redirect(location: string)

  const LOGIN := "/login"

  /** The paths served without a token. The prefixes are matched as plain
      string prefixes, so `/apiary` counts as well as `/api/graphql`. */
  predicate IsPublic(pathname: string) {
    || pathname == LOGIN
    || StartsWith(pathname, "/_next")
    || StartsWith(pathname, "/api")
    || pathname == "/favicon.ico"
  }

  /** `proxy(request)`, given the path and the `token` cookie's value. */
  function Proxy(pathname: string, token: Option<string>): (d: Decision)
    ensures d.Redirect? ==> d.location == LOGIN
    ensures IsPublic(pathname) ==> d == Next
    ensures !IsPublic(pathname) ==> (d == Next <==> Truthy(token))
  {
    if IsPublic(pathname) then Next
    else if !Truthy(token) then Redirect(LOGIN)
    else Next
  }

  /** Redirection never loops: the login page itself is always served. */
  lemma RedirectTargetIsServed(pathname: string, token: Option<string>)
    requires Proxy(pathname, token).Redirect?
    ensures Proxy(Proxy(pathname, token).location, token) == Next
  {
  }

  /** Only the presence of a non-empty token matters, not its value: an
      empty cookie is treated like a missing one, and any non-empty one,
      valid or not, lets the page through. */
  lemma TokenValueIrrelevant(pathname: string, t1: Option<string>, t2: Option<string>)
    requires Truthy(t1) == Truthy(t2)
    ensures Proxy(pathname, t1) == Proxy(pathname, t2)
  {
  }

  /** A private page without a cookie, or with an empty one, is redirected. */
  lemma EmptyCookieRedirects(pathname: string)
    requires !IsPublic(pathname)
    ensures Proxy(pathname, None) == Redirect(LOGIN)
    ensures Proxy(pathname, Some("")) == Redirect(LOGIN)
  {
  }

  /** Every path that merely starts with "/api" or "/_next" is served
      without a token, whatever follows the prefix. */
  lemma PrefixedPathsArePublic(pathname: string, token: Option<string>)
    requires StartsWith(pathname, "/api") || StartsWith(pathname, "/_next")
    ensures Proxy(pathname, token) == Next
  {
  }

  /** The prefix test is not bounded by a path separator. */
  lemma LoosePrefixIsPublic()
    ensures Proxy("/apiary", None) == Next
    ensures Proxy("/_nextpage", None) == Next
    ensures Proxy("/dashboard", None) == Redirect(LOGIN)
  {
    assert "/apiary"[..4] == "/api";
    assert "/_nextpage"[..6] == "/_next";
    assert "/dashboard"[..4][1] != "/api"[1];
    assert "/dashboard"[..6][1] != "/_next"[1];
  }
}
