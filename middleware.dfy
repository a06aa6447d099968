/**
 * `ValidatedUserMiddleware`: an authenticated account that an
 * administrator has not validated yet, and that is not staff, is sent back
 * to the login page unless the requested path starts with one of the
 * public URLs. Everyone else reaches the view.
 */
module Middleware {
  import opened Models
  import Text

  /** Who makes the request: nobody logged in, or a logged-in account. */
  datatype RequestUser = Anonymous | Authenticated(account: User)

  datatype Request = Request(user: RequestUser, path: string)

  /** What the middleware does with the request: hand it to the view, or
      answer with a redirect to the login page. */
  datatype Decision = PassThrough | RedirectToLogin

  const ADMIN_PREFIX := "/admin/"
  const STATIC_PREFIX := "/static/"

  /** `public_urls`: the reversed login, register and logout routes, then
      the admin site and the static files. */
  function PublicUrls(login: string, register: string, logout: string): (r: seq<string>)
    ensures |r| == 5
    ensures login in r && register in r && logout in r
    ensures ADMIN_PREFIX in r && STATIC_PREFIX in r
  {
    [login, register, logout, ADMIN_PREFIX, STATIC_PREFIX]
  }

  /** `any(path.startswith(url) for url in urls)`, scanning the list from
      the front. */
  function IsPublic(path: string, urls: seq<string>): bool {
    if urls == [] then false
    else Text.StartsWith(path, urls[0]) || IsPublic(path, urls[1..])
  }

  /** The scan answers yes exactly when some URL of the list is a prefix
      of the path. */
  lemma {:induction false} IsPublicIff(path: string, urls: seq<string>)
    ensures IsPublic(path, urls) <==> exists u :: u in urls && Text.StartsWith(path, u)
  {
    if urls != [] {
      IsPublicIff(path, urls[1..]);
      assert forall u :: u in urls <==> u == urls[0] || u in urls[1..];
    }
  }

  /** `ValidatedUserMiddleware.__call__`. */
  function Decide(req: Request, urls: seq<string>): (r: Decision)
  {
    match req.user
    case Anonymous => PassThrough
    case Authenticated(u) =>
      if !u.isValidated && !IsPublic(req.path, urls) && !u.isStaff then RedirectToLogin
      else PassThrough
  }

  /** A redirect happens exactly for a logged-in, unvalidated, non-staff
      account asking for a path under none of the public URLs; in
      particular anonymous visitors, validated accounts and staff always
      reach the view. */
  lemma DecideRedirectsIff(req: Request, urls: seq<string>)
    ensures Decide(req, urls) == RedirectToLogin <==>
              && req.user.Authenticated?
              && !req.user.account.isValidated
              && !req.user.account.isStaff
              && forall u :: u in urls ==> !Text.StartsWith(req.path, u)
  {
    IsPublicIff(req.path, urls);
  }

  /** Every path starting with a public URL passes, whoever asks. */
  lemma PublicPathsPass(req: Request, urls: seq<string>, u: string)
    requires u in urls && Text.StartsWith(req.path, u)
    ensures Decide(req, urls) == PassThrough
  {
    IsPublicIff(req.path, urls);
  }

  /** With the application's public URLs the login, register and logout
      pages, the admin site and the static files are always reachable, so
      an unvalidated account can still log out or wait on the login page. */
  lemma PublicPagesReachable(user: RequestUser, login: string, register: string, logout: string, path: string)
    requires path == login || path == register || path == logout
             || Text.StartsWith(path, ADMIN_PREFIX) || Text.StartsWith(path, STATIC_PREFIX)
    ensures Decide(Request(user, path), PublicUrls(login, register, logout)) == PassThrough
  {
    var urls := PublicUrls(login, register, logout);
    if path == login || path == register || path == logout {
      assert Text.StartsWith(path, path);
      PublicPathsPass(Request(user, path), urls, path);
    } else if Text.StartsWith(path, ADMIN_PREFIX) {
      PublicPathsPass(Request(user, path), urls, ADMIN_PREFIX);
    } else {
      PublicPathsPass(Request(user, path), urls, STATIC_PREFIX);
    }
  }
}
