/**
 * The dashboard's route gate, dashboard/middleware.ts: which request paths the middleware
 * protects, what it does with them, and which paths Next.js hands to it at all.
 */
module RouteGate {
  import opened Wrappers

  const ProtectedPaths: seq<string> := ["/admin", "/profile", "/settings"]

  /** What the middleware answers: let the request through, or redirect it to "/login". */
  datatype Decision = Next | RedirectToLogin

  /** `protectedPaths.some(path => pathname.startsWith(path))`: a raw prefix test. */
  predicate IsProtectedPath(pathname: string) {
    exists i | 0 <= i < |ProtectedPaths| :: ProtectedPaths[i] <= pathname
  }

  /**
   * `middleware`: an unprotected path passes; a protected one needs the `accessToken`
   * cookie, whose presence alone is checked. `cookie` is the cookie's value, if it is set.
   */
  function Middleware(pathname: string, cookie: Option<string>): (d: Decision)
    ensures d == RedirectToLogin <==> IsProtectedPath(pathname) && cookie.None?
  {
    if !IsProtectedPath(pathname) then Next
    else if cookie.None? then RedirectToLogin
    else Next
  }

  /** The cookie's value is never inspected: any value, the empty one included, lets a request through. */
  lemma CookieValueIgnored(pathname: string, v: string, w: string)
    ensures Middleware(pathname, Some(v)) == Middleware(pathname, Some(w)) == Next
  {
  }

  /** The prefix test protects names that merely begin like a protected path. */
  lemma PrefixTestCoversAdministrator()
    ensures IsProtectedPath("/administrator")
    ensures Middleware("/administrator", None) == RedirectToLogin
  {
    assert ProtectedPaths[0] <= "/administrator";
  }

  /**
   * `config.matcher`: "/admin/:path*" and its siblings match the base path itself and
   * every path below it, and nothing else.
   */
  predicate Matched(pathname: string) {
    exists i | 0 <= i < |ProtectedPaths| ::
      pathname == ProtectedPaths[i] || ProtectedPaths[i] + "/" <= pathname
  }

  /** What a request meets once the matcher has chosen whether the middleware runs. */
  function Gate(pathname: string, cookie: Option<string>): (d: Decision)
    ensures d == RedirectToLogin <==> Matched(pathname) && cookie.None?
  {
    if Matched(pathname) then Middleware(pathname, cookie) else Next
  }

  /** Every path the matcher hands over is one the middleware itself protects. */
  lemma MatchedIsProtected(pathname: string)
    requires Matched(pathname)
    ensures IsProtectedPath(pathname)
  {
    var i :| 0 <= i < |ProtectedPaths| && (pathname == ProtectedPaths[i] || ProtectedPaths[i] + "/" <= pathname);
    if pathname != ProtectedPaths[i] {
      assert ProtectedPaths[i] <= ProtectedPaths[i] + "/";
    }
  }

  /**
   * So the middleware's prefix test is never the whole story: "/administrator" does not
   * reach it, and passes without a cookie.
   */
  lemma AdministratorNotGated()
    ensures !Matched("/administrator")
    ensures Gate("/administrator", None) == Next
  {
    var p := "/administrator";
    assert p[6] == 'i';
    assert !(p == "/admin" || "/admin/" <= p) by {
      assert "/admin/"[6] == '/';
    }
    assert !(p == "/profile" || "/profile/" <= p) by {
      assert "/profile/"[1] == 'p';
    }
    assert !(p == "/settings" || "/settings/" <= p) by {
      assert "/settings/"[1] == 's';
    }
  }

  /** Everything under "/admin" is gated. */
  lemma AdminSubpathGated(rest: string)
    ensures Gate("/admin/" + rest, None) == RedirectToLogin
  {
    var p := "/admin/" + rest;
    assert ProtectedPaths[0] + "/" == "/admin/";
    assert "/admin/" <= p;
    assert Matched(p);
  }
}
