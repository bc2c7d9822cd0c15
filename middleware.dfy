/**
 * The request guard in front of the signed-in pages and endpoints: it
 * decides from the path, the method and the session cookies whether a
 * request passes, is refused with 401, or is sent to the login page.
 */
module Middleware {
  import opened Wrappers

  const ReviewsPrefix := "/api/agents/"
  const ReviewsSuffix := "/reviews"
  const SecureCookie := "__Secure-authjs.session-token"
  const PlainCookie := "authjs.session-token"

  /** A request as the guard sees it: its path, its HTTP method, and its cookies by name. */
  datatype Request = Request(pathname: string, verb: string, cookies: map<string, string>)

  datatype Decision = Pass | Unauthorized | RedirectToLogin

  /** `s` ends with `suffix`. */
  predicate EndsWith(s: string, suffix: string)
  {
    |suffix| <= |s| && s[|s| - |suffix|..] == suffix
  }

  /**
   * `^\/api\/agents\/[^/]+\/reviews$`: the prefix, then a non-empty segment
   * without '/', then the suffix, and nothing more.
   */
  predicate MatchesReviewsPath(p: string)
  {
    && |ReviewsPrefix| + |ReviewsSuffix| < |p|
    && ReviewsPrefix <= p
    && EndsWith(p, ReviewsSuffix)
    && forall i :: |ReviewsPrefix| <= i < |p| - |ReviewsSuffix| ==> p[i] != '/'
  }

  /** The path pattern matches exactly the reviews path of a non-empty segment without '/'. */
  lemma ReviewsPathShape(p: string)
    ensures MatchesReviewsPath(p) <==>
      exists seg :: seg != "" && '/' !in seg && p == ReviewsPrefix + seg + ReviewsSuffix
  {
    if MatchesReviewsPath(p) {
      var seg := p[|ReviewsPrefix|..|p| - |ReviewsSuffix|];
      assert p == p[..|ReviewsPrefix|] + seg + p[|p| - |ReviewsSuffix|..];
      assert '/' !in seg by {
        forall k | 0 <= k < |seg| ensures seg[k] != '/' {
          assert seg[k] == p[|ReviewsPrefix| + k];
        }
      }
    }
    if exists seg :: seg != "" && '/' !in seg && p == ReviewsPrefix + seg + ReviewsSuffix {
      var seg :| seg != "" && '/' !in seg && p == ReviewsPrefix + seg + ReviewsSuffix;
      assert p[..|ReviewsPrefix|] == ReviewsPrefix;
      assert p[|p| - |ReviewsSuffix|..] == ReviewsSuffix;
      forall i | |ReviewsPrefix| <= i < |p| - |ReviewsSuffix| ensures p[i] != '/' {
        assert p[i] == seg[i - |ReviewsPrefix|];
      }
    }
  }

  /** The paths that need a session: the settings page, the profile endpoints, and any non-GET on an agent's reviews. */
  predicate IsProtected(r: Request)
  {
    || r.pathname == "/settings"
    || "/api/profile" <= r.pathname
    || (MatchesReviewsPath(r.pathname) && r.verb != "GET")
  }

  /** The session token: the secure cookie's value when non-empty, else the plain cookie's. */
  function Token(cookies: map<string, string>): (t: string)
    ensures t != "" <==> (SecureCookie in cookies && cookies[SecureCookie] != "") || (PlainCookie in cookies && cookies[PlainCookie] != "")
  {
    if SecureCookie in cookies && cookies[SecureCookie] != "" then cookies[SecureCookie]
    else if PlainCookie in cookies then cookies[PlainCookie]
    else ""
  }

  /**
   * Unprotected requests pass; a protected one passes with a session
   * token, and without one gets 401 on an API path and the login page
   * otherwise.
   */
  function Guard(r: Request): (d: Decision)
    ensures !IsProtected(r) ==> d == Pass
    ensures d == Unauthorized <==> IsProtected(r) && Token(r.cookies) == "" && "/api/" <= r.pathname
    ensures d == RedirectToLogin <==> IsProtected(r) && Token(r.cookies) == "" && !("/api/" <= r.pathname)
  {
    if !IsProtected(r) then Pass
    else if Token(r.cookies) == "" then (if "/api/" <= r.pathname then Unauthorized else RedirectToLogin)
    else Pass
  }

  /** Cookies never matter for an unprotected path. */
  lemma UnprotectedIgnoresCookies(r: Request, cookies: map<string, string>)
    requires !IsProtected(r)
    ensures Guard(r.(cookies := cookies)) == Pass
  {
  }

  /** Either session cookie, with a value, lets any request through. */
  lemma EitherCookiePasses(r: Request, name: string)
    requires name == SecureCookie || name == PlainCookie
    requires name in r.cookies && r.cookies[name] != ""
    ensures Guard(r) == Pass
  {
  }

  /** Reading an agent's reviews never needs a session, while posting one does. */
  lemma ReviewsNeedSessionToPost(seg: string, cookies: map<string, string>)
    requires seg != "" && '/' !in seg
    ensures Guard(Request(ReviewsPrefix + seg + ReviewsSuffix, "GET", cookies)) == Pass
    ensures Token(cookies) == "" ==> Guard(Request(ReviewsPrefix + seg + ReviewsSuffix, "POST", cookies)) == Unauthorized
  {
    var p := ReviewsPrefix + seg + ReviewsSuffix;
    ReviewsPathShape(p);
    assert p[..5] == "/api/";
    assert p[1] == 'a' && p[5] == 'a';
    assert p != "/settings" by {
      assert "/settings"[1] == 's';
    }
    assert !("/api/profile" <= p) by {
      assert "/api/profile"[5] == 'p';
    }
  }
}
