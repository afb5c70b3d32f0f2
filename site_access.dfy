/**
  The site-access password endpoint (pages/api/auth/site-access.ts).

  A request is checked in a fixed order: a method other than POST is refused
  with 405 (section 15.5.6 of RFC 9110), a POST without a password with 400
  (section 15.5.1), a wrong password with 401 (section 15.5.2), and the right
  one is answered with 200 and an access cookie. The cookie is kept as its
  attribute record (section 5.2 of RFC 6265); the header text is not modelled.
  Those RFC 9110 sections ask for an `Allow` header on a 405 and a
  `WWW-Authenticate` header on a 401; the source sends neither, so the
  response model has no field for them.
  A string is a sequence of Unicode code points; the JavaScript string of
  UTF-16 code units is not modelled, so a password outside the Basic
  Multilingual Plane is one character here and two in the source.
*/
module SiteAccess {
  import opened Options

  const DefaultSitePassword: string := "IMISSAVIYA"
  const CookieName: string := "site_access_granted"
  const CookieMaxAge: nat := 60 * 60 * 24 * 30

  /** The process environment the endpoint reads. */
  datatype Env = Env(sitePassword: Option<string>, nodeEnv: Option<string>)

  /** `req.method` (as `verb`) and the `password` field of the body; non-string JSON values are not modelled. */
  datatype Request = Request(verb: Option<string>, password: Option<string>)

  datatype SameSite = Lax | Strict | NoSameSite

  /** Attributes of a Set-Cookie header (RFC 6265 section 5.2). */
  datatype Cookie = Cookie(
    name: string,
    value: string,
    httpOnly: bool,
    secure: bool,
    sameSite: SameSite,
    maxAge: nat,
    path: string)

  /** The JSON bodies the endpoint sends. */
  datatype Json = ErrorBody(error: string) | SuccessBody(success: bool)

  datatype Response = Response(status: nat, body: Json, setCookie: Option<Cookie>)

  /** `process.env.SITE_PASSWORD || "IMISSAVIYA"`: an unset or empty variable falls back to the default. */
  function SitePassword(env: Env): (secret: string)
    ensures secret != ""
    ensures env.sitePassword == None || env.sitePassword == Some("") ==> secret == DefaultSitePassword
    ensures env.sitePassword.Some? && env.sitePassword.value != "" ==> secret == env.sitePassword.value
  {
    match env.sitePassword
    case Some(p) => if p != "" then p else DefaultSitePassword
    case None => DefaultSitePassword
  }

  /** `!password`: absent or the empty string. */
  predicate Falsy(password: Option<string>) {
    password == None || password == Some("")
  }

  /** `s.charCodeAt(i)`; past the end it is NaN, which equals nothing. */
  function CharCodeAt(s: string, i: nat): Option<char> {
    if i < |s| then Some(s[i]) else None
  }

  /** The `every` walk of lines 25-30: each character of the password equals the secret's character at the same index, from index `i` on. */
  predicate EveryCharMatches(password: string, secret: string, i: nat)
    requires i <= |password|
    decreases |password| - i
  {
    i == |password| ||
    (Some(password[i]) == CharCodeAt(secret, i) && EveryCharMatches(password, secret, i + 1))
  }

  /** The comparison of lines 23-30: equal lengths, then every character. */
  predicate IsValid(password: string, secret: string) {
    |password| == |secret| && EveryCharMatches(password, secret, 0)
  }

  /** Without the length test, the character walk accepts exactly the prefixes of the secret. */
  lemma {:induction false} EveryCharMatchesFrom(password: string, secret: string, i: nat)
    requires i <= |password| && i <= |secret|
    ensures EveryCharMatches(password, secret, i) <==>
            |password| <= |secret| && password[i..] == secret[i..|password|]
    decreases |password| - i
  {
    if i < |password| && i < |secret| {
      EveryCharMatchesFrom(password, secret, i + 1);
      if |password| <= |secret| {
        assert password[i..] == [password[i]] + password[i + 1..];
        assert secret[i..|password|] == [secret[i]] + secret[i + 1..|password|];
      }
    }
  }

  lemma EveryCharMatchesIffPrefix(password: string, secret: string)
    ensures EveryCharMatches(password, secret, 0) <==> password <= secret
  {
    EveryCharMatchesFrom(password, secret, 0);
  }

  /** The comparison is, functionally, string equality. */
  lemma IsValidIffEqual(password: string, secret: string)
    ensures IsValid(password, secret) <==> password == secret
  {
    EveryCharMatchesIffPrefix(password, secret);
  }

  /** The cookie of lines 37-43: Secure only in production. */
  function AccessCookie(env: Env): (c: Cookie)
    ensures c.name == "site_access_granted" && c.value == "true"
    ensures c.httpOnly && c.sameSite == Lax && c.path == "/"
    ensures c.maxAge == 2592000 && c.maxAge == 30 * 86400
    ensures c.secure <==> env.nodeEnv == Some("production")
  {
    Cookie(CookieName, "true", true, env.nodeEnv == Some("production"), Lax, CookieMaxAge, "/")
  }

  /** The handler: each early return of the source is one branch. */
  function Handler(req: Request, env: Env): (res: Response)
    ensures res.status in {200, 400, 401, 405}
    ensures res.status == 405 <==> req.verb != Some("POST")
    ensures res.status == 400 <==> req.verb == Some("POST") && Falsy(req.password)
    ensures res.status == 401 <==>
            req.verb == Some("POST") && !Falsy(req.password) && req.password != Some(SitePassword(env))
    ensures res.status == 200 <==> req.verb == Some("POST") && req.password == Some(SitePassword(env))
    ensures res.status == 405 ==> res.body == ErrorBody("Method not allowed")
    ensures res.status == 400 ==> res.body == ErrorBody("Password is required")
    ensures res.status == 401 ==> res.body == ErrorBody("Invalid password")
    ensures res.status == 200 ==> res.body == SuccessBody(true) && res.setCookie == Some(AccessCookie(env))
    ensures res.setCookie.Some? <==> res.status == 200
  {
    if req.verb != Some("POST") then
      Response(405, ErrorBody("Method not allowed"), None)
    else if Falsy(req.password) then
      Response(400, ErrorBody("Password is required"), None)
    else
      var password := req.password.value;
      IsValidIffEqual(password, SitePassword(env));
      if !IsValid(password, SitePassword(env)) then
        Response(401, ErrorBody("Invalid password"), None)
      else
        Response(200, SuccessBody(true), Some(AccessCookie(env)))
  }

  /** A non-POST request is refused before the body is read: the password does not matter. */
  lemma NonPostIgnoresBody(verb: Option<string>, p1: Option<string>, p2: Option<string>, env: Env)
    requires verb != Some("POST")
    ensures Handler(Request(verb, p1), env) == Handler(Request(verb, p2), env)
    ensures Handler(Request(verb, p1), env) == Response(405, ErrorBody("Method not allowed"), None)
  {
  }

  /** A cookie is issued only for the configured secret: no other password grants access. */
  lemma CookieOnlyForSecret(req: Request, env: Env)
    requires Handler(req, env).setCookie.Some?
    ensures req.verb == Some("POST") && req.password == Some(SitePassword(env))
    ensures Handler(req, env).setCookie.value.name == CookieName
  {
  }
}
