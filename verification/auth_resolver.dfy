/** Who is asking: `getAuthenticatedUserId` prefers the session and falls
    back to the `jc_auth` cookie, the middleware after it copies a cookie
    login into the session, and `requireAuth` / `requireAdmin` gate the
    routes on the result. */
module AuthResolver {
  import opened Wrappers
  import opened Text
  import opened Cookies
  import opened AuthToken

  /** `AUTH_COOKIE_NAME`. */
  const AuthCookieName: string := "jc_auth"

  /** A JavaScript-truthy user id: present and not 0. */
  predicate IsTruthyId(id: Option<int>) {
    id.Some? && id.value != 0
  }

  /** What a request brings: the `userId` stored in its session, if any, and
      its raw `Cookie` header ("" when absent). */
  datatype Request = Request(sessionUserId: Option<int>, cookieHeader: string)

  /** The collaborators the resolver calls: the clock, the base64url codec,
      the token signer and `decodeURIComponent`. */
  datatype Env = Env(now: int, codec: Codec, sign: Signer, decode: Decoder)

  /** `decodeURIComponent` leaves text without `%` unchanged. */
  ghost predicate ValidDecoder(decode: Decoder) {
    forall s :: '%' !in s ==> decode(s) == Some(s)
  }

  /** The cookie half of `getAuthenticatedUserId`: no or an empty `jc_auth`
      cookie means nobody, otherwise the token decides. */
  function ResolveToken(cookies: map<string, string>, env: Env): Option<int> {
    if AuthCookieName !in cookies || cookies[AuthCookieName] == [] then None
    else VerifyAuthToken(cookies[AuthCookieName], env.now, env.codec, env.sign)
  }

  /** `getAuthenticatedUserId(req)` as written: the cookie parse can throw,
      and nothing between it and Express catches the error. */
  function GetAuthenticatedUserIdAsWritten(req: Request, env: Env)
    : Result<Option<int>, CookieError>
  {
    if IsTruthyId(req.sessionUserId) then Success(req.sessionUserId)
    else
      match ParseCookiesAsWritten(req.cookieHeader, env.decode)
      case Failure(err) => Failure(err)
      case Success(cookies) => Success(ResolveToken(cookies, env))
  }

  /** `getAuthenticatedUserId(req)` over the lenient cookie reading. */
  function GetAuthenticatedUserId(req: Request, env: Env): (r: Option<int>)
    ensures IsTruthyId(req.sessionUserId) ==> r == req.sessionUserId
  {
    if IsTruthyId(req.sessionUserId) then req.sessionUserId
    else ResolveToken(ParseCookies(req.cookieHeader, env.decode), env)
  }

  /** The two resolvers agree wherever the server's does not throw. */
  lemma ResolversAgree(req: Request, env: Env)
    requires GetAuthenticatedUserIdAsWritten(req, env).Success?
    ensures GetAuthenticatedUserIdAsWritten(req, env).value == GetAuthenticatedUserId(req, env)
  {
    if !IsTruthyId(req.sessionUserId) {
      ParseCookiesAgreesWithAsWritten(req.cookieHeader, env.decode);
    }
  }

  /** Without a session login the server's resolver throws exactly when the
      header holds a cookie whose value `decodeURIComponent` rejects, an
      unrelated cookie included. */
  lemma AsWrittenThrowsIff(req: Request, env: Env)
    requires !IsTruthyId(req.sessionUserId)
    ensures GetAuthenticatedUserIdAsWritten(req, env).Failure? <==>
      req.cookieHeader != [] &&
      exists k :: 0 <= k < |Entries(req.cookieHeader)|
        && HasBadEscape(Entries(req.cookieHeader)[k], env.decode)
  {
    ParseCookiesAsWrittenFailsIff(req.cookieHeader, env.decode);
  }

  /** A header made of one cookie whose value does not decode makes the
      server's resolver throw, while the lenient one finds nobody. */
  lemma SingleMalformedCookie(header: string, name: string, value: string, env: Env)
    requires header == name + "=" + value
    requires name != [] && '=' !in name && ';' !in name && ';' !in value
    requires env.decode(Trim(value)) == None
    ensures GetAuthenticatedUserIdAsWritten(Request(None, header), env).Failure?
    ensures GetAuthenticatedUserId(Request(None, header), env) == None
  {
    assert Split(header, ';') == [header] by {
      assert ';' !in header;
    }
    SegmentEntryOf(name, value);
    assert Entries(header)[0] == SegmentEntry(header);
    assert HasBadEscape(Entries(header)[0], env.decode);
    AsWrittenThrowsIff(Request(None, header), env);
    ParseCookiesLastWins(header, env.decode, AuthCookieName);
  }

  /** A visitor without a session whose browser sends `theme=%` makes the
      server's resolver throw, so every request fails with status 500,
      where the lenient reading treats the visitor as anonymous. */
  lemma MalformedCookieCounterexample(env: Env)
    requires env.decode("%") == None
    ensures GetAuthenticatedUserIdAsWritten(Request(None, "theme=%"), env).Failure?
    ensures GetAuthenticatedUserId(Request(None, "theme=%"), env) == None
  {
    var name, value := "theme", "%";
    TrimOfTrimmed(value);
    assert "theme=%" == name + "=" + value;
    SingleMalformedCookie("theme=%", name, value, env);
  }

  /** The cookie `setAuthCookie` sends: `jc_auth=<token>`, the token passing
      `encodeURIComponent` unchanged because it is base64url. */
  function AuthCookieHeader(token: string): string {
    AuthCookieName + "=" + token
  }

  lemma Base64UrlIsPlain(token: string)
    requires AllBase64Url(token)
    ensures ';' !in token && '=' !in token && '%' !in token
    ensures Trim(token) == token
  {
    if token != [] {
      assert IsBase64UrlChar(token[0]) && IsBase64UrlChar(token[|token| - 1]);
    }
    TrimOfTrimmed(token);
  }

  /** A header made of one well-formed cookie other than `__proto__` yields
      exactly that cookie. */
  lemma SingleCookieParses(name: string, value: string, decode: Decoder)
    requires name != [] && name != ProtoKey && '=' !in name && ';' !in name && ';' !in value
    requires Trim(name) == name && Trim(value) == value && decode(value) == Some(value)
    ensures var cookies := ParseCookies(name + "=" + value, decode);
      name in cookies && cookies[name] == value
  {
    var header := name + "=" + value;
    assert Split(header, ';') == [header] by {
      assert ';' !in header;
    }
    SegmentEntryOf(name, value);
    assert Entries(header)[0] == Some((name, value));
    assert Carries(Entries(header)[0], name, decode);
    ParseCookiesLastWins(header, decode, name);
  }

  /** The header carrying only the login cookie yields exactly that cookie. */
  lemma AuthCookieParses(token: string, decode: Decoder)
    requires AllBase64Url(token) && ValidDecoder(decode)
    ensures var cookies := ParseCookies(AuthCookieHeader(token), decode);
      AuthCookieName in cookies && cookies[AuthCookieName] == token
  {
    Base64UrlIsPlain(token);
    var name := AuthCookieName;
    TrimOfTrimmed(name);
    SingleCookieParses(name, token, decode);
  }

  /** A browser without a session that presents the cookie minted at login
      is recognised as that user until the token expires. */
  lemma CookieLoginRoundTrip(userId: int, issuedAt: int, env: Env)
    requires ValidCodec(env.codec) && ValidDecoder(env.decode)
    ensures var token := CreateAuthToken(userId, issuedAt, env.codec, env.sign);
      GetAuthenticatedUserId(Request(None, AuthCookieHeader(token)), env)
        == if env.now <= issuedAt + AuthTokenTtlMs then Some(userId) else None
  {
    var token := CreateAuthToken(userId, issuedAt, env.codec, env.sign);
    AuthCookieParses(token, env.decode);
    TokenNonEmpty(userId, issuedAt, env.codec, env.sign);
    TokenRoundTrip(userId, issuedAt, env.now, env.codec, env.sign);
  }

  /** What the authentication middleware leaves behind: `req.authUserId`
      and the session's `userId` afterwards. */
  datatype Authenticated = Authenticated(authUserId: Option<int>, sessionUserId: Option<int>)

  /** The middleware after `getAuthenticatedUserId`: a truthy id found
      through the cookie is copied into a session that has none. */
  function AuthenticateRequest(req: Request, env: Env): (a: Authenticated)
    ensures a.authUserId == GetAuthenticatedUserId(req, env)
    ensures IsTruthyId(req.sessionUserId) ==> a.sessionUserId == req.sessionUserId
    ensures !IsTruthyId(a.authUserId) ==> a.sessionUserId == req.sessionUserId
    ensures IsTruthyId(a.authUserId) ==> a.sessionUserId == a.authUserId
  {
    var id := GetAuthenticatedUserId(req, env);
    var session := if IsTruthyId(id) && !IsTruthyId(req.sessionUserId) then id
                   else req.sessionUserId;
    Authenticated(id, session)
  }

  /** Once recognised, a user stays recognised for the rest of the session,
      whatever cookies later requests carry. */
  lemma BackfillSticks(req: Request, env: Env, later: Env, nextHeader: string)
    requires IsTruthyId(AuthenticateRequest(req, env).authUserId)
    ensures var a := AuthenticateRequest(req, env);
      GetAuthenticatedUserId(Request(a.sessionUserId, nextHeader), later) == a.authUserId
  {
  }

  /** A user record as `findUserById` returns it; absent names are "". */
  datatype User = User(id: int, vorname: string, nachname: string, email: string, userTyp: string)

  datatype Gate = Pass | Unauthorized | Forbidden

  /** `requireAuth`: 401 unless the request is authenticated. */
  function RequireAuth(authUserId: Option<int>): (g: Gate)
    ensures g == Pass <==> IsTruthyId(authUserId)
    ensures g != Forbidden
  {
    if IsTruthyId(authUserId) then Pass else Unauthorized
  }

  datatype AdminGate = AdminDenied(gate: Gate) | AdminGranted(admin: User)

  /** `requireAdmin`: 401 without a login, 403 unless the user record says
      `admin`; on success the record becomes `req.currentAdmin`. */
  function RequireAdmin(authUserId: Option<int>, users: map<int, User>): (g: AdminGate)
    ensures g.AdminGranted? <==>
      RequireAuth(authUserId) == Pass && authUserId.value in users
      && users[authUserId.value].userTyp == "admin"
    ensures g.AdminGranted? ==> g.admin == users[authUserId.value]
    ensures g.AdminDenied? ==>
      (g.gate == Unauthorized <==> RequireAuth(authUserId) == Unauthorized)
      && g.gate != Pass
  {
    if !IsTruthyId(authUserId) then AdminDenied(Unauthorized)
    else if authUserId.value !in users || users[authUserId.value].userTyp != "admin" then
      AdminDenied(Forbidden)
    else AdminGranted(users[authUserId.value])
  }
}
