/** AuthController: maps service answers to HTTP statuses, and chooses the
    channel of the refresh token by client type: an HTTP-only cookie for a
    browser, the JSON body for a native app. */
module AuthController {
  import opened Base
  import opened Text
  import opened Jwt
  import opened Users
  import opened AuthService
  import opened ClientType

  const RefreshCookieName: string := "refreshToken"
  /** Seven days, in seconds. */
  const RefreshCookieMaxAge: int := 7 * 24 * 60 * 60
  const NoCookieMsg: string := "Refresh Token이 없습니다. 다시 로그인해주세요."
  const TokenRequiredMsg: string := "Refresh Token은 필수입니다."

  /** A cookie the server sets. */
  datatype SetCookie = SetCookie(name: string, value: string, httpOnly: bool, secure: bool, path: string, maxAge: int)

  /** A cookie the client sent back. */
  datatype RequestCookie = RequestCookie(name: string, value: string)

  datatype Reply<B> = Reply(status: int, body: B, cookies: seq<SetCookie>)

  /** `POST /signup`: 201 on success, 400 otherwise. */
  function Signup(st: Store, req: SignupRequest, encode: string -> string, storeFault: bool): (r: (Reply<ApiResponse>, Store))
    ensures r.0.status in {201, 400} && r.0.cookies == []
    ensures r.0.status == 201 <==> !storeFault && forall u :: u in st.users ==> u.email != NormalizeEmail(req.email)
    ensures r.0.status == 400 ==> r.1 == st
    ensures var o := RegisterUser(st, req, encode, storeFault);
      r.0.body == o.response && r.1 == o.store && (r.0.status == 201 <==> o.response.success)
  {
    var o := RegisterUser(st, req, encode, storeFault);
    (Reply(if o.response.success then 201 else 400, o.response, []), o.store)
  }

  /** `POST /login`: 200 with both tokens in the body, or 400 with the refusal. */
  function Login(cfg: Config, codec: Codec, st: Store, req: LoginRequest,
                 matches: (string, string) -> bool, clock: LoginClock): (r: (Reply<LoginResponse>, Store))
    ensures r.0.status in {200, 400} && r.0.cookies == []
    ensures r.0.status == 200 <==> r.0.body.LoggedIn?
    ensures r.0.status == 200 ==> r.0.body.refreshToken.Some?
    ensures r.0.status == 400 ==> r.1 == st
    ensures var o := AuthService.Login(cfg, codec, st, req, matches, clock);
      r.0.body == o.response && r.1 == o.store && (r.0.status == 200 <==> o.response.LoggedIn?)
  {
    var o := AuthService.Login(cfg, codec, st, req, matches, clock);
    (Reply(if o.response.LoggedIn? then 200 else 400, o.response, []), o.store)
  }

  /** The refresh-token cookie set for a browser. Secure is off, as the controller sets it. */
  function RefreshCookie(token: string): SetCookie {
    SetCookie(RefreshCookieName, token, true, false, "/", RefreshCookieMaxAge)
  }

  /** `POST /loginEx`: a refusal is 400 with no cookie. On success a browser
      gets the refresh token only as a cookie, removed from the body; a native
      app gets it only in the body. */
  function LoginEx(cfg: Config, codec: Codec, st: Store, req: LoginRequest, headers: Headers,
                   matches: (string, string) -> bool, clock: LoginClock): (r: (Reply<LoginResponse>, Store))
    ensures r.0.status in {200, 400}
    ensures r.0.status == 400 ==> r.1 == st && r.0.cookies == [] && r.0.body.LoginFailed?
    ensures r.0.body == LoginFailed(LoginFault) <==>
      forall u :: u in st.users ==> u.email != NormalizeEmail(req.email)
    ensures var found := LoadUserByUsername(st.users, NormalizeEmail(req.email));
      && (r.0.status == 200 <==> found.Some? && matches(req.password, found.value.passwordHash) && Enabled(found.value))
      && (r.0.body == LoginFailed(BadCredentials) <==> found.Some? && !matches(req.password, found.value.passwordHash))
      && (r.0.body == LoginFailed(AccountInactive) <==>
            found.Some? && matches(req.password, found.value.passwordHash) && !Enabled(found.value))
    ensures r.0.status == 200 ==>
      && r.0.body.LoggedIn?
      && |r.1.tokens| == |st.tokens| + 1
      && var stored := r.1.tokens[|st.tokens|].token;
         if IsWebClient(headers)
         then r.0.cookies == [RefreshCookie(stored)] && r.0.body.refreshToken.None?
         else r.0.cookies == [] && r.0.body.refreshToken == Some(stored)
    ensures var o := AuthService.LoginExAsWritten(cfg, codec, st, req, matches, clock);
      && r.1 == o.store
      && (r.0.status == 400 ==> r.0.body == o.response)
      && (r.0.status == 200 ==> r.0.body == if IsWebClient(headers) then o.response.(refreshToken := None) else o.response)
  {
    var o := AuthService.LoginExAsWritten(cfg, codec, st, req, matches, clock);
    if o.response.LoginFailed? then (Reply(400, o.response, []), o.store)
    else if IsWebClient(headers) then
      (Reply(200, o.response.(refreshToken := None), [RefreshCookie(o.response.refreshToken.value)]), o.store)
    else
      (Reply(200, o.response, []), o.store)
  }

  /** The channel changes where the refresh token travels and nothing else:
      same tables afterwards, same access token, same user summary. */
  lemma ChannelOnlyMovesRefreshToken(cfg: Config, codec: Codec, st: Store, req: LoginRequest, web: Headers, app: Headers,
                                     matches: (string, string) -> bool, clock: LoginClock)
    requires IsWebClient(web) && !IsWebClient(app)
    ensures var w := LoginEx(cfg, codec, st, req, web, matches, clock);
            var a := LoginEx(cfg, codec, st, req, app, matches, clock);
      && w.1 == a.1 && w.0.status == a.0.status
      && (w.0.status == 200 ==>
            && w.0.body == a.0.body.(refreshToken := None)
            && w.0.cookies == [RefreshCookie(a.0.body.refreshToken.value)])
      && (w.0.status == 400 ==> w.0 == a.0)
  {
  }

  /** The first cookie with the given name, as the loop over `getCookies` finds it. */
  function FindCookie(cookies: seq<RequestCookie>, name: string): (r: Option<string>)
    ensures r.None? <==> forall c :: c in cookies ==> c.name != name
    ensures r.Some? ==> RequestCookie(name, r.value) in cookies
    ensures r.Some? ==>
      exists i :: 0 <= i < |cookies| && cookies[i] == RequestCookie(name, r.value)
               && (forall j :: 0 <= j < i ==> cookies[j].name != name)
  {
    if |cookies| == 0 then None
    else if cookies[0].name == name then Some(cookies[0].value)
    else FindCookie(cookies[1..], name)
  }

  /** The earliest cookie with the name wins, wherever it sits and whatever
      cookies with the same name follow it. */
  lemma {:induction false} FirstCookieWins(before: seq<RequestCookie>, value: string, after: seq<RequestCookie>, name: string)
    requires forall c :: c in before ==> c.name != name
    ensures FindCookie(before + [RequestCookie(name, value)] + after, name) == Some(value)
  {
    if |before| > 0 {
      assert (before + [RequestCookie(name, value)] + after)[1..] == before[1..] + [RequestCookie(name, value)] + after;
      FirstCookieWins(before[1..], value, after, name);
    }
  }

  /** The JSON body of a refresh request; `None` fields are JSON nulls. */
  datatype RefreshBody = RefreshBody(refreshToken: Option<string>)

  /** A refresh reply, together with the token the service was called with
      (`None` when the controller answered without calling it). */
  datatype RefreshReply = RefreshReply(status: int, body: TokenRefreshResponse, calledWith: Option<string>)

  /** `POST /refresh`. A browser's token comes from the first `refreshToken`
      cookie (a missing cookie array is `None`); an app's from the body, where
      null or blank is refused. The service's answer maps to 200 or 401. */
  function Refresh(cfg: Config, codec: Codec, st: Store, headers: Headers, cookies: Option<seq<RequestCookie>>,
                   body: Option<RefreshBody>, clock: RefreshClock): (r: RefreshReply)
    ensures r.status in {200, 400, 401}
    ensures r.calledWith.Some? ==>
      && r.body == RefreshAccessToken(cfg, codec, st, r.calledWith.value, clock)
      && (r.status == 200 <==> r.body.success)
    ensures IsWebClient(headers) ==>
      && (r.calledWith.None? <==> cookies.None? || forall c :: c in cookies.value ==> c.name != RefreshCookieName)
      && (r.calledWith.Some? ==> RequestCookie(RefreshCookieName, r.calledWith.value) in cookies.value)
      && (cookies.Some? ==> r.calledWith == FindCookie(cookies.value, RefreshCookieName))
      && (r.calledWith.None? ==> r.status == 401 && r.body == RefreshError(NoCookieMsg))
    ensures !IsWebClient(headers) ==>
      && (r.calledWith.None? <==> body.None? || body.value.refreshToken.None? || IsBlank(body.value.refreshToken.value))
      && (r.calledWith.Some? ==> r.calledWith == body.value.refreshToken)
      && (r.calledWith.None? ==> r.status == 400 && r.body == RefreshError(TokenRequiredMsg))
  {
    var token: Option<string> :=
      if IsWebClient(headers) then
        if cookies.None? then None else FindCookie(cookies.value, RefreshCookieName)
      else if body.None? || body.value.refreshToken.None? || IsBlank(body.value.refreshToken.value) then None
      else body.value.refreshToken;
    if token.None? then
      if IsWebClient(headers) then RefreshReply(401, RefreshError(NoCookieMsg), None)
      else RefreshReply(400, RefreshError(TokenRequiredMsg), None)
    else
      var response := RefreshAccessToken(cfg, codec, st, token.value, clock);
      RefreshReply(if response.success then 200 else 401, response, token)
  }

  /** A browser that sends back the cookie it was given (before any other
      `refreshToken` cookie) has the service called with the stored token. */
  lemma CookieRoundTrip(cfg: Config, codec: Codec, st: Store, headers: Headers, given: SetCookie,
                                           others: seq<RequestCookie>, clock: RefreshClock)
    requires IsWebClient(headers) && given.name == RefreshCookieName
    ensures Refresh(cfg, codec, st, headers, Some([RequestCookie(given.name, given.value)] + others), None, clock).calledWith
         == Some(given.value)
  {
  }
}
