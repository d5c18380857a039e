/** Whole sessions across the components: sign-up followed by login, the
    tokens of a login presented to the request gate, and the refresh token
    of a login exchanged for a new access token. The codec is assumed
    honest throughout. */
module Sessions {
  import opened Base
  import opened Users
  import opened Jwt
  import opened AuthFilter
  import opened AuthService

  /** A freshly registered account can log in at once with the password it
      signed up with, under any spelling of the email that normalises alike. */
  lemma RegisterThenLogin(cfg: Config, codec: Codec, st: Store, signup: SignupRequest, encode: string -> string,
                          matches: (string, string) -> bool, email: string, clock: LoginClock)
    requires WellFormed(st.users)
    requires forall u :: u in st.users ==> u.email != NormalizeEmail(signup.email)
    requires matches(signup.password, encode(signup.password))
    requires NormalizeEmail(email) == NormalizeEmail(signup.email)
    ensures var st' := RegisterUser(st, signup, encode, false).store;
      var r := Login(cfg, codec, st', LoginRequest(email, signup.password), matches, clock);
      && r.response.LoggedIn?
      && r.response.user.email == NormalizeEmail(signup.email)
      && r.response.user.name == signup.username
      && r.response.user.role == RoleUser
  {
    var st' := RegisterUser(st, signup, encode, false).store;
    var u := st'.users[|st.users|];
    RegisterKeepsWellFormed(st, signup, encode, false);
    LoginSucceedsForEnabledAccount(cfg, codec, st', LoginRequest(email, signup.password), matches, clock, u);
  }

  /** The access token a login hands out, sent as a bearer header before it
      expires, authenticates the request as the account that logged in. */
  lemma LoginThenGateAuthenticates(cfg: Config, codec: Codec, st: Store, req: LoginRequest,
                                   matches: (string, string) -> bool, clock: LoginClock, u: User,
                                   path: string, now: int)
    requires Honest(codec) && WellFormed(st.users)
    requires u in st.users && u.email == NormalizeEmail(req.email)
    requires Login(cfg, codec, st, req, matches, clock).response.LoggedIn?
    requires now <= clock.accessAt + cfg.accessTtl
    ensures var r := Login(cfg, codec, st, req, matches, clock);
      Gate(codec, r.store.users, Request(Some(BearerPrefix + r.response.accessToken), path), now, false)
        == Authenticated(u, [u.role])
  {
    var r := Login(cfg, codec, st, req, matches, clock);
    FindByEmailExact(st.users, u);
    var access := GenerateAccessToken(cfg, codec, u.email, u.id, clock.accessAt);
    assert r.response.accessToken == access;
    BearerRoundTrip(access);
    AccessTokenRoundTrip(cfg, codec, u.email, u.id, clock.accessAt, now);
    ActiveUserAuthenticates(codec, st.users, Request(Some(BearerPrefix + access), path), now, u);
  }

  /** After its lifetime the same access token is stopped with the
      "token expired" answer that tells the client to refresh. */
  lemma LoginThenExpiredAccessRejected(cfg: Config, codec: Codec, st: Store, req: LoginRequest,
                                       matches: (string, string) -> bool, clock: LoginClock,
                                       path: string, now: int, dbFault: bool)
    requires Honest(codec)
    requires Login(cfg, codec, st, req, matches, clock).response.LoggedIn?
    requires now > clock.accessAt + cfg.accessTtl
    ensures var r := Login(cfg, codec, st, req, matches, clock);
      Gate(codec, r.store.users, Request(Some(BearerPrefix + r.response.accessToken), path), now, dbFault)
        == Rejected(401, JwtErrors.TokenExpired(path))
  {
  }

  /** The refresh token of a login is not a bearer token: while it is live the
      gate lets a request carrying it through, but anonymously. */
  lemma RefreshTokenIsNoBearer(cfg: Config, codec: Codec, st: Store, req: LoginRequest,
                               matches: (string, string) -> bool, clock: LoginClock,
                               path: string, now: int, dbFault: bool)
    requires Honest(codec)
    requires Login(cfg, codec, st, req, matches, clock).response.LoggedIn?
    requires now <= clock.refreshAt + cfg.refreshTtl
    ensures var r := Login(cfg, codec, st, req, matches, clock);
      Gate(codec, r.store.users, Request(Some(BearerPrefix + r.response.refreshToken.value), path), now, dbFault)
        == Anonymous
  {
  }

  /** The refresh token of a login buys a new access token for the same
      account while both the token and its stored record are live, provided
      no earlier record holds the same string. Nothing is written, so the
      exchange can be repeated. */
  lemma LoginThenRefresh(cfg: Config, codec: Codec, st: Store, req: LoginRequest,
                         matches: (string, string) -> bool, clock: LoginClock, u: User, rclock: RefreshClock)
    requires Honest(codec) && WellFormed(st.users)
    requires u in st.users && u.email == NormalizeEmail(req.email)
    requires Login(cfg, codec, st, req, matches, clock).response.LoggedIn?
    requires forall rec :: rec in st.tokens ==>
      rec.token != Login(cfg, codec, st, req, matches, clock).response.refreshToken.value
    requires rclock.validateAt <= clock.refreshAt + cfg.refreshTtl
    requires rclock.emailAt <= clock.refreshAt + cfg.refreshTtl
    requires rclock.checkAt <= clock.recordAt + cfg.refreshTtl
    ensures var r := Login(cfg, codec, st, req, matches, clock);
      RefreshAccessToken(cfg, codec, r.store, r.response.refreshToken.value, rclock)
        == RefreshSuccess(GenerateAccessToken(cfg, codec, u.email, u.id, rclock.issueAt))
  {
    var r := Login(cfg, codec, st, req, matches, clock);
    var refresh := GenerateRefreshToken(cfg, codec, u.email, clock.refreshAt);
    var rec := RefreshRecord(refresh, u.id, clock.recordAt + cfg.refreshTtl);
    LoginIssuesTo(cfg, codec, st, req, matches, clock, u);
    IssuedRecordIsFound(cfg, codec, st, u, clock, r);
    RefreshTokenRoundTrip(cfg, codec, u.email, clock.refreshAt, rclock.validateAt);
    assert codec.parse(refresh, rclock.validateAt).Verified?;
    RefreshTokenRoundTrip(cfg, codec, u.email, clock.refreshAt, rclock.emailAt);
    assert codec.parse(refresh, rclock.emailAt).Verified?;
    RefreshSucceedsForLiveRecord(cfg, codec, r.store, refresh, rclock, rec, u);
  }

  /** A successful login for the account holding the request's email issues
      the tokens to that account. */
  lemma LoginIssuesTo(cfg: Config, codec: Codec, st: Store, req: LoginRequest,
                      matches: (string, string) -> bool, clock: LoginClock, u: User)
    requires UniqueEmails(st.users) && u in st.users && u.email == NormalizeEmail(req.email)
    requires Login(cfg, codec, st, req, matches, clock).response.LoggedIn?
    ensures Enabled(u) && IssuedTo(cfg, codec, st, u, clock, Login(cfg, codec, st, req, matches, clock))
  {
    FindByEmailExact(st.users, u);
    assert Login(cfg, codec, st, req, matches, clock) == LoginAs(cfg, codec, st, u, req.password, matches, clock);
  }
}
