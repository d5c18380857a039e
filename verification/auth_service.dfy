/** AuthService: sign-up, the two login flows and access-token refresh, over
    the user table and the table of issued refresh tokens. Password hashing
    and checking are parameters (`encode`, `matches`); each clock read the
    source makes is an explicit instant. */
module AuthService {
  import opened Base
  import opened Text
  import opened Jwt
  import opened Users

  /** A stored refresh token: the token string, its owner and its expiry. */
  datatype RefreshRecord = RefreshRecord(token: string, userId: int, expiresAt: int)

  /** The two tables the service reads and writes. */
  datatype Store = Store(users: seq<User>, tokens: seq<RefreshRecord>)

  /** A response together with the tables after the call. */
  datatype Outcome<R> = Outcome(response: R, store: Store)

  // Messages the service returns.
  const SignupOkMsg: string := "회원가입이 완료되었습니다."
  const DuplicateEmailMsg: string := "이미 가입된 이메일입니다."
  const SignupErrorMsg: string := "회원가입 중 오류가 발생했습니다. 잠시 후 다시 시도해주세요."
  const InactiveMsg: string := "비활성화된 계정입니다. 고객센터에 문의해주세요."
  const RefreshInvalidMsg: string := "유효하지 않은 Refresh Token입니다. 다시 로그인해주세요."
  const RefreshExpiredMsg: string := "Refresh Token이 만료되었습니다. 다시 로그인해주세요."
  const RefreshErrorMsg: string := "Access Token 갱신 중 오류가 발생했습니다. 다시 로그인해주세요."
  const RefreshedMsg: string := "Access Token이 갱신되었습니다"

  datatype ApiResponse = ApiResponse(success: bool, message: string)

  datatype SignupRequest = SignupRequest(email: string, password: string, username: string)

  datatype LoginRequest = LoginRequest(email: string, password: string)

  datatype UserInfo = UserInfo(id: int, email: string, name: string, role: string)

  /** A login answer: tokens and the user summary, or a message and no tokens.
      The refresh token is optional because the web channel removes it from
      the body. */
  datatype LoginResponse =
    | LoggedIn(accessToken: string, refreshToken: Option<string>, user: UserInfo)
    | LoginFailed(reason: LoginFailure)

  /** Why a login was refused; each reason stands for the message text below. */
  datatype LoginFailure =
    | BadCredentials
    | AccountInactive
    | AccountSuspended
    | AccountDeleted
    | AccountPending
    | AccountUnusable
    | AccountLocked
    | LoginFault

  /** The message a refused login carries. */
  function FailureMessage(f: LoginFailure): string {
    match f
    case BadCredentials => "이메일 또는 비밀번호가 올바르지 않습니다."
    case AccountInactive => InactiveMsg
    case AccountSuspended => "정지된 계정입니다. 고객센터에 문의해주세요."
    case AccountDeleted => "삭제된 계정입니다."
    case AccountPending => "이메일 인증이 필요합니다."
    case AccountUnusable => "로그인할 수 없는 계정 상태입니다."
    case AccountLocked => "잠긴 계정입니다. 고객센터에 문의해주세요."
    case LoginFault => "로그인 처리 중 오류가 발생했습니다. 잠시 후 다시 시도해주세요."
  }

  /** Different reasons carry different texts, so a client can tell them apart
      exactly when the reasons differ. */
  lemma FailureMessagesDistinct(f: LoginFailure, g: LoginFailure)
    ensures FailureMessage(f) == FailureMessage(g) <==> f == g
  {
  }

  /** TokenRefreshResponse: `success(token)` and `error(message)` are the only shapes built. */
  datatype TokenRefreshResponse =
    TokenRefreshResponse(success: bool, message: string, accessToken: Option<string>, refreshToken: Option<string>)

  /** `TokenRefreshResponse.success`: the new access token, and no refresh token
      since refresh tokens are not rotated. */
  function RefreshSuccess(accessToken: string): (r: TokenRefreshResponse)
    ensures r.success && r.accessToken == Some(accessToken) && r.refreshToken.None?
  {
    TokenRefreshResponse(true, RefreshedMsg, Some(accessToken), None)
  }

  /** `TokenRefreshResponse.error`: a message and no tokens. */
  function RefreshError(message: string): (r: TokenRefreshResponse)
    ensures !r.success && r.message == message && r.accessToken.None? && r.refreshToken.None?
  {
    TokenRefreshResponse(false, message, None, None)
  }

  /** The email normalisation shared by sign-up and both logins: trim, then lower-case. */
  function NormalizeEmail(email: string): string {
    Lower(Trim(email))
  }

  /** Normalising twice changes nothing, so a stored email is its own normal form. */
  lemma NormalizeEmailIdempotent(email: string)
    ensures NormalizeEmail(NormalizeEmail(email)) == NormalizeEmail(email)
  {
    var t := Trim(email);
    var l := Lower(t);
    assert |l| > 0 ==> l[0] == LowerChar(t[0]) > ' ' && l[|l| - 1] == LowerChar(t[|t| - 1]) > ' ';
    TrimFixesTrimmed(l);
    LowerHasNoUpper(t);
    LowerFixesNoUpper(l);
  }

  /** The per-status refusal of `login`; ACTIVE never reaches the switch. */
  function StatusFailure(s: Status): LoginFailure {
    match s
    case Suspended => AccountSuspended
    case Deleted => AccountDeleted
    case Inactive => AccountInactive
    case PendingVerification => AccountPending
    case Active => AccountUnusable
  }

  // ---------------------------------------------------------------- sign-up

  /** `registerUser`. A duplicate email surfaces as the unique-constraint
      violation; `storeFault` stands for any other failure while saving. */
  function RegisterUser(st: Store, req: SignupRequest, encode: string -> string, storeFault: bool): (r: Outcome<ApiResponse>)
    ensures r.store.tokens == st.tokens
    ensures r.response.success <==> !storeFault && forall u :: u in st.users ==> u.email != NormalizeEmail(req.email)
    ensures !r.response.success ==> r.store == st
    ensures r.response.success ==>
      && r.response.message == SignupOkMsg
      && |r.store.users| == |st.users| + 1
      && r.store.users[..|st.users|] == st.users
      && var u := r.store.users[|st.users|];
         && u.email == NormalizeEmail(req.email) && u.passwordHash == encode(req.password)
         && u.name == req.username && u.role == RoleUser && Enabled(u)
         && (forall v :: v in st.users ==> v.id != u.id)
    ensures !r.response.success && (exists u :: u in st.users && u.email == NormalizeEmail(req.email)) ==>
      r.response.message == DuplicateEmailMsg
    ensures !r.response.success && (forall u :: u in st.users ==> u.email != NormalizeEmail(req.email)) ==>
      r.response.message == SignupErrorMsg
  {
    var email := NormalizeEmail(req.email);
    if ExistsByEmail(st.users, email) then
      Outcome(ApiResponse(false, DuplicateEmailMsg), st)
    else if storeFault then
      Outcome(ApiResponse(false, SignupErrorMsg), st)
    else
      var u := User(NextId(st.users), email, encode(req.password), req.username, None, None, RoleUser, Active, true);
      assert (st.users + [u])[..|st.users|] == st.users;
      Outcome(ApiResponse(true, SignupOkMsg), st.(users := st.users + [u]))
  }

  /** Sign-up keeps the id and email constraints of the user table. */
  lemma RegisterKeepsWellFormed(st: Store, req: SignupRequest, encode: string -> string, storeFault: bool)
    requires WellFormed(st.users)
    ensures WellFormed(RegisterUser(st, req, encode, storeFault).store.users)
  {
    var r := RegisterUser(st, req, encode, storeFault);
    if r.response.success {
      var u := r.store.users[|st.users|];
      assert r.store.users == st.users + [u];
      AppendKeepsWellFormed(st.users, u);
    }
  }

  /** Two sign-ups whose emails differ only in surrounding blanks or ASCII case
      collide: the second one is refused as a duplicate. */
  lemma SecondSignupIsDuplicate(st: Store, first: SignupRequest, second: SignupRequest, encode: string -> string, f1: bool, f2: bool)
    requires NormalizeEmail(first.email) == NormalizeEmail(second.email)
    requires !f1 && forall u :: u in st.users ==> u.email != NormalizeEmail(first.email)
    ensures RegisterUser(RegisterUser(st, first, encode, f1).store, second, encode, f2).response
         == ApiResponse(false, DuplicateEmailMsg)
  {
    var r1 := RegisterUser(st, first, encode, f1);
    assert r1.response.success;
    var u := r1.store.users[|st.users|];
    assert u in r1.store.users && u.email == NormalizeEmail(second.email);
    assert ExistsByEmail(r1.store.users, NormalizeEmail(second.email));
  }

  // ---------------------------------------------------------------- login

  /** The three clock reads of a successful login: the access token's issue
      time, the refresh token's, and the one the stored expiry is computed from. */
  datatype LoginClock = LoginClock(accessAt: int, refreshAt: int, recordAt: int)

  function InfoOf(u: User): UserInfo {
    UserInfo(u.id, u.email, u.name, u.role)
  }

  /** What a successful login for `u` hands out and writes: both tokens and
      the user's summary in the body; the user table untouched; every earlier
      refresh record kept in place, and exactly one new record after them that
      holds the returned refresh token, belongs to `u` and expires a refresh
      lifetime after the record's clock read. */
  predicate IssuedTo(cfg: Config, codec: Codec, st: Store, u: User, clock: LoginClock, r: Outcome<LoginResponse>) {
    var refresh := GenerateRefreshToken(cfg, codec, u.email, clock.refreshAt);
    && r.response == LoggedIn(GenerateAccessToken(cfg, codec, u.email, u.id, clock.accessAt), Some(refresh), InfoOf(u))
    && r.store.users == st.users
    && |r.store.tokens| == |st.tokens| + 1
    && r.store.tokens[..|st.tokens|] == st.tokens
    && r.store.tokens[|st.tokens|] == RefreshRecord(refresh, u.id, clock.recordAt + cfg.refreshTtl)
  }

  function IssueTokens(cfg: Config, codec: Codec, st: Store, u: User, clock: LoginClock): (r: Outcome<LoginResponse>)
    ensures IssuedTo(cfg, codec, st, u, clock, r)
  {
    var access := GenerateAccessToken(cfg, codec, u.email, u.id, clock.accessAt);
    var refresh := GenerateRefreshToken(cfg, codec, u.email, clock.refreshAt);
    var record := RefreshRecord(refresh, u.id, RefreshTokenExpiryDate(cfg, clock.recordAt));
    Outcome(LoggedIn(access, Some(refresh), InfoOf(u)), st.(tokens := st.tokens + [record]))
  }

  /** `login`: credential check with one message for an unknown email and a
      wrong password, then the active flag, then the status. */
  function Login(cfg: Config, codec: Codec, st: Store, req: LoginRequest,
                 matches: (string, string) -> bool, clock: LoginClock): (r: Outcome<LoginResponse>)
    ensures r.store.users == st.users
    ensures r.response.LoginFailed? ==> r.store == st
    ensures r.response.LoggedIn? ==>
      exists u :: u in st.users && u.email == NormalizeEmail(req.email) && matches(req.password, u.passwordHash)
               && Enabled(u) && IssuedTo(cfg, codec, st, u, clock, r)
    ensures r.response.LoginFailed? ==>
      r.response.reason != AccountUnusable && r.response.reason != AccountLocked && r.response.reason != LoginFault
    ensures r.response == LoginFailed(BadCredentials) <==>
      || (forall u :: u in st.users ==> u.email != NormalizeEmail(req.email))
      || !matches(req.password, FindByEmail(st.users, NormalizeEmail(req.email)).value.passwordHash)
    ensures var found := FindByEmail(st.users, NormalizeEmail(req.email));
      found.Some? && matches(req.password, found.value.passwordHash) ==>
        && (!found.value.isActive ==> r.response == LoginFailed(AccountInactive))
        && (found.value.isActive && found.value.status != Active ==>
              r.response == LoginFailed(StatusFailure(found.value.status)))
        && (Enabled(found.value) ==> IssuedTo(cfg, codec, st, found.value, clock, r))
  {
    var email := NormalizeEmail(req.email);
    match FindByEmail(st.users, email)
    case None => Outcome(LoginFailed(BadCredentials), st)
    case Some(u) => LoginAs(cfg, codec, st, u, req.password, matches, clock)
  }

  /** The checks `login` makes once the email has matched the row `u`. */
  function LoginAs(cfg: Config, codec: Codec, st: Store, u: User, password: string,
                   matches: (string, string) -> bool, clock: LoginClock): (r: Outcome<LoginResponse>)
    ensures r.store.users == st.users
    ensures r.response.LoginFailed? ==> r.store == st
    ensures r.response == LoginFailed(BadCredentials) <==> !matches(password, u.passwordHash)
    ensures r.response.LoggedIn? <==> matches(password, u.passwordHash) && Enabled(u)
    ensures r.response.LoginFailed? ==>
      r.response.reason != AccountUnusable && r.response.reason != AccountLocked && r.response.reason != LoginFault
    ensures matches(password, u.passwordHash) ==>
      && (!u.isActive ==> r.response == LoginFailed(AccountInactive))
      && (u.isActive && u.status != Active ==> r.response == LoginFailed(StatusFailure(u.status)))
      && (Enabled(u) ==> IssuedTo(cfg, codec, st, u, clock, r))
  {
    if !matches(password, u.passwordHash) then Outcome(LoginFailed(BadCredentials), st)
    else if !u.isActive then Outcome(LoginFailed(AccountInactive), st)
    else if u.status != Active then Outcome(LoginFailed(StatusFailure(u.status)), st)
    else IssueTokens(cfg, codec, st, u, clock)
  }

  /** With emails unique, the right password for an enabled account logs in,
      however the email is spaced or capitalised. */
  lemma LoginSucceedsForEnabledAccount(cfg: Config, codec: Codec, st: Store, req: LoginRequest,
                                       matches: (string, string) -> bool, clock: LoginClock, u: User)
    requires UniqueEmails(st.users) && u in st.users
    requires u.email == NormalizeEmail(req.email) && matches(req.password, u.passwordHash) && Enabled(u)
    ensures IssuedTo(cfg, codec, st, u, clock, Login(cfg, codec, st, req, matches, clock))
  {
  }

  /** An unknown email and a wrong password for a known one are answered
      identically, so the answer does not reveal which emails are registered. */
  lemma LoginHidesUnknownEmail(cfg: Config, codec: Codec, st: Store, unknown: LoginRequest, wrong: LoginRequest,
                               matches: (string, string) -> bool, clock: LoginClock, u: User)
    requires UniqueEmails(st.users)
    requires forall v :: v in st.users ==> v.email != NormalizeEmail(unknown.email)
    requires u in st.users && u.email == NormalizeEmail(wrong.email) && !matches(wrong.password, u.passwordHash)
    ensures Login(cfg, codec, st, unknown, matches, clock) == Login(cfg, codec, st, wrong, matches, clock)
  {
  }

  /** An account whose status is INACTIVE gets the same text as one whose
      active flag is cleared; the other non-ACTIVE statuses get texts of their own. */
  lemma {:induction false} InactiveStatusMatchesInactiveFlag(cfg: Config, codec: Codec, st: Store, req: LoginRequest,
                                         matches: (string, string) -> bool, clock: LoginClock, u: User)
    requires UniqueEmails(st.users) && u in st.users
    requires u.email == NormalizeEmail(req.email) && matches(req.password, u.passwordHash)
    requires !u.isActive || u.status == Inactive
    ensures Login(cfg, codec, st, req, matches, clock) == Outcome(LoginFailed(AccountInactive), st)
  {
    FindByEmailExact(st.users, u);
  }

  // ---------------------------------------------------------------- loginEx

  /** `loginEx` as written. `loadUserByUsername` throws for an
      unknown email instead of returning null, so the null branch is dead and
      an unknown email lands in the catch-all, whose message differs from the
      wrong-password one. The enabled check comes before the lock check and
      implies it, so the lock message is never produced. */
  function LoginExAsWritten(cfg: Config, codec: Codec, st: Store, req: LoginRequest,
                            matches: (string, string) -> bool, clock: LoginClock): (r: Outcome<LoginResponse>)
    ensures r.store.users == st.users
    ensures r.response.LoginFailed? ==> r.store == st
    ensures r.response != LoginFailed(AccountLocked)
    ensures r.response == LoginFailed(LoginFault) <==>
      forall u :: u in st.users ==> u.email != NormalizeEmail(req.email)
    ensures r.response.LoggedIn? ==>
      exists u :: u in st.users && u.email == NormalizeEmail(req.email) && matches(req.password, u.passwordHash)
               && Enabled(u) && IssuedTo(cfg, codec, st, u, clock, r)
    ensures r.response.LoginFailed? ==> r.response.reason in {BadCredentials, AccountInactive, LoginFault}
    ensures var found := LoadUserByUsername(st.users, NormalizeEmail(req.email));
      found.Some? ==>
        && (r.response == LoginFailed(BadCredentials) <==> !matches(req.password, found.value.passwordHash))
        && (r.response == LoginFailed(AccountInactive) <==>
              matches(req.password, found.value.passwordHash) && !Enabled(found.value))
        && (r.response.LoggedIn? <==> matches(req.password, found.value.passwordHash) && Enabled(found.value))
        && (r.response.LoggedIn? ==> IssuedTo(cfg, codec, st, found.value, clock, r))
  {
    var email := NormalizeEmail(req.email);
    match LoadUserByUsername(st.users, email)
    case None => Outcome(LoginFailed(LoginFault), st)
    case Some(u) =>
      if !matches(req.password, Password(u)) then Outcome(LoginFailed(BadCredentials), st)
      else if !Enabled(u) then Outcome(LoginFailed(AccountInactive), st)
      else if !AccountNonLocked(u) then Outcome(LoginFailed(AccountLocked), st)
      else IssueTokens(cfg, codec, st, u, clock)
  }

  /** The as-written flow tells an unknown email apart from a wrong password. */
  lemma LoginExAsWrittenRevealsUnknownEmail(cfg: Config, codec: Codec, st: Store, unknown: LoginRequest, wrong: LoginRequest,
                                            matches: (string, string) -> bool, clock: LoginClock, u: User)
    requires UniqueEmails(st.users)
    requires forall v :: v in st.users ==> v.email != NormalizeEmail(unknown.email)
    requires u in st.users && u.email == NormalizeEmail(wrong.email) && !matches(wrong.password, u.passwordHash)
    ensures LoginExAsWritten(cfg, codec, st, unknown, matches, clock).response
         != LoginExAsWritten(cfg, codec, st, wrong, matches, clock).response
  {
  }

  /** `loginEx` with the unknown-email case answered as its null branch intends:
      with the wrong-password message. */
  function LoginEx(cfg: Config, codec: Codec, st: Store, req: LoginRequest,
                   matches: (string, string) -> bool, clock: LoginClock): (r: Outcome<LoginResponse>)
    ensures r.store.users == st.users
    ensures r.response.LoginFailed? ==> r.store == st
    ensures r.response != LoginFailed(AccountLocked)
    ensures r.response.LoggedIn? ==>
      exists u :: u in st.users && u.email == NormalizeEmail(req.email) && matches(req.password, u.passwordHash)
               && Enabled(u) && IssuedTo(cfg, codec, st, u, clock, r)
    ensures r.response.LoginFailed? ==> r.response.reason in {BadCredentials, AccountInactive}
    ensures var found := LoadUserByUsername(st.users, NormalizeEmail(req.email));
      && (found.None? ==> r.response == LoginFailed(BadCredentials))
      && (found.Some? ==>
        && (r.response == LoginFailed(BadCredentials) <==> !matches(req.password, found.value.passwordHash))
        && (r.response == LoginFailed(AccountInactive) <==>
              matches(req.password, found.value.passwordHash) && !Enabled(found.value))
        && (r.response.LoggedIn? <==> matches(req.password, found.value.passwordHash) && Enabled(found.value))
        && (r.response.LoggedIn? ==> IssuedTo(cfg, codec, st, found.value, clock, r)))
  {
    var email := NormalizeEmail(req.email);
    match LoadUserByUsername(st.users, email)
    case None => Outcome(LoginFailed(BadCredentials), st)
    case Some(u) =>
      if !matches(req.password, Password(u)) then Outcome(LoginFailed(BadCredentials), st)
      else if !Enabled(u) then Outcome(LoginFailed(AccountInactive), st)
      else if !AccountNonLocked(u) then Outcome(LoginFailed(AccountLocked), st)
      else IssueTokens(cfg, codec, st, u, clock)
  }

  /** The corrected flow answers an unknown email exactly like a wrong password. */
  lemma LoginExHidesUnknownEmail(cfg: Config, codec: Codec, st: Store, unknown: LoginRequest, wrong: LoginRequest,
                                 matches: (string, string) -> bool, clock: LoginClock, u: User)
    requires UniqueEmails(st.users)
    requires forall v :: v in st.users ==> v.email != NormalizeEmail(unknown.email)
    requires u in st.users && u.email == NormalizeEmail(wrong.email) && !matches(wrong.password, u.passwordHash)
    ensures LoginEx(cfg, codec, st, unknown, matches, clock) == LoginEx(cfg, codec, st, wrong, matches, clock)
  {
  }

  /** The two login flows accept the same requests and issue the same tokens;
      they differ only in the failure texts for non-ACTIVE statuses. */
  lemma LoginExAgreesWithLogin(cfg: Config, codec: Codec, st: Store, req: LoginRequest,
                               matches: (string, string) -> bool, clock: LoginClock)
    ensures LoginEx(cfg, codec, st, req, matches, clock).response.LoggedIn?
        <==> Login(cfg, codec, st, req, matches, clock).response.LoggedIn?
    ensures Login(cfg, codec, st, req, matches, clock).response.LoggedIn? ==>
      LoginEx(cfg, codec, st, req, matches, clock) == Login(cfg, codec, st, req, matches, clock)
    ensures Login(cfg, codec, st, req, matches, clock).response == LoginFailed(BadCredentials)
        <==> LoginEx(cfg, codec, st, req, matches, clock).response == LoginFailed(BadCredentials)
  {
  }

  /** For an email some row holds, the as-written flow and the corrected one
      give the same answer and write the same tables: the two differ only on
      an unknown email. */
  lemma LoginExAsWrittenAgreesOnKnownEmail(cfg: Config, codec: Codec, st: Store, req: LoginRequest,
                                           matches: (string, string) -> bool, clock: LoginClock)
    requires exists u :: u in st.users && u.email == NormalizeEmail(req.email)
    ensures LoginExAsWritten(cfg, codec, st, req, matches, clock) == LoginEx(cfg, codec, st, req, matches, clock)
  {
  }

  // ---------------------------------------------------------------- refresh

  /** `findByToken`: the first stored record with that token. */
  function FindRecord(tokens: seq<RefreshRecord>, token: string): (r: Option<RefreshRecord>)
    ensures r.Some? ==> r.value in tokens && r.value.token == token
    ensures r.None? <==> forall rec :: rec in tokens ==> rec.token != token
  {
    if |tokens| == 0 then None
    else if tokens[0].token == token then Some(tokens[0])
    else FindRecord(tokens[1..], token)
  }

  /** Tables that keep every earlier record in place and add one after them
      are the earlier ones with that record appended. */
  lemma AppendedRecord(before: seq<RefreshRecord>, after: seq<RefreshRecord>)
    requires |after| == |before| + 1 && after[..|before|] == before
    ensures after == before + [after[|before|]]
  {
  }

  /** A record appended after every earlier record with other tokens is found. */
  lemma FindRecordAppended(tokens: seq<RefreshRecord>, rec: RefreshRecord)
    requires forall other :: other in tokens ==> other.token != rec.token
    ensures FindRecord(tokens + [rec], rec.token) == Some(rec)
  {
  }

  /** The record issued at a login is the one found under its refresh token,
      when no earlier record holds that token. */
  lemma IssuedRecordIsFound(cfg: Config, codec: Codec, st: Store, u: User, clock: LoginClock, r: Outcome<LoginResponse>)
    requires IssuedTo(cfg, codec, st, u, clock, r)
    requires forall rec :: rec in st.tokens ==> rec.token != r.response.refreshToken.value
    ensures var refresh := GenerateRefreshToken(cfg, codec, u.email, clock.refreshAt);
      FindRecord(r.store.tokens, refresh) == Some(RefreshRecord(refresh, u.id, clock.recordAt + cfg.refreshTtl))
  {
    AppendedRecord(st.tokens, r.store.tokens);
    FindRecordAppended(st.tokens, r.store.tokens[|st.tokens|]);
  }

  /** The clock reads of a refresh: the validation parse, the email parse, the
      expiry check of the record, and the new token's issue time. */
  datatype RefreshClock = RefreshClock(validateAt: int, emailAt: int, checkAt: int, issueAt: int)

  /** `refreshAccessToken`. A token that fails to parse makes `validateToken`
      throw rather than return false, so it reaches the catch-all message and
      never the "invalid" one, which only a token missing from the table gets.
      The token's `type` claim is not consulted. Nothing is written. */
  function RefreshAccessToken(cfg: Config, codec: Codec, st: Store, token: string, clock: RefreshClock): (r: TokenRefreshResponse)
    ensures r.success ==> r.refreshToken.None? && r.message == RefreshedMsg
    ensures !r.success ==> r.accessToken.None? && r.refreshToken.None?
    ensures r.message == RefreshErrorMsg <==>
      !codec.parse(token, clock.validateAt).Verified? || !codec.parse(token, clock.emailAt).Verified?
    ensures r.message == RefreshInvalidMsg <==>
      && codec.parse(token, clock.validateAt).Verified? && codec.parse(token, clock.emailAt).Verified?
      && forall rec :: rec in st.tokens ==> rec.token != token
    ensures r.success ==>
      exists rec, u :: rec in st.tokens && rec.token == token && clock.checkAt <= rec.expiresAt
                    && u in st.users && u.id == rec.userId && Enabled(u)
                    && r.accessToken == Some(GenerateAccessToken(cfg, codec, u.email, u.id, clock.issueAt))
    ensures var found := FindRecord(st.tokens, token);
      r.message == RefreshExpiredMsg <==>
        && codec.parse(token, clock.validateAt).Verified? && codec.parse(token, clock.emailAt).Verified?
        && found.Some? && found.value.expiresAt < clock.checkAt
    ensures var found := FindRecord(st.tokens, token);
      r.message == InactiveMsg <==>
        && codec.parse(token, clock.validateAt).Verified? && codec.parse(token, clock.emailAt).Verified?
        && found.Some? && clock.checkAt <= found.value.expiresAt
        && var owner := FindById(st.users, found.value.userId);
           owner.None? || !Enabled(owner.value)
  {
    var valid := ValidateToken(codec, token, clock.validateAt);
    if valid.Err? then RefreshError(RefreshErrorMsg)
    else if !valid.value then RefreshError(RefreshInvalidMsg)
    else
      var email := GetEmailFromToken(codec, token, clock.emailAt);
      if email.Err? then RefreshError(RefreshErrorMsg)
      else
        match FindRecord(st.tokens, token)
        case None => RefreshError(RefreshInvalidMsg)
        case Some(rec) =>
          if rec.expiresAt < clock.checkAt then RefreshError(RefreshExpiredMsg)
          else
            match FindById(st.users, rec.userId)
            case None => RefreshError(InactiveMsg)
            case Some(u) =>
              if !u.isActive || u.status != Active then RefreshError(InactiveMsg)
              else RefreshSuccess(GenerateAccessToken(cfg, codec, u.email, u.id, clock.issueAt))
  }

  /** A stored, unexpired refresh token whose owner is enabled yields a new
      access token for that owner. */
  lemma RefreshSucceedsForLiveRecord(cfg: Config, codec: Codec, st: Store, token: string,
                                                        clock: RefreshClock, rec: RefreshRecord, u: User)
    requires UniqueIds(st.users) && u in st.users && u.id == rec.userId && Enabled(u)
    requires FindRecord(st.tokens, token) == Some(rec) && clock.checkAt <= rec.expiresAt
    requires codec.parse(token, clock.validateAt).Verified? && codec.parse(token, clock.emailAt).Verified?
    ensures RefreshAccessToken(cfg, codec, st, token, clock)
         == RefreshSuccess(GenerateAccessToken(cfg, codec, u.email, u.id, clock.issueAt))
  {
  }

  /** A stored record past its expiry is reported as expired, whoever owns it. */
  lemma RefreshRejectsExpiredRecord(cfg: Config, codec: Codec, st: Store, token: string,
                                    clock: RefreshClock, rec: RefreshRecord)
    requires FindRecord(st.tokens, token) == Some(rec) && rec.expiresAt < clock.checkAt
    requires codec.parse(token, clock.validateAt).Verified? && codec.parse(token, clock.emailAt).Verified?
    ensures RefreshAccessToken(cfg, codec, st, token, clock) == RefreshError(RefreshExpiredMsg)
  {
  }
}
