/** JwtAuthenticationFilter: runs once per request, reads a bearer token and
    either authenticates the request, lets it through anonymously, or stops it
    with a 401 body. Requests it does not stop continue down the filter chain. */
module AuthFilter {
  import opened Base
  import opened Text
  import opened Jwt
  import opened Users
  import opened JwtErrors

  const BearerPrefix: string := "Bearer "

  /** `extractTokenFromRequest`: the text after "Bearer " when the header has
      text and starts with that prefix. The has-text test adds nothing, since
      the prefix itself is not blank. */
  function ExtractToken(authorization: Option<string>): (r: Option<string>)
    ensures r.Some? <==> authorization.Some? && StartsWith(authorization.value, BearerPrefix)
    ensures r.Some? ==> authorization.value == BearerPrefix + r.value
  {
    if authorization.Some? && HasText(authorization.value) && StartsWith(authorization.value, BearerPrefix)
    then Some(authorization.value[|BearerPrefix|..])
    else
      assert authorization.Some? && StartsWith(authorization.value, BearerPrefix) ==>
        !IsWhitespace(authorization.value[0]);
      None
  }

  /** What the gate cares about in a request. */
  datatype Request = Request(authorization: Option<string>, path: string)

  /** Where a request goes: on anonymously, on with an authentication in the
      security context, or stopped with a status and a body. */
  datatype GateOutcome =
    | Anonymous
    | Authenticated(principal: User, authorities: seq<string>)
    | Rejected(status: int, body: JwtError)

  /** The filter chain is invoked exactly when the gate does not stop the request. */
  predicate ContinuesChain(o: GateOutcome) {
    !o.Rejected?
  }

  /** `doFilterInternal` at clock reading `now`. `dbFault` stands for the user
      lookup failing with an exception that is not a token exception; the
      outer catch swallows it and the request continues unauthenticated. A
      token without a `userId` claim (a refresh token) takes the same path,
      because looking up a null id raises such an exception. Only `isActive` is
      checked for the user, not the status. */
  function Gate(codec: Codec, users: seq<User>, req: Request, now: int, dbFault: bool): (o: GateOutcome)
    ensures o.Rejected? ==> o.status == 401 && o.body.path == req.path
    ensures o.Rejected? <==>
      ExtractToken(req.authorization).Some? && !codec.parse(ExtractToken(req.authorization).value, now).Verified?
    ensures o.Rejected? ==>
      (o.body == TokenExpired(req.path) <==> codec.parse(ExtractToken(req.authorization).value, now).Expired?)
    ensures o.Rejected? ==> o.body == TokenExpired(req.path) || o.body == InvalidToken(req.path)
    ensures o.Authenticated? ==>
      && ExtractToken(req.authorization).Some?
      && codec.parse(ExtractToken(req.authorization).value, now).Verified?
      && codec.parse(ExtractToken(req.authorization).value, now).claims.userId == Some(o.principal.id)
      && o.principal in users && o.principal.isActive
      && o.authorities == [o.principal.role]
      && !dbFault
  {
    match ExtractToken(req.authorization)
    case None => Anonymous
    case Some(token) =>
      match codec.parse(token, now)
      case Expired(_) => Rejected(401, TokenExpired(req.path))
      case BadSignature => Rejected(401, InvalidToken(req.path))
      case Malformed => Rejected(401, InvalidToken(req.path))
      case Blank => Rejected(401, InvalidToken(req.path))
      case Verified(claims) =>
        if dbFault || claims.userId.None? then Anonymous
        else
          match FindById(users, claims.userId.value)
          case None => Anonymous
          case Some(user) =>
            if user.isActive then Authenticated(user, Authorities(user)) else Anonymous
  }

  /** The header round trip: whatever follows "Bearer " is the token the gate reads. */
  lemma BearerRoundTrip(token: string)
    ensures ExtractToken(Some(BearerPrefix + token)) == Some(token)
  {
  }

  /** A verified token naming an active user authenticates the request as that
      user with that user's role, whatever the account status. */
  lemma ActiveUserAuthenticates(codec: Codec, users: seq<User>, req: Request, now: int, u: User)
    requires UniqueIds(users) && u in users && u.isActive
    requires ExtractToken(req.authorization).Some?
    requires codec.parse(ExtractToken(req.authorization).value, now).Verified?
    requires codec.parse(ExtractToken(req.authorization).value, now).claims.userId == Some(u.id)
    ensures Gate(codec, users, req, now, false) == Authenticated(u, [u.role])
  {
  }

  /** A token without a `userId` claim never authenticates: a verified refresh
      token used as a bearer token lets the request through anonymously. */
  lemma NoUserIdNeverAuthenticates(codec: Codec, users: seq<User>, req: Request, now: int, dbFault: bool)
    requires ExtractToken(req.authorization).Some?
    requires codec.parse(ExtractToken(req.authorization).value, now).Verified?
    requires codec.parse(ExtractToken(req.authorization).value, now).claims.userId.None?
    ensures Gate(codec, users, req, now, dbFault) == Anonymous
  {
  }

  /** A request without a bearer header is never stopped and never authenticated. */
  lemma NoBearerIsAnonymous(codec: Codec, users: seq<User>, req: Request, now: int, dbFault: bool)
    requires req.authorization.None? || !StartsWith(req.authorization.value, BearerPrefix)
    ensures Gate(codec, users, req, now, dbFault) == Anonymous
  {
  }

  /** A user whose flag is cleared cannot authenticate, even with a valid token. */
  lemma InactiveUserNeverAuthenticates(codec: Codec, users: seq<User>, req: Request, now: int, dbFault: bool)
    requires forall u :: u in users ==> !u.isActive
    ensures !Gate(codec, users, req, now, dbFault).Authenticated?
  {
  }
}
