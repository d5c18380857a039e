/** JwtTokenProvider: issues access and refresh tokens and reads them back.
    A token is an opaque string. Signing and parsing are the two halves of a
    `Codec` (the HMAC key lives inside it); what they do cryptographically is
    not modelled, only the claims they carry and the verdict parsing reaches. */
module Jwt {
  import opened Base

  /** Token lifetimes in milliseconds, fixed when the provider is built. */
  datatype Config = Config(accessTtl: int, refreshTtl: int)

  const AccessType: string := "access"
  const RefreshType: string := "refresh"

  /** The payload of a token: `sub`, the optional `userId` claim, `type`, `iat`, `exp`. */
  datatype Claims = Claims(subject: string, userId: Option<int>, tokenType: string,
                           issuedAt: int, expiresAt: int)

  /** What parsing a token string at some instant produces: the claims, or the
      exception the parser throws (ExpiredJwtException, a signature or
      unsupported-token JwtException, MalformedJwtException, or
      IllegalArgumentException for a null or blank string). */
  datatype Verdict =
    | Verified(claims: Claims)
    | Expired(claims: Claims)
    | BadSignature
    | Malformed
    | Blank

  /** `sign` compacts claims into a signed token; `parse(token, now)` checks
      signature, structure and expiry at time `now`. */
  datatype Codec = Codec(sign: Claims -> string, parse: (string, int) -> Verdict)

  /** A codec that reads back exactly what it signed, and reports a token as
      expired once `now` is past its `exp` (the parser's rule). */
  ghost predicate Honest(codec: Codec) {
    forall c: Claims, now: int ::
      codec.parse(codec.sign(c), now) == (if c.expiresAt < now then Expired(c) else Verified(c))
  }

  function AccessClaims(cfg: Config, email: string, userId: int, now: int): Claims {
    Claims(email, Some(userId), AccessType, now, now + cfg.accessTtl)
  }

  /** A refresh token carries no `userId` claim. */
  function RefreshClaims(cfg: Config, email: string, now: int): Claims {
    Claims(email, None, RefreshType, now, now + cfg.refreshTtl)
  }

  /** `generateAccessToken(email, userId)` with the clock read `now`. */
  function GenerateAccessToken(cfg: Config, codec: Codec, email: string, userId: int, now: int): string {
    codec.sign(AccessClaims(cfg, email, userId, now))
  }

  /** `generateRefreshToken(email)` with the clock read `now`. */
  function GenerateRefreshToken(cfg: Config, codec: Codec, email: string, now: int): string {
    codec.sign(RefreshClaims(cfg, email, now))
  }

  /** `validateToken`: returns true or rethrows the parse failure; it has no
      path that returns false. */
  function ValidateToken(codec: Codec, token: string, now: int): (r: Result<bool, Verdict>)
    ensures r.Ok? ==> r.value
    ensures r.Ok? <==> codec.parse(token, now).Verified?
    ensures r.Err? ==> r.error == codec.parse(token, now)
  {
    var v := codec.parse(token, now);
    if v.Verified? then Ok(true) else Err(v)
  }

  /** `getEmailFromToken`: the `sub` claim of a token that parses. */
  function GetEmailFromToken(codec: Codec, token: string, now: int): (r: Result<string, Verdict>)
    ensures r.Ok? <==> codec.parse(token, now).Verified?
    ensures r.Ok? ==> r.value == codec.parse(token, now).claims.subject
    ensures r.Err? ==> r.error == codec.parse(token, now)
  {
    var v := codec.parse(token, now);
    if v.Verified? then Ok(v.claims.subject) else Err(v)
  }

  /** `getUserIdFromToken`: the `userId` claim of a token that parses, null when absent. */
  function GetUserIdFromToken(codec: Codec, token: string, now: int): (r: Result<Option<int>, Verdict>)
    ensures r.Ok? <==> codec.parse(token, now).Verified?
    ensures r.Ok? ==> r.value == codec.parse(token, now).claims.userId
    ensures r.Err? ==> r.error == codec.parse(token, now)
  {
    var v := codec.parse(token, now);
    if v.Verified? then Ok(v.claims.userId) else Err(v)
  }

  /** `getRefreshTokenExpiryDate`: its own clock read plus the refresh lifetime. */
  function RefreshTokenExpiryDate(cfg: Config, clock: int): (r: int)
    ensures r - clock == cfg.refreshTtl
  {
    clock + cfg.refreshTtl
  }

  /** An access token issued at `issued` reads back as email, user id and type
      "access" at any instant up to its expiry. */
  lemma AccessTokenRoundTrip(cfg: Config, codec: Codec, email: string, userId: int, issued: int, now: int)
    requires Honest(codec)
    requires now <= issued + cfg.accessTtl
    ensures var token := GenerateAccessToken(cfg, codec, email, userId, issued);
      && ValidateToken(codec, token, now) == Ok(true)
      && GetEmailFromToken(codec, token, now) == Ok(email)
      && GetUserIdFromToken(codec, token, now) == Ok(Some(userId))
      && codec.parse(token, now).claims.tokenType == AccessType
      && codec.parse(token, now).claims.expiresAt == issued + cfg.accessTtl
  {
  }

  /** After its lifetime the same token is reported expired, never as another failure. */
  lemma AccessTokenExpires(cfg: Config, codec: Codec, email: string, userId: int, issued: int, now: int)
    requires Honest(codec)
    requires now > issued + cfg.accessTtl
    ensures codec.parse(GenerateAccessToken(cfg, codec, email, userId, issued), now).Expired?
    ensures ValidateToken(codec, GenerateAccessToken(cfg, codec, email, userId, issued), now).Err?
  {
  }

  /** A refresh token reads back as the email with type "refresh" and no user id. */
  lemma RefreshTokenRoundTrip(cfg: Config, codec: Codec, email: string, issued: int, now: int)
    requires Honest(codec)
    requires now <= issued + cfg.refreshTtl
    ensures var token := GenerateRefreshToken(cfg, codec, email, issued);
      && GetEmailFromToken(codec, token, now) == Ok(email)
      && GetUserIdFromToken(codec, token, now) == Ok(None)
      && codec.parse(token, now).claims.tokenType == RefreshType
  {
  }

  /** An honest codec never signs two different payloads to the same string. */
  lemma HonestSignIsInjective(codec: Codec, c1: Claims, c2: Claims)
    requires Honest(codec)
    requires c1 != c2
    ensures codec.sign(c1) != codec.sign(c2)
  {
    var now := if c1.expiresAt < c2.expiresAt then c1.expiresAt else c2.expiresAt;
    assert codec.parse(codec.sign(c1), now) == Verified(c1);
    assert codec.parse(codec.sign(c2), now) == Verified(c2);
  }

  /** The access and refresh tokens of one login are different strings. */
  lemma AccessAndRefreshDiffer(cfg: Config, codec: Codec, email: string, userId: int, issued: int)
    requires Honest(codec)
    ensures GenerateAccessToken(cfg, codec, email, userId, issued)
         != GenerateRefreshToken(cfg, codec, email, issued)
  {
    HonestSignIsInjective(codec, AccessClaims(cfg, email, userId, issued), RefreshClaims(cfg, email, issued));
  }
}
