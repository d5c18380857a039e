/** JwtErrorResponse: the JSON body the gate writes when it stops a request. */
module JwtErrors {

  datatype JwtError = JwtError(errorCode: string, message: string, action: string, path: string)

  const RefreshAction: string := "REFRESH_TOKEN"
  const LoginAction: string := "LOGIN_REQUIRED"

  /** An expired access token: the client should call the refresh endpoint. */
  function TokenExpired(path: string): JwtError {
    JwtError("TOKEN_EXPIRED", "Access Token이 만료되었습니다. 토큰을 갱신해주세요.", RefreshAction, path)
  }

  /** A token that fails signature or structure checks: the client must log in again. */
  function InvalidToken(path: string): JwtError {
    JwtError("INVALID_TOKEN", "유효하지 않은 토큰입니다. 다시 로그인해주세요.", LoginAction, path)
  }

  /** No token where one is needed. */
  function NoToken(path: string): JwtError {
    JwtError("NO_TOKEN", "인증이 필요합니다. 로그인해주세요.", LoginAction, path)
  }

  /** The three bodies the factories build. */
  predicate IsFactoryBody(e: JwtError) {
    e == TokenExpired(e.path) || e == InvalidToken(e.path) || e == NoToken(e.path)
  }

  /** Of the three bodies only the expiry one sends the client to refresh; the
      others send it to log in. Each code has its own message, and every body
      echoes the request path it was built for. */
  lemma OnlyExpiryAsksForRefresh(path: string, e: JwtError)
    requires e == TokenExpired(path) || e == InvalidToken(path) || e == NoToken(path)
    ensures IsFactoryBody(e) && e.path == path
    ensures e.action == RefreshAction <==> e.errorCode == "TOKEN_EXPIRED"
    ensures e.action == LoginAction <==> e.errorCode != "TOKEN_EXPIRED"
    ensures TokenExpired(path).message != InvalidToken(path).message
    ensures InvalidToken(path).message != NoToken(path).message
    ensures TokenExpired(path).message != NoToken(path).message
  {
  }
}
