/** `routes/userRoutes.js`: `GET /check`, which verifies the presented
    token and echoes its payload. It reads no table and changes nothing. */
module UserRoutes {
  import opened Common
  import opened Auth
  import AuthMiddleware

  /** The reply: status, the decoded payload on success, and the
      verification error's message on failure. */
  datatype CheckReply = CheckReply(status: nat, user: Option<Claims>, error: Option<string>)

  /** `req.headers.authorization?.split(' ')[1]`: optional chaining turns
      a missing header into "no token" instead of an exception. */
  function RouteToken(header: Option<string>): (r: Option<string>)
    ensures r.Some? ==> header.Some? && ' ' in header.value
    ensures PresentedToken(header).Some? <==> r.Some? && r.value != ""
    ensures PresentedToken(header).Some? ==> r == PresentedToken(header)
  {
    match header
    case None => None
    case Some(h) => BearerToken(h)
  }

  function Check(header: Option<string>, verify: string -> Verified): (r: CheckReply)
    ensures r.status == 200 <==> PresentedToken(header).Some? && verify(PresentedToken(header).value).Accepted?
    ensures r.status == 200 ==> r.user == Some(verify(PresentedToken(header).value).claims) && r.error.None?
    ensures r.status != 200 ==> r.status == 401 && r.user.None?
    ensures r.error.Some? <==> PresentedToken(header).Some? && verify(PresentedToken(header).value).Rejected?
    ensures r.error.Some? ==> r.error.value == verify(PresentedToken(header).value).message
  {
    var token := RouteToken(header);
    if token.None? || token.value == "" then CheckReply(401, None, None)
    else match verify(token.value)
      case Rejected(message) => CheckReply(401, None, Some(message))
      case Accepted(decoded) => CheckReply(200, Some(decoded), None)
  }

  /** The route and the middleware accept the same requests with the same
      payload; where the middleware answers 403 (verification failed) the
      route answers 401 with the error message, and where the middleware
      answers 401 so does the route, without a message. */
  lemma RouteVersusMiddleware(header: Option<string>, verify: string -> Verified)
    ensures var g := AuthMiddleware.Authenticate(header, verify);
      var r := Check(header, verify);
      && (g.Pass? <==> r.status == 200)
      && (g.Pass? ==> r.user == Some(g.user))
      && (g == Deny(403) <==> r.status == 401 && r.error.Some?)
      && (g == Deny(401) <==> r.status == 401 && r.error.None?)
  {
  }
}
