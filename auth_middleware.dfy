/** `middleware/auth.js`: the stand-alone copy of `authenticateToken`. */
module AuthMiddleware {
  import opened Common
  import opened Auth

  /** 401 without a header or without a (non-empty) second word, 403 when
      verification fails, otherwise `next()` with `req.user` set to the
      decoded payload. */
  function Authenticate(header: Option<string>, verify: string -> Verified): (g: Gate)
    ensures g.Pass? <==> PresentedToken(header).Some? && verify(PresentedToken(header).value).Accepted?
    ensures g.Pass? ==> g.user == verify(PresentedToken(header).value).claims
    ensures g.Deny? ==> g.status in {401, 403}
    ensures g == Deny(401) <==> PresentedToken(header).None?
    ensures g == Deny(403) <==> PresentedToken(header).Some? && verify(PresentedToken(header).value).Rejected?
  {
    if header.None? || header.value == "" then Deny(401)
    else
      var token := BearerToken(header.value);
      if token.None? || token.value == "" then Deny(401)
      else match verify(token.value)
        case Rejected(_) => Deny(403)
        case Accepted(user) => Pass(user)
  }

  /** The middleware decides exactly as the copy inlined in `index.js`,
      for every header and every verification outcome. */
  lemma AgreesWithInline(header: Option<string>, verify: string -> Verified)
    ensures Authenticate(header, verify) == AuthenticateInline(header, verify)
  {
  }
}
