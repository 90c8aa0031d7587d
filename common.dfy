/** Values shared by every part of the model: request fields with their
    JavaScript truthiness, the claims a bearer token carries, the outcome
    of verifying a token, and which storage query (if any) fails. */
module Common {

  datatype Option<+T> = None | Some(value: T)

  /** A field of a JSON request body: absent (or null), a string, or a number. */
  datatype Value = Missing | Text(s: string) | Number(n: int)

  /** JavaScript truthiness of a body field: absent, "" and 0 are falsy. */
  predicate Truthy(v: Value)
  {
    match v
    case Missing => false
    case Text(s) => s != ""
    case Number(n) => n != 0
  }

  /** The payload a token carries: `{ user_Id }`. Issue time and expiry
      belong to the token library and are not modelled. */
  datatype Claims = Claims(userId: nat)

  /** What `jwt.verify` hands to its callback: an error (with its message)
      or the decoded payload. */
  datatype Verified = Rejected(message: string) | Accepted(claims: Claims)

  /** Storage availability during one request: every query succeeds, or
      the query with the given position (0 = the handler's first query)
      reports an error. */
  datatype Outage = Healthy | FailsAt(query: nat)

  predicate Fails(o: Outage, query: nat)
  {
    o.FailsAt? && o.query == query
  }
}
