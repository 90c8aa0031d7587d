/** The bearer-header gate of `index.js` (`authenticateToken`) and the
    header parsing all three copies of the gate share:
    `authHeader.split(' ')[1]`. Token verification is the parameter
    `verify`, standing for `jwt.verify` with the process-wide secret. */
module Auth {
  import opened Common

  /** JavaScript `s.split(sep)` for a one-character separator: every
      separator ends a piece, so adjacent separators give empty pieces. */
  function Split(s: string, sep: char): (parts: seq<string>)
    ensures |parts| >= 1
    ensures forall i :: 0 <= i < |parts| ==> sep !in parts[i]
    ensures Join(parts, sep) == s
  {
    if |s| == 0 then [""]
    else
      var rest := Split(s[1..], sep);
      if s[0] == sep then
        assert s == [sep] + s[1..];
        [""] + rest
      else
        var parts := [[s[0]] + rest[0]] + rest[1..];
        assert parts[1..] == rest[1..];
        assert s == [s[0]] + s[1..];
        parts
  }

  /** `parts.join(sep)`. */
  function Join(parts: seq<string>, sep: char): string
    requires |parts| >= 1
  {
    if |parts| == 1 then parts[0] else parts[0] + [sep] + Join(parts[1..], sep)
  }

  /** Splitting a word that has no separator, followed by a separator and
      more text, gives the word and then the pieces of the text. */
  lemma {:induction false} SplitAfterWord(w: string, sep: char, tail: string)
    requires sep !in w
    ensures Split(w, sep) == [w]
    ensures Split(w + [sep] + tail, sep) == [w] + Split(tail, sep)
  {
    if |w| > 0 {
      SplitAfterWord(w[1..], sep, tail);
      assert (w + [sep] + tail)[1..] == w[1..] + [sep] + tail;
      assert w == [w[0]] + w[1..];
    } else {
      assert w + [sep] + tail == [sep] + tail;
    }
  }

  /** Splitting undoes joining pieces that hold no separator. */
  lemma {:induction false} SplitJoin(parts: seq<string>, sep: char)
    requires |parts| >= 1
    requires forall i :: 0 <= i < |parts| ==> sep !in parts[i]
    ensures Split(Join(parts, sep), sep) == parts
  {
    if |parts| == 1 {
      SplitAfterWord(parts[0], sep, "");
    } else {
      SplitJoin(parts[1..], sep);
      SplitAfterWord(parts[0], sep, Join(parts[1..], sep));
    }
  }

  /** `authHeader.split(' ')[1]`: the second space-separated word, absent
      (`undefined`) when the header has no space. */
  function BearerToken(header: string): (r: Option<string>)
    ensures r.Some? <==> ' ' in header
    ensures r.Some? ==> ' ' !in r.value
  {
    var parts := Split(header, ' ');
    if |parts| >= 2 then
      assert Join(parts, ' ') == parts[0] + [' '] + Join(parts[1..], ' ');
      assert header[|parts[0]|] == ' ';
      Some(parts[1])
    else None
  }

  /** A header without a space yields no token. */
  lemma NoSpaceNoToken(header: string)
    requires ' ' !in header
    ensures BearerToken(header) == None
  {
  }

  /** Whatever the first word is ("Bearer", "Basic", anything), the token
      is the text after the first space up to the next space, if any:
      "Basic abc" yields "abc", "Bearer  x" yields "", and the scheme word
      is never inspected. */
  lemma TokenAfterFirstSpace(scheme: string, token: string, rest: string)
    requires ' ' !in scheme && ' ' !in token
    ensures BearerToken(scheme + " " + token) == Some(token)
    ensures BearerToken(scheme + " " + token + " " + rest) == Some(token)
  {
    SplitAfterWord(scheme, ' ', token);
    SplitAfterWord(token, ' ', "");
    SplitAfterWord(scheme, ' ', token + " " + rest);
    SplitAfterWord(token, ' ', rest);
    assert scheme + " " + token + " " + rest == scheme + [' '] + (token + [' '] + rest);
  }

  /** The token a request presents: the second word of a non-empty
      header, when that word is non-empty. */
  function PresentedToken(header: Option<string>): (r: Option<string>)
    ensures r.Some? <==> header.Some? && BearerToken(header.value).Some? && BearerToken(header.value).value != ""
    ensures r.Some? ==> r == BearerToken(header.value) && r.value != "" && ' ' !in r.value
  {
    if header.None? || header.value == "" then None
    else match BearerToken(header.value)
      case None => None
      case Some(t) => if t == "" then None else Some(t)
  }

  /** The gate's decision: stop with a status, or call `next()` once with
      `req.user` set to the decoded payload. */
  datatype Gate = Deny(status: nat) | Pass(user: Claims)

  /** `authenticateToken` of `index.js`: 401 without a header or without
      a (non-empty) token, 403 when verification fails, and otherwise
      passes with the verified claims. */
  function AuthenticateInline(header: Option<string>, verify: string -> Verified): (g: Gate)
    ensures g == Deny(401) <==> PresentedToken(header).None?
    ensures g == Deny(403) <==> PresentedToken(header).Some? && verify(PresentedToken(header).value).Rejected?
    ensures g.Pass? <==> PresentedToken(header).Some? && verify(PresentedToken(header).value).Accepted?
    ensures g.Pass? ==> g.user == verify(PresentedToken(header).value).claims
  {
    if header.None? || header.value == "" then Deny(401)
    else
      var token := BearerToken(header.value);
      if token.None? || token.value == "" then Deny(401)
      else match verify(token.value)
        case Rejected(_) => Deny(403)
        case Accepted(user) => Pass(user)
  }

  /** A well-formed "Bearer <token>" header passes exactly when the token
      verifies, and then carries that token's claims. */
  lemma BearerHeaderPasses(token: string, verify: string -> Verified)
    requires token != "" && ' ' !in token
    ensures AuthenticateInline(Some("Bearer " + token), verify)
         == match verify(token)
            case Rejected(_) => Deny(403)
            case Accepted(user) => Pass(user)
  {
    TokenAfterFirstSpace("Bearer", token, "");
    assert "Bearer " + token == "Bearer" + " " + token;
    assert PresentedToken(Some("Bearer " + token)) == Some(token);
  }
}
