/**
 * The bearer-token gate placed in front of every owner route: it reads the
 * `Authorization` header, takes the token out of it, and either denies the
 * request with 401 or hands the verified identity on to the route.
 */
module Auth {
  import opened Wrappers
  import opened Text
  import opened FileModel

  /** The `user` claim of a token: `{ id }`. */
  datatype Identity = Identity(id: UserId)

  /** What a successful signature check returns. */
  datatype Claims = Claims(user: Identity)

  /** Exactly one of: a 401 reply (the route is not run), or the route runs with `req.user` set. */
  datatype Outcome = Deny(status: nat, msg: string) | Proceed(user: Identity)

  const BearerPrefix := "Bearer "
  const Unauthenticated: nat := 401
  const NoTokenMsg := "No token, authorization denied"
  const InvalidTokenMsg := "Token is not valid"

  /**
   * `header.split(' ')[1]` for a header that starts with `Bearer `: the text
   * after the prefix up to the next space, possibly empty.
   */
  function HeaderToken(header: string): (token: string)
    requires StartsWith(header, BearerPrefix)
    ensures ' ' !in token
    ensures StartsWith(header[|BearerPrefix|..], token)
    ensures |BearerPrefix| + |token| < |header| ==> header[|BearerPrefix| + |token|] == ' '
  {
    var rest := header[|BearerPrefix|..];
    assert header == "Bearer" + [' '] + rest;
    SplitAfterHead("Bearer", ' ', rest);
    SplitFirst(rest, ' ');
    Split(header, ' ')[1]
  }

  /**
   * The middleware. `header` is the `Authorization` header (None when absent);
   * `verify` stands for the token signature check under the server secret,
   * returning the decoded claims or None where it throws.
   */
  function Authenticate(header: Option<string>, verify: string -> Option<Claims>): (r: Outcome)
    ensures r.Deny? ==> r.status == Unauthenticated
    ensures header.None? || !StartsWith(header.value, BearerPrefix) ==>
      r == Deny(Unauthenticated, NoTokenMsg)
    ensures header.Some? && StartsWith(header.value, BearerPrefix) ==>
      match verify(HeaderToken(header.value))
      case None => r == Deny(Unauthenticated, InvalidTokenMsg)
      case Some(claims) => r == Proceed(claims.user)
    ensures r.Proceed? <==>
      header.Some? && StartsWith(header.value, BearerPrefix)
      && verify(HeaderToken(header.value)).Some?
  {
    if header.None? || !StartsWith(header.value, BearerPrefix) then
      Deny(Unauthenticated, NoTokenMsg)
    else
      match verify(HeaderToken(header.value))
      case None => Deny(Unauthenticated, InvalidTokenMsg)
      case Some(decoded) => Proceed(decoded.user)
  }

  /** Two spaces after `Bearer` put an empty segment at index 1. */
  lemma DoubleSpaceGivesEmptyToken()
    ensures HeaderToken("Bearer  x") == ""
  {
  }

  /** The token is everything after the prefix when it holds no space. */
  lemma SingleSegmentToken(token: string)
    requires ' ' !in token
    ensures StartsWith(BearerPrefix + token, BearerPrefix)
    ensures HeaderToken(BearerPrefix + token) == token
  {
  }

  /** The prefix check is case-sensitive: a lower-case scheme is denied before verification. */
  lemma LowerCaseSchemeDenied(token: string, verify: string -> Option<Claims>)
    ensures Authenticate(Some("bearer " + token), verify) == Deny(Unauthenticated, NoTokenMsg)
  {
  }
}
