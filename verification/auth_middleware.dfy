/** The backend's authentication middleware, backend/src/middleware/auth.js.
    `jwt.verify` with the server secret is a parameter (`Verifier`), and
    so are the configured API key and admin list. */
module AuthMiddleware {
  import opened Common

  /** The claims `generateToken` signs and `jwt.verify` gives back. */
  datatype Claims = Claims(id: string, email: string, name: string)

  /** `jwt.verify(token, secret)`: the decoded claims, or `None` where it
      throws (bad signature, malformed or expired token). */
  type Verifier = string -> Option<Claims>

  /** A middleware either calls `next()` (with `req.user`, when it set it)
      or ends the request with an error status and message. */
  datatype Outcome = Next(user: Option<Claims>) | Reject(status: nat, message: string)

  /** `authHeader && authHeader.split(' ')[1]`: the second space-separated
      word of the Authorization header, when there is one. */
  function BearerCredential(header: Option<string>): (r: Option<string>)
    ensures !Truthy(header) ==> r.None?
    ensures r.Some? ==> ' ' !in r.value
  {
    if !Truthy(header) then None
    else
      var words := SplitOn(header.value, " ");
      SplitPiecesAvoidSep(header.value, ' ');
      if |words| >= 2 then Some(words[1]) else None
  }

  /** The header the frontend sends, `"Bearer " + token`, carries the token. */
  lemma BearerRoundTrip(token: string)
    requires ' ' !in token
    ensures BearerCredential(Some("Bearer " + token)) == Some(token)
  {
    assert "Bearer " + token == "Bearer" + [' '] + token;
    SplitTwo("Bearer", token, ' ');
  }

  /** `authenticateToken`: 401 without a credential, 403 when it does not
      verify, otherwise `req.user` is the decoded claims. */
  function AuthenticateToken(header: Option<string>, verify: Verifier): (r: Outcome)
    ensures !Truthy(BearerCredential(header)) ==> r == Reject(401, "No token provided")
    ensures Truthy(BearerCredential(header)) ==>
      var claims := verify(BearerCredential(header).value);
      (claims.Some? ==> r == Next(claims)) && (claims.None? ==> r == Reject(403, "Token is not valid"))
  {
    var token := BearerCredential(header);
    if !Truthy(token) then Reject(401, "No token provided")
    else
      match verify(token.value)
      case Some(claims) => Next(Some(claims))
      case None => Reject(403, "Token is not valid")
  }

  /** `authenticateApiKey`: only a present credential equal to the
      configured key passes; `req.user` stays unset. An unset key admits
      nobody. */
  function AuthenticateApiKey(header: Option<string>, apiKey: Option<string>): (r: Outcome)
    ensures r.Next? <==> Truthy(BearerCredential(header)) && BearerCredential(header) == apiKey
    ensures r.Next? ==> r.user.None?
    ensures r.Reject? ==> r.status == 401
    ensures apiKey.None? ==> r.Reject?
  {
    var key := BearerCredential(header);
    if !Truthy(key) || key != apiKey then Reject(401, "Invalid or missing API key")
    else Next(None)
  }

  /** `authenticateTokenOrApiKey`: 401 without a credential; a credential
      equal to the API key passes at once, before any JWT check, and leaves
      `req.user` unset; otherwise it is verified as a JWT (403 on failure). */
  function AuthenticateTokenOrApiKey(header: Option<string>, apiKey: Option<string>, verify: Verifier): (r: Outcome)
    ensures !Truthy(BearerCredential(header)) ==> r == Reject(401, "No token provided")
    ensures Truthy(BearerCredential(header)) && BearerCredential(header) == apiKey ==> r == Next(None)
    ensures Truthy(BearerCredential(header)) && BearerCredential(header) != apiKey ==>
      r == AuthenticateToken(header, verify)
    ensures r.Next? && r.user.None? ==> AuthenticateApiKey(header, apiKey).Next?
  {
    var token := BearerCredential(header);
    if !Truthy(token) then Reject(401, "No token provided")
    else if token == apiKey then Next(None)
    else
      match verify(token.value)
      case Some(claims) => Next(Some(claims))
      case None => Reject(403, "Token is not valid")
  }

  /** `(process.env.ADMIN_EMAILS || '').split(',').map(e => e.trim())`. */
  function AdminEmails(setting: Option<string>): (r: seq<string>)
    ensures !Truthy(setting) ==> r == [""]
    ensures |r| == |SplitOn(OrEmpty(setting), ",")| >= 1
    ensures forall k :: 0 <= k < |r| ==> r[k] == Trim(SplitOn(OrEmpty(setting), ",")[k])
  {
    TrimAll(SplitOn(OrEmpty(setting), ","))
  }

  /** The `isAdmin` middleware: passes, leaving `req.user` as it was, iff
      there is a `req.user` whose email is on the list; else 403. */
  function IsAdmin(user: Option<Claims>, setting: Option<string>): (r: Outcome)
    ensures r.Next? <==> user.Some? && user.value.email in AdminEmails(setting)
    ensures r.Next? ==> r.user == user
    ensures r.Reject? ==> r == Reject(403, "Admin privileges required")
  {
    if user.Some? && user.value.email in AdminEmails(setting) then Next(user)
    else Reject(403, "Admin privileges required")
  }

  /** Requests admitted by API key carry no `req.user` and are never admin. */
  lemma ApiKeyRequestsAreNotAdmin(header: Option<string>, apiKey: Option<string>, verify: Verifier,
                                  setting: Option<string>)
    requires Truthy(BearerCredential(header)) && BearerCredential(header) == apiKey
    ensures IsAdmin(AuthenticateTokenOrApiKey(header, apiKey, verify).user, setting).Reject?
  {
  }

  /** With ADMIN_EMAILS unset the list is `[""]`: only an empty email passes. */
  lemma UnsetAdminList(user: Option<Claims>)
    ensures IsAdmin(user, None).Next? <==> user.Some? && user.value.email == ""
  {
  }
}
