/** The client-side authentication helpers of frontend/src/lib/authentication.ts
    and its older copy src/lib/authentication.ts. The two files define
    `validateUserCredentials` and `validateUserPassword` identically; they
    differ in `authenticateUser` (a login call against fetching the user
    list) and `validateUserSession` (a local check against a list lookup).
    Every server reply is an input. */
module Authentication {
  import opened Common
  import opened UserModel

  /** The stored email and password equal the trimmed inputs. */
  predicate Matches(u: User, email: string, password: string) {
    u.email == Trim(email) && u.password == Trim(password)
  }

  /** `validateUserCredentials`: the first user matching both the trimmed
      email and the trimmed password, else null. */
  function ValidateUserCredentials(users: seq<User>, email: string, password: string): (r: Option<User>)
    ensures r.None? <==> forall k :: 0 <= k < |users| ==> !Matches(users[k], email, password)
    ensures r.Some? ==> exists k :: 0 <= k < |users| && users[k] == r.value && Matches(r.value, email, password)
                                    && forall j :: 0 <= j < k ==> !Matches(users[j], email, password)
  {
    if users == [] then None
    else if Matches(users[0], email, password) then Some(users[0])
    else
      var r := ValidateUserCredentials(users[1..], email, password);
      if r.Some? then
        ghost var k :| 0 <= k < |users[1..]| && users[1..][k] == r.value && Matches(r.value, email, password)
                       && forall j :: 0 <= j < k ==> !Matches(users[1..][j], email, password);
        assert users[k + 1] == r.value;
        r
      else r
  }

  /** `validateUserPassword`: the first user whose password is the trimmed
      input, whatever the email. */
  function ValidateUserPassword(users: seq<User>, password: string): (r: Option<User>)
    ensures r.None? <==> forall k :: 0 <= k < |users| ==> users[k].password != Trim(password)
    ensures r.Some? ==> exists k :: 0 <= k < |users| && users[k] == r.value && r.value.password == Trim(password)
                                    && forall j :: 0 <= j < k ==> users[j].password != Trim(password)
  {
    if users == [] then None
    else if users[0].password == Trim(password) then Some(users[0])
    else
      var r := ValidateUserPassword(users[1..], password);
      if r.Some? then
        ghost var k :| 0 <= k < |users[1..]| && users[1..][k] == r.value && r.value.password == Trim(password)
                       && forall j :: 0 <= j < k ==> users[1..][j].password != Trim(password);
        assert users[k + 1] == r.value;
        r
      else r
  }

  /** Whenever the credentials match someone, the password-only lookup
      finds someone too, though it may be a different user who shares the
      password and comes earlier in the list. */
  lemma PasswordLookupIsWeaker(users: seq<User>, email: string, password: string)
    ensures ValidateUserCredentials(users, email, password).Some? ==> ValidateUserPassword(users, password).Some?
  {
    if ValidateUserCredentials(users, email, password).Some? {
      var k :| 0 <= k < |users| && Matches(users[k], email, password);
      assert users[k].password == Trim(password);
    }
  }

  /** What `authenticateUser` resolves to. */
  datatype AuthResponse = Success(user: User) | Failure(message: string)

  /** The fields of the login request body: the trimmed email and password. */
  datatype LoginRequest = LoginRequest(email: string, password: string, action: string)

  function LoginRequestFor(email: string, password: string): (r: LoginRequest)
    ensures r.email == Trim(email) && r.password == Trim(password) && r.action == "login"
  {
    LoginRequest(Trim(email), Trim(password), "login")
  }

  /** The reply to the login call: an HTTP answer or a thrown error. */
  datatype LoginReply =
    | Answer(ok: bool, statusLine: string, success: bool, user: Option<User>, message: Option<string>)
    | Thrown(error: string)

  /** The newer `authenticateUser`'s decision: success exactly when the
      reply is ok and carries both `success` and `user`. */
  function AuthenticateUser(reply: LoginReply): (r: AuthResponse)
    ensures r.Success? <==> reply.Answer? && reply.ok && reply.success && reply.user.Some?
    ensures r.Success? ==> r.user == reply.user.value
    ensures reply.Answer? && reply.ok && !(reply.success && reply.user.Some?) ==>
      r == Failure(if Truthy(reply.message) then reply.message.value
                   else "Invalid email or password. Please check your credentials and try again.")
  {
    match reply
    case Thrown(error) => Failure(error)
    case Answer(ok, statusLine, success, user, message) =>
      if !ok then Failure("Login failed: " + statusLine)
      else if success && user.Some? then Success(user.value)
      else Failure(OrEmpty(OrElse(message, Some("Invalid email or password. Please check your credentials and try again."))))
  }

  /** The newer `validateUserSession`: a local check, no request. False
      exactly when the user, its id or its email is missing or empty. */
  function ValidateUserSession(user: Option<User>): (r: bool)
    ensures r <==> user.Some? && user.value.id != "" && user.value.email != ""
  {
    match user
    case None => false
    case Some(u) => u.id != "" && u.email != ""
  }

  /** The reply to the session-validation call. */
  datatype SessionReply = SessionAnswer(ok: bool, valid: Option<bool>) | SessionThrown

  /** `validateSessionWithBackend`: whether a request is made, and the
      verdict. An empty token is refused without a request. */
  function ValidateSessionWithBackend(sessionToken: string, reply: SessionReply): (r: (bool, bool))
    ensures sessionToken == "" ==> r == (false, false)
    ensures sessionToken != "" ==> r.0
    ensures r.1 <==> sessionToken != "" && reply == SessionAnswer(true, Some(true))
  {
    if sessionToken == "" then (false, false)
    else (true, reply.SessionAnswer? && reply.ok && reply.valid == Some(true))
  }

  /** The reply to the older code's fetch of the user list. */
  datatype ListReply = ListOk(users: seq<User>) | ListNotOk(statusLine: string) | ListThrown(error: string)

  /** The older `authenticateUser`: the user list is fetched and searched
      with the same test as `validateUserCredentials`. */
  function LegacyAuthenticateUser(email: string, password: string, reply: ListReply): (r: AuthResponse)
    ensures r.Success? <==> reply.ListOk? && ValidateUserCredentials(reply.users, email, password).Some?
    ensures r.Success? ==> r.user == ValidateUserCredentials(reply.users, email, password).value
                           && Matches(r.user, email, password)
  {
    match reply
    case ListThrown(error) => Failure(error)
    case ListNotOk(statusLine) => Failure("Failed to fetch users: " + statusLine)
    case ListOk(users) =>
      match ValidateUserCredentials(users, email, password)
      case Some(u) => Success(u)
      case None => Failure("Invalid email or password. Please check your credentials and try again.")
  }

  /** The older `validateUserSession`: true exactly when the fetched list
      holds a user with the same id; a failed fetch gives false. */
  function LegacyValidateUserSession(user: User, reply: ListReply): (r: bool)
    ensures r <==> reply.ListOk? && exists k :: 0 <= k < |reply.users| && reply.users[k].id == user.id
  {
    reply.ListOk? && FindById(reply.users, user.id).Some?
  }
}
