/** The auth router, backend/src/routes/auth.js: login, register and token
    verification. `bcrypt.hash`/`bcrypt.compare`, `jwt.sign`/`jwt.verify`
    and `randomUUID` are parameters. */
module AuthRoutes {
  import opened Common
  import opened Coordinates
  import opened Store
  import opened UserResponse
  import opened AuthMiddleware

  /** The claims `generateToken` signs: exactly id, email and name. */
  function TokenClaims(row: UserRow): (c: Claims)
    ensures c.id == row.id && c.email == row.email && c.name == row.name
  {
    Claims(row.id, row.email, row.name)
  }

  /** A token signed for a user, sent back as `Bearer <token>`, lets the
      middleware through with that user's claims, provided `verify` undoes
      `sign` and the token is non-empty with no space. */
  lemma IssuedTokenAuthenticates(row: UserRow, sign: Claims -> string, verify: Verifier)
    requires verify(sign(TokenClaims(row))) == Some(TokenClaims(row))
    requires sign(TokenClaims(row)) != "" && ' ' !in sign(TokenClaims(row))
    ensures AuthenticateToken(Some("Bearer " + sign(TokenClaims(row))), verify) == Next(Some(TokenClaims(row)))
  {
    BearerRoundTrip(sign(TokenClaims(row)));
  }

  /** Some stored row has `email`. */
  predicate EmailStored(users: map<string, UserRow>, email: string) {
    exists id | id in users :: users[id].email == email
  }

  /** `SELECT * FROM users WHERE email = ?` finds the one row with that
      email, when there is one. */
  lemma LookupByEmail(users: map<string, UserRow>, ids: seq<string>, clock: nat, email: string)
    requires UsersWellFormed(users, ids, clock)
    ensures IdWithEmail(users, ids, email).None? <==> !EmailStored(users, email)
    ensures forall id | id in users && users[id].email == email :: IdWithEmail(users, ids, email) == Some(id)
  {
    if EmailStored(users, email) {
      var id :| id in users && users[id].email == email;
      var k :| 0 <= k < |ids| && ids[k] == id;
    }
  }

  /** POST `/login`: the same 401 for an unknown email and for a wrong
      password, writing nothing. Otherwise a token for the user, one write
      touching only `updated_at`, and the user as read before that write. */
  method Login(db: Database, email: string, password: string,
               matches: (string, string) -> bool, sign: Claims -> string, nf: NumberSyntax)
    returns (status: nat, message: string, user: Option<UserJson>, token: Option<string>)
    requires db.Valid()
    modifies db
    ensures db.Valid()
    ensures !EmailStored(old(db.users), email) ==>
      status == 401 && message == "Invalid email or password" && unchanged(db) && token.None?
    ensures forall id | id in old(db.users) && old(db.users)[id].email == email ::
      var row := old(db.users)[id];
      && (!matches(password, row.password) ==>
            status == 401 && message == "Invalid email or password" && unchanged(db) && token.None?)
      && (matches(password, row.password) ==>
            && status == 200 && message == "Login successful"
            && token == Some(sign(TokenClaims(row)))
            && db.clock == old(db.clock) + 1
            && db.users == old(db.users)[id := row.(updatedAt := db.clock)]
            && db.order == old(db.order) && db.history == old(db.history)
            && user == Some(FormatUserResponse(row, nf)))
    ensures status != 200 ==> user.None?
  {
    LookupByEmail(db.users, db.order, db.clock, email);
    var found := IdWithEmail(db.users, db.order, email);
    if found.None? {
      return 401, "Invalid email or password", None, None;
    }
    var row := db.users[found.value];
    if !matches(password, row.password) {
      return 401, "Invalid email or password", None, None;
    }
    token := Some(sign(TokenClaims(row)));
    OwnEmailFree(db.users, db.order, db.clock, row.id);
    var ok := db.UpdateRow(row);
    assert ok;
    status, message := 200, "Login successful";
    user := Some(FormatUserResponse(row, nf));
  }

  /** The row `INSERT INTO users (id, name, email, password)` creates, before
      its timestamps: the other columns are NULL. */
  function NewUser(id: string, name: string, email: string, hashed: string): UserRow {
    UserRow(id, name, email, hashed, None, None, None, None, 0, 0)
  }

  /** A newly registered user has no coordinates, so no pin. */
  lemma NewUserUnpinned(id: string, name: string, email: string, hashed: string, nf: NumberSyntax)
    ensures FormatUserResponse(NewUser(id, name, email, hashed), nf).location.None?
    ensures !FormatUserResponse(NewUser(id, name, email, hashed), nf).pinned
    ensures FormatUserResponse(NewUser(id, name, email, hashed), nf).id == id
  {
  }

  /** POST `/register`: 409 when the email is stored, writing nothing.
      Otherwise one row under the drawn id, holding the hash of the
      password, answered 201 with a token. A drawn id that is already
      stored fails the PRIMARY KEY, answered 500 with no write. */
  method Register(db: Database, name: string, email: string, password: string, freshId: string,
                  hash: string -> string, sign: Claims -> string, nf: NumberSyntax)
    returns (status: nat, message: string, user: Option<UserJson>, token: Option<string>)
    requires db.Valid()
    modifies db
    ensures db.Valid()
    ensures EmailStored(old(db.users), email) ==>
      status == 409 && message == "User with this email already exists" && unchanged(db) && token.None?
    ensures !EmailStored(old(db.users), email) && freshId in old(db.users) ==>
      status == 500 && db.users == old(db.users) && db.order == old(db.order) && token.None?
    ensures !EmailStored(old(db.users), email) && freshId !in old(db.users) ==>
      && status == 201 && message == "User registered successfully"
      && db.clock == old(db.clock) + 1
      && db.users == old(db.users)[freshId := NewUser(freshId, name, email, hash(password))
                                                .(createdAt := db.clock, updatedAt := db.clock)]
      && db.order == old(db.order) + [freshId]
      && db.users[freshId].password == hash(password)
      && user == Some(FormatUserResponse(db.users[freshId], nf))
      && token == Some(sign(Claims(freshId, email, name)))
    ensures db.history == old(db.history)
  {
    LookupByEmail(db.users, db.order, db.clock, email);
    var existing := IdWithEmail(db.users, db.order, email);
    if existing.Some? {
      return 409, "User with this email already exists", None, None;
    }
    var hashed := hash(password);
    var ok := db.InsertRow(NewUser(freshId, name, email, hashed));
    if !ok {
      return 500, "SQLITE_CONSTRAINT: UNIQUE constraint failed: users.id", None, None;
    }
    var newUser := db.users[freshId];
    token := Some(sign(TokenClaims(newUser)));
    status, message := 201, "User registered successfully";
    user := Some(FormatUserResponse(newUser, nf));
  }

  /** A freshly registered user can log in: their email now leads to their
      row, whose stored hash the password matches when `matches` accepts
      `hash`'s output. */
  lemma RegisteredCanLogIn(users: map<string, UserRow>, ids: seq<string>, clock: nat,
                           id: string, name: string, email: string, password: string,
                           hash: string -> string, matches: (string, string) -> bool)
    requires UsersWellFormed(users, ids, clock)
    requires id in users && users[id] == NewUser(id, name, email, hash(password)).(createdAt := clock, updatedAt := clock)
    requires matches(password, hash(password))
    ensures EmailStored(users, email)
    ensures IdWithEmail(users, ids, email) == Some(id)
    ensures matches(password, users[IdWithEmail(users, ids, email).value].password)
  {
    LookupByEmail(users, ids, clock, email);
  }

  /** GET `/verify`: 401 without a credential, 403 when it does not verify,
      404 when the decoded id is no longer stored, else the current user.
      It reaches the same 401/403 split as the `authenticateToken`
      middleware, with its own 403 message. */
  method VerifyToken(db: Database, header: Option<string>, verify: Verifier, nf: NumberSyntax)
    returns (status: nat, message: string, user: Option<UserJson>)
    requires db.Valid()
    ensures !Truthy(BearerCredential(header)) ==> status == 401 && message == "No token provided"
    ensures Truthy(BearerCredential(header)) ==>
      var decoded := verify(BearerCredential(header).value);
      && (decoded.None? ==> status == 403 && message == "Invalid or expired token")
      && (decoded.Some? && decoded.value.id !in db.users ==> status == 404 && message == "User not found")
      && (decoded.Some? && decoded.value.id in db.users ==>
            status == 200 && user == Some(FormatUserResponse(db.users[decoded.value.id], nf)))
    ensures AuthenticateToken(header, verify).Reject? ==> status == AuthenticateToken(header, verify).status
    ensures status == 200 ==> AuthenticateToken(header, verify).Next?
    ensures status != 200 ==> user.None?
  {
    var credential := BearerCredential(header);
    if !Truthy(credential) {
      return 401, "No token provided", None;
    }
    var decoded := verify(credential.value);
    if decoded.None? {
      return 403, "Invalid or expired token", None;
    }
    if decoded.value.id !in db.users {
      return 404, "User not found", None;
    }
    status, message := 200, "Token is valid";
    user := Some(FormatUserResponse(db.users[decoded.value.id], nf));
  }
}
