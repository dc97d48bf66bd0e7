/** The users router, backend/src/routes/users.js: list, get, partial
    update, delete and the per-user location listing, each run after
    `authenticateTokenOrApiKey` (and `validate` for the update). */
module UsersRoutes {
  import opened Common
  import opened Coordinates
  import opened Store
  import opened UserResponse

  /** Every stored user, formatted, newest first. */
  function Listing(users: map<string, UserRow>, ids: seq<string>, nf: NumberSyntax): (r: seq<UserJson>)
    requires forall id :: id in ids ==> id in users
    ensures |r| == |ids|
    ensures forall k :: 0 <= k < |r| ==> r[k] == FormatUserResponse(UsersNewestFirst(users, ids)[k], nf)
  {
    var rows := UsersNewestFirst(users, ids);
    seq(|rows|, k requires 0 <= k < |rows| => FormatUserResponse(rows[k], nf))
  }

  /** GET `/`: every user, newest `created_at` first, with the count. */
  method ListUsers(db: Database, nf: NumberSyntax) returns (users: seq<UserJson>, count: nat)
    requires db.Valid()
    ensures users == Listing(db.users, db.order, nf)
    ensures count == |users| == |db.users|
  {
    ListingIsComplete(db.users, db.order, db.clock);
    users := Listing(db.users, db.order, nf);
    count := |users|;
  }

  /** The listing shows every stored user exactly once, newest first. */
  lemma ListingShowsEveryone(users: map<string, UserRow>, ids: seq<string>, clock: nat, nf: NumberSyntax)
    requires UsersWellFormed(users, ids, clock)
    ensures |Listing(users, ids, nf)| == |users|
    ensures forall id | id in users :: FormatUserResponse(users[id], nf) in Listing(users, ids, nf)
    ensures forall i, j :: 0 <= i < j < |Listing(users, ids, nf)| ==>
      Listing(users, ids, nf)[i].createdAt >= Listing(users, ids, nf)[j].createdAt
  {
    var rows := UsersNewestFirst(users, ids);
    var r := Listing(users, ids, nf);
    ListingIsComplete(users, ids, clock);
    forall id | id in users
      ensures FormatUserResponse(users[id], nf) in r
    {
      var k :| 0 <= k < |rows| && rows[k] == users[id];
      assert r[k] == FormatUserResponse(users[id], nf);
    }
  }

  /** GET `/user/:id`: 404 for an unknown id, else the formatted user. */
  method GetUser(db: Database, id: string, nf: NumberSyntax) returns (status: nat, user: Option<UserJson>)
    requires db.Valid()
    ensures id !in db.users ==> status == 404 && user.None?
    ensures id in db.users ==> status == 200 && user == Some(FormatUserResponse(db.users[id], nf))
  {
    if id !in db.users {
      return 404, None;
    }
    return 200, Some(FormatUserResponse(db.users[id], nf));
  }

  /** The fields of a validated PUT body; `None` is a field left out. */
  datatype UserPatch = UserPatch(
    name: Option<string>,
    email: Option<string>,
    coordinates: Option<string>,
    city: Option<string>,
    state: Option<string>,
    country: Option<string>)

  /** `updates.length === 0`: the body names none of the six columns. */
  predicate NoFields(p: UserPatch) {
    p.name.None? && p.email.None? && p.coordinates.None? && p.city.None? && p.state.None? && p.country.None?
  }

  /** The row the dynamic `UPDATE users SET ...` writes, before
      `updated_at`: each present field replaces its column. */
  function Patched(row: UserRow, p: UserPatch): (r: UserRow)
    ensures r.id == row.id && r.password == row.password
    ensures r.createdAt == row.createdAt && r.updatedAt == row.updatedAt
    ensures r.name == (if p.name.Some? then p.name.value else row.name)
    ensures r.email == (if p.email.Some? then p.email.value else row.email)
    ensures r.coordinates == (if p.coordinates.Some? then p.coordinates else row.coordinates)
    ensures r.city == (if p.city.Some? then p.city else row.city)
    ensures r.state == (if p.state.Some? then p.state else row.state)
    ensures r.country == (if p.country.Some? then p.country else row.country)
  {
    var r := if p.name.Some? then row.(name := p.name.value) else row;
    var r := if p.email.Some? then r.(email := p.email.value) else r;
    var r := if p.coordinates.Some? then r.(coordinates := p.coordinates) else r;
    var r := if p.city.Some? then r.(city := p.city) else r;
    var r := if p.state.Some? then r.(state := p.state) else r;
    if p.country.Some? then r.(country := p.country) else r
  }

  /** A body with no fields writes no column; applying a body twice is
      applying it once. */
  lemma PatchLaws(row: UserRow, p: UserPatch)
    ensures NoFields(p) ==> Patched(row, p) == row
    ensures Patched(Patched(row, p), p) == Patched(row, p)
  {
  }

  /** PUT `/user/:id`. 404 for an unknown id; 409 when a truthy email
      differing from the current one is another user's; 400 'No valid
      fields to update' when the body names no column; each with no write.
      Otherwise the present fields and `updated_at` are written. A falsy
      email skips the 409 check, so one held by another user reaches the
      UNIQUE constraint, and the error handler answers 500. */
  method UpdateUser(db: Database, id: string, p: UserPatch, nf: NumberSyntax)
    returns (status: nat, message: string, user: Option<UserJson>)
    requires db.Valid()
    modifies db
    ensures db.Valid()
    ensures id !in old(db.users) ==> status == 404 && message == "User not found" && unchanged(db)
    ensures id in old(db.users) && Truthy(p.email) && p.email.value != old(db.users)[id].email
            && EmailTaken(old(db.users), p.email.value, id) ==>
      status == 409 && message == "Email already taken by another user" && unchanged(db)
    ensures id in old(db.users) && NoFields(p) ==>
      status == 400 && message == "No valid fields to update" && unchanged(db)
    ensures status == 200 ==>
      && id in old(db.users) && !NoFields(p)
      && db.clock == old(db.clock) + 1
      && db.users == old(db.users)[id := Patched(old(db.users)[id], p).(updatedAt := db.clock)]
      && user == Some(FormatUserResponse(db.users[id], nf))
    ensures status != 200 ==> db.users == old(db.users) && user.None?
    ensures id in old(db.users) && !NoFields(p) && !EmailTaken(old(db.users), Patched(old(db.users)[id], p).email, id)
      ==> status == 200
    ensures db.order == old(db.order) && db.history == old(db.history)
  {
    if id !in db.users {
      return 404, "User not found", None;
    }
    var existing := db.users[id];
    if Truthy(p.email) && p.email.value != existing.email && EmailTaken(db.users, p.email.value, id) {
      return 409, "Email already taken by another user", None;
    }
    if NoFields(p) {
      OwnEmailFree(db.users, db.order, db.clock, id);
      return 400, "No valid fields to update", None;
    }
    var ok := db.UpdateRow(Patched(existing, p));
    if !ok {
      return 500, "SQLITE_CONSTRAINT: UNIQUE constraint failed: users.email", None;
    }
    status, message := 200, "User updated successfully";
    user := Some(FormatUserResponse(db.users[id], nf));
  }

  /** The UNIQUE constraint can refuse the write only when the body brings
      an email other than the current one: exactly the emails the 409 check
      looks at, except the empty one. */
  lemma UniqueClashNeedsNewEmail(users: map<string, UserRow>, ids: seq<string>, clock: nat,
                                  id: string, p: UserPatch)
    requires UsersWellFormed(users, ids, clock) && id in users
    requires EmailTaken(users, Patched(users[id], p).email, id)
    ensures p.email.Some? && p.email.value != users[id].email
  {
    OwnEmailFree(users, ids, clock, id);
  }

  /** DELETE `/user/:id`: 404 for an unknown id, writing nothing; else the
      user's history rows are deleted and then the user row. */
  method DeleteUser(db: Database, id: string) returns (status: nat, message: string)
    requires db.Valid()
    modifies db
    ensures db.Valid()
    ensures id !in old(db.users) ==> status == 404 && unchanged(db)
    ensures id in old(db.users) ==>
      && status == 200 && message == "User deleted successfully"
      && db.history == Select(old(db.history), Not(IdIs(id)))
      && db.users == (map u | u in old(db.users) && u != id :: old(db.users)[u])
      && db.order == SelectIds(old(db.order), Not(IdIs(id)))
  {
    if id !in db.users {
      return 404, "User not found";
    }
    var removed := db.DeleteHistory(IdIs(id));
    db.DeleteUsers(IdIs(id));
    status, message := 200, "User deleted successfully";
  }

  /** After a delete the user and their rows are gone, while every other
      user keeps their row and their rows. */
  lemma DeleteKeepsOthers(users: map<string, UserRow>, h: seq<HistoryRow>, id: string, other: string)
    requires other != id
    ensures id !in (map u | u in users && u != id :: users[u])
    ensures other in users ==> (map u | u in users && u != id :: users[u])[other] == users[other]
    ensures Select(Select(h, Not(IdIs(id))), IdIs(other)) == Select(h, IdIs(other))
    ensures forall x :: x in Select(h, Not(IdIs(id))) ==> x.userId != id
  {
    OtherUsersRowsKept(h, id, other);
    forall x | x in Select(h, Not(IdIs(id)))
      ensures x.userId != id
    {
      assert x in h && Holds(Not(IdIs(id)), x.userId);
      assert !Holds(IdIs(id), x.userId);
    }
  }

  /** GET `/user/:id/locations`: 404 for an unknown id; else all and only
      that user's history rows, newest first, with the count. */
  method UserLocations(db: Database, id: string) returns (status: nat, locations: seq<HistoryRow>, count: nat)
    requires db.Valid()
    ensures id !in db.users ==> status == 404 && locations == []
    ensures id in db.users ==>
      && status == 200
      && (forall x :: x in locations <==> x in db.history && x.userId == id)
      && NewestFirstRows(locations)
      && multiset(locations) == multiset(Select(db.history, IdIs(id)))
      && count == |locations|
  {
    if id !in db.users {
      return 404, [], 0;
    }
    SelectChronological(db.history, IdIs(id));
    NewestFirst(Select(db.history, IdIs(id)));
    locations := Reverse(Select(db.history, IdIs(id)));
    count := |locations|;
    status := 200;
  }
}
