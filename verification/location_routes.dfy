/** The location router, backend/src/routes/location.js: the handlers run
    after `authenticateTokenOrApiKey` (and, for the update, `validate`)
    have let the request through. Each is one sequential step on the
    store; a database failure between two writes is an input. */
module LocationRoutes {
  import opened Common
  import opened Coordinates
  import opened Store
  import opened UserResponse
  import opened AuthMiddleware

  /** The fields of a validated `/update` body the handler reads. */
  datatype LocationBody = LocationBody(
    coordinates: string,
    city: Option<string>,
    state: Option<string>,
    country: Option<string>,
    userIdSnake: Option<string>,
    userIdCamel: Option<string>)

  /** `user_id || userId || (req.user ? req.user.id : null)`, `None` when
      the result is falsy. */
  function TargetId(body: LocationBody, user: Option<Claims>): (r: Option<string>)
    ensures r.Some? ==> r.value != ""
    ensures Truthy(body.userIdSnake) ==> r == body.userIdSnake
    ensures !Truthy(body.userIdSnake) && Truthy(body.userIdCamel) ==> r == body.userIdCamel
    ensures r.None? <==> (!Truthy(body.userIdSnake) && !Truthy(body.userIdCamel)
                          && (user.None? || user.value.id == ""))
  {
    if Truthy(body.userIdSnake) then body.userIdSnake
    else if Truthy(body.userIdCamel) then body.userIdCamel
    else if user.Some? && user.value.id != "" then Some(user.value.id)
    else None
  }

  /** The row `UPDATE users SET coordinates = ?, city = ?, state = ?,
      country = ?` writes, before `updated_at`: an absent place name is
      stored as ''. */
  function Relocated(row: UserRow, body: LocationBody): (r: UserRow)
    ensures r.id == row.id && r.name == row.name && r.email == row.email && r.password == row.password
    ensures r.createdAt == row.createdAt && r.updatedAt == row.updatedAt
    ensures r.coordinates == Some(body.coordinates)
    ensures body.city.None? ==> r.city == Some("")
    ensures body.city.Some? ==> r.city == body.city
    ensures body.state.None? ==> r.state == Some("")
    ensures body.state.Some? ==> r.state == body.state
    ensures body.country.None? ==> r.country == Some("")
    ensures body.country.Some? ==> r.country == body.country
  {
    row.(coordinates := Some(body.coordinates), city := Some(OrEmpty(body.city)),
         state := Some(OrEmpty(body.state)), country := Some(OrEmpty(body.country)))
  }

  /** The history row the update appends, before its id and timestamp. */
  predicate SnapshotOf(row: HistoryRow, id: string, body: LocationBody) {
    row.userId == id && row.coordinates == body.coordinates && row.city == OrEmpty(body.city)
    && row.state == OrEmpty(body.state) && row.country == OrEmpty(body.country)
  }

  /** POST `/update`. 400 without a target id and 404 for an unknown one,
      writing nothing (there is no permission check and no range check).
      Otherwise the user row is updated and then one history row appended:
      two writes, so when the insert fails (`insertFails`, answered 500 by
      the error handler) the first write stays. */
  method UpdateLocation(db: Database, body: LocationBody, user: Option<Claims>,
                        insertFails: bool, nf: NumberSyntax)
    returns (status: nat, message: string, response: Option<UserJson>)
    requires db.Valid()
    modifies db
    ensures db.Valid()
    ensures TargetId(body, user).None? ==>
      status == 400 && message == "User ID is required" && unchanged(db) && response.None?
    ensures TargetId(body, user).Some? && TargetId(body, user).value !in old(db.users) ==>
      status == 404 && message == "User not found" && unchanged(db) && response.None?
    ensures TargetId(body, user).Some? && TargetId(body, user).value in old(db.users) ==>
      var id := TargetId(body, user).value;
      && db.users == old(db.users)[id := Relocated(old(db.users)[id], body).(updatedAt := old(db.clock) + 1)]
      && db.order == old(db.order)
      && (insertFails ==> status == 500 && response.None? && db.history == old(db.history))
      && (!insertFails ==>
            && status == 200 && message == "Location updated successfully"
            && |db.history| == |old(db.history)| + 1
            && db.history[..|old(db.history)|] == old(db.history)
            && SnapshotOf(db.history[|old(db.history)|], id, body)
            && response == Some(FormatUserResponse(db.users[id], nf)))
  {
    var target := TargetId(body, user);
    if target.None? {
      return 400, "User ID is required", None;
    }
    var id := target.value;
    if id !in db.users {
      return 404, "User not found", None;
    }
    OwnEmailFree(db.users, db.order, db.clock, id);
    var ok := db.UpdateRow(Relocated(db.users[id], body));
    assert ok;
    if insertFails {
      return 500, "Internal Server Error", None;
    }
    ghost var before := db.history;
    var row := db.InsertHistory(id, body.coordinates, OrEmpty(body.city), OrEmpty(body.state),
                                OrEmpty(body.country));
    assert db.history[..|before|] == before;
    status, message := 200, "Location updated successfully";
    response := Some(FormatUserResponse(db.users[id], nf));
  }

  /** The location update answers with the stored user: pinned exactly when
      the submitted text reads as two numbers, with no range check. */
  lemma UpdatedUserPinned(row: UserRow, body: LocationBody, nf: NumberSyntax)
    ensures FormatUserResponse(Relocated(row, body), nf).pinned
      <==> StoredLocation(Some(body.coordinates), nf).Some?
    ensures FormatUserResponse(Relocated(row, body), nf).id == row.id
  {
  }

  /** `parseInt(x)` of a query parameter, with its default when absent. */
  function OrDefault(x: Option<int>, default: int): int {
    if x.Some? then x.value else default
  }

  /** A user's history rows, newest first. */
  function NewestRowsOf(h: seq<HistoryRow>, userId: string): (r: seq<HistoryRow>)
    ensures |r| == |Select(h, IdIs(userId))|
    ensures forall x :: x in r <==> x in h && x.userId == userId
  {
    Reverse(Select(h, IdIs(userId)))
  }

  /** The rows of a history page belong to the user, are newest first and
      number at most `limit`. */
  lemma HistoryPage(h: seq<HistoryRow>, userId: string, limit: int, offset: int)
    requires Chronological(h)
    ensures forall x :: x in Page(NewestRowsOf(h, userId), limit, offset) ==> x in h && x.userId == userId
    ensures limit >= 0 ==> |Page(NewestRowsOf(h, userId), limit, offset)| <= limit
    ensures NewestFirstRows(Page(NewestRowsOf(h, userId), limit, offset))
  {
    SelectChronological(h, IdIs(userId));
    NewestFirst(Select(h, IdIs(userId)));
    PageMembers(NewestRowsOf(h, userId), limit, offset);
    PageOrdered(NewestRowsOf(h, userId), limit, offset, Newer);
  }

  /** GET `/history/:userId`: 404 for an unknown user; otherwise a page of
      that user's rows, newest first (LIMIT `limit`, default 50, OFFSET
      `offset`, default 0), their total, and whether `total > offset + limit`. */
  method History(db: Database, userId: string, limit: Option<int>, offset: Option<int>)
    returns (status: nat, locations: seq<HistoryRow>, total: nat, hasMore: bool)
    requires db.Valid()
    ensures userId !in db.users ==> status == 404 && locations == []
    ensures userId in db.users ==>
      && status == 200
      && locations == Page(NewestRowsOf(db.history, userId), OrDefault(limit, 50), OrDefault(offset, 0))
      && total == |Select(db.history, IdIs(userId))|
      && hasMore == (total > OrDefault(offset, 0) + OrDefault(limit, 50))
  {
    if userId !in db.users {
      return 404, [], 0, false;
    }
    var l, o := OrDefault(limit, 50), OrDefault(offset, 0);
    var rows := NewestRowsOf(db.history, userId);
    locations := Page(rows, l, o);
    total := |Select(db.history, IdIs(userId))|;
    hasMore := total > o + l;
    status := 200;
  }

  /** The joined rows, newest first. */
  function NewestJoined(h: seq<HistoryRow>, users: map<string, UserRow>): seq<JoinedRow> {
    Reverse(JoinUsers(h, users))
  }

  /** `a` was recorded no earlier than `b`. */
  predicate NotOlder(a: JoinedRow, b: JoinedRow) {
    a.row.timestamp >= b.row.timestamp
  }

  /** Timestamps never increase along the joined rows. */
  predicate JoinedNewestFirst(rows: seq<JoinedRow>) {
    OrderedBy(rows, NotOlder)
  }

  /** The reversed join of a chronological table is newest first. */
  lemma NewestJoinedOrdered(h: seq<HistoryRow>, users: map<string, UserRow>)
    requires Chronological(h)
    ensures JoinedNewestFirst(NewestJoined(h, users))
  {
    JoinChronological(h, users);
    ReversedNewestFirst(JoinUsers(h, users));
  }

  /** Joined rows whose timestamps never decrease, reversed, are newest first. */
  lemma ReversedNewestFirst(joined: seq<JoinedRow>)
    requires forall i, j :: 0 <= i < j < |joined| ==> joined[i].row.timestamp <= joined[j].row.timestamp
    ensures JoinedNewestFirst(Reverse(joined))
  {
    var rows := Reverse(joined);
    forall i, j | 0 <= i < j < |rows|
      ensures NotOlder(rows[i], rows[j])
    {
      assert rows[i] == joined[|joined| - 1 - i] && rows[j] == joined[|joined| - 1 - j];
    }
  }

  /** Every row of `/all` carries its user's current name and email, the
      page is newest first and holds at most `limit` rows. */
  lemma AllRecent(h: seq<HistoryRow>, users: map<string, UserRow>, limit: int)
    requires Chronological(h)
    ensures forall x :: x in Page(NewestJoined(h, users), limit, 0) ==>
      x.row in h && x.row.userId in users && x.userName == users[x.row.userId].name
      && x.userEmail == users[x.row.userId].email
    ensures limit >= 0 ==> |Page(NewestJoined(h, users), limit, 0)| <= limit
    ensures JoinedNewestFirst(Page(NewestJoined(h, users), limit, 0))
  {
    PageMembers(NewestJoined(h, users), limit, 0);
    NewestJoinedOrdered(h, users);
    PageOrdered(NewestJoined(h, users), limit, 0, NotOlder);
  }

  /** GET `/all`: the newest `limit` rows (default 100) of the join with
      `users`, and their count. */
  method All(db: Database, limit: Option<int>) returns (locations: seq<JoinedRow>, count: nat)
    requires db.Valid()
    ensures locations == Page(NewestJoined(db.history, db.users), OrDefault(limit, 100), 0)
    ensures count == |locations|
  {
    locations := Page(NewestJoined(db.history, db.users), OrDefault(limit, 100), 0);
    count := |locations|;
  }

  /** DELETE `/history/:userId`: 404 for an unknown user, writing nothing;
      otherwise exactly that user's rows are removed and counted. */
  method ClearHistory(db: Database, userId: string) returns (status: nat, deletedCount: nat)
    requires db.Valid()
    modifies db
    ensures db.Valid()
    ensures userId !in old(db.users) ==> status == 404 && unchanged(db)
    ensures userId in old(db.users) ==>
      && status == 200
      && db.history == Select(old(db.history), Not(IdIs(userId)))
      && deletedCount == |Select(old(db.history), IdIs(userId))|
      && db.users == old(db.users) && db.order == old(db.order)
  {
    if userId !in db.users {
      return 404, 0;
    }
    deletedCount := db.DeleteHistory(IdIs(userId));
    status := 200;
  }

  /** After clearing, the user has no rows left and every other user's
      rows are as they were. */
  lemma ClearedHistory(h: seq<HistoryRow>, userId: string, other: string)
    requires other != userId
    ensures Select(Select(h, Not(IdIs(userId))), IdIs(userId)) == []
    ensures Select(Select(h, Not(IdIs(userId))), IdIs(other)) == Select(h, IdIs(other))
  {
    OtherUsersRowsKept(h, userId, other);
  }
}
