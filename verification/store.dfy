/** The two SQLite tables of the backend (`users` and `location_updates`,
    backend/src/database/database.js), held in memory, and the SQL
    statements the route handlers run on them. CURRENT_TIMESTAMP is a
    counter that every write advances by one. */
module Store {
  import opened Common

  /** A row of `users`. `coordinates`, `city`, `state` and `country` may be
      NULL; `createdAt` and `updatedAt` are clock readings. */
  datatype UserRow = UserRow(
    id: string,
    name: string,
    email: string,
    password: string,
    coordinates: Option<string>,
    city: Option<string>,
    state: Option<string>,
    country: Option<string>,
    createdAt: nat,
    updatedAt: nat)

  /** A row of `location_updates`; `id` is the AUTOINCREMENT key. */
  datatype HistoryRow = HistoryRow(
    id: nat,
    userId: string,
    coordinates: string,
    city: string,
    state: string,
    country: string,
    timestamp: nat)

  /** A `WHERE` condition on a user id: `= ?`, `LIKE '<prefix>%'` (which
      ignores the case of ASCII letters) and negation. */
  datatype Where = IdIs(id: string) | IdLike(prefix: string) | Not(w: Where)

  predicate Holds(w: Where, id: string) {
    match w
    case IdIs(x) => id == x
    case IdLike(p) => StartsWith(ToLower(id), ToLower(p))
    case Not(v) => !Holds(v, id)
  }

  // ---------------------------------------------------------------------
  // location_updates
  // ---------------------------------------------------------------------

  /** The history rows whose user id satisfies `w`, in table order. */
  function Select(h: seq<HistoryRow>, w: Where): (r: seq<HistoryRow>)
    ensures |r| <= |h|
    ensures forall x :: x in r <==> x in h && Holds(w, x.userId)
  {
    if h == [] then []
    else if Holds(w, h[0].userId) then [h[0]] + Select(h[1..], w)
    else Select(h[1..], w)
  }

  /** The rows a condition selects and the rows it leaves add up to the table. */
  lemma {:induction false} SelectSplitsTable(h: seq<HistoryRow>, w: Where)
    ensures |Select(h, w)| + |Select(h, Not(w))| == |h|
  {
    if h != [] {
      SelectSplitsTable(h[1..], w);
    }
  }

  /** Removing one user's rows leaves every other user's rows as they were. */
  lemma {:induction false} OtherUsersRowsKept(h: seq<HistoryRow>, u: string, v: string)
    requires u != v
    ensures Select(Select(h, Not(IdIs(u))), IdIs(v)) == Select(h, IdIs(v))
  {
    if h != [] {
      OtherUsersRowsKept(h[1..], u, v);
      var kept := Select(h, Not(IdIs(u)));
      if h[0].userId != u {
        assert Holds(Not(IdIs(u)), h[0].userId);
        assert kept == [h[0]] + Select(h[1..], Not(IdIs(u)));
        assert kept[1..] == Select(h[1..], Not(IdIs(u)));
      }
    }
  }

  /** Row ids increase and timestamps never decrease along the table. */
  predicate Chronological(h: seq<HistoryRow>) {
    forall i, j :: 0 <= i < j < |h| ==> h[i].id < h[j].id && h[i].timestamp <= h[j].timestamp
  }

  /** A selection keeps the table's order. */
  lemma {:induction false} SelectChronological(h: seq<HistoryRow>, w: Where)
    requires Chronological(h)
    ensures Chronological(Select(h, w))
  {
    if h != [] {
      SelectChronological(h[1..], w);
      assert Chronological(h[1..]);
      if Holds(w, h[0].userId) {
        var r := Select(h, w);
        assert r == [h[0]] + Select(h[1..], w);
        forall i, j | 0 <= i < j < |r|
          ensures r[i].id < r[j].id && r[i].timestamp <= r[j].timestamp
        {
          if i == 0 {
            assert r[j] in h[1..];
          }
        }
      }
    }
  }

  /** Every row stands in relation `before` to each later row. */
  predicate OrderedBy<T>(rows: seq<T>, before: (T, T) -> bool) {
    forall i, j :: 0 <= i < j < |rows| ==> before(rows[i], rows[j])
  }

  /** `a` is a later history row than `b`: a larger id, a timestamp no earlier. */
  predicate Newer(a: HistoryRow, b: HistoryRow) {
    a.id > b.id && a.timestamp >= b.timestamp
  }

  /** Row ids decrease and timestamps never increase along the rows. */
  predicate NewestFirstRows(rows: seq<HistoryRow>) {
    OrderedBy(rows, Newer)
  }

  /** Reversed, a chronological table lists the newest row first. */
  lemma NewestFirst(h: seq<HistoryRow>)
    requires Chronological(h)
    ensures NewestFirstRows(Reverse(h))
    ensures multiset(Reverse(h)) == multiset(h)
  {
    ReversePermutes(h);
  }

  // ---------------------------------------------------------------------
  // LIMIT / OFFSET
  // ---------------------------------------------------------------------

  /** Where `OFFSET offset` starts in `n` rows: a negative offset counts as 0. */
  function PageStart(offset: int, n: nat): (s: nat)
    ensures s <= n
    ensures 0 <= offset <= n ==> s == offset
  {
    if offset < 0 then 0 else if offset > n then n else offset
  }

  /** `LIMIT limit OFFSET offset`: a negative limit means no limit. */
  function Page<T>(rows: seq<T>, limit: int, offset: int): (r: seq<T>)
    ensures limit >= 0 ==> |r| <= limit
    ensures limit >= 0 ==> |r| == if limit < |rows| - PageStart(offset, |rows|) then limit
                                  else |rows| - PageStart(offset, |rows|)
    ensures limit < 0 ==> |r| == |rows| - PageStart(offset, |rows|)
    ensures forall k :: 0 <= k < |r| ==> r[k] == rows[PageStart(offset, |rows|) + k]
  {
    var s := PageStart(offset, |rows|);
    var e := if limit < 0 || s + limit > |rows| then |rows| else s + limit;
    rows[s..e]
  }

  /** A page holds only rows of the table. */
  lemma PageMembers<T>(rows: seq<T>, limit: int, offset: int)
    ensures forall x :: x in Page(rows, limit, offset) ==> x in rows
  {
    var page := Page(rows, limit, offset);
    forall x | x in page
      ensures x in rows
    {
      var k :| 0 <= k < |page| && page[k] == x;
    }
  }

  /** A page keeps the order of the rows it is cut from: a page of
      newest-first rows is newest first. */
  lemma PageOrdered<T>(rows: seq<T>, limit: int, offset: int, before: (T, T) -> bool)
    requires OrderedBy(rows, before)
    ensures OrderedBy(Page(rows, limit, offset), before)
  {
    var page := Page(rows, limit, offset);
    var s := PageStart(offset, |rows|);
    forall i, j | 0 <= i < j < |page|
      ensures before(page[i], page[j])
    {
      assert page[i] == rows[s + i] && page[j] == rows[s + j];
    }
  }

  /** `total > offset + limit` holds exactly when rows remain after the page. */
  lemma HasMoreIffRowsRemain<T>(rows: seq<T>, limit: int, offset: int)
    requires limit >= 0 && offset >= 0
    ensures |rows| > offset + limit <==> PageStart(offset, |rows|) + |Page(rows, limit, offset)| < |rows|
  {
  }

  // ---------------------------------------------------------------------
  // users
  // ---------------------------------------------------------------------

  predicate Distinct(ids: seq<string>) {
    forall i, j :: 0 <= i < j < |ids| ==> ids[i] != ids[j]
  }

  /** The ids of `ids` that satisfy `w`, in order. */
  function SelectIds(ids: seq<string>, w: Where): (r: seq<string>)
    ensures |r| <= |ids|
    ensures forall x :: x in r <==> x in ids && Holds(w, x)
  {
    if ids == [] then []
    else if Holds(w, ids[0]) then [ids[0]] + SelectIds(ids[1..], w)
    else SelectIds(ids[1..], w)
  }

  /** Creation times never decrease along the insertion order. */
  predicate CreatedInOrder(users: map<string, UserRow>, ids: seq<string>) {
    forall i, j :: 0 <= i < j < |ids| && ids[i] in users && ids[j] in users ==>
      users[ids[i]].createdAt <= users[ids[j]].createdAt
  }

  /** A selection of ids keeps them distinct and in creation order. */
  lemma {:induction false} SelectIdsOrdered(users: map<string, UserRow>, ids: seq<string>, w: Where)
    requires Distinct(ids) && CreatedInOrder(users, ids)
    ensures Distinct(SelectIds(ids, w)) && CreatedInOrder(users, SelectIds(ids, w))
  {
    if ids != [] {
      assert Distinct(ids[1..]) && CreatedInOrder(users, ids[1..]);
      SelectIdsOrdered(users, ids[1..], w);
      if Holds(w, ids[0]) {
        var r := SelectIds(ids, w);
        assert r == [ids[0]] + SelectIds(ids[1..], w);
        forall i, j | 0 <= i < j < |r|
          ensures r[i] != r[j]
          ensures r[i] in users && r[j] in users ==> users[r[i]].createdAt <= users[r[j]].createdAt
        {
          if i == 0 {
            assert r[j] in ids[1..];
          }
        }
      }
    }
  }

  /** A list of distinct ids is as long as the set of its elements. */
  lemma {:induction false} DistinctCount(ids: seq<string>)
    requires Distinct(ids)
    ensures |set x | x in ids| == |ids|
  {
    if ids != [] {
      assert Distinct(ids[1..]);
      DistinctCount(ids[1..]);
      assert (set x | x in ids) == {ids[0]} + (set x | x in ids[1..]);
      assert ids[0] !in ids[1..];
    }
  }

  /** The stored rows, well formed at clock reading `clock`: each keyed by
      its own id, emails unique, `ids` lists every key once, in creation
      order, and no timestamp lies in the future. */
  ghost predicate UsersWellFormed(users: map<string, UserRow>, ids: seq<string>, clock: nat) {
    (forall id | id in users :: users[id].id == id && users[id].createdAt <= clock && users[id].updatedAt <= clock)
    && (forall a, b | a in users && b in users && users[a].email == users[b].email :: a == b)
    && (forall id :: id in users <==> id in ids)
    && Distinct(ids)
    && CreatedInOrder(users, ids)
  }

  /** Deleting the users a condition selects keeps the table well formed. */
  lemma DeletedUsersWellFormed(users: map<string, UserRow>, ids: seq<string>, clock: nat, w: Where)
    requires UsersWellFormed(users, ids, clock)
    ensures UsersWellFormed(map id | id in users && !Holds(w, id) :: users[id], SelectIds(ids, Not(w)), clock)
  {
    SelectIdsOrdered(users, ids, Not(w));
    var kept := map id | id in users && !Holds(w, id) :: users[id];
    assert CreatedInOrder(kept, SelectIds(ids, Not(w)));
  }

  /** The history table, well formed: chronological, every id below the
      next AUTOINCREMENT value and no timestamp in the future. */
  predicate HistoryWellFormed(h: seq<HistoryRow>, nextId: nat, clock: nat) {
    Chronological(h) && forall k :: 0 <= k < |h| ==> h[k].id < nextId && h[k].timestamp <= clock
  }

  /** Some row other than `id`'s already has `email`. */
  predicate EmailTaken(users: map<string, UserRow>, email: string, id: string) {
    exists other | other in users :: other != id && users[other].email == email
  }

  /** A stored row's own email is never taken by another row. */
  lemma OwnEmailFree(users: map<string, UserRow>, ids: seq<string>, clock: nat, id: string)
    requires UsersWellFormed(users, ids, clock) && id in users
    ensures !EmailTaken(users, users[id].email, id)
  {
  }

  /** The id of the row with `email`, found along `ids`. */
  function IdWithEmail(users: map<string, UserRow>, ids: seq<string>, email: string): (r: Option<string>)
    ensures r.Some? ==> r.value in ids && r.value in users && users[r.value].email == email
    ensures r.None? ==> forall k :: 0 <= k < |ids| && ids[k] in users ==> users[ids[k]].email != email
  {
    if ids == [] then None
    else if ids[0] in users && users[ids[0]].email == email then Some(ids[0])
    else IdWithEmail(users, ids[1..], email)
  }

  /** `SELECT * FROM users ORDER BY created_at DESC`: latest insert first. */
  function UsersNewestFirst(users: map<string, UserRow>, ids: seq<string>): (r: seq<UserRow>)
    requires forall id :: id in ids ==> id in users
    ensures |r| == |ids|
    ensures forall k :: 0 <= k < |r| ==> r[k] == users[ids[|ids| - 1 - k]]
  {
    Reverse(seq(|ids|, k requires 0 <= k < |ids| => users[ids[k]]))
  }

  /** The listing holds every stored row exactly once, newest first. */
  lemma ListingIsComplete(users: map<string, UserRow>, ids: seq<string>, clock: nat)
    requires UsersWellFormed(users, ids, clock)
    ensures |UsersNewestFirst(users, ids)| == |users|
    ensures forall id | id in users :: users[id] in UsersNewestFirst(users, ids)
    ensures forall i, j :: 0 <= i < j < |ids| ==>
      UsersNewestFirst(users, ids)[i].createdAt >= UsersNewestFirst(users, ids)[j].createdAt
  {
    ListingCount(users, ids);
    ListingHasAll(users, ids);
    ListingOrdered(users, ids);
  }

  /** As many rows as ids, when the ids are the distinct keys. */
  lemma ListingCount(users: map<string, UserRow>, ids: seq<string>)
    requires Distinct(ids) && forall id :: id in users <==> id in ids
    ensures |users| == |ids|
  {
    DistinctCount(ids);
    assert users.Keys == set x | x in ids;
  }

  /** Every stored row appears in the listing. */
  lemma ListingHasAll(users: map<string, UserRow>, ids: seq<string>)
    requires forall id :: id in users <==> id in ids
    ensures forall id | id in users :: users[id] in UsersNewestFirst(users, ids)
  {
    var r := UsersNewestFirst(users, ids);
    forall id | id in users
      ensures users[id] in r
    {
      var k :| 0 <= k < |ids| && ids[k] == id;
      assert r[|ids| - 1 - k] == users[id];
    }
  }

  /** Ids in creation order give a listing whose `created_at` never increases. */
  lemma ListingOrdered(users: map<string, UserRow>, ids: seq<string>)
    requires forall id :: id in ids ==> id in users
    requires CreatedInOrder(users, ids)
    ensures forall i, j :: 0 <= i < j < |ids| ==>
      UsersNewestFirst(users, ids)[i].createdAt >= UsersNewestFirst(users, ids)[j].createdAt
  {
    var r := UsersNewestFirst(users, ids);
    forall i, j | 0 <= i < j < |ids|
      ensures r[i].createdAt >= r[j].createdAt
    {
      assert r[i] == users[ids[|ids| - 1 - i]] && r[j] == users[ids[|ids| - 1 - j]];
    }
  }

  /** A row of `/all`: the history row with its user's name and email. */
  datatype JoinedRow = JoinedRow(row: HistoryRow, userName: string, userEmail: string)

  /** `location_updates JOIN users ON user_id = id`, in table order. */
  function JoinUsers(h: seq<HistoryRow>, users: map<string, UserRow>): (r: seq<JoinedRow>)
    ensures |r| <= |h|
    ensures forall x :: x in r ==>
      x.row in h && x.row.userId in users && x.userName == users[x.row.userId].name
      && x.userEmail == users[x.row.userId].email
    ensures forall x :: x in h && x.userId in users ==>
      JoinedRow(x, users[x.userId].name, users[x.userId].email) in r
  {
    if h == [] then []
    else if h[0].userId in users then
      [JoinedRow(h[0], users[h[0].userId].name, users[h[0].userId].email)] + JoinUsers(h[1..], users)
    else JoinUsers(h[1..], users)
  }

  /** In a chronological table every joined row of the tail is no older
      than the head. */
  lemma JoinedAfterHead(h: seq<HistoryRow>, users: map<string, UserRow>)
    requires Chronological(h) && h != []
    ensures forall x :: x in JoinUsers(h[1..], users) ==> h[0].timestamp <= x.row.timestamp
  {
    forall x | x in JoinUsers(h[1..], users)
      ensures h[0].timestamp <= x.row.timestamp
    {
      var m :| 0 <= m < |h[1..]| && h[1..][m] == x.row;
      assert h[m + 1] == x.row;
    }
  }

  /** The joined rows keep the table's order. */
  lemma {:induction false} JoinChronological(h: seq<HistoryRow>, users: map<string, UserRow>)
    requires Chronological(h)
    ensures forall i, j :: 0 <= i < j < |JoinUsers(h, users)| ==>
      JoinUsers(h, users)[i].row.timestamp <= JoinUsers(h, users)[j].row.timestamp
  {
    if h != [] {
      assert Chronological(h[1..]);
      JoinChronological(h[1..], users);
      if h[0].userId in users {
        var r := JoinUsers(h, users);
        var t := JoinUsers(h[1..], users);
        assert r == [JoinedRow(h[0], users[h[0].userId].name, users[h[0].userId].email)] + t;
        JoinedAfterHead(h, users);
        forall i, j | 0 <= i < j < |r|
          ensures r[i].row.timestamp <= r[j].row.timestamp
        {
          if i == 0 {
            assert r[j] == t[j - 1] && t[j - 1] in t;
          }
        }
      }
    }
  }

  /** The store: the `users` table (a map from id plus the ids in insertion
      order), the `location_updates` table, the next AUTOINCREMENT id and
      the clock. */
  class Database {
    var users: map<string, UserRow>
    var order: seq<string>
    var history: seq<HistoryRow>
    var nextHistoryId: nat
    var clock: nat

    ghost predicate Valid()
      reads this
    {
      UsersWellFormed(users, order, clock) && HistoryWellFormed(history, nextHistoryId, clock)
    }

    /** Freshly created tables. */
    constructor ()
      ensures Valid()
      ensures users == map[] && order == [] && history == [] && nextHistoryId == 1
    {
      users := map[];
      order := [];
      history := [];
      nextHistoryId := 1;
      clock := 0;
    }

    /** `UPDATE users SET ... , updated_at = CURRENT_TIMESTAMP WHERE id = ?`
        writing the columns of `row` other than `created_at`. The UNIQUE
        constraint on `email` makes it fail, writing nothing, when another
        row has the new email. */
    method UpdateRow(row: UserRow) returns (ok: bool)
      requires Valid() && row.id in users
      modifies this
      ensures Valid()
      ensures ok <==> !EmailTaken(old(users), row.email, row.id)
      ensures ok ==> clock == old(clock) + 1
      ensures ok ==> users == old(users)[row.id := row.(createdAt := old(users)[row.id].createdAt, updatedAt := clock)]
      ensures !ok ==> users == old(users) && clock == old(clock)
      ensures order == old(order) && history == old(history) && nextHistoryId == old(nextHistoryId)
    {
      if EmailTaken(users, row.email, row.id) {
        return false;
      }
      clock := clock + 1;
      users := users[row.id := row.(createdAt := users[row.id].createdAt, updatedAt := clock)];
      ok := true;
    }

    /** `INSERT INTO users`: fails, writing nothing, when the id (PRIMARY
        KEY) or the email (UNIQUE) is already stored. */
    method InsertRow(row: UserRow) returns (ok: bool)
      requires Valid()
      modifies this
      ensures Valid()
      ensures ok <==> row.id !in old(users) && !EmailTaken(old(users), row.email, row.id)
      ensures ok ==> clock == old(clock) + 1 && order == old(order) + [row.id]
      ensures ok ==> users == old(users)[row.id := row.(createdAt := clock, updatedAt := clock)]
      ensures !ok ==> users == old(users) && order == old(order) && clock == old(clock)
      ensures history == old(history) && nextHistoryId == old(nextHistoryId)
    {
      if row.id in users || EmailTaken(users, row.email, row.id) {
        return false;
      }
      clock := clock + 1;
      users := users[row.id := row.(createdAt := clock, updatedAt := clock)];
      order := order + [row.id];
      ok := true;
    }

    /** `INSERT INTO location_updates`: one new row, with the next id and the
        current time. The foreign key to `users` is not enforced. */
    method InsertHistory(userId: string, coordinates: string, city: string, state: string, country: string)
      returns (row: HistoryRow)
      requires Valid()
      modifies this
      ensures Valid()
      ensures clock == old(clock) + 1 && nextHistoryId == old(nextHistoryId) + 1
      ensures row == HistoryRow(old(nextHistoryId), userId, coordinates, city, state, country, clock)
      ensures history == old(history) + [row]
      ensures users == old(users) && order == old(order)
    {
      clock := clock + 1;
      row := HistoryRow(nextHistoryId, userId, coordinates, city, state, country, clock);
      history := history + [row];
      nextHistoryId := nextHistoryId + 1;
    }

    /** `DELETE FROM location_updates WHERE w`; `changes` is the number of
        rows removed. */
    method DeleteHistory(w: Where) returns (changes: nat)
      requires Valid()
      modifies this
      ensures Valid()
      ensures history == Select(old(history), Not(w))
      ensures changes == |Select(old(history), w)| == |old(history)| - |history|
      ensures users == old(users) && order == old(order)
      ensures clock == old(clock) && nextHistoryId == old(nextHistoryId)
    {
      SelectChronological(history, Not(w));
      SelectSplitsTable(history, w);
      changes := |Select(history, w)|;
      history := Select(history, Not(w));
    }

    /** `DELETE FROM users WHERE w`. */
    method DeleteUsers(w: Where)
      requires Valid()
      modifies this
      ensures Valid()
      ensures users == map id | id in old(users) && !Holds(w, id) :: old(users)[id]
      ensures order == SelectIds(old(order), Not(w))
      ensures history == old(history) && clock == old(clock) && nextHistoryId == old(nextHistoryId)
    {
      DeletedUsersWellFormed(users, order, clock, w);
      users := map id | id in users && !Holds(w, id) :: users[id];
      order := SelectIds(order, Not(w));
    }
  }
}
