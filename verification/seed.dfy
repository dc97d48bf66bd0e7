/** The seed script, backend/src/scripts/seed.js: its own coordinate check
    and the loop that clears the non-admin data and inserts the seed users,
    each with one history row. Hashing and `randomUUID` are parameters. */
module Seed {
  import opened Common
  import opened Coordinates
  import opened Store

  /** `x < bound` in JavaScript, where NaN (`None`) compares false. */
  predicate Less(x: Option<real>, bound: real) {
    x.Some? && x.value < bound
  }

  /** `x > bound`, false for NaN. */
  predicate Greater(x: Option<real>, bound: real) {
    x.Some? && x.value > bound
  }

  /** `validateCoordinates`: an absent or empty string passes; otherwise
      there must be exactly two ','-separated parts, and a part that is a
      number must be within range. A part that is not a number is NaN,
      which fails both comparisons, so it passes. */
  function ValidateCoordinates(coordinates: Option<string>, nf: NumberSyntax): (r: bool)
    ensures !Truthy(coordinates) ==> r
    ensures Truthy(coordinates) && |SplitOn(coordinates.value, ",")| != 2 ==> !r
    ensures Truthy(coordinates) && |SplitOn(coordinates.value, ",")| == 2 ==>
      var parts := SplitOn(coordinates.value, ",");
      var lng := nf.parse(Trim(parts[0]));
      var lat := nf.parse(Trim(parts[1]));
      (r <==> (lng.Some? ==> -180.0 <= lng.value <= 180.0) && (lat.Some? ==> -90.0 <= lat.value <= 90.0))
  {
    if !Truthy(coordinates) then true
    else
      var parts := SplitOn(coordinates.value, ",");
      if |parts| != 2 then false
      else
        var lng := nf.parse(Trim(parts[0]));
        var lat := nf.parse(Trim(parts[1]));
        if Less(lng, -180.0) || Greater(lng, 180.0) then false
        else if Less(lat, -90.0) || Greater(lat, 90.0) then false
        else true
  }

  /** An entry of the `seedUsers` table. */
  datatype SeedUser = SeedUser(
    name: string,
    email: string,
    password: string,
    coordinates: Option<string>,
    city: string,
    state: string,
    country: string)

  /** The seed users that pass `validateCoordinates`, each with the id
      drawn for it, in table order. */
  function Accepted(us: seq<SeedUser>, ids: seq<string>, nf: NumberSyntax): (r: seq<(string, SeedUser)>)
    requires |us| == |ids|
    ensures |r| <= |us|
  {
    if us == [] then []
    else
      var n := |us| - 1;
      Accepted(us[..n], ids[..n], nf)
        + (if ValidateCoordinates(us[n].coordinates, nf) then [(ids[n], us[n])] else [])
  }

  /** The history row of a seed user: same id, coordinates and place. */
  predicate SnapshotOf(row: HistoryRow, id: string, u: SeedUser) {
    u.coordinates.Some? && row.userId == id && row.coordinates == u.coordinates.value
    && row.city == u.city && row.state == u.state && row.country == u.country
  }

  /** The stored row of a seed user, with the password hashed. */
  predicate StoredAs(row: UserRow, id: string, u: SeedUser, hash: string -> string) {
    row.id == id && row.name == u.name && row.email == u.email && row.password == hash(u.password)
    && row.coordinates == u.coordinates && row.city == Some(u.city)
    && row.state == Some(u.state) && row.country == Some(u.country)
  }

  /** The ids of a list of accepted seed users. */
  function IdsOf(acc: seq<(string, SeedUser)>): set<string> {
    set k | 0 <= k < |acc| :: acc[k].0
  }

  /** The users the cleanup keeps: those whose id starts with 'admin-'. */
  function AdminUsers(users: map<string, UserRow>): (r: map<string, UserRow>)
    ensures forall id :: id in r <==> id in users && Holds(IdLike("admin-"), id)
    ensures forall id | id in r :: r[id] == users[id]
  {
    map id | id in users && Holds(IdLike("admin-"), id) :: users[id]
  }

  /** The tables after the cleanup left `u0` and `h0` and the users of
      `acc` were inserted: `u0` untouched, each accepted user stored, and
      one history row per accepted user appended, in order. */
  ghost predicate SeededFrom(users: map<string, UserRow>, history: seq<HistoryRow>,
                             u0: map<string, UserRow>, h0: seq<HistoryRow>,
                             acc: seq<(string, SeedUser)>, hash: string -> string)
  {
    && users.Keys == u0.Keys + IdsOf(acc)
    && (forall id | id in u0 :: id in users && users[id] == u0[id])
    && (forall k :: 0 <= k < |acc| ==> acc[k].0 in users && StoredAs(users[acc[k].0], acc[k].0, acc[k].1, hash))
    && |history| == |h0| + |acc|
    && history[..|h0|] == h0
    && (forall k :: 0 <= k < |acc| ==> SnapshotOf(history[|h0| + k], acc[k].0, acc[k].1))
  }

  /** One more accepted user, stored under a new id with its history row. */
  lemma SeededStep(users: map<string, UserRow>, history: seq<HistoryRow>,
                   u0: map<string, UserRow>, h0: seq<HistoryRow>,
                   acc: seq<(string, SeedUser)>, hash: string -> string,
                   id: string, u: SeedUser, row: UserRow, hrow: HistoryRow)
    requires SeededFrom(users, history, u0, h0, acc, hash)
    requires id !in users && StoredAs(row, id, u, hash) && SnapshotOf(hrow, id, u)
    ensures SeededFrom(users[id := row], history + [hrow], u0, h0, acc + [(id, u)], hash)
  {
    var acc' := acc + [(id, u)];
    assert IdsOf(acc') == IdsOf(acc) + {id} by {
      forall x | x in IdsOf(acc')
        ensures x in IdsOf(acc) + {id}
      {
        var k :| 0 <= k < |acc'| && acc'[k].0 == x;
        if k < |acc| {
          assert acc'[k] == acc[k];
        }
      }
      forall x | x in IdsOf(acc) + {id}
        ensures x in IdsOf(acc')
      {
        if x == id {
          assert acc'[|acc|].0 == id;
        } else {
          var k :| 0 <= k < |acc| && acc[k].0 == x;
          assert acc'[k] == acc[k];
        }
      }
    }
    assert (history + [hrow])[..|h0|] == history[..|h0|];
  }

  /** `Accepted` over one more seed user. */
  lemma AcceptedStep(us: seq<SeedUser>, ids: seq<string>, i: nat, nf: NumberSyntax)
    requires |us| == |ids| && i < |us|
    ensures Accepted(us[..i + 1], ids[..i + 1], nf) == Accepted(us[..i], ids[..i], nf)
      + (if ValidateCoordinates(us[i].coordinates, nf) then [(ids[i], us[i])] else [])
  {
    assert us[..i + 1][..i] == us[..i] && ids[..i + 1][..i] == ids[..i];
  }

  /** The two cleanup statements: `DELETE FROM location_updates WHERE
      user_id NOT LIKE 'admin-%'`, then the same on `users`. */
  method Cleanup(db: Database)
    requires db.Valid()
    modifies db
    ensures db.Valid()
    ensures db.users == AdminUsers(old(db.users))
    ensures db.history == Select(old(db.history), IdLike("admin-"))
  {
    var cleared := db.DeleteHistory(Not(IdLike("admin-")));
    db.DeleteUsers(Not(IdLike("admin-")));
    SameSelection(old(db.history), Not(Not(IdLike("admin-"))), IdLike("admin-"));
    CleanupKeepsAdmins(old(db.users));
  }

  /** One iteration of the seed loop: a user failing `validateCoordinates`
      is skipped; otherwise the user row and then its history row are
      inserted. `ok` is false when an insert fails: a duplicate id or email,
      or absent coordinates, which the NOT NULL history column refuses. */
  method SeedOne(db: Database, u: SeedUser, id: string, hash: string -> string, nf: NumberSyntax)
    returns (ok: bool, ghost row: HistoryRow)
    requires db.Valid()
    modifies db
    ensures db.Valid()
    ensures !ValidateCoordinates(u.coordinates, nf) ==>
      ok && db.users == old(db.users) && db.history == old(db.history)
    ensures ValidateCoordinates(u.coordinates, nf) ==>
      (ok <==> id !in old(db.users) && !EmailTaken(old(db.users), u.email, id) && u.coordinates.Some?)
    ensures ok && ValidateCoordinates(u.coordinates, nf) ==>
      && id !in old(db.users)
      && id in db.users && db.users == old(db.users)[id := db.users[id]]
      && StoredAs(db.users[id], id, u, hash)
      && db.history == old(db.history) + [row]
      && SnapshotOf(row, id, u)
    ensures !ok ==> db.history == old(db.history)
    ensures !ok && (id in old(db.users) || EmailTaken(old(db.users), u.email, id)) ==> db.users == old(db.users)
    ensures !ok && id !in old(db.users) && !EmailTaken(old(db.users), u.email, id) ==>
      && id in db.users && db.users == old(db.users)[id := db.users[id]]
      && StoredAs(db.users[id], id, u, hash)
  {
    row := HistoryRow(0, "", "", "", "", "", 0);
    if !ValidateCoordinates(u.coordinates, nf) {
      return true, row;
    }
    var stored := UserRow(id, u.name, u.email, hash(u.password), u.coordinates,
                          Some(u.city), Some(u.state), Some(u.country), 0, 0);
    ok := db.InsertRow(stored);
    if !ok {
      return false, row;
    }
    if u.coordinates.None? {
      return false, row;
    }
    row := db.InsertHistory(id, u.coordinates.value, u.city, u.state, u.country);
  }

  /** Accepted user `x` can be inserted after the kept users `u0` and the
      accepted users `before`: it has coordinates, and neither its id nor
      its email is held by any of them. */
  predicate Fits(u0: map<string, UserRow>, before: seq<(string, SeedUser)>, x: (string, SeedUser)) {
    && x.1.coordinates.Some?
    && x.0 !in u0
    && (forall id | id in u0 :: u0[id].email != x.1.email)
    && (forall j :: 0 <= j < |before| ==> before[j].0 != x.0 && before[j].1.email != x.1.email)
  }

  /** Every accepted user fits after those before it. */
  predicate SeedingSucceeds(u0: map<string, UserRow>, acc: seq<(string, SeedUser)>) {
    forall k :: 0 <= k < |acc| ==> Fits(u0, acc[..k], acc[k])
  }

  /** The accepted users of a prefix of the table are a prefix of the
      accepted users of the whole table. */
  lemma {:induction false} AcceptedPrefix(us: seq<SeedUser>, ids: seq<string>, i: nat, nf: NumberSyntax)
    requires |us| == |ids| && i <= |us|
    ensures Accepted(us[..i], ids[..i], nf) <= Accepted(us, ids, nf)
    decreases |us| - i
  {
    if i == |us| {
      assert us[..i] == us && ids[..i] == ids;
    } else {
      AcceptedStep(us, ids, i, nf);
      AcceptedPrefix(us, ids, i + 1, nf);
    }
  }

  /** Success of the whole seeding implies success of any prefix of it. */
  lemma SucceedsPrefix(u0: map<string, UserRow>, a: seq<(string, SeedUser)>, b: seq<(string, SeedUser)>)
    requires a <= b
    ensures SeedingSucceeds(u0, b) ==> SeedingSucceeds(u0, a)
  {
    if SeedingSucceeds(u0, b) {
      forall k | 0 <= k < |a| ensures Fits(u0, a[..k], a[k]) {
        assert a[..k] == b[..k] && a[k] == b[k];
        assert Fits(u0, b[..k], b[k]);
      }
    }
  }

  /** A user that fits after a successful prefix extends it. */
  lemma SucceedsStep(u0: map<string, UserRow>, acc: seq<(string, SeedUser)>, x: (string, SeedUser))
    requires SeedingSucceeds(u0, acc) && Fits(u0, acc, x)
    ensures SeedingSucceeds(u0, acc + [x])
  {
    var acc' := acc + [x];
    forall k | 0 <= k < |acc'| ensures Fits(u0, acc'[..k], acc'[k]) {
      if k < |acc| {
        assert acc'[..k] == acc[..k] && acc'[k] == acc[k];
      } else {
        assert acc'[..k] == acc;
      }
    }
  }

  /** An accepted user that does not fit after the users accepted before
      it makes the seeding of the whole table fail. */
  lemma FailureIsFinal(us: seq<SeedUser>, ids: seq<string>, i: nat, nf: NumberSyntax, u0: map<string, UserRow>)
    requires |us| == |ids| && i < |us|
    requires ValidateCoordinates(us[i].coordinates, nf)
    requires !Fits(u0, Accepted(us[..i], ids[..i], nf), (ids[i], us[i]))
    ensures !SeedingSucceeds(u0, Accepted(us, ids, nf))
  {
    var acc := Accepted(us[..i], ids[..i], nf);
    var acc' := acc + [(ids[i], us[i])];
    AcceptedStep(us, ids, i, nf);
    AcceptedPrefix(us, ids, i + 1, nf);
    assert acc'[..|acc|] == acc;
    assert !Fits(u0, acc'[..|acc|], acc'[|acc|]);
    SucceedsPrefix(u0, acc', Accepted(us, ids, nf));
  }

  /** In a seeded state where every accepted user fitted, a new user
      fits exactly when its insert succeeds: it has coordinates, and its
      id and email are free in the users table. */
  lemma FitsIffFree(users: map<string, UserRow>, history: seq<HistoryRow>,
                    u0: map<string, UserRow>, h0: seq<HistoryRow>,
                    acc: seq<(string, SeedUser)>, hash: string -> string, id: string, u: SeedUser)
    requires SeededFrom(users, history, u0, h0, acc, hash) && SeedingSucceeds(u0, acc)
    ensures Fits(u0, acc, (id, u)) <==> id !in users && !EmailTaken(users, u.email, id) && u.coordinates.Some?
  {
    if Fits(u0, acc, (id, u)) {
      assert id !in IdsOf(acc);
      forall other | other in users && other != id ensures users[other].email != u.email {
        if other !in u0 {
          var k :| 0 <= k < |acc| && acc[k].0 == other;
          assert users[other].email == acc[k].1.email;
        }
      }
    }
    if id !in users && !EmailTaken(users, u.email, id) && u.coordinates.Some? {
      forall other | other in u0 ensures u0[other].email != u.email {
        assert other in users && users[other] == u0[other];
      }
      forall j | 0 <= j < |acc| ensures acc[j].0 != id && acc[j].1.email != u.email {
        assert acc[j].0 in users && users[acc[j].0].email == acc[j].1.email;
      }
    }
  }

  /** `seed`: the cleanup, then each seed user in turn; a failed insert ends
      the script with exit code 1, otherwise it exits with 0. The exit code
      is 0 exactly when every accepted user fits after those before it. */
  method SeedDatabase(db: Database, seedUsers: seq<SeedUser>, freshIds: seq<string>,
                      hash: string -> string, nf: NumberSyntax)
    returns (exitCode: int)
    requires db.Valid() && |freshIds| == |seedUsers|
    modifies db
    ensures db.Valid()
    ensures exitCode == 0 || exitCode == 1
    ensures exitCode == 0 <==> SeedingSucceeds(AdminUsers(old(db.users)), Accepted(seedUsers, freshIds, nf))
    ensures exitCode == 0 ==> SeededFrom(db.users, db.history, AdminUsers(old(db.users)),
                                         Select(old(db.history), IdLike("admin-")),
                                         Accepted(seedUsers, freshIds, nf), hash)
  {
    Cleanup(db);
    ghost var u0, h0 := db.users, db.history;
    SeededStart(u0, h0, hash);
    assert Accepted(seedUsers[..0], freshIds[..0], nf) == [];

    var i := 0;
    while i < |seedUsers|
      invariant 0 <= i <= |seedUsers|
      invariant db.Valid()
      invariant SeededFrom(db.users, db.history, u0, h0, Accepted(seedUsers[..i], freshIds[..i], nf), hash)
      invariant SeedingSucceeds(u0, Accepted(seedUsers[..i], freshIds[..i], nf))
    {
      ghost var acc := Accepted(seedUsers[..i], freshIds[..i], nf);
      ghost var users0, history0 := db.users, db.history;
      AcceptedStep(seedUsers, freshIds, i, nf);
      FitsIffFree(users0, history0, u0, h0, acc, hash, freshIds[i], seedUsers[i]);
      var ok, row := SeedOne(db, seedUsers[i], freshIds[i], hash, nf);
      if !ok {
        FailureIsFinal(seedUsers, freshIds, i, nf, u0);
        return 1;
      }
      if ValidateCoordinates(seedUsers[i].coordinates, nf) {
        SeededStep(users0, history0, u0, h0, acc, hash, freshIds[i], seedUsers[i],
                   db.users[freshIds[i]], row);
        SucceedsStep(u0, acc, (freshIds[i], seedUsers[i]));
      } else {
        assert acc + [] == acc;
      }
      i := i + 1;
    }
    assert seedUsers[..i] == seedUsers && freshIds[..i] == freshIds;
    exitCode := 0;
  }

  /** The users `DELETE ... WHERE id NOT LIKE 'admin-%'` leaves. */
  lemma CleanupKeepsAdmins(users: map<string, UserRow>)
    ensures (map id | id in users && !Holds(Not(IdLike("admin-")), id) :: users[id]) == AdminUsers(users)
  {
  }

  /** Before the loop nothing has been inserted. */
  lemma SeededStart(users: map<string, UserRow>, history: seq<HistoryRow>, hash: string -> string)
    ensures SeededFrom(users, history, users, history, [], hash)
  {
    assert IdsOf([]) == {};
    assert history[..|history|] == history;
  }

  /** Two conditions that hold of the same ids select the same rows. */
  lemma {:induction false} SameSelection(h: seq<HistoryRow>, v: Where, w: Where)
    requires forall id :: Holds(v, id) == Holds(w, id)
    ensures Select(h, v) == Select(h, w)
  {
    if h != [] {
      SameSelection(h[1..], v, w);
    }
  }
}
