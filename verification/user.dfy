/** The frontend `User` record of src/types/User.ts. */
module UserModel {
  import opened Common
  import opened Coordinates

  /** `coordinates` is the raw `"<lng>, <lat>"` text from the server,
      `location` its parsed form (null/undefined as `None`). */
  datatype User = User(
    id: string,
    name: string,
    email: string,
    password: string,
    coordinates: Option<string>,
    location: Option<LngLat>,
    pinned: bool,
    city: Option<string>,
    state: Option<string>,
    country: Option<string>)

  /** `pinned` agrees with `location`, as every list the app builds keeps it. */
  predicate Consistent(u: User) {
    u.pinned <==> u.location.Some?
  }

  /** `users.find(u => u.id === id)`: the first user with that id. */
  function FindById(users: seq<User>, id: string): (r: Option<User>)
    ensures r.None? <==> forall k :: 0 <= k < |users| ==> users[k].id != id
    ensures r.Some? ==> exists k :: 0 <= k < |users| && users[k] == r.value && r.value.id == id
                                    && forall j :: 0 <= j < k ==> users[j].id != id
  {
    if users == [] then None
    else if users[0].id == id then Some(users[0])
    else
      var r := FindById(users[1..], id);
      if r.Some? then
        ghost var k :| 0 <= k < |users[1..]| && users[1..][k] == r.value && r.value.id == id
                       && forall j :: 0 <= j < k ==> users[1..][j].id != id;
        assert users[k + 1] == r.value;
        r
      else r
  }
}
