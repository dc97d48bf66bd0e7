/** The user-list hook, frontend/src/hooks/useUsers.ts: the list is fetched
    once a user is signed in, and each raw record from the server is
    normalised into a `User` whose `pinned` flag follows its parsed
    location. The request and its reply are inputs; toasts and console
    output are left out. */
module UseUsers {
  import opened Common
  import opened Coordinates
  import opened UserModel
  import opened UserResponse
  import Store
  import CoordinateParsers

  /** A user record as the server sends it, before normalisation. */
  datatype RawUserData = RawUserData(
    id: string,
    name: string,
    email: Option<string>,
    password: string,
    coordinates: Option<string>,
    location: RawCoords,
    city: Option<string>,
    state: Option<string>,
    country: Option<string>)

  /** A string field as `parseCoordinates` receives it. */
  function AsRaw(s: Option<string>): (r: RawCoords)
    ensures s.None? ==> r.Absent?
    ensures s.Some? ==> r == Text(s.value)
  {
    if s.Some? then Text(s.value) else Absent
  }

  /** The body of `processedUsers`' map: the location is read from the
      coordinates text, falling back to the `location` field; `pinned` is
      whether one was found; a falsy email or place name becomes ''. */
  function Normalize(raw: RawUserData, nf: NumberSyntax): (u: User)
    ensures u.id == raw.id && u.name == raw.name && u.password == raw.password
    ensures u.coordinates == raw.coordinates
    ensures ParseCoordinates(AsRaw(raw.coordinates), nf).Some? ==>
      u.location == ParseCoordinates(AsRaw(raw.coordinates), nf)
    ensures ParseCoordinates(AsRaw(raw.coordinates), nf).None? ==>
      u.location == ParseCoordinates(raw.location, nf)
    ensures Consistent(u)
    ensures u.email == (if Truthy(raw.email) then raw.email.value else "")
    ensures u.city == Some(if Truthy(raw.city) then raw.city.value else "")
    ensures u.state == Some(if Truthy(raw.state) then raw.state.value else "")
    ensures u.country == Some(if Truthy(raw.country) then raw.country.value else "")
  {
    var fromText := ParseCoordinates(AsRaw(raw.coordinates), nf);
    var location := if fromText.Some? then fromText else ParseCoordinates(raw.location, nf);
    User(raw.id, raw.name, OrEmpty(OrElse(raw.email, Some(""))), raw.password, raw.coordinates,
         location, location.Some?,
         Some(OrEmpty(OrElse(raw.city, Some("")))),
         Some(OrEmpty(OrElse(raw.state, Some("")))),
         Some(OrEmpty(OrElse(raw.country, Some("")))))
  }

  /** `fetchedUsers.map(...)`: one user per record, in the same order. */
  function ProcessUsers(raws: seq<RawUserData>, nf: NumberSyntax): (r: seq<User>)
    ensures |r| == |raws|
    ensures forall k :: 0 <= k < |r| ==> r[k] == Normalize(raws[k], nf)
    ensures forall u | u in r :: Consistent(u)
  {
    seq(|raws|, k requires 0 <= k < |raws| => Normalize(raws[k], nf))
  }

  /** A coordinates text the frontend prints reads back to the same place,
      whatever the `location` field holds. */
  lemma PrintedTextWins(raw: RawUserData, p: LngLat, nf: NumberSyntax)
    requires raw.coordinates == Some(FormatCoordinates(p, nf))
    requires PrintsBack(nf, p.lng) && PrintsBack(nf, p.lat) && InRange(p)
    ensures Normalize(raw, nf).location == Some(p) && Normalize(raw, nf).pinned
  {
    RoundTrip(p, nf);
  }

  /** A server response as this hook receives it: `location` is the
      `[lng, lat]` array or null. */
  function FromResponse(j: UserJson): (raw: RawUserData)
    ensures raw.id == j.id && raw.coordinates == j.coordinates
    ensures j.location.None? ==> raw.location.Absent?
    ensures j.location.Some? ==> raw.location == Items([Number(j.location.value.lng), Number(j.location.value.lat)])
  {
    RawUserData(j.id, j.name, Some(j.email), "", j.coordinates,
                if j.location.Some? then Items([Number(j.location.value.lng), Number(j.location.value.lat)]) else Absent,
                j.city, j.state, j.country)
  }

  /** For a user the backend formatted, the browser ends with exactly the
      server's location: a text the browser's range check refuses is
      taken from the server's unchecked `location` array instead, so the
      range check never removes a server-side pin. */
  lemma ServerLocationSurvives(row: Store.UserRow, nf: NumberSyntax)
    ensures Normalize(FromResponse(FormatUserResponse(row, nf)), nf).location == FormatUserResponse(row, nf).location
  {
    var j := FormatUserResponse(row, nf);
    if row.coordinates.Some? {
      CoordinateParsers.FrontendIsRangeCheckedBackend(row.coordinates.value, nf);
    }
  }

  /** The reply to the list request. */
  datatype Value = List(items: seq<RawUserData>) | Scalar(truthy: bool)
  datatype UsersReply =
    | Ok(whole: Value, usersField: Option<Value>)
    | NotOk(status: nat)
    | Thrown

  /** A JSON value's truthiness; an array is always truthy. */
  predicate TruthyValue(v: Value) {
    v.List? || v.truthy
  }

  /** `data.users || data`. */
  function Fetched(whole: Value, usersField: Option<Value>): (v: Value)
    ensures usersField.Some? && TruthyValue(usersField.value) ==> v == usersField.value
    ensures !(usersField.Some? && TruthyValue(usersField.value)) ==> v == whole
  {
    if usersField.Some? && TruthyValue(usersField.value) then usersField.value else whole
  }

  /** The list the hook would store for a reply, or `None` when it keeps
      the previous list (a failed request, or a payload that is not an
      array). */
  function ReplacementFor(reply: UsersReply, nf: NumberSyntax): (r: Option<seq<User>>)
    ensures r.Some? <==> reply.Ok? && Fetched(reply.whole, reply.usersField).List?
    ensures r.Some? ==> r.value == ProcessUsers(Fetched(reply.whole, reply.usersField).items, nf)
  {
    if reply.Ok? then
      var v := Fetched(reply.whole, reply.usersField);
      if v.List? then Some(ProcessUsers(v.items, nf)) else None
    else None
  }

  /** The hook's state. */
  class UsersState {
    var users: seq<User>
    var isLoadingUsers: bool

    /** An empty list, not loading. */
    constructor ()
      ensures users == [] && !isLoadingUsers
    {
      users := [];
      isLoadingUsers := false;
    }

    /** Every stored user has `pinned` agreeing with `location`. */
    predicate Valid()
      reads this
    {
      forall u | u in users :: Consistent(u)
    }

    /** The effect's start: without a signed-in user nothing happens;
        otherwise loading begins. */
    method StartLoad(currentUser: Option<User>) returns (started: bool)
      modifies this
      ensures started <==> currentUser.Some?
      ensures !started ==> unchanged(this)
      ensures started ==> isLoadingUsers && users == old(users)
    {
      if currentUser.None? {
        return false;
      }
      isLoadingUsers := true;
      started := true;
    }

    /** `fetchUsers` settling: the list is replaced only by a normalised
        array payload, and loading ends whatever the reply. */
    method FinishLoad(reply: UsersReply, nf: NumberSyntax)
      requires Valid()
      modifies this
      ensures Valid()
      ensures !isLoadingUsers
      ensures ReplacementFor(reply, nf).Some? ==> users == ReplacementFor(reply, nf).value
      ensures ReplacementFor(reply, nf).None? ==> users == old(users)
    {
      if reply.Ok? {
        var fetchedUsers := Fetched(reply.whole, reply.usersField);
        if fetchedUsers.List? {
          users := ProcessUsers(fetchedUsers.items, nf);
        }
      }
      isLoadingUsers := false;
    }
  }
}
