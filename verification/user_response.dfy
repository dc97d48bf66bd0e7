/** `formatUserResponse`, written out three times in the backend
    (backend/src/routes/users.js, backend/src/routes/auth.js and inline in
    backend/src/routes/location.js): a stored user row without its
    password, with `location` parsed from the coordinates text. */
module UserResponse {
  import opened Common
  import opened Coordinates
  import opened Store

  /** The backend's reading of a stored coordinates string: only a truthy
      string is read; it is split on ',' and each part trimmed and parsed;
      two parts that are both numbers give the pair. No range check. */
  function StoredLocation(coordinates: Option<string>, nf: NumberSyntax): (r: Option<LngLat>)
    ensures !Truthy(coordinates) ==> r.None?
    ensures r.Some? <==> (Truthy(coordinates) && |SplitOn(coordinates.value, ",")| == 2
                          && nf.parse(Trim(SplitOn(coordinates.value, ",")[0])).Some?
                          && nf.parse(Trim(SplitOn(coordinates.value, ",")[1])).Some?)
    ensures r.Some? ==> (r.value.lng == nf.parse(Trim(SplitOn(coordinates.value, ",")[0])).value
                         && r.value.lat == nf.parse(Trim(SplitOn(coordinates.value, ",")[1])).value)
  {
    if !Truthy(coordinates) then None
    else
      var parts := TrimAll(SplitOn(coordinates.value, ","));
      if |parts| == 2 then NumbersOf(parts, nf) else None
  }

  /** The response body for a user: every column but `password`, plus
      `location` and `pinned`. There is no password field to leak. */
  datatype UserJson = UserJson(
    id: string,
    name: string,
    email: string,
    coordinates: Option<string>,
    city: Option<string>,
    state: Option<string>,
    country: Option<string>,
    createdAt: nat,
    updatedAt: nat,
    location: Option<LngLat>,
    pinned: bool)

  /** `formatUserResponse`. */
  function FormatUserResponse(row: UserRow, nf: NumberSyntax): (r: UserJson)
    ensures r.id == row.id && r.name == row.name && r.email == row.email
    ensures r.coordinates == row.coordinates && r.city == row.city
    ensures r.state == row.state && r.country == row.country
    ensures r.createdAt == row.createdAt && r.updatedAt == row.updatedAt
    ensures r.pinned <==> r.location.Some?
    ensures r.location.Some? <==> StoredLocation(row.coordinates, nf).Some?
    ensures r.location.Some? ==> r.location == StoredLocation(row.coordinates, nf)
  {
    var location := StoredLocation(row.coordinates, nf);
    UserJson(row.id, row.name, row.email, row.coordinates, row.city, row.state, row.country,
             row.createdAt, row.updatedAt, location, location.Some?)
  }

  /** The password never influences the response: two rows that differ only
      in their password format identically. */
  lemma PasswordNotExposed(row: UserRow, password: string, nf: NumberSyntax)
    ensures FormatUserResponse(row.(password := password), nf) == FormatUserResponse(row, nf)
  {
  }
}
