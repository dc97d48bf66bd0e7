/** The admin-or-self rule of src/lib/permissions.ts. The admin email list,
    read from configuration in the source, is a parameter here. */
module Permissions {
  import opened UserModel

  /** `isAdmin`: the user's email is on the configured list. */
  function IsAdmin(user: User, adminEmails: seq<string>): (r: bool)
    ensures r <==> exists k :: 0 <= k < |adminEmails| && adminEmails[k] == user.email
    ensures adminEmails == [] ==> !r
  {
    user.email in adminEmails
  }

  /** `canMovePinForUser`. */
  function CanMovePinForUser(current: User, target: User, adminEmails: seq<string>): (r: bool)
    ensures current.id == target.id ==> r
    ensures IsAdmin(current, adminEmails) ==> r
    ensures !IsAdmin(current, adminEmails) && current.id != target.id ==> !r
    ensures adminEmails == [] ==> (r <==> current.id == target.id)
  {
    if IsAdmin(current, adminEmails) then true
    else if current.id == target.id then true
    else false
  }

  /** `canMoveAnyPin`. */
  function CanMoveAnyPin(user: User, adminEmails: seq<string>): (r: bool)
    ensures r <==> forall target: User :: CanMovePinForUser(user, target, adminEmails)
  {
    var other := user.(id := user.id + "'");
    assert !IsAdmin(user, adminEmails) ==> !CanMovePinForUser(user, other, adminEmails);
    IsAdmin(user, adminEmails)
  }

  /** `canPinForUser`: the same rule as moving. */
  function CanPinForUser(current: User, target: User, adminEmails: seq<string>): (r: bool)
    ensures r == CanMovePinForUser(current, target, adminEmails)
    ensures current.id == target.id ==> r
  {
    if IsAdmin(current, adminEmails) then true
    else if current.id == target.id then true
    else false
  }

  /** `canDeletePinForUser`: the same rule as moving. */
  function CanDeletePinForUser(current: User, target: User, adminEmails: seq<string>): (r: bool)
    ensures r == CanMovePinForUser(current, target, adminEmails)
    ensures current.id == target.id ==> r
  {
    if IsAdmin(current, adminEmails) then true
    else if current.id == target.id then true
    else false
  }

  /** `getUserPermissionLevel`. */
  function PermissionLevel(user: User, adminEmails: seq<string>): (r: string)
    ensures r == "admin" || r == "user"
    ensures r == "admin" <==> IsAdmin(user, adminEmails)
  {
    if IsAdmin(user, adminEmails) then "admin" else "user"
  }

  /** The decisions look only at the requester's email and id and the
      target's id: location, pinned flag, name and password never matter. */
  lemma OnlyEmailAndIdsMatter(c1: User, c2: User, t1: User, t2: User, adminEmails: seq<string>)
    requires c1.email == c2.email && c1.id == c2.id && t1.id == t2.id
    ensures CanMovePinForUser(c1, t1, adminEmails) == CanMovePinForUser(c2, t2, adminEmails)
    ensures CanPinForUser(c1, t1, adminEmails) == CanPinForUser(c2, t2, adminEmails)
    ensures CanDeletePinForUser(c1, t1, adminEmails) == CanDeletePinForUser(c2, t2, adminEmails)
    ensures PermissionLevel(c1, adminEmails) == PermissionLevel(c2, adminEmails)
  {
  }
}
