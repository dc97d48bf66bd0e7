/** The older map-interaction hook, src/hooks/useMapInteractions.ts: no
    permission checks, the `pinned` flag instead of `location` to find
    free users, and a pin that leaves the coordinates text and the open
    dialog as they were. */
module LegacyMapInteractionsModel {
  import opened Common
  import opened Coordinates
  import opened UserModel
  import MapInteractionsModel

  /** The users whose `pinned` flag is off, in list order. */
  function NotPinned(users: seq<User>): (r: seq<User>)
    ensures |r| <= |users|
    ensures forall u :: u in r <==> u in users && !u.pinned
  {
    if users == [] then []
    else (if !users[0].pinned then [users[0]] else []) + NotPinned(users[1..])
  }

  /** `prevUsers.map(u => u.id === id ? { ...u, location: c, pinned: true } : u)`. */
  function PinLegacy(users: seq<User>, id: string, c: LngLat): (r: seq<User>)
    ensures |r| == |users|
    ensures forall k :: 0 <= k < |r| ==>
      r[k] == if users[k].id == id then users[k].(location := Some(c), pinned := true) else users[k]
  {
    seq(|users|, k requires 0 <= k < |users| =>
      if users[k].id == id then users[k].(location := Some(c), pinned := true) else users[k])
  }

  /** The older pin puts the entry where the newer one does, but keeps its
      old coordinates text and place names. */
  lemma LegacyPinAgreesOnPosition(users: seq<User>, id: string, c: LngLat,
                                  place: MapInteractionsModel.Place, nf: NumberSyntax)
    ensures forall k :: 0 <= k < |users| ==>
      && PinLegacy(users, id, c)[k].location
         == MapInteractionsModel.UpdateById(users, id, MapInteractionsModel.PinAt(c, place), nf)[k].location
      && PinLegacy(users, id, c)[k].pinned
         == MapInteractionsModel.UpdateById(users, id, MapInteractionsModel.PinAt(c, place), nf)[k].pinned
      && PinLegacy(users, id, c)[k].coordinates == users[k].coordinates
      && PinLegacy(users, id, c)[k].city == users[k].city
  {
  }

  /** On a list whose `pinned` flags agree with `location`, the older test
      for a free user is the newer one without the permission filter. */
  lemma {:induction false} FreeUsersAgree(users: seq<User>)
    requires forall u | u in users :: Consistent(u)
    ensures NotPinned(users) == MapInteractionsModel.Unpinned(users)
  {
    if users != [] {
      assert Consistent(users[0]);
      FreeUsersAgree(users[1..]);
    }
  }

  /** The older hook's state. */
  class LegacyMapInteractions {
    var users: seq<User>
    var sidebarOpen: bool
    var selectedUser: Option<User>
    var pendingCoordinates: Option<LngLat>
    var dialogOpen: bool

    /** Every dialog closed and nothing pending. */
    constructor (users: seq<User>)
      ensures this.users == users && !sidebarOpen && selectedUser.None? && pendingCoordinates.None? && !dialogOpen
    {
      this.users := users;
      sidebarOpen := false;
      selectedUser := None;
      pendingCoordinates := None;
      dialogOpen := false;
    }

    /** `handleMapClick`: with every user pinned nothing changes and the
        'No users available' toast shows; otherwise the click is kept and
        the sidebar opens. */
    method HandleMapClick(c: LngLat) returns (noUsersAvailable: bool)
      modifies this
      ensures noUsersAvailable <==> NotPinned(old(users)) == []
      ensures noUsersAvailable ==> unchanged(this)
      ensures !noUsersAvailable ==>
        && pendingCoordinates == Some(c) && sidebarOpen
        && users == old(users) && selectedUser == old(selectedUser) && dialogOpen == old(dialogOpen)
    {
      if NotPinned(users) == [] {
        return true;
      }
      pendingCoordinates := Some(c);
      sidebarOpen := true;
      noUsersAvailable := false;
    }

    /** `handleUserSelect`: no permission check. */
    method HandleUserSelect(u: User)
      modifies this
      ensures selectedUser == Some(u) && dialogOpen && !sidebarOpen
      ensures users == old(users) && pendingCoordinates == old(pendingCoordinates)
    {
      selectedUser := Some(u);
      dialogOpen := true;
      sidebarOpen := false;
    }

    /** `handlePinConfirm`: an unknown id is a no-op; a failed request
        returns before clearing anything; an accepted one pins the entries
        with that id and clears the selection and the click, leaving the
        dialog as it was. The password argument is not used. */
    method HandlePinConfirm(userId: string, password: string, c: LngLat, serverOk: bool) returns (sent: bool)
      modifies this
      ensures FindById(old(users), userId).None? ==> !sent && unchanged(this)
      ensures FindById(old(users), userId).Some? && !serverOk ==> sent && unchanged(this)
      ensures FindById(old(users), userId).Some? && serverOk ==>
        && sent
        && users == PinLegacy(old(users), userId, c)
        && pendingCoordinates.None? && selectedUser.None?
        && dialogOpen == old(dialogOpen) && sidebarOpen == old(sidebarOpen)
    {
      if FindById(users, userId).None? {
        return false;
      }
      if !serverOk {
        return true;
      }
      users := PinLegacy(users, userId, c);
      pendingCoordinates := None;
      selectedUser := None;
      sent := true;
    }

    /** `resetInteractions`. */
    method ResetInteractions()
      modifies this
      ensures !sidebarOpen && selectedUser.None? && pendingCoordinates.None? && !dialogOpen
      ensures users == old(users)
    {
      sidebarOpen := false;
      selectedUser := None;
      pendingCoordinates := None;
      dialogOpen := false;
    }
  }
}
