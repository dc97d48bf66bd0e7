/** The map-interaction state of frontend/src/hooks/useMapInteractions.ts:
    which dialog or sidebar is open, what is pending, and how the users
    list is replaced after the server accepts a change. The server's
    answer (`serverOk`) and the `reverseGeocode` result are inputs. */
module MapInteractionsModel {
  import opened Common
  import opened Coordinates
  import opened UserModel
  import opened Permissions

  /** The place names `reverseGeocode` answers with. */
  datatype Place = Place(city: Option<string>, state: Option<string>, country: Option<string>)

  /** A drag awaiting confirmation. */
  datatype PendingMove = PendingMove(userId: string, coordinates: LngLat)

  /** The toast a handler shows, when it only shows one. */
  datatype Notice = Quiet | NoUsersAvailable | PermissionDenied

  /** The hook's state together with the users list it replaces. */
  datatype View = View(
    users: seq<User>,
    sidebarOpen: bool,
    selectedUser: Option<User>,
    pendingCoordinates: Option<LngLat>,
    dialogOpen: bool,
    moveConfirmDialogOpen: bool,
    pendingMove: Option<PendingMove>)

  /** The users with no location, in list order. */
  function Unpinned(users: seq<User>): (r: seq<User>)
    ensures |r| <= |users|
    ensures forall u :: u in r <==> u in users && u.location.None?
  {
    if users == [] then []
    else (if users[0].location.None? then [users[0]] else []) + Unpinned(users[1..])
  }

  /** The users with no location whom `current` may pin, in list order. */
  function Available(users: seq<User>, current: User, adminEmails: seq<string>): (r: seq<User>)
    ensures |r| <= |Unpinned(users)|
    ensures forall u :: u in r <==> u in users && u.location.None? && CanPinForUser(current, u, adminEmails)
  {
    if users == [] then []
    else
      (if users[0].location.None? && CanPinForUser(current, users[0], adminEmails) then [users[0]] else [])
      + Available(users[1..], current, adminEmails)
  }

  /** What a confirmed server call does to an entry of the list. */
  datatype Change = PinAt(c: LngLat, place: Place) | MoveTo(c: LngLat, place: Place) | Unpin

  /** The entry after `change`: a pin writes the formatted text, the
      position and the place names ('' for a missing one); a move falls
      back to the entry's own names; an unpin empties the text. */
  function Apply(u: User, change: Change, nf: NumberSyntax): (r: User)
    ensures r.id == u.id && r.name == u.name && r.email == u.email && r.password == u.password
    ensures Consistent(r)
    ensures change.Unpin? ==> !r.pinned && r.coordinates == Some("")
    ensures !change.Unpin? ==> r.pinned && r.location == Some(change.c) && r.coordinates == Some(FormatCoordinates(change.c, nf))
  {
    match change
    case PinAt(c, place) =>
      u.(coordinates := Some(FormatCoordinates(c, nf)), location := Some(c), pinned := true,
         city := Some(OrEmpty(place.city)), state := Some(OrEmpty(place.state)),
         country := Some(OrEmpty(place.country)))
    case MoveTo(c, place) =>
      u.(coordinates := Some(FormatCoordinates(c, nf)), location := Some(c), pinned := true,
         city := Some(OrEmpty(OrElse(place.city, u.city))),
         state := Some(OrEmpty(OrElse(place.state, u.state))),
         country := Some(OrEmpty(OrElse(place.country, u.country))))
    case Unpin =>
      u.(coordinates := Some(""), location := None, pinned := false)
  }

  /** `prevUsers.map(u => u.id === id ? change(u) : u)`. */
  function UpdateById(users: seq<User>, id: string, change: Change, nf: NumberSyntax): (r: seq<User>)
    ensures |r| == |users|
    ensures forall k :: 0 <= k < |r| ==> r[k] == if users[k].id == id then Apply(users[k], change, nf) else users[k]
  {
    seq(|users|, k requires 0 <= k < |users| => if users[k].id == id then Apply(users[k], change, nf) else users[k])
  }

  /** After a pin or a move, every entry with the id sits at `c`, pinned,
      and its text reads back as `c` when `c` is in range; the other
      entries and the length are unchanged; consistent entries stay so. */
  lemma PlacedEntries(users: seq<User>, id: string, change: Change, nf: NumberSyntax)
    requires change.PinAt? || change.MoveTo?
    requires PrintsBack(nf, change.c.lng) && PrintsBack(nf, change.c.lat) && InRange(change.c)
    ensures |UpdateById(users, id, change, nf)| == |users|
    ensures forall k :: 0 <= k < |users| && users[k].id == id ==>
      && UpdateById(users, id, change, nf)[k].location == Some(change.c)
      && UpdateById(users, id, change, nf)[k].pinned
      && ParseCoordinates(Text(UpdateById(users, id, change, nf)[k].coordinates.value), nf) == Some(change.c)
    ensures forall k :: 0 <= k < |users| && users[k].id != id ==> UpdateById(users, id, change, nf)[k] == users[k]
    ensures (forall u | u in users :: Consistent(u)) ==>
      forall u | u in UpdateById(users, id, change, nf) :: Consistent(u)
  {
    RoundTrip(change.c, nf);
  }

  /** After a delete every entry with the id is unpinned, with empty text
      that parses to null; the others are unchanged. */
  lemma UnpinnedEntries(users: seq<User>, id: string, nf: NumberSyntax)
    ensures forall k :: 0 <= k < |users| && users[k].id == id ==>
      && UpdateById(users, id, Unpin, nf)[k].location.None?
      && !UpdateById(users, id, Unpin, nf)[k].pinned
      && ParseCoordinates(Text(UpdateById(users, id, Unpin, nf)[k].coordinates.value), nf).None?
    ensures forall k :: 0 <= k < |users| && users[k].id != id ==> UpdateById(users, id, Unpin, nf)[k] == users[k]
    ensures forall u | u in users && u.id == id :: Apply(u, Unpin, nf) in Unpinned(UpdateById(users, id, Unpin, nf))
  {
    var r := UpdateById(users, id, Unpin, nf);
    forall u | u in users && u.id == id
      ensures Apply(u, Unpin, nf) in Unpinned(r)
    {
      var k :| 0 <= k < |users| && users[k] == u;
      assert r[k] == Apply(u, Unpin, nf);
    }
  }

  /** A move keeps an entry's place name when the geocoder has none. */
  lemma MoveFallsBack(u: User, c: LngLat, place: Place, nf: NumberSyntax)
    ensures Truthy(place.city) ==> Apply(u, MoveTo(c, place), nf).city == place.city
    ensures !Truthy(place.city) && Truthy(u.city) ==> Apply(u, MoveTo(c, place), nf).city == u.city
    ensures !Truthy(place.city) && !Truthy(u.city) ==> Apply(u, MoveTo(c, place), nf).city == Some("")
    ensures Apply(u, MoveTo(c, place), nf).id == u.id && Apply(u, MoveTo(c, place), nf).name == u.name
  {
  }

  /** The hook, for one signed-in user. */
  class MapInteractions {
    var users: seq<User>
    var sidebarOpen: bool
    var selectedUser: Option<User>
    var pendingCoordinates: Option<LngLat>
    var dialogOpen: bool
    var moveConfirmDialogOpen: bool
    var pendingMove: Option<PendingMove>
    const currentUser: User
    const adminEmails: seq<string>
    const nf: NumberSyntax

    function Snapshot(): View
      reads this
    {
      View(users, sidebarOpen, selectedUser, pendingCoordinates, dialogOpen, moveConfirmDialogOpen, pendingMove)
    }

    /** Every dialog closed and nothing pending. */
    constructor (users: seq<User>, currentUser: User, adminEmails: seq<string>, nf: NumberSyntax)
      ensures Snapshot() == View(users, false, None, None, false, false, None)
      ensures this.currentUser == currentUser && this.adminEmails == adminEmails && this.nf == nf
    {
      this.users := users;
      sidebarOpen := false;
      selectedUser := None;
      pendingCoordinates := None;
      dialogOpen := false;
      moveConfirmDialogOpen := false;
      pendingMove := None;
      this.currentUser := currentUser;
      this.adminEmails := adminEmails;
      this.nf := nf;
    }

    /** `hasAvailableUsers`. */
    function HasAvailableUsers(): (r: bool)
      reads this
      ensures r <==> exists u :: u in users && u.location.None? && CanPinForUser(currentUser, u, adminEmails)
    {
      var avail := Available(users, currentUser, adminEmails);
      assert |avail| > 0 ==> avail[0] in avail;
      |avail| > 0
    }

    /** `handleMapClick`: nothing changes when no user is available, and the
        toast says why; one available user gets the dialog at once; with
        several the sidebar opens to choose. */
    method HandleMapClick(c: LngLat) returns (notice: Notice)
      modifies this
      ensures var avail := Available(old(users), currentUser, adminEmails);
        && (|avail| == 0 ==>
              && Snapshot() == old(Snapshot())
              && (notice == NoUsersAvailable <==> Unpinned(old(users)) == [])
              && notice != Quiet)
        && (|avail| == 1 ==>
              && Snapshot() == old(Snapshot()).(selectedUser := Some(avail[0]), pendingCoordinates := Some(c),
                                                dialogOpen := true)
              && notice == Quiet)
        && (|avail| > 1 ==>
              && Snapshot() == old(Snapshot()).(pendingCoordinates := Some(c), sidebarOpen := true)
              && notice == Quiet)
    {
      var avail := Available(users, currentUser, adminEmails);
      if |avail| == 0 {
        if Unpinned(users) == [] {
          return NoUsersAvailable;
        }
        return PermissionDenied;
      }
      if |avail| == 1 {
        selectedUser := Some(avail[0]);
        pendingCoordinates := Some(c);
        dialogOpen := true;
      } else {
        pendingCoordinates := Some(c);
        sidebarOpen := true;
      }
      notice := Quiet;
    }

    /** `handleUserSelect`: without pin permission nothing changes; else the
        user is selected, the dialog opens and the sidebar closes. */
    method HandleUserSelect(u: User)
      modifies this
      ensures !CanPinForUser(currentUser, u, adminEmails) ==> Snapshot() == old(Snapshot())
      ensures CanPinForUser(currentUser, u, adminEmails) ==>
        Snapshot() == old(Snapshot()).(selectedUser := Some(u), dialogOpen := true, sidebarOpen := false)
    {
      if !CanPinForUser(currentUser, u, adminEmails) {
        return;
      }
      selectedUser := Some(u);
      dialogOpen := true;
      sidebarOpen := false;
    }

    /** `handlePinConfirm`: an unknown id or a refused permission sends
        nothing; a failed request changes nothing; an accepted one pins
        the entries with that id, then clears what is pending and closes
        the dialog. */
    method HandlePinConfirm(userId: string, c: LngLat, place: Place, serverOk: bool) returns (sent: bool)
      modifies this
      ensures var found := FindById(old(users), userId);
        && (found.None? || !CanPinForUser(currentUser, found.value, adminEmails) ==>
              !sent && Snapshot() == old(Snapshot()))
        && (found.Some? && CanPinForUser(currentUser, found.value, adminEmails) && !serverOk ==>
              sent && Snapshot() == old(Snapshot()))
        && (found.Some? && CanPinForUser(currentUser, found.value, adminEmails) && serverOk ==>
              && sent
              && Snapshot() == old(Snapshot()).(users := UpdateById(old(users), userId, PinAt(c, place), nf),
                                                pendingCoordinates := None, selectedUser := None,
                                                dialogOpen := false))
    {
      var found := FindById(users, userId);
      if found.None? || !CanPinForUser(currentUser, found.value, adminEmails) {
        return false;
      }
      if !serverOk {
        return true;
      }
      users := UpdateById(users, userId, PinAt(c, place), nf);
      pendingCoordinates := None;
      selectedUser := None;
      dialogOpen := false;
      sent := true;
    }

    /** `confirmPinMove`: a no-op without a pending move. An unknown user
        returns before the `finally`, so the pending move stays. Otherwise
        the request is sent, the list is updated only when it succeeds, and
        the pending move and its dialog are cleared either way. */
    method ConfirmPinMove(place: Place, serverOk: bool) returns (sent: bool)
      modifies this
      ensures old(pendingMove).None? ==> !sent && Snapshot() == old(Snapshot())
      ensures old(pendingMove).Some? ==>
        var move := old(pendingMove).value;
        && (FindById(old(users), move.userId).None? ==> !sent && Snapshot() == old(Snapshot()))
        && (FindById(old(users), move.userId).Some? ==>
              && sent
              && Snapshot() == old(Snapshot()).(
                   users := if serverOk then UpdateById(old(users), move.userId, MoveTo(move.coordinates, place), nf)
                            else old(users),
                   pendingMove := None, moveConfirmDialogOpen := false))
    {
      if pendingMove.None? {
        return false;
      }
      var move := pendingMove.value;
      if FindById(users, move.userId).None? {
        return false;
      }
      if serverOk {
        users := UpdateById(users, move.userId, MoveTo(move.coordinates, place), nf);
      }
      pendingMove := None;
      moveConfirmDialogOpen := false;
      sent := true;
    }

    /** `handlePinDrag`: an unknown id or a refused move leaves no pending
        move; otherwise the move waits for confirmation in its dialog. */
    method HandlePinDrag(userId: string, c: LngLat)
      modifies this
      ensures var found := FindById(old(users), userId);
        && (found.None? || !CanMovePinForUser(currentUser, found.value, adminEmails) ==>
              Snapshot() == old(Snapshot()))
        && (found.Some? && CanMovePinForUser(currentUser, found.value, adminEmails) ==>
              Snapshot() == old(Snapshot()).(pendingMove := Some(PendingMove(userId, c)),
                                             moveConfirmDialogOpen := true))
    {
      var found := FindById(users, userId);
      if found.None? || !CanMovePinForUser(currentUser, found.value, adminEmails) {
        return;
      }
      pendingMove := Some(PendingMove(userId, c));
      moveConfirmDialogOpen := true;
    }

    /** `handleUserDropOnMap`: a user dragged from the sidebar is pinned
        when permitted and the request succeeds; `place` is the answer of
        the second `reverseGeocode` call, which the list update uses. */
    method HandleUserDropOnMap(u: User, c: LngLat, place: Place, serverOk: bool) returns (sent: bool)
      modifies this
      ensures !CanPinForUser(currentUser, u, adminEmails) ==> !sent && Snapshot() == old(Snapshot())
      ensures CanPinForUser(currentUser, u, adminEmails) ==>
        && sent
        && Snapshot() == old(Snapshot()).(users := if serverOk then UpdateById(old(users), u.id, PinAt(c, place), nf)
                                                   else old(users))
    {
      if !CanPinForUser(currentUser, u, adminEmails) {
        return false;
      }
      if serverOk {
        users := UpdateById(users, u.id, PinAt(c, place), nf);
      }
      sent := true;
    }

    /** `handlePinDelete`: an unknown id or a refused delete sends nothing;
        an accepted request unpins the entries with that id. */
    method HandlePinDelete(userId: string, serverOk: bool) returns (sent: bool)
      modifies this
      ensures var found := FindById(old(users), userId);
        && (found.None? || !CanDeletePinForUser(currentUser, found.value, adminEmails) ==>
              !sent && Snapshot() == old(Snapshot()))
        && (found.Some? && CanDeletePinForUser(currentUser, found.value, adminEmails) ==>
              && sent
              && Snapshot() == old(Snapshot()).(users := if serverOk then UpdateById(old(users), userId, Unpin, nf)
                                                         else old(users)))
    {
      var found := FindById(users, userId);
      if found.None? || !CanDeletePinForUser(currentUser, found.value, adminEmails) {
        return false;
      }
      if serverOk {
        users := UpdateById(users, userId, Unpin, nf);
      }
      sent := true;
    }

    /** `cancelPinMove`: the pending move is dropped and its dialog closed. */
    method CancelPinMove()
      modifies this
      ensures Snapshot() == old(Snapshot()).(pendingMove := None, moveConfirmDialogOpen := false)
    {
      pendingMove := None;
      moveConfirmDialogOpen := false;
    }

    /** `resetInteractions`: sidebar and dialog closed, nothing selected or
        pending; a pending move is left alone. */
    method ResetInteractions()
      modifies this
      ensures Snapshot() == old(Snapshot()).(sidebarOpen := false, selectedUser := None,
                                             pendingCoordinates := None, dialogOpen := false)
    {
      sidebarOpen := false;
      selectedUser := None;
      pendingCoordinates := None;
      dialogOpen := false;
    }
  }

  /** A pinned user is no longer offered for pinning. */
  lemma PinnedNoLongerAvailable(users: seq<User>, id: string, c: LngLat, place: Place, nf: NumberSyntax,
                                current: User, adminEmails: seq<string>)
    ensures forall u :: u in Available(UpdateById(users, id, PinAt(c, place), nf), current, adminEmails) ==> u.id != id
  {
    var r := UpdateById(users, id, PinAt(c, place), nf);
    forall u | u in Available(r, current, adminEmails)
      ensures u.id != id
    {
      var k :| 0 <= k < |r| && r[k] == u;
    }
  }
}
