/** The location search box, src/components/MapSearchControl.tsx: the
    query, the geocoder's results, the keyboard selection and what a chosen
    result hands to the map. The geocoding request is an input; the 300 ms
    debounce, the click-outside listener and the rendering are left out. */
module SearchControl {
  import opened Common
  import opened Coordinates

  /** One geocoder feature: its id, `place_name` and `center`. */
  datatype SearchResult = SearchResult(id: string, placeName: string, center: LngLat)

  /** The reply to a geocoding request. */
  datatype SearchReply = Found(features: Option<seq<SearchResult>>) | Failed | Thrown

  datatype Key = ArrowDown | ArrowUp | Enter | Escape | OtherKey

  /** ArrowDown: the next result, wrapping from the last to the first. */
  function NextIndex(prev: int, len: nat): (r: int)
    requires len > 0
    ensures -1 <= prev < len ==> 0 <= r < len
    ensures 0 <= prev < len - 1 ==> r == prev + 1
    ensures prev == len - 1 ==> r == 0
  {
    if prev < len - 1 then prev + 1 else 0
  }

  /** ArrowUp: the previous result, wrapping from the first (or from no
      selection) to the last. */
  function PrevIndex(prev: int, len: nat): (r: int)
    requires len > 0
    ensures -1 <= prev < len ==> 0 <= r < len
    ensures 0 < prev ==> r == prev - 1
    ensures prev <= 0 ==> r == len - 1
  {
    if prev > 0 then prev - 1 else len - 1
  }

  /** On a selected result the two arrows undo each other. */
  lemma ArrowsAreInverse(i: int, len: nat)
    requires 0 <= i < len
    ensures PrevIndex(NextIndex(i, len), len) == i
    ensures NextIndex(PrevIndex(i, len), len) == i
  {
  }

  /** A new search replaces the results without resetting the index, so
      ArrowUp from an index two or more past the end stays past it; only
      Enter's bounds check keeps such an index from selecting anything. */
  lemma StaleIndexSurvivesArrowUp(i: int, len: nat)
    requires len > 0 && i > len
    ensures PrevIndex(i, len) >= len
  {
  }

  /** `formatResultText`: the text before the first ", " and the rest.
      Put back together the two halves give `place_name`: with no ", " the
      main text is all of it and the context is empty; otherwise the main
      text ends just before the first ", ". */
  function FormatResultText(placeName: string): (r: (string, string))
    ensures IndexOf(placeName, ", ").None? ==> r == (placeName, "")
    ensures IndexOf(placeName, ", ").Some? ==>
      && r.0 + ", " + r.1 == placeName
      && r.0 == placeName[..IndexOf(placeName, ", ").value]
  {
    var parts := SplitOn(placeName, ", ");
    JoinSplit(placeName, ", ");
    SplitFirstPiece(placeName, ", ");
    assert |parts| >= 2 ==> JoinWith(parts, ", ") == parts[0] + ", " + JoinWith(parts[1..], ", ");
    (parts[0], JoinWith(parts[1..], ", "))
  }

  /** The search box's state. */
  class SearchBox {
    var query: string
    var results: seq<SearchResult>
    var isLoading: bool
    var showResults: bool
    var selectedIndex: int

    /** An empty query, no results, nothing selected. */
    constructor ()
      ensures query == "" && results == [] && !isLoading && !showResults && selectedIndex == -1
    {
      query := "";
      results := [];
      isLoading := false;
      showResults := false;
      selectedIndex := -1;
    }

    /** `searchLocations` run to completion. A query blank after trimming,
        or a missing token, empties and hides the results with no request.
        Otherwise a reply with features shows them (none is an empty
        list); a failed request empties them and leaves the list's
        visibility as it was. The selection is never reset. */
    method SearchLocations(searchQuery: string, mapboxToken: string, reply: SearchReply)
      returns (requested: bool)
      modifies this
      ensures requested <==> Trim(searchQuery) != "" && mapboxToken != ""
      ensures !requested ==> results == [] && !showResults && isLoading == old(isLoading)
      ensures requested && reply.Found? ==>
        results == (if reply.features.Some? then reply.features.value else []) && showResults
      ensures requested && !reply.Found? ==> results == [] && showResults == old(showResults)
      ensures requested ==> !isLoading
      ensures query == old(query) && selectedIndex == old(selectedIndex)
    {
      if Trim(searchQuery) == "" || mapboxToken == "" {
        results := [];
        showResults := false;
        return false;
      }
      isLoading := true;
      match reply {
        case Found(features) =>
          results := if features.Some? then features.value else [];
          showResults := true;
        case Failed =>
          results := [];
        case Thrown =>
          results := [];
      }
      isLoading := false;
      requested := true;
    }

    /** `handleInputChange`: the query follows the input; the search it
        schedules is `SearchLocations`. */
    method HandleInputChange(value: string)
      modifies this
      ensures query == value
      ensures results == old(results) && showResults == old(showResults)
      ensures selectedIndex == old(selectedIndex) && isLoading == old(isLoading)
    {
      query := value;
    }

    /** `handleResultSelect`: with no user left to pin nothing happens and
        no callback fires; otherwise the map is told the result's centre and
        name, which also becomes the query, and the list is emptied,
        hidden and unselected. */
    method HandleResultSelect(result: SearchResult, hasAvailableUsers: bool)
      returns (selected: Option<(LngLat, string)>)
      modifies this
      ensures !hasAvailableUsers ==> selected.None? && unchanged(this)
      ensures hasAvailableUsers ==>
        && selected == Some((result.center, result.placeName))
        && query == result.placeName && results == [] && !showResults && selectedIndex == -1
        && isLoading == old(isLoading)
    {
      if !hasAvailableUsers {
        return None;
      }
      selected := Some((result.center, result.placeName));
      query := result.placeName;
      showResults := false;
      results := [];
      selectedIndex := -1;
    }

    /** `handleKeyDown`. With the list hidden or empty no key does
        anything. The arrows move the selection with wrap-around; Enter
        selects the highlighted result only when the index is within the
        list; Escape hides the list and clears the selection. */
    method HandleKeyDown(key: Key, hasAvailableUsers: bool) returns (selected: Option<(LngLat, string)>)
      modifies this
      ensures !old(showResults) || old(results) == [] ==> selected.None? && unchanged(this)
      ensures old(showResults) && old(results) != [] ==>
        && (key == ArrowDown ==>
              selectedIndex == NextIndex(old(selectedIndex), |old(results)|)
              && results == old(results) && showResults && selected.None?)
        && (key == ArrowUp ==>
              selectedIndex == PrevIndex(old(selectedIndex), |old(results)|)
              && results == old(results) && showResults && selected.None?)
        && (key == Enter && 0 <= old(selectedIndex) < |old(results)| && hasAvailableUsers ==>
              && selected == Some((old(results)[old(selectedIndex)].center, old(results)[old(selectedIndex)].placeName))
              && query == old(results)[old(selectedIndex)].placeName
              && results == [] && !showResults && selectedIndex == -1)
        && (key == Enter && !(0 <= old(selectedIndex) < |old(results)| && hasAvailableUsers) ==>
              selected.None? && unchanged(this))
        && (key == Escape ==>
              !showResults && selectedIndex == -1 && results == old(results) && selected.None?)
        && (key == OtherKey ==> selected.None? && unchanged(this))
      ensures query != old(query) ==> selected.Some? && query == selected.value.1
      ensures isLoading == old(isLoading)
    {
      if !showResults || |results| == 0 {
        return None;
      }
      selected := None;
      match key {
        case ArrowDown =>
          selectedIndex := NextIndex(selectedIndex, |results|);
        case ArrowUp =>
          selectedIndex := PrevIndex(selectedIndex, |results|);
        case Enter =>
          if 0 <= selectedIndex < |results| {
            selected := HandleResultSelect(results[selectedIndex], hasAvailableUsers);
          }
        case Escape =>
          showResults := false;
          selectedIndex := -1;
        case OtherKey =>
      }
    }

    /** `clearSearch`: back to an empty, hidden, unselected box. */
    method ClearSearch()
      modifies this
      ensures query == "" && results == [] && !showResults && selectedIndex == -1
      ensures isLoading == old(isLoading)
    {
      query := "";
      results := [];
      showResults := false;
      selectedIndex := -1;
    }
  }
}
