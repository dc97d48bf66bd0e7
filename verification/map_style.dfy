/** The map style picker, frontend/src/components/MapStyleSwitcher.tsx: a
    fixed table of Mapbox styles, a friendly name for any style id, the
    preview image address of a style, and the dialog that picks one. The
    Mapbox access token is an input; the rendering is left out. */
module MapStyle {
  import opened Common

  datatype Style = Style(id: string, name: string)

  /** The prefix every Mapbox style URL starts with. */
  const StylePrefix: string := "mapbox://styles/"

  /** A style of the `mapbox` account: `mapbox://styles/mapbox/<style>`. */
  function MapboxStyle(style: string, name: string): (s: Style)
    ensures s.id == StylePrefix + "mapbox/" + style && s.name == name
    ensures StartsWith(s.id, StylePrefix + "mapbox/")
  {
    assert (StylePrefix + "mapbox/" + style)[..|StylePrefix + "mapbox/"|] == StylePrefix + "mapbox/";
    Style(StylePrefix + "mapbox/" + style, name)
  }

  /** `MAP_STYLES`, in display order. */
  const MapStyles: seq<Style> := [
    MapboxStyle("streets-v12", "Streets"),
    MapboxStyle("light-v11", "Light"),
    MapboxStyle("dark-v11", "Dark"),
    MapboxStyle("satellite-v9", "Satellite"),
    MapboxStyle("satellite-streets-v12", "Satellite Streets"),
    MapboxStyle("navigation-day-v1", "Navigation Day"),
    MapboxStyle("navigation-night-v1", "Navigation Night")
  ]

  /** No two listed styles share an id. */
  predicate DistinctIds(styles: seq<Style>) {
    forall i, j :: 0 <= i < j < |styles| ==> styles[i].id != styles[j].id
  }

  lemma MapStylesDistinct()
    ensures DistinctIds(MapStyles)
  {
  }

  /** `MAP_STYLES.find(s => s.id === styleId)`. */
  function FindStyle(styles: seq<Style>, styleId: string): (r: Option<Style>)
    ensures r.None? <==> forall k :: 0 <= k < |styles| ==> styles[k].id != styleId
    ensures r.Some? ==> exists k :: 0 <= k < |styles| && styles[k] == r.value && r.value.id == styleId
  {
    if styles == [] then None
    else if styles[0].id == styleId then Some(styles[0])
    else
      var r := FindStyle(styles[1..], styleId);
      if r.Some? then
        ghost var k :| 0 <= k < |styles[1..]| && styles[1..][k] == r.value && r.value.id == styleId;
        assert styles[k + 1] == r.value;
        r
      else r
  }

  /** `getStyleFriendlyName`: the listed name of a known id, 'Custom Style'
      for any other. */
  function FriendlyName(styleId: string): (r: string)
    ensures forall k :: 0 <= k < |MapStyles| && MapStyles[k].id == styleId ==> r == MapStyles[k].name
    ensures (forall k :: 0 <= k < |MapStyles| ==> MapStyles[k].id != styleId) ==> r == "Custom Style"
  {
    MapStylesDistinct();
    var found := FindStyle(MapStyles, styleId);
    if found.Some? then found.value.name else "Custom Style"
  }

  /** `s.replace(pat, rep)` with a string pattern: with no occurrence the
      text is kept; otherwise the first occurrence, and only it, gives way
      to `rep`. */
  function ReplaceFirst(s: string, pat: string, rep: string): (r: string)
    ensures (forall k: nat :: !OccursAt(s, pat, k)) ==> r == s
    ensures forall i: nat | OccursAt(s, pat, i) && (forall k: nat :: k < i ==> !OccursAt(s, pat, k)) ::
      s == s[..i] + pat + s[i + |pat|..] && r == s[..i] + rep + s[i + |pat|..]
  {
    IndexOfIsFirst(s, pat);
    match IndexOf(s, pat)
    case None => s
    case Some(i) => s[..i] + rep + s[i + |pat|..]
  }

  /** The style part of a style URL, as the preview address uses it: a
      style URL loses exactly its leading prefix; an id without the prefix
      anywhere is kept whole. */
  function StyleName(styleId: string): (r: string)
    ensures StartsWith(styleId, StylePrefix) ==> r == styleId[|StylePrefix|..]
    ensures (forall k: nat :: !OccursAt(styleId, StylePrefix, k)) ==> r == styleId
  {
    assert StartsWith(styleId, StylePrefix) ==> OccursAt(styleId, StylePrefix, 0);
    ReplaceFirst(styleId, StylePrefix, "")
  }

  /** `getStyleImageUrl`: the style name between the static-image prefix and
      the fixed view, with the access token at the end. */
  function ImageUrl(styleId: string, accessToken: string): string {
    "https://api.mapbox.com/styles/v1/" + StyleName(styleId)
      + "/static/-74.5,40,5,0/100x100@2x?access_token=" + accessToken
  }

  /** The preview of a style URL names the style without its prefix. */
  lemma StyleImageUrl(tail: string, accessToken: string)
    ensures ImageUrl(StylePrefix + tail, accessToken) ==
      "https://api.mapbox.com/styles/v1/" + tail + "/static/-74.5,40,5,0/100x100@2x?access_token=" + accessToken
  {
    assert (StylePrefix + tail)[..|StylePrefix|] == StylePrefix;
    assert (StylePrefix + tail)[|StylePrefix|..] == tail;
  }

  /** A URL of the `mapbox` account gives a name starting 'mapbox/'. */
  lemma MapboxStyleName(id: string)
    requires StartsWith(id, StylePrefix + "mapbox/")
    ensures StyleName(id) == id[|StylePrefix|..]
    ensures StartsWith(StyleName(id), "mapbox/")
  {
    var tail := id[|StylePrefix|..];
    assert id[..|StylePrefix|] == (StylePrefix + "mapbox/")[..|StylePrefix|];
    assert id == StylePrefix + tail;
    assert StartsWith(id, StylePrefix);
    assert tail[..7] == id[|StylePrefix|..|StylePrefix| + 7];
  }

  /** Every listed style gives a name of the form 'mapbox/<style>', for
      instance 'mapbox/streets-v12'. */
  lemma ListedStyleNames()
    ensures forall k :: 0 <= k < |MapStyles| ==>
      StyleName(MapStyles[k].id) == MapStyles[k].id[|StylePrefix|..]
      && StartsWith(StyleName(MapStyles[k].id), "mapbox/")
    ensures StyleName(MapStyles[0].id) == "mapbox/streets-v12"
  {
    forall k | 0 <= k < |MapStyles|
      ensures StyleName(MapStyles[k].id) == MapStyles[k].id[|StylePrefix|..]
      ensures StartsWith(StyleName(MapStyles[k].id), "mapbox/")
    {
      MapboxStyleName(MapStyles[k].id);
    }
    assert StylePrefix + "mapbox/" + "streets-v12" == StylePrefix + "mapbox/streets-v12";
    assert StartsWith(MapStyles[0].id, StylePrefix);
  }

  /** A style's tile is highlighted when its id is the current style. */
  predicate Highlighted(currentStyle: string, k: nat)
    requires k < |MapStyles|
  {
    MapStyles[k].id == currentStyle
  }

  /** At most one tile is highlighted, and a known current style is. */
  lemma OneHighlight(currentStyle: string)
    ensures forall i, j :: (0 <= i < |MapStyles| && 0 <= j < |MapStyles|
                            && Highlighted(currentStyle, i) && Highlighted(currentStyle, j)) ==> i == j
    ensures FriendlyName(currentStyle) != "Custom Style" ==>
      exists k :: 0 <= k < |MapStyles| && Highlighted(currentStyle, k)
  {
    MapStylesDistinct();
    if FriendlyName(currentStyle) != "Custom Style" {
      var k :| 0 <= k < |MapStyles| && MapStyles[k].id == currentStyle;
      assert Highlighted(currentStyle, k);
    }
  }

  /** The picker dialog. */
  class MapStyleSwitcher {
    var open: bool

    constructor ()
      ensures !open
    {
      open := false;
    }

    /** The settings button opens the dialog. */
    method Open()
      modifies this
      ensures open
    {
      open := true;
    }

    /** Clicking the `k`-th tile hands its id to `onStyleChange` and closes
        the dialog. */
    method SelectStyle(k: nat) returns (chosen: string)
      requires k < |MapStyles|
      modifies this
      ensures chosen == MapStyles[k].id && !open
      ensures FriendlyName(chosen) == MapStyles[k].name
    {
      chosen := MapStyles[k].id;
      open := false;
    }
  }
}
