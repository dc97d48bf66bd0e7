/** The frontend coordinate codec of src/lib/coordinates.ts: a position is
    written `"<lng>, <lat>"` and read back from a string or a two-element
    array. `parseFloat` and number printing are left abstract (NumberSyntax). */
module Coordinates {
  import opened Common

  /** A `[lng, lat]` pair. */
  datatype LngLat = LngLat(lng: real, lat: real)

  /** `parseFloat` and the printing of a number, supplied from outside:
      `parse` answers `None` where JavaScript answers NaN. */
  datatype NumberSyntax = NumberSyntax(parse: string -> Option<real>, show: real -> string)

  /** Longitude in [-180, 180] and latitude in [-90, 90], bounds included. */
  predicate InRange(p: LngLat) {
    -180.0 <= p.lng <= 180.0 && -90.0 <= p.lat <= 90.0
  }

  /** An element of an array handed to `parseCoordinates`. */
  datatype Item = Number(x: real) | NotNumber

  /** What `parseCoordinates` may be given: null/undefined, a string or an array. */
  datatype RawCoords = Absent | Text(s: string) | Items(items: seq<Item>)

  /** Both parts parsed, NaN (`None`) for either gives `None`. */
  function NumbersOf(parts: seq<string>, nf: NumberSyntax): (r: Option<LngLat>)
    requires |parts| == 2
    ensures r.Some? <==> nf.parse(parts[0]).Some? && nf.parse(parts[1]).Some?
    ensures r.Some? ==> r.value.lng == nf.parse(parts[0]).value && r.value.lat == nf.parse(parts[1]).value
  {
    match (nf.parse(parts[0]), nf.parse(parts[1]))
    case (Some(lng), Some(lat)) => Some(LngLat(lng, lat))
    case _ => None
  }

  /** The trimmed ','-parts of a coordinates text, each trimmed. */
  function Parts(s: string): seq<string> {
    TrimAll(SplitOn(Trim(s), ","))
  }

  /** The string branch of `parseCoordinates`: a position exactly when the
      text has two ','-parts, both numbers, that together lie in range. */
  function ParseText(s: string, nf: NumberSyntax): (r: Option<LngLat>)
    ensures r.Some? <==>
      && |Parts(s)| == 2 && nf.parse(Parts(s)[0]).Some? && nf.parse(Parts(s)[1]).Some?
      && InRange(LngLat(nf.parse(Parts(s)[0]).value, nf.parse(Parts(s)[1]).value))
    ensures r.Some? ==> r.value == LngLat(nf.parse(Parts(s)[0]).value, nf.parse(Parts(s)[1]).value)
  {
    var trimmed := Trim(s);
    if trimmed == "" then
      SplitNone(trimmed, ',');
      None
    else
      var parts := TrimAll(SplitOn(trimmed, ","));
      if |parts| == 2 then
        match NumbersOf(parts, nf)
        case Some(p) => if InRange(p) then Some(p) else None
        case None => None
      else None
  }

  /** `parseCoordinates`. */
  function ParseCoordinates(c: RawCoords, nf: NumberSyntax): (r: Option<LngLat>)
    ensures c.Absent? || c == Text("") ==> r.None?
    ensures c.Text? && r.Some? ==> InRange(r.value) && |SplitOn(Trim(c.s), ",")| == 2
    ensures c.Items? ==> (r.Some? <==> |c.items| == 2 && c.items[0].Number? && c.items[1].Number?)
    ensures c.Items? && r.Some? ==> r.value == LngLat(c.items[0].x, c.items[1].x)
  {
    match c
    case Absent => None
    case Items(xs) =>
      if |xs| == 2 && xs[0].Number? && xs[1].Number? then Some(LngLat(xs[0].x, xs[1].x)) else None
    case Text(s) =>
      if s == "" then None else ParseText(s, nf)
  }

  /** A string of white space only parses to null. */
  lemma BlankIsNull(s: string, nf: NumberSyntax)
    requires AllSpace(s)
    ensures ParseCoordinates(Text(s), nf) == None
  {
    TrimSpaces(s);
  }

  /** A number as printed: non-empty, with no comma and no white space. */
  predicate IsPlainNumeral(t: string) {
    |t| > 0 && forall k :: 0 <= k < |t| ==> t[k] != ',' && !IsSpace(t[k])
  }

  /** Printing `x` emits no comma and no white space, and parsing the
      printed text gives `x` back. */
  predicate PrintsBack(nf: NumberSyntax, x: real) {
    IsPlainNumeral(nf.show(x)) && nf.parse(nf.show(x)) == Some(x)
  }

  /** `formatCoordinates`: lng, then ", ", then lat. When both numbers print
      plainly, the parser's trimmed ','-parts are exactly the two numerals. */
  function FormatCoordinates(p: LngLat, nf: NumberSyntax): (r: string)
    ensures IsPlainNumeral(nf.show(p.lng)) && IsPlainNumeral(nf.show(p.lat)) ==>
      Parts(r) == [nf.show(p.lng), nf.show(p.lat)]
  {
    FormatSplits(nf.show(p.lng), nf.show(p.lat));
    nf.show(p.lng) + ", " + nf.show(p.lat)
  }

  /** Two plain numerals joined by ", " split back into the two. */
  lemma FormatSplits(a: string, b: string)
    ensures IsPlainNumeral(a) && IsPlainNumeral(b) ==> Parts(a + ", " + b) == [a, b]
  {
    if IsPlainNumeral(a) && IsPlainNumeral(b) {
      var s := a + ", " + b;
      var tail := " " + b;
      assert s == a + [','] + tail;
      TrimNoEdgeSpace(s);
      assert ',' !in tail by { assert forall k :: 0 < k < |tail| ==> tail[k] == b[k - 1]; }
      SplitTwo(a, tail, ',');
      TrimNoEdgeSpace(a);
      TrimNoEdgeSpace(b);
      TrimSpacePrefix(" ", b);
      assert TrimAll(SplitOn(Trim(s), ",")) == [a, b];
    }
  }

  /** Formatting and then parsing an in-range position gives it back,
      whenever each of its two numbers prints back to itself. */
  lemma RoundTrip(p: LngLat, nf: NumberSyntax)
    requires PrintsBack(nf, p.lng) && PrintsBack(nf, p.lat) && InRange(p)
    ensures ParseCoordinates(Text(FormatCoordinates(p, nf)), nf) == Some(p)
  {
    assert Parts(FormatCoordinates(p, nf)) == [nf.show(p.lng), nf.show(p.lat)];
  }
}
