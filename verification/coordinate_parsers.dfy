/** The three readings of a `"<lng>, <lat>"` string side by side: the
    frontend's `parseCoordinates` (src/lib/coordinates.ts), the backend's
    `formatUserResponse` (no range check) and the seed script's
    `validateCoordinates` (NaN passes). */
module CoordinateParsers {
  import opened Common
  import opened Coordinates
  import opened UserResponse
  import opened Seed

  /** The frontend reading is the backend reading followed by the range
      check: trimming the whole string first changes no part. */
  lemma FrontendIsRangeCheckedBackend(s: string, nf: NumberSyntax)
    ensures ParseCoordinates(Text(s), nf) ==
      match StoredLocation(Some(s), nf)
      case Some(p) => if InRange(p) then Some(p) else None
      case None => None
  {
    if s != "" {
      TrimmedPieces(s, ',');
      if Trim(s) == "" {
        assert SplitOn("", ",") == [""];
        assert |TrimAll(SplitOn(s, ","))| == 1;
      }
    }
  }

  /** The backend accepts a longitude the frontend refuses: with `parseFloat`
      reading "200" as 200 and "0" as 0, `"200,0"` gives `[200, 0]` in a
      server response but null in the browser. */
  lemma BackendSkipsRangeCheck(nf: NumberSyntax)
    requires nf.parse("200") == Some(200.0) && nf.parse("0") == Some(0.0)
    ensures StoredLocation(Some("200,0"), nf) == Some(LngLat(200.0, 0.0))
    ensures ParseCoordinates(Text("200,0"), nf) == None
  {
    assert "200,0" == "200" + [','] + "0";
    SplitTwo("200", "0", ',');
    TrimNoEdgeSpace("200");
    TrimNoEdgeSpace("0");
    FrontendIsRangeCheckedBackend("200,0", nf);
  }

  /** Everything the frontend accepts from a string, the seed check accepts. */
  lemma FrontendAcceptedPassesSeed(s: string, nf: NumberSyntax)
    requires ParseCoordinates(Text(s), nf).Some?
    ensures ValidateCoordinates(Some(s), nf)
  {
    FrontendIsRangeCheckedBackend(s, nf);
  }

  /** When both parts are numbers the seed check and the backend reading
      with a range check agree. */
  lemma SeedAgreesOnNumbers(s: string, nf: NumberSyntax)
    requires StoredLocation(Some(s), nf).Some?
    ensures ValidateCoordinates(Some(s), nf) <==> InRange(StoredLocation(Some(s), nf).value)
  {
  }

  /** The seed check lets NaN through: with "abc" not a number and "1" read
      as 1, `"abc,1"` passes the seed check while both other readings give
      null. */
  lemma SeedAcceptsNaN(nf: NumberSyntax)
    requires nf.parse("abc") == None && nf.parse("1") == Some(1.0)
    ensures ValidateCoordinates(Some("abc,1"), nf)
    ensures StoredLocation(Some("abc,1"), nf) == None
    ensures ParseCoordinates(Text("abc,1"), nf) == None
  {
    assert "abc,1" == "abc" + [','] + "1";
    SplitTwo("abc", "1", ',');
    TrimNoEdgeSpace("abc");
    TrimNoEdgeSpace("1");
    FrontendIsRangeCheckedBackend("abc,1", nf);
  }
}
