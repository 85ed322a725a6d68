/** Small concrete scenarios of the delay query and the station search.
    The normalisation stays abstract: each scenario states only the
    substring facts about normalised names it relies on. */
module Scenarios {
  import opened Text
  import opened Scan
  import opened Realtime
  import opened Schedule
  import opened Stations

  /** A departure without a delay is skipped, the next positive one is kept;
      a negative delay leaves the trip out of the index. */
  lemma FirstPositiveDepartureKept()
    ensures DelayIndex([FeedEntity(Some(TripUpdate("T", [StopTimeUpdate(None), StopTimeUpdate(Some(StopTimeEvent(300)))])))])
      == map["T" := 300]
    ensures "T" !in DelayIndex([FeedEntity(Some(TripUpdate("T", [StopTimeUpdate(Some(StopTimeEvent(-30)))])))])
  {
    var updates := [StopTimeUpdate(None), StopTimeUpdate(Some(StopTimeEvent(300)))];
    assert updates[1..] == [StopTimeUpdate(Some(StopTimeEvent(300)))];
    var e := [FeedEntity(Some(TripUpdate("T", updates)))];
    assert e[..0] == [];
    var negative := [StopTimeUpdate(Some(StopTimeEvent(-30)))];
    assert negative[1..] == [];
    var n := [FeedEntity(Some(TripUpdate("T", negative)))];
    assert n[..0] == [];
  }

  /** 125 seconds late is 2 minutes: the division truncates. */
  lemma DelayTruncatesToMinutes()
    ensures DelayMinutes(map["T" := 125], "T") == 2
    ensures DelayMinutes(map["T" := 125], "U") == 0
  {
  }

  /** Two stops whose names both contain the query: the first in file order
      wins, even when the second is an exact match. */
  lemma FirstStopInFileOrderWins(norm: string -> string)
    requires Contains(norm("sants"), norm("Sants Estació"))
    ensures StopResolution(norm, "sants", [["1", "0", "Sants Estació", "A"], ["2", "0", "Sants", "B"]]) == StopFound("A")
  {
    var stops := [["1", "0", "Sants Estació", "A"], ["2", "0", "Sants", "B"]];
    StopResolutionFirstMatch(norm, "sants", stops, 0);
  }

  /** The header line is matched like a data line: a query contained in
      the name column's title resolves to the header's field 3. */
  lemma HeaderLineIsNotSkipped(norm: string -> string)
    requires Contains(norm("name"), norm("stop_name"))
    ensures StopResolution(norm, "name", [["stop_id", "stop_code", "stop_name", "stop_id2"], ["P", "0", "Provença", "S1"]])
      == StopFound("stop_id2")
  {
    var stops := [["stop_id", "stop_code", "stop_name", "stop_id2"], ["P", "0", "Provença", "S1"]];
    StopResolutionFirstMatch(norm, "name", stops, 0);
  }

  /** A matching stop line with only three fields fails at field 3. */
  lemma ThreeFieldStopLineFails(norm: string -> string)
    requires Contains(norm("sants"), norm("Sants"))
    ensures StopResolution(norm, "sants", [["2", "0", "Sants"]]) == StopRowTooShort
  {
    StopResolutionFirstMatch(norm, "sants", [["2", "0", "Sants"]], 0);
  }

  /** One stop, one visit, the trip and its route present, no delays: one
      record with the route's short name, the trip's destination, the
      scheduled times and zero minutes of delay. */
  lemma OneVisitEndToEnd()
    ensures var stopTimes := [["T1", "10:14", "10:15", "S1"]];
      var trips := [["R1", "WD", "T1", "Terrassa"]];
      var routes := [["R1", "FGC", "S1"]];
      Arrivals("S1", stopTimes, trips, routes, DelayIndex([]))
        == [TrainArrival("T1", "10:14", "10:15", "Terrassa", "S1", 0)]
  {
    var stopTimes := [["T1", "10:14", "10:15", "S1"]];
    var trips := [["R1", "WD", "T1", "Terrassa"]];
    var routes := [["R1", "FGC", "S1"]];
    FirstIndexAt(trips, TripMatcher("T1"), 0);
    FirstIndexAt(routes, RouteMatcher("R1"), 0);
    assert stopTimes[..0] == [];
  }

  /** A trip whose route is missing from routes.txt still gets a record,
      with "N/A" as its line. */
  lemma MissingRouteFallsBack()
    ensures TripDetailsFor([["R9", "WD", "T2", "Terrassa"]], [["R1", "FGC", "S1"]], "T2")
      == TripDetails("Terrassa", NotAvailable)
    ensures TripDetailsFor([["R9", "WD", "T2"]], [], "T2") == TripDetails(NoDestination, NotAvailable)
    ensures TripDetailsFor([], [], "T2") == TripDetails(NotAvailable, NotAvailable)
  {
    FirstIndexAt([["R9", "WD", "T2", "Terrassa"]], TripMatcher("T2"), 0);
    RouteNameCases([["R1", "FGC", "S1"]], "R9");
    FirstIndexAt([["R9", "WD", "T2"]], TripMatcher("T2"), 0);
  }

  /** A line of routes.txt splits into its comma-separated fields. */
  lemma SplitRoutesLine()
    ensures Table(["R1,FGC,S1"]) == [["R1", "FGC", "S1"]]
  {
    var fields := ["R1", "FGC", "S1"];
    assert Join(fields, ',') == "R1,FGC,S1";
    SplitJoin(fields, ',');
  }

  /** The end-to-end query over four one-line files whose lines split into
      the fields of the scenario above: "provenca" finds the one record. */
  lemma OneVisitReport(norm: string -> string, stops: seq<string>, stopTimes: seq<string>, trips: seq<string>, routes: seq<string>)
    requires Contains(norm("provenca"), norm("Provença"))
    requires Table(stops) == [["P", "0", "Provença", "S1"]]
    requires Table(stopTimes) == [["T1", "10:14", "10:15", "S1"]]
    requires Table(trips) == [["R1", "WD", "T1", "Terrassa"]]
    requires Table(routes) == [["R1", "FGC", "S1"]]
    ensures DelayReportFor(norm, "provenca", [], stops, stopTimes, trips, routes)
      == Trains([TrainArrival("T1", "10:14", "10:15", "Terrassa", "S1", 0)])
  {
    StopResolutionFirstMatch(norm, "provenca", [["P", "0", "Provença", "S1"]], 0);
    OneVisitEndToEnd();
  }

  /** A query that no stop name contains ends with the stop not found,
      whatever the other files hold. */
  lemma UnknownStopReport(norm: string -> string, stops: seq<string>, stopTimes: seq<string>, trips: seq<string>, routes: seq<string>)
    requires !Contains(norm("nonexistent"), norm("Provença"))
    requires Table(stops) == [["P", "0", "Provença", "S1"]]
    ensures DelayReportFor(norm, "nonexistent", [], stops, stopTimes, trips, routes) == UnknownStop
  {
    StopResolutionNoMatch(norm, "nonexistent", [["P", "0", "Provença", "S1"]]);
  }

  /** Searching a one-station directory for part of its name finds it. */
  lemma SearchOneStation(norm: string -> string)
    requires norm("Barcelona Sants") == "barcelona sants" && norm("sants") == "sants"
    ensures Matching(norm("sants"), BuildDirectory(norm, [StationRow("Barcelona Sants", "08001")]).Items())
      == [StationEntry("barcelona sants", "08001")]
  {
    var rows := [StationRow("Barcelona Sants", "08001")];
    assert rows[..0] == [];
    var d := BuildDirectory(norm, rows);
    assert d.Items() == [StationEntry("barcelona sants", "08001")];
    assert OccursAt("sants", "barcelona sants", 10);
    ContainsIffOccurs("sants", "barcelona sants");
  }

  /** The directory loaded from the one row of Barcelona Sants. */
  lemma OneStationDirectory(norm: string -> string)
    requires norm("Barcelona Sants") == "barcelona sants"
    ensures var d := BuildDirectory(norm, [StationRow("Barcelona Sants", "08001")]);
      d.order == ["barcelona sants"] && d.Items() == [StationEntry("barcelona sants", "08001")]
  {
    var rows := [StationRow("Barcelona Sants", "08001")];
    assert rows[..0] == [];
  }

  /** "barcelona sants" holds no 'z', so the query "zzz" matches no entry. */
  lemma NothingContainsZzz()
    ensures Matching("zzz", [StationEntry("barcelona sants", "08001")]) == []
  {
    FirstCharacterMissing("zzz", "barcelona sants");
    var items := [StationEntry("barcelona sants", "08001")];
    assert items[..0] == [];
  }

  /** Loading one station and searching it for "sants" finds the station. */
  method SearchFindsStation(norm: string -> string) returns (outcome: SearchOutcome)
    requires norm("Barcelona Sants") == "barcelona sants" && norm("sants") == "sants"
    ensures outcome == StationsFound([StationEntry("barcelona sants", "08001")])
  {
    var stations := LoadStations(norm, [StationRow("Barcelona Sants", "08001")]);
    OneStationDirectory(norm);
    SearchOneStation(norm);
    outcome := SearchStations(norm, stations, "sants");
  }

  /** Searching the same directory for "zzz" finds nothing: a normal
      outcome, not an error. */
  method SearchFindsNothing(norm: string -> string) returns (outcome: SearchOutcome)
    requires norm("Barcelona Sants") == "barcelona sants" && norm("zzz") == "zzz"
    ensures outcome == NoStationsFound
  {
    var stations := LoadStations(norm, [StationRow("Barcelona Sants", "08001")]);
    OneStationDirectory(norm);
    NothingContainsZzz();
    outcome := SearchStations(norm, stations, "zzz");
  }
}
