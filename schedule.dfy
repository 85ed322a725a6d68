/** The static-schedule side of obtener_retrasos_fgc (monitor_trenes.py):
    resolving a stop name to a stop id over stops.txt, collecting the
    stop_times.txt rows of that stop, joining each to trips.txt and
    routes.txt, and adding the delay from the realtime index.

    A table is the sequence of its lines, already stripped, and a row is a
    line's fields, `line.split(',')`; the scans below work on the rows.
    The header line is a row like any other. Join keys are compared
    exactly; only stop names go through `norm`. */
module Schedule {
  import opened Text
  import opened Scan
  import opened Realtime

  const NotAvailable := "N/A"
  const NoDestination := "Sin destino"

  /** The fields of one line. */
  type Row = seq<string>

  /** `line.split(',')` for every line of a table. */
  function Table(lines: seq<string>): (rows: seq<Row>)
    ensures |rows| == |lines|
    ensures forall i :: 0 <= i < |lines| ==> rows[i] == Split(lines[i], ',') && |rows[i]| >= 1
  {
    seq(|lines|, i requires 0 <= i < |lines| => Split(lines[i], ','))
  }

  // ---------------------------------------------------------------------
  // Stop resolution (stops.txt: name at field 2, stop id at field 3)
  // ---------------------------------------------------------------------

  /** The test of the stops loop: more than two fields and the normalised
      name contains the normalised query. */
  predicate IsStopMatch(norm: string -> string, normalizedQuery: string, fields: seq<string>)
  {
    |fields| > 2 && Contains(normalizedQuery, norm(fields[2]))
  }

  function StopMatcher(norm: string -> string, normalizedQuery: string): Row -> bool
  {
    row => IsStopMatch(norm, normalizedQuery, row)
  }

  /** What the stop scan ends with. StopRowTooShort is the IndexError raised
      when the matching line has exactly three fields. An empty stop id is
      treated like no match. */
  datatype StopLookup = StopFound(stopId: string) | StopNotFound | StopRowTooShort

  /** The outcome the first matching line decides. */
  function LookupAt(fields: seq<string>): (r: StopLookup)
    ensures r == StopRowTooShort <==> |fields| <= 3
    ensures r == StopNotFound <==> |fields| > 3 && fields[3] == ""
    ensures r.StopFound? ==> r.stopId == fields[3] && r.stopId != ""
  {
    if |fields| <= 3 then StopRowTooShort
    else if fields[3] == "" then StopNotFound
    else StopFound(fields[3])
  }

  function StopResolution(norm: string -> string, query: string, stops: seq<Row>): StopLookup
  {
    match FirstIndex(stops, StopMatcher(norm, norm(query)))
    case None => StopNotFound
    case Some(i) => LookupAt(stops[i])
  }

  /** The break-terminated scan that sets `stop_id_encontrado`. */
  method ResolveStop(norm: string -> string, query: string, stops: seq<Row>)
    returns (lookup: StopLookup)
    ensures lookup == StopResolution(norm, query, stops)
  {
    var stopIdFound: Option<string> := None;
    var normalizedQuery := norm(query);
    var i := 0;
    while i < |stops|
      invariant 0 <= i <= |stops|
      invariant forall j :: 0 <= j < i ==> !StopMatcher(norm, normalizedQuery)(stops[j])
      invariant stopIdFound == None
    {
      var fields := stops[i];
      if |fields| > 2 && Contains(normalizedQuery, norm(fields[2])) {
        FirstIndexAt(stops, StopMatcher(norm, normalizedQuery), i);
        if |fields| <= 3 {
          return StopRowTooShort;
        }
        stopIdFound := Some(fields[3]);
        break;
      }
      i := i + 1;
    }
    if stopIdFound.None? || stopIdFound.value == "" {
      return StopNotFound;
    }
    return StopFound(stopIdFound.value);
  }

  /** The first line whose name matches decides the outcome; with no
      matching line the stop is not found. */
  lemma StopResolutionFirstMatch(norm: string -> string, query: string, stops: seq<Row>, i: nat)
    requires i < |stops| && IsStopMatch(norm, norm(query), stops[i])
    requires forall j :: 0 <= j < i ==> !IsStopMatch(norm, norm(query), stops[j])
    ensures StopResolution(norm, query, stops) == LookupAt(stops[i])
  {
    assert StopMatcher(norm, norm(query))(stops[i]);
  }

  lemma StopResolutionNoMatch(norm: string -> string, query: string, stops: seq<Row>)
    requires forall j :: 0 <= j < |stops| ==> !IsStopMatch(norm, norm(query), stops[j])
    ensures StopResolution(norm, query, stops) == StopNotFound
  {
    assert forall j :: 0 <= j < |stops| ==> !StopMatcher(norm, norm(query))(stops[j]);
  }

  /** Once a line matches, no later line is looked at. */
  lemma StopResolutionIgnoresLaterLines(norm: string -> string, query: string, stops: seq<Row>, later: seq<Row>, i: nat)
    requires i < |stops| && IsStopMatch(norm, norm(query), stops[i])
    ensures StopResolution(norm, query, stops + later) == StopResolution(norm, query, stops)
  {
    assert StopMatcher(norm, norm(query))(stops[i]);
    FirstIndexIgnoresLater(stops, later, StopMatcher(norm, norm(query)));
    var k := FirstIndex(stops, StopMatcher(norm, norm(query))).value;
    assert (stops + later)[k] == stops[k];
  }

  /** A found id is never empty and is field 3 of a matching line. */
  lemma StopFoundIsField3(norm: string -> string, query: string, stops: seq<Row>)
    requires StopResolution(norm, query, stops).StopFound?
    ensures var id := StopResolution(norm, query, stops).stopId;
      id != "" && exists i :: 0 <= i < |stops| && IsStopMatch(norm, norm(query), stops[i]) && |stops[i]| > 3 && stops[i][3] == id
  {
    var i := FirstIndex(stops, StopMatcher(norm, norm(query))).value;
    assert StopMatcher(norm, norm(query))(stops[i]);
  }

  // ---------------------------------------------------------------------
  // Trip enrichment (trips.txt: route id 0, trip id 2, headsign 3;
  // routes.txt: route id 0, short name 2)
  // ---------------------------------------------------------------------

  predicate IsTripRow(tripId: string, fields: seq<string>)
  {
    |fields| > 2 && fields[2] == tripId
  }

  predicate IsRouteRow(routeId: string, fields: seq<string>)
  {
    |fields| > 2 && fields[0] == routeId
  }

  /** Line i is the first trip line for the trip id. */
  predicate FirstTripRow(trips: seq<Row>, tripId: string, i: nat)
    requires i < |trips|
  {
    IsTripRow(tripId, trips[i]) && forall j :: 0 <= j < i ==> !IsTripRow(tripId, trips[j])
  }

  /** Line j is the first route line for the route id. */
  predicate FirstRouteRow(routes: seq<Row>, routeId: string, j: nat)
    requires j < |routes|
  {
    IsRouteRow(routeId, routes[j]) && forall k :: 0 <= k < j ==> !IsRouteRow(routeId, routes[k])
  }

  function TripMatcher(tripId: string): Row -> bool
  {
    row => IsTripRow(tripId, row)
  }

  function RouteMatcher(routeId: string): Row -> bool
  {
    row => IsRouteRow(routeId, row)
  }

  /** `destino` and `linea` of one visit. */
  datatype TripDetails = TripDetails(destino: string, linea: string)

  /** Field 2 of the first route line for the route id, or "N/A". */
  function RouteName(routes: seq<Row>, routeId: string): (linea: string)
    ensures linea != NotAvailable ==>
      exists j :: 0 <= j < |routes| && FirstRouteRow(routes, routeId, j) && routes[j][2] == linea
  {
    match FirstIndex(routes, RouteMatcher(routeId))
    case None => NotAvailable
    case Some(j) =>
      assert RouteMatcher(routeId)(routes[j]);
      routes[j][2]
  }

  /** Destination and line from the first trip line for the trip id. */
  function TripDetailsFor(trips: seq<Row>, routes: seq<Row>, tripId: string): (details: TripDetails)
    ensures details.destino == NotAvailable || exists i :: 0 <= i < |trips| && FirstTripRow(trips, tripId, i)
  {
    match FirstIndex(trips, TripMatcher(tripId))
    case None => TripDetails(NotAvailable, NotAvailable)
    case Some(i) =>
      assert TripMatcher(tripId)(trips[i]);
      assert FirstTripRow(trips, tripId, i);
      var fields := trips[i];
      TripDetails(if |fields| > 3 then fields[3] else NoDestination, RouteName(routes, fields[0]))
  }

  /** The routes loop: the first route line for the route id. */
  method LookUpRoute(routes: seq<Row>, routeId: string) returns (linea: string)
    ensures linea == RouteName(routes, routeId)
  {
    linea := NotAvailable;
    var r := 0;
    while r < |routes|
      invariant 0 <= r <= |routes|
      invariant forall j :: 0 <= j < r ==> !RouteMatcher(routeId)(routes[j])
    {
      var rFields := routes[r];
      if |rFields| > 2 && rFields[0] == routeId {
        FirstIndexAt(routes, RouteMatcher(routeId), r);
        return rFields[2];
      }
      r := r + 1;
    }
  }

  /** The trips loop, with the routes loop run for the first trip line and
      both stopping at their first match. */
  method LookUpTrip(trips: seq<Row>, routes: seq<Row>, tripId: string)
    returns (details: TripDetails)
    ensures details == TripDetailsFor(trips, routes, tripId)
  {
    details := TripDetails(NotAvailable, NotAvailable);
    var t := 0;
    while t < |trips|
      invariant 0 <= t <= |trips|
      invariant forall j :: 0 <= j < t ==> !TripMatcher(tripId)(trips[j])
    {
      var tFields := trips[t];
      if |tFields| > 2 && tFields[2] == tripId {
        FirstIndexAt(trips, TripMatcher(tripId), t);
        var destino := if |tFields| > 3 then tFields[3] else NoDestination;
        var linea := LookUpRoute(routes, tFields[0]);
        return TripDetails(destino, linea);
      }
      t := t + 1;
    }
  }

  /** The three cases of the trip join: no trip line gives "N/A" twice; the
      first trip line gives its field 3 (or "Sin destino" when it has only
      three fields) and the route name of its field 0. */
  lemma TripDetailsCases(trips: seq<Row>, routes: seq<Row>, tripId: string)
    ensures (forall i :: 0 <= i < |trips| ==> !IsTripRow(tripId, trips[i])) ==>
      TripDetailsFor(trips, routes, tripId) == TripDetails(NotAvailable, NotAvailable)
    ensures forall i :: 0 <= i < |trips| && FirstTripRow(trips, tripId, i) ==>
        TripDetailsFor(trips, routes, tripId) == TripDetails(
          if |trips[i]| > 3 then trips[i][3] else NoDestination,
          RouteName(routes, trips[i][0]))
  {
    if forall i :: 0 <= i < |trips| ==> !IsTripRow(tripId, trips[i]) {
      assert forall i :: 0 <= i < |trips| ==> !TripMatcher(tripId)(trips[i]);
    }
    forall i | 0 <= i < |trips| && FirstTripRow(trips, tripId, i)
      ensures FirstIndex(trips, TripMatcher(tripId)) == Some(i)
    {
      assert TripMatcher(tripId)(trips[i]);
    }
  }

  /** The route name is field 2 of the first route line with the route id,
      or "N/A" when there is none. */
  lemma RouteNameCases(routes: seq<Row>, routeId: string)
    ensures (forall j :: 0 <= j < |routes| ==> !IsRouteRow(routeId, routes[j])) ==>
      RouteName(routes, routeId) == NotAvailable
    ensures forall j :: 0 <= j < |routes| && FirstRouteRow(routes, routeId, j) ==>
        RouteName(routes, routeId) == routes[j][2]
  {
    if forall j :: 0 <= j < |routes| ==> !IsRouteRow(routeId, routes[j]) {
      assert forall j :: 0 <= j < |routes| ==> !RouteMatcher(routeId)(routes[j]);
    }
    forall j | 0 <= j < |routes| && FirstRouteRow(routes, routeId, j)
      ensures FirstIndex(routes, RouteMatcher(routeId)) == Some(j)
    {
      assert RouteMatcher(routeId)(routes[j]);
    }
  }

  // ---------------------------------------------------------------------
  // Delay in minutes
  // ---------------------------------------------------------------------

  /** `retrasos[trip_id] // 60` when the trip is in the index, otherwise the
      default 0. Python's `//` floors; for the divisor 60 this is Dafny's `/`. */
  function DelayMinutes(retrasos: map<string, int>, tripId: string): (minutes: int)
    ensures tripId !in retrasos ==> minutes == 0
    ensures tripId in retrasos ==> minutes * 60 <= retrasos[tripId] < (minutes + 1) * 60
  {
    if tripId in retrasos then retrasos[tripId] / 60 else 0
  }

  // ---------------------------------------------------------------------
  // Visits of the stop (stop_times.txt: trip id 0, arrival 1, departure 2,
  // stop id 3)
  // ---------------------------------------------------------------------

  /** One `detalles_viaje` record. */
  datatype TrainArrival = TrainArrival(
    tripId: string,
    arrivalTime: string,
    departureTime: string,
    destino: string,
    linea: string,
    retrasoMin: int)

  predicate IsVisit(stopId: string, fields: seq<string>)
  {
    |fields| > 3 && fields[3] == stopId
  }

  function VisitMatcher(stopId: string): Row -> bool
  {
    row => IsVisit(stopId, row)
  }

  /** The record built for one stop_times line of the stop. */
  function ArrivalFor(fields: seq<string>, trips: seq<Row>, routes: seq<Row>, retrasos: map<string, int>): TrainArrival
    requires |fields| > 3
  {
    var details := TripDetailsFor(trips, routes, fields[0]);
    TrainArrival(fields[0], fields[1], fields[2], details.destino, details.linea, DelayMinutes(retrasos, fields[0]))
  }

  /** `trenes_en_parada` after the stop_times loop. */
  function Arrivals(stopId: string, stopTimes: seq<Row>, trips: seq<Row>, routes: seq<Row>, retrasos: map<string, int>): seq<TrainArrival>
    decreases |stopTimes|
  {
    if stopTimes == [] then []
    else
      var found := Arrivals(stopId, stopTimes[..|stopTimes| - 1], trips, routes, retrasos);
      var fields := stopTimes[|stopTimes| - 1];
      if IsVisit(stopId, fields) then found + [ArrivalFor(fields, trips, routes, retrasos)] else found
  }

  /** The stop_times loop: one record per line of the stop, in file order. */
  method CollectArrivals(stopId: string, stopTimes: seq<Row>, trips: seq<Row>, routes: seq<Row>, retrasos: map<string, int>)
    returns (trenes: seq<TrainArrival>)
    ensures trenes == Arrivals(stopId, stopTimes, trips, routes, retrasos)
  {
    trenes := [];
    for i := 0 to |stopTimes|
      invariant trenes == Arrivals(stopId, stopTimes[..i], trips, routes, retrasos)
    {
      assert stopTimes[..i + 1][..i] == stopTimes[..i];
      var fields := stopTimes[i];
      if |fields| > 3 && fields[3] == stopId {
        var tripId := fields[0];
        var detalles := TrainArrival(tripId, fields[1], fields[2], NotAvailable, NotAvailable, 0);
        var details := LookUpTrip(trips, routes, tripId);
        detalles := detalles.(destino := details.destino, linea := details.linea);
        if tripId in retrasos {
          detalles := detalles.(retrasoMin := retrasos[tripId] / 60);
        }
        trenes := trenes + [detalles];
      }
    }
    assert stopTimes[..|stopTimes|] == stopTimes;
  }

  /** The records correspond one to one, in order, with the stop_times
      lines that have more than three fields and the stop id in field 3;
      each record carries that line's fields 0, 1 and 2. */
  lemma {:induction false} ArrivalsPerVisit(stopId: string, stopTimes: seq<Row>, trips: seq<Row>, routes: seq<Row>, retrasos: map<string, int>)
    ensures var visits := Positions(stopTimes, VisitMatcher(stopId));
      var trenes := Arrivals(stopId, stopTimes, trips, routes, retrasos);
      && |trenes| == |visits|
      && forall k :: 0 <= k < |visits| ==>
        IsVisit(stopId, stopTimes[visits[k]]) &&
        trenes[k] == ArrivalFor(stopTimes[visits[k]], trips, routes, retrasos)
    decreases |stopTimes|
  {
    if stopTimes != [] {
      var n := |stopTimes| - 1;
      var prefix := stopTimes[..n];
      ArrivalsPerVisit(stopId, prefix, trips, routes, retrasos);
      var visits0 := Positions(prefix, VisitMatcher(stopId));
      var trenes0 := Arrivals(stopId, prefix, trips, routes, retrasos);
      var visits := Positions(stopTimes, VisitMatcher(stopId));
      var trenes := Arrivals(stopId, stopTimes, trips, routes, retrasos);
      assert forall k :: 0 <= k < |visits0| ==> prefix[visits0[k]] == stopTimes[visits0[k]];
      if IsVisit(stopId, stopTimes[n]) {
        assert VisitMatcher(stopId)(stopTimes[n]);
        assert visits == visits0 + [n];
        assert trenes == trenes0 + [ArrivalFor(stopTimes[n], trips, routes, retrasos)];
      } else {
        assert !VisitMatcher(stopId)(stopTimes[n]);
        assert visits == visits0;
        assert trenes == trenes0;
      }
    }
  }

  /** No records at all exactly when no line of stop_times is a visit of the stop. */
  lemma ArrivalsEmpty(stopId: string, stopTimes: seq<Row>, trips: seq<Row>, routes: seq<Row>, retrasos: map<string, int>)
    ensures Arrivals(stopId, stopTimes, trips, routes, retrasos) == [] <==>
      forall i :: 0 <= i < |stopTimes| ==> !IsVisit(stopId, stopTimes[i])
  {
    ArrivalsPerVisit(stopId, stopTimes, trips, routes, retrasos);
    var visits := Positions(stopTimes, VisitMatcher(stopId));
    if exists i :: 0 <= i < |stopTimes| && IsVisit(stopId, stopTimes[i]) {
      var i :| 0 <= i < |stopTimes| && IsVisit(stopId, stopTimes[i]);
      assert VisitMatcher(stopId)(stopTimes[i]);
      assert i in visits;
    }
  }

  /** With the index built from a feed, every record's delay in minutes is
      non-negative. */
  lemma ArrivalDelaysNonNegative(stopId: string, stopTimes: seq<Row>, trips: seq<Row>, routes: seq<Row>, feed: seq<FeedEntity>)
    ensures forall a :: a in Arrivals(stopId, stopTimes, trips, routes, DelayIndex(feed)) ==> a.retrasoMin >= 0
  {
    DelayIndexPositive(feed);
    var retrasos := DelayIndex(feed);
    ArrivalsPerVisit(stopId, stopTimes, trips, routes, retrasos);
  }

  // ---------------------------------------------------------------------
  // The whole delay query
  // ---------------------------------------------------------------------

  /** How obtener_retrasos_fgc ends once both feeds are at hand: the stop is
      unknown, the matching stop line is too short (IndexError), the stop
      has no scheduled trains, or the records to display. */
  datatype DelayReport = UnknownStop | StopLineIndexError | NoTrainsScheduled | Trains(trenes: seq<TrainArrival>)

  /** The outcome for the tables as lines of text. */
  function DelayReportFor(norm: string -> string, query: string, feed: seq<FeedEntity>,
                          stops: seq<string>, stopTimes: seq<string>, trips: seq<string>, routes: seq<string>): (report: DelayReport)
    ensures report.Trains? ==> report.trenes != []
    ensures report == UnknownStop <==> StopResolution(norm, query, Table(stops)) == StopNotFound
    ensures report == StopLineIndexError <==> StopResolution(norm, query, Table(stops)) == StopRowTooShort
    ensures StopResolution(norm, query, Table(stops)).StopFound? ==>
      var id := StopResolution(norm, query, Table(stops)).stopId;
      && (report == NoTrainsScheduled <==> forall i :: 0 <= i < |stopTimes| ==> !IsVisit(id, Table(stopTimes)[i]))
      && (report.Trains? ==> report.trenes == Arrivals(id, Table(stopTimes), Table(trips), Table(routes), DelayIndex(feed)))
  {
    match StopResolution(norm, query, Table(stops))
    case StopNotFound => UnknownStop
    case StopRowTooShort => StopLineIndexError
    case StopFound(stopId) =>
      var trenes := Arrivals(stopId, Table(stopTimes), Table(trips), Table(routes), DelayIndex(feed));
      ArrivalsEmpty(stopId, Table(stopTimes), Table(trips), Table(routes), DelayIndex(feed));
      if trenes == [] then NoTrainsScheduled else Trains(trenes)
  }

  /** obtener_retrasos_fgc without the downloads, decoding and printing: the
      delay index first, then the stop, then its visits. */
  method CheckDelays(norm: string -> string, query: string, feed: seq<FeedEntity>,
                     stops: seq<string>, stopTimes: seq<string>, trips: seq<string>, routes: seq<string>)
    returns (report: DelayReport)
    ensures report == DelayReportFor(norm, query, feed, stops, stopTimes, trips, routes)
  {
    var retrasos := BuildDelayIndex(feed);
    var lookup := ResolveStop(norm, query, Table(stops));
    match lookup
    case StopNotFound => return UnknownStop;
    case StopRowTooShort => return StopLineIndexError;
    case StopFound(stopId) =>
      var trenes := CollectArrivals(stopId, Table(stopTimes), Table(trips), Table(routes), retrasos);
      if trenes == [] {
        return NoTrainsScheduled;
      }
      return Trains(trenes);
  }
}
