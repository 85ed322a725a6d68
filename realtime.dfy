/** The realtime delay index of obtener_retrasos_fgc (monitor_trenes.py):
    a map from trip id to the departure delay, in seconds, taken from the
    decoded GTFS-realtime feed. The feed is given already decoded. */
module Realtime {
  import opened Scan

  /** A stop-time event; a departure present without a delay reads as 0. */
  datatype StopTimeEvent = StopTimeEvent(delay: int)

  /** A stop-time update, with its departure event when the feed has one. */
  datatype StopTimeUpdate = StopTimeUpdate(departure: Option<StopTimeEvent>)

  /** A trip update: the trip's id and its stop-time updates in feed order. */
  datatype TripUpdate = TripUpdate(tripId: string, stopTimeUpdates: seq<StopTimeUpdate>)

  /** A feed entity, with its trip update when it has one. */
  datatype FeedEntity = FeedEntity(tripUpdate: Option<TripUpdate>)

  /** The test the inner loop applies to each update. */
  predicate PositiveDeparture(u: StopTimeUpdate)
  {
    u.departure.Some? && u.departure.value.delay > 0
  }

  /** Update i is the first with a positive departure delay. */
  predicate FirstPositiveAt(updates: seq<StopTimeUpdate>, i: nat)
    requires i < |updates|
  {
    PositiveDeparture(updates[i]) && forall j :: 0 <= j < i ==> !PositiveDeparture(updates[j])
  }

  /** The delay of the first update with a positive departure delay. */
  function FirstPositiveDelay(updates: seq<StopTimeUpdate>): (r: Option<int>)
    ensures r.None? <==> forall i :: 0 <= i < |updates| ==> !PositiveDeparture(updates[i])
    ensures r.Some? ==> r.value > 0
    ensures r.Some? ==> exists i :: 0 <= i < |updates| && FirstPositiveAt(updates, i) && updates[i].departure.value.delay == r.value
    decreases |updates|
  {
    if updates == [] then None
    else if PositiveDeparture(updates[0]) then Some(updates[0].departure.value.delay)
    else
      var rest := FirstPositiveDelay(updates[1..]);
      assert rest.Some? ==> exists i :: 0 <= i < |updates| && FirstPositiveAt(updates, i) && updates[i].departure.value.delay == rest.value by {
        if rest.Some? {
          var i :| 0 <= i < |updates[1..]| && FirstPositiveAt(updates[1..], i) && updates[1..][i].departure.value.delay == rest.value;
          assert forall j :: 0 < j < i + 1 ==> updates[j] == updates[1..][j - 1];
          assert FirstPositiveAt(updates, i + 1);
        }
      }
      rest
  }

  /** The delay an entity contributes, if any: the first positive departure
      delay of its trip update. */
  function EntityDelay(e: FeedEntity): (d: Option<int>)
    ensures d.Some? ==> e.tripUpdate.Some? && d.value > 0
    ensures d.None? <==> e.tripUpdate.None? || forall i :: 0 <= i < |e.tripUpdate.value.stopTimeUpdates| ==> !PositiveDeparture(e.tripUpdate.value.stopTimeUpdates[i])
  {
    match e.tripUpdate
    case None => None
    case Some(tu) => FirstPositiveDelay(tu.stopTimeUpdates)
  }

  /** The entity stores a delay for trip t. */
  predicate ReportsDelay(e: FeedEntity, t: string)
  {
    e.tripUpdate.Some? && e.tripUpdate.value.tripId == t && EntityDelay(e).Some?
  }

  /** The `retrasos` dictionary after processing the entities in order; a
      later entity for the same trip overwrites an earlier one. */
  function DelayIndex(feed: seq<FeedEntity>): map<string, int>
    decreases |feed|
  {
    if feed == [] then map[]
    else
      var index := DelayIndex(feed[..|feed| - 1]);
      var e := feed[|feed| - 1];
      match EntityDelay(e)
      case None => index
      case Some(d) => index[e.tripUpdate.value.tripId := d]
  }

  /** The nested loops with `break` that fill `retrasos`. */
  method BuildDelayIndex(feed: seq<FeedEntity>) returns (retrasos: map<string, int>)
    ensures retrasos == DelayIndex(feed)
  {
    retrasos := map[];
    for e := 0 to |feed|
      invariant retrasos == DelayIndex(feed[..e])
    {
      assert feed[..e + 1][..e] == feed[..e];
      var entity := feed[e];
      if entity.tripUpdate.Some? {
        var tripId := entity.tripUpdate.value.tripId;
        var updates := entity.tripUpdate.value.stopTimeUpdates;
        var u := 0;
        while u < |updates|
          invariant 0 <= u <= |updates|
          invariant retrasos == DelayIndex(feed[..e])
          invariant FirstPositiveDelay(updates[u..]) == FirstPositiveDelay(updates)
        {
          assert updates[u..][1..] == updates[u + 1..];
          if updates[u].departure.Some? && updates[u].departure.value.delay > 0 {
            retrasos := retrasos[tripId := updates[u].departure.value.delay];
            break;
          }
          u := u + 1;
        }
      }
    }
    assert feed[..|feed|] == feed;
  }

  /** Every stored delay is positive. */
  lemma {:induction false} DelayIndexPositive(feed: seq<FeedEntity>)
    ensures forall t :: t in DelayIndex(feed) ==> DelayIndex(feed)[t] > 0
    decreases |feed|
  {
    if feed != [] {
      DelayIndexPositive(feed[..|feed| - 1]);
    }
  }

  /** A trip is in the index exactly when some entity for it has a
      positive departure delay. */
  lemma {:induction false} DelayIndexKeys(feed: seq<FeedEntity>)
    ensures forall t :: t in DelayIndex(feed) <==> exists i :: 0 <= i < |feed| && ReportsDelay(feed[i], t)
    decreases |feed|
  {
    if feed != [] {
      var n := |feed| - 1;
      DelayIndexKeys(feed[..n]);
      assert forall i :: 0 <= i < n ==> feed[..n][i] == feed[i];
    }
  }

  /** The stored value is the delay of the LAST entity that reports one for
      the trip: there is no presence check, so later entities overwrite. */
  lemma {:induction false} DelayIndexLastEntityWins(feed: seq<FeedEntity>, i: nat, t: string)
    requires i < |feed| && ReportsDelay(feed[i], t)
    requires forall j :: i < j < |feed| ==> !ReportsDelay(feed[j], t)
    ensures t in DelayIndex(feed) && DelayIndex(feed)[t] == EntityDelay(feed[i]).value
    decreases |feed|
  {
    var n := |feed| - 1;
    if i < n {
      assert !ReportsDelay(feed[n], t);
      assert forall j :: i < j < n ==> feed[..n][j] == feed[j];
      DelayIndexLastEntityWins(feed[..n], i, t);
    }
  }
}
