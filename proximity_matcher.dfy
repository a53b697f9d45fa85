/**
 * find_closest_stop: the stop on a vehicle's trip nearest to its position,
 * reported only when it lies within MaxMatchMetres. The distance is the
 * geodesic distance supplied by the caller.
 */
module ProximityMatcher {
  import opened Wrappers
  import opened Gtfs

  /** A stop counts as "current" only within this many metres (bound inclusive). */
  const MaxMatchMetres: real := 100.0

  function StopDistance(s: Stop, vLat: real, vLon: real, dist: DistanceFn): real
  {
    dist(s.lat, s.lon, vLat, vLon)
  }

  /** Position k of `ids` names a stop of the table. */
  ghost predicate Present(ids: seq<string>, stops: map<string, Stop>, k: int)
  {
    0 <= k < |ids| && ids[k] in stops
  }

  /**
   * Position k is the first nearest present stop: no present stop is nearer,
   * and every present stop before it is strictly farther.
   */
  ghost predicate FirstNearest(ids: seq<string>, stops: map<string, Stop>, vLat: real, vLon: real,
                               dist: DistanceFn, k: int)
  {
    Present(ids, stops, k)
    && (forall j :: Present(ids, stops, j) ==>
          StopDistance(stops[ids[k]], vLat, vLon, dist) <= StopDistance(stops[ids[j]], vLat, vLon, dist))
    && (forall j :: 0 <= j < k && Present(ids, stops, j) ==>
          StopDistance(stops[ids[k]], vLat, vLon, dist) < StopDistance(stops[ids[j]], vLat, vLon, dist))
  }

  /** The running minimum of the scan: where it was found, the stop's name and its distance. */
  datatype Candidate = Candidate(pos: nat, name: string, metres: real)

  /**
   * The running minimum after scanning `ids` in order, skipping ids missing
   * from the table and replacing the minimum only on a strictly smaller distance.
   */
  function Scan(ids: seq<string>, stops: map<string, Stop>, vLat: real, vLon: real, dist: DistanceFn)
    : (best: Option<Candidate>)
    ensures best.None? <==> forall j :: 0 <= j < |ids| ==> ids[j] !in stops
    ensures best.Some? ==>
              FirstNearest(ids, stops, vLat, vLon, dist, best.value.pos)
              && best.value.name == stops[ids[best.value.pos]].name
              && best.value.metres == StopDistance(stops[ids[best.value.pos]], vLat, vLon, dist)
    decreases |ids|
  {
    if ids == [] then None
    else
      var n := |ids| - 1;
      var prev := Scan(ids[..n], stops, vLat, vLon, dist);
      assert forall j :: 0 <= j < n ==> ids[..n][j] == ids[j];
      if ids[n] !in stops then prev
      else
        var d := StopDistance(stops[ids[n]], vLat, vLon, dist);
        if prev.None? || d < prev.value.metres then Some(Candidate(n, stops[ids[n]].name, d))
        else prev
  }

  /**
   * find_closest_stop as a value: None for a trip the index does not know,
   * otherwise the name of the first nearest stop if it is within the bound.
   */
  function ClosestStop(schedule: Schedule, tripId: string, vLat: real, vLon: real, dist: DistanceFn)
    : (r: Option<string>)
    ensures tripId !in schedule.tripStopSequences ==> r == None
    ensures r.Some? <==>
              tripId in schedule.tripStopSequences
              && var ids := schedule.tripStopSequences[tripId];
                 exists j :: Present(ids, schedule.stops, j)
                             && StopDistance(schedule.stops[ids[j]], vLat, vLon, dist) <= MaxMatchMetres
    ensures r.Some? ==>
              var ids := schedule.tripStopSequences[tripId];
              exists k :: FirstNearest(ids, schedule.stops, vLat, vLon, dist, k)
                          && schedule.stops[ids[k]].name == r.value
                          && StopDistance(schedule.stops[ids[k]], vLat, vLon, dist) <= MaxMatchMetres
  {
    if tripId !in schedule.tripStopSequences then None
    else
      var ids := schedule.tripStopSequences[tripId];
      match Scan(ids, schedule.stops, vLat, vLon, dist)
      case None => None
      case Some(c) => if c.metres <= MaxMatchMetres then Some(c.name) else None
  }

  /** At most one position is the first nearest stop. */
  lemma FirstNearestUnique(ids: seq<string>, stops: map<string, Stop>, vLat: real, vLon: real,
                           dist: DistanceFn, k1: int, k2: int)
    requires FirstNearest(ids, stops, vLat, vLon, dist, k1)
    requires FirstNearest(ids, stops, vLat, vLon, dist, k2)
    ensures k1 == k2
  {
  }

  /**
   * The outcome is decided by the first nearest stop: its name when it is
   * within the bound, None otherwise.
   */
  lemma ClosestStopIsFirstNearest(schedule: Schedule, tripId: string, vLat: real, vLon: real,
                                  dist: DistanceFn, k: int)
    requires tripId in schedule.tripStopSequences
    requires FirstNearest(schedule.tripStopSequences[tripId], schedule.stops, vLat, vLon, dist, k)
    ensures var ids := schedule.tripStopSequences[tripId];
            var s := schedule.stops[ids[k]];
            ClosestStop(schedule, tripId, vLat, vLon, dist)
            == if StopDistance(s, vLat, vLon, dist) <= MaxMatchMetres then Some(s.name) else None
  {
  }

  /**
   * Tie-break: of two present stops at the same distance, the later one is
   * never the one chosen, because the minimum moves only on a strictly smaller distance.
   */
  lemma TieGoesToEarlierStop(ids: seq<string>, stops: map<string, Stop>, vLat: real, vLon: real,
                             dist: DistanceFn, i: int, j: int)
    requires Present(ids, stops, i) && Present(ids, stops, j) && i < j
    requires StopDistance(stops[ids[i]], vLat, vLon, dist) == StopDistance(stops[ids[j]], vLat, vLon, dist)
    ensures Scan(ids, stops, vLat, vLon, dist).Some?
    ensures Scan(ids, stops, vLat, vLon, dist).value.pos != j
  {
  }

  /**
   * find_closest_stop: scans the trip's stop ids keeping a running minimum
   * (None stands for the initial infinity) and the name that achieved it.
   */
  method FindClosestStop(schedule: Schedule, tripId: string, vLat: real, vLon: real, dist: DistanceFn)
    returns (r: Option<string>)
    ensures r == ClosestStop(schedule, tripId, vLat, vLon, dist)
  {
    if tripId !in schedule.tripStopSequences {
      return None;
    }
    var ids := schedule.tripStopSequences[tripId];
    var closest: Option<string> := None;
    var minDist: Option<real> := None;
    var i := 0;
    while i < |ids|
      invariant 0 <= i <= |ids|
      invariant match Scan(ids[..i], schedule.stops, vLat, vLon, dist)
                case None => closest.None? && minDist.None?
                case Some(c) => closest == Some(c.name) && minDist == Some(c.metres)
    {
      assert ids[..i + 1][..i] == ids[..i];
      var stopId := ids[i];
      if stopId in schedule.stops {
        var info := schedule.stops[stopId];
        var d := dist(info.lat, info.lon, vLat, vLon);
        if minDist.None? || d < minDist.value {
          minDist := Some(d);
          closest := Some(info.name);
        }
      }
      i := i + 1;
    }
    assert ids[..i] == ids;
    r := if minDist.Some? && minDist.value <= MaxMatchMetres then closest else None;
  }
}
