/**
 * The feed loop: every feed entity that carries a vehicle on one of the
 * resolved route ids yields a bus report, in feed order, labelled with the
 * stop the vehicle is nearest to or with Unknown.
 */
module FeedFusion {
  import opened Wrappers
  import opened Gtfs
  import opened ProximityMatcher

  /** The "Current Stop" line: a stop name, or Unknown when none is near. */
  datatype CurrentStop = AtStop(name: string) | Unknown

  /** One printed block: bus id, route id, latitude, longitude and current stop. */
  datatype BusReport = BusReport(busId: string, routeId: string, lat: real, lon: real, currentStop: CurrentStop)

  /** The truthiness test on the matcher's answer: None and the empty name both give Unknown. */
  function Label(stopName: Option<string>): CurrentStop
  {
    match stopName
    case Some(name) => if name != "" then AtStop(name) else Unknown
    case None => Unknown
  }

  /** The entity has a vehicle whose trip's route id is one of `routeIds`. */
  predicate Tracked(e: FeedEntity, routeIds: set<string>)
  {
    e.vehicle.Some? && e.vehicle.value.routeId in routeIds
  }

  function ReportOf(e: FeedEntity, schedule: Schedule, dist: DistanceFn): BusReport
    requires e.vehicle.Some?
  {
    var v := e.vehicle.value;
    BusReport(e.id, v.routeId, v.lat, v.lon, Label(ClosestStop(schedule, v.tripId, v.lat, v.lon, dist)))
  }

  /** The reports emitted after reading `feed` in order. */
  function Reports(feed: seq<FeedEntity>, routeIds: set<string>, schedule: Schedule, dist: DistanceFn)
    : seq<BusReport>
    decreases |feed|
  {
    if feed == [] then []
    else
      var n := |feed| - 1;
      var prev := Reports(feed[..n], routeIds, schedule, dist);
      if Tracked(feed[n], routeIds) then prev + [ReportOf(feed[n], schedule, dist)] else prev
  }

  /** Reference definition: the positions of the tracked entities, in increasing order. */
  function TrackedPositions(feed: seq<FeedEntity>, routeIds: set<string>): (ks: seq<nat>)
    ensures forall a :: 0 <= a < |ks| ==> ks[a] < |feed| && Tracked(feed[ks[a]], routeIds)
    ensures forall a, b :: 0 <= a < b < |ks| ==> ks[a] < ks[b]
    ensures forall i :: 0 <= i < |feed| && Tracked(feed[i], routeIds) ==> i in ks
    decreases |feed|
  {
    if feed == [] then []
    else
      var n := |feed| - 1;
      var prev := TrackedPositions(feed[..n], routeIds);
      assert forall i :: 0 <= i < n ==> feed[..n][i] == feed[i];
      if Tracked(feed[n], routeIds) then prev + [n] else prev
  }

  /**
   * The reports are a stable filter of the feed: report a is the report of
   * the a-th tracked entity, so output order is feed order and nothing tracked is dropped.
   */
  lemma {:induction false} ReportsFollowFeedOrder(feed: seq<FeedEntity>, routeIds: set<string>,
                                                  schedule: Schedule, dist: DistanceFn)
    ensures var ks := TrackedPositions(feed, routeIds);
            var rs := Reports(feed, routeIds, schedule, dist);
            |rs| == |ks| && forall a :: 0 <= a < |ks| ==> rs[a] == ReportOf(feed[ks[a]], schedule, dist)
    decreases |feed|
  {
    if feed != [] {
      var n := |feed| - 1;
      ReportsFollowFeedOrder(feed[..n], routeIds, schedule, dist);
      var ks0, rs0 := TrackedPositions(feed[..n], routeIds), Reports(feed[..n], routeIds, schedule, dist);
      forall a | 0 <= a < |ks0| ensures feed[..n][ks0[a]] == feed[ks0[a]] {
      }
      if Tracked(feed[n], routeIds) {
        assert TrackedPositions(feed, routeIds) == ks0 + [n];
        assert Reports(feed, routeIds, schedule, dist) == rs0 + [ReportOf(feed[n], schedule, dist)];
      } else {
        assert TrackedPositions(feed, routeIds) == ks0;
        assert Reports(feed, routeIds, schedule, dist) == rs0;
      }
    }
  }

  /** Something is reported exactly when the feed holds a tracked entity. */
  lemma ReportsNonEmptyIffTracked(feed: seq<FeedEntity>, routeIds: set<string>,
                                  schedule: Schedule, dist: DistanceFn)
    ensures Reports(feed, routeIds, schedule, dist) != []
            <==> exists i :: 0 <= i < |feed| && Tracked(feed[i], routeIds)
  {
  }

  /**
   * The loop over the feed: keeps the entities with a vehicle on a resolved
   * route, labels each by its nearest stop, and notes whether any was found.
   */
  method ReportVehicles(feed: seq<FeedEntity>, routeIds: set<string>, schedule: Schedule, dist: DistanceFn)
    returns (reports: seq<BusReport>, found: bool)
    ensures reports == Reports(feed, routeIds, schedule, dist)
    ensures found <==> exists i :: 0 <= i < |feed| && Tracked(feed[i], routeIds)
  {
    reports := [];
    found := false;
    var i := 0;
    while i < |feed|
      invariant 0 <= i <= |feed|
      invariant reports == Reports(feed[..i], routeIds, schedule, dist)
      invariant found <==> reports != []
    {
      var entity := feed[i];
      assert feed[..i + 1][..i] == feed[..i];
      if entity.vehicle.Some? {
        var v := entity.vehicle.value;
        if v.routeId in routeIds {
          var stopName := FindClosestStop(schedule, v.tripId, v.lat, v.lon, dist);
          reports := reports + [BusReport(entity.id, v.routeId, v.lat, v.lon, Label(stopName))];
          found := true;
        }
      }
      i := i + 1;
    }
    assert feed[..i] == feed;
    ReportsNonEmptyIffTracked(feed, routeIds, schedule, dist);
  }
}
