/**
 * The whole run of the tracker script: load the stop table and the trip
 * stop sequences, resolve the requested route to its route ids, stop early
 * when there are none, and otherwise report every vehicle of the feed on
 * those routes. The decoded feed, the rows of the static files, the text the
 * user typed, float() and the geodesic distance are inputs.
 */
module GetData {
  import opened Wrappers
  import opened Gtfs
  import opened Text
  import opened ScheduleIndex
  import opened RouteLookup
  import opened FeedFusion

  /** How a run ends. */
  datatype Outcome =
    | LoadFailed(error: LoadError)
    | NoMatchingRoute(route: string)
    | Buses(route: string, routeIds: set<string>, reports: seq<BusReport>, found: bool)

  method Run(stopRows: seq<StopRow>, stopTimeRows: seq<StopTimeRow>, routesFile: seq<seq<string>>,
             routeInput: string, feed: seq<FeedEntity>, parse: FloatParser, dist: DistanceFn)
    returns (outcome: Outcome)
    ensures StopTable(stopRows, parse).Failure? ==> outcome == LoadFailed(StopTable(stopRows, parse).error)
    ensures StopTable(stopRows, parse).Success? && RouteIds(routesFile, Strip(routeInput)).Failure? ==>
              outcome == LoadFailed(RouteIds(routesFile, Strip(routeInput)).error)
    ensures StopTable(stopRows, parse).Success? && RouteIds(routesFile, Strip(routeInput)) == Success({}) ==>
              outcome == NoMatchingRoute(Strip(routeInput))
    ensures outcome.Buses? ==>
              outcome.route == Strip(routeInput)
              && StopTable(stopRows, parse).Success?
              && RouteIds(routesFile, Strip(routeInput)) == Success(outcome.routeIds)
              && outcome.routeIds != {}
              && outcome.reports
                 == Reports(feed, outcome.routeIds,
                            Schedule(StopTable(stopRows, parse).value, TripSequences(stopTimeRows)), dist)
              && (outcome.found <==> exists i :: 0 <= i < |feed| && Tracked(feed[i], outcome.routeIds))
    ensures (StopTable(stopRows, parse).Success? && RouteIds(routesFile, Strip(routeInput)).Success?
             && RouteIds(routesFile, Strip(routeInput)).value != {}) ==> outcome.Buses?
  {
    var stops := LoadStops(stopRows, parse);
    if stops.Failure? {
      return LoadFailed(stops.error);
    }
    var sequences := LoadStopTimes(stopTimeRows);
    var schedule := Schedule(stops.value, sequences);
    var query := Strip(routeInput);
    var routeIds := ResolveRouteIds(routesFile, query);
    if routeIds.Failure? {
      return LoadFailed(routeIds.error);
    }
    if routeIds.value == {} {
      return NoMatchingRoute(query);
    }
    var reports, found := ReportVehicles(feed, routeIds.value, schedule, dist);
    return Buses(query, routeIds.value, reports, found);
  }
}
