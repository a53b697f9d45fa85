/**
 * The records the tracker reads: rows of the GTFS Schedule files
 * (stops.txt, stop_times.txt) and the vehicle entities of a decoded
 * GTFS Realtime feed, plus the schedule index built from the rows.
 */
module Gtfs {
  import opened Wrappers

  /** A row of stops.txt as the CSV reader hands it over: coordinates are still text. */
  datatype StopRow = StopRow(stopId: string, stopName: string, stopLat: string, stopLon: string)

  /** A row of stop_times.txt; only the two columns the tracker reads. */
  datatype StopTimeRow = StopTimeRow(tripId: string, stopId: string)

  /** An entry of the stop table: name and WGS84 coordinates in degrees. */
  datatype Stop = Stop(name: string, lat: real, lon: real)

  /** The vehicle part of a feed entity: its trip reference and its position. */
  datatype Vehicle = Vehicle(tripId: string, routeId: string, lat: real, lon: real)

  /** A feed entity; `vehicle` is None when the entity carries no vehicle field. */
  datatype FeedEntity = FeedEntity(id: string, vehicle: Option<Vehicle>)

  /** The in-memory schedule index: stop table and per-trip stop sequences. */
  datatype Schedule = Schedule(stops: map<string, Stop>, tripStopSequences: map<string, seq<string>>)

  /** What aborts a run while the static files are read. */
  datatype LoadError =
    | BadStopCoordinate(row: nat)   // float() rejected stop_lat or stop_lon of this stops.txt data row
    | EmptyRoutesFile               // routes.txt has no header record to skip
    | ShortRouteRow(row: nat)       // this routes.txt CSV record (0 = header) has fewer than three fields

  /** Python's float() on a field: None when the text is not a number. */
  type FloatParser = string -> Option<real>

  /** The geodesic distance in metres from a stop (lat, lon) to a vehicle (lat, lon). */
  type DistanceFn = (real, real, real, real) -> real
}
