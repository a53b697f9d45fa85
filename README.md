# Birmingham bus tracker: schedule index and nearest-stop matching

A Dafny model of the logic of `get_data.py`, the script that answers "where
are the live buses on route X, and which stop is each one at?". It joins a
GTFS Realtime vehicle-positions feed against the GTFS Schedule files of
Transport for West Midlands:

- **Stop table** (`ScheduleIndex.LoadStops`): stops.txt rows become a map from
  stop id to name and coordinates. A later row with the same id overwrites
  an earlier one. A coordinate that `float()` rejects aborts the run.
- **Trip stop sequences** (`ScheduleIndex.LoadStopTimes`): stop_times.txt rows
  become a map from trip id to the stop ids of that trip, in row order, with
  duplicates kept.
- **Nearest-stop matcher** (`ProximityMatcher.FindClosestStop`, the source's
  `find_closest_stop`): an unknown trip gives no match. Stop ids missing from
  the stop table are skipped. A running minimum is kept and replaced only on
  a strictly smaller distance, so the earliest of equally near stops wins.
  The name is returned only when that minimum is at most 100 metres.
- **Route resolution** (`RouteLookup.ResolveRouteIds`): after the header of
  routes.txt, every record whose third field, stripped of whitespace, equals
  the stripped route the user typed contributes its first field.
- **Feed loop** (`FeedFusion.ReportVehicles`): every entity that has a
  vehicle on one of those route ids gives one report, in feed order. The
  report holds the entity id, the route id, the position and the current
  stop, or `Unknown` when the matcher gives no name or an empty name.
- **The run** (`GetData.Run`): the steps above in the script's order. It
  stops early when no route id matches.

Each loop of the script is a method with a `while` loop and invariants. Each
method is proved equal to a specification function over the rows or entities
read so far. Lemmas then characterise those functions against independent
reference definitions: last row wins, a filter of the rows, the first nearest
stop, a stable filter of the feed. The "infinity" of the running minimum is
`None`. The geodesic distance is a parameter `dist(stopLat, stopLon,
vehicleLat, vehicleLon)` in metres, and Python's `float()` is a parameter
`parse` that can refuse its text.

Behaviour of the script worth noting:

- The script builds no map from short name to route ids and no trip-to-route
  map. It computes only the route-id set of one query.
- An unknown route ends the run with a message (`NoMatchingRoute`). It does
  not produce an empty list of buses.
- A routes.txt without a header record, or a data record with fewer than three
  fields, aborts the run (`EmptyRoutesFile`, `ShortRouteRow`). This includes
  a blank line, which the CSV reader returns as an empty row.

## Model

| member | source | states |
|---|---|---|
| `ScheduleIndex.StopTableFailsAtFirstBadRow` | get_data.py:31-36 | Loading stops.txt succeeds exactly when every row's coordinates parse. A failure reports the first row whose coordinates do not parse. |
| `ScheduleIndex.StopTableKeys` | get_data.py:31-32 | After a successful load, the stop ids in the table are exactly the stop ids of the rows. |
| `ScheduleIndex.StopTableLastRowWins` | get_data.py:31-36 | A stop id maps to the name and coordinates of the last row that carries it, so later duplicates overwrite earlier ones. |
| `ScheduleIndex.LoadStops` | get_data.py:28-36 | The row loop builds the stop table, or stops at the first unparsable row, exactly as the stop-table specification says. |
| `ScheduleIndex.TripSequencesAreRowFilters` | get_data.py:39-47 | The trip ids in the map are exactly those of the rows. Each trip's sequence is the stop ids of its rows, in row order, duplicates kept. A trip with no rows has no entry. |
| `ScheduleIndex.TripSequencesCoverEveryRow` | get_data.py:42-47 | The lengths of all trip sequences add up to the number of stop_times rows. |
| `ScheduleIndex.LoadStopTimes` | get_data.py:39-47 | The loop that creates a missing list and then appends builds exactly the trip-sequence map of the rows. |
| `ProximityMatcher.Scan` | get_data.py:53-65 | The running minimum is None exactly when no id of the trip is in the stop table. Otherwise it sits at the first nearest present stop: no present stop is nearer and every earlier present stop is strictly farther. It carries that stop's name and distance. |
| `ProximityMatcher.ClosestStop` | get_data.py:49-67 | An unknown trip gives None for any position. The result is a name exactly when some present stop of the trip is within 100 m (inclusive). That name belongs to the first nearest present stop, which is within 100 m. |
| `ProximityMatcher.FirstNearestUnique` | get_data.py:63-65 | At most one position of a trip's sequence is the first nearest stop, so the tie-break is deterministic. |
| `ProximityMatcher.ClosestStopIsFirstNearest` | get_data.py:56-67 | The first nearest stop decides the result: its name when it is within 100 m, None otherwise. |
| `ProximityMatcher.TieGoesToEarlierStop` | get_data.py:63-65 | Of two present stops at equal distance, the later one is never the one chosen, because the update uses a strict `<`. |
| `ProximityMatcher.FindClosestStop` | get_data.py:49-67 | The loop over the trip's stop ids, which skips ids missing from the table and keeps a minimum that starts at infinity, returns exactly `ClosestStop`. |
| `Text.Strip` | get_data.py:78 | The stripped text is empty, or it neither starts nor ends with a character that Python's `isspace` accepts. |
| `Text.StripOfPadded` | get_data.py:78 | Stripping whitespace padding around a core that has no whitespace at either end returns exactly that core. |
| `Text.StripRemovesOnlyPadding` | get_data.py:78 | The input is whitespace, then the stripped text, then whitespace. Nothing inside is removed. |
| `Text.StripIdempotent` | get_data.py:70-78 | Stripping an already stripped route name changes nothing. |
| `RouteLookup.RouteIdsFailure` | get_data.py:74-77 | Resolution fails exactly when routes.txt has no header record to skip, or a data record has fewer than three fields. The failure names the first such record. |
| `RouteLookup.RouteIdsMatchQuery` | get_data.py:72-79 | On success the set holds exactly the first field of every data record whose stripped third field equals the query. The header never contributes. |
| `RouteLookup.SharedShortNameResolvesToAllIds` | get_data.py:76-79 | Two route ids that share the short name "50", one written with padding, both resolve for the query "50". A route with another short name does not. |
| `RouteLookup.ResolveRouteIds` | get_data.py:72-79 | The loop that skips the header and adds matching route ids computes exactly the route-id specification, including its failures. |
| `FeedFusion.TrackedPositions` | get_data.py:89-93 | The positions of the entities that have a vehicle on a resolved route id are in range and strictly increasing. They include every such entity and nothing else. |
| `FeedFusion.ReportsFollowFeedOrder` | get_data.py:89-105 | Report a belongs to the a-th tracked entity. It holds that entity's id, route id, position and nearest-stop label. The reports are therefore a stable filter of the feed. |
| `FeedFusion.ReportsNonEmptyIffTracked` | get_data.py:87-108 | Something is reported exactly when the feed holds an entity with a vehicle on a resolved route id. |
| `FeedFusion.ReportVehicles` | get_data.py:87-106 | The feed loop emits exactly the reports of the tracked entities, in feed order. `found` is true exactly when some entity is tracked. |
| `GetData.Run` | get_data.py:27-109 | A stop or route load failure ends the run with that failure. An empty route-id set ends it with "no matching route" for the stripped input. Otherwise the run reports, for the resolved ids, exactly the reports of the feed against the loaded schedule, and `found` says whether any bus was on the route. |

## Left out

- Fetching the feed over HTTP and decoding the protocol buffer (get_data.py:17-25). The feed arrives as a sequence of decoded entities.
- Loading the application id and key from keys.env (get_data.py:5-11). This is environment I/O.
- Opening the CSV files and splitting them into fields (get_data.py:29-31, 40-42, 73-75). The rows are inputs: stops.txt and stop_times.txt as records keyed by column name, routes.txt as raw lists of fields with the header first. A short data row of stops.txt or stop_times.txt, whose missing fields the CSV reader fills with `None`, is not modelled: the source would store `None` as an id, or raise `TypeError` from `float(None)`.
- `input()`, `print` and `exit()` (get_data.py:70, 82-83, 85, 96-105, 108-109). The typed text is an input. The printed blocks are `BusReport` records. The early exit and the final message are `Outcome` values.
- The WGS84 geodesic distance of geopy (get_data.py:62). It is the parameter `dist`, so no property of real geometry, such as symmetry or a zero distance for equal points, is assumed. geopy raises `ValueError` for a latitude outside [-90, 90] or a non-finite coordinate. This ends the run part-way through the feed loop, after the reports already printed. The model's `dist` is total, so `Run` always reports the whole feed.
- GetData.Run: does not model the `ValueError` that geopy raises inside the feed loop (get_data.py:62) for an out-of-range or non-finite stop or vehicle coordinate, nor the partial output printed before it; on such input the model returns a complete `Buses` outcome.
- Floating-point behaviour. Coordinates and distances are exact reals. `float()` accepts text such as "nan", "inf" or "95" (get_data.py:34-35), so such a stop loads without error, and geopy then raises when it measures the distance to it. The model has neither that error nor the partial output. The text accepted by `float()` is the parameter `parse`.
- Protocol-buffer defaults. A vehicle without a trip or a position reads as empty ids or zero coordinates in the source. Here the decoder is assumed to have filled those defaults in `Vehicle`.
- Missing CSV columns. A missing `stop_id`, `trip_id` or similar header column raises `KeyError` in the source. Here the records always carry their fields.
- main.py: its three HTTP handlers return an empty value and hold no logic. There is no code that lists routes or the stops of a route, so neither operation is modelled.
- tfwm_gtfs_download.py: downloading and unpacking the schedule archive is file and network I/O.
