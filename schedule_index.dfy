/**
 * The schedule index: the stop table built from stops.txt and the per-trip
 * stop sequences built from stop_times.txt, each by one pass over the rows.
 * Each loading method is proved equal to a specification function over the
 * rows read so far; the lemmas characterise those functions row by row.
 */
module ScheduleIndex {
  import opened Wrappers
  import opened Gtfs

  // ---------------------------------------------------------------- stops.txt

  /** The stop-table entry for one row: None when float() rejects a coordinate. */
  function ParseStop(row: StopRow, parse: FloatParser): Option<Stop>
  {
    match parse(row.stopLat)
    case None => None
    case Some(lat) =>
      match parse(row.stopLon)
      case None => None
      case Some(lon) => Some(Stop(row.stopName, lat, lon))
  }

  /** The stop table after reading `rows` in order; a row that fails to parse aborts the load. */
  function StopTable(rows: seq<StopRow>, parse: FloatParser): Result<map<string, Stop>, LoadError>
    decreases |rows|
  {
    if rows == [] then Success(map[])
    else
      var n := |rows| - 1;
      match StopTable(rows[..n], parse)
      case Failure(e) => Failure(e)
      case Success(m) =>
        match ParseStop(rows[n], parse)
        case None => Failure(BadStopCoordinate(n))
        case Some(s) => Success(m[rows[n].stopId := s])
  }

  ghost predicate FirstBadRow(rows: seq<StopRow>, parse: FloatParser, i: int)
  {
    0 <= i < |rows| && ParseStop(rows[i], parse).None?
    && forall j :: 0 <= j < i ==> ParseStop(rows[j], parse).Some?
  }

  /** Row i is the last row carrying its stop id. */
  ghost predicate LastWithId(rows: seq<StopRow>, i: int)
    requires 0 <= i < |rows|
  {
    forall j :: i < j < |rows| ==> rows[j].stopId != rows[i].stopId
  }

  /** Once a prefix of the rows fails, reading more rows keeps that failure. */
  lemma {:induction false} StopTableFailureSticks(rows: seq<StopRow>, parse: FloatParser, n: nat)
    requires n <= |rows|
    requires StopTable(rows[..n], parse).Failure?
    ensures StopTable(rows, parse) == StopTable(rows[..n], parse)
    decreases |rows|
  {
    if n < |rows| {
      var k := |rows| - 1;
      assert rows[..k][..n] == rows[..n];
      StopTableFailureSticks(rows[..k], parse, n);
    } else {
      assert rows[..n] == rows;
    }
  }

  /** The load fails exactly when some row is malformed, and it reports the first such row. */
  lemma {:induction false} StopTableFailsAtFirstBadRow(rows: seq<StopRow>, parse: FloatParser)
    ensures StopTable(rows, parse).Success?
            <==> forall i :: 0 <= i < |rows| ==> ParseStop(rows[i], parse).Some?
    ensures StopTable(rows, parse).Failure? ==>
              StopTable(rows, parse).error.BadStopCoordinate?
              && FirstBadRow(rows, parse, StopTable(rows, parse).error.row)
    decreases |rows|
  {
    if rows != [] {
      var n := |rows| - 1;
      StopTableFailsAtFirstBadRow(rows[..n], parse);
      assert forall i :: 0 <= i < n ==> rows[..n][i] == rows[i];
    }
  }

  /** A successful load maps exactly the stop ids of the rows. */
  lemma {:induction false} StopTableKeys(rows: seq<StopRow>, parse: FloatParser)
    requires StopTable(rows, parse).Success?
    ensures forall id :: id in StopTable(rows, parse).value
                         <==> exists i :: 0 <= i < |rows| && rows[i].stopId == id
    decreases |rows|
  {
    if rows != [] {
      var n := |rows| - 1;
      StopTableKeys(rows[..n], parse);
      assert forall i :: 0 <= i < n ==> rows[..n][i] == rows[i];
    }
  }

  /** Each stop id maps to the fields of the last row carrying it: a later duplicate overwrites. */
  lemma {:induction false} StopTableLastRowWins(rows: seq<StopRow>, parse: FloatParser, i: nat)
    requires StopTable(rows, parse).Success?
    requires i < |rows| && LastWithId(rows, i)
    ensures ParseStop(rows[i], parse).Some?
    ensures rows[i].stopId in StopTable(rows, parse).value
    ensures StopTable(rows, parse).value[rows[i].stopId] == ParseStop(rows[i], parse).value
    decreases |rows|
  {
    var n := |rows| - 1;
    var prefix := StopTable(rows[..n], parse);
    assert prefix.Success?;
    if i < n {
      assert rows[..n][i] == rows[i];
      assert LastWithId(rows[..n], i) by {
        forall j | i < j < n ensures rows[..n][j].stopId != rows[..n][i].stopId {
          assert rows[..n][j] == rows[j];
        }
      }
      StopTableLastRowWins(rows[..n], parse, i);
      assert rows[n].stopId != rows[i].stopId;
    }
  }

  /** Reads stops.txt row by row into the stop table. */
  method LoadStops(rows: seq<StopRow>, parse: FloatParser) returns (r: Result<map<string, Stop>, LoadError>)
    ensures r == StopTable(rows, parse)
  {
    var stops: map<string, Stop> := map[];
    var i := 0;
    while i < |rows|
      invariant 0 <= i <= |rows|
      invariant StopTable(rows[..i], parse) == Success(stops)
    {
      var row := rows[i];
      assert rows[..i + 1][..i] == rows[..i];
      var lat := parse(row.stopLat);
      if lat.None? {
        StopTableFailureSticks(rows, parse, i + 1);
        return Failure(BadStopCoordinate(i));
      }
      var lon := parse(row.stopLon);
      if lon.None? {
        StopTableFailureSticks(rows, parse, i + 1);
        return Failure(BadStopCoordinate(i));
      }
      stops := stops[row.stopId := Stop(row.stopName, lat.value, lon.value)];
      i := i + 1;
    }
    assert rows[..i] == rows;
    return Success(stops);
  }

  // ----------------------------------------------------------- stop_times.txt

  /** The trip stop sequences after reading `rows` in order. */
  function TripSequences(rows: seq<StopTimeRow>): map<string, seq<string>>
    decreases |rows|
  {
    if rows == [] then map[]
    else
      var n := |rows| - 1;
      var m := TripSequences(rows[..n]);
      var t := rows[n].tripId;
      m[t := (if t in m then m[t] else []) + [rows[n].stopId]]
  }

  /** Reference definition: the stop ids of the rows of trip `t`, in row order. */
  function StopIdsOfTrip(rows: seq<StopTimeRow>, t: string): seq<string>
  {
    if rows == [] then []
    else (if rows[0].tripId == t then [rows[0].stopId] else []) + StopIdsOfTrip(rows[1..], t)
  }

  lemma {:induction false} StopIdsOfTripSnoc(rows: seq<StopTimeRow>, row: StopTimeRow, t: string)
    ensures StopIdsOfTrip(rows + [row], t)
            == StopIdsOfTrip(rows, t) + (if row.tripId == t then [row.stopId] else [])
  {
    if rows == [] {
      assert StopIdsOfTrip([row], t) == (if row.tripId == t then [row.stopId] else []) + StopIdsOfTrip([], t);
    } else {
      assert (rows + [row])[1..] == rows[1..] + [row];
      StopIdsOfTripSnoc(rows[1..], row, t);
    }
  }

  /**
   * The sequence of trip t is exactly the stop ids of the rows with that trip
   * id, in row order, duplicates kept; the keys are exactly the trip ids seen.
   */
  lemma {:induction false} TripSequencesAreRowFilters(rows: seq<StopTimeRow>)
    ensures forall t :: t in TripSequences(rows) <==> exists i :: 0 <= i < |rows| && rows[i].tripId == t
    ensures forall t :: t in TripSequences(rows) ==> TripSequences(rows)[t] == StopIdsOfTrip(rows, t)
    ensures forall t :: t !in TripSequences(rows) ==> StopIdsOfTrip(rows, t) == []
    decreases |rows|
  {
    if rows != [] {
      var n := |rows| - 1;
      TripSequencesAreRowFilters(rows[..n]);
      assert rows[..n] + [rows[n]] == rows;
      assert forall i :: 0 <= i < n ==> rows[..n][i] == rows[i];
      forall t ensures StopIdsOfTrip(rows, t)
                       == StopIdsOfTrip(rows[..n], t) + (if rows[n].tripId == t then [rows[n].stopId] else [])
      {
        StopIdsOfTripSnoc(rows[..n], rows[n], t);
      }
    }
  }

  /** The sum of the lengths of all sequences in a map. */
  ghost function TotalLength(m: map<string, seq<string>>): nat
    decreases |m.Keys|
  {
    if m.Keys == {} then 0
    else
      var k :| k in m;
      |m[k]| + TotalLength(m - {k})
  }

  lemma {:induction false} TotalLengthRemove(m: map<string, seq<string>>, k: string)
    requires k in m
    ensures TotalLength(m) == |m[k]| + TotalLength(m - {k})
    decreases |m.Keys|
  {
    var c :| c in m && TotalLength(m) == |m[c]| + TotalLength(m - {c});
    if c != k {
      assert (m - {c}).Keys == m.Keys - {c};
      assert (m - {k}).Keys == m.Keys - {k};
      TotalLengthRemove(m - {c}, k);
      TotalLengthRemove(m - {k}, c);
      assert (m - {c}) - {k} == (m - {k}) - {c};
    }
  }

  lemma TotalLengthUpdate(m: map<string, seq<string>>, k: string, v: seq<string>)
    ensures TotalLength(m[k := v]) == TotalLength(m) - (if k in m then |m[k]| else 0) + |v|
  {
    TotalLengthRemove(m[k := v], k);
    assert m[k := v] - {k} == m - {k};
    if k in m {
      TotalLengthRemove(m, k);
    } else {
      assert m - {k} == m;
    }
  }

  /** Every stop_times row lands in exactly one sequence: the lengths sum to the row count. */
  lemma {:induction false} TripSequencesCoverEveryRow(rows: seq<StopTimeRow>)
    ensures TotalLength(TripSequences(rows)) == |rows|
    decreases |rows|
  {
    if rows != [] {
      var n := |rows| - 1;
      TripSequencesCoverEveryRow(rows[..n]);
      var m := TripSequences(rows[..n]);
      var t := rows[n].tripId;
      TotalLengthUpdate(m, t, (if t in m then m[t] else []) + [rows[n].stopId]);
    }
  }

  /** Reads stop_times.txt row by row, appending each stop id to its trip's sequence. */
  method LoadStopTimes(rows: seq<StopTimeRow>) returns (sequences: map<string, seq<string>>)
    ensures sequences == TripSequences(rows)
  {
    sequences := map[];
    var i := 0;
    while i < |rows|
      invariant 0 <= i <= |rows|
      invariant sequences == TripSequences(rows[..i])
    {
      var row := rows[i];
      assert rows[..i + 1][..i] == rows[..i];
      if row.tripId !in sequences {
        sequences := sequences[row.tripId := []];
      }
      sequences := sequences[row.tripId := sequences[row.tripId] + [row.stopId]];
      i := i + 1;
    }
    assert rows[..i] == rows;
  }
}
