/**
 * Route resolution: the set of route ids whose short name, stripped of
 * surrounding whitespace, equals the (stripped) route the user asked for.
 * routes.txt arrives as raw CSV records, header first.
 */
module RouteLookup {
  import opened Wrappers
  import opened Gtfs
  import opened Text

  /**
   * The route ids collected from the data records `rows` (routes.txt without
   * its header record); data record d is record d + 1 of the file.
   */
  function CollectRouteIds(rows: seq<seq<string>>, query: string): Result<set<string>, LoadError>
    decreases |rows|
  {
    if rows == [] then Success({})
    else
      var n := |rows| - 1;
      match CollectRouteIds(rows[..n], query)
      case Failure(e) => Failure(e)
      case Success(ids) =>
        if |rows[n]| < 3 then Failure(ShortRouteRow(n + 1))
        else if Strip(rows[n][2]) == query then Success(ids + {rows[n][0]})
        else Success(ids)
  }

  /** The route ids for `query`; the header record must exist and every data record needs three fields. */
  function RouteIds(file: seq<seq<string>>, query: string): Result<set<string>, LoadError>
  {
    if file == [] then Failure(EmptyRoutesFile) else CollectRouteIds(file[1..], query)
  }

  /** Record i is the first data record of routes.txt with fewer than three fields. */
  ghost predicate FirstShortRow(file: seq<seq<string>>, i: int)
  {
    1 <= i < |file| && |file[i]| < 3 && forall j :: 1 <= j < i ==> |file[j]| >= 3
  }

  lemma {:induction false} CollectFailureSticks(rows: seq<seq<string>>, n: nat, query: string)
    requires n <= |rows|
    requires CollectRouteIds(rows[..n], query).Failure?
    ensures CollectRouteIds(rows, query) == CollectRouteIds(rows[..n], query)
    decreases |rows|
  {
    if n < |rows| {
      var k := |rows| - 1;
      assert rows[..k][..n] == rows[..n];
      CollectFailureSticks(rows[..k], n, query);
    } else {
      assert rows[..n] == rows;
    }
  }

  /** Collection fails exactly at the first data record with fewer than three fields. */
  lemma {:induction false} CollectFailsAtFirstShortRow(rows: seq<seq<string>>, query: string)
    ensures CollectRouteIds(rows, query).Success? <==> forall d :: 0 <= d < |rows| ==> |rows[d]| >= 3
    ensures CollectRouteIds(rows, query).Failure? ==>
              var e := CollectRouteIds(rows, query).error;
              e.ShortRouteRow? && 1 <= e.row <= |rows| && |rows[e.row - 1]| < 3
              && forall d :: 0 <= d < e.row - 1 ==> |rows[d]| >= 3
    decreases |rows|
  {
    if rows != [] {
      var n := |rows| - 1;
      CollectFailsAtFirstShortRow(rows[..n], query);
      assert forall d :: 0 <= d < n ==> rows[..n][d] == rows[d];
    }
  }

  /** A successful collection holds the ids of exactly the data records whose stripped short name matches. */
  lemma {:induction false} CollectMatchesQuery(rows: seq<seq<string>>, query: string)
    requires CollectRouteIds(rows, query).Success?
    ensures forall id :: id in CollectRouteIds(rows, query).value <==>
              exists d :: 0 <= d < |rows| && |rows[d]| >= 3 && rows[d][0] == id && Strip(rows[d][2]) == query
    decreases |rows|
  {
    if rows != [] {
      var n := |rows| - 1;
      CollectMatchesQuery(rows[..n], query);
      assert forall d :: 0 <= d < n ==> rows[..n][d] == rows[d];
    }
  }

  /**
   * Loading fails exactly when routes.txt has no header record or a data record
   * has fewer than three fields, reporting the first such record.
   */
  lemma RouteIdsFailure(file: seq<seq<string>>, query: string)
    ensures RouteIds(file, query).Failure? <==> file == [] || exists i :: 1 <= i < |file| && |file[i]| < 3
    ensures file == [] ==> RouteIds(file, query) == Failure(EmptyRoutesFile)
    ensures file != [] && RouteIds(file, query).Failure? ==>
              RouteIds(file, query).error.ShortRouteRow?
              && FirstShortRow(file, RouteIds(file, query).error.row)
  {
    if file != [] {
      CollectFailsAtFirstShortRow(file[1..], query);
      assert forall i :: 1 <= i < |file| ==> file[1..][i - 1] == file[i];
    }
  }

  /**
   * On success the set holds exactly the first field of every data record
   * whose stripped third field equals the query; the header never contributes.
   */
  lemma RouteIdsMatchQuery(file: seq<seq<string>>, query: string)
    requires RouteIds(file, query).Success?
    ensures forall id :: id in RouteIds(file, query).value <==>
              exists i :: 1 <= i < |file| && |file[i]| >= 3 && file[i][0] == id && Strip(file[i][2]) == query
  {
    CollectMatchesQuery(file[1..], query);
    forall id | id in RouteIds(file, query).value
      ensures exists i :: 1 <= i < |file| && |file[i]| >= 3 && file[i][0] == id && Strip(file[i][2]) == query
    {
      var d :| 0 <= d < |file[1..]| && |file[1..][d]| >= 3 && file[1..][d][0] == id && Strip(file[1..][d][2]) == query;
      assert file[1..][d] == file[d + 1];
    }
    forall i | 1 <= i < |file| && |file[i]| >= 3 && Strip(file[i][2]) == query
      ensures file[i][0] in RouteIds(file, query).value
    {
      assert file[1..][i - 1] == file[i];
    }
  }

  /** Two route ids sharing the short name "50" both resolve; padding around the short name is ignored. */
  lemma SharedShortNameResolvesToAllIds()
    ensures RouteIds([["route_id", "agency_id", "route_short_name"],
                      ["50A", "TFWM", "50"],
                      ["X1", "TFWM", "X1"],
                      ["50B", "TFWM", " 50 "]], "50")
            == Success({"50A", "50B"})
  {
    var file := [["route_id", "agency_id", "route_short_name"],
                 ["50A", "TFWM", "50"],
                 ["X1", "TFWM", "X1"],
                 ["50B", "TFWM", " 50 "]];
    StripOfPadded([], "50", []);
    StripOfPadded([], "X1", []);
    StripOfPadded(" ", "50", " ");
    assert [] + "50" + [] == "50";
    assert [] + "X1" + [] == "X1";
    assert " " + "50" + " " == " 50 ";
    var rows := file[1..];
    assert rows[..3][..2] == rows[..2] && rows[..2][..1] == rows[..1] && rows[..1][..0] == [];
    assert rows[..3] == rows;
    assert rows[..1][0] == ["50A", "TFWM", "50"] && Strip(rows[..1][0][2]) == "50";
    assert CollectRouteIds(rows[..1][..0], "50") == Success({});
    assert {} + {"50A"} == {"50A"};
    assert CollectRouteIds(rows[..1], "50") == Success({"50A"});
    assert rows[..2][1] == ["X1", "TFWM", "X1"] && Strip(rows[..2][1][2]) == "X1" != "50";
    assert CollectRouteIds(rows[..2], "50") == Success({"50A"});
    assert rows[2] == ["50B", "TFWM", " 50 "] && Strip(rows[2][2]) == "50";
    assert CollectRouteIds(rows, "50") == Success({"50A"} + {"50B"});
    assert {"50A"} + {"50B"} == {"50A", "50B"};
  }

  /** Skips the header of routes.txt and adds the id of every record whose short name matches. */
  method ResolveRouteIds(file: seq<seq<string>>, query: string) returns (r: Result<set<string>, LoadError>)
    ensures r == RouteIds(file, query)
  {
    if |file| == 0 {
      return Failure(EmptyRoutesFile);
    }
    var rows := file[1..];
    var routeIds: set<string> := {};
    var d := 0;
    while d < |rows|
      invariant 0 <= d <= |rows|
      invariant CollectRouteIds(rows[..d], query) == Success(routeIds)
    {
      var row := rows[d];
      assert rows[..d + 1][..d] == rows[..d];
      if |row| < 3 {
        CollectFailureSticks(rows, d + 1, query);
        return Failure(ShortRouteRow(d + 1));
      }
      if Strip(row[2]) == query {
        routeIds := routeIds + {row[0]};
      }
      d := d + 1;
    }
    assert rows[..d] == rows;
    return Success(routeIds);
  }
}
