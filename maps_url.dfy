/**
  The external-map link (`generate_google_maps_url`): origin and destination
  are the first and last track vertices, the stops become waypoints in order,
  and at most `MaxWaypoints` of them are kept; how many were cut is reported
  next to the query so the caller can tell the user.
*/
module MapsUrl {
  import opened Wrappers
  import opened Geo

  /** The waypoint cap of the map service's directions URLs. */
  const MaxWaypoints: nat := 9

  /** A position in the (latitude, longitude) order the URL uses. */
  datatype LatLon = LatLon(lat: real, lon: real)

  /**
    The query parameters, in insertion order: `api`, `origin`, `destination`,
    `travelmode`, and `waypoints` only when there is at least one stop.
  */
  datatype DirectionsQuery = DirectionsQuery(
    api: string,
    origin: LatLon,
    destination: LatLon,
    travelMode: string,
    waypoints: Option<seq<LatLon>>)

  function ToLatLon(c: Coord): LatLon {
    LatLon(c.lat, c.lon)
  }

  /** The parameter names the encoded URL carries, in order. */
  function ParameterNames(q: DirectionsQuery): seq<string> {
    ["api", "origin", "destination", "travelmode"] + if q.waypoints.Some? then ["waypoints"] else []
  }

  /**
    Builds the directions query for a track (at least one vertex) and the stop
    positions, and returns it with the number of stops left out.
  */
  function GoogleMapsUrl(track: seq<Coord>, stops: seq<Coord>): (r: (DirectionsQuery, nat))
    requires track != []
    ensures r.0.origin == LatLon(track[0].lat, track[0].lon)
    ensures r.0.destination == LatLon(track[|track| - 1].lat, track[|track| - 1].lon)
    ensures r.0.api == "1" && r.0.travelMode == "driving"
    ensures r.1 == if |stops| > MaxWaypoints then |stops| - MaxWaypoints else 0
    ensures r.0.waypoints.Some? <==> stops != []
    ensures r.0.waypoints.Some? ==>
              && |r.0.waypoints.value| == (if |stops| < MaxWaypoints then |stops| else MaxWaypoints)
              && forall i :: 0 <= i < |r.0.waypoints.value| ==> r.0.waypoints.value[i] == ToLatLon(stops[i])
  {
    var all := seq(|stops|, i requires 0 <= i < |stops| => ToLatLon(stops[i]));
    var truncated := if |all| > MaxWaypoints then |all| - MaxWaypoints else 0;
    var kept := if |all| > MaxWaypoints then all[..MaxWaypoints] else all;
    var query := DirectionsQuery("1", ToLatLon(track[0]), ToLatLon(track[|track| - 1]), "driving",
                                 if kept != [] then Some(kept) else None);
    (query, truncated)
  }

  /**
    No stop is lost without a trace: the stops are the kept waypoints followed
    by exactly as many omitted stops as reported, and the `waypoints`
    parameter is present exactly when there are stops.
  */
  lemma TruncationIsReported(track: seq<Coord>, stops: seq<Coord>)
    requires track != []
    ensures var (q, omitted) := GoogleMapsUrl(track, stops);
            var kept := if q.waypoints.Some? then q.waypoints.value else [];
            && |kept| + omitted == |stops|
            && kept == seq(|kept|, i requires 0 <= i < |kept| => ToLatLon(stops[i]))
            && (omitted > 0 <==> |stops| > MaxWaypoints)
            && ("waypoints" in ParameterNames(q) <==> stops != [])
  {
    var (q, omitted) := GoogleMapsUrl(track, stops);
    var names := ParameterNames(q);
    if q.waypoints.None? {
      assert names == ["api", "origin", "destination", "travelmode"];
    } else {
      assert names[4] == "waypoints";
    }
  }
}
