/**
  Track ingestion (`load_gpx_track`) and the safety checks run on a loaded
  track before the pipeline starts (`validate_gpx_track`). The parsed GPX
  document is given as plain nested sequences: tracks of segments of points,
  and routes of points.
*/
module GpxIngest {
  import opened Wrappers
  import opened Geo

  /** A parsed GPX file: each track is a sequence of segments, each segment a sequence of points. */
  datatype GpxFile = GpxFile(tracks: seq<seq<seq<Coord>>>, routes: seq<seq<Coord>>)

  /**
    The errors raised by loading and validation: the first three are
    `ValueError`s; `EmptyTrack` is the `ZeroDivisionError` of taking the mean
    of a track with no points.
  */
  datatype TrackError =
    | TooFewPoints(count: nat)
    | TooManyPoints(count: nat)
    | OutsideRegion(centroidLat: real, centroidLon: real)
    | EmptyTrack

  // Bounding box of peninsular Spain, the Balearic and Canary Islands, Ceuta and Melilla.
  const MinLat: real := 27.6
  const MaxLat: real := 44.0
  const MinLon: real := -18.2
  const MaxLon: real := 4.3
  const MaxTrackPoints: nat := 50_000

  /** Concatenation of a sequence of sequences, in order. */
  function Flatten<T>(ss: seq<seq<T>>): seq<T> {
    if ss == [] then [] else Flatten(ss[..|ss| - 1]) + ss[|ss| - 1]
  }

  /** All points of all segments of all tracks, in document order. */
  function TrackPoints(tracks: seq<seq<seq<Coord>>>): seq<Coord> {
    if tracks == [] then [] else TrackPoints(tracks[..|tracks| - 1]) + Flatten(tracks[|tracks| - 1])
  }

  /** The points a load produces: the track points, or the route points when the tracks have none. */
  function LoadedPoints(gpx: GpxFile): seq<Coord> {
    if TrackPoints(gpx.tracks) != [] then TrackPoints(gpx.tracks) else Flatten(gpx.routes)
  }

  /** A point is produced by flattening exactly when some inner sequence holds it. */
  lemma {:induction false} FlattenMember<T>(ss: seq<seq<T>>, x: T)
    ensures x in Flatten(ss) <==> exists i :: 0 <= i < |ss| && x in ss[i]
  {
    if ss != [] {
      var init := ss[..|ss| - 1];
      FlattenMember(init, x);
      if x in Flatten(init) {
        var i :| 0 <= i < |init| && x in init[i];
        assert x in ss[i];
      }
      if exists i :: 0 <= i < |ss| && x in ss[i] {
        var i :| 0 <= i < |ss| && x in ss[i];
        if i < |ss| - 1 {
          assert x in init[i];
        }
      }
    }
  }

  /** The flattened length is the total number of points. */
  lemma {:induction false} FlattenLength<T>(ss: seq<seq<T>>)
    ensures |Flatten(ss)| == SumLengths(ss)
  {
    if ss != [] {
      FlattenLength(ss[..|ss| - 1]);
    }
  }

  /** The total number of elements of the inner sequences. */
  function SumLengths<T>(ss: seq<seq<T>>): nat {
    if ss == [] then 0 else SumLengths(ss[..|ss| - 1]) + |ss[|ss| - 1]|
  }

  /** Every point of every segment of every track is loaded, and nothing else. */
  lemma {:induction false} TrackPointsMember(tracks: seq<seq<seq<Coord>>>, x: Coord)
    ensures x in TrackPoints(tracks) <==>
            exists t, s :: 0 <= t < |tracks| && 0 <= s < |tracks[t]| && x in tracks[t][s]
  {
    if tracks != [] {
      var init := tracks[..|tracks| - 1];
      var last := tracks[|tracks| - 1];
      TrackPointsMember(init, x);
      FlattenMember(last, x);
      if exists t, s :: 0 <= t < |tracks| && 0 <= s < |tracks[t]| && x in tracks[t][s] {
        var t, s :| 0 <= t < |tracks| && 0 <= s < |tracks[t]| && x in tracks[t][s];
        if t < |tracks| - 1 {
          assert x in init[t][s];
        }
      }
      if x in TrackPoints(init) {
        var t, s :| 0 <= t < |init| && 0 <= s < |init[t]| && x in init[t][s];
        assert x in tracks[t][s];
      }
    }
  }

  /**
    Loads the points of a parsed GPX file into one ordered (lon, lat) list,
    falling back to the routes only when the tracks yield no point, and fails
    when fewer than two points result.
  */
  method LoadGpxTrack(gpx: GpxFile) returns (r: Result<seq<Coord>, TrackError>)
    ensures r.Ok? <==> |LoadedPoints(gpx)| >= 2
    ensures r.Ok? ==> r.value == LoadedPoints(gpx)
    ensures r.Err? ==> r.error == TooFewPoints(|LoadedPoints(gpx)|)
    ensures r.Ok? && TrackPoints(gpx.tracks) != [] ==> r.value == TrackPoints(gpx.tracks)
  {
    var coords: seq<Coord> := [];
    for t := 0 to |gpx.tracks|
      invariant coords == TrackPoints(gpx.tracks[..t])
    {
      var track := gpx.tracks[t];
      for s := 0 to |track|
        invariant coords == TrackPoints(gpx.tracks[..t]) + Flatten(track[..s])
      {
        for p := 0 to |track[s]|
          invariant coords == TrackPoints(gpx.tracks[..t]) + Flatten(track[..s]) + track[s][..p]
        {
          coords := coords + [track[s][p]];
        }
        assert track[..s + 1][..s] == track[..s];
      }
      assert track[..|track|] == track;
      assert gpx.tracks[..t + 1][..t] == gpx.tracks[..t];
    }
    assert gpx.tracks[..|gpx.tracks|] == gpx.tracks;

    if coords == [] {
      for k := 0 to |gpx.routes|
        invariant coords == Flatten(gpx.routes[..k])
      {
        var route := gpx.routes[k];
        for p := 0 to |route|
          invariant coords == Flatten(gpx.routes[..k]) + route[..p]
        {
          coords := coords + [route[p]];
        }
        assert gpx.routes[..k + 1][..k] == gpx.routes[..k];
      }
      assert gpx.routes[..|gpx.routes|] == gpx.routes;
    }

    if |coords| < 2 {
      r := Err(TooFewPoints(|coords|));
    } else {
      r := Ok(coords);
    }
  }

  function SumLon(track: seq<Coord>): real {
    if track == [] then 0.0 else SumLon(track[..|track| - 1]) + track[|track| - 1].lon
  }

  function SumLat(track: seq<Coord>): real {
    if track == [] then 0.0 else SumLat(track[..|track| - 1]) + track[|track| - 1].lat
  }

  /** The mean-coordinate centroid used as an approximate centre of the track. */
  function Centroid(track: seq<Coord>): Coord
    requires track != []
  {
    Coord(SumLon(track) / |track| as real, SumLat(track) / |track| as real)
  }

  /** Strictly inside the supported bounding box. */
  predicate InRegion(c: Coord) {
    MinLat < c.lat < MaxLat && MinLon < c.lon < MaxLon
  }

  /**
    Rejects tracks with more than `MaxTrackPoints` points, then tracks whose
    centroid is not strictly inside the supported region.
  */
  function ValidateGpxTrack(track: seq<Coord>): (r: Result<(), TrackError>)
    ensures r.Ok? <==> |track| <= MaxTrackPoints && track != [] && InRegion(Centroid(track))
    ensures |track| > MaxTrackPoints ==> r == Err(TooManyPoints(|track|))
    ensures track == [] ==> r == Err(EmptyTrack)
    ensures r.Err? && |track| <= MaxTrackPoints && track != [] ==>
              r.error == OutsideRegion(Centroid(track).lat, Centroid(track).lon)
  {
    if |track| > MaxTrackPoints then Err(TooManyPoints(|track|))
    else if track == [] then Err(EmptyTrack)
    else
      var c := Centroid(track);
      if !InRegion(c) then Err(OutsideRegion(c.lat, c.lon)) else Ok(())
  }

  lemma {:induction false} SumLonBounds(track: seq<Coord>, lo: real, hi: real)
    requires track != []
    requires forall i :: 0 <= i < |track| ==> lo < track[i].lon < hi
    ensures lo * |track| as real < SumLon(track) < hi * |track| as real
  {
    var n := |track|;
    if n > 1 {
      SumLonBounds(track[..n - 1], lo, hi);
      assert lo * n as real == lo * (n - 1) as real + lo;
      assert hi * n as real == hi * (n - 1) as real + hi;
    }
  }

  lemma {:induction false} SumLatBounds(track: seq<Coord>, lo: real, hi: real)
    requires track != []
    requires forall i :: 0 <= i < |track| ==> lo < track[i].lat < hi
    ensures lo * |track| as real < SumLat(track) < hi * |track| as real
  {
    var n := |track|;
    if n > 1 {
      SumLatBounds(track[..n - 1], lo, hi);
      assert lo * n as real == lo * (n - 1) as real + lo;
      assert hi * n as real == hi * (n - 1) as real + hi;
    }
  }

  lemma MeanBetween(sum: real, n: real, lo: real, hi: real)
    requires n > 0.0 && lo * n < sum < hi * n
    ensures lo < sum / n < hi
  {
    var m := sum / n;
    assert m * n == sum;
    assert (m - lo) * n > 0.0 && (hi - m) * n > 0.0;
  }

  /**
    A track of at most `MaxTrackPoints` points lying wholly inside the region
    passes validation: the mean of points inside a box is inside the box.
  */
  lemma TrackInsideRegionIsValid(track: seq<Coord>)
    requires track != [] && |track| <= MaxTrackPoints
    requires forall i :: 0 <= i < |track| ==> InRegion(track[i])
    ensures ValidateGpxTrack(track) == Ok(())
  {
    var n := |track| as real;
    SumLonBounds(track, MinLon, MaxLon);
    SumLatBounds(track, MinLat, MaxLat);
    MeanBetween(SumLon(track), n, MinLon, MaxLon);
    MeanBetween(SumLat(track), n, MinLat, MaxLat);
  }
}
