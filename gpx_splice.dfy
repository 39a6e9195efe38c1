/**
  Track splicing (`enrich_gpx_with_stops`): one waypoint is appended per stop,
  and for every stop the track is rerouted through it. The exit vertex is the
  track vertex nearest the stop, the re-entry vertex is found by walking
  forward until the walked distance exceeds `ReentryDistance` (at most
  `ReentrySearchLimit` vertices), and the vertices between them are replaced
  by the two routed legs. Splices are applied from the last track position to
  the first so that each one leaves the positions of those still pending intact.
*/
module GpxSplice {
  import opened Wrappers
  import opened Geo
  import opened Sorting

  /** Metres to walk past the exit vertex before re-entering the track. */
  const ReentryDistance: real := 35.0
  /** Vertices searched ahead of the exit vertex. */
  const ReentrySearchLimit: nat := 30

  /** Track points, grouped by track and then by segment. */
  type Tracks = seq<seq<seq<Coord>>>

  /** A (track, segment, point) position in the document. */
  datatype PointIndex = PointIndex(track: nat, segment: nat, point: nat)

  /** A cell of a stop's row: its column is missing, it is NaN, or it holds a value. */
  datatype Cell<T> = NoColumn | Blank | Filled(value: T)

  /**
    A refuelling stop: position, and the `Rótulo`, `litros_a_repostar`,
    `coste_parada_eur` and fuel price cells (a fuel column missing from the
    row has no key in `prices`).
  */
  datatype Stop = Stop(pos: Coord, brand: Cell<string>, litres: Cell<real>, cost: Cell<real>, prices: map<string, Cell<real>>)

  /**
    A `<wpt>` marker with the values its name and description are rendered
    from; `None` is a NaN value, rendered as "nan". `detailed` selects the
    name that spells out litres and cost, `costNoted` the description that
    states the estimated cost.
  */
  datatype Waypoint = Waypoint(pos: Coord, number: nat, brand: Option<string>, litres: Option<real>, price: Option<real>,
                               cost: Option<real>, detailed: bool, costNoted: bool, symbol: string)

  /**
    One splice to perform: the exit vertex (from the nearest-vertex query),
    the station, and the two routed legs (exit to station, station to
    re-entry) as the routing service returned them; a failed leg is empty.
  */
  datatype SplitPoint = SplitPoint(at: PointIndex, station: Coord, entry: seq<Coord>, exit: seq<Coord>)

  /** `row.get(column, default)`: the default only when the column is missing; a NaN cell stays NaN. */
  function CellOr<T>(c: Cell<T>, default: T): Option<T> {
    match c
    case NoColumn => Some(default)
    case Blank => None
    case Filled(v) => Some(v)
  }

  /** The decimal digits of `n`, as an f-string renders it. */
  function Decimal(n: nat): string {
    if n < 10 then [('0' as int + n) as char]
    else Decimal(n / 10) + [('0' as int + n % 10) as char]
  }

  /** A comparison `x > 0` on a float cell: false for NaN. */
  predicate Positive(x: Option<real>) {
    x.Some? && x.value > 0.0
  }

  /**
    The marker for the `number`-th stop. Each cell reads through `row.get`
    with its default, so a missing column gives the default while a NaN
    cell in an existing column stays NaN.
  */
  function StopWaypoint(stop: Stop, number: nat, fuel: string): (w: Waypoint)
    ensures w.pos == stop.pos && w.number == number && w.symbol == "Fuel"
    ensures stop.brand.NoColumn? ==> w.brand == Some("Gasolinera #" + Decimal(number))
    ensures stop.brand.Filled? ==> w.brand == Some(stop.brand.value)
    ensures w.brand.None? <==> stop.brand.Blank?
    ensures w.litres.None? <==> stop.litres.Blank?
    ensures w.cost.None? <==> stop.cost.Blank?
    ensures stop.litres.NoColumn? ==> w.litres == Some(0.0)
    ensures stop.cost.NoColumn? ==> w.cost == Some(0.0)
    ensures fuel == "" || fuel !in stop.prices ==> w.price == Some(0.0)
    ensures fuel != "" && fuel in stop.prices ==>
              (w.price.None? <==> stop.prices[fuel].Blank?) &&
              (stop.prices[fuel].Filled? ==> w.price == Some(stop.prices[fuel].value))
    ensures w.detailed <==> stop.litres.Filled? && stop.litres.value > 0.0
    ensures w.costNoted <==> stop.cost.Filled? && stop.cost.value > 0.0
  {
    var brand := CellOr(stop.brand, "Gasolinera #" + Decimal(number));
    var litres := CellOr(stop.litres, 0.0);
    var cost := CellOr(stop.cost, 0.0);
    var price := if fuel == "" then Some(0.0) else if fuel in stop.prices then CellOr(stop.prices[fuel], 0.0) else Some(0.0);
    Waypoint(stop.pos, number, brand, litres, price, cost, Positive(litres), Positive(cost), "Fuel")
  }

  /** The markers of all stops, numbered from 1 in stop order. */
  function StopWaypoints(stops: seq<Stop>, fuel: string): seq<Waypoint> {
    seq(|stops|, i requires 0 <= i < |stops| => StopWaypoint(stops[i], i + 1, fuel))
  }

  /** The splices to perform, one per stop, in stop order. */
  function SplitPoints(stops: seq<Stop>, nearest: seq<PointIndex>, legs: seq<(seq<Coord>, seq<Coord>)>): seq<SplitPoint>
    requires |nearest| == |stops| && |legs| == |stops|
  {
    seq(|stops|, i requires 0 <= i < |stops| => SplitPoint(nearest[i], stops[i].pos, legs[i].0, legs[i].1))
  }

  /** Lexicographic (track, segment, point) order, strictly greater. */
  predicate IndexAfter(a: PointIndex, b: PointIndex) {
    || a.track > b.track
    || (a.track == b.track && a.segment > b.segment)
    || (a.track == b.track && a.segment == b.segment && a.point > b.point)
  }

  /** Splices are processed by descending position: `sort(key=idx, reverse=True)`. */
  predicate ProcessedBefore(a: SplitPoint, b: SplitPoint) {
    IndexAfter(a.at, b.at)
  }

  lemma ProcessedBeforeIsStrictOrder()
    ensures StrictOrder(ProcessedBefore)
  {
  }

  predicate ValidIndex(tracks: Tracks, at: PointIndex) {
    at.track < |tracks| && at.segment < |tracks[at.track]| && at.point < |tracks[at.track][at.segment]|
  }

  /** Whether the document has any track point (otherwise no nearest-vertex index exists). */
  predicate HasPoints(tracks: Tracks) {
    exists t, s :: 0 <= t < |tracks| && 0 <= s < |tracks[t]| && tracks[t][s] != []
  }

  /**
    The forward walk from vertex `i`: the distance walked so far is `acc`; it
    stops at the first vertex where the walked distance exceeds
    `ReentryDistance`, or at `maxSearch`. Returns the last vertex reached and
    the distance walked.
  */
  function ReentryScan(points: seq<Coord>, dist: (Coord, Coord) -> real, i: nat, maxSearch: nat, acc: real): (nat, real)
    requires i <= maxSearch < |points|
    decreases maxSearch - i
  {
    if i == maxSearch then (i, acc)
    else
      var acc' := acc + dist(points[i], points[i + 1]);
      if acc' > ReentryDistance then (i + 1, acc')
      else ReentryScan(points, dist, i + 1, maxSearch, acc')
  }

  /** The last vertex the re-entry search may reach from exit vertex `p`. */
  function MaxSearch(points: seq<Coord>, p: nat): nat
    requires p < |points|
  {
    Min(p + ReentrySearchLimit, |points| - 1)
  }

  /** The re-entry vertex for exit vertex `p`, including the final clamp to the next vertex. */
  function ReentryIndex(points: seq<Coord>, p: nat, dist: (Coord, Coord) -> real): nat
    requires p < |points|
  {
    var (reinc, acc) := ReentryScan(points, dist, p, MaxSearch(points, p), 0.0);
    if acc <= ReentryDistance && reinc == p then Min(p + 1, |points| - 1) else reinc
  }

  /** The distance walked along `points` from vertex `p` to vertex `j`. */
  function Walked(points: seq<Coord>, dist: (Coord, Coord) -> real, p: nat, j: nat): real
    requires p <= j < |points|
    decreases j - p
  {
    if j == p then 0.0 else Walked(points, dist, p, j - 1) + dist(points[j - 1], points[j])
  }

  lemma {:induction false} ReentryScanSpec(points: seq<Coord>, dist: (Coord, Coord) -> real, p: nat, i: nat, maxSearch: nat)
    requires p <= i <= maxSearch < |points|
    requires forall j :: p < j <= i ==> Walked(points, dist, p, j) <= ReentryDistance
    ensures var (r, acc) := ReentryScan(points, dist, i, maxSearch, Walked(points, dist, p, i));
            && i <= r <= maxSearch
            && acc == Walked(points, dist, p, r)
            && (forall j :: p < j < r ==> Walked(points, dist, p, j) <= ReentryDistance)
            && (r == maxSearch || acc > ReentryDistance)
    decreases maxSearch - i
  {
    if i < maxSearch {
      var acc' := Walked(points, dist, p, i) + dist(points[i], points[i + 1]);
      assert acc' == Walked(points, dist, p, i + 1);
      if acc' <= ReentryDistance {
        ReentryScanSpec(points, dist, p, i + 1, maxSearch);
      }
    }
  }

  /**
    The re-entry vertex lies strictly after the exit vertex and at most
    `ReentrySearchLimit` vertices and the track end beyond it, unless the exit
    vertex is the last one, where it is the exit vertex itself. It is the first
    vertex past `ReentryDistance` walked, or the search limit.
  */
  lemma ReentryIndexSpec(points: seq<Coord>, p: nat, dist: (Coord, Coord) -> real)
    requires p < |points|
    ensures var r := ReentryIndex(points, p, dist);
            && (p < |points| - 1 ==> p < r <= MaxSearch(points, p))
            && (p == |points| - 1 ==> r == p)
            && (forall j :: p < j < r ==> Walked(points, dist, p, j) <= ReentryDistance)
            && (r == MaxSearch(points, p) || Walked(points, dist, p, r) > ReentryDistance)
  {
    ReentryScanSpec(points, dist, p, p, MaxSearch(points, p));
  }

  /**
    The clamp after the search never changes its outcome: the search ends at
    the exit vertex only when it could not move, i.e. at the last vertex.
  */
  lemma ReentryClampIsNoOp(points: seq<Coord>, p: nat, dist: (Coord, Coord) -> real)
    requires p < |points|
    ensures ReentryIndex(points, p, dist) == ReentryScan(points, dist, p, MaxSearch(points, p), 0.0).0
  {
    ReentryScanSpec(points, dist, p, p, MaxSearch(points, p));
  }

  /** Finds the re-entry vertex with the source's forward loop. */
  method FindReentryIndex(points: seq<Coord>, p: nat, dist: (Coord, Coord) -> real) returns (reinc: nat)
    requires p < |points|
    ensures reinc == ReentryIndex(points, p, dist)
  {
    reinc := p;
    var distAccum := 0.0;
    var maxSearch := Min(p + ReentrySearchLimit, |points| - 1);
    var i := p;
    while i < maxSearch
      invariant p <= i <= maxSearch
      invariant reinc == i
      invariant ReentryScan(points, dist, i, maxSearch, distAccum) == ReentryScan(points, dist, p, maxSearch, 0.0)
    {
      distAccum := distAccum + dist(points[i], points[i + 1]);
      reinc := i + 1;
      if distAccum > ReentryDistance {
        break;
      }
      i := i + 1;
    }
    if distAccum <= ReentryDistance && reinc == p {
      reinc := Min(p + 1, |points| - 1);
    }
  }

  /**
    The replacement vertices: the entry leg without its first point, the
    station itself only when both legs failed, and the exit leg without its
    first point.
  */
  function NewPoints(entry: seq<Coord>, exit: seq<Coord>, station: Coord): seq<Coord> {
    (if entry != [] then entry[1..] else [])
    + (if entry == [] && exit == [] then [station] else [])
    + (if exit != [] then exit[1..] else [])
  }

  /**
    When both legs fail the detour is the station alone; otherwise it is the
    entry leg's points after its first, followed by the exit leg's points
    after its first, in order, and it is empty exactly when each leg has at
    most its shared first point.
  */
  lemma NewPointsSpec(entry: seq<Coord>, exit: seq<Coord>, station: Coord)
    ensures entry == [] && exit == [] ==> NewPoints(entry, exit, station) == [station]
    ensures entry != [] || exit != [] ==>
              && |NewPoints(entry, exit, station)| == (if entry == [] then 0 else |entry| - 1) + (if exit == [] then 0 else |exit| - 1)
              && (forall c :: c in NewPoints(entry, exit, station) ==> c in entry || c in exit)
              && (forall i :: 1 <= i < |entry| ==> NewPoints(entry, exit, station)[i - 1] == entry[i])
              && (forall i :: 1 <= i < |exit| ==>
                    NewPoints(entry, exit, station)[|NewPoints(entry, exit, station)| - |exit| + i] == exit[i])
    ensures NewPoints(entry, exit, station) == [] <==> (entry != [] || exit != []) && |entry| <= 1 && |exit| <= 1
  {
  }

  /** `points[:p+1] + new_points + points[reinc+1:]`, or the points unchanged when there is nothing to insert. */
  function Splice(points: seq<Coord>, p: nat, reinc: nat, newPoints: seq<Coord>): seq<Coord>
    requires p <= reinc < |points|
  {
    if newPoints == [] then points else points[..p + 1] + newPoints + points[reinc + 1..]
  }

  function ReplaceSegment(tracks: Tracks, t: nat, s: nat, points: seq<Coord>): Tracks
    requires t < |tracks| && s < |tracks[t]|
  {
    tracks[t := tracks[t][s := points]]
  }

  /**
    Performs one splice on the current document. An index that is out of
    range would raise in the source; `SplicesAreNeverSkipped` shows it cannot
    occur in a run, so that case leaves the tracks alone.
  */
  function ApplySplit(tracks: Tracks, sp: SplitPoint, dist: (Coord, Coord) -> real): Tracks {
    if !ValidIndex(tracks, sp.at) then tracks
    else
      var points := tracks[sp.at.track][sp.at.segment];
      var reinc := ReentryIndex(points, sp.at.point, dist);
      ReentryIndexSpec(points, sp.at.point, dist);
      ReplaceSegment(tracks, sp.at.track, sp.at.segment,
                     Splice(points, sp.at.point, reinc, NewPoints(sp.entry, sp.exit, sp.station)))
  }

  /** Performs the splices in the given order. */
  function ApplyAll(tracks: Tracks, sps: seq<SplitPoint>, dist: (Coord, Coord) -> real): Tracks {
    if sps == [] then tracks else ApplySplit(ApplyAll(tracks, sps[..|sps| - 1], dist), sps[|sps| - 1], dist)
  }

  /** Same tracks, same segments per track. */
  predicate SameShape(a: Tracks, b: Tracks) {
    |a| == |b| && forall t :: 0 <= t < |a| ==> |a[t]| == |b[t]|
  }

  /**
    A splice at `sp.at` changes only that segment, keeps the segment's
    vertices up to and including the exit vertex, and so leaves every vertex
    at or before `sp.at` where it was.
  */
  lemma ApplySplitKeepsEarlierVertices(tracks: Tracks, sp: SplitPoint, dist: (Coord, Coord) -> real, at: PointIndex)
    requires ValidIndex(tracks, at) && !IndexAfter(at, sp.at)
    ensures var r := ApplySplit(tracks, sp, dist);
            && SameShape(r, tracks)
            && (forall t, s :: 0 <= t < |tracks| && 0 <= s < |tracks[t]| && (t, s) != (sp.at.track, sp.at.segment) ==> r[t][s] == tracks[t][s])
            && ValidIndex(r, at)
            && r[at.track][at.segment][at.point] == tracks[at.track][at.segment][at.point]
  {
    if ValidIndex(tracks, sp.at) {
      var points := tracks[sp.at.track][sp.at.segment];
      var p := sp.at.point;
      var reinc := ReentryIndex(points, p, dist);
      ReentryIndexSpec(points, p, dist);
      var spliced := Splice(points, p, reinc, NewPoints(sp.entry, sp.exit, sp.station));
      assert |spliced| > p && spliced[..p + 1] == points[..p + 1];
      if at.track == sp.at.track && at.segment == sp.at.segment {
        assert at.point <= p;
        assert spliced[at.point] == spliced[..p + 1][at.point];
      }
    }
  }

  /** All indices valid in `tracks`. */
  predicate AllValid(tracks: Tracks, sps: seq<SplitPoint>) {
    forall k :: 0 <= k < |sps| ==> ValidIndex(tracks, sps[k].at)
  }

  /**
    Because splices run in descending position order, each splice finds its
    exit vertex in range and still holding the original vertex: no splice is
    skipped and none lands on a vertex an earlier splice moved.
  */
  lemma {:induction false} SplicesAreNeverSkipped(tracks: Tracks, sps: seq<SplitPoint>, dist: (Coord, Coord) -> real, i: nat, at: PointIndex)
    requires SortedBy(sps, ProcessedBefore)
    requires i <= |sps|
    requires ValidIndex(tracks, at)
    requires forall k :: 0 <= k < i ==> !IndexAfter(at, sps[k].at)
    ensures var r := ApplyAll(tracks, sps[..i], dist);
            && SameShape(r, tracks)
            && ValidIndex(r, at)
            && r[at.track][at.segment][at.point] == tracks[at.track][at.segment][at.point]
  {
    if i > 0 {
      SplicesAreNeverSkipped(tracks, sps, dist, i - 1, at);
      assert sps[..i][..i - 1] == sps[..i - 1];
      ApplySplitKeepsEarlierVertices(ApplyAll(tracks, sps[..i - 1], dist), sps[i - 1], dist, at);
    }
  }

  /** The parsed document: its waypoints and its track points, both replaced as a whole when they change. */
  class GpxDocument {
    var waypoints: seq<Waypoint>
    var tracks: Tracks

    constructor (waypoints: seq<Waypoint>, tracks: Tracks)
      ensures this.waypoints == waypoints && this.tracks == tracks
    {
      this.waypoints := waypoints;
      this.tracks := tracks;
    }

    /** `gpx_obj.waypoints.append(wpt)`. */
    method AppendWaypoint(w: Waypoint)
      modifies this
      ensures waypoints == old(waypoints) + [w] && tracks == old(tracks)
    {
      waypoints := waypoints + [w];
    }

    /** Reroutes the segment holding `sp.at` through the station. */
    method SpliceAt(sp: SplitPoint, dist: (Coord, Coord) -> real)
      requires ValidIndex(tracks, sp.at)
      modifies this
      ensures tracks == ApplySplit(old(tracks), sp, dist) && waypoints == old(waypoints)
    {
      var t, s, p := sp.at.track, sp.at.segment, sp.at.point;
      var points := tracks[t][s];
      var reinc := FindReentryIndex(points, p, dist);
      ReentryIndexSpec(points, p, dist);
      var newPoints := NewPoints(sp.entry, sp.exit, sp.station);
      if newPoints != [] {
        tracks := tracks[t := tracks[t][s := points[..p + 1] + newPoints + points[reinc + 1..]]];
      } else {
        assert tracks[t][s := points] == tracks[t];
        assert tracks[t := tracks[t]] == tracks;
      }
    }
  }

  /**
    `enrich_gpx_with_stops` on an already parsed document: appends one
    waypoint per stop and applies the splices in descending position order.
    `nearest[k]` is the nearest track vertex of stop `k`, `legs[k]` its two
    routed legs; without any track point no splice is made.
  */
  method EnrichGpxWithStops(doc: GpxDocument, stops: seq<Stop>, fuel: string, nearest: seq<PointIndex>,
                            legs: seq<(seq<Coord>, seq<Coord>)>, dist: (Coord, Coord) -> real)
    requires |nearest| == |stops| && |legs| == |stops|
    requires HasPoints(doc.tracks) ==> forall k :: 0 <= k < |nearest| ==> ValidIndex(doc.tracks, nearest[k])
    modifies doc
    ensures doc.waypoints == old(doc.waypoints) + StopWaypoints(stops, fuel)
    ensures HasPoints(old(doc.tracks)) ==>
              doc.tracks == ApplyAll(old(doc.tracks), SortBy(SplitPoints(stops, nearest, legs), ProcessedBefore), dist)
    ensures !HasPoints(old(doc.tracks)) ==> doc.tracks == old(doc.tracks)
  {
    AddStopWaypoints(doc, stops, fuel);

    if !HasPoints(doc.tracks) {
      return;
    }

    var splitPoints := CollectSplitPoints(stops, nearest, legs);
    assert splitPoints == SplitPoints(stops, nearest, legs);
    var order := SortBy(splitPoints, ProcessedBefore);
    ProcessedBeforeIsStrictOrder();
    SortByIsSorted(splitPoints, ProcessedBefore);
    forall k | 0 <= k < |order|
      ensures ValidIndex(doc.tracks, order[k].at)
    {
      assert order[k] in multiset(splitPoints);
      var j :| 0 <= j < |splitPoints| && splitPoints[j] == order[k];
    }
    ApplySplices(doc, order, dist);
  }

  /** Appends the marker of every stop, numbered from 1. */
  method AddStopWaypoints(doc: GpxDocument, stops: seq<Stop>, fuel: string)
    modifies doc
    ensures doc.waypoints == old(doc.waypoints) + StopWaypoints(stops, fuel)
    ensures doc.tracks == old(doc.tracks)
  {
    for i := 0 to |stops|
      invariant doc.waypoints == old(doc.waypoints) + StopWaypoints(stops, fuel)[..i]
      invariant doc.tracks == old(doc.tracks)
    {
      doc.AppendWaypoint(StopWaypoint(stops[i], i + 1, fuel));
    }
    assert StopWaypoints(stops, fuel)[..|stops|] == StopWaypoints(stops, fuel);
  }

  /** Builds `split_points`: one splice per stop, in stop order. */
  method CollectSplitPoints(stops: seq<Stop>, nearest: seq<PointIndex>, legs: seq<(seq<Coord>, seq<Coord>)>)
    returns (splitPoints: seq<SplitPoint>)
    requires |nearest| == |stops| && |legs| == |stops|
    ensures |splitPoints| == |stops|
    ensures forall k :: 0 <= k < |stops| ==>
              splitPoints[k] == SplitPoint(nearest[k], stops[k].pos, legs[k].0, legs[k].1)
  {
    splitPoints := [];
    for k := 0 to |stops|
      invariant |splitPoints| == k
      invariant forall j :: 0 <= j < k ==> splitPoints[j] == SplitPoint(nearest[j], stops[j].pos, legs[j].0, legs[j].1)
    {
      splitPoints := splitPoints + [SplitPoint(nearest[k], stops[k].pos, legs[k].0, legs[k].1)];
    }
  }

  /** Applies the splices one after another, in the given (descending position) order. */
  method ApplySplices(doc: GpxDocument, order: seq<SplitPoint>, dist: (Coord, Coord) -> real)
    requires SortedBy(order, ProcessedBefore)
    requires AllValid(doc.tracks, order)
    modifies doc
    ensures doc.tracks == ApplyAll(old(doc.tracks), order, dist)
    ensures doc.waypoints == old(doc.waypoints)
  {
    ghost var original := doc.tracks;
    for i := 0 to |order|
      invariant doc.tracks == ApplyAll(original, order[..i], dist)
      invariant doc.waypoints == old(doc.waypoints)
    {
      SplicesAreNeverSkipped(original, order, dist, i, order[i].at);
      assert order[..i + 1][..i] == order[..i];
      doc.SpliceAt(order[i], dist);
    }
    assert order[..|order|] == order;
  }
}
