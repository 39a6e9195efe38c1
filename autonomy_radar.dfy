/**
  The autonomy radar (`calculate_autonomy_radar`): the route is cut at every
  station's route distance into consecutive stretches ("tramos") from km 0 to
  the route's end, and each stretch is rated against the vehicle's range.
  The map's red highlighting of stretches longer than the range
  (`generate_map`) is modelled beside it.
*/
module AutonomyRadar {
  import opened Wrappers
  import opened Sorting

  /** `critico`, `atencion`, `seguro`. */
  datatype Level = Critical | Attention | Safe

  /**
    One stretch between consecutive checkpoints; `rated` is false when no
    range was configured (the stretch is then labelled "—").
  */
  datatype Tramo = Tramo(kmStart: real, kmEnd: real, gapKm: real, level: Level, pct: real, rated: bool)

  /** Share of the range at and above which a stretch needs attention. */
  const AttentionShare: real := 0.8

  /** Rates a stretch of `gap` km against a range of `autonomia` km. */
  function Classify(gap: real, autonomia: real): (Level, real, bool) {
    if autonomia > 0.0 then
      var pct := gap / autonomia;
      if pct >= 1.0 then (Critical, pct, true)
      else if pct >= AttentionShare then (Attention, pct, true)
      else (Safe, pct, true)
    else (Safe, 0.0, false)
  }

  /**
    With a positive range the share is gap/range, and a stretch is critical
    from the full range up, needs attention from 80% of it and is safe below;
    without a positive range every stretch is safe and unrated, with a share
    of 0.
  */
  lemma ClassifySpec(gap: real, autonomia: real)
    ensures var r := Classify(gap, autonomia);
      && (autonomia <= 0.0 ==> r == (Safe, 0.0, false))
      && (autonomia > 0.0 ==> r.2 && r.1 * autonomia == gap)
      && (autonomia > 0.0 ==> (r.0 == Critical <==> gap >= autonomia))
      && (autonomia > 0.0 ==> (r.0 == Attention <==> AttentionShare * autonomia <= gap < autonomia))
      && (autonomia > 0.0 ==> (r.0 == Safe <==> gap < AttentionShare * autonomia))
  {
    if autonomia > 0.0 {
      var pct := gap / autonomia;
      assert pct * autonomia == gap;
      SignOfProduct(pct - 1.0, autonomia);
      SignOfProduct(pct - AttentionShare, autonomia);
    }
  }

  lemma SignOfProduct(x: real, a: real)
    requires a > 0.0
    ensures x >= 0.0 <==> x * a >= 0.0
  {
    if x < 0.0 {
      assert (-x) * a > 0.0;
    }
  }

  /** A longer stretch is never rated less severe. */
  lemma ClassifyIsMonotone(g1: real, g2: real, autonomia: real)
    requires g1 <= g2
    ensures Severity(Classify(g1, autonomia).0) <= Severity(Classify(g2, autonomia).0)
  {
    ClassifySpec(g1, autonomia);
    ClassifySpec(g2, autonomia);
  }

  function Severity(l: Level): nat {
    match l
    case Safe => 0
    case Attention => 1
    case Critical => 2
  }

  function Sum(xs: seq<real>): real {
    if xs == [] then 0.0 else Sum(xs[..|xs| - 1]) + xs[|xs| - 1]
  }

  /** `dropna()`: the route distances that are present. */
  function Present(kms: seq<Option<real>>): (r: seq<real>)
    ensures |r| <= |kms|
    ensures forall x :: x in r <==> Some(x) in kms
  {
    if kms == [] then []
    else
      var init := kms[..|kms| - 1];
      assert forall o :: o in kms <==> o in init || o == kms[|kms| - 1];
      var rest := Present(init);
      match kms[|kms| - 1]
      case Some(x) => rest + [x]
      case None => rest
  }

  predicate Below(a: real, b: real) {
    a < b
  }

  /** The stretch between two checkpoints. */
  function TramoBetween(kmStart: real, kmEnd: real, autonomia: real): Tramo {
    var rating := Classify(kmEnd - kmStart, autonomia);
    Tramo(kmStart, kmEnd, kmEnd - kmStart, rating.0, rating.1, rating.2)
  }

  /** The checkpoints: km 0, every present station distance in ascending order, the route's end. */
  function Checkpoints(stationKms: seq<Option<real>>, totalKm: real): (r: seq<real>)
    ensures |r| == |Present(stationKms)| + 2
  {
    [0.0] + SortBy(Present(stationKms), Below) + [totalKm]
  }

  /** One rated stretch between each pair of consecutive checkpoints. */
  function Stretches(checkpoints: seq<real>, autonomia: real): (r: seq<Tramo>)
    requires |checkpoints| >= 1
    ensures |r| == |checkpoints| - 1
  {
    seq(|checkpoints| - 1, j requires 0 <= j < |checkpoints| - 1 => TramoBetween(checkpoints[j], checkpoints[j + 1], autonomia))
  }

  /**
    `calculate_autonomy_radar`. `edgeMeters` are the geodesic lengths of the
    track's edges, `stationKms` the stations' route distances (`None` where
    the distance is missing).
  */
  method CalculateAutonomyRadar(edgeMeters: seq<real>, stationKms: seq<Option<real>>, autonomia: real)
    returns (tramos: seq<Tramo>, totalKm: real)
    ensures totalKm == Sum(edgeMeters) / 1000.0
    ensures tramos == Stretches(Checkpoints(stationKms, totalKm), autonomia)
  {
    totalKm := Sum(edgeMeters) / 1000.0;
    tramos := RateStretches(Checkpoints(stationKms, totalKm), autonomia);
  }

  /** The loop over consecutive checkpoints. */
  method RateStretches(checkpoints: seq<real>, autonomia: real) returns (tramos: seq<Tramo>)
    requires |checkpoints| >= 1
    ensures tramos == Stretches(checkpoints, autonomia)
  {
    tramos := [];
    for j := 0 to |checkpoints| - 1
      invariant |tramos| == j
      invariant forall k :: 0 <= k < j ==> tramos[k] == TramoBetween(checkpoints[k], checkpoints[k + 1], autonomia)
    {
      tramos := tramos + [TramoBetween(checkpoints[j], checkpoints[j + 1], autonomia)];
    }
  }

  /** Each stretch spans two consecutive checkpoints and is rated by its length. */
  lemma StretchesSpec(checkpoints: seq<real>, autonomia: real)
    requires |checkpoints| >= 1
    ensures var tramos := Stretches(checkpoints, autonomia);
      && |tramos| == |checkpoints| - 1
      && Contiguous(tramos)
      && (forall j :: 0 <= j < |tramos| ==> tramos[j].kmStart == checkpoints[j] && tramos[j].kmEnd == checkpoints[j + 1])
      && (forall j :: 0 <= j < |tramos| ==> tramos[j] == TramoBetween(checkpoints[j], checkpoints[j + 1], autonomia))
  {
    var tramos := Stretches(checkpoints, autonomia);
    forall j | 0 <= j < |tramos|
      ensures tramos[j].kmStart == checkpoints[j] && tramos[j].kmEnd == checkpoints[j + 1]
      ensures tramos[j].gapKm == tramos[j].kmEnd - tramos[j].kmStart
    {
      assert tramos[j] == TramoBetween(checkpoints[j], checkpoints[j + 1], autonomia);
    }
  }

  /**
    The radar's stretches: one more than there are present station
    distances, from km 0 to the route's end, each starting where the
    previous one ended.
  */
  lemma RadarSpansRoute(stationKms: seq<Option<real>>, totalKm: real, autonomia: real)
    ensures var tramos := Stretches(Checkpoints(stationKms, totalKm), autonomia);
      && |tramos| == |Present(stationKms)| + 1
      && tramos[0].kmStart == 0.0 && tramos[|tramos| - 1].kmEnd == totalKm
      && Contiguous(tramos)
  {
    var checkpoints := Checkpoints(stationKms, totalKm);
    StretchesSpec(checkpoints, autonomia);
    assert checkpoints[0] == 0.0;
    assert checkpoints[|checkpoints| - 1] == totalKm;
  }

  /** The interior stretch ends are the present station distances, in ascending order. */
  function InteriorEnds(tramos: seq<Tramo>): seq<real>
    requires |tramos| >= 1
  {
    seq(|tramos| - 1, j requires 0 <= j < |tramos| - 1 => tramos[j].kmEnd)
  }

  /** The interior stretch ends are the sorted station distances. */
  lemma InteriorEndsAreStations(stationKms: seq<Option<real>>, totalKm: real, autonomia: real)
    ensures InteriorEnds(Stretches(Checkpoints(stationKms, totalKm), autonomia)) == SortBy(Present(stationKms), Below)
  {
    var stations := SortBy(Present(stationKms), Below);
    var checkpoints := Checkpoints(stationKms, totalKm);
    assert checkpoints == [0.0] + stations + [totalKm];
    StretchesSpec(checkpoints, autonomia);
    var ends := InteriorEnds(Stretches(checkpoints, autonomia));
    forall j | 0 <= j < |stations|
      ensures ends[j] == stations[j]
    {
      assert checkpoints[j + 1] == stations[j];
    }
  }

  /** The stretches end in turn at every present station distance, in ascending order. */
  lemma RadarStopsAtEveryStation(stationKms: seq<Option<real>>, totalKm: real, autonomia: real)
    ensures var ends := InteriorEnds(Stretches(Checkpoints(stationKms, totalKm), autonomia));
      && multiset(ends) == multiset(Present(stationKms))
      && forall i, j :: 0 <= i < j < |ends| ==> ends[i] <= ends[j]
  {
    InteriorEndsAreStations(stationKms, totalKm, autonomia);
    assert StrictOrder(Below);
    SortByIsSorted(Present(stationKms), Below);
  }

  /** Every stretch starts where the previous one ended and its gap is its length. */
  predicate Contiguous(tramos: seq<Tramo>) {
    && (forall j :: 0 < j < |tramos| ==> tramos[j].kmStart == tramos[j - 1].kmEnd)
    && (forall j :: 0 <= j < |tramos| ==> tramos[j].gapKm == tramos[j].kmEnd - tramos[j].kmStart)
  }

  function SumGaps(tramos: seq<Tramo>): real {
    if tramos == [] then 0.0 else SumGaps(tramos[..|tramos| - 1]) + tramos[|tramos| - 1].gapKm
  }

  /** The gaps of contiguous stretches add up to the distance they span: the whole route for the radar. */
  lemma {:induction false} GapsSumToSpan(tramos: seq<Tramo>)
    requires tramos != [] && Contiguous(tramos)
    ensures SumGaps(tramos) == tramos[|tramos| - 1].kmEnd - tramos[0].kmStart
  {
    if |tramos| > 1 {
      GapsSumToSpan(tramos[..|tramos| - 1]);
    }
  }

  /** When every station lies on the route, between km 0 and its end, no stretch has a negative length. */
  lemma GapsAreNonNegative(tramos: seq<Tramo>, stations: seq<real>, totalKm: real)
    requires |tramos| == |stations| + 1 && Contiguous(tramos)
    requires tramos[0].kmStart == 0.0 && tramos[|tramos| - 1].kmEnd == totalKm
    requires forall j :: 0 <= j < |stations| ==> tramos[j].kmEnd == stations[j]
    requires forall i, j :: 0 <= i < j < |stations| ==> stations[i] <= stations[j]
    requires forall j :: 0 <= j < |stations| ==> 0.0 <= stations[j] <= totalKm
    requires totalKm >= 0.0
    ensures forall j :: 0 <= j < |tramos| ==> tramos[j].gapKm >= 0.0
  {
    forall j | 0 <= j < |tramos|
      ensures tramos[j].gapKm >= 0.0
    {
      if j > 0 {
        assert tramos[j].kmStart == stations[j - 1];
      }
    }
  }

  /** Dropping missing distances works element by element: it distributes over concatenation. */
  lemma {:induction false} PresentDistributes(a: seq<Option<real>>, b: seq<Option<real>>)
    ensures Present(a + b) == Present(a) + Present(b)
    decreases |b|
  {
    if b != [] {
      var b' := b[..|b| - 1];
      assert (a + b)[..|a + b| - 1] == a + b';
      PresentDistributes(a, b');
    } else {
      assert a + b == a;
    }
  }

  /** The radar's gaps add up to the route length. */
  lemma RadarGapsSumToTotal(stationKms: seq<Option<real>>, totalKm: real, autonomia: real)
    ensures SumGaps(Stretches(Checkpoints(stationKms, totalKm), autonomia)) == totalKm
  {
    RadarSpansRoute(stationKms, totalKm, autonomia);
    GapsSumToSpan(Stretches(Checkpoints(stationKms, totalKm), autonomia));
  }

  /** When every present station distance lies between km 0 and the route's end, no radar stretch is negative. */
  lemma RadarGapsAreNonNegative(stationKms: seq<Option<real>>, totalKm: real, autonomia: real)
    requires totalKm >= 0.0
    requires forall x :: Some(x) in stationKms ==> 0.0 <= x <= totalKm
    ensures forall t :: t in Stretches(Checkpoints(stationKms, totalKm), autonomia) ==> t.gapKm >= 0.0
  {
    var tramos := Stretches(Checkpoints(stationKms, totalKm), autonomia);
    RadarSpansRoute(stationKms, totalKm, autonomia);
    RadarStopsAtEveryStation(stationKms, totalKm, autonomia);
    var ends := InteriorEnds(tramos);
    var present := Present(stationKms);
    assert multiset(ends) == multiset(present);
    forall j | 0 <= j < |ends|
      ensures 0.0 <= ends[j] <= totalKm
    {
      assert ends[j] in multiset(present);
      assert ends[j] in present;
      assert Some(ends[j]) in stationKms;
    }
    forall j | 0 <= j < |ends|
      ensures tramos[j].kmEnd == ends[j]
    {
    }
    GapsAreNonNegative(tramos, ends, totalKm);
  }

  /** Python's `int()` on a float: truncation toward zero. */
  function Trunc(x: real): int {
    if x >= 0.0 then x.Floor else -((-x).Floor)
  }

  /**
    The polyline slice `[start:end]` drawn for a dangerous stretch, with the
    start clamped into the polyline and the end at least one past the start.
  */
  function ClampRange(start: int, end: int, totalPts: nat): (r: (int, int))
    ensures totalPts >= 1 ==> 0 <= r.0 < r.1 <= totalPts
    ensures totalPts >= 1 && 0 <= start < end <= totalPts ==> r == (start, end)
    ensures totalPts >= 1 && start >= totalPts ==> r == (totalPts - 1, totalPts)
    ensures totalPts >= 1 && 0 <= start < totalPts && end <= start ==> r == (start, start + 1)
    ensures totalPts >= 1 && 0 <= start < totalPts && end > totalPts ==> r == (start, totalPts)
    ensures totalPts >= 1 && start < 0 ==> r == (0, if end > totalPts then totalPts else if end < 1 then 1 else end)
    ensures totalPts == 0 ==> r == (0, 1)
  {
    var s := if start < 0 then 0 else if start > totalPts - 1 then totalPts - 1 else start;
    var e := if end > totalPts then totalPts else end;
    var s' := if s < 0 then 0 else s;
    (s', if e < s' + 1 then s' + 1 else e)
  }

  /**
    The indices `j` of the stretches from `checkpoints[j]` to
    `checkpoints[j + 1]` strictly longer than the range, in route order.
  */
  function LongerGaps(checkpoints: seq<real>, autonomy: real): (r: seq<nat>)
    ensures forall k :: 0 <= k < |r| ==> r[k] + 1 < |checkpoints| && checkpoints[r[k] + 1] - checkpoints[r[k]] > autonomy
  {
    if |checkpoints| < 2 then []
    else
      var n := |checkpoints|;
      LongerGaps(checkpoints[..n - 1], autonomy) + if checkpoints[n - 1] - checkpoints[n - 2] > autonomy then [n - 2] else []
  }

  /** Every stretch longer than the range is listed, once, and in route order. */
  lemma LongerGapsComplete(checkpoints: seq<real>, autonomy: real)
    ensures var r := LongerGaps(checkpoints, autonomy);
      && (forall j :: 0 <= j && j + 1 < |checkpoints| && checkpoints[j + 1] - checkpoints[j] > autonomy ==> j in r)
      && (forall k, l :: 0 <= k < l < |r| ==> r[k] < r[l])
  {
    LongerGapsListsAll(checkpoints, autonomy);
    LongerGapsAscend(checkpoints, autonomy);
  }

  /** No stretch longer than the range is missed. */
  lemma {:induction false} LongerGapsListsAll(checkpoints: seq<real>, autonomy: real)
    ensures forall j :: 0 <= j && j + 1 < |checkpoints| && checkpoints[j + 1] - checkpoints[j] > autonomy ==>
              j in LongerGaps(checkpoints, autonomy)
  {
    if |checkpoints| >= 2 {
      var n := |checkpoints|;
      var init := checkpoints[..n - 1];
      LongerGapsListsAll(init, autonomy);
      var r := LongerGaps(checkpoints, autonomy);
      var r' := LongerGaps(init, autonomy);
      assert r == r' + if checkpoints[n - 1] - checkpoints[n - 2] > autonomy then [n - 2] else [];
      forall j | 0 <= j && j + 1 < n && checkpoints[j + 1] - checkpoints[j] > autonomy
        ensures j in r
      {
        if j + 1 < n - 1 {
          assert init[j + 1] - init[j] > autonomy;
          assert j in r';
        } else {
          assert r[|r| - 1] == j;
        }
      }
    }
  }

  /** The listed indices strictly ascend, so each stretch appears once. */
  lemma {:induction false} LongerGapsAscend(checkpoints: seq<real>, autonomy: real)
    ensures forall k, l :: 0 <= k < l < |LongerGaps(checkpoints, autonomy)| ==>
              LongerGaps(checkpoints, autonomy)[k] < LongerGaps(checkpoints, autonomy)[l]
  {
    if |checkpoints| >= 2 {
      var n := |checkpoints|;
      var init := checkpoints[..n - 1];
      LongerGapsAscend(init, autonomy);
      var r := LongerGaps(checkpoints, autonomy);
      var r' := LongerGaps(init, autonomy);
      assert r == r' + if checkpoints[n - 1] - checkpoints[n - 2] > autonomy then [n - 2] else [];
      forall k, l | 0 <= k < l < |r|
        ensures r[k] < r[l]
      {
        assert r[k] == r'[k] && r'[k] + 1 < |init| == n - 1;
        if l < |r'| {
          assert r[l] == r'[l];
          assert r'[k] < r'[l];
        } else {
          assert r[l] == n - 2;
        }
      }
    }
  }

  /** The slice drawn for the stretch starting at checkpoint `j`: its ends' shares of the route, scaled to the polyline. */
  function SliceFor(checkpoints: seq<real>, j: nat, trackKm: real, totalPts: nat): (int, int)
    requires j + 1 < |checkpoints| && trackKm != 0.0
  {
    ClampRange(Position(checkpoints[j], trackKm, totalPts), Position(checkpoints[j + 1], trackKm, totalPts), totalPts)
  }

  /** `int((km / track_length_km) * total_pts)`: the polyline index at a route distance. */
  function Position(km: real, trackKm: real, totalPts: nat): int
    requires trackKm != 0.0
  {
    Trunc(km / trackKm * totalPts as real)
  }

  /**
    The danger slices of `generate_map`: one per stretch strictly longer than
    the range, in route order, each placed by the share of the route length
    at either end of the stretch. `None` models the division by a zero route
    length, reached exactly when some stretch is that long.
  */
  function DangerRanges(checkpoints: seq<real>, trackKm: real, autonomy: real, totalPts: nat): (r: Option<seq<(int, int)>>)
    ensures r.None? <==> trackKm == 0.0 && LongerGaps(checkpoints, autonomy) != []
    ensures r.Some? ==> |r.value| == |LongerGaps(checkpoints, autonomy)|
  {
    if |checkpoints| < 2 then Some([])
    else
      var n := |checkpoints|;
      var init := checkpoints[..n - 1];
      var prev := DangerRanges(init, trackKm, autonomy, totalPts);
      var start := checkpoints[n - 2];
      var end := checkpoints[n - 1];
      if prev.None? then None
      else if end - start <= autonomy then prev
      else if trackKm == 0.0 then None
      else
        Some(prev.value + [SliceFor(checkpoints, n - 2, trackKm, totalPts)])
  }

  /** Slice `k` is the one for the `k`-th stretch longer than the range, and lies inside a non-empty polyline. */
  lemma {:induction false} DangerRangesSpec(checkpoints: seq<real>, trackKm: real, autonomy: real, totalPts: nat)
    ensures var r := DangerRanges(checkpoints, trackKm, autonomy, totalPts);
      r.Some? ==> forall k :: 0 <= k < |r.value| ==>
        && trackKm != 0.0
        && r.value[k] == SliceFor(checkpoints, LongerGaps(checkpoints, autonomy)[k], trackKm, totalPts)
        && (totalPts >= 1 ==> 0 <= r.value[k].0 < r.value[k].1 <= totalPts)
  {
    if |checkpoints| >= 2 {
      var n := |checkpoints|;
      var init := checkpoints[..n - 1];
      DangerRangesSpec(init, trackKm, autonomy, totalPts);
      var r := DangerRanges(checkpoints, trackKm, autonomy, totalPts);
      var prev := DangerRanges(init, trackKm, autonomy, totalPts);
      var gaps := LongerGaps(init, autonomy);
      if r.Some? {
        forall k | 0 <= k < |prev.value|
          ensures SliceFor(init, gaps[k], trackKm, totalPts) == SliceFor(checkpoints, gaps[k], trackKm, totalPts)
        {
          assert init[gaps[k]] == checkpoints[gaps[k]] && init[gaps[k] + 1] == checkpoints[gaps[k] + 1];
        }
      }
    }
  }

  /** Nearer route distances map to polyline positions that are no later. */
  lemma PositionMonotone(a: real, b: real, trackKm: real, totalPts: nat)
    requires a <= b && trackKm > 0.0
    ensures Position(a, trackKm, totalPts) <= Position(b, trackKm, totalPts)
  {
    var x, y := a / trackKm * totalPts as real, b / trackKm * totalPts as real;
    assert a / trackKm <= b / trackKm;
    assert x <= y by {
      assert y - x == (b / trackKm - a / trackKm) * totalPts as real;
    }
  }

  /** Clamping keeps the order of both ends. */
  lemma ClampMonotone(s1: int, e1: int, s2: int, e2: int, totalPts: nat)
    requires s1 <= s2 && e1 <= e2
    ensures ClampRange(s1, e1, totalPts).0 <= ClampRange(s2, e2, totalPts).0
    ensures ClampRange(s1, e1, totalPts).1 <= ClampRange(s2, e2, totalPts).1
  {
  }

  /** The slice of a later stretch starts and ends no earlier than that of an earlier one. */
  lemma SliceOrder(checkpoints: seq<real>, i: nat, j: nat, trackKm: real, totalPts: nat)
    requires i < j && j + 1 < |checkpoints| && trackKm > 0.0
    requires checkpoints[i] <= checkpoints[j] && checkpoints[i + 1] <= checkpoints[j + 1]
    ensures SliceFor(checkpoints, i, trackKm, totalPts).0 <= SliceFor(checkpoints, j, trackKm, totalPts).0
    ensures SliceFor(checkpoints, i, trackKm, totalPts).1 <= SliceFor(checkpoints, j, trackKm, totalPts).1
  {
    PositionMonotone(checkpoints[i], checkpoints[j], trackKm, totalPts);
    PositionMonotone(checkpoints[i + 1], checkpoints[j + 1], trackKm, totalPts);
    ClampMonotone(Position(checkpoints[i], trackKm, totalPts), Position(checkpoints[i + 1], trackKm, totalPts),
                  Position(checkpoints[j], trackKm, totalPts), Position(checkpoints[j + 1], trackKm, totalPts), totalPts);
  }

  /**
    On a route of positive length whose checkpoints ascend, the danger slices
    follow the route: neither their starts nor their ends ever go back.
  */
  lemma DangerSlicesInRouteOrder(checkpoints: seq<real>, trackKm: real, autonomy: real, totalPts: nat)
    requires trackKm > 0.0
    requires forall i, j :: 0 <= i < j < |checkpoints| ==> checkpoints[i] <= checkpoints[j]
    ensures var r := DangerRanges(checkpoints, trackKm, autonomy, totalPts);
      && r.Some?
      && forall k, l :: 0 <= k < l < |r.value| ==> r.value[k].0 <= r.value[l].0 && r.value[k].1 <= r.value[l].1
  {
    var r := DangerRanges(checkpoints, trackKm, autonomy, totalPts);
    var gaps := LongerGaps(checkpoints, autonomy);
    assert r.Some?;
    LongerGapsComplete(checkpoints, autonomy);
    DangerRangesSpec(checkpoints, trackKm, autonomy, totalPts);
    forall k, l | 0 <= k < l < |r.value|
      ensures r.value[k].0 <= r.value[l].0 && r.value[k].1 <= r.value[l].1
    {
      var i, j := gaps[k], gaps[l];
      assert i < j && j + 1 < |checkpoints|;
      assert checkpoints[i] <= checkpoints[j] && checkpoints[i + 1] <= checkpoints[j + 1];
      SliceOrder(checkpoints, i, j, trackKm, totalPts);
    }
  }
}
