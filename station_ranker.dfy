/**
  The station ranker (`filter_cheapest_stations`). It keeps the corridor
  stations that have a positive price for the chosen fuel and either returns
  the `top_n` cheapest (global mode), or, when the route is known and a
  segment length is set, adds the cheapest station of every `segment_km` bin
  of route distance, removes geometry duplicates and orders the result along
  the route (segmented mode).
*/
module StationRanker {
  import opened Wrappers
  import opened Sorting

  /** A projected (metric) station position; stations are deduplicated by it. */
  datatype Point = Point(x: real, y: real)

  /**
    A corridor station: geometry, the price of each fuel column that has a
    number in this row (an absent key is NaN), and `km_ruta`, the distance
    along the route where the station projects.
  */
  datatype Station = Station(geom: Point, prices: map<string, real>, km: real)

  /** The corridor stations with the set of columns of the table. */
  datatype StationFrame = StationFrame(columns: set<string>, rows: seq<Station>)

  /** A returned row: the station, `precio_seleccionado` and `combustible`. */
  datatype Selected = Selected(station: Station, price: real, fuel: string)

  datatype RankError = UnknownFuelColumn(fuel: string)

  /** A segment length the segmented mode runs with. */
  type PositiveReal = r: real | r > 0.0 witness 1.0

  /** The row has a price for `fuel` and it is greater than zero. */
  predicate HasValidPrice(s: Station, fuel: string) {
    fuel in s.prices && s.prices[fuel] > 0.0
  }

  /** The rows kept by the `notna() & > 0` mask, in table order, with the selected price attached. */
  function ValidStations(rows: seq<Station>, fuel: string): (v: seq<Selected>)
    ensures |v| <= |rows|
    ensures forall x :: x in v ==>
              x.station in rows && x.fuel == fuel && HasValidPrice(x.station, fuel) && x.price == x.station.prices[fuel]
    ensures forall s :: s in rows && HasValidPrice(s, fuel) ==> Selected(s, s.prices[fuel], fuel) in v
  {
    if rows == [] then []
    else
      var rest := ValidStations(rows[1..], fuel);
      assert forall s :: s in rows ==> s == rows[0] || s in rows[1..];
      if HasValidPrice(rows[0], fuel) then [Selected(rows[0], rows[0].prices[fuel], fuel)] + rest else rest
  }

  /** The mask works row by row: it distributes over concatenation, so it keeps table order and repeats. */
  lemma {:induction false} ValidStationsDistributes(a: seq<Station>, b: seq<Station>, fuel: string)
    ensures ValidStations(a + b, fuel) == ValidStations(a, fuel) + ValidStations(b, fuel)
  {
    if a == [] {
      assert a + b == b;
    } else {
      assert (a + b)[0] == a[0];
      assert (a + b)[1..] == a[1..] + b;
      ValidStationsDistributes(a[1..], b, fuel);
    }
  }

  /** Price order, used by `nsmallest`. */
  predicate Cheaper(a: Selected, b: Selected) {
    a.price < b.price
  }

  /** Route order, used by `sort_values("km_ruta")`. */
  predicate EarlierOnRoute(a: Selected, b: Selected) {
    a.station.km < b.station.km
  }

  function Geometry(x: Selected): Point {
    x.station.geom
  }

  /** `nsmallest(top_n)`: the `top_n` cheapest, ascending, ties kept in table order. */
  function GlobalTopN(valid: seq<Selected>, topN: nat): seq<Selected> {
    SortBy(valid, Cheaper)[..Min(topN, |valid|)]
  }

  /** `km_ruta // segment_km`: the index of the route bin holding the station. */
  function Bin(x: Selected, segmentKm: PositiveReal): int {
    (x.station.km / segmentKm).Floor
  }

  /**
    `idxmin` over bin `b` among the first `n` valid stations: the index of the
    first station of minimum price in that bin, or -1 when the bin is empty.
  */
  function BestInBin(valid: seq<Selected>, segmentKm: PositiveReal, b: int, n: nat): (k: int)
    requires n <= |valid|
    ensures -1 <= k < n
    ensures k == -1 <==> forall j :: 0 <= j < n ==> Bin(valid[j], segmentKm) != b
    ensures k >= 0 ==> Bin(valid[k], segmentKm) == b
    ensures k >= 0 ==> forall j :: 0 <= j < n && Bin(valid[j], segmentKm) == b ==> valid[k].price <= valid[j].price
    ensures k >= 0 ==> forall j :: 0 <= j < k && Bin(valid[j], segmentKm) == b ==> valid[k].price < valid[j].price
  {
    if n == 0 then -1
    else
      var k := BestInBin(valid, segmentKm, b, n - 1);
      if Bin(valid[n - 1], segmentKm) != b then k
      else if k == -1 || valid[n - 1].price < valid[k].price then n - 1
      else k
  }

  /** Whether `valid[i]` is the one `idxmin` picks for its own bin. */
  predicate IsBinMinimum(valid: seq<Selected>, segmentKm: PositiveReal, i: nat)
    requires i < |valid|
  {
    BestInBin(valid, segmentKm, Bin(valid[i], segmentKm), |valid|) == i
  }

  /** The bin minima among the first `n` valid stations, in table order. */
  function BinMinima(valid: seq<Selected>, segmentKm: PositiveReal, n: nat): (picks: seq<Selected>)
    requires n <= |valid|
    ensures forall x :: x in picks ==> x in valid
    ensures forall i :: 0 <= i < n && IsBinMinimum(valid, segmentKm, i) ==> valid[i] in picks
  {
    if n == 0 then []
    else
      var picks := BinMinima(valid, segmentKm, n - 1);
      if IsBinMinimum(valid, segmentKm, n - 1) then picks + [valid[n - 1]] else picks
  }

  /** `groupby("tramo").idxmin()`: one station per non-empty bin, in ascending bin order. */
  function SegmentMinima(valid: seq<Selected>, segmentKm: PositiveReal): seq<Selected> {
    SortBy(BinMinima(valid, segmentKm, |valid|), (a, b) => Bin(a, segmentKm) < Bin(b, segmentKm))
  }

  function Geometries(s: seq<Selected>): set<Point> {
    set x | x in s :: x.station.geom
  }

  /** `drop_duplicates(subset=["geometry"])`: keeps the first row of each geometry. */
  function DedupByGeometry(s: seq<Selected>): seq<Selected> {
    if s == [] then []
    else
      var r := DedupByGeometry(s[..|s| - 1]);
      if s[|s| - 1].station.geom in Geometries(r) then r else r + [s[|s| - 1]]
  }

  /** Deduplication keeps only input rows and loses no geometry. */
  lemma {:induction false} DedupKeepsRowsAndGeometries(s: seq<Selected>)
    ensures forall x :: x in DedupByGeometry(s) ==> x in s
    ensures forall g :: g in Geometries(s) <==> g in Geometries(DedupByGeometry(s))
  {
    if s != [] {
      var init := s[..|s| - 1];
      var x := s[|s| - 1];
      DedupKeepsRowsAndGeometries(init);
      assert s == init + [x];
      var r := DedupByGeometry(init);
      forall g | g in Geometries(s)
        ensures g in Geometries(DedupByGeometry(s))
      {
        var y :| y in s && y.station.geom == g;
        if y in init {
          assert g in Geometries(init);
          var z :| z in r && z.station.geom == g;
          assert z in DedupByGeometry(s);
        }
      }
    }
  }

  /** After deduplication no two rows share a geometry. */
  lemma {:induction false} DedupIsDistinct(s: seq<Selected>)
    ensures DistinctBy(DedupByGeometry(s), Geometry)
  {
    if s != [] {
      var init := s[..|s| - 1];
      var x := s[|s| - 1];
      var r := DedupByGeometry(init);
      DedupIsDistinct(init);
      if x.station.geom !in Geometries(r) {
        var t := r + [x];
        forall i, j | 0 <= i < j < |t|
          ensures t[i].station.geom != t[j].station.geom
        {
          if j == |r| {
            assert t[i] in r;
          }
        }
      }
    }
  }

  /** The first row of each geometry, in input order, survives: `keep="first"`. */
  lemma {:induction false} DedupKeepsFirst(s: seq<Selected>, i: nat)
    requires i < |s|
    requires forall j :: 0 <= j < i ==> s[j].station.geom != s[i].station.geom
    ensures s[i] in DedupByGeometry(s)
  {
    var init := s[..|s| - 1];
    var r := DedupByGeometry(init);
    if i < |s| - 1 {
      DedupKeepsFirst(init, i);
    } else {
      DedupKeepsRowsAndGeometries(init);
    }
  }

  /** The segmented result: global top-N plus the bin minima, deduplicated by geometry, in route order. */
  function SegmentedSelection(valid: seq<Selected>, topN: nat, segmentKm: PositiveReal): seq<Selected> {
    SortBy(DedupByGeometry(GlobalTopN(valid, topN) + SegmentMinima(valid, segmentKm)), EarlierOnRoute)
  }

  /**
    `filter_cheapest_stations`: fails on an unknown fuel column; otherwise every
    returned row is a table row with a present, positive price for that fuel,
    carried as the selected price.
  */
  function FilterCheapestStations(frame: StationFrame, fuel: string, topN: nat, hasTrack: bool, segmentKm: real)
    : (r: Result<seq<Selected>, RankError>)
    ensures r.Err? <==> fuel !in frame.columns
    ensures r.Err? ==> r.error == UnknownFuelColumn(fuel)
    ensures r.Ok? ==> forall x :: x in r.value ==>
              && x.station in frame.rows && x.fuel == fuel
              && HasValidPrice(x.station, fuel) && x.price == x.station.prices[fuel]
  {
    if fuel !in frame.columns then Err(UnknownFuelColumn(fuel))
    else
      var valid := ValidStations(frame.rows, fuel);
      if valid == [] then Ok([])
      else if hasTrack && segmentKm > 0.0 then
        SegmentedSelectionFromValid(valid, topN, segmentKm);
        Ok(SegmentedSelection(valid, topN, segmentKm))
      else
        GlobalTopNFromValid(valid, topN);
        Ok(GlobalTopN(valid, topN))
  }

  lemma GlobalTopNFromValid(valid: seq<Selected>, topN: nat)
    ensures forall x :: x in GlobalTopN(valid, topN) ==> x in valid
  {
    var sorted := SortBy(valid, Cheaper);
    forall x | x in GlobalTopN(valid, topN)
      ensures x in valid
    {
      assert x in sorted;
      assert x in multiset(sorted);
    }
  }

  lemma SegmentedSelectionFromValid(valid: seq<Selected>, topN: nat, segmentKm: PositiveReal)
    ensures forall x :: x in SegmentedSelection(valid, topN, segmentKm) ==> x in valid
  {
    var picks := BinMinima(valid, segmentKm, |valid|);
    var minima := SegmentMinima(valid, segmentKm);
    var all := GlobalTopN(valid, topN) + minima;
    var d := DedupByGeometry(all);
    GlobalTopNFromValid(valid, topN);
    DedupKeepsRowsAndGeometries(all);
    forall x | x in SegmentedSelection(valid, topN, segmentKm)
      ensures x in valid
    {
      assert x in multiset(d);
      assert x in all;
      if x in minima {
        assert x in multiset(minima);
        assert x in picks;
      }
    }
  }

  lemma CheaperIsStrictOrder()
    ensures StrictOrder(Cheaper)
  {
  }

  lemma EarlierOnRouteIsStrictOrder()
    ensures StrictOrder(EarlierOnRoute)
  {
  }

  /**
    `nsmallest` returns `min(top_n, #valid)` stations in ascending price, and
    no valid station left out is cheaper than any station returned.
  */
  lemma GlobalTopNSpec(valid: seq<Selected>, topN: nat)
    ensures var r := GlobalTopN(valid, topN);
            && |r| == Min(topN, |valid|)
            && multiset(r) <= multiset(valid)
            && (forall i, j :: 0 <= i < j < |r| ==> r[i].price <= r[j].price)
            && (forall x, y :: x in multiset(valid) - multiset(r) && y in r ==> y.price <= x.price)
  {
    CheaperIsStrictOrder();
    SortByIsSorted(valid, Cheaper);
    var sorted := SortBy(valid, Cheaper);
    var n := Min(topN, |valid|);
    LeftOutNotCheaper(valid, sorted, n);
    PrefixIsSubMultiset(sorted, n);
  }

  /** A prefix takes nothing that the whole sequence does not hold. */
  lemma PrefixIsSubMultiset(s: seq<Selected>, n: nat)
    requires n <= |s|
    ensures multiset(s[..n]) <= multiset(s)
  {
    assert s == s[..n] + s[n..];
    assert multiset(s) == multiset(s[..n]) + multiset(s[n..]);
  }

  /** In a price-sorted permutation, nothing after the first `n` is cheaper than anything in them. */
  lemma LeftOutNotCheaper(valid: seq<Selected>, sorted: seq<Selected>, n: nat)
    requires multiset(sorted) == multiset(valid) && n <= |sorted|
    requires SortedBy(sorted, Cheaper)
    ensures forall x, y :: x in multiset(valid) - multiset(sorted[..n]) && y in sorted[..n] ==> y.price <= x.price
  {
    LeftOutIsSuffix(valid, sorted, n);
    var r := sorted[..n];
    forall x: Selected, y: Selected | x in multiset(valid) - multiset(r) && y in r
      ensures y.price <= x.price
    {
      var i :| 0 <= i < n && r[i] == y;
      var j :| n <= j < |sorted| && sorted[j] == x;
      assert !Cheaper(sorted[j], sorted[i]);
    }
  }

  /** What a prefix of a permutation leaves out is the rest of that permutation. */
  lemma LeftOutIsSuffix(valid: seq<Selected>, sorted: seq<Selected>, n: nat)
    requires multiset(sorted) == multiset(valid) && n <= |sorted|
    ensures forall x :: x in multiset(valid) - multiset(sorted[..n]) ==> exists j :: n <= j < |sorted| && sorted[j] == x
  {
    var r := sorted[..n];
    var rest := sorted[n..];
    assert sorted == r + rest;
    assert multiset(valid) - multiset(r) == multiset(rest);
    forall x | x in multiset(valid) - multiset(r)
      ensures exists j :: n <= j < |sorted| && sorted[j] == x
    {
      assert x in rest;
      var j :| 0 <= j < |rest| && rest[j] == x;
      assert sorted[n + j] == x;
    }
  }

  /** Global mode of `filter_cheapest_stations` is exactly `nsmallest` over the valid rows. */
  lemma GlobalModeSpec(frame: StationFrame, fuel: string, topN: nat, hasTrack: bool, segmentKm: real)
    requires fuel in frame.columns
    requires !(hasTrack && segmentKm > 0.0)
    ensures var r := FilterCheapestStations(frame, fuel, topN, hasTrack, segmentKm).value;
            var valid := ValidStations(frame.rows, fuel);
            && |r| == Min(topN, |valid|)
            && multiset(r) <= multiset(valid)
            && (forall i, j :: 0 <= i < j < |r| ==> r[i].price <= r[j].price)
            && (forall x, y :: x in multiset(valid) - multiset(r) && y in r ==> y.price <= x.price)
  {
    var valid := ValidStations(frame.rows, fuel);
    GlobalTopNSpec(valid, topN);
    if valid == [] {
      assert FilterCheapestStations(frame, fuel, topN, hasTrack, segmentKm).value == [];
    } else {
      assert FilterCheapestStations(frame, fuel, topN, hasTrack, segmentKm).value == GlobalTopN(valid, topN);
    }
  }

  /** Every station of the global top-N is one of the segmented result's geometries. */
  lemma SegmentedKeepsGlobalTopN(valid: seq<Selected>, topN: nat, segmentKm: PositiveReal)
    ensures Geometries(GlobalTopN(valid, topN)) <= Geometries(SegmentedSelection(valid, topN, segmentKm))
  {
    var all := GlobalTopN(valid, topN) + SegmentMinima(valid, segmentKm);
    var d := DedupByGeometry(all);
    var r := SortBy(d, EarlierOnRoute);
    forall g | g in Geometries(GlobalTopN(valid, topN))
      ensures g in Geometries(r)
    {
      var x :| x in GlobalTopN(valid, topN) && x.station.geom == g;
      assert x in all;
      DedupKeepsRowsAndGeometries(all);
      assert g in Geometries(all);
      var y :| y in d && y.station.geom == g;
      assert y in multiset(r);
    }
  }

  /** For every non-empty bin, the geometry of its cheapest station (first in table order) is in the segmented result. */
  lemma SegmentedCoversEveryBin(valid: seq<Selected>, topN: nat, segmentKm: PositiveReal, i: nat)
    requires i < |valid|
    ensures var k := BestInBin(valid, segmentKm, Bin(valid[i], segmentKm), |valid|);
            0 <= k < |valid| && valid[k].station.geom in Geometries(SegmentedSelection(valid, topN, segmentKm))
  {
    var b := Bin(valid[i], segmentKm);
    var k := BestInBin(valid, segmentKm, b, |valid|);
    assert k >= 0;
    assert IsBinMinimum(valid, segmentKm, k);
    var picks := BinMinima(valid, segmentKm, |valid|);
    assert valid[k] in picks;
    var lt := (a, c) => Bin(a, segmentKm) < Bin(c, segmentKm);
    assert valid[k] in multiset(SortBy(picks, lt));
    var all := GlobalTopN(valid, topN) + SegmentMinima(valid, segmentKm);
    assert valid[k] in all;
    var d := DedupByGeometry(all);
    DedupKeepsRowsAndGeometries(all);
    assert valid[k].station.geom in Geometries(all);
    var y :| y in d && y.station.geom == valid[k].station.geom;
    assert y in multiset(SortBy(d, EarlierOnRoute));
  }

  /** The segmented result has no two stations at one geometry and is in ascending route order. */
  lemma SegmentedIsDistinctAndOrdered(valid: seq<Selected>, topN: nat, segmentKm: PositiveReal)
    ensures var r := SegmentedSelection(valid, topN, segmentKm);
            && DistinctBy(r, Geometry)
            && (forall i, j :: 0 <= i < j < |r| ==> r[i].station.km <= r[j].station.km)
  {
    var d := DedupByGeometry(GlobalTopN(valid, topN) + SegmentMinima(valid, segmentKm));
    DedupIsDistinct(GlobalTopN(valid, topN) + SegmentMinima(valid, segmentKm));
    SortByKeepsDistinct(d, EarlierOnRoute, Geometry);
    EarlierOnRouteIsStrictOrder();
    SortByIsSorted(d, EarlierOnRoute);
  }

  /** The bin minima hold nothing but stations that `idxmin` picks for their own bin. */
  lemma {:induction false} BinMinimaOnlyMinima(valid: seq<Selected>, segmentKm: PositiveReal, n: nat)
    requires n <= |valid|
    ensures forall x :: x in BinMinima(valid, segmentKm, n) ==>
              exists i :: 0 <= i < n && valid[i] == x && IsBinMinimum(valid, segmentKm, i)
  {
    if n > 0 {
      BinMinimaOnlyMinima(valid, segmentKm, n - 1);
      forall x | x in BinMinima(valid, segmentKm, n)
        ensures exists i :: 0 <= i < n && valid[i] == x && IsBinMinimum(valid, segmentKm, i)
      {
        if x !in BinMinima(valid, segmentKm, n - 1) {
          assert valid[n - 1] == x && IsBinMinimum(valid, segmentKm, n - 1);
        }
      }
    }
  }

  /**
    The segmented result adds nothing else: every row in it is a global top-N
    row or the `idxmin` pick of its own bin ("Top N global + 1 per tramo").
  */
  lemma SegmentedHoldsOnlyTopNAndMinima(valid: seq<Selected>, topN: nat, segmentKm: PositiveReal)
    ensures forall x :: x in SegmentedSelection(valid, topN, segmentKm) ==>
              x in GlobalTopN(valid, topN) || exists i :: 0 <= i < |valid| && valid[i] == x && IsBinMinimum(valid, segmentKm, i)
  {
    var picks := BinMinima(valid, segmentKm, |valid|);
    var minima := SegmentMinima(valid, segmentKm);
    var all := GlobalTopN(valid, topN) + minima;
    var d := DedupByGeometry(all);
    BinMinimaOnlyMinima(valid, segmentKm, |valid|);
    DedupKeepsRowsAndGeometries(all);
    forall x | x in SegmentedSelection(valid, topN, segmentKm)
      ensures x in GlobalTopN(valid, topN) || exists i :: 0 <= i < |valid| && valid[i] == x && IsBinMinimum(valid, segmentKm, i)
    {
      assert x in multiset(d);
      assert x in all;
      if x in minima {
        assert x in multiset(minima);
        assert x in picks;
      }
    }
  }

  /**
    Segmented mode of `filter_cheapest_stations`, with a track and a positive
    segment length: the result keeps every global top-N geometry, holds only
    top-N rows and bin picks, has distinct geometries and runs in route order.
  */
  lemma SegmentedModeSpec(frame: StationFrame, fuel: string, topN: nat, segmentKm: real)
    requires fuel in frame.columns && segmentKm > 0.0
    ensures var r := FilterCheapestStations(frame, fuel, topN, true, segmentKm).value;
            var valid := ValidStations(frame.rows, fuel);
            && Geometries(GlobalTopN(valid, topN)) <= Geometries(r)
            && (forall x :: x in r ==>
                  x in GlobalTopN(valid, topN) || exists i :: 0 <= i < |valid| && valid[i] == x && IsBinMinimum(valid, segmentKm, i))
            && DistinctBy(r, Geometry)
            && (forall i, j :: 0 <= i < j < |r| ==> r[i].station.km <= r[j].station.km)
            && (forall i :: 0 <= i < |valid| ==>
                  var k := BestInBin(valid, segmentKm, Bin(valid[i], segmentKm), |valid|);
                  0 <= k < |valid| && valid[k].station.geom in Geometries(r))
  {
    var valid := ValidStations(frame.rows, fuel);
    if valid != [] {
      assert FilterCheapestStations(frame, fuel, topN, true, segmentKm).value == SegmentedSelection(valid, topN, segmentKm);
      forall i | 0 <= i < |valid|
        ensures var k := BestInBin(valid, segmentKm, Bin(valid[i], segmentKm), |valid|);
                0 <= k < |valid| && valid[k].station.geom in Geometries(SegmentedSelection(valid, topN, segmentKm))
      {
        SegmentedCoversEveryBin(valid, topN, segmentKm, i);
      }
      SegmentedKeepsGlobalTopN(valid, topN, segmentKm);
      SegmentedHoldsOnlyTopNAndMinima(valid, topN, segmentKm);
      SegmentedIsDistinctAndOrdered(valid, topN, segmentKm);
    } else {
      assert FilterCheapestStations(frame, fuel, topN, true, segmentKm).value == [];
      assert GlobalTopN(valid, topN) == [];
    }
  }
}
