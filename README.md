# Fuel stops along a route — a verified model

This project models the core of `gasolineras_ruta.py`, which plans fuel stops along a driving route in Spain. It covers:

- **GPX ingestion and validation.** All track points are read in order, with routes as the fallback, and at least two points are required. A track is accepted when it has no more than 50 000 points and its mean position lies inside the bounding box of Spain.
- **Price-table cleaning.** Decimal commas become points and surrounding whitespace is stripped. Rows with a missing or zero coordinate are dropped.
- **The station ranker** (`filter_cheapest_stations`). Global mode returns the `top_n` cheapest stations with a valid price. Segmented mode adds the cheapest station of every `segment_km` bin of the route, removes rows that share a geometry, and orders the result by route distance.
- **The directions link** (`generate_google_maps_url`). Origin and destination come from the track. At most nine stops become waypoints, and the number left out is reported.
- **Track splicing** (`enrich_gpx_with_stops`). One waypoint is added per stop. The track is rerouted through each stop, from the exit vertex to a re-entry vertex found by a forward walk. Splices are applied in descending position order.
- **Detour enrichment.** `get_real_distance_osrm` interprets one routing reply. `enrich_stations_with_osrm` applies the completed requests behind a circuit breaker of three consecutive failures.
- **The autonomy radar** (`calculate_autonomy_radar`). The route is cut at every station distance, and each stretch is rated critical, attention or safe against the vehicle's range. The map's danger slices for stretches longer than the range are modelled alongside.

A NaN cell is an absent map key or `None`; where `row.get` tells a missing column from a NaN cell, the model tells them apart too. The results of libraries and services become inputs:

- the parsed GPX structure;
- edge lengths;
- the route distance of each station;
- the nearest track vertex;
- routing replies;
- the order in which requests complete.

Modules:

| file | module |
|---|---|
| `wrappers.dfy` | `Wrappers` (`Option`, `Result`) |
| `geo.dfy` | `Geo` (`Coord`) |
| `sorting.dfy` | `Sorting` (stable insertion sort by a strict order, its permutation and sortedness lemmas) |
| `gpx_ingest.dfy` | `GpxIngest` |
| `price_cleaning.dfy` | `PriceCleaning` |
| `station_ranker.dfy` | `StationRanker` |
| `maps_url.dfy` | `MapsUrl` |
| `gpx_splice.dfy` | `GpxSplice` |
| `detour_enrichment.dfy` | `DetourEnrichment` |
| `autonomy_radar.dfy` | `AutonomyRadar` |

The row filter drops a station when its latitude OR its longitude is zero (`gasolineras_ruta.py:201`), not only at (0, 0) as the accompanying comment says. The model follows the code.

## Model

| member | source | states |
|---|---|---|
| GpxIngest.LoadGpxTrack | gasolineras_ruta.py:419-441 | Succeeds exactly when the points read number at least two. The result is every track point in document order, or every route point when the tracks hold none. Otherwise it fails with `TooFewPoints` carrying the count. |
| GpxIngest.FlattenLength | gasolineras_ruta.py:421-425 | The accumulated point list is as long as all segments together. |
| GpxIngest.TrackPointsMember | gasolineras_ruta.py:421-425 | A point is accumulated exactly when it belongs to some segment of some track. |
| GpxIngest.ValidateGpxTrack | gasolineras_ruta.py:448-494 | Accepts exactly the tracks with 1 to 50 000 points whose mean longitude and latitude lie strictly inside the bounding box. Rejects more than 50 000 points with `TooManyPoints`, and an empty track (a division by zero in the source) always with `EmptyTrack`, and an outside centroid with `OutsideRegion`. |
| GpxIngest.TrackInsideRegionIsValid | gasolineras_ruta.py:479-487 | A non-empty track within the cap whose every point lies strictly inside the bounding box always passes validation, because the mean stays inside. |
| PriceCleaning.StripSpec | gasolineras_ruta.py:178-180 | `strip()` gives the text with only whitespace (Python's `str.isspace` set, non-ASCII included) cut from either end: a slice after the leading whitespace, with whitespace after it, that neither starts nor ends with whitespace. |
| PriceCleaning.NormalizeNumericSpec | gasolineras_ruta.py:174-192 | A cleaned cell contains no comma and neither starts nor ends with whitespace. |
| PriceCleaning.DropUnlocatedRows | gasolineras_ruta.py:195-201 | Keeps, in order, exactly the rows whose latitude and longitude are both present and both non-zero. |
| PriceCleaning.DropUnlocatedRowsDistributes | gasolineras_ruta.py:195-201 | Filtering a concatenation equals concatenating the filtered parts, so filtering is row-by-row and order-preserving. |
| StationRanker.ValidStations | gasolineras_ruta.py:706-719 | A row is selected exactly when its price for the fuel is present and positive, and carries that price as the selected price. |
| StationRanker.ValidStationsDistributes | gasolineras_ruta.py:710-711 | The price mask works row by row: on a concatenation it gives the concatenation of its results, so table order and repeated rows are kept. |
| StationRanker.FilterCheapestStations | gasolineras_ruta.py:697-766 | Fails with `UnknownFuelColumn` exactly when the fuel is not a column. Otherwise every returned row is a table row with a valid price for that fuel, equal to its selected price. |
| StationRanker.GlobalTopNSpec | gasolineras_ruta.py:727 | `nsmallest` returns min(top_n, #valid) of the valid stations (a sub-multiset of them) in ascending price. No valid station left out is cheaper than one returned. |
| StationRanker.GlobalModeSpec | gasolineras_ruta.py:754-756 | Without a track or a positive segment length, the ranker returns min(top_n, #valid) of the valid rows (a sub-multiset of them) in ascending price, and no valid row left out is cheaper than one returned. |
| StationRanker.BestInBin | gasolineras_ruta.py:731-735 | For a bin, gives the first row in table order with the lowest price in that bin (`idxmin`), or -1 when the bin is empty. |
| StationRanker.SegmentedKeepsGlobalTopN | gasolineras_ruta.py:737-741 | Every station of the global top-N keeps its geometry in the segmented result. |
| StationRanker.SegmentedCoversEveryBin | gasolineras_ruta.py:731-741 | For every non-empty route bin, the geometry of its cheapest station is in the segmented result. |
| StationRanker.BinMinimaOnlyMinima | gasolineras_ruta.py:731-735 | Every row taken per bin is the `idxmin` row of some non-empty bin. |
| StationRanker.SegmentedHoldsOnlyTopNAndMinima | gasolineras_ruta.py:731-741 | Every row of the segmented result is a global top-N row or the cheapest row of some bin: nothing else enters. |
| StationRanker.SegmentedModeSpec | gasolineras_ruta.py:729-744 | With a track and a positive segment length, the ranker's result keeps every top-N geometry, holds the cheapest station of every non-empty route bin, holds only top-N rows and bin minima, has distinct geometries and ascends by route distance. |
| StationRanker.SegmentedIsDistinctAndOrdered | gasolineras_ruta.py:741-744 | The segmented result has no two rows at one geometry and is in ascending route distance. |
| StationRanker.DedupKeepsRowsAndGeometries | gasolineras_ruta.py:741 | Dropping duplicate geometries keeps only input rows and loses no geometry. |
| StationRanker.DedupKeepsFirst | gasolineras_ruta.py:741 | The row kept for a geometry is its first occurrence (`keep="first"`). |
| Sorting.SortByIsSorted | gasolineras_ruta.py:727 | Sorting by a strict order yields a sequence in that order. Together with `SortBy`'s contract, it is a permutation of the input. |
| MapsUrl.GoogleMapsUrl | gasolineras_ruta.py:776-838 | Origin and destination are the first and last track vertex in (lat, lon). `api=1` and `travelmode=driving`. Waypoints are present exactly when there are stops, and are the first min(#stops, 9) stops in order. The reported count is #stops - 9 when above nine, else 0. |
| MapsUrl.TruncationIsReported | gasolineras_ruta.py:816-835 | Kept waypoints plus the reported omissions account for every stop. The `waypoints` parameter is present exactly when there are stops. |
| GpxSplice.StopWaypoint | gasolineras_ruta.py:880-908 | The marker for a stop is placed at the stop, has symbol "Fuel" and its stop number. Brand, litres, cost and price take their defaults ("Gasolinera #i", 0, 0, 0) only when the column is missing, and are NaN exactly when the cell is NaN; without a fuel column the price is 0. The detailed name appears exactly when litres is a positive number, the cost note exactly when the cost is. |
| GpxSplice.ReentryIndexSpec | gasolineras_ruta.py:963-980 | The re-entry vertex is after the exit vertex (unless the exit vertex is the last one) and at most 30 vertices and the track end beyond it. It is the first vertex where the walked distance exceeds 35, or the search limit. |
| GpxSplice.ReentryClampIsNoOp | gasolineras_ruta.py:979-980 | The clamp after the search never changes the vertex found. |
| GpxSplice.FindReentryIndex | gasolineras_ruta.py:963-980 | The source's forward loop computes exactly that re-entry vertex. |
| GpxSplice.NewPointsSpec | gasolineras_ruta.py:1020-1036 | With both legs failed, the detour is the station alone. Otherwise it is the entry leg's points after its first, in order, followed by the exit leg's points after its first, in order, and nothing else: its length is the sum of those counts. It is empty exactly when no leg has more than its first point. |
| GpxSplice.ApplySplitKeepsEarlierVertices | gasolineras_ruta.py:1039-1041 | A splice changes only its own segment and keeps every vertex up to its exit vertex. |
| GpxSplice.SplicesAreNeverSkipped | gasolineras_ruta.py:946-1041 | Applied in descending position order, each splice finds its exit vertex in range and still holding the original point. |
| GpxSplice.EnrichGpxWithStops | gasolineras_ruta.py:874-1043 | Appends one numbered marker per stop. Then, when the document has a track point, applies every stop's splice in descending (track, segment, point) order. Otherwise the tracks are unchanged. |
| GpxSplice.GpxDocument.SpliceAt | gasolineras_ruta.py:954-1041 | Reroutes exactly one segment as the splice function describes and leaves the waypoints alone. |
| DetourEnrichment.RealDistance | gasolineras_ruta.py:1091-1116 | Gives a result exactly when the reply is neither a transport failure, a 429, nor a 4xx/5xx, and has code "Ok", a route and a leg with both numbers. The result is that leg's distance in km and duration in minutes. |
| DetourEnrichment.EnrichStationsWithOsrm | gasolineras_ruta.py:1189-1219 | The column and the breaker flag are those of folding the completions through the breaker step. |
| DetourEnrichment.FoldShape | gasolineras_ruta.py:1189-1213 | The column keeps one cell per row, and the failure counter never exceeds three. |
| DetourEnrichment.OpenBreakerIgnoresTheRest | gasolineras_ruta.py:1197-1198 | Once three failures in a row are counted, no later completion changes anything. |
| DetourEnrichment.SuccessResets | gasolineras_ruta.py:1202-1205 | While the breaker is closed, a successful completion writes its row and resets the failure count to zero. |
| DetourEnrichment.ColumnHoldsOwnResults | gasolineras_ruta.py:1194-1205 | A row's cell is filled exactly when its own request succeeded while the breaker was closed, and then holds that request's result. |
| DetourEnrichment.ClosedSuccessIsKept | gasolineras_ruta.py:1197-1205 | A success applied while the breaker is closed stays in the final column: no later completion overwrites it. |
| AutonomyRadar.ClassifySpec | gasolineras_ruta.py:1799-1817 | With a positive range, the share is gap/range. A stretch is critical exactly when the gap is at least the range, attention exactly when it is between 80% and the range, safe below 80%. Without a range, it is safe and unrated with share 0. |
| AutonomyRadar.CalculateAutonomyRadar | gasolineras_ruta.py:1780-1845 | The total is the edge lengths' sum in km. The stretches are those between consecutive checkpoints [0] + sorted station km + [total]. |
| AutonomyRadar.RateStretches | gasolineras_ruta.py:1794-1843 | The loop produces exactly one rated stretch per pair of consecutive checkpoints, in order. |
| AutonomyRadar.RadarSpansRoute | gasolineras_ruta.py:1787-1797 | There is one more stretch than present station distances. They run from km 0 to the route's end, each starting where the previous one ended. |
| AutonomyRadar.RadarStopsAtEveryStation | gasolineras_ruta.py:1787-1791 | The interior stretch ends are a permutation of the present station distances, in ascending order. |
| AutonomyRadar.StretchesSpec | gasolineras_ruta.py:1794-1797 | Each stretch spans two consecutive checkpoints, and its gap is its length. |
| AutonomyRadar.GapsSumToSpan | gasolineras_ruta.py:1794-1797 | The gaps of contiguous stretches add up to the distance spanned (the whole route for the radar). |
| AutonomyRadar.RadarGapsSumToTotal | gasolineras_ruta.py:1785-1797 | The radar's gaps add up to the route's total length. |
| AutonomyRadar.RadarGapsAreNonNegative | gasolineras_ruta.py:1787-1797 | When every present station distance lies between km 0 and the route's end, no radar stretch has a negative gap. |
| AutonomyRadar.PresentDistributes | gasolineras_ruta.py:1789 | `dropna` acts row by row: on a concatenation it gives the concatenation of its results. |
| AutonomyRadar.GapsAreNonNegative | gasolineras_ruta.py:1787-1797 | For contiguous stretches that start at km 0, end at the route's end and whose interior ends are the station distances in ascending order, all between km 0 and the route's end, no stretch is negative. `RadarGapsAreNonNegative` discharges these conditions for the radar's own stretches. |
| AutonomyRadar.ClassifyIsMonotone | gasolineras_ruta.py:1799-1812 | A longer stretch is never rated less severe. |
| AutonomyRadar.ClampRange | gasolineras_ruta.py:1322-1326 | On a non-empty polyline, the slice lies inside it and holds at least one point. A slice already inside is unchanged, a start past the end gives the last point alone, an end at or before an in-range start gives the start point alone, an in-range start keeps an end past the polyline clamped to its length, and a negative start becomes 0 with the end clamped into [1, n]. On an empty polyline the slice is (0, 1). |
| AutonomyRadar.LongerGaps | gasolineras_ruta.py:1316-1319 | Lists only stretches strictly longer than the range, each between two existing checkpoints. |
| AutonomyRadar.LongerGapsComplete | gasolineras_ruta.py:1316-1319 | Every stretch longer than the range is listed, in ascending order and once. |
| AutonomyRadar.DangerRanges | gasolineras_ruta.py:1316-1327 | One slice per stretch strictly longer than the range. It fails (division by a zero route length) exactly when the route length is zero and some stretch is longer than the range. |
| AutonomyRadar.DangerRangesSpec | gasolineras_ruta.py:1320-1327 | Slice k is the clamped pair of polyline positions at the two ends of the k-th long stretch, each position being that end's share of the route length times the point count, truncated. It lies inside a non-empty polyline. |
| AutonomyRadar.PositionMonotone | gasolineras_ruta.py:1322-1323 | On a route of positive length, a later route distance never maps to an earlier polyline position. |
| AutonomyRadar.DangerSlicesInRouteOrder | gasolineras_ruta.py:1316-1327 | On a route of positive length with ascending checkpoints, the slices are computed and neither their starts nor their ends ever go back along the polyline. |

## Left out

- Network access is not modelled: the price download with its proxy fallbacks, geocoding, the routing calls, the delays and the timeouts. The replies and the nearest-vertex query results are inputs.
- GPX parsing and serialisation (`gpxpy`, UTF-8/latin-1 fallback, `to_xml`) is not modelled. A document is its tracks, segments, points and waypoints.
- Number parsing in `pd.to_numeric` is not modelled. The model takes the already parsed cells.
- Output formatting is not modelled: `%.6f` coordinates, URL encoding, the `|` join, the text of waypoint names and descriptions (only which form is chosen, and the values they show), `round()` of the detour values, and the console messages.
- The radar's display fields are not modelled: the origin and destination names of each stretch (station brands, "Inicio de ruta", "Fin de ruta", "Km n"), the emoji and the text label (`gasolineras_ruta.py:1803-1831`). The model keeps the kilometres, gap, level, share and whether the stretch was rated.
- Geodesic and projected geometry (`Geod.inv`, `line_locate_point`, `project`/`interpolate`, the k-d tree) is not modelled. Edge lengths, route distances and nearest vertices are inputs.
- GpxSplice.FindReentryIndex: the planar step length (degrees times 111 000 through a square root) is a parameter `dist`, since reals have no square root.
- DetourEnrichment.EnrichStationsWithOsrm: the thread pool is not modelled. One completion order is an input, and the lemmas hold for every order.
- Sorting.SortByIsSorted: pandas `sort_values` is not stable, and the model's sort fixes one order among equal keys. `nsmallest` keeps the first of equal prices; by its definition `Insert` places an element after the equal ones already placed, so `SortBy` keeps equal prices in table order, but no lemma states this stability.
- Python floats are modelled as `real`: rounding, infinities and NaN arithmetic are not modelled. A NaN cell is modelled as a missing value instead.
- GpxSplice.ApplySplit: an exit index out of range would raise. The function leaves the tracks alone there, and `SplicesAreNeverSkipped` shows that a run never reaches that case.
- AutonomyRadar.DangerRanges: the map only computes it when a range is set and at least one station distance exists. Drawing the slices with folium, and the rest of `generate_map`, `simplify_track`, the buffer and spatial join, `run_pipeline` and the Streamlit front end, are not part of this model.
