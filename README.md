# SafeMap risk-weighted routing core, in Dafny

This project models the routing core of SafeMap's `app.py`: the part that turns
street-network edges into risk-aware costs and turns a planner's node path back
into a route with statistics. It covers:

- **Risk field** (`apply_crime_weights`): every node of the projected street
  multigraph gets, as its risk, the sum of `severity * exp(-d / alpha)` over the
  hazard records within radius `R` of it. With no hazard records every node gets
  0. Every edge then takes the larger of its two endpoints' risks, a missing one
  read as 0.
- **Weight materialisation** (`materialize_final_weights`): for every
  coefficient beta in `BETAS`, every edge gets `final_w_<tag> = L * (1 + beta * r)`.
  A missing length is read as 1.0 and a missing risk as 0.0.
- **Parallel-edge tie-break** (`pick_edge_key_by_weight`): Python's `min` over
  the parallel edges u -> v. A missing weight is read as 1e18, and among equal
  weights the first edge in iteration order wins.
- **Route reconstruction** (`pairwise`, `route_to_geojson_by_weight`): for each
  consecutive pair of the planner's path, the tie-break's edge is followed. Its
  length, length times risk and weight are added up, each read as 0.0 when
  missing. The mean risk is exposure over length, or 0 for a zero length. Edge
  geometries are stitched, dropping a first point that repeats the last one
  emitted, and `(lat, lon)` pairs are swapped back into `[lng, lat]` positions.
- **Snapping** (`snap_to_nearest_edge_endpoint`): the first edge at minimum
  distance from the query point, then its nearer endpoint, with `u` winning a
  tie. With no edges it falls back to the library's nearest node at offset 0.
- **Baseline deltas** (`route_multi`): one route per coefficient. Each route's
  `detour_m_vs_beta0` and `risk_delta_vs_beta0` are its length and risk exposure
  minus those of the first route, the beta = 0 baseline.

Modules:

- `Common`: `Option` and the first-minimum rule of Python's `min`.
- `Geometry`: coordinates and stitching.
- `RiskField`: per-node and per-edge risk.
- `Weights`: `BETAS`, `BETA_TAGS` and the composite weight.
- `Records`: node and edge records, and the whole-graph passes as functions on
  sequences.
- `Routing`: the tie-break, legs, totals and coordinates.
- `Snapping`: the specification of snapping.
- `Network`: class `Graph`, whose node and edge arrays are updated in place by
  the passes. Its loops are methods proved equal to the functions above.
- `RouteMulti`: the routing loop and the delta loop of `route_multi`.

Node identifiers are positions in the node array. An edge is identified by its
position in the edge array, which is the graph's edge iteration order.

Choices the code makes that the model keeps:

- Parallel-edge ties go to the first edge in iteration order, as Python's `min`
  does.
- With no edge, snapping returns the nearest-node library's answer and raises
  nothing itself. The library's answer is an `Option` input.
- Risk is the raw decayed sum, never rescaled.
- Edge risk is the maximum of the endpoint risks.

## Model

| member | source | states |
|---|---|---|
| Common.FirstArgMin | app.py:156 | the index Python's `min` returns: a minimum, strictly below every key before it |
| Common.FirstArgMinUnique | app.py:156 | those two properties determine the index |
| Geometry.StitchShape | app.py:186-189 | one stitching step keeps what was emitted and then appends the whole segment, or the segment without its first point; that point is dropped exactly when it equals the last emitted point |
| Geometry.StitchAllCovers | app.py:180-189 | a point is in the stitched route exactly when it lies on one of the segments |
| Geometry.StitchAllEnds | app.py:180-189 | the stitched route starts at the first segment's first point and ends at the last segment's last point |
| Geometry.StitchAllContiguousLength | app.py:186-189 | on segments that each start where the previous one ends, exactly one point per join is dropped |
| Geometry.StitchMap | app.py:181-189 | one stitching step commutes with an injective renaming of points |
| Geometry.StitchAllMap | app.py:181-189 | stitching commutes with an injective renaming of points, such as the (lon, lat) to (lat, lon) swap |
| RiskField.Within | app.py:108-111 | exactly the hazards at distance at most R |
| RiskField.EdgeRisk | app.py:124 | the edge risk is one of the two endpoint risks and at least both |
| RiskField.NodeRiskNoneWithin | app.py:111-114 | a node with no hazard within R has risk exactly 0 |
| RiskField.NodeRiskNonNegative | app.py:106-114 | with non-negative severities and a positive exp, node risk is non-negative |
| RiskField.NodeRiskOverWithin | app.py:111-114 | node risk is the sum over the in-radius hazards only |
| RiskField.NodeRiskRemove | app.py:114 | removing one hazard record subtracts exactly its contribution |
| RiskField.NodeRiskPermutation | app.py:114 | node risk does not depend on the order of the hazard records |
| RiskField.MatchingIndex | app.py:114 | in a permutation, the first hazard has a position whose removal leaves permutations of each other |
| RiskField.SingleHazardScenario | app.py:106-114 | with R = 300 and alpha = 150 (line 141) and one hazard of severity 500, a node on the hazard is riskier than one 250 m away, which has positive risk, and a node 400 m away has none |
| Weights.AttrNameInjective | app.py:27-28 | distinct coefficients write distinct `final_w_<tag>` attributes |
| Weights.BetasTagged | app.py:27-28 | every configured coefficient has a tag, and the first is the 0 baseline |
| Weights.CompositeWeight | app.py:137 | the weight equals the length when beta or risk is 0, and is at least the length when nothing is negative |
| Weights.FinalWeights | app.py:135-137 | the attribute map gains exactly the `final_w_<tag>` keys, each holding its coefficient's composite weight, and keeps every other attribute |
| Weights.FinalWeightsStep | app.py:135-137 | writing one more coefficient's attribute extends those three facts to it |
| Records.RiskedNodes | app.py:98-118 | after the node pass, each node's risk is its hazard sum and nothing else about it changes |
| Records.RiskedEdges | app.py:121-124 | after the edge pass, each edge's risk is the larger endpoint risk, a missing one read as 0, and nothing else about it changes |
| Records.Materialized | app.py:132-137 | after materialisation, each edge gains the weights for its length (default 1.0) and risk (default 0.0) |
| Records.PassesKeepWellFormed | app.py:81-137 | the passes keep endpoints and geometries valid |
| Records.NoHazardsWeightIsLength | app.py:98-100 | with no hazards, every edge's risk is 0 and every coefficient's weight equals the length (1.0 when missing) |
| Records.SnapshotWeightsAtLeastLength | app.py:106-137 | with non-negative severities, coefficients and lengths, edge risk is non-negative, every weight is at least the length, and beta = 0 gives the length exactly |
| Routing.Pairwise | app.py:148-151 | n - 1 consecutive pairs for n nodes, none for n <= 1, pair i being (s[i], s[i+1]) |
| Routing.PickUpTo | app.py:156 | the running `min` over the first n edges picks a u -> v edge of minimum weight, the first such, or none when there is no u -> v edge |
| Routing.PickEdge | app.py:153-156 | a parallel u -> v edge exists exactly when one is picked, and the pick is the first of minimum weight (missing read as 1e18) |
| Routing.PickEdgeDependsOnWeights | app.py:153-156 | two weight attributes that agree on every edge pick the same edge |
| Routing.LegsOf | app.py:167-168 | the tie-break's edge for each pair |
| Routing.Legs | app.py:167-168 | a path of n nodes follows n - 1 edges, each the tie-break's pick for its pair |
| Routing.LegsOfPairs | app.py:167-168 | following the path is picking an edge for each `pairwise` pair |
| Routing.MeanRisk | app.py:191 | mean risk times length is the exposure for a positive length, and 0 otherwise |
| Routing.Segments | app.py:179-184 | each leg's geometry, or the two endpoint positions when it has none, with at least two points |
| Routing.SwapLatLon | app.py:181-199 | the (lat, lon) detour swapped back gives the geometry's own points as `[lng, lat]` |
| Routing.ShortRouteIsEmpty | app.py:162-191 | a path of at most one node gives all-zero statistics and no coordinates |
| Routing.LegCoordsEnds | app.py:180-189 | the coordinates start at the first leg's first point and end at the last leg's last point |
| Routing.LegCoordsCover | app.py:180-189 | a position is in the output exactly when it lies on one of the followed edges' geometries |
| Routing.TotalsStep | app.py:171-177 | one more leg adds its length, length times risk and weight (each 0.0 when missing) |
| Routing.CoordsStep | app.py:180-189 | one more leg stitches its (lat, lon) geometry onto the coordinates |
| Routing.FollowStep | app.py:167-189 | one loop iteration keeps the coordinates and the three totals equal to those of the legs followed so far |
| Routing.LatLonStitchSwap | app.py:181-199 | stitching (lat, lon) pairs and swapping them gives the same positions as stitching the geometry itself |
| Routing.MeanRiskBounded | app.py:191 | with non-negative lengths and a positive total, the mean risk lies between the least and the greatest leg risk |
| Routing.ExposureBounds | app.py:175-176 | exposure lies between lo and hi times the length |
| Routing.ExposureAtLeast | app.py:175-176 | exposure is at least the least leg risk times the length |
| Routing.ExposureAtMost | app.py:175-176 | exposure is at most the greatest leg risk times the length |
| Routing.WeightEqualsLengthTotals | app.py:175-177 | when each leg's weight is its length, the total weight is the total length |
| Snapping.EdgeDistances | app.py:225-233 | the distance to each edge's projected geometry, or to its straight segment when it has none |
| Snapping.NearestEdge | app.py:224-235 | the chosen edge is at minimum distance and strictly nearer than every earlier edge |
| Snapping.NearerEndpoint | app.py:243-245 | the chosen node is an endpoint no farther than either, and `v` only when strictly nearer than `u` |
| Snapping.SnapIsNearest | app.py:224-246 | with edges, the offset is at most the distance to every edge, and the node is the nearer endpoint of an edge at that offset |
| Snapping.SnapWithoutEdges | app.py:238-241 | with no edges, the result is the nearest node at offset 0 (nothing when the library has none) |
| Snapping.SnapCoordinatesAreNodes | app.py:238-246 | the snapped latitude and longitude are always the snapped node's |
| Network.Graph.constructor | app.py:81-137 | the graph holds the given well-formed records |
| Network.Graph.ApplyCrimeWeights | app.py:81-124 | nodes become the risked nodes (all 0 with no hazards) and edges the risked edges over the new nodes |
| Network.Graph.RawNodeRisks | app.py:102-114 | `risk_raw[i]` is node i's hazard sum, 0 when no hazard is in range |
| Network.Graph.WriteNodeRisks | app.py:98-100 | each node's risk is written and nothing else about it changes |
| Network.Graph.WriteEdgeRisks | app.py:121-124 | the edge array becomes the risked edges and nodes are left alone |
| Network.Graph.MaterializeFinalWeights | app.py:126-137 | the edge array becomes the materialised edges |
| Network.Graph.WriteFinalWeights | app.py:132-137 | one edge gains its weights and the other edges are untouched |
| Network.Graph.RouteToGeoJsonByWeight | app.py:158-209 | the coordinates are the stitched `[lng, lat]` positions of the legs, and the statistics are the legs' totals and mean risk |
| Network.Graph.FollowLegs | app.py:162-189 | the loop's coordinates and three totals equal those of the tie-break's legs |
| Network.Graph.FollowLeg | app.py:168-189 | one iteration extends the followed state by one leg |
| Network.Graph.SnapToNearestEdgeEndpoint | app.py:213-246 | the result equals the specification of snapping |
| Network.Graph.ScanEdges | app.py:224-235 | the scan finds an edge exactly when there is one, and the first one at minimum distance |
| RouteMulti.PlannedRoute | app.py:294-314 | the entry carries its coefficient, its `final_w_<tag>` attribute, and no deltas yet |
| RouteMulti.PlannedRoutes | app.py:293-314 | one entry per coefficient handled so far, entry i for coefficient i under its `final_w_<tag>` attribute |
| RouteMulti.Planned | app.py:293-314 | one entry per configured coefficient, at least one, entry i for `BETAS[i]` under its `final_w_<tag>` attribute |
| RouteMulti.BaselineIsFirst | app.py:294-324 | the first entry, against which every delta is measured, is the coefficient-0 route under `final_w_b0`, with both deltas 0 |
| RouteMulti.WithDeltas | app.py:317-324 | every entry keeps its route and statistics and gains both deltas, and the baseline's deltas are 0 |
| RouteMulti.DeltasCompare | app.py:318-324 | detours order routes as their lengths do and risk deltas as their exposures do; the difference of two detours is the difference of the lengths, and of two risk deltas the difference of the exposures |
| RouteMulti.DeltaSigns | app.py:318-324 | a detour is non-negative exactly when the route is at least as long as the baseline, and a risk delta is negative exactly when the exposure is below the baseline's |
| RouteMulti.NoHazardsRoutesAgree | app.py:98-177 | with no hazards and recorded lengths, every coefficient follows the baseline's edges and reports total weight equal to length |
| RouteMulti.RouteMultiRoutes | app.py:293-324 | the output is the planned entries with their deltas |
| RouteMulti.RouteEachBeta | app.py:293-314 | the routing loop builds the planned entries in coefficient order |
| RouteMulti.RouteFor | app.py:295-314 | one iteration builds the planned entry for its coefficient |
| RouteMulti.AddDeltas | app.py:317-324 | the delta loop gives every entry its deltas against the first entry |

## Left out

- Flask handlers and HTTP input parsing (`welcome`, `map_page`, `route_api`, `list_routes`, `crimes_api`): request and response glue. Of `route_multi` only the routing loop and the delta loop are modelled.
- `geocode`: an outbound HTTP call.
- `build_graph`, the module-level graph construction and `load_crimes`: network download and CSV input. The model starts from given node, edge and hazard records.
- CRS projection with `to_crs`: projected positions of nodes, hazards and query points are inputs.
- shapely's point-to-geometry `distance`, `numpy.hypot`/`math.hypot` and `numpy.exp`: these are function parameters (`distToGeom`, `dist`, `exp`). Lemmas that need positivity of `exp` require it.
- Floating-point behaviour: every quantity is a Dafny `real`, so rounding, overflow, `inf` and NaN are not modelled.
- Network.Graph.ScanEdges: the initial `inf` best distance is modelled by a `found` flag, so a distance of `inf` or NaN is not covered.
- `nx.shortest_path`: the planner's path is an input, and Dijkstra behaviour is not modelled. `nx.shortest_path` raising `NetworkXNoPath` is not modelled either. Each path is required to be connected, which is what `get_edge_data` relies on.
- Routing.PickEdge: on a pair with no edge, `get_edge_data(u, v)` returns `None` and `ed.items()` raises `AttributeError`. The model returns `None` there, and reconstruction requires a connected path.
- `ox.distance.nearest_nodes`: the zero-edge fallback's answer is an `Option` input.
- GeoJSON dictionary layout, descriptions, names and colours: presentation only. Only the coordinates and the statistics are modelled.
- `minimum_test.py`: a demo script outside the core.
- The unprojected and projected graphs are one record per node and edge, carrying both positions and both geometries. Edge keys are kept on records, but an edge's identity is its position in the edge array.
- Network.Graph.ApplyCrimeWeights: on a graph with no nodes the source raises `ValueError` when it unpacks the empty node list (app.py:95); the model returns normally with both arrays unchanged, so that error is not modelled.
- Network.Graph.ApplyCrimeWeights: requires `alpha != 0.0`, because the model's division needs it; the source would produce `inf` or NaN.
- RouteMulti.Planned: each entry's coefficient and attribute are stated per index, but its coordinates and statistics are given by the recursive definition `PlannedRoutes`, not by a per-index lemma.
- RouteMulti.RouteMultiRoutes: snapping of origin and destination is the separate `SnapToNearestEdgeEndpoint`. The paths it would feed the planner are inputs.
