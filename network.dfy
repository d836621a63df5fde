/** The projected street multigraph as app.py mutates it: node and edge
    records held in arrays and updated in place by the risk and weight
    passes, and the route reconstruction and snapping scans over them. */
module Network {
  import opened Common
  import opened Geometry
  import opened RiskField
  import opened Weights
  import opened Records
  import opened Routing
  import opened Snapping

  class Graph {
    /** Node records, indexed by node identifier. */
    const nodes: array<NodeRec>
    /** Edge records in the graph's edge iteration order. */
    const edges: array<EdgeRec>

    ghost predicate Valid()
      reads nodes, edges
    {
      WellFormed(nodes[..], edges[..])
    }

    constructor (ns: seq<NodeRec>, es: seq<EdgeRec>)
      requires WellFormed(ns, es)
      ensures Valid()
      ensures nodes[..] == ns && edges[..] == es
      ensures fresh(nodes) && fresh(edges)
    {
      nodes := new NodeRec[|ns|](i requires 0 <= i < |ns| => ns[i]);
      edges := new EdgeRec[|es|](k requires 0 <= k < |es| => es[k]);
    }

    /** `apply_crime_weights`: writes every node's risk (0 for all of them
        when there are no hazards), then every edge's risk as the larger of
        its endpoints' risks. */
    method ApplyCrimeWeights(hs: seq<Hazard>, dist: (Coord, Coord) -> real,
                             exp: real -> real, radius: real, alpha: real)
      requires Valid() && alpha != 0.0
      modifies nodes, edges
      ensures Valid()
      ensures nodes[..] == RiskedNodes(old(nodes[..]), hs, dist, exp, radius, alpha)
      ensures edges[..] == RiskedEdges(nodes[..], old(edges[..]))
    {
      ghost var ns0 := nodes[..];
      if |hs| == 0 {
        WriteNodeRisks(seq(nodes.Length, _ => 0.0));
      } else {
        var riskRaw := RawNodeRisks(hs, dist, exp, radius, alpha);
        WriteNodeRisks(riskRaw[..]);
      }
      assert nodes[..] == RiskedNodes(ns0, hs, dist, exp, radius, alpha);
      WriteEdgeRisks();
    }

    /** The `risk_raw` pass: for each node, the decayed sum over the hazards
        within the radius, left at 0 when there is none. */
    method RawNodeRisks(hs: seq<Hazard>, dist: (Coord, Coord) -> real,
                        exp: real -> real, radius: real, alpha: real) returns (riskRaw: array<real>)
      requires alpha != 0.0
      ensures fresh(riskRaw) && riskRaw.Length == nodes.Length
      ensures forall j :: 0 <= j < riskRaw.Length ==> riskRaw[j] == NodeRisk(nodes[j].proj, hs, dist, exp, radius, alpha)
    {
      ghost var ns := nodes[..];
      riskRaw := new real[nodes.Length](_ => 0.0);
      for i := 0 to nodes.Length
        invariant forall j :: 0 <= j < i ==> riskRaw[j] == NodeRisk(ns[j].proj, hs, dist, exp, radius, alpha)
        invariant forall j :: i <= j < riskRaw.Length ==> riskRaw[j] == 0.0
      {
        var p := nodes[i].proj;
        assert p == ns[i].proj;
        if AnyWithin(p, hs, dist, radius) {
          riskRaw[i] := NodeRisk(p, Within(p, hs, dist, radius), dist, exp, radius, alpha);
          NodeRiskOverWithin(p, hs, dist, exp, radius, alpha);
        } else {
          NodeRiskNoneWithin(p, hs, dist, exp, radius, alpha);
        }
      }
    }

    /** Writes `rs[i]` as the risk of node `i`, leaving every other node
        attribute as it was. */
    method WriteNodeRisks(rs: seq<real>)
      requires Valid() && |rs| == nodes.Length
      modifies nodes
      ensures Valid()
      ensures forall j :: 0 <= j < nodes.Length ==> nodes[j] == old(nodes[j]).(risk := Some(rs[j]))
    {
      for i := 0 to nodes.Length
        invariant forall j :: 0 <= j < i ==> nodes[j] == old(nodes[j]).(risk := Some(rs[j]))
        invariant forall j :: i <= j < nodes.Length ==> nodes[j] == old(nodes[j])
      {
        nodes[i] := nodes[i].(risk := Some(rs[i]));
      }
    }

    /** The edge pass: every edge's risk becomes the larger of its
        endpoints' risks, a missing one read as 0. */
    method WriteEdgeRisks()
      requires Valid()
      modifies edges
      ensures Valid()
      ensures edges[..] == RiskedEdges(nodes[..], old(edges[..]))
    {
      ghost var es0 := edges[..];
      for k := 0 to edges.Length
        invariant forall j :: 0 <= j < k ==>
          edges[j] == es0[j].(risk := Some(EdgeRisk(RiskOf(nodes[es0[j].u]), RiskOf(nodes[es0[j].v]))))
        invariant forall j :: k <= j < edges.Length ==> edges[j] == es0[j]
      {
        var e := edges[k];
        edges[k] := e.(risk := Some(EdgeRisk(RiskOf(nodes[e.u]), RiskOf(nodes[e.v]))));
      }
      assert edges[..] == RiskedEdges(nodes[..], es0);
    }

    /** `materialize_final_weights`: for every edge and every coefficient,
        writes the composite weight attribute, reading a missing length as
        1.0 and a missing risk as 0.0. */
    method MaterializeFinalWeights(betas: seq<real>)
      requires Valid()
      requires forall b :: b in betas ==> b in BetaTags
      modifies edges
      ensures Valid()
      ensures edges[..] == Materialized(old(edges[..]), betas)
    {
      ghost var es0 := edges[..];
      for k := 0 to edges.Length
        invariant forall j :: 0 <= j < k ==> edges[j] == MaterializedEdge(es0[j], betas)
        invariant forall j :: k <= j < edges.Length ==> edges[j] == es0[j]
      {
        WriteFinalWeights(k, betas);
      }
      assert edges[..] == Materialized(es0, betas);
    }

    /** The inner loop of `materialize_final_weights` on edge `k`: one
        `final_w_<tag>` attribute per coefficient, every other edge and every
        other attribute left as it was. */
    method WriteFinalWeights(k: nat, betas: seq<real>)
      requires k < edges.Length
      requires forall b :: b in betas ==> b in BetaTags
      modifies edges
      ensures edges[k] == MaterializedEdge(old(edges[k]), betas)
      ensures forall j :: 0 <= j < edges.Length && j != k ==> edges[j] == old(edges[j])
    {
      var len := edges[k].length.GetOr(1.0);
      var r := edges[k].risk.GetOr(0.0);
      ghost var e0 := edges[k];
      for j := 0 to |betas|
        invariant forall i :: 0 <= i < edges.Length && i != k ==> edges[i] == old(edges[i])
        invariant edges[k] == e0.(weights := FinalWeights(e0.weights, len, r, betas[..j]))
      {
        var beta := betas[j];
        edges[k] := edges[k].(weights := edges[k].weights[AttrName(beta) := CompositeWeight(len, beta, r)]);
        assert betas[..j + 1][..j] == betas[..j];
      }
      assert betas[..|betas|] == betas;
    }

    /** `route_to_geojson_by_weight`: walks the planner's path pair by pair,
        accumulates the statistics of the followed edges and returns their
        stitched geometry as `[lng, lat]` positions. */
    method RouteToGeoJsonByWeight(route: seq<nat>, attr: string) returns (coords: seq<(real, real)>, stats: RouteStats)
      requires Valid() && Connected(edges[..], route)
      ensures coords == RouteCoords(nodes[..], edges[..], route, attr)
      ensures stats == StatsOf(edges[..], Legs(edges[..], route, attr), attr)
    {
      var pairs := Pairwise(route);
      LegsOfPairs(edges[..], route, attr);
      var latLon, totalW, totalL, totalLxR := FollowLegs(pairs, attr);
      var meanRisk := MeanRisk(totalLxR, totalL);
      stats := RouteStats(totalW, totalL, totalLxR, meanRisk);
      coords := MapSeq(Swap, latLon);
      LatLonStitchSwap(nodes[..], edges[..], LegsOf(edges[..], pairs, attr));
    }

    /** The loop of `route_to_geojson_by_weight`: for each pair, the edge the
        tie-break picks under `attr`; its length, length times risk and
        weight are added to the totals and its geometry, as `(lat, lon)`
        pairs, is stitched onto the coordinates. */
    method FollowLegs(pairs: seq<(nat, nat)>, attr: string)
      returns (latLon: seq<(real, real)>, totalW: real, totalL: real, totalLxR: real)
      requires Valid()
      requires forall i :: 0 <= i < |pairs| ==> HasEdge(edges[..], pairs[i].0, pairs[i].1)
      ensures var legs := LegsOf(edges[..], pairs, attr);
        latLon == StitchAll(MapSegs(LatLon, Segments(nodes[..], edges[..], legs))) &&
        totalL == TotalLength(edges[..], legs) &&
        totalLxR == TotalExposure(edges[..], legs) &&
        totalW == TotalWeight(edges[..], legs, attr)
    {
      var ns, es := nodes[..], edges[..];
      ghost var legs := LegsOf(es, pairs, attr);
      latLon := [];
      totalW, totalL, totalLxR := 0.0, 0.0, 0.0;
      for i := 0 to |pairs|
        invariant FollowedUpTo(ns, es, legs, i, attr, latLon, totalW, totalL, totalLxR)
      {
        var (u, v) := pairs[i];
        latLon, totalW, totalL, totalLxR := FollowLeg(ns, es, legs, i, attr, u, v, latLon, totalW, totalL, totalLxR);
      }
      assert legs[..|pairs|] == legs;
    }

    /** One pass of the reconstruction loop for the pair `(u, v)`: the edge
        the tie-break picks is added to the totals and its geometry, as
        `(lat, lon)` pairs, stitched onto the coordinates. */
    static method FollowLeg(ns: seq<NodeRec>, es: seq<EdgeRec>, ghost legs: seq<nat>, ghost i: nat, attr: string, u: nat, v: nat,
                            latLon: seq<(real, real)>, totalW: real, totalL: real, totalLxR: real)
      returns (latLon': seq<(real, real)>, totalW': real, totalL': real, totalLxR': real)
      requires WellFormed(ns, es)
      requires forall j :: 0 <= j < |legs| ==> legs[j] < |es|
      requires i < |legs| && PickEdge(es, u, v, attr) == Some(legs[i])
      requires FollowedUpTo(ns, es, legs, i, attr, latLon, totalW, totalL, totalLxR)
      ensures FollowedUpTo(ns, es, legs, i + 1, attr, latLon', totalW', totalL', totalLxR')
    {
      var d := es[PickEdge(es, u, v, attr).value];
      totalL' := totalL + LegLength(d);
      totalLxR' := totalLxR + LegExposure(d);
      totalW' := totalW + LegWeight(d, attr);
      latLon' := Stitch(latLon, MapSeq(LatLon, Segment(ns, d)));
      FollowStep(ns, es, legs, i, attr, latLon, totalW, totalL, totalLxR, latLon', totalW', totalL', totalLxR');
    }

    /** `snap_to_nearest_edge_endpoint`: scans the edges for the first one
        at minimum distance from `q`, then takes its nearer endpoint; with
        no edges, falls back to the library's nearest node. */
    method SnapToNearestEdgeEndpoint(q: Coord, distToGeom: (seq<Coord>, Coord) -> real,
                                     dist: (Coord, Coord) -> real, nearestNode: Option<nat>)
      returns (r: Option<Snap>)
      requires Valid()
      requires nearestNode.Some? ==> nearestNode.value < nodes.Length
      ensures r == SnapOf(nodes[..], edges[..], q, distToGeom, dist, nearestNode)
    {
      var found, best, bestDist := ScanEdges(q, distToGeom);
      if !found {
        if nearestNode.Some? {
          var n := nearestNode.value;
          return Some(Snap(n, nodes[n].geo.y, nodes[n].geo.x, 0.0));
        }
        return None;
      }
      var e := edges[best];
      var du, dv := dist(nodes[e.u].proj, q), dist(nodes[e.v].proj, q);
      var n := if du <= dv then e.u else e.v;
      return Some(Snap(n, nodes[n].geo.y, nodes[n].geo.x, bestDist));
    }

    /** The scan of `snap_to_nearest_edge_endpoint`: keeps the first edge
        at the smallest distance seen so far (a later edge must be strictly
        nearer to replace it). */
    method ScanEdges(q: Coord, distToGeom: (seq<Coord>, Coord) -> real)
      returns (found: bool, best: nat, bestDist: real)
      requires Valid()
      ensures found <==> edges.Length > 0
      ensures found ==> best == NearestEdge(nodes[..], edges[..], q, distToGeom) &&
                        bestDist == distToGeom(ProjSegment(nodes[..], edges[best]), q)
    {
      ghost var ds := EdgeDistances(nodes[..], edges[..], q, distToGeom);
      found := false;
      best, bestDist := 0, 0.0;
      for k := 0 to edges.Length
        invariant found <==> k > 0
        invariant found ==> best < k && best == FirstArgMin(ds[..k]) && bestDist == ds[best]
      {
        var e := edges[k];
        var d := distToGeom(ProjSegment(nodes[..], e), q);
        assert ds[..k + 1][..k] == ds[..k];
        if !found || d < bestDist {
          best, bestDist := k, d;
        }
        found := true;
      }
      if found {
        assert ds[..edges.Length] == ds;
      }
    }
  }
}
