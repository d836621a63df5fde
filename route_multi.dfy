/** The multi-coefficient routing of app.py's `route_multi` (lines 293-324):
    one route per configured coefficient, reconstructed along the planner's
    path under that coefficient's weight attribute, then each route's length
    and risk exposure compared with the baseline route's. */
module RouteMulti {
  import opened Common
  import opened Geometry
  import opened Weights
  import opened Records
  import opened Routing
  import opened Network

  /** One entry of `routes_out`: the coefficient, its weight attribute, the
      route's `[lng, lat]` positions, its statistics and, once the delta loop
      has run, `detour_m_vs_beta0` and `risk_delta_vs_beta0`. */
  datatype RouteOut = RouteOut(beta: real, weightAttr: string, coords: seq<(real, real)>, stats: RouteStats,
                               detour: Option<real>, riskDelta: Option<real>)

  /** The entry built for coefficient `beta` along `path`, before the deltas. */
  function PlannedRoute(ns: seq<NodeRec>, es: seq<EdgeRec>, path: seq<nat>, beta: real): (r: RouteOut)
    requires WellFormed(ns, es) && Connected(es, path) && beta in BetaTags
    ensures r.beta == beta && r.weightAttr == AttrName(beta)
    ensures r.detour.None? && r.riskDelta.None?
  {
    var attr := AttrName(beta);
    RouteOut(beta, attr, RouteCoords(ns, es, path, attr), StatsOf(es, Legs(es, path, attr), attr), None, None)
  }

  /** The planner's paths fit the configured coefficients: one connected path
      per coefficient. */
  predicate PathsFit(es: seq<EdgeRec>, paths: seq<seq<nat>>) {
    |paths| == |Betas| && forall j :: 0 <= j < |paths| ==> Connected(es, paths[j])
  }

  /** Every path is connected and every coefficient has a tag. */
  predicate Routable(es: seq<EdgeRec>, paths: seq<seq<nat>>, betas: seq<real>) {
    |paths| == |betas| && forall j :: 0 <= j < |paths| ==> Connected(es, paths[j]) && betas[j] in BetaTags
  }

  /** The first `n` entries for `betas` along `paths`, appended in order. */
  function PlannedRoutes(ns: seq<NodeRec>, es: seq<EdgeRec>, paths: seq<seq<nat>>, betas: seq<real>, n: nat): (r: seq<RouteOut>)
    requires WellFormed(ns, es) && Routable(es, paths, betas) && n <= |betas|
    ensures |r| == n
    ensures forall i :: 0 <= i < n ==> r[i].beta == betas[i] && r[i].weightAttr == AttrName(betas[i])
  {
    if n == 0 then [] else PlannedRoutes(ns, es, paths, betas, n - 1) + [PlannedRoute(ns, es, paths[n - 1], betas[n - 1])]
  }

  /** `routes_out` after the routing loop: one entry per configured
      coefficient, in order. */
  function Planned(ns: seq<NodeRec>, es: seq<EdgeRec>, paths: seq<seq<nat>>): (r: seq<RouteOut>)
    requires WellFormed(ns, es) && PathsFit(es, paths)
    ensures |r| == |Betas| > 0
    ensures forall i :: 0 <= i < |r| ==> r[i].beta == Betas[i] && r[i].weightAttr == AttrName(Betas[i])
  {
    BetasTagged();
    PlannedRoutes(ns, es, paths, Betas, |Betas|)
  }

  /** An entry with its deltas against the baseline statistics `base`. */
  function WithDelta(r: RouteOut, base: RouteStats): RouteOut {
    r.(detour := Some(r.stats.lengthM - base.lengthM), riskDelta := Some(r.stats.riskLengthSumM - base.riskLengthSumM))
  }

  /** `routes_out` after the delta loop: every entry keeps its route and
      statistics and gains its deltas against the first entry, whose own
      deltas are therefore 0. */
  function WithDeltas(routes: seq<RouteOut>): (r: seq<RouteOut>)
    requires |routes| > 0
    ensures |r| == |routes|
    ensures forall i :: 0 <= i < |r| ==>
      r[i].beta == routes[i].beta && r[i].weightAttr == routes[i].weightAttr &&
      r[i].coords == routes[i].coords && r[i].stats == routes[i].stats &&
      r[i].detour.Some? && r[i].riskDelta.Some?
    ensures r[0].detour == Some(0.0) && r[0].riskDelta == Some(0.0)
  {
    seq(|routes|, i requires 0 <= i < |routes| => WithDelta(routes[i], routes[0].stats))
  }

  /** The entry every delta is measured against, the first one, is the
      baseline route of coefficient 0 under `final_w_b0`, and its own deltas
      are 0. */
  lemma BaselineIsFirst(ns: seq<NodeRec>, es: seq<EdgeRec>, paths: seq<seq<nat>>)
    requires WellFormed(ns, es) && PathsFit(es, paths)
    ensures var r := WithDeltas(Planned(ns, es, paths));
      r[0].beta == 0.0 && r[0].weightAttr == "final_w_b0" &&
      r[0].detour == Some(0.0) && r[0].riskDelta == Some(0.0)
  {
    assert AttrName(0.0) == "final_w_b0";
  }

  /** The deltas order the routes as their lengths and exposures do: a route
      has the larger detour exactly when it is the longer, and the larger
      risk delta exactly when its exposure is the larger. */
  lemma DeltasCompare(routes: seq<RouteOut>, i: nat, j: nat)
    requires |routes| > 0 && i < |routes| && j < |routes|
    ensures var r := WithDeltas(routes);
      (r[i].detour.value <= r[j].detour.value <==> routes[i].stats.lengthM <= routes[j].stats.lengthM) &&
      (r[i].riskDelta.value <= r[j].riskDelta.value <==> routes[i].stats.riskLengthSumM <= routes[j].stats.riskLengthSumM) &&
      r[i].detour.value - r[j].detour.value == routes[i].stats.lengthM - routes[j].stats.lengthM &&
      r[i].riskDelta.value - r[j].riskDelta.value == routes[i].stats.riskLengthSumM - routes[j].stats.riskLengthSumM
  {
    var r := WithDeltas(routes);
    assert r[i] == WithDelta(routes[i], routes[0].stats);
    assert r[j] == WithDelta(routes[j], routes[0].stats);
  }

  /** A route's detour is non-negative exactly when it is at least as long as
      the baseline route, and its risk delta is negative exactly when it is
      exposed to less risk than the baseline route. */
  lemma DeltaSigns(routes: seq<RouteOut>, i: nat)
    requires |routes| > 0 && i < |routes|
    ensures var r := WithDeltas(routes);
      (r[i].detour.value >= 0.0 <==> routes[i].stats.lengthM >= routes[0].stats.lengthM) &&
      (r[i].riskDelta.value < 0.0 <==> routes[i].stats.riskLengthSumM < routes[0].stats.riskLengthSumM)
  {
    var r := WithDeltas(routes);
    assert r[i] == WithDelta(routes[i], routes[0].stats);
  }

  /** With no hazards and a recorded length on every edge, every
      coefficient's weights are the lengths, so along any path each
      coefficient picks the same edges as the baseline and reports a total
      weight equal to the route's length. */
  lemma NoHazardsRoutesAgree(ns: seq<NodeRec>, es0: seq<EdgeRec>, dist: (Coord, Coord) -> real,
                             exp: real -> real, radius: real, alpha: real, path: seq<nat>, beta: real)
    requires WellFormed(ns, es0) && alpha != 0.0 && beta in Betas
    requires forall k :: 0 <= k < |es0| ==> es0[k].length.Some?
    requires Connected(Snapshot(ns, es0, [], dist, exp, radius, alpha, Betas), path)
    ensures var es := Snapshot(ns, es0, [], dist, exp, radius, alpha, Betas);
      var attr := AttrName(beta);
      Legs(es, path, attr) == Legs(es, path, AttrName(0.0)) &&
      StatsOf(es, Legs(es, path, attr), attr).totalWeight == StatsOf(es, Legs(es, path, attr), attr).lengthM
  {
    BetasTagged();
    var es := Snapshot(ns, es0, [], dist, exp, radius, alpha, Betas);
    var attr, base := AttrName(beta), AttrName(0.0);
    NoHazardsWeightIsLength(ns, es0, dist, exp, radius, alpha, Betas);
    assert forall k :: 0 <= k < |es| ==> TieWeight(es[k], attr) == LegLength(es[k]) == TieWeight(es[k], base);
    var ks, ks0 := Legs(es, path, attr), Legs(es, path, base);
    forall i | 0 <= i < |ks| ensures ks[i] == ks0[i] {
      PickEdgeDependsOnWeights(es, path[i], path[i + 1], attr, base);
    }
    WeightEqualsLengthTotals(es, ks, attr);
  }

  /** `route_multi` after snapping: one entry per coefficient, then the
      deltas against the first entry. */
  method RouteMultiRoutes(g: Graph, paths: seq<seq<nat>>) returns (routes: seq<RouteOut>)
    requires g.Valid() && PathsFit(g.edges[..], paths)
    ensures routes == WithDeltas(Planned(g.nodes[..], g.edges[..], paths))
  {
    routes := RouteEachBeta(g, paths);
    routes := AddDeltas(routes);
  }

  /** The routing loop of `route_multi`: appends, for each coefficient, the
      planner's path reconstructed under its weight attribute. */
  method RouteEachBeta(g: Graph, paths: seq<seq<nat>>) returns (routes: seq<RouteOut>)
    requires g.Valid() && PathsFit(g.edges[..], paths)
    ensures routes == Planned(g.nodes[..], g.edges[..], paths)
  {
    ghost var ns, es := g.nodes[..], g.edges[..];
    BetasTagged();
    routes := [];
    for j := 0 to |Betas|
      invariant routes == PlannedRoutes(ns, es, paths, Betas, j)
    {
      var r := RouteFor(g, paths[j], Betas[j]);
      routes := routes + [r];
    }
  }

  /** One pass of the routing loop: the entry for `beta`, its route
      reconstructed along `path` under the weight attribute `final_w_<tag>`. */
  method RouteFor(g: Graph, path: seq<nat>, beta: real) returns (r: RouteOut)
    requires g.Valid() && Connected(g.edges[..], path) && beta in BetaTags
    ensures r == PlannedRoute(g.nodes[..], g.edges[..], path, beta)
  {
    var attr := AttrName(beta);
    var coords, stats := g.RouteToGeoJsonByWeight(path, attr);
    r := RouteOut(beta, attr, coords, stats, None, None);
  }

  /** The delta loop of `route_multi`: gives each entry, one after the
      other, its deltas against the first entry. */
  method AddDeltas(routes: seq<RouteOut>) returns (out: seq<RouteOut>)
    requires |routes| > 0
    ensures out == WithDeltas(routes)
  {
    ghost var target := WithDeltas(routes);
    var baseLen, baseRisk := routes[0].stats.lengthM, routes[0].stats.riskLengthSumM;
    out := routes;
    for i := 0 to |out|
      invariant |out| == |routes|
      invariant forall k :: 0 <= k < i ==> out[k] == target[k]
      invariant forall k :: i <= k < |out| ==> out[k] == routes[k]
    {
      var r := out[i];
      out := out[i := r.(detour := Some(r.stats.lengthM - baseLen), riskDelta := Some(r.stats.riskLengthSumM - baseRisk))];
    }
  }
}
