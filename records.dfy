/** Node and edge records of the projected street multigraph and the
    whole-graph passes of app.py lines 81-137, stated on sequences. Node
    identifiers are positions in the node sequence; an edge's position in the
    edge sequence is its place in the graph's edge iteration order. */
module Records {
  import opened Common
  import opened Geometry
  import opened RiskField
  import opened Weights

  /** A node: planar position (projected graph), geographic position
      (`x` = longitude, `y` = latitude, unprojected graph), and the
      `crime_risk` attribute once written. */
  datatype NodeRec = NodeRec(proj: Coord, geo: Coord, risk: Option<real>)

  /** A directed edge u -> v with its parallel-edge key, its optional
      `length` and `crime_risk` attributes, its other numeric attributes by
      name (the `final_w_<tag>` weights among them), and its optional
      geometry in the unprojected (`geometry`) and projected
      (`projGeometry`) graph. */
  datatype EdgeRec = EdgeRec(u: nat, v: nat, key: nat,
                             length: Option<real>, risk: Option<real>,
                             weights: map<string, real>,
                             geometry: Option<seq<Coord>>, projGeometry: Option<seq<Coord>>)

  /** Edge endpoints are nodes of the graph and recorded geometries have at
      least two points. */
  ghost predicate WellFormed(ns: seq<NodeRec>, es: seq<EdgeRec>)
  {
    (forall k :: 0 <= k < |es| ==> es[k].u < |ns| && es[k].v < |ns|) &&
    (forall k :: 0 <= k < |es| && es[k].geometry.Some? ==> |es[k].geometry.value| >= 2)
  }

  /** A node's risk as the edge pass reads it, `.get("crime_risk", 0.0)`. */
  function RiskOf(n: NodeRec): real {
    n.risk.GetOr(0.0)
  }

  /** The nodes after the node pass of `apply_crime_weights`: every node's
      risk is the decayed hazard sum at its planar position. */
  function RiskedNodes(ns: seq<NodeRec>, hs: seq<Hazard>, dist: (Coord, Coord) -> real,
                       exp: real -> real, radius: real, alpha: real): (r: seq<NodeRec>)
    requires alpha != 0.0
    ensures |r| == |ns|
    ensures forall i :: 0 <= i < |ns| ==>
      r[i] == ns[i].(risk := Some(NodeRisk(ns[i].proj, hs, dist, exp, radius, alpha)))
  {
    seq(|ns|, i requires 0 <= i < |ns| => ns[i].(risk := Some(NodeRisk(ns[i].proj, hs, dist, exp, radius, alpha))))
  }

  /** The edges after the edge pass: each edge's risk is the larger of its
      endpoints' risks, every other attribute unchanged. */
  function RiskedEdges(ns: seq<NodeRec>, es: seq<EdgeRec>): (r: seq<EdgeRec>)
    requires forall k :: 0 <= k < |es| ==> es[k].u < |ns| && es[k].v < |ns|
    ensures |r| == |es|
    ensures forall k :: 0 <= k < |es| ==>
      r[k] == es[k].(risk := Some(EdgeRisk(RiskOf(ns[es[k].u]), RiskOf(ns[es[k].v]))))
  {
    seq(|es|, k requires 0 <= k < |es| => es[k].(risk := Some(EdgeRisk(RiskOf(ns[es[k].u]), RiskOf(ns[es[k].v])))))
  }

  /** An edge after `materialize_final_weights`, with `length` read as 1.0
      and `crime_risk` as 0.0 when missing. */
  function MaterializedEdge(e: EdgeRec, betas: seq<real>): EdgeRec
    requires forall b :: b in betas ==> b in BetaTags
  {
    e.(weights := FinalWeights(e.weights, e.length.GetOr(1.0), e.risk.GetOr(0.0), betas))
  }

  /** All edges after `materialize_final_weights`. */
  function Materialized(es: seq<EdgeRec>, betas: seq<real>): (r: seq<EdgeRec>)
    requires forall b :: b in betas ==> b in BetaTags
    ensures |r| == |es|
    ensures forall k :: 0 <= k < |es| ==> r[k] == MaterializedEdge(es[k], betas)
  {
    seq(|es|, k requires 0 <= k < |es| => MaterializedEdge(es[k], betas))
  }

  /** The graph passes keep the graph well formed: they write risks and
      weights only. */
  lemma PassesKeepWellFormed(ns: seq<NodeRec>, es: seq<EdgeRec>, hs: seq<Hazard>, dist: (Coord, Coord) -> real,
                             exp: real -> real, radius: real, alpha: real, betas: seq<real>)
    requires WellFormed(ns, es) && alpha != 0.0
    requires forall b :: b in betas ==> b in BetaTags
    ensures WellFormed(RiskedNodes(ns, hs, dist, exp, radius, alpha), es)
    ensures WellFormed(ns, RiskedEdges(ns, es))
    ensures WellFormed(ns, Materialized(es, betas))
  {
  }

  /** The snapshot built by the risk and weight passes from `ns`, `es`. */
  function Snapshot(ns: seq<NodeRec>, es: seq<EdgeRec>, hs: seq<Hazard>, dist: (Coord, Coord) -> real,
                    exp: real -> real, radius: real, alpha: real, betas: seq<real>): seq<EdgeRec>
    requires WellFormed(ns, es) && alpha != 0.0
    requires forall b :: b in betas ==> b in BetaTags
  {
    Materialized(RiskedEdges(RiskedNodes(ns, hs, dist, exp, radius, alpha), es), betas)
  }

  /** With no hazards every edge's risk is 0 and, for every coefficient, its
      weight equals its length (1.0 when the length is missing). */
  lemma {:induction false} NoHazardsWeightIsLength(ns: seq<NodeRec>, es: seq<EdgeRec>, dist: (Coord, Coord) -> real,
                                                   exp: real -> real, radius: real, alpha: real, betas: seq<real>)
    requires WellFormed(ns, es) && alpha != 0.0
    requires forall b :: b in betas ==> b in BetaTags
    ensures var s := Snapshot(ns, es, [], dist, exp, radius, alpha, betas);
      forall k, b :: 0 <= k < |es| && b in betas ==>
        s[k].risk == Some(0.0) && s[k].weights[AttrName(b)] == es[k].length.GetOr(1.0)
  {
    var rn := RiskedNodes(ns, [], dist, exp, radius, alpha);
    assert forall i :: 0 <= i < |ns| ==> RiskOf(rn[i]) == 0.0;
  }

  /** With non-negative severities, a positive exponential, non-negative
      coefficients and non-negative lengths, every edge's risk is
      non-negative and every materialised weight is at least the length;
      the baseline coefficient 0 gives the length exactly. */
  lemma {:induction false} SnapshotWeightsAtLeastLength(ns: seq<NodeRec>, es: seq<EdgeRec>, hs: seq<Hazard>,
                                                        dist: (Coord, Coord) -> real, exp: real -> real,
                                                        radius: real, alpha: real, betas: seq<real>)
    requires WellFormed(ns, es) && alpha != 0.0
    requires forall b :: b in betas ==> b in BetaTags && b >= 0.0
    requires forall x :: exp(x) > 0.0
    requires forall i :: 0 <= i < |hs| ==> hs[i].severity >= 0.0
    requires forall k :: 0 <= k < |es| ==> es[k].length.GetOr(1.0) >= 0.0
    ensures var s := Snapshot(ns, es, hs, dist, exp, radius, alpha, betas);
      forall k, b :: 0 <= k < |es| && b in betas ==>
        s[k].risk.Some? && s[k].risk.value >= 0.0 &&
        s[k].weights[AttrName(b)] >= es[k].length.GetOr(1.0) &&
        (b == 0.0 ==> s[k].weights[AttrName(b)] == es[k].length.GetOr(1.0))
  {
    var rn := RiskedNodes(ns, hs, dist, exp, radius, alpha);
    forall i | 0 <= i < |ns| ensures RiskOf(rn[i]) >= 0.0 {
      NodeRiskNonNegative(ns[i].proj, hs, dist, exp, radius, alpha);
    }
  }
}
