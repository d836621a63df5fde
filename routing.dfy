/** Route reconstruction over a planner's node sequence (app.py lines
    148-209): consecutive node pairs, the parallel-edge tie-break, the
    accumulated statistics and the stitched coordinates. */
module Routing {
  import opened Common
  import opened Geometry
  import opened Weights
  import opened Records

  /** The weight read for a missing attribute in the tie-break, 1e18. */
  const MissingWeight: real := 1000000000000000000.0

  /** Consecutive pairs of a sequence, as `pairwise` yields them. */
  function Pairwise<T>(s: seq<T>): (r: seq<(T, T)>)
    ensures |r| == if |s| <= 1 then 0 else |s| - 1
    ensures forall i :: 0 <= i < |r| ==> r[i] == (s[i], s[i + 1])
  {
    if |s| <= 1 then [] else [(s[0], s[1])] + Pairwise(s[1..])
  }

  /** Whether the graph holds an edge u -> v. */
  predicate HasEdge(es: seq<EdgeRec>, u: nat, v: nat) {
    exists j :: 0 <= j < |es| && es[j].u == u && es[j].v == v
  }

  /** An edge's weight for the tie-break: the attribute, or 1e18 if missing. */
  function TieWeight(e: EdgeRec, attr: string): real {
    if attr in e.weights then e.weights[attr] else MissingWeight
  }

  /** The running minimum of `min` over the parallel edges u -> v among the
      first `n` edges: a later edge replaces the current one only when it is
      strictly lighter, so the first minimal edge is kept. */
  function PickUpTo(es: seq<EdgeRec>, u: nat, v: nat, attr: string, n: nat): (r: Option<nat>)
    requires n <= |es|
    ensures r.None? ==> forall j :: 0 <= j < n ==> !(es[j].u == u && es[j].v == v)
    ensures r.Some? ==> r.value < n && es[r.value].u == u && es[r.value].v == v
    ensures r.Some? ==> forall j :: 0 <= j < n && es[j].u == u && es[j].v == v ==>
      TieWeight(es[r.value], attr) <= TieWeight(es[j], attr)
    ensures r.Some? ==> forall j :: 0 <= j < r.value && es[j].u == u && es[j].v == v ==>
      TieWeight(es[r.value], attr) < TieWeight(es[j], attr)
  {
    if n == 0 then None
    else
      var best := PickUpTo(es, u, v, attr, n - 1);
      var e := es[n - 1];
      if !(e.u == u && e.v == v) then best
      else if best.None? || TieWeight(e, attr) < TieWeight(es[best.value], attr) then Some(n - 1)
      else best
  }

  /** `pick_edge_key_by_weight`: among the parallel edges u -> v, the first
      one of minimum weight. `None` when there is no such edge (there the
      source fails on a missing edge dictionary). */
  function PickEdge(es: seq<EdgeRec>, u: nat, v: nat, attr: string): (r: Option<nat>)
    ensures r.None? <==> !HasEdge(es, u, v)
    ensures r.Some? ==> r.value < |es| && es[r.value].u == u && es[r.value].v == v
    ensures r.Some? ==> forall j :: 0 <= j < |es| && es[j].u == u && es[j].v == v ==>
      TieWeight(es[r.value], attr) <= TieWeight(es[j], attr)
    ensures r.Some? ==> forall j :: 0 <= j < r.value && es[j].u == u && es[j].v == v ==>
      TieWeight(es[r.value], attr) < TieWeight(es[j], attr)
  {
    PickUpTo(es, u, v, attr, |es|)
  }

  /** The tie-break depends on the weights under `attr` only: two attributes
      that agree on every edge pick the same edge. */
  lemma PickEdgeDependsOnWeights(es: seq<EdgeRec>, u: nat, v: nat, a1: string, a2: string)
    requires forall j :: 0 <= j < |es| ==> TieWeight(es[j], a1) == TieWeight(es[j], a2)
    ensures PickEdge(es, u, v, a1) == PickEdge(es, u, v, a2)
  {
    var r1, r2 := PickEdge(es, u, v, a1), PickEdge(es, u, v, a2);
    if r1.Some? {
      var i, j := r1.value, r2.value;
      assert TieWeight(es[i], a1) <= TieWeight(es[j], a1);
      assert TieWeight(es[j], a2) <= TieWeight(es[i], a2);
      assert !(i < j) && !(j < i);
    }
  }

  /** A planner's path: every consecutive pair of nodes is joined by an edge. */
  predicate Connected(es: seq<EdgeRec>, route: seq<nat>) {
    forall i :: 0 <= i < |route| - 1 ==> HasEdge(es, route[i], route[i + 1])
  }

  /** The edges picked for a sequence of node pairs. */
  function LegsOf(es: seq<EdgeRec>, pairs: seq<(nat, nat)>, attr: string): (r: seq<nat>)
    requires forall i :: 0 <= i < |pairs| ==> HasEdge(es, pairs[i].0, pairs[i].1)
    ensures |r| == |pairs|
    ensures forall i :: 0 <= i < |r| ==> r[i] < |es|
    ensures forall i :: 0 <= i < |pairs| ==> PickEdge(es, pairs[i].0, pairs[i].1, attr) == Some(r[i])
  {
    seq(|pairs|, i requires 0 <= i < |pairs| && HasEdge(es, pairs[i].0, pairs[i].1) =>
      PickEdge(es, pairs[i].0, pairs[i].1, attr).value)
  }

  /** The edges a route follows under `attr`: the pick for each pair of
      consecutive nodes. */
  function Legs(es: seq<EdgeRec>, route: seq<nat>, attr: string): (r: seq<nat>)
    requires Connected(es, route)
    ensures |r| == if |route| <= 1 then 0 else |route| - 1
    ensures forall i :: 0 <= i < |r| ==> r[i] < |es|
    ensures forall i :: 0 <= i < |r| ==> PickEdge(es, route[i], route[i + 1], attr) == Some(r[i])
  {
    if |route| <= 1 then []
    else
      var n := |route| - 1;
      Legs(es, route[..n], attr) + [PickEdge(es, route[n - 1], route[n], attr).value]
  }

  /** Following a route leg by leg is picking an edge for each of its
      consecutive pairs. */
  lemma LegsOfPairs(es: seq<EdgeRec>, route: seq<nat>, attr: string)
    requires Connected(es, route)
    ensures var pairs := Pairwise(route);
      (forall i :: 0 <= i < |pairs| ==> HasEdge(es, pairs[i].0, pairs[i].1)) &&
      Legs(es, route, attr) == LegsOf(es, pairs, attr)
  {
    var pairs := Pairwise(route);
    forall i | 0 <= i < |pairs| ensures HasEdge(es, pairs[i].0, pairs[i].1) {
      assert pairs[i] == (route[i], route[i + 1]);
    }
    var ks, ks' := Legs(es, route, attr), LegsOf(es, pairs, attr);
    forall i | 0 <= i < |ks| ensures ks[i] == ks'[i] {
      assert pairs[i] == (route[i], route[i + 1]);
    }
  }

  /** Per-edge quantities as the reconstruction reads them, each 0.0 when
      its attribute is missing. */
  function LegLength(e: EdgeRec): real { e.length.GetOr(0.0) }
  function LegRisk(e: EdgeRec): real { e.risk.GetOr(0.0) }
  function LegExposure(e: EdgeRec): real { LegLength(e) * LegRisk(e) }
  function LegWeight(e: EdgeRec, attr: string): real {
    if attr in e.weights then e.weights[attr] else 0.0
  }

  /** Total length of the edges at positions `ks`. */
  function TotalLength(es: seq<EdgeRec>, ks: seq<nat>): real
    requires forall i :: 0 <= i < |ks| ==> ks[i] < |es|
  {
    if |ks| == 0 then 0.0
    else TotalLength(es, ks[..|ks| - 1]) + LegLength(es[ks[|ks| - 1]])
  }

  /** Total risk exposure, length times risk, of the edges at `ks`. */
  function TotalExposure(es: seq<EdgeRec>, ks: seq<nat>): real
    requires forall i :: 0 <= i < |ks| ==> ks[i] < |es|
  {
    if |ks| == 0 then 0.0
    else TotalExposure(es, ks[..|ks| - 1]) + LegExposure(es[ks[|ks| - 1]])
  }

  /** Total weight under `attr` of the edges at `ks`. */
  function TotalWeight(es: seq<EdgeRec>, ks: seq<nat>, attr: string): real
    requires forall i :: 0 <= i < |ks| ==> ks[i] < |es|
  {
    if |ks| == 0 then 0.0
    else TotalWeight(es, ks[..|ks| - 1], attr) + LegWeight(es[ks[|ks| - 1]], attr)
  }

  /** The length-weighted mean risk: exposure / length for a positive
      length, 0 otherwise. */
  function MeanRisk(exposure: real, length: real): (m: real)
    ensures length > 0.0 ==> m * length == exposure
    ensures length <= 0.0 ==> m == 0.0
  {
    if length > 0.0 then exposure / length else 0.0
  }

  /** Route statistics: `total_weight`, `length_m`, `risk_length_sum_m`,
      `mean_risk`. */
  datatype RouteStats = RouteStats(totalWeight: real, lengthM: real, riskLengthSumM: real, meanRisk: real)

  /** The statistics of the edges `ks` under `attr`. */
  function StatsOf(es: seq<EdgeRec>, ks: seq<nat>, attr: string): RouteStats
    requires forall i :: 0 <= i < |ks| ==> ks[i] < |es|
  {
    var len := TotalLength(es, ks);
    var exposure := TotalExposure(es, ks);
    RouteStats(TotalWeight(es, ks, attr), len, exposure, MeanRisk(exposure, len))
  }

  /** The geometry of an edge in geographic coordinates: its recorded
      shape, or the straight segment between its endpoints. */
  function Segment(ns: seq<NodeRec>, e: EdgeRec): seq<Coord>
    requires e.u < |ns| && e.v < |ns|
  {
    if e.geometry.Some? then e.geometry.value else [ns[e.u].geo, ns[e.v].geo]
  }

  /** The segments of the edges `ks`, in order. */
  function Segments(ns: seq<NodeRec>, es: seq<EdgeRec>, ks: seq<nat>): (r: seq<seq<Coord>>)
    requires WellFormed(ns, es)
    requires forall i :: 0 <= i < |ks| ==> ks[i] < |es|
    ensures |r| == |ks|
    ensures forall i :: 0 <= i < |ks| ==> r[i] == Segment(ns, es[ks[i]]) && |r[i]| >= 2
  {
    seq(|ks|, i requires 0 <= i < |ks| => Segment(ns, es[ks[i]]))
  }

  /** A GeoJSON position `[lng, lat]` of a geographic coordinate. */
  function LngLat(c: Coord): (real, real) { (c.x, c.y) }

  /** The `(lat, lon)` pair the reconstruction accumulates internally. */
  function LatLon(c: Coord): (real, real) { (c.y, c.x) }

  /** Swaps a pair: `(lat, lng)` to `[lng, lat]`. */
  function Swap(p: (real, real)): (real, real) { (p.1, p.0) }

  /** The detour through `(lat, lon)` pairs returns the geometry's own
      points: swapping back yields exactly the GeoJSON positions. */
  lemma SwapLatLon(cs: seq<Coord>)
    ensures MapSeq(Swap, MapSeq(LatLon, cs)) == MapSeq(LngLat, cs)
  {
  }

  /** The stitched coordinates of the edges `ks`, as GeoJSON positions. */
  function LegCoords(ns: seq<NodeRec>, es: seq<EdgeRec>, ks: seq<nat>): seq<(real, real)>
    requires WellFormed(ns, es)
    requires forall i :: 0 <= i < |ks| ==> ks[i] < |es|
  {
    MapSeq(LngLat, StitchAll(Segments(ns, es, ks)))
  }

  /** The coordinates of a reconstructed route as GeoJSON positions. */
  function RouteCoords(ns: seq<NodeRec>, es: seq<EdgeRec>, route: seq<nat>, attr: string): seq<(real, real)>
    requires WellFormed(ns, es) && Connected(es, route)
  {
    LegCoords(ns, es, Legs(es, route, attr))
  }

  /** A route of at most one node has no legs: all statistics are 0 and the
      coordinate list is empty. */
  lemma ShortRouteIsEmpty(ns: seq<NodeRec>, es: seq<EdgeRec>, route: seq<nat>, attr: string)
    requires WellFormed(ns, es) && |route| <= 1
    ensures StatsOf(es, Legs(es, route, attr), attr) == RouteStats(0.0, 0.0, 0.0, 0.0)
    ensures RouteCoords(ns, es, route, attr) == []
  {
  }

  /** The coordinates of a non-empty leg sequence start at the first leg's
      first point and end at the last leg's last point. */
  lemma LegCoordsEnds(ns: seq<NodeRec>, es: seq<EdgeRec>, ks: seq<nat>)
    requires WellFormed(ns, es)
    requires forall i :: 0 <= i < |ks| ==> ks[i] < |es|
    requires |ks| > 0
    ensures var first, last := Segment(ns, es[ks[0]]), Segment(ns, es[ks[|ks| - 1]]);
      var cs := LegCoords(ns, es, ks);
      |cs| > 0 && cs[0] == LngLat(first[0]) && cs[|cs| - 1] == LngLat(last[|last| - 1])
  {
    var segs := Segments(ns, es, ks);
    StitchAllEnds(segs);
  }

  /** The coordinates are exactly the points of the legs' geometries: none
      lost, none invented. */
  lemma LegCoordsCover(ns: seq<NodeRec>, es: seq<EdgeRec>, ks: seq<nat>, c: Coord)
    requires WellFormed(ns, es)
    requires forall i :: 0 <= i < |ks| ==> ks[i] < |es|
    ensures LngLat(c) in LegCoords(ns, es, ks) <==> exists i :: 0 <= i < |ks| && c in Segment(ns, es[ks[i]])
  {
    var segs := Segments(ns, es, ks);
    var all := StitchAll(segs);
    StitchAllCovers(segs, c);
    if LngLat(c) in MapSeq(LngLat, all) {
      var i :| 0 <= i < |all| && MapSeq(LngLat, all)[i] == LngLat(c);
      assert all[i] == c;
    }
    if exists i :: 0 <= i < |ks| && c in Segment(ns, es[ks[i]]) {
      var i :| 0 <= i < |ks| && c in Segment(ns, es[ks[i]]);
      assert c in segs[i];
    }
  }

  /** Extending the followed legs by one edge adds that edge's length,
      exposure and weight to the totals. */
  lemma TotalsStep(es: seq<EdgeRec>, ks: seq<nat>, i: nat, attr: string)
    requires forall j :: 0 <= j < |ks| ==> ks[j] < |es|
    requires i < |ks|
    ensures TotalLength(es, ks[..i + 1]) == TotalLength(es, ks[..i]) + LegLength(es[ks[i]])
    ensures TotalExposure(es, ks[..i + 1]) == TotalExposure(es, ks[..i]) + LegExposure(es[ks[i]])
    ensures TotalWeight(es, ks[..i + 1], attr) == TotalWeight(es, ks[..i], attr) + LegWeight(es[ks[i]], attr)
  {
    assert ks[..i + 1][..i] == ks[..i];
  }

  /** Extending the followed legs by one edge stitches its geometry, as
      `(lat, lon)` pairs, onto the coordinates. */
  lemma CoordsStep(ns: seq<NodeRec>, es: seq<EdgeRec>, ks: seq<nat>, i: nat)
    requires WellFormed(ns, es)
    requires forall j :: 0 <= j < |ks| ==> ks[j] < |es|
    requires i < |ks|
    ensures StitchAll(MapSegs(LatLon, Segments(ns, es, ks[..i + 1])))
         == Stitch(StitchAll(MapSegs(LatLon, Segments(ns, es, ks[..i]))), MapSeq(LatLon, Segment(ns, es[ks[i]])))
  {
    var segs := MapSegs(LatLon, Segments(ns, es, ks[..i + 1]));
    assert segs[..i] == MapSegs(LatLon, Segments(ns, es, ks[..i]));
  }

  /** The state of the reconstruction loop after the first `i` legs: the
      stitched `(lat, lon)` pairs and the three running totals. */
  ghost predicate FollowedUpTo(ns: seq<NodeRec>, es: seq<EdgeRec>, ks: seq<nat>, i: nat, attr: string,
                               latLon: seq<(real, real)>, totalW: real, totalL: real, totalLxR: real)
    requires WellFormed(ns, es)
    requires forall j :: 0 <= j < |ks| ==> ks[j] < |es|
    requires i <= |ks|
  {
    latLon == StitchAll(MapSegs(LatLon, Segments(ns, es, ks[..i]))) &&
    totalW == TotalWeight(es, ks[..i], attr) &&
    totalL == TotalLength(es, ks[..i]) &&
    totalLxR == TotalExposure(es, ks[..i])
  }

  /** One iteration of the reconstruction loop keeps its state exact: the
      `i`-th leg's geometry is stitched on and its length, exposure and
      weight are added. */
  lemma FollowStep(ns: seq<NodeRec>, es: seq<EdgeRec>, ks: seq<nat>, i: nat, attr: string,
                   latLon: seq<(real, real)>, totalW: real, totalL: real, totalLxR: real,
                   latLon': seq<(real, real)>, totalW': real, totalL': real, totalLxR': real)
    requires WellFormed(ns, es)
    requires forall j :: 0 <= j < |ks| ==> ks[j] < |es|
    requires i < |ks|
    requires FollowedUpTo(ns, es, ks, i, attr, latLon, totalW, totalL, totalLxR)
    requires latLon' == Stitch(latLon, MapSeq(LatLon, Segment(ns, es[ks[i]])))
    requires totalW' == totalW + LegWeight(es[ks[i]], attr)
    requires totalL' == totalL + LegLength(es[ks[i]])
    requires totalLxR' == totalLxR + LegExposure(es[ks[i]])
    ensures FollowedUpTo(ns, es, ks, i + 1, attr, latLon', totalW', totalL', totalLxR')
  {
    TotalsStep(es, ks, i, attr);
    CoordsStep(ns, es, ks, i);
  }

  /** Stitching the legs as `(lat, lon)` pairs and swapping each pair back
      gives the route's GeoJSON positions. */
  lemma LatLonStitchSwap(ns: seq<NodeRec>, es: seq<EdgeRec>, ks: seq<nat>)
    requires WellFormed(ns, es)
    requires forall j :: 0 <= j < |ks| ==> ks[j] < |es|
    ensures MapSeq(Swap, StitchAll(MapSegs(LatLon, Segments(ns, es, ks)))) == LegCoords(ns, es, ks)
  {
    var segs := Segments(ns, es, ks);
    StitchAllMap(LatLon, segs);
    SwapLatLon(StitchAll(segs));
  }

  /** The length-weighted mean risk lies between the least and the greatest
      risk of the edges, when lengths are non-negative and the total length
      is positive. */
  lemma MeanRiskBounded(es: seq<EdgeRec>, ks: seq<nat>, lo: real, hi: real)
    requires forall i :: 0 <= i < |ks| ==> ks[i] < |es|
    requires forall i :: 0 <= i < |ks| ==> LegLength(es[ks[i]]) >= 0.0 && lo <= LegRisk(es[ks[i]]) <= hi
    requires TotalLength(es, ks) > 0.0
    ensures lo <= MeanRisk(TotalExposure(es, ks), TotalLength(es, ks)) <= hi
  {
    var len, exposure := ExposureBounds(es, ks, lo, hi);
    MeanBetween(exposure, len, lo, hi);
  }

  /** The totals of `ks`, with exposure between `lo` and `hi` times length. */
  lemma ExposureBounds(es: seq<EdgeRec>, ks: seq<nat>, lo: real, hi: real) returns (len: real, exposure: real)
    requires forall i :: 0 <= i < |ks| ==> ks[i] < |es|
    requires forall i :: 0 <= i < |ks| ==> LegLength(es[ks[i]]) >= 0.0 && lo <= LegRisk(es[ks[i]]) <= hi
    ensures len == TotalLength(es, ks) && exposure == TotalExposure(es, ks)
    ensures lo * len <= exposure && exposure <= hi * len
  {
    ExposureAtLeast(es, ks, lo);
    ExposureAtMost(es, ks, hi);
    len, exposure := TotalLength(es, ks), TotalExposure(es, ks);
  }

  /** A ratio whose numerator lies between `lo` and `hi` times its positive
      denominator lies between `lo` and `hi`. */
  lemma MeanBetween(exposure: real, len: real, lo: real, hi: real)
    requires len > 0.0
    requires lo * len <= exposure
    requires exposure <= hi * len
    ensures lo <= MeanRisk(exposure, len)
    ensures MeanRisk(exposure, len) <= hi
  {
    assert lo == (lo * len) / len && hi == (hi * len) / len;
  }

  /** Adding a term of at least `lo` times its length keeps the bound. */
  lemma LowerStep(pl: real, pe: real, l: real, r: real, lo: real)
    requires lo * pl <= pe && l >= 0.0 && lo <= r
    ensures lo * (pl + l) <= pe + l * r
  {
    assert l * (r - lo) >= 0.0;
  }

  /** Adding a term of at most `hi` times its length keeps the bound. */
  lemma UpperStep(pl: real, pe: real, l: real, r: real, hi: real)
    requires pe <= hi * pl && l >= 0.0 && r <= hi
    ensures pe + l * r <= hi * (pl + l)
  {
    assert l * (hi - r) >= 0.0;
  }

  /** Exposure is at least `lo` times the length. */
  lemma {:induction false} ExposureAtLeast(es: seq<EdgeRec>, ks: seq<nat>, lo: real)
    requires forall i :: 0 <= i < |ks| ==> ks[i] < |es|
    requires forall i :: 0 <= i < |ks| ==> LegLength(es[ks[i]]) >= 0.0 && lo <= LegRisk(es[ks[i]])
    ensures lo * TotalLength(es, ks) <= TotalExposure(es, ks)
  {
    if |ks| > 0 {
      var n := |ks| - 1;
      assert forall i :: 0 <= i < n ==> ks[..n][i] == ks[i];
      ExposureAtLeast(es, ks[..n], lo);
      LowerStep(TotalLength(es, ks[..n]), TotalExposure(es, ks[..n]),
                LegLength(es[ks[n]]), LegRisk(es[ks[n]]), lo);
    }
  }

  /** Exposure is at most `hi` times the length. */
  lemma {:induction false} ExposureAtMost(es: seq<EdgeRec>, ks: seq<nat>, hi: real)
    requires forall i :: 0 <= i < |ks| ==> ks[i] < |es|
    requires forall i :: 0 <= i < |ks| ==> LegLength(es[ks[i]]) >= 0.0 && LegRisk(es[ks[i]]) <= hi
    ensures TotalExposure(es, ks) <= hi * TotalLength(es, ks)
  {
    if |ks| > 0 {
      var n := |ks| - 1;
      assert forall i :: 0 <= i < n ==> ks[..n][i] == ks[i];
      ExposureAtMost(es, ks[..n], hi);
      UpperStep(TotalLength(es, ks[..n]), TotalExposure(es, ks[..n]),
                LegLength(es[ks[n]]), LegRisk(es[ks[n]]), hi);
    }
  }

  /** When every leg's weight under `attr` is its length, the route's total
      weight is its total length. */
  lemma {:induction false} WeightEqualsLengthTotals(es: seq<EdgeRec>, ks: seq<nat>, attr: string)
    requires forall i :: 0 <= i < |ks| ==> ks[i] < |es|
    requires forall i :: 0 <= i < |ks| ==> LegWeight(es[ks[i]], attr) == LegLength(es[ks[i]])
    ensures TotalWeight(es, ks, attr) == TotalLength(es, ks)
  {
    if |ks| > 0 {
      WeightEqualsLengthTotals(es, ks[..|ks| - 1], attr);
    }
  }
}
