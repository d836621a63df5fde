/** Edge-based snapping of a query point (app.py,
    `snap_to_nearest_edge_endpoint`, lines 213-246): the edge nearest to the
    point, then the nearer of that edge's two endpoints.

    The query point arrives already projected to the graph's planar system.
    The point-to-polyline distance (shapely's `distance`) and the planar
    point distance (`math.hypot` of the differences) are parameters. */
module Snapping {
  import opened Common
  import opened Geometry
  import opened Records

  /** What snapping returns: the node, its geographic latitude and longitude,
      and the distance from the query point to the chosen edge. */
  datatype Snap = Snap(node: nat, lat: real, lon: real, offset: real)

  /** An edge's shape in the projected graph: its recorded geometry, or the
      straight segment between its endpoints. */
  function ProjSegment(ns: seq<NodeRec>, e: EdgeRec): seq<Coord>
    requires e.u < |ns| && e.v < |ns|
  {
    if e.projGeometry.Some? then e.projGeometry.value else [ns[e.u].proj, ns[e.v].proj]
  }

  /** The distance from `q` to every edge, in iteration order. */
  function EdgeDistances(ns: seq<NodeRec>, es: seq<EdgeRec>, q: Coord,
                         distToGeom: (seq<Coord>, Coord) -> real): (r: seq<real>)
    requires forall k :: 0 <= k < |es| ==> es[k].u < |ns| && es[k].v < |ns|
    ensures |r| == |es|
    ensures forall k :: 0 <= k < |es| ==> r[k] == distToGeom(ProjSegment(ns, es[k]), q)
  {
    seq(|es|, k requires 0 <= k < |es| => distToGeom(ProjSegment(ns, es[k]), q))
  }

  /** The edge the scan settles on: the first edge at minimum distance. */
  function NearestEdge(ns: seq<NodeRec>, es: seq<EdgeRec>, q: Coord,
                       distToGeom: (seq<Coord>, Coord) -> real): (k: nat)
    requires forall k :: 0 <= k < |es| ==> es[k].u < |ns| && es[k].v < |ns|
    requires |es| > 0
    ensures k < |es|
    ensures forall j :: 0 <= j < |es| ==>
      distToGeom(ProjSegment(ns, es[k]), q) <= distToGeom(ProjSegment(ns, es[j]), q)
    ensures forall j :: 0 <= j < k ==>
      distToGeom(ProjSegment(ns, es[k]), q) < distToGeom(ProjSegment(ns, es[j]), q)
  {
    FirstArgMin(EdgeDistances(ns, es, q, distToGeom))
  }

  /** The endpoint of `e` nearer to `q`; `e.u` on a tie. */
  function NearerEndpoint(ns: seq<NodeRec>, e: EdgeRec, q: Coord, dist: (Coord, Coord) -> real): (n: nat)
    requires e.u < |ns| && e.v < |ns|
    ensures n == e.u || n == e.v
    ensures dist(ns[n].proj, q) <= dist(ns[e.u].proj, q)
    ensures dist(ns[n].proj, q) <= dist(ns[e.v].proj, q)
    ensures n != e.u ==> dist(ns[e.v].proj, q) < dist(ns[e.u].proj, q)
  {
    if dist(ns[e.u].proj, q) <= dist(ns[e.v].proj, q) then e.u else e.v
  }

  /** The snap of a node with no offset, as the fallback returns it. */
  function AtNode(ns: seq<NodeRec>, n: nat, offset: real): (s: Snap)
    requires n < |ns|
    ensures s.node == n && s.lat == ns[n].geo.y && s.lon == ns[n].geo.x && s.offset == offset
  {
    Snap(n, ns[n].geo.y, ns[n].geo.x, offset)
  }

  /** The result of snapping `q`. With no edge at all the library's nearest
      node `nearestNode` is returned with offset 0 (`None` when the library
      has none to give). */
  function SnapOf(ns: seq<NodeRec>, es: seq<EdgeRec>, q: Coord,
                  distToGeom: (seq<Coord>, Coord) -> real, dist: (Coord, Coord) -> real,
                  nearestNode: Option<nat>): Option<Snap>
    requires forall k :: 0 <= k < |es| ==> es[k].u < |ns| && es[k].v < |ns|
    requires nearestNode.Some? ==> nearestNode.value < |ns|
  {
    if |es| == 0 then
      if nearestNode.Some? then Some(AtNode(ns, nearestNode.value, 0.0)) else None
    else
      var k := NearestEdge(ns, es, q, distToGeom);
      Some(AtNode(ns, NearerEndpoint(ns, es[k], q, dist), distToGeom(ProjSegment(ns, es[k]), q)))
  }

  /** On a graph with edges, the snap's offset is no larger than the distance
      to any edge, and the snapped node is an endpoint of an edge at that
      offset, no farther from `q` than the edge's other endpoint. */
  lemma SnapIsNearest(ns: seq<NodeRec>, es: seq<EdgeRec>, q: Coord,
                      distToGeom: (seq<Coord>, Coord) -> real, dist: (Coord, Coord) -> real,
                      nearestNode: Option<nat>)
    requires forall k :: 0 <= k < |es| ==> es[k].u < |ns| && es[k].v < |ns|
    requires nearestNode.Some? ==> nearestNode.value < |ns|
    requires |es| > 0
    ensures var r := SnapOf(ns, es, q, distToGeom, dist, nearestNode);
      r.Some? && r.value.node < |ns| &&
      (forall j :: 0 <= j < |es| ==> r.value.offset <= distToGeom(ProjSegment(ns, es[j]), q)) &&
      exists k :: 0 <= k < |es| && r.value.offset == distToGeom(ProjSegment(ns, es[k]), q) &&
        (r.value.node == es[k].u || r.value.node == es[k].v) &&
        dist(ns[r.value.node].proj, q) <= dist(ns[es[k].u].proj, q) &&
        dist(ns[r.value.node].proj, q) <= dist(ns[es[k].v].proj, q)
  {
    var k := NearestEdge(ns, es, q, distToGeom);
    var n := NearerEndpoint(ns, es[k], q, dist);
    assert SnapOf(ns, es, q, distToGeom, dist, nearestNode).value.node == n;
  }

  /** On a graph without edges the nearest node is returned, at offset 0,
      with its own geographic coordinates. */
  lemma SnapWithoutEdges(ns: seq<NodeRec>, q: Coord,
                         distToGeom: (seq<Coord>, Coord) -> real, dist: (Coord, Coord) -> real,
                         nearestNode: Option<nat>)
    requires nearestNode.Some? ==> nearestNode.value < |ns|
    ensures var r := SnapOf(ns, [], q, distToGeom, dist, nearestNode);
      (r.Some? <==> nearestNode.Some?) &&
      (r.Some? ==> r.value.node == nearestNode.value && r.value.offset == 0.0 &&
                   r.value.lat == ns[r.value.node].geo.y && r.value.lon == ns[r.value.node].geo.x)
  {
  }

  /** Whatever the outcome, the snapped latitude and longitude are those of
      the snapped node. */
  lemma SnapCoordinatesAreNodes(ns: seq<NodeRec>, es: seq<EdgeRec>, q: Coord,
                                distToGeom: (seq<Coord>, Coord) -> real, dist: (Coord, Coord) -> real,
                                nearestNode: Option<nat>)
    requires forall k :: 0 <= k < |es| ==> es[k].u < |ns| && es[k].v < |ns|
    requires nearestNode.Some? ==> nearestNode.value < |ns|
    ensures var r := SnapOf(ns, es, q, distToGeom, dist, nearestNode);
      r.Some? ==> r.value.node < |ns| && r.value.lat == ns[r.value.node].geo.y && r.value.lon == ns[r.value.node].geo.x
  {
  }
}
