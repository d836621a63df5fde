/** The risk field of app.py, `apply_crime_weights` (lines 81-124): hazard
    observations are summed into a per-node risk with an exponential decay
    inside a fixed radius, and an edge takes the larger risk of its two ends.

    The planar distance (`numpy.hypot` of the coordinate differences) and
    the exponential (`numpy.exp`) are parameters `dist` and `exp`: the model
    assumes nothing about them beyond what each lemma requires. */
module RiskField {
  import opened Geometry

  /** Search radius R and decay length alpha, in metres, as app.py passes them. */
  const SearchRadius: real := 300.0
  const DecayLength: real := 150.0

  /** A hazard observation already projected to the graph's planar system. */
  datatype Hazard = Hazard(pos: Coord, severity: real)

  /** What one hazard adds to the risk of a node at `p`: its decayed severity
      when it lies within the radius, nothing otherwise. */
  function Contribution(p: Coord, h: Hazard, dist: (Coord, Coord) -> real,
                        exp: real -> real, radius: real, alpha: real): real
    requires alpha != 0.0
  {
    var d := dist(h.pos, p);
    if d <= radius then h.severity * exp(-d / alpha) else 0.0
  }

  /** Whether some hazard lies within the radius of `p` (`mask.any()`). */
  predicate AnyWithin(p: Coord, hs: seq<Hazard>, dist: (Coord, Coord) -> real, radius: real)
  {
    exists i :: 0 <= i < |hs| && dist(hs[i].pos, p) <= radius
  }

  /** The hazards within the radius of `p`, in their original order. */
  function Within(p: Coord, hs: seq<Hazard>, dist: (Coord, Coord) -> real, radius: real): (r: seq<Hazard>)
    ensures forall h :: h in r <==> h in hs && dist(h.pos, p) <= radius
  {
    if |hs| == 0 then []
    else (if dist(hs[0].pos, p) <= radius then [hs[0]] else []) + Within(p, hs[1..], dist, radius)
  }

  /** The risk of a node at `p`: the sum of all hazards' contributions. */
  function NodeRisk(p: Coord, hs: seq<Hazard>, dist: (Coord, Coord) -> real,
                    exp: real -> real, radius: real, alpha: real): real
    requires alpha != 0.0
  {
    if |hs| == 0 then 0.0
    else Contribution(p, hs[0], dist, exp, radius, alpha) + NodeRisk(p, hs[1..], dist, exp, radius, alpha)
  }

  /** Edge risk from the risks of its two endpoints (app.py:124). */
  function EdgeRisk(ru: real, rv: real): (r: real)
    ensures r >= ru && r >= rv
    ensures r == ru || r == rv
  {
    if ru >= rv then ru else rv
  }

  /** A node with no hazard within the radius has risk exactly 0. */
  lemma {:induction false} NodeRiskNoneWithin(p: Coord, hs: seq<Hazard>, dist: (Coord, Coord) -> real,
                                               exp: real -> real, radius: real, alpha: real)
    requires alpha != 0.0
    requires !AnyWithin(p, hs, dist, radius)
    ensures NodeRisk(p, hs, dist, exp, radius, alpha) == 0.0
  {
    if |hs| > 0 {
      assert dist(hs[0].pos, p) > radius;
      assert !AnyWithin(p, hs[1..], dist, radius) by {
        forall i | 0 <= i < |hs[1..]| ensures dist(hs[1..][i].pos, p) > radius {
          assert hs[1..][i] == hs[i + 1];
        }
      }
      NodeRiskNoneWithin(p, hs[1..], dist, exp, radius, alpha);
    }
  }

  /** With non-negative severities and a positive exponential, risk is never
      negative. */
  lemma {:induction false} NodeRiskNonNegative(p: Coord, hs: seq<Hazard>, dist: (Coord, Coord) -> real,
                                               exp: real -> real, radius: real, alpha: real)
    requires alpha != 0.0
    requires forall x :: exp(x) > 0.0
    requires forall i :: 0 <= i < |hs| ==> hs[i].severity >= 0.0
    ensures NodeRisk(p, hs, dist, exp, radius, alpha) >= 0.0
  {
    if |hs| > 0 {
      var d := dist(hs[0].pos, p);
      assert exp(-d / alpha) > 0.0;
      NodeRiskNonNegative(p, hs[1..], dist, exp, radius, alpha);
    }
  }

  /** A node's risk is the sum over the in-radius hazards only: dropping the
      hazards beyond the radius does not change it. */
  lemma {:induction false} NodeRiskOverWithin(p: Coord, hs: seq<Hazard>, dist: (Coord, Coord) -> real,
                                              exp: real -> real, radius: real, alpha: real)
    requires alpha != 0.0
    ensures NodeRisk(p, hs, dist, exp, radius, alpha)
         == NodeRisk(p, Within(p, hs, dist, radius), dist, exp, radius, alpha)
  {
    if |hs| > 0 {
      NodeRiskOverWithin(p, hs[1..], dist, exp, radius, alpha);
      var rest := Within(p, hs[1..], dist, radius);
      if dist(hs[0].pos, p) <= radius {
        assert Within(p, hs, dist, radius) == [hs[0]] + rest;
        assert ([hs[0]] + rest)[1..] == rest;
      } else {
        assert Within(p, hs, dist, radius) == rest;
      }
    }
  }

  /** Taking one hazard out of the list subtracts exactly its contribution. */
  lemma {:induction false} NodeRiskRemove(p: Coord, hs: seq<Hazard>, j: nat, dist: (Coord, Coord) -> real,
                                          exp: real -> real, radius: real, alpha: real)
    requires alpha != 0.0
    requires j < |hs|
    ensures NodeRisk(p, hs, dist, exp, radius, alpha)
         == Contribution(p, hs[j], dist, exp, radius, alpha)
          + NodeRisk(p, hs[..j] + hs[j + 1..], dist, exp, radius, alpha)
  {
    if j > 0 {
      NodeRiskRemove(p, hs[1..], j - 1, dist, exp, radius, alpha);
      assert hs[1..][..j - 1] + hs[1..][j..] == (hs[..j] + hs[j + 1..])[1..];
    } else {
      assert hs[..j] + hs[j + 1..] == hs[1..];
    }
  }

  /** The risk field does not depend on the order of the hazard records. */
  lemma {:induction false} NodeRiskPermutation(p: Coord, hs: seq<Hazard>, gs: seq<Hazard>,
                                               dist: (Coord, Coord) -> real,
                                               exp: real -> real, radius: real, alpha: real)
    requires alpha != 0.0
    requires multiset(hs) == multiset(gs)
    ensures NodeRisk(p, hs, dist, exp, radius, alpha) == NodeRisk(p, gs, dist, exp, radius, alpha)
  {
    if |hs| == 0 {
      assert |gs| == |multiset(gs)| == 0;
    } else {
      var j := MatchingIndex(hs, gs);
      var rest := gs[..j] + gs[j + 1..];
      NodeRiskPermutation(p, hs[1..], rest, dist, exp, radius, alpha);
      NodeRiskRemove(p, gs, j, dist, exp, radius, alpha);
    }
  }

  /** Where the first hazard of `hs` sits in a permutation `gs` of it, and
      what is left of both once it is taken out. */
  lemma MatchingIndex(hs: seq<Hazard>, gs: seq<Hazard>) returns (j: nat)
    requires |hs| > 0 && multiset(hs) == multiset(gs)
    ensures j < |gs| && gs[j] == hs[0]
    ensures multiset(hs[1..]) == multiset(gs[..j] + gs[j + 1..])
  {
    assert hs[0] in multiset(gs);
    j :| 0 <= j < |gs| && gs[j] == hs[0];
    assert gs == gs[..j] + [gs[j]] + gs[j + 1..];
    assert hs == [hs[0]] + hs[1..];
    assert multiset(gs) == multiset(gs[..j]) + multiset{gs[j]} + multiset(gs[j + 1..]);
    assert multiset(hs) == multiset{hs[0]} + multiset(hs[1..]);
    assert multiset(gs[..j] + gs[j + 1..]) == multiset(gs[..j]) + multiset(gs[j + 1..]);
    forall x ensures multiset(hs[1..])[x] == multiset(gs[..j] + gs[j + 1..])[x] {
      assert multiset(hs)[x] == multiset(gs)[x];
    }
  }

  /** The scenario of a single hazard of severity 500 with R = 300 m and
      alpha = 150 m: with an increasing exponential, a node on the hazard has
      strictly higher risk than one 250 m away, which has positive risk, and a
      node 400 m away has none. */
  lemma SingleHazardScenario(h: Coord, p0: Coord, p250: Coord, p400: Coord,
                             dist: (Coord, Coord) -> real, exp: real -> real)
    requires forall x :: exp(x) > 0.0
    requires forall x, y :: x < y ==> exp(x) < exp(y)
    requires dist(h, p0) == 0.0 && dist(h, p250) == 250.0 && dist(h, p400) == 400.0
    ensures var hs := [Hazard(h, 500.0)];
      NodeRisk(p0, hs, dist, exp, SearchRadius, DecayLength)
        > NodeRisk(p250, hs, dist, exp, SearchRadius, DecayLength) > 0.0 &&
      NodeRisk(p400, hs, dist, exp, SearchRadius, DecayLength) == 0.0
  {
    var hs := [Hazard(h, 500.0)];
    assert hs[1..] == [];
    assert exp(-250.0 / 150.0) < exp(-0.0 / 150.0);
  }
}
