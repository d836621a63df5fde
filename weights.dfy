/** Composite edge weights, one per risk-aversion coefficient beta
    (app.py, `BETAS`, `BETA_TAGS` and `materialize_final_weights`). */
module Weights {

  /** The coefficients materialised on every edge; the first is the
      shortest-distance baseline. */
  const Betas: seq<real> := [0.0, 0.3, 1.0]

  /** The attribute-name tag of each configured coefficient. */
  const BetaTags: map<real, string> := map[0.0 := "b0", 0.3 := "b03", 1.0 := "b1"]

  /** The edge attribute that stores the weight for `beta`, `final_w_<tag>`. */
  function AttrName(beta: real): string
    requires beta in BetaTags
  {
    "final_w_" + BetaTags[beta]
  }

  /** Distinct coefficients write distinct attributes. */
  lemma AttrNameInjective(b1: real, b2: real)
    requires b1 in BetaTags && b2 in BetaTags
    ensures AttrName(b1) == AttrName(b2) ==> b1 == b2
  {
    if AttrName(b1) == AttrName(b2) {
      assert BetaTags[b1] == AttrName(b1)[8..];
      assert BetaTags[b2] == AttrName(b2)[8..];
      assert "b0"[1] != "b1"[1];
    }
  }

  /** Every configured coefficient has a tag. */
  lemma BetasTagged()
    ensures forall b :: b in Betas ==> b in BetaTags
    ensures Betas[0] == 0.0
  {
  }

  /** `length * (1 + beta * risk)`: the length itself at beta = 0 or zero
      risk, and never below the length when nothing is negative. */
  function CompositeWeight(length: real, beta: real, risk: real): (w: real)
    ensures beta == 0.0 || risk == 0.0 ==> w == length
    ensures length >= 0.0 && beta >= 0.0 && risk >= 0.0 ==> w >= length
  {
    length * (1.0 + beta * risk)
  }

  /** The attributes written for `betas`. */
  function FinalAttrs(betas: seq<real>): set<string>
    requires forall b :: b in betas ==> b in BetaTags
  {
    set b | b in betas :: AttrName(b)
  }

  /** An edge's attribute map after the inner loop over `betas`: each
      `final_w_<tag>` holds the composite weight for its coefficient and
      every other attribute is left as it was. */
  function FinalWeights(w: map<string, real>, length: real, risk: real, betas: seq<real>): (r: map<string, real>)
    requires forall b :: b in betas ==> b in BetaTags
    ensures r.Keys == w.Keys + FinalAttrs(betas)
    ensures forall b :: b in betas ==> AttrName(b) in r && r[AttrName(b)] == CompositeWeight(length, b, risk)
    ensures forall a :: a in w && a !in FinalAttrs(betas) ==> r[a] == w[a]
  {
    if |betas| == 0 then w
    else
      var n := |betas| - 1;
      var prev := FinalWeights(w, length, risk, betas[..n]);
      var r := prev[AttrName(betas[n]) := CompositeWeight(length, betas[n], risk)];
      FinalWeightsStep(w, length, risk, betas, prev, r);
      r
  }

  /** Writing the last coefficient's attribute onto the map for the others
      gives the map for all of them. */
  lemma FinalWeightsStep(w: map<string, real>, length: real, risk: real, betas: seq<real>,
                         prev: map<string, real>, r: map<string, real>)
    requires forall b :: b in betas ==> b in BetaTags
    requires |betas| > 0
    requires var n := |betas| - 1;
      prev.Keys == w.Keys + FinalAttrs(betas[..n]) &&
      (forall b :: b in betas[..n] ==> AttrName(b) in prev && prev[AttrName(b)] == CompositeWeight(length, b, risk)) &&
      (forall a :: a in w && a !in FinalAttrs(betas[..n]) ==> prev[a] == w[a]) &&
      r == prev[AttrName(betas[n]) := CompositeWeight(length, betas[n], risk)]
    ensures r.Keys == w.Keys + FinalAttrs(betas)
    ensures forall b :: b in betas ==> AttrName(b) in r && r[AttrName(b)] == CompositeWeight(length, b, risk)
    ensures forall a :: a in w && a !in FinalAttrs(betas) ==> r[a] == w[a]
  {
    var n := |betas| - 1;
    assert forall b :: b in betas ==> b in betas[..n] || b == betas[n];
    assert FinalAttrs(betas) == FinalAttrs(betas[..n]) + {AttrName(betas[n])};
    forall b | b in betas[..n]
      ensures AttrName(b) == AttrName(betas[n]) ==> b == betas[n]
    {
      AttrNameInjective(b, betas[n]);
    }
  }
}
