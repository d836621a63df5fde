/** Coordinates and the joining of edge geometries into one polyline
    (app.py, `route_to_geojson_by_weight`). */
module Geometry {
  import opened Common

  /** A coordinate pair as shapely and networkx store it: `x` is the easting
      (longitude in the geographic graph), `y` the northing (latitude). */
  datatype Coord = Coord(x: real, y: real)

  /** One reconstruction step: append `seg` to `acc`, leaving out its first
      point when that point repeats the last point already emitted. */
  function Stitch<T(==)>(acc: seq<T>, seg: seq<T>): seq<T> {
    if |acc| > 0 && |seg| > 0 && acc[|acc| - 1] == seg[0] then acc + seg[1..]
    else acc + seg
  }

  /** All segments of a route, stitched in order. */
  function StitchAll<T(==)>(segs: seq<seq<T>>): seq<T> {
    if |segs| == 0 then []
    else Stitch(StitchAll(segs[..|segs| - 1]), segs[|segs| - 1])
  }

  /** Total number of points over all segments. */
  function PointCount<T>(segs: seq<seq<T>>): nat {
    if |segs| == 0 then 0 else PointCount(segs[..|segs| - 1]) + |segs[|segs| - 1]|
  }

  /** A stitching step never loses or alters what was already emitted, and it
      always ends with the whole of `seg` after its first point; the one point
      it may leave out equals the point emitted just before. */
  lemma StitchShape<T>(acc: seq<T>, seg: seq<T>)
    requires |seg| > 0
    ensures var r := Stitch(acc, seg);
      |acc| <= |r| && r[..|acc|] == acc &&
      r[|r| - (|seg| - 1)..] == seg[1..] &&
      (|r| == |acc| + |seg| || (|r| == |acc| + |seg| - 1 && acc[|acc| - 1] == seg[0]))
    ensures var r := Stitch(acc, seg);
      (|r| == |acc| + |seg| - 1 <==> |acc| > 0 && acc[|acc| - 1] == seg[0]) &&
      (r[|acc|..] == seg || r[|acc|..] == seg[1..])
  {
    var r := Stitch(acc, seg);
    if |acc| > 0 && acc[|acc| - 1] == seg[0] {
      assert r == acc + seg[1..];
    } else {
      assert r == acc + seg;
      assert r[|r| - (|seg| - 1)..] == seg[1..];
    }
  }

  /** Stitching loses no vertex and invents none: a point is on the route
      exactly when it lies on one of the segments. */
  lemma {:induction false} StitchAllCovers<T>(segs: seq<seq<T>>, p: T)
    requires forall i :: 0 <= i < |segs| ==> |segs[i]| > 0
    ensures p in StitchAll(segs) <==> exists i :: 0 <= i < |segs| && p in segs[i]
  {
    if |segs| > 0 {
      var n := |segs| - 1;
      var prefix := segs[..n];
      var acc := StitchAll(prefix);
      var seg := segs[n];
      StitchAllCovers(prefix, p);
      assert forall i :: 0 <= i < n ==> prefix[i] == segs[i];
      if |acc| > 0 && acc[|acc| - 1] == seg[0] {
        assert StitchAll(segs) == acc + seg[1..];
        assert seg == [seg[0]] + seg[1..];
        if p == seg[0] {
          assert p in acc;
        }
      } else {
        assert StitchAll(segs) == acc + seg;
      }
      if exists i :: 0 <= i < |segs| && p in segs[i] {
        var i :| 0 <= i < |segs| && p in segs[i];
        if i < n {
          assert p in prefix[i];
        }
      }
    }
  }

  /** The stitched route starts at the first point of the first segment and
      ends at the last point of the last segment. */
  lemma {:induction false} StitchAllEnds<T>(segs: seq<seq<T>>)
    requires |segs| > 0
    requires forall i :: 0 <= i < |segs| ==> |segs[i]| > 0
    ensures var r := StitchAll(segs);
      |r| > 0 && r[0] == segs[0][0] && r[|r| - 1] == segs[|segs| - 1][|segs[|segs| - 1]| - 1]
  {
    var n := |segs| - 1;
    var acc := StitchAll(segs[..n]);
    var seg := segs[n];
    StitchShape(acc, seg);
    if n == 0 {
      assert acc == [];
      assert StitchAll(segs) == seg;
    } else {
      StitchAllEnds(segs[..n]);
      assert segs[..n][0] == segs[0];
      var r := StitchAll(segs);
      assert r[..|acc|] == acc;
      assert r[0] == acc[0];
      if |seg| == 1 {
        assert |r| == |acc| + 1 || (|r| == |acc| && acc[|acc| - 1] == seg[0]);
        if |r| == |acc| + 1 {
          assert r == acc + seg;
        }
      } else {
        assert r[|r| - (|seg| - 1)..] == seg[1..];
        assert r[|r| - 1] == seg[1..][|seg| - 2];
      }
    }
  }

  /** Segments are contiguous when each one starts where the previous ended. */
  ghost predicate Contiguous<T>(segs: seq<seq<T>>)
  {
    (forall i :: 0 <= i < |segs| ==> |segs[i]| > 0) &&
    forall i :: 0 < i < |segs| ==> segs[i - 1][|segs[i - 1]| - 1] == segs[i][0]
  }

  /** On a contiguous route every join drops exactly one duplicated vertex. */
  lemma {:induction false} StitchAllContiguousLength<T>(segs: seq<seq<T>>)
    requires |segs| > 0
    requires Contiguous(segs)
    ensures |StitchAll(segs)| == PointCount(segs) - (|segs| - 1)
  {
    var n := |segs| - 1;
    var acc := StitchAll(segs[..n]);
    if n == 0 {
      assert acc == [];
    } else {
      assert Contiguous(segs[..n]) by {
        assert forall i :: 0 <= i < n ==> segs[..n][i] == segs[i];
      }
      StitchAllContiguousLength(segs[..n]);
      StitchAllEnds(segs[..n]);
      assert segs[..n][n - 1] == segs[n - 1];
      assert acc[|acc| - 1] == segs[n][0];
    }
  }

  /** Applies `f` to every point of every segment. */
  function MapSegs<A, B>(f: A -> B, segs: seq<seq<A>>): (r: seq<seq<B>>)
    ensures |r| == |segs|
    ensures forall i :: 0 <= i < |segs| ==> r[i] == MapSeq(f, segs[i])
  {
    seq(|segs|, i requires 0 <= i < |segs| => MapSeq(f, segs[i]))
  }

  /** One stitching step commutes with an injective renaming of the points. */
  lemma StitchMap<A, B>(f: A -> B, acc: seq<A>, seg: seq<A>)
    requires forall a, b :: f(a) == f(b) ==> a == b
    ensures MapSeq(f, Stitch(acc, seg)) == Stitch(MapSeq(f, acc), MapSeq(f, seg))
  {
    var macc, mseg := MapSeq(f, acc), MapSeq(f, seg);
    if |acc| > 0 && |seg| > 0 && acc[|acc| - 1] == seg[0] {
      assert MapSeq(f, acc + seg[1..]) == macc + mseg[1..];
    } else {
      if |macc| > 0 && |mseg| > 0 {
        assert f(acc[|acc| - 1]) != f(seg[0]);
      }
      assert MapSeq(f, acc + seg) == macc + mseg;
    }
  }

  /** Renaming the points by an injective map commutes with stitching, since
      the join test compares points for equality only. */
  lemma {:induction false} StitchAllMap<A, B>(f: A -> B, segs: seq<seq<A>>)
    requires forall a, b :: f(a) == f(b) ==> a == b
    ensures MapSeq(f, StitchAll(segs)) == StitchAll(MapSegs(f, segs))
  {
    if |segs| > 0 {
      var n := |segs| - 1;
      StitchAllMap(f, segs[..n]);
      assert MapSegs(f, segs)[..n] == MapSegs(f, segs[..n]);
      StitchMap(f, StitchAll(segs[..n]), segs[n]);
    }
  }
}
