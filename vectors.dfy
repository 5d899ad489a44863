/**
 * The dense-vector arithmetic that `knn` takes from numpy: squared Euclidean
 * distance, per-column sum, minimum and maximum, and the per-column mean.
 * Coordinates are exact reals.
 */
module Vectors {

  /** A point, or a centroid: one coordinate per dimension. */
  type Point = seq<real>

  /** Every row of `ps` has `dim` coordinates. */
  predicate Dim(ps: seq<Point>, dim: nat) {
    forall j :: 0 <= j < |ps| ==> |ps[j]| == dim
  }

  /** Every row of `ps` has a coordinate at index `d`. */
  predicate HasColumn(ps: seq<Point>, d: nat) {
    forall j :: 0 <= j < |ps| ==> d < |ps[j]|
  }

  /**
   * The squared Euclidean distance. `np.linalg.norm` takes its square root;
   * the square root is monotone, so the nearest centroid is the same.
   */
  function SqDist(p: Point, q: Point): (r: real)
    requires |p| == |q|
    ensures r >= 0.0
    ensures p == q ==> r == 0.0
    decreases |p|
  {
    if |p| == 0 then 0.0
    else
      var n := |p| - 1;
      SqDist(p[..n], q[..n]) + (p[n] - q[n]) * (p[n] - q[n])
  }

  /** The sum of column `d` over the rows of `ps`. */
  function ColumnSum(ps: seq<Point>, d: nat): real
    requires HasColumn(ps, d)
    decreases |ps|
  {
    if ps == [] then 0.0 else ColumnSum(ps[..|ps| - 1], d) + ps[|ps| - 1][d]
  }

  /** The smallest entry of column `d` (numpy's `min` over a column). */
  function ColumnMin(ps: seq<Point>, d: nat): (r: real)
    requires |ps| >= 1 && HasColumn(ps, d)
    ensures forall j :: 0 <= j < |ps| ==> r <= ps[j][d]
    ensures exists j :: 0 <= j < |ps| && r == ps[j][d]
    decreases |ps|
  {
    if |ps| == 1 then ps[0][d]
    else
      var m := ColumnMin(ps[..|ps| - 1], d);
      var last := ps[|ps| - 1][d];
      if last < m then last else m
  }

  /** The largest entry of column `d` (numpy's `max` over a column). */
  function ColumnMax(ps: seq<Point>, d: nat): (r: real)
    requires |ps| >= 1 && HasColumn(ps, d)
    ensures forall j :: 0 <= j < |ps| ==> ps[j][d] <= r
    ensures exists j :: 0 <= j < |ps| && r == ps[j][d]
    decreases |ps|
  {
    if |ps| == 1 then ps[0][d]
    else
      var m := ColumnMax(ps[..|ps| - 1], d);
      var last := ps[|ps| - 1][d];
      if last > m then last else m
  }

  /** The per-dimension arithmetic mean of a non-empty set of points. */
  function Mean(ps: seq<Point>): (r: Point)
    requires |ps| >= 1 && Dim(ps, |ps[0]|)
    ensures |r| == |ps[0]|
  {
    seq(|ps[0]|, d requires 0 <= d < |ps[0]| => ColumnSum(ps, d) / (|ps| as real))
  }

  /** The mean of a single point is that point, coordinate for coordinate. */
  lemma MeanOfOne(p: Point)
    ensures Mean([p]) == p
  {
    forall d | 0 <= d < |p|
      ensures Mean([p])[d] == p[d]
    {
      assert [p][..0] == [];
      assert ColumnSum([p], d) == p[d];
    }
  }

  /** If every entry of column `d` is at least `lo` and at most `hi`, the column sum lies between |ps|*lo and |ps|*hi. */
  lemma {:induction false} ColumnSumBounds(ps: seq<Point>, d: nat, lo: real, hi: real)
    requires HasColumn(ps, d)
    requires forall j :: 0 <= j < |ps| ==> lo <= ps[j][d] <= hi
    ensures (|ps| as real) * lo <= ColumnSum(ps, d) <= (|ps| as real) * hi
    decreases |ps|
  {
    if ps != [] {
      var init := ps[..|ps| - 1];
      ColumnSumBounds(init, d, lo, hi);
      assert (|ps| as real) * lo == (|init| as real) * lo + lo;
      assert (|ps| as real) * hi == (|init| as real) * hi + hi;
    }
  }

  /** The mean lies inside the bounding box of the points it averages. */
  lemma MeanInBox(ps: seq<Point>, d: nat)
    requires |ps| >= 1 && Dim(ps, |ps[0]|) && d < |ps[0]|
    ensures ColumnMin(ps, d) <= Mean(ps)[d] <= ColumnMax(ps, d)
  {
    var lo, hi := ColumnMin(ps, d), ColumnMax(ps, d);
    var n := |ps| as real;
    ColumnSumBounds(ps, d, lo, hi);
    QuotientBounds(ColumnSum(ps, d), n, lo, hi);
  }

  /** Dividing by a positive count keeps a sum's bounds: from n*lo <= s <= n*hi follows lo <= s/n <= hi. */
  lemma QuotientBounds(s: real, n: real, lo: real, hi: real)
    requires n > 0.0 && n * lo <= s <= n * hi
    ensures lo <= s / n <= hi
  {
    var q := s / n;
    assert n * (q - lo) >= 0.0 && n * (hi - q) >= 0.0;
  }
}
