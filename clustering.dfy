/**
 * Lloyd's k-means as `knn` in Clustering.py runs it: initial centroids drawn
 * inside the bounding box of the points, then assignment of every point to
 * its nearest centroid and recomputation of every centroid, repeated until a
 * pass leaves all centroids exactly where they were.
 */
module Clustering {
  import opened Wrappers
  import opened Vectors

  /** What `knn` returns: `None` for no points, or the centroids it stopped at. */
  datatype KnnResult =
    | NoVectors                               // `return None` on an empty point set
    | Converged(centroids: seq<Point>)        // a pass changed no centroid
    | OutOfFuel(centroids: seq<Point>)        // the pass budget ran out first

  /** At least one centroid, and points and centroids of one dimensionality. */
  predicate Compatible(vs: seq<Point>, cs: seq<Point>) {
    |cs| >= 1 && Dim(cs, |cs[0]|) && Dim(vs, |cs[0]|)
  }

  // ---------------------------------------------------------------------------
  // Assignment

  /**
   * The index of the centroid nearest to `p`, as `distances.argmin()` picks
   * it: a scan that replaces the best index only on a strictly smaller
   * distance, so a tie goes to the lowest index.
   */
  function Nearest(cs: seq<Point>, p: Point): (n: nat)
    requires |cs| >= 1 && Dim(cs, |p|)
    ensures n < |cs|
    decreases |cs|
  {
    if |cs| == 1 then 0
    else
      var m := Nearest(cs[..|cs| - 1], p);
      if SqDist(p, cs[|cs| - 1]) < SqDist(p, cs[m]) then |cs| - 1 else m
  }

  /**
   * Nearest is an argmin: no centroid is strictly closer, and every centroid
   * before it is strictly farther, so a tie goes to the lowest index.
   */
  lemma {:induction false} NearestIsArgmin(cs: seq<Point>, p: Point)
    requires |cs| >= 1 && Dim(cs, |p|)
    ensures forall i :: 0 <= i < |cs| ==> SqDist(p, cs[Nearest(cs, p)]) <= SqDist(p, cs[i])
    ensures forall i :: 0 <= i < Nearest(cs, p) ==> SqDist(p, cs[Nearest(cs, p)]) < SqDist(p, cs[i])
    decreases |cs|
  {
    if |cs| > 1 {
      var init := cs[..|cs| - 1];
      NearestIsArgmin(init, p);
      assert forall i :: 0 <= i < |init| ==> init[i] == cs[i];
    }
  }

  /** The argmin property determines the index: any first minimum is the one Nearest returns. */
  lemma NearestIsFirstMinimum(cs: seq<Point>, p: Point, j: nat)
    requires |cs| >= 1 && Dim(cs, |p|) && j < |cs|
    requires forall i :: 0 <= i < |cs| ==> SqDist(p, cs[j]) <= SqDist(p, cs[i])
    requires forall i :: 0 <= i < j ==> SqDist(p, cs[j]) < SqDist(p, cs[i])
    ensures Nearest(cs, p) == j
  {
    NearestIsArgmin(cs, p);
  }

  /** The points of `vs`, in order, whose nearest centroid is `i`: class `i`. */
  function Members(vs: seq<Point>, cs: seq<Point>, i: nat): (m: seq<Point>)
    requires Compatible(vs, cs)
    ensures |m| <= |vs|
    ensures Dim(m, |cs[0]|)
    ensures i >= |cs| ==> m == []
    decreases |vs|
  {
    if vs == [] then []
    else
      var p := vs[|vs| - 1];
      Members(vs[..|vs| - 1], cs, i) + (if Nearest(cs, p) == i then [p] else [])
  }

  /** Class `i` holds only points of the input whose nearest centroid is `i`. */
  lemma {:induction false} MembersSound(vs: seq<Point>, cs: seq<Point>, i: nat)
    requires Compatible(vs, cs)
    ensures forall q :: q in Members(vs, cs, i) ==> q in vs
    ensures forall j :: 0 <= j < |Members(vs, cs, i)| ==> Nearest(cs, Members(vs, cs, i)[j]) == i
    decreases |vs|
  {
    if vs != [] {
      MembersSound(vs[..|vs| - 1], cs, i);
    }
  }

  /** The `classes` list of lists that one assignment pass builds, one entry per class index below `k`. */
  function Classes(vs: seq<Point>, cs: seq<Point>, k: nat): (cl: seq<seq<Point>>)
    requires Compatible(vs, cs)
    ensures |cl| == k
  {
    seq(k, i requires 0 <= i < k => Members(vs, cs, i))
  }

  /** Assigning one more point appends it to the class of its nearest centroid and to no other. */
  lemma ClassesAppend(vs: seq<Point>, cs: seq<Point>, k: nat, p: Point)
    requires Compatible(vs, cs) && |cs| <= k && |p| == |cs[0]|
    ensures Compatible(vs + [p], cs)
    ensures Classes(vs + [p], cs, k)
            == Classes(vs, cs, k)[Nearest(cs, p) := Classes(vs, cs, k)[Nearest(cs, p)] + [p]]
  {
    var ws := vs + [p];
    assert forall j :: 0 <= j < |vs| ==> ws[j] == vs[j];
    assert ws[..|ws| - 1] == vs;
    var n := Nearest(cs, p);
    var before := Classes(vs, cs, k);
    var after := Classes(ws, cs, k);
    forall i | 0 <= i < k
      ensures after[i] == before[n := before[n] + [p]][i]
    {
      assert after[i] == Members(ws, cs, i) == Members(vs, cs, i) + (if n == i then [p] else []);
    }
  }

  /** Class `i` holds what Members says it holds; a class index at or past the number of centroids stays empty. */
  lemma ClassesShape(vs: seq<Point>, cs: seq<Point>, k: nat)
    requires Compatible(vs, cs) && |cs| <= k
    ensures |Classes(vs, cs, k)| == k
    ensures forall i :: 0 <= i < |cs| ==> Classes(vs, cs, k)[i] == Members(vs, cs, i) && Dim(Classes(vs, cs, k)[i], |cs[i]|)
    ensures forall i :: |cs| <= i < k ==> Classes(vs, cs, k)[i] == []
  {
  }

  /** Assignment pass (Clustering.py:69-77): every point is appended to the class of its nearest centroid. */
  method AssignClasses(vectors: seq<Point>, positions: seq<Point>, k: nat) returns (classes: seq<seq<Point>>)
    requires Compatible(vectors, positions) && |positions| <= k
    ensures classes == Classes(vectors, positions, k)
  {
    classes := seq(k, _ => []);
    for j := 0 to |vectors|
      invariant classes == Classes(vectors[..j], positions, k)
    {
      var point := vectors[j];
      var closest := Nearest(positions, point);
      ClassesAppend(vectors[..j], positions, k, point);
      assert vectors[..j + 1] == vectors[..j] + [point];
      classes := classes[closest := classes[closest] + [point]];
    }
    assert vectors[..|vectors|] == vectors;
  }

  /** The multiset union of all classes. */
  function Pooled(cl: seq<seq<Point>>): multiset<Point> {
    if cl == [] then multiset{} else Pooled(cl[..|cl| - 1]) + multiset(cl[|cl| - 1])
  }

  /** The number of points held by all classes together. */
  function TotalSize(cl: seq<seq<Point>>): nat {
    if cl == [] then 0 else TotalSize(cl[..|cl| - 1]) + |cl[|cl| - 1]|
  }

  /** The number of empty classes. */
  function CountEmpty(cl: seq<seq<Point>>): nat {
    if cl == [] then 0 else CountEmpty(cl[..|cl| - 1]) + (if cl[|cl| - 1] == [] then 1 else 0)
  }

  /** Appending a point to one class adds exactly that point to the pool. */
  lemma {:induction false} PooledAppend(cl: seq<seq<Point>>, n: nat, p: Point)
    requires n < |cl|
    ensures Pooled(cl[n := cl[n] + [p]]) == Pooled(cl) + multiset{p}
    decreases |cl|
  {
    var cl' := cl[n := cl[n] + [p]];
    var last := |cl| - 1;
    if n < last {
      assert cl'[..last] == cl[..last][n := cl[..last][n] + [p]];
      PooledAppend(cl[..last], n, p);
    } else {
      assert cl'[..last] == cl[..last];
    }
  }

  /** The pool has as many points as the classes hold together. */
  lemma {:induction false} PooledSize(cl: seq<seq<Point>>)
    ensures |Pooled(cl)| == TotalSize(cl)
    decreases |cl|
  {
    if cl != [] {
      PooledSize(cl[..|cl| - 1]);
    }
  }

  /** Only a non-empty class holds a point, so the non-empty classes are at most as many as the points. */
  lemma {:induction false} NonEmptyAtMostTotal(cl: seq<seq<Point>>)
    ensures |cl| - CountEmpty(cl) <= TotalSize(cl)
    decreases |cl|
  {
    if cl != [] {
      NonEmptyAtMostTotal(cl[..|cl| - 1]);
    }
  }

  /**
   * The assignment partitions the points: pooled together, the classes hold
   * every point exactly as often as the point set does, so their sizes sum
   * to the number of points.
   */
  lemma {:induction false} ClassesPartition(vs: seq<Point>, cs: seq<Point>, k: nat)
    requires Compatible(vs, cs) && |cs| <= k
    ensures Pooled(Classes(vs, cs, k)) == multiset(vs)
    ensures TotalSize(Classes(vs, cs, k)) == |vs|
    decreases |vs|
  {
    if vs == [] {
      var none: seq<seq<Point>> := seq(k, _ => []);
      assert Classes(vs, cs, k) == none;
      EmptyClassesPool(k);
    } else {
      var init, p := vs[..|vs| - 1], vs[|vs| - 1];
      ClassesPartition(init, cs, k);
      ClassesAppend(init, cs, k, p);
      assert init + [p] == vs;
      PooledAppend(Classes(init, cs, k), Nearest(cs, p), p);
    }
    PooledSize(Classes(vs, cs, k));
  }

  /** k empty classes pool to nothing. */
  lemma {:induction false} EmptyClassesPool(k: nat)
    ensures Pooled(seq(k, _ => [])) == multiset{}
    decreases k
  {
    if k > 0 {
      var none: seq<seq<Point>> := seq(k, _ => []);
      assert none[..k - 1] == seq(k - 1, _ => []);
      EmptyClassesPool(k - 1);
    }
  }

  /** Every point lands in the class of its nearest centroid, and in no other class. */
  lemma {:induction false} ClassOfEachPoint(vs: seq<Point>, cs: seq<Point>, j: nat)
    requires Compatible(vs, cs) && j < |vs|
    ensures vs[j] in Members(vs, cs, Nearest(cs, vs[j]))
    ensures forall i :: i != Nearest(cs, vs[j]) ==> vs[j] !in Members(vs, cs, i)
    decreases |vs|
  {
    var n := Nearest(cs, vs[j]);
    var init := vs[..|vs| - 1];
    MembersSound(vs, cs, n);
    forall i | i != n
      ensures vs[j] !in Members(vs, cs, i)
    {
      MembersSound(vs, cs, i);
    }
    if j < |vs| - 1 {
      assert init[j] == vs[j];
      ClassOfEachPoint(init, cs, j);
      assert Members(vs, cs, n) == Members(init, cs, n) + (if Nearest(cs, vs[|vs| - 1]) == n then [vs[|vs| - 1]] else []);
    }
  }

  /** With k classes and n points, at least k - n classes stay empty. */
  lemma AtLeastKMinusNEmpty(vs: seq<Point>, cs: seq<Point>, k: nat)
    requires Compatible(vs, cs) && |cs| <= k
    ensures CountEmpty(Classes(vs, cs, k)) >= k - |vs|
  {
    ClassesPartition(vs, cs, k);
    NonEmptyAtMostTotal(Classes(vs, cs, k));
  }

  /** Appending a point to one class empties nothing and fills that class if it was empty. */
  lemma {:induction false} CountEmptyAppend(cl: seq<seq<Point>>, n: nat, p: Point)
    requires n < |cl|
    ensures CountEmpty(cl[n := cl[n] + [p]]) == CountEmpty(cl) - (if cl[n] == [] then 1 else 0)
    decreases |cl|
  {
    var cl' := cl[n := cl[n] + [p]];
    var last := |cl| - 1;
    if n < last {
      assert cl'[..last] == cl[..last][n := cl[..last][n] + [p]];
      CountEmptyAppend(cl[..last], n, p);
      CountEmptyBound(cl[..last]);
    } else {
      assert cl'[..last] == cl[..last];
    }
  }

  /** Every class of a sequence may be empty, and no more. */
  lemma {:induction false} CountEmptyBound(cl: seq<seq<Point>>)
    ensures CountEmpty(cl) <= |cl|
    ensures CountEmpty(cl) == |cl| <==> forall i :: 0 <= i < |cl| ==> cl[i] == []
    decreases |cl|
  {
    if cl != [] {
      var init := cl[..|cl| - 1];
      CountEmptyBound(init);
      assert forall i :: 0 <= i < |init| ==> init[i] == cl[i];
    }
  }

  /**
   * Only as many classes can be non-empty as there are distinct points: a
   * repeated point goes to the class its first copy went to.
   */
  lemma {:induction false} AtLeastKMinusDistinctEmpty(vs: seq<Point>, cs: seq<Point>, k: nat)
    requires Compatible(vs, cs) && |cs| <= k
    ensures CountEmpty(Classes(vs, cs, k)) >= k - |set p | p in vs|
    decreases |vs|
  {
    if vs == [] {
      ClassesShape(vs, cs, k);
      CountEmptyBound(Classes(vs, cs, k));
    } else {
      var init, p := vs[..|vs| - 1], vs[|vs| - 1];
      assert init + [p] == vs;
      AtLeastKMinusDistinctEmpty(init, cs, k);
      ClassesAppend(init, cs, k, p);
      ClassesShape(init, cs, k);
      var n := Nearest(cs, p);
      CountEmptyAppend(Classes(init, cs, k), n, p);
      DistinctAppend(init, p);
      if p in init {
        var j :| 0 <= j < |init| && init[j] == p;
        ClassOfEachPoint(init, cs, j);
      }
    }
  }

  /** One more point adds one distinct point unless it is a repeat. */
  lemma DistinctAppend(ps: seq<Point>, p: Point)
    ensures |set q | q in ps + [p]| == |set q | q in ps| + (if p in ps then 0 else 1)
  {
    assert (set q | q in ps + [p]) == (set q | q in ps) + {p};
  }

  // ---------------------------------------------------------------------------
  // Update

  /**
   * The new position of a centroid whose class is `cls`: unchanged when the
   * class is empty, the one point of a one-point class, and otherwise the
   * per-dimension mean. Over exact reals the one-point rule agrees with the
   * mean.
   */
  function NewCentroid(prev: Point, cls: seq<Point>): (r: Point)
    requires Dim(cls, |prev|)
    ensures |r| == |prev|
  {
    if |cls| == 0 then prev
    else if |cls| == 1 then cls[0]
    else Mean(cls)
  }

  /** An empty class keeps the centroid; any other class, one point included, moves it to the class mean. */
  lemma NewCentroidIsMean(prev: Point, cls: seq<Point>)
    requires Dim(cls, |prev|)
    ensures cls == [] ==> NewCentroid(prev, cls) == prev
    ensures |cls| >= 1 ==> NewCentroid(prev, cls) == Mean(cls)
  {
    if |cls| == 1 {
      MeanOfOne(cls[0]);
      assert cls == [cls[0]];
    }
  }

  /** Centroid `i` recomputed from class `i`, for every centroid. */
  function Updated(cs: seq<Point>, cl: seq<seq<Point>>): (r: seq<Point>)
    requires |cs| <= |cl|
    requires forall i :: 0 <= i < |cs| ==> Dim(cl[i], |cs[i]|)
    ensures |r| == |cs|
  {
    seq(|cs|, i requires 0 <= i < |cs| => NewCentroid(cs[i], cl[i]))
  }

  /** The first `n` centroids after an assign-and-update pass. */
  function StepPrefix(vs: seq<Point>, cs: seq<Point>, n: nat): (r: seq<Point>)
    requires Compatible(vs, cs) && n <= |cs|
    ensures |r| == n && Dim(r, |cs[0]|)
    decreases n
  {
    if n == 0 then []
    else StepPrefix(vs, cs, n - 1) + [NewCentroid(cs[n - 1], Members(vs, cs, n - 1))]
  }

  /** One assign-and-update pass: as many centroids as before, of the same dimensionality. */
  function Step(vs: seq<Point>, cs: seq<Point>): (r: seq<Point>)
    requires Compatible(vs, cs)
    ensures |r| == |cs| && Compatible(vs, r)
  {
    StepPrefix(vs, cs, |cs|)
  }

  /** Entry `i` of a prefix of the pass is the updated centroid `i`. */
  lemma {:induction false} StepPrefixAt(vs: seq<Point>, cs: seq<Point>, n: nat, i: nat)
    requires Compatible(vs, cs) && i < n <= |cs|
    ensures StepPrefix(vs, cs, n)[i] == NewCentroid(cs[i], Members(vs, cs, i))
    decreases n
  {
    var last := NewCentroid(cs[n - 1], Members(vs, cs, n - 1));
    assert StepPrefix(vs, cs, n) == StepPrefix(vs, cs, n - 1) + [last];
    if i < n - 1 {
      StepPrefixAt(vs, cs, n - 1, i);
    }
  }

  /**
   * After a pass, a centroid whose class is empty is exactly where it was,
   * and every other centroid is the mean of its class.
   */
  lemma StepRule(vs: seq<Point>, cs: seq<Point>, i: nat)
    requires Compatible(vs, cs) && i < |cs|
    ensures Members(vs, cs, i) == [] ==> Step(vs, cs)[i] == cs[i]
    ensures Members(vs, cs, i) != [] ==> Step(vs, cs)[i] == Mean(Members(vs, cs, i))
  {
    StepPrefixAt(vs, cs, |cs|, i);
    NewCentroidIsMean(cs[i], Members(vs, cs, i));
  }

  /** A recomputed centroid lies in the bounding box of its class. */
  lemma StepInClassBox(vs: seq<Point>, cs: seq<Point>, i: nat, d: nat)
    requires Compatible(vs, cs) && i < |cs| && d < |cs[0]| && Members(vs, cs, i) != []
    ensures ColumnMin(Members(vs, cs, i), d) <= Step(vs, cs)[i][d] <= ColumnMax(Members(vs, cs, i), d)
  {
    StepRule(vs, cs, i);
    MeanInBox(Members(vs, cs, i), d);
  }

  /** Update pass (Clustering.py:80-89): overwrites `positions[i]` in place for every non-empty class. */
  method UpdateCentroids(positions: array<Point>, classes: seq<seq<Point>>)
    requires positions.Length <= |classes|
    requires forall i :: 0 <= i < positions.Length ==> Dim(classes[i], |positions[i]|)
    requires forall i :: positions.Length <= i < |classes| ==> classes[i] == []
    modifies positions
    ensures positions[..] == Updated(old(positions[..]), classes)
  {
    for i := 0 to |classes|
      invariant forall j :: 0 <= j < positions.Length && i <= j ==> positions[j] == old(positions[j])
      invariant forall j :: 0 <= j < positions.Length && j < i ==> positions[j] == NewCentroid(old(positions[j]), classes[j])
    {
      var points := classes[i];
      if |points| == 0 {
        // an empty class leaves its centroid as it is
      } else if |points| == 1 {
        positions[i] := points[0];
      } else {
        positions[i] := Mean(points);
      }
    }
  }

  // ---------------------------------------------------------------------------
  // Initialisation

  /** Every random factor lies in [0, 1), as `np.random.rand` draws them. */
  predicate UnitFactors(rand: seq<seq<real>>) {
    forall i, d :: 0 <= i < |rand| && 0 <= d < |rand[i]| ==> 0.0 <= rand[i][d] < 1.0
  }

  /**
   * `minvec + rand * spread`: centroid `i` takes, in dimension `d`, the column
   * minimum plus the factor `rand[i][d]` times the column's spread.
   */
  function InitialPositions(vs: seq<Point>, k: nat, rand: seq<seq<real>>): (r: seq<Point>)
    requires |vs| >= 1 && Dim(vs, |vs[0]|)
    requires |rand| == k && Dim(rand, |vs[0]|)
    ensures |r| == k && Dim(r, |vs[0]|)
  {
    var dim := |vs[0]|;
    seq(k, i requires 0 <= i < k =>
      seq(dim, d requires 0 <= d < dim =>
        BoxPoint(ColumnMin(vs, d), ColumnMax(vs, d), rand[i][d])))
  }

  /** `lo + f * (hi - lo)`: the point at fraction `f` of the way from `lo` to `hi`. */
  function BoxPoint(lo: real, hi: real, f: real): real {
    lo + f * (hi - lo)
  }

  /** A fraction in [0, 1) of the way from lo to hi stays in [lo, hi], and below hi when lo < hi. */
  lemma BoxPointInRange(lo: real, hi: real, f: real)
    requires lo <= hi && 0.0 <= f < 1.0
    ensures lo <= BoxPoint(lo, hi, f) <= hi
    ensures lo < hi ==> BoxPoint(lo, hi, f) < hi
  {
    var spread := hi - lo;
    ProductSign(f, spread);
    ProductSign(1.0 - f, spread);
    assert (1.0 - f) * spread == spread - f * spread;
  }

  /** A product of non-negative reals is non-negative, and positive when both factors are. */
  lemma ProductSign(a: real, b: real)
    requires a >= 0.0 && b >= 0.0
    ensures a * b >= 0.0
    ensures a > 0.0 && b > 0.0 ==> a * b > 0.0
  {
  }

  /**
   * With factors in [0, 1) every initial coordinate lies between the column's
   * minimum and maximum, and strictly below the maximum when the column is
   * not constant.
   */
  lemma InitialInBox(vs: seq<Point>, k: nat, rand: seq<seq<real>>, i: nat, d: nat)
    requires |vs| >= 1 && Dim(vs, |vs[0]|)
    requires |rand| == k && Dim(rand, |vs[0]|) && UnitFactors(rand)
    requires i < k && d < |vs[0]|
    ensures ColumnMin(vs, d) <= InitialPositions(vs, k, rand)[i][d] <= ColumnMax(vs, d)
    ensures ColumnMin(vs, d) < ColumnMax(vs, d) ==> InitialPositions(vs, k, rand)[i][d] < ColumnMax(vs, d)
  {
    var lo, hi, f := ColumnMin(vs, d), ColumnMax(vs, d), rand[i][d];
    assert 0.0 <= f < 1.0;
    assert lo <= vs[0][d] <= hi;
    assert InitialPositions(vs, k, rand)[i][d] == BoxPoint(lo, hi, f);
    BoxPointInRange(lo, hi, f);
  }

  // ---------------------------------------------------------------------------
  // Convergence loop

  /**
   * What `knn` needs to run without an exception once there are points: at
   * least one class, uniform points, and random factors or between one and k
   * caller-supplied positions of the points' dimensionality.
   */
  predicate KnnArguments(vectors: seq<Point>, k: nat, positions: Option<seq<Point>>, rand: seq<seq<real>>) {
    |vectors| >= 1 ==>
      k >= 1 && Dim(vectors, |vectors[0]|) &&
      match positions
      case None => |rand| == k && Dim(rand, |vectors[0]|)
      case Some(c) => 1 <= |c| <= k && Dim(c, |vectors[0]|)
  }

  /** The centroids the loop starts from: the caller's positions, or random ones inside the bounding box. */
  function Start(vectors: seq<Point>, k: nat, positions: Option<seq<Point>>, rand: seq<seq<real>>): (r: seq<Point>)
    requires KnnArguments(vectors, k, positions, rand) && |vectors| >= 1
    ensures Compatible(vectors, r) && |r| <= k
    ensures positions.None? ==> |r| == k
  {
    match positions
    case None => InitialPositions(vectors, k, rand)
    case Some(c) => c
  }

  /**
   * The convergence loop as a function: with no passes left, the positions
   * reached so far; otherwise one pass, which ends the loop with the new
   * positions when it moved nothing and leaves one pass fewer otherwise.
   */
  function Run(vectors: seq<Point>, cs: seq<Point>, fuel: nat): (r: KnnResult)
    requires Compatible(vectors, cs)
    decreases fuel
  {
    if fuel == 0 then OutOfFuel(cs)
    else if Step(vectors, cs) == cs then Converged(Step(vectors, cs))
    else Run(vectors, Step(vectors, cs), fuel - 1)
  }

  /** One pass of the loop from the positions the loop is at. */
  lemma RunUnfold(vectors: seq<Point>, cs: seq<Point>, fuel: nat)
    requires Compatible(vectors, cs) && fuel >= 1
    ensures Step(vectors, cs) == cs ==> Run(vectors, cs, fuel) == Converged(cs)
    ensures Step(vectors, cs) != cs ==> Run(vectors, cs, fuel) == Run(vectors, Step(vectors, cs), fuel - 1)
  {
  }

  /**
   * What the loop returns: as many centroids as it started with, of the
   * points' dimensionality, and a result marked converged only at a fixed
   * point of the pass.
   */
  lemma {:induction false} RunShape(vectors: seq<Point>, cs: seq<Point>, fuel: nat)
    requires Compatible(vectors, cs)
    ensures !Run(vectors, cs, fuel).NoVectors?
    ensures |Run(vectors, cs, fuel).centroids| == |cs| && Compatible(vectors, Run(vectors, cs, fuel).centroids)
    ensures Run(vectors, cs, fuel).Converged? ==> Step(vectors, Run(vectors, cs, fuel).centroids) == Run(vectors, cs, fuel).centroids
    decreases fuel
  {
    if fuel > 0 {
      var next := Step(vectors, cs);
      if next == cs {
        assert Run(vectors, cs, fuel) == Converged(cs);
      } else {
        RunShape(vectors, next, fuel - 1);
        assert Run(vectors, cs, fuel) == Run(vectors, next, fuel - 1);
      }
    }
  }

  /** Positions reached after `n` passes, the loop never stopping on its own. */
  function Steps(vectors: seq<Point>, cs: seq<Point>, n: nat): (r: seq<Point>)
    requires Compatible(vectors, cs)
    ensures |r| == |cs| && Compatible(vectors, r)
    decreases n
  {
    if n == 0 then cs else Steps(vectors, Step(vectors, cs), n - 1)
  }

  /** How many passes the loop makes from `cs` with `fuel` passes available, the one that moved nothing included. */
  function Passes(vectors: seq<Point>, cs: seq<Point>, fuel: nat): (n: nat)
    requires Compatible(vectors, cs)
    ensures n <= fuel
    decreases fuel
  {
    if fuel == 0 then 0
    else if Step(vectors, cs) == cs then 1
    else 1 + Passes(vectors, Step(vectors, cs), fuel - 1)
  }

  /**
   * The loop returns the positions after the passes it made: all `fuel` of
   * them when it runs out, and at least one when it converges.
   */
  lemma {:induction false} RunIsSteps(vectors: seq<Point>, cs: seq<Point>, fuel: nat)
    requires Compatible(vectors, cs)
    ensures !Run(vectors, cs, fuel).NoVectors? &&
            Run(vectors, cs, fuel).centroids == Steps(vectors, cs, Passes(vectors, cs, fuel))
    ensures Run(vectors, cs, fuel).OutOfFuel? ==> Passes(vectors, cs, fuel) == fuel
    ensures Run(vectors, cs, fuel).Converged? ==> Passes(vectors, cs, fuel) >= 1
    decreases fuel
  {
    if fuel == 0 {
      assert Run(vectors, cs, fuel) == OutOfFuel(cs);
      assert Passes(vectors, cs, fuel) == 0;
      assert Steps(vectors, cs, 0) == cs;
    } else {
      var next := Step(vectors, cs);
      if next == cs {
        assert Run(vectors, cs, fuel) == Converged(cs);
        assert Passes(vectors, cs, fuel) == 1;
        assert Steps(vectors, cs, 1) == Steps(vectors, next, 0) == cs;
      } else {
        assert Run(vectors, cs, fuel) == Run(vectors, next, fuel - 1);
        RunIsSteps(vectors, next, fuel - 1);
        var n := Passes(vectors, next, fuel - 1);
        assert Passes(vectors, cs, fuel) == n + 1;
        assert Steps(vectors, cs, n + 1) == Steps(vectors, next, n);
      }
    }
  }

  /** A centroid whose class is empty in each of `n` passes is where it started after them. */
  lemma {:induction false} StepsKeepEmpty(vectors: seq<Point>, cs: seq<Point>, n: nat, i: nat)
    requires Compatible(vectors, cs) && i < |cs|
    requires forall m: nat :: m < n ==> Members(vectors, Steps(vectors, cs, m), i) == []
    ensures Steps(vectors, cs, n)[i] == cs[i]
    decreases n
  {
    if n > 0 {
      var next := Step(vectors, cs);
      assert Steps(vectors, cs, 0) == cs;
      StepRule(vectors, cs, i);
      forall m: nat | m < n - 1
        ensures Members(vectors, Steps(vectors, next, m), i) == []
      {
        assert Steps(vectors, cs, m + 1) == Steps(vectors, next, m);
      }
      StepsKeepEmpty(vectors, next, n - 1, i);
    }
  }

  /**
   * A centroid that no point picks in any pass the loop makes comes back
   * exactly where it started.
   */
  lemma RunKeepsEmpty(vectors: seq<Point>, cs: seq<Point>, fuel: nat, i: nat)
    requires Compatible(vectors, cs) && i < |cs|
    requires forall m: nat :: m < Passes(vectors, cs, fuel) ==> Members(vectors, Steps(vectors, cs, m), i) == []
    ensures !Run(vectors, cs, fuel).NoVectors? && i < |Run(vectors, cs, fuel).centroids|
    ensures Run(vectors, cs, fuel).centroids[i] == cs[i]
  {
    RunIsSteps(vectors, cs, fuel);
    StepsKeepEmpty(vectors, cs, Passes(vectors, cs, fuel), i);
  }

  /**
   * Restarting the loop from what it converged to returns the same centroids
   * after a single pass.
   */
  lemma RestartConverged(vectors: seq<Point>, cs: seq<Point>, fuel: nat, again: nat)
    requires Compatible(vectors, cs) && Run(vectors, cs, fuel).Converged? && again >= 1
    ensures Compatible(vectors, Run(vectors, cs, fuel).centroids)
    ensures Run(vectors, Run(vectors, cs, fuel).centroids, again) == Run(vectors, cs, fuel)
  {
    RunShape(vectors, cs, fuel);
    RunUnfold(vectors, Run(vectors, cs, fuel).centroids, again);
  }

  /**
   * `knn`: `None` for no points; otherwise initialise and run the convergence
   * loop, whose `while True` is bounded here by `fuel` passes.
   */
  method Knn(vectors: seq<Point>, k: nat, positions: Option<seq<Point>>, rand: seq<seq<real>>, fuel: nat)
    returns (r: KnnResult)
    requires KnnArguments(vectors, k, positions, rand)
    ensures r.NoVectors? <==> |vectors| == 0
    ensures |vectors| >= 1 ==>
      |r.centroids| == |Start(vectors, k, positions, rand)| && Compatible(vectors, r.centroids)
    ensures |vectors| >= 1 && positions.None? ==> |r.centroids| == k && Dim(r.centroids, |vectors[0]|)
    ensures r.Converged? ==> Step(vectors, r.centroids) == r.centroids
    ensures |vectors| >= 1 && fuel == 0 ==> r == OutOfFuel(Start(vectors, k, positions, rand))
    ensures |vectors| >= 1 && positions.Some? && fuel >= 1 && Step(vectors, positions.value) == positions.value
            ==> r == Converged(positions.value)
    ensures |vectors| >= 1 ==> r == Run(vectors, Start(vectors, k, positions, rand), fuel)
  {
    if |vectors| == 0 {
      return NoVectors;
    }
    var start := Start(vectors, k, positions, rand);
    r := Iterate(vectors, start, k, fuel);
    RunShape(vectors, start, fuel);
    if fuel >= 1 {
      RunUnfold(vectors, start, fuel);
    }
  }

  /**
   * The `while True` loop of `knn`: snapshot the positions, assign, update in
   * place, and return once a pass moved nothing: what `Run` describes.
   */
  method Iterate(vectors: seq<Point>, start: seq<Point>, k: nat, fuel: nat) returns (r: KnnResult)
    requires Compatible(vectors, start) && |start| <= k
    ensures r == Run(vectors, start, fuel)
  {
    var positions := new Point[|start|](i requires 0 <= i < |start| => start[i]);
    ghost var current := start;
    assert positions[..] == current;
    var remaining := fuel;
    while remaining > 0
      invariant positions.Length == |start| && positions[..] == current
      invariant Compatible(vectors, current)
      invariant Run(vectors, start, fuel) == Run(vectors, current, remaining)
      decreases remaining
    {
      var previous := positions[..];
      Pass(vectors, positions, k);
      RunUnfold(vectors, previous, remaining);
      current := positions[..];
      if positions[..] == previous {
        return Converged(positions[..]);
      }
      remaining := remaining - 1;
    }
    return OutOfFuel(positions[..]);
  }

  /** One pass of the loop body: assign every point, then update every centroid in place. */
  method Pass(vectors: seq<Point>, positions: array<Point>, k: nat)
    requires Compatible(vectors, positions[..]) && positions.Length <= k
    modifies positions
    ensures positions[..] == Step(vectors, old(positions[..]))
  {
    var previous := positions[..];
    var classes := AssignClasses(vectors, previous, k);
    ClassesShape(vectors, previous, k);
    UpdateCentroids(positions, classes);
    StepFromClasses(vectors, previous, k);
  }

  /** The update from the k classes of a pass is the pass's Step. */
  lemma StepFromClasses(vs: seq<Point>, cs: seq<Point>, k: nat)
    requires Compatible(vs, cs) && |cs| <= k
    ensures |cs| <= |Classes(vs, cs, k)|
    ensures (forall i :: 0 <= i < |cs| ==> Dim(Classes(vs, cs, k)[i], |cs[i]|)) &&
            Updated(cs, Classes(vs, cs, k)) == Step(vs, cs)
  {
    ClassesShape(vs, cs, k);
    var u := Updated(cs, Classes(vs, cs, k));
    forall i | 0 <= i < |cs|
      ensures u[i] == Step(vs, cs)[i]
    {
      StepPrefixAt(vs, cs, |cs|, i);
    }
  }

  /**
   * A single point (5, 5) with k = 1: whatever the random factors, the
   * initial centroid is (5, 5), and one pass leaves it there.
   */
  lemma SinglePointIsFixed(rand: seq<seq<real>>)
    requires |rand| == 1 && Dim(rand, 2)
    ensures InitialPositions([[5.0, 5.0]], 1, rand) == [[5.0, 5.0]]
    ensures Step([[5.0, 5.0]], [[5.0, 5.0]]) == [[5.0, 5.0]]
  {
    var p: Point := [5.0, 5.0];
    var vs: seq<Point> := [p];
    var start := InitialPositions(vs, 1, rand);
    assert ColumnMin(vs, 0) == ColumnMax(vs, 0) == 5.0;
    assert ColumnMin(vs, 1) == ColumnMax(vs, 1) == 5.0;
    assert start[0][0] == BoxPoint(5.0, 5.0, rand[0][0]) == 5.0;
    assert start[0][1] == BoxPoint(5.0, 5.0, rand[0][1]) == 5.0;
    assert |start[0]| == 2 && start[0] == p;
    OnePointIsFixed(p);
  }

  /** One point with its own position as the only centroid: a pass leaves the centroid there. */
  lemma OnePointIsFixed(p: Point)
    ensures Compatible([p], [p]) && Step([p], [p]) == [p]
  {
    var vs := [p];
    assert vs[..0] == [];
    assert Members(vs, vs, 0) == vs;
    StepRule(vs, vs, 0);
    MeanOfOne(p);
  }

  /**
   * The same example through the whole loop: with random initial positions
   * and at least one pass allowed, `knn` converges on (5, 5).
   */
  lemma SinglePointConverges(rand: seq<seq<real>>, fuel: nat)
    requires |rand| == 1 && Dim(rand, 2) && fuel >= 1
    ensures KnnArguments([[5.0, 5.0]], 1, None, rand)
    ensures Run([[5.0, 5.0]], Start([[5.0, 5.0]], 1, None, rand), fuel) == Converged([[5.0, 5.0]])
  {
    SinglePointIsFixed(rand);
    RunUnfold([[5.0, 5.0]], [[5.0, 5.0]], fuel);
  }
}
