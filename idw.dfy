/**
 * Inverse distance weighting in N dimensions over a table of points:
 * the value of the first point exactly at the target, otherwise the
 * weighted mean of the k nearest points with weights 1/d^p divided by
 * their total.
 */
module Idw {
  import opened Lookup
  import opened Pipeline
  import opened Numeric

  /** One table row: its argument columns, in order, and the interpolated column. */
  datatype Point = Point(args: seq<real>, value: real)

  /** Every point has `argCount` arguments. */
  predicate Shaped(points: seq<Point>, argCount: nat) {
    forall i :: 0 <= i < |points| ==> |points[i].args| == argCount
  }

  /**
   * The weight of a point as a function of its squared distance: 1/d^p,
   * i.e. `s ↦ 1 / sqrt(s)^p`. Defined and positive at every positive
   * squared distance.
   */
  ghost predicate PositiveLaw(law: real --> real) {
    forall s :: s > 0.0 ==> law.requires(s) && law(s) > 0.0
  }

  /** The law of the default exponent 2.0: 1/d^2 is 1/s. */
  function InverseSquare(): (law: real --> real)
    ensures PositiveLaw(law)
    ensures forall s :: s > 0.0 ==> law.requires(s) && law(s) * s == 1.0
  {
    (s: real) requires s > 0.0 => 1.0 / s
  }

  function Values(points: seq<Point>): (vs: seq<real>)
    ensures |vs| == |points|
    ensures forall i :: 0 <= i < |points| ==> vs[i] == points[i].value
  {
    seq(|points|, i requires 0 <= i < |points| => points[i].value)
  }

  /** Squared distances from every point to the target. */
  function Distances(points: seq<Point>, target: seq<real>): (d: seq<real>)
    requires Shaped(points, |target|)
    ensures |d| == |points| && NonNegative(d)
    ensures forall i :: 0 <= i < |points| ==> (d[i] == 0.0 <==> points[i].args == target)
  {
    var d := seq(|points|, i requires 0 <= i < |points| => SqDist(points[i].args, target));
    assert forall i :: 0 <= i < |points| ==> (d[i] == 0.0 <==> points[i].args == target) by {
      forall i | 0 <= i < |points| ensures d[i] == 0.0 <==> points[i].args == target {
        SqDistZero(points[i].args, target);
      }
    }
    d
  }

  // ---------------------------------------------------------------------
  // The k nearest points

  /** Every entry of `s` is an index below `n`. */
  predicate Indices(s: seq<nat>, n: nat) {
    forall i :: 0 <= i < |s| ==> s[i] < n
  }

  ghost predicate Distinct(s: seq<nat>) {
    forall i, j :: 0 <= i < j < |s| ==> s[i] != s[j]
  }

  /** Position in `rest` of the closest candidate, the earliest among ties. */
  function ClosestPosition(d: seq<real>, rest: seq<nat>): (j: nat)
    requires |rest| > 0 && Indices(rest, |d|)
    ensures j < |rest|
    ensures forall i :: 0 <= i < |rest| ==> d[rest[j]] <= d[rest[i]]
    ensures forall i :: 0 <= i < j ==> d[rest[j]] < d[rest[i]]
  {
    if |rest| == 1 then 0
    else
      var j := ClosestPosition(d, rest[1..]);
      if d[rest[0]] <= d[rest[1..][j]] then 0 else j + 1
  }

  /** `s` with its `j`-th entry removed. */
  function Without(s: seq<nat>, j: nat): (r: seq<nat>)
    requires j < |s|
    ensures |r| == |s| - 1
    ensures forall x :: x in r ==> x in s
    ensures forall x :: x in s && x != s[j] ==> x in r
  {
    assert s == s[..j] + [s[j]] + s[j + 1..];
    s[..j] + s[j + 1..]
  }

  /**
   * `k` candidates taken closest first: each taken candidate is no
   * farther than any candidate left behind.
   */
  function Select(d: seq<real>, rest: seq<nat>, k: nat): (chosen: seq<nat>)
    requires k <= |rest| && Indices(rest, |d|)
    ensures |chosen| == k && Indices(chosen, |d|)
    ensures forall c :: c in chosen ==> c in rest
    ensures forall c, u :: c in chosen && u in rest && u !in chosen ==> d[c] <= d[u]
    decreases k
  {
    if k == 0 then []
    else
      var j := ClosestPosition(d, rest);
      var sub := Select(d, Without(rest, j), k - 1);
      TakeClosest(d, rest, j, sub);
      [rest[j]] + sub
  }

  /** Putting the closest candidate in front of a selection from the others keeps the selection closest. */
  lemma TakeClosest(d: seq<real>, rest: seq<nat>, j: nat, sub: seq<nat>)
    requires j < |rest| && Indices(rest, |d|) && Indices(sub, |d|)
    requires forall i :: 0 <= i < |rest| ==> d[rest[j]] <= d[rest[i]]
    requires forall c :: c in sub ==> c in Without(rest, j)
    requires forall c, u :: c in sub && u in Without(rest, j) && u !in sub ==> d[c] <= d[u]
    ensures Indices([rest[j]] + sub, |d|)
    ensures forall c :: c in [rest[j]] + sub ==> c in rest
    ensures forall c, u :: c in [rest[j]] + sub && u in rest && u !in [rest[j]] + sub ==> d[c] <= d[u]
  {
    var chosen := [rest[j]] + sub;
    forall c, u | c in chosen && u in rest && u !in chosen ensures d[c] <= d[u] {
      assert u in Without(rest, j);
      if c != rest[j] {
        assert c in sub;
      }
    }
  }

  lemma WithoutDistinct(s: seq<nat>, j: nat)
    requires j < |s| && Distinct(s)
    ensures Distinct(Without(s, j)) && s[j] !in Without(s, j)
  {
    var r := Without(s, j);
    forall a, b | 0 <= a < b < |r| ensures r[a] != r[b] {
      var a', b' := if a < j then a else a + 1, if b < j then b else b + 1;
      assert r[a] == s[a'] && r[b] == s[b'];
    }
    forall a | 0 <= a < |r| ensures r[a] != s[j] {
      assert r[a] == s[if a < j then a else a + 1];
    }
  }

  lemma {:induction false} SelectDistinct(d: seq<real>, rest: seq<nat>, k: nat)
    requires k <= |rest| && Indices(rest, |d|) && Distinct(rest)
    ensures Distinct(Select(d, rest, k))
    decreases k
  {
    if k > 0 {
      var j := ClosestPosition(d, rest);
      WithoutDistinct(rest, j);
      SelectDistinct(d, Without(rest, j), k - 1);
      var sub := Select(d, Without(rest, j), k - 1);
      assert rest[j] !in sub;
      ConsDistinct(rest[j], sub);
    }
  }

  lemma ConsDistinct(x: nat, s: seq<nat>)
    requires Distinct(s) && x !in s
    ensures Distinct([x] + s)
  {
    var t := [x] + s;
    forall a, b | 0 <= a < b < |t| ensures t[a] != t[b] {
      assert t[b] == s[b - 1];
      if a > 0 {
        assert t[a] == s[a - 1];
      }
    }
  }

  /** `[0, 1, …, n - 1]` */
  function Range(n: nat): (r: seq<nat>)
    ensures |r| == n && Indices(r, n) && Distinct(r)
    ensures forall i :: 0 <= i < n ==> i in r
  {
    var r := seq(n, i requires 0 <= i < n => i);
    forall i | 0 <= i < n ensures i in r {
      assert r[i] == i;
    }
    r
  }

  /**
   * `np.argpartition(d, k - 1)[:k]`: `k` distinct indices whose distances
   * are no larger than that of any index left out.
   */
  function Nearest(d: seq<real>, k: nat): (idx: seq<nat>)
    requires k <= |d|
    ensures |idx| == k && Indices(idx, |d|) && Distinct(idx)
    ensures forall c, u :: c in idx && 0 <= u < |d| && u !in idx ==> d[c] <= d[u]
  {
    var r := Range(|d|);
    SelectDistinct(d, r, k);
    Select(d, r, k)
  }

  /** The entries of `vs` at the positions `idx`, in that order. */
  function Pick(vs: seq<real>, idx: seq<nat>): (r: seq<real>)
    requires Indices(idx, |vs|)
    ensures |r| == |idx|
    ensures forall i :: 0 <= i < |idx| ==> r[i] == vs[idx[i]]
  {
    seq(|idx|, i requires 0 <= i < |idx| => vs[idx[i]])
  }

  /** `1.0 / (dsel ** power)` */
  function Weights(ds: seq<real>, law: real --> real): (w: seq<real>)
    requires PositiveLaw(law) && Positive(ds)
    ensures |w| == |ds| && Positive(w) && NonNegative(w)
    ensures forall i :: 0 <= i < |ds| ==> w[i] == law(ds[i])
  {
    seq(|ds|, i requires 0 <= i < |ds| => law(ds[i]))
  }

  // ---------------------------------------------------------------------
  // Interpolation

  /** `min(k, n)` */
  function Neighbours(k: nat, n: nat): (m: nat)
    ensures m <= k && m <= n && (m == k || m == n)
  {
    if k < n then k else n
  }

  /** Indices of the `min(k, n)` points nearest to the target. */
  function Selected(points: seq<Point>, target: seq<real>, k: nat): (idx: seq<nat>)
    requires Shaped(points, |target|)
    ensures |idx| == Neighbours(k, |points|) && Indices(idx, |points|) && Distinct(idx)
    ensures forall c, u :: c in idx && 0 <= u < |points| && u !in idx ==>
      SqDist(points[c].args, target) <= SqDist(points[u].args, target)
  {
    var d := Distances(points, target);
    Nearest(d, Neighbours(k, |d|))
  }

  /**
   * `1.0 / (dsel ** power)` for the selected points: the law at each one's
   * squared distance to the target, in selection order.
   */
  function SelectedWeights(points: seq<Point>, target: seq<real>, k: nat, law: real --> real): (w: seq<real>)
    requires Shaped(points, |target|) && PositiveLaw(law)
    requires forall i :: 0 <= i < |points| ==> points[i].args != target
    ensures |w| == |Selected(points, target, k)| && Positive(w)
    ensures |w| > 0 ==> Sum(w) > 0.0
    ensures forall i :: 0 <= i < |w| ==>
      Distances(points, target)[Selected(points, target, k)[i]] > 0.0 &&
      w[i] == law(Distances(points, target)[Selected(points, target, k)[i]])
  {
    var idx := Selected(points, target, k);
    SelectedDistancesPositive(points, target, idx);
    var w := Weights(Pick(Distances(points, target), idx), law);
    SumSign(w);
    w
  }

  /** `weights /= weights.sum()` for the selected points. */
  function NormalisedWeights(points: seq<Point>, target: seq<real>, k: nat, law: real --> real): (w: seq<real>)
    requires Shaped(points, |target|) && PositiveLaw(law)
    requires forall i :: 0 <= i < |points| ==> points[i].args != target
    ensures |w| == |Selected(points, target, k)|
    ensures Proportional(w, SelectedWeights(points, target, k, law))
  {
    var raw := SelectedWeights(points, target, k, law);
    if |raw| > 0 then ScaleProportional(raw); Scale(raw, Sum(raw))
    else []
  }

  /**
   * The weighted branch, reached when no point is at the target: the
   * normalised weights of the nearest points against their values.
   */
  function Weighted(points: seq<Point>, target: seq<real>, k: nat, law: real --> real): real
    requires Shaped(points, |target|) && PositiveLaw(law)
    requires forall i :: 0 <= i < |points| ==> points[i].args != target
  {
    Dot(NormalisedWeights(points, target, k, law), Pick(Values(points), Selected(points, target, k)))
  }

  /**
   * `idw_interpolate_nd`. The argument names and the target must have the
   * same length; a point at distance zero answers with its value (the first
   * such point in table order); an empty table averages no values, which is
   * not a number; otherwise the weighted mean of the nearest points.
   */
  function Interpolate(points: seq<Point>, argCount: nat, target: seq<real>, k: nat, law: real --> real): (r: Outcome<real>)
    requires Shaped(points, argCount) && PositiveLaw(law)
    ensures r.Done? || r == Failed(Uncaught) || r == NonFinite
    ensures r == Failed(Uncaught) <==> argCount != |target|
    ensures r == NonFinite <==> argCount == |target| && |points| == 0
    ensures argCount == |target| ==>
      forall i :: 0 <= i < |points| && points[i].args == target && (forall j :: 0 <= j < i ==> points[j].args != target) ==>
        r == Done(points[i].value)
    ensures argCount == |target| && |points| > 0 && (forall i :: 0 <= i < |points| ==> points[i].args != target) ==>
      r == Done(Weighted(points, target, k, law))
  {
    if argCount != |target| then Failed(Uncaught)
    else
      var d := Distances(points, target);
      match First(d, (x: real) => x == 0.0)
      case Some(i) => Done(points[i].value)
      case None =>
        if |points| == 0 then NonFinite  // the mean of no values
        else Done(Weighted(points, target, k, law))
  }

  // ---------------------------------------------------------------------
  // Properties

  /** No selected point is at the target, so the 1e-12 guard never changes a distance. */
  lemma SelectedDistancesPositive(points: seq<Point>, target: seq<real>, idx: seq<nat>)
    requires Shaped(points, |target|)
    requires forall i :: 0 <= i < |points| ==> points[i].args != target
    requires Indices(idx, |points|)
    ensures Positive(Pick(Distances(points, target), idx))
  {
    var d := Distances(points, target);
    var ds := Pick(d, idx);
    forall i | 0 <= i < |idx| ensures ds[i] > 0.0 {
      assert idx[i] in idx;
      assert points[idx[i]].args != target;
    }
  }

  /** The weights actually used are non-negative and add up to one whenever some neighbour is used. */
  lemma WeightsNormalised(points: seq<Point>, target: seq<real>, k: nat, law: real --> real)
    requires Shaped(points, |target|) && PositiveLaw(law) && k > 0 && |points| > 0
    requires forall i :: 0 <= i < |points| ==> points[i].args != target
    ensures Sum(NormalisedWeights(points, target, k, law)) == 1.0
    ensures Positive(NormalisedWeights(points, target, k, law))
  {
    var raw := SelectedWeights(points, target, k, law);
    Normalised(raw);
    ScalePositive(raw, Sum(raw));
  }

  /**
   * The weighted branch is a convex combination of the selected values:
   * it lies between the smallest and the largest of them.
   */
  lemma WeightedBetween(points: seq<Point>, target: seq<real>, k: nat, law: real --> real)
    requires Shaped(points, |target|) && PositiveLaw(law) && k > 0 && |points| > 0
    requires forall i :: 0 <= i < |points| ==> points[i].args != target
    ensures var vs := Pick(Values(points), Selected(points, target, k));
            |vs| > 0 && Min(vs) <= Weighted(points, target, k, law) <= Max(vs)
  {
    var w := NormalisedWeights(points, target, k, law);
    WeightsNormalised(points, target, k, law);
    var vs := Pick(Values(points), Selected(points, target, k));
    assert forall i :: 0 <= i < |vs| ==> Min(vs) <= vs[i] <= Max(vs) by {
      forall i | 0 <= i < |vs| ensures Min(vs) <= vs[i] <= Max(vs) {
        assert vs[i] in vs;
      }
    }
    ConvexBounds(w, vs, Min(vs), Max(vs));
  }

  /**
   * With at least one neighbour, the interpolated value of a non-empty
   * table never leaves the range of its values.
   */
  lemma InterpolateWithinRange(points: seq<Point>, target: seq<real>, k: nat, law: real --> real)
    requires Shaped(points, |target|) && PositiveLaw(law) && k > 0 && |points| > 0
    ensures var r := Interpolate(points, |target|, target, k, law);
            r.Done? && Min(Values(points)) <= r.out <= Max(Values(points))
  {
    var all := Values(points);
    if i :| 0 <= i < |points| && points[i].args == target {
      HitIsTabulated(points, target, k, law, i);
    } else {
      WeightedBetween(points, target, k, law);
      PickWithin(all, Selected(points, target, k));
    }
  }

  /** A point at the target makes the answer one of the tabulated values. */
  lemma HitIsTabulated(points: seq<Point>, target: seq<real>, k: nat, law: real --> real, i: nat)
    requires Shaped(points, |target|) && PositiveLaw(law)
    requires i < |points| && points[i].args == target
    ensures var r := Interpolate(points, |target|, target, k, law);
            r.Done? && r.out in Values(points)
  {
    var d := Distances(points, target);
    var p := (x: real) => x == 0.0;
    assert p(d[i]);
    var h := First(d, p).value;
    assert Values(points)[h] in Values(points);
  }

  /** Values picked from `all` lie within the range of `all`. */
  lemma PickWithin(all: seq<real>, idx: seq<nat>)
    requires Indices(idx, |all|) && |idx| > 0 && |all| > 0
    ensures Min(all) <= Min(Pick(all, idx)) && Max(Pick(all, idx)) <= Max(all)
  {
    var vs := Pick(all, idx);
    assert Min(vs) in vs && Max(vs) in vs;
    forall x | x in vs ensures x in all {
      var i :| 0 <= i < |vs| && vs[i] == x;
      assert all[idx[i]] in all;
    }
  }

  /** A table whose values are all `c` interpolates to `c` everywhere. */
  lemma InterpolateConstant(points: seq<Point>, target: seq<real>, k: nat, law: real --> real, c: real)
    requires Shaped(points, |target|) && PositiveLaw(law) && k > 0 && |points| > 0
    requires forall i :: 0 <= i < |points| ==> points[i].value == c
    ensures Interpolate(points, |target|, target, k, law) == Done(c)
  {
    var r := Interpolate(points, |target|, target, k, law);
    InterpolateWithinRange(points, target, k, law);
    ConstantRange(Values(points), c);
    assert r.out == c;
  }

  lemma ConstantRange(all: seq<real>, c: real)
    requires |all| > 0 && forall i :: 0 <= i < |all| ==> all[i] == c
    ensures Min(all) == c && Max(all) == c
  {
  }

  /** With no neighbour to weigh (k = 0) away from every point, the empty dot product gives 0. */
  lemma NoNeighbours(points: seq<Point>, target: seq<real>, law: real --> real)
    requires Shaped(points, |target|) && PositiveLaw(law) && |points| > 0
    requires forall i :: 0 <= i < |points| ==> points[i].args != target
    ensures Interpolate(points, |target|, target, 0, law) == Done(0.0)
  {
    var d := Distances(points, target);
    assert First(d, (x: real) => x == 0.0).None?;
  }

  /** With `k` at least the table size, every point takes part. */
  lemma AllPointsTakePart(points: seq<Point>, target: seq<real>, k: nat)
    requires Shaped(points, |target|) && k >= |points|
    ensures forall i :: 0 <= i < |points| ==> i in Selected(points, target, k)
  {
    var d := Distances(points, target);
    SelectAll(d, Range(|d|));
  }

  /** Taking as many candidates as there are takes every one of them. */
  lemma {:induction false} SelectAll(d: seq<real>, rest: seq<nat>)
    requires Indices(rest, |d|)
    ensures forall x :: x in rest ==> x in Select(d, rest, |rest|)
    decreases |rest|
  {
    if |rest| > 0 {
      var j := ClosestPosition(d, rest);
      var sub := Select(d, Without(rest, j), |rest| - 1);
      SelectAll(d, Without(rest, j));
      HeadCovers(rest, j, sub);
    }
  }

  lemma HeadCovers(rest: seq<nat>, j: nat, sub: seq<nat>)
    requires j < |rest| && forall x :: x in Without(rest, j) ==> x in sub
    ensures forall x :: x in rest ==> x in [rest[j]] + sub
  {
    forall x | x in rest ensures x in [rest[j]] + sub {
      if x != rest[j] {
        assert x in sub;
      }
    }
  }
}
