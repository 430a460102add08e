/**
 * The interpolator objects behind the details view: one-hot or normalised
 * inverse distance weights over scattered 1D or 2D data, the interpolators
 * built on them with their plotting grids, and the registry of preloaded
 * interpolators (only A13C has one).
 */
module Manager {
  import opened Wrappers
  import opened Lookup
  import opened Pipeline
  import opened Numeric
  import opened Idw

  // ---------------------------------------------------------------------
  // Weights

  /** Some data point sits exactly at the query. */
  predicate Hit(points: seq<Point>, q: seq<real>) {
    exists i :: 0 <= i < |points| && points[i].args == q
  }

  /** 1.0 at every point sitting at the query, 0.0 elsewhere. */
  function Indicator(points: seq<Point>, q: seq<real>): (w: seq<real>)
    ensures |w| == |points| && NonNegative(w)
    ensures forall i :: 0 <= i < |points| ==> w[i] == (if points[i].args == q then 1.0 else 0.0)
  {
    seq(|points|, i requires 0 <= i < |points| => if points[i].args == q then 1.0 else 0.0)
  }

  /** `1.0 / (dist ** power)` away from every data point. */
  function RawWeights(points: seq<Point>, q: seq<real>, law: real --> real): (w: seq<real>)
    requires Shaped(points, |q|) && PositiveLaw(law) && !Hit(points, q)
    ensures |w| == |points| && Positive(w) && NonNegative(w)
    ensures |points| > 0 ==> Sum(w) > 0.0
    ensures forall i :: 0 <= i < |points| ==>
      Distances(points, q)[i] > 0.0 && w[i] == law(Distances(points, q)[i])
  {
    var d := Distances(points, q);
    assert Positive(d) by {
      forall i | 0 <= i < |d| ensures d[i] > 0.0 {
        assert points[i].args != q;
      }
    }
    var w := Weights(d, law);
    SumSign(w);
    w
  }

  /** `np.any(d == 0)` */
  function AnyZero(d: seq<real>): (r: bool)
    ensures r <==> exists i :: 0 <= i < |d| && d[i] == 0.0
  {
    if |d| == 0 then false else d[0] == 0.0 || AnyZero(d[1..])
  }

  /**
   * `_idw_weights_1d` and `_idw_weights_2d`: one-hot, not renormalised,
   * when the query sits on data; otherwise spread over all the data.
   */
  function HelperWeights(points: seq<Point>, q: seq<real>, law: real --> real): (w: seq<real>)
    requires Shaped(points, |q|) && PositiveLaw(law)
    ensures |w| == |points|
    ensures Hit(points, q) ==> w == Indicator(points, q)
    ensures !Hit(points, q) ==> w == Spread(RawWeights(points, q, law))
  {
    var d := Distances(points, q);
    if AnyZero(d) then
      Indicator(points, q)
    else
      assert !Hit(points, q) by {
        forall i | 0 <= i < |points| ensures points[i].args != q {
          assert d[i] != 0.0;
        }
      }
      Spread(RawWeights(points, q, law))
  }

  /**
   * Off the data: the raw weights divided by their total, or uniform
   * weights when that total is zero. Either way they are non-negative and
   * add up to one.
   */
  function Spread(raw: seq<real>): (w: seq<real>)
    requires Positive(raw)
    ensures |w| == |raw| && NonNegative(w)
    ensures |raw| > 0 ==> Sum(w) == 1.0 && Proportional(w, raw)
  {
    SumSign(raw);
    if Sum(raw) == 0.0 then
      Uniform(|raw|)
    else
      NormalisedPositive(raw);
      Scale(raw, Sum(raw))
  }

  /** The uniform fallback is taken only for an empty data set: positive weights never add up to zero. */
  lemma UniformOnlyWhenEmpty(raw: seq<real>)
    requires Positive(raw) && Sum(raw) == 0.0
    ensures |raw| == 0 && Spread(raw) == []
  {
    SumSign(raw);
  }

  /** `float(np.sum(w * c))` over the data points. */
  function Estimate(points: seq<Point>, q: seq<real>, law: real --> real): real
    requires Shaped(points, |q|) && PositiveLaw(law)
  {
    Dot(HelperWeights(points, q, law), Values(points))
  }

  /** The total of the values of the points sitting at the query. */
  function HitTotal(points: seq<Point>, q: seq<real>): real
  {
    if |points| == 0 then 0.0
    else (if points[0].args == q then points[0].value else 0.0) + HitTotal(points[1..], q)
  }

  lemma {:induction false} IndicatorDot(points: seq<Point>, q: seq<real>)
    ensures Dot(Indicator(points, q), Values(points)) == HitTotal(points, q)
  {
    if |points| > 0 {
      IndicatorDot(points[1..], q);
      assert Indicator(points, q)[1..] == Indicator(points[1..], q);
      assert Values(points)[1..] == Values(points[1..]);
    }
  }

  /**
   * On data, the estimate is the total of the values there: the one-hot
   * weights are not renormalised, so duplicated points add up.
   */
  lemma EstimateAtHits(points: seq<Point>, q: seq<real>, law: real --> real)
    requires Shaped(points, |q|) && PositiveLaw(law) && Hit(points, q)
    ensures Estimate(points, q, law) == HitTotal(points, q)
  {
    IndicatorDot(points, q);
  }

  /** A single point at the query contributes its value alone. */
  lemma {:induction false} HitTotalSingle(points: seq<Point>, q: seq<real>, i: nat)
    requires i < |points| && points[i].args == q
    requires forall j :: 0 <= j < |points| && j != i ==> points[j].args != q
    ensures HitTotal(points, q) == points[i].value
  {
    if i > 0 {
      HitTotalSingle(points[1..], q, i - 1);
    } else {
      HitTotalNone(points[1..], q);
    }
  }

  lemma {:induction false} HitTotalNone(points: seq<Point>, q: seq<real>)
    requires forall j :: 0 <= j < |points| ==> points[j].args != q
    ensures HitTotal(points, q) == 0.0
  {
    if |points| > 0 {
      HitTotalNone(points[1..], q);
    }
  }

  /** Away from the data, the estimate is a convex combination of the values. */
  lemma EstimateBetween(points: seq<Point>, q: seq<real>, law: real --> real)
    requires Shaped(points, |q|) && PositiveLaw(law) && !Hit(points, q) && |points| > 0
    ensures Min(Values(points)) <= Estimate(points, q, law) <= Max(Values(points))
  {
    var vs := Values(points);
    forall i | 0 <= i < |vs| ensures Min(vs) <= vs[i] <= Max(vs) {
      assert vs[i] in vs;
    }
    ConvexBounds(HelperWeights(points, q, law), vs, Min(vs), Max(vs));
  }

  // ---------------------------------------------------------------------
  // Interpolators

  /** Data of a 1D interpolator as points with one argument. */
  function Line(x: seq<real>, c: seq<real>): (points: seq<Point>)
    requires |x| == |c|
    ensures |points| == |x| && Shaped(points, 1) && Values(points) == c
    ensures forall i :: 0 <= i < |x| ==> points[i].args == [x[i]]
  {
    var points := seq(|x|, i requires 0 <= i < |x| => Point([x[i]], c[i]));
    assert Values(points) == c;
    points
  }

  /** Data of a 2D interpolator as points with two arguments. */
  function Plane(x: seq<real>, y: seq<real>, c: seq<real>): (points: seq<Point>)
    requires |x| == |y| == |c|
    ensures |points| == |x| && Shaped(points, 2) && Values(points) == c
    ensures forall i :: 0 <= i < |x| ==> points[i].args == [x[i], y[i]]
  {
    var points := seq(|x|, i requires 0 <= i < |x| => Point([x[i], y[i]], c[i]));
    assert Values(points) == c;
    points
  }

  /** `Interpolator1D`: inputs `x`, outputs `c`, the weight law of its power. */
  datatype Interpolator1D = Interpolator1D(x: seq<real>, c: seq<real>, law: real --> real)
  {
    ghost predicate Valid() {
      |x| == |c| && PositiveLaw(law)
    }

    /** `__call__`: Σ w·c with the 1D helper's weights. */
    function Eval(xq: real): real
      requires Valid()
    {
      Estimate(Line(x, c), [xq], law)
    }

    /**
     * `grid`: `numPoints` queries evenly spaced from the smallest to the
     * largest input, and the interpolated value at each; `min` of no
     * inputs raises.
     */
    function Grid(numPoints: nat): (r: Outcome<(seq<real>, seq<real>)>)
      requires Valid()
      ensures r.Done? || r == Failed(Uncaught)
      ensures r.Failed? <==> |x| == 0
      ensures r.Done? ==> r.out.0 == Linspace(Min(x), Max(x), numPoints)
      ensures r.Done? ==>
        |r.out.0| == numPoints && |r.out.1| == numPoints &&
        (forall i :: 0 <= i < numPoints ==> Min(x) <= r.out.0[i] <= Max(x) && r.out.1[i] == Eval(r.out.0[i])) &&
        (numPoints >= 2 ==> r.out.0[0] == Min(x) && r.out.0[numPoints - 1] == Max(x))
    {
      if |x| == 0 then Failed(Uncaught)
      else
        var xs := Linspace(Min(x), Max(x), numPoints);
        LinspaceRange(Min(x), Max(x), numPoints);
        Done((xs, seq(numPoints, i requires 0 <= i < numPoints => Eval(xs[i]))))
    }
  }

  /** At a tabulated input that occurs once, the 1D interpolator returns its output. */
  lemma Eval1DAtSample(it: Interpolator1D, i: nat)
    requires it.Valid() && i < |it.x|
    requires forall j :: 0 <= j < |it.x| && j != i ==> it.x[j] != it.x[i]
    ensures it.Eval(it.x[i]) == it.c[i]
  {
    var points := Line(it.x, it.c);
    assert Hit(points, [it.x[i]]);
    EstimateAtHits(points, [it.x[i]], it.law);
    forall j | 0 <= j < |points| && j != i ensures points[j].args != [it.x[i]] {
      assert points[j].args[0] == it.x[j];
    }
    HitTotalSingle(points, [it.x[i]], i);
  }

  /** Off the tabulated inputs, the 1D interpolator stays within the range of the outputs. */
  lemma Eval1DBetween(it: Interpolator1D, xq: real)
    requires it.Valid() && |it.x| > 0 && xq !in it.x
    ensures Min(it.c) <= it.Eval(xq) <= Max(it.c)
  {
    var points := Line(it.x, it.c);
    forall i | 0 <= i < |points| ensures points[i].args != [xq] {
      assert points[i].args[0] == it.x[i];
    }
    EstimateBetween(points, [xq], it.law);
  }

  /** `Interpolator2D`: inputs `x` and `y`, outputs `c`, the weight law of its power. */
  datatype Interpolator2D = Interpolator2D(x: seq<real>, y: seq<real>, c: seq<real>, law: real --> real)
  {
    ghost predicate Valid() {
      |x| == |y| == |c| && PositiveLaw(law)
    }

    /** `__call__`: Σ w·c with the 2D helper's weights. */
    function Eval(xq: real, yq: real): real
      requires Valid()
    {
      Estimate(Plane(x, y, c), [xq, yq], law)
    }
  }

  /** At a tabulated input pair that occurs once, the 2D interpolator returns its output. */
  lemma Eval2DAtSample(it: Interpolator2D, i: nat)
    requires it.Valid() && i < |it.x|
    requires forall j :: 0 <= j < |it.x| && j != i ==> it.x[j] != it.x[i] || it.y[j] != it.y[i]
    ensures it.Eval(it.x[i], it.y[i]) == it.c[i]
  {
    var points := Plane(it.x, it.y, it.c);
    var q := [it.x[i], it.y[i]];
    assert Hit(points, q);
    EstimateAtHits(points, q, it.law);
    forall j | 0 <= j < |points| && j != i ensures points[j].args != q {
      assert points[j].args[0] == it.x[j] && points[j].args[1] == it.y[j];
    }
    HitTotalSingle(points, q, i);
  }

  /** Off the tabulated input pairs, the 2D interpolator stays within the range of the outputs. */
  lemma Eval2DBetween(it: Interpolator2D, xq: real, yq: real)
    requires it.Valid() && |it.x| > 0
    requires forall i :: 0 <= i < |it.x| ==> it.x[i] != xq || it.y[i] != yq
    ensures Min(it.c) <= it.Eval(xq, yq) <= Max(it.c)
  {
    var points := Plane(it.x, it.y, it.c);
    forall i | 0 <= i < |points| ensures points[i].args != [xq, yq] {
      assert points[i].args[0] == it.x[i] && points[i].args[1] == it.y[i];
    }
    EstimateBetween(points, [xq, yq], it.law);
  }

  /** A plotting surface: the query axes and `Cg[i, j]` at (`xs[j]`, `ys[i]`). */
  datatype Surface = Surface(xs: seq<real>, ys: seq<real>, cg: array2<real>)

  /**
   * `Interpolator2D.grid`: a `numY` by `numX` mesh over the input ranges,
   * rows following y and columns following x, filled point by point.
   */
  method Grid2D(it: Interpolator2D, numX: nat, numY: nat) returns (r: Outcome<Surface>)
    requires it.Valid()
    ensures r.Done? || r == Failed(Uncaught)
    ensures r.Failed? <==> |it.x| == 0
    ensures r.Done? ==>
      r.out.xs == Linspace(Min(it.x), Max(it.x), numX) && r.out.ys == Linspace(Min(it.y), Max(it.y), numY) &&
      fresh(r.out.cg) && r.out.cg.Length0 == numY && r.out.cg.Length1 == numX &&
      forall i, j :: 0 <= i < numY && 0 <= j < numX ==> r.out.cg[i, j] == it.Eval(r.out.xs[j], r.out.ys[i])
  {
    if |it.x| == 0 {
      // `min` of a zero-size array
      return Failed(Uncaught);
    }
    var xs := Linspace(Min(it.x), Max(it.x), numX);
    var ys := Linspace(Min(it.y), Max(it.y), numY);
    var cg := new real[numY, numX];
    var at := (xq: real, yq: real) requires it.Valid() => it.Eval(xq, yq);
    for i := 0 to numY
      invariant forall a, b :: 0 <= a < i && 0 <= b < numX ==> cg[a, b] == it.Eval(xs[b], ys[a])
    {
      FillRow(at, cg, xs, ys, i);
    }
    return Done(Surface(xs, ys, cg));
  }

  /**
   * The inner loop of `grid`: row `i` of the mesh gets `at(xs[j], ys[i])`
   * in column `j`; the other rows are unchanged.
   */
  method FillRow(at: (real, real) --> real, cg: array2<real>, xs: seq<real>, ys: seq<real>, i: nat)
    requires cg.Length0 == |ys| && cg.Length1 == |xs| && i < |ys|
    requires forall b :: 0 <= b < |xs| ==> at.requires(xs[b], ys[i])
    modifies cg
    ensures forall b :: 0 <= b < cg.Length1 ==> cg[i, b] == at(xs[b], ys[i])
    ensures forall a, b :: 0 <= a < cg.Length0 && a != i && 0 <= b < cg.Length1 ==> cg[a, b] == old(cg[a, b])
  {
    for j := 0 to |xs|
      invariant forall b :: 0 <= b < j ==> cg[i, b] == at(xs[b], ys[i])
      invariant forall a, b :: 0 <= a < cg.Length0 && a != i && 0 <= b < cg.Length1 ==> cg[a, b] == old(cg[a, b])
    {
      cg[i, j] := at(xs[j], ys[i]);
    }
  }

  // ---------------------------------------------------------------------
  // The A13C builder and the registry

  /** A13C as loaded, projected on ANGLE, As/A and C; an absent cell is `None`. */
  datatype SourceRow = SourceRow(angle: Option<real>, ratio: Option<real>, c: Option<real>)

  predicate Complete(r: SourceRow) {
    r.angle.Some? && r.ratio.Some? && r.c.Some?
  }

  /** `df[["ANGLE", "As/A", "C"]].dropna()` */
  function DropIncomplete(rows: seq<SourceRow>): (kept: seq<SourceRow>)
    ensures forall i :: 0 <= i < |kept| ==> Complete(kept[i]) && kept[i] in rows
    ensures forall i :: 0 <= i < |rows| && Complete(rows[i]) ==> rows[i] in kept
  {
    Where(rows, Complete)
  }

  /** The 2D interpolator over complete rows, with the default exponent. */
  function A13CInterpolator(rows: seq<SourceRow>): (it: Interpolator2D)
    requires forall i :: 0 <= i < |rows| ==> rows[i].angle.Some? && rows[i].ratio.Some? && rows[i].c.Some?
    ensures it.Valid() && |it.x| == |rows|
    ensures forall i :: 0 <= i < |rows| ==>
      it.x[i] == rows[i].angle.value && it.y[i] == rows[i].ratio.value && it.c[i] == rows[i].c.value
  {
    Interpolator2D(seq(|rows|, i requires 0 <= i < |rows| => rows[i].angle.value),
                   seq(|rows|, i requires 0 <= i < |rows| => rows[i].ratio.value),
                   seq(|rows|, i requires 0 <= i < |rows| => rows[i].c.value),
                   InverseSquare())
  }

  /** Axis captions of the A13C surface. */
  const X_CAPTION: string := "ANGLE (deg)"
  const Y_CAPTION: string := "As/A"
  const C_CAPTION: string := "Loss Coefficient C"

  /** Mesh size of the precomputed surface. */
  const MESH: nat := 60

  /** What the registry holds for a case. */
  datatype Bundle = Bundle(interp: Interpolator2D, raw: seq<SourceRow>, grid: Surface, captions: seq<string>)

  /**
   * `_build_A13C_interpolator`: a table that cannot be read (`None`) or
   * has no complete row raises; otherwise the interpolator, the cleaned
   * rows and a 60 by 60 surface.
   */
  method BuildA13C(table: Option<seq<SourceRow>>) returns (r: Outcome<Bundle>)
    ensures r.Done? || r == Failed(Uncaught)
    ensures r.Done? <==> table.Some? && |DropIncomplete(table.value)| > 0
    ensures r.Done? ==>
      var rows := DropIncomplete(table.value);
      r.out.raw == rows && r.out.interp == A13CInterpolator(rows) &&
      r.out.captions == [X_CAPTION, Y_CAPTION, C_CAPTION] &&
      r.out.grid.cg.Length0 == MESH && r.out.grid.cg.Length1 == MESH
  {
    if table.None? {
      return Failed(Uncaught);
    }
    var rows := DropIncomplete(table.value);
    var it := A13CInterpolator(rows);
    var g := Grid2D(it, MESH, MESH);
    if g.Failed? {
      return Failed(Uncaught);
    }
    return Done(Bundle(it, rows, g.out, [X_CAPTION, Y_CAPTION, C_CAPTION]));
  }

  /** The case that has an interpolator. */
  const A13C: string := "A13C"

  /** `_CASE_INTERPOLATORS` with its accessor and preload entry point. */
  class Registry {
    var cases: map<string, Bundle>

    constructor()
      ensures cases == map[]
    {
      cases := map[];
    }

    /** `get_case_interpolator`: `None` for a case that was never preloaded. */
    function Get(name: string): (b: Option<Bundle>)
      reads this
      ensures b.None? <==> name !in cases
      ensures b.Some? ==> b.value == cases[name]
    {
      if name in cases then Some(cases[name]) else None
    }

    /**
     * `preload_all_case_interpolators`: builds every known case into a new
     * registry, omitting one whose builder fails, and replaces the old
     * registry with it whole.
     */
    method Preload(table: Option<seq<SourceRow>>)
      modifies this
      ensures cases.Keys == if table.Some? && |DropIncomplete(table.value)| > 0 then {A13C} else {}
      ensures A13C in cases ==> cases[A13C].interp == A13CInterpolator(DropIncomplete(table.value))
      ensures forall name :: name != A13C ==> Get(name).None?
    {
      var registry: map<string, Bundle> := map[];
      var b := BuildA13C(table);
      if b.Done? {
        registry := registry[A13C := b.out];
      }
      cases := registry;
    }
  }
}
