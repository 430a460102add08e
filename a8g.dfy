/**
 * A8G: an asymmetric transition at a fan outlet. Reports both the
 * stepwise table coefficient and a bilinear estimate in (ANGLE, A1/A);
 * the pressure loss uses the bilinear one.
 */
module A8G {
  import opened Wrappers
  import opened Lookup
  import opened Pipeline
  import Numeric

  /** A8G projected on (ANGLE, A1/A, C). */
  datatype Row = Row(angle: real, ratio: real, c: real)

  function Angle(r: Row): real { r.angle }
  function Ratio(r: Row): real { r.ratio }

  /** `v` lies between `a` and `b`, whichever is larger. */
  predicate Between(v: real, a: real, b: real) {
    (a <= v <= b) || (b <= v <= a)
  }

  // ---------------------------------------------------------------------
  // Stepwise coefficient

  /** Ceiling on ANGLE over the table, then ceiling on A1/A inside that angle. */
  function NearestFields(angle: real, ratio: real): seq<Field<Row>> {
    [Field(Angle, CeilPolicy, angle), Field(Ratio, CeilPolicy, ratio)]
  }

  /**
   * `_loss_coeff_nearest`: the smallest ANGLE at or above the angle (the
   * largest when none is), then within it the first row with the
   * smallest A1/A at or above the ratio (the last row when none is).
   */
  function NearestCoefficient(rows: seq<Row>, angle: real, ratio: real): (c: real)
    requires |rows| > 0
    ensures exists x :: x in Narrow(rows, NearestFields(angle, ratio)) && x.c == c
  {
    NarrowRow(rows, NearestFields(angle, ratio)).c
  }

  /** The stepwise row carries the ceiling of ANGLE over the whole table. */
  lemma NearestAngleIsCeil(rows: seq<Row>, angle: real, ratio: real, x: Row)
    requires |rows| > 0 && x in Narrow(rows, NearestFields(angle, ratio))
    ensures x.angle == Ceil(Column(rows, Angle), angle)
  {
    NarrowPicks(rows, NearestFields(angle, ratio), x);
  }

  // ---------------------------------------------------------------------
  // Interpolation

  /** Linear interpolation through (x0, y0) and (x1, y1). */
  function Lerp(x0: real, y0: real, x1: real, y1: real, x: real): (y: real)
    requires x0 <= x <= x1 && x0 < x1
    ensures y * (x1 - x0) == y0 * (x1 - x) + y1 * (x - x0)
    ensures Between(y, y0, y1)
    ensures x == x0 ==> y == y0
    ensures x == x1 ==> y == y1
  {
    var t := (x - x0) / (x1 - x0);
    assert t * (x1 - x0) == x - x0;
    var d := y1 - y0;
    assert (y0 + t * d) * (x1 - x0) == y0 * (x1 - x0) + d * (t * (x1 - x0));
    assert y0 * (x1 - x0) + d * (x - x0) == y0 * (x1 - x) + y1 * (x - x0);
    Numeric.DivLower(x - x0, x1 - x0, 0.0);
    Numeric.DivUpper(x - x0, x1 - x0, 1.0);
    assert 0.0 <= t * d <= d || d <= t * d <= 0.0 by {
      if d >= 0.0 {
        assert d - t * d == (1.0 - t) * d;
      } else {
        assert t * d - d == (1.0 - t) * (-d);
      }
    }
    y0 + t * d
  }

  /**
   * The rows interpolated at an angle: those carrying it, or those of
   * the first tabulated angle closest to it when it is not tabulated.
   */
  function AngleSlice(rows: seq<Row>, a: real): (slice: seq<Row>)
    requires |rows| > 0
    ensures |slice| > 0
    ensures forall i :: 0 <= i < |slice| ==> slice[i] in rows
    ensures a in Column(rows, Angle) ==> slice == Matching(rows, Angle, a)
    ensures a !in Column(rows, Angle) ==>
      exists k :: NearestAngleAt(rows, a, k) && slice == Matching(rows, Angle, rows[k].angle)
  {
    var col := Column(rows, Angle);
    if a in col then
      MatchingValue(rows, Angle, a);
      Matching(rows, Angle, a)
    else
      var k := NearestIndex(col, a);
      MatchingValue(rows, Angle, rows[k].angle);
      assert NearestAngleAt(rows, a, k);
      Matching(rows, Angle, rows[k].angle)
  }

  /** Row `k` carries the first of the tabulated angles closest to `a`. */
  predicate NearestAngleAt(rows: seq<Row>, a: real, k: int) {
    0 <= k < |rows| &&
    (forall j :: 0 <= j < |rows| ==> Dist(rows[k].angle, a) <= Dist(rows[j].angle, a)) &&
    (forall j :: 0 <= j < k ==> Dist(rows[k].angle, a) < Dist(rows[j].angle, a))
  }

  /**
   * `np.interp` over the slice sorted by A1/A, clamped to the end values:
   * the C of the first row of the smallest A1/A at or below it, the C of
   * the last row of the largest at or above it, and otherwise the line
   * between the last row at or below the ratio and the first row above.
   */
  function Interp(slice: seq<Row>, ratio: real): (c: real)
    requires |slice| > 0
    ensures var col := Column(slice, Ratio);
      ratio <= Min(col) ==>
        exists i :: 0 <= i < |slice| && slice[i].ratio == Min(col) && c == slice[i].c &&
          forall j :: 0 <= j < i ==> slice[j].ratio > Min(col)
    ensures var col := Column(slice, Ratio);
      Min(col) < ratio && Max(col) <= ratio ==>
        exists i :: 0 <= i < |slice| && slice[i].ratio == Max(col) && c == slice[i].c &&
          forall j :: i < j < |slice| ==> slice[j].ratio < Max(col)
    ensures var col := Column(slice, Ratio);
      Min(col) < ratio < Max(col) ==>
        exists i, j :: Brackets(slice, ratio, i, j) && c == Lerp(slice[i].ratio, slice[i].c, slice[j].ratio, slice[j].c, ratio)
  {
    var col := Column(slice, Ratio);
    var lo := FirstLeast(slice, Everything(), ByKey(Ratio)).value;
    var hi := LastGreatest(slice, Everything(), ByKey(Ratio)).value;
    EndRows(slice, lo, hi);
    if ratio <= slice[lo].ratio then slice[lo].c
    else if ratio >= slice[hi].ratio then slice[hi].c
    else Inside(slice, ratio, lo, hi)
  }

  /**
   * After a stable sort on A1/A the first row holds the smallest ratio and
   * follows every other row holding it; the last row holds the largest and
   * precedes every other row holding it.
   */
  lemma {:induction false} EndRows(slice: seq<Row>, lo: nat, hi: nat)
    requires |slice| > 0
    requires IsFirstLeast(slice, Everything(), ByKey(Ratio), lo)
    requires IsLastGreatest(slice, Everything(), ByKey(Ratio), hi)
    ensures slice[lo].ratio == Min(Column(slice, Ratio)) && forall j :: 0 <= j < lo ==> slice[j].ratio > slice[lo].ratio
    ensures slice[hi].ratio == Max(Column(slice, Ratio)) && forall j :: hi < j < |slice| ==> slice[j].ratio < slice[hi].ratio
  {
    var col := Column(slice, Ratio);
    ColumnBounds(slice, Ratio);
    forall j | 0 <= j < |slice| ensures slice[lo].ratio <= slice[j].ratio <= slice[hi].ratio {
      ByKeyOrder(Ratio, slice[j], slice[lo]);
      ByKeyOrder(Ratio, slice[hi], slice[j]);
    }
    forall j | 0 <= j < lo ensures slice[j].ratio > slice[lo].ratio {
      ByKeyOrder(Ratio, slice[lo], slice[j]);
    }
    forall j | hi < j < |slice| ensures slice[j].ratio < slice[hi].ratio {
      ByKeyOrder(Ratio, slice[j], slice[hi]);
    }
    assert Min(col) in col && Max(col) in col;
    assert col[lo] == slice[lo].ratio && col[hi] == slice[hi].ratio;
  }

  /**
   * `np.interp` strictly inside the tabulated ratios (`lo` and `hi` witness
   * a row at or below and a row above): the line between the last row at
   * or below the ratio and the first row above it.
   */
  function Inside(slice: seq<Row>, ratio: real, lo: nat, hi: nat): (c: real)
    requires lo < |slice| && hi < |slice| && slice[lo].ratio <= ratio < slice[hi].ratio
    ensures exists i, j :: Brackets(slice, ratio, i, j) && c == Lerp(slice[i].ratio, slice[i].c, slice[j].ratio, slice[j].c, ratio)
  {
    var i := LastGreatest(slice, (r: Row) => r.ratio <= ratio, ByKey(Ratio)).value;
    var j := FirstLeast(slice, (r: Row) => r.ratio > ratio, ByKey(Ratio)).value;
    assert forall k :: 0 <= k < |slice| ==> slice[k].ratio <= slice[i].ratio || slice[j].ratio <= slice[k].ratio by {
      forall k | 0 <= k < |slice| ensures slice[k].ratio <= slice[i].ratio || slice[j].ratio <= slice[k].ratio {
        ByKeyOrder(Ratio, slice[i], slice[k]);
        ByKeyOrder(Ratio, slice[k], slice[j]);
      }
    }
    assert Brackets(slice, ratio, i, j);
    Lerp(slice[i].ratio, slice[i].c, slice[j].ratio, slice[j].c, ratio)
  }

  /** Rows `i` and `j` are the neighbours of `ratio`: no tabulated ratio lies strictly between theirs. */
  predicate Brackets(slice: seq<Row>, ratio: real, i: int, j: int) {
    0 <= i < |slice| && 0 <= j < |slice| &&
    slice[i].ratio <= ratio < slice[j].ratio &&
    forall k :: 0 <= k < |slice| ==> slice[k].ratio <= slice[i].ratio || slice[j].ratio <= slice[k].ratio
  }

  /** `_interp_c_at_angle` */
  function InterpAtAngle(rows: seq<Row>, a: real, ratio: real): (c: real)
    requires |rows| > 0
    ensures c == Interp(AngleSlice(rows, a), ratio)
  {
    Interp(AngleSlice(rows, a), ratio)
  }

  /** The tabulated angles strictly below and strictly above an interior angle, nearest first. */
  function AngleBracket(col: seq<real>, angle: real): (b: (real, real))
    requires |col| > 0 && Min(col) < angle < Max(col)
    ensures b.0 in col && b.1 in col && b.0 < angle < b.1
    ensures forall u :: u in col ==> u <= b.0 || u == angle || b.1 <= u
  {
    var below := Where(col, (u: real) => u < angle);
    var above := Where(col, (u: real) => u > angle);
    assert Min(col) in below && Max(col) in above;
    var lo, hi := Max(below), Min(above);
    assert forall u :: u in col ==> u <= lo || u == angle || hi <= u by {
      forall u | u in col ensures u <= lo || u == angle || hi <= u {
        var k :| 0 <= k < |col| && col[k] == u;
        if u < angle { assert u in below; } else if u > angle { assert u in above; }
      }
    }
    (lo, hi)
  }

  /**
   * `_loss_coeff_bilinear`: the angle clamped to the tabulated range; inside
   * it, interpolation between the nearest tabulated angles strictly below
   * and strictly above.
   */
  function Bilinear(rows: seq<Row>, angle: real, ratio: real): (c: real)
    requires |rows| > 0
    ensures var col := Column(rows, Angle);
      angle <= Min(col) ==> c == InterpAtAngle(rows, Min(col), ratio)
    ensures var col := Column(rows, Angle);
      Min(col) < angle && Max(col) <= angle ==> c == InterpAtAngle(rows, Max(col), ratio)
    ensures var col := Column(rows, Angle);
      Min(col) < angle < Max(col) ==>
        var b := AngleBracket(col, angle);
        b.0 < angle < b.1 &&
        c == Lerp(b.0, InterpAtAngle(rows, b.0, ratio), b.1, InterpAtAngle(rows, b.1, ratio), angle) &&
        Between(c, InterpAtAngle(rows, b.0, ratio), InterpAtAngle(rows, b.1, ratio))
  {
    var col := Column(rows, Angle);
    if angle <= Min(col) then InterpAtAngle(rows, Min(col), ratio)
    else if angle >= Max(col) then InterpAtAngle(rows, Max(col), ratio)
    else
      var b := AngleBracket(col, angle);
      Lerp(b.0, InterpAtAngle(rows, b.0, ratio), b.1, InterpAtAngle(rows, b.1, ratio), angle)
  }

  /**
   * The bracketing is strict even at a tabulated interior angle: the
   * estimate at 45 degrees between 0 and 90 ignores the 45-degree row,
   * which the stepwise coefficient returns.
   */
  lemma BilinearSkipsTabulatedAngle(rows: seq<Row>)
    requires rows == [Row(0.0, 1.0, 0.0), Row(45.0, 1.0, 10.0), Row(90.0, 1.0, 0.0)]
    ensures Bilinear(rows, 45.0, 1.0) == 0.0
    ensures NearestCoefficient(rows, 45.0, 1.0) == 10.0
  {
    BilinearOfExample(rows);
    NearestOfExample(rows);
  }

  lemma BilinearOfExample(rows: seq<Row>)
    requires rows == [Row(0.0, 1.0, 0.0), Row(45.0, 1.0, 10.0), Row(90.0, 1.0, 0.0)]
    ensures Bilinear(rows, 45.0, 1.0) == 0.0
  {
    var col := Column(rows, Angle);
    assert col == [0.0, 45.0, 90.0];
    assert Min(col) == 0.0 && Max(col) == 90.0;
    var b := AngleBracket(col, 45.0);
    assert b == (0.0, 90.0);
    SliceValue(rows, 0.0, rows[0]);
    SliceValue(rows, 90.0, rows[2]);
  }

  lemma {:induction false} NearestOfExample(rows: seq<Row>)
    requires rows == [Row(0.0, 1.0, 0.0), Row(45.0, 1.0, 10.0), Row(90.0, 1.0, 0.0)]
    ensures NearestCoefficient(rows, 45.0, 1.0) == 10.0
  {
    var fs := NearestFields(45.0, 1.0);
    var x :| x in Narrow(rows, fs) && x.c == NearestCoefficient(rows, 45.0, 1.0);
    ExampleCeil(rows);
    NearestAngleIsCeil(rows, 45.0, 1.0, x);
    assert x.angle == 45.0;
    assert x in rows;
    var i :| 0 <= i < |rows| && rows[i] == x;
    assert i == 1;
  }

  /** 45 degrees is tabulated, so it is its own ceiling. */
  lemma {:induction false} ExampleCeil(rows: seq<Row>)
    requires rows == [Row(0.0, 1.0, 0.0), Row(45.0, 1.0, 10.0), Row(90.0, 1.0, 0.0)]
    ensures Ceil(Column(rows, Angle), 45.0) == 45.0
  {
    var col := Column(rows, Angle);
    assert col[1] == 45.0;
    ExactHit(col, 45.0);
  }

  /** A slice holding a single row of ratio 1 interpolates to that row's C at ratio 1. */
  lemma SliceValue(rows: seq<Row>, a: real, r: Row)
    requires rows == [Row(0.0, 1.0, 0.0), Row(45.0, 1.0, 10.0), Row(90.0, 1.0, 0.0)]
    requires r in rows && r.angle == a
    ensures InterpAtAngle(rows, a, 1.0) == r.c
  {
    var col := Column(rows, Angle);
    assert col == [0.0, 45.0, 90.0];
    MatchingOfThree(rows, Angle, a);
    var slice := AngleSlice(rows, a);
    assert slice == [r];
    assert Column(slice, Ratio) == [1.0];
  }

  // ---------------------------------------------------------------------
  // The routine

  /** Velocity, velocity pressure, stepwise C, bilinear C and the loss with the bilinear C. */
  datatype Result = Result(velocity: real, velocityPressure: real, nearest: real, coefficient: real, pressureLoss: real)

  function AsStandard(r: Result): Standard {
    Standard(r.velocity, r.velocityPressure, r.coefficient, r.pressureLoss)
  }

  /** Height H, outlet height H1, width W (in), the transition ANGLE and flow Q (cfm). */
  function Outputs(h: Option<real>, h1: Option<real>, w: Option<real>, angle: Option<real>, q: Option<real>,
                   rows: seq<Row>): (r: Outcome<Result>)
    ensures r.Done? || r == AllNone || r == Failed(InvalidGeometry) || r == Failed(Uncaught)
    ensures r == AllNone <==> AnyNone([h, h1, w, angle, q])
    ensures !AnyNone([h, h1, w, angle, q]) ==>
      (r == Failed(InvalidGeometry) <==> h.value * w.value / SQ_IN_PER_SQ_FT <= 0.0 || h1.value * w.value / SQ_IN_PER_SQ_FT <= 0.0)
    ensures r == Failed(Uncaught) <==> !AnyNone([h, h1, w, angle, q]) && r != Failed(InvalidGeometry) && |rows| == 0
    ensures r.Done? ==>
      var a := h.value * w.value / SQ_IN_PER_SQ_FT;
      var ratio := h1.value * w.value / SQ_IN_PER_SQ_FT / a;
      a > 0.0 && |rows| > 0 &&
      Consistent(AsStandard(r.out)) && r.out.velocity == Velocity(q.value, h.value * w.value) &&
      r.out.coefficient == Bilinear(rows, angle.value, ratio) &&
      r.out.nearest == NearestCoefficient(rows, angle.value, ratio)
  {
    if AnyNone([h, h1, w, angle, q]) then AllNone
    else
      var a := h.value * w.value / SQ_IN_PER_SQ_FT;
      var a1 := h1.value * w.value / SQ_IN_PER_SQ_FT;
      if a <= 0.0 || a1 <= 0.0 then Failed(InvalidGeometry)
      else if |rows| == 0 then
        // the empty slice has no last row: IndexError, not caught
        Failed(Uncaught)
      else
        var ratio := a1 / a;
        var v := Velocity(q.value, h.value * w.value);
        var s := StandardOf(v, Bilinear(rows, angle.value, ratio));
        Done(Result(s.velocity, s.velocityPressure, NearestCoefficient(rows, angle.value, ratio), s.coefficient, s.pressureLoss))
  }
}
