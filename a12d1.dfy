/**
 * A12D1: a round conical exit of diameter D widening to Ds over a length
 * L, optionally behind a screen. L/D is rounded down to a tabulated value
 * and the included angle taken to the nearest tabulated one, each on its
 * own; the pair must then occur in the table.
 */
module A12D1 {
  import opened Wrappers
  import opened Lookup
  import opened Pipeline
  import opened Corrections

  /** A12D1 projected on (L/D, ANGLE, C). */
  datatype Row = Row(ld: real, angle: real, c: real)

  function LD(r: Row): real { r.ld }
  function Angle(r: Row): real { r.angle }

  /**
   * L/D rounded down among the unique tabulated values and the angle
   * taken to the nearest unique tabulated angle; the C of the first row
   * carrying both, or no match when no row carries the pair. The unique
   * values give the same picks as the raw columns.
   */
  function PairCoefficient(rows: seq<Row>, ld: real, angle: real): (r: Outcome<real>)
    requires |rows| > 0
    ensures r.Done? || r == Failed(NoMatch)
    ensures r == Failed(NoMatch) <==>
      forall j :: 0 <= j < |rows| ==> !(rows[j].ld == LdMatch(rows, ld) && rows[j].angle == AngleMatch(rows, angle))
    ensures r.Done? ==>
      exists i :: (0 <= i < |rows| && rows[i].c == r.out &&
                   rows[i].ld == LdMatch(rows, ld) && rows[i].angle == AngleMatch(rows, angle) &&
                   forall j :: 0 <= j < i ==> !(rows[j].ld == rows[i].ld && rows[j].angle == rows[i].angle))
  {
    var a, b := LdMatch(rows, ld), AngleMatch(rows, angle);
    match First(rows, (x: Row) => x.ld == a && x.angle == b)
    case Some(i) => Done(rows[i].c)
    case None => Failed(NoMatch)
  }

  /** L/D rounded down among the unique tabulated values: the floor over the whole column. */
  function LdMatch(rows: seq<Row>, ld: real): (v: real)
    requires |rows| > 0
    ensures v == Floor(Column(rows, LD), ld)
  {
    var lds := Column(rows, LD);
    SameValuesSamePicks(Unique(lds), lds, ld);
    Floor(Unique(lds), ld)
  }

  /** The unique tabulated angle nearest to `angle`: the nearest over the whole column. */
  function AngleMatch(rows: seq<Row>, angle: real): (v: real)
    requires |rows| > 0
    ensures v == Nearest(Column(rows, Angle), angle)
  {
    var angles := Column(rows, Angle);
    NearestOfUnique(angles, angle);
    Nearest(Unique(angles), angle)
  }

  /**
   * L, D, Ds (in) and Q (cfm), then the obstruction and its free area
   * ratio n. `angleOf` maps (Ds - D) / (2 L) to the included angle in
   * whole degrees, `int(round(degrees(2 atan(…))))`.
   */
  function Outputs(l: Option<real>, d: Option<real>, ds: Option<real>, q: Option<real>,
                   obstruction: Option<string>, n: Option<real>, angleOf: real -> int,
                   rows: seq<Row>, screen: seq<ScreenRow>): (r: Outcome<Standard>)
    ensures r == AllNone <==> AnyNone([l, d, ds, q])
    ensures !AnyNone([l, d, ds, q]) ==>
      r == Compute(l.value, d.value, ds.value, q.value, obstruction, n, angleOf, rows, screen)
  {
    if AnyNone([l, d, ds, q]) then AllNone
    else Compute(l.value, d.value, ds.value, q.value, obstruction, n, angleOf, rows, screen)
  }

  /**
   * The routine once L, D, Ds and Q are present. A zero duct area, a zero
   * length, an empty table and an empty screen table each raise inside the
   * handler; a pair absent from the table is reported. With a screen the
   * coefficient is C + C1 / n^2; C1 is a numpy float, so a zero n divides
   * it by zero without raising and the coefficient is not finite.
   */
  function Compute(l: real, d: real, ds: real, q: real, obstruction: Option<string>, n: Option<real>,
                   angleOf: real -> int, rows: seq<Row>, screen: seq<ScreenRow>): (r: Outcome<Standard>)
    ensures r.Done? || r == Failed(Raised) || r == Failed(NoMatch) || r == NonFinite
    ensures CircleArea(d) == 0.0 || l == 0.0 || |rows| == 0 ==> r == Failed(Raised)
    ensures CircleArea(d) != 0.0 && l != 0.0 && |rows| > 0 ==>
      var base := PairCoefficient(rows, l / d, angleOf((ds - d) / (2.0 * l)) as real);
      (r == Failed(NoMatch) <==> base == Failed(NoMatch)) &&
      (r == Failed(Raised) <==> base.Done? && ScreenApplies(obstruction, n) && |screen| == 0) &&
      (r == NonFinite <==> base.Done? && ScreenApplies(obstruction, n) && |screen| > 0 && n.value == 0.0) &&
      (r.Done? ==>
        base.Done? && Consistent(r.out) && r.out.velocity == Velocity(q, CircleArea(d)) &&
        (!ScreenApplies(obstruction, n) ==> r.out.coefficient == base.out) &&
        (ScreenApplies(obstruction, n) ==>
          r.out.coefficient == Scaled(base.out, ScreenCoefficient(screen, n.value).value, n.value)))
  {
    if CircleArea(d) == 0.0 || l == 0.0 || |rows| == 0 then
      // Q / (A / 144) or (Ds - D) / (2 L) divides by zero, or `min` of no values
      Failed(Raised)
    else
      var base := PairCoefficient(rows, l / d, angleOf((ds - d) / (2.0 * l)) as real);
      if base.Failed? then Failed(NoMatch)
      else if !ScreenApplies(obstruction, n) then Done(StandardOf(Velocity(q, CircleArea(d)), base.out))
      else if |screen| == 0 then
        // `min` of no screen values
        Failed(Raised)
      else if n.value == 0.0 then
        // C1 / (As / A)^2 with As = 0: a numpy float divided by zero
        NonFinite
      else
        Done(StandardOf(Velocity(q, CircleArea(d)), Scaled(base.out, ScreenCoefficient(screen, n.value).value, n.value)))
  }
}
