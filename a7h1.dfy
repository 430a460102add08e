/**
 * A7H1: a mitered rectangular elbow with single-thickness turning vanes.
 * The vane geometry is given by its radius R or its spacing S; the rows
 * nearest to it are kept, and the velocity is rounded down among theirs.
 */
module A7H1 {
  import opened Wrappers
  import opened Lookup
  import opened Pipeline

  /** A7H1 projected on (R, S, V, C). */
  datatype Row = Row(r: real, s: real, v: real, c: real)

  function R(x: Row): real { x.r }
  function S(x: Row): real { x.s }
  function V(x: Row): real { x.v }

  /** Which vane dimension the lookup uses. */
  datatype Dimension = ByRadius(radius: real) | BySpacing(spacing: real) | Neither

  /**
   * R or S at or below zero counts as not entered; with both entered the
   * radius is used and the spacing ignored.
   */
  function ChooseDimension(radius: Option<real>, spacing: Option<real>): (d: Dimension)
    ensures d.ByRadius? <==> radius.Some? && radius.value > 0.0
    ensures d.ByRadius? ==> d.radius == radius.value
    ensures d.BySpacing? <==> !(radius.Some? && radius.value > 0.0) && spacing.Some? && spacing.value > 0.0
    ensures d.BySpacing? ==> d.spacing == spacing.value
  {
    if radius.Some? && radius.value > 0.0 then ByRadius(radius.value)
    else if spacing.Some? && spacing.value > 0.0 then BySpacing(spacing.value)
    else Neither
  }

  /** The rows tied nearest to the chosen dimension. */
  function DimensionRows(rows: seq<Row>, d: Dimension): (s: seq<Row>)
    requires !d.Neither?
    ensures |s| > 0 <==> |rows| > 0
    ensures d.ByRadius? ==> forall x :: x in s <==> x in rows && forall y :: y in rows ==> Dist(x.r, d.radius) <= Dist(y.r, d.radius)
    ensures d.BySpacing? ==> forall x :: x in s <==> x in rows && forall y :: y in rows ==> Dist(x.s, d.spacing) <= Dist(y.s, d.spacing)
  {
    match d
    case ByRadius(radius) => NearestRows(rows, R, radius)
    case BySpacing(spacing) => NearestRows(rows, S, spacing)
  }

  /**
   * The tabulated velocity: the first (smallest) when V is at or below it,
   * the last (largest) when V is at or above it, otherwise the largest
   * value at most V. This is the floor with the smallest value as default.
   */
  function VelocityMatch(col: seq<real>, v: real): (m: real)
    requires |col| > 0
    ensures m == Floor(col, v)
  {
    var lo, hi := Min(col), Max(col);
    var m :=
      if v <= lo then lo
      else if v >= hi then hi
      else
        var below := AtMost(col, v);
        assert lo in below;
        Max(below);
    assert IsFloor(col, v, m);
    FloorUnique(col, v, m, Floor(col, v));
    m
  }

  /**
   * The C of the first row of the nearest group that carries the matched
   * velocity.
   */
  function Coefficient(group: seq<Row>, v: real): (c: real)
    requires |group| > 0
    ensures exists i :: (0 <= i < |group| && group[i].c == c &&
                         group[i].v == Floor(Column(group, V), v) &&
                         forall j :: 0 <= j < i ==> group[j].v != group[i].v)
  {
    var col := Column(group, V);
    var m := VelocityMatch(col, v);
    var k :| 0 <= k < |group| && col[k] == m;
    var i := First(group, (x: Row) => x.v == m).value;
    group[i].c
  }

  /**
   * Height H, width W (in), radius R and spacing S (in, either may be
   * absent) and flow Q (cfm). Zero is an accepted value for H, W and Q.
   */
  function Outputs(h: Option<real>, w: Option<real>, radius: Option<real>, spacing: Option<real>,
                   q: Option<real>, rows: seq<Row>): (r: Outcome<Standard>)
    ensures r.Done? || r.Failed?
    ensures AnyNone([h, w, q]) ==> r == Failed(MissingInput)
    ensures !AnyNone([h, w, q]) ==>
      var d := ChooseDimension(radius, spacing);
      (w.value * h.value <= 0.0 ==> r == Failed(InvalidGeometry)) &&
      (w.value * h.value > 0.0 && d.Neither? ==> r == Failed(MissingInput)) &&
      (w.value * h.value > 0.0 && !d.Neither? && |rows| == 0 ==> r == Failed(NoMatch)) &&
      (w.value * h.value > 0.0 && !d.Neither? && |rows| > 0 ==>
        var v := Velocity(q.value, w.value * h.value);
        r.Done? && Consistent(r.out) && r.out.velocity == v &&
        r.out.coefficient == Coefficient(DimensionRows(rows, d), v))
  {
    if AnyNone([h, w, q]) then Failed(MissingInput)
    else
      var area := w.value * h.value;
      if area <= 0.0 then
        // a non-positive cross-section is reported before the table is read
        Failed(InvalidGeometry)
      else
        var v := Velocity(q.value, area);
        var d := ChooseDimension(radius, spacing);
        if d.Neither? then Failed(MissingInput)
        else
          var group := DimensionRows(rows, d);
          if |group| == 0 then Failed(NoMatch)
          else Done(StandardOf(v, Coefficient(group, v)))
  }
}
