/**
 * A8A: a round transition (contraction or expansion). The coefficient is
 * found by three nested lookups: Reynolds number, then area ratio inside
 * that Reynolds group, then angle inside that area-ratio group.
 */
module A8A {
  import opened Wrappers
  import opened Lookup
  import opened Pipeline

  /** A8A projected on (Re, A1/A, ANGLE, C). */
  datatype Row = Row(re: real, ratio: real, angle: real, c: real)

  function Re(r: Row): real { r.re }
  function Ratio(r: Row): real { r.ratio }
  function Angle(r: Row): real { r.angle }

  /** Below 90 degrees the angle is rounded up, from 90 on it is rounded down. */
  function AnglePolicy(angle: real): (p: Policy)
    ensures p != NearestPolicy
    ensures p == CeilPolicy <==> angle < 90.0
  {
    if angle < 90.0 then CeilPolicy else FloorPolicy
  }

  /** Floor on Re, ceiling on A1/A, then the angle policy. */
  function Fields(re: real, ratio: real, angle: real): seq<Field<Row>> {
    [Field(Re, FloorPolicy, re), Field(Ratio, CeilPolicy, ratio), Field(Angle, AnglePolicy(angle), angle)]
  }

  /** Reynolds number 8.56 D V. */
  function Reynolds(d: real, v: real): real {
    8.56 * d * v
  }

  /** Diameter D, outlet diameter D1 (in), ANGLE (deg) and flow Q (cfm); a zero counts as missing. */
  function Outputs(d: Option<real>, d1: Option<real>, angle: Option<real>, q: Option<real>,
                   rows: seq<Row>): (r: Outcome<Standard>)
    ensures r == AllNone <==> AnyFalsy([d, d1, angle, q])
    ensures !AnyFalsy([d, d1, angle, q]) ==> r == Compute(d.value, d1.value, angle.value, q.value, rows)
  {
    if AnyFalsy([d, d1, angle, q]) then AllNone
    else Compute(d.value, d1.value, angle.value, q.value, rows)
  }

  /** The routine once every input is present and non-zero; it has no exception handler. */
  function Compute(d: real, d1: real, angle: real, q: real, rows: seq<Row>): (r: Outcome<Standard>)
    ensures r.Done? || r == Failed(Uncaught)
    ensures r == Failed(Uncaught) <==> CircleArea(d) == 0.0 || |rows| == 0
    ensures r.Done? ==>
      var a := CircleArea(d);
      a != 0.0 && |rows| > 0 &&
      var v := Velocity(q, a);
      Consistent(r.out) && r.out.velocity == v &&
      exists x :: x in Narrow(rows, Fields(Reynolds(d, v), CircleArea(d1) / a, angle)) && x.c == r.out.coefficient
  {
    var a := CircleArea(d);
    if a == 0.0 then
      // Q / area divides by zero
      Failed(Uncaught)
    else if |rows| == 0 then
      // the first row of an empty table: IndexError
      Failed(Uncaught)
    else
      var v := Velocity(q, a);
      var x := NarrowRow(rows, Fields(Reynolds(d, v), CircleArea(d1) / a, angle));
      Done(StandardOf(v, x.c))
  }

  /**
   * Each stage is confined to the rows the previous one left: Re is the
   * floor over the table, A1/A the ceiling inside that Re group, and the
   * angle is resolved inside that A1/A group.
   */
  lemma StagesNarrow(rows: seq<Row>, re: real, ratio: real, angle: real, x: Row)
    requires |rows| > 0 && x in Narrow(rows, Fields(re, ratio, angle))
    ensures x.re == Floor(Column(rows, Re), re)
    ensures var s1 := Matching(rows, Re, x.re);
      |s1| > 0 && x.ratio == Ceil(Column(s1, Ratio), ratio) &&
      var s2 := Matching(s1, Ratio, x.ratio);
      |s2| > 0 && x.angle == Pick(Column(s2, Angle), AnglePolicy(angle), angle)
  {
    var fs := Fields(re, ratio, angle);
    NarrowPicks(rows, fs, x);
    var s1 := Matching(rows, Re, x.re);
    assert fs[1..] == [fs[1], fs[2]];
    assert x in s1 by { assert x in Narrow(s1, fs[1..]); }
    NarrowPicks(s1, fs[1..], x);
    var s2 := Matching(s1, Ratio, x.ratio);
    assert fs[1..][1..] == [fs[2]];
    assert x in s2 by { assert x in Narrow(s2, fs[1..][1..]); }
    NarrowPicks(s2, fs[1..][1..], x);
  }
}
