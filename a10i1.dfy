/**
 * A10I1: a symmetrical round wye. Two branches of equal diameter converge
 * into a main of twice their area; each branch is looked up on the angle
 * and its own share of the converged flow.
 */
module A10I1 {
  import opened Wrappers
  import opened Lookup
  import opened Pipeline

  /** A10I1 projected on (ANGLE, Q_1b/Qc or Q_2b/Qc, C). */
  datatype Row = Row(angle: real, qbQc: real, c: real)

  function Angle(r: Row): real { r.angle }
  function QbQc(r: Row): real { r.qbQc }

  /**
   * Among the rows with ANGLE at least `theta` and flow share at least
   * `ratio`, the first after a stable sort on (ANGLE, share); without such
   * a row, the last row of the table as stored.
   */
  function Coefficient(rows: seq<Row>, theta: real, ratio: real): (c: real)
    requires |rows| > 0
    ensures (exists j :: 0 <= j < |rows| && rows[j].angle >= theta && rows[j].qbQc >= ratio) ==>
      exists i :: (0 <= i < |rows| && rows[i].c == c && rows[i].angle >= theta && rows[i].qbQc >= ratio &&
                   forall j :: 0 <= j < |rows| && rows[j].angle >= theta && rows[j].qbQc >= ratio ==>
                     rows[i].angle < rows[j].angle || (rows[i].angle == rows[j].angle && rows[i].qbQc <= rows[j].qbQc))
    ensures (forall j :: 0 <= j < |rows| ==> !(rows[j].angle >= theta && rows[j].qbQc >= ratio)) ==>
      c == rows[|rows| - 1].c
  {
    var p := (r: Row) => r.angle >= theta && r.qbQc >= ratio;
    match FirstLeast(rows, p, ByKeys(Angle, QbQc))
    case Some(i) =>
      FirstLeastByKeys(rows, p, Angle, QbQc, i);
      rows[i].c
    case None => rows[|rows| - 1].c
  }

  /**
   * One branch of flow `qb` out of the converged flow `qc`, through a
   * branch of area `area` square inches.
   */
  function ComputeBranch(rows: seq<Row>, area: real, theta: real, qb: real, qc: real): (s: Standard)
    requires |rows| > 0 && area != 0.0 && qc != 0.0
    ensures Consistent(s)
    ensures s.velocity * area == SQ_IN_PER_SQ_FT * qb
    ensures s.coefficient == Coefficient(rows, theta, qb / qc)
  {
    StandardOf(Velocity(qb, area), Coefficient(rows, theta, qb / qc))
  }

  /**
   * Branch diameter D (in), ANGLE (deg) and the two branch flows Q1b and
   * Q2b (cfm); a zero counts as missing.
   */
  function Outputs(d: Option<real>, theta: Option<real>, q1: Option<real>, q2: Option<real>,
                   rows: seq<Row>): (r: Outcome<DualBranch>)
    ensures r == Failed(MissingInput) <==> AnyFalsy([d, theta, q1, q2])
    ensures !AnyFalsy([d, theta, q1, q2]) ==> r == Compute(d.value, theta.value, q1.value, q2.value, rows)
  {
    if AnyFalsy([d, theta, q1, q2]) then Failed(MissingInput)
    else Compute(d.value, theta.value, q1.value, q2.value, rows)
  }

  /**
   * The routine once every input is present and non-zero. The main
   * velocity divides by the main area before the table is checked; each
   * branch then divides by the converged flow Q1b + Q2b.
   */
  function Compute(d: real, theta: real, q1: real, q2: real, rows: seq<Row>): (r: Outcome<DualBranch>)
    ensures r.Done? || r == Failed(Raised) || r == Failed(NoData)
    ensures r == Failed(Raised) <==> CircleArea(d) == 0.0 || (|rows| > 0 && q1 + q2 == 0.0)
    ensures r == Failed(NoData) <==> CircleArea(d) != 0.0 && |rows| == 0
    ensures r.Done? ==>
      CircleArea(d) != 0.0 && |rows| > 0 && q1 + q2 != 0.0 &&
      r.out.branch1 == ComputeBranch(rows, CircleArea(d), theta, q1, q1 + q2) &&
      r.out.branch2 == ComputeBranch(rows, CircleArea(d), theta, q2, q1 + q2) &&
      r.out.mainVelocity * (2.0 * CircleArea(d)) == SQ_IN_PER_SQ_FT * (q1 + q2) &&
      r.out.mainVelocityPressure == VelocityPressure(r.out.mainVelocity)
  {
    if CircleArea(d) == 0.0 then
      // Qc / A_main: ZeroDivisionError, caught
      Failed(Raised)
    else if |rows| == 0 then Failed(NoData)
    else if q1 + q2 == 0.0 then
      // qb / Qc: ZeroDivisionError, caught
      Failed(Raised)
    else
      var vc := Velocity(q1 + q2, 2.0 * CircleArea(d));
      Done(DualBranch(ComputeBranch(rows, CircleArea(d), theta, q1, q1 + q2),
                      ComputeBranch(rows, CircleArea(d), theta, q2, q1 + q2),
                      vc, VelocityPressure(vc)))
  }

  /** Equal branch flows give Branch 1 and Branch 2 the same four values. */
  lemma EqualFlowsSymmetric(d: real, theta: real, q: real, rows: seq<Row>)
    requires Compute(d, theta, q, q, rows).Done?
    ensures Compute(d, theta, q, q, rows).out.branch1 == Compute(d, theta, q, q, rows).out.branch2
  {
  }

  /** Exchanging the two branch flows exchanges the two branches and leaves the main alone. */
  lemma SwappedFlows(d: real, theta: real, q1: real, q2: real, rows: seq<Row>)
    requires Compute(d, theta, q1, q2, rows).Done?
    ensures Compute(d, theta, q2, q1, rows).Done?
    ensures Compute(d, theta, q2, q1, rows).out.branch1 == Compute(d, theta, q1, q2, rows).out.branch2
    ensures Compute(d, theta, q2, q1, rows).out.branch2 == Compute(d, theta, q1, q2, rows).out.branch1
    ensures Compute(d, theta, q2, q1, rows).out.mainVelocity == Compute(d, theta, q1, q2, rows).out.mainVelocity
  {
  }
}
