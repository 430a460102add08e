/**
 * A11A: a diverging round tee or wye. The branch rows are those named for
 * the whole-degree angle; the branch coefficient is the least
 * (Ab/Ac, Qb/Qc) row reaching both of the duct's ratios, the main
 * coefficient the least Vs/Vc row reaching the duct's, and either is
 * absent when no row reaches.
 */
module A11A {
  import opened Wrappers
  import opened Lookup
  import opened Pipeline
  import opened Text

  /** A11A projected on (PATH, NAME, Ab/Ac, Qb/Qc, Vs/Vc, C). */
  datatype Row = Row(path: string, name: string, abAc: real, qbQc: real, vsVc: real, c: real)

  function AbAc(r: Row): real { r.abAc }
  function QbQc(r: Row): real { r.qbQc }
  function VsVc(r: Row): real { r.vsVc }

  /** `int(x)`: the integer part, truncating toward zero. */
  function Trunc(x: real): (i: int)
    ensures x >= 0.0 ==> i as real <= x < i as real + 1.0
    ensures x < 0.0 ==> i as real - 1.0 < x <= i as real
  {
    if x >= 0.0 then x.Floor else -((-x).Floor)
  }

  const NAME_PREFIX: string := "Tee or Wye, "
  const MAIN_NAME: string := "Tee or Wye, Main"

  /** The NAME of the branch rows for an angle in degrees. */
  function AngleName(angle: real): (s: string)
    ensures |s| > |NAME_PREFIX| + 1 && s[..|NAME_PREFIX|] == NAME_PREFIX && s[|s| - 1] == '°'
  {
    NAME_PREFIX + IntToString(Trunc(angle)) + "°"
  }

  /** Two angles select the same branch rows exactly when they have the same whole-degree part. */
  lemma AngleNameSame(a: real, b: real)
    ensures AngleName(a) == AngleName(b) <==> Trunc(a) == Trunc(b)
  {
    if AngleName(a) == AngleName(b) {
      var n := |NAME_PREFIX|;
      assert AngleName(a)[n..|AngleName(a)| - 1] == IntToString(Trunc(a));
      assert AngleName(b)[n..|AngleName(b)| - 1] == IntToString(Trunc(b));
      IntToStringInjective(Trunc(a), Trunc(b));
    }
  }

  /** The rows of `path` carrying NAME `name`. */
  function Selection(table: seq<Row>, path: string, name: string): (s: seq<Row>)
    ensures forall x :: x in s <==> x in table && x.path == path && x.name == name
  {
    Where(table, (r: Row) => r.path == path && r.name == name)
  }

  /**
   * Among the rows with Ab/Ac and Qb/Qc at least the duct's, the C of the
   * first after a stable sort on (Ab/Ac, Qb/Qc); `None` without such a row.
   */
  function BranchCoefficient(rows: seq<Row>, abAc: real, qbQc: real): (c: Option<real>)
    ensures c.None? <==> forall j :: 0 <= j < |rows| ==> !(rows[j].abAc >= abAc && rows[j].qbQc >= qbQc)
    ensures c.Some? ==>
      exists i :: (0 <= i < |rows| && rows[i].c == c.value && rows[i].abAc >= abAc && rows[i].qbQc >= qbQc &&
                   forall j :: 0 <= j < |rows| && rows[j].abAc >= abAc && rows[j].qbQc >= qbQc ==>
                     rows[i].abAc < rows[j].abAc || (rows[i].abAc == rows[j].abAc && rows[i].qbQc <= rows[j].qbQc))
  {
    var p := (r: Row) => r.abAc >= abAc && r.qbQc >= qbQc;
    match FirstLeast(rows, p, ByKeys(AbAc, QbQc))
    case Some(i) =>
      FirstLeastByKeys(rows, p, AbAc, QbQc, i);
      Some(rows[i].c)
    case None => None
  }

  /** The C of the first row of least Vs/Vc at least the duct's; `None` without such a row. */
  function MainCoefficient(rows: seq<Row>, vsVc: real): (c: Option<real>)
    ensures c.None? <==> forall j :: 0 <= j < |rows| ==> rows[j].vsVc < vsVc
    ensures c.Some? ==>
      exists i :: (0 <= i < |rows| && rows[i].c == c.value && rows[i].vsVc >= vsVc &&
                   forall j :: 0 <= j < |rows| && rows[j].vsVc >= vsVc ==> rows[i].vsVc <= rows[j].vsVc)
  {
    var p := (r: Row) => r.vsVc >= vsVc;
    match FirstLeast(rows, p, ByKey(VsVc))
    case Some(i) =>
      forall j | 0 <= j < |rows| && p(rows[j]) ensures rows[i].vsVc <= rows[j].vsVc {
        ByKeyOrder(VsVc, rows[j], rows[i]);
      }
      Some(rows[i].c)
    case None => None
  }

  /** Outputs of a diverging junction whose coefficients may be absent. */
  datatype Diverging = Diverging(branchVelocity: real, branchVelocityPressure: real,
                                 branchCoefficient: Option<real>, branchLoss: Option<real>,
                                 sourceVelocity: real, convergedVelocity: real,
                                 sourceVelocityPressure: real, convergedVelocityPressure: real,
                                 mainCoefficient: Option<real>, mainLoss: Option<real>)

  /** Absent coefficient, absent loss; otherwise C times the velocity pressure. */
  function LossOf(c: Option<real>, vp: real): (loss: Option<real>)
    ensures loss.Some? <==> c.Some?
    ensures c.Some? ==> loss.value == c.value * vp
  {
    match c
    case Some(x) => Some(x * vp)
    case None => None
  }

  /** Each velocity pressure belongs to its velocity; the main loss uses the converged one. */
  predicate DivergingConsistent(d: Diverging) {
    d.branchVelocityPressure == VelocityPressure(d.branchVelocity) &&
    d.sourceVelocityPressure == VelocityPressure(d.sourceVelocity) &&
    d.convergedVelocityPressure == VelocityPressure(d.convergedVelocity) &&
    d.branchLoss == LossOf(d.branchCoefficient, d.branchVelocityPressure) &&
    d.mainLoss == LossOf(d.mainCoefficient, d.convergedVelocityPressure)
  }

  /** Ab/Ac from the two diameters, both areas in square feet. */
  function AreaRatio(db: real, dm: real): real
    requires CircleArea(dm) != 0.0
  {
    (CircleArea(db) / SQ_IN_PER_SQ_FT) / (CircleArea(dm) / SQ_IN_PER_SQ_FT)
  }

  /** Vs/Vc through a main of `area` square inches. */
  function SpeedRatio(qc: real, qb: real, area: real): real
    requires area != 0.0 && qc != 0.0
  {
    var vc := Velocity(qc, area);
    assert vc != 0.0 by { assert vc * area == SQ_IN_PER_SQ_FT * qc; }
    Velocity(qc - qb, area) / vc
  }

  /**
   * Main diameter Dc, branch diameter Db (in), ANGLE (deg), converged flow
   * Qc and branch flow Qb (cfm). Zero is an accepted value.
   */
  function Outputs(dm: Option<real>, db: Option<real>, angle: Option<real>, qc: Option<real>, qb: Option<real>,
                   table: seq<Row>): (r: Outcome<Diverging>)
    ensures r == Failed(MissingInput) <==> AnyNone([dm, db, angle, qc, qb])
    ensures !AnyNone([dm, db, angle, qc, qb]) ==>
      r == Compute(dm.value, db.value, angle.value, qc.value, qb.value, table)
  {
    if AnyNone([dm, db, angle, qc, qb]) then Failed(MissingInput)
    else Compute(dm.value, db.value, angle.value, qc.value, qb.value, table)
  }

  /**
   * The routine once every input is present. The source flow is Qc - Qb.
   * A zero area or a zero converged flow is a division by zero; a missing
   * coefficient leaves its loss absent and is not an error.
   */
  function Compute(dm: real, db: real, angle: real, qc: real, qb: real, table: seq<Row>): (r: Outcome<Diverging>)
    ensures r.Done? || r == Failed(Raised)
    ensures r == Failed(Raised) <==> CircleArea(dm) == 0.0 || CircleArea(db) == 0.0 || qc == 0.0
    ensures r.Done? ==>
      CircleArea(dm) != 0.0 && CircleArea(db) != 0.0 && qc != 0.0 &&
      DivergingConsistent(r.out) &&
      r.out.branchVelocity == Velocity(qb, CircleArea(db)) &&
      r.out.sourceVelocity == Velocity(qc - qb, CircleArea(dm)) &&
      r.out.convergedVelocity == Velocity(qc, CircleArea(dm)) &&
      r.out.branchCoefficient ==
        BranchCoefficient(Selection(table, "branch", AngleName(angle)), AreaRatio(db, dm), qb / qc) &&
      r.out.mainCoefficient == MainCoefficient(Selection(table, "main", MAIN_NAME), SpeedRatio(qc, qb, CircleArea(dm)))
  {
    if CircleArea(dm) == 0.0 || CircleArea(db) == 0.0 || qc == 0.0 then
      // Qc / A_main, Qb / A_branch or Qb / Qc: ZeroDivisionError, caught
      Failed(Raised)
    else
      var vb, vs, vc := Velocity(qb, CircleArea(db)), Velocity(qc - qb, CircleArea(dm)), Velocity(qc, CircleArea(dm));
      var pvb, pvs, pvc := VelocityPressure(vb), VelocityPressure(vs), VelocityPressure(vc);
      var cb := BranchCoefficient(Selection(table, "branch", AngleName(angle)), AreaRatio(db, dm), qb / qc);
      var cm := MainCoefficient(Selection(table, "main", MAIN_NAME), SpeedRatio(qc, qb, CircleArea(dm)));
      Done(Diverging(vb, pvb, cb, LossOf(cb, pvb), vs, vc, pvs, pvc, cm, LossOf(cm, pvc)))
  }
}
